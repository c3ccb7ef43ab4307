/** Chunked sequences as values: what a list of chunks means, what a place in it
    is, and what the edits made at a place do to both. */
module Chunks {
  import Arithmetic
  import Sequences

  /** The one flat sequence that a list of chunks stands for. */
  ghost function Flat<T>(cs: seq<seq<T>>): seq<T>
  {
    if cs == [] then [] else cs[0] + Flat(cs[1..])
  }

  /** No chunk is empty unless it is the only one. */
  ghost predicate Tight<T>(cs: seq<seq<T>>)
  {
    forall i :: 0 <= i < |cs| && cs[i] == [] ==> |cs| == 1
  }

  ghost predicate Bounded<T>(cs: seq<seq<T>>, size: nat)
  {
    forall i :: 0 <= i < |cs| ==> |cs[i]| <= size
  }

  /** `s` with up to `n` elements removed from `p` on. */
  ghost function Without<T>(s: seq<T>, p: nat, n: nat): seq<T>
    requires p <= |s|
  {
    s[..p] + s[Arithmetic.Min(p + n, |s|)..]
  }

  lemma WithoutMore<T>(s: seq<T>, p: nat, n: nat, m: nat)
    requires p <= |s|
    ensures Without(Without(s, p, n), p, m) == Without(s, p, n + m)
    ensures Without(s, p, 0) == s
  {
  }

  lemma WithoutAtEnd<T>(s: seq<T>, n: nat)
    ensures Without(s, |s|, n) == s
    ensures n >= |s| ==> Without(s, 0, n) == []
  {
  }

  // ----- the flat sequence seen from one chunk

  lemma {:induction false} FlatConcat<T>(a: seq<seq<T>>, b: seq<seq<T>>)
    ensures Flat(a + b) == Flat(a) + Flat(b)
  {
    Sequences.TailOfConcat(a, b);
    if a != [] {
      FlatConcat(a[1..], b);
      Sequences.Assoc(a[0], Flat(a[1..]), Flat(b));
    }
  }

  lemma FlatSingle<T>(c: seq<T>)
    ensures Flat([c]) == c
  {
    assert [c][1..] == [];
  }

  lemma FlatNext<T>(cs: seq<seq<T>>, vec: nat)
    requires vec < |cs|
    ensures Flat(cs[..vec + 1]) == Flat(cs[..vec]) + cs[vec]
  {
    FlatConcat(cs[..vec], [cs[vec]]);
    Sequences.Rejoin(cs, vec);
    FlatSingle(cs[vec]);
  }

  lemma FlatThree<T>(a: seq<seq<T>>, b: seq<seq<T>>, c: seq<seq<T>>)
    ensures Flat(a + b + c) == Flat(a) + Flat(b) + Flat(c)
  {
    FlatConcat(a + b, c);
    FlatConcat(a, b);
  }

  lemma FlatAround<T>(cs: seq<seq<T>>, vec: nat)
    requires vec < |cs|
    ensures Flat(cs) == Flat(cs[..vec]) + cs[vec] + Flat(cs[vec + 1..])
  {
    Sequences.Rejoin(cs, vec);
    FlatThree(cs[..vec], [cs[vec]], cs[vec + 1..]);
    FlatSingle(cs[vec]);
  }

  lemma Splice<T>(a: seq<T>, c: seq<T>, b: seq<T>, first: nat, last: nat, mid: seq<T>)
    requires first <= last <= |c|
    ensures var f, p := a + c + b, |a| + first;
      a + (c[..first] + mid + c[last..]) + b == f[..p] + mid + f[p + (last - first)..]
  {
  }

  lemma FlatPair<T>(c: seq<T>, k: nat)
    requires k <= |c|
    ensures Flat([c[..k], c[k..]]) == c
  {
    assert [c[..k], c[k..]][1..] == [c[k..]];
    FlatSingle(c[k..]);
  }

  lemma FlatAppend<T>(cs: seq<seq<T>>, x: T)
    requires cs != []
    ensures Flat(cs[|cs| - 1 := cs[|cs| - 1] + [x]]) == Flat(cs) + [x]
  {
    var last := |cs| - 1;
    FlatAround(cs, last);
    FlatAround(cs[last := cs[last] + [x]], last);
    assert cs[last := cs[last] + [x]][..last] == cs[..last];
  }

  lemma FlatEmptyChunk<T>(cs: seq<seq<T>>)
    ensures Flat(cs + [[]]) == Flat(cs)
  {
    FlatConcat(cs, [[]]);
    FlatSingle<T>([]);
  }

  /** With an empty chunk put behind a full last one, or behind none. */
  ghost function Roomy<T>(cs: seq<seq<T>>, size: nat): (roomy: seq<seq<T>>)
    ensures roomy != []
  {
    if cs != [] && |cs[|cs| - 1]| < size then cs else cs + [[]]
  }

  ghost function Pushed<T>(cs: seq<seq<T>>, x: T, size: nat): seq<seq<T>>
  {
    var roomy := Roomy(cs, size);
    roomy[|roomy| - 1 := roomy[|roomy| - 1] + [x]]
  }

  /** Appending to the last of the chunks appends to the flat sequence. */
  lemma PushedMeans<T>(cs: seq<seq<T>>, x: T, size: nat)
    requires size > 0
    ensures Flat(Pushed(cs, x, size)) == Flat(cs) + [x]
    ensures Bounded(cs, size) ==> Bounded(Pushed(cs, x, size), size)
    ensures Tight(cs) ==> Tight(Pushed(cs, x, size))
  {
    FlatEmptyChunk(cs);
    FlatAppend(Roomy(cs, size), x);
  }

  /** A place in a list of chunks: a chunk, or behind the last one, and an
      element of it, or behind its last one. */
  datatype Place<T> = Place(cs: seq<seq<T>>, vec: nat, item: nat)
  {
    ghost predicate Ok() { vec <= |cs| && (vec < |cs| ==> item <= |cs[vec]|) }

    /** The place in the flat sequence. */
    ghost function Pos(): nat
      requires Ok()
    {
      |Flat(cs[..vec])| + if vec < |cs| then item else 0
    }

    ghost predicate AtElement() { vec < |cs| && item < |cs[vec]| }

    /** Goes on to the next chunk when this one has nothing more. */
    ghost function Settled(): Place<T>
      requires Ok() && vec < |cs|
    {
      if item == |cs[vec]|
      then this.(vec := vec + 1, item := if vec + 1 == |cs| then item else 0)
      else this
    }

    /** Chunk `vec` cut in two after `split` elements when it holds `size`. */
    ghost function Ensured(size: nat, split: nat): Place<T>
      requires Ok() && vec < |cs| && split <= size
    {
      if |cs[vec]| < size then this else
      var cut := cs[..vec] + [cs[vec][..split], cs[vec][split..]] + cs[vec + 1..];
      if item < split then Place(cut, vec, item) else Place(cut, vec + 1, item - split)
    }

    /** Elements `first` to `last` of chunk `vec` replaced by `mid`. */
    ghost function Edited(first: nat, last: nat, mid: seq<T>): Place<T>
      requires vec < |cs| && first <= last <= |cs[vec]|
    {
      this.(cs := cs[vec := cs[vec][..first] + mid + cs[vec][last..]])
    }

    ghost function Dropped(): Place<T>
      requires vec < |cs|
    {
      this.(cs := cs[..vec] + cs[vec + 1..])
    }

    ghost function Inserted(x: T, size: nat, split: nat): Place<T>
      requires Ok() && vec < |cs| && split <= size
    {
      var room := Ensured(size, split);
      room.Edited(room.item, room.item, [x])
    }

    /** Leaves the chunk when there is nothing more here, dropping it when it is
        empty and not the only one. */
    ghost function Left(): Place<T>
      requires Ok() && vec < |cs|
    {
      if cs[vec] == [] && |cs| > 1
      then Dropped().(item := if vec + 1 == |cs| then item else 0)
      else Settled()
    }

    ghost function Removed(): Place<T>
      requires Ok() && vec < |cs|
    {
      (if item < |cs[vec]| then Edited(item, item + 1, []) else this).Left()
    }

    /** Everything from the place to the end of its chunk removed: the whole
        chunk goes when that is all of it. */
    ghost function TailRemoved(): Place<T>
      requires Ok() && vec < |cs|
    {
      if item == 0 then Dropped() else Edited(item, |cs[vec]|, []).Settled()
    }

    /** What is left after up to `n` elements are removed, chunk by chunk. */
    ghost function RemovedMany(n: nat): Place<T>
      requires Ok() && (n > 0 ==> vec < |cs|)
      decreases |cs| - vec
    {
      if n == 0 then this
      else if |cs[vec]| - item > n then Edited(item, item + n, [])
      else if item == 0 && |cs| == 1 then this.(cs := [[]])
      else if TailRemoved().vec == |TailRemoved().cs| then TailRemoved()
      else TailRemoved().RemovedMany(n - (|cs[vec]| - item))
    }
  }

  /** What a list cut before chunk `at` and a list given the rest of it hold. */
  lemma SplitMeans<T>(cs: seq<seq<T>>, at: nat, to: seq<seq<T>>)
    requires at <= |cs|
    ensures Flat(cs[..at]) + Flat(cs[at..]) == Flat(cs)
    ensures Flat(to + cs[at..]) == Flat(to) + Flat(cs[at..])
  {
    FlatConcat(cs[..at], cs[at..]);
    FlatConcat(to, cs[at..]);
    assert cs[..at] + cs[at..] == cs;
  }

  /** Joining two tight lists gives a tight list exactly when no empty chunk
      meets another chunk. */
  lemma TightConcat<T>(a: seq<seq<T>>, b: seq<seq<T>>)
    requires Tight(a) && Tight(b)
    ensures Tight(a + b) <==> a == [] || b == [] || (a != [[]] && b != [[]])
  {
    if a == [[]] && b != [] { assert (a + b)[0] == []; }
    if b == [[]] && a != [] { assert (a + b)[|a|] == []; }
    if a != [] && b != [] && a != [[]] && b != [[]] {
      assert forall i :: 0 <= i < |a + b| ==> (a + b)[i] == if i < |a| then a[i] else b[i - |a|];
    }
    Sequences.TailOfConcat(a, b);
  }

  // ----- what the edits mean

  lemma PosBound<T>(p: Place<T>)
    requires p.Ok()
    ensures p.Pos() <= |Flat(p.cs)|
    ensures p.AtElement() ==> p.Pos() < |Flat(p.cs)|
    ensures p.vec == |p.cs| ==> p.Pos() == |Flat(p.cs)|
  {
    if p.vec < |p.cs| {
      FlatAround(p.cs, p.vec);
    } else {
      assert p.cs[..p.vec] == p.cs;
    }
  }

  lemma ElementHere<T>(p: Place<T>)
    requires p.AtElement()
    ensures p.Pos() < |Flat(p.cs)| && Flat(p.cs)[p.Pos()] == p.cs[p.vec][p.item]
  {
    FlatAround(p.cs, p.vec);
  }

  /** An empty chunk starts at the position. */
  ghost predicate Gap<T>(cs: seq<seq<T>>, pos: nat)
  {
    exists k :: GapAt(cs, pos, k)
  }

  ghost predicate GapAt<T>(cs: seq<seq<T>>, pos: nat, k: int)
  {
    0 <= k < |cs| && cs[k] == [] && |Flat(cs[..k])| == pos
  }

  /** No chunk before starts at the position or past it. */
  ghost predicate FirstAt<T>(p: Place<T>)
  {
    p.Ok() && forall k :: 0 <= k < p.vec ==> |Flat(p.cs[..k])| < p.Pos()
  }

  /** The place found for `offset`: at it, or at the end, and before any other there. */
  ghost predicate Landed<T>(p: Place<T>, offset: nat)
  {
    && p.Ok() && p.Pos() == Arithmetic.Min(offset, |Flat(p.cs)|)
    && (offset <= |Flat(p.cs)| ==> FirstAt(p))
    && (p.AtElement() || p.item == 0 || p.vec == |p.cs|)
  }

  /** The chunks before `vec` start before `offset`, and `rest` is what is left of it. */
  ghost predicate LookedTo<T>(cs: seq<seq<T>>, vec: nat, offset: nat, rest: nat)
  {
    && vec <= |cs| && offset == |Flat(cs[..vec])| + rest
    && (forall k :: 0 <= k < vec ==> |Flat(cs[..k])| < offset)
  }

  lemma LookOn<T>(cs: seq<seq<T>>, vec: nat, offset: nat, rest: nat)
    requires LookedTo(cs, vec, offset, rest) && vec < |cs| && rest != 0 && |cs[vec]| <= rest
    ensures LookedTo(cs, vec + 1, offset, rest - |cs[vec]|)
  {
    FlatNext(cs, vec);
  }

  lemma LandsHere<T>(p: Place<T>, offset: nat, rest: nat)
    requires LookedTo(p.cs, p.vec, offset, rest)
    requires if p.vec < |p.cs| then p.item == rest && (rest == 0 || rest < |p.cs[p.vec]|) else p.item == 0
    ensures Landed(p, offset)
  {
    PosBound(p);
  }

  /** The first place for a position that is not past the end is on an element unless an
      empty chunk starts there. */
  lemma FirstAtElement<T>(p: Place<T>)
    requires FirstAt(p) && (p.AtElement() || p.item == 0 || p.vec == |p.cs|)
    ensures p.AtElement() <==> p.Pos() < |Flat(p.cs)| && !Gap(p.cs, p.Pos())
  {
    PosBound(p);
    if p.AtElement() {
      forall k ensures !GapAt(p.cs, p.Pos(), k) {
        if p.vec < k < |p.cs| {
          FlatNext(p.cs, p.vec);
          FlatGrows(p.cs, p.vec + 1, k);
        }
      }
    } else if p.vec < |p.cs| {
      assert GapAt(p.cs, p.Pos(), p.vec);
    }
  }

  lemma {:induction false} FlatGrows<T>(cs: seq<seq<T>>, j: nat, k: nat)
    requires j <= k <= |cs|
    ensures |Flat(cs[..j])| <= |Flat(cs[..k])|
    decreases k
  {
    if j < k {
      FlatGrows(cs, j, k - 1);
      FlatNext(cs, k - 1);
    }
  }

  /** In a tight list a settled place is on an element unless it is at the end. */
  lemma AtElementIffBeforeEnd<T>(p: Place<T>)
    requires p.Ok() && Tight(p.cs) && (p.AtElement() || p.item == 0 || p.vec == |p.cs|)
    ensures p.AtElement() <==> p.Pos() < |Flat(p.cs)|
  {
    PosBound(p);
    if p.vec < |p.cs| && !p.AtElement() {
      assert p.cs == [[]];
      FlatSingle<T>([]);
    }
  }

  lemma EditedMeans<T>(p: Place<T>, first: nat, last: nat, mid: seq<T>)
    requires p.vec < |p.cs| && first <= last <= |p.cs[p.vec]|
    ensures var at := p.(item := first).Pos();
      && at + (last - first) <= |Flat(p.cs)|
      && Flat(p.Edited(first, last, mid).cs) == Flat(p.cs)[..at] + mid + Flat(p.cs)[at + (last - first)..]
      && p.Edited(first, last, mid).cs[..p.vec] == p.cs[..p.vec]
  {
    var edited := p.Edited(first, last, mid).cs;
    assert edited[..p.vec] == p.cs[..p.vec] && edited[p.vec + 1..] == p.cs[p.vec + 1..];
    FlatAround(p.cs, p.vec);
    FlatAround(edited, p.vec);
    Splice(Flat(p.cs[..p.vec]), p.cs[p.vec], Flat(p.cs[p.vec + 1..]), first, last, mid);
  }

  /** Erasing inside a chunk is erasing in the flat sequence, at the same place. */
  lemma ErasedMeans<T>(p: Place<T>, last: nat)
    requires p.Ok() && p.vec < |p.cs| && p.item <= last <= |p.cs[p.vec]|
    ensures var e := p.Edited(p.item, last, []);
      && e.Ok() && p.Pos() <= |Flat(p.cs)| && e.Pos() == p.Pos()
      && Flat(e.cs) == Without(Flat(p.cs), p.Pos(), last - p.item)
  {
    EditedMeans(p, p.item, last, []);
  }

  lemma DroppedMeans<T>(p: Place<T>)
    requires p.Ok() && p.vec < |p.cs| && p.item == 0
    ensures var d := p.Dropped();
      && d.Ok() && p.Pos() <= |Flat(p.cs)| && d.Pos() == p.Pos()
      && Flat(d.cs) == Without(Flat(p.cs), p.Pos(), |p.cs[p.vec]|)
  {
    FlatAround(p.cs, p.vec);
    FlatConcat(p.cs[..p.vec], p.cs[p.vec + 1..]);
    assert p.Dropped().cs[..p.vec] == p.cs[..p.vec];
  }

  lemma SettledMeans<T>(p: Place<T>)
    requires p.Ok() && p.vec < |p.cs|
    ensures p.Settled().Ok() && p.Settled().Pos() == p.Pos()
  {
    FlatNext(p.cs, p.vec);
  }

  /** Cutting a full chunk changes neither the flat sequence nor the place in it. */
  lemma EnsuredMeans<T>(p: Place<T>, size: nat, split: nat)
    requires p.Ok() && p.vec < |p.cs| && split <= size
    ensures var e := p.Ensured(size, split);
      && e.Ok() && e.vec < |e.cs| && e.Pos() == p.Pos() && Flat(e.cs) == Flat(p.cs)
      && (p.AtElement() <==> e.AtElement())
  {
    if |p.cs[p.vec]| >= size {
      var e, c := p.Ensured(size, split), p.cs[p.vec];
      FlatThree(p.cs[..p.vec], [c[..split], c[split..]], p.cs[p.vec + 1..]);
      FlatPair(c, split);
      FlatAround(p.cs, p.vec);
      FlatNext(e.cs, p.vec);
      assert e.cs[..p.vec] == p.cs[..p.vec];
    }
  }

  lemma EnsuredOk<T>(p: Place<T>, size: nat, split: nat)
    requires p.Ok() && p.vec < |p.cs| && 0 < split < size
    ensures p.Ensured(size, split).Ok()
  {
    var c := p.cs[p.vec];
    if |c| >= size { Sequences.PairInstead(p.cs, p.vec, c[..split], c[split..]); }
  }

  /** A chunk that was cut leaves two that have room and are not empty. */
  lemma EnsuredShape<T>(p: Place<T>, size: nat, split: nat)
    requires p.Ok() && p.vec < |p.cs| && 0 < split < size && Bounded(p.cs, size)
    ensures var e := p.Ensured(size, split);
      && Bounded(e.cs, size) && |e.cs[e.vec]| < size && (Tight(p.cs) ==> Tight(e.cs))
  {
    var e, c := p.Ensured(size, split), p.cs[p.vec];
    if |c| >= size {
      Sequences.PairInstead(p.cs, p.vec, c[..split], c[split..]);
      forall i | 0 <= i < |e.cs|
        ensures |e.cs[i]| <= size && (Tight(p.cs) ==> e.cs[i] != [])
      {
        if i < p.vec { assert e.cs[i] == p.cs[i]; }
        if i > p.vec + 1 { assert e.cs[i] == p.cs[i - 1]; }
      }
    }
  }

  /** Insertion puts `x` at the place in the flat sequence and stays on it;
      chunks stay within bounds and none becomes empty. */
  lemma InsertedMeans<T>(p: Place<T>, x: T, size: nat, split: nat)
    requires p.Ok() && p.vec < |p.cs| && 0 < split < size && Bounded(p.cs, size)
    ensures var q := p.Inserted(x, size, split);
      && q.Ok() && q.AtElement() && q.Pos() == p.Pos() <= |Flat(p.cs)|
      && Flat(q.cs) == Flat(p.cs)[..p.Pos()] + [x] + Flat(p.cs)[p.Pos()..]
      && Bounded(q.cs, size) && (Tight(p.cs) ==> Tight(q.cs))
  {
    EnsuredMeans(p, size, split);
    EnsuredShape(p, size, split);
    var e := p.Ensured(size, split);
    EditedMeans(e, e.item, e.item, [x]);
  }

  /** Removal takes out the element at the place, when there is one, and stays. */
  lemma RemovedMeans<T>(p: Place<T>)
    requires p.Ok() && p.vec < |p.cs|
    ensures var q := p.Removed();
      && q.Ok() && q.Pos() == p.Pos() <= |Flat(p.cs)|
      && Flat(q.cs) == Without(Flat(p.cs), p.Pos(), if p.AtElement() then 1 else 0)
  {
    PosBound(p);
    WithoutMore(Flat(p.cs), p.Pos(), 0, 0);
    var erased := if p.AtElement() then p.Edited(p.item, p.item + 1, []) else p;
    if p.AtElement() { ErasedMeans(p, p.item + 1); }
    if erased.cs[p.vec] == [] && |p.cs| > 1 {
      DroppedMeans(erased);
      PosBound(erased);
      WithoutMore(Flat(erased.cs), erased.Pos(), 0, 0);
    } else {
      SettledMeans(erased);
    }
  }

  lemma RemovedShape<T>(p: Place<T>, size: nat)
    requires p.Ok() && p.vec < |p.cs|
    ensures var q := p.Removed();
      && q.Ok() && (q.AtElement() || q.vec == |q.cs| || q.item == 0)
      && (Bounded(p.cs, size) ==> Bounded(q.cs, size))
      && (Tight(p.cs) ==> Tight(q.cs)) && q.cs != []
  {
    var erased := if p.AtElement() then p.Edited(p.item, p.item + 1, []) else p;
    if erased.cs[p.vec] == [] && |p.cs| > 1 {
      ShapeDropped(erased, size);
    }
  }

  lemma ShapeDropped<T>(p: Place<T>, size: nat)
    requires p.vec < |p.cs| && |p.cs| > 1
    ensures Bounded(p.cs, size) ==> Bounded(p.Dropped().cs, size)
    ensures (forall i :: 0 <= i < |p.cs| && i != p.vec ==> p.cs[i] != []) ==> Tight(p.Dropped().cs)
  {
    var d := p.Dropped().cs;
    assert forall i :: 0 <= i < p.vec ==> d[i] == p.cs[i];
    assert forall i :: p.vec <= i < |d| ==> d[i] == p.cs[i + 1];
  }

  lemma TailRemovedMeans<T>(p: Place<T>)
    requires p.Ok() && p.vec < |p.cs|
    ensures var q := p.TailRemoved();
      && q.Ok() && q.Pos() == p.Pos() <= |Flat(p.cs)| && |q.cs| - q.vec < |p.cs| - p.vec
      && Flat(q.cs) == Without(Flat(p.cs), p.Pos(), |p.cs[p.vec]| - p.item)
  {
    if p.item == 0 {
      DroppedMeans(p);
    } else {
      ErasedMeans(p, |p.cs[p.vec]|);
      SettledMeans(p.Edited(p.item, |p.cs[p.vec]|, []));
    }
    PosBound(p);
  }

  /** A removal that ends in the chunk where it starts. */
  lemma RemovedInside<T>(p: Place<T>, n: nat)
    requires p.Ok() && (n > 0 ==> p.vec < |p.cs|)
    requires n == 0 || |p.cs[p.vec]| - p.item > n || (p.item == 0 && |p.cs| == 1)
    ensures var q := p.RemovedMany(n);
      && q.Ok() && q.Pos() == p.Pos() <= |Flat(p.cs)|
      && Flat(q.cs) == Without(Flat(p.cs), p.Pos(), n)
  {
    if n == 0 {
      PosBound(p);
      WithoutMore(Flat(p.cs), p.Pos(), 0, 0);
    } else if |p.cs[p.vec]| - p.item > n {
      ErasedMeans(p, p.item + n);
    } else {
      OnlyChunkGone(p.cs, n);
      assert p.RemovedMany(n) == p.(cs := [[]]);
    }
  }

  /** Removing up to `n` elements chunk by chunk is removing them from the flat
      sequence; the place stays, or becomes the end. */
  lemma {:induction false} RemovedManyMeans<T>(p: Place<T>, n: nat)
    requires p.Ok() && (n > 0 ==> p.vec < |p.cs|)
    ensures var q := p.RemovedMany(n);
      && q.Ok() && q.Pos() == p.Pos() <= |Flat(p.cs)|
      && Flat(q.cs) == Without(Flat(p.cs), p.Pos(), n)
    decreases |p.cs| - p.vec
  {
    if n == 0 || |p.cs[p.vec]| - p.item > n || (p.item == 0 && |p.cs| == 1) {
      RemovedInside(p, n);
    } else {
      var q, k := p.TailRemoved(), |p.cs[p.vec]| - p.item;
      var rest := n - k;
      TailThenRest(p, q, k, rest);
      RemovedOn(p, n, q, rest);
      if q.vec < |q.cs| { RemovedManyMeans(q, rest); }
    }
  }

  /** A removal that goes on behind the chunk where it starts. */
  lemma RemovedOn<T>(p: Place<T>, n: nat, q: Place<T>, rest: int)
    requires p.Ok() && p.vec < |p.cs| && 0 < n && |p.cs[p.vec]| - p.item <= n && !(p.item == 0 && |p.cs| == 1)
    requires q == p.TailRemoved() && rest == n - (|p.cs[p.vec]| - p.item)
    ensures q.Ok() && p.RemovedMany(n) == if q.vec == |q.cs| then q else q.RemovedMany(rest)
  {
  }

  lemma OnlyChunkGone<T>(cs: seq<seq<T>>, n: nat)
    requires |cs| == 1 && n >= |cs[0]|
    ensures Without(Flat(cs), 0, n) == [] == Flat<T>([[]])
    ensures Flat(cs[..0]) == []
  {
    FlatSingle(cs[0]);
    assert cs == [cs[0]];
    FlatSingle<T>([]);
    WithoutAtEnd(cs[0], n);
  }

  /** Removing the tail of this chunk, `k` elements, and then `rest` more removes both. */
  lemma TailThenRest<T>(p: Place<T>, q: Place<T>, k: nat, rest: nat)
    requires p.Ok() && p.vec < |p.cs| && q == p.TailRemoved() && k == |p.cs[p.vec]| - p.item
    ensures q.Ok() && q.Pos() == p.Pos() && p.Pos() <= |Flat(p.cs)| && p.Pos() <= |Flat(q.cs)|
    ensures |q.cs| - q.vec < |p.cs| - p.vec
    ensures Without(Flat(q.cs), p.Pos(), rest) == Without(Flat(p.cs), p.Pos(), k + rest)
    ensures q.vec == |q.cs| ==> Flat(q.cs) == Without(Flat(p.cs), p.Pos(), k + rest)
  {
    TailRemovedMeans(p);
    PosBound(q);
    WithoutRest(Flat(p.cs), Flat(q.cs), p.Pos(), k, rest);
  }

  lemma WithoutRest<T>(s: seq<T>, t: seq<T>, p: nat, n: nat, rest: nat)
    requires p <= |s| && t == Without(s, p, n)
    ensures p <= |t| && Without(t, p, rest) == Without(s, p, n + rest)
    ensures p == |t| ==> t == Without(s, p, n + rest)
  {
    WithoutMore(s, p, n, rest);
    if p == |t| { WithoutAtEnd(t, rest); }
  }

  lemma {:induction false} RemovedManyShape<T>(p: Place<T>, n: nat, size: nat)
    requires p.Ok() && (n > 0 ==> p.vec < |p.cs|)
    ensures var q := p.RemovedMany(n);
      && (Bounded(p.cs, size) ==> Bounded(q.cs, size))
      && (Tight(p.cs) ==> Tight(q.cs)) && (p.cs != [] ==> q.cs != [])
      && q.Ok() && (n > 0 ==> q.AtElement() || q.item == 0 || q.vec == |q.cs|)
    decreases |p.cs| - p.vec
  {
    if n != 0 && |p.cs[p.vec]| - p.item <= n && !(p.item == 0 && |p.cs| == 1) {
      var q, rest := p.TailRemoved(), n - (|p.cs[p.vec]| - p.item);
      TailRemovedShape(p, size);
      if q.vec < |q.cs| {
        RemovedManyShape(q, rest, size);
        assert p.RemovedMany(n) == q.RemovedMany(rest);
      } else {
        assert p.RemovedMany(n) == q;
      }
    } else {
      RemovedInsideShape(p, n, size);
    }
  }

  lemma TailRemovedShape<T>(p: Place<T>, size: nat)
    requires p.Ok() && p.vec < |p.cs| && !(p.item == 0 && |p.cs| == 1)
    ensures var q := p.TailRemoved();
      && (Bounded(p.cs, size) ==> Bounded(q.cs, size))
      && (Tight(p.cs) ==> Tight(q.cs)) && q.cs != []
      && q.Ok() && (q.item == 0 || q.vec == |q.cs|) && |q.cs| - q.vec < |p.cs| - p.vec
  {
    if p.item == 0 { ShapeDropped(p, size); }
  }

  lemma RemovedInsideShape<T>(p: Place<T>, n: nat, size: nat)
    requires p.Ok() && (n > 0 ==> p.vec < |p.cs|)
    requires n == 0 || |p.cs[p.vec]| - p.item > n || (p.item == 0 && |p.cs| == 1)
    ensures var q := p.RemovedMany(n);
      && (Bounded(p.cs, size) ==> Bounded(q.cs, size))
      && (Tight(p.cs) ==> Tight(q.cs)) && (p.cs != [] ==> q.cs != [])
      && q.Ok() && (n > 0 ==> q.AtElement() || q.item == 0 || q.vec == |q.cs|)
  {
  }

  /** After a removal, the place is on an element exactly when one is left there. */
  lemma RemovedManyAtElement<T>(p: Place<T>, n: nat)
    requires p.Ok() && 0 < n && p.vec < |p.cs| && Tight(p.cs)
    ensures var q := p.RemovedMany(n);
      q.Ok() && (q.AtElement() <==> p.Pos() + n < |Flat(p.cs)|)
  {
    RemovedManyMeans(p, n);
    RemovedManyShape(p, n, 0);
    AtElementIffBeforeEnd(p.RemovedMany(n));
  }
}
