/** A vector of bounded vectors that behaves as one flat sequence. */
module ChunkedContainer {
  import opened Common
  import opened Vectors
  import Arithmetic
  import opened Chunks
  import Sequences

  /** No two vectors share their object or their buffer. */
  ghost predicate Apart<T(0)>(vs: seq<Vector<T>>)
    reads vs
  {
    forall i, j :: 0 <= i < j < |vs| ==> vs[i] != vs[j] && vs[i].data != vs[j].data
  }

  lemma ApartWith<T(0)>(vs: seq<Vector<T>>, k: nat, v: Vector<T>)
    requires Apart(vs) && k <= |vs|
    requires forall i :: 0 <= i < |vs| ==> vs[i] != v && vs[i].data != v.data
    ensures Apart(vs[..k] + [v] + vs[k..])
  {
    var all := vs[..k] + [v] + vs[k..];
    assert forall i :: 0 <= i < k ==> all[i] == vs[i];
    assert forall i :: k < i < |all| ==> all[i] == vs[i - 1];
  }

  lemma ApartConcat<T(0)>(a: seq<Vector<T>>, b: seq<Vector<T>>)
    requires Apart(a) && Apart(b)
    requires forall i, j :: 0 <= i < |a| && 0 <= j < |b| ==> a[i] != b[j] && a[i].data != b[j].data
    ensures Apart(a + b)
  {
  }

  class VectorsVector<T(0)> {
    var vectors: seq<Vector<T>>
    ghost var chunks: seq<seq<T>>  // the contents of the vectors, in order
    ghost var Repr: set<object>
    const SIZE: nat    // a chunk with this many elements is full
    const GROW: nat    // capacity step of a chunk
    const SPLIT: nat   // what stays in a chunk that is cut in two
    const maxSize: nat // the largest value of a chunk's size type

    ghost predicate Valid()
      reads this, Repr
      ensures Valid() ==> this in Repr
    {
      && this in Repr
      && 0 < SPLIT < SIZE <= maxSize
      && |chunks| == |vectors|
      && (forall i :: 0 <= i < |vectors| ==>
            && vectors[i] in Repr && vectors[i].data in Repr
            && vectors[i].Valid() && vectors[i].maxSize == maxSize
            && chunks[i] == vectors[i].Contents() && |chunks[i]| <= SIZE)
      && Apart(vectors)
    }

    constructor (SIZE: nat, GROW: nat, SPLIT: nat, maxSize: nat)
      requires 0 < SPLIT < SIZE <= maxSize
      ensures Valid() && fresh(Repr) && chunks == []
    {
      this.SIZE, this.GROW, this.SPLIT, this.maxSize := SIZE, GROW, SPLIT, maxSize;
      vectors, chunks, Repr := [], [], {this};
    }

    /** The number of elements. */
    method Count() returns (n: nat)
      requires Valid()
      ensures n == |Flat(chunks)|
    {
      n := 0;
      var i := 0;
      while i < |vectors|
        invariant 0 <= i <= |vectors|
        invariant n == |Flat(chunks[..i])|
      {
        FlatNext(chunks, i);
        n := n + vectors[i].size;
        i := i + 1;
      }
      assert chunks[..i] == chunks;
    }

    /** The capacity worth reserving before a full chunk buffer grows; zero for none. */
    method NeedReserve(vec: nat) returns (wanted: nat)
      requires Valid() && vec < |vectors|
      ensures wanted <= SIZE
      ensures wanted != 0 ==> vectors[vec].size == vectors[vec].cap < wanted
    {
      wanted := 0;
      if GROW > 1 && vectors[vec].cap == vectors[vec].size && vectors[vec].cap >= GROW {
        var next := vectors[vec].size + GROW;
        if next > SIZE { next := SIZE; }
        if next > vectors[vec].cap { wanted := next; }
      }
    }

    method ReserveChunk(vec: nat)
      requires Valid() && vec < |vectors|
      modifies this`Repr, vectors[vec]
      ensures Valid() && vectors == old(vectors) && chunks == old(chunks)
      ensures fresh(Repr - old(Repr))
    {
      var wanted := NeedReserve(vec);
      if wanted != 0 {
        vectors[vec].Reserve(wanted);
        Repr := Repr + {vectors[vec].data};
      }
    }

    method InsertInChunk(vec: nat, item: nat, x: T) returns (at: nat)
      requires Valid() && vec < |vectors| && item <= |chunks[vec]| < SIZE
      modifies this`chunks, this`Repr, vectors[vec], vectors[vec].data
      ensures Valid() && vectors == old(vectors) && at == item
      ensures fresh(Repr - old(Repr))
      ensures chunks == old(chunks)[vec := old(chunks)[vec][..item] + [x] + old(chunks)[vec][item..]]
    {
      var thrown;
      thrown, at := vectors[vec].Insert(item, x);
      Repr := Repr + {vectors[vec].data};
      chunks := chunks[vec := vectors[vec].Contents()];
    }

    method AppendToChunk(vec: nat, x: T)
      requires Valid() && vec < |vectors| && |chunks[vec]| < SIZE
      modifies this`chunks, this`Repr, vectors[vec], vectors[vec].data
      ensures Valid() && vectors == old(vectors)
      ensures fresh(Repr - old(Repr))
      ensures chunks == old(chunks)[vec := old(chunks)[vec] + [x]]
    {
      vectors[vec].PushBack(x);
      Repr := Repr + {vectors[vec].data};
      chunks := chunks[vec := vectors[vec].Contents()];
    }

    method EraseInChunk(vec: nat, first: nat, last: nat)
      requires Valid() && vec < |vectors| && first <= last <= |chunks[vec]|
      modifies this`chunks, this`Repr, vectors[vec], vectors[vec].data
      ensures Valid() && vectors == old(vectors) && Repr == old(Repr)
      ensures chunks == old(chunks)[vec := old(chunks)[vec][..first] + [] + old(chunks)[vec][last..]]
    {
      var at := vectors[vec].EraseRange(first, last);
      assert old(chunks)[vec][..first] + [] + old(chunks)[vec][last..] == vectors[vec].Contents();
      chunks := chunks[vec := vectors[vec].Contents()];
    }

    method ClearChunk(vec: nat)
      requires Valid() && vec < |vectors|
      modifies this`chunks, vectors[vec]
      ensures Valid() && vectors == old(vectors) && Repr == old(Repr)
      ensures chunks == old(chunks)[vec := []]
    {
      vectors[vec].Clear();
      chunks := chunks[vec := []];
    }

    method EraseChunk(vec: nat)
      requires Valid() && vec < |vectors|
      modifies this
      ensures Valid() && Repr == old(Repr)
      ensures vectors == old(vectors)[..vec] + old(vectors)[vec + 1..]
      ensures chunks == old(chunks)[..vec] + old(chunks)[vec + 1..]
    {
      vectors := vectors[..vec] + vectors[vec + 1..];
      chunks := chunks[..vec] + chunks[vec + 1..];
    }

    /** A new empty chunk with room for `reserved` elements. */
    method NewChunk(reserved: nat) returns (n: Vector<T>)
      requires reserved <= maxSize && 0 < maxSize
      ensures fresh(n) && fresh(n.data) && n.Valid() && n.maxSize == maxSize && n.Contents() == []
    {
      n := new Vector<T>(maxSize, 0);
      n.Reserve(reserved);
    }

    /** Puts a new empty chunk with room for `reserved` elements before chunk
        `vec`, or at the end. */
    method InsertNewChunk(vec: nat, reserved: nat)
      requires Valid() && vec <= |vectors| && reserved <= maxSize
      modifies this
      ensures Valid() && fresh(Repr - old(Repr))
      ensures |vectors| == |old(vectors)| + 1 && vectors[vec] !in old(vectors)
      ensures forall i :: 0 <= i < vec ==> vectors[i] == old(vectors)[i]
      ensures fresh(vectors[vec]) && fresh(vectors[vec].data)
      ensures chunks == old(chunks)[..vec] + [[]] + old(chunks)[vec..]
    {
      var n := NewChunk(reserved);
      ghost var was, cs := vectors, chunks;
      vectors := vectors[..vec] + [n] + vectors[vec..];
      chunks := cs[..vec] + [[]] + cs[vec..];
      Repr := Repr + {n, n.data};
      forall i | 0 <= i < |vectors|
        ensures vectors[i] in Repr && vectors[i].data in Repr
        ensures vectors[i].Valid() && vectors[i].maxSize == maxSize
        ensures chunks[i] == vectors[i].Contents() && |chunks[i]| <= SIZE
      {
        if i < vec {
          assert vectors[i] == was[i] && chunks[i] == cs[i];
        } else if i > vec {
          assert vectors[i] == was[i - 1] && chunks[i] == cs[i - 1];
        }
      }
      ApartWith(was, vec, n);
    }

    /** Makes the contents of chunk `to` a copy of elements of chunk `from`. */
    method AssignChunk(to: nat, from: nat, first: nat, last: nat)
      requires Valid() && to < |vectors| && from < |vectors| && to != from
      requires first <= last <= |chunks[from]|
      modifies this`chunks, this`Repr, vectors[to], vectors[to].data
      ensures Valid() && vectors == old(vectors)
      ensures fresh(Repr - old(Repr))
      ensures chunks == old(chunks)[to := old(chunks)[from][first..last]]
    {
      assert chunks[from] == vectors[from].Contents();
      Sequences.SliceOfPrefix(vectors[from].data[..], vectors[from].size, first, last);
      vectors[to].Assign(vectors[from].data, first, last);
      Repr := Repr + {vectors[to].data};
      chunks := chunks[to := vectors[to].Contents()];
    }

    /** Moves what a chunk holds from SPLIT on to a new chunk behind it. */
    method SplitChunk(vec: nat)
      requires Valid() && vec < |vectors| && |chunks[vec]| >= SIZE
      modifies this, vectors[vec], vectors[vec].data
      ensures Valid() && fresh(Repr - old(Repr))
      ensures |vectors| == |old(vectors)| + 1
      ensures chunks == old(chunks)[..vec] + [old(chunks)[vec][..SPLIT], old(chunks)[vec][SPLIT..]]
                                           + old(chunks)[vec + 1..]
    {
      ghost var cs, c := chunks, chunks[vec];
      InsertNewChunk(vec + 1, SPLIT + 1);
      assert chunks[vec] == c && |c| == vectors[vec].size;
      assert c[SPLIT..|c|] == c[SPLIT..] && c[..SPLIT] + [] + c[|c|..] == c[..SPLIT];
      AssignChunk(vec + 1, vec, SPLIT, vectors[vec].size);
      assert chunks[vec] == c && |c| == vectors[vec].size;
      EraseInChunk(vec, SPLIT, vectors[vec].size);
      Sequences.PairBySteps(cs, vec, [], c[..SPLIT], c[SPLIT..]);
      assert chunks == (cs[..vec + 1] + [[]] + cs[vec + 1..])[vec + 1 := c[SPLIT..]][vec := c[..SPLIT]];
    }

    /** Room for one more element behind the last one. */
    method Ensure()
      requires Valid()
      modifies Repr
      ensures Valid() && fresh(Repr - old(Repr))
      ensures |chunks| > 0 && |chunks[|chunks| - 1]| < SIZE
      ensures chunks == Roomy(old(chunks), SIZE)
    {
      if |vectors| == 0 || vectors[|vectors| - 1].size >= SIZE {
        InsertNewChunk(|vectors|, 0);
      } else {
        ReserveChunk(|vectors| - 1);
      }
    }

    method PushBack(x: T)
      requires Valid()
      modifies Repr
      ensures Valid() && fresh(Repr - old(Repr))
      ensures chunks == Pushed(old(chunks), x, SIZE)
    {
      Ensure();
      AppendToChunk(|vectors| - 1, x);
    }

    /** The place of the element at `offset` of the flat sequence, or the end. */
    method Locate(offset: nat) returns (vec: nat, item: nat)
      requires Valid()
      ensures Landed(Place(chunks, vec, item), offset)
    {
      var rest: nat := offset;
      vec, item := 0, 0;
      while vec < |vectors|
        invariant LookedTo(chunks, vec, offset, rest) && item == 0
      {
        if rest == 0 || rest < vectors[vec].size {
          item := rest;
          LandsHere(Place(chunks, vec, item), offset, rest);
          return;
        }
        LookOn(chunks, vec, offset, rest);
        rest := rest - vectors[vec].size;
        vec := vec + 1;
      }
      LandsHere(Place(chunks, vec, item), offset, rest);
    }

    /** The element at `pos` of the flat sequence, if there is one and no empty chunk is
        found first. */
    method Index(pos: nat) returns (element: Option<T>)
      requires Valid()
      ensures element == if pos < |Flat(chunks)| && !Gap(chunks, pos) then Some(Flat(chunks)[pos]) else None
      ensures Tight(chunks) ==>
        element == if pos < |Flat(chunks)| then Some(Flat(chunks)[pos]) else None
    {
      var it := new Iterator(this);
      it.At(pos);
      PosBound(it.Here());
      if pos < |Flat(chunks)| { FirstAtElement(it.Here()); }
      if Tight(chunks) { AtElementIffBeforeEnd(it.Here()); }
      var found := it.IsAtElement();
      if !found { return None; }
      ElementHere(it.Here());
      element := Some(vectors[it.vec].data[it.item]);
    }

    /** Forgets the chunks from `at` on, and gives up what they are made of. */
    method Truncate(at: nat) returns (ghost gone: set<object>)
      requires Valid() && at <= |vectors|
      modifies this
      ensures Valid() && this !in gone && gone <= old(Repr) && Repr == old(Repr) - gone
      ensures vectors == old(vectors)[..at] && chunks == old(chunks)[..at]
      ensures forall i :: at <= i < |old(vectors)| ==> old(vectors)[i] in gone && old(vectors)[i].data in gone
    {
      gone := (set i | at <= i < |vectors| :: vectors[i] as object)
            + (set i | at <= i < |vectors| :: vectors[i].data as object);
      forall i | 0 <= i < at ensures vectors[i] as object !in gone && vectors[i].data as object !in gone { }
      vectors, chunks, Repr := vectors[..at], chunks[..at], Repr - gone;
    }

    /** Moves the chunks from `at` on behind those of `to`. */
    method Split(at: nat, to: VectorsVector<T>)
      requires Valid() && to.Valid() && Repr !! to.Repr && at <= |vectors|
      requires SIZE == to.SIZE && maxSize == to.maxSize
      modifies this, to
      ensures Valid() && to.Valid() && Repr !! to.Repr && Repr + to.Repr == old(Repr + to.Repr)
      ensures chunks == old(chunks)[..at] && to.chunks == old(to.chunks) + old(chunks)[at..]
    {
      ApartConcat(to.vectors, vectors[at..]);
      to.vectors, to.chunks := to.vectors + vectors[at..], to.chunks + chunks[at..];
      ghost var gone := Truncate(at);
      to.Repr := to.Repr + gone;
      ghost var n := |old(to.vectors)|;
      forall i | 0 <= i < |to.vectors|
        ensures to.vectors[i] in to.Repr && to.vectors[i].data in to.Repr
        ensures to.vectors[i].Valid() && to.vectors[i].maxSize == maxSize
        ensures to.chunks[i] == to.vectors[i].Contents() && |to.chunks[i]| <= SIZE
      {
        if i >= n {
          assert to.vectors[i] == old(vectors)[at + i - n] && to.chunks[i] == old(chunks)[at + i - n];
        } else {
          assert to.vectors[i] == old(to.vectors)[i] && to.chunks[i] == old(to.chunks)[i];
        }
      }
    }

    /** Takes over all chunks of `other`, which is left empty. */
    method Add(other: VectorsVector<T>)
      requires Valid() && other.Valid() && Repr !! other.Repr
      requires SIZE == other.SIZE && maxSize == other.maxSize
      modifies this, other
      ensures Valid() && other.Valid() && Repr !! other.Repr && Repr + other.Repr == old(Repr + other.Repr)
      ensures chunks == old(chunks) + old(other.chunks) && other.chunks == []
    {
      other.Split(0, this);
    }
  }

  /** A place in a container, which it can change there. */
  class Iterator<T(0)> {
    const owner: VectorsVector<T>
    var vec: nat   // the chunk; the number of chunks means the end
    var item: nat  // the element inside the chunk

    ghost function Here(): Place<T>
      reads this, owner
    {
      Place(owner.chunks, vec, item)
    }

    ghost predicate Valid()
      reads this, owner, owner.Repr
    {
      owner.Valid() && this !in owner.Repr && Here().Ok()
    }

    constructor (owner: VectorsVector<T>)
      requires owner.Valid()
      ensures Valid() && this.owner == owner && Here() == Place(owner.chunks, 0, 0)
    {
      this.owner := owner;
      vec, item := 0, 0;
    }

    /** Whether there is an element here; in a tight container that means not at the end. */
    method IsAtElement() returns (yes: bool)
      requires Valid()
      ensures yes <==> Here().AtElement()
    {
      yes := vec != |owner.vectors| && item != owner.vectors[vec].size;
    }

    /** Goes to the element at `offset` of the flat sequence, or to the end. */
    method At(offset: nat)
      requires Valid()
      modifies this
      ensures Valid() && Landed(Here(), offset)
    {
      vec, item := owner.Locate(offset);
    }

    method Next()
      requires Valid() && Here().AtElement()
      modifies this
      ensures Valid() && Here().Pos() == old(Here().Pos()) + 1
      ensures Here().AtElement() || item == 0 || vec == |owner.chunks|
    {
      FlatNext(owner.chunks, vec);
      item := item + 1;
      if item == owner.vectors[vec].size {
        vec := vec + 1;
        if vec != |owner.vectors| { item := 0; }
      }
    }

    /** Room for one more element in this chunk, by cutting it when it is full. */
    method Ensure()
      requires Valid() && vec < |owner.chunks|
      modifies this, owner.Repr
      ensures Valid() && fresh(owner.Repr - old(owner.Repr))
      ensures Here() == old(Here()).Ensured(owner.SIZE, owner.SPLIT)
    {
      ghost var p := Here();
      if owner.vectors[vec].size >= owner.SIZE {
        EnsuredOk(p, owner.SIZE, owner.SPLIT);
        owner.SplitChunk(vec);
        if item >= owner.SPLIT {
          vec, item := vec + 1, item - owner.SPLIT;
        }
        assert Here() == p.Ensured(owner.SIZE, owner.SPLIT);
      } else {
        owner.ReserveChunk(vec);
      }
    }

    /** Inserts `x` at this place and stays on it. */
    method Insert(x: T)
      requires Valid() && vec < |owner.chunks|
      modifies this, owner.Repr
      ensures Valid() && fresh(owner.Repr - old(owner.Repr))
      ensures Here() == old(Here()).Inserted(x, owner.SIZE, owner.SPLIT)
    {
      EnsuredShape(Here(), owner.SIZE, owner.SPLIT);
      Ensure();
      item := owner.InsertInChunk(vec, item, x);
    }

    /** Drops this chunk if it is empty and not the only one, and goes on to the
        next if there is nothing more here. */
    method Leave()
      requires Valid() && vec < |owner.chunks|
      modifies this, owner.Repr
      ensures Valid() && owner.Repr == old(owner.Repr)
      ensures Here() == old(Here()).Left()
    {
      if owner.vectors[vec].size == 0 && |owner.vectors| > 1 {
        Drop();
      } else if item == owner.vectors[vec].size {
        vec := vec + 1;
        if vec != |owner.vectors| { item := 0; }
      }
    }

    /** Drops this chunk and goes to the start of the next, if there is one. */
    method Drop()
      requires Valid() && vec < |owner.chunks| && item == 0
      modifies this, owner.Repr
      ensures Valid() && owner.Repr == old(owner.Repr)
      ensures Here() == old(Here()).Dropped()
    {
      owner.EraseChunk(vec);
    }

    /** Removes the element at this place, if there is one, and stays. */
    method Remove()
      requires Valid() && vec < |owner.chunks|
      modifies this, owner.Repr
      ensures Valid() && owner.Repr == old(owner.Repr)
      ensures Here() == old(Here()).Removed()
    {
      if item < owner.vectors[vec].size {
        owner.EraseInChunk(vec, item, item + 1);
      }
      Leave();
    }

    /** Removes from this place to the end of the chunk; all of a chunk goes whole. */
    method RemoveTail()
      requires Valid() && vec < |owner.chunks|
      modifies this, owner.Repr
      ensures Valid() && owner.Repr == old(owner.Repr)
      ensures Here() == old(Here()).TailRemoved()
      ensures |owner.vectors| - vec < old(|owner.vectors| - vec)
    {
      if item == 0 {
        owner.EraseChunk(vec);
      } else {
        owner.EraseInChunk(vec, item, owner.vectors[vec].size);
        vec := vec + 1;
        if vec != |owner.vectors| { item := 0; }
      }
    }

    /** Removes what is to be removed in this chunk; `more` is left to do. */
    method RemoveHere(left: nat) returns (more: nat)
      requires Valid() && vec < |owner.chunks| && left > 0
      modifies this, owner.Repr
      ensures Valid() && owner.Repr == old(owner.Repr)
      ensures more > 0 ==> vec < |owner.chunks| && |owner.vectors| - vec < old(|owner.vectors| - vec)
      ensures Here().RemovedMany(more) == old(Here()).RemovedMany(left)
    {
      ghost var p := Here();
      var avail := owner.vectors[vec].size - item;
      more := 0;
      if avail > left {
        owner.EraseInChunk(vec, item, item + left);
        assert Here() == p.RemovedMany(left);
      } else if item == 0 && |owner.vectors| == 1 {
        owner.ClearChunk(vec);
        assert Here() == p.RemovedMany(left);
      } else {
        RemoveTail();
        if vec != |owner.vectors| { more := left - avail; }
        assert p.RemovedMany(left) == Here().RemovedMany(more);
      }
    }

    /** Removes up to `number` elements from this place on and stays there. */
    method RemoveMany(number: nat)
      requires Valid() && (number > 0 ==> vec < |owner.chunks|)
      modifies this, owner.Repr
      ensures Valid() && owner.Repr == old(owner.Repr)
      ensures Here() == old(Here()).RemovedMany(number)
    {
      var left: nat := number;
      while left != 0
        invariant Valid() && owner.Repr == old(owner.Repr)
        invariant left > 0 ==> vec < |owner.chunks|
        invariant Here().RemovedMany(left) == old(Here()).RemovedMany(number)
        decreases if left == 0 then 0 else 1 + |owner.vectors| - vec
      {
        left := RemoveHere(left);
      }
    }
  }
}
