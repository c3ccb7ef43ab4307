/** Ids as nested directories: 123456 is `123/456g`.  Directories of ids are
    walked to get the ids back, and pruned when an id goes. */
module StructuredIds {
  import Arithmetic
  import opened Common
  import Decimal
  import Sequences

  const SPLIT := 3
  const LAST := 'g'

  // ----- ids as paths

  /** The names of nested directories for a number in decimal. */
  function Parts(number: string): (parts: seq<string>)
    ensures parts != []
  {
    if |number| <= SPLIT then [number + [LAST]]
    else [number[..SPLIT]] + Parts(number[SPLIT..])
  }

  function Joined(names: seq<string>): string
  {
    if names == [] then "" else if |names| == 1 then names[0]
    else names[0] + "/" + Joined(names[1..])
  }

  method SetStructuredId(number: string, s: string) returns (path: string)
    ensures path == s + Joined(Parts(number))
  {
    path := s;
    var n := 0;
    while n + SPLIT < |number|
      invariant 0 <= n <= |number|
      invariant s + Joined(Parts(number)) == path + Joined(Parts(number[n..]))
    {
      var rest := number[n..];
      assert rest[..SPLIT] == number[n..n + SPLIT] && rest[SPLIT..] == number[n + SPLIT..];
      assert Parts(rest)[1..] == Parts(rest[SPLIT..]);
      path := path + number[n..n + SPLIT];
      path := path + "/";
      n := n + SPLIT;
    }
    path := path + number[n..];
    path := path + [LAST];
  }

  function Concat(names: seq<string>): string
  {
    if names == [] then "" else names[0] + Concat(names[1..])
  }

  predicate EndsId(name: string) { name != "" && name[|name| - 1] == LAST }

  /** What the names of an id look like: only the last is marked, and without the
      mark they spell the number. */
  lemma {:induction false} PartsSpell(number: string)
    requires Decimal.AllDigits(number) && number != ""
    ensures var parts := Parts(number);
      && EndsId(parts[|parts| - 1])
      && (forall i :: 0 <= i < |parts| - 1 ==> parts[i] != "" && !EndsId(parts[i]))
      && Concat(parts) == number + [LAST]
  {
    var parts := Parts(number);
    if |number| <= SPLIT {
      assert parts[1..] == [];
    } else {
      PartsSpell(number[SPLIT..]);
      assert parts[1..] == Parts(number[SPLIT..]);
      assert number == number[..SPLIT] + number[SPLIT..];
    }
  }

  /** Every name before the last has three digits, and the last one to three and the mark. */
  lemma {:induction false} PartsByThree(number: string)
    requires number != ""
    ensures var parts := Parts(number);
      && (forall i :: 0 <= i < |parts| - 1 ==> |parts[i]| == 3)
      && 2 <= |parts[|parts| - 1]| <= 4 && parts[|parts| - 1][|parts[|parts| - 1]| - 1] == 'g'
  {
    if |number| > SPLIT { PartsByThree(number[SPLIT..]); }
  }

  /** The text, character by character: after every three digits a slash, and the mark at the
      end. */
  lemma {:induction false} TextMeans(number: string)
    requires number != ""
    ensures var t := Joined(Parts(number));
      && |t| == |number| + (|number| - 1) / 3 + 1 && t[|t| - 1] == 'g'
      && forall i :: 0 <= i < |t| - 1 ==> t[i] == if i % 4 == 3 then '/' else number[i - i / 4]
  {
    if |number| > SPLIT {
      var rest := number[SPLIT..];
      TextMeans(rest);
      assert Parts(number)[1..] == Parts(rest);
      var t, u := Joined(Parts(number)), Joined(Parts(rest));
      assert t == number[..SPLIT] + "/" + u;
      forall i | 0 <= i < |t| - 1 ensures t[i] == if i % 4 == 3 then '/' else number[i - i / 4] {
        if i >= 4 { assert t[i] == u[i - 4] && i / 4 == (i - 4) / 4 + 1; }
      }
    }
  }

  // ----- directories

  type Path = seq<string>

  /** All there is, and which of it are directories. */
  datatype FS = FS(nodes: set<Path>, dirs: set<Path>)

  ghost predicate WellFormed(fs: FS)
  {
    && fs.dirs <= fs.nodes
    && (forall p, n :: p + [n] in fs.nodes ==> p in fs.dirs)
    && (forall q, i :: q in fs.nodes && 0 <= i < |q| ==> q[i] != "")
  }

  lemma {:induction false} PrefixIsNode(fs: FS, q: Path, k: nat)
    requires WellFormed(fs) && q in fs.nodes && k <= |q|
    ensures q[..k] in fs.nodes && (k < |q| ==> q[..k] in fs.dirs)
  {
    if k < |q| {
      var up := q[..|q| - 1];
      assert q == up + [q[|q| - 1]];
      PrefixIsNode(fs, up, k);
      assert up[..k] == q[..k] && up[..|up|] == up;
    } else {
      assert q[..k] == q;
    }
  }

  /** The names in directory `p`. */
  function Readdir(fs: FS, p: Path): (names: set<string>)
    ensures forall n :: n in names <==> p + [n] in fs.nodes
  {
    var names := set q | q in fs.nodes && |q| == |p| + 1 && q[..|p|] == p :: q[|p|];
    assert forall n :: n in names <==> p + [n] in fs.nodes by {
      forall n | p + [n] in fs.nodes ensures n in names {
        var q := p + [n];
        assert q[..|p|] == p && q[|p|] == n;
      }
      forall n | n in names ensures p + [n] in fs.nodes {
        var q :| q in fs.nodes && |q| == |p| + 1 && q[..|p|] == p && q[|p|] == n;
        assert q == p + [n];
      }
    }
    names
  }

  /** Removes a directory with everything in it. */
  function Rmdir(fs: FS, p: Path): FS
  {
    FS(set q | q in fs.nodes && !(p <= q), set q | q in fs.dirs && !(p <= q))
  }

  /** Makes a directory and all that it is in. */
  function Mkdirs(fs: FS, p: Path): FS
  {
    var made := set k | 0 <= k <= |p| :: p[..k];
    FS(fs.nodes + made, fs.dirs + made)
  }

  // ----- the walk

  /** The id that a directory below a base stands for. */
  function IdAt(base: Path, baseId: string, q: Path): Option<nat>
  {
    if |q| <= |base| then None else
    var text := baseId + Concat(q[|base|..]);
    if text == "" then None else Decimal.Stoull(text[..|text| - 1])
  }

  /** `q` is a marked directory below `base`, the first marked one on its way,
      and its names spell a number. */
  ghost predicate IsIdDir(fs: FS, base: Path, baseId: string, q: Path)
  {
    && q in fs.dirs && base < q
    && EndsId(q[|q| - 1])
    && (forall i :: |base| <= i < |q| - 1 ==> !EndsId(q[i]))
    && IdAt(base, baseId, q).Some?
  }

  ghost function Below(fs: FS, base: Path): set<Path>
  {
    set q | q in fs.nodes && base < q
  }

  /** `entries` are the ids of the directories in `from`, which has no directory
      twice. */
  ghost predicate IdsOf(base: Path, baseId: string, entries: seq<nat>, from: seq<Path>)
  {
    && Sequences.Distinct(from) && |entries| == |from|
    && (forall i :: 0 <= i < |from| ==> IdAt(base, baseId, from[i]) == Some(entries[i]))
  }

  /** `from` has the id directories below `base` in the entries but `todo`. */
  ghost predicate Covers(fs: FS, base: Path, baseId: string, todo: set<string>, from: seq<Path>)
  {
    && (forall q :: q in from ==> IsIdDir(fs, base, baseId, q) && q[|base|] !in todo)
    && (forall q :: IsIdDir(fs, base, baseId, q) && q[|base|] !in todo ==> q in from)
  }

  /** `part` has the id directories below `base` that entry `name` is or holds. */
  ghost predicate CoversEntry(fs: FS, base: Path, baseId: string, name: string, part: seq<Path>)
  {
    && (forall q :: q in part ==> IsIdDir(fs, base, baseId, q) && q[|base|] == name)
    && (forall q :: IsIdDir(fs, base, baseId, q) && q[|base|] == name ==> q in part)
  }

  lemma IdAtChild(base: Path, baseId: string, name: string, q: Path)
    requires base + [name] < q
    ensures IdAt(base, baseId, q) == IdAt(base + [name], baseId + name, q)
  {
    var names := q[|base|..];
    assert names[0] == q[|base|] == (base + [name])[|base|];
    assert names[1..] == q[|base| + 1..];
    assert baseId + (name + Concat(names[1..])) == baseId + name + Concat(names[1..]);
  }

  lemma BelowEntry(base: Path, name: string, q: Path)
    ensures base < q && q[|base|] == name <==> base + [name] <= q
  {
    if base < q && q[|base|] == name {
      assert q[..|base| + 1] == base + [name];
    }
  }

  lemma IdDirBelowEntry(fs: FS, base: Path, baseId: string, name: string, q: Path)
    requires !EndsId(name)
    ensures (IsIdDir(fs, base, baseId, q) && q[|base|] == name)
        <==> IsIdDir(fs, base + [name], baseId + name, q)
  {
    BelowEntry(base, name, q);
    if base + [name] < q {
      IdAtChild(base, baseId, name, q);
    }
  }

  lemma CoversUnmarked(fs: FS, base: Path, baseId: string, name: string, part: seq<Path>)
    requires !EndsId(name)
    requires Covers(fs, base + [name], baseId + name, {}, part)
    ensures CoversEntry(fs, base, baseId, name, part)
  {
    forall q ensures (IsIdDir(fs, base, baseId, q) && q[|base|] == name) <==> q in part {
      IdDirBelowEntry(fs, base, baseId, name, q);
    }
  }

  lemma IdAtEntry(base: Path, baseId: string, name: string)
    requires name != ""
    ensures var text := baseId + name;
      IdAt(base, baseId, base + [name]) == Decimal.Stoull(text[..|text| - 1])
  {
    var q := base + [name];
    assert q[|base|..] == [name] && [name][1..] == [];
    assert Concat([name]) == name;
  }

  lemma CoversMarked(fs: FS, base: Path, baseId: string, name: string)
    requires EndsId(name) && base + [name] in fs.dirs
    ensures CoversEntry(fs, base, baseId, name,
      if IdAt(base, baseId, base + [name]).Some? then [base + [name]] else [])
  {
    forall q | IsIdDir(fs, base, baseId, q) && q[|base|] == name ensures q == base + [name] {
      BelowEntry(base, name, q);
    }
  }

  lemma DirsOnTheWay(fs: FS, p: Path, q: Path)
    requires WellFormed(fs) && q in fs.dirs && p <= q
    ensures p in fs.dirs
  {
    PrefixIsNode(fs, q, |p|);
    assert q[..|p|] == p && (|p| == |q| ==> p == q);
  }

  lemma CoversFile(fs: FS, base: Path, baseId: string, name: string)
    requires WellFormed(fs) && base + [name] !in fs.dirs
    ensures CoversEntry(fs, base, baseId, name, [])
  {
    forall q | base < q && q[|base|] == name ensures q !in fs.dirs {
      BelowEntry(base, name, q);
      if q in fs.dirs {
        DirsOnTheWay(fs, base + [name], q);
      }
    }
  }

  lemma CoversNone(fs: FS, base: Path, baseId: string)
    requires WellFormed(fs)
    ensures Covers(fs, base, baseId, Readdir(fs, base), [])
  {
    forall q | IsIdDir(fs, base, baseId, q) ensures q[|base|] in Readdir(fs, base) {
      PrefixIsNode(fs, q, |base| + 1);
      assert q[..|base| + 1] == base + [q[|base|]];
    }
  }

  lemma CoversMore(fs: FS, base: Path, baseId: string, todo: set<string>, name: string,
    from: seq<Path>, part: seq<Path>)
    requires Covers(fs, base, baseId, todo, from) && name in todo && Sequences.Distinct(from)
    requires CoversEntry(fs, base, baseId, name, part) && Sequences.Distinct(part)
    ensures Covers(fs, base, baseId, todo - {name}, from + part) && Sequences.Distinct(from + part)
  {
    forall i, j | 0 <= i < j < |from + part| ensures (from + part)[i] != (from + part)[j] {
      if i < |from| <= j {
        assert from[i] in from && part[j - |from|] in part;
      }
    }
  }

  lemma UnmarkedEntry(fs: FS, base: Path, baseId: string, name: string,
    entries: seq<nat>, from: seq<Path>)
    requires !EndsId(name)
    requires Covers(fs, base + [name], baseId + name, {}, from)
    requires IdsOf(base + [name], baseId + name, entries, from)
    ensures CoversEntry(fs, base, baseId, name, from) && IdsOf(base, baseId, entries, from)
  {
    CoversUnmarked(fs, base, baseId, name, from);
    forall i | 0 <= i < |from| ensures IdAt(base, baseId, from[i]) == Some(entries[i]) {
      assert from[i] in from;
      IdAtChild(base, baseId, name, from[i]);
    }
  }

  lemma IdsOfMore(base: Path, baseId: string, entries: seq<nat>, from: seq<Path>,
    more: seq<nat>, part: seq<Path>)
    requires IdsOf(base, baseId, entries, from) && IdsOf(base, baseId, more, part)
    requires Sequences.Distinct(from + part)
    ensures IdsOf(base, baseId, entries + more, from + part)
  {
  }

  lemma BelowShrinks(fs: FS, base: Path, name: string)
    requires base + [name] in fs.nodes
    ensures |Below(fs, base + [name])| < |Below(fs, base)|
  {
    var less := Below(fs, base) - {base + [name]};
    assert Below(fs, base + [name]) <= less;
    assert less == Below(fs, base + [name]) + (less - Below(fs, base + [name]));
  }

  /** `entries` are the ids of exactly the id directories below `base`, each once. */
  ghost predicate Walked(fs: FS, base: Path, baseId: string, entries: seq<nat>)
  {
    exists from :: Covers(fs, base, baseId, {}, from) && IdsOf(base, baseId, entries, from)
  }

  /** `more` are the ids of exactly the id directories that one entry is or holds. */
  ghost predicate EntryWalked(fs: FS, base: Path, baseId: string, name: string, more: seq<nat>)
  {
    exists part :: CoversEntry(fs, base, baseId, name, part) && IdsOf(base, baseId, more, part)
  }

  /** The walk finds the id directories below `base`, each once. */
  method GetStructuredIds(fs: FS, base: Path, baseId: string) returns (entries: seq<nat>)
    requires WellFormed(fs)
    ensures Walked(fs, base, baseId, entries)
    decreases |Below(fs, base)|, 1
  {
    entries := [];
    ghost var from: seq<Path> := [];
    var todo := Readdir(fs, base);
    CoversNone(fs, base, baseId);
    while todo != {}
      invariant todo <= Readdir(fs, base)
      invariant Covers(fs, base, baseId, todo, from) && IdsOf(base, baseId, entries, from)
      decreases todo
    {
      var name :| name in todo;
      var more := GetEntry(fs, base, baseId, name);
      ghost var part :| CoversEntry(fs, base, baseId, name, part) && IdsOf(base, baseId, more, part);
      CoversMore(fs, base, baseId, todo, name, from, part);
      IdsOfMore(base, baseId, entries, from, more, part);
      entries, from, todo := entries + more, from + part, todo - {name};
    }
  }

  /** One turn of the walk: the ids that entry `name` of `base` is or holds. */
  method GetEntry(fs: FS, base: Path, baseId: string, name: string) returns (more: seq<nat>)
    requires WellFormed(fs) && base + [name] in fs.nodes
    ensures EntryWalked(fs, base, baseId, name, more)
    decreases |Below(fs, base)|, 0
  {
    more := [];
    if base + [name] !in fs.dirs {
      CoversFile(fs, base, baseId, name);
      assert IdsOf(base, baseId, more, []);
    } else if EndsId(name) {
      more := GetMarked(fs, base, baseId, name);
    } else {
      BelowShrinks(fs, base, name);
      more := GetStructuredIds(fs, base + [name], baseId + name);
      ghost var from :| Covers(fs, base + [name], baseId + name, {}, from)
        && IdsOf(base + [name], baseId + name, more, from);
      UnmarkedEntry(fs, base, baseId, name, more, from);
    }
  }

  /** The id of a marked directory; one that does not spell a number is skipped. */
  method GetMarked(fs: FS, base: Path, baseId: string, name: string) returns (more: seq<nat>)
    requires EndsId(name) && base + [name] in fs.dirs
    ensures EntryWalked(fs, base, baseId, name, more)
  {
    var text := baseId + name;
    var id := Decimal.Stoull(text[..|text| - 1]);
    IdAtEntry(base, baseId, name);
    CoversMarked(fs, base, baseId, name);
    if id.Some? {
      more := [id.value];
      assert IdsOf(base, baseId, more, [base + [name]]);
    } else {
      more := [];
      assert IdsOf(base, baseId, more, []);
    }
  }

  // ----- trees of ids

  /** Where the directory of an id is. */
  function IdPath(base: Path, id: nat): Path { base + Parts(Decimal.Digits(id)) }

  predicate Comparable(q: Path, r: Path) { q <= r || r <= q }

  /** `q` is on the way to, or in, the directory of one of the ids. */
  ghost predicate Needed(base: Path, ids: set<nat>, q: Path)
  {
    exists id :: id in ids && Comparable(q, IdPath(base, id))
  }

  /** Every id has its directory below `base`, and nothing is there for any
      other reason. */
  ghost predicate IsTreeOf(fs: FS, base: Path, ids: set<nat>)
  {
    && WellFormed(fs) && base in fs.dirs
    && (forall id :: id in ids ==> id < Arithmetic.WORD64 && IdPath(base, id) in fs.dirs)
    && (forall q {:trigger Needed(base, ids, q)} :: q in fs.nodes && base < q ==> Needed(base, ids, q))
  }

  /** Below `base`, the last name is marked and no other. */
  ghost predicate MarkedLast(base: Path, q: Path)
  {
    && base < q && EndsId(q[|q| - 1])
    && (forall i :: |base| <= i < |q| - 1 ==> q[i] != "" && !EndsId(q[i]))
  }

  lemma MarkedNotNested(base: Path, q: Path, r: Path)
    requires MarkedLast(base, q) && MarkedLast(base, r) && q <= r
    ensures q == r
  {
    assert r[|q| - 1] == q[|q| - 1];
  }

  lemma IdPathIs(base: Path, id: nat)
    ensures MarkedLast(base, IdPath(base, id))
    ensures id < Arithmetic.WORD64 ==> IdAt(base, "", IdPath(base, id)) == Some(id)
  {
    var parts := Parts(Decimal.Digits(id));
    var q := IdPath(base, id);
    PartsSpell(Decimal.Digits(id));
    assert q[|base|..] == parts;
    assert forall i :: |base| <= i < |q| ==> q[i] == parts[i - |base|];
    if id < Arithmetic.WORD64 {
      var text := "" + Concat(parts);
      assert text[..|text| - 1] == Decimal.Digits(id);
      Decimal.StoullOfDigits(id);
    }
  }

  /** No id's directory is in another's. */
  lemma IdsApart(base: Path, a: nat, b: nat)
    requires a < Arithmetic.WORD64 && b < Arithmetic.WORD64 && IdPath(base, a) <= IdPath(base, b)
    ensures a == b
  {
    IdPathIs(base, a);
    IdPathIs(base, b);
    MarkedNotNested(base, IdPath(base, a), IdPath(base, b));
  }

  lemma IdDirsOfTree(fs: FS, base: Path, ids: set<nat>, q: Path)
    requires IsTreeOf(fs, base, ids) && IsIdDir(fs, base, "", q)
    ensures exists id :: id in ids && q == IdPath(base, id)
  {
    assert Needed(base, ids, q);
    var id :| id in ids && Comparable(q, IdPath(base, id));
    IdPathIs(base, id);
    assert MarkedLast(base, q) by {
      forall i | |base| <= i < |q| - 1 ensures q[i] != "" {
        assert q in fs.nodes;
      }
    }
    if q <= IdPath(base, id) {
      MarkedNotNested(base, q, IdPath(base, id));
    } else {
      MarkedNotNested(base, IdPath(base, id), q);
    }
  }

  /** The walk of a tree of ids returns each of the ids once, and nothing else. */
  lemma WalkOfTree(fs: FS, base: Path, ids: set<nat>, entries: seq<nat>)
    requires IsTreeOf(fs, base, ids) && Walked(fs, base, "", entries)
    ensures Sequences.Distinct(entries) && (forall id :: id in entries <==> id in ids)
  {
    var from :| Covers(fs, base, "", {}, from) && IdsOf(base, "", entries, from);
    forall i | 0 <= i < |from| ensures entries[i] in ids && from[i] == IdPath(base, entries[i]) {
      assert from[i] in from;
      IdDirsOfTree(fs, base, ids, from[i]);
      var id :| id in ids && from[i] == IdPath(base, id);
      IdPathIs(base, id);
    }
    forall id | id in ids ensures id in entries {
      IdPathIs(base, id);
      var q := IdPath(base, id);
      assert IsIdDir(fs, base, "", q) && q in from;
      var i :| 0 <= i < |from| && from[i] == q;
      assert entries[i] == id;
    }
  }

  // ----- building the tree

  lemma MkdirsMeans(fs: FS, p: Path)
    ensures forall q :: q in Mkdirs(fs, p).nodes <==> q in fs.nodes || q <= p
    ensures forall q :: q in Mkdirs(fs, p).dirs <==> q in fs.dirs || q <= p
  {
    forall q | q <= p ensures q in Mkdirs(fs, p).nodes && q in Mkdirs(fs, p).dirs {
      assert p[..|q|] == q;
    }
  }

  /** No file is where a directory on the way to an id's is to be. */
  lemma WayIsFree(fs: FS, base: Path, ids: set<nat>, id: nat, q: Path)
    requires IsTreeOf(fs, base, ids) && id < Arithmetic.WORD64
    requires q in fs.nodes && base < q <= IdPath(base, id)
    ensures q in fs.dirs
  {
    assert Needed(base, ids, q);
    var other :| other in ids && Comparable(q, IdPath(base, other));
    if IdPath(base, other) <= q {
      IdsApart(base, other, id);
      assert q == IdPath(base, other);
    } else {
      DirsOnTheWay(fs, q, IdPath(base, other));
    }
  }

  lemma MkdirsWellFormed(fs: FS, p: Path)
    requires WellFormed(fs) && forall i :: 0 <= i < |p| ==> p[i] != ""
    ensures WellFormed(Mkdirs(fs, p))
  {
    var made := Mkdirs(fs, p);
    MkdirsMeans(fs, p);
    forall q, n | q + [n] in made.nodes ensures q in made.dirs {
      if q + [n] <= p {
        assert q <= q + [n];
      }
    }
    forall q, i | q in made.nodes && 0 <= i < |q| ensures q[i] != "" {
      assert q <= p ==> q[i] == p[i];
    }
  }

  /** Making the directory of one more id: no file is in the way, and it is the tree of
      one id more. */
  lemma TreeOfOneMore(fs: FS, base: Path, ids: set<nat>, id: nat)
    requires IsTreeOf(fs, base, ids) && id < Arithmetic.WORD64
    ensures forall q :: q in fs.nodes && q <= IdPath(base, id) ==> q in fs.dirs
    ensures IsTreeOf(Mkdirs(fs, IdPath(base, id)), base, ids + {id})
  {
    var p := IdPath(base, id);
    forall q | q in fs.nodes && q <= p ensures q in fs.dirs {
      if |base| < |q| {
        assert base <= p && base == q[..|base|];
        WayIsFree(fs, base, ids, id, q);
      } else if |q| < |base| {
        assert q <= base;
        DirsOnTheWay(fs, q, base);
      } else {
        assert q == base;
      }
    }
    var made := Mkdirs(fs, p);
    MkdirsMeans(fs, p);
    IdPathIs(base, id);
    MarkedNames(base, p);
    MkdirsWellFormed(fs, p);
    forall q | q in made.nodes && base < q ensures Needed(base, ids + {id}, q) {
      if q <= p {
        assert id in ids + {id} && Comparable(q, IdPath(base, id));
      } else {
        assert Needed(base, ids, q);
        var other :| other in ids && Comparable(q, IdPath(base, other));
        assert other in ids + {id};
      }
    }
  }

  lemma MarkedNames(base: Path, q: Path)
    requires MarkedLast(base, q) && forall i :: 0 <= i < |base| ==> base[i] != ""
    ensures forall i :: 0 <= i < |q| ==> q[i] != ""
  {
    assert forall i :: 0 <= i < |base| ==> q[i] == base[i];
  }

  // ----- pruning

  /** A directory that is there and empty. */
  predicate IsEmptyDir(fs: FS, p: Path)
  {
    p in fs.dirs && Readdir(fs, p) == {}
  }

  /** What stops the way up at the first `m` names: nothing above, the directory
      to stop at, one that is not there, or one that is not empty. */
  ghost predicate StopsAt(fs: FS, name: Path, upTo: Path, m: nat)
    requires m <= |name|
  {
    || m <= 1
    || name[..m - 1] == upTo
    || name[..m - 1] !in fs.dirs
    || exists n :: n != name[m - 1] && name[..m - 1] + [n] in fs.nodes
  }

  /** `m` is how far up the pruning of `name` gets. */
  ghost predicate PrunedTo(fs: FS, name: Path, upTo: Path, m: nat)
  {
    && m <= |name| && StopsAt(fs, name, upTo, m)
    && (forall k :: m < k <= |name| ==> !StopsAt(fs, name, upTo, k))
  }

  /** With a directory removed, the one that it was in is left empty when nothing else is
      in that. */
  lemma LeftEmpty(fs: FS, name: Path, m: nat)
    requires 0 < m <= |name|
    ensures IsEmptyDir(Rmdir(fs, name[..m]), name[..m - 1])
      <==> name[..m - 1] in fs.dirs && forall n :: name[..m - 1] + [n] in fs.nodes ==> n == name[m - 1]
  {
    var up, less := name[..m - 1], Rmdir(fs, name[..m]);
    assert !(name[..m] <= up);
    forall n ensures n in Readdir(less, up) <==> n != name[m - 1] && up + [n] in fs.nodes {
      LastIs(name[..m], up + [n]);
    }
  }

  lemma StopsWhen(fs: FS, name: Path, upTo: Path, m: nat)
    requires 1 < m <= |name|
    ensures StopsAt(fs, name, upTo, m)
      <==> name[..m - 1] == upTo || !IsEmptyDir(Rmdir(fs, name[..m]), name[..m - 1])
  {
    LeftEmpty(fs, name, m);
  }

  lemma LastIs(a: Path, b: Path)
    requires |a| == |b| && a != [] && a[..|a| - 1] == b[..|a| - 1]
    ensures a <= b <==> a[|a| - 1] == b[|a| - 1]
  {
    assert a == a[..|a| - 1] + [a[|a| - 1]] && b == b[..|a| - 1] + [b[|a| - 1]];
  }

  /** Removes a directory, and those it was in for as long as they are left empty. */
  method RmdirInclOptSubs(fs: FS, name: Path, upTo: Path) returns (after: FS)
    ensures exists m: nat :: PrunedTo(fs, name, upTo, m) && after == Rmdir(fs, name[..m])
  {
    after := Rmdir(fs, name);
    ghost var m: nat := |name|;
    assert name[..m] == name;
    var c: int := |name| - 1;
    while c > 0
      invariant m == if name == [] then 0 else c + 1
      invariant c <= |name| && m <= |name|
      invariant after == Rmdir(fs, name[..m])
      invariant forall k :: m < k <= |name| ==> !StopsAt(fs, name, upTo, k)
    {
      StopsWhen(fs, name, upTo, c + 1);
      if name[..c] == upTo || !IsEmptyDir(after, name[..c]) {
        break;
      }
      after := Rmdir(after, name[..c]);
      RmdirTwice(fs, name, c);
      m := c;
      c := c - 1;
    }
  }

  lemma RmdirTwice(fs: FS, name: Path, c: nat)
    requires c < |name|
    ensures Rmdir(Rmdir(fs, name[..c + 1]), name[..c]) == Rmdir(fs, name[..c])
  {
    assert name[..c + 1][..c] == name[..c];
    forall q | q in fs.nodes + fs.dirs && name[..c + 1] <= q ensures name[..c] <= q {
    }
  }

  /** The only thing in a directory that did not stop the way up was the next
      one on the way down. */
  lemma OnlyChild(fs: FS, name: Path, upTo: Path, k: nat, q: Path)
    requires 0 < k <= |name| && !StopsAt(fs, name, upTo, k)
    requires WellFormed(fs) && q in fs.nodes && name[..k - 1] < q
    ensures name[..k] <= q
  {
    var child := q[..k];
    PrefixIsNode(fs, q, k);
    assert child == name[..k - 1] + [q[k - 1]];
    LastIs(name[..k], child);
    assert name[..k] <= child;
  }

  lemma {:induction false} OnlyDescendant(fs: FS, name: Path, upTo: Path, m: nat, k: nat, q: Path)
    requires m <= k <= |name| && WellFormed(fs) && q in fs.nodes
    requires forall j :: m < j <= |name| ==> !StopsAt(fs, name, upTo, j)
    requires name[..m] <= q && forall j :: m <= j < k ==> q != name[..j]
    ensures name[..k] <= q
  {
    if m < k {
      OnlyDescendant(fs, name, upTo, m, k - 1, q);
      assert q != name[..k - 1];
      OnlyChild(fs, name, upTo, k, q);
    }
  }

  lemma StopsAboveBase(fs: FS, base: Path, id: nat, m: nat)
    requires PrunedTo(fs, IdPath(base, id), base, m)
    ensures |base| < m
  {
    var name := IdPath(base, id);
    assert name[..|base| + 1 - 1] == base;
    assert StopsAt(fs, name, base, |base| + 1);
  }

  /** What is removed is not on the way to another id. */
  lemma OthersElsewhere(fs: FS, base: Path, ids: set<nat>, id: nat, m: nat, other: nat)
    requires IsTreeOf(fs, base, ids) && id in ids && other in ids && other != id
    requires PrunedTo(fs, IdPath(base, id), base, m)
    ensures !Comparable(IdPath(base, id)[..m], IdPath(base, other))
  {
    var name, r := IdPath(base, id), IdPath(base, other);
    if r <= name {
      IdsApart(base, other, id);
    } else if name[..m] <= r {
      OnlyDescendant(fs, name, base, m, |name|, r);
      assert name[..|name|] == name;
      IdsApart(base, id, other);
    }
  }

  /** What is left is on the way to another id, or in its directory. */
  lemma LeftIsNeeded(fs: FS, base: Path, ids: set<nat>, id: nat, m: nat, q: Path)
    requires IsTreeOf(fs, base, ids) && id in ids
    requires PrunedTo(fs, IdPath(base, id), base, m) && |base| < m
    requires q in fs.nodes && base < q && !(IdPath(base, id)[..m] <= q)
    ensures Needed(base, ids - {id}, q)
  {
    var name := IdPath(base, id);
    assert Needed(base, ids, q);
    var some :| some in ids && Comparable(q, IdPath(base, some));
    if some != id {
      assert some in ids - {id};
    } else {
      OnTheWayUp(name, m, q);
      assert name[..m - 1] != base;
      UpIsThere(fs, name, m);
      SiblingIsNeeded(fs, base, ids, id, m);
      var other :| other in ids - {id} && name[..m - 1] <= IdPath(base, other);
      assert q <= name[..m - 1];
      assert other in ids - {id} && Comparable(q, IdPath(base, other));
    }
  }

  lemma UpIsThere(fs: FS, name: Path, m: nat)
    requires WellFormed(fs) && name in fs.dirs && 0 < m <= |name|
    ensures name[..m - 1] in fs.dirs
  {
    DirsOnTheWay(fs, name[..m - 1], name);
  }

  lemma OnTheWayUp(name: Path, m: nat, q: Path)
    requires m <= |name| && Comparable(q, name) && !(name[..m] <= q)
    ensures |q| < m && q <= name[..m - 1]
  {
    assert |q| < m ==> q == name[..|q|];
  }

  /** A directory that was not empty is on the way to another id. */
  lemma SiblingIsNeeded(fs: FS, base: Path, ids: set<nat>, id: nat, m: nat)
    requires IsTreeOf(fs, base, ids) && id in ids
    requires |base| < m - 1 < m <= |IdPath(base, id)|
    requires exists n :: n != IdPath(base, id)[m - 1] && IdPath(base, id)[..m - 1] + [n] in fs.nodes
    ensures exists other :: other in ids - {id} && IdPath(base, id)[..m - 1] <= IdPath(base, other)
  {
    var name := IdPath(base, id);
    var up := name[..m - 1];
    var n :| n != name[m - 1] && up + [n] in fs.nodes;
    assert base < up;
    LastIs(name[..m], up + [n]);
    ChildIsNeeded(fs, base, ids, id, m, up + [n]);
  }

  lemma ChildIsNeeded(fs: FS, base: Path, ids: set<nat>, id: nat, m: nat, child: Path)
    requires IsTreeOf(fs, base, ids) && id in ids
    requires 0 < m <= |IdPath(base, id)| && base < IdPath(base, id)[..m - 1]
    requires child in fs.nodes && |child| == m
    requires IdPath(base, id)[..m - 1] < child && !(IdPath(base, id)[..m] <= child)
    ensures exists other :: other in ids - {id} && IdPath(base, id)[..m - 1] <= IdPath(base, other)
  {
    var name := IdPath(base, id);
    assert Needed(base, ids, child);
    var other :| other in ids && Comparable(child, IdPath(base, other));
    if other == id {
      OnTheWayUp(name, m, child);
    } else {
      BothPrefixes(name[..m - 1], IdPath(base, other), child);
      if IdPath(base, other) <= name[..m - 1] {
        IdsApart(base, other, id);
      }
      assert other in ids - {id};
    }
  }

  lemma BothPrefixes<A>(p: seq<A>, q: seq<A>, r: seq<A>)
    requires p <= r && (q <= r || r <= q)
    ensures p <= q || q <= p
  {
  }

  lemma RmdirWellFormed(fs: FS, p: Path)
    requires WellFormed(fs) && p != []
    ensures WellFormed(Rmdir(fs, p))
  {
    var less := Rmdir(fs, p);
    forall q, n | q + [n] in less.nodes ensures q in less.dirs {
      assert p <= q ==> p <= q + [n];
    }
  }

  /** Pruning the directory of an id up to the base leaves exactly what the
      other ids need, and all that is not below the base. */
  lemma PruneOfTree(fs: FS, base: Path, ids: set<nat>, id: nat, m: nat)
    requires IsTreeOf(fs, base, ids) && id in ids
    requires PrunedTo(fs, IdPath(base, id), base, m)
    ensures var after := Rmdir(fs, IdPath(base, id)[..m]);
      && (forall q :: q in after.nodes <==> q in fs.nodes && (base < q ==> Needed(base, ids - {id}, q)))
      && (forall q :: q in after.dirs <==> q in fs.dirs && (base < q ==> Needed(base, ids - {id}, q)))
  {
    var name := IdPath(base, id);
    StopsAboveBase(fs, base, id, m);
    assert base < name[..m];
    forall q | q in fs.nodes
      ensures !(name[..m] <= q) <==> (base < q ==> Needed(base, ids - {id}, q))
    {
      if name[..m] <= q {
        assert base < q;
        RemovedNotNeeded(fs, base, ids, id, m, q);
      } else if base < q {
        LeftIsNeeded(fs, base, ids, id, m, q);
      }
    }
  }

  lemma RemovedNotNeeded(fs: FS, base: Path, ids: set<nat>, id: nat, m: nat, q: Path)
    requires IsTreeOf(fs, base, ids) && id in ids
    requires PrunedTo(fs, IdPath(base, id), base, m) && IdPath(base, id)[..m] <= q
    ensures !Needed(base, ids - {id}, q)
  {
    forall other | other in ids - {id} ensures !Comparable(q, IdPath(base, other)) {
      OthersElsewhere(fs, base, ids, id, m, other);
      if Comparable(q, IdPath(base, other)) {
        BothPrefixes(IdPath(base, id)[..m], IdPath(base, other), q);
      }
    }
  }

  /** What is left is the tree of the other ids. */
  lemma PrunedIsTree(fs: FS, base: Path, ids: set<nat>, id: nat, m: nat)
    requires IsTreeOf(fs, base, ids) && id in ids
    requires PrunedTo(fs, IdPath(base, id), base, m)
    ensures IsTreeOf(Rmdir(fs, IdPath(base, id)[..m]), base, ids - {id})
  {
    var name := IdPath(base, id);
    StopsAboveBase(fs, base, id, m);
    PruneOfTree(fs, base, ids, id, m);
    RmdirWellFormed(fs, name[..m]);
    forall other | other in ids - {id} ensures IdPath(base, other) in Rmdir(fs, name[..m]).dirs {
      assert Comparable(IdPath(base, other), IdPath(base, other));
    }
  }

  // ----- runs

  /** A base directory, and the ids that were made there and not removed since. */
  datatype Stage = Stage(fs: FS, ids: set<nat>)

  /** One more id's directory is made, something is put in one, or one is pruned up to its
      first `m` names. */
  datatype Change = Make(id: nat) | Put(id: nat, q: Path, dir: bool) | Prune(id: nat, m: nat)

  ghost predicate Changes(base: Path, s: Stage, c: Change, t: Stage)
  {
    match c
    case Make(id) =>
      id < Arithmetic.WORD64 && t == Stage(Mkdirs(s.fs, IdPath(base, id)), s.ids + {id})
    case Put(id, q, dir) =>
      && id in s.ids && IdPath(base, id) < q && q[..|q| - 1] in s.fs.dirs && q[|q| - 1] != ""
      && t == s.(fs := FS(s.fs.nodes + {q}, if dir then s.fs.dirs + {q} else s.fs.dirs))
    case Prune(id, m) =>
      && id in s.ids && PrunedTo(s.fs, IdPath(base, id), base, m)
      && t == Stage(Rmdir(s.fs, IdPath(base, id)[..m]), s.ids - {id})
  }

  ghost predicate IsRun(base: Path, changes: seq<Change>, run: seq<Stage>)
  {
    && |run| == |changes| + 1
    && (forall i :: 0 <= i < |changes| ==> Changes(base, run[i], changes[i], run[i + 1]))
  }

  /** However ids are made, used and pruned, what is on the file system is the tree of
      those that are left. */
  lemma {:induction false} RunKeepsTree(base: Path, changes: seq<Change>, run: seq<Stage>, n: nat)
    requires IsRun(base, changes, run) && n < |run|
    requires IsTreeOf(run[0].fs, base, run[0].ids)
    ensures IsTreeOf(run[n].fs, base, run[n].ids)
  {
    if n > 0 {
      RunKeepsTree(base, changes, run, n - 1);
      StepKeepsTree(base, run[n - 1], changes[n - 1], run[n]);
    }
  }

  lemma TreeWithMore(fs: FS, base: Path, ids: set<nat>, id: nat, q: Path, more: FS)
    requires IsTreeOf(fs, base, ids) && id in ids && IdPath(base, id) < q
    requires q[..|q| - 1] in fs.dirs && q[|q| - 1] != ""
    requires more.nodes == fs.nodes + {q} && fs.dirs <= more.dirs <= fs.dirs + {q}
    ensures IsTreeOf(more, base, ids)
  {
    var up := q[..|q| - 1];
    assert q == up + [q[|q| - 1]];
    forall i | 0 <= i < |q| ensures q[i] != "" {
      if i < |up| { assert up[i] == q[i]; }
    }
    assert Comparable(q, IdPath(base, id)) && Needed(base, ids, q);
  }

  lemma StepKeepsTree(base: Path, s: Stage, c: Change, t: Stage)
    requires Changes(base, s, c, t) && IsTreeOf(s.fs, base, s.ids)
    ensures IsTreeOf(t.fs, base, t.ids)
  {
    match c
    case Make(id) => TreeOfOneMore(s.fs, base, s.ids, id);
    case Put(id, q, dir) => TreeWithMore(s.fs, base, s.ids, id, q, t.fs);
    case Prune(id, m) => PrunedIsTree(s.fs, base, s.ids, id, m);
  }

  /** A base is the tree of no ids when nothing is in it. */
  lemma EmptyTree(fs: FS, base: Path)
    requires WellFormed(fs) && base in fs.dirs
    ensures IsTreeOf(fs, base, {}) <==> Below(fs, base) == {}
  {
    forall q ensures q in fs.nodes && base < q <==> q in Below(fs, base) {
    }
    if IsTreeOf(fs, base, {}) {
      forall q | q in fs.nodes ensures q !in Below(fs, base) {
        assert !Needed(base, {}, q);
      }
    } else {
      var q :| q in fs.nodes && base < q && !Needed(base, {}, q);
      assert q in Below(fs, base);
    }
  }

  /** In a base that was empty, a walk at any time of a run returns each id that was made
      and not pruned since, once, and nothing else. */
  lemma RunWalked(base: Path, changes: seq<Change>, run: seq<Stage>, n: nat, entries: seq<nat>)
    requires IsRun(base, changes, run) && n < |run| && run[0].ids == {}
    requires WellFormed(run[0].fs) && base in run[0].fs.dirs && Below(run[0].fs, base) == {}
    requires Walked(run[n].fs, base, "", entries)
    ensures Sequences.Distinct(entries) && (forall id :: id in entries <==> id in run[n].ids)
  {
    EmptyTree(run[0].fs, base);
    RunKeepsTree(base, changes, run, n);
    WalkOfTree(run[n].fs, base, run[n].ids, entries);
  }
}
