/** Comparing byte strings: two orders with their tests, prefixes, and three ways
    for one string to be in another. */
module Comparators {
  import opened Common

  type Bytes = seq<Byte>

  datatype Comp = GT | EQ | LT

  // ----- comparing memory

  /** The sign of the first difference in the first `count` bytes. */
  function MemCmp(p1: Bytes, p2: Bytes, count: nat): int
    requires count <= |p1| && count <= |p2|
  {
    if count == 0 then 0
    else if p1[0] != p2[0] then (if p1[0] < p2[0] then -1 else 1)
    else MemCmp(p1[1..], p2[1..], count - 1)
  }

  method CompareMemory(p1: Bytes, p2: Bytes, count: nat) returns (diff: int)
    requires count <= |p1| && count <= |p2|
    ensures diff == MemCmp(p1, p2, count)
  {
    var k := 0;
    while k < count
      invariant k <= count
      invariant MemCmp(p1, p2, count) == MemCmp(p1[k..], p2[k..], count - k)
    {
      if p1[k] != p2[k] {
        return if p1[k] < p2[k] then -1 else 1;
      }
      assert p1[k..][1..] == p1[k + 1..] && p2[k..][1..] == p2[k + 1..];
      k := k + 1;
    }
    return 0;
  }

  function Shorter(p1: Bytes, p2: Bytes): nat { if |p1| < |p2| then |p1| else |p2| }

  // ----- the tests

  function ConditionLexic(p1: Bytes, p2: Bytes): Comp
  {
    var diff := MemCmp(p1, p2, Shorter(p1, p2));
    if diff == 0 then (if |p1| == |p2| then EQ else if |p1| < |p2| then GT else LT)
    else if diff < 0 then GT else LT
  }

  function ConditionVolume(p1: Bytes, p2: Bytes): Comp
  {
    if |p1| < |p2| then GT
    else if |p1| > |p2| then LT
    else
      var diff := MemCmp(p1, p2, |p1|);
      if diff == 0 then EQ else if diff < 0 then GT else LT
  }

  predicate Pf(p1: Bytes, p2: Bytes)
  {
    |p1| <= |p2| && MemCmp(p1, p2, |p1|) == 0
  }

  predicate Eq(p1: Bytes, p2: Bytes)
  {
    |p1| == |p2| && MemCmp(p1, p2, |p1|) == 0
  }

  predicate Ne(p1: Bytes, p2: Bytes) { !Eq(p1, p2) }

  predicate GtLexic(p1: Bytes, p2: Bytes)
  {
    var diff := MemCmp(p1, p2, Shorter(p1, p2));
    diff < 0 || (diff == 0 && |p1| < |p2|)
  }

  predicate GeLexic(p1: Bytes, p2: Bytes)
  {
    var diff := MemCmp(p1, p2, Shorter(p1, p2));
    diff < 0 || (diff == 0 && |p1| <= |p2|)
  }

  predicate LeLexic(p1: Bytes, p2: Bytes)
  {
    var diff := MemCmp(p1, p2, Shorter(p1, p2));
    diff > 0 || (diff == 0 && |p1| >= |p2|)
  }

  predicate LtLexic(p1: Bytes, p2: Bytes)
  {
    var diff := MemCmp(p1, p2, Shorter(p1, p2));
    diff > 0 || (diff == 0 && |p1| > |p2|)
  }

  predicate GtVolume(p1: Bytes, p2: Bytes)
  {
    |p1| < |p2| || (|p1| == |p2| && MemCmp(p1, p2, |p2|) < 0)
  }

  predicate GeVolume(p1: Bytes, p2: Bytes)
  {
    |p1| < |p2| || (|p1| == |p2| && MemCmp(p1, p2, |p2|) <= 0)
  }

  predicate LeVolume(p1: Bytes, p2: Bytes)
  {
    |p1| > |p2| || (|p1| == |p2| && MemCmp(p1, p2, |p1|) >= 0)
  }

  predicate LtVolume(p1: Bytes, p2: Bytes)
  {
    |p1| > |p2| || (|p1| == |p2| && MemCmp(p1, p2, |p1|) > 0)
  }

  // ----- the orders they stand for

  /** The strings agree up to place `k`, where the first is less or ended. */
  ghost predicate LessAt(a: Bytes, b: Bytes, k: nat)
  {
    && k <= |a| && k < |b| && a[..k] == b[..k]
    && (k == |a| || a[k] < b[k])
  }

  ghost predicate LexLess(a: Bytes, b: Bytes) { exists k: nat :: LessAt(a, b, k) }

  ghost predicate VolumeLess(a: Bytes, b: Bytes)
  {
    |a| < |b| || (|a| == |b| && LexLess(a, b))
  }

  lemma LexIrreflexive(a: Bytes)
    ensures !LexLess(a, a)
  {
  }

  lemma LexTransitive(a: Bytes, b: Bytes, c: Bytes)
    requires LexLess(a, b) && LexLess(b, c)
    ensures LexLess(a, c)
  {
    var j: nat :| LessAt(a, b, j);
    var k: nat :| LessAt(b, c, k);
    var m := if j < k then j else k;
    assert b[..j][..m] == b[..m] && b[..k][..m] == b[..m];
    assert a[..j][..m] == a[..m] && c[..k][..m] == c[..m];
    assert j < k ==> c[j] == c[..k][j] == b[..k][j] == b[j];
    assert k < j ==> a[k] == a[..j][k] == b[..j][k] == b[k];
    assert LessAt(a, c, m);
  }

  lemma VolumeTransitive(a: Bytes, b: Bytes, c: Bytes)
    requires VolumeLess(a, b) && VolumeLess(b, c)
    ensures VolumeLess(a, c)
  {
    if |a| == |b| == |c| { LexTransitive(a, b, c); }
  }

  lemma LexAsymmetric(a: Bytes, b: Bytes)
    requires LexLess(a, b)
    ensures !LexLess(b, a) && a != b
  {
    LexIrreflexive(a);
    if LexLess(b, a) { LexTransitive(a, b, a); }
  }

  /** What the sign of the first difference says. */
  lemma {:induction false} MemCmpMeans(p1: Bytes, p2: Bytes, count: nat)
    requires count <= |p1| && count <= |p2|
    ensures MemCmp(p1, p2, count) == 0 <==> p1[..count] == p2[..count]
    ensures MemCmp(p1, p2, count) < 0 ==> exists k: nat :: k < count && LessAt(p1, p2, k)
    ensures MemCmp(p1, p2, count) > 0 ==> exists k: nat :: k < count && LessAt(p2, p1, k)
    decreases count
  {
    if count > 0 {
      if p1[0] == p2[0] {
        var q1, q2 := p1[1..], p2[1..];
        MemCmpMeans(q1, q2, count - 1);
        assert p1[..count] == [p1[0]] + q1[..count - 1];
        assert p2[..count] == [p2[0]] + q2[..count - 1];
        if MemCmp(q1, q2, count - 1) < 0 {
          var k: nat :| k < count - 1 && LessAt(q1, q2, k);
          LessLater(p1, p2, k);
        } else if MemCmp(q1, q2, count - 1) > 0 {
          var k: nat :| k < count - 1 && LessAt(q2, q1, k);
          LessLater(p2, p1, k);
        }
      } else {
        assert p1[..count][0] != p2[..count][0];
        assert if p1[0] < p2[0] then LessAt(p1, p2, 0) else LessAt(p2, p1, 0);
      }
    }
  }

  lemma LessLater(a: Bytes, b: Bytes, k: nat)
    requires a != [] && b != [] && a[0] == b[0] && LessAt(a[1..], b[1..], k)
    ensures LessAt(a, b, k + 1)
  {
    assert a[..k + 1] == [a[0]] + a[1..][..k];
    assert b[..k + 1] == [b[0]] + b[1..][..k];
  }

  /** The condition tells which of two strings is less, or that they are the same. */
  lemma ConditionLexicMeans(p1: Bytes, p2: Bytes)
    ensures ConditionLexic(p1, p2).GT? <==> LexLess(p1, p2)
    ensures ConditionLexic(p1, p2).LT? <==> LexLess(p2, p1)
    ensures ConditionLexic(p1, p2).EQ? <==> p1 == p2
  {
    var n := Shorter(p1, p2);
    MemCmpMeans(p1, p2, n);
    assert p1[..|p1|] == p1 && p2[..|p2|] == p2;
    if MemCmp(p1, p2, n) == 0 {
      if |p1| < |p2| { assert LessAt(p1, p2, n); }
      if |p2| < |p1| { assert LessAt(p2, p1, n); }
    }
    if LexLess(p1, p2) { LexAsymmetric(p1, p2); }
    if LexLess(p2, p1) { LexAsymmetric(p2, p1); }
  }

  lemma ConditionVolumeMeans(p1: Bytes, p2: Bytes)
    ensures ConditionVolume(p1, p2).GT? <==> VolumeLess(p1, p2)
    ensures ConditionVolume(p1, p2).LT? <==> VolumeLess(p2, p1)
    ensures ConditionVolume(p1, p2).EQ? <==> p1 == p2
  {
    if |p1| == |p2| { ConditionLexicMeans(p1, p2); }
  }

  /** Each test is the relation of the order that it is named after, with the second
      string on the left. */
  lemma TestsAgree(p1: Bytes, p2: Bytes)
    ensures GtLexic(p1, p2) <==> LexLess(p1, p2)
    ensures GeLexic(p1, p2) <==> LexLess(p1, p2) || p1 == p2
    ensures LeLexic(p1, p2) <==> LexLess(p2, p1) || p1 == p2
    ensures LtLexic(p1, p2) <==> LexLess(p2, p1)
    ensures GtVolume(p1, p2) <==> VolumeLess(p1, p2)
    ensures GeVolume(p1, p2) <==> VolumeLess(p1, p2) || p1 == p2
    ensures LeVolume(p1, p2) <==> VolumeLess(p2, p1) || p1 == p2
    ensures LtVolume(p1, p2) <==> VolumeLess(p2, p1)
    ensures Eq(p1, p2) <==> p1 == p2
    ensures Ne(p1, p2) <==> p1 != p2
  {
    ConditionLexicMeans(p1, p2);
    ConditionVolumeMeans(p1, p2);
  }

  lemma PfMeans(p: Bytes, s: Bytes)
    ensures Pf(p, s) <==> p <= s
  {
    if |p| <= |s| {
      MemCmpMeans(p, s, |p|);
      assert p[..|p|] == p;
    }
  }

  /** The strings with a prefix are an interval of the order, and the prefix itself is
      its first. */
  lemma PrefixInterval(p: Bytes, a: Bytes, b: Bytes, c: Bytes)
    requires Pf(p, a) && Pf(p, c) && GeLexic(a, b) && GeLexic(b, c)
    ensures Pf(p, b)
  {
    PfMeans(p, a);
    PfMeans(p, b);
    PfMeans(p, c);
    TestsAgree(a, b);
    TestsAgree(b, c);
    if a != b && b != c && !(p <= b) {
      var j: nat :| LessAt(a, b, j);
      var k: nat :| LessAt(b, c, k);
      Between(p, a, b, c, j, k);
    }
  }

  lemma Between(p: Bytes, a: Bytes, b: Bytes, c: Bytes, j: nat, k: nat)
    requires p <= a && p <= c && LessAt(a, b, j) && LessAt(b, c, k)
    ensures p <= b
  {
    assert forall i :: 0 <= i < j ==> a[i] == a[..j][i] == b[..j][i] == b[i];
    assert forall i :: 0 <= i < k ==> b[i] == b[..k][i] == c[..k][i] == c[i];
    assert forall i :: 0 <= i < |p| ==> a[i] == c[i];
  }

  lemma PrefixFirst(p: Bytes, s: Bytes)
    requires Pf(p, s)
    ensures GeLexic(p, s) && Pf(p, p)
  {
    PfMeans(p, s);
    PfMeans(p, p);
    TestsAgree(p, s);
    if p != s { assert LessAt(p, s, |p|); }
  }

  // ----- one string in another

  /** How often `b` is among the first `n` bytes. */
  ghost function Occurs(s: Bytes, n: nat, b: Byte): nat
    requires n <= |s|
  {
    if n == 0 then 0 else Occurs(s, n - 1, b) + if s[n - 1] == b then 1 else 0
  }

  lemma {:induction false} OccursIs(s: Bytes, n: nat, b: Byte)
    requires n <= |s|
    ensures Occurs(s, n, b) == multiset(s[..n])[b]
  {
    if n > 0 {
      OccursIs(s, n - 1, b);
      assert s[..n] == s[..n - 1] + [s[n - 1]];
    }
  }

  /** How many of the first `n` places are not yet marked and have `b`. */
  ghost function Unmarked(p1: Bytes, found: seq<bool>, n: nat, b: Byte): nat
    requires n <= |p1| == |found|
  {
    if n == 0 then 0
    else Unmarked(p1, found, n - 1, b) + if !found[n - 1] && p1[n - 1] == b then 1 else 0
  }

  /** How many of the first `n` places are not yet marked. */
  ghost function Open(found: seq<bool>, n: nat): nat
    requires n <= |found|
  {
    if n == 0 then 0 else Open(found, n - 1) + if !found[n - 1] then 1 else 0
  }

  lemma {:induction false} NoneMarked(p1: Bytes, found: seq<bool>, n: nat, b: Byte)
    requires n <= |p1| == |found| && forall i :: 0 <= i < n ==> !found[i]
    ensures Unmarked(p1, found, n, b) == Occurs(p1, n, b) && Open(found, n) == n
  {
    if n > 0 { NoneMarked(p1, found, n - 1, b); }
  }

  lemma {:induction false} MarkOne(p1: Bytes, found: seq<bool>, n: nat, i: nat, b: Byte)
    requires n <= |p1| == |found| && i < |p1| && !found[i]
    ensures Unmarked(p1, found[i := true], n, b)
         == Unmarked(p1, found, n, b) - if i < n && p1[i] == b then 1 else 0
    ensures Open(found[i := true], n) == Open(found, n) - if i < n then 1 else 0
  {
    if n > 0 { MarkOne(p1, found, n - 1, i, b); }
  }

  lemma {:induction false} AllMarked(p1: Bytes, found: seq<bool>, n: nat, b: Byte)
    requires n <= |p1| == |found|
    ensures Unmarked(p1, found, n, b) == 0 <==> forall i :: 0 <= i < n ==> found[i] || p1[i] != b
    ensures Open(found, n) == 0 ==> Unmarked(p1, found, n, b) == 0
  {
    if n > 0 { AllMarked(p1, found, n - 1, b); }
  }

  lemma {:induction false} OneOpen(p1: Bytes, found: seq<bool>, n: nat)
    requires n <= |p1| == |found| && Open(found, n) > 0
    ensures exists b :: Unmarked(p1, found, n, b) > 0
  {
    if found[n - 1] {
      OneOpen(p1, found, n - 1);
      var b :| Unmarked(p1, found, n - 1, b) > 0;
      assert Unmarked(p1, found, n, b) > 0;
    } else {
      assert Unmarked(p1, found, n, p1[n - 1]) > 0;
    }
  }

  /** Marks the first unmarked place of `b`, if there is one. */
  method Match(p1: Bytes, found: array<bool>, b: Byte) returns (hit: bool)
    requires found.Length == |p1|
    modifies found
    ensures hit == (Unmarked(p1, old(found[..]), |p1|, b) > 0)
    ensures Open(found[..], |p1|) == Open(old(found[..]), |p1|) - if hit then 1 else 0
    ensures forall c ::
      Unmarked(p1, found[..], |p1|, c) == Unmarked(p1, old(found[..]), |p1|, c) - if hit && c == b then 1 else 0
  {
    var i := 0;
    while i < |p1|
      invariant i <= |p1| && found[..] == old(found[..])
      invariant forall k :: 0 <= k < i ==> found[k] || p1[k] != b
    {
      if !found[i] && p1[i] == b {
        ghost var was := found[..];
        forall c {
          MarkOne(p1, was, |p1|, i, c);
        }
        AllMarked(p1, was, |p1|, b);
        found[i] := true;
        assert found[..] == was[i := true];
        return true;
      }
      i := i + 1;
    }
    AllMarked(p1, found[..], |p1|, b);
    return false;
  }

  /** Subset: every byte of `p1` can be found at a place of its own in `p2`. */
  method Sbs(p1: Bytes, p2: Bytes) returns (r: bool)
    ensures r <==> multiset(p1) <= multiset(p2)
  {
    if |p1| == 0 { return true; }
    if |p1| > |p2| {
      TooLong(p1, p2);
      return false;
    }
    var found := new bool[|p1|](_ => false);
    forall c {
      NoneMarked(p1, found[..], |p1|, c);
    }
    NoneMarked(p1, found[..], |p1|, 0);
    var count := |p1|;
    var j := 0;
    while j < |p2|
      invariant j <= |p2| && count > 0 && found.Length == |p1|
      invariant count == Open(found[..], |p1|)
      invariant forall c :: Unmarked(p1, found[..], |p1|, c) == Missing(p1, p2, j, c)
    {
      var hit := Match(p1, found, p2[j]);
      j := j + 1;
      if hit {
        count := count - 1;
        if count == 0 {
          NothingMissing(p1, p2, j, found[..]);
          return true;
        }
      }
    }
    OneOpen(p1, found[..], |p1|);
    ghost var c :| Unmarked(p1, found[..], |p1|, c) > 0;
    SomeMissing(p1, p2, c);
    return false;
  }

  /** How many more of `b` there are in `p1` than in the first `j` bytes of `p2`. */
  ghost function Missing(p1: Bytes, p2: Bytes, j: nat, b: Byte): nat
    requires j <= |p2|
  {
    var m := Occurs(p1, |p1|, b) - Occurs(p2, j, b);
    if m > 0 then m else 0
  }

  lemma {:induction false} OccursMore(s: Bytes, m: nat, n: nat, b: Byte)
    requires m <= n <= |s|
    ensures Occurs(s, m, b) <= Occurs(s, n, b)
    decreases n
  {
    if m < n { OccursMore(s, m, n - 1, b); }
  }

  lemma NothingMissing(p1: Bytes, p2: Bytes, j: nat, found: seq<bool>)
    requires j <= |p2| && |found| == |p1| && Open(found, |p1|) == 0
    requires forall c :: Unmarked(p1, found, |p1|, c) == Missing(p1, p2, j, c)
    ensures multiset(p1) <= multiset(p2)
  {
    forall c ensures multiset(p1)[c] <= multiset(p2)[c] {
      AllMarked(p1, found, |p1|, c);
      OccursMore(p2, j, |p2|, c);
      CountOf(p1, c);
      CountOf(p2, c);
    }
  }

  lemma SomeMissing(p1: Bytes, p2: Bytes, c: Byte)
    requires Missing(p1, p2, |p2|, c) > 0
    ensures !(multiset(p1) <= multiset(p2))
  {
    CountOf(p1, c);
    CountOf(p2, c);
    assert multiset(p1)[c] > multiset(p2)[c];
  }

  lemma CountOf(s: Bytes, c: Byte)
    ensures Occurs(s, |s|, c) == multiset(s)[c]
  {
    OccursIs(s, |s|, c);
    assert s[..|s|] == s;
  }

  lemma TooLong(p1: Bytes, p2: Bytes)
    requires |p1| > |p2|
    ensures !(multiset(p1) <= multiset(p2))
  {
    assert multiset(p1) <= multiset(p2) ==>
      |multiset(p2)| == |multiset(p1)| + |multiset(p2) - multiset(p1)|;
  }

  /** `at` are places in `p2`, one after the other, of the bytes of `p1`. */
  ghost predicate Embeds(p1: Bytes, p2: Bytes, at: seq<nat>)
  {
    && |at| == |p1|
    && (forall k :: 0 <= k < |at| ==> at[k] < |p2| && p2[at[k]] == p1[k])
    && (forall i, k :: 0 <= i < k < |at| ==> at[i] < at[k])
  }

  ghost predicate Subsequence(p1: Bytes, p2: Bytes)
  {
    exists at :: Embeds(p1, p2, at)
  }

  lemma {:induction false} EmbeddedNotLonger(p1: Bytes, p2: Bytes, at: seq<nat>, k: nat)
    requires Embeds(p1, p2, at) && k < |at|
    ensures k <= at[k] && |p1| - k <= |p2| - at[k]
    decreases |at| - k
  {
    if k + 1 < |at| { EmbeddedNotLonger(p1, p2, at, k + 1); }
    NotBefore(p1, p2, at, k);
  }

  lemma {:induction false} NotBefore(p1: Bytes, p2: Bytes, at: seq<nat>, k: nat)
    requires Embeds(p1, p2, at) && k < |at|
    ensures k <= at[k]
  {
    if k > 0 { NotBefore(p1, p2, at, k - 1); }
  }

  lemma SubsequenceNotLonger(p1: Bytes, p2: Bytes)
    requires Subsequence(p1, p2)
    ensures |p1| <= |p2|
  {
    var at :| Embeds(p1, p2, at);
    if p1 != [] { EmbeddedNotLonger(p1, p2, at, 0); }
  }

  /** Partially ordered subset: greedy matching finds the bytes of `p1` in order
      whenever they are there in order. */
  method PoSbs(p1: Bytes, p2: Bytes) returns (r: bool)
    ensures r <==> Subsequence(p1, p2)
  {
    if |p1| > |p2| {
      if Subsequence(p1, p2) { SubsequenceNotLonger(p1, p2); }
      return false;
    }
    var i, j := 0, 0;
    ghost var places: seq<nat> := [];
    while i < |p1| && j < |p2|
      invariant i <= |p1| && j <= |p2|
      invariant Embeds(p1[..i], p2, places) && (forall k :: 0 <= k < i ==> places[k] < j)
      invariant forall at :: Embeds(p1, p2, at) && i < |p1| ==> at[i] >= j
    {
      if p1[i] == p2[j] {
        assert forall at :: Embeds(p1, p2, at) && i + 1 < |p1| ==> at[i] < at[i + 1];
        places := places + [j];
        i := i + 1;
      }
      j := j + 1;
    }
    assert p1[..|p1|] == p1;
    r := i == |p1|;
    assert !r ==> forall at :: Embeds(p1, p2, at) ==> at[i] >= |p2|;
  }

  ghost predicate OccursAt(p1: Bytes, p2: Bytes, f: nat)
  {
    f + |p1| <= |p2| && p2[f..f + |p1|] == p1
  }

  /** Fully ordered subset: `p1` stands in `p2` in one piece, where its first byte is
      first found. */
  method FoSbs(p1: Bytes, p2: Bytes) returns (r: bool)
    ensures r <==> p1 == [] || exists f: nat :: OccursAt(p1, p2, f) && p1[0] !in p2[..f]
  {
    if |p1| > |p2| { return false; }
    var start := false;
    var i, j := 0, 0;
    while i < |p1| && j < |p2|
      invariant i <= |p1| && i <= j <= |p2| && (start <==> i > 0)
      invariant p2[j - i..j] == p1[..i]
      invariant p1 != [] ==> p1[0] !in p2[..j - i]
    {
      if p1[i] == p2[j] {
        assert p2[j - i..j + 1] == p2[j - i..j] + [p2[j]] && p1[..i + 1] == p1[..i] + [p1[i]];
        start := true;
        i := i + 1;
      } else if start {
        FirstDecides(p1, p2, j - i, i);
        return false;
      } else {
        assert p2[..j + 1] == p2[..j] + [p2[j]];
      }
      j := j + 1;
    }
    r := i == |p1|;
    if r {
      assert p1[..|p1|] == p1;
      assert p1 != [] ==> OccursAt(p1, p2, j - i);
    } else if i > 0 {
      FirstEnds(p1, p2, j - i);
    } else {
      assert p2[..j - i] == p2;
    }
  }

  lemma NotInPrefix<A>(s: seq<A>, x: A, n: nat)
    requires n <= |s| && x !in s[..n]
    ensures forall i :: 0 <= i < n ==> s[i] != x
  {
    assert forall i :: 0 <= i < n ==> s[..n][i] == s[i];
  }

  /** An occurrence at the first place of the first byte can only be at that place. */
  lemma FirstPlace(p1: Bytes, p2: Bytes, f: nat, g: nat)
    requires p1 != [] && f < |p2| && p2[f] == p1[0] && p1[0] !in p2[..f]
    requires OccursAt(p1, p2, g) && p1[0] !in p2[..g]
    ensures f == g
  {
    assert p2[g] == p2[g..g + |p1|][0] == p1[0];
    NotInPrefix(p2, p1[0], f);
    NotInPrefix(p2, p1[0], g);
  }

  lemma FirstDecides(p1: Bytes, p2: Bytes, f: nat, i: nat)
    requires 0 < i < |p1| && f + i < |p2|
    requires p2[f..f + i] == p1[..i] && p2[f + i] != p1[i] && p1[0] !in p2[..f]
    ensures !exists g: nat :: OccursAt(p1, p2, g) && p1[0] !in p2[..g]
  {
    assert p2[f] == p2[f..f + i][0] == p1[..i][0];
    forall g: nat | OccursAt(p1, p2, g) && p1[0] !in p2[..g] ensures false {
      FirstPlace(p1, p2, f, g);
    }
  }

  lemma FirstEnds(p1: Bytes, p2: Bytes, f: nat)
    requires f < |p2| < f + |p1| && p2[f] == p1[0] && p1[0] !in p2[..f]
    ensures !exists g: nat :: OccursAt(p1, p2, g) && p1[0] !in p2[..g]
  {
    forall g: nat | OccursAt(p1, p2, g) && p1[0] !in p2[..g] ensures false {
      FirstPlace(p1, p2, f, g);
    }
  }

  /** Not every occurrence in one piece is seen: one that begins inside a failed
      attempt is missed. */
  lemma MissesLaterOccurrence()
    ensures var p1, p2 := [1, 2], [1, 1, 2];
      OccursAt(p1, p2, 1) && !exists f: nat :: OccursAt(p1, p2, f) && p1[0] !in p2[..f]
  {
    FirstDecides([1, 2], [1, 1, 2], 0, 1);
  }

  /** In one piece is in order, and in order is in. */
  lemma OccursInOrder(p1: Bytes, p2: Bytes, f: nat)
    requires OccursAt(p1, p2, f)
    ensures Subsequence(p1, p2)
  {
    var at := seq(|p1|, k requires 0 <= k < |p1| => f + k);
    assert forall k :: 0 <= k < |p1| ==> p2[at[k]] == p2[f..f + |p1|][k];
    assert Embeds(p1, p2, at);
  }

  lemma {:induction false} InOrderIsSubset(p1: Bytes, p2: Bytes)
    requires Subsequence(p1, p2)
    ensures multiset(p1) <= multiset(p2)
    decreases |p1|
  {
    if p1 != [] {
      var n := |p1| - 1;
      var at :| Embeds(p1, p2, at);
      assert Embeds(p1[..n], p2[..at[n]], at[..n]);
      InOrderIsSubset(p1[..n], p2[..at[n]]);
      OneMoreThere(p1, p2, n, at[n]);
    }
  }

  lemma OneMoreThere(p1: Bytes, p2: Bytes, n: nat, at: nat)
    requires n + 1 == |p1| && at < |p2| && p1[n] == p2[at]
    requires multiset(p1[..n]) <= multiset(p2[..at])
    ensures multiset(p1) <= multiset(p2)
  {
    forall c ensures multiset(p1)[c] <= multiset(p2)[c] {
      CountOf(p1, c);
      CountOf(p2, c);
      OccursIs(p1, n, c);
      OccursIs(p2, at, c);
      OccursMore(p2, at + 1, |p2|, c);
      assert multiset(p1[..n])[c] <= multiset(p2[..at])[c];
    }
  }
}
