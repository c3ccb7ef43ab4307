/** Types shared by the models. */
module Common {

  datatype Option<+T> = None | Some(value: T)

  type Byte = b: int | 0 <= b < 256

  type EndPoint = nat

  lemma SubsetSize<T>(a: set<T>, b: set<T>)
    requires a <= b
    ensures |a| <= |b|
    ensures |a| == |b| ==> a == b
  {
    assert |b - a| == |b| - |a|;
    assert b == a + (b - a);
  }
}

/** Sequences of anything, taken apart and put together. */
module Sequences {

  ghost predicate Distinct<T>(s: seq<T>)
  {
    forall i, j :: 0 <= i < j < |s| ==> s[i] != s[j]
  }

  lemma Rejoin<A>(s: seq<A>, k: nat)
    requires k < |s|
    ensures s == s[..k] + [s[k]] + s[k + 1..]
    ensures s[..k + 1] == s[..k] + [s[k]]
  {
  }

  lemma SliceOfPrefix<A>(s: seq<A>, size: nat, first: nat, last: nat)
    requires first <= last <= size <= |s|
    ensures s[..size][first..last] == s[first..last]
  {
  }

  lemma TailOfConcat<A>(a: seq<A>, b: seq<A>)
    ensures a != [] ==> (a + b)[0] == a[0] && (a + b)[1..] == a[1..] + b
    ensures a == [] ==> a + b == b
    ensures b == [] ==> a + b == a
  {
  }

  lemma Assoc<A>(a: seq<A>, b: seq<A>, c: seq<A>)
    ensures a + (b + c) == a + b + c
  {
  }

  lemma AppendOne<A>(a: seq<A>, x: A, b: seq<A>)
    ensures a + ([x] + b) == a + [x] + b
  {
  }

  lemma TakeAndDrop<A>(s: seq<A>, k: nat)
    requires k <= |s|
    ensures s[..k] + s[k..] == s
  {
  }

  lemma DropTwice<A>(s: seq<A>, from: nat, k: nat)
    requires from + k <= |s|
    ensures s[from..][k..] == s[from + k..]
  {
  }

  lemma SliceOfSlice<A>(s: seq<A>, from: nat, to: nat, a: nat, b: nat)
    requires from <= to <= |s| && a <= b <= to - from
    ensures s[from..to][a..b] == s[from + a..from + b]
  {
    assert forall k :: 0 <= k < to - from ==> s[from..to][k] == s[from + k];
  }

  lemma PairInstead<A>(s: seq<A>, k: nat, a: A, b: A)
    requires k < |s|
    ensures var t := s[..k] + [a, b] + s[k + 1..];
      && |t| == |s| + 1 && t[k] == a && t[k + 1] == b
      && (forall i :: 0 <= i < k ==> t[i] == s[i]) && (forall i :: k + 1 < i < |t| ==> t[i] == s[i - 1])
  {
  }

  lemma PairBySteps<A>(s: seq<A>, k: nat, gap: A, a: A, b: A)
    requires k < |s|
    ensures (s[..k + 1] + [gap] + s[k + 1..])[k + 1 := b][k := a] == s[..k] + [a, b] + s[k + 1..]
  {
  }

  lemma InAppended<A>(s: seq<A>, t: seq<A>, x: A)
    ensures x in s + t <==> x in s || x in t
  {
  }

  lemma FirstAndRest<A>(s: seq<A>, from: nat, to: nat)
    requires from < to <= |s|
    ensures s[from..to] == [s[from]] + s[from + 1..to]
  {
  }

  lemma SliceInside<A>(s: seq<A>, from: nat, total: nat, at: nat, k: nat)
    requires from <= at && at + k <= from + total <= |s|
    ensures s[from..][..total][at - from..][..k] == s[at..][..k]
  {
    assert s[from..][..total] == s[from..from + total];
    assert s[from..from + total][at - from..] == s[at..from + total];
  }
}

/** Arithmetic that takes more than adding. */
module Arithmetic {

  /** Words of 64 bits count modulo this. */
  const WORD64 := 0x1_0000_0000_0000_0000

  function Min(a: int, b: int): int { if b > a then a else b }

  /** From one up to `n`. */
  ghost function Numbers(n: nat): set<nat>
  {
    if n == 0 then {} else Numbers(n - 1) + {n}
  }

  lemma {:induction false} NumbersAre(n: nat)
    ensures |Numbers(n)| == n && forall x :: x in Numbers(n) <==> 1 <= x <= n
  {
    if n > 0 { NumbersAre(n - 1); }
  }

  lemma Distribute(a: int, b: int, c: int)
    ensures (a + b) * c == a * c + b * c
  {
  }

  lemma AtLeast(n: int, base: int)
    requires n >= 0 && base >= 0
    ensures n * base >= 0
  {
  }

  /** With the low digit below its base, the high digit decides. */
  lemma HighDigitDecides(high: int, low: int, base: int, bound: int)
    requires 0 <= low < base
    ensures high * base + low < bound * base <==> high < bound
  {
    if high < bound {
      Distribute(high, 1, base);
      AtLeast(bound - high - 1, base);
      Distribute(bound - high - 1, high + 1, base);
    } else {
      AtLeast(high - bound, base);
      Distribute(high - bound, bound, base);
    }
  }

  lemma DigitsUnique(high: int, low: int, high': int, low': int, base: int)
    requires 0 <= low < base && 0 <= low' < base
    requires high * base + low == high' * base + low'
    ensures high == high' && low == low'
  {
    HighDigitDecides(high, low, base, high' + 1);
    HighDigitDecides(high', low', base, high + 1);
    Distribute(high', 1, base);
    Distribute(high, 1, base);
  }

  lemma NoMultipleBetween(step: nat, k: int)
    requires step > 0
    ensures -(step as int) < step * k < step ==> k == 0
  {
    if k >= 1 { assert step * (k - 1) >= 0; }
    if k <= -1 { assert step * (-1 - k) >= 0; }
  }

  lemma ModUnique(step: nat, q: nat, r: nat)
    requires r < step
    ensures (step * q + r) % step == r
  {
    var x := step * q + r;
    assert step * (q - x / step) == x % step - r;
    NoMultipleBetween(step, q - x / step);
  }

  lemma SmallMod(step: nat, x: nat)
    requires x < step
    ensures x % step == x
  {
  }

  lemma DivWithin(x: nat, d: nat, bound: nat)
    requires d > 0 && x < bound * d
    ensures x / d < bound && x % d < d
  {
    assert x == x / d * d + x % d;
    HighDigitDecides(x / d, x % d, d, bound);
  }

  lemma DivOrder(x: nat, y: nat, d: nat)
    requires x <= y && d > 0
    ensures x / d <= y / d
  {
    assert x == x / d * d + x % d && y == y / d * d + y % d;
    HighDigitDecides(y / d, y % d, d, y / d + 1);
    HighDigitDecides(x / d, x % d, d, y / d + 1);
  }
}
