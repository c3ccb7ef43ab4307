/** The counters that give a load generator its key fractions.

    Each call of `set_value` moves a counter to its next value.  Over the first
    `n` calls a counter of `n` cells is to give every number from 1 to `n` once. */
module FractionStates {
  import opened Arithmetic
  import Common
  import Sequences

  const HALF := 0x8000_0000_0000_0000

  datatype Dist = Sequential(reverse: bool) | Stepping(step: nat, reverse: bool)

  datatype FState = FState(value: nat, offset: nat)

  predicate Good(n: nat, d: Dist, s: FState)
  {
    n > 0 && s.offset <= n && (d.Sequential? && d.reverse ==> 1 <= s.value <= n + 1)
  }

  function Start(n: nat, d: Dist): FState
  {
    FState(if d.reverse then n + 1 else 0, 0)
  }

  function Next(n: nat, d: Dist, s: FState): (t: FState)
    requires Good(n, d, s)
    ensures Good(n, d, t)
  {
    match d
    case Sequential(reverse) =>
      if reverse then s.(value := if s.value == 1 then n else s.value - 1)
      else s.(value := if s.value + 1 > n then 1 else s.value + 1)
    case Stepping(step, reverse) =>
      if reverse then
        if s.value <= step then
          var o := if s.offset == n then 0 else s.offset;
          FState(n - o, o + 1)
        else s.(value := s.value - step)
      else
        var v := (s.value + step) % WORD64;
        if v > n then
          var o := if s.offset + 1 > n then 1 else s.offset + 1;
          FState(o, o)
        else s.(value := v)
  }

  /** The state after `t` calls. */
  ghost function After(n: nat, d: Dist, t: nat): (s: FState)
    requires n > 0
    ensures Good(n, d, s)
  {
    if t == 0 then Start(n, d) else Next(n, d, After(n, d, t - 1))
  }

  /** The first `t` values. */
  ghost function Values(n: nat, d: Dist, t: nat): (vs: seq<nat>)
    requires n > 0
    ensures |vs| == t
  {
    if t == 0 then [] else Values(n, d, t - 1) + [After(n, d, t).value]
  }

  /** `s` is the numbers from 1 to `n`, each once, in some order. */
  ghost predicate Enumerates(s: seq<nat>, n: nat)
  {
    && |s| == n && Sequences.Distinct(s)
    && (forall i :: 0 <= i < |s| ==> 1 <= s[i] <= n)
    && (forall x :: 1 <= x <= n ==> x in s)
  }

  class FractionState {
    const ncells: nat
    const dist: Dist
    var value: nat
    var offset: nat

    ghost function State(): FState
      reads this
    {
      FState(value, offset)
    }

    constructor (ncells: nat, dist: Dist)
      ensures State() == Start(ncells, dist) && this.ncells == ncells && this.dist == dist
    {
      this.ncells, this.dist := ncells, dist;
      value, offset := if dist.reverse then ncells + 1 else 0, 0;
    }

    method SetValue()
      requires Good(ncells, dist, State())
      modifies this
      ensures State() == Next(ncells, dist, old(State()))
    {
      match dist
      case Sequential(reverse) =>
        if reverse {
          value := value - 1;
          if value == 0 { value := ncells; }
        } else {
          value := value + 1;
          if value > ncells { value := 1; }
        }
      case Stepping(step, reverse) =>
        if reverse {
          if value <= step {
            if offset == ncells { offset := 0; }
            value := ncells - offset;
            offset := offset + 1;
          } else {
            value := value - step;
          }
        } else {
          value := (value + step) % WORD64;
          if value > ncells {
            offset := offset + 1;
            if offset > ncells { offset := 1; }
            value := offset;
          }
        }
    }
  }

  // ----- sequential counters

  /** A sequential counter gives 1 to `n` in order, again and again. */
  lemma {:induction false} SequentialCycle(n: nat, d: Dist, cycles: nat, i: nat)
    requires n > 0 && d.Sequential? && 1 <= i <= n
    ensures After(n, d, cycles * n + i).value == if d.reverse then n + 1 - i else i
    decreases cycles, i
  {
    if i > 1 {
      SequentialCycle(n, d, cycles, i - 1);
    } else if cycles > 0 {
      SequentialCycle(n, d, cycles - 1, n);
      assert cycles * n == (cycles - 1) * n + n;
    }
  }

  // ----- stepping counters: up without wrapping, class by class

  /** Stepping up in unbounded arithmetic. */
  ghost function Up(n: nat, step: nat, s: FState): FState
  {
    if s.value + step > n then
      var o := if s.offset + 1 > n then 1 else s.offset + 1;
      FState(o, o)
    else s.(value := s.value + step)
  }

  ghost function UpAfter(n: nat, step: nat, t: nat): FState
  {
    if t == 0 then FState(0, 0) else Up(n, step, UpAfter(n, step, t - 1))
  }

  /** What has been passed at state `s`: all lower residue classes, and the
      current one up to the value. */
  ghost predicate Passed(step: nat, s: FState, x: nat)
    requires step > 0
  {
    x % step < s.offset || (x % step == s.offset && x <= s.value)
  }

  ghost function PassedSet(n: nat, step: nat, s: FState): set<nat>
    requires step > 0
  {
    set x: nat | 1 <= x <= n && Passed(step, s, x)
  }

  ghost predicate OnCourse(n: nat, step: nat, s: FState)
    requires step > 0
  {
    s.value <= n && s.offset < step && s.value % step == s.offset
  }

  lemma SameClass(step: nat, a: nat, b: nat)
    requires step > 0 && a % step == b % step && a < b
    ensures a + step <= b
  {
    var k := b / step - a / step;
    assert b - a == step * k;
    if b - a < step { NoMultipleBetween(step, k); }
  }

  lemma NextClass(step: nat, v: nat)
    requires step > 0
    ensures (v + step) % step == v % step
  {
    assert v + step == step * (v / step + 1) + v % step;
    ModUnique(step, v / step + 1, v % step);
  }

  /** As long as something is not passed, the next value is new and is all that
      becomes passed. */
  lemma UpPassesOne(n: nat, step: nat, s: FState, left: nat)
    requires step > 0 && OnCourse(n, step, s)
    requires 1 <= left <= n && !Passed(step, s, left)
    ensures var t := Up(n, step, s);
      && OnCourse(n, step, t) && 1 <= t.value
      && t.value !in PassedSet(n, step, s)
      && PassedSet(n, step, t) == PassedSet(n, step, s) + {t.value}
  {
    var t := Up(n, step, s);
    if s.value + step <= n {
      NextClass(step, s.value);
      forall x: nat | s.value < x <= s.value + step && x % step == s.offset
        ensures x == t.value
      {
        SameClass(step, s.value, x);
      }
    } else {
      if left % step == s.offset { SameClass(step, s.value, left); }
      ModAtMost(step, left);
      assert t == FState(s.offset + 1, s.offset + 1);
      SmallMod(step, s.offset + 1);
      forall x: nat | 1 <= x <= n && x % step == s.offset
        ensures x <= s.value
      {
        if x > s.value { SameClass(step, s.value, x); }
      }
      forall x: nat | x <= t.value && x % step == t.offset
        ensures x == t.value
      {
        ModAtMost(step, x);
      }
    }
  }

  lemma ModAtMost(step: nat, x: nat)
    requires step > 0
    ensures x % step <= x
  {
    if x < step { SmallMod(step, x); }
  }

  // ----- the first n values

  ghost function UpValues(n: nat, step: nat, t: nat): (vs: seq<nat>)
    ensures |vs| == t
  {
    if t == 0 then [] else UpValues(n, step, t - 1) + [UpAfter(n, step, t).value]
  }

  ghost predicate Injective(s: seq<nat>, seen: set<nat>)
  {
    && Sequences.Distinct(s) && |seen| == |s|
    && forall x :: x in seen <==> x in s
  }

  /** After `t` values, exactly they are passed. */
  lemma {:induction false} UpPasses(n: nat, step: nat, t: nat)
    requires n > 0 && step > 0 && t <= n
    ensures OnCourse(n, step, UpAfter(n, step, t))
    ensures Injective(UpValues(n, step, t), PassedSet(n, step, UpAfter(n, step, t)))
    ensures t > 0 ==> 1 <= UpAfter(n, step, t).value
  {
    if t == 0 {
      SmallMod(step, 0);
      assert PassedSet(n, step, UpAfter(n, step, 0)) == {};
    } else {
      UpPasses(n, step, t - 1);
      var s, vs := UpAfter(n, step, t - 1), UpValues(n, step, t - 1);
      var seen := PassedSet(n, step, s);
      var left := SomethingLeft(n, seen);
      assert !Passed(step, s, left);
      UpPassesOne(n, step, s, left);
      InjectiveMore(vs, seen, UpAfter(n, step, t).value);
    }
  }

  lemma SomethingLeft(n: nat, seen: set<nat>) returns (left: nat)
    requires |seen| < n && forall x :: x in seen ==> 1 <= x <= n
    ensures 1 <= left <= n && left !in seen
  {
    NumbersAre(n);
    assert seen <= Numbers(n);
    assert Numbers(n) != seen;
    left :| left in Numbers(n) && left !in seen;
  }

  lemma InjectiveMore(vs: seq<nat>, seen: set<nat>, v: nat)
    requires Injective(vs, seen) && v !in seen
    ensures Injective(vs + [v], seen + {v})
  {
  }

  /** Stepping up, the first `n` values are 1 to `n`, each once, for every step. */
  lemma UpEnumerates(n: nat, step: nat)
    requires n > 0 && step > 0
    ensures Enumerates(UpValues(n, step, n), n)
  {
    UpPasses(n, step, n);
    var seen := PassedSet(n, step, UpAfter(n, step, n));
    NumbersAre(n);
    assert seen <= Numbers(n);
    Common.SubsetSize(seen, Numbers(n));
    forall x | 1 <= x <= n ensures x in UpValues(n, step, n) { assert x in Numbers(n); }
    forall i | 0 <= i < n ensures 1 <= UpValues(n, step, n)[i] <= n {
      assert UpValues(n, step, n)[i] in seen;
    }
  }

  // ----- the program's counters

  lemma {:induction false} ValuesAt(n: nat, d: Dist, t: nat, i: nat)
    requires n > 0 && i < t
    ensures Values(n, d, t)[i] == After(n, d, i + 1).value
  {
    if i < t - 1 {
      ValuesAt(n, d, t - 1, i);
    }
  }

  lemma {:induction false} UpValuesAt(n: nat, step: nat, t: nat, i: nat)
    requires i < t
    ensures UpValues(n, step, t)[i] == UpAfter(n, step, i + 1).value
  {
    if i < t - 1 {
      UpValuesAt(n, step, t - 1, i);
    }
  }

  /** The first values are an enumeration if each is the same as, or the mirror
      image of, the value of one. */
  lemma EnumeratesLike(s: seq<nat>, t: seq<nat>, n: nat, mirror: bool)
    requires Enumerates(s, n) && |t| == n
    requires forall i :: 0 <= i < n ==> t[i] == if mirror then n + 1 - s[i] else s[i]
    ensures Enumerates(t, n)
  {
    forall x | 1 <= x <= n ensures x in t {
      var y := if mirror then n + 1 - x else x;
      assert y in s;
      var i :| 0 <= i < n && s[i] == y;
      assert t[i] == x;
    }
  }

  lemma {:induction false} UpBounds(n: nat, step: nat, t: nat)
    requires n > 0
    ensures UpAfter(n, step, t).value <= n && UpAfter(n, step, t).offset <= n
  {
    if t > 0 {
      UpBounds(n, step, t - 1);
    }
  }

  /** Stepping down is the mirror image of stepping up. */
  lemma {:induction false} ReverseMirrorsUp(n: nat, step: nat, t: nat)
    requires n > 0 && step > 0
    ensures UpAfter(n, step, t).value <= n + 1
    ensures After(n, Stepping(step, true), t)
         == FState(n + 1 - UpAfter(n, step, t).value, UpAfter(n, step, t).offset)
  {
    UpBounds(n, step, t);
    if t > 0 {
      ReverseMirrorsUp(n, step, t - 1);
      UpBounds(n, step, t - 1);
    }
  }

  /** Without overflow, the program steps up as unbounded arithmetic does. */
  lemma {:induction false} ForwardIsUp(n: nat, step: nat, t: nat)
    requires n > 0 && forall i :: 0 <= i < t ==> UpAfter(n, step, i).value + step < WORD64
    ensures After(n, Stepping(step, false), t) == UpAfter(n, step, t)
  {
    if t > 0 {
      ForwardIsUp(n, step, t - 1);
      NextIsUp(n, step, UpAfter(n, step, t - 1));
    }
  }

  lemma NextIsUp(n: nat, step: nat, s: FState)
    requires Good(n, Stepping(step, false), s) && s.value + step < WORD64
    ensures Next(n, Stepping(step, false), s) == Up(n, step, s)
  {
    SmallMod(WORD64, s.value + step);
  }

  /** The sum stays in the word for all of the first `n` values. */
  predicate SumFits(n: nat, step: nat)
    requires step > 0
  {
    n + step < WORD64 || (n + step == WORD64 && (step > n || (n + 1) % step == 0))
  }

  lemma NoOverflow(n: nat, step: nat, t: nat)
    requires n > 0 && step > 0 && SumFits(n, step) && t < n
    ensures UpAfter(n, step, t).value + step < WORD64
  {
    UpPasses(n, step, t);
    var s := UpAfter(n, step, t);
    var left := SomethingLeft(n, PassedSet(n, step, s));
    assert !Passed(step, s, left);
    if n + step == WORD64 && s.value == n { AllPassed(n, step, s, left); }
  }

  /** The last number of the last class is passed after all others. */
  lemma AllPassed(n: nat, step: nat, s: FState, x: nat)
    requires step > 0 && (step > n || (n + 1) % step == 0)
    requires OnCourse(n, step, s) && s.value == n && x <= n
    ensures Passed(step, s, x)
  {
    if step > n {
      SmallMod(step, n);
      SmallMod(step, x);
    } else {
      LastClass(step, n);
    }
  }

  /** Before a multiple of the step comes the last class. */
  lemma LastClass(step: nat, n: nat)
    requires step > 0
    ensures (n + 1) % step == 0 <==> n % step == step - 1
  {
    if n % step == step - 1 {
      ModUnique(step, n / step + 1, 0);
      assert n + 1 == step * (n / step + 1);
    } else {
      ModUnique(step, n / step, n % step + 1);
      assert n + 1 == step * (n / step) + (n % step + 1);
    }
  }

  /** A step so large that the sum overflows wraps to 0 after 2^64 - step values. */
  lemma {:induction false} ForwardOverflows(n: nat, step: nat, t: nat)
    requires 0 < n < step < WORD64 < n + step && t <= WORD64 - step
    ensures After(n, Stepping(step, false), t) == FState(t, t)
    ensures t == WORD64 - step ==> After(n, Stepping(step, false), t + 1).value == 0
  {
    if t > 0 {
      ForwardOverflows(n, step, t - 1);
      SmallMod(WORD64, t - 1 + step);
    }
  }

  /** After it wrapped, the counter gives one value more and then those it gave
      before. */
  lemma OverflowRepeats(n: nat, step: nat)
    requires 0 < n < step < WORD64 < n + step
    ensures var m := WORD64 - step; After(n, Stepping(step, false), m + 1) == FState(0, m)
    ensures var m := WORD64 - step; n >= m + 2 ==>
      && After(n, Stepping(step, false), m + 2) == FState(m + 1, m + 1)
      && After(n, Stepping(step, false), m + 3).value == 1
  {
    var d, m := Stepping(step, false), WORD64 - step;
    ForwardOverflows(n, step, m);
    assert After(n, d, m + 1) == Next(n, d, FState(m, m)) == FState(0, m);
    SmallMod(WORD64, step);
    if n >= m + 2 {
      assert After(n, d, m + 2) == Next(n, d, FState(0, m)) == FState(m + 1, m + 1);
      ModUnique(WORD64, 1, 1);
      assert After(n, d, m + 3) == Next(n, d, FState(m + 1, m + 1));
    }
  }

  /** The counters told apart here: all that go down, and those that go up unless a step
      that is not above `n` overflows, which takes 2^63 cells. */
  predicate InReach(n: nat, step: nat, reverse: bool)
  {
    0 < n < WORD64 - 1 && step < WORD64 && (reverse || step > n || n + step <= WORD64)
  }

  lemma SmallInReach(n: nat, step: nat, reverse: bool)
    requires 0 < n < HALF && step < WORD64
    ensures InReach(n, step, reverse)
    ensures reverse || step == 0 || (SumFits(n, step) <==> n + step <= WORD64)
  {
  }

  /** The first `n` values of a stepping counter are 1 to `n`, each once, exactly
      when the step is not 0 and, going up, no sum overflows the machine word. */
  lemma SteppingEnumerates(n: nat, step: nat, reverse: bool)
    requires 0 < n < 0xFFFF_FFFF_FFFF_FFFF && step < 0x1_0000_0000_0000_0000
    requires reverse || step > n || n + step <= 0x1_0000_0000_0000_0000
    ensures Enumerates(Values(n, Stepping(step, reverse), n), n)
      <==> step > 0 && (reverse || SumFits(n, step))
  {
    var d := Stepping(step, reverse);
    if step == 0 {
      ValuesAt(n, d, n, 0);
      assert After(n, d, 1).value == Next(n, d, Start(n, d)).value;
    } else if reverse || SumFits(n, step) {
      UpEnumerates(n, step);
      forall i | 0 <= i < n
        ensures Values(n, d, n)[i] == var u := UpValues(n, step, n)[i]; if reverse then n + 1 - u else u
      {
        ValueLikeUp(n, step, reverse, i);
      }
      EnumeratesLike(UpValues(n, step, n), Values(n, d, n), n, reverse);
    } else if n + step > WORD64 {
      ForwardOverflows(n, step, WORD64 - step);
      ValuesAt(n, d, n, WORD64 - step);
    } else {
      var t := LastSumOverflows(n, step);
      ValuesAt(n, d, n, t);
    }
  }

  /** When the step just reaches the word from `n`, and `n` is not of the last class,
      the value after `n` is 0. */
  lemma LastSumOverflows(n: nat, step: nat) returns (t: nat)
    requires 0 < step <= n && n + step == WORD64 && (n + 1) % step != 0
    ensures t < n && After(n, Stepping(step, false), t + 1).value == 0
  {
    UpEnumerates(n, step);
    assert n in UpValues(n, step, n);
    var k :| 0 <= k < n && UpValues(n, step, n)[k] == n;
    t := k + 1;
    UpValuesAt(n, step, n, k);
    forall i | 0 <= i < t ensures UpAfter(n, step, i).value + step < WORD64 {
      NotYetLast(n, step, k, i);
    }
    ForwardIsUp(n, step, t);
    SomethingAfter(n, step, t);
    WrapsToZero(n, step, UpAfter(n, step, t));
    assert After(n, Stepping(step, false), t + 1) == Next(n, Stepping(step, false), UpAfter(n, step, t));
  }

  lemma NotYetLast(n: nat, step: nat, k: nat, i: nat)
    requires n > 0 && Enumerates(UpValues(n, step, n), n) && k < n && UpAfter(n, step, k + 1).value == n && i <= k
    ensures UpAfter(n, step, i).value < n
  {
    UpBounds(n, step, i);
    if i > 0 {
      UpValuesAt(n, step, n, i - 1);
      UpValuesAt(n, step, n, k);
      assert UpValues(n, step, n)[i - 1] != UpValues(n, step, n)[k];
    }
  }

  lemma WrapsToZero(n: nat, step: nat, s: FState)
    requires Good(n, Stepping(step, false), s) && s.value == n && n + step == WORD64
    ensures Next(n, Stepping(step, false), s).value == 0
  {
    ModUnique(WORD64, 1, 0);
  }

  lemma SomethingAfter(n: nat, step: nat, t: nat)
    requires 0 < step <= n && (n + 1) % step != 0 && t <= n && UpAfter(n, step, t).value == n
    ensures t < n
  {
    UpPasses(n, step, t);
    var s := UpAfter(n, step, t);
    var seen := PassedSet(n, step, s);
    LastClass(step, n);
    SmallMod(step, step - 1);
    assert step - 1 !in seen && 1 <= step - 1;
    NumbersAre(n);
    assert seen <= Numbers(n) && step - 1 in Numbers(n);
    Common.SubsetSize(seen, Numbers(n));
  }

  lemma ValueLikeUp(n: nat, step: nat, reverse: bool, i: nat)
    requires n > 0 && 0 < step && (reverse || SumFits(n, step)) && i < n
    ensures Values(n, Stepping(step, reverse), n)[i]
      == var u := UpValues(n, step, n)[i]; if reverse then n + 1 - u else u
  {
    ValuesAt(n, Stepping(step, reverse), n, i);
    UpValuesAt(n, step, n, i);
    if reverse {
      ReverseMirrorsUp(n, step, i + 1);
    } else {
      forall j | 0 <= j < i + 1 ensures UpAfter(n, step, j).value + step < WORD64 { NoOverflow(n, step, j); }
      ForwardIsUp(n, step, i + 1);
    }
  }

  /** They are all different for a step that is not 0 also when the sum overflows so
      late that no more than one value is left after it. */
  lemma SteppingDistinct(n: nat, step: nat, reverse: bool)
    requires 0 < n < 0xFFFF_FFFF_FFFF_FFFF && step < 0x1_0000_0000_0000_0000
    requires reverse || step > n || n + step < 0x1_0000_0000_0000_0000
    ensures Sequences.Distinct(Values(n, Stepping(step, reverse), n))
      <==> if step == 0 then n == 1 else reverse || n + step <= WORD64 + 2
  {
    var d := Stepping(step, reverse);
    if step == 0 {
      if n > 1 { StandsStill(n, reverse); }
    } else if reverse || n + step <= WORD64 {
      SteppingEnumerates(n, step, reverse);
    } else {
      OverflowValues(n, step);
    }
  }

  lemma StandsStill(n: nat, reverse: bool)
    requires n > 1
    ensures !Sequences.Distinct(Values(n, Stepping(0, reverse), n))
  {
    var d := Stepping(0, reverse);
    assert After(n, d, 1) == Next(n, d, Start(n, d)) && After(n, d, 2) == Next(n, d, After(n, d, 1));
    ValuesAt(n, d, n, 0);
    ValuesAt(n, d, n, 1);
  }

  lemma OverflowValues(n: nat, step: nat)
    requires 0 < n < step < WORD64 < n + step
    ensures Sequences.Distinct(Values(n, Stepping(step, false), n)) <==> n + step <= WORD64 + 2
  {
    var vs, m := Values(n, Stepping(step, false), n), WORD64 - step;
    if n > m + 2 {
      OverflowValueAt(n, step, 0);
      OverflowValueAt(n, step, m + 2);
    } else {
      forall i | 0 <= i < n ensures vs[i] == if i < m then i + 1 else if i == m then 0 else m + 1 {
        OverflowValueAt(n, step, i);
      }
    }
  }

  lemma OverflowValueAt(n: nat, step: nat, i: nat)
    requires 0 < n < step < WORD64 < n + step && i < n && i <= WORD64 - step + 2
    ensures Values(n, Stepping(step, false), n)[i] == var m := WORD64 - step;
      if i < m then i + 1 else if i == m then 0 else if i == m + 1 then m + 1 else 1
  {
    ValuesAt(n, Stepping(step, false), n, i);
    if i < WORD64 - step {
      ForwardOverflows(n, step, i + 1);
    } else {
      OverflowRepeats(n, step);
    }
  }

  /** The first `n` values of a sequential counter are 1 to `n`, each once. */
  lemma SequentialEnumerates(n: nat, d: Dist)
    requires n > 0 && d.Sequential?
    ensures Enumerates(Values(n, d, n), n)
  {
    forall i | 0 <= i < n
      ensures Values(n, d, n)[i] == if d.reverse then n - i else i + 1
    {
      ValuesAt(n, d, n, i);
      SequentialCycle(n, d, 0, i + 1);
    }
    forall x | 1 <= x <= n ensures x in Values(n, d, n) {
      assert Values(n, d, n)[if d.reverse then n - x else x - 1] == x;
    }
  }
}
