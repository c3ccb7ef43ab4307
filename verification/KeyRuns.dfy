/** Whole runs of a key generator: exactly the announced number of keys, all of
    them different. */
module KeyRuns {
  import opened Arithmetic
  import Decimal
  import opened FractionStates
  import opened KeyGenerators
  import Sequences

  /** A configuration that is accepted and asks for something. */
  ghost predicate Usable(p: Params)
  {
    p.Accepted() && 0 < p.ncells && 0 < p.onlevel && 0 < p.nfractions && 0 < p.Cells()
  }

  /** A usable configuration; with a step that goes up, its sums stay below 2^64 or it is
      above the number of cells, one of which holds for less than 2^63 cells. */
  ghost predicate InWords(p: Params)
  {
    && Usable(p)
    && (p.distribution.STEPPING? ==>
          && InReach(p.Cells(), p.seed, p.Reverse())
          && (p.Reverse() || p.seed > p.Cells() || p.Cells() + p.seed < WORD64))
  }

  /** The step is not 0, and going up it does not overflow too early. */
  predicate StepFits(p: Params)
  {
    p.distribution.STEPPING? ==>
      if p.seed == 0 then p.Cells() == 1 else p.Reverse() || p.Cells() + p.seed <= WORD64 + 2
  }

  /** The generator after `i` calls. */
  ghost function GenAfter(p: Params, i: nat): Gen
  {
    if i == 0 then Initial(p) else
    var g := GenAfter(p, i - 1);
    if InRange(p, g) then NextKey(p, g).0 else g
  }

  /** Whether call number `i` gives a key. */
  ghost predicate GivesKey(p: Params, i: nat)
    requires i > 0
  {
    InRange(p, GenAfter(p, i - 1)) && NextKey(p, GenAfter(p, i - 1)).1
  }

  ghost function KeyAt(p: Params, i: nat): seq<nat>
    requires i > 0 && GivesKey(p, i) && GenAfter(p, i).nfractions <= |GenAfter(p, i).states|
  {
    Key(GenAfter(p, i))
  }

  // ----- where a generator is after so many calls

  ghost function Row(p: Params, g: Gen): int
  {
    if p.course.STEP? || p.course.LEVELS? then g.nfractions - 1 else p.nfractions - g.nfractions
  }

  /** The number of calls before the one that led to `g`. */
  ghost function Index(p: Params, g: Gen): int
  {
    if p.OnlySingle() then g.cells - 1
    else if p.Leveled() then Row(p, g) * p.ncells + (g.cells - 1)
    else ((g.cells - 1) * p.nfractions + Row(p, g)) * p.onlevel + g.level
  }

  /** How often counter `k` has moved. */
  ghost function Moves(p: Params, g: Gen, k: nat): int
  {
    match p.course
    case SINGLE => g.cells
    case R_SINGLE => g.cells
    case LEVELS => if k < g.nfractions then (g.nfractions - 1 - k) * p.ncells + g.cells else 0
    case R_LEVELS => Row(p, g) * p.ncells + g.cells
    case STEP =>
      (g.cells - 1) * p.onlevel + (if k + 1 < g.nfractions then p.onlevel
                                   else if k + 1 == g.nfractions then g.level + 1 else 0)
    case R_STEP =>
      (g.cells - 1) * p.onlevel + (if k + 1 > g.nfractions then p.onlevel
                                   else if k + 1 == g.nfractions then g.level + 1 else 1)
  }

  ghost predicate InBounds(p: Params, g: Gen)
  {
    && 1 <= g.cells && 1 <= g.nfractions <= p.nfractions && g.level < p.onlevel
    && (p.OnlySingle() || p.Leveled() ==> g.cells <= p.ncells && g.level == 0)
    && (p.OnlySingle() ==> g.nfractions == p.nfractions)
  }

  ghost predicate CountersAgree(p: Params, g: Gen)
    requires 0 < p.Cells()
  {
    && |g.states| == p.nfractions
    && forall k :: 0 <= k < p.nfractions ==>
         Moves(p, g, k) >= 0 && g.states[k] == After(p.Cells(), p.Dist(), Moves(p, g, k))
  }

  ghost predicate Reached(p: Params, g: Gen, i: nat)
    requires 0 < p.Cells()
  {
    InBounds(p, g) && Index(p, g) == i - 1 && CountersAgree(p, g)
  }

  lemma ReachedInRange(p: Params, g: Gen, i: nat)
    requires Usable(p) && Reached(p, g, i)
    ensures InRange(p, g)
  {
    forall k | 0 <= k < |g.states| ensures Good(p.Cells(), p.Dist(), g.states[k]) {
      assert g.states[k] == After(p.Cells(), p.Dist(), Moves(p, g, k));
    }
  }

  /** The counters moved in [lo, hi) have moved once more. */
  lemma MovedAgree(p: Params, g: Gen, n: Gen, lo: nat, hi: nat)
    requires Usable(p) && InRange(p, g) && CountersAgree(p, g) && lo <= hi <= p.nfractions
    requires n.states == Moved(p, g.states, lo, hi)
    requires forall k :: 0 <= k < p.nfractions ==> Moves(p, n, k) == Moves(p, g, k) + (if lo <= k < hi then 1 else 0)
    ensures CountersAgree(p, n)
  {
    forall k | 0 <= k < p.nfractions
      ensures Moves(p, n, k) >= 0 && n.states[k] == After(p.Cells(), p.Dist(), Moves(p, n, k))
    {
      assert g.states[k] == After(p.Cells(), p.Dist(), Moves(p, g, k));
    }
  }

  lemma StepSingle(p: Params, g: Gen, i: nat)
    requires Usable(p) && p.OnlySingle() && Reached(p, g, i) && InRange(p, g)
    ensures NextKey(p, g).1 <==> i < p.Total()
    ensures NextKey(p, g).1 ==> Reached(p, NextKey(p, g).0, i + 1)
  {
    var n := NextKey(p, g).0;
    if i < p.Total() {
      MovedAgree(p, g, n, 0, p.nfractions);
    }
  }

  /** A leveled course goes on until the last cell of the last row. */
  lemma LeveledBound(p: Params, g: Gen)
    requires Usable(p) && p.Leveled() && InBounds(p, g)
    ensures Index(p, g) + 1 < p.Total() <==> g.cells < p.ncells || Row(p, g) + 1 < p.nfractions
    ensures g.cells == p.ncells ==> (Row(p, g) + 1) * p.ncells == Index(p, g) + 1
  {
    var row := Row(p, g);
    assert p.onlevel == 1;
    TimesOne(p.ncells, p.nfractions, p.onlevel);
    if g.cells < p.ncells {
      HighDigitDecides(row, g.cells, p.ncells, p.nfractions);
    } else {
      Distribute(row, 1, p.ncells);
      HighDigitDecides(row + 1, 0, p.ncells, p.nfractions);
    }
  }

  lemma TimesOne(a: int, b: int, one: int)
    requires one == 1
    ensures a * b * one == b * a
  {
  }

  lemma StepLeveled(p: Params, g: Gen, i: nat)
    requires Usable(p) && p.Leveled() && Reached(p, g, i) && InRange(p, g)
    ensures NextKey(p, g).1 <==> i < p.Total()
    ensures NextKey(p, g).1 ==> Reached(p, NextKey(p, g).0, i + 1)
  {
    LeveledBound(p, g);
    var n, more := NextKey(p, g).0, NextKey(p, g).1;
    if more {
      var hi := if p.course.LEVELS? then n.nfractions else p.nfractions;
      forall k | 0 <= k < p.nfractions
        ensures Moves(p, n, k) == Moves(p, g, k) + (if k < hi then 1 else 0)
      {
        Distribute(g.nfractions - 1 - k, 1, p.ncells);
      }
      MovedAgree(p, g, n, 0, hi);
    }
  }

  /** The next digits of a three-digit count. */
  lemma Carry(c: nat, row: nat, level: nat, rows: nat, levels: nat)
    requires row < rows && level < levels
    ensures level + 1 < levels ==> (c * rows + row) * levels + (level + 1) == (c * rows + row) * levels + level + 1
    ensures level + 1 == levels ==> (c * rows + (row + 1)) * levels == (c * rows + row) * levels + level + 1
    ensures row + 1 == rows ==> (c + 1) * rows == c * rows + (row + 1)
  {
    Distribute(c * rows + row, 1, levels);
    Distribute(c, 1, rows);
    assert c * rows + (row + 1) == (c * rows + row) + 1;
  }

  lemma StepBound(p: Params, n: Gen)
    requires Usable(p) && (p.course.STEP? || p.course.R_STEP?) && InBounds(p, n)
    ensures Index(p, n) < p.Total() <==> n.cells <= p.ncells
  {
    var inner := (n.cells - 1) * p.nfractions + Row(p, n);
    HighDigitDecides(inner, n.level, p.onlevel, p.ncells * p.nfractions);
    HighDigitDecides(n.cells - 1, Row(p, n), p.nfractions, p.ncells);
  }

  lemma StepStep(p: Params, g: Gen, i: nat)
    requires Usable(p) && p.course.STEP? && Reached(p, g, i) && InRange(p, g)
    ensures NextKey(p, g).1 <==> i < p.Total()
    ensures Reached(p, NextKey(p, g).0, i + 1)
  {
    var n := NextKey(p, g).0;
    Carry(g.cells - 1, Row(p, g), g.level, p.nfractions, p.onlevel);
    assert InBounds(p, n) && Index(p, n) == i;
    StepBound(p, n);
    Distribute(g.cells - 1, 1, p.onlevel);
    MovedAgree(p, g, n, n.nfractions - 1, n.nfractions);
  }

  lemma StepReverseStep(p: Params, g: Gen, i: nat)
    requires Usable(p) && p.course.R_STEP? && Reached(p, g, i) && InRange(p, g)
    ensures NextKey(p, g).1 <==> i < p.Total()
    ensures Reached(p, NextKey(p, g).0, i + 1)
  {
    var n := NextKey(p, g).0;
    Carry(g.cells - 1, Row(p, g), g.level, p.nfractions, p.onlevel);
    assert InBounds(p, n) && Index(p, n) == i;
    StepBound(p, n);
    Distribute(g.cells - 1, 1, p.onlevel);
    if g.level + 1 < p.onlevel {
      MovedAgree(p, g, n, g.nfractions - 1, g.nfractions);
    } else if g.nfractions == 1 {
      MovedAgree(p, g, n, 0, p.nfractions);
    } else {
      NothingMoved(p, g, n);
    }
  }

  lemma NothingMoved(p: Params, g: Gen, n: Gen)
    requires Usable(p) && CountersAgree(p, g) && n.states == g.states
    requires forall k :: 0 <= k < p.nfractions ==> Moves(p, n, k) == Moves(p, g, k)
    ensures CountersAgree(p, n)
  {
    forall k | 0 <= k < p.nfractions
      ensures Moves(p, n, k) >= 0 && n.states[k] == After(p.Cells(), p.Dist(), Moves(p, n, k))
    {
      assert g.states[k] == After(p.Cells(), p.Dist(), Moves(p, g, k));
    }
  }

  lemma Step(p: Params, g: Gen, i: nat)
    requires Usable(p) && Reached(p, g, i)
    ensures InRange(p, g)
    ensures NextKey(p, g).1 <==> i < p.Total()
    ensures NextKey(p, g).1 ==> Reached(p, NextKey(p, g).0, i + 1)
  {
    ReachedInRange(p, g, i);
    match p.course
    case SINGLE => StepSingle(p, g, i);
    case R_SINGLE => StepSingle(p, g, i);
    case LEVELS => StepLeveled(p, g, i);
    case R_LEVELS => StepLeveled(p, g, i);
    case STEP => StepStep(p, g, i);
    case R_STEP => StepReverseStep(p, g, i);
  }

  lemma First(p: Params)
    requires Usable(p)
    ensures InRange(p, Initial(p)) && NextKey(p, Initial(p)).1 && Reached(p, NextKey(p, Initial(p)).0, 1)
  {
    FirstCounters(p, NextKey(p, Initial(p)).0);
  }

  lemma FirstCounters(p: Params, n: Gen)
    requires Usable(p) && InRange(p, Initial(p)) && n == NextKey(p, Initial(p)).0
    ensures CountersAgree(p, n)
  {
    forall k | 0 <= k < p.nfractions
      ensures Moves(p, n, k) >= 0 && n.states[k] == After(p.Cells(), p.Dist(), Moves(p, n, k))
    {
      FirstCounter(p, n, k);
      assert After(p.Cells(), p.Dist(), 1) == Next(p.Cells(), p.Dist(), After(p.Cells(), p.Dist(), 0));
    }
  }

  /** With the first call a counter has not moved, or once. */
  lemma FirstCounter(p: Params, n: Gen, k: nat)
    requires Usable(p) && InRange(p, Initial(p)) && n == NextKey(p, Initial(p)).0 && k < p.nfractions
    ensures 0 <= Moves(p, n, k) <= 1
    ensures var start := After(p.Cells(), p.Dist(), 0);
      n.states[k] == if Moves(p, n, k) == 0 then start else Next(p.Cells(), p.Dist(), start)
  {
    assert Initial(p).states[k] == After(p.Cells(), p.Dist(), 0);
  }

  lemma TotalPositive(p: Params)
    requires Usable(p)
    ensures p.Total() > 0
  {
    AtLeast(p.ncells - 1, p.nfractions);
    Distribute(p.ncells - 1, 1, p.nfractions);
    AtLeast(p.ncells * p.nfractions - 1, p.onlevel);
    Distribute(p.ncells * p.nfractions - 1, 1, p.onlevel);
  }

  /** Every call up to the total gives a key and leads where the digits say. */
  lemma {:induction false} Run(p: Params, i: nat)
    requires Usable(p) && 0 < i <= p.Total()
    ensures GivesKey(p, i) && Reached(p, GenAfter(p, i), i)
  {
    if i == 1 {
      assert GenAfter(p, 0) == Initial(p);
      First(p);
    } else {
      Run(p, i - 1);
      Step(p, GenAfter(p, i - 1), i - 1);
    }
  }

  /** The number of keys before the first call without one is exactly what the
      tool later counts on. */
  lemma ExactCount(p: Params)
    requires Usable(p)
    ensures forall i :: 0 < i <= p.Total() ==> GivesKey(p, i)
    ensures !GivesKey(p, p.Total() + 1)
  {
    forall i | 0 < i <= p.Total() ensures GivesKey(p, i) { Run(p, i); }
    TotalPositive(p);
    Run(p, p.Total());
    Step(p, GenAfter(p, p.Total()), p.Total());
  }

  /** A state that no further call leads out of: there is no key any more. */
  ghost predicate Over(p: Params, g: Gen)
  {
    match p.course
    case SINGLE => g.cells >= p.ncells
    case R_SINGLE => g.cells >= p.ncells
    case LEVELS => g.cells >= p.ncells && g.nfractions >= p.nfractions
    case R_LEVELS => g.cells >= p.ncells && g.nfractions <= 1 && p.nfractions == 1
    case _ => g.cells > p.ncells
  }

  lemma StaysOver(p: Params, g: Gen)
    requires InRange(p, g) && Over(p, g)
    ensures !NextKey(p, g).1 && Over(p, NextKey(p, g).0)
  {
  }

  lemma {:induction false} OverFrom(p: Params, m: nat, i: nat)
    requires m <= i && Over(p, GenAfter(p, m))
    ensures Over(p, GenAfter(p, i)) && !GivesKey(p, i + 1)
  {
    if m < i { OverFrom(p, m, i - 1); }
    if InRange(p, GenAfter(p, i)) { StaysOver(p, GenAfter(p, i)); }
  }

  /** No later call gives a key, except that the levels taken downwards begin again with the
      row after the first one, if there is one. */
  lemma NoneAfterEnd(p: Params)
    requires Usable(p)
    ensures (forall i :: i > p.Total() ==> !GivesKey(p, i)) <==> p.course != R_LEVELS || p.nfractions == 1
  {
    ExactCount(p);
    Run(p, p.Total());
    Step(p, GenAfter(p, p.Total()), p.Total());
    var end := p.Total() + 1;
    if p.course != R_LEVELS || p.nfractions == 1 {
      forall i | i > p.Total() ensures !GivesKey(p, i) {
        if i > end { OverFrom(p, end, i - 1); }
      }
    } else {
      assert GivesKey(p, end + 1);
    }
  }

  // ----- the keys

  /** Which of the enumerated values the last fraction of the key is. */
  ghost function LastTurn(p: Params, g: Gen): int
  {
    (g.cells - 1) * p.onlevel + g.level
  }

  ghost function AllValues(p: Params): seq<nat>
    requires p.Cells() > 0
  {
    Values(p.Cells(), p.Dist(), p.Cells())
  }

  /** The numbers in order, or downwards by the courses that go down. */
  lemma SequentialValues(p: Params, a: nat)
    requires p.distribution == SEQUENTIAL && a < p.Cells()
    ensures AllValues(p)[a] == if p.course in {R_STEP, R_SINGLE, R_LEVELS} then p.Cells() - a else a + 1
  {
    ValuesAt(p.Cells(), p.Dist(), p.Cells(), a);
    SequentialCycle(p.Cells(), p.Dist(), 0, a + 1);
  }

  lemma OneLevel(p: Params, g: Gen)
    requires Usable(p) && InBounds(p, g) && (p.OnlySingle() || p.Leveled())
    ensures p.Cells() == p.ncells && LastTurn(p, g) + 1 == g.cells
    ensures p.course.LEVELS? ==> Moves(p, g, g.nfractions - 1) == g.cells
  {
    assert p.onlevel == 1;
  }

  /** Which of the enumerated values fraction `k` of the key is: with a step, all before the
      last one stand at the end of the cell, or going down at its begin. */
  ghost function Turn(p: Params, g: Gen, k: nat): int
  {
    if k + 1 < g.nfractions && p.course.STEP? then g.cells * p.onlevel - 1
    else if k + 1 < g.nfractions && p.course.R_STEP? then (g.cells - 1) * p.onlevel
    else LastTurn(p, g)
  }

  lemma TurnWithin(p: Params, g: Gen, k: nat)
    requires Usable(p) && InBounds(p, g) && g.cells <= p.ncells
    ensures 0 <= Turn(p, g, k) < p.Cells()
  {
    HighDigitDecides(g.cells - 1, g.level, p.onlevel, p.ncells);
    HighDigitDecides(g.cells - 1, 0, p.onlevel, p.ncells);
    HighDigitDecides(g.cells - 1, p.onlevel - 1, p.onlevel, p.ncells);
    AtLeast(g.cells - 1, p.onlevel);
    Distribute(g.cells - 1, 1, p.onlevel);
  }

  /** A counter in use stands where that many moves from the start lead. */
  lemma TurnMoves(p: Params, g: Gen, k: nat)
    requires Usable(p) && InBounds(p, g) && g.cells <= p.ncells && k < g.nfractions
    requires Moves(p, g, k) >= 0 && Turn(p, g, k) >= 0
    ensures After(p.Cells(), p.Dist(), Moves(p, g, k)).value == After(p.Cells(), p.Dist(), Turn(p, g, k) + 1).value
  {
    match p.course
    case LEVELS => LeveledMoves(p, g, g.nfractions - 1 - k);
    case R_LEVELS => LeveledMoves(p, g, Row(p, g));
    case STEP => Distribute(g.cells - 1, 1, p.onlevel);
    case R_STEP =>
    case _ => OneLevel(p, g);
  }

  /** After whole cycles a sequential counter stands where it stood. */
  lemma LeveledMoves(p: Params, g: Gen, cycles: nat)
    requires Usable(p) && p.Leveled() && InBounds(p, g)
    ensures cycles * p.ncells + g.cells >= 0 && LastTurn(p, g) >= 0
    ensures After(p.Cells(), p.Dist(), cycles * p.ncells + g.cells).value
         == After(p.Cells(), p.Dist(), LastTurn(p, g) + 1).value
  {
    OneLevel(p, g);
    AtLeast(cycles, p.ncells);
    SequentialCycle(p.ncells, p.Dist(), cycles, g.cells);
    SequentialCycle(p.ncells, p.Dist(), 0, g.cells);
  }

  /** Every fraction of every key: the key of call `i` has the fractions that the digits of
      `i` say, each with the value of its own turn in the enumeration. */
  lemma KeyFractions(p: Params, i: nat)
    requires Usable(p) && 0 < i <= p.Total()
    ensures GivesKey(p, i) && 0 < GenAfter(p, i).nfractions <= |GenAfter(p, i).states|
    ensures var g := GenAfter(p, i);
      && InBounds(p, g) && Index(p, g) == i - 1 && |KeyAt(p, i)| == g.nfractions
      && forall k :: 0 <= k < g.nfractions ==>
           0 <= Turn(p, g, k) < p.Cells() && KeyAt(p, i)[k] == AllValues(p)[Turn(p, g, k)]
  {
    Run(p, i);
    var g := GenAfter(p, i);
    if p.course.STEP? || p.course.R_STEP? { StepBound(p, g); }
    forall k | 0 <= k < g.nfractions
      ensures 0 <= Turn(p, g, k) < p.Cells() && Key(g)[k] == AllValues(p)[Turn(p, g, k)]
    {
      TurnWithin(p, g, k);
      TurnMoves(p, g, k);
      ValuesAt(p.Cells(), p.Dist(), p.Cells(), Turn(p, g, k));
    }
  }

  /** Two calls that end with the same length and turn are the same call. */
  lemma SamePlace(p: Params, g: Gen, h: Gen)
    requires Usable(p) && InBounds(p, g) && InBounds(p, h)
    requires g.nfractions == h.nfractions && LastTurn(p, g) == LastTurn(p, h)
    ensures Index(p, g) == Index(p, h)
  {
    DigitsUnique(g.cells - 1, g.level, h.cells - 1, h.level, p.onlevel);
  }

  lemma AllValuesDistinct(p: Params)
    requires InWords(p)
    ensures Sequences.Distinct(AllValues(p)) <==> StepFits(p)
  {
    if p.distribution.STEPPING? {
      SteppingDistinct(p.Cells(), p.seed, p.Reverse());
    } else {
      SequentialEnumerates(p.Cells(), p.Dist());
    }
  }

  /** Two calls give a key, and the same one. */
  ghost predicate SameKey(p: Params, i: nat, j: nat)
    requires i > 0 && j > 0
  {
    && GivesKey(p, i) && GivesKey(p, j)
    && GenAfter(p, i).nfractions <= |GenAfter(p, i).states|
    && GenAfter(p, j).nfractions <= |GenAfter(p, j).states|
    && KeyAt(p, i) == KeyAt(p, j)
  }

  /** How the key of a call ends. */
  lemma KeyEnd(p: Params, i: nat)
    requires Usable(p) && 0 < i <= p.Total()
    ensures GivesKey(p, i) && 0 < GenAfter(p, i).nfractions <= |GenAfter(p, i).states|
    ensures var g := GenAfter(p, i);
      && InBounds(p, g) && Index(p, g) == i - 1 && 0 <= LastTurn(p, g) < p.Cells()
      && |KeyAt(p, i)| == g.nfractions && KeyAt(p, i)[g.nfractions - 1] == AllValues(p)[LastTurn(p, g)]
  {
    KeyFractions(p, i);
    assert Turn(p, GenAfter(p, i), GenAfter(p, i).nfractions - 1) == LastTurn(p, GenAfter(p, i));
  }

  /** `key`, of call `i` and state `g`, ends with the value of its turn. */
  ghost predicate EndsAs(p: Params, g: Gen, key: seq<nat>, i: nat)
    requires Usable(p)
  {
    && InBounds(p, g) && Index(p, g) == i - 1 && 0 <= LastTurn(p, g) < p.Cells()
    && 0 < |key| == g.nfractions && key[|key| - 1] == AllValues(p)[LastTurn(p, g)]
  }

  lemma KeyEndsAs(p: Params, g: Gen, key: seq<nat>, i: nat)
    requires Usable(p) && 0 < i <= p.Total() && GivesKey(p, i)
    requires g == GenAfter(p, i) && g.nfractions <= |g.states| && key == Key(g)
    ensures EndsAs(p, g, key, i)
  {
    KeyEnd(p, i);
  }

  lemma DifferentKeys(p: Params, i: nat, j: nat)
    requires Usable(p) && Sequences.Distinct(AllValues(p)) && 0 < i < j <= p.Total()
    ensures !SameKey(p, i, j)
  {
    if SameKey(p, i, j) {
      var g, h, key := GenAfter(p, i), GenAfter(p, j), KeyAt(p, i);
      KeyEndsAs(p, g, key, i);
      KeyEndsAs(p, h, key, j);
      SameEnd(p, g, h, key, i, j);
    }
  }

  lemma SameEnd(p: Params, g: Gen, h: Gen, key: seq<nat>, i: nat, j: nat)
    requires Usable(p) && Sequences.Distinct(AllValues(p)) && EndsAs(p, g, key, i) && EndsAs(p, h, key, j)
    ensures i == j
  {
    ApartInDistinct(AllValues(p), LastTurn(p, g), LastTurn(p, h));
    SamePlace(p, g, h);
  }

  lemma ApartInDistinct<T>(s: seq<T>, a: nat, b: nat)
    requires Sequences.Distinct(s) && a < |s| && b < |s| && s[a] == s[b]
    ensures a == b
  {
  }

  // ----- calls that give the same key

  /** The number of three digits, the lower two with the bases that follow them. */
  ghost function Number(high: int, mid: int, mids: int, low: int, lows: int): int
  {
    (high * mids + mid) * lows + low
  }

  /** The call whose key, of the fewest fractions there are, is that of turn `a`. */
  ghost function CallOf(p: Params, a: nat): int
    requires Usable(p)
  {
    if p.OnlySingle() then a + 1 else Number(a / p.onlevel, FirstRow(p), p.nfractions, a % p.onlevel, p.onlevel) + 1
  }

  ghost function FirstRow(p: Params): int { if p.course.STEP? then 0 else p.nfractions - 1 }

  lemma CallWithin(p: Params, a: nat)
    requires Usable(p) && !p.Leveled() && a < p.Cells()
    ensures 0 < CallOf(p, a) <= p.Total()
  {
    if p.OnlySingle() {
      TimesOne(p.ncells, 1, p.onlevel);
      assert p.Cells() == p.ncells;
    } else {
      DivWithin(a, p.onlevel, p.ncells);
      DigitsWithin(a / p.onlevel, p.ncells, FirstRow(p), p.nfractions, a % p.onlevel, p.onlevel);
    }
  }

  lemma DigitsWithin(high: nat, highs: nat, mid: nat, mids: nat, low: nat, lows: nat)
    requires high < highs && mid < mids && low < lows
    ensures 0 <= Number(high, mid, mids, low, lows) < highs * mids * lows
  {
    HighDigitDecides(high, mid, mids, highs);
    AtLeast(high, mids);
    HighDigitDecides(high * mids + mid, low, lows, highs * mids);
    AtLeast(high * mids + mid, lows);
  }

  lemma CallPlace(p: Params, a: nat, g: Gen)
    requires Usable(p) && !p.Leveled() && a < p.Cells() && InBounds(p, g) && Index(p, g) == CallOf(p, a) - 1
    ensures LastTurn(p, g) == a && g.nfractions == if p.OnlySingle() then p.nfractions else 1
  {
    if p.OnlySingle() {
      assert p.onlevel == 1;
    } else {
      var row := FirstRow(p);
      DigitsUnique((g.cells - 1) * p.nfractions + Row(p, g), g.level,
        a / p.onlevel * p.nfractions + row, a % p.onlevel, p.onlevel);
      DigitsUnique(g.cells - 1, Row(p, g), a / p.onlevel, row, p.nfractions);
    }
  }

  /** All fractions of that key are the value of the turn. */
  lemma CallKey(p: Params, a: nat)
    requires Usable(p) && !p.Leveled() && a < p.Cells()
    ensures 0 < CallOf(p, a) <= p.Total() && GivesKey(p, CallOf(p, a))
    ensures var g := GenAfter(p, CallOf(p, a));
      && g.nfractions <= |g.states| && g.nfractions == (if p.OnlySingle() then p.nfractions else 1)
      && forall k :: 0 <= k < g.nfractions ==> Key(g)[k] == AllValues(p)[a]
  {
    CallWithin(p, a);
    var i := CallOf(p, a);
    Run(p, i);
    var g := GenAfter(p, i);
    CallPlace(p, a, g);
    KeyFractions(p, i);
    forall k | 0 <= k < g.nfractions ensures Key(g)[k] == AllValues(p)[a] {
      assert Turn(p, g, k) == LastTurn(p, g);
    }
  }

  lemma CallsDiffer(p: Params, a: nat, b: nat)
    requires Usable(p) && !p.Leveled() && a < p.Cells() && b < p.Cells() && CallOf(p, a) == CallOf(p, b)
    ensures a == b
  {
    CallWithin(p, a);
    Run(p, CallOf(p, a));
    CallPlace(p, a, GenAfter(p, CallOf(p, a)));
    CallPlace(p, b, GenAfter(p, CallOf(p, a)));
  }

  lemma SameTurnSameKey(p: Params, a: nat, b: nat)
    requires Usable(p) && !p.Leveled() && a < b < p.Cells() && AllValues(p)[a] == AllValues(p)[b]
    ensures exists i: nat, j: nat | 0 < i < j <= p.Total() :: SameKey(p, i, j)
  {
    CallKey(p, a);
    CallKey(p, b);
    var i, j := CallOf(p, a), CallOf(p, b);
    assert KeyAt(p, i) == KeyAt(p, j);
    if i == j { CallsDiffer(p, a, b); }
    assert SameKey(p, i, j) && SameKey(p, j, i);
  }

  /** No two of the keys are the same exactly when the step fits. */
  lemma KeysDistinct(p: Params)
    requires Usable(p)
    requires p.distribution.STEPPING? ==>
      && p.Cells() < 0xFFFF_FFFF_FFFF_FFFF && p.seed < 0x1_0000_0000_0000_0000
      && (p.Reverse() || p.seed > p.Cells() || p.Cells() + p.seed < 0x1_0000_0000_0000_0000)
    ensures (forall i: nat, j: nat | 0 < i < j <= p.Total() :: !SameKey(p, i, j)) <==> StepFits(p)
  {
    AllValuesDistinct(p);
    if StepFits(p) {
      forall i: nat, j: nat | 0 < i < j <= p.Total() ensures !SameKey(p, i, j) {
        DifferentKeys(p, i, j);
      }
    } else {
      var a, b :| 0 <= a < b < p.Cells() && AllValues(p)[a] == AllValues(p)[b];
      SameTurnSameKey(p, a, b);
    }
  }

  // ----- the keys as they are written

  /** The fractions in decimal, each filled up with zeros to at least `size`. */
  function KeyText(key: seq<nat>, size: nat): (text: seq<string>)
    ensures |text| == |key|
  {
    seq(|key|, k requires 0 <= k < |key| => Decimal.Padded(Decimal.Digits(key[k]), size))
  }

  /** A key is written fraction by fraction: each text reads as its fraction, and is filled
      up to the size and no further. */
  lemma KeyTextReads(key: seq<nat>, size: nat, k: nat)
    requires k < |key|
    ensures |KeyText(key, size)| == |key|
    ensures var t := KeyText(key, size)[k];
      && Decimal.AllDigits(t) && t != "" && Decimal.Value(t) == key[k] && |t| >= size
      && (t[0] == '0' ==> key[k] == 0 || |t| == size)
      && (key[k] == 0 ==> |t| == if size > 1 then size else 1)
  {
    Decimal.PaddedReads(key[k], size);
  }

  lemma KeyTextInjective(a: seq<nat>, b: seq<nat>, size: nat)
    ensures KeyText(a, size) == KeyText(b, size) <==> a == b
  {
    if KeyText(a, size) == KeyText(b, size) {
      assert |KeyText(a, size)| == |KeyText(b, size)|;
      forall k | 0 <= k < |a| ensures a[k] == b[k] {
        assert KeyText(a, size)[k] == KeyText(b, size)[k];
        Decimal.PaddedInjective(a[k], b[k], size);
      }
    }
  }

  /** The keys are written differently exactly when they are different, whatever size
      the fractions have. */
  lemma KeyTextsDistinct(p: Params, size: nat, i: nat, j: nat)
    requires Usable(p) && 0 < i < j <= p.Total()
    ensures GivesKey(p, i) && GivesKey(p, j)
    ensures GenAfter(p, i).nfractions <= |GenAfter(p, i).states|
    ensures GenAfter(p, j).nfractions <= |GenAfter(p, j).states|
    ensures KeyText(KeyAt(p, i), size) == KeyText(KeyAt(p, j), size) <==> SameKey(p, i, j)
  {
    KeyEnd(p, i);
    KeyEnd(p, j);
    KeyTextInjective(KeyAt(p, i), KeyAt(p, j), size);
  }
}
