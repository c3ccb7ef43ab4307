/** The keys a load generator makes: how many, and that no two are the same.

    A generator has one counter for each fraction of a key.  Every call of
    `next_n_fraction` moves some of them, by the course that was asked for, and
    says how many leading fractions make up the next key. */
module KeyGenerators {
  import opened Common
  import opened FractionStates

  datatype Course = STEP | R_STEP | SINGLE | R_SINGLE | LEVELS | R_LEVELS

  datatype Distribution = SEQUENTIAL | STEPPING

  datatype Params = Params(
    ncells: nat, onlevel: nat, nfractions: nat,
    distribution: Distribution, course: Course, seed: nat)
  {
    function Cells(): nat { ncells * onlevel }

    predicate Reverse() { course.R_STEP? || course.R_SINGLE? || course.R_LEVELS? }

    predicate Leveled() { course.LEVELS? || course.R_LEVELS? }

    predicate OnlySingle() { course.SINGLE? || course.R_SINGLE? }

    function Dist(): Dist {
      if distribution.SEQUENTIAL? then Sequential(Reverse()) else Stepping(seed, Reverse())
    }

    /** What the constructor lets through. */
    predicate Accepted() {
      && (onlevel > 1 ==> !Leveled() && !OnlySingle())
      && (nfractions > 0 ==>
            if distribution.SEQUENTIAL? then seed <= 1
            else !Leveled() && (onlevel > 1 ==> seed <= 1))
    }

    /** How many keys there are to be. */
    function Total(): nat {
      if OnlySingle() then ncells else ncells * nfractions * onlevel
    }
  }

  datatype Gen = Gen(cells: nat, level: nat, nfractions: nat, states: seq<FState>)

  predicate InRange(p: Params, g: Gen)
  {
    && 0 < p.nfractions && 0 < p.Cells() && g.nfractions <= p.nfractions == |g.states|
    && forall k :: 0 <= k < |g.states| ==> Good(p.Cells(), p.Dist(), g.states[k])
  }

  function Initial(p: Params): Gen
  {
    Gen(0, 0, 0, seq(p.nfractions, _ => Start(p.Cells(), p.Dist())))
  }

  /** The counters from `lo` up to `hi` moved on. */
  function Moved(p: Params, states: seq<FState>, lo: nat, hi: nat): (moved: seq<FState>)
    requires lo <= hi <= |states|
    requires forall k :: 0 <= k < |states| ==> Good(p.Cells(), p.Dist(), states[k])
    ensures |moved| == |states|
    ensures forall k :: 0 <= k < |states| ==>
      moved[k] == if lo <= k < hi then Next(p.Cells(), p.Dist(), states[k]) else states[k]
    ensures forall k :: 0 <= k < |states| ==> Good(p.Cells(), p.Dist(), moved[k])
  {
    seq(|states|, k requires 0 <= k < |states| =>
      if lo <= k < hi then Next(p.Cells(), p.Dist(), states[k]) else states[k])
  }

  /** One call: the next state, and whether there is a key. */
  function NextKey(p: Params, g: Gen): (Gen, bool)
    requires InRange(p, g)
  {
    match p.course
    case SINGLE => NextSingle(p, g)
    case R_SINGLE => NextSingle(p, g)
    case LEVELS => NextLevels(p, g)
    case R_LEVELS => NextReverseLevels(p, g)
    case STEP => (NextStep(p, g), NextStep(p, g).cells <= p.ncells)
    case R_STEP => (NextReverseStep(p, g), NextReverseStep(p, g).cells <= p.ncells)
  }

  function NextSingle(p: Params, g: Gen): (Gen, bool)
    requires InRange(p, g)
  {
    if g.cells + 1 > p.ncells then (g.(cells := g.cells + 1), false)
    else (g.(cells := g.cells + 1, nfractions := p.nfractions, states := Moved(p, g.states, 0, p.nfractions)), true)
  }

  function NextLevels(p: Params, g: Gen): (Gen, bool)
    requires InRange(p, g)
  {
    if g.cells + 1 > p.ncells || g.nfractions == 0 then
      if g.nfractions + 1 > p.nfractions then
        (g.(cells := g.cells + 1, nfractions := g.nfractions + 1), false)
      else
        (g.(cells := 1, nfractions := g.nfractions + 1, states := Moved(p, g.states, 0, g.nfractions + 1)), true)
    else
      (g.(cells := g.cells + 1, states := Moved(p, g.states, 0, g.nfractions)), true)
  }

  function NextReverseLevels(p: Params, g: Gen): (Gen, bool)
    requires InRange(p, g)
  {
    var n := if g.nfractions == 0 then p.nfractions else g.nfractions;
    if g.cells + 1 > p.ncells then
      if n - 1 == 0 then (g.(cells := g.cells + 1, nfractions := 0), false)
      else (g.(cells := 1, nfractions := n - 1, states := Moved(p, g.states, 0, p.nfractions)), true)
    else
      (g.(cells := g.cells + 1, nfractions := n, states := Moved(p, g.states, 0, p.nfractions)), true)
  }

  /** The fraction and level that a step goes on to, before its counter moves. */
  function StepTo(p: Params, g: Gen): (n: Gen)
    requires InRange(p, g)
    ensures 1 <= n.nfractions <= p.nfractions && n.states == g.states
  {
    if g.nfractions == 0 || g.level + 1 == p.onlevel then
      if g.nfractions == 0 || g.nfractions + 1 > p.nfractions
      then g.(cells := g.cells + 1, level := 0, nfractions := 1)
      else g.(level := 0, nfractions := g.nfractions + 1)
    else g.(level := g.level + 1)
  }

  function NextStep(p: Params, g: Gen): Gen
    requires InRange(p, g)
  {
    var n := StepTo(p, g);
    n.(states := Moved(p, g.states, n.nfractions - 1, n.nfractions))
  }

  function NextReverseStep(p: Params, g: Gen): Gen
    requires InRange(p, g)
  {
    if g.nfractions == 0 || g.level + 1 == p.onlevel then
      if g.nfractions == 0 || g.nfractions - 1 == 0
      then g.(cells := g.cells + 1, level := 0, nfractions := p.nfractions,
              states := Moved(p, g.states, 0, p.nfractions))
      else g.(level := 0, nfractions := g.nfractions - 1)
    else g.(level := g.level + 1, states := Moved(p, g.states, g.nfractions - 1, g.nfractions))
  }

  /** The values of the fractions in use, which spell the key. */
  function Key(g: Gen): (key: seq<nat>)
    requires g.nfractions <= |g.states|
    ensures |key| == g.nfractions
  {
    seq(g.nfractions, k requires 0 <= k < g.nfractions => g.states[k].value)
  }

  class KeyGenerator {
    const p: Params
    var cells: nat
    var level: nat
    var nfractions: nat
    var states: seq<FractionState>
    ghost var held: Gen  // what the fields and the counters hold

    /** One good counter, with its own object, for each fraction. */
    ghost predicate Counters()
      reads this`states, this`held, states
    {
      && |states| == |held.states| == p.nfractions && 0 < p.nfractions && 0 < p.Cells()
      && (forall k :: 0 <= k < |states| ==>
            && states[k].ncells == p.Cells() && states[k].dist == p.Dist()
            && states[k].State() == held.states[k] && Good(p.Cells(), p.Dist(), held.states[k]))
      && (forall i, j :: 0 <= i < j < |states| ==> states[i] != states[j])
    }

    ghost predicate Holds()
      reads this, states
    {
      Counters() && held == Gen(cells, level, nfractions, held.states)
    }

    ghost predicate Valid()
      reads this, states
    {
      Holds() && nfractions <= p.nfractions
    }

    constructor (p: Params)
      requires p.Accepted() && 0 < p.nfractions && 0 < p.Cells()
      ensures Valid() && this.p == p && fresh(states) && held == Initial(p)
    {
      this.p := p;
      cells, level, nfractions, states := 0, 0, 0, [];
      held := Initial(p);
      new;
      var n := 0;
      while n < p.nfractions
        invariant n == |states| <= p.nfractions && cells == level == nfractions == 0 && held == Initial(p)
        invariant forall k :: 0 <= k < n ==>
          && fresh(states[k]) && states[k].ncells == p.Cells() && states[k].dist == p.Dist()
          && states[k].State() == Start(p.Cells(), p.Dist())
        invariant forall i, j :: 0 <= i < j < n ==> states[i] != states[j]
        modifies this
      {
        var s := new FractionState(p.Cells(), p.Dist());
        states, n := states + [s], n + 1;
      }
    }

    /** Whether the configuration is let through, and then a generator when there is
        anything to generate. */
    static method Make(p: Params) returns (accepted: bool, r: Option<KeyGenerator>)
      ensures accepted == p.Accepted()
      ensures !accepted <==>
        || (p.onlevel > 1 && p.course in {SINGLE, R_SINGLE, LEVELS, R_LEVELS})
        || (p.nfractions > 0 && p.distribution == SEQUENTIAL && p.seed > 1)
        || (p.nfractions > 0 && p.distribution == STEPPING && p.course in {LEVELS, R_LEVELS})
        || (p.nfractions > 0 && p.distribution == STEPPING && p.course in {STEP, R_STEP} && p.onlevel > 1 && p.seed > 1)
      ensures r.Some? <==> accepted && 0 < p.nfractions && 0 < p.Cells()
      ensures r.Some? ==> r.value.Valid() && r.value.p == p && r.value.held == Initial(p)
    {
      if p.onlevel > 1 && (p.OnlySingle() || p.Leveled()) { return false, None; }
      if p.nfractions > 0 {
        match p.distribution {
          case SEQUENTIAL =>
            if p.seed > 1 { return false, None; }
          case STEPPING =>
            if p.Leveled() { return false, None; }
            if p.onlevel > 1 && p.seed > 1 && (p.course == STEP || p.course == R_STEP) { return false, None; }
        }
      }
      if p.nfractions == 0 || p.Cells() == 0 { return true, None; }
      var g := new KeyGenerator(p);
      return true, Some(g);
    }

    /** Moves the counters from `lo` up to `hi`. */
    method Move(lo: nat, hi: nat)
      requires Counters() && lo <= hi <= |states|
      modifies this`held, states
      ensures Counters() && held == old(held).(states := Moved(p, old(held).states, lo, hi))
    {
      ghost var before := held;
      var k := lo;
      while k < hi
        invariant lo <= k <= hi && Counters()
        invariant held == before.(states := Moved(p, before.states, lo, k))
        modifies this`held, states
      {
        states[k].SetValue();
        held := held.(states := held.states[k := states[k].State()]);
        assert held.states == Moved(p, before.states, lo, k + 1);
        k := k + 1;
      }
    }

    method NextNFraction() returns (more: bool)
      requires Valid()
      modifies this`cells, this`level, this`nfractions, this`held, states
      ensures Holds() && (more ==> Valid())
      ensures (held, more) == NextKey(p, old(held))
    {
      match p.course {
        case SINGLE => more := NextNSingle();
        case R_SINGLE => more := NextNSingle();
        case LEVELS => more := NextNLevels();
        case R_LEVELS => more := NextNReverseLevels();
        case STEP => more := NextNStep();
        case R_STEP => more := NextNReverseStep();
      }
    }

    method NextNSingle() returns (more: bool)
      requires Valid() && p.OnlySingle()
      modifies this`cells, this`nfractions, this`held, states
      ensures Holds() && (more ==> Valid())
      ensures (held, more) == NextSingle(p, old(held))
    {
      cells := cells + 1;
      held := held.(cells := cells);
      if cells > p.ncells { return false; }
      Move(0, |states|);
      nfractions := p.nfractions;
      held := held.(nfractions := nfractions);
      return true;
    }

    method NextNLevels() returns (more: bool)
      requires Valid() && p.course.LEVELS?
      modifies this`cells, this`nfractions, this`held, states
      ensures Holds() && (more ==> Valid())
      ensures (held, more) == NextLevels(p, old(held))
    {
      cells := cells + 1;
      if cells > p.ncells || nfractions == 0 {
        nfractions := nfractions + 1;
        held := held.(cells := cells, nfractions := nfractions);
        if nfractions > p.nfractions { return false; }
        cells := 1;
      }
      held := held.(cells := cells);
      Move(0, nfractions);
      return true;
    }

    method NextNReverseLevels() returns (more: bool)
      requires Valid() && p.course.R_LEVELS?
      modifies this`cells, this`nfractions, this`held, states
      ensures Holds() && (more ==> Valid())
      ensures (held, more) == NextReverseLevels(p, old(held))
    {
      if nfractions == 0 { nfractions := p.nfractions; }
      cells := cells + 1;
      if cells > p.ncells {
        nfractions := nfractions - 1;
        held := held.(cells := cells, nfractions := nfractions);
        if nfractions == 0 { return false; }
        cells := 1;
      }
      held := held.(cells := cells, nfractions := nfractions);
      Move(0, |states|);
      return true;
    }

    method NextNStep() returns (more: bool)
      requires Valid() && p.course.STEP?
      modifies this`cells, this`level, this`nfractions, this`held, states
      ensures Valid() && held == NextStep(p, old(held)) && more == (held.cells <= p.ncells)
    {
      if nfractions != 0 { level := level + 1; }
      if nfractions == 0 || level == p.onlevel {
        if nfractions != 0 { nfractions := nfractions + 1; }
        if nfractions == 0 || nfractions > p.nfractions {
          cells := cells + 1;
          nfractions := 1;
        }
        level := 0;
      }
      held := StepTo(p, held);
      Move(nfractions - 1, nfractions);
      return cells <= p.ncells;
    }

    method NextNReverseStep() returns (more: bool)
      requires Valid() && p.course.R_STEP?
      modifies this`cells, this`level, this`nfractions, this`held, states
      ensures Valid() && held == NextReverseStep(p, old(held)) && more == (held.cells <= p.ncells)
    {
      StepBack();
      held := Gen(cells, level, nfractions, held.states);
      return cells <= p.ncells;
    }

    /** Goes on to a fraction and level, and moves the counters there. */
    method StepBack()
      requires Valid() && p.course.R_STEP?
      modifies this`cells, this`level, this`nfractions, this`held, states
      ensures Counters() && nfractions <= p.nfractions
      ensures Gen(cells, level, nfractions, held.states) == NextReverseStep(p, old(held))
    {
      if nfractions != 0 { level := level + 1; }
      if nfractions == 0 || level == p.onlevel {
        if nfractions != 0 { nfractions := nfractions - 1; }
        if nfractions == 0 {
          cells := cells + 1;
          nfractions := p.nfractions;
          Move(0, |states|);
        }
        level := 0;
      } else {
        Move(nfractions - 1, nfractions);
      }
    }
  }
}
