/** The check of a column's ranges: every ranger has a few of them in flight and
    the others queued, and a counter tells when all have been answered. */
module HealthChecks {
  type RangeId = nat
  type RangerId = nat

  const MAX_CHECKINGS := 10

  // ----- the checks of one ranger

  /** What was done with a range: it was sent when it was added, or looked at when it
      came out of the queue, when just the ranges of `mine` were the ranger's. */
  datatype Fate = Direct | Checked(mine: set<RangeId>)

  predicate SentBy(range: RangeId, fate: Fate) { fate.Direct? || range in fate.mine }

  /** The two fields of a checker, `checkings` and `queue`, and what has come of
      the ranges added to it: which were sent, and the fates of all that are no
      longer queued, in the order of adding. */
  datatype Checker = Checker(rgrid: RangerId, checkings: nat, queue: seq<RangeId>,
                             added: seq<RangeId>, fates: seq<Fate>, sent: seq<RangeId>)

  function NewChecker(rgrid: RangerId): Checker { Checker(rgrid, 0, [], [], [], []) }

  /** Sends a range off. */
  function Sent(c: Checker, range: RangeId, fate: Fate): Checker
  {
    c.(checkings := c.checkings + 1, fates := c.fates + [fate], sent := c.sent + [range])
  }

  /** A range is sent, or queued while the most are in flight. */
  function Added(c: Checker, range: RangeId): Checker
  {
    var d := c.(added := c.added + [range]);
    if c.checkings == MAX_CHECKINGS then d.(queue := c.queue + [range]) else Sent(d, range, Direct)
  }

  /** Takes the first of the queue, and sends it if it is still the ranger's. */
  function Popped(c: Checker, mine: set<RangeId>): Checker
    requires c.queue != []
  {
    var d := c.(queue := c.queue[1..]);
    if c.queue[0] in mine then Sent(d, c.queue[0], Checked(mine)) else d.(fates := c.fates + [Checked(mine)])
  }

  /** Fills up from the queue. */
  function Refilled(c: Checker, mine: set<RangeId>): Checker
    decreases |c.queue|
  {
    if c.queue == [] || c.checkings >= MAX_CHECKINGS then c else Refilled(Popped(c, mine), mine)
  }

  /** An answer came. */
  function Answered(c: Checker, mine: set<RangeId>): Checker
    requires c.checkings > 0
  {
    Refilled(c.(checkings := c.checkings - 1), mine)
  }

  /** Those of the first `n` ranges whose fate was to be sent. */
  function Chosen(ranges: seq<RangeId>, fates: seq<Fate>, n: nat): seq<RangeId>
    requires n <= |ranges| && n <= |fates|
  {
    if n == 0 then [] else
    Chosen(ranges, fates, n - 1) + (if SentBy(ranges[n - 1], fates[n - 1]) then [ranges[n - 1]] else [])
  }

  /** Nothing is lost, sent twice or sent out of order. */
  predicate Accounted(c: Checker)
  {
    && |c.fates| + |c.queue| == |c.added|
    && c.queue == c.added[|c.fates|..]
    && c.sent == Chosen(c.added, c.fates, |c.fates|)
  }

  /** Ranges wait only while the most are in flight. */
  predicate Full(c: Checker)
  {
    c.checkings <= MAX_CHECKINGS && (c.queue != [] ==> c.checkings == MAX_CHECKINGS)
  }

  lemma {:induction false} ChosenSame(a: seq<RangeId>, b: seq<RangeId>, f: seq<Fate>, g: seq<Fate>, n: nat)
    requires n <= |a| && n <= |b| && n <= |f| && n <= |g|
    requires forall i :: 0 <= i < n ==> a[i] == b[i] && f[i] == g[i]
    ensures Chosen(a, f, n) == Chosen(b, g, n)
  {
    if n > 0 { ChosenSame(a, b, f, g, n - 1); }
  }

  /** The fates told stay, and all that follow are this one. */
  predicate FatesMore(c: Checker, d: Checker, fate: Fate)
  {
    && |c.fates| <= |d.fates|
    && (forall i :: 0 <= i < |c.fates| ==> d.fates[i] == c.fates[i])
    && (forall i :: |c.fates| <= i < |d.fates| ==> d.fates[i] == fate)
  }

  lemma AddedKeeps(c: Checker, range: RangeId)
    requires Accounted(c) && Full(c)
    ensures Accounted(Added(c, range)) && Full(Added(c, range))
    ensures FatesMore(c, Added(c, range), Direct)
  {
    var d := Added(c, range);
    ChosenSame(c.added, d.added, c.fates, d.fates, |c.fates|);
  }

  lemma PoppedKeeps(c: Checker, mine: set<RangeId>)
    requires Accounted(c) && c.queue != []
    ensures Accounted(Popped(c, mine))
  {
    var n, d := |c.fates|, Popped(c, mine);
    ChosenSame(c.added, d.added, c.fates, d.fates, n);
    assert c.queue[0] == c.added[n];
  }

  lemma {:induction false} RefilledKeeps(c: Checker, mine: set<RangeId>)
    requires Accounted(c) && c.checkings <= MAX_CHECKINGS
    ensures Accounted(Refilled(c, mine)) && Full(Refilled(c, mine))
    ensures Refilled(c, mine).rgrid == c.rgrid && Refilled(c, mine).added == c.added
    ensures Refilled(c, mine).checkings - c.checkings
         == |Refilled(c, mine).sent| - |c.sent| >= 0
    ensures FatesMore(c, Refilled(c, mine), Checked(mine))
    decreases |c.queue|
  {
    if c.queue != [] && c.checkings < MAX_CHECKINGS {
      PoppedKeeps(c, mine);
      RefilledKeeps(Popped(c, mine), mine);
    }
  }

  // ----- the whole check

  /** `starting` is the initial round not yet over, `handling` the number of answers
      being handled, and `lasts` how often the counter said it was the last. */
  datatype State = State(completion: nat, starting: bool, handling: nat, checkers: seq<Checker>, lasts: nat)

  const INITIAL := State(1, true, 0, [], 0)

  /** What can happen: a round or a handler opens a checker or adds a range; a
      ranger answers; a handler, or the initial round, comes to its end. */
  datatype Event =
    | Open(rgrid: RangerId)
    | Add(k: nat, range: RangeId)
    | Answer(k: nat, mine: set<RangeId>)
    | Handled
    | Started

  predicate Active(s: State) { s.starting || s.handling > 0 }

  predicate Enabled(s: State, e: Event)
  {
    match e
    case Open(rgrid) => Active(s) && forall k :: 0 <= k < |s.checkers| ==> s.checkers[k].rgrid != rgrid
    case Add(k, _) => Active(s) && k < |s.checkers|
    case Answer(k, _) => k < |s.checkers| && s.checkers[k].checkings > 0
    case Handled => s.handling > 0 && s.completion > 0
    case Started => s.starting && s.completion > 0
  }

  /** Gives up a token; after the last one the checkers are dropped. */
  function Finished(s: State): State
    requires s.completion > 0
  {
    if s.completion == 1 then s.(completion := 0, checkers := [], lasts := s.lasts + 1)
    else s.(completion := s.completion - 1)
  }

  function Next(s: State, e: Event): State
    requires Enabled(s, e)
  {
    match e
    case Open(rgrid) => s.(checkers := s.checkers + [NewChecker(rgrid)])
    case Add(k, range) =>
      var c := Added(s.checkers[k], range);
      s.(completion := s.completion + c.checkings - s.checkers[k].checkings, checkers := s.checkers[k := c])
    case Answer(k, mine) =>
      var c := Answered(s.checkers[k], mine);
      RefilledKeepsCount(s.checkers[k].(checkings := s.checkers[k].checkings - 1), mine);
      s.(completion := s.completion + |c.sent| - |s.checkers[k].sent|,
         handling := s.handling + 1, checkers := s.checkers[k := c])
    case Handled => Finished(s.(handling := s.handling - 1))
    case Started => Finished(s.(starting := false))
  }

  lemma {:induction false} RefilledKeepsCount(c: Checker, mine: set<RangeId>)
    ensures |Refilled(c, mine).sent| >= |c.sent|
    decreases |c.queue|
  {
    if c.queue != [] && c.checkings < MAX_CHECKINGS {
      RefilledKeepsCount(Popped(c, mine), mine);
    }
  }

  /** How many ranges the first `n` checkers have in flight. */
  function InFlight(checkers: seq<Checker>, n: nat): nat
    requires n <= |checkers|
  {
    if n == 0 then 0 else InFlight(checkers, n - 1) + checkers[n - 1].checkings
  }

  function Token(s: State): nat { if s.starting then 1 else 0 }

  predicate Sound(s: State)
  {
    && s.completion == Token(s) + s.handling + InFlight(s.checkers, |s.checkers|)
    && (forall k :: 0 <= k < |s.checkers| ==> Accounted(s.checkers[k]) && Full(s.checkers[k]))
    && (forall j, k :: 0 <= j < k < |s.checkers| ==> s.checkers[j].rgrid != s.checkers[k].rgrid)
    && s.lasts == (if s.completion == 0 then 1 else 0)
  }

  lemma {:induction false} InFlightUpdate(checkers: seq<Checker>, k: nat, c: Checker, n: nat)
    requires k < |checkers| && n <= |checkers|
    ensures InFlight(checkers[k := c], n)
         == InFlight(checkers, n) + if k < n then c.checkings - checkers[k].checkings else 0
  {
    if n > 0 { InFlightUpdate(checkers, k, c, n - 1); }
  }

  lemma {:induction false} InFlightMore(checkers: seq<Checker>, c: Checker, n: nat)
    requires n <= |checkers|
    ensures InFlight(checkers + [c], n) == InFlight(checkers, n)
  {
    if n > 0 { InFlightMore(checkers, c, n - 1); }
  }

  lemma {:induction false} NoneInFlight(checkers: seq<Checker>, n: nat)
    requires n <= |checkers|
    ensures InFlight(checkers, n) == 0 <==> forall k :: 0 <= k < n ==> checkers[k].checkings == 0
  {
    if n > 0 { NoneInFlight(checkers, n - 1); }
  }

  lemma FinishedSound(s: State)
    requires s.completion > 0 && s.lasts == 0
    requires Sound(s.(completion := s.completion - 1, lasts := if s.completion == 1 then 1 else 0))
    ensures Sound(Finished(s))
  {
  }

  lemma AddSound(s: State, k: nat, range: RangeId)
    requires Sound(s) && Enabled(s, Add(k, range))
    ensures Sound(Next(s, Add(k, range)))
  {
    AddedKeeps(s.checkers[k], range);
    InFlightUpdate(s.checkers, k, Added(s.checkers[k], range), |s.checkers|);
  }

  lemma AnswerSound(s: State, k: nat, mine: set<RangeId>)
    requires Sound(s) && Enabled(s, Answer(k, mine))
    ensures Sound(Next(s, Answer(k, mine)))
  {
    AnsweredKeeps(s.checkers[k], mine);
    InFlightUpdate(s.checkers, k, Answered(s.checkers[k], mine), |s.checkers|);
    NoneInFlight(s.checkers, |s.checkers|);
  }

  lemma AnsweredKeeps(c: Checker, mine: set<RangeId>)
    requires Accounted(c) && Full(c) && c.checkings > 0
    ensures var d := Answered(c, mine);
      && Accounted(d) && Full(d) && d.rgrid == c.rgrid
      && d.checkings == c.checkings - 1 + |d.sent| - |c.sent| && |d.sent| >= |c.sent|
      && FatesMore(c, d, Checked(mine))
  {
    RefilledKeeps(c.(checkings := c.checkings - 1), mine);
  }

  lemma OpenSound(s: State, rgrid: RangerId)
    requires Sound(s) && Enabled(s, Open(rgrid))
    ensures Sound(Next(s, Open(rgrid)))
  {
    InFlightMore(s.checkers, NewChecker(rgrid), |s.checkers|);
  }

  lemma HandledSound(s: State)
    requires Sound(s) && Enabled(s, Handled)
    ensures Sound(Next(s, Handled))
  {
    FinishedSound(s.(handling := s.handling - 1));
  }

  lemma StartedSound(s: State)
    requires Sound(s) && Enabled(s, Started)
    ensures Sound(Next(s, Started))
  {
    FinishedSound(s.(starting := false));
  }

  lemma NextSound(s: State, e: Event)
    requires Sound(s) && Enabled(s, e)
    ensures Sound(Next(s, e))
  {
    match e
    case Open(rgrid) => OpenSound(s, rgrid);
    case Add(k, range) => AddSound(s, k, range);
    case Answer(k, mine) => AnswerSound(s, k, mine);
    case Handled => HandledSound(s);
    case Started => StartedSound(s);
  }

  // ----- runs

  predicate IsRun(events: seq<Event>, run: seq<State>)
  {
    && |run| == |events| + 1 && run[0] == INITIAL
    && (forall i :: 0 <= i < |events| ==> Enabled(run[i], events[i]) && run[i + 1] == Next(run[i], events[i]))
  }

  lemma {:induction false} RunSound(events: seq<Event>, run: seq<State>, n: nat)
    requires IsRun(events, run) && n < |run|
    ensures Sound(run[n])
  {
    if n > 0 {
      RunSound(events, run, n - 1);
      NextSound(run[n - 1], events[n - 1]);
    }
  }

  /** Nobody is left that could do anything. */
  predicate Quiet(s: State)
  {
    !Active(s) && forall k :: 0 <= k < |s.checkers| ==> s.checkers[k].checkings == 0
  }

  /** The counter says `last` once in a run that comes to rest, not at all in one
      that has not, and nothing happens after. */
  lemma LastOnce(events: seq<Event>, run: seq<State>, n: nat)
    requires IsRun(events, run) && n < |run|
    ensures run[n].lasts == (if Quiet(run[n]) then 1 else 0)
    ensures run[n].lasts > 0 ==> n == |events|
  {
    RunSound(events, run, n);
    NoneInFlight(run[n].checkers, |run[n].checkers|);
  }

  /** All that was added has been sent when it was added, or looked at and sent just if
      it was still the ranger's, and all that was sent was answered. */
  predicate Settled(c: Checker)
  {
    && c.checkings == 0 && c.queue == []
    && |c.fates| == |c.added| && c.sent == Chosen(c.added, c.fates, |c.fates|)
  }

  lemma SettledWhenAnswered(c: Checker)
    requires Accounted(c) && Full(c) && c.checkings == 0
    ensures Settled(c)
  {
  }

  lemma LastHasNone(s: State, e: Event)
    requires Sound(s) && Enabled(s, e) && Next(s, e).lasts > s.lasts
    ensures InFlight(s.checkers, |s.checkers|) == 0
  {
    assert e.Handled? || e.Started?;
  }

  /** When the counter says `last` nothing is in flight or queued. */
  lemma NothingLeft(events: seq<Event>, run: seq<State>, i: nat)
    requires IsRun(events, run) && i < |events| && run[i + 1].lasts > run[i].lasts
    ensures forall k :: 0 <= k < |run[i].checkers| ==> Settled(run[i].checkers[k])
  {
    RunSound(events, run, i);
    LastHasNone(run[i], events[i]);
    NoneInFlight(run[i].checkers, |run[i].checkers|);
    forall k | 0 <= k < |run[i].checkers| ensures Settled(run[i].checkers[k]) {
      SettledWhenAnswered(run[i].checkers[k]);
    }
  }
}
