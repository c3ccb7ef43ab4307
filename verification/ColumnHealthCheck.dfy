/** The objects of a column's health check.  Each keeps in `held` the value that
    the properties of module HealthChecks are about. */
module ColumnHealthChecks {
  import opened Common
  import opened HealthChecks
  import Sequences

  class CompletionCounter {
    var count: nat

    constructor (start: nat)
      ensures count == start
    {
      count := start;
    }

    method Increment()
      modifies this
      ensures count == old(count) + 1
    {
      count := count + 1;
    }

    method IsLast() returns (last: bool)
      requires count > 0
      modifies this
      ensures count == old(count) - 1 && last == (count == 0)
    {
      count := count - 1;
      last := count == 0;
    }
  }

  class RangerCheck {
    const completion: CompletionCounter
    const rgrid: RangerId
    var ranges: seq<RangeId>
    var checkings: nat
    ghost var held: Checker

    ghost predicate Valid()
      reads this
    {
      && held.rgrid == rgrid && held.checkings == checkings && held.queue == ranges
      && checkings <= MAX_CHECKINGS
    }

    constructor (rgrid: RangerId, completion: CompletionCounter)
      ensures Valid() && this.completion == completion && held == NewChecker(rgrid)
    {
      this.rgrid := rgrid;
      this.completion := completion;
      ranges, checkings, held := [], 0, NewChecker(rgrid);
    }

    /** Sends a range; the counter counts what is sent. */
    method Send(range: RangeId, ghost fate: Fate)
      requires Valid() && checkings < MAX_CHECKINGS
      modifies this, completion
      ensures Valid() && held == Sent(old(held), range, fate)
      ensures completion.count == old(completion.count) + 1
    {
      completion.Increment();
      checkings := checkings + 1;
      held := Sent(held, range, fate);
    }

    method AddRange(range: RangeId)
      requires Valid()
      modifies this, completion
      ensures Valid() && held == Added(old(held), range)
      ensures completion.count == old(completion.count) + checkings - old(checkings)
    {
      held := held.(added := held.added + [range]);
      if checkings == MAX_CHECKINGS {
        ranges := ranges + [range];
        held := held.(queue := ranges);
      } else {
        Send(range, Direct);
      }
    }

    /** The locked part of taking an answer; `more` is how many ranges could be
        added and none would have to wait. */
    method Answer(mine: set<RangeId>) returns (more: nat)
      requires Valid() && checkings > 0
      modifies this, completion
      ensures Valid() && held == Answered(old(held), mine)
      ensures completion.count == old(completion.count) + |held.sent| - |old(held.sent)|
      ensures ranges == [] ==> checkings + more == MAX_CHECKINGS
      ensures ranges != [] ==> more == 0
    {
      checkings := checkings - 1;
      held := held.(checkings := checkings);
      ghost var goal := Refilled(held, mine);
      while ranges != [] && checkings < MAX_CHECKINGS
        invariant Valid() && Refilled(held, mine) == goal
        invariant completion.count == old(completion.count) + |held.sent| - |old(held.sent)|
        decreases |ranges|
      {
        var range := ranges[0];
        ranges := ranges[1..];
        ghost var c := held;
        held := held.(queue := ranges);
        if range in mine {
          Send(range, Checked(mine));
        } else {
          held := held.(fates := held.fates + [Checked(mine)]);
        }
        assert held == Popped(c, mine);
      }
      var size := checkings + |ranges|;
      more := if size < MAX_CHECKINGS then MAX_CHECKINGS - size else 0;
    }
  }

  /** The first `n` ranges of a round: those that go to the checker of a ranger
      are the ones assigned to it, if the ranger is in the state to be asked. */
  function For(rgrid: RangerId, ranges: seq<RangeId>, n: nat, homes: map<RangeId, RangerId>, acked: set<RangerId>)
    : seq<RangeId>
    requires n <= |ranges|
  {
    if n == 0 then [] else
    For(rgrid, ranges, n - 1, homes, acked)
    + (if Goes(ranges[n - 1], homes, acked) && homes[ranges[n - 1]] == rgrid then [ranges[n - 1]] else [])
  }

  predicate Goes(range: RangeId, homes: map<RangeId, RangerId>, acked: set<RangerId>)
  {
    range in homes && homes[range] in acked
  }

  ghost function AddedBefore(s: State, k: nat): seq<RangeId>
  {
    if k < |s.checkers| then s.checkers[k].added else []
  }

  ghost predicate SameTokens(s: State, t: State)
  {
    t.starting == s.starting && t.handling == s.handling && t.lasts == s.lasts
  }

  /** The first `n` ranges of a round have been added in order, each to its
      ranger's checker. */
  ghost predicate AddedTo(s: State, t: State, ranges: seq<RangeId>, n: nat,
    homes: map<RangeId, RangerId>, acked: set<RangerId>)
    requires n <= |ranges|
  {
    && SameTokens(s, t) && |s.checkers| <= |t.checkers|
    && (forall k :: 0 <= k < |s.checkers| ==> t.checkers[k].rgrid == s.checkers[k].rgrid)
    && (forall k :: 0 <= k < |t.checkers| ==>
          t.checkers[k].added == AddedBefore(s, k) + For(t.checkers[k].rgrid, ranges, n, homes, acked))
    && (forall i :: 0 <= i < n && Goes(ranges[i], homes, acked) ==> Has(t, homes[ranges[i]]))
  }

  ghost predicate Has(s: State, rgrid: RangerId)
  {
    exists k :: 0 <= k < |s.checkers| && s.checkers[k].rgrid == rgrid
  }

  /** `n` events that can happen lead from `s` to `t`. */
  ghost predicate Reaches(s: State, t: State, n: nat)
    decreases n
  {
    if n == 0 then s == t
    else exists u, e :: Reaches(s, u, n - 1) && Enabled(u, e) && t == Next(u, e)
  }

  lemma ReachesOn(s: State, t: State, n: nat, e: Event)
    requires Reaches(s, t, n) && Enabled(t, e)
    ensures Reaches(s, Next(t, e), n + 1)
  {
  }

  /** What is reached from where a run ends is where a longer run ends, of which all is true
      that is of runs. */
  lemma {:induction false} ReachedInRun(events: seq<Event>, run: seq<State>, s: State, t: State, n: nat)
    returns (more: seq<Event>, longer: seq<State>)
    requires EndsIn(events, run, s) && Reaches(s, t, n)
    ensures EndsIn(more, longer, t) && |more| == |events| + n
    decreases n
  {
    more, longer := events, run;
    if n > 0 {
      var u, e :| Reaches(s, u, n - 1) && Enabled(u, e) && t == Next(u, e);
      more, longer := ReachedInRun(events, run, s, u, n - 1);
      EndsLater(more, longer, u, e, t);
      more, longer := more + [e], longer + [t];
    }
  }

  ghost predicate EndsIn(events: seq<Event>, run: seq<State>, t: State)
  {
    IsRun(events, run) && run[|events|] == t
  }

  lemma EndsLater(events: seq<Event>, run: seq<State>, u: State, e: Event, t: State)
    requires EndsIn(events, run, u) && Enabled(u, e) && t == Next(u, e)
    ensures EndsIn(events + [e], run + [t], t)
  {
  }

  /** From `s` to `t` a range was added to the checker `k` of a ranger. */
  ghost predicate PlacedAt(s: State, t: State, rgrid: RangerId, range: RangeId, k: nat)
  {
    if k < |s.checkers| then
      s.checkers[k].rgrid == rgrid && Active(s) && t == Next(s, Event.Add(k, range))
    else
      && k == |s.checkers| && Enabled(s, Event.Open(rgrid))
      && Enabled(Next(s, Event.Open(rgrid)), Event.Add(k, range))
      && t == Next(Next(s, Event.Open(rgrid)), Event.Add(k, range))
  }

  lemma OpenEnables(s: State, rgrid: RangerId, range: RangeId)
    requires Active(s) && !Has(s, rgrid)
    ensures Enabled(s, Event.Open(rgrid))
    ensures Enabled(Next(s, Event.Open(rgrid)), Event.Add(|s.checkers|, range))
  {
  }

  lemma ReachesTwo(start: State, n: nat, s: State, e: Event, u: State, f: Event, t: State)
    requires Reaches(start, s, n)
    requires Enabled(s, e) && u == Next(s, e) && Enabled(u, f) && t == Next(u, f)
    ensures Reaches(start, t, n + 2)
  {
    ReachesOn(start, s, n, e);
    ReachesOn(start, u, n + 1, f);
  }

  lemma PlacedReaches(start: State, n: nat, s: State, t: State, rgrid: RangerId, range: RangeId, k: nat)
    requires Reaches(start, s, n) && PlacedAt(s, t, rgrid, range, k)
    ensures Reaches(start, t, n + if k < |s.checkers| then 1 else 2)
  {
    if k < |s.checkers| {
      ReachesOn(start, s, n, Event.Add(k, range));
    } else {
      ReachesTwo(start, n, s, Event.Open(rgrid), Next(s, Event.Open(rgrid)), Event.Add(k, range), t);
    }
  }

  lemma {:induction false} ForNone(rgrid: RangerId, ranges: seq<RangeId>, n: nat,
    homes: map<RangeId, RangerId>, acked: set<RangerId>)
    requires n <= |ranges|
    requires forall i :: 0 <= i < n && Goes(ranges[i], homes, acked) ==> homes[ranges[i]] != rgrid
    ensures For(rgrid, ranges, n, homes, acked) == []
  {
    if n > 0 { ForNone(rgrid, ranges, n - 1, homes, acked); }
  }

  lemma HasStill(s: State, t: State, rgrid: RangerId)
    requires Has(s, rgrid) && |s.checkers| <= |t.checkers|
    requires forall j :: 0 <= j < |s.checkers| ==> t.checkers[j].rgrid == s.checkers[j].rgrid
    ensures Has(t, rgrid)
  {
    var k :| 0 <= k < |s.checkers| && s.checkers[k].rgrid == rgrid;
    assert t.checkers[k].rgrid == rgrid;
  }

  /** All that adding a range to checker `k` does, other than to send or queue it. */
  ghost predicate GivenTo(s: State, t: State, rgrid: RangerId, range: RangeId, k: nat)
  {
    && k <= |s.checkers| && k < |t.checkers| && t.checkers[k].rgrid == rgrid
    && t.checkers[k].added == AddedBefore(s, k) + [range]
    && |t.checkers| == (if k < |s.checkers| then |s.checkers| else k + 1)
    && SameTokens(s, t) && (k == |s.checkers| ==> !Has(s, rgrid))
    && (forall j :: 0 <= j < |s.checkers| ==> t.checkers[j].rgrid == s.checkers[j].rgrid)
    && (forall j :: 0 <= j < |s.checkers| && j != k ==> t.checkers[j] == s.checkers[j])
  }

  lemma PlacedGives(s: State, t: State, rgrid: RangerId, range: RangeId, k: nat)
    requires PlacedAt(s, t, rgrid, range, k)
    ensures GivenTo(s, t, rgrid, range, k)
  {
  }

  ghost predicate OnePerRanger(s: State)
  {
    forall j, k :: 0 <= j < k < |s.checkers| ==> s.checkers[j].rgrid != s.checkers[k].rgrid
  }

  lemma PlacedAdds(start: State, s: State, t: State, ranges: seq<RangeId>, n: nat,
    homes: map<RangeId, RangerId>, acked: set<RangerId>, k: nat)
    requires OnePerRanger(t) && n < |ranges| && Goes(ranges[n], homes, acked)
    requires AddedTo(start, s, ranges, n, homes, acked)
    requires GivenTo(s, t, homes[ranges[n]], ranges[n], k)
    ensures AddedTo(start, t, ranges, n + 1, homes, acked)
  {
    forall j | 0 <= j < |t.checkers|
      ensures t.checkers[j].added == AddedBefore(start, j) + For(t.checkers[j].rgrid, ranges, n + 1, homes, acked)
    {
      if j == k {
        AddedThere(start, s, t, ranges, n, homes, acked, k);
      } else {
        assert t.checkers[j].rgrid != homes[ranges[n]] && t.checkers[j] == s.checkers[j];
      }
    }
    forall j | 0 <= j < n + 1 && Goes(ranges[j], homes, acked) ensures Has(t, homes[ranges[j]]) {
      if j < n {
        HasStill(s, t, homes[ranges[j]]);
      }
    }
  }

  lemma AddedThere(start: State, s: State, t: State, ranges: seq<RangeId>, n: nat,
    homes: map<RangeId, RangerId>, acked: set<RangerId>, k: nat)
    requires n < |ranges| && Goes(ranges[n], homes, acked)
    requires AddedTo(start, s, ranges, n, homes, acked)
    requires GivenTo(s, t, homes[ranges[n]], ranges[n], k)
    ensures t.checkers[k].added == AddedBefore(start, k) + For(homes[ranges[n]], ranges, n + 1, homes, acked)
  {
    var rgrid := homes[ranges[n]];
    var before, given := AddedBefore(start, k), For(rgrid, ranges, n, homes, acked);
    assert For(rgrid, ranges, n + 1, homes, acked) == given + [ranges[n]];
    assert AddedBefore(s, k) == before + given by {
      if k >= |s.checkers| { ForNew(start, s, ranges, n, homes, acked, rgrid); }
    }
    Sequences.Assoc(before, given, [ranges[n]]);
  }

  lemma ForNew(start: State, s: State, ranges: seq<RangeId>, n: nat,
    homes: map<RangeId, RangerId>, acked: set<RangerId>, rgrid: RangerId)
    requires n <= |ranges| && AddedTo(start, s, ranges, n, homes, acked) && !Has(s, rgrid)
    ensures For(rgrid, ranges, n, homes, acked) == []
  {
    ForNone(rgrid, ranges, n, homes, acked);
  }

  /** A round over `ranges` that has got to the first `n` of them, and the number of
      events since it was begun. */
  datatype Round = Round(start: State, ranges: seq<RangeId>, n: nat, homes: map<RangeId, RangerId>,
                         acked: set<RangerId>, events: nat)

  ghost predicate InRound(r: Round, s: State)
  {
    && Active(r.start) && r.n <= |r.ranges| && Reaches(r.start, s, r.events)
    && AddedTo(r.start, s, r.ranges, r.n, r.homes, r.acked)
  }

  lemma RoundPlaced(r: Round, s: State, t: State, k: nat) returns (r': Round)
    requires InRound(r, s) && OnePerRanger(t)
    requires r.n < |r.ranges| && Goes(r.ranges[r.n], r.homes, r.acked)
    requires PlacedAt(s, t, r.homes[r.ranges[r.n]], r.ranges[r.n], k)
    ensures InRound(r', t) && r' == r.(n := r.n + 1, events := r'.events)
  {
    RoundReaches(r, s, t, k);
    RoundAdds(r, s, t, k);
    r' := r.(n := r.n + 1, events := r.events + if k < |s.checkers| then 1 else 2);
  }

  lemma RoundReaches(r: Round, s: State, t: State, k: nat)
    requires r.n < |r.ranges| && Goes(r.ranges[r.n], r.homes, r.acked) && Reaches(r.start, s, r.events)
    requires PlacedAt(s, t, r.homes[r.ranges[r.n]], r.ranges[r.n], k)
    ensures Reaches(r.start, t, r.events + if k < |s.checkers| then 1 else 2)
  {
    PlacedReaches(r.start, r.events, s, t, r.homes[r.ranges[r.n]], r.ranges[r.n], k);
  }

  lemma RoundAdds(r: Round, s: State, t: State, k: nat)
    requires r.n < |r.ranges| && Goes(r.ranges[r.n], r.homes, r.acked) && OnePerRanger(t)
    requires AddedTo(r.start, s, r.ranges, r.n, r.homes, r.acked)
    requires PlacedAt(s, t, r.homes[r.ranges[r.n]], r.ranges[r.n], k)
    ensures AddedTo(r.start, t, r.ranges, r.n + 1, r.homes, r.acked)
  {
    PlacedGives(s, t, r.homes[r.ranges[r.n]], r.ranges[r.n], k);
    PlacedAdds(r.start, s, t, r.ranges, r.n, r.homes, r.acked, k);
  }

  /** Which ranges go to the checker of a ranger: those that are assigned to it, if it is one
      that can be asked. */
  lemma {:induction false} ForMeans(rgrid: RangerId, ranges: seq<RangeId>, n: nat,
    homes: map<RangeId, RangerId>, acked: set<RangerId>, r: RangeId)
    requires n <= |ranges|
    ensures r in For(rgrid, ranges, n, homes, acked)
      <==> r in homes && homes[r] == rgrid && rgrid in acked && exists i :: 0 <= i < n && ranges[i] == r
  {
    if n > 0 {
      ForMeans(rgrid, ranges, n - 1, homes, acked, r);
      var last := ranges[n - 1];
      Sequences.InAppended(For(rgrid, ranges, n - 1, homes, acked),
                 if Goes(last, homes, acked) && homes[last] == rgrid then [last] else [], r);
    }
  }

  /** Every range that was added is due, and assigned to its checker's ranger, which can be
      asked; and every due range of a ranger that can be asked was added to a checker of it. */
  ghost predicate AddedAsDue(s: State, t: State, ranges: seq<RangeId>,
    homes: map<RangeId, RangerId>, acked: set<RangerId>)
  {
    && (forall k, r :: 0 <= k < |t.checkers| && r in t.checkers[k].added && r !in AddedBefore(s, k) ==>
          r in ranges && r in homes && homes[r] == t.checkers[k].rgrid && homes[r] in acked)
    && (forall r :: r in ranges && r in homes && homes[r] in acked ==>
          exists k :: 0 <= k < |t.checkers| && t.checkers[k].rgrid == homes[r] && r in t.checkers[k].added)
  }

  lemma AddedMeans(s: State, t: State, ranges: seq<RangeId>, homes: map<RangeId, RangerId>, acked: set<RangerId>)
    requires AddedTo(s, t, ranges, |ranges|, homes, acked)
    ensures AddedAsDue(s, t, ranges, homes, acked)
  {
    forall k, r | 0 <= k < |t.checkers| && r in t.checkers[k].added && r !in AddedBefore(s, k)
      ensures r in ranges && r in homes && homes[r] == t.checkers[k].rgrid && homes[r] in acked
    {
      var given := For(t.checkers[k].rgrid, ranges, |ranges|, homes, acked);
      ForMeans(t.checkers[k].rgrid, ranges, |ranges|, homes, acked, r);
      Sequences.InAppended(AddedBefore(s, k), given, r);
    }
    forall r | r in ranges && r in homes && homes[r] in acked
      ensures exists k :: 0 <= k < |t.checkers| && t.checkers[k].rgrid == homes[r] && r in t.checkers[k].added
    {
      var i :| 0 <= i < |ranges| && ranges[i] == r;
      ForMeans(homes[r], ranges, |ranges|, homes, acked, r);
      assert Goes(ranges[i], homes, acked) && Has(t, homes[ranges[i]]);
    }
  }

  class ColumnHealthCheck {
    const completion: CompletionCounter
    var checkers: seq<RangerCheck>
    ghost var held: State
    ghost var Repr: set<object>

    ghost predicate Valid()
      reads this, Repr
    {
      && this in Repr && completion in Repr
      && (forall k :: 0 <= k < |checkers| ==> checkers[k] in Repr)
      && Sound(held) && held.completion == completion.count
      && |held.checkers| == |checkers|
      && (forall k :: 0 <= k < |checkers| ==> checkers[k].Valid() && checkers[k].held == held.checkers[k])
      && (forall k :: 0 <= k < |checkers| ==> checkers[k].completion == completion)
      && (forall j, k :: 0 <= j < k < |checkers| ==> checkers[j] != checkers[k])
    }

    constructor ()
      ensures Valid() && held == INITIAL && fresh(Repr)
    {
      completion := new CompletionCounter(1);
      checkers, held := [], INITIAL;
      Repr := {this, completion};
    }

    method Open(rgrid: RangerId)
      requires Valid() && Enabled(held, Event.Open(rgrid))
      modifies Repr
      ensures Valid() && fresh(Repr - old(Repr))
      ensures held == Next(old(held), Event.Open(rgrid))
    {
      OpenSound(held, rgrid);
      var checker := new RangerCheck(rgrid, completion);
      checkers := checkers + [checker];
      Repr := Repr + {checker};
      held := Next(held, Event.Open(rgrid));
    }

    method Add(k: nat, range: RangeId)
      requires Valid() && Enabled(held, Event.Add(k, range))
      modifies Repr
      ensures Valid() && fresh(Repr - old(Repr))
      ensures held == Next(old(held), Event.Add(k, range))
    {
      AddSound(held, k, range);
      held := Next(held, Event.Add(k, range));
      checkers[k].AddRange(range);
    }

    method Answer(k: nat, mine: set<RangeId>) returns (more: nat)
      requires Valid() && Enabled(held, Event.Answer(k, mine))
      modifies Repr
      ensures Valid() && fresh(Repr - old(Repr))
      ensures held == Next(old(held), Event.Answer(k, mine))
      ensures held.checkers[k].checkings + more == MAX_CHECKINGS
           || (more == 0 && held.checkers[k].checkings == MAX_CHECKINGS)
    {
      AnswerSound(held, k, mine);
      held := Next(held, Event.Answer(k, mine));
      more := checkers[k].Answer(mine);
    }

    /** Gives up a token of the counter; the checkers go with the last one. */
    method Release(ghost next: State) returns (last: bool)
      requires Valid() && held.completion > 0 && Sound(next)
      requires next.completion == held.completion - 1
      requires next.checkers == if held.completion == 1 then [] else held.checkers
      modifies Repr
      ensures Valid() && fresh(Repr - old(Repr))
      ensures held == next && last == (next.completion == 0)
    {
      last := completion.IsLast();
      if last {
        checkers := [];
      }
      held := next;
    }

    method Find(rgrid: RangerId) returns (at: Option<nat>)
      requires Valid()
      ensures at.None? ==> !Has(held, rgrid)
      ensures at.Some? ==> at.value < |held.checkers| && held.checkers[at.value].rgrid == rgrid
    {
      at := None;
      for k := 0 to |checkers|
        invariant forall j :: 0 <= j < k ==> held.checkers[j].rgrid != rgrid
      {
        if checkers[k].rgrid == rgrid { return Some(k); }
      }
    }

    /** A range goes to the checker of its ranger, which is opened when there is
        none yet. */
    method Place(rgrid: RangerId, range: RangeId) returns (ghost k: nat)
      requires Valid() && Active(held)
      modifies Repr
      ensures Valid() && fresh(Repr - old(Repr))
      ensures PlacedAt(old(held), held, rgrid, range, k)
    {
      var found := Find(rgrid);
      var at := if found.Some? then found.value else |checkers|;
      if found.None? {
        OpenEnables(held, rgrid, range);
        Open(rgrid);
      }
      Add(at, range);
      k := at;
    }

    /** One turn of a round: the next range is added if its ranger can be asked. */
    method PlaceNext(ghost round: Round, range: RangeId, homes: map<RangeId, RangerId>, acked: set<RangerId>)
      returns (ghost after: Round)
      requires Valid() && InRound(round, held)
      requires round.homes == homes && round.acked == acked
      requires round.n < |round.ranges| && range == round.ranges[round.n]
      modifies Repr
      ensures Valid() && fresh(Repr - old(Repr)) && InRound(after, held)
      ensures after == round.(n := round.n + 1, events := after.events)
    {
      if Goes(range, homes, acked) {
        ghost var was := held;
        ghost var k := Place(homes[range], range);
        after := RoundPlaced(round, was, held, k);
      } else {
        after := round.(n := round.n + 1);
      }
    }

    /** One round: of the ranges due for a check, those of rangers that can be asked
        are added. */
    method Run(ranges: seq<RangeId>, homes: map<RangeId, RangerId>, acked: set<RangerId>)
      returns (ghost round: Round)
      requires Valid() && Active(held)
      modifies Repr
      ensures Valid() && fresh(Repr - old(Repr))
      ensures Reaches(old(held), held, round.events)
      ensures AddedTo(old(held), held, ranges, |ranges|, homes, acked)
      ensures AddedAsDue(old(held), held, ranges, homes, acked)
    {
      round := Round(held, ranges, 0, homes, acked, 0);
      for i := 0 to |ranges|
        invariant Valid() && InRound(round, held) && fresh(Repr - old(Repr))
        invariant round == Round(old(held), ranges, i, homes, acked, round.events)
      {
        round := PlaceNext(round, ranges[i], homes, acked);
      }
      AddedMeans(old(held), held, ranges, homes, acked);
    }

    /** The end of a handler, which does one more round, or of the initial round. */
    method Finishing(finished: bool, ranges: seq<RangeId>, homes: map<RangeId, RangerId>, acked: set<RangerId>)
      returns (last: bool, ghost before: State)
      requires Valid() && (if finished then held.handling > 0 else held.starting)
      modifies Repr
      ensures Valid() && fresh(Repr - old(Repr))
      ensures if finished then AddedTo(old(held), before, ranges, |ranges|, homes, acked) else before == old(held)
      ensures Enabled(before, EndOf(finished)) && held == Next(before, EndOf(finished))
      ensures last == (held.lasts > before.lasts)
    {
      if finished {
        ghost var round := Run(ranges, homes, acked);
      }
      before := held;
      EndSound(held, finished);
      last := Release(Next(held, EndOf(finished)));
    }
  }

  function EndOf(finished: bool): Event { if finished then Handled else Started }

  lemma EndSound(s: State, finished: bool)
    requires Sound(s) && (if finished then s.handling > 0 else s.starting)
    ensures Enabled(s, EndOf(finished)) && Sound(Next(s, EndOf(finished)))
    ensures var t := Next(s, EndOf(finished));
      && t.completion == s.completion - 1 && (t.lasts > s.lasts <==> t.completion == 0)
      && t.checkers == if s.completion == 1 then [] else s.checkers
  {
    if finished { HandledSound(s); } else { StartedSound(s); }
  }
}
