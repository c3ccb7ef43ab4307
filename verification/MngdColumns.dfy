/** How a manager of columns knows that all its columns are loaded. */
module ManagedColumns {
  import Sequences
  import opened ColumnsLoads

  /** A number of columns that stands for not knowing yet. */
  const NOT_INITIALIZED: nat := 0xFFFF_FFFF_FFFF_FFFF

  /** How many columns are still expected, which of them were named and not loaded,
      and the columns there are. */
  datatype Expecting = Expecting(remain: nat, load: seq<Cid>, columns: set<Cid>)

  /** One less, in 64 bits. */
  function Decremented(n: nat): nat { if n == 0 then NOT_INITIALIZED else n - 1 }

  function ExpectOne(s: Expecting, cid: Cid): Expecting
  {
    if cid !in s.load && cid !in s.columns then s.(load := [cid] + s.load)
    else s.(remain := Decremented(s.remain))
  }

  function ExpectAll(s: Expecting, cids: seq<Cid>): Expecting
  {
    if cids == [] then s else ExpectOne(ExpectAll(s, cids[..|cids| - 1]), cids[|cids| - 1])
  }

  predicate Restarts(s: Expecting, total: nat)
  {
    s.remain == 0 || s.remain == NOT_INITIALIZED || total == NOT_INITIALIZED
  }

  function Expect(s: Expecting, total: nat, cids: seq<Cid>): Expecting
  {
    ExpectAll(if Restarts(s, total) then s.(remain := total) else s, cids)
  }

  function Without(cids: seq<Cid>, cid: Cid): seq<Cid>
  {
    if cids == [] then []
    else (if cids[0] == cid then [] else [cids[0]]) + Without(cids[1..], cid)
  }

  /** A column is there and no longer waited for. */
  function Loaded(s: Expecting, cid: Cid): Expecting
  {
    if cid !in s.load then s
    else s.(load := Without(s.load, cid),
            remain := if s.remain == NOT_INITIALIZED then s.remain else Decremented(s.remain))
  }

  /** A column put on the list or taken off it. */
  function Listed(s: Expecting, cid: Cid, there: bool): Expecting
  {
    s.(columns := if there then s.columns + {cid} else s.columns - {cid})
  }

  class MngdColumns {
    var run: bool
    var cidActive: bool
    var cidBegin: Cid
    var cidEnd: Cid
    var expectedRemain: nat
    var expectedLoad: seq<Cid>
    var columns: set<Cid>

    constructor ()
      ensures run && !cidActive && State() == Expecting(NOT_INITIALIZED, [], {})
    {
      run, cidActive, cidBegin, cidEnd := true, false, 0, 0;
      expectedRemain, expectedLoad, columns := NOT_INITIALIZED, [], {};
    }

    function State(): Expecting
      reads this
    {
      Expecting(expectedRemain, expectedLoad, columns)
    }

    method ExpectedReady() returns (ready: bool)
      ensures ready == (State().remain == 0)
    {
      ready := expectedRemain == 0;
    }

    method ChangeActive(begin: Cid, end: Cid, hasColumns: bool)
      modifies this
      ensures run == old(run) && cidActive == hasColumns
      ensures !hasColumns ==> cidBegin == old(cidBegin) && cidEnd == old(cidEnd)
      ensures !hasColumns ==> State() == if old(cidActive)
        then Expecting(NOT_INITIALIZED, old(expectedLoad), {}) else old(State())
      ensures hasColumns ==> cidBegin == begin && cidEnd == end
      ensures hasColumns ==> State() == if old(cidActive && cidBegin == begin && cidEnd == end)
        then old(State()) else old(State()).(remain := NOT_INITIALIZED)
    {
      if !hasColumns {
        if !cidActive { return; }
        cidActive := false;
        expectedRemain := NOT_INITIALIZED;
        columns := {};
        return;
      }
      if cidActive && begin == cidBegin && end == cidEnd { return; }
      cidBegin, cidEnd, cidActive := begin, end, true;
      expectedRemain := NOT_INITIALIZED;
    }

    /** What the manager of a group is told; another group's is passed on, unless it came
        back to the manager of the schemas, which sent it. */
    method SetExpect(begin: Cid, end: Cid, total: nat, cids: seq<Cid>, initial: bool, ofSchemas: bool)
      returns (passOn: bool)
      modifies this
      ensures passOn == ((initial || !ofSchemas) && !(cidActive && cidBegin == begin && cidEnd == end))
      ensures State() == if (!initial && ofSchemas) || passOn || !run then old(State())
                         else Expect(old(State()), total, cids)
      ensures run == old(run) && cidActive == old(cidActive) && cidBegin == old(cidBegin) && cidEnd == old(cidEnd)
    {
      if !initial && ofSchemas { return false; }
      passOn := !(cidActive && cidBegin == begin && cidEnd == end);
      if passOn || !run { return; }
      if expectedRemain == 0 || expectedRemain == NOT_INITIALIZED || total == NOT_INITIALIZED {
        expectedRemain := total;
      }
      ghost var s := State();
      for i := 0 to |cids|
        invariant State() == ExpectAll(s, cids[..i])
        invariant run == old(run) && cidActive == old(cidActive) && cidBegin == old(cidBegin) && cidEnd == old(cidEnd)
      {
        assert cids[..i + 1][..i] == cids[..i];
        if cids[i] !in expectedLoad && cids[i] !in columns {
          expectedLoad := [cids[i]] + expectedLoad;
        } else {
          expectedRemain := Decremented(expectedRemain);
        }
      }
      assert cids[..|cids|] == cids;
    }

    /** A column was asked to be loaded; `ok` says that it exists or could be made.
        The answer says whether its ranges are to be assigned. */
    method InternalLoad(cid: Cid, ok: bool) returns (assign: bool)
      requires cid in columns ==> ok
      modifies this
      ensures State() == if run && ok then Loaded(Listed(old(State()), cid, true), cid)
                         else if run then old(State()) else Loaded(old(State()), cid)
      ensures assign == (run && ok && (cid !in old(columns) || cid in old(expectedLoad)))
      ensures run == old(run) && cidActive == old(cidActive) && cidBegin == old(cidBegin) && cidEnd == old(cidEnd)
    {
      assign := run && ok && cid !in columns;
      if assign {
        columns := columns + {cid};
      }
      if assign || ok || !run {
        if cid in expectedLoad {
          expectedLoad := Without(expectedLoad, cid);
          assign := run;
          if expectedRemain != NOT_INITIALIZED {
            expectedRemain := Decremented(expectedRemain);
          }
        }
      }
    }
  }

  // ----- a round of being told and of loading

  lemma {:induction false} WithoutIs(cids: seq<Cid>, cid: Cid)
    requires Sequences.Distinct(cids)
    ensures var w := Without(cids, cid);
      && Sequences.Distinct(w) && |w| == (if cid in cids then |cids| - 1 else |cids|)
      && (forall c :: c in w <==> c in cids && c != cid)
  {
    if cids != [] {
      WithoutIs(cids[1..], cid);
      var w := Without(cids[1..], cid);
      assert cids == [cids[0]] + cids[1..];
      assert forall c :: c in cids <==> c == cids[0] || c in cids[1..];
      if cids[0] != cid {
        assert forall k :: 0 <= k < |w| ==> w[k] in w;
      }
    }
  }

  /** Every column told of is now waited for or there; the difference between what is
      expected and what is waited for went down by what was told, in 64 bits, and so it did
      without a wrap if no more was told than expected. */
  lemma {:induction false} ExpectAllMeans(s: Expecting, cids: seq<Cid>)
    requires Sequences.Distinct(s.load)
    ensures var t := ExpectAll(s, cids);
      && t.columns == s.columns && Sequences.Distinct(t.load)
      && (forall c :: c in t.load <==> c in s.load || (c in cids && c !in s.columns))
      && (exists wraps: nat :: LessBy(s, t, |cids|, wraps))
      && (|cids| <= s.remain ==> LessBy(s, t, |cids|, 0) && s.remain - |cids| <= t.remain <= s.remain)
  {
    if cids == [] {
      assert LessBy(s, s, 0, 0);
    } else {
      var n := |cids| - 1;
      ExpectAllMeans(s, cids[..n]);
      assert cids == cids[..n] + [cids[n]];
      var before, t := ExpectAll(s, cids[..n]), ExpectAll(s, cids);
      var wraps: nat :| LessBy(s, before, n, wraps);
      assert LessBy(s, t, |cids|, if before.load == t.load && before.remain == 0 then wraps + 1 else wraps);
    }
  }

  /** What is expected less what is waited for went down by `told`, and the counter wrapped
      that often. */
  ghost predicate LessBy(s: Expecting, t: Expecting, told: nat, wraps: nat)
  {
    t.remain - |t.load| == s.remain - |s.load| - told + wraps * (NOT_INITIALIZED + 1)
  }

  /** A column put on the list or taken off it while a batch is being told, between its first
      columns and the others: as if that was before the batch or, when it is one of the
      first, after it. */
  lemma {:induction false} ListedBetween(s: Expecting, first: seq<Cid>, others: seq<Cid>, cid: Cid, there: bool)
    requires cid !in first || cid !in others
    ensures ExpectAll(Listed(ExpectAll(s, first), cid, there), others)
      == if cid !in first then ExpectAll(Listed(s, cid, there), first + others)
         else Listed(ExpectAll(s, first + others), cid, there)
  {
    ExpectConcat(s, first, others);
    ExpectConcat(Listed(s, cid, there), first, others);
    if cid !in first {
      ListedMoves(s, first, cid, there);
    } else {
      ListedMoves(ExpectAll(s, first), others, cid, there);
    }
  }

  lemma {:induction false} ListedMoves(s: Expecting, cids: seq<Cid>, cid: Cid, there: bool)
    requires cid !in cids
    ensures ExpectAll(Listed(s, cid, there), cids) == Listed(ExpectAll(s, cids), cid, there)
  {
    if cids != [] { ListedMoves(s, cids[..|cids| - 1], cid, there); }
  }

  lemma {:induction false} ExpectConcat(s: Expecting, a: seq<Cid>, b: seq<Cid>)
    ensures ExpectAll(s, a + b) == ExpectAll(ExpectAll(s, a), b)
  {
    if b == [] {
      assert a + b == a;
    } else {
      ExpectConcat(s, a, b[..|b| - 1]);
      assert (a + b)[..|a + b| - 1] == a + b[..|b| - 1];
    }
  }

  /** A column taken note of leaves its place on the list, if it was waited for, and the count
      is one less, unless that is not known. */
  lemma NotedMeans(s: Expecting, cid: Cid, k: nat)
    requires Sequences.Distinct(s.load) && (cid in s.load ==> k < |s.load| && s.load[k] == cid)
    ensures var t := Loaded(s, cid);
      if cid !in s.load then t == s
      else
        && t.load == s.load[..k] + s.load[k + 1..] && t.columns == s.columns
        && (s.remain == NOT_INITIALIZED ==> t.remain == NOT_INITIALIZED)
        && (0 < s.remain < NOT_INITIALIZED ==> t.remain == s.remain - 1)
  {
    if cid in s.load { WithoutPlace(s.load, k); }
  }

  lemma {:induction false} WithoutPlace(cids: seq<Cid>, k: nat)
    requires Sequences.Distinct(cids) && k < |cids|
    ensures Without(cids, cids[k]) == cids[..k] + cids[k + 1..]
  {
    if k == 0 {
      WithoutNone(cids[1..], cids[0]);
    } else {
      WithoutPlace(cids[1..], k - 1);
    }
  }

  lemma {:induction false} WithoutNone(cids: seq<Cid>, cid: Cid)
    requires cid !in cids
    ensures Without(cids, cid) == cids
  {
    if cids != [] { WithoutNone(cids[1..], cid); }
  }

  /** A batch that begins a round, from a manager that expects nothing or does not know, or of
      a round of unknown size, with nothing waited for: the count is what was not told of the
      round and what is waited for. */
  lemma RoundBegins(s: Expecting, total: nat, cids: seq<Cid>)
    requires s.remain == 0 || s.remain == NOT_INITIALIZED || total == NOT_INITIALIZED
    requires s.load == [] && Sequences.Distinct(cids) && |cids| <= total <= NOT_INITIALIZED
    ensures var t := Expect(s, total, cids);
      && t.remain == total - |cids| + |t.load| && t.columns == s.columns
      && (forall c :: c in t.load <==> c in cids && c !in s.columns)
      && (t.remain == 0 <==> |cids| == total && forall c :: c in cids ==> c in s.columns)
  {
    ExpectAllMeans(s.(remain := total), cids);
    var t := Expect(s, total, cids);
    if t.load != [] { assert t.load[0] in t.load; }
  }

  /** A batch of a round that goes on takes off the count what is there already. */
  lemma RoundGoesOn(s: Expecting, total: nat, cids: seq<Cid>)
    requires 0 < s.remain < NOT_INITIALIZED && total < NOT_INITIALIZED
    requires Sequences.Distinct(s.load) && |cids| <= s.remain
    ensures var t := Expect(s, total, cids); t.remain - |t.load| == s.remain - |s.load| - |cids|
  {
    ExpectAllMeans(s, cids);
  }

  /** The relation that makes the count right: what is expected is what was not yet
      told of, and what is waited for. */
  predicate Counts(s: Expecting, unannounced: nat)
  {
    s.remain == unannounced + |s.load|
  }

  /** The first batch of a round makes the count right exactly when nothing was
      waited for, or the count was right for this round already. */
  lemma RoundStarts(s: Expecting, total: nat, cids: seq<Cid>)
    requires Sequences.Distinct(s.load) && |cids| <= total < NOT_INITIALIZED
    requires Restarts(s, total) || |cids| <= s.remain
    ensures Counts(Expect(s, total, cids), total - |cids|)
      <==> (if Restarts(s, total) then s.load == [] else Counts(s, total))
  {
    ExpectAllMeans(if Restarts(s, total) then s.(remain := total) else s, cids);
  }

  /** A second round that begins while columns are waited for gets to none expected
      though none is there. */
  lemma SecondRoundTooEarly()
    ensures var s := Expect(Expecting(NOT_INITIALIZED, [], {}), 2, [1, 2]);
      && Counts(s, 0) && s.remain == 2
      && Expect(s, 2, [1, 2]).remain == 0
      && Expect(s, 2, [1, 2]).load == [2, 1] && Expect(s, 2, [1, 2]).columns == {}
  {
    var s0 := Expecting(2, [], {});
    assert [1, 2][..1] == [1] && [1][..0] == [];
    assert ExpectAll(s0, [1]) == ExpectOne(ExpectAll(s0, []), 1);
    assert ExpectAll(s0, [1, 2]) == ExpectOne(ExpectAll(s0, [1]), 2);
    var s := ExpectAll(s0, [1, 2]);
    assert s.load == [2, 1];
    assert ExpectAll(s, [1]) == ExpectOne(ExpectAll(s, []), 1);
    assert ExpectAll(s, [1, 2]) == ExpectOne(ExpectAll(s, [1]), 2);
  }

  /** A manager in a round of announcements, of which it was told the first `told`, and
      the columns that could not be initialised and were not made again since. */
  datatype Stage = Stage(state: Expecting, told: nat, failed: set<Cid>)

  /** The next batch is told; a column is put on the list, before it is initialised; one
      that was found there is taken note of, even if it is no more; one that could not be
      initialised is taken off. */
  datatype Event = Tell | Make(cid: Cid) | Note(cid: Cid) | Unmake(cid: Cid)

  ghost predicate Next(log: seq<Announcement>, s: Stage, e: Event, t: Stage)
  {
    match e
    case Tell =>
      && s.told < |log|
      && t == Stage(Expect(s.state, log[s.told].total, log[s.told].columns), s.told + 1, s.failed)
    case Make(cid) => t == s.(state := Listed(s.state, cid, true), failed := s.failed - {cid})
    case Note(cid) => (cid in s.state.columns || cid in s.failed) && t == s.(state := Loaded(s.state, cid))
    case Unmake(cid) =>
      && cid in s.state.columns
      && t == s.(state := Listed(s.state, cid, false), failed := s.failed + {cid})
  }

  ghost predicate IsRun(log: seq<Announcement>, events: seq<Event>, run: seq<Stage>)
  {
    && |run| == |events| + 1 && run[0].told == 0 && run[0].failed == {}
    && (forall i :: 0 <= i < |events| ==> Next(log, run[i], events[i], run[i + 1]))
  }

  /** The announcements for one group, that has fewer columns than would be taken
      for not knowing. */
  ghost predicate IsRound(log: seq<Announcement>)
  {
    && |Columns(log)| < NOT_INITIALIZED
    && (forall i :: 0 <= i < |log| ==> log[i].total == |Columns(log)|)
    && (forall i :: 0 < i < |log| ==> log[i].columns != [])
  }

  lemma BatchesAreRound(g: Group, cids: seq<Cid>)
    requires |cids| < NOT_INITIALIZED
    ensures IsRound(InBatches(g, |cids|, cids)) && Columns(InBatches(g, |cids|, cids)) == cids
  {
    BatchesAre(g, |cids|, cids);
    var log := InBatches(g, |cids|, cids);
    if cids == [] {
      assert |log| == 1;
    }
  }

  function ToldColumns(log: seq<Announcement>, n: nat): seq<Cid>
    requires n <= |log|
  {
    Columns(log[..n])
  }

  lemma ToldMore(log: seq<Announcement>, n: nat)
    requires n < |log|
    ensures ToldColumns(log, n + 1) == ToldColumns(log, n) + log[n].columns
    ensures |ToldColumns(log, n + 1)| <= |Columns(log)|
    ensures ToldColumns(log, |log|) == Columns(log)
  {
    Sequences.Rejoin(log, n);
    ColumnsConcat(log[..n], [log[n]]);
    ColumnsOfMore(log[n], []);
    ColumnsConcat(log[..n + 1], log[n + 1..]);
    Sequences.TakeAndDrop(log, n + 1);
    assert log[..|log|] == log;
  }

  /** In a round the count is right, and every column told of is waited for, or there, or
      has failed. */
  ghost predicate Sound(log: seq<Announcement>, s: Stage)
  {
    && s.told <= |log| && Sequences.Distinct(s.state.load) && s.failed !! s.state.columns
    && |ToldColumns(log, s.told)| <= |Columns(log)|
    && (s.told == 0 ==> s.state.load == [] && (s.state.remain == 0 || s.state.remain == NOT_INITIALIZED))
    && (s.told > 0 ==>
          && Counts(s.state, |Columns(log)| - |ToldColumns(log, s.told)|)
          && s.state.remain <= |Columns(log)|
          && forall cid :: cid in ToldColumns(log, s.told) ==>
               cid in s.state.load || cid in s.state.columns || cid in s.failed)
  }

  lemma TellSound(log: seq<Announcement>, s: Stage, t: Stage)
    requires IsRound(log) && Sound(log, s) && Next(log, s, Tell, t)
    ensures Sound(log, t)
  {
    var total, cids := |Columns(log)|, log[s.told].columns;
    ToldMore(log, s.told);
    assert s.told == 0 ==> ToldColumns(log, 0) == [] by { assert log[..0] == []; }
    var u := if Restarts(s.state, total) then s.state.(remain := total) else s.state;
    ExpectAllMeans(u, cids);
  }

  lemma NoteSound(log: seq<Announcement>, s: Stage, cid: Cid, t: Stage)
    requires IsRound(log) && Sound(log, s) && Next(log, s, Note(cid), t)
    ensures Sound(log, t)
  {
    WithoutIs(s.state.load, cid);
  }

  lemma {:induction false} RunSound(log: seq<Announcement>, events: seq<Event>, run: seq<Stage>, n: nat)
    requires IsRound(log) && IsRun(log, events, run) && n < |run|
    requires run[0].state.load == [] && (run[0].state.remain == 0 || run[0].state.remain == NOT_INITIALIZED)
    ensures Sound(log, run[n])
  {
    if n == 0 {
      assert log[..0] == [];
    } else {
      RunSound(log, events, run, n - 1);
      match events[n - 1]
      case Tell => TellSound(log, run[n - 1], run[n]);
      case Make(cid) =>
      case Note(cid) => NoteSound(log, run[n - 1], cid, run[n]);
      case Unmake(cid) =>
    }
  }

  lemma TooFewTold(log: seq<Announcement>, n: nat)
    requires IsRound(log) && 0 < n < |log|
    ensures |ToldColumns(log, n)| < |Columns(log)|
  {
    ToldMore(log, n);
    assert log[n].columns != [];
  }

  /** From nothing waited for, a round of batches in any interleaving with columns
      being made, noted and unmade: once told anything, the manager is ready exactly when
      it was told all and waits for none, and then just those columns of the round are
      there that have not failed. */
  lemma ReadyWhenLoaded(log: seq<Announcement>, events: seq<Event>, run: seq<Stage>, n: nat)
    requires IsRound(log) && IsRun(log, events, run) && n < |run| && run[n].told > 0
    requires run[0].state.load == [] && (run[0].state.remain == 0 || run[0].state.remain == NOT_INITIALIZED)
    ensures run[n].told <= |log|
    ensures |ToldColumns(log, run[n].told)| <= |Columns(log)|
    ensures Counts(run[n].state, |Columns(log)| - |ToldColumns(log, run[n].told)|)
    ensures run[n].state.remain == 0 <==> run[n].told == |log| && run[n].state.load == []
    ensures run[n].state.remain == 0 ==>
      forall cid :: cid in Columns(log) ==> (cid in run[n].state.columns <==> cid !in run[n].failed)
  {
    RunSound(log, events, run, n);
    ToldMore(log, |log| - 1);
    if run[n].told < |log| {
      TooFewTold(log, run[n].told);
    }
  }

  /** Each of the events can happen in turn, from `s` on. */
  ghost predicate Follow(log: seq<Announcement>, s: Stage, events: seq<Event>, run: seq<Stage>)
  {
    && |run| == |events| + 1 && run[0] == s
    && (forall i :: 0 <= i < |events| ==> Next(log, run[i], events[i], run[i + 1]))
  }

  lemma FollowLater(log: seq<Announcement>, s: Stage, e: Event, t: Stage, events: seq<Event>, run: seq<Stage>)
    requires Next(log, s, e, t) && Follow(log, t, events, run)
    ensures Follow(log, s, [e] + events, [s] + run)
  {
  }

  /** Once all was told, making and noting the columns that are waited for, one after
      the other, makes the manager ready with all of them there. */
  lemma {:induction false} GetsReady(log: seq<Announcement>, s: Stage) returns (events: seq<Event>, run: seq<Stage>)
    requires IsRound(log) && log != [] && Sound(log, s) && s.told == |log|
    ensures Follow(log, s, events, run) && |events| == 2 * |s.state.load|
    ensures var t := run[|events|].state;
      t.remain == 0 && s.state.columns <= t.columns && forall c :: c in s.state.load ==> c in t.columns
    decreases |s.state.load|
  {
    if s.state.load == [] {
      ToldMore(log, |log| - 1);
      return [], [s];
    }
    var c := s.state.load[0];
    var made := s.(state := Listed(s.state, c, true), failed := s.failed - {c});
    var noted := made.(state := Loaded(made.state, c));
    assert Next(log, s, Make(c), made) && Next(log, made, Note(c), noted);
    WithoutIs(s.state.load, c);
    NoteSound(log, made, c, noted);
    events, run := GetsReady(log, noted);
    FollowLater(log, made, Note(c), noted, events, run);
    events, run := [Note(c)] + events, [made] + run;
    FollowLater(log, s, Make(c), made, events, run);
    events, run := [Make(c)] + events, [s] + run;
  }

  /** A column that is told of while it is being initialised is not waited for; when that
      fails, the manager is ready without it. */
  lemma ReadyWithout(g: Group, cid: Cid)
    ensures var log := [Announcement(g, 1, [cid])];
      exists events: seq<Event>, run: seq<Stage> ::
        && IsRound(log) && IsRun(log, events, run)
        && run[0] == Stage(Expecting(NOT_INITIALIZED, [], {}), 0, {})
        && run[|events|].told == 1 && run[|events|].state == Expecting(0, [], {})
  {
    var log := [Announcement(g, 1, [cid])];
    var s0 := Stage(Expecting(NOT_INITIALIZED, [], {}), 0, {});
    var s1 := s0.(state := Expecting(NOT_INITIALIZED, [], {cid}));
    var s2 := Stage(Expecting(0, [], {cid}), 1, {});
    var s3 := Stage(Expecting(0, [], {}), 1, {cid});
    ColumnsOfMore(log[0], []);
    assert log == [log[0]] + [];
    assert [cid][..0] == [];
    assert ExpectAll(Expecting(1, [], {cid}), [cid]) == Expecting(0, [], {cid});
    var events, run := [Make(cid), Tell, Unmake(cid)], [s0, s1, s2, s3];
    assert Next(log, s0, events[0], s1);
    assert Next(log, s1, events[1], s2);
    assert Next(log, s2, events[2], s3);
    assert IsRound(log) && IsRun(log, events, run) && run[|events|] == s3;
  }
}
