/** How managers of a group agree on the one that is active, on values: what a
    manager holds of the others and how each event changes it. */
module MngrRoles {
  import opened Common

  type State = s: nat | s <= 5
  const NOTSET: State := 0
  const OFF: State := 1
  const STANDBY: State := 2
  const WANT: State := 3
  const NOMINATED: State := 4
  const ACTIVE: State := 5

  datatype Host = Host(
    role: nat, cidBegin: nat, cidEnd: nat, endpoints: set<EndPoint>,
    priority: nat, state: State)

  predicate SameGroup(a: Host, b: Host)
  {
    a.role == b.role && a.cidBegin == b.cidBegin && a.cidEnd == b.cidEnd
  }

  predicate Meets(e: set<EndPoint>, f: set<EndPoint>) { e * f != {} }

  /** A host in a message: a copy that came over the wire, or one of our own. */
  datatype Listed = Copy(host: Host) | Own(at: nat)

  const NOBODY := Host(0, 0, 0, {}, 0, NOTSET)

  function View(hs: seq<Host>, l: Listed): Host
  {
    match l case Copy(host) => host case Own(at) => if at < |hs| then hs[at] else NOBODY
  }

  // ----- looking up and changing

  /** Every host with one of the endpoints gets the state. */
  function WithState(hs: seq<Host>, e: set<EndPoint>, state: State): (r: seq<Host>)
    ensures SameShape(hs, r)
    ensures forall i :: 0 <= i < |hs| ==>
      r[i].state == if Meets(e, hs[i].endpoints) then state else hs[i].state
  {
    seq(|hs|, i requires 0 <= i < |hs| => if Meets(e, hs[i].endpoints) then hs[i].(state := state) else hs[i])
  }

  /** Nothing but states differs. */
  ghost predicate SameShape(hs: seq<Host>, r: seq<Host>)
  {
    |r| == |hs| && forall i :: 0 <= i < |hs| ==> r[i] == hs[i].(state := r[i].state)
  }

  /** The first host with one of the endpoints. */
  function Find(hs: seq<Host>, e: set<EndPoint>, from: nat := 0): (r: Option<nat>)
    requires from <= |hs|
    ensures r.Some? ==> from <= r.value < |hs| && Meets(e, hs[r.value].endpoints)
    ensures r.Some? ==> forall i :: from <= i < r.value ==> !Meets(e, hs[i].endpoints)
    ensures r.None? ==> forall i :: from <= i < |hs| ==> !Meets(e, hs[i].endpoints)
    decreases |hs| - from
  {
    if from == |hs| then None
    else if Meets(e, hs[from].endpoints) then Some(from)
    else Find(hs, e, from + 1)
  }

  /** The first host of the highest state in the group of `g`. */
  function Highest(hs: seq<Host>, g: Host, upTo: nat): (r: Option<nat>)
    requires upTo <= |hs|
    ensures r.Some? ==> r.value < upTo && SameGroup(hs[r.value], g)
    ensures r.Some? ==> forall i :: 0 <= i < upTo && SameGroup(hs[i], g) ==>
      if i < r.value then hs[i].state < hs[r.value].state else hs[i].state <= hs[r.value].state
    ensures r.None? ==> forall i :: 0 <= i < upTo ==> !SameGroup(hs[i], g)
  {
    if upTo == 0 then None else
    var before := Highest(hs, g, upTo - 1);
    if SameGroup(hs[upTo - 1], g) && (before.None? || hs[before.value].state < hs[upTo - 1].state)
    then Some(upTo - 1) else before
  }

  predicate GroupOff(hs: seq<Host>, g: Host)
  {
    forall i :: 0 <= i < |hs| && SameGroup(hs[i], g) ==> hs[i].state == OFF
  }

  // ----- a message

  /** The state that a listed host `m` is to get, if it is to change.  `first`
      says that the message starts here. */
  function Decide(hs: seq<Host>, m: Host, local: set<EndPoint>, first: bool): Option<State>
  {
    if Meets(m.endpoints, local) && first && m.state < STANDBY then Some(STANDBY)
    else match Find(hs, m.endpoints)
    case None => None
    case Some(own) =>
      if m.state < STANDBY then
        if m.state != hs[own].state then Some(if m.state != NOTSET then m.state else hs[own].state) else None
      else match Highest(hs, m, |hs|)
      case None => None
      case Some(high) =>
        if hs[high].state == ACTIVE then
          if m.state != hs[own].state && hs[own].priority != hs[high].priority then Some(STANDBY) else None
        else if m.state == ACTIVE then Some(ACTIVE)
        else if m.priority > hs[high].priority then
          if m.state > STANDBY then Some(m.state - 1) else None
        else Some(m.state + 1)
  }

  /** One listed host `m` taken in. */
  function Nominate(hs: seq<Host>, m: Host, local: set<EndPoint>, first: bool): (r: seq<Host>)
    ensures SameShape(hs, r)
  {
    match Decide(hs, m, local, first)
    case None => hs
    case Some(state) => WithState(hs, m.endpoints, state)
  }

  /** Whether the group of `m` is off, the local host may serve it by the
      configuration, and nobody in the local host's group wants to be active. */
  predicate StepsUp(hs: seq<Host>, m: Host, local: set<EndPoint>, configured: set<EndPoint>)
  {
    && GroupOff(hs, m) && configured * local - m.endpoints != {}
    && match Find(hs, local)
       case None => false
       case Some(own) =>
         match Highest(hs, hs[own], |hs|)
         case None => false
         case Some(high) => hs[high].state < WANT
  }

  /** The local host steps up for the group of `m`. */
  function TakeOver(hs: seq<Host>, m: Host, local: set<EndPoint>, configured: set<EndPoint>): (r: seq<Host>)
    ensures SameShape(hs, r)
  {
    if StepsUp(hs, m, local, configured) then WithState(hs, local, WANT) else hs
  }

  /** A message: whether it starts here, and what the configuration says of the
      endpoints that serve a host's group. */
  datatype Message = Message(
    ls: seq<Listed>, local: set<EndPoint>, first: bool, configured: Host -> set<EndPoint>)
  {
    function Turns(): nat { 2 * |ls| }
  }

  /** Turn `t` of a message: every listed host is taken in, and then every one
      looked at again for a group that is off. */
  function Turn(hs: seq<Host>, msg: Message, t: nat): (r: seq<Host>)
    requires t < msg.Turns()
    ensures SameShape(hs, r)
  {
    if t < |msg.ls| then Nominate(hs, View(hs, msg.ls[t]), msg.local, msg.first)
    else
      var m := View(hs, msg.ls[t - |msg.ls|]);
      TakeOver(hs, m, msg.local, msg.configured(m))
  }

  lemma TurnNominates(hs: seq<Host>, msg: Message, t: nat)
    requires t < |msg.ls|
    ensures Turn(hs, msg, t) == Nominate(hs, View(hs, msg.ls[t]), msg.local, msg.first)
  {
  }

  lemma TurnTakesOver(hs: seq<Host>, msg: Message, t: nat)
    requires |msg.ls| <= t < msg.Turns()
    ensures Turn(hs, msg, t)
      == var m := View(hs, msg.ls[t - |msg.ls|]); TakeOver(hs, m, msg.local, msg.configured(m))
  {
  }

  ghost predicate TurnAt(trace: seq<seq<Host>>, msg: Message, t: nat)
    requires t < msg.Turns() && t + 1 < |trace|
  {
    trace[t + 1] == Turn(trace[t], msg, t)
  }

  /** `trace` is what is held from turn to turn of the message, for `n` turns. */
  ghost predicate FilledSoFar(trace: seq<seq<Host>>, msg: Message, n: nat)
  {
    n <= msg.Turns() && |trace| == n + 1 && forall t :: 0 <= t < n ==> TurnAt(trace, msg, t)
  }

  lemma FilledMore(trace: seq<seq<Host>>, msg: Message, n: nat, next: seq<Host>)
    requires FilledSoFar(trace, msg, n) && n < msg.Turns() && next == Turn(trace[n], msg, n)
    ensures FilledSoFar(trace + [next], msg, n + 1)
  {
    forall t | 0 <= t < n + 1 ensures TurnAt(trace + [next], msg, t) {
      if t < n { assert TurnAt(trace, msg, t); }
    }
  }

  ghost predicate IsFilling(trace: seq<seq<Host>>, msg: Message)
  {
    FilledSoFar(trace, msg, msg.Turns())
  }

  ghost predicate FillsTo(hs: seq<Host>, msg: Message, r: seq<Host>)
  {
    exists trace :: IsFilling(trace, msg) && trace[0] == hs && trace[msg.Turns()] == r
  }

  // ----- what is kept

  /** At most one active host for a role and range of columns. */
  ghost predicate OneActive(hs: seq<Host>)
  {
    forall i, j :: 0 <= i < j < |hs| && hs[i].state == ACTIVE && hs[j].state == ACTIVE ==>
      !SameGroup(hs[i], hs[j])
  }

  ghost predicate Disjoint(hs: seq<Host>)
  {
    forall i, j :: 0 <= i < j < |hs| ==> !Meets(hs[i].endpoints, hs[j].endpoints)
  }

  /** The endpoints name at most one host. */
  ghost predicate NamesOne(hs: seq<Host>, e: set<EndPoint>)
  {
    forall i, j :: 0 <= i < j < |hs| ==> !(Meets(e, hs[i].endpoints) && Meets(e, hs[j].endpoints))
  }

  /** `m` names at most one host, and one of its own group. */
  ghost predicate Agrees(hs: seq<Host>, m: Host)
  {
    && NamesOne(hs, m.endpoints)
    && forall i :: 0 <= i < |hs| && Meets(m.endpoints, hs[i].endpoints) ==> SameGroup(m, hs[i])
  }

  ghost predicate AllAgree(hs: seq<Host>, ls: seq<Listed>)
  {
    forall k :: 0 <= k < |ls| ==> Agrees(hs, View(hs, ls[k]))
  }

  /** `i` was active and is no more. */
  ghost predicate Deposed(hs: seq<Host>, r: seq<Host>, i: nat)
    requires |r| == |hs| && i < |hs|
  {
    hs[i].state == ACTIVE && r[i].state != ACTIVE
  }

  /** Our own hosts always agree with themselves. */
  lemma OwnAgrees(hs: seq<Host>, at: nat)
    requires Disjoint(hs) && at < |hs|
    ensures Agrees(hs, hs[at])
  {
    forall i | 0 <= i < |hs| && i != at
      ensures !Meets(hs[at].endpoints, hs[i].endpoints)
    {
      assert hs[at].endpoints * hs[i].endpoints == hs[i].endpoints * hs[at].endpoints;
    }
  }

  /** Taking in one host keeps one active, and deposes only a host that is
      listed below STANDBY. */
  lemma NominateSafe(hs: seq<Host>, m: Host, local: set<EndPoint>, first: bool)
    requires OneActive(hs) && Agrees(hs, m)
    ensures OneActive(Nominate(hs, m, local, first))
    ensures forall i :: 0 <= i < |hs| && Deposed(hs, Nominate(hs, m, local, first), i) ==>
      Meets(m.endpoints, hs[i].endpoints) && m.state < STANDBY
  {
    var r := Nominate(hs, m, local, first);
    var high := Highest(hs, m, |hs|);
    if high.Some? && hs[high.value].state != ACTIVE {
      assert forall i :: 0 <= i < |hs| && SameGroup(hs[i], m) ==> hs[i].state != ACTIVE;
    }
  }

  lemma AgreesKept(hs: seq<Host>, r: seq<Host>, l: Listed)
    requires SameShape(hs, r) && Agrees(hs, View(hs, l))
    ensures Agrees(r, View(r, l))
  {
  }

  /** A copy in the message lists host `i` below STANDBY. */
  ghost predicate ListedBelow(hs: seq<Host>, ls: seq<Listed>, i: nat)
    requires i < |hs|
  {
    exists k :: 0 <= k < |ls| && ls[k].Copy? && ls[k].host.state < STANDBY
      && Meets(ls[k].host.endpoints, hs[i].endpoints)
  }

  /** Stepping up sets nobody active, and deposes nobody when the local
      endpoints name one host. */
  lemma TakeOverSafe(hs: seq<Host>, m: Host, local: set<EndPoint>, configured: set<EndPoint>)
    requires OneActive(hs)
    ensures OneActive(TakeOver(hs, m, local, configured))
    ensures NamesOne(hs, local) ==> forall i :: 0 <= i < |hs| ==> !Deposed(hs, TakeOver(hs, m, local, configured), i)
  {
  }

  /** What a message has kept after some of its turns. */
  ghost predicate KeptSoFar(hs: seq<Host>, r: seq<Host>, msg: Message)
  {
    && SameShape(hs, r) && OneActive(r)
    && (NamesOne(hs, msg.local) ==>
          forall i :: 0 <= i < |hs| && Deposed(hs, r, i) ==> ListedBelow(hs, msg.ls, i))
  }

  lemma NominateTurnSafe(hs: seq<Host>, before: seq<Host>, msg: Message, t: nat)
    requires AllAgree(hs, msg.ls) && KeptSoFar(hs, before, msg) && t < |msg.ls|
    ensures KeptSoFar(hs, Turn(before, msg, t), msg)
  {
    var m, r := View(before, msg.ls[t]), Turn(before, msg, t);
    AgreesKept(hs, before, msg.ls[t]);
    NominateSafe(before, m, msg.local, msg.first);
    if NamesOne(hs, msg.local) {
      forall i | 0 <= i < |hs| && Deposed(hs, r, i) ensures ListedBelow(hs, msg.ls, i) {
        if before[i].state == ACTIVE { assert Deposed(before, r, i); }
      }
    }
  }

  lemma TakeOverTurnSafe(hs: seq<Host>, before: seq<Host>, msg: Message, t: nat)
    requires KeptSoFar(hs, before, msg) && |msg.ls| <= t < msg.Turns()
    ensures KeptSoFar(hs, Turn(before, msg, t), msg)
  {
    var m, r := View(before, msg.ls[t - |msg.ls|]), Turn(before, msg, t);
    TakeOverSafe(before, m, msg.local, msg.configured(m));
    if NamesOne(hs, msg.local) {
      assert NamesOne(before, msg.local);
      forall i | 0 <= i < |hs| && Deposed(hs, r, i) ensures ListedBelow(hs, msg.ls, i) {
        assert !Deposed(before, r, i);
      }
    }
  }

  lemma TurnSafe(hs: seq<Host>, before: seq<Host>, msg: Message, t: nat, after: seq<Host>)
    requires AllAgree(hs, msg.ls) && KeptSoFar(hs, before, msg)
    requires t < msg.Turns() && after == Turn(before, msg, t)
    ensures KeptSoFar(hs, after, msg)
  {
    if t < |msg.ls| {
      NominateTurnSafe(hs, before, msg, t);
    } else {
      TakeOverTurnSafe(hs, before, msg, t);
    }
  }

  lemma {:induction false} FillingSafe(trace: seq<seq<Host>>, msg: Message, t: nat)
    requires IsFilling(trace, msg) && t < |trace|
    requires OneActive(trace[0]) && AllAgree(trace[0], msg.ls)
    ensures KeptSoFar(trace[0], trace[t], msg)
  {
    if t > 0 {
      FillingSafe(trace, msg, t - 1);
      assert TurnAt(trace, msg, t - 1);
      TurnSafe(trace[0], trace[t - 1], msg, t - 1, trace[t]);
    }
  }

  /** A whole message keeps one active, and deposes only hosts that it lists
      below STANDBY. */
  lemma FilledSafe(hs: seq<Host>, msg: Message, r: seq<Host>)
    requires OneActive(hs) && AllAgree(hs, msg.ls) && FillsTo(hs, msg, r)
    ensures SameShape(hs, r) && OneActive(r)
    ensures NamesOne(hs, msg.local) ==>
      forall i :: 0 <= i < |hs| && Deposed(hs, r, i) ==> ListedBelow(hs, msg.ls, i)
  {
    var trace :| IsFilling(trace, msg) && trace[0] == hs && trace[msg.Turns()] == r;
    FillingSafe(trace, msg, msg.Turns());
  }

  /** Of the hosts that the endpoints name, no two are of one group, and none is of the
      group of another host that is active. */
  ghost predicate Lone(hs: seq<Host>, e: set<EndPoint>)
  {
    forall i, j | 0 <= i < |hs| && 0 <= j < |hs| && i != j
        && Meets(e, hs[i].endpoints) && SameGroup(hs[i], hs[j]) ::
      !Meets(e, hs[j].endpoints) && hs[j].state != ACTIVE
  }

  /** Making hosts active keeps one active exactly when they are alone in that. */
  lemma ActiveExact(hs: seq<Host>, e: set<EndPoint>)
    requires OneActive(hs)
    ensures OneActive(WithState(hs, e, ACTIVE)) <==> Lone(hs, e)
  {
    var r := WithState(hs, e, ACTIVE);
    if OneActive(r) {
      forall i, j | 0 <= i < |hs| && 0 <= j < |hs| && i != j
          && Meets(e, hs[i].endpoints) && SameGroup(hs[i], hs[j])
        ensures !Meets(e, hs[j].endpoints) && hs[j].state != ACTIVE
      {
        assert r[i].state == ACTIVE && SameGroup(r[i], r[j]) && SameGroup(r[j], r[i]);
      }
    }
  }

  /** Any other state keeps one active. */
  lemma NotActiveKeeps(hs: seq<Host>, e: set<EndPoint>, state: State)
    requires OneActive(hs) && state != ACTIVE
    ensures OneActive(WithState(hs, e, state))
  {
  }

  /** Whether or not managers agree on groups: a listed host taken in keeps one active
      exactly when it is not to be active, or those it names are alone in that. */
  lemma NominateExact(hs: seq<Host>, m: Host, local: set<EndPoint>, first: bool)
    requires OneActive(hs)
    ensures OneActive(Nominate(hs, m, local, first))
      <==> Decide(hs, m, local, first) != Some(ACTIVE) || Lone(hs, m.endpoints)
  {
    match Decide(hs, m, local, first)
    case None =>
    case Some(state) =>
      if state == ACTIVE {
        ActiveExact(hs, m.endpoints);
      } else {
        NotActiveKeeps(hs, m.endpoints, state);
      }
  }

  /** One listed host that names two of ours makes two of a group active. */
  lemma DisagreementBreaks()
    ensures exists hs: seq<Host>, m: Host ::
      && OneActive(hs) && Disjoint(hs) && !Agrees(hs, m)
      && Decide(hs, m, {}, false) == Some(ACTIVE) && !OneActive(Nominate(hs, m, {}, false))
  {
    var a, b := Host(1, 0, 0, {1}, 1, STANDBY), Host(1, 0, 0, {2}, 2, STANDBY);
    var m := Host(1, 0, 0, {1, 2}, 1, ACTIVE);
    var hs := [a, b];
    assert 1 in m.endpoints * a.endpoints && 2 in m.endpoints * b.endpoints;
    assert a.endpoints * b.endpoints == {};
    var r := Nominate(hs, m, {}, false);
    assert r[0].state == ACTIVE && r[1].state == ACTIVE && SameGroup(r[0], r[1]);
    assert OneActive(hs) && Disjoint(hs) && !Agrees(hs, m) && !OneActive(r);
  }

  // ----- messages taken in at the same time

  /** A state set under the lock, which is given up between looking and setting: what
      others set meanwhile was not looked at. */
  datatype Write = Write(e: set<EndPoint>, state: State)

  ghost predicate AreWrites(writes: seq<Write>, trace: seq<seq<Host>>)
  {
    && |trace| == |writes| + 1
    && (forall i :: 0 <= i < |writes| ==> trace[i + 1] == WithState(trace[i], writes[i].e, writes[i].state))
  }

  ghost predicate LoneAt(writes: seq<Write>, trace: seq<seq<Host>>, i: nat)
    requires i < |writes| && i < |trace|
  {
    writes[i].state == ACTIVE ==> Lone(trace[i], writes[i].e)
  }

  /** In whatever order states are set, one is active all along exactly when everyone
      who is made active is alone in that at that moment. */
  lemma WritesExact(writes: seq<Write>, trace: seq<seq<Host>>)
    requires AreWrites(writes, trace) && OneActive(trace[0])
    ensures (forall n :: 0 <= n < |trace| ==> OneActive(trace[n]))
      <==> (forall i :: 0 <= i < |writes| ==> LoneAt(writes, trace, i))
  {
    if forall i :: 0 <= i < |writes| ==> LoneAt(writes, trace, i) {
      forall n | 0 <= n < |trace| ensures OneActive(trace[n]) {
        WritesKeep(writes, trace, n);
      }
    } else {
      var i :| 0 <= i < |writes| && !LoneAt(writes, trace, i);
      if OneActive(trace[i]) {
        ActiveExact(trace[i], writes[i].e);
        assert !OneActive(trace[i + 1]);
      }
    }
  }

  lemma {:induction false} WritesKeep(writes: seq<Write>, trace: seq<seq<Host>>, n: nat)
    requires AreWrites(writes, trace) && OneActive(trace[0]) && n < |trace|
    requires forall i :: 0 <= i < |writes| ==> LoneAt(writes, trace, i)
    ensures OneActive(trace[n])
  {
    if n > 0 {
      WritesKeep(writes, trace, n - 1);
      var w := writes[n - 1];
      assert LoneAt(writes, trace, n - 1);
      if w.state == ACTIVE {
        ActiveExact(trace[n - 1], w.e);
      } else {
        NotActiveKeeps(trace[n - 1], w.e, w.state);
      }
    }
  }

  /** When a listed host names one of ours in its group, it is alone exactly when
      nobody else of the group is active. */
  lemma LoneWhenAgreed(hs: seq<Host>, m: Host, k: nat)
    requires Agrees(hs, m) && k < |hs| && Meets(m.endpoints, hs[k].endpoints)
    ensures Lone(hs, m.endpoints)
      <==> forall j :: 0 <= j < |hs| && j != k && SameGroup(m, hs[j]) ==> hs[j].state != ACTIVE
  {
    assert forall i :: 0 <= i < |hs| && Meets(m.endpoints, hs[i].endpoints) ==> i == k;
    if Lone(hs, m.endpoints) {
      forall j | 0 <= j < |hs| && j != k && SameGroup(m, hs[j]) ensures hs[j].state != ACTIVE {
        assert SameGroup(hs[k], hs[j]);
      }
    }
  }

  /** Who is to be active was looked up when nobody else of the group was. */
  lemma NobodyElse(hs: seq<Host>, m: Host, local: set<EndPoint>, first: bool, k: nat, j: nat)
    requires OneActive(hs) && Agrees(hs, m) && Decide(hs, m, local, first) == Some(ACTIVE)
    requires k < |hs| && Meets(m.endpoints, hs[k].endpoints)
    requires j < |hs| && j != k && SameGroup(hs[k], hs[j])
    ensures hs[j].state != ACTIVE
  {
    assert Find(hs, m.endpoints).value == k;
  }

  /** Two listed hosts, each to be active by what was looked up before either was set:
      one is active exactly when they do not name two hosts of one group. */
  lemma LookedTooEarly(hs: seq<Host>, a: Host, b: Host, local: set<EndPoint>, first: bool)
    requires OneActive(hs) && Agrees(hs, a) && Agrees(hs, b)
    requires Decide(hs, a, local, first) == Some(ACTIVE) && Decide(hs, b, local, first) == Some(ACTIVE)
    ensures OneActive(WithState(WithState(hs, a.endpoints, ACTIVE), b.endpoints, ACTIVE))
      <==> !NameTwo(hs, a.endpoints, b.endpoints)
  {
    var one := WithState(hs, a.endpoints, ACTIVE);
    NominateSafe(hs, a, local, first);
    ActiveExact(one, b.endpoints);
    forall i, j | 0 <= i < |hs| && 0 <= j < |hs| && i != j
        && Meets(b.endpoints, hs[i].endpoints) && SameGroup(hs[i], hs[j])
      ensures !Meets(b.endpoints, hs[j].endpoints)
      ensures one[j].state == ACTIVE <==> Meets(a.endpoints, hs[j].endpoints)
    {
      NobodyElse(hs, b, local, first, i, j);
    }
  }

  /** The one names a host, and the other another host of its group. */
  ghost predicate NameTwo(hs: seq<Host>, e: set<EndPoint>, f: set<EndPoint>)
  {
    exists i, j :: 0 <= i < |hs| && 0 <= j < |hs| && i != j
      && Meets(e, hs[i].endpoints) && Meets(f, hs[j].endpoints) && SameGroup(hs[i], hs[j])
  }

  /** A host that says it is active is to be so when nobody of its group is. */
  lemma ClaimTaken(hs: seq<Host>, m: Host, k: nat)
    requires k < |hs| && Meets(m.endpoints, hs[k].endpoints) && SameGroup(hs[k], m) && m.state == ACTIVE
    requires forall i :: 0 <= i < |hs| && SameGroup(hs[i], m) ==> hs[i].state != ACTIVE
    ensures Decide(hs, m, {}, false) == Some(ACTIVE)
  {
  }

  /** Two listed hosts that are agreed on, each to be active by itself, and not one active
      once both are set. */
  ghost predicate BothClaim(hs: seq<Host>, a: Host, b: Host)
  {
    && OneActive(hs) && Disjoint(hs) && Agrees(hs, a) && Agrees(hs, b)
    && Decide(hs, a, {}, false) == Some(ACTIVE) && Decide(hs, b, {}, false) == Some(ACTIVE)
    && !OneActive(WithState(WithState(hs, a.endpoints, ACTIVE), b.endpoints, ACTIVE))
  }

  /** Such messages there are. */
  lemma TwoClaims()
    ensures exists hs, a, b :: BothClaim(hs, a, b)
  {
    var h, k := Host(1, 0, 0, {1}, 1, STANDBY), Host(1, 0, 0, {2}, 2, STANDBY);
    var a, b := h.(state := ACTIVE), k.(state := ACTIVE);
    var hs := [h, k];
    assert {1} * {2} == {} && {2} * {1} == {} && 1 in {1} * {1} && 2 in {2} * {2};
    TwoClaimed(hs, a, b);
    assert BothClaim(hs, a, b);
  }

  lemma TwoClaimed(hs: seq<Host>, a: Host, b: Host)
    requires OneActive(hs) && |hs| == 2 && Agrees(hs, a) && Agrees(hs, b)
    requires a == hs[0].(state := ACTIVE) && b == hs[1].(state := ACTIVE) && SameGroup(a, b)
    requires hs[0].state != ACTIVE && hs[1].state != ACTIVE
    requires Meets(a.endpoints, hs[0].endpoints) && Meets(b.endpoints, hs[1].endpoints)
    ensures Decide(hs, a, {}, false) == Some(ACTIVE) && Decide(hs, b, {}, false) == Some(ACTIVE)
    ensures !OneActive(WithState(WithState(hs, a.endpoints, ACTIVE), b.endpoints, ACTIVE))
  {
    ClaimTaken(hs, a, 0);
    ClaimTaken(hs, b, 1);
    assert NameTwo(hs, a.endpoints, b.endpoints) by { assert SameGroup(hs[0], hs[1]); }
    LookedTooEarly(hs, a, b, {}, false);
  }

  // ----- the other events

  /** A lost connection: `reached` is the address the server is known by. */
  function Disconnected(hs: seq<Host>, reached: EndPoint, server: EndPoint): (r: seq<Host>)
    ensures SameShape(hs, r)
  {
    match Find(hs, {reached})
    case None => hs
    case Some(at) => if hs[at].state != ACTIVE then WithState(hs, {server}, OFF) else hs
  }

  /** A host that could not be connected to is off, unless it is active and may
      still fail. */
  function Unreachable(hs: seq<Host>, at: nat, tolerated: bool): (r: seq<Host>)
    requires at < |hs|
    ensures SameShape(hs, r)
  {
    if hs[at].state == ACTIVE && tolerated then hs else hs[at := hs[at].(state := OFF)]
  }

  /** The addresses of servers as their managers call themselves, by the addresses they were
      connected from; the first stays. */
  function Noted(addresses: map<EndPoint, EndPoint>, server: EndPoint, named: EndPoint): map<EndPoint, EndPoint>
  {
    if server in addresses then addresses else addresses[server := named]
  }

  /** The address under which a server is looked up. */
  function Reached(addresses: map<EndPoint, EndPoint>, server: EndPoint): EndPoint
  {
    if server in addresses then addresses[server] else server
  }

  /** A server is looked up under the first name that was noted, or its own address. */
  lemma NotedMeans(addresses: map<EndPoint, EndPoint>, server: EndPoint, named: EndPoint, other: EndPoint)
    ensures var more := Noted(addresses, server, named);
      && (server in addresses ==> more == addresses)
      && (server !in addresses ==> Reached(addresses, server) == server && Reached(more, server) == named)
      && (other != server ==> Reached(more, other) == Reached(addresses, other))
  {
  }

  /** The first host with an address. */
  ghost predicate FirstAt(hs: seq<Host>, address: EndPoint, k: int)
  {
    0 <= k < |hs| && address in hs[k].endpoints && forall j :: 0 <= j < k ==> address !in hs[j].endpoints
  }

  /** What a lost connection does to a host: off if it has the connection's address, and the
      first host of the address that the server is known by is there and not active. */
  lemma DisconnectedMeans(hs: seq<Host>, reached: EndPoint, server: EndPoint, i: nat)
    requires i < |hs|
    ensures Disconnected(hs, reached, server)[i]
      == if server in hs[i].endpoints && exists k :: FirstAt(hs, reached, k) && hs[k].state != ACTIVE
         then hs[i].(state := OFF) else hs[i]
  {
    forall j | 0 <= j < |hs|
      ensures Meets({reached}, hs[j].endpoints) <==> reached in hs[j].endpoints
      ensures Meets({server}, hs[j].endpoints) <==> server in hs[j].endpoints
    {
      assert reached in hs[j].endpoints ==> reached in {reached} * hs[j].endpoints;
      assert server in hs[j].endpoints ==> server in {server} * hs[j].endpoints;
    }
    var at := Find(hs, {reached});
    assert at.Some? ==> FirstAt(hs, reached, at.value);
    assert forall k :: FirstAt(hs, reached, k) ==> at == Some(k);
  }

  /** When a host that was looked up goes off: only when it has the address of the
      connection itself, or was off before. */
  lemma DisconnectedLeaves(hs: seq<Host>, reached: EndPoint, server: EndPoint)
    requires Find(hs, {reached}).Some? && hs[Find(hs, {reached}).value].state != ACTIVE
    ensures var at := Find(hs, {reached}).value;
      Disconnected(hs, reached, server)[at].state == OFF <==> server in hs[at].endpoints || hs[at].state == OFF
  {
    var at := Find(hs, {reached}).value;
    assert Meets({server}, hs[at].endpoints) <==> server in hs[at].endpoints by {
      if server in hs[at].endpoints { assert server in {server} * hs[at].endpoints; }
    }
  }

  /** Which hosts a lost connection deposes: the host of the one address was looked at
      and not active, while a host of the other was. */
  lemma DisconnectedDeposes(hs: seq<Host>, reached: EndPoint, server: EndPoint, i: nat)
    requires i < |hs|
    ensures Deposed(hs, Disconnected(hs, reached, server), i)
      <==> && hs[i].state == ACTIVE && server in hs[i].endpoints
           && var at := Find(hs, {reached}); at.Some? && hs[at.value].state != ACTIVE
  {
    assert Meets({server}, hs[i].endpoints) <==> server in hs[i].endpoints by {
      if server in hs[i].endpoints { assert server in {server} * hs[i].endpoints; }
    }
  }

  /** When a manager that was connected from one address called itself by another, losing
      the connection can depose the active host of the first. */
  lemma OtherAddressDeposes(server: EndPoint, named: EndPoint)
    requires server != named
    ensures exists hs: seq<Host> ::
      && Sound(hs) && |hs| == 2
      && Deposed(hs, Disconnected(hs, Reached(Noted(map[], server, named), server), server), 1)
  {
    var hs := [Host(1, 0, 0, {named}, 1, STANDBY), Host(1, 0, 0, {server}, 2, ACTIVE)];
    assert {named} * {server} == {} && named in {named} * {named};
    DisconnectedDeposes(hs, named, server, 1);
    assert Find(hs, {named}).value == 0;
    assert Sound(hs) && Deposed(hs, Disconnected(hs, named, server), 1);
  }

  lemma DisconnectedSafe(hs: seq<Host>, reached: EndPoint, server: EndPoint)
    requires OneActive(hs)
    ensures OneActive(Disconnected(hs, reached, server))
    ensures Disjoint(hs) && reached == server ==>
      forall i :: 0 <= i < |hs| ==> !Deposed(hs, Disconnected(hs, reached, server), i)
  {
    var at := Find(hs, {reached});
    if Disjoint(hs) && reached == server && at.Some? {
      forall i | 0 <= i < |hs| && Meets({server}, hs[i].endpoints) ensures i == at.value {
        assert server in hs[i].endpoints * hs[at.value].endpoints;
        assert server in hs[at.value].endpoints * hs[i].endpoints;
      }
    }
  }

  // ----- configuration

  datatype Group = Group(role: nat, cidBegin: nat, cidEnd: nat, hosts: seq<set<EndPoint>>)

  /** Configured host `pr - 1` of group `g`: a known one gets its priority, an
      unknown one is added. */
  function ApplyHost(hs: seq<Host>, g: Group, pr: nat): (r: seq<Host>)
    requires 0 < pr <= |g.hosts|
  {
    match Find(hs, g.hosts[pr - 1])
    case Some(at) => hs[at := hs[at].(priority := pr)]
    case None => hs + [Host(g.role, g.cidBegin, g.cidEnd, g.hosts[pr - 1], pr, NOTSET)]
  }

  function ApplyGroup(hs: seq<Host>, g: Group, pr: nat): seq<Host>
    requires pr <= |g.hosts|
  {
    if pr == 0 then hs else ApplyHost(ApplyGroup(hs, g, pr - 1), g, pr)
  }

  function ApplyGroups(hs: seq<Host>, gs: seq<Group>): seq<Host>
  {
    if gs == [] then hs
    else var g := gs[|gs| - 1]; ApplyGroup(ApplyGroups(hs, gs[..|gs| - 1]), g, |g.hosts|)
  }

  predicate Configured(gs: seq<Group>, e: set<EndPoint>)
  {
    exists g, i :: 0 <= g < |gs| && 0 <= i < |gs[g].hosts| && Meets(e, gs[g].hosts[i])
  }

  /** Hosts of the first `n` that are still configured. */
  function Kept(hs: seq<Host>, gs: seq<Group>, n: nat): seq<Host>
    requires n <= |hs|
  {
    if n == 0 then []
    else Kept(hs, gs, n - 1) + if Configured(gs, hs[n - 1].endpoints) then [hs[n - 1]] else []
  }

  /** The first `n` of `all` were looked at, and the first `at` of `r` are what was kept. */
  ghost predicate KeptTo(all: seq<Host>, gs: seq<Group>, n: nat, r: seq<Host>, at: nat)
  {
    n <= |all| && at <= |r| && r[..at] == Kept(all, gs, n) && r[at..] == all[n..]
  }

  lemma KeptNext(all: seq<Host>, gs: seq<Group>, n: nat, r: seq<Host>, at: nat)
    requires KeptTo(all, gs, n, r, at) && at < |r|
    ensures n < |all| && r[at] == all[n]
    ensures if Configured(gs, r[at].endpoints) then KeptTo(all, gs, n + 1, r, at + 1)
            else KeptTo(all, gs, n + 1, r[..at] + r[at + 1..], at)
  {
    assert |r[at..]| == |all[n..]|;
    assert r[at] == r[at..][0] && all[n] == all[n..][0];
    assert r[at + 1..] == r[at..][1..] && all[n + 1..] == all[n..][1..];
    assert r[..at + 1] == r[..at] + [r[at]];
    assert (r[..at] + r[at + 1..])[..at] == r[..at] && (r[..at] + r[at + 1..])[at..] == r[at + 1..];
  }

  lemma KeptAll(all: seq<Host>, gs: seq<Group>, n: nat, r: seq<Host>, at: nat)
    requires KeptTo(all, gs, n, r, at) && at == |r|
    ensures r == Kept(all, gs, |all|)
  {
    assert |all[n..]| == 0 && r[..at] == r;
  }

  function Applied(hs: seq<Host>, gs: seq<Group>): seq<Host>
  {
    Kept(ApplyGroups(hs, gs), gs, |ApplyGroups(hs, gs)|)
  }

  ghost predicate Sound(hs: seq<Host>) { OneActive(hs) && Disjoint(hs) }

  lemma ApplyHostSound(hs: seq<Host>, g: Group, pr: nat)
    requires Sound(hs) && 0 < pr <= |g.hosts|
    ensures Sound(ApplyHost(hs, g, pr))
  {
    if Find(hs, g.hosts[pr - 1]).None? {
      forall i | 0 <= i < |hs| ensures !Meets(hs[i].endpoints, g.hosts[pr - 1]) {
        assert hs[i].endpoints * g.hosts[pr - 1] == g.hosts[pr - 1] * hs[i].endpoints;
      }
    }
  }

  lemma {:induction false} ApplyGroupSound(hs: seq<Host>, g: Group, pr: nat)
    requires Sound(hs) && pr <= |g.hosts|
    ensures Sound(ApplyGroup(hs, g, pr))
  {
    if pr > 0 {
      ApplyGroupSound(hs, g, pr - 1);
      ApplyHostSound(ApplyGroup(hs, g, pr - 1), g, pr);
    }
  }

  lemma {:induction false} ApplyGroupsSound(hs: seq<Host>, gs: seq<Group>)
    requires Sound(hs)
    ensures Sound(ApplyGroups(hs, gs))
  {
    if gs != [] {
      ApplyGroupsSound(hs, gs[..|gs| - 1]);
      ApplyGroupSound(ApplyGroups(hs, gs[..|gs| - 1]), gs[|gs| - 1], |gs[|gs| - 1].hosts|);
    }
  }

  lemma {:induction false} KeptSound(hs: seq<Host>, gs: seq<Group>, n: nat)
    requires Sound(hs) && n <= |hs|
    ensures Sound(Kept(hs, gs, n))
    ensures forall i :: 0 <= i < |Kept(hs, gs, n)| ==> Kept(hs, gs, n)[i] in hs[..n]
  {
    if n > 0 {
      KeptSound(hs, gs, n - 1);
      var k := Kept(hs, gs, n - 1);
      forall i | 0 <= i < |k|
        ensures !Meets(k[i].endpoints, hs[n - 1].endpoints)
        ensures k[i].state == ACTIVE && hs[n - 1].state == ACTIVE ==> !SameGroup(k[i], hs[n - 1])
      {
        assert k[i] in hs[..n - 1];
      }
    }
  }

  // ----- runs

  datatype Event =
    | Received(msg: Message)
    | LostConnection(reached: EndPoint, server: EndPoint)
    | NoConnection(at: nat, tolerated: bool)
    | Configuration(groups: seq<Group>)

  /** What the managers promise each other, and what an event can refer to. */
  ghost predicate Allowed(hs: seq<Host>, e: Event)
  {
    match e
    case Received(msg) => AllAgree(hs, msg.ls)
    case NoConnection(at, _) => at < |hs|
    case _ => true
  }

  ghost predicate HandledTo(hs: seq<Host>, e: Event, r: seq<Host>)
    requires Allowed(hs, e)
  {
    match e
    case Received(msg) => FillsTo(hs, msg, r)
    case LostConnection(reached, server) => r == Disconnected(hs, reached, server)
    case NoConnection(at, tolerated) => r == Unreachable(hs, at, tolerated)
    case Configuration(groups) => r == Applied(hs, groups)
  }

  lemma HandledSound(hs: seq<Host>, e: Event, r: seq<Host>)
    requires Sound(hs) && Allowed(hs, e) && HandledTo(hs, e, r)
    ensures Sound(r)
  {
    match e
    case Received(msg) =>
      FilledSafe(hs, msg, r);
    case LostConnection(reached, server) =>
      DisconnectedSafe(hs, reached, server);
    case NoConnection(at, tolerated) =>
    case Configuration(groups) =>
      ApplyGroupsSound(hs, groups);
      KeptSound(ApplyGroups(hs, groups), groups, |ApplyGroups(hs, groups)|);
  }

  ghost predicate EventAt(trace: seq<seq<Host>>, events: seq<Event>, i: nat)
    requires i < |events| && i + 1 < |trace|
  {
    Allowed(trace[i], events[i]) && HandledTo(trace[i], events[i], trace[i + 1])
  }

  /** `trace` is what a manager holds, from nothing on, while it handles `events`. */
  ghost predicate IsRun(trace: seq<seq<Host>>, events: seq<Event>)
  {
    && |trace| == |events| + 1 && trace[0] == []
    && forall i :: 0 <= i < |events| ==> EventAt(trace, events, i)
  }

  /** In every run, at every moment, at most one host is active for a role and
      range of columns, and no endpoint belongs to two hosts. */
  lemma {:induction false} RunSound(trace: seq<seq<Host>>, events: seq<Event>, n: nat)
    requires IsRun(trace, events) && n < |trace|
    ensures Sound(trace[n])
  {
    if n > 0 {
      RunSound(trace, events, n - 1);
      assert EventAt(trace, events, n - 1);
      HandledSound(trace[n - 1], events[n - 1], trace[n]);
    }
  }

  // ----- an election

  /** The message a manager sends to itself: all of its own hosts. */
  function OwnList(n: nat): (ls: seq<Listed>)
    ensures |ls| == n && forall k :: 0 <= k < n ==> ls[k] == Own(k)
  {
    seq(n, k requires 0 <= k < n => Own(k))
  }

  function OwnMessage(n: nat, local: set<EndPoint>, configured: Host -> set<EndPoint>): Message
  {
    Message(OwnList(n), local, true, configured)
  }

  ghost predicate HasActive(hs: seq<Host>, g: Host)
  {
    exists i :: 0 <= i < |hs| && hs[i].state == ACTIVE && SameGroup(hs[i], g)
  }

  /** Host `b` is up and nobody in its group comes before it in priority. */
  ghost predicate Favourite(hs: seq<Host>, b: nat)
  {
    && b < |hs| && hs[b].state >= STANDBY && hs[b].endpoints != {}
    && forall i :: 0 <= i < |hs| && SameGroup(hs[i], hs[b]) ==> hs[b].priority <= hs[i].priority
  }

  lemma OwnNamesItself(hs: seq<Host>, k: nat, i: nat)
    requires Disjoint(hs) && k < |hs| && i < |hs|
    ensures Meets(hs[k].endpoints, hs[i].endpoints) <==> i == k && hs[k].endpoints != {}
  {
    if i != k {
      assert hs[k].endpoints * hs[i].endpoints == hs[i].endpoints * hs[k].endpoints;
    } else {
      assert hs[k].endpoints * hs[k].endpoints == hs[k].endpoints;
    }
  }

  lemma AllOwnAgree(hs: seq<Host>)
    requires Disjoint(hs)
    ensures AllAgree(hs, OwnList(|hs|))
  {
    forall k | 0 <= k < |hs| ensures Agrees(hs, hs[k]) { OwnAgrees(hs, k); }
  }

  /** What a manager sends itself deposes nobody. */
  lemma OwnRoundDeposesNobody(trace: seq<seq<Host>>, msg: Message, t: nat)
    requires IsFilling(trace, msg) && t < |trace| && Sound(trace[0]) && NamesOne(trace[0], msg.local)
    requires msg == OwnMessage(|trace[0]|, msg.local, msg.configured)
    ensures SameShape(trace[0], trace[t]) && Sound(trace[t]) && NamesOne(trace[t], msg.local)
    ensures forall i :: 0 <= i < |trace[0]| ==> !Deposed(trace[0], trace[t], i)
  {
    AllOwnAgree(trace[0]);
    FillingSafe(trace, msg, t);
  }

  lemma ActiveStays(hs: seq<Host>, r: seq<Host>, g: Host)
    requires SameShape(hs, r) && HasActive(hs, g)
    requires forall i :: 0 <= i < |hs| ==> !Deposed(hs, r, i)
    ensures HasActive(r, g)
  {
    var i :| 0 <= i < |hs| && hs[i].state == ACTIVE && SameGroup(hs[i], g);
    assert !Deposed(hs, r, i) && SameGroup(r[i], g);
  }

  lemma OthersUntouched(hs: seq<Host>, k: nat, local: set<EndPoint>, i: nat)
    requires Disjoint(hs) && k < |hs| && i < |hs| && i != k
    ensures Nominate(hs, hs[k], local, true)[i] == hs[i]
  {
    OwnNamesItself(hs, k, i);
  }

  /** Its own turn takes the favourite up while nobody is active. */
  lemma FavouriteTurn(hs: seq<Host>, local: set<EndPoint>, b: nat)
    requires Sound(hs) && Favourite(hs, b) && !HasActive(hs, hs[b])
    ensures hs[b].state < ACTIVE && Nominate(hs, hs[b], local, true)[b].state == hs[b].state + 1
  {
    OwnNamesItself(hs, b, b);
    assert Find(hs, hs[b].endpoints).Some?;
    var high := Highest(hs, hs[b], |hs|);
    assert hs[high.value].state != ACTIVE;
    assert hs[b].state != ACTIVE;
  }

  lemma HasActiveShape(hs: seq<Host>, before: seq<Host>, r: seq<Host>, b: nat)
    requires SameShape(hs, before) && b < |hs|
    ensures HasActive(r, hs[b]) <==> HasActive(r, before[b])
  {
    if HasActive(r, hs[b]) {
      var i :| 0 <= i < |r| && r[i].state == ACTIVE && SameGroup(r[i], hs[b]);
      assert SameGroup(r[i], before[b]);
    }
    if HasActive(r, before[b]) {
      var i :| 0 <= i < |r| && r[i].state == ACTIVE && SameGroup(r[i], before[b]);
      assert SameGroup(r[i], hs[b]);
    }
  }

  /** After `t` turns of a round there is an active host, or the favourite has
      not gone down, and has gone up if it has had its turn. */
  ghost predicate Advanced(hs: seq<Host>, r: seq<Host>, b: nat, t: nat)
    requires |r| == |hs| && b < |hs|
  {
    HasActive(r, hs[b]) || (r[b].state >= hs[b].state && (t > b ==> r[b].state > hs[b].state))
  }

  lemma NominateAdvances(hs: seq<Host>, before: seq<Host>, local: set<EndPoint>, b: nat, k: nat)
    requires SameShape(hs, before) && Sound(before) && Favourite(hs, b) && k < |hs| && Advanced(hs, before, b, k)
    requires !HasActive(before, hs[b])
    ensures Advanced(hs, Nominate(before, before[k], local, true), b, k + 1)
  {
    if k == b {
      HasActiveShape(hs, before, before, b);
      FavouriteTurn(before, local, b);
    } else {
      OthersUntouched(before, k, local, b);
    }
  }

  lemma StepUpNeverLowers(hs: seq<Host>, m: Host, local: set<EndPoint>, configured: set<EndPoint>, b: nat)
    requires b < |hs| && NamesOne(hs, local)
    ensures TakeOver(hs, m, local, configured)[b].state >= hs[b].state
  {
    if Meets(local, hs[b].endpoints) {
      var own := Find(hs, local);
      assert own.Some? && own.value == b;
    }
  }

  lemma {:induction false} RoundAdvances(trace: seq<seq<Host>>, msg: Message, b: nat, t: nat)
    requires IsFilling(trace, msg) && t < |trace| && Sound(trace[0]) && NamesOne(trace[0], msg.local)
    requires msg == OwnMessage(|trace[0]|, msg.local, msg.configured) && Favourite(trace[0], b)
    ensures |trace[t]| == |trace[0]| && Advanced(trace[0], trace[t], b, t)
  {
    if t > 0 {
      RoundAdvances(trace, msg, b, t - 1);
      OwnRoundDeposesNobody(trace, msg, t - 1);
      OwnRoundDeposesNobody(trace, msg, t);
      assert TurnAt(trace, msg, t - 1);
      if HasActive(trace[t - 1], trace[0][b]) {
        OwnTurnKeepsActive(trace, msg, t - 1, trace[0][b]);
      } else {
        TurnAdvances(trace[0], trace[t - 1], msg, b, t - 1);
      }
    }
  }

  lemma TurnAdvances(hs: seq<Host>, before: seq<Host>, msg: Message, b: nat, t: nat)
    requires msg == OwnMessage(|hs|, msg.local, msg.configured) && t < msg.Turns()
    requires SameShape(hs, before) && Sound(before) && NamesOne(before, msg.local)
    requires Favourite(hs, b) && Advanced(hs, before, b, t) && !HasActive(before, hs[b])
    ensures Advanced(hs, Turn(before, msg, t), b, t + 1)
  {
    if t < |hs| {
      NominateAdvances(hs, before, msg.local, b, t);
    } else {
      var m := View(before, msg.ls[t - |hs|]);
      StepUpNeverLowers(before, m, msg.local, msg.configured(m), b);
    }
  }

  /** One turn of a manager's own message keeps a group's active host. */
  lemma OwnTurnKeepsActive(trace: seq<seq<Host>>, msg: Message, t: nat, g: Host)
    requires IsFilling(trace, msg) && t + 1 < |trace| && HasActive(trace[t], g)
    requires Sound(trace[t]) && NamesOne(trace[t], msg.local)
    requires |trace[t]| == |trace[0]| && msg == OwnMessage(|trace[0]|, msg.local, msg.configured)
    ensures HasActive(trace[t + 1], g)
  {
    assert TurnAt(trace, msg, t);
    if t < |msg.ls| {
      OwnTurnDeposesNobody(trace[t], t, msg.local);
    } else {
      var m := View(trace[t], msg.ls[t - |msg.ls|]);
      TakeOverSafe(trace[t], m, msg.local, msg.configured(m));
    }
    ActiveStays(trace[t], trace[t + 1], g);
  }

  lemma OwnTurnDeposesNobody(hs: seq<Host>, k: nat, local: set<EndPoint>)
    requires Sound(hs) && k < |hs|
    ensures forall i :: 0 <= i < |hs| ==> !Deposed(hs, Nominate(hs, hs[k], local, true), i)
  {
    OwnAgrees(hs, k);
    NominateSafe(hs, hs[k], local, true);
    forall i | 0 <= i < |hs| ensures !Deposed(hs, Nominate(hs, hs[k], local, true), i) {
      OwnNamesItself(hs, k, i);
    }
  }

  /** `r` is what a manager holds after a round of its own. */
  ghost predicate OwnRound(hs: seq<Host>, local: set<EndPoint>, configured: Host -> set<EndPoint>, r: seq<Host>)
  {
    FillsTo(hs, OwnMessage(|hs|, local, configured), r)
  }

  /** A round keeps who is active, and elects somebody or takes the favourite up. */
  lemma OwnRoundAdvances(hs: seq<Host>, local: set<EndPoint>, configured: Host -> set<EndPoint>, r: seq<Host>, b: nat)
    requires Sound(hs) && NamesOne(hs, local) && OwnRound(hs, local, configured, r) && b < |hs|
    ensures SameShape(hs, r) && Sound(r) && NamesOne(r, local)
    ensures HasActive(hs, hs[b]) ==> HasActive(r, hs[b])
    ensures Favourite(hs, b) ==> HasActive(r, hs[b]) || (Favourite(r, b) && r[b].state > hs[b].state)
  {
    var msg := OwnMessage(|hs|, local, configured);
    var trace :| IsFilling(trace, msg) && trace[0] == hs && trace[msg.Turns()] == r;
    OwnRoundDeposesNobody(trace, msg, msg.Turns());
    if HasActive(hs, hs[b]) { ActiveStays(hs, r, hs[b]); }
    if Favourite(hs, b) { RoundAdvances(trace, msg, b, msg.Turns()); }
  }

  ghost predicate RoundAt(trace: seq<seq<Host>>, local: set<EndPoint>, configured: Host -> set<EndPoint>, i: nat)
    requires i + 1 < |trace|
  {
    OwnRound(trace[i], local, configured, trace[i + 1])
  }

  /** `trace` is what a manager holds from round to round of its own. */
  ghost predicate AreRounds(trace: seq<seq<Host>>, local: set<EndPoint>, configured: Host -> set<EndPoint>)
  {
    forall i :: 0 <= i < |trace| - 1 ==> RoundAt(trace, local, configured, i)
  }

  /** After `n` rounds: somebody is active, or it takes less than three rounds
      and the favourite has gone up in each. */
  ghost predicate Electing(hs: seq<Host>, r: seq<Host>, local: set<EndPoint>, b: nat, n: nat)
    requires b < |hs|
  {
    && SameShape(hs, r) && Sound(r) && NamesOne(r, local)
    && (HasActive(r, hs[b]) || (n < 3 && Favourite(r, b) && r[b].state >= hs[b].state + n))
  }

  lemma ElectionStep(hs: seq<Host>, before: seq<Host>, r: seq<Host>, local: set<EndPoint>,
                     configured: Host -> set<EndPoint>, b: nat, n: nat)
    requires Favourite(hs, b) && Electing(hs, before, local, b, n)
    requires OwnRound(before, local, configured, r)
    ensures Electing(hs, r, local, b, n + 1)
  {
    OwnRoundAdvances(before, local, configured, r, b);
    HasActiveShape(hs, before, before, b);
    HasActiveShape(hs, before, r, b);
    if r[b].state == ACTIVE {
      assert SameGroup(r[b], hs[b]);
    }
  }

  lemma {:induction false} Elected(trace: seq<seq<Host>>, local: set<EndPoint>,
                                   configured: Host -> set<EndPoint>, b: nat, n: nat)
    requires AreRounds(trace, local, configured) && n < |trace|
    requires Sound(trace[0]) && NamesOne(trace[0], local) && Favourite(trace[0], b)
    ensures Electing(trace[0], trace[n], local, b, n)
  {
    if n > 0 {
      Elected(trace, local, configured, b, n - 1);
      assert RoundAt(trace, local, configured, n - 1);
      ElectionStep(trace[0], trace[n - 1], trace[n], local, configured, b, n - 1);
    }
  }

  /** A group whose favourite is up has an active host after three rounds, and
      keeps it from then on. */
  lemma Election(trace: seq<seq<Host>>, local: set<EndPoint>, configured: Host -> set<EndPoint>, b: nat, n: nat)
    requires AreRounds(trace, local, configured) && 3 <= n < |trace|
    requires Sound(trace[0]) && NamesOne(trace[0], local) && Favourite(trace[0], b)
    ensures HasActive(trace[n], trace[0][b])
  {
    Elected(trace, local, configured, b, n);
  }
}
