/** A message that goes around a chain of managers: when all of them come to hold the same
    active host for a group. */
module MngrChains {
  import opened Common
  import opened MngrRoles

  // ----- a message of another manager

  /** What a manager holds, as it comes over the wire. */
  function Copies(s: seq<Host>): (ls: seq<Listed>)
    ensures |ls| == |s| && forall k :: 0 <= k < |s| ==> ls[k] == Copy(s[k])
  {
    seq(|s|, k requires 0 <= k < |s| => Copy(s[k]))
  }

  datatype Manager = Manager(held: seq<Host>, local: set<EndPoint>, configured: Host -> set<EndPoint>)
  {
    /** The message with what another one holds. */
    function Message(s: seq<Host>): Message { MngrRoles.Message(Copies(s), local, false, configured) }

    /** What it holds when it was sent `s`. */
    ghost predicate Receives(s: seq<Host>, r: seq<Host>) { FillsTo(held, Message(s), r) }
  }

  /** A manager that is one of the hosts `hs`, or of none, and agrees on who they are. */
  ghost predicate AgreesOn(hs: seq<Host>, m: Manager)
  {
    SameShape(hs, m.held) && Sound(m.held) && NamesOne(m.held, m.local)
  }

  /** Nobody else of the group of `x` is active. */
  ghost predicate NobodyBut(hs: seq<Host>, x: nat)
    requires x < |hs|
  {
    forall i :: 0 <= i < |hs| && i != x && SameGroup(hs[i], hs[x]) ==> hs[i].state != ACTIVE
  }

  lemma CopiesAgree(hs: seq<Host>, s: seq<Host>)
    requires Disjoint(hs) && SameShape(hs, s)
    ensures AllAgree(hs, Copies(s))
  {
    forall k | 0 <= k < |s| ensures Agrees(hs, s[k]) { OwnAgrees(hs, k); }
  }

  /** A listed host changes none but itself. */
  lemma TouchesItself(hs: seq<Host>, s: seq<Host>, k: nat, local: set<EndPoint>, i: nat)
    requires Disjoint(hs) && SameShape(hs, s) && k < |hs| && i < |hs| && i != k
    ensures Nominate(hs, s[k], local, false)[i] == hs[i]
  {
    OwnNamesItself(hs, k, i);
  }

  /** What is held when the first `t` listed hosts were taken in. */
  function Swept(hs: seq<Host>, s: seq<Host>, local: set<EndPoint>, t: nat): (r: seq<Host>)
    requires t <= |s|
    ensures SameShape(hs, r)
  {
    if t == 0 then hs else Nominate(Swept(hs, s, local, t - 1), s[t - 1], local, false)
  }

  lemma {:induction false} SweptSound(hs: seq<Host>, s: seq<Host>, local: set<EndPoint>, t: nat)
    requires Sound(hs) && SameShape(hs, s) && t <= |s|
    ensures Sound(Swept(hs, s, local, t))
  {
    if t > 0 {
      SweptSound(hs, s, local, t - 1);
      var before := Swept(hs, s, local, t - 1);
      CopiesAgree(before, s);
      assert Agrees(before, View(before, Copies(s)[t - 1]));
      NominateSafe(before, s[t - 1], local, false);
    }
  }

  /** Host `i` is not touched by the turns from `t` up to `u` unless one of them is its own. */
  lemma {:induction false} SweptElsewhere(hs: seq<Host>, s: seq<Host>, local: set<EndPoint>, i: nat, t: nat, u: nat)
    requires Sound(hs) && SameShape(hs, s) && i < |s| && t <= u <= |s| && !(t <= i < u)
    ensures Swept(hs, s, local, u)[i] == Swept(hs, s, local, t)[i]
    decreases u
  {
    if t < u {
      SweptElsewhere(hs, s, local, i, t, u - 1);
      SweptSound(hs, s, local, u - 1);
      TouchesItself(Swept(hs, s, local, u - 1), s, u - 1, local, i);
    }
  }

  /** The turn of a host that is listed active makes it so exactly when nobody else is. */
  lemma ClaimTurn(hs: seq<Host>, s: seq<Host>, x: nat, local: set<EndPoint>)
    requires Sound(hs) && SameShape(hs, s) && x < |hs| && s[x].state == ACTIVE && s[x].endpoints != {}
    ensures Nominate(hs, s[x], local, false)[x].state == ACTIVE <==> NobodyBut(hs, x)
  {
    OwnNamesItself(hs, x, x);
    var own := Find(hs, s[x].endpoints);
    assert own == Some(x) by {
      if own.Some? { OwnNamesItself(hs, x, own.value); }
    }
    var high := Highest(hs, s[x], |hs|);
    assert SameGroup(hs[x], s[x]) && high.Some?;
    if hs[high.value].state == ACTIVE {
      assert high.value == x <==> NobodyBut(hs, x);
    }
  }

  /** What the second round of turns does: the local host may want to be active, unless it
      is so. */
  ghost predicate SteppedUp(hs: seq<Host>, r: seq<Host>, local: set<EndPoint>)
  {
    && SameShape(hs, r) && Sound(r)
    && forall i :: 0 <= i < |hs| ==>
         || r[i].state == hs[i].state
         || (Meets(local, hs[i].endpoints) && hs[i].state != ACTIVE && r[i].state == WANT)
  }

  /** What is held after `t` turns of the message. */
  ghost predicate FilledAt(m: Manager, s: seq<Host>, t: nat, r: seq<Host>)
  {
    if t <= |s| then r == Swept(m.held, s, m.local, t)
    else SteppedUp(Swept(m.held, s, m.local, |s|), r, m.local)
  }

  lemma {:induction false} FilledInTwo(trace: seq<seq<Host>>, m: Manager, s: seq<Host>, t: nat)
    requires IsFilling(trace, m.Message(s)) && trace[0] == m.held && t < |trace|
    requires Sound(m.held) && SameShape(m.held, s) && NamesOne(m.held, m.local)
    ensures FilledAt(m, s, t, trace[t])
  {
    if t > 0 {
      FilledInTwo(trace, m, s, t - 1);
      assert TurnAt(trace, m.Message(s), t - 1);
      FilledOn(m, s, t - 1, trace[t - 1], trace[t]);
    }
  }

  lemma FilledOn(m: Manager, s: seq<Host>, t: nat, before: seq<Host>, r: seq<Host>)
    requires Sound(m.held) && SameShape(m.held, s) && NamesOne(m.held, m.local) && t < m.Message(s).Turns()
    requires FilledAt(m, s, t, before) && r == Turn(before, m.Message(s), t)
    ensures FilledAt(m, s, t + 1, r)
  {
    if t < |s| {
      TurnNominates(before, m.Message(s), t);
    } else {
      SweptSound(m.held, s, m.local, |s|);
      StepsKeep(Swept(m.held, s, m.local, |s|), before, m, s, t);
    }
  }

  lemma StepsKeep(hs: seq<Host>, before: seq<Host>, m: Manager, s: seq<Host>, t: nat)
    requires SteppedUp(hs, before, m.local) && NamesOne(hs, m.local) && |s| <= t < m.Message(s).Turns()
    ensures SteppedUp(hs, Turn(before, m.Message(s), t), m.local)
  {
    var h := View(before, Copies(s)[t - |s|]);
    TurnTakesOver(before, m.Message(s), t);
    assert NamesOne(before, m.local);
    TakeOverSafe(before, h, m.local, m.configured(h));
    forall i | 0 <= i < |hs| && hs[i].state == ACTIVE ensures Turn(before, m.Message(s), t)[i].state == ACTIVE {
      assert !Deposed(before, Turn(before, m.Message(s), t), i);
    }
  }

  lemma Received(m: Manager, s: seq<Host>, r: seq<Host>)
    requires m.Receives(s, r) && Sound(m.held) && SameShape(m.held, s) && NamesOne(m.held, m.local)
    ensures SteppedUp(Swept(m.held, s, m.local, |s|), r, m.local)
  {
    var trace :| IsFilling(trace, m.Message(s)) && trace[0] == m.held && trace[m.Message(s).Turns()] == r;
    SweptSound(m.held, s, m.local, |s|);
    FilledInTwo(trace, m, s, m.Message(s).Turns());
  }

  /** A host that is listed active is so after the message exactly when nobody else of its
      group is at its turn. */
  lemma ReceivedExact(m: Manager, s: seq<Host>, r: seq<Host>, x: nat)
    requires m.Receives(s, r) && Sound(m.held) && SameShape(m.held, s) && NamesOne(m.held, m.local)
    requires x < |s| && s[x].state == ACTIVE && s[x].endpoints != {}
    ensures |r| == |s| && (r[x].state == ACTIVE <==> NobodyBut(Swept(m.held, s, m.local, x), x))
  {
    Received(m, s, r);
    SweptExact(m.held, s, m.local, x);
  }

  lemma SweptExact(hs: seq<Host>, s: seq<Host>, local: set<EndPoint>, x: nat)
    requires Sound(hs) && SameShape(hs, s) && x < |s| && s[x].state == ACTIVE && s[x].endpoints != {}
    ensures Swept(hs, s, local, |s|)[x].state == ACTIVE <==> NobodyBut(Swept(hs, s, local, x), x)
  {
    var before := Swept(hs, s, local, x);
    SweptSound(hs, s, local, x);
    ClaimTurn(before, s, x, local);
    SweptElsewhere(hs, s, local, x, x + 1, |s|);
    assert Swept(hs, s, local, x + 1) == Nominate(before, s[x], local, false);
  }

  // ----- the first host of a group

  /** Host `x` is the first of its group, in the list and by priority. */
  ghost predicate Leads(hs: seq<Host>, x: nat)
  {
    && x < |hs| && hs[x].endpoints != {}
    && forall i :: 0 <= i < |hs| && i != x && SameGroup(hs[i], hs[x]) ==> x < i && hs[x].priority < hs[i].priority
  }

  lemma {:induction false} LeadFirst(hs: seq<Host>, s: seq<Host>, local: set<EndPoint>, x: nat)
    requires Sound(hs) && SameShape(hs, s) && Leads(hs, x)
    ensures NobodyBut(Swept(hs, s, local, x), x) <==> NobodyBut(hs, x)
  {
    var r := Swept(hs, s, local, x);
    forall i | x < i < |hs| ensures r[i] == hs[i] {
      SweptElsewhere(hs, s, local, i, 0, x);
    }
  }

  /** The first host of a group, listed up, is up after the message. */
  lemma LeadStaysUp(m: Manager, s: seq<Host>, r: seq<Host>, x: nat)
    requires m.Receives(s, r) && Sound(m.held) && SameShape(m.held, s) && NamesOne(m.held, m.local)
    requires Leads(m.held, x) && s[x].state >= STANDBY
    ensures |r| == |s| && r[x].state >= STANDBY
  {
    Received(m, s, r);
    SweptUp(m.held, s, m.local, x);
  }

  lemma SweptUp(hs: seq<Host>, s: seq<Host>, local: set<EndPoint>, x: nat)
    requires Sound(hs) && SameShape(hs, s) && Leads(hs, x) && s[x].state >= STANDBY
    ensures Swept(hs, s, local, |s|)[x].state >= STANDBY
  {
    var before := Swept(hs, s, local, x);
    SweptSound(hs, s, local, x);
    LeadTurn(before, s, x, local);
    SweptElsewhere(hs, s, local, x, x + 1, |s|);
    assert Swept(hs, s, local, x + 1) == Nominate(before, s[x], local, false);
  }

  lemma LeadTurn(hs: seq<Host>, s: seq<Host>, x: nat, local: set<EndPoint>)
    requires Sound(hs) && SameShape(hs, s) && Leads(hs, x) && s[x].state >= STANDBY
    ensures Nominate(hs, s[x], local, false)[x].state >= STANDBY
  {
    OwnNamesItself(hs, x, x);
    var own := Find(hs, s[x].endpoints);
    assert own == Some(x) by {
      if own.Some? { OwnNamesItself(hs, x, own.value); }
    }
    var high := Highest(hs, s[x], |hs|);
    assert SameGroup(hs[x], s[x]) && high.Some?;
    assert high.value != x ==> hs[x].priority < hs[high.value].priority;
  }

  // ----- the chain

  ghost predicate HopAt(chain: seq<Manager>, after: seq<seq<Host>>, j: nat)
    requires 0 < j < |chain| && |after| == |chain|
  {
    chain[j].Receives(after[j - 1], after[j])
  }

  /** The first manager takes in a message of its own, every other one what the one before
      it holds then, and `last` is what the first one holds when it came around. */
  ghost predicate GoesAround(chain: seq<Manager>, after: seq<seq<Host>>, last: seq<Host>)
  {
    && |after| == |chain| > 0
    && OwnRound(chain[0].held, chain[0].local, chain[0].configured, after[0])
    && (forall j :: 0 < j < |chain| ==> HopAt(chain, after, j))
    && chain[0].(held := after[0]).Receives(after[|after| - 1], last)
  }

  ghost predicate AllAgreeOn(hs: seq<Host>, chain: seq<Manager>)
  {
    forall j :: 0 <= j < |chain| ==> AgreesOn(hs, chain[j])
  }

  lemma {:induction false} AroundShape(hs: seq<Host>, chain: seq<Manager>, after: seq<seq<Host>>,
                                       last: seq<Host>, j: nat)
    requires GoesAround(chain, after, last) && AllAgreeOn(hs, chain) && j < |chain|
    ensures SameShape(hs, after[j]) && Sound(after[j]) && NamesOne(after[0], chain[0].local)
  {
    var first := chain[0];
    assert AgreesOn(hs, first);
    if j == 0 {
      var msg := OwnMessage(|first.held|, first.local, first.configured);
      var trace :| IsFilling(trace, msg) && trace[0] == first.held && trace[msg.Turns()] == after[0];
      OwnRoundDeposesNobody(trace, msg, msg.Turns());
    } else {
      AroundShape(hs, chain, after, last, j - 1);
      assert HopAt(chain, after, j) && AgreesOn(hs, chain[j]);
      Received(chain[j], after[j - 1], after[j]);
    }
  }

  /** Every manager holds `y` active when the token has come around. */
  ghost predicate AllHold(after: seq<seq<Host>>, last: seq<Host>, y: nat)
  {
    && y < |last| && last[y].state == ACTIVE
    && forall j :: 0 < j < |after| ==> y < |after[j]| && after[j][y].state == ACTIVE
  }

  ghost predicate PassesAt(chain: seq<Manager>, after: seq<seq<Host>>, x: nat, j: nat)
    requires 0 < j < |chain| && |after| == |chain|
  {
    && x < |after[j - 1]| && x < |chain[j].held|
    && NobodyBut(Swept(chain[j].held, after[j - 1], chain[j].local, x), x)
  }

  /** Whoever sends the token holds to its active host as long as that comes back up. */
  lemma SenderKeeps(hs: seq<Host>, chain: seq<Manager>, after: seq<seq<Host>>, last: seq<Host>, x: nat)
    requires GoesAround(chain, after, last) && AllAgreeOn(hs, chain)
    requires x < |hs| == |after[0]| == |after[|after| - 1]|
    requires after[0][x].state == ACTIVE && after[|after| - 1][x].state >= STANDBY
    ensures SameShape(hs, last) && Sound(last) && last[x].state == ACTIVE
  {
    var first, s := chain[0].(held := after[0]), after[|after| - 1];
    AroundShape(hs, chain, after, last, 0);
    AroundShape(hs, chain, after, last, |after| - 1);
    Received(first, s, last);
    CopiesAgree(after[0], s);
    FilledSafe(after[0], first.Message(s), last);
    if Deposed(after[0], last, x) {
      var k :| 0 <= k < |s| && s[k].state < STANDBY && Meets(s[k].endpoints, after[0][x].endpoints);
      OwnNamesItself(after[0], k, x);
    }
  }

  /** The host that is active for the sender of a token is so for all when it has come
      around, exactly when at its turn, with each of the others, nobody else of its group
      was active. */
  lemma AroundExact(hs: seq<Host>, chain: seq<Manager>, after: seq<seq<Host>>, last: seq<Host>, x: nat)
    requires GoesAround(chain, after, last) && AllAgreeOn(hs, chain)
    requires x < |hs| && hs[x].endpoints != {} && |after[0]| == |hs| && after[0][x].state == ACTIVE
    ensures forall j :: 0 <= j < |chain| ==> SameShape(hs, after[j])
    ensures AllHold(after, last, x) <==> forall j :: 0 < j < |chain| ==> PassesAt(chain, after, x, j)
  {
    forall j | 0 <= j < |chain| ensures SameShape(hs, after[j]) { AroundShape(hs, chain, after, last, j); }
    forall j | 0 < j < |chain| && after[j - 1][x].state == ACTIVE
      ensures after[j][x].state == ACTIVE <==> PassesAt(chain, after, x, j)
    {
      assert HopAt(chain, after, j) && AgreesOn(hs, chain[j]);
      ReceivedExact(chain[j], after[j - 1], after[j], x);
    }
    if forall j :: 0 < j < |chain| ==> PassesAt(chain, after, x, j) {
      PassedOn(chain, after, x, |chain|);
      SenderKeeps(hs, chain, after, last, x);
    }
  }

  lemma {:induction false} PassedOn(chain: seq<Manager>, after: seq<seq<Host>>, x: nat, n: nat)
    requires 0 < n <= |chain| == |after| && forall j :: 0 <= j < n ==> x < |after[j]|
    requires after[0][x].state == ACTIVE
    requires forall j :: 0 < j < n ==> PassesAt(chain, after, x, j)
    requires forall j :: 0 < j < n && after[j - 1][x].state == ACTIVE ==>
      (after[j][x].state == ACTIVE <==> PassesAt(chain, after, x, j))
    ensures forall j :: 0 <= j < n ==> after[j][x].state == ACTIVE
  {
    if n > 1 {
      PassedOn(chain, after, x, n - 1);
      assert after[n - 2][x].state == ACTIVE && PassesAt(chain, after, x, n - 1);
    }
  }

  lemma {:induction false} LeadUpAround(hs: seq<Host>, chain: seq<Manager>, after: seq<seq<Host>>,
                                        last: seq<Host>, x: nat, j: nat)
    requires GoesAround(chain, after, last) && AllAgreeOn(hs, chain) && j < |chain|
    requires Leads(hs, x) && |after[0]| == |hs| && after[0][x].state == ACTIVE
    ensures |after[j]| == |hs| && after[j][x].state >= STANDBY
  {
    if j > 0 {
      LeadUpAround(hs, chain, after, last, x, j - 1);
      AroundShape(hs, chain, after, last, j - 1);
      assert HopAt(chain, after, j) && AgreesOn(hs, chain[j]);
      LeadStaysUp(chain[j], after[j - 1], after[j], x);
    }
  }

  lemma LeadExact(hs: seq<Host>, chain: seq<Manager>, after: seq<seq<Host>>, last: seq<Host>, x: nat)
    requires GoesAround(chain, after, last) && AllAgreeOn(hs, chain)
    requires Leads(hs, x) && |after[0]| == |hs| && after[0][x].state == ACTIVE
    ensures AllHold(after, last, x) <==> forall j :: 0 < j < |chain| ==> NobodyBut(chain[j].held, x)
  {
    AroundExact(hs, chain, after, last, x);
    forall j | 0 < j < |chain| ensures PassesAt(chain, after, x, j) <==> NobodyBut(chain[j].held, x) {
      LeadPasses(hs, chain, after, x, j);
    }
  }

  lemma LeadOnly(hs: seq<Host>, chain: seq<Manager>, after: seq<seq<Host>>, last: seq<Host>, x: nat, y: nat)
    requires GoesAround(chain, after, last) && AllAgreeOn(hs, chain)
    requires Leads(hs, x) && |after[0]| == |hs| && after[0][x].state == ACTIVE
    requires y < |hs| && SameGroup(hs[y], hs[x]) && AllHold(after, last, y)
    ensures y == x
  {
    LeadUpAround(hs, chain, after, last, x, |after| - 1);
    SenderKeeps(hs, chain, after, last, x);
    OneOfGroup(hs, last, x, y);
  }

  /** When the first host of a group is active for the sender of a token: all managers hold
      the same active host of the group when it has come around, exactly when each of the
      others held nobody else active when it got the token, and then it is that host. */
  lemma LeadAround(hs: seq<Host>, chain: seq<Manager>, after: seq<seq<Host>>, last: seq<Host>, x: nat)
    requires GoesAround(chain, after, last) && AllAgreeOn(hs, chain)
    requires Leads(hs, x) && |after[0]| == |hs| && after[0][x].state == ACTIVE
    ensures (exists y :: 0 <= y < |hs| && SameGroup(hs[y], hs[x]) && AllHold(after, last, y))
      <==> forall j :: 0 < j < |chain| ==> NobodyBut(chain[j].held, x)
    ensures forall y :: 0 <= y < |hs| && SameGroup(hs[y], hs[x]) && AllHold(after, last, y) ==> y == x
  {
    LeadExact(hs, chain, after, last, x);
    forall y | 0 <= y < |hs| && SameGroup(hs[y], hs[x]) && AllHold(after, last, y) ensures y == x {
      LeadOnly(hs, chain, after, last, x, y);
    }
  }

  lemma LeadPasses(hs: seq<Host>, chain: seq<Manager>, after: seq<seq<Host>>, x: nat, j: nat)
    requires AllAgreeOn(hs, chain) && Leads(hs, x) && 0 < j < |chain| == |after| && SameShape(hs, after[j - 1])
    ensures PassesAt(chain, after, x, j) <==> NobodyBut(chain[j].held, x)
  {
    assert AgreesOn(hs, chain[j]);
    LeadFirst(chain[j].held, after[j - 1], chain[j].local, x);
  }

  lemma OneOfGroup(hs: seq<Host>, r: seq<Host>, x: nat, y: nat)
    requires SameShape(hs, r) && OneActive(r) && x < |hs| && y < |hs| && SameGroup(hs[y], hs[x])
    requires r[x].state == ACTIVE && r[y].state == ACTIVE
    ensures x == y
  {
    assert SameGroup(r[y], r[x]) && SameGroup(r[x], r[y]);
  }

  // ----- a host that is not the first

  /** Every message is taken in somehow. */
  lemma {:induction false} Fills(hs: seq<Host>, msg: Message, n: nat) returns (trace: seq<seq<Host>>)
    requires n <= msg.Turns()
    ensures FilledSoFar(trace, msg, n) && trace[0] == hs
  {
    if n == 0 {
      trace := [hs];
    } else {
      var before := Fills(hs, msg, n - 1);
      var next := Turn(before[n - 1], msg, n - 1);
      FilledMore(before, msg, n - 1, next);
      trace := before + [next];
    }
  }

  lemma Taken(hs: seq<Host>, msg: Message) returns (r: seq<Host>)
    ensures FillsTo(hs, msg, r)
  {
    var trace := Fills(hs, msg, msg.Turns());
    r := trace[msg.Turns()];
  }

  /** Two hosts of one group, in these states. */
  function Pair(first: State, second: State): (hs: seq<Host>)
  {
    [Host(1, 0, 0, {1}, 1, first), Host(1, 0, 0, {2}, 2, second)]
  }

  lemma PairSound(first: State, second: State)
    requires first < ACTIVE || second < ACTIVE
    ensures Sound(Pair(first, second)) && NamesOne(Pair(first, second), {})
  {
    assert {1} * {2} == {};
  }

  const NOWHERE: Host -> set<EndPoint> := m => {}

  function Bystander(first: State, second: State): Manager { Manager(Pair(first, second), {}, NOWHERE) }

  lemma FirstTurn(first: State)
    requires STANDBY <= first < ACTIVE
    ensures Nominate(Pair(OFF, OFF), Pair(first, ACTIVE)[0], {}, false) == Pair(first + 1, OFF)
  {
    var hs, m := Pair(OFF, OFF), Pair(first, ACTIVE)[0];
    assert {1} * {2} == {} && 1 in {1} * {1};
    assert Find(hs, m.endpoints) == Some(0);
    assert SameGroup(hs[0], m) && Highest(hs, m, 2) == Some(0);
    assert Decide(hs, m, {}, false) == Some(first + 1);
  }

  lemma SecondTurn(first: State, up: State)
    requires first >= STANDBY
    ensures Nominate(Pair(up, OFF), Pair(first, ACTIVE)[1], {}, false)
         == Pair(up, if up == ACTIVE then STANDBY else ACTIVE)
  {
    var hs, m := Pair(up, OFF), Pair(first, ACTIVE)[1];
    assert {2} * {1} == {} && 2 in {2} * {2};
    assert Find(hs, m.endpoints) == Some(1);
    var high := Highest(hs, m, 2);
    assert SameGroup(hs[0], m) && SameGroup(hs[1], m) && high.Some?;
    assert up == ACTIVE ==> high == Some(0);
    assert Decide(hs, m, {}, false) == Some(if up == ACTIVE then STANDBY else ACTIVE);
  }

  /** A manager that knows of nobody active takes the first of two hosts a state up, and
      once that makes it active does not take over the second as active. */
  lemma Overtakes(first: State, r: seq<Host>)
    requires STANDBY <= first < ACTIVE && Bystander(OFF, OFF).Receives(Pair(first, ACTIVE), r)
    ensures r == Pair(first + 1, if first == NOMINATED then STANDBY else ACTIVE)
  {
    var m, s := Bystander(OFF, OFF), Pair(first, ACTIVE);
    PairSound(OFF, OFF);
    Received(m, s, r);
    PairSwept(first);
    assert forall i :: 0 <= i < 2 ==> r[i] == Swept(m.held, s, {}, 2)[i];
  }

  lemma PairSwept(first: State)
    requires STANDBY <= first < ACTIVE
    ensures Swept(Pair(OFF, OFF), Pair(first, ACTIVE), {}, 2)
         == Pair(first + 1, if first == NOMINATED then STANDBY else ACTIVE)
  {
    var hs, s := Pair(OFF, OFF), Pair(first, ACTIVE);
    FirstTurn(first);
    SecondTurn(first, first + 1);
    assert Swept(hs, s, {}, 1) == Nominate(Swept(hs, s, {}, 0), s[0], {}, false);
    assert Swept(hs, s, {}, 2) == Nominate(Swept(hs, s, {}, 1), s[1], {}, false);
  }

  /** A manager's own message changes nothing while the second of two is active and the
      first on standby. */
  lemma SecondStays(r: seq<Host>)
    requires OwnRound(Pair(STANDBY, ACTIVE), {}, NOWHERE, r)
    ensures r == Pair(STANDBY, ACTIVE)
  {
    var hs := Pair(STANDBY, ACTIVE);
    var msg := OwnMessage(2, {}, NOWHERE);
    var trace :| IsFilling(trace, msg) && trace[0] == hs && trace[msg.Turns()] == r;
    assert TurnAt(trace, msg, 0) && TurnAt(trace, msg, 1) && TurnAt(trace, msg, 2) && TurnAt(trace, msg, 3);
    SecondStaysAt(0); SecondStaysAt(1); SecondStaysAt(2); SecondStaysAt(3);
  }

  lemma SecondStaysAt(t: nat)
    requires t < 4
    ensures Turn(Pair(STANDBY, ACTIVE), OwnMessage(2, {}, NOWHERE), t) == Pair(STANDBY, ACTIVE)
  {
    var hs, msg := Pair(STANDBY, ACTIVE), OwnMessage(2, {}, NOWHERE);
    if t < 2 {
      TurnNominates(hs, msg, t);
      PairFound(t);
      var high := Highest(hs, hs[t], 2);
      assert SameGroup(hs[1], hs[t]) && high.Some? && hs[high.value].state == ACTIVE;
    } else {
      TurnTakesOver(hs, msg, t);
    }
  }

  lemma PairFound(t: nat)
    requires t < 2
    ensures var hs := Pair(STANDBY, ACTIVE); Find(hs, hs[t].endpoints) == Some(t)
  {
    assert {1} * {2} == {} && {2} * {1} == {} && 1 in {1} * {1} && 2 in {2} * {2};
  }

  /** With the second host of a group active for the sender of a token, and nobody for three
      others, the last of them comes to hold the first host active, though the managers
      agree on who they are. */
  lemma FourthDisagrees() returns (chain: seq<Manager>, after: seq<seq<Host>>, last: seq<Host>)
    ensures |chain| == 4 && GoesAround(chain, after, last) && AllAgreeOn(Pair(OFF, OFF), chain)
    ensures forall j :: 0 < j < 4 ==> chain[j].held == Pair(OFF, OFF)
    ensures after == [Pair(STANDBY, ACTIVE), Pair(WANT, ACTIVE), Pair(NOMINATED, ACTIVE), Pair(ACTIVE, STANDBY)]
    ensures |last| == 2 && last[1].state == ACTIVE
  {
    var sender, other := Bystander(STANDBY, ACTIVE), Bystander(OFF, OFF);
    chain := [sender, other, other, other];
    PairSound(STANDBY, ACTIVE);
    PairSound(OFF, OFF);
    assert AgreesOn(Pair(OFF, OFF), sender) && AgreesOn(Pair(OFF, OFF), other);
    var r0 := Taken(sender.held, OwnMessage(2, {}, NOWHERE));
    SecondStays(r0);
    var r1 := Taken(other.held, other.Message(r0));
    Overtakes(STANDBY, r1);
    var r2 := Taken(other.held, other.Message(r1));
    Overtakes(WANT, r2);
    var r3 := Taken(other.held, other.Message(r2));
    Overtakes(NOMINATED, r3);
    last := Taken(r0, sender.(held := r0).Message(r3));
    after := [r0, r1, r2, r3];
    forall j | 0 < j < 4 ensures HopAt(chain, after, j) {
    }
    SenderKeeps(Pair(OFF, OFF), chain, after, last, 1);
  }
}
