/** What becomes of every host in a message, in states, priorities and endpoints. */
module MngrTurns {
  import opened Common
  import opened MngrRoles

  /** What hosts of one group have in common. */
  function GroupOf(h: Host): (nat, nat, nat) { (h.role, h.cidBegin, h.cidEnd) }

  /** The first host in the highest state of the group of `g`. */
  ghost predicate Peak(hs: seq<Host>, g: Host, h: int)
  {
    && 0 <= h < |hs| && GroupOf(hs[h]) == GroupOf(g)
    && (forall j :: 0 <= j < h && GroupOf(hs[j]) == GroupOf(g) ==> hs[j].state < hs[h].state)
    && (forall j :: h <= j < |hs| && GroupOf(hs[j]) == GroupOf(g) ==> hs[j].state <= hs[h].state)
  }

  /** The state of a host that is listed as `m`, next to the highest of its group. */
  ghost predicate FollowsPeak(m: Host, own: Host, high: Host, to: State)
  {
    && (high.state == ACTIVE && m.state != own.state && own.priority != high.priority ==> to == STANDBY)
    && (high.state == ACTIVE && (m.state == own.state || own.priority == high.priority) ==> to == own.state)
    && (high.state != ACTIVE && m.state == ACTIVE ==> to == ACTIVE)
    && (high.state != ACTIVE && m.state != ACTIVE && m.priority <= high.priority ==> to == m.state + 1)
    && (high.state != ACTIVE && STANDBY < m.state < ACTIVE && m.priority > high.priority ==> to == m.state - 1)
    && (high.state != ACTIVE && m.state == STANDBY && m.priority > high.priority ==> to == own.state)
  }

  /** Our own host in a message that starts here. */
  ghost predicate Revived(msg: Message, m: Host)
  {
    msg.first && m.endpoints * msg.local != {} && m.state < STANDBY
  }

  /** One turn of the first round, whatever came before: none but the host that is listed
      changes, and nothing but its state.  Listed below STANDBY it goes where it is listed,
      unless that says nothing or it is our own; otherwise the highest of its group decides. */
  lemma ListedTurn(trace: seq<seq<Host>>, msg: Message, t: nat, i: nat)
    requires IsFilling(trace, msg) && t < |msg.ls| && i < |trace[t]|
    requires Agrees(trace[t], View(trace[t], msg.ls[t]))
    ensures |trace[t + 1]| == |trace[t]|
    ensures var m, own, to := View(trace[t], msg.ls[t]), trace[t][i], trace[t + 1][i];
      && to == own.(state := to.state)
      && (m.endpoints * own.endpoints == {} ==> to == own)
      && (m.endpoints * own.endpoints != {} ==>
            && (Revived(msg, m) ==> to.state == STANDBY)
            && (!Revived(msg, m) && m.state < STANDBY ==> to.state == if m.state == NOTSET then own.state else m.state)
            && (m.state >= STANDBY ==>
                  && (exists h :: Peak(trace[t], m, h))
                  && forall h :: Peak(trace[t], m, h) ==> FollowsPeak(m, own, trace[t][h], to.state)))
  {
    assert TurnAt(trace, msg, t);
    TurnNominates(trace[t], msg, t);
    NominateLaw(trace[t], View(trace[t], msg.ls[t]), msg, i);
  }

  lemma NominateLaw(hs: seq<Host>, m: Host, msg: Message, i: nat)
    requires i < |hs| && Agrees(hs, m)
    ensures var own, to := hs[i], Nominate(hs, m, msg.local, msg.first)[i];
      && to == own.(state := to.state)
      && (m.endpoints * own.endpoints == {} ==> to == own)
      && (m.endpoints * own.endpoints != {} ==>
            && (Revived(msg, m) ==> to.state == STANDBY)
            && (!Revived(msg, m) && m.state < STANDBY ==> to.state == if m.state == NOTSET then own.state else m.state)
            && (m.state >= STANDBY ==>
                  && (exists h :: Peak(hs, m, h))
                  && forall h :: Peak(hs, m, h) ==> FollowsPeak(m, own, hs[h], to.state)))
  {
    if Meets(m.endpoints, hs[i].endpoints) {
      assert Find(hs, m.endpoints).value == i;
      if m.state >= STANDBY {
        PeakIsHighest(hs, m, i);
      }
    }
  }

  lemma PeakIsHighest(hs: seq<Host>, m: Host, i: nat)
    requires i < |hs| && GroupOf(hs[i]) == GroupOf(m)
    ensures Highest(hs, m, |hs|).Some? && Peak(hs, m, Highest(hs, m, |hs|).value)
    ensures forall h :: Peak(hs, m, h) ==> h == Highest(hs, m, |hs|).value
  {
    var high := Highest(hs, m, |hs|).value;
    forall h | Peak(hs, m, h) ensures h == high {
      assert hs[h].state <= hs[high].state && hs[high].state <= hs[h].state;
    }
  }

  /** The first host that the endpoints name. */
  ghost predicate FirstNamed(hs: seq<Host>, e: set<EndPoint>, l: int)
  {
    0 <= l < |hs| && e * hs[l].endpoints != {} && forall j :: 0 <= j < l ==> e * hs[j].endpoints == {}
  }

  /** When our own host is to step up for the group of `m`: all known of that group are off,
      the configuration has another host with one of our endpoints for it, and nobody of our
      own group wants to be active or is. */
  ghost predicate ToStepUp(hs: seq<Host>, m: Host, msg: Message)
  {
    && (forall j :: 0 <= j < |hs| && GroupOf(hs[j]) == GroupOf(m) ==> hs[j].state == OFF)
    && (exists e :: e in msg.configured(m) && e in msg.local && e !in m.endpoints)
    && (exists l :: FirstNamed(hs, msg.local, l) && QuietGroup(hs, l))
  }

  ghost predicate QuietGroup(hs: seq<Host>, l: int)
    requires 0 <= l < |hs|
  {
    forall j :: 0 <= j < |hs| && GroupOf(hs[j]) == GroupOf(hs[l]) ==> hs[j].state < WANT
  }

  /** One turn of the second round: our own hosts want to be active exactly when they are to
      step up, and nothing else changes. */
  lemma StepUpTurn(trace: seq<seq<Host>>, msg: Message, t: nat, i: nat)
    requires IsFilling(trace, msg) && |msg.ls| <= t < msg.Turns() && i < |trace[t]|
    ensures |trace[t + 1]| == |trace[t]|
    ensures var m, own := View(trace[t], msg.ls[t - |msg.ls|]), trace[t][i];
      trace[t + 1][i] == if ToStepUp(trace[t], m, msg) && msg.local * own.endpoints != {}
                         then own.(state := WANT) else own
  {
    assert TurnAt(trace, msg, t);
    TurnTakesOver(trace[t], msg, t);
    var m := View(trace[t], msg.ls[t - |msg.ls|]);
    StepsUpLaw(trace[t], m, msg);
  }

  lemma StepsUpLaw(hs: seq<Host>, m: Host, msg: Message)
    ensures StepsUp(hs, m, msg.local, msg.configured(m)) <==> ToStepUp(hs, m, msg)
  {
    var c := msg.configured(m);
    assert c * msg.local - m.endpoints != {} <==> exists e :: e in c && e in msg.local && e !in m.endpoints by {
      if e :| e in c && e in msg.local && e !in m.endpoints { assert e in c * msg.local - m.endpoints; }
      if c * msg.local - m.endpoints != {} {
        var e :| e in c * msg.local - m.endpoints;
        assert e in c && e in msg.local && e !in m.endpoints;
      }
    }
    match Find(hs, msg.local)
    case None =>
    case Some(own) =>
      assert FirstNamed(hs, msg.local, own);
      PeakIsHighest(hs, hs[own], own);
      var high := Highest(hs, hs[own], |hs|).value;
      assert QuietGroup(hs, own) <==> hs[high].state < WANT;
      forall l | FirstNamed(hs, msg.local, l) ensures l == own {
      }
  }

  /** Only entry `k` of the message names host `i`. */
  ghost predicate OnlyListedAt(hs: seq<Host>, ls: seq<Listed>, k: nat, i: nat)
    requires i < |hs|
  {
    && k < |ls| && Meets(View(hs, ls[k]).endpoints, hs[i].endpoints)
    && forall j :: 0 <= j < |ls| && j != k ==> !Meets(View(hs, ls[j]).endpoints, hs[i].endpoints)
  }

  /** What is held of host `i` after `t` turns, when a copy lists it below STANDBY. */
  ghost predicate DownAt(hs: seq<Host>, msg: Message, k: nat, i: nat, t: nat, r: seq<Host>)
    requires i < |hs| && k < |msg.ls|
  {
    && SameShape(hs, r)
    && var to := View(hs, msg.ls[k]).state;
       if t <= k then r[i] == hs[i]
       else || r[i].state == (if to == NOTSET then hs[i].state else to)
            || (t > |msg.ls| && r[i].state == WANT && Meets(msg.local, hs[i].endpoints))
  }

  lemma {:induction false} DownSoFar(trace: seq<seq<Host>>, msg: Message, k: nat, i: nat, t: nat)
    requires IsFilling(trace, msg) && t < |trace| && AllAgree(trace[0], msg.ls)
    requires i < |trace[0]| && OnlyListedAt(trace[0], msg.ls, k, i) && msg.ls[k].Copy?
    requires msg.ls[k].host.state < STANDBY && !Revived(msg, msg.ls[k].host)
    ensures DownAt(trace[0], msg, k, i, t, trace[t])
  {
    if t > 0 {
      DownSoFar(trace, msg, k, i, t - 1);
      var before := trace[t - 1];
      assert TurnAt(trace, msg, t - 1);
      if t - 1 < |msg.ls| {
        AgreesKept(trace[0], before, msg.ls[t - 1]);
        ListedTurn(trace, msg, t - 1, i);
        assert View(before, msg.ls[t - 1]).endpoints == View(trace[0], msg.ls[t - 1]).endpoints;
      } else {
        StepUpTurn(trace, msg, t - 1, i);
      }
    }
  }

  /** A whole message leaves a host that one copy lists below STANDBY where it is listed, or
      as it was if it is listed NOTSET.  Only if it is our own it can want to be active
      afterwards. */
  lemma ListedDown(hs: seq<Host>, msg: Message, r: seq<Host>, k: nat, i: nat)
    requires FillsTo(hs, msg, r) && AllAgree(hs, msg.ls)
    requires i < |hs| && OnlyListedAt(hs, msg.ls, k, i) && msg.ls[k].Copy?
    requires msg.ls[k].host.state < STANDBY && !Revived(msg, msg.ls[k].host)
    ensures SameShape(hs, r)
    ensures var to := msg.ls[k].host.state;
      || r[i].state == (if to == NOTSET then hs[i].state else to)
      || (r[i].state == WANT && Meets(msg.local, hs[i].endpoints))
  {
    var trace :| IsFilling(trace, msg) && trace[0] == hs && trace[msg.Turns()] == r;
    DownSoFar(trace, msg, k, i, msg.Turns());
  }
}
