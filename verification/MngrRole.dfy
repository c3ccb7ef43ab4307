/** A manager's own record of all managers, changed in place by every event. */
module MngrRole {
  import opened Common
  import opened MngrRoles

  class MngrStatus {
    const role: nat
    const cidBegin: nat
    const cidEnd: nat
    const endpoints: set<EndPoint>
    var priority: nat
    var state: State
    var failures: nat

    constructor (role: nat, cidBegin: nat, cidEnd: nat, endpoints: set<EndPoint>, priority: nat)
      ensures Abs() == Host(role, cidBegin, cidEnd, endpoints, priority, NOTSET) && failures == 0
    {
      this.role, this.cidBegin, this.cidEnd, this.endpoints := role, cidBegin, cidEnd, endpoints;
      this.priority, state, failures := priority, NOTSET, 0;
    }

    function Abs(): Host
      reads this
    {
      Host(role, cidBegin, cidEnd, endpoints, priority, state)
    }
  }

  ghost predicate AllDifferent(hosts: seq<MngrStatus>)
  {
    forall i, j :: 0 <= i < j < |hosts| ==> hosts[i] != hosts[j]
  }

  /** A message lists copies, or our own hosts by the very objects that hold them. */
  ghost function ListedAs(m: MngrStatus, hosts: seq<MngrStatus>): (l: Listed)
    reads m
    ensures l.Own? ==> l.at < |hosts| && hosts[l.at] == m
    ensures l.Copy? ==> m !in hosts && l.host == m.Abs()
  {
    if i :| 0 <= i < |hosts| && hosts[i] == m then Own(i) else Copy(m.Abs())
  }

  ghost function ListedAll(ms: seq<MngrStatus>, hosts: seq<MngrStatus>): (ls: seq<Listed>)
    reads ms
    ensures |ls| == |ms| && forall k :: 0 <= k < |ms| ==> ls[k] == ListedAs(ms[k], hosts)
  {
    seq(|ms|, k requires 0 <= k < |ms| reads ms => ListedAs(ms[k], hosts))
  }

  class MngrRole {
    const localEndpoints: set<EndPoint>
    const localToken: nat
    var states: seq<MngrStatus>
    ghost var held: seq<Host> // what the objects of `states` hold
    var clientOf: map<EndPoint, EndPoint> // a server's address as clients know it
    var running: bool
    var majorUpdates: bool

    constructor (localEndpoints: set<EndPoint>, localToken: nat)
      ensures Valid() && held == [] && clientOf == map[] && running && !majorUpdates
      ensures this.localEndpoints == localEndpoints && this.localToken == localToken
    {
      this.localEndpoints, this.localToken := localEndpoints, localToken;
      states, held, clientOf, running, majorUpdates := [], [], map[], true, false;
    }

    ghost predicate Valid()
      reads this, states
    {
      && AllDifferent(states) && |held| == |states|
      && forall i :: 0 <= i < |states| ==> held[i] == states[i].Abs()
    }

    /** The local manager is one of those on record. */
    ghost predicate LocalKnown()
      reads this
    {
      exists i :: 0 <= i < |states| && Meets(localEndpoints, states[i].endpoints)
    }

    /** The local manager is on record, if the configuration names it for this. */
    ghost predicate LocalKnownFor(configured: set<EndPoint>)
      reads this
    {
      configured * localEndpoints != {} && states != [] ==> LocalKnown()
    }

    method UpdateState(e: set<EndPoint>, state: State)
      requires Valid()
      modifies this`held, states`state
      ensures Valid() && held == WithState(old(held), e, state)
    {
      var i := 0;
      ghost var all := WithState(held, e, state);
      while i < |states|
        invariant 0 <= i <= |states|
        invariant forall j :: 0 <= j < i ==> states[j].Abs() == all[j]
        invariant forall j :: i <= j < |states| ==> states[j].Abs() == held[j]
        modifies states`state
      {
        if Meets(e, states[i].endpoints) {
          states[i].state := state;
        }
        i := i + 1;
      }
      held := all;
    }

    method GetHost(e: set<EndPoint>) returns (host: MngrStatus?)
      requires Valid()
      ensures var at := Find(held, e);
        host == if at.Some? then states[at.value] else null
    {
      var i := 0;
      while i < |states|
        invariant 0 <= i <= |states|
        invariant Find(held, e) == Find(held, e, i)
      {
        if Meets(e, states[i].endpoints) {
          return states[i];
        }
        i := i + 1;
      }
      host := null;
    }

    method GetHighestStateHost(other: MngrStatus) returns (high: MngrStatus?)
      requires Valid()
      ensures var at := Highest(held, other.Abs(), |states|);
        high == if at.Some? then states[at.value] else null
    {
      high := null;
      var i := 0;
      while i < |states|
        invariant 0 <= i <= |states|
        invariant var at := Highest(held, other.Abs(), i);
          high == if at.Some? then states[at.value] else null
      {
        if SameGroup(states[i].Abs(), other.Abs()) && (high == null || high.state < states[i].state) {
          high := states[i];
        }
        i := i + 1;
      }
    }

    method IsGroupOff(other: MngrStatus) returns (offline: bool)
      requires Valid()
      ensures offline == GroupOff(held, other.Abs())
    {
      offline := true;
      var i := 0;
      while i < |states|
        invariant 0 <= i <= |states|
        invariant offline <==>
          forall j :: 0 <= j < i && SameGroup(states[j].Abs(), other.Abs()) ==> states[j].state == OFF
      {
        if SameGroup(states[i].Abs(), other.Abs()) && states[i].state != OFF {
          offline := false;
        }
        i := i + 1;
      }
    }

    /** The state that a listed host is to get, if any. */
    method DecideState(host: MngrStatus, token: nat) returns (to: Option<State>)
      requires Valid()
      ensures to == Decide(held, host.Abs(), localEndpoints, token == 0)
    {
      if Meets(host.endpoints, localEndpoints) && token == 0 && host.state < STANDBY {
        return Some(STANDBY);
      }
      var own := GetHost(host.endpoints);
      if own == null { return None; }
      if host.state < STANDBY {
        if host.state != own.state {
          return Some(if host.state != NOTSET then host.state else own.state);
        }
        return None;
      }
      var high := GetHighestStateHost(host);
      if high == null { return None; }
      if high.state == ACTIVE {
        if host.state != own.state && own.priority != high.priority { return Some(STANDBY); }
        return None;
      }
      if host.state == ACTIVE { return Some(ACTIVE); }
      if host.priority > high.priority {
        if host.state > STANDBY { return Some(host.state - 1); }
        return None;
      }
      return Some(host.state + 1);
    }

    /** Takes in one listed host. */
    method NominateHost(host: MngrStatus, token: nat)
      requires Valid()
      modifies this`held, states`state
      ensures Valid() && held == Nominate(old(held), old(host.Abs()), localEndpoints, token == 0)
    {
      var to := DecideState(host, token);
      if to.Some? {
        UpdateState(host.endpoints, to.value);
      }
    }

    /** Whether to step up for the group of a listed host. */
    method DecideToStepUp(host: MngrStatus, configured: set<EndPoint>) returns (yes: bool)
      requires Valid() && (GroupOff(held, host.Abs()) ==> LocalKnownFor(configured - host.endpoints))
      ensures yes == StepsUp(held, host.Abs(), localEndpoints, configured)
    {
      var off := IsGroupOff(host);
      if !off || configured * localEndpoints - host.endpoints == {} { return false; }
      var own := GetHost(localEndpoints);
      if own == null { return false; }
      var high := GetHighestStateHost(own);
      yes := high == null || high.state < WANT;
    }

    /** Steps up for the group of a listed host that has gone off. */
    method TakeOverFor(host: MngrStatus, configured: set<EndPoint>)
      requires Valid() && (GroupOff(held, host.Abs()) ==> LocalKnownFor(configured - host.endpoints))
      modifies this`held, states`state
      ensures Valid() && held == TakeOver(old(held), old(host.Abs()), localEndpoints, configured)
    {
      var yes := DecideToStepUp(host, configured);
      if yes {
        UpdateState(localEndpoints, WANT);
      }
    }

    /** `ls` says how `ms` lists hosts, ours or copies. */
    ghost predicate Lists(ms: seq<MngrStatus>, ls: seq<Listed>)
      reads this, ms
    {
      && |ls| == |ms|
      && (forall k :: 0 <= k < |ms| && ls[k].Own? ==> ls[k].at < |states| && ms[k] == states[ls[k].at])
      && (forall k :: 0 <= k < |ms| && ls[k].Copy? ==> ms[k] !in states && ms[k].Abs() == ls[k].host)
    }

    lemma ListsView(ms: seq<MngrStatus>, ls: seq<Listed>, k: nat)
      requires Valid() && Lists(ms, ls) && k < |ms|
      ensures ms[k].Abs() == View(held, ls[k])
    {
    }

    /** Turn `t` of a message: a listed host is taken in. */
    method TakeListed(ms: seq<MngrStatus>, t: nat, token: nat, ghost msg: Message)
      requires Valid() && Lists(ms, msg.ls) && t < |ms|
      requires msg.local == localEndpoints && msg.first == (token == 0)
      modifies this`held, states`state
      ensures Valid() && Lists(ms, msg.ls) && held == Turn(old(held), msg, t)
    {
      ListsView(ms, msg.ls, t);
      TurnNominates(held, msg, t);
      NominateHost(ms[t], token);
    }

    /** Turn `t` of a message: a listed host's group is looked after. */
    method LookAfterListed(ms: seq<MngrStatus>, t: nat, configured: Host -> set<EndPoint>, ghost msg: Message)
      requires Valid() && Lists(ms, msg.ls) && |ms| <= t < 2 * |ms|
      requires LocalKnownFor(configured(ms[t - |ms|].Abs()))
      requires msg.local == localEndpoints && msg.configured == configured
      modifies this`held, states`state
      ensures Valid() && Lists(ms, msg.ls) && held == Turn(old(held), msg, t)
    {
      var host := ms[t - |ms|];
      var m := host.Abs();
      ghost var after := Turn(held, msg, t);
      assert after == TakeOver(held, m, localEndpoints, configured(m)) by {
        ListsView(ms, msg.ls, t - |ms|);
        TurnTakesOver(held, msg, t);
      }
      LookAfter(ms, host, configured(m), msg.ls);
    }

    method LookAfter(ms: seq<MngrStatus>, host: MngrStatus, configured: set<EndPoint>, ghost ls: seq<Listed>)
      requires Valid() && Lists(ms, ls) && LocalKnownFor(configured)
      modifies this`held, states`state
      ensures Valid() && Lists(ms, ls)
      ensures held == TakeOver(old(held), old(host.Abs()), localEndpoints, configured)
    {
      TakeOverFor(host, configured);
    }

    /** Takes in a message about all managers: every listed host, and then every
        one again.  `configured` is what the configuration says of the endpoints
        that serve a host's group.  The result says whether the message goes on
        to the next manager in the chain. */
    method FillStates(ms: seq<MngrStatus>, token: nat, configured: Host -> set<EndPoint>)
      returns (forwarded: bool, ghost trace: seq<seq<Host>>)
      requires Valid() && forall m: Host :: LocalKnownFor(configured(m))
      modifies this`held, states`state
      ensures Valid() && FillsTo(old(held),
        Message(old(ListedAll(ms, states)), localEndpoints, token == 0, configured), held)
      ensures forwarded <==> token == 0 || token != localToken
    {
      ghost var msg := Message(ListedAll(ms, states), localEndpoints, token == 0, configured);
      trace := [held];
      var t := 0;
      while t < 2 * |ms|
        invariant 0 <= t <= msg.Turns() && Valid() && Lists(ms, msg.ls)
        invariant FilledSoFar(trace, msg, t) && trace[0] == old(held) && trace[t] == held
        modifies this`held, states`state
      {
        if t < |ms| {
          TakeListed(ms, t, token, msg);
        } else {
          LookAfterListed(ms, t, configured, msg);
        }
        FilledMore(trace, msg, t, held);
        trace, t := trace + [held], t + 1;
      }
      forwarded := token == 0 || token != localToken;
    }

    /** Takes note of the address by which a manager calls itself; `sync` says that others
        are to be told about columns. */
    method UpdateManagerAddr(server: EndPoint, named: EndPoint) returns (sync: bool)
      modifies this`clientOf, this`majorUpdates
      ensures clientOf == Noted(old(clientOf), server, named)
      ensures sync == old(majorUpdates) && !majorUpdates
    {
      if server !in clientOf {
        clientOf := clientOf[server := named];
      }
      sync, majorUpdates := majorUpdates, false;
    }

    method Disconnection(server: EndPoint)
      requires Valid()
      modifies this`clientOf, this`held, states`state
      ensures Valid()
      ensures if !running then held == old(held) && clientOf == old(clientOf) else
        && held == Disconnected(old(held), Reached(old(clientOf), server), server)
        && clientOf == old(clientOf) - {server}
    {
      if !running { return; }
      var reached := server;
      if server in clientOf {
        reached := clientOf[server];
        clientOf := clientOf - {server};
      }
      var host := GetHost({reached});
      if host == null { return; }
      if host.state != ACTIVE {
        UpdateState({server}, OFF);
      }
    }

    /** The outcome of connecting to manager `at`; `allowed` failures of an active
        one are put up with.  The next manager is tried when this one is given up. */
    method ManagerChecker(at: nat, connected: bool, allowed: nat) returns (next: bool)
      requires Valid() && at < |states|
      modifies this`held, this`majorUpdates, states[at]
      ensures Valid() && majorUpdates == (old(majorUpdates) || connected)
      ensures held == if connected then old(held)
        else Unreachable(old(held), at, old(states[at].failures) + 1 <= allowed)
      ensures states[at].failures == if connected then 0
        else old(states[at].failures) + if old(states[at].state) == ACTIVE then 1 else 0
      ensures next ==> states[at].state == OFF
      ensures !next ==> states[at].state == old(states[at].state)
      ensures next <==> !connected && !(old(states[at].state) == ACTIVE && old(states[at].failures) + 1 <= allowed)
    {
      var host := states[at];
      next := false;
      if !connected {
        if host.state == ACTIVE {
          host.failures := host.failures + 1;
          if host.failures <= allowed { return; }
        }
        host.state := OFF;
        held := held[at := host.Abs()];
        return true;
      }
      host.failures := 0;
      majorUpdates := true;
    }

    ghost predicate Within(all: set<MngrStatus>)
      reads this
    {
      forall i :: 0 <= i < |states| ==> states[i] in all
    }

    /** Configured host `pr - 1` of a group: the first one known by its endpoints gets its
        priority, and one that is not known is added. */
    method ApplyHostCfg(g: Group, pr: nat, ghost all: set<MngrStatus>) returns (ghost more: set<MngrStatus>)
      requires Valid() && Within(all) && 0 < pr <= |g.hosts|
      modifies this`states, this`held, all`priority
      ensures Valid() && held == ApplyHost(old(held), g, pr)
      ensures Within(more) && fresh(more - all)
    {
      var host := GetHost(g.hosts[pr - 1]);
      more := all;
      if host != null {
        host.priority := pr;
      } else {
        host := new MngrStatus(g.role, g.cidBegin, g.cidEnd, g.hosts[pr - 1], pr);
        states := states + [host];
        more := all + {host};
      }
      held := ApplyHost(held, g, pr);
    }

    /** Takes in the configured hosts of one group. */
    method ApplyGroupCfg(g: Group, ghost all: set<MngrStatus>) returns (ghost more: set<MngrStatus>)
      requires Valid() && Within(all)
      modifies this`states, this`held, all`priority
      ensures Valid() && held == ApplyGroup(old(held), g, |g.hosts|)
      ensures Within(more) && fresh(more - all)
    {
      more := all;
      var pr := 0;
      while pr < |g.hosts|
        invariant pr <= |g.hosts| && Valid() && held == ApplyGroup(old(held), g, pr)
        invariant Within(more) && fresh(more - all)
      {
        pr := pr + 1;
        more := ApplyHostCfg(g, pr, more);
      }
    }

    method EraseHost(at: nat)
      requires Valid() && at < |states|
      modifies this`states, this`held
      ensures Valid() && held == old(held)[..at] + old(held)[at + 1..]
    {
      states, held := states[..at] + states[at + 1..], held[..at] + held[at + 1..];
    }

    /** Drops the hosts that are not configured any more. */
    method DropUnconfigured(gs: seq<Group>)
      requires Valid()
      modifies this`states, this`held
      ensures Valid() && held == Kept(old(held), gs, |old(held)|)
    {
      ghost var all, n := held, 0;
      var at := 0;
      while at < |states|
        invariant Valid() && KeptTo(all, gs, n, held, at)
        decreases |states| - at
      {
        KeptNext(all, gs, n, held, at);
        if Configured(gs, states[at].endpoints) {
          at := at + 1;
        } else {
          EraseHost(at);
        }
        n := n + 1;
      }
      KeptAll(all, gs, n, held, at);
    }

    /** Takes in a new configuration. */
    method ApplyCfg(gs: seq<Group>)
      requires Valid()
      modifies this`states, this`held, states`priority
      ensures Valid() && held == Applied(old(held), gs)
    {
      ghost var all := set h | h in states;
      var n := 0;
      while n < |gs|
        invariant n <= |gs| && Valid() && held == ApplyGroups(old(held), gs[..n])
        invariant Within(all) && fresh(all - set h | h in old(states))
      {
        assert gs[..n + 1][..n] == gs[..n];
        all := ApplyGroupCfg(gs[n], all);
        n := n + 1;
      }
      assert gs[..n] == gs;
      DropUnconfigured(gs);
    }
  }
}
