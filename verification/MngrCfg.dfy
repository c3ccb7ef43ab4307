/** What a configuration makes of the hosts, in their fields and its entries. */
module MngrCfg {
  import opened Common
  import opened MngrRoles
  import opened Sequences

  /** Entry `k` of group `g` is `e`. */
  ghost predicate EntryAt(gs: seq<Group>, g: int, k: int, e: set<EndPoint>)
  {
    0 <= g < |gs| && 0 <= k < |gs[g].hosts| && gs[g].hosts[k] == e
  }

  /** A host made of an entry. */
  ghost predicate MadeOf(gs: seq<Group>, h: Host)
  {
    exists g, k :: EntryAt(gs, g, k, h.endpoints)
      && h == Host(gs[g].role, gs[g].cidBegin, gs[g].cidEnd, h.endpoints, h.priority, NOTSET)
  }

  /** An entry that is the host's, or names it, says its priority by its place. */
  ghost predicate RankedBy(gs: seq<Group>, h: Host)
  {
    exists g, k, e :: EntryAt(gs, g, k, e) && (e * h.endpoints != {} || e == h.endpoints) && h.priority == k + 1
  }

  /** Of `hs` the priorities may be others, and what comes after them is made of entries. */
  ghost predicate Grown(hs: seq<Host>, gs: seq<Group>, r: seq<Host>)
  {
    && |hs| <= |r|
    && (forall i :: 0 <= i < |hs| ==> r[i] == hs[i].(priority := r[i].priority))
    && (forall i :: 0 <= i < |hs| ==> r[i].priority == hs[i].priority || RankedBy(gs, r[i]))
    && (forall i :: |hs| <= i < |r| ==> MadeOf(gs, r[i]) && RankedBy(gs, r[i]))
  }

  ghost predicate Named(r: seq<Host>, e: set<EndPoint>)
  {
    exists i :: 0 <= i < |r| && e * r[i].endpoints != {}
  }

  /** The first host that the entry names gets its place as priority, or else there is one
      host more. */
  lemma EntryLaw(r: seq<Host>, g: Group, k: nat)
    requires k < |g.hosts|
    ensures var t, e := ApplyHost(r, g, k + 1), g.hosts[k];
      && (forall i :: 0 <= i < |r| && e * r[i].endpoints != {} && (forall j :: 0 <= j < i ==> e * r[j].endpoints == {})
            ==> t == r[i := r[i].(priority := k + 1)])
      && (!Named(r, e) ==> t == r + [Host(g.role, g.cidBegin, g.cidEnd, e, k + 1, NOTSET)])
  {
    var at := Find(r, g.hosts[k]);
    assert at.Some? ==> Named(r, g.hosts[k]);
  }

  lemma EntryGrows(hs: seq<Host>, gs: seq<Group>, r: seq<Host>, n: nat, k: nat)
    requires n < |gs| && k < |gs[n].hosts| && Grown(hs, gs, r)
    ensures var t, e := ApplyHost(r, gs[n], k + 1), gs[n].hosts[k];
      && Grown(hs, gs, t) && Extends(r, t) && (e != {} ==> Named(t, e))
  {
    var t, e := ApplyHost(r, gs[n], k + 1), gs[n].hosts[k];
    assert EntryAt(gs, n, k, e);
    match Find(r, e)
    case Some(at) =>
      assert e * t[at].endpoints != {} && RankedBy(gs, t[at]);
    case None =>
      assert t[|r|] == Host(gs[n].role, gs[n].cidBegin, gs[n].cidEnd, e, k + 1, NOTSET);
      assert e * t[|r|].endpoints == e;
      assert MadeOf(gs, t[|r|]) && RankedBy(gs, t[|r|]);
  }

  /** No host goes, and endpoints stay. */
  ghost predicate Extends(r: seq<Host>, t: seq<Host>)
  {
    |r| <= |t| && forall i :: 0 <= i < |r| ==> t[i].endpoints == r[i].endpoints
  }

  lemma NamedStays(r: seq<Host>, t: seq<Host>, e: set<EndPoint>)
    requires Named(r, e) && Extends(r, t)
    ensures Named(t, e)
  {
    var i :| 0 <= i < |r| && e * r[i].endpoints != {};
    assert t[i].endpoints == r[i].endpoints;
  }

  /** The first `pr` entries of a group name hosts. */
  ghost predicate NamedTo(t: seq<Host>, g: Group, pr: nat)
    requires pr <= |g.hosts|
  {
    forall k :: 0 <= k < pr && g.hosts[k] != {} ==> Named(t, g.hosts[k])
  }

  lemma NamedToMore(r: seq<Host>, t: seq<Host>, g: Group, pr: nat)
    requires pr < |g.hosts| && NamedTo(r, g, pr) && Extends(r, t) && (g.hosts[pr] != {} ==> Named(t, g.hosts[pr]))
    ensures NamedTo(t, g, pr + 1)
  {
    forall k | 0 <= k < pr && g.hosts[k] != {} ensures Named(t, g.hosts[k]) {
      NamedStays(r, t, g.hosts[k]);
    }
  }

  lemma {:induction false} GroupGrows(hs: seq<Host>, gs: seq<Group>, r: seq<Host>, n: nat, pr: nat)
    requires n < |gs| && pr <= |gs[n].hosts| && Grown(hs, gs, r)
    ensures var t := ApplyGroup(r, gs[n], pr);
      Grown(hs, gs, t) && Extends(r, t) && NamedTo(t, gs[n], pr)
  {
    if pr > 0 {
      GroupGrows(hs, gs, r, n, pr - 1);
      var s := ApplyGroup(r, gs[n], pr - 1);
      EntryGrows(hs, gs, s, n, pr - 1);
      NamedToMore(s, ApplyHost(s, gs[n], pr), gs[n], pr - 1);
    }
  }

  lemma {:induction false} GroupsGrow(hs: seq<Host>, gs: seq<Group>, n: nat)
    requires n <= |gs|
    ensures var t := ApplyGroups(hs, gs[..n]);
      && Grown(hs, gs, t)
      && forall g, k, e :: EntryAt(gs[..n], g, k, e) && e != {} ==> Named(t, e)
  {
    if n > 0 {
      GroupsGrow(hs, gs, n - 1);
      assert gs[..n][..n - 1] == gs[..n - 1];
      var s, t := ApplyGroups(hs, gs[..n - 1]), ApplyGroups(hs, gs[..n]);
      GroupGrows(hs, gs, s, n - 1, |gs[n - 1].hosts|);
      forall g, k, e | EntryAt(gs[..n], g, k, e) && e != {} ensures Named(t, e) {
        if g < n - 1 {
          assert EntryAt(gs[..n - 1], g, k, e);
          NamedStays(s, t, e);
        }
      }
    }
  }

  /** Of the hosts just those stay that an entry names. */
  lemma {:induction false} KeptMeans(all: seq<Host>, gs: seq<Group>, n: nat, h: Host)
    requires n <= |all|
    ensures h in Kept(all, gs, n) <==> Configured(gs, h.endpoints) && exists i :: 0 <= i < n && all[i] == h
  {
    if n > 0 {
      KeptMeans(all, gs, n - 1, h);
      InAppended(Kept(all, gs, n - 1), if Configured(gs, all[n - 1].endpoints) then [all[n - 1]] else [], h);
    }
  }

  lemma ConfiguredMeans(gs: seq<Group>, f: set<EndPoint>)
    ensures Configured(gs, f) <==> exists g, k, e :: EntryAt(gs, g, k, e) && e * f != {}
  {
    if Configured(gs, f) {
      var g, k :| 0 <= g < |gs| && 0 <= k < |gs[g].hosts| && Meets(f, gs[g].hosts[k]);
      assert EntryAt(gs, g, k, gs[g].hosts[k]) && f * gs[g].hosts[k] == gs[g].hosts[k] * f;
    }
    if g, k, e :| EntryAt(gs, g, k, e) && e * f != {} {
      assert f * gs[g].hosts[k] == e * f && Meets(f, gs[g].hosts[k]);
    }
  }

  /** A configuration as a whole: every host afterwards is named by an entry, and is one that
      was there, but for its priority, or made of an entry; a priority that is another, or of
      a new host, is the place of an entry that names it. */
  lemma AppliedAre(hs: seq<Host>, gs: seq<Group>, i: nat)
    requires i < |Applied(hs, gs)|
    ensures var h := Applied(hs, gs)[i];
      && (exists g, k, e :: EntryAt(gs, g, k, e) && e * h.endpoints != {})
      && (MadeOf(gs, h) || exists j :: 0 <= j < |hs| && h == hs[j].(priority := h.priority))
      && (h in hs || exists g, k, e :: EntryAt(gs, g, k, e) && e * h.endpoints != {} && h.priority == k + 1)
  {
    var all := ApplyGroups(hs, gs);
    GroupsGrow(hs, gs, |gs|);
    assert gs[..|gs|] == gs;
    var h := Applied(hs, gs)[i];
    KeptMeans(all, gs, |all|, h);
    ConfiguredMeans(gs, h.endpoints);
    var j :| 0 <= j < |all| && all[j] == h;
    if RankedBy(gs, h) {
      var g, k, e :| EntryAt(gs, g, k, e) && (e * h.endpoints != {} || e == h.endpoints) && h.priority == k + 1;
      assert e == h.endpoints ==> e * h.endpoints == h.endpoints;
    }
  }

  /** And every host that an entry names is still there, and every entry names one. */
  lemma AppliedAll(hs: seq<Host>, gs: seq<Group>, g: int, k: int, e: set<EndPoint>)
    requires EntryAt(gs, g, k, e) && e != {}
    ensures Named(Applied(hs, gs), e)
    ensures forall j :: 0 <= j < |hs| && e * hs[j].endpoints != {} ==>
      exists h :: h in Applied(hs, gs) && h == hs[j].(priority := h.priority)
  {
    var all, r := ApplyGroups(hs, gs), Applied(hs, gs);
    GroupsGrow(hs, gs, |gs|);
    assert gs[..|gs|] == gs;
    forall i | 0 <= i < |all| && e * all[i].endpoints != {} ensures all[i] in r {
      KeptMeans(all, gs, |all|, all[i]);
      ConfiguredMeans(gs, all[i].endpoints);
    }
    var i :| 0 <= i < |all| && e * all[i].endpoints != {};
    assert all[i] in r;
    forall j | 0 <= j < |hs| && e * hs[j].endpoints != {}
      ensures exists h :: h in r && h == hs[j].(priority := h.priority)
    {
      assert all[j] in r;
    }
  }
}
