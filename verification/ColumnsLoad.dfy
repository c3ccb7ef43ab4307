/** Handing the schemas out to the managers of columns: each group's manager is told
    in batches which columns to expect, and counts what is still to come. */
module ColumnsLoads {
  import opened Sequences

  type Cid = nat

  const MAX_BATCH := 1000

  datatype Group = Group(columns: bool, begin: Cid, end: Cid)

  /** Zero is no bound. */
  predicate Contains(g: Group, cid: Cid)
  {
    (g.begin == 0 || g.begin <= cid) && (g.end == 0 || cid <= g.end)
  }

  /** A group's manager is to expect some more of `total` columns. */
  datatype Announcement = Announcement(group: Group, total: nat, columns: seq<Cid>)

  /** How many of `cids` from the first on are the group's. */
  function RunLength(g: Group, cids: seq<Cid>): (n: nat)
    ensures n <= |cids|
    ensures forall i :: 0 <= i < n ==> Contains(g, cids[i])
    ensures n < |cids| ==> !Contains(g, cids[n])
  {
    if cids == [] || !Contains(g, cids[0]) then 0 else 1 + RunLength(g, cids[1..])
  }

  /** What is announced for a group whose columns are `cids`. */
  function InBatches(g: Group, total: nat, cids: seq<Cid>): (log: seq<Announcement>)
    ensures log != []
  {
    if |cids| <= MAX_BATCH then [Announcement(g, total, cids)]
    else [Announcement(g, total, cids[..MAX_BATCH])] + InBatches(g, total, cids[MAX_BATCH..])
  }

  /** The groups in turn, each up to the first column that is not its own. */
  function Announced(groups: seq<Group>, cids: seq<Cid>): seq<Announcement>
  {
    if groups == [] then []
    else if !groups[0].columns then Announced(groups[1..], cids)
    else
      var n := RunLength(groups[0], cids);
      InBatches(groups[0], n, cids[..n]) + Announced(groups[1..], cids[n..])
  }

  // ----- the load loop

  /** How many columns of `cids` from `it` on are the group's. */
  method CountRun(g: Group, cids: seq<Cid>, it: nat) returns (total: nat)
    requires it <= |cids|
    ensures total == RunLength(g, cids[it..])
  {
    total := 0;
    var itc := it;
    while itc < |cids| && Contains(g, cids[itc])
      invariant it <= itc <= |cids| && total == itc - it
      invariant RunLength(g, cids[it..]) == total + RunLength(g, cids[itc..])
    {
      assert cids[itc..][1..] == cids[itc + 1..];
      total := total + 1;
      itc := itc + 1;
    }
  }

  method TakeBatch(g: Group, cids: seq<Cid>, it: nat) returns (columns: seq<Cid>)
    requires it <= |cids|
    ensures var n := RunLength(g, cids[it..]);
      columns == cids[it..][..if n < MAX_BATCH then n else MAX_BATCH]
  {
    columns := [];
    ghost var n := RunLength(g, cids[it..]);
    while it + |columns| < |cids| && |columns| < MAX_BATCH && Contains(g, cids[it + |columns|])
      invariant |columns| <= MAX_BATCH && |columns| <= n
      invariant columns == cids[it..][..|columns|]
    {
      assert cids[it..][|columns|] == cids[it + |columns|];
      columns := columns + [cids[it + |columns|]];
    }
    assert |columns| < n ==> Contains(g, cids[it..][|columns|]);
    assert |columns| == n && n < |cids[it..]| ==> !Contains(g, cids[it..][n]);
  }

  /** What is left to announce before a further turn of the batch loop. */
  function Rest(g: Group, total: nat, batches: nat, cids: seq<Cid>): seq<Announcement>
  {
    if batches > 0 && cids == [] then [] else InBatches(g, total, cids)
  }

  lemma RestStep(g: Group, total: nat, batches: nat, cids: seq<Cid>, k: nat)
    requires k == if |cids| < MAX_BATCH then |cids| else MAX_BATCH
    requires batches == 0 || k > 0
    ensures Rest(g, total, batches, cids)
         == [Announcement(g, total, cids[..k])] + Rest(g, total, batches + 1, cids[k..])
  {
    if |cids| <= MAX_BATCH {
      assert cids[..k] == cids;
    }
  }

  method LoadGroup(g: Group, cids: seq<Cid>, it: nat) returns (log: seq<Announcement>, next: nat)
    requires it <= |cids|
    ensures var n := RunLength(g, cids[it..]);
      next == it + n && log == InBatches(g, n, cids[it..][..n])
  {
    var total := CountRun(g, cids, it);
    next := it;
    log := [];
    ghost var run := cids[it..][..total];
    ghost var goal := InBatches(g, total, run);
    ghost var rest, left := run, goal;
    var batches := 0;
    while true
      invariant it <= next <= it + total && total == RunLength(g, cids[it..])
      invariant rest == run[next - it..] && left == Rest(g, total, batches, rest) && log + left == goal
      invariant next == it + total ==> batches > 0 || total == 0
      decreases it + total - next, if batches == 0 then 1 else 0
    {
      RunFrom(g, cids, it, next);
      var columns := TakeBatch(g, cids, next);
      SliceInside(cids, it, total, next, |columns|);
      batches := batches + 1;
      if batches > 1 && columns == [] {
        NoneLeft(log, left);
        next := next + |columns|;
        break;
      }
      RestStep(g, total, batches - 1, rest, |columns|);
      DropTwice(run, next - it, |columns|);
      rest := rest[|columns|..];
      OneLess(log, Announcement(g, total, columns), left, Rest(g, total, batches, rest), goal);
      log, left := log + [Announcement(g, total, columns)], Rest(g, total, batches, rest);
      next := next + |columns|;
      if !(next < |cids| && |columns| == MAX_BATCH) {
        assert rest == [];
        NoneLeft(log, left);
        break;
      }
    }
  }

  lemma OneLess<A>(done: seq<A>, x: A, left: seq<A>, more: seq<A>, goal: seq<A>)
    requires done + left == goal && left == [x] + more
    ensures (done + [x]) + more == goal
  {
  }

  lemma NoneLeft<A>(done: seq<A>, left: seq<A>)
    requires left == []
    ensures done + left == done
  {
  }

  lemma {:induction false} RunFrom(g: Group, cids: seq<Cid>, it: nat, next: nat)
    requires it <= |cids| && it <= next <= it + RunLength(g, cids[it..])
    ensures next <= |cids| && RunLength(g, cids[next..]) == RunLength(g, cids[it..]) - (next - it)
    decreases next - it
  {
    if it < next {
      assert cids[it..][1..] == cids[it + 1..];
      RunFrom(g, cids, it + 1, next);
    }
  }

  /** One round of handing out all schemas. */
  method ColumnsLoad(groups: seq<Group>, cids: seq<Cid>) returns (log: seq<Announcement>)
    ensures log == Announced(groups, cids)
  {
    log := [];
    var it := 0;
    for i := 0 to |groups|
      invariant it <= |cids|
      invariant log + Announced(groups[i..], cids[it..]) == Announced(groups, cids)
    {
      assert groups[i..][1..] == groups[i + 1..];
      if groups[i].columns {
        var more, next := LoadGroup(groups[i], cids, it);
        assert cids[it..][next - it..] == cids[next..];
        log, it := log + more, next;
      }
    }
  }

  // ----- what a round announces

  /** All columns that are announced, in order. */
  function Columns(log: seq<Announcement>): seq<Cid>
  {
    if log == [] then [] else log[0].columns + Columns(log[1..])
  }

  lemma JoinedTail<A>(all: seq<A>, head: seq<A>, tail: seq<A>, left: seq<A>, right: seq<A>)
    requires all == head + tail && tail == left + right
    ensures all == (head + left) + right
  {
  }

  lemma {:induction false} ColumnsConcat(a: seq<Announcement>, b: seq<Announcement>)
    ensures Columns(a + b) == Columns(a) + Columns(b)
  {
    if a == [] {
      assert a + b == b;
    } else {
      TailOfConcat(a, b);
      ColumnsConcat(a[1..], b);
      JoinedTail(Columns(a + b), a[0].columns, Columns((a + b)[1..]), Columns(a[1..]), Columns(b));
    }
  }

  /** The batches for a group announce its columns in order, and each says how many
      there are in all; none is above the limit, and only the last below. */
  lemma {:induction false} BatchesAre(g: Group, total: nat, cids: seq<Cid>)
    ensures var log := InBatches(g, total, cids);
      && (forall i :: 0 <= i < |log| ==> log[i].group == g && log[i].total == total)
      && (forall i :: 0 <= i < |log| - 1 ==> |log[i].columns| == MAX_BATCH)
      && |log[|log| - 1].columns| <= MAX_BATCH
      && (cids != [] ==> log[|log| - 1].columns != [])
    ensures Columns(InBatches(g, total, cids)) == cids
    decreases |cids|
  {
    if |cids| > MAX_BATCH {
      BatchesAre(g, total, cids[MAX_BATCH..]);
      ColumnsOfMore(Announcement(g, total, cids[..MAX_BATCH]), InBatches(g, total, cids[MAX_BATCH..]));
      TakeAndDrop(cids, MAX_BATCH);
    } else {
      ColumnsOfMore(Announcement(g, total, cids), []);
    }
  }

  lemma ColumnsOfMore(a: Announcement, log: seq<Announcement>)
    ensures Columns([a] + log) == a.columns + Columns(log)
    ensures Columns([a]) == a.columns
  {
    TailOfConcat([a], log);
    assert [a][1..] == [] && ([a] + log)[1..] == [a][1..] + log;
  }

  predicate Increasing(cids: seq<Cid>)
  {
    forall i, j :: 0 <= i < j < |cids| ==> cids[i] < cids[j]
  }

  /** No column of `g` comes after one of `h`, or is one. */
  ghost predicate Before(g: Group, h: Group)
  {
    forall a, b | a > 0 && b > 0 && Contains(g, a) && Contains(h, b) :: a < b
  }

  ghost predicate InOrder(groups: seq<Group>)
  {
    forall i, j | 0 <= i < j < |groups| && groups[i].columns && groups[j].columns ::
      Before(groups[i], groups[j])
  }

  /** Some group of columns has it. */
  ghost predicate Covered(groups: seq<Group>, cid: Cid)
  {
    exists i :: 0 <= i < |groups| && groups[i].columns && Contains(groups[i], cid)
  }

  ghost predicate AllCovered(groups: seq<Group>, cids: seq<Cid>)
  {
    forall k :: 0 <= k < |cids| ==> Covered(groups, cids[k])
  }

  /** Every announcement is to a group of columns that has all of them. */
  lemma {:induction false} ToTheirGroup(groups: seq<Group>, cids: seq<Cid>, i: nat)
    requires i < |Announced(groups, cids)|
    ensures var a := Announced(groups, cids)[i];
      && a.group in groups && a.group.columns && |a.columns| <= MAX_BATCH
      && (forall cid :: cid in a.columns ==>
            cid in cids && a.group.begin <= cid && (a.group.end == 0 || cid <= a.group.end))
  {
    if !groups[0].columns {
      ToTheirGroup(groups[1..], cids, i);
    } else {
      var n := RunLength(groups[0], cids);
      var log := InBatches(groups[0], n, cids[..n]);
      if i < |log| {
        BatchesAre(groups[0], n, cids[..n]);
        ColumnsOf(log, i);
      } else {
        ToTheirGroup(groups[1..], cids[n..], i - |log|);
      }
    }
  }

  lemma {:induction false} ColumnsOf(log: seq<Announcement>, i: nat)
    requires i < |log|
    ensures forall cid :: cid in log[i].columns ==> cid in Columns(log)
  {
    if i > 0 { ColumnsOf(log[1..], i - 1); }
  }

  lemma AnnouncedStep(groups: seq<Group>, cids: seq<Cid>, n: nat)
    requires groups != [] && groups[0].columns && n == RunLength(groups[0], cids)
    ensures Columns(Announced(groups, cids)) == cids[..n] + Columns(Announced(groups[1..], cids[n..]))
  {
    BatchesAre(groups[0], n, cids[..n]);
    ColumnsConcat(InBatches(groups[0], n, cids[..n]), Announced(groups[1..], cids[n..]));
  }

  /** What is announced is announced once: it is a first part of the columns. */
  lemma {:induction false} AnnouncedPrefix(groups: seq<Group>, cids: seq<Cid>)
    ensures Columns(Announced(groups, cids)) <= cids
    ensures AllCovered(groups, Columns(Announced(groups, cids)))
  {
    if groups == [] {
    } else if !groups[0].columns {
      AnnouncedPrefix(groups[1..], cids);
      CoveredMore(groups, Columns(Announced(groups, cids)));
    } else {
      var n := RunLength(groups[0], cids);
      AnnouncedPrefix(groups[1..], cids[n..]);
      var rest := Columns(Announced(groups[1..], cids[n..]));
      AnnouncedStep(groups, cids, n);
      TakeAndDrop(cids, n);
      CoveredMore(groups, rest);
      assert AllCovered(groups, cids[..n]);
    }
  }

  lemma CoveredMore(groups: seq<Group>, cids: seq<Cid>)
    requires groups != [] && AllCovered(groups[1..], cids)
    ensures AllCovered(groups, cids)
  {
    forall k | 0 <= k < |cids| ensures Covered(groups, cids[k]) {
      var i :| 0 <= i < |groups[1..]| && groups[1..][i].columns && Contains(groups[1..][i], cids[k]);
      assert groups[i + 1] == groups[1..][i];
    }
  }

  /** With the groups in order, all columns are announced when, and only when, each
      has a group. */
  lemma {:induction false} AllAnnounced(groups: seq<Group>, cids: seq<Cid>)
    requires InOrder(groups) && Increasing(cids) && forall k :: 0 <= k < |cids| ==> cids[k] > 0
    ensures Columns(Announced(groups, cids)) == cids <==> AllCovered(groups, cids)
  {
    AnnouncedPrefix(groups, cids);
    if AllCovered(groups, cids) {
      CoveredAnnounced(groups, cids);
    }
  }

  /** The bounds of the groups of columns, of which only a last one can be open, go up. */
  ghost predicate BoundsAscend(groups: seq<Group>)
  {
    forall i, j | 0 <= i < j < |groups| && groups[i].columns && groups[j].columns ::
      0 < groups[i].end < groups[j].begin
  }

  /** With ascending bounds all columns are announced when, and only when, each is at or
      between the bounds of some group of columns. */
  lemma AllWithinBounds(groups: seq<Group>, cids: seq<Cid>)
    requires BoundsAscend(groups) && Increasing(cids) && forall k :: 0 <= k < |cids| ==> cids[k] > 0
    ensures Columns(Announced(groups, cids)) == cids <==>
      forall k :: 0 <= k < |cids| ==> WithinSome(groups, cids[k])
  {
    AllAnnounced(groups, cids);
    forall k | 0 <= k < |cids| ensures Covered(groups, cids[k]) <==> WithinSome(groups, cids[k]) {
    }
  }

  ghost predicate WithinSome(groups: seq<Group>, cid: Cid)
  {
    exists i :: 0 <= i < |groups| && groups[i].columns
      && groups[i].begin <= cid && (groups[i].end == 0 || cid <= groups[i].end)
  }

  lemma {:induction false} CoveredAnnounced(groups: seq<Group>, cids: seq<Cid>)
    requires InOrder(groups) && Increasing(cids) && forall k :: 0 <= k < |cids| ==> cids[k] > 0
    requires AllCovered(groups, cids)
    ensures Columns(Announced(groups, cids)) == cids
  {
    if groups == [] {
      NoneCovered(groups, cids);
    } else {
      var n := if groups[0].columns then RunLength(groups[0], cids) else 0;
      LaterInOrder(groups);
      RestCovered(groups, cids, n);
      CoveredAnnounced(groups[1..], cids[n..]);
      TakeAndDrop(cids, n);
      if groups[0].columns {
        AnnouncedStep(groups, cids, n);
      }
    }
  }

  lemma LaterInOrder(groups: seq<Group>)
    requires groups != [] && InOrder(groups)
    ensures InOrder(groups[1..])
  {
  }

  lemma NoneCovered(groups: seq<Group>, cids: seq<Cid>)
    requires groups == [] && AllCovered(groups, cids)
    ensures cids == []
  {
    assert |cids| > 0 ==> Covered(groups, cids[0]);
  }

  lemma Later(groups: seq<Group>, i: nat, j: nat, a: Cid, b: Cid)
    requires InOrder(groups) && i < |groups| && j < |groups|
    requires groups[i].columns && Contains(groups[i], a)
    requires groups[j].columns && Contains(groups[j], b) && a >= b > 0
    ensures i >= j
  {
  }

  /** What the first group does not take is all for the groups after it. */
  lemma RestCovered(groups: seq<Group>, cids: seq<Cid>, n: nat)
    requires groups != [] && InOrder(groups) && Increasing(cids) && AllCovered(groups, cids)
    requires forall k :: 0 <= k < |cids| ==> cids[k] > 0
    requires n == if groups[0].columns then RunLength(groups[0], cids) else 0
    ensures AllCovered(groups[1..], cids[n..])
  {
    forall k | n <= k < |cids| ensures Covered(groups[1..], cids[k]) {
      assert Covered(groups, cids[n]) && Covered(groups, cids[k]);
      var i :| 0 <= i < |groups| && groups[i].columns && Contains(groups[i], cids[k]);
      var j :| 0 <= j < |groups| && groups[j].columns && Contains(groups[j], cids[n]);
      Later(groups, i, j, cids[k], cids[n]);
      assert groups[1..][i - 1] == groups[i];
    }
    forall k | 0 <= k < |cids[n..]| ensures Covered(groups[1..], cids[n..][k]) {
      assert cids[n..][k] == cids[n + k];
    }
  }

  /** Each group of columns is told its own columns in one go of batches, that say
      how many they are. */
  lemma {:induction false} GroupIsTold(groups: seq<Group>, cids: seq<Cid>, i: nat)
    returns (part: seq<Cid>, before: seq<Announcement>, after: seq<Announcement>)
    requires i < |groups| && groups[i].columns
    ensures Announced(groups, cids) == before + InBatches(groups[i], |part|, part) + after
    ensures forall cid :: cid in part ==> Contains(groups[i], cid)
  {
    var n := if groups[0].columns then RunLength(groups[0], cids) else 0;
    if i == 0 {
      part, before, after := cids[..n], [], Announced(groups[1..], cids[n..]);
    } else {
      part, before, after := GroupIsTold(groups[1..], cids[n..], i - 1);
      if groups[0].columns {
        var first := InBatches(groups[0], n, cids[..n]);
        var told := InBatches(groups[i], |part|, part);
        Assoc(first, before + told, after);
        Assoc(first, before, told);
        before := first + before;
      } else {
        assert cids[0..] == cids;
      }
    }
  }
}
