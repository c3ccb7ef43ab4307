/** The rangers a manager knows: who has which id, and who is to get a range. */
module Rangers {
  import opened Arithmetic
  import opened Common
  import opened Sequences

  const NONE := 0x01
  const ACK := 0x04
  const MARKED_OFFLINE := 0x10
  const SHUTTINGDOWN := 0x20

  /** A flag of a state. */
  predicate Has(state: nat, flag: nat)
    requires flag > 0
  {
    state / flag % 2 == 1
  }

  /** The flag is the lowest digit of what is left above the lower ones. */
  lemma HasMeans(high: nat, low: nat, flag: nat)
    requires low < flag
    ensures Has((2 * high + 1) * flag + low, flag) && !Has(2 * high * flag + low, flag)
  {
    ModUnique(flag, 2 * high + 1, low);
    ModUnique(flag, 2 * high, low);
    Quotient(flag, 2 * high + 1, low);
    Quotient(flag, 2 * high, low);
  }

  lemma Quotient(d: nat, q: nat, r: nat)
    requires r < d
    ensures (q * d + r) / d == q
  {
    var x := q * d + r;
    DigitsUnique(x / d, x % d, q, r, d);
  }

  datatype Ranger = Ranger(rgrid: nat, endpoints: seq<EndPoint>, intermRanges: nat, failures: int,
                           loadScale: nat, state: nat)

  predicate HasEndpoint(a: seq<EndPoint>, b: seq<EndPoint>)
  {
    exists e :: e in a && e in b
  }

  predicate EqualEndpoints(a: seq<EndPoint>, b: seq<EndPoint>)
  {
    |a| == |b| && forall e :: e in b ==> e in a
  }

  lemma HasEndpointMeans(a: seq<EndPoint>, b: seq<EndPoint>)
    ensures !HasEndpoint(a, b) <==> (set e | e in a) !! (set e | e in b)
  {
    var s, t := set e | e in a, set e | e in b;
    assert forall e :: (e in s <==> e in a) && (e in t <==> e in b);
  }

  lemma {:induction false} CountOnce(s: seq<EndPoint>, e: EndPoint)
    requires Distinct(s)
    ensures multiset(s)[e] <= 1
  {
    if s != [] {
      var n := |s| - 1;
      CountOnce(s[..n], e);
      assert s == s[..n] + [s[n]];
      assert s[n] !in s[..n];
    }
  }

  lemma {:induction false} Unused(s: seq<EndPoint>) returns (x: EndPoint)
    ensures forall e :: e in s ==> e < x
  {
    if s == [] { return 0; }
    var n := |s| - 1;
    var y := Unused(s[..n]);
    assert s == s[..n] + [s[n]];
    x := if s[n] < y then y else s[n] + 1;
  }

  /** When the second list names none twice, the same endpoints are those in another order. */
  lemma EqualWhenDistinct(a: seq<EndPoint>, b: seq<EndPoint>)
    requires Distinct(b)
    ensures EqualEndpoints(a, b) <==> multiset(a) == multiset(b)
  {
    if EqualEndpoints(a, b) {
      forall e | e in b ensures multiset(b)[e] <= multiset(a)[e] {
        CountOnce(b, e);
        assert e in a && e in multiset(a);
      }
      assert multiset(b) <= multiset(a);
      assert |multiset(a) - multiset(b)| == 0;
    } else if multiset(a) == multiset(b) {
      assert |multiset(a)| == |a| && |multiset(b)| == |b|;
      forall e | e in b ensures e in a { assert e in multiset(b); }
    }
  }

  /** Against which endpoints just those in some order pass for the same: exactly when none
      of them is named twice. */
  lemma EqualEndpointsExact(b: seq<EndPoint>)
    ensures (forall a: seq<EndPoint> :: EqualEndpoints(a, b) <==> multiset(a) == multiset(b)) <==> Distinct(b)
  {
    if Distinct(b) {
      forall a: seq<EndPoint> ensures EqualEndpoints(a, b) <==> multiset(a) == multiset(b) { EqualWhenDistinct(a, b); }
    } else {
      var i, j :| 0 <= i < j < |b| && b[i] == b[j];
      OtherPasses(b, i, j);
    }
  }

  lemma OtherPasses(b: seq<EndPoint>, i: nat, j: nat)
    requires i < j < |b| && b[i] == b[j]
    ensures exists a: seq<EndPoint> :: EqualEndpoints(a, b) && multiset(a) != multiset(b)
  {
    var x := Unused(b);
    var a := b[j := x];
    forall e | e in b ensures e in a {
      var k :| 0 <= k < |b| && b[k] == e;
      assert e == a[if k == j then i else k];
    }
    assert a[j] in multiset(a) && (x in multiset(b) <==> x in b) && x !in b;
    assert EqualEndpoints(a, b) && multiset(a) != multiset(b);
  }

  // ----- ids

  ghost function Ids(rs: seq<Ranger>): set<nat>
  {
    set r | r in rs :: r.rgrid
  }

  ghost predicate DistinctIds(rs: seq<Ranger>)
  {
    && (forall i, j :: 0 <= i < j < |rs| ==> rs[i].rgrid != rs[j].rgrid)
    && (forall i :: 0 <= i < |rs| ==> rs[i].rgrid > 0)
  }

  ghost predicate HasId(rs: seq<Ranger>, id: nat)
  {
    exists i :: 0 <= i < |rs| && rs[i].rgrid == id
  }

  /** The wished id if there is a wish and it is free, else the least one free. */
  ghost predicate IsFreeId(rs: seq<Ranger>, wish: nat, id: nat)
  {
    && id > 0 && !HasId(rs, id)
    && (wish > 0 && !HasId(rs, wish) ==> id == wish)
    && (wish == 0 || HasId(rs, wish) ==> forall k :: 0 < k < id ==> HasId(rs, k))
  }

  lemma IdsUpTo(rs: seq<Ranger>, n: nat)
    requires forall k :: 0 < k <= n ==> HasId(rs, k)
    ensures n <= |rs|
  {
    IdsSize(rs);
    NumbersAre(n);
    forall k | k in Numbers(n) ensures k in Ids(rs) {
      assert HasId(rs, k);
      var i :| 0 <= i < |rs| && rs[i].rgrid == k;
    }
    SubsetSize(Numbers(n), Ids(rs));
  }

  lemma {:induction false} IdsSize(rs: seq<Ranger>)
    ensures |Ids(rs)| <= |rs|
  {
    if rs == [] {
      assert Ids(rs) == {};
    } else {
      var n := |rs| - 1;
      IdsSize(rs[..n]);
      assert Ids(rs) <= Ids(rs[..n]) + {rs[n].rgrid};
      SubsetSize(Ids(rs), Ids(rs[..n]) + {rs[n].rgrid});
    }
  }

  /** What `rgr_set` does to the list: the first ranger with one of the endpoints stays
      if it is acknowledged, with the endpoints given; otherwise it goes, and a new
      one is added. */
  ghost predicate IsSet(rs: seq<Ranger>, endpoints: seq<EndPoint>, wish: nat, out: seq<Ranger>, id: nat)
  {
    var k := FirstWith(rs, endpoints);
    if k < |rs| && Has(rs[k].state, ACK) then
      && id == rs[k].rgrid
      && out == if EqualEndpoints(endpoints, rs[k].endpoints) then rs else rs[k := rs[k].(endpoints := endpoints)]
    else
      var less := if k < |rs| then rs[..k] + rs[k + 1..] else rs;
      IsFreeId(less, wish, id) && out == less + [Ranger(id, endpoints, 0, 0, 0, NONE)]
  }

  function FirstWith(rs: seq<Ranger>, endpoints: seq<EndPoint>): (k: nat)
    ensures k <= |rs|
    ensures forall i :: 0 <= i < k ==> !HasEndpoint(rs[i].endpoints, endpoints)
    ensures k < |rs| ==> HasEndpoint(rs[k].endpoints, endpoints)
  {
    if rs == [] || HasEndpoint(rs[0].endpoints, endpoints) then 0
    else
      assert forall i :: 0 < i < |rs| ==> rs[i] == rs[1..][i - 1];
      1 + FirstWith(rs[1..], endpoints)
  }

  lemma FirstWithIs(rs: seq<Ranger>, endpoints: seq<EndPoint>, k: nat)
    requires k <= |rs| && (k < |rs| ==> HasEndpoint(rs[k].endpoints, endpoints))
    requires forall i :: 0 <= i < k ==> !HasEndpoint(rs[i].endpoints, endpoints)
    ensures k == FirstWith(rs, endpoints)
  {
    assert FirstWith(rs, endpoints) <= |rs|;
  }

  // ----- who gets a range

  lemma {:induction false} CountSame(a: seq<Ranger>, b: seq<Ranger>, n: nat)
    requires n <= |a| && n <= |b| && forall k :: 0 <= k < n ==> a[k] == b[k]
    ensures Acked(a, n) == Acked(b, n) && Ranges(a, n) == Ranges(b, n)
  {
    if n > 0 { CountSame(a, b, n - 1); }
  }

  /** The ranger that had the range last, when it can have it again. */
  predicate IsHome(r: Ranger, limit: int, last: seq<EndPoint>)
  {
    && r.state != MARKED_OFFLINE && r.failures < limit
    && Has(r.state, ACK) && !Has(r.state, SHUTTINGDOWN)
    && last != [] && HasEndpoint(r.endpoints, last)
  }

  ghost predicate HasHome(rs: seq<Ranger>, limit: int, last: seq<EndPoint>)
  {
    exists k :: 0 <= k < |rs| && IsHome(rs[k], limit, last)
  }

  ghost predicate FirstHome(rs: seq<Ranger>, k: nat, limit: int, last: seq<EndPoint>)
  {
    k < |rs| && IsHome(rs[k], limit, last) && forall j :: 0 <= j < k ==> !IsHome(rs[j], limit, last)
  }

  /** The first `n` were marked where they failed too often. */
  ghost predicate MarkedTo(rs: seq<Ranger>, out: seq<Ranger>, n: nat, limit: int)
  {
    && |out| == |rs| && n <= |rs|
    && (forall k :: 0 <= k < n ==>
          out[k] == rs[k].(state := if rs[k].failures >= limit then MARKED_OFFLINE else rs[k].state))
    && (forall k :: n <= k < |rs| ==> out[k] == rs[k])
  }

  function Acked(rs: seq<Ranger>, n: nat): nat
    requires n <= |rs|
  {
    if n == 0 then 0 else Acked(rs, n - 1) + if Has(rs[n - 1].state, ACK) then 1 else 0
  }

  function Ranges(rs: seq<Ranger>, n: nat): nat
    requires n <= |rs|
  {
    if n == 0 then 0 else Ranges(rs, n - 1) + if Has(rs[n - 1].state, ACK) then rs[n - 1].intermRanges else 0
  }

  /** The average of the acknowledged rangers. */
  function Average(rs: seq<Ranger>): nat
    requires Acked(rs, |rs|) > 0
  {
    Ranges(rs, |rs|) / Acked(rs, |rs|)
  }

  /** A ranger that can get a range: not above the average, and staying, unless it is
      the only one and the range is one of the system's. */
  predicate Eligible(rs: seq<Ranger>, k: int, system: bool)
  {
    && Acked(rs, |rs|) > 0 && 0 <= k < |rs| && Has(rs[k].state, ACK)
    && rs[k].intermRanges <= Average(rs)
    && (!Has(rs[k].state, SHUTTINGDOWN) || (Acked(rs, |rs|) == 1 && system))
  }

  /** Nobody who could get the range is better in one respect and as good in the
      other; of those that are the same it is the last. */
  ghost predicate IsBest(rs: seq<Ranger>, k: nat, system: bool)
  {
    && Eligible(rs, k, system)
    && (forall j | Eligible(rs, j, system) && rs[j].intermRanges <= rs[k].intermRanges ::
          rs[j].loadScale >= rs[k].loadScale ==>
            j <= k && rs[j].intermRanges == rs[k].intermRanges && rs[j].loadScale == rs[k].loadScale)
  }

  lemma {:induction false} AllAbove(rs: seq<Ranger>, n: nat, avg: nat)
    requires n <= |rs|
    requires forall i :: 0 <= i < n && Has(rs[i].state, ACK) ==> rs[i].intermRanges > avg
    ensures Ranges(rs, n) >= (avg + 1) * Acked(rs, n)
  {
    if n > 0 {
      AllAbove(rs, n - 1, avg);
      Distribute(Acked(rs, n - 1), 1, avg + 1);
    }
  }

  lemma {:induction false} AllBelow(rs: seq<Ranger>, n: nat, bound: nat)
    requires n <= |rs|
    requires forall i :: 0 <= i < n && Has(rs[i].state, ACK) ==> rs[i].intermRanges <= bound
    ensures Ranges(rs, n) <= Acked(rs, n) * bound
  {
    if n > 0 {
      AllBelow(rs, n - 1, bound);
      if Has(rs[n - 1].state, ACK) { OneMore(Acked(rs, n - 1), bound); }
    }
  }

  lemma OneMore(n: nat, bound: nat)
    ensures (n + 1) * bound == n * bound + bound
  {
  }

  /** The average is that of the acknowledged rangers: bounds of all of them are bounds of it. */
  lemma AverageWithin(rs: seq<Ranger>, low: nat, high: nat)
    requires exists i :: 0 <= i < |rs| && Has(rs[i].state, ACK)
    requires forall i :: 0 <= i < |rs| && Has(rs[i].state, ACK) ==> low <= rs[i].intermRanges <= high
    ensures Acked(rs, |rs|) > 0 && low <= Average(rs) <= high
  {
    var i :| 0 <= i < |rs| && Has(rs[i].state, ACK);
    AckedCounts(rs, i, |rs|);
    AllBelow(rs, |rs|, high);
    if low > 0 { AllAbove(rs, |rs|, low - 1); }
    QuotientWithin(Ranges(rs, |rs|), Acked(rs, |rs|), low, high);
  }

  lemma QuotientWithin(x: nat, d: nat, low: nat, high: nat)
    requires d > 0 && (low == 0 || low * d <= x) && x <= d * high
    ensures low <= x / d <= high
  {
    assert x == x / d * d + x % d;
    HighDigitDecides(x / d, x % d, d, low);
    HighDigitDecides(x / d, x % d, d, high + 1);
    OneMore(high, d);
  }

  /** A ranger that can get a range if it has not too many. */
  predicate Candidate(rs: seq<Ranger>, i: nat, system: bool)
    requires i < |rs|
  {
    Has(rs[i].state, ACK) && (!Has(rs[i].state, SHUTTINGDOWN) || (Acked(rs, |rs|) == 1 && system))
  }

  /** No more than its part of all ranges of the acknowledged, leaving or not. */
  predicate WithinPart(rs: seq<Ranger>, i: nat)
    requires i < |rs|
  {
    rs[i].intermRanges * Acked(rs, |rs|) <= Ranges(rs, |rs|)
  }

  /** Somebody can get the range exactly when a candidate has no more than its part of
      all ranges of the acknowledged ones, those that are leaving among them. */
  lemma EligibleExact(rs: seq<Ranger>, system: bool)
    ensures (exists k :: Eligible(rs, k, system))
      <==> exists i :: 0 <= i < |rs| && Candidate(rs, i, system) && WithinPart(rs, i)
  {
    if k :| Eligible(rs, k, system) {
      PartOrLess(rs, k);
    }
    if i :| 0 <= i < |rs| && Candidate(rs, i, system) && WithinPart(rs, i) {
      AckedCounts(rs, i, |rs|);
      PartOrLess(rs, i);
      assert Eligible(rs, i, system);
    }
  }

  lemma PartOrLess(rs: seq<Ranger>, i: nat)
    requires i < |rs| && Acked(rs, |rs|) > 0
    ensures rs[i].intermRanges <= Average(rs) <==> WithinPart(rs, i)
  {
    var n, avg := Acked(rs, |rs|), Average(rs);
    HighDigitDecides(avg, Ranges(rs, |rs|) % n, n, rs[i].intermRanges);
    HighDigitDecides(rs[i].intermRanges, 0, n, avg);
    assert Ranges(rs, |rs|) == avg * n + Ranges(rs, |rs|) % n;
  }

  lemma {:induction false} AckedCounts(rs: seq<Ranger>, i: nat, n: nat)
    requires i < n <= |rs| && Has(rs[i].state, ACK)
    ensures Acked(rs, n) > 0
  {
    if i < n - 1 { AckedCounts(rs, i, n - 1); }
  }

  /** When nobody can get the range though some are acknowledged, everyone who stays is
      above the average, and one who is leaving is not. */
  lemma NobodyEligible(rs: seq<Ranger>, system: bool)
    requires Acked(rs, |rs|) > 0 && forall k :: !Eligible(rs, k, system)
    ensures forall i :: 0 <= i < |rs| && Has(rs[i].state, ACK) ==>
      Has(rs[i].state, SHUTTINGDOWN) || rs[i].intermRanges > Average(rs)
    ensures exists i | 0 <= i < |rs| && Has(rs[i].state, ACK) ::
      Has(rs[i].state, SHUTTINGDOWN) && rs[i].intermRanges <= Average(rs)
  {
    var avg, n := Average(rs), Acked(rs, |rs|);
    forall i | 0 <= i < |rs| && Has(rs[i].state, ACK)
      ensures Has(rs[i].state, SHUTTINGDOWN) || rs[i].intermRanges > avg
    {
      assert !Eligible(rs, i, system);
    }
    if forall i :: 0 <= i < |rs| && Has(rs[i].state, ACK) ==> rs[i].intermRanges > avg {
      AllAbove(rs, |rs|, avg);
      assert Ranges(rs, |rs|) == avg * n + Ranges(rs, |rs|) % n;
      Distribute(avg, 1, n);
    }
  }

  /** With an acknowledged ranger and none that is shutting down there is one who can
      get the range. */
  lemma SomeEligible(rs: seq<Ranger>, system: bool)
    requires Acked(rs, |rs|) > 0
    requires forall i :: 0 <= i < |rs| && Has(rs[i].state, ACK) ==> !Has(rs[i].state, SHUTTINGDOWN)
    ensures exists k :: Eligible(rs, k, system)
  {
    if forall k :: !Eligible(rs, k, system) {
      NobodyEligible(rs, system);
    }
  }

  /** And so it can come about. */
  lemma LeavingKeepsOthersOut()
    ensures var rs := [Ranger(1, [1], 0, 0, 9, ACK + SHUTTINGDOWN), Ranger(2, [2], 10, 0, 9, ACK)];
      Acked(rs, 2) == 2 && forall k :: !Eligible(rs, k, true)
  {
    var rs := [Ranger(1, [1], 0, 0, 9, ACK + SHUTTINGDOWN), Ranger(2, [2], 10, 0, 9, ACK)];
    assert Has(rs[0].state, ACK) && Has(rs[1].state, ACK);
    assert Acked(rs, 0) == 0 && Ranges(rs, 0) == 0;
    assert Acked(rs, 1) == Acked(rs, 0) + 1 && Ranges(rs, 1) == Ranges(rs, 0) + rs[0].intermRanges;
    assert Acked(rs, 2) == Acked(rs, 1) + 1 && Ranges(rs, 2) == Ranges(rs, 1) + rs[1].intermRanges;
  }

  class Rangers {
    var rangers: seq<Ranger>

    constructor ()
      ensures rangers == []
    {
      rangers := [];
    }

    method Find(endpoints: seq<EndPoint>) returns (k: nat)
      ensures k == FirstWith(rangers, endpoints)
    {
      k := 0;
      while k < |rangers| && !HasEndpoint(rangers[k].endpoints, endpoints)
        invariant k <= |rangers|
        invariant forall i :: 0 <= i < k ==> !HasEndpoint(rangers[i].endpoints, endpoints)
      {
        k := k + 1;
      }
      FirstWithIs(rangers, endpoints, k);
    }

    method IsFree(id: nat) returns (ok: bool)
      ensures ok == !HasId(rangers, id)
    {
      ok := true;
      for i := 0 to |rangers|
        invariant forall k :: 0 <= k < i ==> rangers[k].rgrid != id
      {
        if id == rangers[i].rgrid { return false; }
      }
    }

    /** The search for an id; it takes no more tries than there are rangers and two. */
    method NextId(wish: nat) returns (id: nat, ghost tries: nat)
      ensures IsFreeId(rangers, wish, id)
      ensures 0 < tries <= |rangers| + 2
    {
      var opt, next := wish, 0;
      var ok := false;
      tries := 0;
      id := 0;
      while !ok
        invariant opt == 0 || (opt == wish && next == 0 && tries == 0)
        invariant tries == next + if opt == 0 && wish > 0 then 1 else 0
        invariant opt == 0 && wish > 0 && !ok ==> HasId(rangers, wish)
        invariant !ok ==> forall k :: 0 < k <= next ==> HasId(rangers, k)
        invariant ok ==> tries > 0 && IsFreeId(rangers, wish, id)
        invariant tries <= |rangers| + 2
        decreases !ok, opt > 0, |rangers| + 1 - next
      {
        if opt == 0 {
          next := next + 1;
          id := next;
        } else {
          id := opt;
          opt := 0;
        }
        tries := tries + 1;
        ok := IsFree(id);
        if ok {
          IdsUpTo(rangers, if next > 0 then next - 1 else 0);
        } else if next > 0 {
          IdsUpTo(rangers, next);
        }
      }
    }

    method RgrSetId(endpoints: seq<EndPoint>, wish: nat) returns (id: nat)
      modifies this
      ensures IsSet(old(rangers), endpoints, wish, rangers, id)
    {
      var k := Find(endpoints);
      if k < |rangers| {
        if Has(rangers[k].state, ACK) {
          id := rangers[k].rgrid;
          if !EqualEndpoints(endpoints, rangers[k].endpoints) {
            rangers := rangers[k := rangers[k].(endpoints := endpoints)];
          }
          return;
        }
        rangers := rangers[..k] + rangers[k + 1..];
      }
      ghost var tries;
      id, tries := NextId(wish);
      rangers := rangers + [Ranger(id, endpoints, 0, 0, 0, NONE)];
    }

    /** Marks the failed, and finds the ranger that had the range or counts. */
    method MarkAndCount(last: seq<EndPoint>, limit: int) returns (home: Option<nat>, n: nat, ranges: nat)
      modifies this
      ensures home.Some? ==> FirstHome(old(rangers), home.value, limit, last)
      ensures home.None? ==> forall k :: 0 <= k < |old(rangers)| ==> !IsHome(old(rangers)[k], limit, last)
      ensures MarkedTo(old(rangers), rangers, if home.Some? then home.value else |rangers|, limit)
      ensures home.None? ==> n == Acked(rangers, |rangers|) && ranges == Ranges(rangers, |rangers|)
    {
      home, n, ranges := None, 0, 0;
      for i := 0 to |rangers|
        invariant home.None? && MarkedTo(old(rangers), rangers, i, limit)
        invariant forall k :: 0 <= k < i ==> !IsHome(old(rangers)[k], limit, last)
        invariant n == Acked(rangers, i) && ranges == Ranges(rangers, i)
      {
        var r := rangers[i];
        ghost var was := rangers;
        if r.state == MARKED_OFFLINE {
        } else if r.failures >= limit {
          rangers := rangers[i := r.(state := MARKED_OFFLINE)];
          CountSame(was, rangers, i);
        } else if Has(r.state, ACK) {
          if last != [] && !Has(r.state, SHUTTINGDOWN) && HasEndpoint(r.endpoints, last) {
            home := Some(i);
            return;
          }
          ranges := ranges + r.intermRanges;
          n := n + 1;
        }
      }
    }

    method PickBest(n: nat, avg: nat, system: bool) returns (pick: Option<nat>)
      requires n == Acked(rangers, |rangers|) && n > 0 && avg == Average(rangers)
      requires forall k :: 0 <= k < |rangers| ==> rangers[k].intermRanges < WORD64
      ensures pick.None? ==> forall k :: !Eligible(rangers, k, system)
      ensures pick.Some? ==> IsBest(rangers, pick.value, system)
    {
      var best, interm := 0, WORD64 - 1;
      pick := None;
      for i := 0 to |rangers|
        invariant pick.None? ==> best == 0 && interm == WORD64 - 1
        invariant pick.None? ==> forall k :: 0 <= k < i ==> !Eligible(rangers, k, system)
        invariant pick.Some? ==> pick.value < i && Eligible(rangers, pick.value, system)
        invariant pick.Some? ==> best == rangers[pick.value].loadScale && interm == rangers[pick.value].intermRanges
        invariant pick.Some? ==> forall j | 0 <= j < i && Eligible(rangers, j, system) ::
          rangers[j].intermRanges <= interm && rangers[j].loadScale >= best ==>
            j <= pick.value && rangers[j].intermRanges == interm && rangers[j].loadScale == best
      {
        var r := rangers[i];
        if Has(r.state, ACK) && avg >= r.intermRanges && interm >= r.intermRanges && r.loadScale >= best
           && (!Has(r.state, SHUTTINGDOWN) || (n == 1 && system)) {
          best, interm := r.loadScale, r.intermRanges;
          pick := Some(i);
        }
      }
    }

    /** Who is to get a range: the one that had it last, or else the best of those who
        can. */
    method NextRgr(last: seq<EndPoint>, limit: int, system: bool, shuttingDown: bool) returns (pick: Option<nat>)
      requires forall k :: 0 <= k < |rangers| ==> rangers[k].intermRanges < WORD64
      modifies this
      ensures SameRangers(old(rangers), rangers)
      ensures pick.Some? ==> pick.value < |rangers| && var r := old(rangers)[pick.value];
        r.failures < limit && Has(r.state, ACK) && (Has(r.state, SHUTTINGDOWN) ==> system)
      ensures forall k | 0 <= k < |rangers| && !shuttingDown && HasEndpoint(old(rangers)[k].endpoints, last) ::
        var r := old(rangers)[k];
        r.failures < limit && Has(r.state, ACK) && !Has(r.state, SHUTTINGDOWN) ==>
          pick.Some? && pick.value <= k && HasEndpoint(old(rangers)[pick.value].endpoints, last)
      ensures !shuttingDown && pick.None? ==> forall k :: 0 <= k < |rangers| && old(rangers)[k].failures >= limit ==>
        rangers[k].state == MARKED_OFFLINE
      ensures forall k :: 0 <= k < |rangers| && old(rangers)[k].failures < limit ==> rangers[k] == old(rangers)[k]
      ensures forall k :: 0 <= k < |rangers| ==> rangers[k] == old(rangers)[k].(state := rangers[k].state)
      ensures shuttingDown ==> pick.None? && rangers == old(rangers)
      ensures !shuttingDown && HasHome(old(rangers), limit, last) ==>
        && pick.Some? && FirstHome(old(rangers), pick.value, limit, last)
        && MarkedTo(old(rangers), rangers, pick.value, limit)
      ensures !shuttingDown && !HasHome(old(rangers), limit, last) ==>
        MarkedTo(old(rangers), rangers, |rangers|, limit)
      ensures !shuttingDown && !HasHome(old(rangers), limit, last) ==>
        if pick.Some? then IsBest(rangers, pick.value, system) else forall k :: !Eligible(rangers, k, system)
    {
      if shuttingDown { return None; }
      var n, ranges;
      pick, n, ranges := MarkAndCount(last, limit);
      if pick.None? && n > 0 {
        pick := PickBest(n, ranges / n, system);
      }
    }

    method RgrAckId(rgrid: nat, endpoints: seq<EndPoint>) returns (ack: bool, changed: bool)
      modifies this
      ensures IsAcked(old(rangers), rgrid, endpoints, rangers, ack)
      ensures changed == (rangers != old(rangers))
    {
      ack, changed := false, false;
      for i := 0 to |rangers|
        invariant rangers == old(rangers) && !ack && !changed
        invariant forall k :: 0 <= k < i ==>
          !(HasEndpoint(rangers[k].endpoints, endpoints) && rgrid == rangers[k].rgrid)
      {
        var h := rangers[i];
        if HasEndpoint(h.endpoints, endpoints) && rgrid == h.rgrid {
          if !Has(h.state, ACK) {
            changed := true;
            rangers := rangers[i := h.(state := ACK)];
          }
          ack := true;
          assert AckedAt(old(rangers), rgrid, endpoints, rangers, i);
          return;
        }
      }
    }

    /** Zero is the answer when the ranger has that id; otherwise it is the id that it
        has now. */
    method RgrHadId(rgrid: nat, endpoints: seq<EndPoint>) returns (id: nat)
      modifies this
      ensures FirstIsKnown(old(rangers), rgrid, endpoints) ==> id == 0 && rangers == old(rangers)
      ensures !FirstIsKnown(old(rangers), rgrid, endpoints) ==>
        IsSet(old(rangers), endpoints, if HasId(old(rangers), rgrid) then 0 else rgrid, rangers, id)
    {
      var required := false;
      for i := 0 to |rangers|
        invariant rangers == old(rangers)
        invariant !required && forall k :: 0 <= k < i ==> rangers[k].rgrid != rgrid
      {
        if rgrid == rangers[i].rgrid {
          if HasEndpoint(rangers[i].endpoints, endpoints) { return 0; }
          required := true;
          break;
        }
      }
      id := RgrSetId(endpoints, if required then 0 else rgrid);
    }

    method RgrShutdown(endpoints: seq<EndPoint>) returns (removed: Option<Ranger>)
      modifies this
      ensures IsShut(old(rangers), endpoints, rangers)
      ensures removed.Some? <==> rangers != old(rangers)
    {
      var k := Find(endpoints);
      removed := None;
      if k < |rangers| {
        removed := Some(rangers[k]);
        rangers := rangers[..k] + rangers[k + 1..];
      }
    }
  }

  /** The first ranger that has both the id and an endpoint is acknowledged. */
  ghost predicate IsAcked(rs: seq<Ranger>, id: nat, endpoints: seq<EndPoint>, out: seq<Ranger>, ack: bool)
  {
    && |out| == |rs| && (ack <==> IsKnown(rs, id, endpoints))
    && (!ack ==> out == rs)
    && (ack ==> exists k :: AckedAt(rs, id, endpoints, out, k))
  }

  ghost predicate AckedAt(rs: seq<Ranger>, id: nat, endpoints: seq<EndPoint>, out: seq<Ranger>, k: int)
  {
    && 0 <= k < |rs| && rs[k].rgrid == id && HasEndpoint(rs[k].endpoints, endpoints)
    && (forall j :: 0 <= j < k ==> !(rs[j].rgrid == id && HasEndpoint(rs[j].endpoints, endpoints)))
    && out == rs[k := if Has(rs[k].state, ACK) then rs[k] else rs[k].(state := ACK)]
  }

  ghost predicate IsKnown(rs: seq<Ranger>, id: nat, endpoints: seq<EndPoint>)
  {
    exists k :: 0 <= k < |rs| && rs[k].rgrid == id && HasEndpoint(rs[k].endpoints, endpoints)
  }

  /** The first ranger with the id has one of the endpoints. */
  ghost predicate FirstIsKnown(rs: seq<Ranger>, id: nat, endpoints: seq<EndPoint>)
  {
    exists k :: 0 <= k < |rs| && rs[k].rgrid == id && HasEndpoint(rs[k].endpoints, endpoints)
      && forall j :: 0 <= j < k ==> rs[j].rgrid != id
  }

  /** Ids and endpoints stay. */
  ghost predicate SameRangers(rs: seq<Ranger>, out: seq<Ranger>)
  {
    && |out| == |rs|
    && (forall i :: 0 <= i < |rs| ==> out[i].rgrid == rs[i].rgrid && out[i].endpoints == rs[i].endpoints)
  }

  ghost predicate IsShut(rs: seq<Ranger>, endpoints: seq<EndPoint>, out: seq<Ranger>)
  {
    var k := FirstWith(rs, endpoints);
    out == if k < |rs| then rs[..k] + rs[k + 1..] else rs
  }

  // ----- runs

  datatype Event =
    | SetId(endpoints: seq<EndPoint>, wish: nat)
    | HadId(rgrid: nat, endpoints: seq<EndPoint>)
    | AckId(rgrid: nat, endpoints: seq<EndPoint>)
    | Shutdown(endpoints: seq<EndPoint>)
    | Change

  ghost predicate Next(rs: seq<Ranger>, e: Event, out: seq<Ranger>, id: nat)
  {
    match e
    case SetId(endpoints, wish) => IsSet(rs, endpoints, wish, out, id)
    case HadId(rgrid, endpoints) =>
      if FirstIsKnown(rs, rgrid, endpoints) then out == rs && id == 0
      else IsSet(rs, endpoints, if HasId(rs, rgrid) then 0 else rgrid, out, id)
    case AckId(rgrid, endpoints) => IsAcked(rs, rgrid, endpoints, out, id > 0)
    case Shutdown(endpoints) => IsShut(rs, endpoints, out)
    case Change => SameRangers(rs, out)
  }

  lemma RemoveKeeps(rs: seq<Ranger>, k: nat)
    requires DistinctIds(rs) && k < |rs|
    ensures DistinctIds(rs[..k] + rs[k + 1..])
  {
  }

  lemma AddKeeps(rs: seq<Ranger>, wish: nat, endpoints: seq<EndPoint>, id: nat)
    requires DistinctIds(rs) && IsFreeId(rs, wish, id)
    ensures DistinctIds(rs + [Ranger(id, endpoints, 0, 0, 0, NONE)])
  {
    var out := rs + [Ranger(id, endpoints, 0, 0, 0, NONE)];
    forall i | 0 <= i < |rs| ensures out[i].rgrid != id {
      assert rs[i].rgrid != id;
    }
  }

  ghost predicate Given(rs: seq<Ranger>, endpoints: seq<EndPoint>, id: nat)
  {
    exists k :: 0 <= k < |rs| && rs[k].rgrid == id && EqualEndpoints(endpoints, rs[k].endpoints)
  }

  lemma SetKeeps(rs: seq<Ranger>, endpoints: seq<EndPoint>, wish: nat, out: seq<Ranger>, id: nat)
    requires DistinctIds(rs) && IsSet(rs, endpoints, wish, out, id)
    ensures DistinctIds(out) && Given(out, endpoints, id)
  {
    var k := FirstWith(rs, endpoints);
    if k < |rs| && Has(rs[k].state, ACK) {
      assert out[k].rgrid == id && EqualEndpoints(endpoints, out[k].endpoints);
    } else {
      var less := if k < |rs| then rs[..k] + rs[k + 1..] else rs;
      if k < |rs| { RemoveKeeps(rs, k); }
      AddKeeps(less, wish, endpoints, id);
      assert out[|less|].rgrid == id && EqualEndpoints(endpoints, out[|less|].endpoints);
    }
  }

  ghost predicate IsRun(events: seq<Event>, run: seq<seq<Ranger>>, ids: seq<nat>)
  {
    && |run| == |events| + 1 && |ids| == |events| && run[0] == []
    && (forall i :: 0 <= i < |events| ==> Next(run[i], events[i], run[i + 1], ids[i]))
  }

  /** However rangers ask for ids, are acknowledged, change their states and loads, and
      shut down, no two have the same id, and none has zero. */
  lemma {:induction false} RunKeepsIds(events: seq<Event>, run: seq<seq<Ranger>>, ids: seq<nat>, n: nat)
    requires IsRun(events, run, ids) && n < |run|
    ensures DistinctIds(run[n])
  {
    if n > 0 {
      RunKeepsIds(events, run, ids, n - 1);
      NextKeeps(run[n - 1], events[n - 1], run[n], ids[n - 1]);
    }
  }

  lemma NextKeeps(rs: seq<Ranger>, e: Event, out: seq<Ranger>, id: nat)
    requires DistinctIds(rs) && Next(rs, e, out, id)
    ensures DistinctIds(out)
  {
    match e
    case SetId(endpoints, wish) => SetKeeps(rs, endpoints, wish, out, id);
    case HadId(rgrid, endpoints) =>
      if !FirstIsKnown(rs, rgrid, endpoints) {
        SetKeeps(rs, endpoints, if HasId(rs, rgrid) then 0 else rgrid, out, id);
      }
    case AckId(rgrid, endpoints) =>
    case Shutdown(endpoints) =>
      var k := FirstWith(rs, endpoints);
      if k < |rs| { RemoveKeeps(rs, k); }
    case Change =>
  }
}
