/** Turning the reports of rangers into load scales, from free down to overloaded, and
    into how many ranges the overloaded ones are to give away. */
module RangersResources {
  import opened Arithmetic

  const UINT16_MAX := 0xFFFF
  const INT16_MAX := 0x7FFF

  function U32(n: nat): nat { n % 0x1_0000_0000 }

  function U64(n: nat): nat { n % WORD64 }

  datatype Resource = Resource(rgrid: nat, mem: nat, cpu: nat, ranges: nat, loadScale: nat, rebalance: nat)

  // ----- load scales

  /** The largest of each measure, and at least one. */
  datatype Largest = Largest(mem: nat, cpu: nat, ranges: nat)

  function Max(a: nat, b: nat): nat { if b > a then b else a }

  /** Of the first `n` rangers. */
  function LargestOf(rs: seq<Resource>, n: nat): (m: Largest)
    requires n <= |rs|
    ensures m.mem > 0 && m.cpu > 0 && m.ranges > 0
    ensures forall i :: 0 <= i < n ==> rs[i].mem <= m.mem && rs[i].cpu <= m.cpu && rs[i].ranges <= m.ranges
  {
    if n == 0 then Largest(1, 1, 1) else
    var r, m := rs[n - 1], LargestOf(rs, n - 1);
    Largest(Max(m.mem, r.mem), Max(m.cpu, r.cpu), Max(m.ranges, r.ranges))
  }

  /** One resource in fixed point; the product is of 32 bits. */
  function Part(n: nat, largest: nat): nat
    requires largest > 0
  {
    U32(U32(n * 100) * INT16_MAX) / largest
  }

  function Clamped(scale: nat): (c: nat)
    ensures 1 <= c <= UINT16_MAX
  {
    if scale > UINT16_MAX then UINT16_MAX else if scale > 0 then scale else 1
  }

  /** More ranges make a lower scale. */
  function Divisor(r: Resource, m: Largest): nat
    requires m.ranges > 0
    ensures Divisor(r, m) > 0
  {
    var rangesScale := U64(r.ranges * 100) / m.ranges;
    if rangesScale > 0 then rangesScale else 1
  }

  /** The scale of a ranger before the best of them is made the maximum. */
  function Raw(r: Resource, m: Largest): (scale: nat)
    requires m.mem > 0 && m.cpu > 0 && m.ranges > 0
    ensures 1 <= scale <= UINT16_MAX
  {
    Clamped((Part(r.mem, m.mem) + Part(r.cpu, m.cpu)) / Divisor(r, m))
  }

  function Raws(rs: seq<Resource>, m: Largest): (out: seq<Resource>)
    requires m.mem > 0 && m.cpu > 0 && m.ranges > 0
    ensures |out| == |rs|
  {
    seq(|rs|, i requires 0 <= i < |rs| => rs[i].(loadScale := Raw(rs[i], m)))
  }

  function BestScale(rs: seq<Resource>, n: nat): (best: nat)
    requires n <= |rs|
    ensures best >= 1
  {
    if n == 0 then 1 else Max(BestScale(rs, n - 1), rs[n - 1].loadScale)
  }

  lemma {:induction false} BestIs(rs: seq<Resource>, n: nat)
    requires n <= |rs|
    ensures forall i :: 0 <= i < n ==> rs[i].loadScale <= BestScale(rs, n)
    ensures BestScale(rs, n) == 1 || exists i :: 0 <= i < n && rs[i].loadScale == BestScale(rs, n)
  {
    if n > 0 { BestIs(rs, n - 1); }
  }

  function Normal(scale: nat, best: nat): nat
    requires best > 0
  {
    scale * UINT16_MAX / best
  }

  function Scaled(rs: seq<Resource>): (out: seq<Resource>)
    ensures |out| == |rs|
  {
    var raws := Raws(rs, LargestOf(rs, |rs|));
    var best := BestScale(raws, |rs|);
    seq(|rs|, i requires 0 <= i < |rs| => raws[i].(loadScale := Normal(raws[i].loadScale, best)))
  }

  lemma NormalOrder(a: nat, b: nat, best: nat)
    requires a <= b && best > 0
    ensures Normal(a, best) <= Normal(b, best)
  {
    DivOrder(a * UINT16_MAX, b * UINT16_MAX, best);
  }

  lemma NormalEnds(best: nat)
    requires 1 <= best <= UINT16_MAX
    ensures Normal(1, best) >= 1 && Normal(best, best) == UINT16_MAX
  {
    DivOrder(best, UINT16_MAX, best);
    assert best / best == 1;
    assert best * UINT16_MAX / best == UINT16_MAX;
  }

  /** Every scale is from one to the maximum, and the order between the rangers is
      kept. */
  lemma ScaledRange(rs: seq<Resource>, i: nat)
    requires i < |rs|
    ensures 1 <= Scaled(rs)[i].loadScale <= UINT16_MAX
    ensures Scaled(rs)[i] == rs[i].(loadScale := Scaled(rs)[i].loadScale)
  {
    var raws := Raws(rs, LargestOf(rs, |rs|));
    var best := BestScale(raws, |rs|);
    BestWithin(raws);
    NormalEnds(best);
    NormalOrder(1, raws[i].loadScale, best);
    NormalOrder(raws[i].loadScale, best, best);
  }

  lemma BestWithin(rs: seq<Resource>)
    requires forall i :: 0 <= i < |rs| ==> 1 <= rs[i].loadScale <= UINT16_MAX
    ensures BestScale(rs, |rs|) <= UINT16_MAX
    ensures forall i :: 0 <= i < |rs| ==> rs[i].loadScale <= BestScale(rs, |rs|)
    ensures rs != [] ==> exists i :: 0 <= i < |rs| && rs[i].loadScale == BestScale(rs, |rs|)
  {
    BestIs(rs, |rs|);
    if rs != [] && BestScale(rs, |rs|) == 1 {
      assert rs[0].loadScale == 1;
    }
  }

  lemma ScaledOrder(rs: seq<Resource>, i: nat, j: nat)
    requires i < |rs| && j < |rs|
    requires Raw(rs[i], LargestOf(rs, |rs|)) <= Raw(rs[j], LargestOf(rs, |rs|))
    ensures Scaled(rs)[i].loadScale <= Scaled(rs)[j].loadScale
  {
    var raws := Raws(rs, LargestOf(rs, |rs|));
    NormalOrder(raws[i].loadScale, raws[j].loadScale, BestScale(raws, |rs|));
  }

  /** Some ranger has exactly the maximum. */
  lemma ScaledMaximum(rs: seq<Resource>)
    requires rs != []
    ensures exists i :: 0 <= i < |rs| && Scaled(rs)[i].loadScale == UINT16_MAX
  {
    var raws := Raws(rs, LargestOf(rs, |rs|));
    BestWithin(raws);
    var i :| 0 <= i < |raws| && raws[i].loadScale == BestScale(raws, |rs|);
    NormalEnds(BestScale(raws, |rs|));
    assert Scaled(rs)[i].loadScale == UINT16_MAX;
  }

  lemma PartFits(n: nat, largest: nat)
    requires largest > 0 && n * 100 * INT16_MAX < 0x1_0000_0000
    ensures Part(n, largest) == n * 100 * INT16_MAX / largest
  {
    assert U32(n * 100) == n * 100;
  }

  /** More memory and nothing else, up to a limit. */
  predicate MoreMem(r: Resource, s: Resource, limit: nat)
  {
    s == r.(mem := s.mem) && r.mem <= s.mem <= limit
  }

  predicate MoreCpu(r: Resource, s: Resource, limit: nat)
  {
    s == r.(cpu := s.cpu) && r.cpu <= s.cpu <= limit
  }

  predicate Sized(m: Largest)
  {
    m.mem > 0 && m.cpu > 0 && m.ranges > 0
  }

  lemma PartOrder(n: nat, more: nat, largest: nat)
    requires largest > 0 && n <= more && more * 100 * INT16_MAX < 0x1_0000_0000
    ensures Part(n, largest) <= Part(more, largest)
  {
    PartFits(n, largest);
    PartFits(more, largest);
    DivOrder(n * 100 * INT16_MAX, more * 100 * INT16_MAX, largest);
  }

  lemma FreerSum(r: Resource, a: nat, b: nat, m: Largest)
    requires m.ranges > 0 && a <= b
    ensures Clamped(a / Divisor(r, m)) <= Clamped(b / Divisor(r, m))
  {
    DivOrder(a, b, Divisor(r, m));
  }

  /** That more memory, up to a limit, is never a lower scale holds exactly as long as
      the product for the limit fits 32 bits. */
  lemma MoreMemIsFreer(limit: nat)
    ensures (forall r, s, m | MoreMem(r, s, limit) && Sized(m) :: Raw(r, m) <= Raw(s, m))
      <==> limit * 100 * INT16_MAX < 0x1_0000_0000
  {
    if limit * 100 * INT16_MAX < 0x1_0000_0000 {
      forall r, s, m | MoreMem(r, s, limit) && Sized(m) ensures Raw(r, m) <= Raw(s, m) {
        PartOrder(r.mem, s.mem, m.mem);
        FreerSum(r, Part(r.mem, m.mem) + Part(r.cpu, m.cpu), Part(s.mem, m.mem) + Part(s.cpu, m.cpu), m);
      }
    } else {
      var r, s, m := Resource(1, 1310, 0, 0, 0, 0), Resource(1, 1311, 0, 0, 0, 0), Largest(1311, 1, 1);
      assert MoreMem(r, s, limit) && Raw(r, m) == UINT16_MAX && Raw(s, m) < 600;
    }
  }

  /** And so for the processor. */
  lemma MoreCpuIsFreer(limit: nat)
    ensures (forall r, s, m | MoreCpu(r, s, limit) && Sized(m) :: Raw(r, m) <= Raw(s, m))
      <==> limit * 100 * INT16_MAX < 0x1_0000_0000
  {
    if limit * 100 * INT16_MAX < 0x1_0000_0000 {
      forall r, s, m | MoreCpu(r, s, limit) && Sized(m) ensures Raw(r, m) <= Raw(s, m) {
        PartOrder(r.cpu, s.cpu, m.cpu);
        FreerSum(r, Part(r.mem, m.mem) + Part(r.cpu, m.cpu), Part(s.mem, m.mem) + Part(s.cpu, m.cpu), m);
      }
    } else {
      var r, s, m := Resource(1, 0, 1310, 0, 0, 0), Resource(1, 0, 1311, 0, 0, 0), Largest(1, 1311, 1);
      assert MoreCpu(r, s, limit) && Raw(r, m) == UINT16_MAX && Raw(s, m) < 600;
    }
  }

  /** More ranges and nothing else, up to a limit. */
  predicate MoreRanges(r: Resource, s: Resource, limit: nat)
  {
    s == r.(ranges := s.ranges) && r.ranges <= s.ranges <= limit
  }

  lemma QuotientOrder(x: nat, d: nat, e: nat)
    requires 0 < d <= e
    ensures x / e <= x / d
  {
    var q := x / e;
    AtLeast(q, e - d);
    Distribute(e - d, d, q);
    assert x == q * e + x % e;
    HighDigitDecides(x / d, x % d, d, q);
  }

  lemma BusierWithin(r: Resource, s: Resource, m: Largest)
    requires MoreRanges(r, s, s.ranges) && Sized(m) && s.ranges * 100 < WORD64
    ensures Raw(s, m) <= Raw(r, m)
  {
    DivOrder(r.ranges * 100, s.ranges * 100, m.ranges);
    DivisorOrder(r, s, m);
    QuotientOrder(Part(r.mem, m.mem) + Part(r.cpu, m.cpu), Divisor(r, m), Divisor(s, m));
  }

  lemma DivisorOrder(r: Resource, s: Resource, m: Largest)
    requires m.ranges > 0 && r.ranges * 100 < WORD64 && s.ranges * 100 < WORD64
    requires r.ranges * 100 / m.ranges <= s.ranges * 100 / m.ranges
    ensures Divisor(r, m) <= Divisor(s, m)
  {
    assert U64(r.ranges * 100) == r.ranges * 100 && U64(s.ranges * 100) == s.ranges * 100;
  }

  /** The first number of ranges that wraps, and the one before. */
  lemma BusierWraps()
    ensures var r, m := Resource(1, 10, 0, 184467440737095516, 0, 0), Largest(1, 1, 1);
      Raw(r, m) == 1 && Raw(r.(ranges := 184467440737095517), m) == UINT16_MAX
  {
    assert U64(184467440737095516 * 100) == 18446744073709551600;
    assert U64(184467440737095517 * 100) == 84;
  }

  /** That more ranges, up to a limit, are never a higher scale holds exactly as long as a
      hundred times the limit fits 64 bits. */
  lemma MoreRangesIsBusier(limit: nat)
    ensures (forall r, s, m | MoreRanges(r, s, limit) && Sized(m) :: Raw(s, m) <= Raw(r, m))
      <==> limit * 100 < WORD64
  {
    if limit * 100 < WORD64 {
      forall r, s, m | MoreRanges(r, s, limit) && Sized(m) ensures Raw(s, m) <= Raw(r, m) {
        BusierWithin(r, s, m);
      }
    } else {
      BusierWraps();
      var r, m := Resource(1, 10, 0, 184467440737095516, 0, 0), Largest(1, 1, 1);
      var s := r.(ranges := 184467440737095517);
      assert MoreRanges(r, s, limit) && !(Raw(s, m) <= Raw(r, m));
    }
  }

  /** The scale before normalisation, between the bounds of its numbers: what memory and
      processor come to, taken that often as the ranges say. */
  lemma RawMeans(r: Resource, m: Largest)
    requires Sized(m)
    ensures var ranges := r.ranges * 100 % 0x1_0000_0000_0000_0000 / m.ranges;
      var often := if ranges == 0 then 1 else ranges;
      var free := r.mem * 3276700 % 0x1_0000_0000 / m.mem + r.cpu * 3276700 % 0x1_0000_0000 / m.cpu;
      && (Raw(r, m) == 1 || Raw(r, m) * often <= free)
      && (Raw(r, m) == 0xFFFF || free < (Raw(r, m) + 1) * often)
      && 1 <= Raw(r, m) <= 0xFFFF
  {
    WrapsOnce(r.mem);
    WrapsOnce(r.cpu);
    Quotient(Part(r.mem, m.mem) + Part(r.cpu, m.cpu), Divisor(r, m), Raw(r, m));
  }

  lemma WrapsOnce(n: nat)
    ensures U32(U32(n * 100) * INT16_MAX) == n * 3276700 % 0x1_0000_0000
  {
    var a := U32(n * 100);
    var q, p := n * 100 / 0x1_0000_0000, a * INT16_MAX / 0x1_0000_0000;
    assert a == n * 100 - 0x1_0000_0000 * q && U32(a * INT16_MAX) == a * INT16_MAX - 0x1_0000_0000 * p;
    assert n * 3276700 == 0x1_0000_0000 * (q * INT16_MAX + p) + U32(a * INT16_MAX);
    ModUnique(0x1_0000_0000, q * INT16_MAX + p, U32(a * INT16_MAX));
  }

  /** What a clamped quotient says of what was divided. */
  lemma Quotient(x: nat, d: nat, c: nat)
    requires d > 0 && c == Clamped(x / d)
    ensures (c == 1 || c * d <= x) && (c == UINT16_MAX || x < (c + 1) * d)
  {
    assert x == x / d * d + x % d;
    HighDigitDecides(x / d, x % d, d, c + 1);
    HighDigitDecides(x / d, x % d, d, c);
  }

  /** The largest measures are those of some ranger, or one. */
  lemma {:induction false} LargestIs(rs: seq<Resource>, n: nat)
    requires n <= |rs|
    ensures var m := LargestOf(rs, n);
      && (m.mem == 1 || exists i :: 0 <= i < n && rs[i].mem == m.mem)
      && (m.cpu == 1 || exists i :: 0 <= i < n && rs[i].cpu == m.cpu)
      && (m.ranges == 1 || exists i :: 0 <= i < n && rs[i].ranges == m.ranges)
  {
    if n > 0 { LargestIs(rs, n - 1); }
  }

  /** A scale in proportion to the best one before normalisation. */
  lemma ScaledMeans(rs: seq<Resource>, i: nat, best: nat)
    requires i < |rs| && forall j :: 0 <= j < |rs| ==> Raw(rs[j], LargestOf(rs, |rs|)) <= best
    requires exists j :: 0 <= j < |rs| && Raw(rs[j], LargestOf(rs, |rs|)) == best
    ensures var raw, scale := Raw(rs[i], LargestOf(rs, |rs|)), Scaled(rs)[i].loadScale;
      scale * best <= raw * 0xFFFF < (scale + 1) * best
  {
    RawsBest(rs, LargestOf(rs, |rs|), best);
    ScaledAt(rs, i, best);
    NormalMeans(Raw(rs[i], LargestOf(rs, |rs|)), best);
  }

  lemma RawsBest(rs: seq<Resource>, m: Largest, best: nat)
    requires m.mem > 0 && m.cpu > 0 && m.ranges > 0
    requires forall j :: 0 <= j < |rs| ==> Raw(rs[j], m) <= best
    requires exists j :: 0 <= j < |rs| && Raw(rs[j], m) == best
    ensures best > 0 && BestScale(Raws(rs, m), |rs|) == best
  {
    var raws := Raws(rs, m);
    assert forall j :: 0 <= j < |rs| ==> raws[j].loadScale == Raw(rs[j], m);
    BestIsBest(raws, best);
  }

  lemma ScaledAt(rs: seq<Resource>, i: nat, best: nat)
    requires i < |rs| && best > 0 && BestScale(Raws(rs, LargestOf(rs, |rs|)), |rs|) == best
    ensures Scaled(rs)[i].loadScale == Normal(Raw(rs[i], LargestOf(rs, |rs|)), best)
  {
  }

  lemma BestIsBest(rs: seq<Resource>, best: nat)
    requires forall j :: 0 <= j < |rs| ==> 1 <= rs[j].loadScale <= best
    requires exists j :: 0 <= j < |rs| && rs[j].loadScale == best
    ensures BestScale(rs, |rs|) == best
  {
    BestIs(rs, |rs|);
  }

  lemma NormalMeans(scale: nat, best: nat)
    requires best > 0
    ensures Normal(scale, best) * best <= scale * 0xFFFF < (Normal(scale, best) + 1) * best
  {
    var x := scale * UINT16_MAX;
    assert x == x / best * best + x % best;
    HighDigitDecides(x / best, x % best, best, x / best + 1);
  }

  // ----- rebalancing

  /** How many ranges a ranger would give away if there were no limit. */
  function Share(ranges: nat, scale: nat, half: nat): nat
  {
    if ranges > 0 && 0 < scale < half then half / scale else 0
  }

  /** Nothing from a ranger without ranges, or at half the scale and above; otherwise as often
      as its scale goes into the half. */
  lemma ShareMeans(ranges: nat, scale: nat, half: nat)
    requires scale > 0
    ensures ranges == 0 || scale >= half ==> Share(ranges, scale, half) == 0
    ensures ranges > 0 && scale < half ==>
      Share(ranges, scale, half) * scale <= half < (Share(ranges, scale, half) + 1) * scale
  {
    assert half == half / scale * scale + half % scale;
    HighDigitDecides(half / scale, half % scale, scale, half / scale + 1);
  }

  function SharesOf(rs: seq<Resource>, half: nat): (shares: seq<nat>)
    ensures |shares| == |rs|
  {
    seq(|rs|, i requires 0 <= i < |rs| => Share(rs[i].ranges, rs[i].loadScale, half))
  }

  function Sum(ns: seq<nat>, n: nat): nat
    requires n <= |ns|
  {
    if n == 0 then 0 else Sum(ns, n - 1) + ns[n - 1]
  }

  /** What of the budget is left after the first `n`. */
  function LeftOf(shares: seq<nat>, n: nat, budget: nat): nat
    requires n <= |shares|
  {
    if n == 0 then budget else
    var left := LeftOf(shares, n - 1, budget);
    left - Min(shares[n - 1], left)
  }

  lemma {:induction false} LeftIs(shares: seq<nat>, n: nat, budget: nat)
    requires n <= |shares|
    ensures LeftOf(shares, n, budget) == budget - Min(budget, Sum(shares, n))
  {
    if n > 0 { LeftIs(shares, n - 1, budget); }
  }

  /** The first `n`, from the first on, get their share or what is left. */
  function Gifts(shares: seq<nat>, n: nat, budget: nat): (given: seq<nat>)
    requires n <= |shares|
    ensures |given| == |shares|
  {
    seq(|shares|, i requires 0 <= i < |shares| =>
      if i < n then Min(shares[i], LeftOf(shares, i, budget)) else 0)
  }

  lemma {:induction false} GiftsSum(shares: seq<nat>, given: seq<nat>, n: nat, budget: nat)
    requires n <= |shares| == |given|
    requires forall i {:trigger given[i]} :: 0 <= i < n ==> given[i] == Min(shares[i], LeftOf(shares, i, budget))
    ensures Sum(given, n) == budget - LeftOf(shares, n, budget)
  {
    if n > 0 {
      GiftsSum(shares, given, n - 1, budget);
    }
  }

  /** In all it is the budget, or all that can be given away if that is less. */
  lemma GiftsTotal(shares: seq<nat>, budget: nat)
    ensures Sum(Gifts(shares, |shares|, budget), |shares|) == Min(budget, Sum(shares, |shares|))
  {
    GiftsSum(shares, Gifts(shares, |shares|, budget), |shares|, budget);
    LeftIs(shares, |shares|, budget);
  }

  /** Nobody gets less than its share while one after it gets something. */
  lemma LowestFirst(shares: seq<nat>, budget: nat, i: nat, j: nat)
    requires i < j < |shares| && Gifts(shares, |shares|, budget)[j] > 0
    ensures Gifts(shares, |shares|, budget)[i] == shares[i]
  {
    LeftShrinks(shares, i + 1, j, budget);
  }

  lemma {:induction false} LeftShrinks(shares: seq<nat>, m: nat, n: nat, budget: nat)
    requires m <= n <= |shares|
    ensures LeftOf(shares, m, budget) >= LeftOf(shares, n, budget)
    decreases n
  {
    if m < n { LeftShrinks(shares, m, n - 1, budget); }
  }

  lemma NothingLeft(shares: seq<nat>, n: nat, budget: nat)
    requires n <= |shares| && (n == |shares| || LeftOf(shares, n, budget) == 0)
    ensures Gifts(shares, n, budget) == Gifts(shares, |shares|, budget)
  {
    forall i | n <= i < |shares| ensures LeftOf(shares, i, budget) == 0 {
      LeftShrinks(shares, n, i, budget);
    }
  }

  function WithGifts(rs: seq<Resource>, given: seq<nat>): (out: seq<Resource>)
    requires |given| == |rs|
    ensures |out| == |rs|
  {
    seq(|rs|, i requires 0 <= i < |rs| => rs[i].(rebalance := given[i]))
  }

  lemma NextGift(rs: seq<Resource>, shares: seq<nat>, i: nat, budget: nat)
    requires |shares| == |rs| && i < |rs|
    ensures var list, gift := WithGifts(rs, Gifts(shares, i, budget)), Min(shares[i], LeftOf(shares, i, budget));
      && list[i := list[i].(rebalance := gift)] == WithGifts(rs, Gifts(shares, i + 1, budget))
      && LeftOf(shares, i + 1, budget) == LeftOf(shares, i, budget) - gift
      && list[i].ranges == rs[i].ranges && list[i].loadScale == rs[i].loadScale
  {
  }

  /** What becomes of a list that the budget is shared out over: only a ranger with ranges and
      a scale below the half gives any away, no more than its scale goes into the half, and
      one that is followed by another that gives no fewer. */
  lemma GivenMeans(rs: seq<Resource>, budget: nat, i: nat, j: nat)
    requires i < |rs| && rs[i].loadScale > 0 && j < |rs|
    ensures var out := WithGifts(rs, Gifts(SharesOf(rs, INT16_MAX), |rs|, budget));
      var given, scale := out[i].rebalance, rs[i].loadScale;
      && out[i] == rs[i].(rebalance := given)
      && (given > 0 ==> rs[i].ranges > 0 && scale < 0x7FFF && given * scale <= 0x7FFF)
      && (i < j && out[j].rebalance > 0 && rs[i].ranges > 0 && scale < 0x7FFF ==> 0x7FFF < (given + 1) * scale)
  {
    var shares := SharesOf(rs, INT16_MAX);
    var left := LeftOf(shares, i, budget);
    GiftMeans(rs[i].ranges, rs[i].loadScale, left, Min(shares[i], left));
    if i < j && Gifts(shares, |rs|, budget)[j] > 0 { LowestFirst(shares, budget, i, j); }
  }

  lemma GiftMeans(ranges: nat, scale: nat, left: nat, given: nat)
    requires scale > 0 && given == Min(Share(ranges, scale, INT16_MAX), left)
    ensures given > 0 ==> ranges > 0 && scale < 0x7FFF && given * scale <= 0x7FFF
    ensures ranges > 0 && scale < 0x7FFF && given == Share(ranges, scale, INT16_MAX) ==> 0x7FFF < (given + 1) * scale
  {
    var share := Share(ranges, scale, INT16_MAX);
    ShareMeans(ranges, scale, INT16_MAX);
    Distribute(share - given, given, scale);
    AtLeast(share - given, scale);
  }

  predicate Ascending(rs: seq<Resource>)
  {
    forall i, j :: 0 <= i < j < |rs| ==> rs[i].loadScale <= rs[j].loadScale
  }

  function Total(rs: seq<Resource>, n: nat): nat
    requires n <= |rs|
  {
    if n == 0 then 0 else U64(Total(rs, n - 1) + rs[n - 1].ranges)
  }

  /** The total is the sum of all ranges, in 64 bits. */
  lemma {:induction false} TotalMeans(rs: seq<Resource>, ranges: seq<nat>, n: nat)
    requires n <= |rs| == |ranges| && forall i :: 0 <= i < |rs| ==> ranges[i] == rs[i].ranges
    ensures Total(rs, n) == Sum(ranges, n) % WORD64
  {
    if n > 0 {
      TotalMeans(rs, ranges, n - 1);
      AddedInWord(Sum(ranges, n - 1), rs[n - 1].ranges);
    }
  }

  lemma AddedInWord(a: nat, b: nat)
    ensures (a % WORD64 + b) % WORD64 == (a + b) % WORD64
  {
  }

  // ----- evaluating the reports

  class RangersResources {
    var list: seq<Resource>
    const rebalanceMax: nat

    constructor (rebalanceMax: nat)
      requires rebalanceMax < 0x100
      ensures list == [] && this.rebalanceMax == rebalanceMax
    {
      list := [];
      this.rebalanceMax := rebalanceMax;
    }

    method Measure() returns (m: Largest, total: nat)
      ensures m == LargestOf(list, |list|) && total == Total(list, |list|)
    {
      m, total := Largest(1, 1, 1), 0;
      for i := 0 to |list|
        invariant m == LargestOf(list, i) && total == Total(list, i)
      {
        var r := list[i];
        if r.mem > m.mem { m := m.(mem := r.mem); }
        if r.cpu > m.cpu { m := m.(cpu := r.cpu); }
        if r.ranges > m.ranges { m := m.(ranges := r.ranges); }
        total := U64(total + r.ranges);
      }
    }

    method SetRaws(m: Largest) returns (best: nat)
      requires m.mem > 0 && m.cpu > 0 && m.ranges > 0
      modifies this
      ensures list == Raws(old(list), m) && best == BestScale(list, |list|)
    {
      best := 1;
      ghost var raws := Raws(list, m);
      for i := 0 to |list|
        invariant |list| == |old(list)| && best == BestScale(raws, i)
        invariant forall k :: 0 <= k < i ==> list[k] == raws[k]
        invariant forall k :: i <= k < |list| ==> list[k] == old(list)[k]
      {
        var raw := Raw(list[i], m);
        list := list[i := list[i].(loadScale := raw)];
        if raw > best { best := raw; }
      }
      assert list == raws;
    }

    method Normalise(best: nat) returns (top: nat)
      requires best > 0
      modifies this
      ensures |list| == |old(list)|
      ensures forall i :: 0 <= i < |list| ==>
        list[i] == old(list)[i].(loadScale := Normal(old(list)[i].loadScale, best))
      ensures forall i :: 0 <= i < |list| ==> list[i].loadScale <= top
      ensures top == 0 || exists i :: 0 <= i < |list| && list[i].loadScale == top
    {
      top := 0;
      for i := 0 to |list|
        invariant |list| == |old(list)|
        invariant forall k :: 0 <= k < i ==>
          list[k] == old(list)[k].(loadScale := Normal(old(list)[k].loadScale, best))
        invariant forall k :: i <= k < |list| ==> list[k] == old(list)[k]
        invariant forall k :: 0 <= k < i ==> list[k].loadScale <= top
        invariant top == 0 || exists k :: 0 <= k < i && list[k].loadScale == top
      {
        var scale := Normal(list[i].loadScale, best);
        list := list[i := list[i].(loadScale := scale)];
        if top < scale {
          top := scale;
          assert list[i].loadScale == top;
        }
      }
    }

    /** The overloaded give away ranges, from the first on, until the budget is used. */
    method Balance(half: nat, budget: nat, ghost shares: seq<nat>)
      requires forall i :: 0 <= i < |list| ==> list[i].loadScale > 0 && list[i].rebalance == 0
      requires |shares| == |list|
      requires forall i {:trigger Share(list[i].ranges, list[i].loadScale, half)} ::
        0 <= i < |list| ==> shares[i] == Share(list[i].ranges, list[i].loadScale, half)
      modifies this
      ensures list == WithGifts(old(list), Gifts(shares, |shares|, budget))
    {
      var left := budget;
      var i := 0;
      ghost var base := list;
      assert list == WithGifts(base, Gifts(shares, 0, budget));
      while i < |list| && left > 0
        invariant i <= |list| == |shares| && left == LeftOf(shares, i, budget)
        invariant list == WithGifts(base, Gifts(shares, i, budget))
      {
        NextGift(base, shares, i, budget);
        var balance := Take(list[i], half, left, shares[i]);
        ghost var after := WithGifts(base, Gifts(shares, i + 1, budget));
        assert list[i := list[i].(rebalance := balance)] == after;
        list := list[i := list[i].(rebalance := balance)];
        left := left - balance;
        i := i + 1;
      }
      NothingLeft(shares, i, budget);
    }

    /** What one ranger gives away when that much is left of the budget. */
    method Take(r: Resource, half: nat, left: nat, ghost share: nat) returns (balance: nat)
      requires r.loadScale > 0 && share == Share(r.ranges, r.loadScale, half)
      ensures balance == Min(share, left)
    {
      balance := 0;
      if r.ranges > 0 && r.loadScale < half {
        var chk := half / r.loadScale;
        balance := if chk > left then left else chk;
      }
    }

    /** Stands for a library's sort, of which no more is used than is stated here. */
    method Sort()
      modifies this
      ensures Ascending(list) && multiset(list) == multiset(old(list))
    {
      var sorted: seq<Resource> := [];
      for i := 0 to |list|
        invariant list == old(list) && Ascending(sorted)
        invariant multiset(sorted) == multiset(list[..i])
      {
        assert list[..i + 1] == list[..i] + [list[i]];
        InsertAscends(sorted, list[i]);
        InsertCounts(sorted, PlaceOf(sorted, |sorted|, list[i]), list[i]);
        sorted := Insert(sorted, list[i]);
      }
      assert list[..|list|] == list;
      list := sorted;
    }

    /** Gives every report its load scale. */
    method Scale() returns (total: nat, top: nat)
      requires forall i :: 0 <= i < |list| ==> list[i].rebalance == 0
      modifies this
      ensures list == Scaled(old(list)) && total == Total(old(list), |old(list)|)
      ensures top == if list == [] then 0 else UINT16_MAX
    {
      var m;
      m, total := Measure();
      var best := SetRaws(m);
      top := Normalise(best);
      assert list == Scaled(old(list));
      ScaledTop(old(list), top);
    }

    /** Scales all the reports and then shares the budget out, if there is one and
        there are enough ranges.  Before the budget is shared out the list is as in
        `base`. */
    method Evaluate() returns (ghost base: seq<Resource>)
      requires forall i :: 0 <= i < |list| ==> list[i].rebalance == 0
      modifies this
      ensures multiset(base) == multiset(Scaled(old(list)))
      ensures rebalanceMax == 0 ==> base == Scaled(old(list))
      ensures rebalanceMax > 0 ==> forall i, j :: 0 <= i < j < |base| ==> base[i].loadScale <= base[j].loadScale
      ensures list == if rebalanceMax > 0 && Total(old(list), |old(list)|) > |old(list)| * 4
        then WithGifts(base, Gifts(SharesOf(base, INT16_MAX), |base|, rebalanceMax)) else base
    {
      var total, top := Scale();
      if rebalanceMax > 0 {
        Sort();
        AllScaled(old(list), list);
        base := list;
        if total > |list| * 4 && top / 2 > 0 {
          Balance(top / 2, rebalanceMax, SharesOf(list, INT16_MAX));
        }
      } else {
        base := list;
      }
    }
  }

  /** Where to put `r` among the first `n`. */
  function PlaceOf(sorted: seq<Resource>, n: nat, r: Resource): (k: nat)
    requires n <= |sorted|
    ensures k <= n && (k > 0 ==> sorted[k - 1].loadScale <= r.loadScale)
    ensures forall i :: k <= i < n ==> r.loadScale < sorted[i].loadScale
  {
    if n > 0 && r.loadScale < sorted[n - 1].loadScale then PlaceOf(sorted, n - 1, r) else n
  }

  function Insert(sorted: seq<Resource>, r: Resource): seq<Resource>
  {
    var k := PlaceOf(sorted, |sorted|, r);
    sorted[..k] + [r] + sorted[k..]
  }

  lemma InsertCounts<A>(s: seq<A>, k: nat, x: A)
    requires k <= |s|
    ensures multiset(s[..k] + [x] + s[k..]) == multiset(s) + multiset{x}
  {
    assert s == s[..k] + s[k..];
  }

  lemma InsertAscends(s: seq<Resource>, r: Resource)
    requires Ascending(s)
    ensures Ascending(Insert(s, r))
  {
    var k := PlaceOf(s, |s|, r);
    var out := s[..k] + [r] + s[k..];
    forall i, j | 0 <= i < j < |out| ensures out[i].loadScale <= out[j].loadScale {
      if i < k <= j {
        assert s[i].loadScale <= s[k - 1].loadScale;
      }
    }
  }

  lemma ScaledTop(rs: seq<Resource>, top: nat)
    requires forall i :: 0 <= i < |rs| ==> Scaled(rs)[i].loadScale <= top
    requires top == 0 || exists i :: 0 <= i < |rs| && Scaled(rs)[i].loadScale == top
    ensures top == if rs == [] then 0 else UINT16_MAX
  {
    if rs != [] {
      ScaledMaximum(rs);
      forall i | 0 <= i < |rs| ensures Scaled(rs)[i].loadScale <= UINT16_MAX { ScaledRange(rs, i); }
    }
  }

  lemma AllScaled(rs: seq<Resource>, sorted: seq<Resource>)
    requires multiset(sorted) == multiset(Scaled(rs))
    requires forall i :: 0 <= i < |rs| ==> rs[i].rebalance == 0
    ensures |sorted| == |rs|
    ensures forall i :: 0 <= i < |sorted| ==> sorted[i].loadScale > 0 && sorted[i].rebalance == 0
  {
    assert |sorted| == |multiset(sorted)|;
    forall i | 0 <= i < |sorted| ensures sorted[i].loadScale > 0 && sorted[i].rebalance == 0 {
      assert sorted[i] in multiset(sorted) && sorted[i] in Scaled(rs);
      var k :| 0 <= k < |rs| && Scaled(rs)[k] == sorted[i];
      ScaledRange(rs, k);
    }
  }
}
