/** The 32-bit Fletcher checksum over 16-bit big-endian words.

    The program sums up to 360 words in 32-bit registers before it reduces
    modulo 65535.  `uint32` arithmetic here is checked, not wrapping, so the
    verified loop never passes 2^32 - 1; `DelayTight` says that one word more
    can. */
module Checksum {
  import opened Common

  newtype uint32 = x: int | 0 <= x < 0x1_0000_0000

  const MODULUS := 65535
  const BLOCK_WORDS := 360

  // ----- the plain definition

  function WordCount(data: seq<Byte>): nat { (|data| + 1) / 2 }

  /** Word `k`: two bytes, the first one high; an odd last byte counts unshifted. */
  function Word(data: seq<Byte>, k: nat): (w: int)
    requires k < WordCount(data)
    ensures 0 <= w <= 65535
  {
    if 2 * k + 1 < |data| then 256 * (data[2 * k] as int) + data[2 * k + 1] else data[2 * k]
  }

  /** The sum of the first `n` words. */
  function Sum(data: seq<Byte>, n: nat): nat
    requires n <= WordCount(data)
  {
    if n == 0 then 0 else Sum(data, n - 1) + Word(data, n - 1)
  }

  /** The sum of the first `n` prefix sums. */
  function SumOfSums(data: seq<Byte>, n: nat): nat
    requires n <= WordCount(data)
  {
    if n == 0 then 0 else SumOfSums(data, n - 1) + Sum(data, n)
  }

  /** The two sums reduced, the second above the first. */
  function Joined(s0: nat, s1: nat): nat
  {
    s1 % MODULUS * 65536 + s0 % MODULUS
  }

  function Fletcher(data: seq<Byte>): int
  {
    Joined(Sum(data, WordCount(data)), SumOfSums(data, WordCount(data)))
  }

  // ----- the bound on delayed reduction

  /** The largest register values after `k` words, from reduced registers. */
  function MaxSum(k: nat): nat { 65534 + 65535 * k }

  function MaxSumOfSums(k: nat): nat
  {
    if k == 0 then 65534 else MaxSumOfSums(k - 1) + MaxSum(k)
  }

  lemma {:induction false} MaxClosedForm(k: nat)
    ensures 2 * MaxSumOfSums(k) == 131068 * (k + 1) + 65535 * (k * k + k)
  {
    if k > 0 {
      MaxClosedForm(k - 1);
      assert k * k + k == ((k - 1) * (k - 1) + (k - 1)) + 2 * k;
    }
  }

  lemma {:induction false} MaxMonotone(k: nat, n: nat)
    requires k <= n
    ensures MaxSumOfSums(k) <= MaxSumOfSums(n)
    decreases n - k
  {
    if k < n {
      MaxMonotone(k + 1, n);
    }
  }

  /** The formulas for a block, and for one word more. */
  lemma MaxOfBlock()
    ensures MaxSumOfSums(BLOCK_WORDS) < 0x1_0000_0000 <= MaxSumOfSums(BLOCK_WORDS + 1)
  {
    MaxClosedForm(BLOCK_WORDS);
    MaxClosedForm(BLOCK_WORDS + 1);
  }

  /** What the registers hold at word `i` when they were last reduced at word `k`. */
  function Late0(data: seq<Byte>, k: nat, i: nat): int
    requires k <= i <= WordCount(data)
  {
    Sum(data, k) % MODULUS + Sum(data, i) - Sum(data, k)
  }

  function Late1(data: seq<Byte>, k: nat, i: nat): int
    requires k <= i <= WordCount(data)
  {
    if i == k then SumOfSums(data, k) % MODULUS else Late1(data, k, i - 1) + Late0(data, k, i)
  }

  lemma {:induction false} LateWithin(data: seq<Byte>, k: nat, i: nat)
    requires k <= i <= WordCount(data)
    ensures 0 <= Late0(data, k, i) <= MaxSum(i - k) && 0 <= Late1(data, k, i) <= MaxSumOfSums(i - k)
  {
    if i > k { LateWithin(data, k, i - 1); }
  }

  /** A block that leaves both registers at 65534, and then `n` words of 0xFFFF. */
  function WorstData(n: nat): seq<Byte>
  {
    seq(2 * BLOCK_WORDS - 2, _ => 0) + [0xFF, 0xFE] + seq(2 * n, _ => 0xFF)
  }

  lemma {:induction false} ZerosAddNothing(data: seq<Byte>, i: nat)
    requires i <= WordCount(data) && forall k :: 0 <= k < i ==> Word(data, k) == 0
    ensures Sum(data, i) == 0 && SumOfSums(data, i) == 0
  {
    if i > 0 { ZerosAddNothing(data, i - 1); }
  }

  /** From registers at 65534, words of 0xFFFF take them as far as they can get. */
  lemma {:induction false} GetsToMax(data: seq<Byte>, k: nat, i: nat)
    requires k + i <= WordCount(data) && forall j :: k <= j < k + i ==> Word(data, j) == 65535
    requires Sum(data, k) % MODULUS == 65534 && SumOfSums(data, k) % MODULUS == 65534
    ensures Late0(data, k, k + i) == MaxSum(i) && Late1(data, k, k + i) == MaxSumOfSums(i)
  {
    if i > 0 { GetsToMax(data, k, i - 1); }
  }

  lemma WorstWords(n: nat)
    ensures WordCount(WorstData(n)) == BLOCK_WORDS + n
    ensures forall k :: 0 <= k < BLOCK_WORDS - 1 ==> Word(WorstData(n), k) == 0
    ensures Word(WorstData(n), BLOCK_WORDS - 1) == 65534
    ensures forall k :: BLOCK_WORDS <= k < BLOCK_WORDS + n ==> Word(WorstData(n), k) == 65535
  {
  }

  lemma WorstReached(n: nat)
    ensures WordCount(WorstData(n)) == BLOCK_WORDS + n
    ensures Late1(WorstData(n), BLOCK_WORDS, BLOCK_WORDS + n) == MaxSumOfSums(n)
  {
    var data := WorstData(n);
    WorstWords(n);
    ZerosAddNothing(data, BLOCK_WORDS - 1);
    assert Sum(data, BLOCK_WORDS) == 65534 && SumOfSums(data, BLOCK_WORDS) == 65534;
    GetsToMax(data, BLOCK_WORDS, n);
  }

  predicate LateFit(data: seq<Byte>, k: nat, n: nat)
    requires k + n <= WordCount(data)
  {
    Late0(data, k, k + n) < 0x1_0000_0000 && Late1(data, k, k + n) < 0x1_0000_0000
  }

  /** Whatever the data, and wherever they were last reduced. */
  ghost predicate AlwaysFit(n: nat)
  {
    forall data: seq<Byte>, k: nat :: k + n <= WordCount(data) ==> LateFit(data, k, n)
  }

  /** Up to 360 words always fit 32 bits after a reduction, and no greater number does. */
  lemma DelayTight(n: nat)
    ensures AlwaysFit(n) <==> n <= BLOCK_WORDS
  {
    if n <= BLOCK_WORDS {
      forall data: seq<Byte>, k: nat | k + n <= WordCount(data)
        ensures LateFit(data, k, n)
      {
        BlockFits(data, k, n);
      }
    } else {
      WorstOverflows(n);
    }
  }

  lemma BlockFits(data: seq<Byte>, k: nat, n: nat)
    requires n <= BLOCK_WORDS && k + n <= WordCount(data)
    ensures LateFit(data, k, n)
  {
    MaxOfBlock();
    MaxMonotone(n, BLOCK_WORDS);
    MaxSumBelow(n);
    LateWithin(data, k, k + n);
  }

  lemma WorstOverflows(n: nat)
    requires n > BLOCK_WORDS
    ensures BLOCK_WORDS + n <= WordCount(WorstData(n)) && !LateFit(WorstData(n), BLOCK_WORDS, n)
  {
    MaxOfBlock();
    MaxMonotone(BLOCK_WORDS + 1, n);
    WorstReached(n);
  }

  lemma {:induction false} MaxSumBelow(k: nat)
    ensures MaxSum(k) <= MaxSumOfSums(k)
  {
    if k > 0 { MaxSumBelow(k - 1); }
  }

  lemma WordFits(k: nat)
    requires k < BLOCK_WORDS
    ensures MaxSum(k + 1) < 0x1_0000_0000
    ensures MaxSumOfSums(k) + MaxSum(k + 1) == MaxSumOfSums(k + 1) < 0x1_0000_0000
  {
    MaxOfBlock();
    MaxMonotone(k + 1, BLOCK_WORDS);
  }

  lemma Reduced(x: int, q: int)
    ensures (x - MODULUS * q) % MODULUS == x % MODULUS
  {
  }

  // ----- the checksum as computed

  /** What the first byte of word `k` adds, shifted when a second one follows. */
  function HighByte(data: seq<Byte>, k: nat): (b: uint32)
    requires k < WordCount(data)
  {
    if 2 * k + 1 < |data| then 256 * (data[2 * k] as uint32) else 0
  }

  /** What the last byte of word `k` adds. */
  function LowByte(data: seq<Byte>, k: nat): (b: uint32)
    requires k < WordCount(data)
    ensures HighByte(data, k) as int + b as int == Word(data, k)
  {
    data[if 2 * k + 1 < |data| then 2 * k + 1 else 2 * k] as uint32
  }

  /** The registers at word `i`, last reduced at word `k`, are behind the plain sums by that
      many times 65535. */
  ghost predicate Behind(data: seq<Byte>, k: nat, i: nat, c0: uint32, c1: uint32, q0: nat, q1: nat)
    requires k <= i <= WordCount(data)
  {
    && c0 as int == Sum(data, i) - MODULUS * q0 && c0 as int <= MaxSum(i - k)
    && c1 as int == SumOfSums(data, i) - MODULUS * q1 && c1 as int <= MaxSumOfSums(i - k)
  }

  /** Adds one word. */
  method AddWord(data: seq<Byte>, k: nat, i: nat, s0: uint32, s1: uint32, ghost q0: nat, ghost q1: nat)
    returns (c0: uint32, c1: uint32)
    requires k <= i < WordCount(data) && i - k < BLOCK_WORDS && Behind(data, k, i, s0, s1, q0, q1)
    ensures Behind(data, k, i + 1, c0, c1, q0, q0 + q1)
  {
    WordFits(i - k);
    c0 := s0 + HighByte(data, i);
    c0 := c0 + LowByte(data, i);
    c1 := s1 + c0;
  }

  lemma Start(data: seq<Byte>, k: nat, s0: uint32, s1: uint32)
    requires k <= WordCount(data)
    requires s0 as int == Sum(data, k) % MODULUS && s1 as int == SumOfSums(data, k) % MODULUS
    ensures Behind(data, k, k, s0, s1, Sum(data, k) / MODULUS, SumOfSums(data, k) / MODULUS)
  {
  }

  /** Adds the words from `k` to `end`, at most a block of them, to reduced
      registers, then reduces. */
  method AddWords(data: seq<Byte>, k: nat, end: nat, s0: uint32, s1: uint32) returns (c0: uint32, c1: uint32)
    requires k <= end <= WordCount(data) && end - k <= BLOCK_WORDS
    requires s0 as int == Sum(data, k) % MODULUS && s1 as int == SumOfSums(data, k) % MODULUS
    ensures c0 as int == Sum(data, end) % MODULUS && c1 as int == SumOfSums(data, end) % MODULUS
  {
    Start(data, k, s0, s1);
    c0, c1 := s0, s1;
    ghost var q0: nat, q1: nat := Sum(data, k) / MODULUS, SumOfSums(data, k) / MODULUS;
    var i := k;
    while i < end
      invariant k <= i <= end && Behind(data, k, i, c0, c1, q0, q1)
    {
      c0, c1 := AddWord(data, k, i, c0, c1, q0, q1);
      q1 := q0 + q1;
      i := i + 1;
    }
    Reduced(Sum(data, end), q0);
    Reduced(SumOfSums(data, end), q1);
    c0, c1 := c0 % 65535, c1 % 65535;
  }

  /** The checksum is the plain definition, for every length. */
  method Fletcher32(data: seq<Byte>) returns (sum: uint32)
    ensures sum as int == Fletcher(data)
  {
    var c0: uint32, c1: uint32 := 0, 0;
    var len, k := |data|, 0;
    while len >= 720
      invariant 0 <= len <= |data| && 2 * k + len == |data|
      invariant c0 as int == Sum(data, k) % MODULUS && c1 as int == SumOfSums(data, k) % MODULUS
    {
      c0, c1 := AddWords(data, k, k + BLOCK_WORDS, c0, c1);
      len, k := len - 720, k + BLOCK_WORDS;
    }
    if len != 0 {
      c0, c1 := AddWords(data, k, WordCount(data), c0, c1);
    }
    sum := c1 * 65536 + c0;
  }

  lemma {:induction false} SumsOfPrefix(data: seq<Byte>, b: Byte, n: nat)
    requires n <= |data| / 2
    ensures Sum(data + [b], n) == Sum(data, n) && SumOfSums(data + [b], n) == SumOfSums(data, n)
  {
    if n > 0 { SumsOfPrefix(data, b, n - 1); }
  }

  lemma NoBytes()
    ensures Fletcher([]) == 0
  {
  }

  /** One byte more: the first of a word counts by itself, until the second one makes it the
      high one. */
  lemma OneMoreByte(data: seq<Byte>, b: Byte)
    ensures var c0, c1 := Fletcher(data) % 0x1_0000, Fletcher(data) / 0x1_0000;
      Fletcher(data + [b]) ==
        if |data| % 2 == 0 then (c1 + c0 + b) % 65535 * 0x1_0000 + (c0 + b) % 65535
        else var more := 255 * data[|data| - 1] + b; (c1 + more) % 65535 * 0x1_0000 + (c0 + more) % 65535
  {
    if |data| % 2 == 0 { NewWord(data, b); } else { LongerWord(data, b); }
  }

  lemma NewWord(data: seq<Byte>, b: Byte)
    requires |data| % 2 == 0
    ensures var c0, c1 := Fletcher(data) % 0x1_0000, Fletcher(data) / 0x1_0000;
      Fletcher(data + [b]) == (c1 + c0 + b) % 65535 * 0x1_0000 + (c0 + b) % 65535
  {
    var n, all := WordCount(data), data + [b];
    SumsOfOneMore(data, b);
    BothMore(Sum(data, n), SumOfSums(data, n), b, Sum(all, n + 1), SumOfSums(all, n + 1));
  }

  lemma LongerWord(data: seq<Byte>, b: Byte)
    requires |data| % 2 == 1
    ensures var c0, c1, more := Fletcher(data) % 0x1_0000, Fletcher(data) / 0x1_0000, 255 * data[|data| - 1] + b;
      Fletcher(data + [b]) == (c1 + more) % 65535 * 0x1_0000 + (c0 + more) % 65535
  {
    var n, all := WordCount(data), data + [b];
    SumsOfOneMore(data, b);
    EachMore(Sum(data, n), SumOfSums(data, n), 255 * data[|data| - 1] + b, Sum(all, n), SumOfSums(all, n));
  }

  lemma BothMore(s0: nat, s1: nat, d: nat, t0: nat, t1: nat)
    requires t0 == s0 + d && t1 == s1 + s0 + d
    ensures var c0, c1 := Joined(s0, s1) % 0x1_0000, Joined(s0, s1) / 0x1_0000;
      Joined(t0, t1) == (c1 + c0 + d) % 65535 * 0x1_0000 + (c0 + d) % 65535
  {
    Halves(s0, s1);
    Congruent(s0, d);
    CongruentTwo(s1, s0, d);
  }

  lemma EachMore(s0: nat, s1: nat, d: nat, t0: nat, t1: nat)
    requires t0 == s0 + d && t1 == s1 + d
    ensures var c0, c1 := Joined(s0, s1) % 0x1_0000, Joined(s0, s1) / 0x1_0000;
      Joined(t0, t1) == (c1 + d) % 65535 * 0x1_0000 + (c0 + d) % 65535
  {
    Halves(s0, s1);
    Congruent(s0, d);
    Congruent(s1, d);
  }

  lemma SumsOfOneMore(data: seq<Byte>, b: Byte)
    ensures var all, n := data + [b], WordCount(data);
      if |data| % 2 == 0 then
        && WordCount(all) == n + 1
        && Sum(all, n + 1) == Sum(data, n) + b && SumOfSums(all, n + 1) == SumOfSums(data, n) + Sum(data, n) + b
      else
        && WordCount(all) == n
        && Sum(all, n) == Sum(data, n) + (255 * data[|data| - 1] + b)
        && SumOfSums(all, n) == SumOfSums(data, n) + (255 * data[|data| - 1] + b)
  {
    var n := |data| / 2;
    SumsOfPrefix(data, b, n);
    if |data| % 2 == 0 {
      assert Word(data + [b], n) == b;
    } else {
      assert Word(data, n) == data[|data| - 1] && Word(data + [b], n) == 256 * (data[|data| - 1] as int) + b;
    }
  }

  lemma CongruentTwo(x: nat, y: nat, d: nat)
    ensures (x + y + d) % MODULUS == (x % MODULUS + y % MODULUS + d) % MODULUS
  {
    Congruent(x, y + d);
    Congruent(y, x % MODULUS + d);
  }

  lemma Congruent(x: nat, d: nat)
    ensures (x + d) % MODULUS == (x % MODULUS + d) % MODULUS
  {
  }

  /** The two halves of a checksum. */
  lemma Halves(s0: nat, s1: nat)
    ensures var sum := Joined(s0, s1);
      sum % 0x1_0000 == s0 % MODULUS && sum / 0x1_0000 == s1 % MODULUS
  {
  }

  // ----- what the checksum detects

  predicate SameButWord(a: seq<Byte>, b: seq<Byte>, i: nat)
  {
    |a| == |b| && i < WordCount(a) && forall k :: 0 <= k < WordCount(a) && k != i ==> Word(a, k) == Word(b, k)
  }

  predicate WordsSwapped(a: seq<Byte>, b: seq<Byte>, i: nat, j: nat)
  {
    && |a| == |b| && i < j < WordCount(a)
    && Word(a, i) == Word(b, j) && Word(a, j) == Word(b, i)
    && forall k :: 0 <= k < WordCount(a) && k != i && k != j ==> Word(a, k) == Word(b, k)
  }

  /** Two words are exchanged when their bytes are. */
  lemma SwapIs(a: seq<Byte>, i: nat, j: nat)
    requires i < j && 2 * j + 1 < |a|
    ensures WordsSwapped(a, a[2 * i := a[2 * j]][2 * i + 1 := a[2 * j + 1]]
                             [2 * j := a[2 * i]][2 * j + 1 := a[2 * i + 1]], i, j)
  {
  }

  lemma OneMore(x: int, d: int)
    ensures (x + 1) * d == x * d + d
  {
  }

  lemma {:induction false} SumsAfterWordChange(a: seq<Byte>, b: seq<Byte>, i: nat, n: nat)
    requires SameButWord(a, b, i) && n <= WordCount(a)
    ensures var d := Word(b, i) - Word(a, i);
      && Sum(b, n) == Sum(a, n) + (if n > i then d else 0)
      && SumOfSums(b, n) == SumOfSums(a, n) + (if n > i then (n - i) * d else 0)
  {
    if n > 0 {
      SumsAfterWordChange(a, b, i, n - 1);
      OneMore(n - 1 - i, Word(b, i) - Word(a, i));
    }
  }

  lemma {:induction false} SumsAfterSwap(a: seq<Byte>, b: seq<Byte>, i: nat, j: nat, n: nat)
    requires WordsSwapped(a, b, i, j) && n <= WordCount(a)
    ensures var d := Word(b, i) - Word(a, i);
      && Sum(b, n) == Sum(a, n) + (if i < n <= j then d else 0)
      && SumOfSums(b, n) == SumOfSums(a, n) + (if n <= i then 0 else if n <= j then (n - i) * d else (j - i) * d)
  {
    if n > 0 {
      SumsAfterSwap(a, b, i, j, n - 1);
      OneMore(n - 1 - i, Word(b, i) - Word(a, i));
    }
  }

  lemma MultipleOfModulus(x: int, d: int)
    ensures (x + d) % MODULUS == x % MODULUS <==> d % MODULUS == 0
  {
  }

  lemma ProductOfMultiple(n: int, d: int)
    requires d % MODULUS == 0
    ensures n * d % MODULUS == 0
  {
    var q := d / MODULUS;
    assert n * d == n * q * MODULUS;
    MultipleOfModulus(0, n * d);
  }

  lemma FletcherParts(a: seq<Byte>, b: seq<Byte>)
    ensures Fletcher(a) == Fletcher(b) <==>
      && Sum(a, WordCount(a)) % MODULUS == Sum(b, WordCount(b)) % MODULUS
      && SumOfSums(a, WordCount(a)) % MODULUS == SumOfSums(b, WordCount(b)) % MODULUS
  {
  }

  /** A change confined to one word goes unseen exactly when the two values are
      congruent modulo 65535, that is, 0 for 0xFFFF or the other way round. */
  lemma OneWordChange(a: seq<Byte>, b: seq<Byte>, i: nat)
    requires SameButWord(a, b, i)
    ensures Fletcher(a) == Fletcher(b) <==> Word(a, i) % MODULUS == Word(b, i) % MODULUS
  {
    var n, d := WordCount(a), Word(b, i) - Word(a, i);
    SumsAfterWordChange(a, b, i, n);
    assert Sum(b, n) % MODULUS == Sum(a, n) % MODULUS <==> d % MODULUS == 0 by {
      MultipleOfModulus(Sum(a, n), d);
    }
    assert Word(b, i) % MODULUS == Word(a, i) % MODULUS <==> d % MODULUS == 0 by {
      MultipleOfModulus(Word(a, i), d);
    }
    if d % MODULUS == 0 {
      ProductOfMultiple(n - i, d);
      MultipleOfModulus(SumOfSums(a, n), (n - i) * d);
    }
    FletcherParts(a, b);
  }

  lemma WordOfByte(a: seq<Byte>, b: seq<Byte>, at: nat)
    requires |a| == |b| && at < |a| && a[at] != b[at]
    requires forall k :: 0 <= k < |a| && k != at ==> a[k] == b[k]
    ensures SameButWord(a, b, at / 2)
    ensures 0 < Word(b, at / 2) - Word(a, at / 2) < MODULUS || 0 < Word(a, at / 2) - Word(b, at / 2) < MODULUS
  {
    forall k | 0 <= k < WordCount(a) && k != at / 2
      ensures Word(a, k) == Word(b, k)
    {
      assert 2 * k != at && 2 * k + 1 != at;
    }
    assert at == 2 * (at / 2) || at == 2 * (at / 2) + 1;
  }

  /** No change of a single byte goes unseen. */
  lemma OneByteChange(a: seq<Byte>, b: seq<Byte>, at: nat)
    requires |a| == |b| && at < |a| && a[at] != b[at]
    requires forall k :: 0 <= k < |a| && k != at ==> a[k] == b[k]
    ensures Fletcher(a) != Fletcher(b)
  {
    var i := at / 2;
    WordOfByte(a, b, at);
    MultipleOfModulus(Word(a, i), Word(b, i) - Word(a, i));
    OneWordChange(a, b, i);
  }

  /** Exchanging two words goes unseen exactly when their distance times their
      difference is a multiple of 65535. */
  lemma WordSwap(a: seq<Byte>, b: seq<Byte>, i: nat, j: nat)
    requires WordsSwapped(a, b, i, j)
    ensures Fletcher(a) == Fletcher(b) <==> (j - i) * (Word(b, i) - Word(a, i)) % MODULUS == 0
  {
    var n, shift := WordCount(a), (j - i) * (Word(b, i) - Word(a, i));
    assert Sum(b, n) == Sum(a, n) && SumOfSums(b, n) == SumOfSums(a, n) + shift by {
      SumsAfterSwap(a, b, i, j, n);
    }
    MultipleOfModulus(SumOfSums(a, n), shift);
    FletcherParts(a, b);
  }

  /** Exchanging two adjacent words is seen unless they are congruent. */
  lemma AdjacentSwap(a: seq<Byte>, b: seq<Byte>, i: nat)
    requires WordsSwapped(a, b, i, i + 1)
    ensures Fletcher(a) == Fletcher(b) <==> Word(a, i) % MODULUS == Word(a, i + 1) % MODULUS
  {
    var d := Word(b, i) - Word(a, i);
    WordSwap(a, b, i, i + 1);
    assert (i + 1 - i) * d == d;
    MultipleOfModulus(Word(a, i), d);
  }
}
