/** Integers in as few bytes as they need: seven bits a byte, or a size and that
    many bytes. */
module Serialization {
  import opened Arithmetic
  import opened Common
  import Sequences

  /** What a decoder comes to: a value and how many bytes it took, or too few bytes. */
  datatype Result<+T> = Ok(value: T, used: nat) | Overrun

  // ----- seven bits a byte

  /** The low seven bits first; all bytes but the last are flagged. */
  function Vi(val: nat): (bytes: seq<Byte>)
    ensures bytes != []
  {
    if val <= 0x7F then [val] else [val % 0x80 + 0x80] + Vi(val / 0x80)
  }

  /** The sum of the seven-bit digits. */
  function Value(bytes: seq<Byte>): nat
  {
    if bytes == [] then 0 else bytes[0] % 0x80 + 0x80 * Value(bytes[1..])
  }

  /** How many bytes there are up to the first without a flag; zero if all have it. */
  function Extent(bytes: seq<Byte>): (n: nat)
    ensures n <= |bytes|
  {
    if bytes == [] then 0
    else if bytes[0] < 0x80 then 1
    else if Extent(bytes[1..]) == 0 then 0 else 1 + Extent(bytes[1..])
  }

  function Pow(k: nat): (p: nat)
    ensures p > 0
  {
    if k == 0 then 1 else 0x80 * Pow(k - 1)
  }

  /** The value read from `bytes` by a decoder of at most `most` bytes into a word
      with that many values. */
  function Read(bytes: seq<Byte>, most: nat, word: nat): Result<nat>
    requires word > 0
  {
    var n := Extent(bytes);
    if 0 < n <= most then Ok(Value(bytes[..n]) % word, n) else Overrun
  }

  lemma {:induction false} ViReads(val: nat, rest: seq<Byte>)
    ensures Extent(Vi(val) + rest) == |Vi(val)| && Value(Vi(val)) == val
  {
    var bytes := Vi(val) + rest;
    if val <= 0x7F {
      assert Vi(val)[1..] == [];
    } else {
      ViReads(val / 0x80, rest);
      assert bytes[1..] == Vi(val / 0x80) + rest && Vi(val)[1..] == Vi(val / 0x80);
    }
  }

  /** As many bytes as seven-bit digits. */
  lemma {:induction false} ViLength(val: nat, k: nat)
    requires k > 0
    ensures |Vi(val)| <= k <==> val < Pow(k)
  {
    if val > 0x7F && k > 1 {
      ViLength(val / 0x80, k - 1);
    } else if val <= 0x7F {
      PowGrows(1, k);
    }
  }

  lemma {:induction false} PowGrows(j: nat, k: nat)
    requires j <= k
    ensures Pow(j) <= Pow(k)
    decreases k
  {
    if j < k { PowGrows(j, k - 1); }
  }

  lemma Powers()
    ensures Pow(1) == 0x80 && Pow(2) == 0x4000 && Pow(3) == 0x20_0000 && Pow(4) == 0x1000_0000
    ensures Pow(5) == 0x8_0000_0000 && Pow(6) == 0x400_0000_0000 && Pow(7) == 0x2_0000_0000_0000
    ensures Pow(8) == 0x100_0000_0000_0000 && Pow(9) == 0x8000_0000_0000_0000
  {
    assert Pow(3) == 0x80 * Pow(2);
    assert Pow(6) == 0x80 * Pow(5) && Pow(5) == 0x80 * Pow(4) && Pow(4) == 0x80 * Pow(3);
    assert Pow(9) == 0x80 * Pow(8) && Pow(8) == 0x80 * Pow(7) && Pow(7) == 0x80 * Pow(6);
  }

  function EncodedLengthVi24(val: nat): nat
  {
    if val <= 0x7F then 1 else if val <= 0x3FFF then 2 else if val <= 0x1F_FFFF then 3 else 4
  }

  function EncodedLengthVi32(val: nat): nat
  {
    if val <= 0x7F then 1 else if val <= 0x3FFF then 2 else if val <= 0x1F_FFFF then 3
    else if val <= 0xFFF_FFFF then 4 else 5
  }

  function EncodedLengthVi64(val: nat): nat
  {
    if val <= 0x7F then 1 else if val <= 0x3FFF then 2 else if val <= 0x1F_FFFF then 3
    else if val <= 0xFFF_FFFF then 4 else if val <= 0x7_FFFF_FFFF then 5
    else if val <= 0x3FF_FFFF_FFFF then 6 else if val <= 0x1_FFFF_FFFF_FFFF then 7
    else if val <= 0xFF_FFFF_FFFF_FFFF then 8 else if val <= 0x7FFF_FFFF_FFFF_FFFF then 9 else 10
  }

  const WORD24 := 0x100_0000
  const WORD32 := 0x1_0000_0000

  /** The announced lengths are the lengths. */
  lemma LengthsVi(val: nat)
    ensures val < WORD24 ==> |Vi(val)| == EncodedLengthVi24(val)
    ensures val < WORD32 ==> |Vi(val)| == EncodedLengthVi32(val)
    ensures val < WORD64 ==> |Vi(val)| == EncodedLengthVi64(val)
  {
    Powers();
    assert Pow(10) == 0x80 * Pow(9);
    ViLength(val, 1); ViLength(val, 2); ViLength(val, 3); ViLength(val, 4); ViLength(val, 5);
    ViLength(val, 6); ViLength(val, 7); ViLength(val, 8); ViLength(val, 9); ViLength(val, 10);
  }

  /** Writes a value; a buffer position goes in and the next comes out.  A value of
      more than `shifts + 1` digits is an error. */
  method EncodeVi(buf: array<Byte>, at: nat, value: nat, shifts: nat) returns (next: Option<nat>)
    requires at + |Vi(value)| <= buf.Length
    modifies buf
    ensures next.Some? <==> |Vi(value)| <= shifts + 1
    ensures next.Some? ==> next.value == at + |Vi(value)| && buf[at..next.value] == Vi(value)
    ensures forall k :: 0 <= k < buf.Length && !(at <= k < at + |Vi(value)|) ==> buf[k] == old(buf[k])
  {
    var val, to, n := value, at, 0;
    ghost var rest := Vi(value);
    while val > 0x7F
      invariant n <= shifts && to == at + n && n + |rest| == |Vi(value)| && rest == Vi(val)
      invariant buf[at..to] + rest == Vi(value)
      invariant forall k :: 0 <= k < buf.Length && !(at <= k < to) ==> buf[k] == old(buf[k])
      decreases val
    {
      ViStep(val);
      if n == shifts { return None; }
      var b := val % 0x80 + 0x80;
      Sequences.AppendOne(buf[at..to], b, rest[1..]);
      to := PutByte(buf, at, to, b);
      val := val / 0x80;
      rest := rest[1..];
      n := n + 1;
    }
    to := PutByte(buf, at, to, val);
    next := Some(to);
  }

  lemma ViStep(val: nat)
    requires val > 0x7F
    ensures Vi(val) == [val % 0x80 + 0x80] + Vi(val / 0x80) && Vi(val)[1..] == Vi(val / 0x80)
  {
  }

  method PutByte(buf: array<Byte>, from: nat, at: nat, b: Byte) returns (next: nat)
    requires from <= at < buf.Length
    modifies buf
    ensures next == at + 1 && buf[from..at] == old(buf[from..at]) && buf[from..next] == old(buf[from..at]) + [b]
    ensures forall k :: 0 <= k < buf.Length && k != at ==> buf[k] == old(buf[k])
  {
    buf[at] := b;
    next := at + 1;
  }

  /** A word of `word` values has that many whole digits and a part of one more. */
  ghost predicate IsWord(shifts: nat, word: nat)
  {
    if shifts == 0 then 0 < word <= 0x80 else word % 0x80 == 0 && IsWord(shifts - 1, word / 0x80)
  }

  lemma {:induction false} WordIs(shifts: nat, word: nat) returns (last: nat)
    requires IsWord(shifts, word)
    ensures 0 < last && word == Pow(shifts) * last
  {
    if shifts == 0 {
      last := word;
    } else {
      last := WordIs(shifts - 1, word / 0x80);
      Regroup(0x80, Pow(shifts - 1), last);
    }
  }

  lemma TheWords()
    ensures IsWord(3, WORD24) && IsWord(4, WORD32) && IsWord(9, WORD64)
  {
    assert IsWord(0, 8) && IsWord(1, 8 * 0x80) && IsWord(2, 8 * 0x80 * 0x80);
    assert IsWord(0, 16) && IsWord(1, 16 * 0x80) && IsWord(2, 16 * 0x80 * 0x80) && IsWord(3, 16 * 0x80 * 0x80 * 0x80);
    assert IsWord(0, 2) && IsWord(1, 0x100) && IsWord(2, 0x8000) && IsWord(3, 0x40_0000);
    assert IsWord(4, 0x2000_0000) && IsWord(5, 0x10_0000_0000) && IsWord(6, 0x800_0000_0000);
    assert IsWord(7, 0x4_0000_0000_0000) && IsWord(8, 0x200_0000_0000_0000);
  }

  /** One byte more of a value; what is beyond the word is cut off. */
  method OrByte(n: nat, b: Byte, p: nat, word: nat, ghost bytes: seq<Byte>, ghost i: nat, ghost shifts: nat)
    returns (m: nat)
    requires IsWord(shifts, word) && i <= shifts && i < |bytes| && b == bytes[i]
    requires n == Value(bytes[..i]) && n < p == Pow(i)
    ensures word > 0 && m == Value(bytes[..i + 1]) % word
    ensures i < shifts ==> m == Value(bytes[..i + 1]) && m < Pow(i + 1)
  {
    NextDigit(bytes, i);
    ghost var last := WordIs(shifts, word);
    OrDigit(n, b % 0x80, i, shifts, last);
    // the bits of n are all below those that are or-ed to it
    m := n + b % 0x80 * p % word;
    if i < shifts {
      DigitFits(n, b % 0x80, i, shifts, last);
      SmallMod(word, n + b % 0x80 * p);
    }
  }

  /** Reads a value into a word of `word` values, from at most `shifts + 1` bytes. */
  method DecodeVi(buf: seq<Byte>, at: nat, remain: nat, shifts: nat, word: nat) returns (r: Result<nat>)
    requires at + remain <= |buf| && IsWord(shifts, word) && word > 0
    ensures r == Read(buf[at..at + remain], shifts + 1, word)
  {
    var n, p, i := 0, 1, 0;
    ghost var bytes := buf[at..at + remain];
    while i <= shifts && i < remain
      invariant i <= remain && i <= shifts + 1 && p == Pow(i)
      invariant i <= shifts ==> n == Value(bytes[..i]) && n < p
      invariant ExtentFrom(bytes, i)
    {
      var b := buf[at + i];
      ExtentStep(bytes, i);
      n := OrByte(n, b, p, word, bytes, i, shifts);
      p := p * 0x80;
      i := i + 1;
      if b < 0x80 {
        return Ok(n, i);
      }
    }
    return Overrun;
  }

  /** All before `i` have the flag. */
  ghost predicate ExtentFrom(bytes: seq<Byte>, i: nat)
    requires i <= |bytes|
  {
    Extent(bytes) == if Extent(bytes[i..]) == 0 then 0 else i + Extent(bytes[i..])
  }

  lemma ExtentStep(bytes: seq<Byte>, i: nat)
    requires i < |bytes| && ExtentFrom(bytes, i)
    ensures if bytes[i] < 0x80 then Extent(bytes) == i + 1 else ExtentFrom(bytes, i + 1)
  {
    assert bytes[i..][0] == bytes[i] && bytes[i..][1..] == bytes[i + 1..];
  }

  /** A digit above all the bits there are: what does not fit the word is cut off. */
  lemma OrDigit(n: nat, d: nat, i: nat, shifts: nat, last: nat)
    requires n < Pow(i) && d < 0x80 && i <= shifts && 0 < last
    ensures Pow(shifts) * last > 0
    ensures n + d * Pow(i) % (Pow(shifts) * last) == (n + d * Pow(i)) % (Pow(shifts) * last)
  {
    PowSplit(i, shifts);
    Regroup(Pow(i), Pow(shifts - i), last);
    Positive(Pow(shifts - i), last);
    Cut(n, d, Pow(i), Pow(shifts - i) * last);
  }

  lemma DigitFits(n: nat, d: nat, i: nat, shifts: nat, last: nat)
    requires n < Pow(i) && d < 0x80 && i < shifts && 0 < last
    ensures n + d * Pow(i) < Pow(i + 1) <= Pow(shifts) * last
  {
    PowGrows(i + 1, shifts);
    HighDigitDecides(d, n, Pow(i), 0x80);
    AtLeast(last - 1, Pow(shifts));
    Distribute(last - 1, 1, Pow(shifts));
  }

  lemma Positive(a: nat, b: nat)
    requires a > 0 && b > 0
    ensures a * b > 0
  {
    AtLeast(a - 1, b);
    Distribute(a - 1, 1, b);
  }

  lemma Regroup(a: nat, b: nat, c: nat)
    ensures a * b * c == a * (b * c)
  {
  }

  lemma {:induction false} PowSplit(i: nat, k: nat)
    requires i <= k
    ensures Pow(k) == Pow(i) * Pow(k - i)
  {
    if i > 0 {
      PowSplit(i - 1, k - 1);
      Regroup(0x80, Pow(i - 1), Pow(k - i));
    }
  }

  lemma Cut(n: nat, d: nat, p: nat, c: nat)
    requires n < p && c > 0
    ensures p * c > 0
    ensures d * p % (p * c) == p * (d % c) && (n + d * p) % (p * c) == n + p * (d % c)
  {
    var q, r := d / c, d % c;
    assert d * p == p * c * q + p * r by {
      assert d == c * q + r;
      Distribute(c * q, r, p);
      Regroup(p, c, q);
    }
    Positive(p, c);
    assert n + p * r < p * c by {
      AtLeast(c - 1 - r, p);
      Distribute(c - 1 - r, r + 1, p);
      Distribute(r, 1, p);
    }
    ModUnique(p * c, q, p * r);
    ModUnique(p * c, q, n + p * r);
  }

  /** One digit more. */
  lemma {:induction false} NextDigit(bytes: seq<Byte>, i: nat)
    requires i < |bytes|
    ensures Value(bytes[..i + 1]) == Value(bytes[..i]) + bytes[i] % 0x80 * Pow(i)
  {
    if i == 0 {
      assert bytes[..1][1..] == [] && bytes[..0] == [];
    } else {
      NextDigit(bytes[1..], i - 1);
      assert bytes[..i + 1][1..] == bytes[1..][..i] && bytes[..i][1..] == bytes[1..][..i - 1];
      Scale(bytes[i] % 0x80, Pow(i - 1));
    }
  }

  lemma Scale(d: nat, p: nat)
    ensures 0x80 * (d * p) == d * (0x80 * p)
  {
  }

  lemma {:induction false} WordDigit(shifts: nat, word: nat)
    requires IsWord(shifts, word)
    ensures word <= Pow(shifts + 1)
  {
    if shifts > 0 { WordDigit(shifts - 1, word / 0x80); }
  }

  /** Decoding what was encoded, whatever follows it, gives the value and takes just
      the bytes of it. */
  lemma ViRoundTrip(val: nat, rest: seq<Byte>, shifts: nat, word: nat)
    requires IsWord(shifts, word) && val < word
    ensures Read(Vi(val) + rest, shifts + 1, word) == Ok(val, |Vi(val)|)
  {
    ViReads(val, rest);
    WordDigit(shifts, word);
    ViLength(val, shifts + 1);
    SmallMod(word, val);
    assert (Vi(val) + rest)[..|Vi(val)|] == Vi(val);
  }

  lemma ViRoundTrips(val: nat, rest: seq<Byte>)
    ensures val < WORD24 ==> Read(Vi(val) + rest, 4, WORD24) == Ok(val, EncodedLengthVi24(val))
    ensures val < WORD32 ==> Read(Vi(val) + rest, 5, WORD32) == Ok(val, EncodedLengthVi32(val))
    ensures val < WORD64 ==> Read(Vi(val) + rest, 10, WORD64) == Ok(val, EncodedLengthVi64(val))
  {
    TheWords();
    LengthsVi(val);
    if val < WORD24 { ViRoundTrip(val, rest, 3, WORD24); }
    if val < WORD32 { ViRoundTrip(val, rest, 4, WORD32); }
    if val < WORD64 { ViRoundTrip(val, rest, 9, WORD64); }
  }

  // ----- the decoder of the Python package

  /** Reads on to a byte without a flag or to the end; the integers are unbounded. */
  method DecodeVi64Unbounded(bytes: seq<Byte>, from: nat) returns (value: nat, at: nat)
    ensures var tail := if from <= |bytes| then bytes[from..] else [];
      var n := if Extent(tail) > 0 then Extent(tail) else |tail|;
      value == Value(tail[..n]) && at == from + n
  {
    value, at := 0, from;
    var tail := if from <= |bytes| then bytes[from..] else [];
    var p: nat := 1;
    for i := 0 to |tail|
      invariant at == from + i && p == Pow(i)
      invariant value == Value(tail[..i]) && value < p
      invariant ExtentFrom(tail, i)
    {
      ExtentStep(tail, i);
      NextDigit(tail, i);
      HighDigitDecides(tail[i] % 0x80, value, p, 0x80);
      // the bits of the value are all below those that are or-ed to it
      value := value + tail[i] % 0x80 * p;
      at := at + 1;
      p := p * 0x80;
      if tail[i] < 0x80 { return; }
    }
    assert tail[..|tail|] == tail;
  }

  lemma {:induction false} ExtentFlags(bytes: seq<Byte>)
    ensures forall k :: 0 <= k < (if Extent(bytes) > 0 then Extent(bytes) - 1 else |bytes|) ==> bytes[k] >= 0x80
    ensures Extent(bytes) > 0 ==> bytes[Extent(bytes) - 1] < 0x80
  {
    if bytes != [] && bytes[0] >= 0x80 {
      ExtentFlags(bytes[1..]);
      forall k | 0 < k < (if Extent(bytes) > 0 then Extent(bytes) - 1 else |bytes|) ensures bytes[k] >= 0x80 {
        assert bytes[1..][k - 1] == bytes[k];
      }
    }
  }

  /** Both 64-bit decoders on the same bytes.  What the bounded one accepts, the unbounded
      one reads to the same place and with the same value in 64 bits.  What the bounded one
      refuses, the other takes: it goes past ten bytes, or runs out of bytes. */
  method DecodeBoth(bytes: seq<Byte>, from: nat) returns (r: Result<nat>, value: nat, at: nat)
    requires from <= |bytes|
    ensures from <= at <= |bytes| && value == Value(bytes[from..at])
    ensures r.Ok? ==> at == from + r.used && value % WORD64 == r.value
    ensures r.Overrun? <==> at > from + 10 || forall k :: from <= k < |bytes| ==> bytes[k] >= 0x80
    ensures (forall k :: from <= k < |bytes| ==> bytes[k] >= 0x80) ==> at == |bytes|
  {
    TheWords();
    r := DecodeVi(bytes, from, |bytes| - from, 9, WORD64);
    value, at := DecodeVi64Unbounded(bytes, from);
    ghost var tail := bytes[from..];
    assert bytes[from..from + (|bytes| - from)] == tail;
    assert tail[..at - from] == bytes[from..at];
    FlagsFrom(bytes, from);
  }

  lemma FlagsFrom(bytes: seq<Byte>, from: nat)
    requires from <= |bytes|
    ensures Extent(bytes[from..]) == 0 <==> forall k :: from <= k < |bytes| ==> bytes[k] >= 0x80
  {
    var tail := bytes[from..];
    ExtentFlags(tail);
    assert forall k :: from <= k < |bytes| ==> tail[k - from] == bytes[k];
    assert Extent(tail) > 0 ==> bytes[from + (Extent(tail) - 1)] < 0x80;
  }

  // ----- a size and that many bytes

  function LittleEndian(val: nat, n: nat): (bytes: seq<Byte>)
    ensures |bytes| == n
  {
    if n == 0 then [] else [val % 0x100] + LittleEndian(val / 0x100, n - 1)
  }

  function FromLittleEndian(bytes: seq<Byte>): nat
  {
    if bytes == [] then 0 else bytes[0] + 0x100 * FromLittleEndian(bytes[1..])
  }

  function Pow256(n: nat): nat
  {
    if n == 0 then 1 else 0x100 * Pow256(n - 1)
  }

  lemma {:induction false} LittleEndianBack(val: nat, n: nat)
    requires val < Pow256(n)
    ensures FromLittleEndian(LittleEndian(val, n)) == val
  {
    if n > 0 {
      LittleEndianBack(val / 0x100, n - 1);
      assert LittleEndian(val, n)[1..] == LittleEndian(val / 0x100, n - 1);
    }
  }

  /** How many bytes a value is written in after its size. */
  function FixedSize24(val: nat): nat
  {
    if val <= 0xFF then 1 else if val <= 0xFFFF then 2 else 3
  }

  function FixedSize32(val: nat): nat
  {
    if val <= 0xFF then 1 else if val <= 0xFFFF then 2 else if val <= 0xFF_FFFF then 3 else 4
  }

  function FixedSize64(val: nat): nat
  {
    if val <= 0xFF then 1 else if val <= 0xFFFF then 2 else if val <= 0xFF_FFFF then 3
    else if val <= 0xFFFF_FFFF then 4 else if val < 0xFF_FFFF_FFFF then 5
    else if val < 0xFFFF_FFFF_FFFF then 6 else if val < 0xFF_FFFF_FFFF_FFFF then 7 else 8
  }

  /** A value in one byte above the sizes, when it fits, or else its size and bytes. */
  function Fixed(val: nat, size: nat, most: nat): seq<Byte>
    requires size <= most <= 8
  {
    if val + most + 1 <= 0xFF then [val + most + 1] else [size] + LittleEndian(val, size)
  }

  function Fixed24(val: nat): seq<Byte> requires val < WORD24 { Fixed(val, FixedSize24(val), 3) }

  function Fixed32(val: nat): seq<Byte> requires val < WORD32 { Fixed(val, FixedSize32(val), 4) }

  function Fixed64(val: nat): seq<Byte> requires val < WORD64 { Fixed(val, FixedSize64(val), 8) }

  function EncodedLengthFixed24(val: nat): nat
  {
    if val <= 0xFB then 1 else if val <= 0xFF then 2 else if val <= 0xFFFF then 3 else 4
  }

  function EncodedLengthFixed32(val: nat): nat
  {
    if val <= 0xFA then 1 else if val <= 0xFF then 2 else if val <= 0xFFFF then 3
    else if val <= 0xFF_FFFF then 4 else 5
  }

  function EncodedLengthFixed64(val: nat): nat
  {
    if val <= 0xF6 then 1 else if val <= 0xFF then 2 else if val <= 0xFFFF then 3
    else if val <= 0xFF_FFFF then 4 else if val <= 0xFFFF_FFFF then 5
    else if val <= 0xFF_FFFF_FFFF then 6 else if val <= 0xFFFF_FFFF_FFFF then 7
    else if val <= 0xFF_FFFF_FFFF_FFFF then 8 else 9
  }

  predicate OneMore(val: nat)
  {
    val == 0xFF_FFFF_FFFF || val == 0xFFFF_FFFF_FFFF || val == 0xFF_FFFF_FFFF_FFFF
  }

  /** The announced lengths are the lengths, but in 64 bits for the three values where
      the encoder takes one byte more. */
  lemma LengthsFixed(val: nat)
    ensures val < WORD24 ==> |Fixed24(val)| == EncodedLengthFixed24(val)
    ensures val < WORD32 ==> |Fixed32(val)| == EncodedLengthFixed32(val)
    ensures val < WORD64 ==> |Fixed64(val)| == EncodedLengthFixed64(val) + if OneMore(val) then 1 else 0
  {
  }

  /** What a decoder of sizes comes to: a value, how many bytes it took and how many it
      made sure of; too few bytes; or a read outside of the buffer. */
  datatype Fetched = Got(value: nat, taken: nat, ensured: nat) | TooFew | Outside

  /** The value at the start of `buf`, where `remain` bytes are known to be there, for a
      decoder of sizes up to `most`.  A size of zero is taken for `most`, but it is
      zero bytes that are made sure of. */
  function Fetch(buf: seq<Byte>, remain: nat, most: nat): Fetched
    requires remain <= |buf| && 0 < most <= 8
  {
    if remain == 0 then TooFew
    else if buf[0] > most then Got(buf[0] - (most + 1), 1, 1)
    else if remain - 1 < buf[0] then TooFew
    else
      var size := if buf[0] == 0 then most else buf[0];
      if |buf| - 1 < size then Outside
      else Got(FromLittleEndian(buf[1..size + 1]), size + 1, buf[0] + 1)
  }

  /** A read that is not of bytes known to be there. */
  predicate Strays(buf: seq<Byte>, remain: nat, most: nat)
    requires remain <= |buf| && 0 < most <= 8
  {
    match Fetch(buf, remain, most)
    case Got(_, taken, _) => taken > remain
    case TooFew => false
    case Outside => true
  }

  /** A decoder reads what it was not told of exactly when the first byte is zero and the
      largest size does not remain; it makes sure of what it takes exactly when the byte
      is not zero, and then never leaves the buffer. */
  lemma StraysExact(buf: seq<Byte>, remain: nat, most: nat)
    requires 0 < remain <= |buf| && 0 < most <= 8
    ensures Strays(buf, remain, most) <==> buf[0] == 0 && remain - 1 < most
    ensures var r := Fetch(buf, remain, most);
      && (r.Got? ==> (r.taken == r.ensured <==> buf[0] != 0))
      && (r.Outside? <==> buf[0] == 0 && |buf| - 1 < most)
      && (r.TooFew? <==> buf[0] <= most && remain - 1 < buf[0])
  {
  }

  /** No first byte but zero strays, however few bytes are known. */
  lemma StraysOnZero(first: Byte, most: nat)
    requires 0 < most <= 8
    ensures (forall rest: seq<Byte>, remain: nat | remain <= |rest| + 1 :: !Strays([first] + rest, remain, most))
      <==> first != 0
  {
    if first == 0 {
      assert Strays([first] + [], 1, most);
    } else {
      forall rest: seq<Byte>, remain: nat | 0 < remain <= |rest| + 1
        ensures !Strays([first] + rest, remain, most)
      {
        StraysExact([first] + rest, remain, most);
      }
    }
  }

  method CopyTo(buf: array<Byte>, at: nat, bytes: seq<Byte>) returns (next: nat)
    requires at + |bytes| <= buf.Length
    modifies buf
    ensures next == at + |bytes| && buf[at..next] == bytes
    ensures forall k :: 0 <= k < buf.Length && !(at <= k < next) ==> buf[k] == old(buf[k])
  {
    forall k | 0 <= k < |bytes| { buf[at + k] := bytes[k]; }
    next := at + |bytes|;
  }

  /** Writes a value with the size that it is to take when it does not fit one byte. */
  method EncodeFixed(buf: array<Byte>, at: nat, val: nat, size: nat, most: nat) returns (next: nat)
    requires size <= most <= 8 && at + |Fixed(val, size, most)| <= buf.Length
    modifies buf
    ensures next == at + |Fixed(val, size, most)| && buf[at..next] == Fixed(val, size, most)
    ensures forall k :: 0 <= k < buf.Length && !(at <= k < next) ==> buf[k] == old(buf[k])
  {
    if val <= 0xFF - (most + 1) {
      buf[at] := val + most + 1;
      next := at + 1;
    } else {
      buf[at] := size;
      next := CopyTo(buf, at + 1, LittleEndian(val, size));
      Sequences.FirstAndRest(buf[..], at, next);
      assert buf[..][at..next] == buf[at..next] && buf[..][at + 1..next] == buf[at + 1..next];
    }
  }

  /** The encoders take the sizes that they announce, one more for three values. */
  method EncodeFixedVi24(buf: array<Byte>, at: nat, val: nat) returns (next: nat)
    requires val < WORD24 && at + EncodedLengthFixed24(val) <= buf.Length
    modifies buf
    ensures next == at + EncodedLengthFixed24(val) && buf[at..next] == Fixed24(val)
    ensures forall k :: 0 <= k < buf.Length && !(at <= k < next) ==> buf[k] == old(buf[k])
  {
    LengthsFixed(val);
    next := EncodeFixed(buf, at, val, FixedSize24(val), 3);
  }

  method EncodeFixedVi32(buf: array<Byte>, at: nat, val: nat) returns (next: nat)
    requires val < WORD32 && at + EncodedLengthFixed32(val) <= buf.Length
    modifies buf
    ensures next == at + EncodedLengthFixed32(val) && buf[at..next] == Fixed32(val)
    ensures forall k :: 0 <= k < buf.Length && !(at <= k < next) ==> buf[k] == old(buf[k])
  {
    LengthsFixed(val);
    next := EncodeFixed(buf, at, val, FixedSize32(val), 4);
  }

  method EncodeFixedVi64(buf: array<Byte>, at: nat, val: nat) returns (next: nat)
    requires val < WORD64 && at + EncodedLengthFixed64(val) + (if OneMore(val) then 1 else 0) <= buf.Length
    modifies buf
    ensures next == at + EncodedLengthFixed64(val) + (if OneMore(val) then 1 else 0)
    ensures buf[at..next] == Fixed64(val)
    ensures forall k :: 0 <= k < buf.Length && !(at <= k < next) ==> buf[k] == old(buf[k])
  {
    LengthsFixed(val);
    next := EncodeFixed(buf, at, val, FixedSize64(val), 8);
  }

  /** Reads a value at `at`, of which `remain` bytes are known to be there. */
  method DecodeFixed(buf: seq<Byte>, at: nat, remain: nat, most: nat) returns (r: Fetched)
    requires at + remain <= |buf| && 0 < most <= 8
    ensures r == Fetch(buf[at..], remain, most)
  {
    if remain == 0 { return TooFew; }
    var b := buf[at];
    if b > most { return Got(b - (most + 1), 1, 1); }
    if remain - 1 < b { return TooFew; }
    var size := if 0 < b < most then b else most;
    if |buf| - at - 1 < size { return Outside; }
    Sequences.SliceOfSlice(buf, at, |buf|, 1, size + 1);
    assert buf[at..] == buf[at..|buf|];
    return Got(FromLittleEndian(buf[at + 1..at + 1 + size]), size + 1, b + 1);
  }

  lemma FixedFetched(val: nat, size: nat, most: nat, rest: seq<Byte>)
    requires 0 < size <= most <= 8 && val < Pow256(size)
    ensures FetchesBack(Fixed(val, size, most), rest, most, val)
  {
    if val + most + 1 > 0xFF {
      LittleEndianBack(val, size);
      assert (Fixed(val, size, most) + rest)[1..size + 1] == LittleEndian(val, size);
    }
  }

  lemma Powers256()
    ensures Pow256(1) == 0x100 && Pow256(2) == 0x1_0000 && Pow256(3) == WORD24 && Pow256(4) == WORD32
    ensures Pow256(5) == 0x100_0000_0000 && Pow256(6) == 0x1_0000_0000_0000
    ensures Pow256(7) == 0x100_0000_0000_0000 && Pow256(8) == WORD64
  {
    assert Pow256(3) == 0x100 * Pow256(2) && Pow256(2) == 0x100 * Pow256(1);
    assert Pow256(6) == 0x100 * Pow256(5) && Pow256(5) == 0x100 * Pow256(4) && Pow256(4) == 0x100 * Pow256(3);
    assert Pow256(8) == 0x100 * Pow256(7) && Pow256(7) == 0x100 * Pow256(6);
  }

  /** Decoding what was encoded, whatever follows it, gives the value, and takes and makes
      sure of just the bytes of it. */
  lemma FixedRoundTrips(val: nat, rest: seq<Byte>)
    ensures val < WORD24 ==> FetchesBack(Fixed24(val), rest, 3, val)
    ensures val < WORD32 ==> FetchesBack(Fixed32(val), rest, 4, val)
    ensures val < WORD64 ==> FetchesBack(Fixed64(val), rest, 8, val)
  {
    Powers256();
    if val < WORD24 { FixedFetched(val, FixedSize24(val), 3, rest); }
    if val < WORD32 { FixedFetched(val, FixedSize32(val), 4, rest); }
    if val < WORD64 { FixedFetched(val, FixedSize64(val), 8, rest); }
  }

  predicate FetchesBack(bytes: seq<Byte>, rest: seq<Byte>, most: nat, val: nat)
    requires 0 < most <= 8
  {
    forall remain: nat | |bytes| <= remain <= |bytes| + |rest| ::
      Fetch(bytes + rest, remain, most) == Got(val, |bytes|, |bytes|)
  }

  // ----- a length and that many bytes

  function BytesOf(data: seq<Byte>): seq<Byte>
  {
    Vi(|data|) + data
  }

  function ReadBytes(bytes: seq<Byte>): Result<seq<Byte>>
  {
    match Read(bytes, 10, WORD64)
    case Overrun => Overrun
    case Ok(len, used) =>
      if |bytes| - used < len then Overrun else Ok(bytes[used..][..len], used + len)
  }

  /** The first byte without a flag is the `n`th. */
  ghost predicate LengthEnds(bytes: seq<Byte>, n: nat)
  {
    0 < n <= |bytes| && bytes[n - 1] < 0x80 && forall k :: 0 <= k < n - 1 ==> bytes[k] >= 0x80
  }

  /** A length of at most ten bytes is followed by that many, or it is an error. */
  lemma ReadBytesMeans(bytes: seq<Byte>, n: nat)
    requires LengthEnds(bytes, n)
    ensures var to := n + Value(bytes[..n]) % 0x1_0000_0000_0000_0000;
      ReadBytes(bytes) == if n <= 10 && to <= |bytes| then Ok(bytes[n..to], to) else Overrun
  {
    EndIs(bytes, n);
    var len := Value(bytes[..n]) % WORD64;
    if n + len <= |bytes| { SliceFrom(bytes, n, len); }
  }

  lemma SliceFrom<A>(s: seq<A>, from: nat, len: nat)
    requires from + len <= |s|
    ensures s[from..][..len] == s[from..from + len]
  {
  }

  lemma EndIs(bytes: seq<Byte>, n: nat)
    requires LengthEnds(bytes, n)
    ensures Extent(bytes) == n
  {
    ExtentFlags(bytes);
  }

  /** And so it is when no length ends. */
  lemma NoLength(bytes: seq<Byte>)
    requires forall k :: 0 <= k < |bytes| ==> bytes[k] >= 0x80
    ensures ReadBytes(bytes) == Overrun
  {
    ExtentFlags(bytes);
  }

  lemma BytesRoundTrip(data: seq<Byte>, rest: seq<Byte>)
    requires |data| < WORD64
    ensures ReadBytes(BytesOf(data) + rest) == Ok(data, EncodedLengthVi64(|data|) + |data|)
  {
    var bytes := BytesOf(data) + rest;
    ViRoundTrips(|data|, data + rest);
    Sequences.Assoc(Vi(|data|), data, rest);
    assert bytes[|Vi(|data|)|..] == data + rest by { assert bytes == Vi(|data|) + (data + rest); }
    LengthsVi(|data|);
    assert (data + rest)[..|data|] == data;
  }

  method EncodeBytes(buf: array<Byte>, at: nat, data: seq<Byte>) returns (next: nat)
    requires |data| < WORD64 && at + |BytesOf(data)| <= buf.Length
    modifies buf
    ensures next == at + |BytesOf(data)| && buf[at..next] == BytesOf(data)
    ensures forall k :: 0 <= k < buf.Length && !(at <= k < next) ==> buf[k] == old(buf[k])
  {
    LengthsVi(|data|);
    var mid := EncodeVi(buf, at, |data|, 9);
    next := CopyTo(buf, mid.value, data);
    assert buf[at..next] == buf[at..mid.value] + buf[mid.value..next];
  }

  method DecodeBytes(buf: seq<Byte>, at: nat, remain: nat) returns (r: Result<seq<Byte>>)
    requires at + remain <= |buf|
    ensures r == ReadBytes(buf[at..at + remain])
  {
    TheWords();
    var len := DecodeVi(buf, at, remain, 9, WORD64);
    if len.Overrun? || remain - len.used < len.value { return Overrun; }
    var from := at + len.used;
    assert buf[at..at + remain][len.used..][..len.value] == buf[from..from + len.value];
    return Ok(buf[from..from + len.value], len.used + len.value);
  }
}
