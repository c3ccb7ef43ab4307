/** Unsigned numbers as decimal text: `std::to_string` and `std::stoull`. */
module Decimal {
  import Arithmetic
  import opened Common

  predicate IsDigit(c: char) { '0' <= c <= '9' }

  predicate AllDigits(s: string) { forall i :: 0 <= i < |s| ==> IsDigit(s[i]) }

  function DigitChar(d: nat): (c: char)
    requires d < 10
    ensures IsDigit(c) && DigitValue(c) == d
  {
    ('0' as int + d) as char
  }

  function DigitValue(c: char): nat
    requires IsDigit(c)
  {
    c as int - '0' as int
  }

  /** The decimal text of a number, without leading zeros. */
  function Digits(n: nat): (s: string)
    ensures AllDigits(s) && s != "" && Value(s) == n
  {
    if n < 10 then [DigitChar(n)] else Digits(n / 10) + [DigitChar(n % 10)]
  }

  /** The number that a text of digits stands for. */
  function Value(s: string): nat
    requires AllDigits(s)
  {
    if s == "" then 0 else Value(s[..|s| - 1]) * 10 + DigitValue(s[|s| - 1])
  }

  function DigitPrefix(s: string): (n: nat)
    ensures n <= |s| && AllDigits(s[..n]) && (n < |s| ==> !IsDigit(s[n]))
  {
    if s == "" || !IsDigit(s[0]) then 0 else
    var n := DigitPrefix(s[1..]);
    assert s[..n + 1] == [s[0]] + s[1..][..n];
    n + 1
  }

  predicate IsSpace(c: char) { c == ' ' || '\t' <= c <= '\r' }

  function SkipSpaces(s: string): string
  {
    if s != "" && IsSpace(s[0]) then SkipSpaces(s[1..]) else s
  }

  /** Reads the digits at the start; none, or a number too large, is an error. */
  function Magnitude(s: string): Option<nat>
  {
    var n := DigitPrefix(s);
    if n == 0 || Value(s[..n]) >= Arithmetic.WORD64 then None else Some(Value(s[..n]))
  }

  function Negated(magnitude: Option<nat>): Option<nat>
  {
    match magnitude
    case None => None
    case Some(v) => Some((Arithmetic.WORD64 - v) % Arithmetic.WORD64)
  }

  /** Reads a number behind spaces and a sign; a minus counts down from 2^64. */
  function Stoull(s: string): Option<nat>
  {
    var t := SkipSpaces(s);
    if t == "" then None
    else if t[0] == '-' then Negated(Magnitude(t[1..]))
    else Magnitude(if t[0] == '+' then t[1..] else t)
  }

  /** Spaces, digits, and whatever does not go on with a digit. */
  lemma StoullUnsigned(spaces: string, digits: string, rest: string)
    requires forall k :: 0 <= k < |spaces| ==> spaces[k] == ' ' || 9 <= spaces[k] as int <= 13
    requires AllDigits(digits) && digits != "" && (rest == "" || !IsDigit(rest[0]))
    ensures Stoull(spaces + (digits + rest))
      == if Value(digits) >= 0x1_0000_0000_0000_0000 then None else Some(Value(digits))
  {
    MagnitudeIs(digits, rest);
    SpacesSkipped(spaces, digits + rest);
  }

  /** And with a sign before the digits, of which there may be none then. */
  lemma StoullSigned(spaces: string, sign: char, digits: string, rest: string)
    requires forall k :: 0 <= k < |spaces| ==> spaces[k] == ' ' || 9 <= spaces[k] as int <= 13
    requires (sign == '+' || sign == '-') && AllDigits(digits) && (rest == "" || !IsDigit(rest[0]))
    ensures Stoull(spaces + ([sign] + (digits + rest)))
      == if digits == "" || Value(digits) >= 0x1_0000_0000_0000_0000 then None
         else if sign == '-' then Some((0x1_0000_0000_0000_0000 - Value(digits)) % 0x1_0000_0000_0000_0000)
         else Some(Value(digits))
  {
    var number := digits + rest;
    MagnitudeIs(digits, rest);
    SpacesSkipped(spaces, [sign] + number);
    BehindSpaces(spaces + ([sign] + number), sign, number);
  }

  lemma BehindSpaces(s: string, sign: char, number: string)
    requires (sign == '+' || sign == '-') && SkipSpaces(s) == [sign] + number
    ensures Stoull(s) == if sign == '-' then Negated(Magnitude(number)) else Magnitude(number)
  {
    assert ([sign] + number)[1..] == number;
  }

  lemma MagnitudeIs(digits: string, rest: string)
    requires AllDigits(digits) && (rest == "" || !IsDigit(rest[0]))
    ensures Magnitude(digits + rest)
      == if digits == "" || Value(digits) >= Arithmetic.WORD64 then None else Some(Value(digits))
  {
    var s := digits + rest;
    var n := DigitPrefix(s);
    assert forall k :: 0 <= k < n ==> IsDigit(s[..n][k]) && s[..n][k] == s[k];
    assert forall k :: 0 <= k < |digits| ==> s[k] == digits[k];
    assert rest != "" ==> s[|digits|] == rest[0];
    assert s[..|digits|] == digits;
  }

  lemma {:induction false} SpacesSkipped(spaces: string, s: string)
    requires forall k :: 0 <= k < |spaces| ==> spaces[k] == ' ' || 9 <= spaces[k] as int <= 13
    requires s == "" || !IsSpace(s[0])
    ensures SkipSpaces(spaces + s) == s
  {
    if spaces == "" {
      assert spaces + s == s;
    } else {
      SpacesSkipped(spaces[1..], s);
      assert (spaces + s)[1..] == spaces[1..] + s;
    }
  }

  /** Reading what was written gives the number back. */
  lemma StoullOfDigits(n: nat)
    requires n < Arithmetic.WORD64
    ensures Stoull(Digits(n)) == Some(n)
  {
    var s := Digits(n);
    assert DigitPrefix(s) == |s| && s[..|s|] == s;
    assert IsDigit(s[0]);
  }

  /** `s` filled up with zeros in front to at least `size` characters. */
  function Padded(s: string, size: nat): string
  {
    if size > |s| then seq(size - |s|, _ => '0') + s else s
  }

  lemma {:induction false} ValueAfterZeros(zeros: string, s: string)
    requires AllDigits(s) && forall i :: 0 <= i < |zeros| ==> zeros[i] == '0'
    ensures AllDigits(zeros + s) && Value(zeros + s) == Value(s)
  {
    var t := zeros + s;
    if s != "" {
      ValueAfterZeros(zeros, s[..|s| - 1]);
      assert t[..|t| - 1] == zeros + s[..|s| - 1];
    } else if zeros != "" {
      ValueAfterZeros(zeros[..|zeros| - 1], s);
      assert t[..|t| - 1] == zeros[..|zeros| - 1] + s;
    }
  }

  lemma {:induction false} NoLeadingZero(n: nat)
    ensures Digits(n)[0] == '0' ==> n == 0 && |Digits(n)| == 1
  {
    if n >= 10 { NoLeadingZero(n / 10); }
  }

  /** A padded text is of digits that read as the number, has at least the size, and begins
      with a zero only to have it, or for zero. */
  lemma PaddedReads(n: nat, size: nat)
    ensures var t := Padded(Digits(n), size);
      && AllDigits(t) && Value(t) == n && t != "" && |t| >= size
      && (t[0] == '0' ==> n == 0 || |t| == size) && (n == 0 ==> |t| == if size > 1 then size else 1)
  {
    ValueAfterZeros(seq(Zeros(n, size), _ => '0'), Digits(n));
    assert Padded(Digits(n), size) == seq(Zeros(n, size), _ => '0') + Digits(n);
    NoLeadingZero(n);
  }

  /** Different numbers have different texts, however far they are padded. */
  lemma PaddedInjective(a: nat, b: nat, size: nat)
    ensures Padded(Digits(a), size) == Padded(Digits(b), size) <==> a == b
  {
    ValueAfterZeros(seq(Zeros(a, size), _ => '0'), Digits(a));
    ValueAfterZeros(seq(Zeros(b, size), _ => '0'), Digits(b));
    assert Padded(Digits(a), size) == seq(Zeros(a, size), _ => '0') + Digits(a);
    assert Padded(Digits(b), size) == seq(Zeros(b, size), _ => '0') + Digits(b);
  }

  function Zeros(n: nat, size: nat): nat
  {
    if size > |Digits(n)| then size - |Digits(n)| else 0
  }
}
