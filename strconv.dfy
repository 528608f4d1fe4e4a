/** The part of Go's `strconv` the DeleteTweet handler relies on: `Atoi`, as
    Go defines it for a 64-bit `int` (an optional `+` or `-`, then one or
    more decimal digits, with the value in range; nothing else, not even
    white space), and `Itoa`, which renders an `int` the way `Atoi` reads it. */
module Strconv {
  import opened Models

  const MinInt: int := -0x8000_0000_0000_0000
  const MaxInt: int := 0x7fff_ffff_ffff_ffff

  const Plus: byte := 43   // '+'
  const Minus: byte := 45  // '-'
  const Zero: byte := 48   // '0'

  predicate IsDigit(b: byte) {
    Zero <= b <= Zero + 9
  }

  predicate AllDigits(s: Bytes) {
    forall i :: 0 <= i < |s| ==> IsDigit(s[i])
  }

  /** The value of decimal digits written most significant first. */
  function DigitsValue(s: Bytes): nat
    requires AllDigits(s)
  {
    if s == [] then 0 else DigitsValue(s[..|s| - 1]) * 10 + (s[|s| - 1] - Zero) as int
  }

  /** `strconv.Atoi`: `None` stands for a non-nil error (syntax or range). */
  function Atoi(s: Bytes): (r: Option<int>)
    ensures r.Some? ==> MinInt <= r.value <= MaxInt
    ensures s == [] || s == [Plus] || s == [Minus] ==> r.None?
  {
    var signed := |s| > 0 && (s[0] == Plus || s[0] == Minus);
    var digits := if signed then s[1..] else s;
    if digits == [] || !AllDigits(digits) then None
    else
      var v: int := if signed && s[0] == Minus then 0 - DigitsValue(digits) as int else DigitsValue(digits);
      if MinInt <= v <= MaxInt then Some(v) else None
  }

  /** The decimal digits of `n`, without leading zeros. */
  function NatDigits(n: nat): (s: Bytes)
    ensures s != [] && AllDigits(s) && DigitsValue(s) == n
    ensures IsDigit(s[0])
  {
    if n < 10 then
      [(n + Zero as int) as byte]
    else
      var init := NatDigits(n / 10);
      var s := init + [(n % 10 + Zero as int) as byte];
      assert s[..|s| - 1] == init;
      s
  }

  /** `strconv.Itoa`. */
  function Itoa(n: int): Bytes {
    if n < 0 then [Minus] + NatDigits(-n) else NatDigits(n)
  }

  /** Every `int` survives rendering and reading back. */
  lemma AtoiItoa(n: int)
    requires MinInt <= n <= MaxInt
    ensures Atoi(Itoa(n)) == Some(n)
  {
    var s := Itoa(n);
    if n < 0 {
      assert s[1..] == NatDigits(-n);
    }
  }

  /** A byte that is neither a digit nor a leading sign makes `Atoi` fail. */
  lemma AtoiRejectsNonDigit(s: Bytes, i: nat)
    requires i < |s| && !IsDigit(s[i])
    requires i > 0 || (s[0] != Plus && s[0] != Minus)
    ensures Atoi(s).None?
  {
    var signed := |s| > 0 && (s[0] == Plus || s[0] == Minus);
    var digits := if signed then s[1..] else s;
    if signed {
      assert digits[i - 1] == s[i];
    }
  }

  /** Unsigned digits whose value fits are read as that value, leading zeros included. */
  lemma AtoiDigits(s: Bytes)
    requires s != [] && AllDigits(s) && DigitsValue(s) <= MaxInt
    ensures Atoi(s) == Some(DigitsValue(s))
  {
    assert IsDigit(s[0]);
  }

  /** Digits whose value does not fit are a range error: unsigned or with
      `+` above `MaxInt`, with `-` below `MinInt`. */
  lemma AtoiOutOfRange(s: Bytes)
    requires s != [] && AllDigits(s)
    ensures DigitsValue(s) > MaxInt ==> Atoi(s).None? && Atoi([Plus] + s).None?
    ensures DigitsValue(s) > -MinInt ==> Atoi([Minus] + s).None?
  {
    assert IsDigit(s[0]);
    assert ([Plus] + s)[1..] == s;
    assert ([Minus] + s)[1..] == s;
  }

  /** A leading sign is read as the sign of the digits after it, leading
      zeros included: "-007" is -7 and "+007" is 7. */
  lemma AtoiSigned(s: Bytes)
    requires s != [] && AllDigits(s) && DigitsValue(s) <= MaxInt
    ensures Atoi([Minus] + s) == Some(0 - DigitsValue(s) as int)
    ensures Atoi([Plus] + s) == Some(DigitsValue(s))
  {
    assert ([Plus] + s)[1..] == s;
    assert ([Minus] + s)[1..] == s;
  }
}
