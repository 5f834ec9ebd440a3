/** Decimal text of integers, as Go's strconv formats and parses it in base 10. */
module Decimal {
  import opened Bytes
  import opened Wrappers

  const MinInt64: int := -0x8000_0000_0000_0000
  const MaxInt64: int := 0x7FFF_FFFF_FFFF_FFFF

  /** Go's int64, the type of RESP integers and of Go lengths on a 64-bit platform. */
  type int64 = i: int | MinInt64 <= i <= MaxInt64

  predicate IsDigit(b: byte) {
    ZERO <= b <= ZERO + 9
  }

  predicate AllDigits(s: seq<byte>) {
    forall i :: 0 <= i < |s| ==> IsDigit(s[i])
  }

  /** The numeric value of a run of decimal digits, most significant first. */
  function Value(s: seq<byte>): nat
    requires AllDigits(s)
  {
    if |s| == 0 then 0 else Value(s[..|s| - 1]) * 10 + (s[|s| - 1] - ZERO) as int
  }

  /** The shortest decimal digits of n (no leading zeros, "0" for zero). */
  function Digits(n: nat): (r: seq<byte>)
    ensures 1 <= |r| && AllDigits(r)
    ensures |r| > 1 ==> r[0] != ZERO
  {
    if n < 10 then [ZERO + n as byte] else Digits(n / 10) + [ZERO + (n % 10) as byte]
  }

  /** The decimal text of i: a '-' for negative numbers, then the digits of |i|. */
  function Format(i: int): (r: seq<byte>)
    ensures 1 <= |r|
    ensures CR !in r && LF !in r
  {
    if i < 0 then [MINUS] + Digits(-i) else Digits(i)
  }

  /** strconv.ParseInt(s, 10, 64): an optional '+' or '-', at least one digit, and a value
      that fits in 64 bits; anything else is rejected. */
  function Parse(s: seq<byte>): (r: Option<int64>)
    ensures r.Some? ==> 1 <= |s| && (IsDigit(s[0]) || s[0] == MINUS || s[0] == PLUS)
    ensures r.Some? ==> 2 <= |s| || IsDigit(s[0])
    ensures r.Some? ==> forall i :: 1 <= i < |s| ==> IsDigit(s[i])
  {
    if |s| == 0 then None
    else
      var body := if s[0] == MINUS || s[0] == PLUS then s[1..] else s;
      if |body| == 0 || !AllDigits(body) then None
      else
        var v: int := if s[0] == MINUS then -(Value(body) as int) else Value(body);
        if MinInt64 <= v <= MaxInt64 then Some(v) else None
  }

  lemma {:induction false} ValueOfDigits(n: nat)
    ensures Value(Digits(n)) == n
  {
    var d := Digits(n);
    if n >= 10 {
      ValueOfDigits(n / 10);
      assert d[..|d| - 1] == Digits(n / 10);
    }
  }

  /** Formatting and parsing are inverse on int64: an integer argument or reply survives
      the trip through its decimal text. */
  lemma ParseFormat(i: int64)
    ensures Parse(Format(i)) == Some(i)
  {
    var s := Format(i);
    if i < 0 {
      ValueOfDigits(-(i as int));
      assert s[1..] == Digits(-(i as int));
    } else {
      ValueOfDigits(i);
      assert s[0] != MINUS && s[0] != PLUS;
    }
  }
}
