/** Decimal conversions the storage engine uses: `str::parse::<i32>()` for year partition
    names, `str::parse::<usize>()` for positional search terms and `i32::to_string` for
    the names of newly created partitions. */
module Numbers {
  import opened Errors

  const I32Min: int := -0x8000_0000
  const I32Max: int := 0x7fff_ffff
  /** `usize::MAX` on a 64-bit target. */
  const UsizeMax: int := 0xffff_ffff_ffff_ffff

  predicate IsDigit(c: char) {
    '0' <= c <= '9'
  }

  predicate AllDigits(s: string) {
    |s| > 0 && forall i :: 0 <= i < |s| ==> IsDigit(s[i])
  }

  function DigitsValue(s: string): nat
    requires forall i :: 0 <= i < |s| ==> IsDigit(s[i])
  {
    if s == [] then 0
    else
      assert IsDigit(s[|s| - 1]);
      DigitsValue(s[..|s| - 1]) * 10 + (s[|s| - 1] as int - '0' as int)
  }

  function ParseDigits(s: string): Option<nat> {
    if AllDigits(s) then Some(DigitsValue(s)) else None
  }

  /** What `from_str_radix(s, 10)` computes before its overflow check: a lone sign is
      rejected, `+` is accepted, and `-` only for a signed type. */
  function ParseInteger(s: string, signed: bool): Option<int> {
    if |s| == 0 then None
    else if (s[0] == '+' || s[0] == '-') && |s| == 1 then None
    else if s[0] == '+' then
      match ParseDigits(s[1..])
      case None => None
      case Some(v) => Some(v)
    else if s[0] == '-' && signed then
      match ParseDigits(s[1..])
      case None => None
      case Some(v) => var w: int := v; Some(-w)
    else
      match ParseDigits(s)
      case None => None
      case Some(v) => Some(v)
  }

  /** `s.parse::<i32>().ok()` */
  function ParseI32(s: string): (r: Option<int>)
    ensures r.Some? ==> I32Min <= r.value <= I32Max
  {
    match ParseInteger(s, true)
    case Some(v) => if I32Min <= v <= I32Max then Some(v) else None
    case None => None
  }

  /** `s.parse::<usize>().ok()` */
  function ParseUsize(s: string): (r: Option<nat>)
    ensures r.Some? ==> r.value <= UsizeMax
  {
    match ParseInteger(s, false)
    case Some(v) => if 0 <= v <= UsizeMax then Some(v) else None
    case None => None
  }

  function DigitChar(d: nat): char
    requires d < 10
  {
    ('0' as int + d) as char
  }

  /** The decimal digits of `n`, without leading zeros. */
  function NatToDigits(n: nat): string {
    if n < 10 then [DigitChar(n)] else NatToDigits(n / 10) + [DigitChar(n % 10)]
  }

  /** `i.to_string()` */
  function IntToString(i: int): string {
    if i < 0 then "-" + NatToDigits(-i) else NatToDigits(i)
  }

  lemma {:induction false} NatToDigitsValue(n: nat)
    ensures AllDigits(NatToDigits(n)) && DigitsValue(NatToDigits(n)) == n
  {
    if n >= 10 {
      NatToDigitsValue(n / 10);
      var s := NatToDigits(n);
      assert s[..|s| - 1] == NatToDigits(n / 10);
    }
  }

  /** Printing a year and parsing it back gives the same year. */
  lemma ParseI32OfIntToString(y: int)
    requires I32Min <= y <= I32Max
    ensures ParseI32(IntToString(y)) == Some(y)
  {
    var s := IntToString(y);
    if y < 0 {
      NatToDigitsValue(-y);
      assert s[1..] == NatToDigits(-y);
      assert ParseDigits(s[1..]) == Some(-y);
      assert s[0] == '-' && |s| > 1;
    } else {
      NatToDigitsValue(y);
      assert IsDigit(s[0]);
      assert ParseDigits(s) == Some(y);
    }
  }

  /** A number printed in decimal is read back by the positional-term parser. */
  lemma ParseUsizeOfDigits(n: nat)
    requires n <= UsizeMax
    ensures ParseUsize(NatToDigits(n)) == Some(n)
  {
    NatToDigitsValue(n);
  }

  /** A printed integer is a single path component without a dot. */
  lemma IntToStringIsPlain(y: int)
    ensures IntToString(y) != "" && IntToString(y) != "."
    ensures '/' !in IntToString(y) && '.' !in IntToString(y)
  {
    var d := NatToDigits(if y < 0 then -y else y);
    NatToDigitsValue(if y < 0 then -y else y);
    assert forall i :: 0 <= i < |d| ==> IsDigit(d[i]);
    var s := IntToString(y);
    if y < 0 {
      assert forall i :: 1 <= i < |s| ==> s[i] == d[i - 1];
    }
    assert forall i :: 0 <= i < |s| ==> s[i] != '/' && s[i] != '.';
  }
}
