/** Decimal text of 64-bit signed integers, as the command line reads a
    group id (`str::parse::<i64>`) and prints an id (`{}` formatting). */
module Decimal {
  import opened Wrappers

  const I64_MIN: int := -0x8000_0000_0000_0000
  const I64_MAX: int := 0x7FFF_FFFF_FFFF_FFFF

  predicate InI64(v: int) {
    I64_MIN <= v <= I64_MAX
  }

  predicate IsDigit(c: char) {
    '0' <= c <= '9'
  }

  function DigitValue(c: char): (d: nat)
    requires IsDigit(c)
    ensures d < 10
  {
    (c as int) - ('0' as int)
  }

  function DigitChar(d: nat): (c: char)
    requires d < 10
    ensures IsDigit(c) && DigitValue(c) == d
  {
    (('0' as int) + d) as char
  }

  predicate AllDigits(ds: string) {
    forall i :: 0 <= i < |ds| ==> IsDigit(ds[i])
  }

  /** The value of `acc` followed by the digits `ds`, read left to right. */
  function Horner(acc: nat, ds: string): (v: nat)
    requires AllDigits(ds)
    ensures v >= acc
    decreases |ds|
  {
    if ds == [] then acc else Horner(acc * 10 + DigitValue(ds[0]), ds[1..])
  }

  lemma {:induction false} HornerSnoc(acc: nat, ds: string, c: char)
    requires AllDigits(ds) && IsDigit(c)
    ensures AllDigits(ds + [c])
    ensures Horner(acc, ds + [c]) == Horner(acc, ds) * 10 + DigitValue(c)
    decreases |ds|
  {
    if ds == [] {
      assert ds + [c] == [c];
    } else {
      assert (ds + [c])[1..] == ds[1..] + [c];
      HornerSnoc(acc * 10 + DigitValue(ds[0]), ds[1..], c);
    }
  }

  /** Decimal digits of a natural number, most significant first, no leading zero. */
  function ShowNat(n: nat): (s: string)
    ensures |s| > 0 && AllDigits(s)
    ensures s[0] == '0' <==> n == 0
    ensures s[0] == '0' ==> s == "0"
    decreases n
  {
    if n < 10 then [DigitChar(n)] else ShowNat(n / 10) + [DigitChar(n % 10)]
  }

  /** `{}` of an `i64`: a minus sign for negative values, then the digits. */
  function ShowInt(v: int): (s: string)
    ensures |s| > 0 && (s[0] == '-' <==> v < 0)
    ensures IsDecimal(s) && DecimalValue(s) == v
    ensures s[0] != '+' && (SplitSign(s).1[0] == '0' ==> SplitSign(s).1 == "0")
  {
    if v < 0 then
      var s := "-" + ShowNat(-v);
      HornerShowNat(-v);
      assert SplitSign(s) == (false, ShowNat(-v));
      s
    else
      var s := ShowNat(v);
      HornerShowNat(v);
      assert IsDigit(s[0]);
      assert SplitSign(s) == (true, s);
      s
  }

  lemma {:induction false} HornerShowNat(n: nat)
    ensures Horner(0, ShowNat(n)) == n
    decreases n
  {
    if n >= 10 {
      HornerShowNat(n / 10);
      HornerSnoc(0, ShowNat(n / 10), DigitChar(n % 10));
    }
  }

  datatype IntErrorKind = Empty | InvalidDigit | PosOverflow | NegOverflow

  /** The digit loop of the standard parser, on magnitudes: every position
      is checked for a digit first, then for pushing the magnitude read so
      far past `limit`; the first failing position decides the error. */
  function Accumulate(ds: string, acc: nat, limit: nat, overflow: IntErrorKind): (r: Result<nat, IntErrorKind>)
    requires acc <= limit
    ensures r.Ok? <==> AllDigits(ds) && Horner(acc, ds) <= limit
    ensures r.Ok? ==> AllDigits(ds) && r.value == Horner(acc, ds)
    ensures r.Err? ==> r.error == InvalidDigit || r.error == overflow
    decreases |ds|
  {
    if ds == [] then Ok(acc)
    else if !IsDigit(ds[0]) then Err(InvalidDigit)
    else if acc * 10 + DigitValue(ds[0]) > limit then Err(overflow)
    else
      assert AllDigits(ds) <==> AllDigits(ds[1..]) by {
        assert forall i :: 1 <= i < |ds| ==> ds[1..][i - 1] == ds[i];
      }
      Accumulate(ds[1..], acc * 10 + DigitValue(ds[0]), limit, overflow)
  }

  /** An optional leading sign and the rest of the text. */
  function SplitSign(s: string): (bool, string) {
    if |s| > 0 && s[0] == '+' then (true, s[1..])
    else if |s| > 0 && s[0] == '-' then (false, s[1..])
    else (true, s)
  }

  /** Optional sign, then at least one ASCII digit and nothing else. */
  predicate IsDecimal(s: string) {
    var (_, ds) := SplitSign(s);
    |ds| > 0 && AllDigits(ds)
  }

  function DecimalValue(s: string): int
    requires IsDecimal(s)
  {
    var (positive, ds) := SplitSign(s);
    if positive then Horner(0, ds) as int else -(Horner(0, ds) as int)
  }

  /** `str::parse::<i64>`: empty text, a lone sign, a non-digit and a value
      outside the 64-bit range are the four ways to fail. */
  function ParseI64(s: string): (r: Result<int, IntErrorKind>)
    ensures r == Err(Empty) <==> s == []
    ensures r.Ok? <==> IsDecimal(s) && InI64(DecimalValue(s))
    ensures r.Ok? ==> IsDecimal(s) && r.value == DecimalValue(s)
  {
    if s == [] then Err(Empty)
    else if |s| == 1 && (s[0] == '+' || s[0] == '-') then Err(InvalidDigit)
    else
      var (positive, ds) := SplitSign(s);
      if positive then
        match Accumulate(ds, 0, I64_MAX, PosOverflow)
        case Ok(m) => Ok(m as int)
        case Err(k) => Err(k)
      else
        match Accumulate(ds, 0, -I64_MIN, NegOverflow)
        case Ok(m) => Ok(-(m as int))
        case Err(k) => Err(k)
  }

  /** Printing an `i64` and parsing the text back gives the same value. */
  lemma ParseShowRoundTrip(v: int)
    requires InI64(v)
    ensures ParseI64(ShowInt(v)) == Ok(v)
  {
  }
}
