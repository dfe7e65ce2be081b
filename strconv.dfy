/** The decimal integer conversions of Go's `strconv` package that the core
    uses: `FormatInt(n, 10)` and `ParseInt(s, 10, 64)`. */
module Strconv {
  import opened Wrappers

  const MinInt64: int := -0x8000_0000_0000_0000
  const MaxInt64: int := 0x7FFF_FFFF_FFFF_FFFF

  predicate InInt64(n: int) {
    MinInt64 <= n <= MaxInt64
  }

  /** The two ways `strconv.ParseInt` fails. */
  datatype NumError = ErrSyntax | ErrRange

  predicate IsDigit(c: char) {
    '0' <= c <= '9'
  }

  predicate AllDigits(s: string) {
    forall k :: 0 <= k < |s| ==> IsDigit(s[k])
  }

  function DigitChar(d: nat): (c: char)
    requires d < 10
    ensures IsDigit(c)
  {
    (('0' as int) + d) as char
  }

  /** The value of a string of decimal digits, most significant first. */
  function DigitsValue(s: string): nat
    requires AllDigits(s)
  {
    if s == [] then 0 else DigitsValue(s[..|s| - 1]) * 10 + ((s[|s| - 1] as int) - ('0' as int))
  }

  /** The shortest decimal spelling of `n`. */
  function NatToString(n: nat): (r: string)
    ensures r != [] && AllDigits(r)
    ensures DigitsValue(r) == n
    ensures |r| > 1 ==> r[0] != '0'
  {
    if n < 10 then [DigitChar(n)]
    else
      var p := NatToString(n / 10);
      var r := p + [DigitChar(n % 10)];
      assert r[..|r| - 1] == p;
      r
  }

  /** `strconv.FormatInt(n, 10)`. */
  function FormatInt(n: int): (r: string)
    ensures r != []
    ensures n < 0 <==> r[0] == '-'
    ensures AllDigits(if n < 0 then r[1..] else r)
  {
    if n < 0 then "-" + NatToString(-n) else NatToString(n)
  }

  /** `strconv.ParseInt(s, 10, 64)`: an optional sign, then one or more decimal
      digits, whose value must fit in 64 bits. */
  function ParseInt64(s: string): (r: Result<int, NumError>)
    ensures r.Ok? ==> InInt64(r.value)
    ensures r.Ok? ==> s != [] && (s[0] == '-' || s[0] == '+' || IsDigit(s[0]))
  {
    if s == [] then Err(ErrSyntax)
    else
      var digits := if s[0] == '+' || s[0] == '-' then s[1..] else s;
      if digits == [] || !AllDigits(digits) then Err(ErrSyntax)
      else
        var v: int := if s[0] == '-' then 0 - (DigitsValue(digits) as int) else DigitsValue(digits);
        if InInt64(v) then Ok(v) else Err(ErrRange)
  }

  /** Parsing a formatted 64-bit integer gives it back. */
  lemma ParseFormatInt(n: int)
    requires InInt64(n)
    ensures ParseInt64(FormatInt(n)) == Ok(n)
  {
    if n < 0 {
      assert ("-" + NatToString(-n))[1..] == NatToString(-n);
    }
  }
}
