/** Decimal numerals as read by Rust's `str::parse::<u32>()`, and their
    canonical spelling. */
module Numeral {
  import opened Word

  datatype Option<T> = None | Some(value: T)

  predicate IsDigit(c: char) {
    '0' <= c <= '9'
  }

  predicate AllDigits(ds: string) {
    forall i :: 0 <= i < |ds| ==> IsDigit(ds[i])
  }

  /** The value of a string of decimal digits, most significant first. */
  function DecimalValue(ds: string): nat
    requires AllDigits(ds)
    decreases |ds|
  {
    if ds == [] then 0
    else DecimalValue(ds[..|ds| - 1]) * 10 + (ds[|ds| - 1] as int - '0' as int)
  }

  /** `u32::from_str`: an optional single leading `+`, then one or more
      ASCII digits whose value fits in 32 bits. A lone `+`, the empty string,
      a `-` sign, any other character and an overflowing value are errors. */
  function ParseU32(tok: string): (r: Option<u32>)
    ensures r.Some? ==> |tok| > 0 && (tok[0] == '+' || IsDigit(tok[0]))
    ensures r.Some? ==> forall i :: 0 < i < |tok| ==> IsDigit(tok[i])
  {
    var digits := if |tok| > 1 && tok[0] == '+' then tok[1..] else tok;
    if |digits| > 0 && AllDigits(digits) && DecimalValue(digits) < WORD_LIMIT
    then Some(DecimalValue(digits))
    else None
  }

  /** The canonical decimal spelling of `n`: no sign, no leading zeros. */
  function Decimal(n: nat): (ds: string)
    ensures |ds| > 0 && AllDigits(ds)
    ensures DecimalValue(ds) == n
    ensures ds[0] == '0' ==> n == 0
  {
    var last := ['0' + ((n % 10) as char)];
    if n < 10 then last
    else
      var front := Decimal(n / 10);
      assert (front + last)[..|front + last| - 1] == front;
      front + last
  }

  /** Parsing inverts spelling, with or without an explicit `+`, for
      every value a `u32` can hold; a larger value is an overflow error. */
  lemma ParseDecimal(n: nat)
    ensures ParseU32(Decimal(n)) == if n < WORD_LIMIT then Some(n) else None
    ensures ParseU32("+" + Decimal(n)) == if n < WORD_LIMIT then Some(n) else None
  {
    var ds := Decimal(n);
    assert ("+" + ds)[1..] == ds;
  }

  /** A token that starts with `-` is never a `u32`. */
  lemma ParseRejectsMinus(tok: string)
    requires |tok| > 0 && tok[0] == '-'
    ensures ParseU32(tok) == None
  {
    assert !IsDigit(tok[0]);
  }

  /** Leading zeros are accepted and do not change the value. */
  lemma {:induction false} LeadingZero(ds: string)
    requires AllDigits(ds)
    ensures AllDigits("0" + ds) && DecimalValue("0" + ds) == DecimalValue(ds)
    decreases |ds|
  {
    if ds != [] {
      var z := "0" + ds;
      assert z[..|z| - 1] == "0" + ds[..|ds| - 1];
      LeadingZero(ds[..|ds| - 1]);
    }
  }
}
