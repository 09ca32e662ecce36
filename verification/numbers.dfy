/**
 * `str::parse::<u64>()`, which reads the Installed-Size field
 * (src/parse/types.rs:379-382): an optional `+`, then one or more ASCII
 * digits whose value fits in 64 bits.
 */
module Numbers {
  import opened Results
  import opened Errors

  const U64Limit: int := 0x1_0000_0000_0000_0000

  predicate IsDigit(c: char) {
    '0' <= c <= '9'
  }

  predicate AllDigits(s: string) {
    forall i :: 0 <= i < |s| ==> IsDigit(s[i])
  }

  /** The value of a digit string, read left to right (`v * 10 + d` per digit). */
  function DigitsValue(ds: string): nat
    requires AllDigits(ds)
  {
    if |ds| == 0 then 0
    else DigitsValue(ds[..|ds| - 1]) * 10 + (ds[|ds| - 1] as int - '0' as int)
  }

  /** The digits after an optional leading `+`. */
  function Unsigned(s: string): string {
    if |s| > 0 && s[0] == '+' then s[1..] else s
  }

  /**
   * `u64::from_str`. The library checks for overflow digit by digit; since the
   * running value never decreases, that is the same as checking the final
   * value against 2^64.
   */
  function ParseU64(s: string): (r: Result<nat, Error>)
    ensures r.Ok? ==> r.value < U64Limit
    ensures r.Ok? ==> |Unsigned(s)| > 0 && AllDigits(Unsigned(s)) && r.value == DigitsValue(Unsigned(s))
    ensures r.Err? ==> r.error == BadInteger(s)
  {
    var ds := Unsigned(s);
    if |ds| > 0 && AllDigits(ds) && DigitsValue(ds) < U64Limit then Ok(DigitsValue(ds))
    else Err(BadInteger(s))
  }

  /** The canonical decimal spelling of a number, without sign or leading zeros. */
  function Decimal(n: nat): (s: string)
    ensures |s| > 0 && AllDigits(s)
  {
    var last := ['0' + (n % 10) as char];
    if n < 10 then last else Decimal(n / 10) + last
  }

  lemma {:induction false} DecimalValue(n: nat)
    ensures DigitsValue(Decimal(n)) == n
  {
    if n >= 10 {
      var s := Decimal(n);
      assert s[..|s| - 1] == Decimal(n / 10);
      DecimalValue(n / 10);
    }
  }

  /** Every 64-bit value, written in decimal, parses back to itself. */
  lemma ParseDecimal(n: nat)
    requires n < U64Limit
    ensures ParseU64(Decimal(n)) == Ok(n)
  {
    DecimalValue(n);
    assert Decimal(n)[0] != '+';
  }

  /** A value of 2^64 or more is rejected, even when well spelled. */
  lemma ParseRejectsOverflow(n: nat)
    requires n >= U64Limit
    ensures ParseU64(Decimal(n)).Err?
  {
    DecimalValue(n);
  }
}
