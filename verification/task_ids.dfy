/** An optional value: JavaScript's `null` or a present value. */
module Wrappers {
  datatype Option<+T> = None | Some(value: T)
}

/** Task identifiers: the string `T-<n>` that `createTask` builds from the
    counter with a template literal, and its inverse. */
module TaskIds {
  import opened Wrappers

  predicate IsDigit(c: char) {
    '0' <= c <= '9'
  }

  function DigitChar(d: nat): (c: char)
    requires d < 10
    ensures IsDigit(c)
  {
    (48 + d) as char
  }

  function DigitValue(c: char): (d: nat)
    requires IsDigit(c)
    ensures d < 10
  {
    (c as int) - 48
  }

  /** The decimal numeral JavaScript prints for a non-negative integer: no sign,
      no leading zero. */
  function Decimal(n: nat): (s: string)
    decreases n
  {
    if n < 10 then [DigitChar(n)] else Decimal(n / 10) + [DigitChar(n % 10)]
  }

  predicate AllDigits(s: string) {
    forall k :: 0 <= k < |s| ==> IsDigit(s[k])
  }

  /** The value of a numeral, most significant digit first. */
  function NumeralValue(s: string): nat
    requires AllDigits(s)
  {
    if s == [] then 0 else NumeralValue(s[..|s| - 1]) * 10 + DigitValue(s[|s| - 1])
  }

  /** The id of the task created when the counter stands at `n`. */
  function IdString(n: nat): string {
    "T-" + Decimal(n)
  }

  /** Reads the counter value back out of an id; `None` for any string that is
      not `T-` followed by at least one digit. */
  function ParseId(id: string): Option<nat> {
    if |id| > 2 && id[..2] == "T-" && AllDigits(id[2..]) then Some(NumeralValue(id[2..])) else None
  }

  /** A printed numeral is all digits, never empty, and reads back as `n`. */
  lemma {:induction false} DecimalRoundTrip(n: nat)
    ensures |Decimal(n)| > 0 && AllDigits(Decimal(n)) && NumeralValue(Decimal(n)) == n
    decreases n
  {
    if n >= 10 {
      DecimalRoundTrip(n / 10);
      var s := Decimal(n);
      assert s[..|s| - 1] == Decimal(n / 10);
    }
  }

  /** Parsing an issued id gives back the counter value it was built from. */
  lemma ParseIdString(n: nat)
    ensures ParseId(IdString(n)) == Some(n)
  {
    DecimalRoundTrip(n);
    var id := IdString(n);
    assert id[..2] == "T-" && id[2..] == Decimal(n);
  }

  /** Distinct counter values give distinct ids. */
  lemma IdStringInjective(m: nat, n: nat)
    ensures IdString(m) == IdString(n) <==> m == n
  {
    ParseIdString(m);
    ParseIdString(n);
  }
}
