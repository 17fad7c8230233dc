/**
 * Decimal text for lengths: `format!("{}", n)` for a `usize` and
 * `str::parse::<usize>()` as used on the `Content-Length` value.
 * The target is taken to be 64-bit, so `usize` ranges up to 2^64 - 1.
 */
module Numbers {
  import opened Wrappers
  import opened Text

  const USIZE_MAX: nat := 0xFFFF_FFFF_FFFF_FFFF

  predicate IsDigit(c: char) {
    '0' <= c <= '9'
  }

  predicate AllDigits(s: string) {
    forall k :: 0 <= k < |s| ==> IsDigit(s[k])
  }

  function DigitChar(d: nat): (c: char)
    requires d < 10
    ensures IsDigit(c) && c as int - '0' as int == d
  {
    ('0' as int + d) as char
  }

  /** The number a string of decimal digits denotes, most significant first. */
  function DigitsValue(ds: string): nat
    requires AllDigits(ds)
  {
    if ds == [] then 0
    else DigitsValue(ds[..|ds| - 1]) * 10 + (ds[|ds| - 1] as int - '0' as int)
  }

  /** `format!("{}", n)`: the shortest decimal numeral of `n`. */
  function Decimal(n: nat): (r: string)
    ensures |r| >= 1 && AllDigits(r)
    ensures r[0] == '0' ==> n == 0
  {
    if n < 10 then [DigitChar(n)] else Decimal(n / 10) + [DigitChar(n % 10)]
  }

  /** The numeral `Decimal` prints denotes the number it was given. */
  lemma {:induction false} DecimalValue(n: nat)
    ensures DigitsValue(Decimal(n)) == n
  {
    if n >= 10 {
      var ds := Decimal(n);
      assert ds[..|ds| - 1] == Decimal(n / 10);
      DecimalValue(n / 10);
    }
  }

  /**
   * `usize::from_str`: an optional leading `+`, then one or more ASCII
   * digits (leading zeros allowed), with a value that fits in a `usize`.
   * Everything else (empty text, a lone `+`, a `-`, spaces, any other
   * character, overflow) is an error.
   */
  function ParseUsize(s: string): (r: Option<nat>)
    ensures r.Some? ==> r.value <= USIZE_MAX
    ensures r.Some? ==> |s| >= 1 && (IsDigit(s[0]) || s[0] == '+')
  {
    var digits := if |s| > 0 && s[0] == '+' then s[1..] else s;
    if |digits| == 0 || !AllDigits(digits) then None
    else
      var v := DigitsValue(digits);
      if v <= USIZE_MAX then Some(v) else None
  }

  /** What is printed for a length reads back as that length. */
  lemma ParseDecimal(n: nat)
    requires n <= USIZE_MAX
    ensures ParseUsize(Decimal(n)) == Some(n)
  {
    DecimalValue(n);
  }

  /** `k` zero digits. */
  function Zeros(k: nat): (r: string)
    ensures |r| == k && AllDigits(r)
  {
    if k == 0 then "" else "0" + Zeros(k - 1)
  }

  /** A leading zero does not change the value of a numeral. */
  lemma {:induction false} LeadingZero(ds: string)
    requires AllDigits(ds)
    ensures AllDigits("0" + ds) && DigitsValue("0" + ds) == DigitsValue(ds)
    decreases |ds|
  {
    if ds != [] {
      var init := ds[..|ds| - 1];
      assert ("0" + ds)[..|ds|] == "0" + init;
      LeadingZero(init);
    }
  }

  /** Any number of leading zeros does not change the value of a numeral. */
  lemma {:induction false} LeadingZeros(k: nat, ds: string)
    requires AllDigits(ds)
    ensures AllDigits(Zeros(k) + ds) && DigitsValue(Zeros(k) + ds) == DigitsValue(ds)
    decreases k
  {
    if k > 0 {
      LeadingZeros(k - 1, ds);
      LeadingZero(Zeros(k - 1) + ds);
      assert Zeros(k) == "0" + Zeros(k - 1);
      AppendAssoc("0", Zeros(k - 1), ds);
      assert Zeros(k) + ds == "0" + (Zeros(k - 1) + ds);
    } else {
      assert Zeros(k) + ds == ds;
    }
  }

  /** A numeral without a leading zero (or the single digit `0`) is the one `Decimal` prints. */
  lemma {:induction false} CanonicalNumeral(ds: string)
    requires |ds| >= 1 && AllDigits(ds) && (ds[0] != '0' || |ds| == 1)
    ensures Decimal(DigitsValue(ds)) == ds
    decreases |ds|
  {
    var init, d := ds[..|ds| - 1], ds[|ds| - 1] as int - '0' as int;
    if |ds| > 1 {
      assert init[0] == ds[0];
      CanonicalNumeral(init);
      var v := DigitsValue(init);
      assert v != 0;
      assert DigitsValue(ds) == v * 10 + d;
      assert ds == init + [ds[|ds| - 1]];
    }
  }

  /** Every numeral is some leading zeros followed by what `Decimal` prints for its value. */
  lemma {:induction false} NumeralForm(ds: string) returns (k: nat)
    requires |ds| >= 1 && AllDigits(ds)
    ensures ds == Zeros(k) + Decimal(DigitsValue(ds))
    decreases |ds|
  {
    if ds[0] != '0' || |ds| == 1 {
      CanonicalNumeral(ds);
      k := 0;
    } else {
      var rest := ds[1..];
      assert ds == "0" + rest;
      LeadingZero(rest);
      var k' := NumeralForm(rest);
      k := k' + 1;
      var numeral := Decimal(DigitsValue(rest));
      assert Zeros(k) == "0" + Zeros(k');
      AppendAssoc("0", Zeros(k'), numeral);
    }
  }

  /**
   * `usize::from_str` accepts an optional `+`, any leading zeros and the
   * numeral of a value: it gives that value when it fits in a `usize`, and
   * an error when it overflows.
   */
  lemma ParseUsizeAccepts(sign: string, k: nat, n: nat)
    requires sign == "" || sign == "+"
    ensures ParseUsize(sign + Zeros(k) + Decimal(n)) == if n <= USIZE_MAX then Some(n) else None
  {
    var digits := Zeros(k) + Decimal(n);
    LeadingZeros(k, Decimal(n));
    DecimalValue(n);
    AppendAssoc(sign, Zeros(k), Decimal(n));
    if sign == "+" {
      assert (sign + digits)[1..] == digits;
    } else {
      assert sign + digits == digits;
      assert digits[0] != '+';
    }
  }

  /**
   * Conversely, every text `usize::from_str` accepts is an optional `+`,
   * leading zeros and the numeral of the value it gives.
   */
  lemma ParseUsizeForm(s: string) returns (sign: string, k: nat)
    requires ParseUsize(s).Some?
    ensures sign == "" || sign == "+"
    ensures s == sign + Zeros(k) + Decimal(ParseUsize(s).value)
  {
    var digits := if s[0] == '+' then s[1..] else s;
    sign := if s[0] == '+' then "+" else "";
    k := NumeralForm(digits);
    assert s == sign + digits;
    AppendAssoc(sign, Zeros(k), Decimal(DigitsValue(digits)));
  }

  /** The texts that parse to `n` are exactly the signed, zero-padded numerals of `n`, for `n` in range. */
  lemma ParseUsizeExactly(s: string, n: nat)
    ensures ParseUsize(s) == Some(n)
        <==> n <= USIZE_MAX && exists sign, k: nat :: (sign == "" || sign == "+") && s == sign + Zeros(k) + Decimal(n)
  {
    if ParseUsize(s) == Some(n) {
      var sign, k := ParseUsizeForm(s);
      assert s == sign + Zeros(k) + Decimal(n);
    }
    if n <= USIZE_MAX && exists sign, k: nat :: (sign == "" || sign == "+") && s == sign + Zeros(k) + Decimal(n) {
      var sign, k: nat :| (sign == "" || sign == "+") && s == sign + Zeros(k) + Decimal(n);
      ParseUsizeAccepts(sign, k, n);
    }
  }
}
