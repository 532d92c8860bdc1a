/**
 * The conversions the extractor applies to the three fields of a table row:
 * Python's `int()` for `max` and `min`, and `float()` for `avg`.
 *
 * The table pattern only ever hands these conversions text of the shapes
 * `-?\d+` (max, min) and `-?[\d.]+` (avg), so they are modelled on exactly
 * those shapes.  `int()` accepts every `-?\d+` text of at most 4300 digits
 * (CPython's default limit).  `float()` rejects a `-?[\d.]+` text that has
 * no digit (".", "-..") or more than one dot ("1.2.3"), so `ParseDecimal` is
 * partial.  The value of `avg` is kept as the
 * exact decimal that was written, not as a binary float.
 */
module Numeric {
  import opened Wrappers
  import opened Text

  // ---------------------------------------------------------------- shapes

  /** `s` without its leading minus sign, if it has one. */
  function Unsigned(s: string): (r: string)
    ensures |r| <= |s|
  {
    if |s| > 0 && s[0] == '-' then s[1..] else s
  }

  /** The regex `-?\d+`. */
  predicate IntShape(s: string)
  {
    IsDigits(Unsigned(s))
  }

  predicate IsDigitOrDot(c: char)
  {
    IsDigit(c) || c == '.'
  }

  /** The regex `-?[\d.]+`. */
  predicate AvgShape(s: string)
  {
    var body := Unsigned(s);
    |body| > 0 && forall k :: 0 <= k < |body| ==> IsDigitOrDot(body[k])
  }

  predicate HasDigit(s: string)
  {
    exists k :: 0 <= k < |s| && IsDigit(s[k])
  }

  /** The position of the first `c` in `s` (Python's `s.find(c)`), or `|s|` when there is none. */
  function FindChar(s: string, c: char): (k: nat)
    ensures k <= |s|
    ensures k < |s| ==> s[k] == c
    ensures forall j :: 0 <= j < k ==> s[j] != c
  {
    if |s| == 0 then 0 else if s[0] == c then 0 else 1 + FindChar(s[1..], c)
  }

  /** No dot follows the first dot. */
  predicate AtMostOneDot(s: string)
  {
    var k := FindChar(s, '.');
    k == |s| || '.' !in s[k + 1..]
  }

  // ---------------------------------------------------------------- int()

  /**
   * CPython's default limit on the number of digits `int()` converts from
   * text (`sys.get_int_max_str_digits()`); longer text is a `ValueError`.
   */
  const MaxIntDigits: nat := 4300

  /** Text whose digits `int()` is allowed to convert. */
  predicate WithinDigitLimit(s: string)
  {
    |Unsigned(s)| <= MaxIntDigits
  }

  /**
   * `int(s)` on text of the shape `-?\d+` with at most `MaxIntDigits` digits;
   * any other text is a `ValueError`.
   */
  function ParseInt(s: string): (r: Option<int>)
    ensures r.Some? <==> IntShape(s) && WithinDigitLimit(s)
  {
    if IntShape(s) && WithinDigitLimit(s) then
      var m: int := DigitsValue(Unsigned(s));
      Some(if s[0] == '-' then -m else m)
    else None
  }

  /** `str(n)`. */
  function IntToString(n: int): string
  {
    if n < 0 then "-" + NatToString(-n) else NatToString(n)
  }

  /** `int(str(n)) == n` whenever `str(n)` is within the digit limit. */
  lemma IntRoundTrip(n: int)
    ensures WithinDigitLimit(IntToString(n)) ==> ParseInt(IntToString(n)) == Some(n)
  {
    var s := IntToString(n);
    if n < 0 {
      NatToStringRoundTrip(-n);
      assert Unsigned(s) == NatToString(-n);
    } else {
      NatToStringRoundTrip(n);
      assert s[0] != '-';
      assert Unsigned(s) == s;
    }
  }

  // ---------------------------------------------------------------- float()

  /**
   * A decimal number as written: its value is `magnitude / 10^scale`,
   * negated when `negative` (which keeps the sign of "-0.0", as a float does).
   */
  datatype Decimal = Decimal(negative: bool, magnitude: nat, scale: nat)

  /**
   * `float(s)` on text of the shape `-?[\d.]+`.  It succeeds exactly when the
   * text after the sign has a digit and at most one dot; the magnitude is the
   * value of all digits and the scale is the number of digits after the dot.
   */
  function ParseDecimal(s: string): (r: Option<Decimal>)
    ensures r.Some? <==> AvgShape(s) && HasDigit(Unsigned(s)) && AtMostOneDot(Unsigned(s))
    ensures r.Some? ==> (r.value.negative <==> s[0] == '-')
  {
    var body := Unsigned(s);
    if AvgShape(s) && HasDigit(body) && AtMostOneDot(body) then
      Some(Decimal(s[0] == '-', DigitsValue(DigitsOf(body)), ScaleOf(body)))
    else None
  }

  /** The digits of a `[\d.]+` text with at most one dot, the dot left out. */
  function DigitsOf(body: string): (r: string)
    requires forall k :: 0 <= k < |body| ==> IsDigitOrDot(body[k])
    requires AtMostOneDot(body)
    ensures forall j :: 0 <= j < |r| ==> IsDigit(r[j])
  {
    var k := FindChar(body, '.');
    if k == |body| then
      assert forall j :: 0 <= j < |body| ==> IsDigit(body[j]) by {
        forall j | 0 <= j < |body| ensures IsDigit(body[j]) {
          assert IsDigitOrDot(body[j]) && body[j] != '.';
        }
      }
      body
    else
      var r := body[..k] + body[k + 1..];
      assert forall j :: 0 <= j < |r| ==> IsDigit(r[j]) by {
        forall j | 0 <= j < |r| ensures IsDigit(r[j]) {
          if j < k {
            assert r[j] == body[j] && IsDigitOrDot(body[j]) && body[j] != '.';
          } else {
            var t := body[k + 1..];
            assert r[j] == t[j - k] && t[j - k] in t;
            assert IsDigitOrDot(body[j + 1]);
          }
        }
      }
      r
  }

  /** The number of digits after the dot. */
  function ScaleOf(body: string): nat
  {
    var k := FindChar(body, '.');
    if k == |body| then 0 else |body| - k - 1
  }

  /** The digits of `d.magnitude`, with a dot before the last `d.scale` of them when `d.scale > 0`. */
  function DecimalBody(d: Decimal): string
  {
    if d.scale == 0 then NatToString(d.magnitude)
    else
      var ds := ZeroPad(NatToString(d.magnitude), d.scale + 1);
      ds[..|ds| - d.scale] + "." + ds[|ds| - d.scale..]
  }

  /** The shortest text that writes `d` with exactly `d.scale` digits after the dot. */
  function FormatDecimal(d: Decimal): string
  {
    (if d.negative then "-" else "") + DecimalBody(d)
  }

  /** Every decimal is read back from its written form unchanged. */
  lemma DecimalRoundTrip(d: Decimal)
    ensures ParseDecimal(FormatDecimal(d)) == Some(d)
  {
    var sign := if d.negative then "-" else "";
    var body := DecimalBody(d);
    BodyRoundTrip(d);
    var s := sign + body;
    UnsignedAfterSign(sign, body);
    assert s[0] == '-' <==> d.negative;
  }

  /** The unsigned part reads back as the magnitude and the scale. */
  lemma BodyRoundTrip(d: Decimal)
    ensures var body := DecimalBody(d);
      |body| > 0 && IsDigit(body[0])
      && (forall k :: 0 <= k < |body| ==> IsDigitOrDot(body[k]))
      && HasDigit(body) && AtMostOneDot(body)
      && DigitsValue(DigitsOf(body)) == d.magnitude && ScaleOf(body) == d.scale
  {
    if d.scale == 0 {
      var n := NatToString(d.magnitude);
      assert DecimalBody(d) == n;
      UnscaledBody(d.magnitude);
      assert DigitsOf(n) == n;
    } else {
      ScaledRoundTrip(d);
    }
  }

  /** With digits after the dot, the body reads back as the magnitude and the scale. */
  lemma ScaledRoundTrip(d: Decimal)
    requires d.scale > 0
    ensures var body := DecimalBody(d);
      |body| > 0 && IsDigit(body[0])
      && (forall k :: 0 <= k < |body| ==> IsDigitOrDot(body[k]))
      && HasDigit(body) && AtMostOneDot(body)
      && DigitsValue(DigitsOf(body)) == d.magnitude && ScaleOf(body) == d.scale
  {
    var ds := ZeroPad(NatToString(d.magnitude), d.scale + 1);
    PaddedDigits(d.magnitude, d.scale + 1);
    var k := |ds| - d.scale;
    ScaledBody(ds, k);
    var body := ds[..k] + "." + ds[k..];
    assert DecimalBody(d) == body;
    DotRemoved(body, k);
  }

  /** With its one dot at `k`, a body's digits are the rest of it and its scale is what follows the dot. */
  lemma DotRemoved(body: string, k: nat)
    requires forall j :: 0 <= j < |body| ==> IsDigitOrDot(body[j])
    requires k < |body| && FindChar(body, '.') == k && AtMostOneDot(body)
    ensures DigitsOf(body) == body[..k] + body[k + 1..] && ScaleOf(body) == |body| - k - 1
  {
  }

  /** Without a dot the body is the plain rendering of the magnitude. */
  lemma UnscaledBody(m: nat)
    ensures var n := NatToString(m);
      '.' !in n && (forall k :: 0 <= k < |n| ==> IsDigitOrDot(n[k])) && HasDigit(n)
      && FindChar(n, '.') == |n| && DigitsValue(n) == m
  {
    var n := NatToString(m);
    NatToStringRoundTrip(m);
    assert '.' !in n by {
      forall j | 0 <= j < |n| ensures n[j] != '.' {
        assert IsDigit(n[j]);
      }
    }
    assert IsDigit(n[0]);
  }

  /** Removing the sign of a signed digit text leaves the digits. */
  lemma UnsignedAfterSign(sign: string, body: string)
    requires sign == "-" || sign == ""
    requires |body| > 0 && IsDigit(body[0])
    ensures Unsigned(sign + body) == body
  {
    if sign == "" {
      assert sign + body == body;
    } else {
      assert (sign + body)[1..] == body;
    }
  }

  /** The zero-padded rendering of `m` is all digits and still reads as `m`. */
  lemma PaddedDigits(m: nat, width: nat)
    ensures var ds := ZeroPad(NatToString(m), width);
      (forall j :: 0 <= j < |ds| ==> IsDigit(ds[j])) && DigitsValue(ds) == m
  {
    var n := NatToString(m);
    ZeroPadDigits(n, width);
    NatToStringRoundTrip(m);
    if |n| < width {
      LeadingZeros(width - |n|, n);
    }
  }

  /** Padding a digit run with zeros leaves a digit run. */
  lemma ZeroPadDigits(n: string, width: nat)
    requires forall j :: 0 <= j < |n| ==> IsDigit(n[j])
    ensures var ds := ZeroPad(n, width);
      forall j :: 0 <= j < |ds| ==> IsDigit(ds[j])
  {
    if |n| < width {
      var z := Zeros(width - |n|);
      var ds := z + n;
      forall j | 0 <= j < |ds| ensures IsDigit(ds[j]) {
        if j < |z| { assert ds[j] == z[j]; } else { assert ds[j] == n[j - |z|]; }
      }
    }
  }

  /** A digit run with one dot put in at position `k`, `0 < k < |ds|`, parses back to the run and its scale. */
  lemma ScaledBody(ds: string, k: nat)
    requires 0 < k < |ds|
    requires forall j :: 0 <= j < |ds| ==> IsDigit(ds[j])
    ensures var body := ds[..k] + "." + ds[k..];
      IsDigit(body[0]) && (forall j :: 0 <= j < |body| ==> IsDigitOrDot(body[j]))
      && HasDigit(body) && FindChar(body, '.') == k && AtMostOneDot(body)
      && body[..k] + body[k + 1..] == ds
  {
    var body := ds[..k] + "." + ds[k..];
    assert IsDigit(body[0]);
    assert forall j :: 0 <= j < |body| ==> IsDigitOrDot(body[j]) by {
      forall j | 0 <= j < |body| ensures IsDigitOrDot(body[j]) {
        if j < k { assert body[j] == ds[j]; } else if j > k { assert body[j] == ds[j - 1]; }
      }
    }
    assert forall j :: 0 <= j < k ==> body[j] == ds[j];
    assert body[k] == '.';
    assert body[k + 1..] == ds[k..];
    assert '.' !in ds[k..] by {
      forall j | k <= j < |ds| ensures ds[j] != '.' {
        assert IsDigit(ds[j]);
      }
    }
    assert body[..k] == ds[..k];
  }

  /** Averages the extractor meets: a plain one and a negative zero. */
  lemma FloatAccepted()
    ensures ParseDecimal("15.5") == Some(Decimal(false, 155, 1))
    ensures ParseDecimal("-0") == Some(Decimal(true, 0, 0))
  {
    assert IsDigit("15.5"[0]);
    assert FindChar("15.5", '.') == 2;
    DotRemoved("15.5", 2);
    assert "15.5"[..2] + "15.5"[3..] == "155";
    assert DigitsValue("155") == 155 by {
      assert "155"[..2] == "15";
      assert "15"[..1] == "1";
    }
    assert IsDigit("-0"[1..][0]);
    assert FindChar("0", '.') == 1;
  }

  /** Texts of the average's shape that `float()` rejects: no digit, or two dots. */
  lemma FloatRejected()
    ensures ParseDecimal(".") == None
    ensures ParseDecimal("1.2.3") == None
  {
    assert !HasDigit(".");
    assert FindChar("1.2.3", '.') == 1;
    assert "1.2.3"[2..][1] == '.';
  }
}
