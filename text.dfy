/**
 * The string operations the scripts rely on, as Python defines them for `str`:
 * whitespace (`str.isspace`, which is also what the regex class `\s` matches),
 * ASCII digits, `strip()`, `split(sep)` with a one-character separator, and the
 * decimal rendering of a natural number (`str(n)`, `f"{n:02d}"`).
 */
module Text {

  /** Python's `str.isspace()` (and the regex class `\s` on `str` patterns). */
  predicate IsSpace(c: char)
  {
    c == ' ' || '\t' <= c <= '\r' || '\U{1C}' <= c <= '\U{1F}' || c == '\U{85}' || c == '\U{A0}'
    || c == '\U{1680}' || '\U{2000}' <= c <= '\U{200A}' || c == '\U{2028}' || c == '\U{2029}'
    || c == '\U{202F}' || c == '\U{205F}' || c == '\U{3000}'
  }

  /** The regex class `\d`, restricted to ASCII digits. */
  predicate IsDigit(c: char)
  {
    '0' <= c <= '9'
  }

  /** A non-empty run of ASCII digits. */
  predicate IsDigits(s: string)
  {
    |s| > 0 && forall k :: 0 <= k < |s| ==> IsDigit(s[k])
  }

  // ---------------------------------------------------------------- strip()

  /** Drops leading whitespace. */
  function LStrip(s: string): (r: string)
    ensures |r| <= |s| && r == s[|s| - |r|..]
    ensures forall k :: 0 <= k < |s| - |r| ==> IsSpace(s[k])
    ensures |r| > 0 ==> !IsSpace(r[0])
  {
    if |s| > 0 && IsSpace(s[0]) then LStrip(s[1..]) else s
  }

  /** Drops trailing whitespace. */
  function RStrip(s: string): (r: string)
    ensures |r| <= |s| && r == s[..|r|]
    ensures forall k :: |r| <= k < |s| ==> IsSpace(s[k])
    ensures |r| > 0 ==> !IsSpace(r[|r| - 1])
  {
    if |s| > 0 && IsSpace(s[|s| - 1]) then RStrip(s[..|s| - 1]) else s
  }

  /** Python's `s.strip()`: what is left has no whitespace at either end. */
  function Strip(s: string): (r: string)
    ensures |r| <= |s|
    ensures |r| > 0 ==> !IsSpace(r[0]) && !IsSpace(r[|r| - 1])
  {
    RStrip(LStrip(s))
  }

  /**
   * What `strip()` keeps is the part of `s` from position `i` on, and
   * everything it removes before and after that part is whitespace.
   */
  lemma StripSpec(s: string)
    ensures var i, r := |s| - |LStrip(s)|, Strip(s);
      i + |r| <= |s| && r == s[i..i + |r|]
      && (forall k :: 0 <= k < i ==> IsSpace(s[k]))
      && (forall k :: i + |r| <= k < |s| ==> IsSpace(s[k]))
  {
    var l := LStrip(s);
    var r := RStrip(l);
    StripSlice(s, l, r);
    assert r == Strip(s);
  }

  /**
   * How the two halves of `strip()` fit together: `l` is what is left after
   * leading whitespace, `r` what is left of `l` after trailing whitespace.
   */
  lemma StripSlice(s: string, l: string, r: string)
    requires |l| <= |s| && l == s[|s| - |l|..] && forall k :: 0 <= k < |s| - |l| ==> IsSpace(s[k])
    requires |r| <= |l| && r == l[..|r|] && forall k :: |r| <= k < |l| ==> IsSpace(l[k])
    ensures var i := |s| - |l|;
      i + |r| <= |s| && r == s[i..i + |r|]
      && (forall k :: 0 <= k < i ==> IsSpace(s[k]))
      && (forall k :: i + |r| <= k < |s| ==> IsSpace(s[k]))
  {
    var i := |s| - |l|;
    PrefixOfSuffix(s, i, l, r);
    forall k | i + |r| <= k < |s|
      ensures IsSpace(s[k])
    {
      assert s[k] == l[k - i];
    }
  }

  /** A prefix `r` of the suffix `l` of `s` from `i` is the slice of `s` from `i`. */
  lemma PrefixOfSuffix(s: string, i: nat, l: string, r: string)
    requires i <= |s| && l == s[i..] && |r| <= |l| && r == l[..|r|]
    ensures i + |r| <= |s| && r == s[i..i + |r|]
    ensures forall k :: i <= k < |s| ==> s[k] == l[k - i]
  {
  }

  /** A string whose first and last characters are not whitespace. */
  predicate Trimmed(s: string)
  {
    |s| > 0 && !IsSpace(s[0]) && !IsSpace(s[|s| - 1])
  }

  /** `strip()` leaves a trimmed string alone. */
  lemma StripTrimmed(s: string)
    requires Trimmed(s)
    ensures Strip(s) == s
  {
  }

  /** `strip()` removes one trailing whitespace character after a trimmed string. */
  lemma StripTrailingSpace(s: string, c: char)
    requires Trimmed(s) && IsSpace(c)
    ensures Strip(s + [c]) == s
  {
    assert LStrip(s + [c]) == s + [c];
    assert (s + [c])[..|s|] == s;
  }

  // ---------------------------------------------------------------- split(c)

  /**
   * Python's `s.split(c)` for a one-character separator: the pieces between
   * separators, never none, and none containing `c`.
   */
  function Split(s: string, c: char): (parts: seq<string>)
    ensures |parts| > 0
    ensures forall k :: 0 <= k < |parts| ==> c !in parts[k]
  {
    if |s| == 0 then [""]
    else
      var rest := Split(s[1..], c);
      if s[0] == c then [""] + rest
      else [[s[0]] + rest[0]] + rest[1..]
  }

  /** Python's `c.join(parts)`. */
  function Join(parts: seq<string>, c: char): string
  {
    if |parts| == 0 then ""
    else if |parts| == 1 then parts[0]
    else parts[0] + [c] + Join(parts[1..], c)
  }

  /** Joining the pieces of a split with the same separator gives back the string. */
  lemma {:induction false} JoinSplit(s: string, c: char)
    ensures Join(Split(s, c), c) == s
  {
    if |s| > 0 {
      var rest := Split(s[1..], c);
      JoinSplit(s[1..], c);
      if s[0] == c {
        JoinCons("", rest, c);
      } else if |rest| == 1 {
        assert Split(s, c) == [[s[0]] + rest[0]];
      } else {
        JoinCons(rest[0], rest[1..], c);
        assert [rest[0]] + rest[1..] == rest;
        JoinCons([s[0]] + rest[0], rest[1..], c);
      }
    }
  }

  lemma JoinCons(x: string, parts: seq<string>, c: char)
    requires |parts| > 0
    ensures Join([x] + parts, c) == x + [c] + Join(parts, c)
  {
    assert ([x] + parts)[1..] == parts;
  }

  /** A string without the separator splits into itself. */
  lemma {:induction false} SplitWithoutSeparator(s: string, c: char)
    requires c !in s
    ensures Split(s, c) == [s]
  {
    if |s| > 0 {
      assert s[0] in s;
      SplitWithoutSeparator(s[1..], c);
      assert [s[0]] + s[1..] == s;
    }
  }

  /** Splitting at a separator that follows a separator-free prefix. */
  lemma {:induction false} SplitAtSeparator(a: string, b: string, c: char)
    requires c !in a
    ensures Split(a + [c] + b, c) == [a] + Split(b, c)
  {
    if |a| == 0 {
      assert a + [c] + b == [c] + b;
      assert ([c] + b)[1..] == b;
    } else {
      var t := a + [c] + b;
      assert a[0] in a;
      assert t[0] == a[0] && t[0] != c;
      assert t[1..] == a[1..] + [c] + b;
      SplitAtSeparator(a[1..], b, c);
      assert Split(t, c) == [[a[0]] + a[1..]] + Split(b, c);
      assert [a[0]] + a[1..] == a;
    }
  }

  /** A separator-free prefix glued to a string joins that string's first piece. */
  lemma {:induction false} SplitGlued(a: string, b: string, c: char)
    requires c !in a
    ensures Split(a + b, c) == [a + Split(b, c)[0]] + Split(b, c)[1..]
  {
    if |a| > 0 {
      var t := a + b;
      assert a[0] in a;
      assert t[0] == a[0] && t[0] != c;
      assert t[1..] == a[1..] + b;
      SplitGlued(a[1..], b, c);
      assert [a[0]] + (a[1..] + Split(b, c)[0]) == a + Split(b, c)[0];
    } else {
      assert a + b == b;
      assert a + Split(b, c)[0] == Split(b, c)[0];
      assert [Split(b, c)[0]] + Split(b, c)[1..] == Split(b, c);
    }
  }

  /** Gluing two strings merges the last piece of the first with the first piece of the second. */
  lemma {:induction false} SplitAppendCount(a: string, b: string, c: char)
    ensures |Split(a + b, c)| == |Split(a, c)| + |Split(b, c)| - 1
  {
    if |a| > 0 {
      assert (a + b)[0] == a[0];
      assert (a + b)[1..] == a[1..] + b;
      SplitAppendCount(a[1..], b, c);
    } else {
      assert a + b == b;
    }
  }

  // ---------------------------------------------------------------- numbers

  function DigitValue(c: char): nat
    requires IsDigit(c)
  {
    (c as int) - ('0' as int)
  }

  function DigitChar(d: nat): (c: char)
    requires d < 10
    ensures IsDigit(c) && DigitValue(c) == d
  {
    ((('0' as int) + d) as char)
  }

  /** The value of a run of ASCII digits, most significant first (0 when empty). */
  function DigitsValue(s: string): nat
    requires forall k :: 0 <= k < |s| ==> IsDigit(s[k])
  {
    if |s| == 0 then 0 else DigitsValue(s[..|s| - 1]) * 10 + DigitValue(s[|s| - 1])
  }

  /** Python's `str(n)` for a natural number. */
  function NatToString(n: nat): (s: string)
    ensures IsDigits(s)
  {
    if n < 10 then [DigitChar(n)] else NatToString(n / 10) + [DigitChar(n % 10)]
  }

  /** Reading back the decimal rendering of `n` gives `n`. */
  lemma {:induction false} NatToStringRoundTrip(n: nat)
    ensures DigitsValue(NatToString(n)) == n
  {
    if n >= 10 {
      NatToStringRoundTrip(n / 10);
      var s := NatToString(n);
      assert s[..|s| - 1] == NatToString(n / 10);
    }
  }

  function Zeros(k: nat): (s: string)
    ensures |s| == k && forall i :: 0 <= i < k ==> s[i] == '0'
  {
    if k == 0 then "" else Zeros(k - 1) + "0"
  }

  /** Leading zeros do not change the value of a digit run. */
  lemma {:induction false} LeadingZeros(k: nat, s: string)
    requires forall i :: 0 <= i < |s| ==> IsDigit(s[i])
    ensures DigitsValue(Zeros(k) + s) == DigitsValue(s)
  {
    var z := Zeros(k) + s;
    if |s| == 0 {
      assert z == Zeros(k);
      if k > 0 {
        assert z[..|z| - 1] == Zeros(k - 1) + s;
        LeadingZeros(k - 1, s);
      }
    } else {
      assert z[..|z| - 1] == Zeros(k) + s[..|s| - 1];
      LeadingZeros(k, s[..|s| - 1]);
    }
  }

  /** `s` padded on the left with zeros to at least `width` characters. */
  function ZeroPad(s: string, width: nat): (r: string)
    ensures |r| == if |s| < width then width else |s|
    ensures r[|r| - |s|..] == s
  {
    if |s| < width then Zeros(width - |s|) + s else s
  }

  /** Python's `f"{n:02d}"`. */
  function Pad2(n: nat): string
  {
    ZeroPad(NatToString(n), 2)
  }

  /** The two-digit field reads back as the number it renders, so it is injective. */
  lemma Pad2RoundTrip(n: nat)
    ensures IsDigits(Pad2(n)) && DigitsValue(Pad2(n)) == n
  {
    var s := NatToString(n);
    NatToStringRoundTrip(n);
    if |s| < 2 {
      LeadingZeros(2 - |s|, s);
    }
  }
}
