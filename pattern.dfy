/**
 * `re.findall(r"Max\s+Avg\s+Min\n((?:-?\d+\t-?[\d.]+\t-?\d+\n?)+)", data)`
 * as a left-to-right scanner over the report text.
 *
 * Backtracking never changes the outcome of this pattern, so the scanner takes
 * the longest run at every step:
 *  - each `\s+` is followed by a letter, which whitespace is not, so a shorter
 *    whitespace run would leave whitespace where the letter must be;
 *  - each `\d+` and `[\d.]+` inside a row is followed by a tab, which neither
 *    class contains, and `-?` is followed by a digit class that `-` is not in;
 *  - the last field of a row is followed only by the optional `\n` and the end
 *    of the group, and nothing follows the group, so the first success found
 *    by the greedy repetition is the match.
 * A row therefore ends just after the digits of its last field, followed by
 * one optional newline; the next row may start right there, without a
 * newline, when it begins with `-`.  findall collects group 1 of each match
 * and resumes the search where the match ended; where nothing matches it
 * moves on by one character.
 */
module Pattern {
  import opened Wrappers
  import opened Text
  import opened Numeric

  // ---------------------------------------------------------------- the pieces

  predicate InRun(c: char, dots: bool)
  {
    if dots then IsDigitOrDot(c) else IsDigit(c)
  }

  /** The end of the longest run from `p` of `\d` (or of `[\d.]` when `dots`). */
  function RunEnd(t: string, p: nat, dots: bool): (e: nat)
    requires p <= |t|
    ensures p <= e <= |t|
    ensures e > p ==> InRun(t[e - 1], dots)
    ensures e < |t| ==> !InRun(t[e], dots)
    decreases |t| - p
  {
    if p < |t| && InRun(t[p], dots) then RunEnd(t, p + 1, dots) else p
  }

  /** Every character of the run is in it. */
  lemma {:induction false} RunEndAll(t: string, p: nat, dots: bool)
    requires p <= |t|
    ensures forall k :: p <= k < RunEnd(t, p, dots) ==> InRun(t[k], dots)
    decreases |t| - p
  {
    if p < |t| && InRun(t[p], dots) {
      RunEndAll(t, p + 1, dots);
    }
  }

  /** The end of the longest run of whitespace from `p`. */
  function SpaceEnd(t: string, p: nat): (e: nat)
    requires p <= |t|
    ensures p <= e <= |t|
    ensures e < |t| ==> !IsSpace(t[e])
    decreases |t| - p
  {
    if p < |t| && IsSpace(t[p]) then SpaceEnd(t, p + 1) else p
  }

  /** Every character of the whitespace run is whitespace. */
  lemma {:induction false} SpaceEndAll(t: string, p: nat)
    requires p <= |t|
    ensures forall k :: p <= k < SpaceEnd(t, p) ==> IsSpace(t[k])
    decreases |t| - p
  {
    if p < |t| && IsSpace(t[p]) {
      SpaceEndAll(t, p + 1);
    }
  }

  /** The literal `lit` occurs in `t` at `p`. */
  predicate LiteralAt(t: string, p: nat, lit: string)
  {
    p + |lit| <= |t| && t[p..p + |lit|] == lit
  }

  /** A character of a literal that occurs at `p`. */
  lemma LiteralChar(t: string, p: nat, lit: string, k: nat)
    requires LiteralAt(t, p, lit) && k < |lit|
    ensures t[p + k] == lit[k]
  {
    assert t[p..p + |lit|][k] == t[p + k];
  }

  /** The three characters `a`, `b`, `c` at `p`. */
  predicate WordAt(t: string, p: nat, a: char, b: char, c: char)
  {
    p + 3 <= |t| && t[p] == a && t[p + 1] == b && t[p + 2] == c
  }

  /** `Max\s+Avg\s+Min\n` at `p`: the position just after its newline. */
  function HeaderEnd(t: string, p: nat): (r: Option<nat>)
    requires p <= |t|
    ensures r.Some? ==> p + 12 <= r.value <= |t|
  {
    if !WordAt(t, p, 'M', 'a', 'x') then None
    else
      var a := SpaceEnd(t, p + 3);
      if a == p + 3 || !WordAt(t, a, 'A', 'v', 'g') then None
      else
        var m := SpaceEnd(t, a + 3);
        if m == a + 3 || !WordAt(t, m, 'M', 'i', 'n') || m + 3 == |t| || t[m + 3] != '\n' then None
        else
          Some(m + 4)
  }

  /** A word of three characters written as a literal. */
  lemma WordLiteral(t: string, p: nat, w: string)
    requires |w| == 3
    ensures WordAt(t, p, w[0], w[1], w[2]) <==> LiteralAt(t, p, w)
  {
    if WordAt(t, p, w[0], w[1], w[2]) {
      assert t[p..p + 3] == w;
    }
    if LiteralAt(t, p, w) {
      LiteralChar(t, p, w, 0);
      LiteralChar(t, p, w, 1);
      LiteralChar(t, p, w, 2);
    }
  }

  /** A header found at `p` starts with "Max" and ends with "Min" and a newline. */
  lemma HeaderShape(t: string, p: nat)
    requires p <= |t| && HeaderEnd(t, p).Some?
    ensures LiteralAt(t, p, "Max") && LiteralAt(t, HeaderEnd(t, p).value - 4, "Min\n")
  {
    var m := HeaderEnd(t, p).value - 4;
    WordLiteral(t, p, "Max");
    assert t[m..m + 4] == "Min\n";
  }

  /**
   * `-?\d+` (or `-?[\d.]+` when `dots`) at `p`: the position after its last
   * digit or dot.  The run is the longest one: the next character is not in it.
   */
  function FieldEnd(t: string, p: nat, dots: bool): (r: Option<nat>)
    requires p <= |t|
    ensures r.Some? ==> p < r.value <= |t| && InRun(t[r.value - 1], dots)
    ensures r.Some? && r.value < |t| ==> !InRun(t[r.value], dots)
  {
    var q := if p < |t| && t[p] == '-' then p + 1 else p;
    var e := RunEnd(t, q, dots);
    if e == q then None else Some(e)
  }

  /** A field that `FieldEnd` finds has the field's shape, and holds no whitespace, tab or newline. */
  lemma FieldShape(t: string, p: nat, e: nat, dots: bool)
    requires p <= |t| && FieldEnd(t, p, dots) == Some(e)
    ensures (if dots then AvgShape(t[p..e]) else IntShape(t[p..e]))
    ensures !IsSpace(t[p]) && '\t' !in t[p..e] && '\n' !in t[p..e]
  {
    var q := if p < |t| && t[p] == '-' then p + 1 else p;
    RunEndAll(t, q, dots);
    FieldFacts(t, p, q, e, dots);
  }

  /** An optional sign and a non-empty run make a field of the run's shape. */
  lemma FieldFacts(t: string, p: nat, q: nat, e: nat, dots: bool)
    requires p <= q < e <= |t| && (q == p || (q == p + 1 && t[p] == '-'))
    requires forall k :: q <= k < e ==> InRun(t[k], dots)
    ensures InRun(t[e - 1], dots)
    ensures if dots then AvgShape(t[p..e]) else IntShape(t[p..e])
    ensures !IsSpace(t[p]) && '\t' !in t[p..e] && '\n' !in t[p..e]
  {
    var sign, body := t[p..q], t[q..e];
    assert t[p..e] == sign + body;
    assert forall k :: 0 <= k < |body| ==> InRun(body[k], dots) by {
      forall k | 0 <= k < |body| ensures InRun(body[k], dots) {
        assert body[k] == t[q + k];
      }
    }
    assert sign == [] || sign == ['-'];
    assert t[p] == (sign + body)[0];
    SignedRun(sign, body, dots);
  }

  /** A sign (or none) followed by a non-empty run has the field shape. */
  lemma SignedRun(sign: string, body: string, dots: bool)
    requires sign == [] || sign == ['-']
    requires |body| > 0 && forall k :: 0 <= k < |body| ==> InRun(body[k], dots)
    ensures var f := sign + body;
      (if dots then AvgShape(f) else IntShape(f))
      && !IsSpace(f[0]) && '\t' !in f && '\n' !in f
  {
    var f := sign + body;
    assert Unsigned(f) == body;
    assert f[0] == if sign == [] then body[0] else '-';
    forall k | 0 <= k < |f| ensures f[k] != '\t' && f[k] != '\n' {
      if k >= |sign| {
        assert f[k] == body[k - |sign|];
      } else {
        assert f[k] == '-';
      }
    }
  }

  /** A row of a table: exactly three tab-separated fields of the shapes `-?\d+`, `-?[\d.]+`, `-?\d+`. */
  predicate IsRow(s: string)
  {
    var parts := Split(s, '\t');
    |parts| == 3 && IntShape(parts[0]) && AvgShape(parts[1]) && IntShape(parts[2])
  }

  /** `\t-?\d+` at `e`: the end of the last field of a row. */
  function LastField(t: string, e: nat): (r: Option<nat>)
    requires e <= |t|
    ensures r.Some? ==> e + 1 < r.value <= |t| && IsDigit(t[r.value - 1])
    ensures r.Some? && r.value < |t| ==> !IsDigit(t[r.value])
  {
    if e == |t| || t[e] != '\t' then None else FieldEnd(t, e + 1, false)
  }

  /** `\t-?[\d.]+\t-?\d+` at `e`: the end of the last two fields of a row. */
  function AvgAndLast(t: string, e: nat): (r: Option<nat>)
    requires e <= |t|
    ensures r.Some? ==> e + 3 < r.value <= |t| && IsDigit(t[r.value - 1])
    ensures r.Some? && r.value < |t| ==> !IsDigit(t[r.value])
  {
    if e == |t| || t[e] != '\t' then None
    else match FieldEnd(t, e + 1, true)
      case None => None
      case Some(e2) => LastField(t, e2)
  }

  /**
   * `-?\d+\t-?[\d.]+\t-?\d+` at `p`: the position after the last digit of the
   * row, which no further digit follows.
   */
  function RowEnd(t: string, p: nat): (r: Option<nat>)
    requires p <= |t|
    ensures r.Some? ==> p < r.value <= |t| && IsDigit(t[r.value - 1])
    ensures r.Some? && r.value < |t| ==> !IsDigit(t[r.value])
  {
    match FieldEnd(t, p, false)
    case None => None
    case Some(e1) => AvgAndLast(t, e1)
  }

  /** A row that `RowEnd` finds is a trimmed row without a newline. */
  lemma RowShape(t: string, p: nat)
    requires p <= |t| && RowEnd(t, p).Some?
    ensures var e := RowEnd(t, p).value; IsRow(t[p..e]) && Trimmed(t[p..e]) && '\n' !in t[p..e]
  {
    var e1, e2, e3 := RowPositions(t, p);
    FieldShape(t, p, e1, false);
    FieldShape(t, e1 + 1, e2, true);
    FieldShape(t, e2 + 1, e3, false);
    RowPieces(t, p, e1, e2, e3);
  }

  /** Where the three fields of a row that `RowEnd` finds end, and the tabs between them. */
  lemma RowPositions(t: string, p: nat) returns (e1: nat, e2: nat, e3: nat)
    requires p <= |t| && RowEnd(t, p).Some?
    ensures FieldEnd(t, p, false) == Some(e1) && e1 < |t| && t[e1] == '\t'
    ensures FieldEnd(t, e1 + 1, true) == Some(e2) && e2 < |t| && t[e2] == '\t'
    ensures FieldEnd(t, e2 + 1, false) == Some(e3) && RowEnd(t, p) == Some(e3)
  {
    e1 := FieldEnd(t, p, false).value;
    e2 := FieldEnd(t, e1 + 1, true).value;
    e3 := RowEnd(t, p).value;
  }

  /** Three fields separated by two tabs make a row. */
  lemma RowPieces(t: string, p: nat, e1: nat, e2: nat, e3: nat)
    requires p < e1 < e2 < e3 <= |t| && t[e1] == '\t' && t[e2] == '\t'
    requires IntShape(t[p..e1]) && '\t' !in t[p..e1] && '\n' !in t[p..e1] && !IsSpace(t[p])
    requires AvgShape(t[e1 + 1..e2]) && '\t' !in t[e1 + 1..e2] && '\n' !in t[e1 + 1..e2]
    requires IntShape(t[e2 + 1..e3]) && '\t' !in t[e2 + 1..e3] && '\n' !in t[e2 + 1..e3]
    requires IsDigit(t[e3 - 1])
    ensures IsRow(t[p..e3]) && Trimmed(t[p..e3]) && '\n' !in t[p..e3]
  {
    var a, b, c := t[p..e1], t[e1 + 1..e2], t[e2 + 1..e3];
    SliceOfFields(t, p, e1, e2, e3);
    RowOfFields(a, b, c);
  }

  /** The text from `p` to `e3` is its three fields and the two tabs between them. */
  lemma SliceOfFields(t: string, p: nat, e1: nat, e2: nat, e3: nat)
    requires p < e1 < e2 < e3 <= |t| && t[e1] == '\t' && t[e2] == '\t'
    ensures t[p..e3] == t[p..e1] + ['\t'] + t[e1 + 1..e2] + ['\t'] + t[e2 + 1..e3]
    ensures t[p..e3][0] == t[p] && t[p..e3][e3 - p - 1] == t[e3 - 1]
  {
  }

  /** Three tab-free fields of the row shapes, joined by tabs, make a row. */
  lemma RowOfFields(a: string, b: string, c: string)
    requires IntShape(a) && AvgShape(b) && IntShape(c)
    requires '\t' !in a && '\t' !in b && '\t' !in c
    requires '\n' !in a && '\n' !in b && '\n' !in c
    ensures var s := a + ['\t'] + b + ['\t'] + c; IsRow(s) && '\n' !in s
  {
    var s := a + ['\t'] + b + ['\t'] + c;
    assert s == a + ['\t'] + (b + ['\t'] + c);
    SplitWithoutSeparator(c, '\t');
    SplitAtSeparator(b, c, '\t');
    SplitAtSeparator(a, b + ['\t'] + c, '\t');
  }

  /** Where the next row of a table would start after a row that ends at `e`: past one optional newline. */
  function AfterRow(t: string, e: nat): (q: nat)
    requires e <= |t|
    ensures e <= q <= |t|
  {
    if e < |t| && t[e] == '\n' then e + 1 else e
  }

  /** `(?:row\n?)+` from a row at `p`: the end of the group. */
  function RowsEnd(t: string, p: nat): (e: nat)
    requires p <= |t| && RowEnd(t, p).Some?
    ensures p < e <= |t|
    decreases |t| - p
  {
    var next := AfterRow(t, RowEnd(t, p).value);
    if RowEnd(t, next).Some? then RowsEnd(t, next) else next
  }

  /** The rows group is the longest one: no row follows it. */
  lemma {:induction false} RowsEndStops(t: string, p: nat)
    requires p <= |t| && RowEnd(t, p).Some?
    ensures RowEnd(t, RowsEnd(t, p)).None?
    decreases |t| - p
  {
    var next := AfterRow(t, RowEnd(t, p).value);
    if RowEnd(t, next).Some? {
      RowsEndStops(t, next);
    }
  }

  // ---------------------------------------------------------------- findall

  /** The tables found from position `p` on. */
  function FindAllFrom(t: string, p: nat): (ms: seq<string>)
    requires p <= |t|
    decreases |t| - p
  {
    if p == |t| then []
    else match HeaderEnd(t, p)
      case Some(h) =>
        if RowEnd(t, h).Some? then [t[h..RowsEnd(t, h)]] + FindAllFrom(t, RowsEnd(t, h))
        else FindAllFrom(t, p + 1)
      case None => FindAllFrom(t, p + 1)
  }

  /** `re.findall(...)`: the rows of every table in the report, in the order the tables appear. */
  function FindAll(t: string): seq<string>
  {
    FindAllFrom(t, 0)
  }

  // ---------------------------------------------------------------- what a match looks like

  /**
   * A line of a matched table after `strip().split("\n")`: trimmed, and either
   * a single row (three tab-separated fields) or several rows glued together
   * without a newline (at least five tab-separated fields).
   */
  predicate TableLine(l: string)
  {
    Trimmed(l) && ((|Split(l, '\t')| == 3 && IsRow(l)) || |Split(l, '\t')| >= 5)
  }

  /** Where the text of the rows group from `p` ends when its final newline (if any) is left out. */
  function RowsCore(t: string, p: nat): (c: nat)
    requires p <= |t| && RowEnd(t, p).Some?
    ensures p < c <= |t|
    decreases |t| - p
  {
    var r := RowEnd(t, p).value;
    var next := AfterRow(t, r);
    if RowEnd(t, next).Some? then RowsCore(t, next) else r
  }

  /** Every element is a table line. */
  predicate TableLines(ls: seq<string>)
  {
    forall k :: 0 <= k < |ls| ==> TableLine(ls[k])
  }

  /** A row, then an optional newline, then more table text, is table text. */
  lemma GlueRow(row: string, newline: bool, core: string)
    requires IsRow(row) && Trimmed(row) && '\n' !in row
    requires Trimmed(core) && TableLines(Split(core, '\n'))
    ensures var s := if newline then row + ['\n'] + core else row + core;
      Trimmed(s) && TableLines(Split(s, '\n'))
  {
    if newline {
      SplitAtSeparator(row, core, '\n');
    } else {
      SplitGlued(row, core, '\n');
      var rest := Split(core, '\n');
      var first := rest[0];
      assert TableLine(first) by {
        assert first == rest[0];
      }
      SplitAppendCount(row, first, '\t');
      assert |Split(row + first, '\t')| >= 5;
      assert TableLine(row + first);
      var ls := Split(row + core, '\n');
      assert ls == [row + first] + rest[1..];
      forall k | 0 <= k < |ls| ensures TableLine(ls[k]) {
        if k > 0 {
          assert ls[k] == rest[k];
        }
      }
    }
  }

  /** The rows group ends where its core ends, or one newline later. */
  lemma {:induction false} RowsEndCore(t: string, p: nat)
    requires p <= |t| && RowEnd(t, p).Some?
    ensures var e, c := RowsEnd(t, p), RowsCore(t, p);
      p < c <= e <= c + 1 && (e == c + 1 ==> t[c] == '\n')
    decreases |t| - p
  {
    var r := RowEnd(t, p).value;
    var next := AfterRow(t, r);
    if RowEnd(t, next).Some? {
      RowsEndCore(t, next);
    }
  }

  /** Every line of the rows group from `p`, its final newline left out, is a table line. */
  lemma {:induction false} RowsShape(t: string, p: nat)
    requires p <= |t| && RowEnd(t, p).Some?
    ensures var c := RowsCore(t, p);
      p < c <= |t| && Trimmed(t[p..c]) && TableLines(Split(t[p..c], '\n'))
    decreases |t| - p
  {
    var r := RowEnd(t, p).value;
    var next := AfterRow(t, r);
    RowShape(t, p);
    if RowEnd(t, next).Some? {
      RowsShape(t, next);
      RowsStep(t, p, r, next, RowsCore(t, next));
    } else {
      SplitWithoutSeparator(t[p..r], '\n');
    }
  }

  /** One step of `RowsShape`: a row in front of the rest of the group. */
  lemma RowsStep(t: string, p: nat, r: nat, next: nat, c: nat)
    requires p < r <= next <= c <= |t|
    requires IsRow(t[p..r]) && Trimmed(t[p..r]) && '\n' !in t[p..r]
    requires next == r || (next == r + 1 && t[r] == '\n')
    requires Trimmed(t[next..c]) && TableLines(Split(t[next..c], '\n'))
    ensures Trimmed(t[p..c]) && TableLines(Split(t[p..c], '\n'))
  {
    GlueRow(t[p..r], next == r + 1, t[next..c]);
    SliceAroundRow(t, p, r, next, c);
  }

  /** The text from `p` to `c` is the row, its newline if any, and the rest. */
  lemma SliceAroundRow(t: string, p: nat, r: nat, next: nat, c: nat)
    requires p < r <= next <= c <= |t|
    requires next == r || (next == r + 1 && t[r] == '\n')
    ensures t[p..c] == if next == r + 1 then t[p..r] + ['\n'] + t[next..c] else t[p..r] + t[next..c]
  {
    if next == r + 1 {
      assert t[p..c] == t[p..r] + [t[r]] + t[next..c];
    } else {
      assert t[p..c] == t[p..r] + t[next..c];
    }
  }

  /** `strip()` on the rows group removes exactly its final newline, if it has one. */
  lemma StripRows(t: string, p: nat)
    requires p <= |t| && RowEnd(t, p).Some?
    ensures Strip(t[p..RowsEnd(t, p)]) == t[p..RowsCore(t, p)]
  {
    RowsEndCore(t, p);
    RowsShape(t, p);
    StripGroup(t, p, RowsEnd(t, p), RowsCore(t, p));
  }

  /** A trimmed stretch `t[p..c]` followed by at most one newline strips to itself. */
  lemma StripGroup(t: string, p: nat, e: nat, c: nat)
    requires p < c <= e <= c + 1 && e <= |t| && (e == c + 1 ==> t[c] == '\n')
    requires Trimmed(t[p..c])
    ensures Strip(t[p..e]) == t[p..c]
  {
    if e == c {
      StripTrimmed(t[p..c]);
    } else {
      assert t[p..e] == t[p..c] + [t[c]];
      StripTrailingSpace(t[p..c], t[c]);
    }
  }

  /** The text of a table as findall returns it: after `strip()`, every line is a table line. */
  predicate TableText(m: string)
  {
    TableLines(Split(Strip(m), '\n'))
  }

  /** Every element satisfies `P`. */
  predicate AllOf(ms: seq<string>, P: string -> bool)
  {
    forall k :: 0 <= k < |ms| ==> P(ms[k])
  }

  lemma AllOfCons(m: string, ms: seq<string>, P: string -> bool)
    requires P(m) && AllOf(ms, P)
    ensures AllOf([m] + ms, P)
  {
    var all := [m] + ms;
    forall k | 0 <= k < |all| ensures P(all[k]) {
      if k == 0 {
        assert all[k] == m;
      } else {
        assert all[k] == ms[k - 1];
      }
    }
  }

  /** The rows group that starts at `h` is the text of a table. */
  lemma MatchIsTable(t: string, h: nat)
    requires h <= |t| && RowEnd(t, h).Some?
    ensures TableText(t[h..RowsEnd(t, h)])
  {
    RowsShape(t, h);
    StripRows(t, h);
  }

  /** When every rows group has property `P`, so has everything findall returns from `p` on. */
  lemma {:induction false} FindAllFromAll(t: string, p: nat, P: string -> bool)
    requires p <= |t|
    requires forall h: nat :: h <= |t| && RowEnd(t, h).Some? ==> P(t[h..RowsEnd(t, h)])
    ensures AllOf(FindAllFrom(t, p), P)
    decreases |t| - p
  {
    if p < |t| {
      var h := HeaderEnd(t, p);
      if h.Some? && RowEnd(t, h.value).Some? {
        var e := RowsEnd(t, h.value);
        FindAllFromAll(t, e, P);
        AllOfCons(t[h.value..e], FindAllFrom(t, e), P);
      } else {
        FindAllFromAll(t, p + 1, P);
      }
    }
  }

  /** Everything findall returns is the text of a table. */
  lemma FindAllTables(t: string)
    ensures forall k :: 0 <= k < |FindAll(t)| ==> TableText(FindAll(t)[k])
  {
    forall h: nat | h <= |t| && RowEnd(t, h).Some? ensures TableText(t[h..RowsEnd(t, h)]) {
      MatchIsTable(t, h);
    }
    FindAllFromAll(t, 0, TableText);
  }

  // ---------------------------------------------------------------- what is found

  /** A non-empty run of whitespace, as `\s+` matches. */
  predicate Spaces(w: string)
  {
    |w| > 0 && forall k :: 0 <= k < |w| ==> IsSpace(w[k])
  }

  /** The text `Max\s+Avg\s+Min\n` with the two whitespace runs `w1` and `w2`. */
  function Header(w1: string, w2: string): string
  {
    "Max" + w1 + "Avg" + w2 + "Min\n"
  }

  /** The three fields of a row, in the order of the header: maximum, average, minimum. */
  datatype RowFields = RowFields(max: string, avg: string, min: string)

  /** Fields of the shapes `-?\d+`, `-?[\d.]+` and `-?\d+`. */
  predicate Shaped(f: RowFields)
  {
    IntShape(f.max) && AvgShape(f.avg) && IntShape(f.min)
  }

  /** The text of a row: its fields joined by tabs. */
  function RowText(f: RowFields): string
  {
    f.max + ['\t'] + f.avg + ['\t'] + f.min
  }

  /** Rows, each followed by a newline. */
  function Lines(rows: seq<RowFields>): string
  {
    if |rows| == 0 then "" else RowText(rows[0]) + "\n" + Lines(rows[1..])
  }

  /** Every row has the field shapes. */
  predicate AllRows(rows: seq<RowFields>)
  {
    forall k :: 0 <= k < |rows| ==> Shaped(rows[k])
  }

  /** A literal made of two parts is the first part followed by the second. */
  lemma LiteralSplit(t: string, p: nat, x: string, y: string)
    requires LiteralAt(t, p, x + y)
    ensures LiteralAt(t, p, x) && LiteralAt(t, p + |x|, y)
  {
    assert t[p..p + |x|] == t[p..p + |x + y|][..|x|];
    assert t[p + |x|..p + |x| + |y|] == t[p..p + |x + y|][|x|..];
  }

  /** A whitespace run that occurs at `p` and is followed by something else is what `SpaceEnd` finds. */
  lemma SpacesAt(t: string, p: nat, w: string)
    requires LiteralAt(t, p, w) && Spaces(w) && p + |w| < |t| && !IsSpace(t[p + |w|])
    ensures SpaceEnd(t, p) == p + |w|
  {
    forall k | p <= k < p + |w| ensures IsSpace(t[k]) {
      LiteralChar(t, p, w, k - p);
    }
    SpaceEndAll(t, p);
  }

  /** The five pieces of a header at `p`: the three words and the two whitespace runs between them. */
  lemma HeaderPieces(t: string, p: nat, a: nat, m: nat, w1: string, w2: string)
    requires LiteralAt(t, p, Header(w1, w2)) && a == p + 3 + |w1| && m == a + 3 + |w2|
    ensures LiteralAt(t, p, "Max") && LiteralAt(t, p + 3, w1) && LiteralAt(t, a, "Avg")
    ensures LiteralAt(t, a + 3, w2) && LiteralAt(t, m, "Min\n")
  {
    assert Header(w1, w2) == "Max" + (w1 + ("Avg" + (w2 + "Min\n")));
    LiteralSplit(t, p, "Max", w1 + ("Avg" + (w2 + "Min\n")));
    LiteralSplit(t, p + 3, w1, "Avg" + (w2 + "Min\n"));
    LiteralSplit(t, a, "Avg", w2 + "Min\n");
    LiteralSplit(t, a + 3, w2, "Min\n");
  }

  /** "Min" and a newline at `m`, character by character. */
  lemma MinLine(t: string, m: nat)
    requires LiteralAt(t, m, "Min\n")
    ensures WordAt(t, m, 'M', 'i', 'n') && m + 3 < |t| && t[m + 3] == '\n'
  {
    LiteralChar(t, m, "Min\n", 0);
    LiteralChar(t, m, "Min\n", 1);
    LiteralChar(t, m, "Min\n", 2);
    LiteralChar(t, m, "Min\n", 3);
  }

  /** `Max\s+Avg\s+Min\n` present at `p` is found, and ends just after its newline. */
  lemma HeaderFound(t: string, p: nat, w1: string, w2: string)
    requires Spaces(w1) && Spaces(w2) && LiteralAt(t, p, Header(w1, w2))
    ensures HeaderEnd(t, p) == Some(p + |w1| + |w2| + 10)
  {
    var a := p + 3 + |w1|;
    HeaderFoundAt(t, p, a, a + 3 + |w2|, w1, w2);
  }

  /** The same, with `a` where "Avg" starts and `m` where "Min" starts. */
  lemma HeaderFoundAt(t: string, p: nat, a: nat, m: nat, w1: string, w2: string)
    requires Spaces(w1) && Spaces(w2) && LiteralAt(t, p, Header(w1, w2)) && a == p + 3 + |w1| && m == a + 3 + |w2|
    ensures HeaderEnd(t, p) == Some(m + 4)
  {
    HeaderPieces(t, p, a, m, w1, w2);
    WordLiteral(t, p, "Max");
    WordLiteral(t, a, "Avg");
    MinLine(t, m);
    SpacesAt(t, p + 3, w1);
    SpacesAt(t, a + 3, w2);
    HeaderOfPositions(t, p, a, m);
  }

  /** The three words of a header, the whitespace runs between them and the newline after it, are a header found. */
  lemma HeaderOfPositions(t: string, p: nat, a: nat, m: nat)
    requires WordAt(t, p, 'M', 'a', 'x') && SpaceEnd(t, p + 3) == a && a > p + 3
    requires WordAt(t, a, 'A', 'v', 'g') && SpaceEnd(t, a + 3) == m && m > a + 3
    requires WordAt(t, m, 'M', 'i', 'n') && m + 3 < |t| && t[m + 3] == '\n'
    ensures HeaderEnd(t, p) == Some(m + 4)
  {
  }

  /** A field of its shape at `p`, not followed by another character of its run, is found and ends where it ends. */
  lemma FieldFound(t: string, p: nat, e: nat, dots: bool)
    requires p < e <= |t| && (if dots then AvgShape(t[p..e]) else IntShape(t[p..e]))
    requires e < |t| ==> !InRun(t[e], dots)
    ensures FieldEnd(t, p, dots) == Some(e)
  {
    var f := t[p..e];
    var q := if t[p] == '-' then p + 1 else p;
    assert f[0] == t[p];
    assert Unsigned(f) == t[q..e];
    forall k | q <= k < e ensures InRun(t[k], dots) {
      assert t[k] == Unsigned(f)[k - q];
    }
    RunEndAll(t, q, dots);
  }

  /** Where the three fields and the two tabs sit in `a + "\t" + b + "\t" + c`. */
  lemma JoinedPieces(a: string, b: string, c: string)
    ensures var s, i, j := a + ['\t'] + b + ['\t'] + c, |a|, |a| + 1 + |b|;
      s[..i] == a && s[i] == '\t' && s[i + 1..j] == b && s[j] == '\t' && s[j + 1..] == c
  {
  }

  /** A slice of a slice is a slice. */
  lemma SubSlice(t: string, p: nat, e: nat, i: nat, j: nat)
    requires p <= e <= |t| && i <= j <= e - p
    ensures t[p..e][i..j] == t[p + i..p + j]
  {
    assert forall k :: 0 <= k < j - i ==> t[p..e][i..j][k] == t[p + i + k];
  }

  /** The text `t[p..e]` of a row is its three fields and the two tabs between them. */
  lemma RowSlices(t: string, p: nat, e: nat, a: string, b: string, c: string)
    requires p <= e <= |t| && t[p..e] == a + ['\t'] + b + ['\t'] + c
    ensures var e1, e2 := p + |a|, p + |a| + 1 + |b|;
      e2 < e && t[p..e1] == a && t[e1] == '\t' && t[e1 + 1..e2] == b && t[e2] == '\t' && t[e2 + 1..e] == c
  {
    var i, j := |a|, |a| + 1 + |b|;
    JoinedPieces(a, b, c);
    SubSlice(t, p, e, 0, i);
    SubSlice(t, p, e, i + 1, j);
    SubSlice(t, p, e, j + 1, e - p);
    assert t[p + i] == t[p..e][i];
    assert t[p + j] == t[p..e][j];
  }

  /** A row is its three fields joined by tabs. */
  lemma RowParts(s: string) returns (a: string, b: string, c: string)
    requires IsRow(s)
    ensures s == a + ['\t'] + b + ['\t'] + c
    ensures IntShape(a) && AvgShape(b) && IntShape(c) && |a| > 0 && |b| > 0 && |c| > 0
  {
    var parts := Split(s, '\t');
    a, b, c := parts[0], parts[1], parts[2];
    JoinSplit(s, '\t');
    assert parts == [a] + [b, c];
    JoinCons(a, [b, c], '\t');
    assert [b, c] == [b] + [c];
    JoinCons(b, [c], '\t');
  }

  /** A tab and a last field of the shape `-?\d+` ending at `e`, not followed by a digit, are found. */
  lemma LastFieldAt(t: string, e2: nat, e: nat)
    requires e2 < e <= |t| && t[e2] == '\t' && IntShape(t[e2 + 1..e]) && (e < |t| ==> !IsDigit(t[e]))
    ensures LastField(t, e2) == Some(e)
  {
    FieldFound(t, e2 + 1, e, false);
  }

  /** A tab, an average field ending at the tab at `e2`, and a last field found after it, are the last two fields found. */
  lemma AvgAndLastAt(t: string, e1: nat, e2: nat, e: nat)
    requires e1 < e2 < |t| && t[e1] == '\t' && AvgShape(t[e1 + 1..e2]) && t[e2] == '\t'
    requires LastField(t, e2) == Some(e)
    ensures AvgAndLast(t, e1) == Some(e)
  {
    FieldFound(t, e1 + 1, e2, true);
  }

  /** Three fields of the row shapes ending at `e1`, `e2` and `e`, with tabs at `e1` and `e2`, are a row found at `p`. */
  lemma FieldsAt(t: string, p: nat, e1: nat, e2: nat, e: nat)
    requires p < e1 < e2 < e <= |t| && t[e1] == '\t' && t[e2] == '\t'
    requires IntShape(t[p..e1]) && AvgShape(t[e1 + 1..e2]) && IntShape(t[e2 + 1..e])
    requires e < |t| ==> !IsDigit(t[e])
    ensures RowEnd(t, p) == Some(e)
  {
    LastFieldAt(t, e2, e);
    AvgAndLastAt(t, e1, e2, e);
    FieldFound(t, p, e1, false);
  }

  /** Three fields of the row shapes joined by tabs, at `p` and not followed by a digit, are found as a row that ends where they end. */
  lemma RowFound(t: string, p: nat, a: string, b: string, c: string)
    requires IntShape(a) && AvgShape(b) && IntShape(c)
    requires LiteralAt(t, p, a + ['\t'] + b + ['\t'] + c)
    requires var e := p + |a| + |b| + |c| + 2; e < |t| ==> !IsDigit(t[e])
    ensures RowEnd(t, p) == Some(p + |a| + |b| + |c| + 2)
  {
    RowFoundAt(t, p, p + |a| + |b| + |c| + 2, a, b, c);
  }

  /** The same, with `e` the position where the row ends. */
  lemma RowFoundAt(t: string, p: nat, e: nat, a: string, b: string, c: string)
    requires IntShape(a) && AvgShape(b) && IntShape(c)
    requires LiteralAt(t, p, a + ['\t'] + b + ['\t'] + c) && e == p + |a| + |b| + |c| + 2
    requires e < |t| ==> !IsDigit(t[e])
    ensures RowEnd(t, p) == Some(e)
  {
    var e1, e2 := p + |a|, p + |a| + 1 + |b|;
    ShapedSlices(t, p, e1, e2, e, a, b, c);
    FieldsAt(t, p, e1, e2, e);
  }

  /** The pieces of a row of the field shapes at `p`, by position: the three fields and the two tabs. */
  lemma ShapedSlices(t: string, p: nat, e1: nat, e2: nat, e: nat, a: string, b: string, c: string)
    requires IntShape(a) && AvgShape(b) && IntShape(c)
    requires LiteralAt(t, p, a + ['\t'] + b + ['\t'] + c)
    requires e1 == p + |a| && e2 == e1 + 1 + |b| && e == e2 + 1 + |c|
    ensures p < e1 < e2 < e <= |t| && t[e1] == '\t' && t[e2] == '\t'
    ensures IntShape(t[p..e1]) && AvgShape(t[e1 + 1..e2]) && IntShape(t[e2 + 1..e])
  {
    RowSlices(t, p, e, a, b, c);
  }

  /** A row at `p` that is not followed by a digit is found and ends where it ends. */
  lemma RowTextFound(t: string, p: nat, row: string)
    requires IsRow(row) && LiteralAt(t, p, row)
    requires p + |row| < |t| ==> !IsDigit(t[p + |row|])
    ensures RowEnd(t, p) == Some(p + |row|)
  {
    var a, b, c := RowParts(row);
    RowFound(t, p, a, b, c);
  }

  /** Nothing that starts with a character other than a digit or `-` is a row. */
  lemma NoRowAt(t: string, p: nat)
    requires p <= |t| && (p < |t| ==> !IsDigit(t[p]) && t[p] != '-')
    ensures RowEnd(t, p).None?
  {
  }

  /** After a row found at `p` and its newline, the rows group goes on if another row follows, and ends otherwise. */
  lemma RowsEndStep(t: string, p: nat, e: nat)
    requires p <= |t| && RowEnd(t, p) == Some(e) && e < |t| && t[e] == '\n'
    ensures RowsEnd(t, p) == if RowEnd(t, e + 1).Some? then RowsEnd(t, e + 1) else e + 1
  {
    assert AfterRow(t, e) == e + 1;
  }

  /** Rows each followed by a newline: the first row, its newline, then the others. */
  lemma LinesCons(rows: seq<RowFields>)
    requires |rows| > 0
    ensures Lines(rows) == RowText(rows[0]) + ("\n" + Lines(rows[1..]))
  {
  }

  /** A newline and then `rest` at `e`. */
  lemma NewlineThen(t: string, e: nat, rest: string)
    requires LiteralAt(t, e, "\n" + rest)
    ensures e < |t| && t[e] == '\n' && LiteralAt(t, e + 1, rest)
  {
    LiteralSplit(t, e, "\n", rest);
    LiteralChar(t, e, "\n", 0);
  }

  /** The rows after the first have the field shapes. */
  lemma AllRowsTail(rows: seq<RowFields>)
    requires |rows| > 0 && AllRows(rows)
    ensures Shaped(rows[0]) && AllRows(rows[1..])
  {
    assert forall k :: 0 <= k < |rows| - 1 ==> rows[1..][k] == rows[k + 1];
  }

  /** A line and a newline, then `rest`, at `p`. */
  lemma LineAt(t: string, p: nat, line: string, rest: string)
    requires LiteralAt(t, p, line + ("\n" + rest))
    ensures var e := p + |line|; LiteralAt(t, p, line) && e < |t| && t[e] == '\n' && LiteralAt(t, e + 1, rest)
  {
    LiteralSplit(t, p, line, "\n" + rest);
    NewlineThen(t, p + |line|, rest);
  }

  /** The first row of rows each followed by a newline, its newline, and the other rows after it. */
  lemma FirstLine(t: string, p: nat, rows: seq<RowFields>)
    requires |rows| > 0 && LiteralAt(t, p, Lines(rows))
    ensures var e := p + |RowText(rows[0])|;
      LiteralAt(t, p, RowText(rows[0])) && e < |t| && t[e] == '\n' && LiteralAt(t, e + 1, Lines(rows[1..]))
      && |Lines(rows)| == |RowText(rows[0])| + 1 + |Lines(rows[1..])|
  {
    LinesCons(rows);
    LineAt(t, p, RowText(rows[0]), Lines(rows[1..]));
  }

  /** A row of the field shapes at `p`, followed by a newline, is found and ends at the newline. */
  lemma FieldsFound(t: string, p: nat, f: RowFields)
    requires Shaped(f) && LiteralAt(t, p, RowText(f)) && p + |RowText(f)| < |t| && t[p + |RowText(f)|] == '\n'
    ensures RowEnd(t, p) == Some(p + |RowText(f)|)
  {
    RowFound(t, p, f.max, f.avg, f.min);
  }

  /** After a row at `p` and its newline, a rows group at `e + 1` continues the one at `p`. */
  lemma RowsChainMore(t: string, p: nat, e: nat, q: nat)
    requires p <= |t| && RowEnd(t, p) == Some(e) && e < |t| && t[e] == '\n'
    requires RowEnd(t, e + 1).Some? && RowsEnd(t, e + 1) == q
    ensures RowsEnd(t, p) == q
  {
    RowsEndStep(t, p, e);
  }

  /** After a row at `p` and its newline, where no row follows, the rows group ends. */
  lemma RowsChainLast(t: string, p: nat, e: nat)
    requires p <= |t| && RowEnd(t, p) == Some(e) && e < |t| && t[e] == '\n'
    requires RowEnd(t, e + 1).None?
    ensures RowsEnd(t, p) == e + 1
  {
    RowsEndStep(t, p, e);
  }

  /** A row is found at each position of `ss` but the last, and ends at a newline just before the next. */
  predicate Chained(t: string, ss: seq<nat>)
  {
    (forall i :: 0 <= i < |ss| ==> ss[i] <= |t|)
    && forall i {:trigger RowEnd(t, ss[i])} :: 0 <= i < |ss| - 1 ==>
      RowEnd(t, ss[i]).Some? && RowEnd(t, ss[i]).value + 1 == ss[i + 1] && t[RowEnd(t, ss[i]).value] == '\n'
  }

  /** A row at `p` that ends at a newline just before the first of `rest` extends the chain `rest`. */
  lemma ChainCons(t: string, p: nat, e: nat, rest: seq<nat>) returns (ss: seq<nat>)
    requires p <= |t| && RowEnd(t, p) == Some(e) && e < |t| && t[e] == '\n'
    requires |rest| > 0 && rest[0] == e + 1 && Chained(t, rest)
    ensures ss == [p] + rest && |ss| == |rest| + 1 && ss[0] == p && ss[|rest|] == rest[|rest| - 1]
    ensures Chained(t, ss)
  {
    ss := [p] + rest;
    assert forall i :: 0 < i < |ss| ==> ss[i] == rest[i - 1];
  }

  /** The row found at `ss[i]` and the newline that ends it. */
  lemma ChainAt(t: string, ss: seq<nat>, i: nat)
    requires i + 1 < |ss| && Chained(t, ss)
    ensures RowEnd(t, ss[i]).Some? && RowEnd(t, ss[i]).value + 1 == ss[i + 1] && t[ss[i + 1] - 1] == '\n'
  {
  }

  /** A rows group at `ss[i + 1]` that ends at the last position continues the row at `ss[i]`. */
  lemma ChainMoreAt(t: string, ss: seq<nat>, i: nat)
    requires i + 2 < |ss| && Chained(t, ss)
    requires RowEnd(t, ss[i + 1]).Some? && RowsEnd(t, ss[i + 1]) == ss[|ss| - 1]
    ensures RowEnd(t, ss[i]).Some? && RowsEnd(t, ss[i]) == ss[|ss| - 1]
  {
    ChainAt(t, ss, i);
    RowsChainMore(t, ss[i], ss[i + 1] - 1, ss[|ss| - 1]);
  }

  /** The row at the last but one position is a rows group of its own when no row follows. */
  lemma ChainLastAt(t: string, ss: seq<nat>, i: nat)
    requires i + 2 == |ss| && Chained(t, ss) && RowEnd(t, ss[|ss| - 1]).None?
    ensures RowEnd(t, ss[i]).Some? && RowsEnd(t, ss[i]) == ss[|ss| - 1]
  {
    ChainAt(t, ss, i);
    RowsChainLast(t, ss[i], ss[i + 1] - 1);
  }

  /** Rows found one after another from `ss[i]` on make one rows group that ends at the last position, where no row is found. */
  lemma {:induction false} ChainEnds(t: string, ss: seq<nat>, i: nat)
    requires i < |ss| - 1 && Chained(t, ss) && RowEnd(t, ss[|ss| - 1]).None?
    ensures RowEnd(t, ss[i]).Some? && RowsEnd(t, ss[i]) == ss[|ss| - 1]
    decreases |ss| - i
  {
    if i + 2 < |ss| {
      ChainEnds(t, ss, i + 1);
      ChainMoreAt(t, ss, i);
    } else {
      ChainLastAt(t, ss, i);
    }
  }



  /** The first of rows of the field shapes laid out from `p` is found, and ends at its newline. */
  lemma FirstRowFound(t: string, p: nat, rows: seq<RowFields>) returns (e: nat)
    requires |rows| > 0 && AllRows(rows) && LiteralAt(t, p, Lines(rows))
    ensures e == p + |RowText(rows[0])| && e < |t| && t[e] == '\n' && RowEnd(t, p) == Some(e)
  {
    e := p + |RowText(rows[0])|;
    FirstLine(t, p, rows);
    AllRowsTail(rows);
    FieldsFound(t, p, rows[0]);
  }

  /**
   * Rows of the field shapes laid out from `p` are found one after another:
   * `ss` holds where each starts and, last, where they end.
   */
  lemma {:induction false} RowsLaidOut(t: string, p: nat, rows: seq<RowFields>) returns (ss: seq<nat>)
    requires AllRows(rows) && LiteralAt(t, p, Lines(rows))
    ensures |ss| == |rows| + 1 && ss[0] == p && ss[|rows|] == p + |Lines(rows)| && Chained(t, ss)
    decreases |rows|
  {
    if |rows| == 0 {
      ss := [p];
    } else {
      var e := p + |RowText(rows[0])|;
      FirstLine(t, p, rows);
      AllRowsTail(rows);
      var rest := RowsLaidOut(t, e + 1, rows[1..]);
      ss := RowThenChain(t, p, rows, rest);
    }
  }

  /** The first of rows laid out from `p`, found there, extends the chain of the others. */
  lemma RowThenChain(t: string, p: nat, rows: seq<RowFields>, rest: seq<nat>) returns (ss: seq<nat>)
    requires |rows| > 0 && AllRows(rows) && LiteralAt(t, p, Lines(rows))
    requires |rest| > 0 && rest[0] == p + |RowText(rows[0])| + 1 && Chained(t, rest)
    ensures ss == [p] + rest && |ss| == |rest| + 1 && ss[0] == p && ss[|rest|] == rest[|rest| - 1]
    ensures Chained(t, ss)
  {
    var e := FirstRowFound(t, p, rows);
    ss := ChainCons(t, p, e, rest);
  }

  /** Rows each followed by a newline make one rows group, which ends after the last newline when no row follows. */
  lemma RowsFound(t: string, p: nat, e: nat, rows: seq<RowFields>)
    requires |rows| > 0 && AllRows(rows) && LiteralAt(t, p, Lines(rows))
    requires e == p + |Lines(rows)| && RowEnd(t, e).None?
    ensures RowEnd(t, p).Some? && RowsEnd(t, p) == e
  {
    var ss := RowsLaidOut(t, p, rows);
    ChainEnds(t, ss, 0);
  }

  /** findall from `p` finds `m` first and resumes at `q`. */
  predicate FoundFirst(t: string, p: nat, m: string, q: nat)
  {
    p <= q <= |t| && FindAllFrom(t, p) == [m] + FindAllFrom(t, q)
  }

  /** A header found at `p` and a rows group after it: findall takes the group and resumes at its end. */
  lemma TableAt(t: string, p: nat, h: nat, e: nat, m: string)
    requires p < |t| && HeaderEnd(t, p) == Some(h) && RowEnd(t, h).Some? && RowsEnd(t, h) == e
    requires LiteralAt(t, h, m) && e == h + |m|
    ensures FoundFirst(t, p, m, e)
  {
  }

  /** A header found at `p`, then rows laid out up to a position where no row is found: findall takes the rows and resumes after them. */
  lemma HeaderAndRows(t: string, p: nat, h: nat, e: nat, rows: seq<RowFields>)
    requires p < |t| && HeaderEnd(t, p) == Some(h) && |rows| > 0 && AllRows(rows) && LiteralAt(t, h, Lines(rows))
    requires e == h + |Lines(rows)| && RowEnd(t, e).None?
    ensures FoundFirst(t, p, Lines(rows), e)
  {
    RowsFound(t, h, e, rows);
    TableAt(t, p, h, e, Lines(rows));
  }

  /** A header at `p` is found and ends at `h`, just after its newline. */
  lemma HeaderEndsAt(t: string, p: nat, h: nat, w1: string, w2: string)
    requires Spaces(w1) && Spaces(w2) && LiteralAt(t, p, Header(w1, w2)) && h == p + |Header(w1, w2)|
    ensures HeaderEnd(t, p) == Some(h)
  {
    assert |Header(w1, w2)| == |w1| + |w2| + 10;
    HeaderFound(t, p, w1, w2);
  }

  /**
   * A table at `p` (a header ending at `h`, then rows each followed by a
   * newline and ending at `e`) that no further row follows is found there:
   * its rows group is the first result, and the search resumes at `e`.
   */
  lemma TableFound(t: string, p: nat, h: nat, e: nat, w1: string, w2: string, rows: seq<RowFields>)
    requires Spaces(w1) && Spaces(w2) && |rows| > 0 && AllRows(rows)
    requires LiteralAt(t, p, Header(w1, w2)) && h == p + |Header(w1, w2)|
    requires LiteralAt(t, h, Lines(rows)) && e == h + |Lines(rows)| && RowEnd(t, e).None?
    ensures FoundFirst(t, p, Lines(rows), e)
  {
    HeaderEndsAt(t, p, h, w1, w2);
    HeaderAndRows(t, p, h, e, rows);
  }

  /** findall moves on by one character where "Max" does not start. */
  lemma SkipOne(t: string, p: nat)
    requires p < |t| && !LiteralAt(t, p, "Max")
    ensures FindAllFrom(t, p) == FindAllFrom(t, p + 1)
  {
    assert HeaderEnd(t, p).None?;
  }

  /** A stretch of text in which "Max" does not start is passed over. */
  lemma {:induction false} SkipText(t: string, p: nat, q: nat)
    requires p <= q <= |t| && forall k :: p <= k < q ==> !LiteralAt(t, k, "Max")
    ensures FindAllFrom(t, p) == FindAllFrom(t, q)
    decreases q - p
  {
    if p < q {
      SkipOne(t, p);
      SkipText(t, p + 1, q);
    }
  }

  /** A text is a literal at its start. */
  lemma WholeLiteral(t: string)
    ensures LiteralAt(t, 0, t)
  {
    assert t[0..|t|] == t;
  }

  /** findall finds nothing at the end of the text. */
  lemma EndOfText(t: string)
    ensures FindAllFrom(t, |t|) == []
  {
  }

  /** A text that is one table and nothing else. */
  lemma OnlyTable(t: string, w1: string, w2: string, rows: seq<RowFields>)
    requires Spaces(w1) && Spaces(w2) && |rows| > 0 && AllRows(rows)
    requires LiteralAt(t, 0, Header(w1, w2) + Lines(rows)) && |t| == |Header(w1, w2) + Lines(rows)|
    ensures FindAll(t) == [Lines(rows)]
  {
    NoRowAt(t, |t|);
    LiteralSplit(t, 0, Header(w1, w2), Lines(rows));
    TableFound(t, 0, |Header(w1, w2)|, |t|, w1, w2, rows);
    EndOfText(t);
  }

  /** findall on a report that is one table returns that table's rows. */
  lemma FindAllOne(w1: string, w2: string, rows: seq<RowFields>)
    requires Spaces(w1) && Spaces(w2) && |rows| > 0 && AllRows(rows)
    ensures FindAll(Header(w1, w2) + Lines(rows)) == [Lines(rows)]
  {
    var t := Header(w1, w2) + Lines(rows);
    WholeLiteral(t);
    OnlyTable(t, w1, w2, rows);
  }

  /** Two texts one after the other are literals at the start and after the first. */
  lemma ConcatLiterals(x: string, y: string)
    ensures LiteralAt(x + y, 0, x) && LiteralAt(x + y, |x|, y)
  {
    assert (x + y)[0..|x|] == x;
    assert (x + y)[|x|..|x| + |y|] == y;
  }

  /** A table at `p` that ends at `q`, where the text ends or another header starts. */
  lemma TableThen(t: string, p: nat, w1: string, w2: string, rows: seq<RowFields>, q: nat)
    requires Spaces(w1) && Spaces(w2) && |rows| > 0 && AllRows(rows)
    requires LiteralAt(t, p, Header(w1, w2) + Lines(rows)) && q == p + |Header(w1, w2) + Lines(rows)|
    requires q < |t| ==> t[q] == 'M'
    ensures FoundFirst(t, p, Lines(rows), q)
  {
    NoRowAt(t, q);
    LiteralSplit(t, p, Header(w1, w2), Lines(rows));
    TableFound(t, p, p + |Header(w1, w2)|, q, w1, w2, rows);
  }

  /** A text that is two tables and nothing else. */
  lemma TwoTables(t: string, w1: string, w2: string, rows1: seq<RowFields>, w3: string, w4: string, rows2: seq<RowFields>)
    requires Spaces(w1) && Spaces(w2) && |rows1| > 0 && AllRows(rows1)
    requires Spaces(w3) && Spaces(w4) && |rows2| > 0 && AllRows(rows2)
    requires var first, second := Header(w1, w2) + Lines(rows1), Header(w3, w4) + Lines(rows2);
      LiteralAt(t, 0, first) && LiteralAt(t, |first|, second) && |t| == |first| + |second|
    ensures FindAll(t) == [Lines(rows1), Lines(rows2)]
  {
    var first, second := Header(w1, w2) + Lines(rows1), Header(w3, w4) + Lines(rows2);
    LiteralChar(t, |first|, second, 0);
    TableThen(t, 0, w1, w2, rows1, |first|);
    TableThen(t, |first|, w3, w4, rows2, |t|);
    EndOfText(t);
  }

  /** findall on two tables, one after the other, returns both, in order. */
  lemma FindAllTwo(w1: string, w2: string, rows1: seq<RowFields>, w3: string, w4: string, rows2: seq<RowFields>)
    requires Spaces(w1) && Spaces(w2) && |rows1| > 0 && AllRows(rows1)
    requires Spaces(w3) && Spaces(w4) && |rows2| > 0 && AllRows(rows2)
    ensures FindAll(Header(w1, w2) + Lines(rows1) + (Header(w3, w4) + Lines(rows2)))
      == [Lines(rows1), Lines(rows2)]
  {
    ConcatLiterals(Header(w1, w2) + Lines(rows1), Header(w3, w4) + Lines(rows2));
    TwoTables(Header(w1, w2) + Lines(rows1) + (Header(w3, w4) + Lines(rows2)), w1, w2, rows1, w3, w4, rows2);
  }

}
