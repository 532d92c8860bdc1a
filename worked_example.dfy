/**
 * A one-table report, "202401.txt", run through the extractor of
 * `scripts/transform.py`: the temperature table gives two dated records and
 * the dew-point and humidity tables are reported missing.
 */
module WorkedExample {
  import opened Wrappers
  import opened Text
  import opened Numeric
  import opened Pattern
  import opened Transform

  const Header: string := "Max\tAvg\tMin\n"
  const Row1: string := "20\t15.5\t10"
  const Row2: string := "21\t16.0\t11"

  /** "Max\tAvg\tMin\n20\t15.5\t10\n21\t16.0\t11\n" */
  const Report: string := Header + Row1 + "\n" + Row2 + "\n"

  /** `Max\s+Avg\s+Min\n` at `p`, with one whitespace character between the words. */
  lemma HeaderAt(t: string, p: nat)
    requires p + 12 <= |t| && LiteralAt(t, p, "Max") && IsSpace(t[p + 3]) && LiteralAt(t, p + 4, "Avg")
    requires IsSpace(t[p + 7]) && LiteralAt(t, p + 8, "Min\n")
    ensures HeaderEnd(t, p) == Some(p + 12)
  {
    WordLiteral(t, p, "Max");
    WordLiteral(t, p + 4, "Avg");
    LiteralChar(t, p + 8, "Min\n", 0);
    LiteralChar(t, p + 8, "Min\n", 1);
    LiteralChar(t, p + 8, "Min\n", 2);
    LiteralChar(t, p + 8, "Min\n", 3);
    assert SpaceEnd(t, p + 4) == p + 4;
    assert SpaceEnd(t, p + 3) == p + 4;
    assert SpaceEnd(t, p + 8) == p + 8;
    assert SpaceEnd(t, p + 7) == p + 8;
  }

  /** The characters of the report's header line. */
  lemma HeaderChars(t: string)
    requires t == Report
    ensures |t| == 34 && LiteralAt(t, 0, "Max") && IsSpace(t[3]) && LiteralAt(t, 4, "Avg")
    ensures IsSpace(t[7]) && LiteralAt(t, 8, "Min\n")
  {
    ThreeChars(t, 0, "Max");
    ThreeChars(t, 4, "Avg");
    FourChars(t, 8, "Min\n");
  }

  /** Three characters in a row make a literal. */
  lemma ThreeChars(t: string, p: nat, lit: string)
    requires |lit| == 3 && p + 3 <= |t| && t[p] == lit[0] && t[p + 1] == lit[1] && t[p + 2] == lit[2]
    ensures LiteralAt(t, p, lit)
  {
    assert t[p..p + 3] == lit;
  }

  /** Four characters in a row make a literal. */
  lemma FourChars(t: string, p: nat, lit: string)
    requires |lit| == 4 && p + 4 <= |t| && t[p] == lit[0] && t[p + 1] == lit[1] && t[p + 2] == lit[2]
    requires t[p + 3] == lit[3]
    ensures LiteralAt(t, p, lit)
  {
    assert t[p..p + 4] == lit;
  }

  /** The end of an integer run of two digits at `p`. */
  lemma TwoDigits(t: string, p: nat, dots: bool)
    requires p + 2 < |t| && IsDigit(t[p]) && IsDigit(t[p + 1]) && t[p + 2] == '\t'
    ensures RunEnd(t, p, dots) == p + 2 && FieldEnd(t, p, dots) == Some(p + 2)
  {
    assert RunEnd(t, p + 2, dots) == p + 2;
    assert RunEnd(t, p + 1, dots) == p + 2;
  }

  /** The end of a `\d\d.\d` average at `p`. */
  lemma AverageField(t: string, p: nat)
    requires p + 4 < |t| && IsDigit(t[p]) && IsDigit(t[p + 1]) && t[p + 2] == '.'
    requires IsDigit(t[p + 3]) && t[p + 4] == '\t'
    ensures FieldEnd(t, p, true) == Some(p + 4)
  {
    assert RunEnd(t, p + 4, true) == p + 4;
    assert RunEnd(t, p + 3, true) == p + 4;
    assert RunEnd(t, p + 2, true) == p + 4;
    assert RunEnd(t, p + 1, true) == p + 4;
  }

  /** The end of a two-digit last field at `p`, followed by a newline. */
  lemma LastField(t: string, p: nat)
    requires p + 2 < |t| && IsDigit(t[p]) && IsDigit(t[p + 1]) && t[p + 2] == '\n'
    ensures FieldEnd(t, p, false) == Some(p + 2)
  {
    assert RunEnd(t, p + 2, false) == p + 2;
    assert RunEnd(t, p + 1, false) == p + 2;
  }

  /** A row `\d\d\t\d\d.\d\t\d\d\n` at `p`. */
  lemma RowAt(t: string, p: nat)
    requires p + 10 < |t| && IsDigit(t[p]) && IsDigit(t[p + 1]) && t[p + 2] == '\t'
    requires IsDigit(t[p + 3]) && IsDigit(t[p + 4]) && t[p + 5] == '.' && IsDigit(t[p + 6]) && t[p + 7] == '\t'
    requires IsDigit(t[p + 8]) && IsDigit(t[p + 9]) && t[p + 10] == '\n'
    ensures RowEnd(t, p) == Some(p + 10) && AfterRow(t, p + 10) == p + 11
  {
    TwoDigits(t, p, false);
    AverageField(t, p + 3);
    LastField(t, p + 8);
  }

  /** The characters of a row `\d\d\t\d\d.\d\t\d\d\n` at `p`. */
  predicate RowChars(t: string, p: nat)
  {
    p + 10 < |t| && IsDigit(t[p]) && IsDigit(t[p + 1]) && t[p + 2] == '\t'
    && IsDigit(t[p + 3]) && IsDigit(t[p + 4]) && t[p + 5] == '.' && IsDigit(t[p + 6]) && t[p + 7] == '\t'
    && IsDigit(t[p + 8]) && IsDigit(t[p + 9]) && t[p + 10] == '\n'
  }

  /** A header, then two rows with their newlines, and nothing else: findall returns the rows. */
  lemma OneMatch(t: string)
    requires |t| == 34 && HeaderEnd(t, 0) == Some(12)
    requires RowEnd(t, 12) == Some(22) && AfterRow(t, 22) == 23
    requires RowEnd(t, 23) == Some(33) && AfterRow(t, 33) == 34
    requires RowEnd(t, 34) == None
    ensures FindAll(t) == [t[12..34]]
    ensures RowsEnd(t, 12) == 34 && RowsCore(t, 12) == 33
  {
    LastRow(t, 23, 33, 34);
    NextRow(t, 12, 22, 23);
    OnlyMatch(t, 12);
  }

  /** A row followed by no further row ends the group. */
  lemma LastRow(t: string, p: nat, r: nat, q: nat)
    requires p <= |t| && RowEnd(t, p) == Some(r) && AfterRow(t, r) == q && RowEnd(t, q).None?
    ensures RowsEnd(t, p) == q && RowsCore(t, p) == r
  {
  }

  /** A row followed by another continues the group there. */
  lemma NextRow(t: string, p: nat, r: nat, q: nat)
    requires p <= |t| && RowEnd(t, p) == Some(r) && AfterRow(t, r) == q && RowEnd(t, q).Some?
    ensures RowsEnd(t, p) == RowsEnd(t, q) && RowsCore(t, p) == RowsCore(t, q)
  {
  }

  /** A header at the start whose rows run to the end is the only match. */
  lemma OnlyMatch(t: string, h: nat)
    requires 0 < |t| && h <= |t| && HeaderEnd(t, 0) == Some(h) && RowEnd(t, h).Some? && RowsEnd(t, h) == |t|
    ensures FindAll(t) == [t[h..|t|]]
  {
    assert FindAllFrom(t, |t|) == [];
  }

  /** `strip()` leaves the two rows and the newline between them. */
  lemma StripMatch(t: string)
    requires 34 <= |t| && RowEnd(t, 12).Some? && RowsEnd(t, 12) == 34 && RowsCore(t, 12) == 33
    ensures Strip(t[12..34]) == t[12..33]
  {
    StripRows(t, 12);
  }

  /** A stripped match of two newline-free lines splits into those lines. */
  lemma LinesOfMatch(m: string, core: string, a: string, b: string)
    requires Strip(m) == core && core == a + ['\n'] + b && '\n' !in a && '\n' !in b
    ensures SectionLines(m) == [a, b]
  {
    SplitAtSeparator(a, b, '\n');
    SplitWithoutSeparator(b, '\n');
  }

  /** The characters of a row line `\d\d\t\d\d.\d\t\d\d`. */
  predicate LineChars(l: string)
  {
    |l| == 10 && IsDigit(l[0]) && IsDigit(l[1]) && l[2] == '\t'
    && IsDigit(l[3]) && IsDigit(l[4]) && l[5] == '.' && IsDigit(l[6]) && l[7] == '\t'
    && IsDigit(l[8]) && IsDigit(l[9])
  }

  /** The characters of the report's two rows, and of the lines they make. */
  lemma BodyChars(t: string, r1: string, r2: string)
    requires t == Report && r1 == Row1 && r2 == Row2
    ensures RowChars(t, 12) && RowChars(t, 23)
    ensures t[12..33] == r1 + ['\n'] + r2
    ensures LineChars(r1) && LineChars(r2)
  {
  }

  /** A row line has no newline. */
  lemma LineHasNoNewline(l: string)
    requires LineChars(l)
    ensures '\n' !in l
  {
    assert forall k :: 0 <= k < |l| ==> l[k] != '\n';
  }

  /** What the scanner sees in the report: a header at 0 and two rows, each with its newline. */
  lemma ReportScan(t: string)
    requires t == Report
    ensures |t| == 34 && HeaderEnd(t, 0) == Some(12)
    ensures RowEnd(t, 12) == Some(22) && AfterRow(t, 22) == 23
    ensures RowEnd(t, 23) == Some(33) && AfterRow(t, 33) == 34
    ensures RowEnd(t, 34) == None
  {
    HeaderChars(t);
    HeaderAt(t, 0);
    BodyChars(t, Row1, Row2);
    RowAt(t, 12);
    RowAt(t, 23);
    assert RunEnd(t, 34, false) == 34;
  }

  /** A text the scanner sees that way holds one table, whose lines are the two rows. */
  lemma TableOfScan(t: string, r1: string, r2: string)
    requires |t| == 34 && HeaderEnd(t, 0) == Some(12)
    requires RowEnd(t, 12) == Some(22) && AfterRow(t, 22) == 23
    requires RowEnd(t, 23) == Some(33) && AfterRow(t, 33) == 34
    requires RowEnd(t, 34) == None
    requires t[12..33] == r1 + ['\n'] + r2 && '\n' !in r1 && '\n' !in r2
    ensures |FindAll(t)| == 1 && SectionLines(FindAll(t)[0]) == [r1, r2]
  {
    OneMatch(t);
    StripMatch(t);
    LinesOfMatch(t[12..34], t[12..33], r1, r2);
  }

  /** findall on the report finds the one table, whose lines are the two rows. */
  lemma ReportTable(t: string, r1: string, r2: string)
    requires t == Report && r1 == Row1 && r2 == Row2
    ensures |FindAll(t)| == 1 && SectionLines(FindAll(t)[0]) == [r1, r2]
  {
    ReportScan(t);
    BodyChars(t, r1, r2);
    LineHasNoNewline(r1);
    LineHasNoNewline(r2);
    TableOfScan(t, r1, r2);
  }

  /** The fields of a row line `a\tb\tc`. */
  lemma RowFields(a: string, b: string, c: string)
    requires |a| > 0 && |c| > 0 && !IsSpace(a[0]) && !IsSpace(c[|c| - 1])
    requires '\t' !in a && '\t' !in b && '\t' !in c
    ensures Fields(a + ['\t'] + b + ['\t'] + c) == [a, b, c]
  {
    var s := a + ['\t'] + b + ['\t'] + c;
    assert s[0] == a[0] && s[|s| - 1] == c[|c| - 1];
    StripTrimmed(s);
    assert s == a + ['\t'] + (b + ['\t'] + c);
    SplitWithoutSeparator(c, '\t');
    SplitAtSeparator(b, c, '\t');
    SplitAtSeparator(a, b + ['\t'] + c, '\t');
  }

  /** `int()` of two digits. */
  lemma TwoDigitInt(s: string)
    requires |s| == 2 && IsDigit(s[0]) && IsDigit(s[1])
    ensures ParseInt(s) == Some(DigitValue(s[0]) * 10 + DigitValue(s[1]))
  {
    assert Unsigned(s) == s;
    assert IsDigits(s);
    assert s[..1] == [s[0]] && s[..1][..0] == [];
    assert DigitsValue(s[..1]) == DigitValue(s[0]);
    assert DigitsValue(s) == DigitValue(s[0]) * 10 + DigitValue(s[1]);
  }

  /** `float()` of `\d\d.\d`. */
  lemma OneDecimal(s: string)
    requires |s| == 4 && IsDigit(s[0]) && IsDigit(s[1]) && s[2] == '.' && IsDigit(s[3])
    ensures ParseDecimal(s) == Some(Decimal(false, DigitValue(s[0]) * 100 + DigitValue(s[1]) * 10 + DigitValue(s[3]), 1))
  {
    assert Unsigned(s) == s;
    assert AvgShape(s) by {
      assert forall k :: 0 <= k < |s| ==> IsDigitOrDot(s[k]);
    }
    assert HasDigit(s) by { assert IsDigit(s[0]); }
    assert FindChar(s, '.') == 2 by {
      assert FindChar(s[2..], '.') == 0;
      assert s[1..][1..] == s[2..];
      assert FindChar(s[1..], '.') == 1;
    }
    assert AtMostOneDot(s) by {
      assert s[3..] == [s[3]];
    }
    var ds := s[..2] + s[3..];
    assert DigitsOf(s) == ds;
    assert ScaleOf(s) == 1;
    assert ds == [s[0], s[1], s[3]];
    assert ds[..2] == [s[0], s[1]] && ds[..2][..1] == [s[0]] && ds[..2][..1][..0] == [];
    assert DigitsValue(ds[..2][..1]) == DigitValue(s[0]);
    assert DigitsValue(ds[..2]) == DigitValue(s[0]) * 10 + DigitValue(s[1]);
    assert DigitsValue(ds) == DigitValue(s[0]) * 100 + DigitValue(s[1]) * 10 + DigitValue(s[3]);
  }

  /** The three fields of a row line and their shapes. */
  lemma LineFields(l: string)
    requires LineChars(l)
    ensures Fields(l) == [l[..2], l[3..7], l[8..]]
    ensures var a, b, c := l[..2], l[3..7], l[8..];
      |a| == 2 && IsDigit(a[0]) && IsDigit(a[1]) && a[0] == l[0] && a[1] == l[1]
      && |b| == 4 && IsDigit(b[0]) && IsDigit(b[1]) && b[2] == '.' && IsDigit(b[3])
      && b[0] == l[3] && b[1] == l[4] && b[3] == l[6]
      && |c| == 2 && IsDigit(c[0]) && IsDigit(c[1]) && c[0] == l[8] && c[1] == l[9]
  {
    var a, b, c := l[..2], l[3..7], l[8..];
    assert l == a + ['\t'] + b + ['\t'] + c;
    assert '\t' !in a && '\t' !in b && '\t' !in c by {
      assert forall k :: 0 <= k < |b| ==> b[k] == l[k + 3];
    }
    RowFields(a, b, c);
  }

  /** A line whose fields parse gives the record they make, dated by its position. */
  lemma KeptLine(l: string, i: nat, year: string, month: string, a: string, b: string, c: string,
                 max: int, avg: Decimal, min: int)
    requires Fields(l) == [a, b, c]
    requires ParseInt(a) == Some(max) && ParseDecimal(b) == Some(avg) && ParseInt(c) == Some(min)
    ensures ParseLine(l, i, year, month) == Kept(DailyRecord(DateLabel(year, month, i + 1), max, avg, min))
  {
  }

  /** A line whose fields have the shapes of the report's rows gives the record they write, dated by its position. */
  lemma FieldsRecord(l: string, i: nat, year: string, month: string, a: string, b: string, c: string,
                     rec: DailyRecord)
    requires Fields(l) == [a, b, c]
    requires |a| == 2 && IsDigit(a[0]) && IsDigit(a[1])
    requires |b| == 4 && IsDigit(b[0]) && IsDigit(b[1]) && b[2] == '.' && IsDigit(b[3])
    requires |c| == 2 && IsDigit(c[0]) && IsDigit(c[1])
    requires rec.date == DateLabel(year, month, i + 1)
    requires rec.max == DigitValue(a[0]) * 10 + DigitValue(a[1])
    requires rec.avg == Decimal(false, DigitValue(b[0]) * 100 + DigitValue(b[1]) * 10 + DigitValue(b[3]), 1)
    requires rec.min == DigitValue(c[0]) * 10 + DigitValue(c[1])
    ensures ParseLine(l, i, year, month) == Kept(rec)
  {
    TwoDigitInt(a);
    OneDecimal(b);
    TwoDigitInt(c);
    KeptLine(l, i, year, month, a, b, c, rec.max, rec.avg, rec.min);
  }

  lemma Days(year: string, month: string)
    requires year == "2024" && month == "01"
    ensures DateLabel(year, month, 1) == "2024-01-01"
    ensures DateLabel(year, month, 2) == "2024-01-02"
    ensures OutputName(Temperature, year, month) == "temperature_2024_01.csv"
  {
    assert NatToString(1) == "1" && NatToString(2) == "2";
    assert Zeros(1) == "0";
  }

  const Record1: DailyRecord := DailyRecord("2024-01-01", 20, Decimal(false, 155, 1), 10)
  const Record2: DailyRecord := DailyRecord("2024-01-02", 21, Decimal(false, 160, 1), 11)

  /** A row line gives the record that holds its values and the date of its position. */
  lemma DatedRecord(l: string, i: nat, year: string, month: string, rec: DailyRecord)
    requires LineChars(l)
    requires rec.date == DateLabel(year, month, i + 1)
    requires rec.max == DigitValue(l[0]) * 10 + DigitValue(l[1])
    requires rec.avg == Decimal(false, DigitValue(l[3]) * 100 + DigitValue(l[4]) * 10 + DigitValue(l[6]), 1)
    requires rec.min == DigitValue(l[8]) * 10 + DigitValue(l[9])
    ensures ParseLine(l, i, year, month) == Kept(rec)
  {
    LineFields(l);
    FieldsRecord(l, i, year, month, l[..2], l[3..7], l[8..], rec);
  }

  /** The digits of the first row. */
  lemma Row1Values(r: string)
    requires r == Row1
    ensures LineChars(r)
    ensures DigitValue(r[0]) * 10 + DigitValue(r[1]) == 20
    ensures DigitValue(r[3]) * 100 + DigitValue(r[4]) * 10 + DigitValue(r[6]) == 155
    ensures DigitValue(r[8]) * 10 + DigitValue(r[9]) == 10
  {
    assert r[0] == '2' && r[1] == '0' && r[2] == '\t' && r[3] == '1' && r[4] == '5';
    assert r[5] == '.' && r[6] == '5' && r[7] == '\t' && r[8] == '1' && r[9] == '0';
  }

  /** The digits of the second row. */
  lemma Row2Values(r: string)
    requires r == Row2
    ensures LineChars(r)
    ensures DigitValue(r[0]) * 10 + DigitValue(r[1]) == 21
    ensures DigitValue(r[3]) * 100 + DigitValue(r[4]) * 10 + DigitValue(r[6]) == 160
    ensures DigitValue(r[8]) * 10 + DigitValue(r[9]) == 11
  {
    assert r[0] == '2' && r[1] == '1' && r[2] == '\t' && r[3] == '1' && r[4] == '6';
    assert r[5] == '.' && r[6] == '0' && r[7] == '\t' && r[8] == '1' && r[9] == '1';
  }

  lemma RowRecords(r1: string, r2: string, year: string, month: string, x: DailyRecord, y: DailyRecord)
    requires r1 == Row1 && r2 == Row2 && year == "2024" && month == "01"
    requires x == Record1 && y == Record2
    ensures ParseLine(r1, 0, year, month) == Kept(x)
    ensures ParseLine(r2, 1, year, month) == Kept(y)
  {
    Row1Values(r1);
    Row2Values(r2);
    Days(year, month);
    DatedRecord(r1, 0, year, month, x);
    DatedRecord(r2, 1, year, month, y);
  }

  /** The outcomes of two lines. */
  lemma TwoOutcomes(l1: string, l2: string, year: string, month: string)
    ensures Outcomes([l1, l2], year, month) == [ParseLine(l1, 0, year, month), ParseLine(l2, 1, year, month)]
  {
    var lines := [l1, l2];
    var outs := Outcomes(lines, year, month);
    assert lines[0] == l1 && lines[1] == l2;
    SeqOfTwo(outs, ParseLine(l1, 0, year, month), ParseLine(l2, 1, year, month));
  }

  /** A sequence of two elements is the display of them. */
  lemma SeqOfTwo<T>(s: seq<T>, a: T, b: T)
    requires |s| == 2 && s[0] == a && s[1] == b
    ensures s == [a, b]
  {
  }

  /** Two kept outcomes collect into two rows keyed 0 and 1. */
  lemma CollectTwo(x: DailyRecord, y: DailyRecord)
    ensures Collect([Kept(x), Kept(y)]) == Ok([FrameRow(0, x), FrameRow(1, y)])
  {
    var outs := [Kept(x), Kept(y)];
    var first := outs[..1];
    assert first == [Kept(x)];
    assert first[..0] == [];
    assert Collect(first[..0]) == Ok([]);
    assert [] + [FrameRow(0, x)] == [FrameRow(0, x)];
    assert Collect(first) == Ok([FrameRow(0, x)]);
    assert [FrameRow(0, x)] + [FrameRow(1, y)] == [FrameRow(0, x), FrameRow(1, y)];
  }

  /** Two kept lines extract to two rows keyed 0 and 1. */
  lemma TwoRecords(l1: string, l2: string, year: string, month: string, x: DailyRecord, y: DailyRecord)
    requires ParseLine(l1, 0, year, month) == Kept(x)
    requires ParseLine(l2, 1, year, month) == Kept(y)
    ensures Extract([l1, l2], year, month) == Ok([FrameRow(0, x), FrameRow(1, y)])
  {
    TwoOutcomes(l1, l2, year, month);
    CollectTwo(x, y);
  }

  /** The report's year and month come from its file name. */
  lemma WorkedName(name: string, year: string, month: string)
    requires name == "202401.txt" && year == "2024" && month == "01"
    ensures YearMonth(Stem(name)) == (year, month)
  {
    assert name == (year + month) + ".txt";
    StemOfTxt(year + month);
    YearMonthOf(year, month);
  }

  /** The report's only table, extracted. */
  lemma WorkedTable(t: string, year: string, month: string, rows: seq<FrameRow>)
    requires t == Report && year == "2024" && month == "01"
    requires rows == [FrameRow(0, Record1), FrameRow(1, Record2)]
    ensures |FindAll(t)| == 1 && Extract(SectionLines(FindAll(t)[0]), year, month) == Ok(rows)
  {
    ReportTable(t, Row1, Row2);
    RowRecords(Row1, Row2, year, month, Record1, Record2);
    TwoRecords(Row1, Row2, year, month, Record1, Record2);
  }

  /** With a single table, the temperature is saved and the other two variables are not found. */
  lemma OneTableSteps(t: string, year: string, month: string, rows: seq<FrameRow>)
    requires |FindAll(t)| == 1 && Extract(SectionLines(FindAll(t)[0]), year, month) == Ok(rows)
    ensures MainSteps(t, year, month)
      == [Ok(Saved(OutputName(Temperature, year, month), rows)), Ok(NotFound(DewPoint)), Ok(NotFound(Humidity))]
  {
    StepsOfMain(t, year, month);
    FirstTableSaved(t, year, month, rows);
    BeyondTables(t, DewPoint, year, month);
    BeyondTables(t, Humidity, year, month);
  }

  /** The temperature step saves what the first table extracts to. */
  lemma FirstTableSaved(t: string, year: string, month: string, rows: seq<FrameRow>)
    requires |FindAll(t)| >= 1 && Extract(SectionLines(FindAll(t)[0]), year, month) == Ok(rows)
    ensures ProcessVariable(t, Temperature, year, month) == Ok(Saved(OutputName(Temperature, year, month), rows))
  {
  }

  /** A variable whose index is past the tables found is not found. */
  lemma BeyondTables(t: string, v: Variable, year: string, month: string)
    requires |FindAll(t)| <= SectionIndex(v)
    ensures ProcessVariable(t, v, year, month) == Ok(NotFound(v))
  {
  }

  /**
   * `main` on "202401.txt": the temperature table is saved as
   * "temperature_2024_01.csv" with two records, and the other two variables
   * are not found.
   */
  lemma WorkedRun(name: string, t: string, year: string, month: string)
    requires name == "202401.txt" && t == Report && year == "2024" && month == "01"
    ensures YearMonth(Stem(name)) == (year, month)
    ensures RunInOrder(MainSteps(t, year, month)) == RunResult(
      [Saved("temperature_2024_01.csv", [FrameRow(0, Record1), FrameRow(1, Record2)]),
       NotFound(DewPoint), NotFound(Humidity)],
      None)
  {
    WorkedName(name, year, month);
    var rows := [FrameRow(0, Record1), FrameRow(1, Record2)];
    WorkedTable(t, year, month, rows);
    OneTableSteps(t, year, month, rows);
    Days(year, month);
    RunOfThree(Ok(Saved(OutputName(Temperature, year, month), rows)), Ok(NotFound(DewPoint)), Ok(NotFound(Humidity)));
  }
}
