/**
 * The extractor of `scripts/transform.py`: it finds the Max/Avg/Min tables of
 * a monthly report, picks one table per variable by its position, and turns
 * each line of that table into a daily record dated by the line's position.
 *
 * The data frame that `extract_section_data` builds is modelled as the list of
 * its rows in insertion order, each with the dictionary key it was stored
 * under; writing it to CSV is modelled by the `Saved` event that carries the
 * file name and the rows.  A `ValueError` raised by `int()` or `float()`
 * ends the run; it is the `Fault` of the result.
 */
module Transform {
  import opened Wrappers
  import opened Text
  import opened Numeric
  import opened Pattern

  // ---------------------------------------------------------------- variables

  /** The three variables a report holds, in the order of `SECTION_INDEX`. */
  datatype Variable = Temperature | DewPoint | Humidity

  /** `SECTION_INDEX`: the position of each variable's table among the matches. */
  function SectionIndex(v: Variable): (k: nat)
    ensures k < 3
  {
    match v
    case Temperature => 0
    case DewPoint => 1
    case Humidity => 2
  }

  /** The key of `SECTION_INDEX`, which is also the prefix of the output file. */
  function VariableName(v: Variable): (name: string)
    ensures |name| > 0
  {
    match v
    case Temperature => "temperature"
    case DewPoint => "dew_point"
    case Humidity => "humidity"
  }

  /** The order in which `main` walks `SECTION_INDEX`. */
  const SectionOrder: seq<Variable> := [Temperature, DewPoint, Humidity]

  /** The walk visits the tables in order, and different variables read different tables. */
  lemma SectionOrderIndices()
    ensures forall k :: 0 <= k < |SectionOrder| ==> SectionIndex(SectionOrder[k]) == k
    ensures forall v, w :: SectionIndex(v) == SectionIndex(w) ==> v == w
  {
  }

  // ---------------------------------------------------------------- records

  /** One entry of the dictionary `data`: `{'date', 'max', 'avg', 'min'}`. */
  datatype DailyRecord = DailyRecord(date: string, max: int, avg: Decimal, min: int)

  /** A row of the data frame: the dictionary key it was stored under and its record. */
  datatype FrameRow = FrameRow(key: nat, record: DailyRecord)

  /** Why a run stops: `int()` or `float()` rejected a field, or a table index was out of range. */
  datatype Fault = BadInt(text: string) | BadFloat(text: string) | IndexOutOfRange

  /** `line.strip().split("\t")`. */
  function Fields(line: string): (parts: seq<string>)
    ensures |parts| > 0
  {
    Split(Strip(line), '\t')
  }

  /** `f"{year}-{month}-{day:02d}"`. */
  function DateLabel(year: string, month: string, day: nat): string
  {
    year + "-" + month + "-" + Pad2(day)
  }

  /** Two dates of the same month are equal only for the same day. */
  lemma DateLabelInjective(year: string, month: string, d1: nat, d2: nat)
    requires DateLabel(year, month, d1) == DateLabel(year, month, d2)
    ensures d1 == d2
  {
    var prefix := year + "-" + month + "-";
    assert DateLabel(year, month, d1) == prefix + Pad2(d1);
    assert DateLabel(year, month, d2) == prefix + Pad2(d2);
    assert Pad2(d1) == DateLabel(year, month, d1)[|prefix|..];
    assert Pad2(d2) == DateLabel(year, month, d2)[|prefix|..];
    Pad2RoundTrip(d1);
    Pad2RoundTrip(d2);
  }

  /** What the loop body does with one line. */
  datatype LineOutcome = Skipped | Kept(record: DailyRecord) | Failed(fault: Fault)

  /**
   * The body of the loop of `extract_section_data` for the line at 0-based
   * position `i`: a line without exactly three fields is skipped; otherwise
   * the record is built in the order the dictionary display evaluates it
   * (date, then `int(max)`, `float(avg)`, `int(min)`), and the first
   * conversion that fails ends the run.
   */
  function ParseLine(line: string, i: nat, year: string, month: string): (r: LineOutcome)
    ensures r.Skipped? <==> |Fields(line)| != 3
  {
    var parts := Fields(line);
    if |parts| != 3 then Skipped
    else
      match ParseInt(parts[0])
      case None => Failed(BadInt(parts[0]))
      case Some(max) =>
        match ParseDecimal(parts[1])
        case None => Failed(BadFloat(parts[1]))
        case Some(avg) =>
          match ParseInt(parts[2])
          case None => Failed(BadInt(parts[2]))
          case Some(min) => Kept(DailyRecord(DateLabel(year, month, i + 1), max, avg, min))
  }

  /**
   * A kept line carries the date of its position and the three parsed fields;
   * a failed line names the first field that does not parse.
   */
  lemma ParseLineSpec(line: string, i: nat, year: string, month: string)
    ensures var r := ParseLine(line, i, year, month);
      r.Kept? ==> var parts := Fields(line);
      r.record.date == DateLabel(year, month, i + 1)
      && ParseInt(parts[0]) == Some(r.record.max)
      && ParseDecimal(parts[1]) == Some(r.record.avg)
      && ParseInt(parts[2]) == Some(r.record.min)
    ensures var r := ParseLine(line, i, year, month);
      r.Failed? ==> var parts := Fields(line);
      r.fault == (if ParseInt(parts[0]).None? then BadInt(parts[0])
                  else if ParseDecimal(parts[1]).None? then BadFloat(parts[1])
                  else BadInt(parts[2]))
      && (ParseInt(parts[0]).None? || ParseDecimal(parts[1]).None? || ParseInt(parts[2]).None?)
  {
  }

  /** Whether a line fails does not depend on its position; only its date does. */
  lemma ParseLinePosition(line: string, i: nat, j: nat, year: string, month: string)
    ensures ParseLine(line, i, year, month).Failed? == ParseLine(line, j, year, month).Failed?
    ensures ParseLine(line, i, year, month).Kept? ==>
      ParseLine(line, j, year, month).Kept?
      && ParseLine(line, j, year, month).record
         == ParseLine(line, i, year, month).record.(date := DateLabel(year, month, j + 1))
  {
    var parts := Fields(line);
    if |parts| == 3 {
      ParseLineSpec(line, i, year, month);
      ParseLineSpec(line, j, year, month);
    }
  }

  // ---------------------------------------------------------------- extract_section_data

  /** What the loop body makes of each line, in the order of `enumerate`. */
  function Outcomes(lines: seq<string>, year: string, month: string): (outs: seq<LineOutcome>)
    ensures |outs| == |lines|
    ensures forall i :: 0 <= i < |lines| ==> outs[i] == ParseLine(lines[i], i, year, month)
  {
    seq(|lines|, i requires 0 <= i < |lines| => ParseLine(lines[i], i, year, month))
  }

  /**
   * The dictionary the loop fills from the outcomes of its lines, keyed by
   * position and in insertion order, or the first fault it meets.
   */
  function Collect(outs: seq<LineOutcome>): Result<seq<FrameRow>, Fault>
    decreases |outs|
  {
    if |outs| == 0 then Ok([])
    else
      var i := |outs| - 1;
      match Collect(outs[..i])
      case Err(f) => Err(f)
      case Ok(rows) =>
        match outs[i]
        case Skipped => Ok(rows)
        case Kept(record) => Ok(rows + [FrameRow(i, record)])
        case Failed(f) => Err(f)
  }

  /** The rows `extract_section_data` builds from `lines`, or the first fault it meets. */
  function Extract(lines: seq<string>, year: string, month: string): Result<seq<FrameRow>, Fault>
  {
    Collect(Outcomes(lines, year, month))
  }

  /**
   * `extract_section_data(section_lines, year, month)`: the dictionary is
   * filled line by line in the order of `enumerate`.
   */
  method ExtractSectionData(lines: seq<string>, year: string, month: string)
      returns (r: Result<seq<FrameRow>, Fault>)
    ensures r == Extract(lines, year, month)
  {
    ghost var outs := Outcomes(lines, year, month);
    var data: seq<FrameRow> := [];
    var i := 0;
    while i < |lines|
      invariant 0 <= i <= |lines|
      invariant Collect(outs[..i]) == Ok(data)
    {
      var outcome := ParseLine(lines[i], i, year, month);
      ExtractStep(outs, i, data, outcome);
      match outcome {
        case Skipped =>
        case Kept(record) =>
          data := data + [FrameRow(i, record)];
        case Failed(f) =>
          return Err(f);
      }
      i := i + 1;
    }
    CollectWhole(outs);
    return Ok(data);
  }

  /** One turn of the loop: what the prefix with one more line collects to, or the whole run's fault. */
  lemma ExtractStep(outs: seq<LineOutcome>, i: nat, data: seq<FrameRow>, outcome: LineOutcome)
    requires i < |outs| && Collect(outs[..i]) == Ok(data) && outcome == outs[i]
    ensures outcome.Skipped? ==> Collect(outs[..i + 1]) == Ok(data)
    ensures outcome.Kept? ==> Collect(outs[..i + 1]) == Ok(data + [FrameRow(i, outcome.record)])
    ensures outcome.Failed? ==> Collect(outs) == Err(outcome.fault)
  {
    CollectStep(outs, i);
    if outcome.Failed? {
      CollectErrPersists(outs, i + 1);
    }
  }

  /** Collecting one more outcome after a successful prefix. */
  lemma CollectStep(outs: seq<LineOutcome>, i: nat)
    requires i < |outs| && Collect(outs[..i]).Ok?
    ensures Collect(outs[..i + 1]) ==
      match outs[i]
      case Skipped => Collect(outs[..i])
      case Kept(record) => Ok(Collect(outs[..i]).value + [FrameRow(i, record)])
      case Failed(f) => Err(f)
  {
    assert outs[..i + 1][..i] == outs[..i];
  }

  /** The whole of the outcomes is their longest prefix. */
  lemma CollectWhole(outs: seq<LineOutcome>)
    ensures Collect(outs[..|outs|]) == Collect(outs)
  {
    assert outs[..|outs|] == outs;
  }

  /** Once a prefix of the outcomes has failed, the whole collection fails with the same fault. */
  lemma {:induction false} CollectErrPersists(outs: seq<LineOutcome>, n: nat)
    requires n <= |outs| && Collect(outs[..n]).Err?
    ensures Collect(outs) == Collect(outs[..n])
    decreases |outs| - n
  {
    if n < |outs| {
      assert outs[..n + 1][..n] == outs[..n];
      CollectErrPersists(outs, n + 1);
    } else {
      CollectWhole(outs);
    }
  }

  /**
   * A successful collection keeps exactly the kept outcomes, in order, each
   * under its own position as key; no outcome failed.
   */
  lemma {:induction false} CollectOk(outs: seq<LineOutcome>, rows: seq<FrameRow>)
    requires Collect(outs) == Ok(rows)
    ensures forall i :: 0 <= i < |outs| ==> !outs[i].Failed?
    ensures forall k :: 0 <= k < |rows| ==> rows[k].key < |outs| && outs[rows[k].key] == Kept(rows[k].record)
    ensures forall k1, k2 :: 0 <= k1 < k2 < |rows| ==> rows[k1].key < rows[k2].key
    ensures forall i :: 0 <= i < |outs| && outs[i].Kept? ==> exists k :: 0 <= k < |rows| && rows[k].key == i
    decreases |outs|
  {
    if |outs| > 0 {
      var i := |outs| - 1;
      var prefix := outs[..i];
      var prev := Collect(prefix).value;
      CollectOk(prefix, prev);
      assert forall j :: 0 <= j < i ==> prefix[j] == outs[j];
      if outs[i].Kept? {
        assert rows == prev + [FrameRow(i, outs[i].record)];
        assert rows[|prev|].key == i;
      } else {
        assert rows == prev;
      }
      forall j | 0 <= j < |outs| && outs[j].Kept?
        ensures exists k :: 0 <= k < |rows| && rows[k].key == j
      {
        if j < i {
          var k :| 0 <= k < |prev| && prev[k].key == j;
          assert rows[k] == prev[k];
        } else {
          assert rows[|rows| - 1].key == j;
        }
      }
    }
  }

  /** A collection has at most one row per outcome, and exactly one when every outcome is kept. */
  lemma {:induction false} CollectCount(outs: seq<LineOutcome>, rows: seq<FrameRow>)
    requires Collect(outs) == Ok(rows)
    ensures |rows| <= |outs|
    ensures |rows| == |outs| <==> forall i :: 0 <= i < |outs| ==> outs[i].Kept?
    decreases |outs|
  {
    if |outs| > 0 {
      var i := |outs| - 1;
      var prefix := outs[..i];
      var prev := Collect(prefix).value;
      CollectCount(prefix, prev);
      assert forall j :: 0 <= j < i ==> prefix[j] == outs[j];
      if !outs[i].Kept? {
        assert rows == prev;
      }
    }
  }

  /** A collection fails exactly when some outcome failed, and then with the fault of the first. */
  lemma {:induction false} CollectErr(outs: seq<LineOutcome>)
    ensures Collect(outs).Err? <==> exists i :: 0 <= i < |outs| && outs[i].Failed?
    ensures Collect(outs).Err? ==>
      exists i :: 0 <= i < |outs| && outs[i] == Failed(Collect(outs).error)
        && forall j :: 0 <= j < i ==> !outs[j].Failed?
    decreases |outs|
  {
    if |outs| > 0 {
      var i := |outs| - 1;
      var prefix := outs[..i];
      CollectErr(prefix);
      assert forall j :: 0 <= j < i ==> prefix[j] == outs[j];
    }
  }

  /**
   * A successful extraction keeps exactly the lines with three fields, in
   * line order, each under its own 0-based position as key and holding what
   * `ParseLine` makes of it, so its date is that of day `key + 1`.
   */
  lemma ExtractOk(lines: seq<string>, year: string, month: string, rows: seq<FrameRow>)
    requires Extract(lines, year, month) == Ok(rows)
    ensures forall k :: 0 <= k < |rows| ==>
      rows[k].key < |lines|
      && ParseLine(lines[rows[k].key], rows[k].key, year, month) == Kept(rows[k].record)
    ensures forall k1, k2 :: 0 <= k1 < k2 < |rows| ==> rows[k1].key < rows[k2].key
    ensures forall i :: 0 <= i < |lines| && |Fields(lines[i])| == 3 ==>
      exists k :: 0 <= k < |rows| && rows[k].key == i
  {
    var outs := Outcomes(lines, year, month);
    CollectOk(outs, rows);
    forall i | 0 <= i < |lines| && |Fields(lines[i])| == 3 ensures outs[i].Kept? {
      assert !outs[i].Failed? && !outs[i].Skipped?;
    }
  }

  /** Each row of a successful extraction is dated with the day after its key. */
  lemma ExtractDates(lines: seq<string>, year: string, month: string, rows: seq<FrameRow>)
    requires Extract(lines, year, month) == Ok(rows)
    ensures forall k :: 0 <= k < |rows| ==> rows[k].record.date == DateLabel(year, month, rows[k].key + 1)
  {
    ExtractOk(lines, year, month, rows);
    forall k | 0 <= k < |rows|
      ensures rows[k].record.date == DateLabel(year, month, rows[k].key + 1)
    {
      ParseLineSpec(lines[rows[k].key], rows[k].key, year, month);
    }
  }

  /** There are never more rows than lines, and as many exactly when every line has three fields. */
  lemma ExtractCount(lines: seq<string>, year: string, month: string, rows: seq<FrameRow>)
    requires Extract(lines, year, month) == Ok(rows)
    ensures |rows| <= |lines|
    ensures |rows| == |lines| <==> forall i :: 0 <= i < |lines| ==> |Fields(lines[i])| == 3
  {
    var outs := Outcomes(lines, year, month);
    CollectOk(outs, rows);
    CollectCount(outs, rows);
    assert forall i :: 0 <= i < |lines| ==> (outs[i].Kept? <==> |Fields(lines[i])| == 3);
  }

  /** The extraction fails exactly when some line fails, and then with the fault of the first such line. */
  lemma ExtractErr(lines: seq<string>, year: string, month: string)
    ensures Extract(lines, year, month).Err? <==>
      exists i :: 0 <= i < |lines| && ParseLine(lines[i], i, year, month).Failed?
    ensures Extract(lines, year, month).Err? ==>
      exists i :: 0 <= i < |lines| && ParseLine(lines[i], i, year, month) == Failed(Extract(lines, year, month).error)
        && forall j :: 0 <= j < i ==> !ParseLine(lines[j], j, year, month).Failed?
  {
    var outs := Outcomes(lines, year, month);
    CollectErr(outs);
  }

  // ---------------------------------------------------------------- process_variable

  /** `section.strip().split("\n")`. */
  function SectionLines(section: string): seq<string>
  {
    Split(Strip(section), '\n')
  }

  /** `f"{variable_name}_{year}_{month}.csv"`. */
  function OutputName(v: Variable, year: string, month: string): string
  {
    VariableName(v) + "_" + year + "_" + month + ".csv"
  }

  /** Different variables are written to different files. */
  lemma OutputNamesDistinct(v: Variable, w: Variable, year: string, month: string)
    requires v != w
    ensures OutputName(v, year, month) != OutputName(w, year, month)
  {
    assert OutputName(v, year, month)[0] == VariableName(v)[0];
    assert OutputName(w, year, month)[0] == VariableName(w)[0];
  }

  /** What a step reports: a table written to a file, or a variable whose table is missing. */
  datatype Event = Saved(file: string, frame: seq<FrameRow>) | NotFound(variable: Variable)

  /**
   * `process_variable(data, name, index, year, month, outdir)`: the table is
   * `matches[index]` when there are more matches than `index`; otherwise the
   * variable is reported as not found and nothing is written.
   */
  function ProcessVariable(data: string, v: Variable, year: string, month: string): Result<Event, Fault>
  {
    var matches := FindAll(data);
    var index := SectionIndex(v);
    if |matches| > index then
      match Extract(SectionLines(matches[index]), year, month)
      case Ok(frame) => Ok(Saved(OutputName(v, year, month), frame))
      case Err(f) => Err(f)
    else Ok(NotFound(v))
  }

  /**
   * The selection of `process_variable`: "not found" exactly when there are
   * no more matches than the variable's index; otherwise the result is what
   * extracting `matches[index]` gives, saved under the variable's file name.
   */
  lemma ProcessVariableSpec(data: string, v: Variable, year: string, month: string)
    ensures var r := ProcessVariable(data, v, year, month);
      var matches := FindAll(data);
      var index := SectionIndex(v);
      (r == Ok(NotFound(v)) <==> |matches| <= index)
      && (r.Ok? && r.value.Saved? ==>
            |matches| > index
            && r.value.file == OutputName(v, year, month)
            && Extract(SectionLines(matches[index]), year, month) == Ok(r.value.frame))
      && (r.Err? ==>
            |matches| > index
            && Extract(SectionLines(matches[index]), year, month) == Err(r.error))
  {
  }

  /** The length guard makes the indexing safe: no step ever fails for want of a table. */
  lemma NoIndexError(data: string, v: Variable, year: string, month: string)
    ensures ProcessVariable(data, v, year, month) != Err(IndexOutOfRange)
  {
    var matches := FindAll(data);
    var index := SectionIndex(v);
    if |matches| > index {
      ExtractFaults(SectionLines(matches[index]), year, month);
    }
  }

  /** Only `int()` and `float()` make an extraction fail. */
  lemma ExtractFaults(lines: seq<string>, year: string, month: string)
    ensures Extract(lines, year, month).Err? ==>
      Extract(lines, year, month).error.BadInt? || Extract(lines, year, month).error.BadFloat?
  {
    var outs := Outcomes(lines, year, month);
    CollectErr(outs);
    if Collect(outs).Err? {
      var i :| 0 <= i < |outs| && outs[i] == Failed(Collect(outs).error);
      ParseLineSpec(lines[i], i, year, month);
    }
  }

  // ---------------------------------------------------------------- lines of a matched table

  /** Three fields that the conversions all accept: integers within the digit limit and an average `float()` takes. */
  predicate Convertible(parts: seq<string>)
    requires |parts| == 3
  {
    WithinDigitLimit(parts[0]) && ParseDecimal(parts[1]).Some? && WithinDigitLimit(parts[2])
  }

  /**
   * On a line of a matched table, `int()` fails only on a field longer than
   * its digit limit and `float()` only on an average it rejects; the fault
   * names the first field, in evaluation order, that fails.
   */
  lemma TableLineOutcome(line: string, i: nat, year: string, month: string)
    requires TableLine(line)
    ensures Fields(line) == Split(line, '\t')
    ensures ParseLine(line, i, year, month).Failed? <==>
      |Fields(line)| == 3 && !Convertible(Fields(line))
    ensures ParseLine(line, i, year, month).Failed? ==>
      var parts := Fields(line);
      ParseLine(line, i, year, month).fault
        == (if !WithinDigitLimit(parts[0]) then BadInt(parts[0])
            else if ParseDecimal(parts[1]).None? then BadFloat(parts[1])
            else BadInt(parts[2]))
  {
    StripTrimmed(line);
  }

  /**
   * A table that findall returned extracts exactly when every three-field
   * line is convertible, and otherwise fails with a rejected average or an
   * integer over the digit limit.
   */
  lemma MatchedSectionOutcome(data: string, k: nat, year: string, month: string)
    requires k < |FindAll(data)|
    ensures var lines := SectionLines(FindAll(data)[k]);
      var r := Extract(lines, year, month);
      (r.Ok? <==> forall i :: 0 <= i < |lines| && |Fields(lines[i])| == 3 ==> Convertible(Fields(lines[i])))
      && (r.Err? ==> r.error.BadFloat? || (r.error.BadInt? && !WithinDigitLimit(r.error.text)))
  {
    var m := FindAll(data)[k];
    FindAllTables(data);
    assert TableText(m);
    TableLinesOutcome(SectionLines(m), year, month);
  }

  /** Lines that all have the table's line shape extract unless a field is not convertible. */
  lemma TableLinesOutcome(lines: seq<string>, year: string, month: string)
    requires TableLines(lines)
    ensures var r := Extract(lines, year, month);
      (r.Ok? <==> forall i :: 0 <= i < |lines| && |Fields(lines[i])| == 3 ==> Convertible(Fields(lines[i])))
      && (r.Err? ==> r.error.BadFloat? || (r.error.BadInt? && !WithinDigitLimit(r.error.text)))
  {
    ExtractErr(lines, year, month);
    forall i | 0 <= i < |lines|
      ensures ParseLine(lines[i], i, year, month).Failed? <==>
        |Fields(lines[i])| == 3 && !Convertible(Fields(lines[i]))
      ensures ParseLine(lines[i], i, year, month).Failed? ==>
        var f := ParseLine(lines[i], i, year, month).fault;
        f.BadFloat? || (f.BadInt? && !WithinDigitLimit(f.text))
    {
      TableLineOutcome(lines[i], i, year, month);
    }
  }

  // ---------------------------------------------------------------- main

  /** The position of the last `c` in `s`, if any. */
  function LastIndexOf(s: string, c: char): (r: Option<nat>)
    ensures r.Some? ==> r.value < |s| && s[r.value] == c && c !in s[r.value + 1..]
    ensures r.None? ==> c !in s
  {
    if |s| == 0 then None
    else if s[|s| - 1] == c then Some(|s| - 1)
    else
      var r := LastIndexOf(s[..|s| - 1], c);
      assert s == s[..|s| - 1] + [s[|s| - 1]];
      r
  }

  /**
   * `Path(name).stem` for a file name: the name without its last suffix,
   * where a suffix starts at the last dot that is neither the first nor the
   * last character.
   */
  function Stem(name: string): (stem: string)
    ensures stem <= name
    ensures stem != name ==> 0 < |stem| < |name| - 1 && name[|stem|] == '.' && '.' !in name[|stem| + 1..]
    ensures stem == name ==> forall i :: 0 < i < |name| - 1 ==> name[i] != '.' || '.' in name[i + 1..]
  {
    match LastIndexOf(name, '.')
    case Some(i) =>
      if 0 < i < |name| - 1 then name[..i]
      else
        assert forall j :: i < j < |name| ==> name[j] != '.' by {
          forall j | i < j < |name| ensures name[j] != '.' {
            assert name[j] == name[i + 1..][j - i - 1];
          }
        }
        name
    case None =>
      assert forall j :: 0 <= j < |name| ==> name[j] != '.' by {
        forall j | 0 <= j < |name| ensures name[j] != '.' {
          assert name[j] in name;
        }
      }
      name
  }

  /** The last `c` is the one after which no `c` follows. */
  lemma {:induction false} LastIndexOfBefore(a: string, b: string, c: char)
    requires c !in b
    ensures LastIndexOf(a + [c] + b, c) == Some(|a|)
    decreases |b|
  {
    var s := a + [c] + b;
    if |b| > 0 {
      assert s[|s| - 1] == b[|b| - 1] && b[|b| - 1] in b;
      assert s[..|s| - 1] == a + [c] + b[..|b| - 1];
      LastIndexOfBefore(a, b[..|b| - 1], c);
    } else {
      assert s == a + [c];
    }
  }

  /** The stem of a name with a `.txt` suffix. */
  lemma StemOfTxt(s: string)
    requires |s| > 0
    ensures Stem(s + ".txt") == s
  {
    assert s + ".txt" == s + ['.'] + "txt";
    LastIndexOfBefore(s, "txt", '.');
    assert (s + ".txt")[..|s|] == s;
  }

  /** `YYYYMM[:4]` and `YYYYMM[4:]`: the year is the first four characters (or fewer, when the stem is shorter), the month the rest. */
  function YearMonth(stem: string): (ym: (string, string))
    ensures ym.0 + ym.1 == stem
    ensures |ym.0| == if |stem| < 4 then |stem| else 4
  {
    var cut := if |stem| < 4 then |stem| else 4;
    assert stem[..cut] + stem[cut..] == stem;
    (stem[..cut], stem[cut..])
  }

  /** A four-character year followed by any month splits back into the two. */
  lemma YearMonthOf(year: string, month: string)
    requires |year| == 4
    ensures YearMonth(year + month) == (year, month)
  {
    assert (year + month)[..4] == year;
    assert (year + month)[4..] == month;
  }

  /** What a run produced: the steps that completed, and the fault that stopped it, if any. */
  datatype RunResult = RunResult(events: seq<Event>, fault: Option<Fault>)

  /** Run the steps in order, stopping at the first one that fails. */
  function RunInOrder(steps: seq<Result<Event, Fault>>): RunResult
    decreases |steps|
  {
    if |steps| == 0 then RunResult([], None)
    else match steps[0]
      case Err(f) => RunResult([], Some(f))
      case Ok(e) =>
        var rest := RunInOrder(steps[1..]);
        RunResult([e] + rest.events, rest.fault)
  }

  /**
   * A run reports the events of the steps before the first failing one, and
   * that step's fault; with no failing step it reports every event.
   */
  lemma {:induction false} RunInOrderSpec(steps: seq<Result<Event, Fault>>)
    ensures var out := RunInOrder(steps);
      |out.events| <= |steps|
      && (forall k :: 0 <= k < |out.events| ==> steps[k] == Ok(out.events[k]))
      && (out.fault.None? ==> |out.events| == |steps|)
      && (out.fault.Some? ==> |out.events| < |steps| && steps[|out.events|] == Err(out.fault.value))
    decreases |steps|
  {
    if |steps| > 0 && steps[0].Ok? {
      RunInOrderSpec(steps[1..]);
    }
  }

  /** Once the first `k` steps have succeeded, the run is their events followed by the run of the rest. */
  lemma {:induction false} RunInOrderPrefix(steps: seq<Result<Event, Fault>>, k: nat, events: seq<Event>)
    requires k <= |steps| && |events| == k
    requires forall j :: 0 <= j < k ==> steps[j] == Ok(events[j])
    ensures var rest := RunInOrder(steps[k..]);
      RunInOrder(steps) == RunResult(events + rest.events, rest.fault)
    decreases k
  {
    if k == 0 {
      assert steps[0..] == steps;
      assert events + RunInOrder(steps).events == RunInOrder(steps).events;
    } else {
      assert steps[1..][k - 1..] == steps[k..];
      RunInOrderPrefix(steps[1..], k - 1, events[1..]);
      assert events == [events[0]] + events[1..];
    }
  }

  /** A sequence of three elements is the display of them. */
  lemma SeqOfThree<T>(s: seq<T>, a: T, b: T, c: T)
    requires |s| == 3 && s[0] == a && s[1] == b && s[2] == c
    ensures s == [a, b, c]
  {
  }

  /** A run of three steps, case by case. */
  lemma RunOfThree(a: Result<Event, Fault>, b: Result<Event, Fault>, c: Result<Event, Fault>)
    ensures RunInOrder([a, b, c]) ==
      if a.Err? then RunResult([], Some(a.error))
      else if b.Err? then RunResult([a.value], Some(b.error))
      else if c.Err? then RunResult([a.value, b.value], Some(c.error))
      else RunResult([a.value, b.value, c.value], None)
  {
    var steps := [a, b, c];
    assert steps[1..] == [b, c];
    assert steps[1..][1..] == [c];
    assert steps[1..][1..][1..] == [];
    if a.Ok? && b.Ok? {
      if c.Ok? {
        assert RunInOrder([c]) == RunResult([c.value], None);
      }
      assert RunInOrder([b, c]).events == [b.value] + RunInOrder([c]).events;
    }
  }

  /** The steps of `main`, one per entry of `SECTION_INDEX`, in its order. */
  function MainSteps(data: string, year: string, month: string): (steps: seq<Result<Event, Fault>>)
    ensures |steps| == |SectionOrder|
    ensures forall k :: 0 <= k < |steps| ==> steps[k] == ProcessVariable(data, SectionOrder[k], year, month)
  {
    seq(|SectionOrder|, k requires 0 <= k < |SectionOrder| => ProcessVariable(data, SectionOrder[k], year, month))
  }

  /** The three steps of `main` one by one. */
  lemma StepsOfMain(data: string, year: string, month: string)
    ensures MainSteps(data, year, month) == [ProcessVariable(data, Temperature, year, month),
      ProcessVariable(data, DewPoint, year, month), ProcessVariable(data, Humidity, year, month)]
  {
    var steps := MainSteps(data, year, month);
    assert steps[0] == ProcessVariable(data, Temperature, year, month);
    assert steps[1] == ProcessVariable(data, DewPoint, year, month);
    assert steps[2] == ProcessVariable(data, Humidity, year, month);
    SeqOfThree(steps, steps[0], steps[1], steps[2]);
  }

  /**
   * `main(rawdata_path, outdir_path)` on a report named `fileName` holding
   * `data`: each variable is processed on its own, in the order of
   * `SECTION_INDEX`, until one raises.
   */
  method RunTransform(fileName: string, data: string) returns (out: RunResult)
    ensures var ym := YearMonth(Stem(fileName));
      out == RunInOrder(MainSteps(data, ym.0, ym.1))
  {
    var ym := YearMonth(Stem(fileName));
    var year, month := ym.0, ym.1;
    ghost var steps := MainSteps(data, year, month);
    var events: seq<Event> := [];
    for k := 0 to |SectionOrder|
      invariant |events| == k
      invariant forall j :: 0 <= j < k ==> steps[j] == Ok(events[j])
    {
      var step := ProcessVariable(data, SectionOrder[k], year, month);
      assert step == steps[k];
      match step {
        case Err(f) =>
          RunStopsAt(steps, k, events, f);
          return RunResult(events, Some(f));
        case Ok(e) =>
          events := events + [e];
      }
    }
    RunCompletes(steps, events);
    return RunResult(events, None);
  }

  /** A run whose first `k` steps succeed and whose step `k` fails reports those events and that fault. */
  lemma RunStopsAt(steps: seq<Result<Event, Fault>>, k: nat, events: seq<Event>, f: Fault)
    requires k < |steps| && |events| == k && steps[k] == Err(f)
    requires forall j :: 0 <= j < k ==> steps[j] == Ok(events[j])
    ensures RunInOrder(steps) == RunResult(events, Some(f))
  {
    RunInOrderPrefix(steps, k, events);
    assert steps[k..][0] == Err(f);
    assert events + [] == events;
  }

  /** A run whose every step succeeds reports all their events. */
  lemma RunCompletes(steps: seq<Result<Event, Fault>>, events: seq<Event>)
    requires |events| == |steps|
    requires forall j :: 0 <= j < |steps| ==> steps[j] == Ok(events[j])
    ensures RunInOrder(steps) == RunResult(events, None)
  {
    RunInOrderPrefix(steps, |steps|, events);
    assert steps[|steps|..] == [];
    assert events + [] == events;
  }

  /** A run of `main` never stops on a missing table. */
  lemma MainNoIndexError(data: string, year: string, month: string)
    ensures RunInOrder(MainSteps(data, year, month)).fault != Some(IndexOutOfRange)
  {
    var steps := MainSteps(data, year, month);
    forall k | 0 <= k < |steps| ensures steps[k] != Err(IndexOutOfRange) {
      NoIndexError(data, SectionOrder[k], year, month);
    }
    NoStepFault(steps, IndexOutOfRange);
  }

  /** A fault that no step raises is not the fault a run stops on. */
  lemma NoStepFault(steps: seq<Result<Event, Fault>>, f: Fault)
    requires forall k :: 0 <= k < |steps| ==> steps[k] != Err(f)
    ensures RunInOrder(steps).fault != Some(f)
  {
    RunInOrderSpec(steps);
  }
}
