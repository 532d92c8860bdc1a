/**
 * The exact part of `scripts/plot.py`: loading one variable's series from the
 * monthly CSV files (concatenated, then sorted by date), and the integer
 * signals derived from the daily `min`/`max` columns: the condensation gap,
 * the dew excess and the dew excess over a temperature floored at 19.
 *
 * A column of a data frame is modelled as a map from dates to values.  Pandas
 * aligns two series on their dates before it subtracts them; a date present
 * in only one of them gives NaN, modelled as `None`.
 */
module Plot {
  import opened Wrappers
  import opened Numeric
  import opened Transform

  // ---------------------------------------------------------------- rows

  /** A parsed `date` index entry. */
  datatype Date = Date(year: int, month: int, day: int)

  /** Chronological order on dates. */
  predicate DateLe(a: Date, b: Date)
  {
    a.year < b.year
    || (a.year == b.year && (a.month < b.month || (a.month == b.month && a.day <= b.day)))
  }

  /** `DateLe` is a total preorder. */
  lemma DateLeTotal(a: Date, b: Date, c: Date)
    ensures DateLe(a, b) || DateLe(b, a)
    ensures DateLe(a, b) && DateLe(b, c) ==> DateLe(a, c)
    ensures DateLe(a, b) && DateLe(b, a) ==> a == b
  {
  }

  /** A row of a cleaned CSV file, indexed by its date. */
  datatype Row = Row(date: Date, max: int, avg: Decimal, min: int)

  /** A file of the cleaned directory: its name and its rows. */
  datatype CsvFile = CsvFile(name: string, rows: seq<Row>)

  // ---------------------------------------------------------------- concat

  /** `pd.concat(dfs)`: the tables one after the other. */
  function Concat(tables: seq<seq<Row>>): seq<Row>
  {
    if |tables| == 0 then [] else tables[0] + Concat(tables[1..])
  }

  function TotalLength(tables: seq<seq<Row>>): nat
  {
    if |tables| == 0 then 0 else |tables[0]| + TotalLength(tables[1..])
  }

  /** The concatenation is as long as all the tables together. */
  lemma {:induction false} ConcatLength(tables: seq<seq<Row>>)
    ensures |Concat(tables)| == TotalLength(tables)
  {
    if |tables| > 0 {
      ConcatLength(tables[1..]);
    }
  }

  // ---------------------------------------------------------------- sort_index

  predicate SortedByDate(rows: seq<Row>)
  {
    forall i, j :: 0 <= i < j < |rows| ==> DateLe(rows[i].date, rows[j].date)
  }

  /** Puts `r` before the first row dated after it. */
  function Insert(r: Row, rows: seq<Row>): seq<Row>
  {
    if |rows| == 0 then [r]
    else if DateLe(r.date, rows[0].date) then [r] + rows
    else [rows[0]] + Insert(r, rows[1..])
  }

  /** `sort_index()`: insertion by date (the order of rows with equal dates is not specified by pandas). */
  function SortByDate(rows: seq<Row>): seq<Row>
  {
    if |rows| == 0 then [] else Insert(rows[0], SortByDate(rows[1..]))
  }

  /** Insertion keeps the rows and adds `r`. */
  lemma {:induction false} InsertPermutation(r: Row, rows: seq<Row>)
    ensures multiset(Insert(r, rows)) == multiset(rows) + multiset{r}
  {
    if |rows| > 0 && !DateLe(r.date, rows[0].date) {
      InsertPermutation(r, rows[1..]);
      assert rows == [rows[0]] + rows[1..];
    }
  }

  /** The first row of an insertion is `r` or the first row of `rows`. */
  lemma InsertHead(r: Row, rows: seq<Row>)
    ensures |Insert(r, rows)| == |rows| + 1
    ensures Insert(r, rows)[0] == r || (|rows| > 0 && Insert(r, rows)[0] == rows[0])
  {
    if |rows| > 0 && !DateLe(r.date, rows[0].date) {
      assert Insert(r, rows) == [rows[0]] + Insert(r, rows[1..]);
    }
  }

  /** Insertion into sorted rows leaves them sorted. */
  lemma {:induction false} InsertSorted(r: Row, rows: seq<Row>)
    requires SortedByDate(rows)
    ensures SortedByDate(Insert(r, rows))
  {
    if |rows| > 0 && !DateLe(r.date, rows[0].date) {
      var tail := rows[1..];
      InsertSorted(r, tail);
      InsertHead(r, tail);
      var t := Insert(r, rows);
      var u := Insert(r, tail);
      assert t == [rows[0]] + u;
      forall i, j | 0 <= i < j < |t| ensures DateLe(t[i].date, t[j].date) {
        if i == 0 {
          InsertPermutation(r, tail);
          assert t[j] in multiset(u);
          assert t[j] == r || t[j] in tail;
          if t[j] != r {
            var k :| 0 <= k < |tail| && tail[k] == t[j];
            assert rows[k + 1] == t[j];
          }
        } else {
          assert t[i] == u[i - 1] && t[j] == u[j - 1];
        }
      }
    }
  }

  /** The sort is sorted by date and a permutation of its input. */
  lemma {:induction false} SortByDateSpec(rows: seq<Row>)
    ensures SortedByDate(SortByDate(rows))
    ensures multiset(SortByDate(rows)) == multiset(rows)
  {
    if |rows| > 0 {
      SortByDateSpec(rows[1..]);
      InsertSorted(rows[0], SortByDate(rows[1..]));
      InsertPermutation(rows[0], SortByDate(rows[1..]));
      assert rows == [rows[0]] + rows[1..];
    }
  }

  // ---------------------------------------------------------------- read_variable_series

  /** The glob `{var}_*.csv`. */
  predicate IsSeriesFile(name: string, v: Variable)
  {
    var prefix := VariableName(v) + "_";
    |name| >= |prefix| + 4 && name[..|prefix|] == prefix && name[|name| - 4..] == ".csv"
  }

  /** The tables of the files the glob selects, in directory order. */
  function SeriesTables(dir: seq<CsvFile>, v: Variable): (tables: seq<seq<Row>>)
    ensures |tables| <= |dir|
  {
    if |dir| == 0 then []
    else if IsSeriesFile(dir[0].name, v) then [dir[0].rows] + SeriesTables(dir[1..], v)
    else SeriesTables(dir[1..], v)
  }

  /** No table is selected exactly when no file of the directory matches the glob. */
  lemma {:induction false} SeriesTablesEmpty(dir: seq<CsvFile>, v: Variable)
    ensures |SeriesTables(dir, v)| == 0 <==> forall i :: 0 <= i < |dir| ==> !IsSeriesFile(dir[i].name, v)
  {
    if |dir| > 0 {
      SeriesTablesEmpty(dir[1..], v);
      assert forall i :: 1 <= i < |dir| ==> dir[1..][i - 1] == dir[i];
    }
  }

  /**
   * `df` of `read_variable_series(cleaned_dir, var)`: the selected tables
   * concatenated and sorted by date.  `pd.concat` of an empty list raises, so
   * a directory without a matching file gives `None`.
   */
  function ReadVariableSeries(dir: seq<CsvFile>, v: Variable): Option<seq<Row>>
  {
    var tables := SeriesTables(dir, v);
    if |tables| == 0 then None else Some(SortByDate(Concat(tables)))
  }

  /**
   * Loading fails exactly when no file matches the glob; otherwise the loaded
   * series is sorted by date, is a permutation of the rows of the selected
   * files, and has as many rows as they have together.
   */
  lemma ReadVariableSeriesSpec(dir: seq<CsvFile>, v: Variable)
    ensures ReadVariableSeries(dir, v).None? <==> forall i :: 0 <= i < |dir| ==> !IsSeriesFile(dir[i].name, v)
    ensures ReadVariableSeries(dir, v).Some? ==>
      var df := ReadVariableSeries(dir, v).value;
      var tables := SeriesTables(dir, v);
      SortedByDate(df) && multiset(df) == multiset(Concat(tables)) && |df| == TotalLength(tables)
  {
    SeriesTablesEmpty(dir, v);
    var all := Concat(SeriesTables(dir, v));
    SortByDateSpec(all);
    ConcatLength(SeriesTables(dir, v));
    assert |multiset(SortByDate(all))| == |multiset(all)|;
  }

  /** The glob for `v` selects the files the extractor writes for `v` and for no other variable. */
  lemma SeriesFileOfOutput(v: Variable, w: Variable, year: string, month: string)
    ensures IsSeriesFile(OutputName(w, year, month), v) <==> v == w
  {
    var name := OutputName(w, year, month);
    var prefix := VariableName(v) + "_";
    var own := VariableName(w) + "_";
    assert name == own + (year + "_" + month + ".csv");
    assert name[|name| - 4..] == ".csv";
    if v == w {
      assert name[..|prefix|] == prefix;
    } else if |name| >= |prefix| {
      assert name[..|prefix|][0] == name[0] == own[0];
      assert own[0] != prefix[0];
    }
  }

  // ---------------------------------------------------------------- columns

  /** A daily column: `df['min']` or `df['max']`. */
  datatype Field = Max | Min

  function FieldValue(r: Row, f: Field): int
  {
    match f
    case Max => r.max
    case Min => r.min
  }

  /** The column `f` of `rows` as a series indexed by date (a later row overrides an earlier one with the same date). */
  function Column(rows: seq<Row>, f: Field): map<Date, int>
  {
    if |rows| == 0 then map[]
    else
      var last := rows[|rows| - 1];
      Column(rows[..|rows| - 1], f)[last.date := FieldValue(last, f)]
  }

  /** The dates of the rows. */
  function Dates(rows: seq<Row>): set<Date>
  {
    set i | 0 <= i < |rows| :: rows[i].date
  }

  /** No two rows share a date. */
  predicate DistinctDates(rows: seq<Row>)
  {
    forall i, j :: 0 <= i < j < |rows| ==> rows[i].date != rows[j].date
  }

  /** The dates of the column are the dates of the rows, and with distinct dates each row's value is kept. */
  lemma {:induction false} ColumnSpec(rows: seq<Row>, f: Field)
    ensures Column(rows, f).Keys == Dates(rows)
    ensures DistinctDates(rows) ==>
      forall i :: 0 <= i < |rows| ==> Column(rows, f)[rows[i].date] == FieldValue(rows[i], f)
  {
    if |rows| > 0 {
      var init := rows[..|rows| - 1];
      ColumnSpec(init, f);
      assert forall i :: 0 <= i < |init| ==> init[i] == rows[i];
      assert Dates(rows) == Dates(init) + {rows[|rows| - 1].date} by {
        forall d | d in Dates(rows)
          ensures d in Dates(init) + {rows[|rows| - 1].date}
        {
          var i :| 0 <= i < |rows| && rows[i].date == d;
          if i < |init| { assert init[i].date == d; }
        }
      }
    }
  }

  // ---------------------------------------------------------------- pointwise signals

  /** `temp_df['min'] - dew_df['max']` on one date: the condensation gap. */
  function Gap(tmin: int, dewMax: int): int
  {
    tmin - dewMax
  }

  /** `np.maximum(0, dew - temp)` on one date. */
  function DewExcess(dew: int, temp: int): int
  {
    if dew - temp > 0 then dew - temp else 0
  }

  /** The excess is never negative, is zero exactly when the dew point does not exceed the temperature, and is the difference otherwise. */
  lemma DewExcessSpec(dew: int, temp: int)
    ensures DewExcess(dew, temp) >= 0
    ensures DewExcess(dew, temp) == 0 <==> dew <= temp
    ensures dew > temp ==> DewExcess(dew, temp) == dew - temp
  {
  }

  /** The excess is the gap, negated and clipped at zero. */
  lemma ExcessOfGap(dewMax: int, tmin: int)
    ensures DewExcess(dewMax, tmin) == (if -Gap(tmin, dewMax) > 0 then -Gap(tmin, dewMax) else 0)
  {
  }

  /** The floor of the capped plot. */
  const Floor: int := 19

  /** `capped_temp[capped_temp < 19] = 19` on one value. */
  function CappedTemperature(t: int): int
  {
    if t < Floor then Floor else t
  }

  /** The capped temperature is at least 19, and is the temperature wherever that is already at least 19. */
  lemma CappedTemperatureSpec(t: int)
    ensures CappedTemperature(t) >= Floor
    ensures t >= Floor ==> CappedTemperature(t) == t
    ensures CappedTemperature(t) >= t
  {
  }

  /** `np.maximum(0, dew_df['min'] - capped_temp)` on one date. */
  function CappedExcess(dewMin: int, tmin: int): int
  {
    DewExcess(dewMin, CappedTemperature(tmin))
  }

  /** The capped excess is no more than the uncapped one for the same dew series, and is zero whenever the dew point is at most 19. */
  lemma CappedExcessSpec(dewMin: int, tmin: int)
    ensures 0 <= CappedExcess(dewMin, tmin) <= DewExcess(dewMin, tmin)
    ensures dewMin <= Floor ==> CappedExcess(dewMin, tmin) == 0
  {
    CappedTemperatureSpec(tmin);
    DewExcessSpec(dewMin, CappedTemperature(tmin));
  }

  // ---------------------------------------------------------------- aligned series

  /** `merged['delta'] = temp_df['min'] - dew_df['max']` on the index of `temp_df`. */
  function GapSeries(tmin: map<Date, int>, dewMax: map<Date, int>): map<Date, Option<int>>
  {
    map d | d in tmin :: if d in dewMax then Some(Gap(tmin[d], dewMax[d])) else None
  }

  /** `np.maximum(0, dew - temp)` on two aligned series: the union of their dates, NaN where one is missing. */
  function ExcessSeries(dew: map<Date, int>, temp: map<Date, int>): map<Date, Option<int>>
  {
    map d | d in dew.Keys + temp.Keys ::
      if d in dew && d in temp then Some(DewExcess(dew[d], temp[d])) else None
  }

  /** `capped_temp` after the masked assignment. */
  function CappedSeries(tmin: map<Date, int>): map<Date, int>
  {
    map d | d in tmin :: CappedTemperature(tmin[d])
  }

  /** On the temperature's dates, the excess series is the gap series negated and clipped at zero. */
  lemma ExcessSeriesOfGap(tmin: map<Date, int>, dewMax: map<Date, int>)
    ensures forall d :: d in tmin ==>
      ExcessSeries(dewMax, tmin)[d]
        == (match GapSeries(tmin, dewMax)[d]
            case None => None
            case Some(g) => Some(if -g > 0 then -g else 0))
  {
    forall d | d in tmin
      ensures ExcessSeries(dewMax, tmin)[d]
        == (match GapSeries(tmin, dewMax)[d]
            case None => None
            case Some(g) => Some(if -g > 0 then -g else 0))
    {
      if d in dewMax {
        ExcessOfGap(dewMax[d], tmin[d]);
      }
    }
  }

  /**
   * The capped excess series has the dates of the uncapped one, is NaN at the
   * same dates, and elsewhere is no larger, and zero where the dew point is
   * at most 19.
   */
  lemma CappedExcessSeriesSpec(dewMin: map<Date, int>, tmin: map<Date, int>)
    ensures var capped := ExcessSeries(dewMin, CappedSeries(tmin));
      var plain := ExcessSeries(dewMin, tmin);
      capped.Keys == plain.Keys
      && (forall d :: d in capped ==> (capped[d].None? <==> plain[d].None?))
      && (forall d :: d in capped && capped[d].Some? ==>
            capped[d].value == CappedExcess(dewMin[d], tmin[d])
            && 0 <= capped[d].value <= plain[d].value
            && (dewMin[d] <= Floor ==> capped[d].value == 0))
  {
    var capped := ExcessSeries(dewMin, CappedSeries(tmin));
    assert CappedSeries(tmin).Keys == tmin.Keys;
    forall d | d in capped && capped[d].Some?
      ensures capped[d].value == CappedExcess(dewMin[d], tmin[d])
      ensures 0 <= capped[d].value <= ExcessSeries(dewMin, tmin)[d].value
      ensures dewMin[d] <= Floor ==> capped[d].value == 0
    {
      CappedExcessSpec(dewMin[d], tmin[d]);
    }
  }

  // ---------------------------------------------------------------- the signals of two frames

  /** `merged['delta']` of `plot_condensation_probability(temp_df, dew_df)`: daily minimum temperature less daily maximum dew point. */
  function CondensationGap(temp: seq<Row>, dew: seq<Row>): map<Date, Option<int>>
  {
    GapSeries(Column(temp, Min), Column(dew, Max))
  }

  /** `excess` of `plot_excess_dew_vs_tmin(temp_df, dew_df)`: the daily maximum dew point over the daily minimum temperature. */
  function ExcessOfFrames(temp: seq<Row>, dew: seq<Row>): map<Date, Option<int>>
  {
    ExcessSeries(Column(dew, Max), Column(temp, Min))
  }

  /** `excess` of `plot_capped_excess_dew_vs_tmin(temp_df, dew_df)`: the daily MINIMUM dew point over the floored minimum temperature. */
  function CappedExcessOfFrames(temp: seq<Row>, dew: seq<Row>): map<Date, Option<int>>
  {
    ExcessSeries(Column(dew, Min), CappedSeries(Column(temp, Min)))
  }

  /**
   * The gap is indexed by the temperature frame's dates, is missing exactly
   * on the dates the dew frame lacks, and with distinct dates is the
   * difference of the two rows of the same date.
   */
  lemma CondensationGapSpec(temp: seq<Row>, dew: seq<Row>)
    ensures CondensationGap(temp, dew).Keys == Dates(temp)
    ensures forall d :: d in Dates(temp) ==> (CondensationGap(temp, dew)[d].Some? <==> d in Dates(dew))
    ensures DistinctDates(temp) && DistinctDates(dew) ==>
      forall i, j :: 0 <= i < |temp| && 0 <= j < |dew| && temp[i].date == dew[j].date ==>
        CondensationGap(temp, dew)[temp[i].date] == Some(temp[i].min - dew[j].max)
  {
    ColumnSpec(temp, Min);
    ColumnSpec(dew, Max);
  }

  /** On the gap's dates (the temperature frame's, by `CondensationGapSpec`), the excess is the condensation gap negated and clipped at zero. */
  lemma ExcessOfFramesGap(temp: seq<Row>, dew: seq<Row>)
    ensures forall d :: d in CondensationGap(temp, dew) ==>
      ExcessOfFrames(temp, dew)[d]
        == (match CondensationGap(temp, dew)[d]
            case None => None
            case Some(g) => Some(if -g > 0 then -g else 0))
  {
    ExcessSeriesOfGap(Column(temp, Min), Column(dew, Max));
  }

  /** Where every dew row has its minimum at most its maximum, so does the dew frame's column. */
  lemma {:induction false} ColumnMinLeMax(rows: seq<Row>)
    requires forall i :: 0 <= i < |rows| ==> rows[i].min <= rows[i].max
    ensures Column(rows, Min).Keys == Column(rows, Max).Keys
    ensures forall d :: d in Column(rows, Min) ==> Column(rows, Min)[d] <= Column(rows, Max)[d]
  {
    if |rows| > 0 {
      ColumnMinLeMax(rows[..|rows| - 1]);
    }
  }

  /**
   * The capped plot is defined on the dates both frames have, and there it
   * is never negative, is zero where the dew point never exceeds 19, and,
   * when every dew row's minimum is at most its maximum, is no larger than the
   * uncapped excess of the same date.
   */
  lemma CappedExcessOfFramesSpec(temp: seq<Row>, dew: seq<Row>)
    ensures forall d :: d in CappedExcessOfFrames(temp, dew) ==>
      (CappedExcessOfFrames(temp, dew)[d].Some? <==> d in Dates(temp) && d in Dates(dew))
    ensures forall d :: d in CappedExcessOfFrames(temp, dew) && CappedExcessOfFrames(temp, dew)[d].Some? ==>
      var x := CappedExcessOfFrames(temp, dew)[d].value;
      x >= 0
      && (Column(dew, Min)[d] <= Floor ==> x == 0)
      && ((forall i :: 0 <= i < |dew| ==> dew[i].min <= dew[i].max) ==>
            ExcessOfFrames(temp, dew)[d].Some? && x <= ExcessOfFrames(temp, dew)[d].value)
  {
    var tmin := Column(temp, Min);
    ColumnSpec(temp, Min);
    ColumnSpec(dew, Min);
    ColumnSpec(dew, Max);
    CappedExcessSeriesSpec(Column(dew, Min), tmin);
    var capped := CappedExcessOfFrames(temp, dew);
    if forall i :: 0 <= i < |dew| ==> dew[i].min <= dew[i].max {
      ColumnMinLeMax(dew);
      forall d | d in capped && capped[d].Some?
        ensures capped[d].value <= ExcessOfFrames(temp, dew)[d].value
      {
        DewExcessMonotone(Column(dew, Min)[d], Column(dew, Max)[d], tmin[d]);
      }
    }
  }

  /** A larger dew point never gives a smaller excess. */
  lemma DewExcessMonotone(a: int, b: int, temp: int)
    requires a <= b
    ensures DewExcess(a, temp) <= DewExcess(b, temp)
  {
  }

  // ---------------------------------------------------------------- the masked assignment

  /** The values of `capped_temp`, in index order. */
  function CappedValues(s: seq<int>): (r: seq<int>)
    ensures |r| == |s|
  {
    seq(|s|, i requires 0 <= i < |s| => CappedTemperature(s[i]))
  }

  /** Every capped value is at least 19 and equals the original wherever that was at least 19. */
  lemma CappedValuesSpec(s: seq<int>)
    ensures forall i :: 0 <= i < |s| ==> CappedValues(s)[i] >= Floor
    ensures forall i :: 0 <= i < |s| && s[i] >= Floor ==> CappedValues(s)[i] == s[i]
  {
  }

  /**
   * `capped_temp = temp_df['min'].copy()` then `capped_temp[capped_temp < 19] = 19`:
   * the floor is written into a fresh copy, so the original column keeps its values.
   */
  method CapMinimum(tmin: array<int>) returns (capped: array<int>)
    ensures fresh(capped)
    ensures capped[..] == CappedValues(tmin[..])
    ensures tmin[..] == old(tmin[..])
  {
    capped := new int[tmin.Length];
    for i := 0 to tmin.Length
      invariant capped[..i] == tmin[..i]
    {
      capped[i] := tmin[i];
    }
    assert capped[..] == tmin[..];
    for i := 0 to capped.Length
      invariant forall j :: 0 <= j < i ==> capped[j] == CappedTemperature(tmin[j])
      invariant forall j :: i <= j < capped.Length ==> capped[j] == tmin[j]
    {
      if capped[i] < Floor {
        capped[i] := Floor;
      }
    }
  }

  /**
   * The values the in-place loop computes are the capped series read back at
   * each row's date: with distinct dates, position `i` of the capped copy of
   * the minima is the capped series at `rows[i].date`.
   */
  lemma CappedSeriesValues(rows: seq<Row>, s: seq<int>)
    requires |s| == |rows| && forall i :: 0 <= i < |s| ==> s[i] == rows[i].min
    ensures DistinctDates(rows) ==>
      forall i :: 0 <= i < |rows| ==>
        rows[i].date in CappedSeries(Column(rows, Min))
        && CappedSeries(Column(rows, Min))[rows[i].date] == CappedValues(s)[i]
  {
    ColumnSpec(rows, Min);
    assert forall i :: 0 <= i < |rows| ==> rows[i].date in Dates(rows);
  }
}
