/**
 * The older copy of the extractor, `water-leak-2024-2025/scripts/transform.py`:
 * a script whose module level runs three blocks one after the other, for the
 * humidity, temperature and dew-point tables.  Each block runs the same
 * findall and the same line loop as the current extractor.  Two things
 * differ.  The year and month come from the file name with every ".txt"
 * removed, not from its stem.  And each block only checks that findall
 * returned something before it indexes the list, so a report with one or
 * two tables raises an `IndexError` in the very first (humidity) block.
 */
module LegacyTransform {
  import opened Wrappers
  import opened Text
  import opened Pattern
  import opened Transform

  // ---------------------------------------------------------------- file name

  /** Python's `s.replace(pat, '')`: occurrences are removed left to right, without overlap. */
  function RemoveAll(s: string, pat: string): (r: string)
    requires |pat| > 0
    ensures |r| <= |s|
    decreases |s|
  {
    if |s| < |pat| then s
    else if s[..|pat|] == pat then RemoveAll(s[|pat|..], pat)
    else [s[0]] + RemoveAll(s[1..], pat)
  }

  /** Removing occurrences adds no character: every character left was in `s`, as often at least. */
  lemma {:induction false} RemoveAllAddsNothing(s: string, pat: string)
    requires |pat| > 0
    ensures multiset(RemoveAll(s, pat)) <= multiset(s)
    decreases |s|
  {
    if |s| >= |pat| {
      if s[..|pat|] == pat {
        RemoveAllAddsNothing(s[|pat|..], pat);
        assert s == s[..|pat|] + s[|pat|..];
      } else {
        RemoveAllAddsNothing(s[1..], pat);
        assert s == [s[0]] + s[1..];
      }
    }
  }

  /** `pat` occurs in `s` at position `i`. */
  predicate OccursAt(s: string, pat: string, i: nat)
  {
    i + |pat| <= |s| && s[i..i + |pat|] == pat
  }

  /** `pat` does not occur anywhere in `s`. */
  predicate NoOccurrence(s: string, pat: string)
  {
    forall i: nat :: i <= |s| ==> !OccursAt(s, pat, i)
  }

  /** A tail of a string without `pat` is without `pat` too. */
  lemma NoOccurrenceTail(s: string, pat: string)
    requires |s| > 0 && NoOccurrence(s, pat)
    ensures NoOccurrence(s[1..], pat)
  {
    forall i: nat | i <= |s| - 1
      ensures !OccursAt(s[1..], pat, i)
    {
      assert !OccursAt(s, pat, i + 1);
      if i + |pat| <= |s| - 1 {
        assert s[1..][i..i + |pat|] == s[i + 1..i + 1 + |pat|];
      }
    }
  }

  /** Removing a text that does not occur changes nothing. */
  lemma {:induction false} RemoveAllAbsent(s: string, pat: string)
    requires |pat| > 0 && NoOccurrence(s, pat)
    ensures RemoveAll(s, pat) == s
    decreases |s|
  {
    if |s| >= |pat| {
      assert !OccursAt(s, pat, 0);
      assert s[..|pat|] == s[0..|pat|];
      NoOccurrenceTail(s, pat);
      RemoveAllAbsent(s[1..], pat);
      assert [s[0]] + s[1..] == s;
    }
  }

  /**
   * ".txt" cannot overlap itself, so in `s + ".txt"` with no ".txt" in `s`
   * the only occurrence is the suffix, and removing it gives `s` back.
   */
  lemma {:induction false} RemoveTxtSuffix(s: string, pat: string)
    requires pat == ".txt" && NoOccurrence(s, pat)
    ensures RemoveAll(s + pat, pat) == s
    decreases |s|
  {
    var t := s + pat;
    if |s| == 0 {
      assert t == pat && t[|pat|..] == [];
    } else {
      SuffixNotAtStart(s, pat);
      NoOccurrenceTail(s, pat);
      RemoveTxtSuffix(s[1..], pat);
      assert t[1..] == s[1..] + pat;
      assert [s[0]] + s[1..] == s;
    }
  }

  /** In `s + ".txt"`, with `s` non-empty and free of ".txt", the text does not start with ".txt". */
  lemma SuffixNotAtStart(s: string, pat: string)
    requires pat == ".txt" && |s| > 0 && NoOccurrence(s, pat)
    ensures (s + pat)[..|pat|] != pat
  {
    var t := s + pat;
    if |s| >= |pat| {
      assert !OccursAt(s, pat, 0);
      assert t[..|pat|] == s[0..|pat|];
    } else {
      assert t[..|pat|][|s|] == pat[0] == '.';
      assert pat[|s|] != '.';
    }
  }

  /** On a name `s + ".txt"` with no other ".txt" in it, the legacy stem is the stem of the current extractor. */
  lemma LegacyStemAgrees(s: string, pat: string)
    requires pat == ".txt" && |s| > 0 && NoOccurrence(s, pat)
    ensures RemoveAll(s + pat, pat) == Stem(s + pat) == s
  {
    RemoveTxtSuffix(s, pat);
    StemOfTxt(s);
  }

  /**
   * Where the two copies disagree: "a.txt.txt" loses both suffixes in the
   * legacy script but only the last in the current one.
   */
  lemma DoubleSuffix(s: string, pat: string)
    requires s == "a" && pat == ".txt"
    ensures RemoveAll(s + pat + pat, pat) == s
    ensures Stem(s + pat + pat) == s + pat
  {
    var t := s + pat + pat;
    assert t[..|pat|][1] == '.' != pat[1];
    assert t[1..] == pat + pat;
    assert (pat + pat)[..|pat|] == pat && (pat + pat)[|pat|..] == pat;
    assert pat[..|pat|] == pat && pat[|pat|..] == [];
    assert RemoveAll(pat, pat) == RemoveAll([], pat) == [];
    assert RemoveAll(pat + pat, pat) == [];
    assert RemoveAll(t, pat) == [s[0]] + RemoveAll(t[1..], pat);
    assert [s[0]] == s;
    assert s + pat + pat == (s + pat) + pat;
    StemOfTxt(s + pat);
  }

  // ---------------------------------------------------------------- one block

  /** The order of the script's blocks. */
  const BlockOrder: seq<Variable> := [Humidity, Temperature, DewPoint]

  /**
   * One block of the script: "not found" when findall returned nothing; an
   * `IndexError` when it returned no more tables than the block's index;
   * otherwise the table at that index, extracted and saved.
   */
  function LegacyBlock(data: string, v: Variable, year: string, month: string): Result<Event, Fault>
  {
    var matches := FindAll(data);
    var index := SectionIndex(v);
    if |matches| == 0 then Ok(NotFound(v))
    else if |matches| <= index then Err(IndexOutOfRange)
    else
      match Extract(SectionLines(matches[index]), year, month)
      case Ok(frame) => Ok(Saved(OutputName(v, year, month), frame))
      case Err(f) => Err(f)
  }

  /**
   * A block agrees with `process_variable` except when findall returned at
   * least one table but no more than the block's index, and exactly then it
   * raises an `IndexError`.
   */
  lemma LegacyBlockSpec(data: string, v: Variable, year: string, month: string)
    ensures var n := |FindAll(data)|;
      (LegacyBlock(data, v, year, month) == Err(IndexOutOfRange) <==> 0 < n <= SectionIndex(v))
      && (!(0 < n <= SectionIndex(v)) ==> LegacyBlock(data, v, year, month) == ProcessVariable(data, v, year, month))
  {
    var matches := FindAll(data);
    var index := SectionIndex(v);
    if |matches| > index {
      ExtractFaults(SectionLines(matches[index]), year, month);
    }
  }

  /** The temperature block takes the first table, which is there whenever findall returned any. */
  lemma TemperatureBlockNoIndexError(data: string, year: string, month: string)
    ensures LegacyBlock(data, Temperature, year, month) != Err(IndexOutOfRange)
  {
    LegacyBlockSpec(data, Temperature, year, month);
  }

  /** One block, run as the script runs it: findall, the guard, the index, then the line loop. */
  method RunBlock(data: string, v: Variable, year: string, month: string) returns (r: Result<Event, Fault>)
    ensures r == LegacyBlock(data, v, year, month)
  {
    var matches := FindAll(data);
    var index := SectionIndex(v);
    if |matches| == 0 {
      return Ok(NotFound(v));
    }
    if |matches| <= index {
      return Err(IndexOutOfRange);
    }
    var extracted := ExtractSectionData(SectionLines(matches[index]), year, month);
    match extracted {
      case Ok(frame) => r := Ok(Saved(OutputName(v, year, month), frame));
      case Err(f) => r := Err(f);
    }
  }

  // ---------------------------------------------------------------- the script

  /** The outcomes of the three blocks, in the script's order. */
  function LegacySteps(data: string, year: string, month: string): (steps: seq<Result<Event, Fault>>)
    ensures |steps| == |BlockOrder|
    ensures forall k :: 0 <= k < |steps| ==> steps[k] == LegacyBlock(data, BlockOrder[k], year, month)
  {
    seq(|BlockOrder|, k requires 0 <= k < |BlockOrder| => LegacyBlock(data, BlockOrder[k], year, month))
  }

  /** The three steps one by one. */
  lemma StepsOfScript(data: string, year: string, month: string)
    ensures LegacySteps(data, year, month) == [LegacyBlock(data, Humidity, year, month),
      LegacyBlock(data, Temperature, year, month), LegacyBlock(data, DewPoint, year, month)]
  {
    var steps := LegacySteps(data, year, month);
    assert steps[0] == LegacyBlock(data, Humidity, year, month);
    assert steps[1] == LegacyBlock(data, Temperature, year, month);
    assert steps[2] == LegacyBlock(data, DewPoint, year, month);
    SeqOfThree(steps, steps[0], steps[1], steps[2]);
  }

  /**
   * The script on a report named `fileName` holding `data`: the three blocks
   * run in order until one raises.
   */
  method RunLegacyScript(fileName: string, data: string) returns (out: RunResult)
    ensures var ym := YearMonth(RemoveAll(fileName, ".txt"));
      out == RunInOrder(LegacySteps(data, ym.0, ym.1))
  {
    var ym := YearMonth(RemoveAll(fileName, ".txt"));
    var year, month := ym.0, ym.1;
    ghost var steps := LegacySteps(data, year, month);
    StepsOfScript(data, year, month);
    RunOfThree(steps[0], steps[1], steps[2]);
    var humidity := RunBlock(data, Humidity, year, month);
    if humidity.Err? {
      return RunResult([], Some(humidity.error));
    }
    var temperature := RunBlock(data, Temperature, year, month);
    if temperature.Err? {
      return RunResult([humidity.value], Some(temperature.error));
    }
    var dewPoint := RunBlock(data, DewPoint, year, month);
    if dewPoint.Err? {
      return RunResult([humidity.value, temperature.value], Some(dewPoint.error));
    }
    return RunResult([humidity.value, temperature.value, dewPoint.value], None);
  }

  // ---------------------------------------------------------------- what the script does

  /** A report without tables: all three blocks report "not found". */
  lemma NoTables(data: string, year: string, month: string)
    requires |FindAll(data)| == 0
    ensures RunInOrder(LegacySteps(data, year, month))
      == RunResult([NotFound(Humidity), NotFound(Temperature), NotFound(DewPoint)], None)
  {
    StepsOfScript(data, year, month);
    var steps := LegacySteps(data, year, month);
    RunOfThree(steps[0], steps[1], steps[2]);
  }

  /** A report with one or two tables: the humidity block raises and nothing is written. */
  lemma FewTablesAbort(data: string, year: string, month: string)
    requires 0 < |FindAll(data)| <= 2
    ensures RunInOrder(LegacySteps(data, year, month)) == RunResult([], Some(IndexOutOfRange))
  {
    var steps := LegacySteps(data, year, month);
    assert steps[0] == Err(IndexOutOfRange);
  }

  /** With all three tables, the script makes the same three steps as `main`, humidity first. */
  lemma ThreeTablesAgree(data: string, year: string, month: string)
    requires |FindAll(data)| >= 3
    ensures var main := MainSteps(data, year, month);
      LegacySteps(data, year, month) == [main[2], main[0], main[1]]
  {
    var legacy, main := LegacySteps(data, year, month), MainSteps(data, year, month);
    assert legacy[0] == main[2] by {
      LegacyBlockSpec(data, Humidity, year, month);
    }
    assert legacy[1] == main[0] by {
      LegacyBlockSpec(data, Temperature, year, month);
    }
    assert legacy[2] == main[1] by {
      LegacyBlockSpec(data, DewPoint, year, month);
    }
    SeqOfThree(legacy, main[2], main[0], main[1]);
  }
}
