/**
 * go_single_thread_arrays.go and go_single_thread_arrays_64bit_ints.go: the cursor loop
 * that measures the newline from the `;` and runs a bounded digit loop over the bytes in
 * between. The first file keeps its readings in `int16`, its sums in `int32` and its
 * counts in `uint32` (`narrow`); the second keeps everything in `int`/`uint`. The two
 * files are otherwise the same program, so one model serves both.
 */
module Arrays {
  import opened Bytes
  import opened Lines
  import opened Stats
  import opened OpenAddressing
  import opened KeySort
  import opened DigitLoop
  import opened CursorParse
  import opened DenseTable

  /**
   * The body of the loop once the `;` is found `semiColonIdx` bytes on (lines 53-72): the
   * name slice, the newline offset from the `;` (the rest of the content when there is no
   * newline), and the digit loop in the file's width. The line read is the first reading
   * ahead of the cursor, and the readings after it start at `next`, which is one past the
   * end when the last line has no newline.
   */
  method ReadLine(content: seq<byte>, idx: nat, semiColonIdx: int, narrow: bool)
    returns (station: seq<byte>, temperature: int, next: int)
    requires idx <= |content| && semiColonIdx == IndexByte(content[idx..], SEMICOLON) && 0 <= semiColonIdx
    ensures idx < next <= |content| + 1
    ensures narrow ==> -0x8000 <= temperature < 0x8000
    ensures ParseAll(From(content, idx), narrow) == [Reading(station, temperature)] + ParseAll(From(content, next), narrow)
  {
    station := content[idx..idx + semiColonIdx];
    var n := IndexByte(content[idx + semiColonIdx..], NEWLINE);
    var newLineIdx := n;
    if newLineIdx < 0 {
      newLineIdx := |content| - (idx + semiColonIdx);
    }
    next := idx + semiColonIdx + newLineIdx + 1;
    ArraysLine(content, idx, semiColonIdx, n, newLineIdx, next, narrow);
    temperature := DigitLoopIn(content, idx, semiColonIdx, newLineIdx, narrow);
    assert Reading(station, temperature)
      == Reading(content[idx..idx + semiColonIdx], FieldValue(content[idx + semiColonIdx + 1..idx + semiColonIdx + newLineIdx], narrow));
  }

  /**
   * The digit loop of lines 62-72 in the file's width: `int16` in
   * go_single_thread_arrays.go, `int` in go_single_thread_arrays_64bit_ints.go.
   */
  method DigitLoopIn(content: seq<byte>, idx: nat, semiColonIdx: nat, newLineIdx: nat, narrow: bool) returns (temperature: int)
    requires 1 <= newLineIdx && idx + semiColonIdx + newLineIdx <= |content|
    ensures temperature == FieldValue(content[idx + semiColonIdx + 1..idx + semiColonIdx + newLineIdx], narrow)
    ensures narrow ==> -0x8000 <= temperature < 0x8000
  {
    if narrow {
      temperature := DigitLoop16(content, idx + semiColonIdx + 1, idx + semiColonIdx + newLineIdx);
    } else {
      temperature := DigitLoopInt(content, idx + semiColonIdx + 1, idx + semiColonIdx + newLineIdx);
    }
  }

  /**
   * The loop of `main` (lines 50-92): whatever the content, the arrays end up holding the
   * aggregate of the readings the cursor finds, with every sum and count wrapped to the
   * file's width.
   */
  method Scan(content: seq<byte>, narrow: bool) returns (table: StationTable)
    requires |Names(ParseAll(content, narrow))| <= CAP
    ensures table.Valid() && table.narrow == narrow
    ensures table.Model() == WrapTable(narrow, Aggregate(ParseAll(content, narrow)))
  {
    table := new StationTable(narrow);
    ghost var all := ParseAll(content, narrow);
    ghost var names := Names(all);
    var stationIdx := 0;
    var idx := 0;
    ghost var i := 0;
    assert WrapTable(narrow, Aggregate([])) == map[];
    while idx < |content|
      invariant idx <= |content| + 1
      invariant i <= |all| && all[i..] == ParseAll(From(content, idx), narrow)
      invariant fresh(table) && fresh(table.tempSum) && fresh(table.count) && fresh(table.minT) && fresh(table.maxT)
      invariant table.Valid() && table.narrow == narrow && stationIdx == |table.order|
      invariant table.Model() == WrapTable(narrow, Aggregate(all[..i]))
      decreases |content| + 1 - idx
    {
      var semiColonIdx := IndexByte(content[idx..], SEMICOLON);
      if semiColonIdx < 0 {
        ParseNone(content[idx..], narrow);
        break;
      }
      var station, temperature, next := ReadLine(content, idx, semiColonIdx, narrow);
      ghost var r := Reading(station, temperature);
      NextReading(all, i, ParseAll(From(content, idx), narrow), r, ParseAll(From(content, next), narrow));
      stationIdx := AddTemperatureData(table, station, temperature, stationIdx, names);
      WrapRecord(narrow, Aggregate(all[..i]), r);
      idx := next;
      i := i + 1;
    }
    ParseNone(From(content, idx), narrow);
    assert all[..i] == all;
  }

  /**
   * `main`: the loop, then the sorted key list (lines 94-98) and, for each key, the
   * record its figures are printed from (lines 100-112).
   */
  method Run(content: seq<byte>, narrow: bool) returns (keys: seq<seq<byte>>, recs: seq<Stats>, ghost final: Table)
    requires |Names(ParseAll(content, narrow))| <= CAP
    ensures final == WrapTable(narrow, Aggregate(ParseAll(content, narrow)))
    ensures keys == SortedOf(final.Keys) && StrictlySorted(keys) && |recs| == |keys|
    ensures forall i :: 0 <= i < |keys| ==> keys[i] in final && recs[i] == final[keys[i]]
  {
    var table := Scan(content, narrow);
    final := table.Model();
    keys := SortedKeys(table);
    SortedOfMeaning(final.Keys);
    recs := ListRecords(keys, table);
  }

  /**
   * On a well-formed file of fewer than 2^31 / 999 lines both variants hold the exact
   * aggregate of the file's readings: nothing wraps, and the cursor reads every line back.
   */
  lemma ArraysExact(rs: seq<Reading>, narrow: bool)
    requires WellFormed(rs) && |rs| * 999 < 0x8000_0000
    ensures WrapTable(narrow, Aggregate(ParseAll(Encode(rs), narrow))) == Aggregate(rs)
  {
    ParseEncode(rs, narrow);
    if narrow {
      AggregateFits(rs);
    } else {
      assert WrapTable(false, Aggregate(rs)) == Aggregate(rs);
    }
  }
}
