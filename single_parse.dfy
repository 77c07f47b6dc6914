/**
 * go_single_thread_arrays_single_parse.go: one pass with a cursor `idx` over content
 * that is not checked at all. The name is the slice up to the next `;` (the loop stops
 * when there is none), the labelled digit loop reads the reading field, and the reading
 * goes into the map of indices and the `int`/`uint` record arrays.
 */
module SingleParse {
  import opened Bytes
  import opened Lines
  import opened Stats
  import opened OpenAddressing
  import opened Report
  import opened DigitLoop
  import opened CursorParse
  import opened DenseTable

  /**
   * The body of the loop once the `;` is found `semiColonIdx` bytes on: the name slice,
   * the labelled digit loop and the cursor step. The line read is the first reading
   * ahead of the cursor, and the readings after it start at `next`.
   */
  method ReadLine(content: seq<byte>, idx: nat, semiColonIdx: int)
    returns (station: seq<byte>, temperature: int, next: nat)
    requires idx <= |content| && semiColonIdx == IndexByte(content[idx..], SEMICOLON) && 0 <= semiColonIdx
    ensures idx < next <= |content|
    ensures ParseAll(content[idx..], false) == [Reading(station, temperature)] + ParseAll(content[next..], false)
  {
    station := content[idx..idx + semiColonIdx];
    var newLineIdx;
    temperature, newLineIdx := ParseTemperature(content, idx + semiColonIdx + 1);
    assert temperature == FieldValue(Field(content[idx + semiColonIdx + 1..]), false);
    next := idx + semiColonIdx + newLineIdx + 1;
    CursorLine(content, idx, semiColonIdx, newLineIdx, next, false);
    assert Reading(station, temperature)
      == Reading(content[idx..idx + semiColonIdx], FieldValue(Field(content[idx + semiColonIdx + 1..]), false));
  }

  /**
   * The loop of `main`, lines 51-97: whatever the content, the table ends up holding the
   * aggregate of the readings the cursor finds, as long as it has room for their names.
   */
  method Scan(content: seq<byte>) returns (table: StationTable)
    requires |Names(ParseAll(content, false))| <= CAP
    ensures table.Valid() && !table.narrow && table.Model() == Aggregate(ParseAll(content, false))
  {
    table := new StationTable(false);
    ghost var all := ParseAll(content, false);
    ghost var names := Names(all);
    var stationIdx := 0;
    var idx := 0;
    ghost var i := 0;
    while idx < |content|
      invariant idx <= |content|
      invariant i <= |all| && all[i..] == ParseAll(content[idx..], false)
      invariant fresh(table) && fresh(table.tempSum) && fresh(table.count) && fresh(table.minT) && fresh(table.maxT)
      invariant table.Valid() && !table.narrow && stationIdx == |table.order|
      invariant table.Model() == Aggregate(all[..i])
      decreases |content| - idx
    {
      var semiColonIdx := IndexByte(content[idx..], SEMICOLON);
      if semiColonIdx < 0 {
        ParseNone(content[idx..], false);
        break;
      }
      var station, temperature, next := ReadLine(content, idx, semiColonIdx);
      ghost var r := Reading(station, temperature);
      NextReading(all, i, ParseAll(content[idx..], false), r, ParseAll(content[next..], false));
      stationIdx := AddTemperatureData(table, station, temperature, stationIdx, names);
      RecordInWide(Aggregate(all[..i]), r);
      idx := next;
      i := i + 1;
    }
    if idx == |content| {
      ParseNone(content[idx..], false);
    }
    assert all[..i] == all;
  }

  /**
   * `main`: the loop, then the sorted key list (lines 99-103) and the listing (lines
   * 105-117). The output is the report of the aggregate of the readings found.
   */
  method Run(content: seq<byte>) returns (out: seq<Entry>, ghost final: Table)
    requires |Names(ParseAll(content, false))| <= CAP
    ensures final == Aggregate(ParseAll(content, false))
    ensures Counted(final) && out == ReportOf(final)
  {
    var table := Scan(content);
    final := table.Model();
    AggregateConsistent(ParseAll(content, false));
    ReportOfFigures(final);
    var keys := SortedKeys(table);
    out := PrintSolution(keys, table);
  }
}
