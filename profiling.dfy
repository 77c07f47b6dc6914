/**
 * go_single_thread_profiling.go: one pass over the whole file with a cursor `idx`. The
 * name is copied into a 100-byte buffer up to its `;`, the general digit loop reads the
 * reading field and counts the bytes up to and including the newline, and
 * `addTemperatureData` puts the reading into the map and the `int`/`uint` arrays.
 */
module Profiling {
  import opened Bytes
  import opened Lines
  import opened Stats
  import opened OpenAddressing
  import opened Report
  import opened DigitLoop
  import opened CursorParse
  import opened DenseTable

  /**
   * `parseStationName`: the bytes from `idx` up to the first `;`, copied through the
   * `[100]byte` buffer, and their number. The name may be empty.
   */
  method ParseStationName(content: seq<byte>, idx: nat) returns (semiColonIdx: nat, station: seq<byte>)
    requires idx < |content| && SEMICOLON in content[idx..] && IndexByte(content[idx..], SEMICOLON) <= 100
    ensures semiColonIdx == IndexByte(content[idx..], SEMICOLON)
    ensures station == content[idx..idx + semiColonIdx]
  {
    ghost var semi := IndexByte(content[idx..], SEMICOLON);
    var buffer := new byte[100](_ => 0);
    semiColonIdx := 0;
    var currByte := content[idx];
    while currByte != SEMICOLON
      invariant semiColonIdx <= semi && idx + semiColonIdx < |content|
      invariant currByte == content[idx + semiColonIdx]
      invariant buffer[..semiColonIdx] == content[idx..idx + semiColonIdx]
      decreases semi - semiColonIdx
    {
      assert content[idx..][semiColonIdx] == currByte;
      assert semiColonIdx < semi;
      buffer[semiColonIdx] := currByte;
      semiColonIdx := semiColonIdx + 1;
      currByte := content[idx + semiColonIdx];
    }
    assert content[idx..][semiColonIdx] == SEMICOLON;
    station := buffer[..semiColonIdx];
  }

  /**
   * The driver loop of `main`, then `sortStationNames` and `printSolution`: content in
   * which every line has its `;` within 100 bytes is read line by line, and the output
   * is the report of the aggregate of its readings.
   */
  method Run(content: seq<byte>) returns (out: seq<Entry>, ghost final: Table)
    requires Scannable(content)
    requires |Names(ParseAll(content, false))| <= CAP
    ensures final == Aggregate(ParseAll(content, false))
    ensures Counted(final) && out == ReportOf(final)
  {
    var table := Scan(content);
    final := table.Model();
    AggregateConsistent(ParseAll(content, false));
    ReportOfFigures(final);
    var keys := SortedKeys(table);
    out := PrintSolution(keys, table);
  }

  /** The loop over `idx`: the table ends up holding the aggregate of the content's readings. */
  method Scan(content: seq<byte>) returns (table: StationTable)
    requires Scannable(content)
    requires |Names(ParseAll(content, false))| <= CAP
    ensures table.Valid() && table.Model() == Aggregate(ParseAll(content, false))
  {
    table := new StationTable(false);
    ghost var all := ParseAll(content, false);
    ghost var names := Names(all);
    var stationIdx := 0;
    var idx := 0;
    ghost var i := 0;
    while idx < |content|
      invariant idx <= |content| && Scannable(content[idx..])
      invariant i <= |all| && all[i..] == ParseAll(content[idx..], false)
      invariant fresh(table) && fresh(table.tempSum) && fresh(table.count) && fresh(table.minT) && fresh(table.maxT)
      invariant table.Valid() && !table.narrow && stationIdx == |table.order|
      invariant table.Model() == Aggregate(all[..i])
      decreases |content| - idx
    {
      ScanStep(content, idx, idx);
      var semiColonIdx, station := ParseStationName(content, idx);
      var temperature, newLineIdx := ParseTemperature(content, idx + semiColonIdx + 1);
      var next := idx + semiColonIdx + newLineIdx + 1;
      ScanLine(content, idx, semiColonIdx, newLineIdx, next, false);
      ghost var r := Reading(content[idx..idx + semiColonIdx], FieldValue(Field(content[idx + semiColonIdx + 1..]), false));
      assert station == r.name;
      assert temperature == r.temp;
      NextReading(all, i, ParseAll(content[idx..], false), r, ParseAll(content[next..], false));
      RecordInWide(Aggregate(all[..i]), r);
      assert Aggregate(all[..i + 1]) == RecordIn(false, table.Model(), r);
      stationIdx := AddTemperatureData(table, station, temperature, stationIdx, names);
      idx := next;
      i := i + 1;
    }
    assert all[..i] == all;
  }
}
