/**
 * go_single_thread.go: the cursor loop of go_single_thread_arrays.go with the records
 * kept in a map from name to an `int32`/`uint32`/`int16` record value, which each line
 * reads, updates and writes back. The map grows as needed, so it has no capacity, and
 * the listing uses `roundJava` like go_single_thread_profiling.go.
 */
module SingleThread {
  import opened Bytes
  import opened Lines
  import opened Stats
  import opened KeySort
  import opened Report
  import opened CursorParse
  import opened DenseTable
  import Arrays

  /**
   * The loop of `main` (lines 43-85): whatever the content, the map ends up holding the
   * aggregate of the readings the cursor finds, with sums wrapped to `int32` and counts
   * to `uint32`.
   */
  method Scan(content: seq<byte>) returns (stationData: Table)
    ensures stationData == WrapTable(true, Aggregate(ParseAll(content, true)))
  {
    stationData := map[];
    ghost var all := ParseAll(content, true);
    var idx := 0;
    ghost var i := 0;
    assert WrapTable(true, Aggregate([])) == map[];
    while idx < |content|
      invariant idx <= |content| + 1
      invariant i <= |all| && all[i..] == ParseAll(From(content, idx), true)
      invariant stationData == WrapTable(true, Aggregate(all[..i]))
      decreases |content| + 1 - idx
    {
      var semiColonIdx := IndexByte(content[idx..], SEMICOLON);
      if semiColonIdx < 0 {
        ParseNone(content[idx..], true);
        break;
      }
      var station, temperature, next := Arrays.ReadLine(content, idx, semiColonIdx, true);
      ghost var r := Reading(station, temperature);
      NextReading(all, i, ParseAll(From(content, idx), true), r, ParseAll(From(content, next), true));
      stationData := UpdateStation(stationData, station, temperature);
      WrapRecord(true, Aggregate(all[..i]), r);
      idx := next;
      i := i + 1;
    }
    ParseNone(From(content, idx), true);
    assert all[..i] == all;
  }

  /**
   * Lines 66-80: the record of `station` read from the map, updated in `int32`/`uint32`
   * and written back, or a first record for a new name.
   */
  method UpdateStation(stationData: Table, station: seq<byte>, temperature: int) returns (updated: Table)
    ensures updated == RecordIn(true, stationData, Reading(station, temperature))
  {
    if station in stationData {
      var currData := stationData[station];
      currData := Stats(WrapInt32(currData.sum + temperature), WrapUint32(currData.count + 1),
                        Min(currData.min, temperature), Max(currData.max, temperature));
      updated := stationData[station := currData];
    } else {
      updated := stationData[station := Stats(temperature, 1, temperature, temperature)];
    }
  }

  /**
   * `main`: the loop, then the sorted key list (lines 87-91) and the listing. The output
   * is the report of the wrapped aggregate, as long as no count has wrapped to zero.
   */
  method Run(content: seq<byte>) returns (out: seq<Entry>, ghost final: Table)
    requires Counted(WrapTable(true, Aggregate(ParseAll(content, true))))
    ensures final == WrapTable(true, Aggregate(ParseAll(content, true)))
    ensures out == ReportOf(final)
  {
    var stationData := Scan(content);
    final := stationData;
    var keys := SortStationNames(stationData);
    out := PrintStations(keys, stationData);
  }

  /**
   * The listing of lines 93-104: for each name of the sorted key list, the `roundJava`
   * figures of its record in the map. The output is the report of the map.
   */
  method PrintStations(keys: seq<seq<byte>>, stationData: Table) returns (out: seq<Entry>)
    requires Counted(stationData) && keys == SortedOf(stationData.Keys)
    ensures out == ReportOf(stationData)
  {
    out := [];
    var i := 0;
    assert |stationData.Keys| == |stationData|;
    while i < |keys|
      invariant i <= |keys| == |stationData|
      invariant out == ReportOf(stationData)[..i]
    {
      var station := keys[i];
      ReportStep(stationData, i);
      var entry := EntryOf(station, stationData[station]);
      PrefixStep(ReportOf(stationData), i);
      out := out + [entry];
      i := i + 1;
    }
  }

  /**
   * On a well-formed file of fewer than 2^31 / 999 lines, `Run` applies and the map holds
   * the exact aggregate of the file's readings.
   */
  lemma SingleThreadExact(rs: seq<Reading>)
    requires WellFormed(rs) && |rs| * 999 < 0x8000_0000
    ensures WrapTable(true, Aggregate(ParseAll(Encode(rs), true))) == Aggregate(rs)
    ensures Counted(WrapTable(true, Aggregate(ParseAll(Encode(rs), true))))
  {
    Arrays.ArraysExact(rs, true);
    AggregateConsistent(rs);
    ReportOfFigures(Aggregate(rs));
  }
}
