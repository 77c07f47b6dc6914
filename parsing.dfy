/**
 * go_single_thread_parsing.go: the whole file in one pass with the fixed-shape decoder.
 * The content slice moves forward a line at a time; the map gives each name its index
 * into `int`/`uint` record arrays, and a new name's record is written outright.
 */
module Parsing {
  import opened Bytes
  import opened Lines
  import opened Stats
  import opened FixedShape
  import opened OpenAddressing
  import opened Report
  import opened DenseTable

  /**
   * The loop of `main`, lines 49-94: every line of a well-formed file is decoded and its
   * reading goes into the table, which then holds the aggregate of the file.
   */
  method Scan(content: seq<byte>, ghost rs: seq<Reading>) returns (table: StationTable)
    requires WellFormed(rs) && NameLengths(rs, 1, 100) && content == Encode(rs)
    requires |Names(rs)| <= CAP
    ensures table.Valid() && !table.narrow && table.Model() == Aggregate(rs)
  {
    table := new StationTable(false);
    var stationIdx := 0;
    var rest := content;
    ghost var i := 0;
    while |rest| > 0
      invariant i <= |rs| && WellFormed(rs[i..]) && rest == Encode(rs[i..])
      invariant fresh(table) && fresh(table.tempSum) && fresh(table.count) && fresh(table.minT) && fresh(table.maxT)
      invariant table.Valid() && !table.narrow && stationIdx == |table.order|
      invariant table.Model() == Aggregate(rs[..i])
      decreases |rest|
    {
      EncodeEmpty(rs[i..]);
      LineAhead(rs, i, rest);
      var station, temperature;
      station, temperature, rest := ReadStation(rest);
      assert Reading(station, temperature) == rs[i];
      ReadingStep(rs, i);
      stationIdx := StoreReading(table, Reading(station, temperature), stationIdx, Names(rs));
      i := i + 1;
    }
    EncodeEmpty(rs[i..]);
    assert rs[..i] == rs;
  }

  /**
   * `main` on a well-formed file: the loop, the sorted key list and the listing. The
   * output is the report of the aggregate of the file's readings.
   */
  method Run(content: seq<byte>, ghost rs: seq<Reading>) returns (out: seq<Entry>, ghost final: Table)
    requires WellFormed(rs) && NameLengths(rs, 1, 100) && content == Encode(rs)
    requires |Names(rs)| <= CAP
    ensures final == Aggregate(rs) && Counted(final) && out == ReportOf(final)
  {
    var table := Scan(content, rs);
    final := table.Model();
    AggregateConsistent(rs);
    ReportOfFigures(final);
    var keys := SortedKeys(table);
    out := PrintSolution(keys, table);
  }
}
