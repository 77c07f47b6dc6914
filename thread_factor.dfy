/**
 * go_parallel_thread_factor.go: `2 * NumCPU` chunks, a worker per chunk that fills a
 * dense table (a map from name to index plus record arrays), and a merge in `main`
 * that folds every worker table into one sum table, then the sorted listing.
 *
 * The merge as written resets its next free index to 0 for every worker result, so a
 * name first seen in a later result is given an index some earlier name already owns
 * and overwrites that name's record. `MergeAsWritten` models that code and
 * `ResetOverwrites` shows the lost record on two one-station results; the rest of the
 * model uses the merge with one running index, `MergeResult`.
 */
module ThreadFactor {
  import opened Bytes
  import opened Lines
  import opened Stats
  import opened FixedShape
  import opened OpenAddressing
  import opened Tracking
  import opened Chunks
  import opened Report
  import opened DenseTable
  import opened ParallelEq

  /**
   * `processChunk`: every line of the chunk is decoded and its reading goes into the
   * worker's dense table. The table then holds the aggregate of the chunk's readings.
   */
  method ProcessChunk(chunk: seq<byte>, ghost rs: seq<Reading>) returns (table: StationTable)
    requires WellFormed(rs) && NameLengths(rs, 1, 100) && chunk == Encode(rs)
    requires |Names(rs)| <= CAP
    ensures fresh(table) && fresh(table.tempSum) && fresh(table.count) && fresh(table.minT) && fresh(table.maxT)
    ensures table.Valid() && !table.narrow && table.Model() == Aggregate(rs)
  {
    table := new StationTable(false);
    var stationIdx := 0;
    var content := chunk;
    ghost var i := 0;
    while |content| > 0
      invariant i <= |rs| && WellFormed(rs[i..]) && content == Encode(rs[i..])
      invariant fresh(table) && fresh(table.tempSum) && fresh(table.count) && fresh(table.minT) && fresh(table.maxT)
      invariant table.Valid() && !table.narrow && stationIdx == |table.order|
      invariant table.Model() == Aggregate(rs[..i])
      decreases |content|
    {
      EncodeEmpty(rs[i..]);
      LineAhead(rs, i, content);
      var station, temperature;
      station, temperature, content := ReadStation(content);
      assert Reading(station, temperature) == rs[i];
      ReadingStep(rs, i);
      AggregateKeys(rs[..i]);
      stationIdx := StoreReading(table, Reading(station, temperature), stationIdx, Names(rs));
      i := i + 1;
    }
    EncodeEmpty(rs[i..]);
    assert rs[..i] == rs;
  }

  /**
   * One worker goroutine: `processChunk` on its chunk and the send of its map and
   * record arrays on its channel. The result holds the aggregate of the chunk.
   */
  method Worker(chunk: seq<byte>, ghost rs: seq<Reading>) returns (result: DenseResult)
    requires WellFormed(rs) && NameLengths(rs, 1, 100) && chunk == Encode(rs)
    requires |Names(rs)| <= CAP
    ensures ResultOf(result) == Aggregate(rs) && DenseKeys(result.idxMap) && |result.temps| == CAP
    ensures result.idxMap.Keys == Aggregate(rs).Keys
  {
    var table := ProcessChunk(chunk, rs);
    result := table.Send();
    table.ModelKeys();
    assert result.idxMap.Keys == table.Model().Keys;
  }

  /** Worker results whose names are among `names`, a set the record arrays have room for. */
  ghost predicate Ready(results: seq<DenseResult>, names: set<seq<byte>>) {
    && |names| <= CAP
    && forall i :: 0 <= i < |results| ==>
         DenseKeys(results[i].idxMap) && |results[i].temps| == CAP && results[i].idxMap.Keys <= names
  }

  /** The table each result holds. */
  ghost function TablesOf(results: seq<DenseResult>): (ts: seq<Table>)
    ensures |ts| == |results| && forall i :: 0 <= i < |results| ==> ts[i] == ResultOf(results[i])
  {
    seq(|results|, i requires 0 <= i < |results| => ResultOf(results[i]))
  }

  /** One more worker result, holding the aggregate of the next part. */
  lemma ResultsAppend(results: seq<DenseResult>, parts: seq<seq<Reading>>, names: set<seq<byte>>, result: DenseResult)
    requires Ready(results, names) && |results| < |parts|
    requires forall j :: 0 <= j < |results| ==> ResultOf(results[j]) == Aggregate(parts[j])
    requires DenseKeys(result.idxMap) && |result.temps| == CAP && result.idxMap.Keys <= names
    requires ResultOf(result) == Aggregate(parts[|results|])
    ensures Ready(results + [result], names)
    ensures forall j :: 0 <= j < |results| + 1 ==> ResultOf((results + [result])[j]) == Aggregate(parts[j])
  {
  }

  /**
   * The workers of `main`, one per chunk of `chunkList` in order, chunk `i` holding the
   * readings `parts[i]`. Result `i` holds the aggregate of part `i`.
   */
  method Workers(data: seq<byte>, chunkList: seq<Chunk>, ghost parts: seq<seq<Reading>>, ghost rs: seq<Reading>)
    returns (results: seq<DenseResult>)
    requires Holds(chunkList, data, parts)
    requires forall i, r :: 0 <= i < |parts| && r in parts[i] ==> r in rs
    requires NameLengths(rs, 1, 100) && |Names(rs)| <= CAP
    ensures |results| == |chunkList| == |parts|
    ensures Ready(results, Names(rs))
    ensures forall j :: 0 <= j < |results| ==> ResultOf(results[j]) == Aggregate(parts[j])
  {
    results := [];
    var idx := 0;
    while idx < |chunkList|
      invariant idx <= |chunkList| && |results| == idx
      invariant Ready(results, Names(rs))
      invariant forall j :: 0 <= j < idx ==> ResultOf(results[j]) == Aggregate(parts[j])
    {
      WorkerReady(data, chunkList, parts, rs, idx, 100);
      var result := Worker(Piece(data, chunkList[idx]), parts[idx]);
      ResultsAppend(results, parts, Names(rs), result);
      results := results + [result];
      idx := idx + 1;
    }
  }

  // ---------------------------------------------------------------------------
  // The merge in `main`

  /**
   * One name of a result's map: a name the sum table holds (lines 107-112) has its
   * record combined with the result's, a new one (lines 113-119) is given the next free
   * index and the result's record.
   */
  method MergeStation(sums: StationTable, station: seq<byte>, rec: Stats, stationIdx: int, ghost names: set<seq<byte>>)
    returns (nextIdx: int)
    requires sums.Valid() && !sums.narrow && stationIdx == |sums.order|
    requires sums.Model().Keys <= names && station in names && |names| <= CAP
    modifies sums, sums.tempSum, sums.count, sums.minT, sums.maxT
    ensures sums.Valid() && nextIdx == |sums.order| && sums.Model() == MergeOne(old(sums.Model()), station, rec)
  {
    sums.ModelKeys();
    nextIdx := stationIdx;
    if station in sums.idxMap {
      sums.CombineAt(station, sums.idxMap[station], rec);
    } else {
      RoomForOne(sums.Model().Keys, station, names);
      sums.Claim(station, stationIdx, rec);
      nextIdx := stationIdx + 1;
    }
  }

  /**
   * The loop over one result's map with the next free index carried over from the
   * results before it: a name the sum table holds has its record combined with the
   * result's, a new name gets the next index and the result's record. The sum table
   * then holds the merge of what it held and the result's table; which order the map
   * is visited in does not matter.
   */
  method MergeResult(sums: StationTable, result: DenseResult, stationIdx: int, ghost names: set<seq<byte>>)
    returns (nextIdx: int)
    requires sums.Valid() && !sums.narrow && stationIdx == |sums.order|
    requires DenseKeys(result.idxMap) && |result.temps| == CAP
    requires sums.Model().Keys <= names && result.idxMap.Keys <= names && |names| <= CAP
    modifies sums, sums.tempSum, sums.count, sums.minT, sums.maxT
    ensures sums.Valid() && nextIdx == |sums.order|
    ensures sums.Model() == MergeTables(old(sums.Model()), ResultOf(result))
  {
    ghost var m0 := sums.Model();
    ghost var src := ResultOf(result);
    SubsetCard(result.idxMap.Keys, names);
    ResultKeys(result);
    var left := result.idxMap.Keys;
    ghost var seen: Table := map[];
    MergeTablesEmpty(m0);
    nextIdx := stationIdx;
    while left != {}
      invariant left <= src.Keys && seen.Keys == src.Keys - left
      invariant forall n :: n in seen ==> n in src && seen[n] == src[n]
      invariant sums.Valid() && !sums.narrow && nextIdx == |sums.order|
      invariant sums.Model() == MergeTables(m0, seen)
      decreases left
    {
      var station :| station in left;
      var idx := result.idxMap[station];
      var rec := result.temps[idx];
      SeenStep(m0, seen, src, left, station, rec);
      nextIdx := MergeStation(sums, station, rec, nextIdx, names);
      seen := seen[station := rec];
      left := left - {station};
    }
    assert seen == src;
  }

  /** A result with dense indices below its record count: every name of its map has its record. */
  lemma ResultKeys(r: DenseResult)
    requires DenseKeys(r.idxMap) && |r.idxMap| <= |r.temps|
    ensures ResultOf(r).Keys == r.idxMap.Keys
    ensures forall n :: n in r.idxMap ==> 0 <= r.idxMap[n] < |r.temps| && ResultOf(r)[n] == r.temps[r.idxMap[n]]
  {
  }

  /** One more name of the result merged: the merged part grows by it, in both senses. */
  lemma SeenStep(m0: Table, seen: Table, src: Table, left: set<seq<byte>>, station: seq<byte>, rec: Stats)
    requires left <= src.Keys && seen.Keys == src.Keys - left
    requires station in left && src[station] == rec
    requires forall n :: n in seen ==> n in src && seen[n] == src[n]
    ensures station !in seen && seen[station := rec].Keys == src.Keys - (left - {station})
    ensures forall n :: n in seen[station := rec] ==> n in src && seen[station := rec][n] == src[n]
    ensures MergeTables(m0, seen[station := rec]) == MergeOne(MergeTables(m0, seen), station, rec)
  {
    MergeTablesAddEntry(m0, seen, station, rec);
  }

  /**
   * The loop over the channels, corrected: every worker result merged into the sum
   * table in channel order, with one running `stationIdx` set before the loop where
   * the source resets it for every result (`MergeAsWritten` models the reset). The sum
   * table holds the merge of all the results' tables.
   */
  method SumResults(results: seq<DenseResult>, ghost names: set<seq<byte>>) returns (sums: StationTable)
    requires Ready(results, names)
    ensures fresh(sums) && fresh(sums.tempSum) && fresh(sums.count) && fresh(sums.minT) && fresh(sums.maxT)
    ensures sums.Valid() && !sums.narrow && sums.Model() == MergeAll(TablesOf(results))
  {
    sums := new StationTable(false);
    var stationIdx := 0;
    var k := 0;
    while k < |results|
      invariant k <= |results|
      invariant fresh(sums) && fresh(sums.tempSum) && fresh(sums.count) && fresh(sums.minT) && fresh(sums.maxT)
      invariant sums.Valid() && !sums.narrow && stationIdx == |sums.order|
      invariant sums.Model() == MergeAll(TablesOf(results)[..k]) && sums.Model().Keys <= names
    {
      stationIdx := MergeResult(sums, results[k], stationIdx, names);
      MergeAllStep(TablesOf(results), k);
      k := k + 1;
    }
    assert TablesOf(results)[..k] == TablesOf(results);
  }

  /**
   * `main` of go_parallel_thread_factor.go on the file `data` of the readings `rs`,
   * with `cpus` standing for `runtime.NumCPU()` and the merge keeping one running
   * index: `2 * cpus` chunks, a worker per chunk, the merge of every result into the
   * sum table, the sorted keys and the listing. The listing is the report of the
   * aggregate of all the readings.
   */
  method Run(data: seq<byte>, cpus: nat, ghost rs: seq<Reading>) returns (out: seq<Entry>, ghost final: Table)
    requires cpus >= 1 && WellFormed(rs) && NameLengths(rs, 1, 100) && data == Encode(rs)
    requires |Names(rs)| <= CAP
    requires ProbesInside(|data|, ShareOf(|data|, 2 * cpus), 2 * cpus)
    ensures final == Aggregate(rs) && Counted(final) && out == ReportOf(final)
  {
    var numCPUs := 2 * cpus;
    var results := Dispatch(data, numCPUs, rs);
    var sums := SumResults(results, Names(rs));
    final := sums.Model();
    AggregateConsistent(rs);
    ReportOfFigures(final);
    var keys := SortedKeys(sums);
    out := PrintSolution(keys, sums);
  }

  /**
   * The chunking and the workers of `main`: the chunks of the plan, a worker per chunk,
   * and the results, whose tables merge into the aggregate of the whole file.
   */
  method Dispatch(data: seq<byte>, numCPUs: nat, ghost rs: seq<Reading>) returns (results: seq<DenseResult>)
    requires numCPUs >= 1 && WellFormed(rs) && NameLengths(rs, 1, 100) && data == Encode(rs)
    requires |Names(rs)| <= CAP
    requires ProbesInside(|data|, ShareOf(|data|, numCPUs), numCPUs)
    ensures |results| == numCPUs && Ready(results, Names(rs))
    ensures MergeAll(TablesOf(results)) == Aggregate(rs)
  {
    var chunkSize := ShareOf(|data|, numCPUs);
    ghost var parts := PlanSplits(rs, chunkSize, numCPUs);
    var chunkList, readFailed := GenerateChunkIndices(data, numCPUs, chunkSize);
    results := Workers(data, chunkList, parts, rs);
    ResultsMerge(results, parts);
  }

  /** Results holding the aggregates of the parts merge into the aggregate of the parts glued together. */
  lemma ResultsMerge(results: seq<DenseResult>, parts: seq<seq<Reading>>)
    requires |results| == |parts|
    requires forall j :: 0 <= j < |results| ==> ResultOf(results[j]) == Aggregate(parts[j])
    ensures MergeAll(TablesOf(results)) == Aggregate(Flatten(parts))
  {
    assert TablesOf(results) == AggregateEach(parts);
    PartitionIndependent(parts);
  }

  // ---------------------------------------------------------------------------
  // The merge as written

  /**
   * Lines 106-121 of go_parallel_thread_factor.go as written, on the sum table's map
   * and records: the result's names are visited in the order `visit` (Go leaves the
   * order of a map walk open) and a new name is written at `stationIdx`, counted from
   * whatever the caller passes, which `main` resets to 0 for every result.
   */
  function MergeAsWritten(sums: DenseResult, src: DenseResult, visit: seq<seq<byte>>, stationIdx: nat): (r: DenseResult)
    requires forall n :: n in src.idxMap ==> 0 <= src.idxMap[n] < |src.temps|
    requires forall n :: n in sums.idxMap ==> 0 <= sums.idxMap[n] < |sums.temps|
    requires forall i :: 0 <= i < |visit| ==> visit[i] in src.idxMap
    requires stationIdx + |visit| <= |sums.temps|
    ensures |r.temps| == |sums.temps| && r.idxMap.Keys == sums.idxMap.Keys + set i | 0 <= i < |visit| :: visit[i]
    ensures forall n :: n in r.idxMap ==> 0 <= r.idxMap[n] < |r.temps|
    decreases |visit|
  {
    if visit == [] then sums
    else
      var station := visit[0];
      var rec := src.temps[src.idxMap[station]];
      var sums' :=
        if station in sums.idxMap then
          var stIdx := sums.idxMap[station];
          DenseResult(sums.idxMap, sums.temps[stIdx := Combine(sums.temps[stIdx], rec)])
        else
          DenseResult(sums.idxMap[station := stationIdx], sums.temps[stationIdx := rec]);
      var next := if station in sums.idxMap then stationIdx else stationIdx + 1;
      var r := MergeAsWritten(sums', src, visit[1..], next);
      assert (set i | 0 <= i < |visit| :: visit[i]) == {station} + set i | 0 <= i < |visit[1..]| :: visit[1..][i];
      r
  }

  /** Station `a` and station `b`, and the records two one-station workers send for them. */
  const StationA: seq<byte> := [97]
  const StationB: seq<byte> := [98]
  const RecordA: Stats := Stats(10, 1, 10, 10)
  const RecordB: Stats := Stats(20, 1, 20, 20)

  /** A record array of `make([]T, 10_000)` with `s` at index 0. */
  function AtZero(s: Stats): (temps: seq<Stats>)
    ensures |temps| == CAP && temps[0] == s
  {
    seq(CAP, i => if i == 0 then s else Stats(0, 0, 0, 0))
  }

  /** The sum table before the merge loop, and the results of the two workers. */
  const NoSums: DenseResult := DenseResult(map[], AtZero(Stats(0, 0, 0, 0)))
  const OnlyA: DenseResult := DenseResult(map[StationA := 0], AtZero(RecordA))
  const OnlyB: DenseResult := DenseResult(map[StationB := 0], AtZero(RecordB))

  /** Merging worker 1 as written: `a` is new and goes to index 0. */
  lemma MergeFirstAsWritten()
    ensures MergeAsWritten(NoSums, OnlyA, [StationA], 0) == DenseResult(map[StationA := 0], NoSums.temps[0 := RecordA])
  {
    assert OnlyA.temps[OnlyA.idxMap[StationA]] == RecordA;
    assert [StationA][1..] == [];
    var mid := DenseResult(map[StationA := 0], NoSums.temps[0 := RecordA]);
    assert MergeAsWritten(mid, OnlyA, [], 1) == mid;
  }

  /** Merging worker 2 as written, with the index reset to 0: `b` is new and also goes to index 0. */
  lemma MergeSecondAsWritten(s1: DenseResult)
    requires s1 == DenseResult(map[StationA := 0], NoSums.temps[0 := RecordA])
    ensures StationB !in s1.idxMap
    ensures MergeAsWritten(s1, OnlyB, [StationB], 0) == DenseResult(map[StationA := 0, StationB := 0], s1.temps[0 := RecordB])
  {
    assert StationA != StationB by {
      assert StationA[0] != StationB[0];
    }
    assert OnlyB.temps[OnlyB.idxMap[StationB]] == RecordB;
    assert [StationB][1..] == [];
    var mid := DenseResult(map[StationA := 0, StationB := 0], s1.temps[0 := RecordB]);
    assert MergeAsWritten(mid, OnlyB, [], 1) == mid;
  }

  /**
   * The record lost by the reset: worker 1 saw only `a` (1.0 degrees), worker 2 only
   * `b` (2.0 degrees). After merging both, as written, `a` and `b` share index 0 and the
   * sum table reports `b`'s record for `a`, while the merge of the two worker tables
   * keeps `a`'s own record.
   */
  lemma ResetOverwrites()
    ensures var s2 := MergeAsWritten(MergeAsWritten(NoSums, OnlyA, [StationA], 0), OnlyB, [StationB], 0);
      && StationA in ResultOf(s2) && ResultOf(s2)[StationA] == RecordB
      && MergeTables(ResultOf(OnlyA), ResultOf(OnlyB))[StationA] == RecordA
  {
    MergeFirstAsWritten();
    var s1 := MergeAsWritten(NoSums, OnlyA, [StationA], 0);
    MergeSecondAsWritten(s1);
    assert ResultOf(OnlyA) == map[StationA := RecordA];
    assert ResultOf(OnlyB) == map[StationB := RecordB];
  }
}
