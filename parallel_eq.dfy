/**
 * go_parallel_eq.go: workers fill one open-addressing table each from their chunk,
 * two group merges fold the worker tables of one half of the channels each, a final
 * merge folds the two group tables, and the result is listed in ascending name order.
 */
module ParallelEq {
  import opened Bytes
  import opened Lines
  import opened Stats
  import opened Fnv
  import opened FixedShape
  import opened OpenAddressing
  import opened Tracking
  import opened Chunks
  import opened KeySort
  import opened Report

  /**
   * The reading of one line of `processChunk`, `at` being the byte after `;`: a `-`
   * sets `negate = -1` and is skipped, then `content[1] == '.'` tells `D.D` (4 more
   * bytes) from `DD.D` (5 more), decoded with the constants 528 and 5328. The slicing
   * steps `content = content[...:]` are kept as one offset `p`.
   */
  method DecodeTemperature(content: seq<byte>, at: nat) returns (temperature: int, next: nat)
    requires DecodableAt(content, at)
    ensures Decoded(temperature, next) == DecodeSignFirst(content, at)
  {
    var p := at;
    var negate := 1;
    if content[p] == MINUS {
      negate := -1;
      p := p + 1;
    }
    if content[p + 1] == DOT {
      temperature := negate * (content[p] as int * 10 + content[p + 2] as int - 528);
      next := p + 4;
    } else {
      temperature := negate * (content[p] as int * 100 + content[p + 1] as int * 10 + content[p + 3] as int - 5328);
      next := p + 5;
    }
  }

  /**
   * One line of `processChunk`: the first name byte is taken as it is, the rest is
   * scanned up to `;` into the `station` buffer while it is hashed, then the reading
   * is decoded and the content advances past the line. The result is the fixed-shape
   * decoding of the line.
   */
  method ReadLine(content: seq<byte>) returns (station: seq<byte>, nameHash: int, temperature: int, next: seq<byte>)
    requires 1 < |content| && SEMICOLON in content[1..] && NameEnd(content) <= 100
    requires DecodableAt(content, NameEnd(content) + 1)
    ensures station == content[..NameEnd(content)] && nameHash == WorkerHash(station)
    ensures var d := DecodeSignFirst(content, NameEnd(content) + 1);
      temperature == d.temp && next == content[d.next..]
  {
    var semiColonIdx, rest;
    station, semiColonIdx, nameHash := ScanNameHashed(content, 0, 100);
    assert semiColonIdx + 1 == NameEnd(content) + 1;
    temperature, rest := DecodeTemperature(content, semiColonIdx + 1);
    next := content[rest..];
  }

  /**
   * `processChunk`: every line of the chunk is decoded and its reading goes into the
   * worker table. The table then holds the aggregate of the chunk's readings except
   * for the names whose probe ran past the last slot; those names' probes still do.
   */
  method ProcessChunk(chunk: seq<byte>, ghost rs: seq<Reading>) returns (table: StationIndex, ghost dropped: set<seq<byte>>)
    requires WellFormed(rs) && NameLengths(rs, 1, 100) && chunk == Encode(rs)
    requires |Names(rs)| <= CAP
    ensures fresh(table) && fresh(table.slots) && fresh(table.tempSum) && fresh(table.count)
    ensures fresh(table.minT) && fresh(table.maxT)
    ensures table.Valid() && table.hash == WorkerHash
    ensures table.Model() == Without(Aggregate(rs), dropped)
    ensures dropped <= Names(rs) && AllFull(WorkerHash, table.slots[..], dropped)
  {
    table := new StationIndex(WorkerHash);
    dropped := {};
    WithoutNothing(Aggregate([]));
    var content := chunk;
    ghost var i := 0;
    while |content| > 0
      invariant i <= |rs| && WellFormed(rs[i..]) && content == Encode(rs[i..])
      invariant fresh(table) && fresh(table.slots) && fresh(table.tempSum) && fresh(table.count)
      invariant fresh(table.minT) && fresh(table.maxT)
      invariant table.Valid() && table.hash == WorkerHash
      invariant table.Model() == Without(Aggregate(rs[..i]), dropped)
      invariant dropped <= Names(rs[..i]) && AllFull(WorkerHash, table.slots[..], dropped)
      decreases |content|
    {
      EncodeEmpty(rs[i..]);
      LineAhead(rs, i, content);
      var station, nameHash, temperature;
      station, nameHash, temperature, content := ReadLine(content);
      assert Reading(station, temperature) == rs[i];
      ReadingStep(rs, i);
      dropped := AddTracked(table, station, nameHash, temperature, false, Aggregate(rs[..i]), dropped, Names(rs));
      i := i + 1;
    }
    EncodeEmpty(rs[i..]);
    assert rs[..i] == rs;
  }

  /**
   * One worker goroutine: `processChunk` on its chunk and the send of its slots and
   * record arrays on its channel. `model` is the table the result holds and `walk` its
   * slot-order walk; the worker's dropped names come from the chunk.
   */
  method Worker(chunk: seq<byte>, ghost rs: seq<Reading>)
    returns (result: Result, ghost model: Table, ghost walk: seq<Table>, ghost dropped: set<seq<byte>>)
    requires WellFormed(rs) && NameLengths(rs, 1, 100) && chunk == Encode(rs)
    requires |Names(rs)| <= CAP
    ensures WalkOf(walk, model, result.idxMap, result.temps)
    ensures model == Without(Aggregate(rs), dropped) && dropped <= Names(rs)
    ensures AllFull(WorkerHash, result.idxMap, dropped) && HighStart(WorkerHash, dropped)
  {
    var table;
    table, dropped := ProcessChunk(chunk, rs);
    table.DroppedHigh(dropped);
    result := table.Send();
    table.Walk();
    model := table.Model();
    walk := Parts(model, table.slots[..]);
  }

  /** What worker `idx` may take for granted of its chunk, names being at most `hi` bytes long. */
  lemma WorkerReady(data: seq<byte>, chunkList: seq<Chunk>, parts: seq<seq<Reading>>, rs: seq<Reading>, idx: nat, hi: nat)
    requires Holds(chunkList, data, parts) && idx < |chunkList|
    requires forall i, r :: 0 <= i < |parts| && r in parts[i] ==> r in rs
    requires NameLengths(rs, 1, hi) && |Names(rs)| <= CAP
    ensures var part, chunk := parts[idx], chunkList[idx];
      && 0 <= chunk.start <= chunk.end + 1 <= |data|
      && WellFormed(part) && NameLengths(part, 1, hi) && Encode(part) == Piece(data, chunk)
      && |Names(part)| <= CAP && Names(part) <= Names(rs) && Aggregate(part).Keys <= Names(rs)
  {
    var part := parts[idx];
    SubReadings(rs, part, 1, hi);
    SubsetCard(Names(part), Names(rs));
    AggregateKeys(part);
  }

  /**
   * Worker tables over the parts of the input: table `i` is the aggregate of part `i`
   * without the names `drops[i]`, which all start in the top `CAP` slots.
   */
  ghost predicate Pieces(models: seq<Table>, parts: seq<seq<Reading>>, drops: seq<set<seq<byte>>>) {
    && |parts| == |models| && |drops| == |models|
    && (forall i :: 0 <= i < |models| ==> models[i] == Without(Aggregate(parts[i]), drops[i]))
    && (forall i :: 0 <= i < |drops| ==> HighStart(WorkerHash, drops[i]))
  }

  /** One more worker table over the next part. */
  lemma PiecesAppend(models: seq<Table>, parts: seq<seq<Reading>>, drops: seq<set<seq<byte>>>, idx: nat,
                     model: Table, dropped: set<seq<byte>>)
    requires idx < |parts| && Pieces(models, parts[..idx], drops)
    requires model == Without(Aggregate(parts[idx]), dropped) && HighStart(WorkerHash, dropped)
    ensures Pieces(models + [model], parts[..idx + 1], drops + [dropped])
  {
  }

  /** One more result ready for a merge. */
  lemma SourcesAppend(results: seq<Result>, models: seq<Table>, walks: seq<seq<Table>>, names: set<seq<byte>>,
                      result: Result, model: Table, walk: seq<Table>)
    requires Sources(results, models, walks, names)
    requires WalkOf(walk, model, result.idxMap, result.temps) && model.Keys <= names
    ensures Sources(results + [result], models + [model], walks + [walk], names)
  {
  }

  /**
   * The workers of `main`, one per chunk of `chunkList` in order, chunk `i` being the
   * bytes of the readings `parts[i]`, which are readings of the whole file `rs`.
   */
  method Workers(data: seq<byte>, chunkList: seq<Chunk>, ghost parts: seq<seq<Reading>>, ghost rs: seq<Reading>)
    returns (results: seq<Result>, ghost models: seq<Table>, ghost walks: seq<seq<Table>>,
             ghost drops: seq<set<seq<byte>>>)
    requires Holds(chunkList, data, parts)
    requires forall i, r :: 0 <= i < |parts| && r in parts[i] ==> r in rs
    requires NameLengths(rs, 1, 100) && |Names(rs)| <= CAP
    ensures |results| == |chunkList|
    ensures Sources(results, models, walks, Names(rs)) && Pieces(models, parts, drops)
  {
    ghost var names := Names(rs);
    results, models, walks, drops := [], [], [], [];
    var idx := 0;
    while idx < |chunkList|
      invariant idx <= |chunkList| && |results| == idx
      invariant Sources(results, models, walks, names) && Pieces(models, parts[..idx], drops)
    {
      WorkerReady(data, chunkList, parts, rs, idx, 100);
      var result, model, walk, dropped := Worker(Piece(data, chunkList[idx]), parts[idx]);
      PiecesAppend(models, parts, drops, idx, model, dropped);
      SourcesAppend(results, models, walks, names, result, model, walk);
      results, models, walks, drops := results + [result], models + [model], walks + [walk], drops + [dropped];
      idx := idx + 1;
    }
    assert parts[..idx] == parts;
  }

  /**
   * One `sumResults` goroutine with its send: the merge of the worker results of one
   * half of the channels, handed on as a result of its own.
   */
  method SumGroup(results: seq<Result>, ghost models: seq<Table>, ghost walks: seq<seq<Table>>,
                  ghost names: set<seq<byte>>)
    returns (result: Result, ghost model: Table, ghost walk: seq<Table>, ghost dropped: set<seq<byte>>)
    requires Sources(results, models, walks, names) && |names| <= CAP
    ensures WalkOf(walk, model, result.idxMap, result.temps)
    ensures model == Without(MergeAll(models), dropped) && model.Keys <= names
    ensures AllFull(MergeHash, result.idxMap, dropped) && HighStart(MergeHash, dropped)
  {
    var table;
    table, dropped := SumResults(results, false, models, walks, names);
    table.DroppedHigh(dropped);
    result := table.Send();
    table.Walk();
    model := table.Model();
    walk := Parts(model, table.slots[..]);
    MergeAllKeys(models, names);
  }

  /**
   * The listing of `main`: the occupied slots' names, sorted, and for each the lookup
   * from its merge hash (index 0 when not found) and the `roundJava` figures of its
   * record. The entries are the report of the table.
   */
  method PrintResults(table: StationIndex) returns (out: seq<Entry>)
    requires table.Valid() && table.hash == MergeHash && Counted(table.Model())
    ensures out == ReportOf(table.Model())
  {
    var keys := table.Keys();
    var sorted := SortStrings(keys);
    SortedOfMeaning(table.Model().Keys);
    StrictlySortedUnique(sorted, SortedOf(table.Model().Keys));
    out := PrintSorted(table, sorted);
  }

  /**
   * One entry of the listing: the station is looked up from its merge hash and its
   * record's figures are rounded.
   */
  method PrintStation(table: StationIndex, station: seq<byte>) returns (entry: Entry)
    requires table.Valid() && table.hash == MergeHash && Counted(table.Model())
    requires station in table.Model()
    ensures entry == EntryOf(station, table.Model()[station])
  {
    var nameHash := FnvHash(station);
    var idx := table.Lookup(station, nameHash);
    entry := EntryOf(station, table.RecordAt(idx));
  }

  /** The loop of the listing over the sorted names. */
  method PrintSorted(table: StationIndex, sorted: seq<seq<byte>>) returns (out: seq<Entry>)
    requires table.Valid() && table.hash == MergeHash && Counted(table.Model())
    requires sorted == SortedOf(table.Model().Keys)
    ensures out == ReportOf(table.Model())
  {
    ghost var model := table.Model();
    out := [];
    var i := 0;
    while i < |sorted|
      invariant i <= |sorted| == |model|
      invariant out == ReportOf(model)[..i]
    {
      ReportStep(model, i);
      PrefixStep(ReportOf(model), i);
      var entry := PrintStation(table, sorted[i]);
      out := out + [entry];
      i := i + 1;
    }
    assert ReportOf(model)[..i] == ReportOf(model);
  }

  /**
   * The merge tree of `main` on the tables: worker tables `models[i]`, each the aggregate
   * of its part without its dropped names, folded by halves into two group tables and
   * those into the final table, each merge dropping names of its own. Apart from the
   * dropped names, the final table is the aggregate of all the readings.
   */
  lemma TreeMerge(parts: seq<seq<Reading>>, models: seq<Table>, drops: seq<set<seq<byte>>>, h: nat,
                  g0: Table, e0: set<seq<byte>>, g1: Table, e1: set<seq<byte>>,
                  final: Table, e2: set<seq<byte>>, all: set<seq<byte>>)
    requires Pieces(models, parts, drops) && h <= |parts|
    requires g0 == Without(MergeAll(models[..h]), e0) && g1 == Without(MergeAll(models[h..]), e1)
    requires final == Without(MergeAll([g0, g1]), e2)
    requires all == UnionAll(drops) + e0 + e1 + e2
    ensures Without(final, all) == Without(Aggregate(Flatten(parts)), all)
  {
    var ts := AggregateEach(parts);
    var m0, m1 := MergeAll(models[..h]), MergeAll(models[h..]);
    WithoutWithout(MergeAll([g0, g1]), e2, all);
    assert e2 + all == all;
    WithoutMergeAll([m0, m1], [g0, g1], [e0, e1], all);
    MergeAllHalves(models, h);
    WithoutMergeAll(ts, models, drops, all);
    PartitionIndependent(parts);
  }

  /**
   * The same on the names of the input only: the final table and the aggregate agree
   * apart from the dropped names among `names`, and are equal when there are none.
   */
  lemma TreeMergeNarrow(parts: seq<seq<Reading>>, models: seq<Table>, drops: seq<set<seq<byte>>>, h: nat,
                        g0: Table, e0: set<seq<byte>>, g1: Table, e1: set<seq<byte>>,
                        final: Table, e2: set<seq<byte>>, names: set<seq<byte>>, lost: set<seq<byte>>)
    requires Pieces(models, parts, drops) && h <= |parts|
    requires g0 == Without(MergeAll(models[..h]), e0) && g1 == Without(MergeAll(models[h..]), e1)
    requires g0.Keys <= names && g1.Keys <= names && Aggregate(Flatten(parts)).Keys <= names
    requires final == Without(MergeAll([g0, g1]), e2)
    requires lost == (UnionAll(drops) + e0 + e1 + e2) * names
    ensures Without(final, lost) == Without(Aggregate(Flatten(parts)), lost)
    ensures lost == {} ==> final == Aggregate(Flatten(parts))
  {
    var all := UnionAll(drops) + e0 + e1 + e2;
    TreeMerge(parts, models, drops, h, g0, e0, g1, e1, final, e2, all);
    FinalKeys(g0, g1, final, e2, names);
    Narrow(final, Aggregate(Flatten(parts)), all, names);
  }

  /** The final table holds names of the input only. */
  lemma FinalKeys(g0: Table, g1: Table, final: Table, e2: set<seq<byte>>, names: set<seq<byte>>)
    requires g0.Keys <= names && g1.Keys <= names && final == Without(MergeAll([g0, g1]), e2)
    ensures final.Keys <= names
  {
    MergeAllKeys([g0, g1], names);
  }

  /** Every table of the merge tree holds consistent records, the final one too. */
  lemma TreeConsistent(parts: seq<seq<Reading>>, models: seq<Table>, drops: seq<set<seq<byte>>>, h: nat,
                       g0: Table, e0: set<seq<byte>>, g1: Table, e1: set<seq<byte>>,
                       final: Table, e2: set<seq<byte>>)
    requires Pieces(models, parts, drops) && h <= |parts|
    requires g0 == Without(MergeAll(models[..h]), e0) && g1 == Without(MergeAll(models[h..]), e1)
    requires final == Without(MergeAll([g0, g1]), e2)
    ensures AllConsistent(final)
  {
    forall i | 0 <= i < |parts| ensures AllConsistent(models[i]) {
      AggregateConsistent(parts[i]);
      WithoutConsistent(Aggregate(parts[i]), drops[i]);
    }
    MergeAllConsistent(models[..h]);
    MergeAllConsistent(models[h..]);
    WithoutConsistent(MergeAll(models[..h]), e0);
    WithoutConsistent(MergeAll(models[h..]), e1);
    MergeAllConsistent([g0, g1]);
    WithoutConsistent(MergeAll([g0, g1]), e2);
  }

  /** The worker results of channels `lo` to `hi` are what a group merge takes. */
  lemma GroupReady(results: seq<Result>, models: seq<Table>, walks: seq<seq<Table>>, names: set<seq<byte>>,
                   lo: nat, hi: nat)
    requires Sources(results, models, walks, names) && lo <= hi <= |results|
    ensures Sources(results[lo..hi], models[lo..hi], walks[lo..hi], names)
  {
  }

  /** The two group results are what the final merge takes. */
  lemma PairReady(g0: Result, m0: Table, w0: seq<Table>, g1: Result, m1: Table, w1: seq<Table>,
                  names: set<seq<byte>>)
    requires WalkOf(w0, m0, g0.idxMap, g0.temps) && WalkOf(w1, m1, g1.idxMap, g1.temps)
    requires m0.Keys <= names && m1.Keys <= names
    ensures Sources([g0, g1], [m0, m1], [w0, w1], names)
  {
  }

  /**
   * The chunking and the workers of `main`: the `numCPUs` chunks of the plan, each
   * processed by a worker, the readings of chunk `i` being `parts[i]`.
   */
  method ChunkWork(data: seq<byte>, numCPUs: nat, ghost rs: seq<Reading>)
    returns (results: seq<Result>, ghost models: seq<Table>, ghost walks: seq<seq<Table>>,
             ghost drops: seq<set<seq<byte>>>, ghost parts: seq<seq<Reading>>)
    requires numCPUs >= 1 && WellFormed(rs) && NameLengths(rs, 1, 100) && data == Encode(rs)
    requires |Names(rs)| <= CAP
    requires ProbesInside(|data|, ShareOf(|data|, numCPUs), numCPUs)
    ensures |results| == numCPUs && Flatten(parts) == rs
    ensures Sources(results, models, walks, Names(rs)) && Pieces(models, parts, drops)
  {
    var chunkSize := ShareOf(|data|, numCPUs);
    parts := PlanSplits(rs, chunkSize, numCPUs);
    var chunkList, readFailed := GenerateChunkIndices(data, numCPUs, chunkSize);
    results, models, walks, drops := Workers(data, chunkList, parts, rs);
  }

  /**
   * The merge tree of `main`: `sumResults` over each half of the channels, `numToSum`
   * channels each, then the final merge of the two group results. The final table is the aggregate of all the
   * parts except for the names `lost`, names of the input dropped by some probe.
   */
  method MergeTree(results: seq<Result>, ghost models: seq<Table>, ghost walks: seq<seq<Table>>,
                   ghost drops: seq<set<seq<byte>>>, ghost parts: seq<seq<Reading>>, ghost rs: seq<Reading>,
                   numToSum: nat)
    returns (dest: StationIndex, ghost lost: set<seq<byte>>)
    requires Sources(results, models, walks, Names(rs)) && Pieces(models, parts, drops)
    requires Flatten(parts) == rs && |Names(rs)| <= CAP && |results| == 2 * numToSum
    ensures dest.Valid() && dest.hash == MergeHash
    ensures AllConsistent(dest.Model()) && Counted(dest.Model())
    ensures lost <= Names(rs) && Without(dest.Model(), lost) == Without(Aggregate(rs), lost)
    ensures lost == {} ==> dest.Model() == Aggregate(rs)
    ensures forall n :: n in lost ==> LateStart(n)
  {
    ghost var names := Names(rs);
    GroupReady(results, models, walks, names, 0, numToSum);
    GroupReady(results, models, walks, names, numToSum, 2 * numToSum);
    var g0, m0, w0, e0 := SumGroup(results[..numToSum], models[..numToSum], walks[..numToSum], names);
    var g1, m1, w1, e1 := SumGroup(results[numToSum..2 * numToSum], models[numToSum..2 * numToSum],
                                   walks[numToSum..2 * numToSum], names);
    PairReady(g0, m0, w0, g1, m1, w1, names);
    ghost var e2;
    dest, e2 := SumResults([g0, g1], false, [m0, m1], [w0, w1], names);
    lost := (UnionAll(drops) + e0 + e1 + e2) * names;
    dest.DroppedHigh(e2);
    LostLate(drops, e0 + e1 + e2, lost);
    SliceToEnd(models, numToSum, 2 * numToSum);
    AggregateKeys(rs);
    Conclude(parts, rs, models, drops, numToSum, m0, e0, m1, e1, dest.Model(), e2, names, lost);
  }

  /**
   * `main` of go_parallel_eq.go on the file `data` of the readings `rs`, with `cpus`
   * standing for `runtime.NumCPU()`: `10 * cpus` chunks, a worker per chunk, two group
   * merges over the two halves of the channels, the final merge of the two group
   * results and the listing. The listing is the report of the final table, which is
   * the aggregate of the readings except for the names `lost` whose probe ran past the
   * last slot somewhere along the way; when no name is lost it is the aggregate itself.
   */
  method Run(data: seq<byte>, cpus: nat, ghost rs: seq<Reading>)
    returns (out: seq<Entry>, ghost final: Table, ghost lost: set<seq<byte>>)
    requires cpus >= 1 && WellFormed(rs) && NameLengths(rs, 1, 100) && data == Encode(rs)
    requires |Names(rs)| <= CAP
    requires ProbesInside(|data|, ShareOf(|data|, 10 * cpus), 10 * cpus)
    ensures AllConsistent(final) && Counted(final) && out == ReportOf(final)
    ensures lost <= Names(rs) && Without(final, lost) == Without(Aggregate(rs), lost)
    ensures lost == {} ==> final == Aggregate(rs)
    ensures forall n :: n in lost ==> LateStart(n)
    ensures (forall n :: n in Names(rs) ==> !LateStart(n)) ==> out == ReportOf(Aggregate(rs))
  {
    var numCPUs := 10 * cpus;
    var results, models, walks, drops, parts := ChunkWork(data, numCPUs, rs);
    var numToSum := numCPUs / 2;
    EvenSplit(cpus);
    var dest;
    dest, lost := MergeTree(results, models, walks, drops, parts, rs, numToSum);
    final := dest.Model();
    out := PrintResults(dest);
  }

  /** `10 * NumCPU` channels split into two halves of `numToSum` channels leave none over. */
  lemma EvenSplit(cpus: nat)
    ensures 2 * ((10 * cpus) / 2) == 10 * cpus
  {
    HalfOfDouble(5 * cpus);
  }

  /** Halving an even count. */
  lemma HalfOfDouble(h: nat)
    ensures (2 * h) / 2 == h
  {
  }

  /**
   * Two tables over the names `names` that agree apart from the names `d` agree apart
   * from those of `d` among `names`, and are equal when there are none.
   */
  lemma Narrow(a: Table, b: Table, d: set<seq<byte>>, names: set<seq<byte>>)
    requires a.Keys <= names && b.Keys <= names && Without(a, d) == Without(b, d)
    ensures Without(a, d * names) == Without(b, d * names)
    ensures d * names == {} ==> a == b
  {
    WithoutOutside(a, d, names);
    WithoutOutside(b, d, names);
    if d * names == {} {
      WithoutNothing(a);
      WithoutNothing(b);
    }
  }

  /** The facts `MergeTree` states about the final table, from the merge tree. */
  lemma Conclude(parts: seq<seq<Reading>>, rs: seq<Reading>, models: seq<Table>, drops: seq<set<seq<byte>>>, h: nat,
                 g0: Table, e0: set<seq<byte>>, g1: Table, e1: set<seq<byte>>,
                 final: Table, e2: set<seq<byte>>, names: set<seq<byte>>, lost: set<seq<byte>>)
    requires Flatten(parts) == rs && Aggregate(rs).Keys <= names
    requires Pieces(models, parts, drops) && h <= |parts|
    requires g0 == Without(MergeAll(models[..h]), e0) && g1 == Without(MergeAll(models[h..]), e1)
    requires g0.Keys <= names && g1.Keys <= names
    requires final == Without(MergeAll([g0, g1]), e2)
    requires lost == (UnionAll(drops) + e0 + e1 + e2) * names
    ensures AllConsistent(final) && Counted(final)
    ensures lost <= names && Without(final, lost) == Without(Aggregate(rs), lost)
    ensures lost == {} ==> final == Aggregate(rs)
  {
    TreeConsistent(parts, models, drops, h, g0, e0, g1, e1, final, e2);
    TreeMergeNarrow(parts, models, drops, h, g0, e0, g1, e1, final, e2, names, lost);
  }
}
