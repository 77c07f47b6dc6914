/**
 * c_parallel.c: ten threads fill one open-addressing table each from their chunk,
 * `sum_results` folds the thread results into one table in thread order, and
 * `print_results` sorts the slots with `qsort` and lists the taken ones.
 */
module CParallel {
  import opened Bytes
  import opened Lines
  import opened Stats
  import opened Fnv
  import opened FixedShape
  import opened OpenAddressing
  import opened Tracking
  import opened Chunks
  import opened KeySort
  import opened Report
  import opened ParallelEq

  // ---------------------------------------------------------------------------
  // compare and the qsort of print_results

  /** A name ends at its first NUL byte in C; these have none. */
  predicate NulFree(n: seq<byte>) {
    0 !in n
  }

  /**
   * `strcmp` on two NUL-terminated names: the difference of the first bytes that
   * differ, the terminating NUL counting as 0.
   */
  function Strcmp(a: seq<byte>, b: seq<byte>): (r: int)
    ensures a == b ==> r == 0
    ensures -255 <= r <= 255
    decreases |a|
  {
    if a == [] && b == [] then 0
    else if a == [] then -(b[0] as int)
    else if b == [] then a[0] as int
    else if a[0] != b[0] then a[0] as int - b[0] as int
    else Strcmp(a[1..], b[1..])
  }

  /** On NUL-free names `strcmp` is the byte order: its sign says which name sorts first. */
  lemma {:induction false} StrcmpOrder(a: seq<byte>, b: seq<byte>)
    requires NulFree(a) && NulFree(b)
    ensures Strcmp(a, b) < 0 <==> Less(a, b)
    ensures Strcmp(a, b) == 0 <==> a == b
    ensures Strcmp(a, b) > 0 <==> Less(b, a)
    decreases |a|
  {
    if a != [] && b != [] && a[0] == b[0] {
      assert a[1..] == a[1..] && 0 !in a[1..] && 0 !in b[1..];
      StrcmpOrder(a[1..], b[1..]);
      if a[1..] == b[1..] {
        assert a == [a[0]] + a[1..] && b == [b[0]] + b[1..];
      }
    } else if a != [] && b == [] {
      assert a[0] in a;
    } else if a == [] && b != [] {
      assert b[0] in b;
    }
  }

  /**
   * `compare`, the `qsort` comparator of `print_results`: the `strcmp` of the two
   * slots' names. Its null checks never fire, as a slot's name is an array inside the
   * slot.
   */
  function Compare(a: Slot, b: Slot): (r: int)
    ensures NulFree(a.station) && NulFree(b.station) ==>
      (r < 0 <==> Less(a.station, b.station)) && (r == 0 <==> a.station == b.station)
  {
    if NulFree(a.station) && NulFree(b.station) then
      StrcmpOrder(a.station, b.station);
      Strcmp(a.station, b.station)
    else
      Strcmp(a.station, b.station)
  }

  /** Every name of `s`, also the empty name of a free slot, is NUL-free. */
  predicate SlotsNulFree(s: seq<Slot>) {
    forall i :: 0 <= i < |s| ==> NulFree(s[i].station)
  }

  /** Sorted by `compare`: no slot compares greater than a later one. */
  predicate SortedByCompare(s: seq<Slot>) {
    forall i, j :: 0 <= i < j < |s| ==> Compare(s[i], s[j]) <= 0
  }

  /** Every name compares equal to itself only, and `compare` orders NUL-free names totally. */
  lemma CompareTotal(a: Slot, b: Slot)
    requires NulFree(a.station) && NulFree(b.station)
    ensures Compare(a, b) <= 0 || Compare(b, a) <= 0
    ensures Compare(a, b) <= 0 && Compare(b, a) <= 0 ==> a.station == b.station
  {
    StrcmpOrder(a.station, b.station);
    StrcmpOrder(b.station, a.station);
    if a.station != b.station {
      LessTotal(a.station, b.station);
    }
    if Less(a.station, b.station) {
      LessAsymmetric(a.station, b.station);
    }
  }

  lemma CompareTransitive(a: Slot, b: Slot, c: Slot)
    requires NulFree(a.station) && NulFree(b.station) && NulFree(c.station)
    requires Compare(a, b) <= 0 && Compare(b, c) <= 0
    ensures Compare(a, c) <= 0
  {
    StrcmpOrder(a.station, b.station);
    StrcmpOrder(b.station, c.station);
    StrcmpOrder(a.station, c.station);
    if Less(a.station, b.station) && Less(b.station, c.station) {
      LessTransitive(a.station, b.station, c.station);
    }
  }

  /** Inserting one slot before the first that does not compare below it. */
  function InsertSlot(x: Slot, s: seq<Slot>): (r: seq<Slot>)
    ensures multiset(r) == multiset(s) + multiset{x}
  {
    if s == [] || Compare(x, s[0]) <= 0 then [x] + s
    else
      assert s == [s[0]] + s[1..];
      [s[0]] + InsertSlot(x, s[1..])
  }

  /**
   * `qsort(sum_idx_map, MASK + 1, sizeof *sum_idx_map, compare)`, as the contents it
   * leaves: the same slots, rearranged. Which equal slots end up where is not said by
   * `qsort`; on slots whose taken names are distinct the only equal slots are free ones.
   */
  function SortSlots(s: seq<Slot>): (r: seq<Slot>)
    ensures multiset(r) == multiset(s) && |r| == |s|
  {
    if s == [] then []
    else
      assert s == [s[0]] + s[1..];
      InsertSlot(s[0], SortSlots(s[1..]))
  }

  lemma {:induction false} InsertSlotSorted(x: Slot, s: seq<Slot>)
    requires SortedByCompare(s) && SlotsNulFree(s) && NulFree(x.station)
    ensures SortedByCompare(InsertSlot(x, s))
  {
    var r := InsertSlot(x, s);
    if s == [] {
    } else if Compare(x, s[0]) <= 0 {
      forall i, j | 0 <= i < j < |r| ensures Compare(r[i], r[j]) <= 0 {
        if i == 0 && j > 1 {
          CompareTransitive(x, s[0], s[j - 1]);
        }
      }
    } else {
      CompareTotal(x, s[0]);
      var t := InsertSlot(x, s[1..]);
      InsertSlotSorted(x, s[1..]);
      forall j | 0 < j < |r| ensures Compare(s[0], r[j]) <= 0 {
        assert r[j] in multiset(t);
        if r[j] != x {
          assert r[j] in multiset(s[1..]);
          var k :| 0 <= k < |s[1..]| && s[1..][k] == r[j];
          assert s[k + 1] == r[j];
        }
      }
    }
  }

  /** Rearranging NUL-free slots leaves them NUL-free. */
  lemma NulFreeKept(s: seq<Slot>, t: seq<Slot>)
    requires SlotsNulFree(s) && multiset(t) == multiset(s)
    ensures SlotsNulFree(t)
  {
    forall i | 0 <= i < |t| ensures NulFree(t[i].station) {
      assert t[i] in multiset(s);
      var k :| 0 <= k < |s| && s[k] == t[i];
    }
  }

  lemma {:induction false} SortSlotsSorted(s: seq<Slot>)
    requires SlotsNulFree(s)
    ensures SortedByCompare(SortSlots(s))
  {
    if s != [] {
      SortSlotsSorted(s[1..]);
      var t := SortSlots(s[1..]);
      NulFreeKept(s[1..], t);
      InsertSlotSorted(s[0], t);
    }
  }

  lemma {:induction false} InsertSlotUnique(x: Slot, s: seq<Slot>)
    requires Unique(s)
    requires x.station != [] ==> forall k :: 0 <= k < |s| ==> s[k].station != x.station
    ensures Unique(InsertSlot(x, s))
  {
    if s != [] && Compare(x, s[0]) > 0 {
      var t := InsertSlot(x, s[1..]);
      InsertSlotUnique(x, s[1..]);
      var r := [s[0]] + t;
      forall j | 0 < j < |r| && s[0].station != [] ensures s[0].station != r[j].station {
        assert r[j] in multiset(t);
        if r[j] != x {
          assert r[j] in multiset(s[1..]);
          var k :| 0 <= k < |s[1..]| && s[1..][k] == r[j];
          assert s[k + 1] == r[j];
        }
      }
      assert forall a, b :: 0 < a < b < |r| ==> r[a] == t[a - 1] && r[b] == t[b - 1];
    }
  }

  /** Sorting keeps every taken name at most once. */
  lemma {:induction false} SortSlotsUnique(s: seq<Slot>)
    requires Unique(s)
    ensures Unique(SortSlots(s))
  {
    if s != [] {
      SortSlotsUnique(s[1..]);
      var t := SortSlots(s[1..]);
      forall k | 0 <= k < |t| && s[0].station != [] ensures t[k].station != s[0].station {
        assert t[k] in multiset(s[1..]);
        var i :| 0 <= i < |s[1..]| && s[1..][i] == t[k];
        assert s[i + 1] == t[k];
      }
      InsertSlotUnique(s[0], t);
    }
  }

  /** The taken names of a sorted slot sequence with distinct taken names are strictly ascending. */
  lemma {:induction false} OccupantsStrict(s: seq<Slot>, j: nat)
    requires j <= |s| && SortedByCompare(s) && SlotsNulFree(s) && Unique(s)
    ensures StrictlySorted(Occupants(s, j))
  {
    if j > 0 {
      OccupantsStrict(s, j - 1);
      var prev := Occupants(s, j - 1);
      var n := s[j - 1].station;
      if n != [] {
        OccupantsMeaning(s, j - 1);
        var cur := prev + [n];
        forall a | 0 <= a < |prev| ensures Less(prev[a], n) {
          assert prev[a] in prev;
          var k :| 0 <= k < j - 1 && s[k].station == prev[a] && prev[a] != [];
          StrcmpOrder(s[k].station, n);
        }
        assert forall a, b :: 0 <= a < b < |cur| ==> Less(cur[a], cur[b]);
      }
    }
  }

  /** The taken names of the first `j` slots begin the taken names of the first `k`. */
  lemma {:induction false} OccupantsPrefix(s: seq<Slot>, j: nat, k: nat)
    requires j <= k <= |s|
    ensures Occupants(s, j) <= Occupants(s, k)
    decreases k
  {
    if j < k {
      OccupantsPrefix(s, j, k - 1);
    }
  }

  /** A taken slot `j` lists its name at the position of the taken slots before it. */
  lemma OccupantAt(s: seq<Slot>, j: nat)
    requires j < |s| && s[j].station != []
    ensures var o, i := Occupants(s, |s|), |Occupants(s, j)|;
      i < |o| && o[i] == s[j].station
  {
    OccupantsPrefix(s, j + 1, |s|);
    assert Occupants(s, j + 1) == Occupants(s, j) + [s[j].station];
  }

  /** A taken slot of a valid index names a station of its table, with that station's record. */
  lemma SlotRecord(table: StationIndex, sl: Slot)
    requires table.Valid() && sl in table.slots[..] && sl.station != []
    ensures sl.station in table.Model() && 0 <= sl.idx < CAP
    ensures table.RecordAt(sl.idx) == table.Model()[sl.station]
  {
    var j :| 0 <= j < SLOTS && table.slots[j] == sl;
    SlotInOrder(table.slots[..], table.order, table.at, j);
    table.ModelAt(sl.idx);
  }

  /** A listed name is the name of a taken slot among the first `j`. */
  lemma {:induction false} OccupantIndex(s: seq<Slot>, j: nat, n: seq<byte>) returns (k: nat)
    requires j <= |s| && n in Occupants(s, j)
    ensures k < j && s[k].station == n && n != []
  {
    if n in Occupants(s, j - 1) {
      k := OccupantIndex(s, j - 1, n);
    } else {
      k := j - 1;
    }
  }

  /** Slot sequences with the same slots list the same names. */
  lemma SameListed(s: seq<Slot>, t: seq<Slot>, n: seq<byte>)
    requires multiset(s) == multiset(t) && n in Occupants(t, |t|)
    ensures n in Occupants(s, |s|)
  {
    var k := OccupantIndex(t, |t|, n);
    assert t[k] in multiset(s);
    var j :| 0 <= j < |s| && s[j] == t[k];
    OccupantAt(s, j);
  }

  /** The names a sorted copy lists: those of the original, strictly ascending. */
  lemma SortedNames(s: seq<Slot>, sorted: seq<Slot>)
    requires SlotsNulFree(s) && Unique(s) && sorted == SortSlots(s)
    ensures StrictlySorted(Occupants(sorted, |sorted|))
    ensures forall n :: n in Occupants(sorted, |sorted|) <==> n in Occupants(s, |s|)
  {
    SortSlotsSorted(s);
    SortSlotsUnique(s);
    NulFreeKept(s, sorted);
    OccupantsStrict(sorted, |sorted|);
    forall n ensures n in Occupants(sorted, |sorted|) <==> n in Occupants(s, |s|) {
      if n in Occupants(sorted, |sorted|) {
        SameListed(s, sorted, n);
      }
      if n in Occupants(s, |s|) {
        SameListed(sorted, s, n);
      }
    }
  }

  /** A valid index whose table has NUL-free names has NUL-free slots, and its taken slots hold its names. */
  lemma IndexNames(table: StationIndex)
    requires table.Valid() && (forall n :: n in table.Model() ==> NulFree(n))
    ensures SlotsNulFree(table.slots[..]) && Unique(table.slots[..])
    ensures forall n :: n in Occupants(table.slots[..], SLOTS) <==> n in table.Model()
  {
    forall j | 0 <= j < SLOTS ensures NulFree(table.slots[j].station) {
      if table.slots[j].station != [] {
        SlotRecord(table, table.slots[j]);
      }
    }
    OccupantsAreOrder(table.hash, table.slots[..], table.order, table.at);
    table.ModelKeys();
  }

  /**
   * The slots of a valid index whose table has NUL-free names, sorted by `compare`:
   * their taken names are the table's names in ascending order.
   */
  lemma SortedListing(table: StationIndex, sorted: seq<Slot>)
    requires table.Valid() && (forall n :: n in table.Model() ==> NulFree(n))
    requires sorted == SortSlots(table.slots[..])
    ensures |sorted| == SLOTS && multiset(sorted) == multiset(table.slots[..])
    ensures Occupants(sorted, SLOTS) == SortedOf(table.Model().Keys)
    ensures |Occupants(sorted, SLOTS)| == |table.Model()|
  {
    IndexNames(table);
    SortedNames(table.slots[..], sorted);
    SortedOfMeaning(table.Model().Keys);
    StrictlySortedUnique(Occupants(sorted, SLOTS), SortedOf(table.Model().Keys));
    assert |table.Model().Keys| == |table.Model()|;
  }

  /** What the listing prints for the taken sorted slot `idx`: the next entry of the report. */
  lemma ListedStep(sorted: seq<Slot>, model: Table, idx: nat)
    requires Counted(model) && |sorted| == SLOTS && Occupants(sorted, SLOTS) == SortedOf(model.Keys)
    requires idx < SLOTS && sorted[idx].station != [] && sorted[idx].station in model
    ensures |Occupants(sorted, idx)| < |model|
    ensures ReportOf(model)[|Occupants(sorted, idx)|] == EntryOf(sorted[idx].station, model[sorted[idx].station])
  {
    OccupantAt(sorted, idx);
    ReportStep(model, |Occupants(sorted, idx)|);
  }

  /**
   * Sorted slots ready for the listing of `model` from the record arrays of `table`:
   * their taken names list the table's names in ascending order, and each taken slot's
   * dense index addresses that name's record.
   */
  ghost predicate Listable(table: StationIndex, sorted: seq<Slot>, model: Table)
    reads table, table.tempSum, table.count, table.minT, table.maxT
  {
    && table.tempSum.Length == CAP && table.count.Length == CAP && table.minT.Length == CAP && table.maxT.Length == CAP
    && |sorted| == SLOTS && Counted(model) && Occupants(sorted, SLOTS) == SortedOf(model.Keys)
    && forall k :: 0 <= k < SLOTS && sorted[k].station != [] ==>
         sorted[k].station in model && 0 <= sorted[k].idx < CAP && table.RecordAt(sorted[k].idx) == model[sorted[k].station]
  }

  /**
   * The `qsort` of `print_results` on the slots of a valid index whose table has
   * NUL-free names: the same slots, in `compare` order, listing the table's names in
   * ascending order, each with its record.
   */
  method QSort(table: StationIndex) returns (sorted: seq<Slot>)
    requires table.Valid() && Counted(table.Model()) && (forall n :: n in table.Model() ==> NulFree(n))
    ensures multiset(sorted) == multiset(table.slots[..]) && SortedByCompare(sorted)
    ensures Listable(table, sorted, table.Model())
  {
    sorted := SortSlots(table.slots[..]);
    SortedListing(table, sorted);
    IndexNames(table);
    SortSlotsSorted(table.slots[..]);
    forall k | 0 <= k < SLOTS && sorted[k].station != []
      ensures sorted[k].station in table.Model() && 0 <= sorted[k].idx < CAP
      ensures table.RecordAt(sorted[k].idx) == table.Model()[sorted[k].station]
    {
      assert sorted[k] in multiset(table.slots[..]);
      SlotRecord(table, sorted[k]);
    }
  }

  /**
   * The loop of `print_results` over the sorted slots: a taken slot prints its name with
   * the `round_java` figures of the record at its dense index, a free one is skipped.
   */
  method PrintSortedC(table: StationIndex, sorted: seq<Slot>, ghost model: Table) returns (out: seq<Entry>)
    requires Listable(table, sorted, model)
    ensures out == ReportOf(model)
  {
    out := [];
    ghost var listed := 0;
    var idx := 0;
    while idx < SLOTS
      invariant idx <= SLOTS
      invariant listed == |Occupants(sorted, idx)| <= |model|
      invariant out == ReportOf(model)[..listed]
    {
      if sorted[idx].station != [] {
        var entry := PrintSlot(table, sorted, model, idx);
        PrefixStep(ReportOf(model), listed);
        out := out + [entry];
        listed := listed + 1;
      }
      idx := idx + 1;
    }
    ListedAll(sorted, model);
    assert ReportOf(model)[..listed] == ReportOf(model);
  }

  /**
   * The `printf` of a taken slot: its name with the figures of the record at its dense
   * index, which is the next entry of the report.
   */
  method PrintSlot(table: StationIndex, sorted: seq<Slot>, ghost model: Table, idx: nat) returns (entry: Entry)
    requires Listable(table, sorted, model) && idx < SLOTS && sorted[idx].station != []
    ensures |Occupants(sorted, idx)| < |model|
    ensures entry == ReportOf(model)[|Occupants(sorted, idx)|]
  {
    ListedStep(sorted, model, idx);
    var stationIdx := sorted[idx].idx;
    entry := EntryOf(sorted[idx].station, table.RecordAt(stationIdx));
  }

  /** The sorted slots hold one taken slot per name of the table. */
  lemma ListedAll(sorted: seq<Slot>, model: Table)
    requires |sorted| == SLOTS && Occupants(sorted, SLOTS) == SortedOf(model.Keys)
    ensures |Occupants(sorted, SLOTS)| == |model|
  {
    assert |SortedOf(model.Keys)| == |model.Keys| == |model|;
  }

  /**
   * `print_results`: the slots are sorted by `compare`, then listed. The entries are the
   * report of the table.
   */
  method PrintResultsC(table: StationIndex) returns (out: seq<Entry>)
    requires table.Valid() && Counted(table.Model())
    requires forall n :: n in table.Model() ==> NulFree(n)
    ensures out == ReportOf(table.Model())
  {
    var sorted := QSort(table);
    out := PrintSortedC(table, sorted, table.Model());
  }

  // ---------------------------------------------------------------------------
  // process_chunk

  /**
   * One line of `process_chunk`: `station_name[0] = content[0]`, then the name bytes up
   * to `;` are copied and hashed from `content[1]` on. The `'\0'` goes to
   * `station_name[semicolon_idx]`, so a name must be at most 99 bytes long to leave room
   * for it in the 100-byte buffer. The reading is decoded as in the Go workers (sign
   * first, then `D.D` or `DD.D` by `content[1] == '.'`, constants 528 and 5328).
   */
  method ReadLineC(content: seq<byte>) returns (station: seq<byte>, nameHash: int, temperature: int, next: seq<byte>)
    requires 1 < |content| && SEMICOLON in content[1..] && NameEnd(content) <= 99
    requires DecodableAt(content, NameEnd(content) + 1)
    ensures station == content[..NameEnd(content)] && nameHash == WorkerHash(station)
    ensures var d := DecodeSignFirst(content, NameEnd(content) + 1);
      temperature == d.temp && next == content[d.next..]
  {
    var semicolonIdx, rest;
    station, semicolonIdx, nameHash := ScanNameHashed(content, 0, 99);
    assert semicolonIdx + 1 == NameEnd(content) + 1;
    temperature, rest := DecodeTemperature(content, semicolonIdx + 1);
    next := content[rest..];
  }

  /**
   * `process_chunk`: every line of the chunk is decoded and its reading goes into the
   * thread's table, whose probe looks for a free slot (`name[0] == 0`) before comparing
   * names. The table then holds the aggregate of the chunk's readings except for the
   * names whose probe ran past the last slot; those names' probes still do.
   */
  method ProcessChunkC(chunk: seq<byte>, ghost rs: seq<Reading>) returns (table: StationIndex, ghost dropped: set<seq<byte>>)
    requires WellFormed(rs) && NameLengths(rs, 1, 99) && chunk == Encode(rs)
    requires |Names(rs)| <= CAP
    ensures fresh(table) && fresh(table.slots) && fresh(table.tempSum) && fresh(table.count)
    ensures fresh(table.minT) && fresh(table.maxT)
    ensures table.Valid() && table.hash == WorkerHash
    ensures table.Model() == Without(Aggregate(rs), dropped)
    ensures dropped <= Names(rs) && AllFull(WorkerHash, table.slots[..], dropped)
  {
    table := new StationIndex(WorkerHash);
    dropped := {};
    WithoutNothing(Aggregate([]));
    var content := chunk;
    ghost var i := 0;
    while |content| > 0
      invariant i <= |rs| && WellFormed(rs[i..]) && content == Encode(rs[i..])
      invariant fresh(table) && fresh(table.slots) && fresh(table.tempSum) && fresh(table.count)
      invariant fresh(table.minT) && fresh(table.maxT)
      invariant table.Valid() && table.hash == WorkerHash
      invariant table.Model() == Without(Aggregate(rs[..i]), dropped)
      invariant dropped <= Names(rs[..i]) && AllFull(WorkerHash, table.slots[..], dropped)
      decreases |content|
    {
      EncodeEmpty(rs[i..]);
      LineAhead(rs, i, content);
      var station, nameHash, temperature;
      station, nameHash, temperature, content := ReadLineC(content);
      assert Reading(station, temperature) == rs[i];
      ReadingStep(rs, i);
      dropped := AddTracked(table, station, nameHash, temperature, true, Aggregate(rs[..i]), dropped, Names(rs));
      i := i + 1;
    }
    EncodeEmpty(rs[i..]);
    assert rs[..i] == rs;
  }

  /**
   * One thread: `process_chunk` on its chunk, the `Result` it returns to `pthread_join`
   * read as a value. `model` is the table the result holds and `walk` its slot-order
   * walk; the thread's dropped names come from the chunk.
   */
  method WorkerC(chunk: seq<byte>, ghost rs: seq<Reading>)
    returns (result: Result, ghost model: Table, ghost walk: seq<Table>, ghost dropped: set<seq<byte>>)
    requires WellFormed(rs) && NameLengths(rs, 1, 99) && chunk == Encode(rs)
    requires |Names(rs)| <= CAP
    ensures WalkOf(walk, model, result.idxMap, result.temps)
    ensures model == Without(Aggregate(rs), dropped) && dropped <= Names(rs)
    ensures AllFull(WorkerHash, result.idxMap, dropped) && HighStart(WorkerHash, dropped)
  {
    var table;
    table, dropped := ProcessChunkC(chunk, rs);
    table.DroppedHigh(dropped);
    result := table.Send();
    table.Walk();
    model := table.Model();
    walk := Parts(model, table.slots[..]);
  }

  /**
   * The threads of `main`, one per entry of `chunk_list` in order, each given
   * `&data[start_idx]` and `end_idx - start_idx + 1` bytes, chunk `i` being the bytes of
   * the readings `parts[i]`, which are readings of the whole file `rs`.
   */
  method WorkersC(data: seq<byte>, chunkList: array<Chunk>, ghost parts: seq<seq<Reading>>, ghost rs: seq<Reading>)
    returns (results: seq<Result>, ghost models: seq<Table>, ghost walks: seq<seq<Table>>,
             ghost drops: seq<set<seq<byte>>>)
    requires Holds(chunkList[..], data, parts)
    requires forall i, r :: 0 <= i < |parts| && r in parts[i] ==> r in rs
    requires NameLengths(rs, 1, 99) && |Names(rs)| <= CAP
    ensures |results| == chunkList.Length
    ensures Sources(results, models, walks, Names(rs)) && Pieces(models, parts, drops)
  {
    ghost var names := Names(rs);
    results, models, walks, drops := [], [], [], [];
    var threadId := 0;
    while threadId < chunkList.Length
      invariant threadId <= chunkList.Length && |results| == threadId
      invariant Sources(results, models, walks, names) && Pieces(models, parts[..threadId], drops)
    {
      WorkerReady(data, chunkList[..], parts, rs, threadId, 99);
      var start, end := chunkList[threadId].start, chunkList[threadId].end;
      var result, model, walk, dropped := WorkerC(data[start..end + 1], parts[threadId]);
      PiecesAppend(models, parts, drops, threadId, model, dropped);
      SourcesAppend(results, models, walks, names, result, model, walk);
      results, models, walks, drops := results + [result], models + [model], walks + [walk], drops + [dropped];
      threadId := threadId + 1;
    }
    assert parts[..threadId] == parts;
  }

  // ---------------------------------------------------------------------------
  // main

  /**
   * The merge of `sum_results` on the tables: thread tables `models[i]`, each the
   * aggregate of its part without its dropped names, folded into one table dropping
   * names `e` of its own. It is consistent, and apart from the dropped names among
   * `names` it is the aggregate of all the readings.
   */
  lemma ConcludeC(parts: seq<seq<Reading>>, rs: seq<Reading>, models: seq<Table>, drops: seq<set<seq<byte>>>,
                  final: Table, e: set<seq<byte>>, names: set<seq<byte>>, lost: set<seq<byte>>)
    requires Flatten(parts) == rs && Aggregate(rs).Keys <= names && Pieces(models, parts, drops)
    requires forall i :: 0 <= i < |models| ==> models[i].Keys <= names
    requires final == Without(MergeAll(models), e)
    requires lost == (UnionAll(drops) + e) * names
    ensures AllConsistent(final) && Counted(final)
    ensures lost <= names && Without(final, lost) == Without(Aggregate(rs), lost)
    ensures lost == {} ==> final == Aggregate(rs)
  {
    forall i | 0 <= i < |parts| ensures AllConsistent(models[i]) {
      AggregateConsistent(parts[i]);
      WithoutConsistent(Aggregate(parts[i]), drops[i]);
    }
    MergeAllConsistent(models);
    WithoutConsistent(MergeAll(models), e);
    var all := UnionAll(drops) + e;
    WithoutWithout(MergeAll(models), e, all);
    assert e + all == all;
    WithoutMergeAll(AggregateEach(parts), models, drops, all);
    PartitionIndependent(parts);
    MergeAllKeys(models, names);
    Narrow(final, Aggregate(rs), all, names);
  }

  /** NUL-free names give tables with NUL-free names. */
  lemma NamesNulFree(rs: seq<Reading>, t: Table)
    requires NoNul(rs) && t.Keys <= Names(rs)
    ensures forall n :: n in t ==> NulFree(n)
  {
  }

  /**
   * The plan of `main`: 10 threads, `chunk_size = data_size / 10`, and the `chunk_list`
   * of `generate_chunk_indices`, chunk `i` holding the readings `parts[i]`.
   */
  method PlanC(data: seq<byte>, ghost rs: seq<Reading>) returns (chunkList: array<Chunk>, ghost parts: seq<seq<Reading>>)
    requires WellFormed(rs) && NameLengths(rs, 1, 99) && data == Encode(rs)
    requires ProbesInside(|data|, ShareOf(|data|, 10), 10)
    ensures chunkList.Length == 10 && Flatten(parts) == rs && Holds(chunkList[..], data, parts)
    ensures forall i, r :: 0 <= i < |parts| && r in parts[i] ==> r in rs
  {
    var numThreads := 10;
    var chunkSize := ShareOf(|data|, numThreads);
    chunkList := GenerateChunkIndicesC(data, numThreads, chunkSize);
    parts := PlanSplits(rs, chunkSize, numThreads);
    CChunksAgree(data, chunkSize, numThreads);
    assert chunkList[..] == chunkList[..][..numThreads];
  }

  /**
   * `sum_results` on the joined threads' results, with what it comes to: the sum table
   * is consistent, and it is the aggregate of all the parts except for the names `lost`
   * of the input dropped by a probe in some thread or in the merge itself.
   */
  method SumResultsC(results: seq<Result>, ghost models: seq<Table>, ghost walks: seq<seq<Table>>,
                     ghost drops: seq<set<seq<byte>>>, ghost parts: seq<seq<Reading>>, ghost rs: seq<Reading>)
    returns (dest: StationIndex, ghost lost: set<seq<byte>>)
    requires Sources(results, models, walks, Names(rs)) && Pieces(models, parts, drops)
    requires Flatten(parts) == rs && |Names(rs)| <= CAP
    ensures dest.Valid() && dest.hash == MergeHash
    ensures AllConsistent(dest.Model()) && Counted(dest.Model()) && dest.Model().Keys <= Names(rs)
    ensures lost <= Names(rs) && Without(dest.Model(), lost) == Without(Aggregate(rs), lost)
    ensures lost == {} ==> dest.Model() == Aggregate(rs)
    ensures forall n :: n in lost ==> LateStart(n)
  {
    ghost var names := Names(rs);
    ghost var e;
    dest, e := SumResults(results, true, models, walks, names);
    lost := (UnionAll(drops) + e) * names;
    dest.DroppedHigh(e);
    LostLate(drops, e, lost);
    AggregateKeys(rs);
    ConcludeC(parts, rs, models, drops, dest.Model(), e, names, lost);
  }

  /**
   * `main` of c_parallel.c on the file `data` of the readings `rs`: ten threads over the
   * chunks of `generate_chunk_indices`, `sum_results` over the threads in order, and
   * `print_results`. The listing is the report of the final table, which is the
   * aggregate of the readings except for the names `lost` whose probe ran past the last
   * slot somewhere along the way; when no name is lost it is the aggregate itself.
   */
  method RunC(data: seq<byte>, ghost rs: seq<Reading>) returns (out: seq<Entry>, ghost final: Table, ghost lost: set<seq<byte>>)
    requires WellFormed(rs) && NameLengths(rs, 1, 99) && NoNul(rs) && data == Encode(rs)
    requires |Names(rs)| <= CAP
    requires ProbesInside(|data|, ShareOf(|data|, 10), 10)
    ensures AllConsistent(final) && Counted(final) && out == ReportOf(final)
    ensures lost <= Names(rs) && Without(final, lost) == Without(Aggregate(rs), lost)
    ensures lost == {} ==> final == Aggregate(rs)
    ensures forall n :: n in lost ==> LateStart(n)
    ensures (forall n :: n in Names(rs) ==> !LateStart(n)) ==> out == ReportOf(Aggregate(rs))
  {
    var chunkList, parts := PlanC(data, rs);
    var results, models, walks, drops := WorkersC(data, chunkList, parts, rs);
    var dest;
    dest, lost := SumResultsC(results, models, walks, drops, parts, rs);
    final := dest.Model();
    NamesNulFree(rs, final);
    out := PrintResultsC(dest);
  }
}
