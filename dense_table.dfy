/**
 * The map-backed station table of go_parallel_thread_factor.go and the single-thread
 * variants: `stationIdxMap` gives each name its index into four record arrays of 10000
 * entries (`stationTemperatures`), handed out consecutively by a `stationIdx` counter
 * the caller keeps. In go_single_thread_arrays.go the sums are `int32` and the counts
 * `uint32`, both wrapping; elsewhere they are `int` and `uint`.
 */
module DenseTable {
  import opened Bytes
  import opened Lines
  import opened Stats
  import opened OpenAddressing
  import opened KeySort
  import opened Report

  // ---------------------------------------------------------------------------
  // The int32 sums and uint32 counts

  /** `TempSum[i] += t`, in `int32` when `narrow`. */
  function SumAdd(narrow: bool, sum: int, t: int): int {
    if narrow then WrapInt32(sum + t) else sum + t
  }

  /** `Count[i]++`, in `uint32` when `narrow`. */
  function CountUp(narrow: bool, c: nat): nat {
    if narrow then WrapUint32(c + 1) else c + 1
  }

  /** Folding a reading into a record, wrapping the sum and the count when `narrow`. */
  function AddIn(narrow: bool, s: Stats, t: int): Stats {
    Stats(SumAdd(narrow, s.sum, t), CountUp(narrow, s.count), Min(s.min, t), Max(s.max, t))
  }

  /** A record as the arrays hold it: sum and count wrapped when `narrow`. */
  function WrapStats(narrow: bool, s: Stats): Stats {
    if narrow then Stats(WrapInt32(s.sum), WrapUint32(s.count), s.min, s.max) else s
  }

  /** A table as the arrays hold it. */
  function WrapTable(narrow: bool, m: Table): (w: Table)
    ensures w.Keys == m.Keys
    ensures forall n :: n in m ==> w[n] == WrapStats(narrow, m[n])
  {
    map n | n in m :: WrapStats(narrow, m[n])
  }

  /**
   * What the arrays do with a reading: a name already held folds it in, wrapping when
   * `narrow`; a new name starts from the reading alone.
   */
  function RecordIn(narrow: bool, m: Table, r: Reading): (t: Table)
    ensures t.Keys == m.Keys + {r.name}
    ensures forall n :: n in m && n != r.name ==> t[n] == m[n]
  {
    if r.name in m then m[r.name := AddIn(narrow, m[r.name], r.temp)] else m[r.name := Single(r.temp)]
  }

  /** Without wrap-around the arrays record a reading as the aggregate does. */
  lemma RecordInWide(m: Table, r: Reading)
    ensures RecordIn(false, m, r) == Record(m, r)
  {
  }

  /**
   * Recording a reading and then wrapping is wrapping and then folding with wrap-around:
   * a running int32 sum and uint32 count end up as the exact ones modulo 2^32.
   */
  lemma WrapRecord(narrow: bool, m: Table, r: Reading)
    requires narrow ==> -0x8000_0000 <= r.temp < 0x8000_0000
    ensures WrapTable(narrow, Record(m, r)) == RecordIn(narrow, WrapTable(narrow, m), r)
  {
    if r.name in m {
      WrapAdd(narrow, m[r.name], r.temp);
      WrapUpdate(narrow, m, r.name, Add(m[r.name], r.temp));
    } else {
      WrapUpdate(narrow, m, r.name, Single(r.temp));
    }
  }

  /** The wrapped fold of a wrapped record is the wrapped fold of the exact one. */
  lemma WrapAdd(narrow: bool, s: Stats, t: int)
    ensures WrapStats(narrow, Add(s, t)) == AddIn(narrow, WrapStats(narrow, s), t)
  {
    if narrow {
      WrapInt32Add(s.sum, t);
      WrapUint32Add(s.count, 1);
    }
  }

  lemma WrapUpdate(narrow: bool, m: Table, n: seq<byte>, v: Stats)
    ensures WrapTable(narrow, m[n := v]) == WrapTable(narrow, m)[n := WrapStats(narrow, v)]
  {
    assert WrapTable(narrow, m[n := v]).Keys == (WrapTable(narrow, m)[n := WrapStats(narrow, v)]).Keys;
  }

  /** Every sum fits in `int32` and every count in `uint32`. */
  ghost predicate Fits(m: Table) {
    forall n :: n in m ==> -0x8000_0000 <= m[n].sum < 0x8000_0000 && m[n].count < 0x1_0000_0000
  }

  /** The wrapped table is the exact one exactly when every sum and count fits. */
  lemma FitsUnwrapped(m: Table)
    ensures WrapTable(true, m) == m <==> Fits(m)
  {
    if WrapTable(true, m) == m {
      forall n | n in m ensures -0x8000_0000 <= m[n].sum < 0x8000_0000 && m[n].count < 0x1_0000_0000 {
        assert WrapTable(true, m)[n] == m[n];
      }
    }
  }

  /** A sum of readings of at most 999 tenths each is at most 999 per reading. */
  lemma {:induction false} SumBound(ts: seq<int>)
    requires forall i :: 0 <= i < |ts| ==> -999 <= ts[i] <= 999
    ensures -999 * |ts| <= SumOf(ts) <= 999 * |ts|
  {
    if ts != [] {
      SumBound(ts[..|ts| - 1]);
    }
  }

  /** The readings of one station are readings of the input: no more of them, and as bounded. */
  lemma {:induction false} TempsOfBound(rs: seq<Reading>, n: seq<byte>)
    requires WellFormed(rs)
    ensures |TempsOf(rs, n)| <= |rs|
    ensures forall i :: 0 <= i < |TempsOf(rs, n)| ==> -999 <= TempsOf(rs, n)[i] <= 999
  {
    if rs != [] {
      var init := rs[..|rs| - 1];
      TempsOfBound(init, n);
      var ts := TempsOf(rs, n);
      forall i | 0 <= i < |ts| ensures -999 <= ts[i] <= 999 {
        if i < |TempsOf(init, n)| {
          assert ts[i] == TempsOf(init, n)[i];
        }
      }
    }
  }

  /**
   * go_single_thread_arrays.go: with fewer than 2^31 / 999 readings in the file no int32
   * sum and no uint32 count wraps, so the arrays hold the exact aggregate.
   */
  lemma AggregateFits(rs: seq<Reading>)
    requires WellFormed(rs) && |rs| * 999 < 0x8000_0000
    ensures Fits(Aggregate(rs)) && WrapTable(true, Aggregate(rs)) == Aggregate(rs)
  {
    forall n | n in Aggregate(rs)
      ensures -0x8000_0000 <= Aggregate(rs)[n].sum < 0x8000_0000 && Aggregate(rs)[n].count < 0x1_0000_0000
    {
      AggregateMeaning(rs, n);
      TempsOfBound(rs, n);
      SumBound(TempsOf(rs, n));
    }
    FitsUnwrapped(Aggregate(rs));
  }

  // ---------------------------------------------------------------------------
  // Dense indices

  /** `idxMap` gives `order[k]` the index `k`, and no other name an index. */
  ghost predicate Indexes(idxMap: map<seq<byte>, int>, order: seq<seq<byte>>) {
    && (forall n :: n in idxMap ==> 0 <= idxMap[n] < |order| && order[idxMap[n]] == n)
    && (forall k :: 0 <= k < |order| ==> order[k] in idxMap && idxMap[order[k]] == k)
  }

  /** A new name gets the next index. */
  lemma IndexesAppend(idxMap: map<seq<byte>, int>, order: seq<seq<byte>>, name: seq<byte>)
    requires Indexes(idxMap, order) && name !in idxMap
    ensures Indexes(idxMap[name := |order|], order + [name])
  {
    var m, o := idxMap[name := |order|], order + [name];
    forall k | 0 <= k < |o| ensures o[k] in m && m[o[k]] == k {
      if k < |order| {
        assert o[k] == order[k] && order[k] in idxMap;
      }
    }
  }

  /** The sum and count entries from `k` on are zero, as `make` left them. */
  ghost predicate ZeroFrom(sum: seq<int>, cnt: seq<nat>, k: nat) {
    |sum| == |cnt| && forall j :: k <= j < |sum| ==> sum[j] == 0 && cnt[j] == 0
  }

  /** Writing entry `k` moves the zero entries up by one. */
  lemma ZeroClaim(sum: seq<int>, cnt: seq<nat>, k: nat, s: int, c: nat)
    requires ZeroFrom(sum, cnt, k) && k < |sum|
    ensures ZeroFrom(sum[k := s], cnt[k := c], k + 1)
  {
  }

  /** Writing an entry below `k` keeps the zero entries. */
  lemma ZeroKeep(sum: seq<int>, cnt: seq<nat>, k: nat, i: nat, s: int, c: nat)
    requires ZeroFrom(sum, cnt, k) && i < k && i < |sum|
    ensures ZeroFrom(sum[i := s], cnt[i := c], k)
  {
  }

  /** The indices of a map are below its size and no two names share one: `0..k-1`, each once. */
  predicate DenseKeys(m: map<seq<byte>, int>) {
    && (forall n :: n in m ==> 0 <= m[n] < |m|)
    && (forall a, b :: a in m && b in m && a != b ==> m[a] != m[b])
  }

  /** A table as a worker hands it on: its map and its records by index. */
  datatype DenseResult = DenseResult(idxMap: map<seq<byte>, int>, temps: seq<Stats>)

  /** The table a result holds: each name of its map with the record at its index. */
  ghost function ResultOf(r: DenseResult): (m: Table)
    ensures m.Keys <= r.idxMap.Keys
  {
    map n | n in r.idxMap && 0 <= r.idxMap[n] < |r.temps| :: r.temps[r.idxMap[n]]
  }

  class StationTable {
    /** `stationIdxMap`: the index of each name into the record arrays. */
    var idxMap: map<seq<byte>, int>
    /** `stationData`: the record arrays, 10000 entries each. */
    const tempSum: array<int>
    const count: array<nat>
    const minT: array<int>
    const maxT: array<int>
    /** Whether the sums are `int32` and the counts `uint32`. */
    const narrow: bool
    /** The names in the order they were added: `order[k]` has index `k`. */
    ghost var order: seq<seq<byte>>

    /** The map and the arrays agree; entries past the last index are still zero. */
    ghost predicate Valid()
      reads this, tempSum, count, minT, maxT
    {
      && tempSum.Length == CAP && count.Length == CAP && minT.Length == CAP && maxT.Length == CAP
      && tempSum != minT && tempSum != maxT && minT != maxT
      && |order| <= CAP && Indexes(idxMap, order)
      && ZeroFrom(tempSum[..], count[..], |order|)
    }

    /** The table the map and the arrays represent. */
    ghost function Model(): Table
      reads this, tempSum, count, minT, maxT
      requires Valid()
    {
      TableOf(order, tempSum[..], count[..], minT[..], maxT[..])
    }

    /** `make(map[string]int, 10_000)` and four `make([]T, 10_000)`: nothing held, all zero. */
    constructor (narrow: bool)
      ensures Valid() && this.narrow == narrow
      ensures Model() == map[] && idxMap == map[] && order == []
      ensures fresh(tempSum) && fresh(count) && fresh(minT) && fresh(maxT)
    {
      this.narrow := narrow;
      idxMap := map[];
      tempSum := new int[CAP](_ => 0);
      count := new nat[CAP](_ => 0);
      minT := new int[CAP](_ => 0);
      maxT := new int[CAP](_ => 0);
      order := [];
    }

    /** The record at index `k`. */
    function RecordAt(k: nat): Stats
      reads this, tempSum, count, minT, maxT
      requires k < tempSum.Length && k < count.Length && k < minT.Length && k < maxT.Length
    {
      Stats(tempSum[k], count[k], minT[k], maxT[k])
    }

    /**
     * The table holds exactly the names of the map, one per index handed out, and the
     * map's indices are `0..k-1`, each once.
     */
    lemma ModelKeys()
      requires Valid()
      ensures forall n :: n in Model() <==> n in idxMap
      ensures |Model()| == |idxMap| == |order|
      ensures DenseKeys(idxMap)
    {
      assert Distinct(order) by {
        forall k1, k2 | 0 <= k1 < k2 < |order| ensures order[k1] != order[k2] {
          assert idxMap[order[k1]] == k1 && idxMap[order[k2]] == k2;
        }
      }
      TableOfKeys(order, tempSum[..], count[..], minT[..], maxT[..]);
      TableOfSize(order, tempSum[..], count[..], minT[..], maxT[..]);
      forall n ensures n in Model() <==> n in idxMap {
        if n in idxMap {
          assert order[idxMap[n]] == n;
        }
        if n in Model() {
          var k :| 0 <= k < |order| && order[k] == n;
        }
      }
      assert Model().Keys == idxMap.Keys;
    }

    /** The record of a name of the map is the one at its index. */
    lemma ModelAt(n: seq<byte>)
      requires Valid() && n in idxMap
      ensures 0 <= idxMap[n] < CAP && n in Model() && Model()[n] == RecordAt(idxMap[n])
    {
      ModelKeys();
      TableOfAt(order, tempSum[..], count[..], minT[..], maxT[..], idxMap[n]);
    }

    /**
     * `stIdx, ok := stationIdxMap[name]` when `ok`, then `TempSum[stIdx] += t`,
     * `Count[stIdx]++` and the new minimum and maximum.
     */
    method Fold(ghost name: seq<byte>, stIdx: int, t: int)
      requires Valid() && name in idxMap && stIdx == idxMap[name]
      modifies tempSum, count, minT, maxT
      ensures Valid() && idxMap == old(idxMap) && order == old(order) && name in old(Model())
      ensures Model() == old(Model())[name := AddIn(narrow, old(Model())[name], t)]
    {
      ModelAt(name);
      ModelKeys();
      ghost var r := AddIn(narrow, RecordAt(stIdx), t);
      ghost var sum0, count0, min0, max0 := tempSum[..], count[..], minT[..], maxT[..];
      TableOfUpdate(order, sum0, count0, min0, max0, stIdx, r);
      ZeroKeep(sum0, count0, |order|, stIdx, r.sum, r.count);
      tempSum[stIdx] := SumAdd(narrow, tempSum[stIdx], t);
      assert tempSum[..] == sum0[stIdx := r.sum];
      count[stIdx] := CountUp(narrow, count[stIdx]);
      assert count[..] == count0[stIdx := r.count];
      minT[stIdx] := Min(minT[stIdx], t);
      assert minT[..] == min0[stIdx := r.min];
      maxT[stIdx] := Max(maxT[stIdx], t);
      assert maxT[..] == max0[stIdx := r.max];
    }

    /** A new name at index `stationIdx`, which then holds the fields of record `r`. */
    method Claim(name: seq<byte>, stationIdx: int, r: Stats)
      requires Valid() && name !in idxMap && stationIdx == |order| < CAP
      modifies this, tempSum, count, minT, maxT
      ensures Valid() && idxMap == old(idxMap)[name := stationIdx] && order == old(order) + [name]
      ensures Model() == old(Model())[name := r]
    {
      ghost var sum0, count0 := tempSum[..], count[..];
      TableOfAppend(order, sum0, count0, minT[..], maxT[..], name, r);
      ZeroClaim(sum0, count0, stationIdx, r.sum, r.count);
      IndexesAppend(idxMap, order, name);
      idxMap := idxMap[name := stationIdx];
      tempSum[stationIdx] := r.sum;
      count[stationIdx] := r.count;
      assert tempSum[..] == sum0[stationIdx := r.sum] && count[..] == count0[stationIdx := r.count];
      minT[stationIdx] := r.min;
      maxT[stationIdx] := r.max;
      order := order + [name];
    }

    /**
     * A new name as go_single_thread_profiling.go, go_single_thread_arrays_single_parse.go
     * and go_single_thread_arrays*.go store it: `TempSum[stationIdx] += t` and
     * `Count[stationIdx]++` on the still zero entry, `Min` and `Max` set to `t`.
     */
    method ClaimAdd(name: seq<byte>, stationIdx: int, t: int)
      requires Valid() && name !in idxMap && stationIdx == |order| < CAP
      requires narrow ==> -0x8000_0000 <= t < 0x8000_0000
      modifies this, tempSum, count, minT, maxT
      ensures Valid() && idxMap == old(idxMap)[name := stationIdx] && order == old(order) + [name]
      ensures Model() == old(Model())[name := Single(t)]
    {
      ghost var sum0, count0 := tempSum[..], count[..];
      TableOfAppend(order, sum0, count0, minT[..], maxT[..], name, Single(t));
      ZeroClaim(sum0, count0, stationIdx, t, 1);
      IndexesAppend(idxMap, order, name);
      idxMap := idxMap[name := stationIdx];
      assert tempSum[stationIdx] == sum0[stationIdx] == 0 && count0[stationIdx] == 0;
      tempSum[stationIdx] := SumAdd(narrow, tempSum[stationIdx], t);
      assert tempSum[..] == sum0[stationIdx := t];
      count[stationIdx] := CountUp(narrow, count[stationIdx]);
      assert count[..] == count0[stationIdx := 1];
      minT[stationIdx] := t;
      maxT[stationIdx] := t;
      order := order + [name];
    }

    /**
     * The merge of go_parallel_thread_factor.go on a name the sum table holds: sums and
     * counts add, minimum and maximum combine.
     */
    method CombineAt(ghost name: seq<byte>, stIdx: int, src: Stats)
      requires Valid() && !narrow && name in idxMap && stIdx == idxMap[name]
      modifies tempSum, count, minT, maxT
      ensures Valid() && idxMap == old(idxMap) && order == old(order) && name in old(Model())
      ensures Model() == old(Model())[name := Combine(old(Model())[name], src)]
    {
      ModelAt(name);
      ModelKeys();
      ghost var r := Combine(RecordAt(stIdx), src);
      ghost var sum0, count0, min0, max0 := tempSum[..], count[..], minT[..], maxT[..];
      TableOfUpdate(order, sum0, count0, min0, max0, stIdx, r);
      ZeroKeep(sum0, count0, |order|, stIdx, r.sum, r.count);
      tempSum[stIdx] := tempSum[stIdx] + src.sum;
      assert tempSum[..] == sum0[stIdx := r.sum];
      count[stIdx] := count[stIdx] + src.count;
      assert count[..] == count0[stIdx := r.count];
      minT[stIdx] := Min(src.min, minT[stIdx]);
      assert minT[..] == min0[stIdx := r.min];
      maxT[stIdx] := Max(src.max, maxT[stIdx]);
      assert maxT[..] == max0[stIdx := r.max];
    }

    /** The records of the arrays, by index. */
    ghost function Records(): seq<Stats>
      reads tempSum, count, minT, maxT
      requires count.Length == tempSum.Length && minT.Length == tempSum.Length && maxT.Length == tempSum.Length
    {
      RecordsOf(tempSum[..], count[..], minT[..], maxT[..])
    }

    /** `resultType{Temps: stationData, IdxMap: stationIdxMap}`: the result holds the table. */
    method Send() returns (r: DenseResult)
      requires Valid()
      ensures r.idxMap == idxMap && |r.temps| == CAP && r.temps == Records()
      ensures ResultOf(r) == Model() && DenseKeys(r.idxMap)
    {
      r := DenseResult(idxMap, RecordsOf(tempSum[..], count[..], minT[..], maxT[..]));
      ResultHolds(r);
    }

    /** A result of the map and the records by index holds the table. */
    lemma ResultHolds(r: DenseResult)
      requires Valid() && r.idxMap == idxMap && r.temps == Records()
      ensures ResultOf(r) == Model() && DenseKeys(r.idxMap)
    {
      ModelKeys();
      forall n | n in idxMap ensures n in ResultOf(r) && ResultOf(r)[n] == Model()[n] {
        ModelAt(n);
      }
      assert ResultOf(r).Keys == Model().Keys;
    }
  }

  /**
   * `addTemperatureData` (go_single_thread_profiling.go), and the same steps inline in
   * go_single_thread_arrays_single_parse.go and go_single_thread_arrays*.go: a name the
   * map holds folds the reading into its record and keeps the counter; a new name gets
   * index `stationIdx`, its zeroed entry takes the reading, and the counter moves on.
   */
  method AddTemperatureData(table: StationTable, station: seq<byte>, temperature: int, stationIdx: int,
                            ghost names: set<seq<byte>>)
    returns (nextIdx: int)
    requires table.Valid() && stationIdx == |table.order|
    requires table.Model().Keys <= names && station in names && |names| <= CAP
    requires table.narrow ==> -0x8000_0000 <= temperature < 0x8000_0000
    modifies table, table.tempSum, table.count, table.minT, table.maxT
    ensures table.Valid() && nextIdx == |table.order|
    ensures table.Model() == RecordIn(table.narrow, old(table.Model()), Reading(station, temperature))
    ensures station in old(table.idxMap) ==> nextIdx == stationIdx && table.idxMap == old(table.idxMap)
    ensures station !in old(table.idxMap) ==>
      nextIdx == stationIdx + 1 && table.idxMap == old(table.idxMap)[station := stationIdx]
  {
    table.ModelKeys();
    nextIdx := stationIdx;
    if station in table.idxMap {
      var stIdx := table.idxMap[station];
      table.Fold(station, stIdx, temperature);
    } else {
      RoomForOne(table.Model().Keys, station, names);
      table.ClaimAdd(station, stationIdx, temperature);
      nextIdx := stationIdx + 1;
    }
  }

  /**
   * The aggregation step of go_parallel_thread_factor.go (`processChunk`),
   * go_single_thread_parsing.go and go_single_thread_variables.go: a name the map holds
   * folds the reading into its record; a new name gets index `stationIdx` and a record
   * written outright as `sum = min = max = t`, `count = 1`, and the counter moves on.
   */
  method StoreReading(table: StationTable, r: Reading, stationIdx: int, ghost names: set<seq<byte>>)
    returns (nextIdx: int)
    requires table.Valid() && !table.narrow && stationIdx == |table.order|
    requires table.Model().Keys <= names && r.name in names && |names| <= CAP
    modifies table, table.tempSum, table.count, table.minT, table.maxT
    ensures table.Valid() && nextIdx == |table.order| && table.Model() == Record(old(table.Model()), r)
    ensures r.name in old(table.idxMap) ==> nextIdx == stationIdx && table.idxMap == old(table.idxMap)
    ensures r.name !in old(table.idxMap) ==>
      nextIdx == stationIdx + 1 && table.idxMap == old(table.idxMap)[r.name := stationIdx]
  {
    table.ModelKeys();
    RecordInWide(table.Model(), r);
    nextIdx := stationIdx;
    if r.name in table.idxMap {
      var stIdx := table.idxMap[r.name];
      table.Fold(r.name, stIdx, r.temp);
    } else {
      RoomForOne(table.Model().Keys, r.name, names);
      table.Claim(r.name, stationIdx, Single(r.temp));
      nextIdx := stationIdx + 1;
    }
  }

  /**
   * `printSolution` (go_single_thread_profiling.go) and the same listing inline in the
   * other variants: for each name of the sorted key list, its index from the map and the
   * `roundJava` figures of its record. The output is the report of the table.
   */
  method PrintSolution(keys: seq<seq<byte>>, table: StationTable) returns (out: seq<Entry>)
    requires table.Valid() && Counted(table.Model()) && keys == SortedOf(table.Model().Keys)
    ensures out == ReportOf(table.Model())
  {
    ghost var model := table.Model();
    table.ModelKeys();
    out := [];
    var i := 0;
    while i < |keys|
      invariant i <= |keys| == |model|
      invariant out == ReportOf(model)[..i]
    {
      var station := keys[i];
      ReportStep(model, i);
      table.ModelAt(station);
      var idx := table.idxMap[station];
      var entry := EntryOf(station, table.RecordAt(idx));
      assert entry == ReportOf(model)[i];
      PrefixStep(ReportOf(model), i);
      out := out + [entry];
      i := i + 1;
    }
  }

  /**
   * The listing loop of go_single_thread_variables.go and go_single_thread_arrays*.go
   * up to its `float32` formatting: for each name of the sorted key list, the record at
   * the name's index.
   */
  method ListRecords(keys: seq<seq<byte>>, table: StationTable) returns (recs: seq<Stats>)
    requires table.Valid() && keys == SortedOf(table.Model().Keys)
    ensures |recs| == |keys|
    ensures forall i :: 0 <= i < |keys| ==> keys[i] in table.Model() && recs[i] == table.Model()[keys[i]]
  {
    ghost var model := table.Model();
    table.ModelKeys();
    SortedOfMeaning(model.Keys);
    recs := [];
    var i := 0;
    while i < |keys|
      invariant i <= |keys|
      invariant |recs| == i
      invariant forall j :: 0 <= j < i ==> keys[j] in model && recs[j] == model[keys[j]]
    {
      var station := keys[i];
      assert station in keys;
      table.ModelAt(station);
      var idx := table.idxMap[station];
      recs := recs + [table.RecordAt(idx)];
      i := i + 1;
    }
  }

  /** `sortStationNames` on the table's map: the table's names, each once, in ascending order. */
  method SortedKeys(table: StationTable) returns (keys: seq<seq<byte>>)
    requires table.Valid()
    ensures keys == SortedOf(table.Model().Keys)
  {
    keys := SortStationNames(table.idxMap);
    table.ModelKeys();
    assert table.idxMap.Keys == table.Model().Keys;
  }
}
