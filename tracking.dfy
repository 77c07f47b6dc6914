/**
 * The probe loops of the open-addressing variants, with the names whose probe runs past
 * the last slot kept aside as a ghost set `dropped`. Such a reading, or such a source
 * record in a merge, is lost without a trace, so what a table holds is the reference
 * table without the dropped names; the dropped names' probes keep running past the last
 * slot as slots are claimed, which is what makes a later reading of one of them lost too.
 */
module Tracking {
  import opened Bytes
  import opened Lines
  import opened Stats
  import opened Fnv
  import opened OpenAddressing

  /** A record under a name the table does not hold is lost when the name is dropped. */
  lemma DropStep(m: Table, n: seq<byte>, s: Stats, d: set<seq<byte>>)
    requires n !in Without(m, d)
    ensures Without(MergeOne(m, n, s), d + {n}) == Without(m, d)
  {
    WithoutMergeOneDropped(m, n, s, d + {n});
    if n !in d {
      WithoutFresh(m, n, d);
    } else {
      assert d + {n} == d;
    }
  }

  /**
   * One probe, on the tables: a record whose probe found a slot is folded in under its
   * name, and one whose probe ran past the last slot adds its name to the dropped names.
   */
  lemma TrackedStep(m: Table, n: seq<byte>, s: Stats, dropped: set<seq<byte>>, model0: Table, model1: Table, full: bool)
    requires model0 == Without(m, dropped)
    requires full ==> n !in model0 && model1 == model0
    requires !full ==> n !in dropped && model1 == MergeOne(model0, n, s)
    ensures model1 == Without(MergeOne(m, n, s), if full then dropped + {n} else dropped)
  {
    if full {
      DropStep(m, n, s, dropped);
    } else {
      WithoutMergeOneKept(m, n, s, dropped);
    }
  }

  /**
   * What holds before one probe: a vacant slot leaves room in the record arrays for one
   * more station, and a name whose probe stops at a slot is not among the dropped names.
   */
  lemma RoomToAdd(table: StationIndex, name: seq<byte>, nameHash: int,
                  m: Table, dropped: set<seq<byte>>, names: set<seq<byte>>)
    requires table.Valid() && name != [] && nameHash == table.hash(name)
    requires table.Model() == Without(m, dropped) && AllFull(table.hash, table.slots[..], dropped)
    requires m.Keys + {name} <= names && |names| <= CAP
    ensures ProbeFrom(table.slots[..], name, nameHash).Vacant? ==> table.stationIdx < CAP
    ensures !ProbeFrom(table.slots[..], name, nameHash).Full? ==> name !in dropped
  {
    var p := ProbeFrom(table.slots[..], name, nameHash);
    ProbeFinds(table.hash, table.slots[..], table.order, table.at, name);
    table.ModelHas(name);
    table.ModelSize();
    if p.Vacant? {
      RoomForOne(table.Model().Keys, name, names);
    }
  }

  /**
   * The probe loop of a worker on one reading (`processChunk`, `process_chunk`): the
   * table goes on holding the aggregate `m` without the dropped names, with the reading
   * recorded unless its name is dropped now or was before, and the dropped names' probes
   * keep running past the last slot. At most 10000 different names (`|names| <= CAP`)
   * ever reach the table, as the record arrays have 10000 entries.
   */
  method AddTracked(table: StationIndex, name: seq<byte>, nameHash: int, temperature: int, cOrder: bool,
                    ghost m: Table, ghost dropped: set<seq<byte>>, ghost names: set<seq<byte>>)
    returns (ghost dropped': set<seq<byte>>)
    requires table.Valid() && name != [] && nameHash == table.hash(name)
    requires table.Model() == Without(m, dropped) && AllFull(table.hash, table.slots[..], dropped)
    requires m.Keys + {name} <= names && |names| <= CAP
    modifies table, table.slots, table.tempSum, table.count, table.minT, table.maxT
    ensures table.Valid()
    ensures table.Model() == Without(Record(m, Reading(name, temperature)), dropped')
    ensures AllFull(table.hash, table.slots[..], dropped')
    ensures dropped' == dropped || dropped' == dropped + {name}
  {
    ghost var s0, model0, idx0 := table.slots[..], table.Model(), table.stationIdx;
    RoomToAdd(table, name, nameHash, m, dropped, names);
    var p := table.AddReading(name, nameHash, temperature, cOrder);
    RecordIsMergeOne(model0, Reading(name, temperature));
    RecordIsMergeOne(m, Reading(name, temperature));
    TrackedStep(m, name, Single(temperature), dropped, model0, table.Model(), p.Full?);
    AllFullAfter(table.hash, s0, table.slots[..], dropped, name, p, Slot(name, idx0));
    dropped' := if p.Full? then dropped + {name} else dropped;
  }

  /**
   * The probe loop of a merge on one source record (`sumResults`, the final merge of
   * `main`, `sum_results`): the same bookkeeping with the record folded in whole.
   */
  method MergeTracked(table: StationIndex, name: seq<byte>, nameHash: int, src: Stats, cOrder: bool,
                      ghost m: Table, ghost dropped: set<seq<byte>>, ghost names: set<seq<byte>>)
    returns (ghost dropped': set<seq<byte>>)
    requires table.Valid() && name != [] && nameHash == table.hash(name)
    requires table.Model() == Without(m, dropped) && AllFull(table.hash, table.slots[..], dropped)
    requires m.Keys + {name} <= names && |names| <= CAP
    modifies table, table.slots, table.tempSum, table.count, table.minT, table.maxT
    ensures table.Valid()
    ensures table.Model() == Without(MergeOne(m, name, src), dropped')
    ensures AllFull(table.hash, table.slots[..], dropped')
    ensures dropped' == dropped || dropped' == dropped + {name}
  {
    ghost var s0, model0, idx0 := table.slots[..], table.Model(), table.stationIdx;
    RoomToAdd(table, name, nameHash, m, dropped, names);
    var p := table.MergeEntry(name, nameHash, src, cOrder);
    TrackedStep(m, name, src, dropped, model0, table.Model(), p.Full?);
    AllFullAfter(table.hash, s0, table.slots[..], dropped, name, p, Slot(name, idx0));
    dropped' := if p.Full? then dropped + {name} else dropped;
  }

  /**
   * A merge destination table tracks `m` with `dropped` set aside: it is keyed by the
   * hash over all the bytes of a name, it holds `m` without the dropped names, and the
   * dropped names' probes run past its last slot.
   */
  ghost predicate Tracks(t: StationIndex, m: Table, dropped: set<seq<byte>>)
    reads t, t.slots, t.tempSum, t.count, t.minT, t.maxT
  {
    t.Valid() && t.hash == MergeHash && t.Model() == Without(m, dropped) && AllFull(MergeHash, t.slots[..], dropped)
  }

  /**
   * One slot of the walk of a merge over a source result: a taken slot's name is
   * rehashed over all its bytes and its record, read at the slot's dense index, is
   * merged into `dest`; a free slot is skipped. `p` and `q` are what the walk has
   * collected before and after the slot.
   */
  method MergeSlot(dest: StationIndex, station: Slot, temps: seq<Stats>, cOrder: bool,
                   ghost srcModel: Table, ghost p: Table, ghost q: Table,
                   ghost m: Table, ghost dropped: set<seq<byte>>, ghost names: set<seq<byte>>)
    returns (ghost dropped': set<seq<byte>>)
    requires Tracks(dest, MergeTables(m, p), dropped) && StepTo(srcModel, p, q, station, temps)
    requires m.Keys <= names && p.Keys <= srcModel.Keys <= names && |names| <= CAP
    modifies dest, dest.slots, dest.tempSum, dest.count, dest.minT, dest.maxT
    ensures Tracks(dest, MergeTables(m, q), dropped') && q.Keys <= srcModel.Keys
    ensures dropped <= dropped'
  {
    dropped' := dropped;
    if station.station != [] {
      var nameHash := FnvHash(station.station);
      var record := temps[station.idx];
      MergeTablesAddEntry(m, p, station.station, record);
      dropped' := MergeTracked(dest, station.station, nameHash, record, cOrder, MergeTables(m, p), dropped, names);
    }
  }

  /**
   * The walk of a merge over one source result (the inner loop of `sumResults`, of the
   * final merge of `main` and of `sum_results`): the source slots in slot order, each
   * by `MergeSlot`. `dest` ends up tracking `m` merged with the source table
   * `srcModel`; the new dropped names are names of the input.
   */
  method MergeSource(dest: StationIndex, src: Result, cOrder: bool,
                     ghost srcModel: Table, ghost parts: seq<Table>,
                     ghost m: Table, ghost dropped: set<seq<byte>>, ghost names: set<seq<byte>>)
    returns (ghost dropped': set<seq<byte>>)
    requires Tracks(dest, m, dropped) && WalkOf(parts, srcModel, src.idxMap, src.temps)
    requires m.Keys <= names && srcModel.Keys <= names && |names| <= CAP
    modifies dest, dest.slots, dest.tempSum, dest.count, dest.minT, dest.maxT
    ensures Tracks(dest, MergeTables(m, srcModel), dropped')
    ensures dropped <= dropped'
  {
    MergeTablesEmpty(m);
    dropped' := dropped;
    var j := 0;
    while j < SLOTS
      invariant j <= SLOTS
      invariant Tracks(dest, MergeTables(m, parts[j]), dropped') && parts[j].Keys <= srcModel.Keys
      invariant dropped <= dropped'
    {
      assert StepTo(srcModel, parts[j], parts[j + 1], src.idxMap[j], src.temps);
      dropped' := MergeSlot(dest, src.idxMap[j], src.temps, cOrder, srcModel, parts[j], parts[j + 1], m, dropped', names);
      j := j + 1;
    }
    assert parts[j] == srcModel;
  }

  /**
   * Results ready for a merge: each result's walk collects its table `models[i]`, whose
   * names are among `names`.
   */
  ghost predicate Sources(results: seq<Result>, models: seq<Table>, parts: seq<seq<Table>>, names: set<seq<byte>>) {
    && |models| == |results| && |parts| == |results|
    && (forall i :: 0 <= i < |results| ==> WalkOf(parts[i], models[i], results[i].idxMap, results[i].temps))
    && (forall i :: 0 <= i < |results| ==> models[i].Keys <= names)
  }

  /**
   * `sumResults`, the final merge of `main` and `sum_results`: a fresh table keyed by
   * the hash over all the bytes of a name, into which the source results are walked one
   * after the other in channel order. It ends up tracking the merge of all the source
   * tables, `models[i]` being the table result `i` holds and `parts[i]` its walk.
   */
  method SumResults(results: seq<Result>, cOrder: bool, ghost models: seq<Table>,
                    ghost parts: seq<seq<Table>>, ghost names: set<seq<byte>>)
    returns (dest: StationIndex, ghost dropped: set<seq<byte>>)
    requires Sources(results, models, parts, names) && |names| <= CAP
    ensures fresh(dest) && fresh(dest.slots) && fresh(dest.tempSum) && fresh(dest.count)
    ensures fresh(dest.minT) && fresh(dest.maxT)
    ensures Tracks(dest, MergeAll(models), dropped)
  {
    dest := new StationIndex(MergeHash);
    dropped := {};
    WithoutNothing(map[]);
    var k := 0;
    while k < |results|
      invariant k <= |results|
      invariant fresh(dest) && fresh(dest.slots) && fresh(dest.tempSum) && fresh(dest.count)
      invariant fresh(dest.minT) && fresh(dest.maxT)
      invariant Tracks(dest, MergeAll(models[..k]), dropped)
    {
      MergeAllKeys(models[..k], names);
      dropped := MergeSource(dest, results[k], cOrder, models[k], parts[k], MergeAll(models[..k]), dropped, names);
      MergeAllStep(models, k);
      k := k + 1;
    }
    assert models[..k] == models;
  }

  /**
   * A name that some table may lose: its start slot is among the top `CAP` slots of a
   * worker table or of a merge table.
   */
  predicate LateStart(n: seq<byte>) {
    SLOTS - CAP <= WorkerHash(n) || SLOTS - CAP <= MergeHash(n)
  }

  /** The names dropped by any of several tables keyed by `h` all start in the top `CAP` slots. */
  lemma {:induction false} UnionAllHigh(h: seq<byte> -> nat, ds: seq<set<seq<byte>>>)
    requires forall i :: 0 <= i < |ds| ==> HighStart(h, ds[i])
    ensures HighStart(h, UnionAll(ds))
  {
    if ds != [] {
      UnionAllHigh(h, ds[..|ds| - 1]);
    }
  }

  /**
   * Names lost by the worker tables (`drops`) or by the merge tables (`merged`) start
   * late in one of the two tables.
   */
  lemma LostLate(drops: seq<set<seq<byte>>>, merged: set<seq<byte>>, lost: set<seq<byte>>)
    requires forall i :: 0 <= i < |drops| ==> HighStart(WorkerHash, drops[i])
    requires HighStart(MergeHash, merged) && lost <= UnionAll(drops) + merged
    ensures forall n :: n in lost ==> LateStart(n)
  {
    UnionAllHigh(WorkerHash, drops);
  }
}
