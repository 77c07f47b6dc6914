/**
 * What every variant computes per station: the sum, count, minimum and maximum of its
 * readings in tenths of a degree. `Aggregate` is the reference definition (one pass,
 * first reading creates the record, later readings fold into it); every table below is
 * proved to hold it. `MergeTables` is the reduction step of the parallel variants.
 */
module Stats {
  import opened Bytes
  import opened Lines

  /** One station's record: `TempSum`, `Count`, `Min`, `Max`. */
  datatype Stats = Stats(sum: int, count: nat, min: int, max: int)

  /** A name-keyed table of records. */
  type Table = map<seq<byte>, Stats>

  function Min(a: int, b: int): int {
    if a <= b then a else b
  }

  function Max(a: int, b: int): int {
    if a >= b then a else b
  }

  /** The record a first reading creates: `sum = min = max = t`, `count = 1`. */
  function Single(t: int): Stats {
    Stats(t, 1, t, t)
  }

  /** Folding one more reading into a record. */
  function Add(s: Stats, t: int): Stats {
    Stats(s.sum + t, s.count + 1, Min(s.min, t), Max(s.max, t))
  }

  /** Folding one record into another: sums and counts add, min and max combine. */
  function Combine(a: Stats, b: Stats): Stats {
    Stats(a.sum + b.sum, a.count + b.count, Min(a.min, b.min), Max(a.max, b.max))
  }

  /** One reading recorded in a table. */
  function Record(m: Table, r: Reading): (m': Table)
    ensures m'.Keys == m.Keys + {r.name}
    ensures r.name in m ==> m'[r.name] == Add(m[r.name], r.temp)
    ensures r.name !in m ==> m'[r.name] == Single(r.temp)
    ensures forall n :: n in m && n != r.name ==> m'[n] == m[n]
  {
    if r.name in m then m[r.name := Add(m[r.name], r.temp)] else m[r.name := Single(r.temp)]
  }

  /** The reference aggregation of readings, in input order. */
  function Aggregate(rs: seq<Reading>): Table {
    if rs == [] then map[] else Record(Aggregate(rs[..|rs| - 1]), rs[|rs| - 1])
  }

  lemma AggregateStep(rs: seq<Reading>, i: nat)
    requires i < |rs|
    ensures Aggregate(rs[..i + 1]) == Record(Aggregate(rs[..i]), rs[i])
  {
    assert rs[..i + 1][..i] == rs[..i];
  }

  /** The readings of station `n`, in input order. */
  function TempsOf(rs: seq<Reading>, n: seq<byte>): seq<int> {
    if rs == [] then []
    else TempsOf(rs[..|rs| - 1], n) + (if rs[|rs| - 1].name == n then [rs[|rs| - 1].temp] else [])
  }

  function SumOf(ts: seq<int>): int {
    if ts == [] then 0 else SumOf(ts[..|ts| - 1]) + ts[|ts| - 1]
  }

  function MinOf(ts: seq<int>): int
    requires |ts| > 0
  {
    if |ts| == 1 then ts[0] else Min(MinOf(ts[..|ts| - 1]), ts[|ts| - 1])
  }

  function MaxOf(ts: seq<int>): int
    requires |ts| > 0
  {
    if |ts| == 1 then ts[0] else Max(MaxOf(ts[..|ts| - 1]), ts[|ts| - 1])
  }

  /**
   * A station is in the aggregate exactly when it has readings, and then its record
   * holds their sum, their number, their minimum and their maximum.
   */
  lemma {:induction false} AggregateMeaning(rs: seq<Reading>, n: seq<byte>)
    ensures n in Aggregate(rs) <==> |TempsOf(rs, n)| > 0
    ensures n in Aggregate(rs) ==>
      var ts := TempsOf(rs, n);
      Aggregate(rs)[n] == Stats(SumOf(ts), |ts|, MinOf(ts), MaxOf(ts))
  {
    if rs != [] {
      var init := rs[..|rs| - 1];
      var r := rs[|rs| - 1];
      AggregateMeaning(init, n);
      var ts := TempsOf(init, n);
      if r.name == n {
        var ts' := ts + [r.temp];
        assert TempsOf(rs, n) == ts';
        assert ts'[..|ts'| - 1] == ts;
        if |ts| == 0 {
          assert ts' == [r.temp];
        }
      } else {
        assert TempsOf(rs, n) == ts;
      }
    }
  }

  /** The minimum and the maximum bound every reading and are readings themselves. */
  lemma {:induction false} MinMaxOfBounds(ts: seq<int>)
    requires |ts| > 0
    ensures forall i :: 0 <= i < |ts| ==> MinOf(ts) <= ts[i] <= MaxOf(ts)
    ensures MinOf(ts) in ts && MaxOf(ts) in ts
  {
    if |ts| > 1 {
      var init := ts[..|ts| - 1];
      MinMaxOfBounds(init);
      assert forall i :: 0 <= i < |init| ==> ts[i] == init[i];
      assert MinOf(init) in ts && MaxOf(init) in ts by {
        assert forall x :: x in init ==> x in ts;
      }
    }
  }

  /** Per station: `min <= every reading <= max`, with `min` and `max` attained. */
  lemma AggregateBounds(rs: seq<Reading>, n: seq<byte>)
    requires n in Aggregate(rs)
    ensures var s := Aggregate(rs)[n];
      var ts := TempsOf(rs, n);
      && s.count == |ts| > 0 && s.sum == SumOf(ts)
      && (forall i :: 0 <= i < |ts| ==> s.min <= ts[i] <= s.max)
      && s.min in ts && s.max in ts
  {
    AggregateMeaning(rs, n);
    MinMaxOfBounds(TempsOf(rs, n));
  }

  /** The stations of the aggregate are the names that occur in the input. */
  lemma {:induction false} AggregateKeys(rs: seq<Reading>)
    ensures Aggregate(rs).Keys == Names(rs)
  {
    if rs != [] {
      var init := rs[..|rs| - 1];
      AggregateKeys(init);
      assert Names(rs) == Names(init) + {rs[|rs| - 1].name} by {
        forall n | n in Names(rs) ensures n in Names(init) + {rs[|rs| - 1].name} {
          var i :| 0 <= i < |rs| && rs[i].name == n;
          if i < |rs| - 1 {
            assert init[i] == rs[i];
          }
        }
        forall n | n in Names(init) ensures n in Names(rs) {
          var i :| 0 <= i < |init| && init[i].name == n;
          assert rs[i] == init[i];
        }
      }
    }
  }

  /** A prefix of the input holds no more names than the input. */
  lemma NamesPrefix(rs: seq<Reading>, i: nat)
    requires i <= |rs|
    ensures Names(rs[..i]) <= Names(rs)
    ensures |Names(rs[..i])| <= |Names(rs)|
  {
    forall n | n in Names(rs[..i]) ensures n in Names(rs) {
      var j :| 0 <= j < i && rs[..i][j].name == n;
      assert rs[j] == rs[..i][j];
    }
    SubsetCard(Names(rs[..i]), Names(rs));
  }

  /** The names of a prefix grow by the next reading's name. */
  lemma NamesStep(rs: seq<Reading>, i: nat)
    requires i < |rs|
    ensures Names(rs[..i + 1]) == Names(rs[..i]) + {rs[i].name}
  {
    AggregateKeys(rs[..i]);
    AggregateKeys(rs[..i + 1]);
    AggregateStep(rs, i);
  }

  /** What the next reading does to the prefix aggregate and its names. */
  lemma ReadingStep(rs: seq<Reading>, i: nat)
    requires i < |rs|
    ensures Aggregate(rs[..i + 1]) == Record(Aggregate(rs[..i]), rs[i])
    ensures Aggregate(rs[..i]).Keys + {rs[i].name} <= Names(rs)
    ensures Names(rs[..i]) + {rs[i].name} == Names(rs[..i + 1])
  {
    AggregateStep(rs, i);
    NamesStep(rs, i);
    NamesPrefix(rs, i + 1);
    AggregateKeys(rs[..i]);
  }

  /** The readings still ahead start with `r`: it is the next one, and the aggregate takes it next. */
  lemma NextReading(all: seq<Reading>, i: nat, ahead: seq<Reading>, r: Reading, rest: seq<Reading>)
    requires i <= |all| && all[i..] == ahead && ahead == [r] + rest
    ensures i < |all| && all[i] == r && all[i + 1..] == rest
    ensures Aggregate(all[..i + 1]) == Record(Aggregate(all[..i]), r)
    ensures Aggregate(all[..i]).Keys <= Names(all) && r.name in Names(all)
  {
    assert all[i..][0] == r;
    assert all[i + 1..] == all[i..][1..];
    ReadingStep(all, i);
  }

  lemma SubsetCard<T>(a: set<T>, b: set<T>)
    requires a <= b
    ensures |a| <= |b|
  {
    assert b == a + (b - a);
  }

  /** A name that is not yet in a table but occurs in the input leaves room for it. */
  lemma RoomForOne(keys: set<seq<byte>>, name: seq<byte>, names: set<seq<byte>>)
    requires keys <= names && name in names && name !in keys
    ensures |keys| < |names|
  {
    SubsetCard(keys + {name}, names);
  }

  // ---------------------------------------------------------------------------
  // Merging tables (the reduction step)

  /** Folding one source record into a table under its name. */
  function MergeOne(m: Table, n: seq<byte>, s: Stats): (m': Table)
    ensures m'.Keys == m.Keys + {n}
    ensures m'[n] == if n in m then Combine(m[n], s) else s
    ensures forall k :: k in m && k != n ==> m'[k] == m[k]
  {
    if n in m then m[n := Combine(m[n], s)] else m[n := s]
  }

  /** Folding a whole source table into a destination table. */
  function MergeTables(a: Table, b: Table): (m: Table)
    ensures m.Keys == a.Keys + b.Keys
    ensures forall n :: n in a && n in b ==> m[n] == Combine(a[n], b[n])
    ensures forall n :: n in a && n !in b ==> m[n] == a[n]
    ensures forall n :: n !in a && n in b ==> m[n] == b[n]
  {
    map n | n in a.Keys + b.Keys ::
      if n in a && n in b then Combine(a[n], b[n]) else if n in a then a[n] else b[n]
  }

  /** The tables folded left to right into an empty table. */
  function MergeAll(ts: seq<Table>): Table {
    if ts == [] then map[] else MergeTables(MergeAll(ts[..|ts| - 1]), ts[|ts| - 1])
  }

  lemma MergeAllStep(ts: seq<Table>, i: nat)
    requires i < |ts|
    ensures MergeAll(ts[..i + 1]) == MergeTables(MergeAll(ts[..i]), ts[i])
  {
    assert ts[..i + 1][..i] == ts[..i];
  }

  lemma CombineAssociative(a: Stats, b: Stats, c: Stats)
    ensures Combine(Combine(a, b), c) == Combine(a, Combine(b, c))
  {
  }

  lemma CombineCommutative(a: Stats, b: Stats)
    ensures Combine(a, b) == Combine(b, a)
  {
  }

  /** Merging is commutative in its numeric effect (only the dense layout depends on order). */
  lemma MergeTablesCommutative(a: Table, b: Table)
    ensures MergeTables(a, b) == MergeTables(b, a)
  {
    var l := MergeTables(a, b);
    var r := MergeTables(b, a);
    assert l.Keys == r.Keys;
    forall n | n in l ensures l[n] == r[n] {
      if n in a && n in b {
        CombineCommutative(a[n], b[n]);
      }
    }
  }

  lemma MergeTablesAssociative(a: Table, b: Table, c: Table)
    ensures MergeTables(MergeTables(a, b), c) == MergeTables(a, MergeTables(b, c))
  {
    var l := MergeTables(MergeTables(a, b), c);
    var r := MergeTables(a, MergeTables(b, c));
    assert l.Keys == r.Keys;
    forall n | n in l ensures l[n] == r[n] {
      if n in a && n in b && n in c {
        CombineAssociative(a[n], b[n], c[n]);
      }
    }
  }

  lemma MergeTablesEmpty(a: Table)
    ensures MergeTables(map[], a) == a && MergeTables(a, map[]) == a
  {
  }

  /** Recording a reading is merging its one-reading table. */
  lemma RecordIsMerge(m: Table, r: Reading)
    ensures Record(m, r) == MergeTables(m, map[r.name := Single(r.temp)])
  {
    var l := Record(m, r);
    var rr := MergeTables(m, map[r.name := Single(r.temp)]);
    assert l.Keys == rr.Keys;
  }

  /** Aggregating two pieces of input and merging the results is aggregating the whole. */
  lemma {:induction false} AggregateConcat(a: seq<Reading>, b: seq<Reading>)
    ensures Aggregate(a + b) == MergeTables(Aggregate(a), Aggregate(b))
  {
    if b == [] {
      assert a + b == a;
      MergeTablesEmpty(Aggregate(a));
    } else {
      var init := b[..|b| - 1];
      var r := b[|b| - 1];
      assert (a + b)[..|a + b| - 1] == a + init;
      assert (a + b)[|a + b| - 1] == r;
      AggregateConcat(a, init);
      var one := map[r.name := Single(r.temp)];
      calc {
        Aggregate(a + b);
        Record(Aggregate(a + init), r);
        Record(MergeTables(Aggregate(a), Aggregate(init)), r);
        { RecordIsMerge(MergeTables(Aggregate(a), Aggregate(init)), r); }
        MergeTables(MergeTables(Aggregate(a), Aggregate(init)), one);
        { MergeTablesAssociative(Aggregate(a), Aggregate(init), one); }
        MergeTables(Aggregate(a), MergeTables(Aggregate(init), one));
        { RecordIsMerge(Aggregate(init), r); }
        MergeTables(Aggregate(a), Aggregate(b));
      }
    }
  }

  lemma {:induction false} MergeAllConcat(xs: seq<Table>, ys: seq<Table>)
    ensures MergeAll(xs + ys) == MergeTables(MergeAll(xs), MergeAll(ys))
  {
    if ys == [] {
      assert xs + ys == xs;
      MergeTablesEmpty(MergeAll(xs));
    } else {
      var init := ys[..|ys| - 1];
      var t := ys[|ys| - 1];
      assert (xs + ys)[..|xs + ys| - 1] == xs + init;
      assert (xs + ys)[|xs + ys| - 1] == t;
      MergeAllConcat(xs, init);
      MergeTablesAssociative(MergeAll(xs), MergeAll(init), t);
    }
  }

  /** The input split into consecutive parts, glued back together. */
  function Flatten(parts: seq<seq<Reading>>): seq<Reading> {
    if parts == [] then [] else Flatten(parts[..|parts| - 1]) + parts[|parts| - 1]
  }

  function AggregateEach(parts: seq<seq<Reading>>): (ts: seq<Table>)
    ensures |ts| == |parts|
    ensures forall i :: 0 <= i < |parts| ==> ts[i] == Aggregate(parts[i])
  {
    if parts == [] then [] else AggregateEach(parts[..|parts| - 1]) + [Aggregate(parts[|parts| - 1])]
  }

  /**
   * Partition independence: aggregating the parts of any split of the input and merging
   * the results gives the aggregate of the whole input.
   */
  lemma {:induction false} PartitionIndependent(parts: seq<seq<Reading>>)
    ensures MergeAll(AggregateEach(parts)) == Aggregate(Flatten(parts))
  {
    if parts != [] {
      var init := parts[..|parts| - 1];
      var ts := AggregateEach(parts);
      assert ts[..|ts| - 1] == AggregateEach(init);
      PartitionIndependent(init);
      AggregateConcat(Flatten(init), parts[|parts| - 1]);
    }
  }

  // ---------------------------------------------------------------------------
  // Records are internally consistent

  /** `count >= 1` and `min * count <= sum <= max * count`, so `min <= mean <= max`. */
  ghost predicate Consistent(s: Stats) {
    s.count >= 1 && s.min <= s.max && s.min * s.count <= s.sum <= s.max * s.count
  }

  lemma MulMono(a: int, b: int, c: nat)
    requires a <= b
    ensures a * c <= b * c
  {
  }

  lemma AddConsistent(s: Stats, t: int)
    requires Consistent(s)
    ensures Consistent(Add(s, t))
  {
    var s' := Add(s, t);
    MulMono(s'.min, s.min, s.count);
    MulMono(s.max, s'.max, s.count);
    assert s'.min * s'.count == s'.min * s.count + s'.min;
    assert s'.max * s'.count == s'.max * s.count + s'.max;
  }

  lemma CombineConsistent(a: Stats, b: Stats)
    requires Consistent(a) && Consistent(b)
    ensures Consistent(Combine(a, b))
  {
    var c := Combine(a, b);
    MulMono(c.min, a.min, a.count);
    MulMono(c.min, b.min, b.count);
    MulMono(a.max, c.max, a.count);
    MulMono(b.max, c.max, b.count);
    assert c.min * c.count == c.min * a.count + c.min * b.count;
    assert c.max * c.count == c.max * a.count + c.max * b.count;
  }

  ghost predicate AllConsistent(m: Table) {
    forall n :: n in m ==> Consistent(m[n])
  }

  lemma {:induction false} AggregateConsistent(rs: seq<Reading>)
    ensures AllConsistent(Aggregate(rs))
  {
    if rs != [] {
      var init := rs[..|rs| - 1];
      var r := rs[|rs| - 1];
      AggregateConsistent(init);
      if r.name in Aggregate(init) {
        AddConsistent(Aggregate(init)[r.name], r.temp);
      }
    }
  }

  lemma MergeConsistent(a: Table, b: Table)
    requires AllConsistent(a) && AllConsistent(b)
    ensures AllConsistent(MergeTables(a, b))
  {
    forall n | n in a && n in b ensures Consistent(Combine(a[n], b[n])) {
      CombineConsistent(a[n], b[n]);
    }
  }

  // ---------------------------------------------------------------------------
  // Dropped stations (an open-addressing probe that runs off the end of the table)

  /** The table without the stations in `d`. */
  function Without(m: Table, d: set<seq<byte>>): (m': Table)
    ensures m'.Keys == m.Keys - d
    ensures forall n :: n in m' ==> m'[n] == m[n]
  {
    map n | n in m && n !in d :: m[n]
  }

  lemma WithoutNothing(m: Table)
    ensures Without(m, {}) == m
  {
  }

  /** Dropping a station that is not in the table yet changes nothing. */
  lemma WithoutFresh(m: Table, n: seq<byte>, d: set<seq<byte>>)
    requires n !in m
    ensures Without(m, d + {n}) == Without(m, d)
  {
    assert Without(m, d + {n}).Keys == Without(m, d).Keys;
  }

  lemma WithoutMergeOneKept(m: Table, n: seq<byte>, s: Stats, d: set<seq<byte>>)
    requires n !in d
    ensures Without(MergeOne(m, n, s), d) == MergeOne(Without(m, d), n, s)
  {
    assert Without(MergeOne(m, n, s), d).Keys == MergeOne(Without(m, d), n, s).Keys;
  }

  lemma WithoutMergeOneDropped(m: Table, n: seq<byte>, s: Stats, d: set<seq<byte>>)
    requires n in d
    ensures Without(MergeOne(m, n, s), d) == Without(m, d)
  {
    assert Without(MergeOne(m, n, s), d).Keys == Without(m, d).Keys;
  }

  /** Folding a source record is merging a table whose extra entry is that record. */
  lemma MergeTablesAddEntry(a: Table, b: Table, n: seq<byte>, s: Stats)
    requires n !in b
    ensures MergeTables(a, b[n := s]) == MergeOne(MergeTables(a, b), n, s)
  {
    var m := MergeTables(a, b);
    var l := MergeTables(a, b[n := s]);
    var r := MergeOne(m, n, s);
    assert l.Keys == r.Keys;
    assert l[n] == r[n] by {
      if n in a {
        assert l[n] == Combine(a[n], s);
      }
    }
    forall k | k in l && k != n ensures l[k] == r[k] {
      assert r[k] == m[k];
    }
  }

  /** Recording a reading is folding its one-reading record in under its name. */
  lemma RecordIsMergeOne(m: Table, r: Reading)
    ensures Record(m, r) == MergeOne(m, r.name, Single(r.temp))
  {
  }

  /** The names of a merge of tables are among the names of the tables. */
  lemma {:induction false} MergeAllKeys(ts: seq<Table>, names: set<seq<byte>>)
    requires forall i :: 0 <= i < |ts| ==> ts[i].Keys <= names
    ensures MergeAll(ts).Keys <= names
  {
    if ts != [] {
      MergeAllKeys(ts[..|ts| - 1], names);
    }
  }

  /** What a merge holds outside the dropped names depends only on what its inputs hold there. */
  lemma WithoutMergeTables(a: Table, b: Table, a': Table, b': Table, d: set<seq<byte>>)
    requires Without(a, d) == Without(a', d) && Without(b, d) == Without(b', d)
    ensures Without(MergeTables(a, b), d) == Without(MergeTables(a', b'), d)
  {
    var l := Without(MergeTables(a, b), d);
    var r := Without(MergeTables(a', b'), d);
    forall n | n !in d ensures (n in a <==> n in a') && (n in b <==> n in b') {
      assert n in a <==> n in Without(a, d);
      assert n in a' <==> n in Without(a', d);
      assert n in b <==> n in Without(b, d);
      assert n in b' <==> n in Without(b', d);
    }
    assert l.Keys == r.Keys;
    forall n | n in l ensures l[n] == r[n] {
      assert n !in d;
      if n in a {
        assert a[n] == Without(a, d)[n] == a'[n];
      }
      if n in b {
        assert b[n] == Without(b, d)[n] == b'[n];
      }
    }
  }

  /** Dropping names after dropping others: the union is dropped. */
  lemma WithoutWithout(m: Table, d1: set<seq<byte>>, d2: set<seq<byte>>)
    ensures Without(Without(m, d1), d2) == Without(m, d1 + d2)
  {
    assert Without(Without(m, d1), d2).Keys == Without(m, d1 + d2).Keys;
  }

  /**
   * Merging tables each of which lost some names: once every lost name is dropped from
   * the result too, it is the merge of the complete tables without those names.
   */
  lemma {:induction false} WithoutMergeAll(ts: seq<Table>, us: seq<Table>, ds: seq<set<seq<byte>>>, d: set<seq<byte>>)
    requires |us| == |ts| == |ds|
    requires forall i :: 0 <= i < |ts| ==> us[i] == Without(ts[i], ds[i]) && ds[i] <= d
    ensures Without(MergeAll(us), d) == Without(MergeAll(ts), d)
  {
    if ts != [] {
      var k := |ts| - 1;
      WithoutMergeAll(ts[..k], us[..k], ds[..k], d);
      WithoutWithout(ts[k], ds[k], d);
      assert ds[k] + d == d;
      WithoutMergeTables(MergeAll(us[..k]), us[k], MergeAll(ts[..k]), ts[k], d);
    }
  }

  /** Dropping names keeps the other records as they are, so consistent ones stay so. */
  lemma WithoutConsistent(m: Table, d: set<seq<byte>>)
    requires AllConsistent(m)
    ensures AllConsistent(Without(m, d))
  {
  }

  lemma {:induction false} MergeAllConsistent(ts: seq<Table>)
    requires forall i :: 0 <= i < |ts| ==> AllConsistent(ts[i])
    ensures AllConsistent(MergeAll(ts))
  {
    if ts != [] {
      MergeAllConsistent(ts[..|ts| - 1]);
      MergeConsistent(MergeAll(ts[..|ts| - 1]), ts[|ts| - 1]);
    }
  }

  /** Names that a table does not hold make no difference when dropped. */
  lemma WithoutOutside(m: Table, d: set<seq<byte>>, names: set<seq<byte>>)
    requires m.Keys <= names
    ensures Without(m, d) == Without(m, d * names)
  {
    assert Without(m, d).Keys == Without(m, d * names).Keys;
  }

  /** The union of a sequence of name sets. */
  function UnionAll(ds: seq<set<seq<byte>>>): (u: set<seq<byte>>)
    ensures forall i :: 0 <= i < |ds| ==> ds[i] <= u
  {
    if ds == [] then {} else UnionAll(ds[..|ds| - 1]) + ds[|ds| - 1]
  }

  /** Merging all of the tables of two halves is merging the two merged halves. */
  lemma MergeAllHalves(ts: seq<Table>, h: nat)
    requires h <= |ts|
    ensures MergeAll([MergeAll(ts[..h]), MergeAll(ts[h..])]) == MergeAll(ts)
  {
    MergeAllPair(MergeAll(ts[..h]), MergeAll(ts[h..]));
    SplitJoin(ts, h);
    MergeAllConcat(ts[..h], ts[h..]);
  }

  /** Merging two tables in a row is merging them. */
  lemma MergeAllPair(a: Table, b: Table)
    ensures MergeAll([a, b]) == MergeTables(a, b)
  {
    assert [a, b][..1] == [a] && [a][..0] == [];
    assert MergeAll([a]) == MergeTables(map[], a);
    MergeTablesEmpty(a);
  }
}
