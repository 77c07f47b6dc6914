/**
 * The open-addressing station index of go_parallel_eq.go and c_parallel.c: 65536 slots
 * holding a station name and its dense index, and four 10000-entry record arrays
 * (`TempSum`, `Count`, `Min`, `Max`) addressed by that dense index. A name's start slot
 * comes from its FNV-1a hash; probing is linear and upward only, and a probe that runs
 * past the last slot gives up (there is no wrap-around).
 */
module OpenAddressing {
  import opened Bytes
  import opened Lines
  import opened Stats
  import opened Fnv

  /** The number of entries of each record array (`make([]int, 10_000)`). */
  const CAP: nat := 10000

  /** A slot: a station name (empty while the slot is free) and its dense index. */
  datatype Slot = Slot(station: seq<byte>, idx: int)

  /** The zero value of a slot. */
  const FREE: Slot := Slot([], 0)

  /** Where a probe for a name stops. */
  datatype Probe = Found(at: nat) | Vacant(at: nat) | Full

  // ---------------------------------------------------------------------------
  // The probe on slot contents

  /**
   * The linear probe from slot `i` upwards: the first slot that holds `name` is
   * `Found`, the first free one `Vacant`; past the last slot the probe is `Full`.
   */
  function ProbeFrom(s: seq<Slot>, name: seq<byte>, i: nat): Probe
    decreases |s| - i
  {
    if i >= |s| then Full
    else if s[i].station == name then Found(i)
    else if s[i].station == [] then Vacant(i)
    else ProbeFrom(s, name, i + 1)
  }

  /** Slots `lo` to `hi - 1` are all taken, and by names other than `name`. */
  predicate Passed(s: seq<Slot>, name: seq<byte>, lo: nat, hi: nat)
    requires hi <= |s|
  {
    forall k :: lo <= k < hi ==> s[k].station != [] && s[k].station != name
  }

  /** What the probe's answer means: every slot it stepped over was taken by another name. */
  lemma {:induction false} ProbeFromMeaning(s: seq<Slot>, name: seq<byte>, i: nat)
    ensures match ProbeFrom(s, name, i)
      case Found(j) => i <= j < |s| && s[j].station == name && Passed(s, name, i, j)
      case Vacant(j) => i <= j < |s| && s[j].station == [] && Passed(s, name, i, j)
      case Full => Passed(s, name, i, |s|)
    decreases |s| - i
  {
    if i < |s| && s[i].station != name && s[i].station != [] {
      ProbeFromMeaning(s, name, i + 1);
    }
  }

  /** A probe that steps over taken slots only, to the end, is `Full`. */
  lemma {:induction false} PassedIsFull(s: seq<Slot>, name: seq<byte>, i: nat)
    requires Passed(s, name, i, |s|)
    ensures ProbeFrom(s, name, i) == Full
    decreases |s| - i
  {
    if i < |s| {
      PassedIsFull(s, name, i + 1);
    }
  }

  // ---------------------------------------------------------------------------
  // The index invariant

  /** Every taken slot lies at or above its name's start slot, with only taken slots between. */
  predicate Chained(h: seq<byte> -> nat, s: seq<Slot>) {
    forall j :: 0 <= j < |s| && s[j].station != [] ==> ChainAt(h, s, j)
  }

  predicate ChainAt(h: seq<byte> -> nat, s: seq<Slot>, j: nat)
    requires j < |s|
  {
    h(s[j].station) <= j &&
    forall k :: h(s[j].station) <= k < j ==> s[k].station != []
  }

  /** No two taken slots hold the same name. */
  predicate Unique(s: seq<Slot>) {
    forall j, k :: 0 <= j < k < |s| && s[j].station != [] ==> s[j].station != s[k].station
  }

  /**
   * The dense indices: `order[k]` is the `k`-th name claimed, held by slot `at[k]` with
   * index `k`; every taken slot is one of these, and a free slot keeps index 0.
   */
  predicate Dense(s: seq<Slot>, order: seq<seq<byte>>, at: seq<int>) {
    && |at| == |order|
    && (forall k :: 0 <= k < |order| ==> order[k] != [] && 0 <= at[k] < |s| && s[at[k]] == Slot(order[k], k))
    && (forall j :: 0 <= j < |s| && s[j].station != [] ==> 0 <= s[j].idx < |order| && at[s[j].idx] == j)
    && (forall j :: 0 <= j < |s| && s[j].station == [] ==> s[j].idx == 0)
  }

  predicate IndexInv(h: seq<byte> -> nat, s: seq<Slot>, order: seq<seq<byte>>, at: seq<int>) {
    |s| == SLOTS && Chained(h, s) && Unique(s) && Dense(s, order, at)
  }

  /** Each dense index names a different station. */
  lemma OrderDistinct(h: seq<byte> -> nat, s: seq<Slot>, order: seq<seq<byte>>, at: seq<int>)
    requires IndexInv(h, s, order, at)
    ensures Distinct(order)
  {
    forall k1, k2 | 0 <= k1 < k2 < |order| ensures order[k1] != order[k2] {
      assert s[at[k1]].idx == k1 && s[at[k2]].idx == k2;
      if at[k1] < at[k2] {
        assert s[at[k1]].station != s[at[k2]].station;
      } else {
        assert s[at[k2]].station != s[at[k1]].station;
      }
    }
  }

  /** Every taken slot's name is a claimed name, at the slot's own index. */
  lemma SlotInOrder(s: seq<Slot>, order: seq<seq<byte>>, at: seq<int>, j: nat)
    requires Dense(s, order, at) && j < |s| && s[j].station != []
    ensures s[j].idx < |order| && order[s[j].idx] == s[j].station
  {
    assert s[at[s[j].idx]] == s[j];
  }

  /**
   * The linear-probe property: the probe from a name's start slot finds the slot that
   * holds it, and for a name not in the index it stops on a free slot or gives up.
   */
  lemma ProbeFinds(h: seq<byte> -> nat, s: seq<Slot>, order: seq<seq<byte>>, at: seq<int>, name: seq<byte>)
    requires IndexInv(h, s, order, at) && name != []
    ensures var p := ProbeFrom(s, name, h(name));
      && (p.Found? <==> name in order)
      && (p.Found? ==> p.at < |s| && s[p.at].station == name && s[p.at].idx < |order| && order[s[p.at].idx] == name)
      && (p.Vacant? ==> p.at < |s| && s[p.at].station == [])
  {
    var p := ProbeFrom(s, name, h(name));
    ProbeFromMeaning(s, name, h(name));
    if p.Found? {
      SlotInOrder(s, order, at, p.at);
    }
    if name in order {
      HeldIsFound(h, s, order, at, name);
    }
  }

  /** A claimed name sits in a chain from its start slot, so the probe reaches it. */
  lemma HeldIsFound(h: seq<byte> -> nat, s: seq<Slot>, order: seq<seq<byte>>, at: seq<int>, name: seq<byte>)
    requires IndexInv(h, s, order, at) && name in order
    ensures ProbeFrom(s, name, h(name)).Found?
  {
    var k :| 0 <= k < |order| && order[k] == name;
    var j := at[k];
    assert s[j].station == name != [];
    assert ChainAt(h, s, j);
    ProbeFromMeaning(s, name, h(name));
  }

  /** Claiming the free slot the probe stopped on keeps the invariant. */
  lemma ClaimKeeps(h: seq<byte> -> nat, s: seq<Slot>, order: seq<seq<byte>>, at: seq<int>, name: seq<byte>, i: nat)
    requires IndexInv(h, s, order, at) && name != []
    requires i < |s| && ProbeFrom(s, name, h(name)) == Vacant(i)
    ensures IndexInv(h, s[i := Slot(name, |order|)], order + [name], at + [i])
  {
    ProbeFinds(h, s, order, at, name);
    ClaimChained(h, s, name, i, |order|);
    ClaimUnique(s, order, at, name, i, |order|);
    ClaimDense(s, order, at, name, i);
  }

  /** The slot the probe stopped on is reached from the name's start slot over taken slots. */
  lemma ClaimChained(h: seq<byte> -> nat, s: seq<Slot>, name: seq<byte>, i: nat, idx: int)
    requires Chained(h, s) && name != []
    requires i < |s| && ProbeFrom(s, name, h(name)) == Vacant(i)
    ensures Chained(h, s[i := Slot(name, idx)])
  {
    ProbeFromMeaning(s, name, h(name));
    var s' := s[i := Slot(name, idx)];
    forall j | 0 <= j < |s'| && s'[j].station != [] ensures ChainAt(h, s', j) {
      if j != i {
        assert ChainAt(h, s, j);
      }
    }
  }

  /** A name not yet claimed differs from every taken slot's name. */
  lemma ClaimUnique(s: seq<Slot>, order: seq<seq<byte>>, at: seq<int>, name: seq<byte>, i: nat, idx: int)
    requires Unique(s) && Dense(s, order, at) && name !in order
    requires i < |s| && s[i].station == []
    ensures Unique(s[i := Slot(name, idx)])
  {
    forall j | 0 <= j < |s| && j != i && s[j].station != [] ensures s[j].station != name {
      SlotInOrder(s, order, at, j);
    }
  }

  /** The claimed slot takes the next dense index. */
  lemma ClaimDense(s: seq<Slot>, order: seq<seq<byte>>, at: seq<int>, name: seq<byte>, i: nat)
    requires Dense(s, order, at) && name != []
    requires i < |s| && s[i].station == []
    ensures Dense(s[i := Slot(name, |order|)], order + [name], at + [i])
  {
    var s' := s[i := Slot(name, |order|)];
    var order' := order + [name];
    var at' := at + [i];
    forall k | 0 <= k < |order'| ensures order'[k] != [] && 0 <= at'[k] < |s'| && s'[at'[k]] == Slot(order'[k], k) {
      if k < |order| {
        assert at[k] != i;
      }
    }
  }

  /** A name whose probe gave up keeps giving up after another name claims a free slot. */
  lemma FullStays(h: seq<byte> -> nat, s: seq<Slot>, d: seq<byte>, i: nat, sl: Slot)
    requires |s| == SLOTS && i < |s| && s[i].station == [] && sl.station != []
    requires ProbeFrom(s, d, h(d)) == Full
    ensures ProbeFrom(s[i := sl], d, h(d)) == Full
  {
    ProbeFromMeaning(s, d, h(d));
    assert i < h(d);
    PassedIsFull(s[i := sl], d, h(d));
  }

  /** Every name of `dropped` has a probe that runs past the last slot. */
  predicate AllFull(h: seq<byte> -> nat, s: seq<Slot>, dropped: set<seq<byte>>) {
    forall d :: d in dropped ==> ProbeFrom(s, d, h(d)) == Full
  }

  /** Claiming a free slot keeps every such probe running past the last slot. */
  lemma AllFullStays(h: seq<byte> -> nat, s: seq<Slot>, dropped: set<seq<byte>>, i: nat, sl: Slot)
    requires |s| == SLOTS && i < |s| && s[i].station == [] && sl.station != []
    requires AllFull(h, s, dropped)
    ensures AllFull(h, s[i := sl], dropped)
  {
    forall d | d in dropped ensures ProbeFrom(s[i := sl], d, h(d)) == Full {
      FullStays(h, s, d, i, sl);
    }
  }

  /**
   * The dropped names after one probe of `name`: a probe that ran past the last slot
   * adds `name` to them, a probe that claimed a vacant slot leaves theirs running past.
   */
  lemma AllFullAfter(h: seq<byte> -> nat, s0: seq<Slot>, s1: seq<Slot>, dropped: set<seq<byte>>,
                     name: seq<byte>, p: Probe, sl: Slot)
    requires |s0| == SLOTS && AllFull(h, s0, dropped) && p == ProbeFrom(s0, name, h(name))
    requires !p.Vacant? ==> s1 == s0
    requires p.Vacant? ==> p.at < |s0| && s1 == s0[p.at := sl] && sl.station != []
    ensures AllFull(h, s1, if p.Full? then dropped + {name} else dropped)
  {
    ProbeFromMeaning(s0, name, h(name));
    if p.Vacant? {
      AllFullStays(h, s0, dropped, p.at, sl);
    }
  }

  /** The dense indices of the slots from `lo` up. */
  function TakenIdx(s: seq<Slot>, lo: nat): set<int>
    decreases |s| - lo
  {
    if lo >= |s| then {} else {s[lo].idx} + TakenIdx(s, lo + 1)
  }

  /**
   * When the slots from `lo` up are all taken, their dense indices are as many
   * different indices below `|order|`, each naming a slot from `lo` up.
   */
  lemma {:induction false} TakenIdxSize(s: seq<Slot>, order: seq<seq<byte>>, at: seq<int>, lo: nat)
    requires Dense(s, order, at) && lo <= |s|
    requires forall j :: lo <= j < |s| ==> s[j].station != []
    ensures |TakenIdx(s, lo)| == |s| - lo
    ensures forall x :: x in TakenIdx(s, lo) ==> 0 <= x < |order| && lo <= at[x]
    decreases |s| - lo
  {
    if lo < |s| {
      TakenIdxSize(s, order, at, lo + 1);
      assert at[s[lo].idx] == lo;
      assert s[lo].idx !in TakenIdx(s, lo + 1);
    }
  }

  /** The numbers `0..n-1`. */
  function Below(n: nat): (b: set<int>)
    ensures |b| == n && forall x :: x in b <==> 0 <= x < n
  {
    if n == 0 then {} else Below(n - 1) + {n - 1}
  }

  /**
   * A probe that runs past the last slot has stepped over taken slots only, and a table
   * has one taken slot per dense index handed out: so it started at most `|order|`
   * slots below the end.
   */
  lemma FullIsHigh(s: seq<Slot>, order: seq<seq<byte>>, at: seq<int>, name: seq<byte>, start: nat)
    requires Dense(s, order, at) && ProbeFrom(s, name, start) == Full
    ensures |s| - |order| <= start
  {
    if start < |s| {
      ProbeFromMeaning(s, name, start);
      TakenIdxSize(s, order, at, start);
      SubsetCard(TakenIdx(s, start), Below(|order|));
    }
  }

  /** Every name of `d` starts its probe in the top `CAP` slots. */
  predicate HighStart(h: seq<byte> -> nat, d: set<seq<byte>>) {
    forall n :: n in d ==> SLOTS - CAP <= h(n)
  }

  /**
   * Only a name whose start slot is among the top `CAP` can have a probe that runs past
   * the last slot of a table holding at most `CAP` names.
   */
  lemma AllFullHigh(h: seq<byte> -> nat, s: seq<Slot>, order: seq<seq<byte>>, at: seq<int>, dropped: set<seq<byte>>)
    requires |s| == SLOTS && |order| <= CAP && Dense(s, order, at) && AllFull(h, s, dropped)
    ensures HighStart(h, dropped)
  {
    forall n | n in dropped ensures SLOTS - CAP <= h(n) {
      FullIsHigh(s, order, at, n, h(n));
    }
  }

  // ---------------------------------------------------------------------------
  // The record arrays

  /** The table the first `|order|` entries of the record arrays hold: `order[k]` maps to entry `k`. */
  function TableOf(order: seq<seq<byte>>, sum: seq<int>, count: seq<nat>, mins: seq<int>, maxs: seq<int>): Table
    requires |order| <= |sum| && |order| <= |count| && |order| <= |mins| && |order| <= |maxs|
    decreases |order|
  {
    if order == [] then map[]
    else
      var k := |order| - 1;
      TableOf(order[..k], sum, count, mins, maxs)[order[k] := Stats(sum[k], count[k], mins[k], maxs[k])]
  }

  predicate Distinct(order: seq<seq<byte>>) {
    forall k1, k2 :: 0 <= k1 < k2 < |order| ==> order[k1] != order[k2]
  }

  /** The table's names are the names of `order`. */
  lemma {:induction false} TableOfKeys(order: seq<seq<byte>>, sum: seq<int>, count: seq<nat>, mins: seq<int>, maxs: seq<int>)
    requires |order| <= |sum| && |order| <= |count| && |order| <= |mins| && |order| <= |maxs|
    ensures TableOf(order, sum, count, mins, maxs).Keys == set k | 0 <= k < |order| :: order[k]
    decreases |order|
  {
    if order != [] {
      var k := |order| - 1;
      TableOfKeys(order[..k], sum, count, mins, maxs);
      assert (set j | 0 <= j < |order| :: order[j]) == (set j | 0 <= j < k :: order[..k][j]) + {order[k]} by {
        forall j | 0 <= j < k ensures order[j] == order[..k][j] {
        }
      }
    }
  }

  /** For distinct names, `order[k]`'s record is entry `k` of the arrays. */
  lemma {:induction false} TableOfAt(order: seq<seq<byte>>, sum: seq<int>, count: seq<nat>, mins: seq<int>, maxs: seq<int>, k: nat)
    requires |order| <= |sum| && |order| <= |count| && |order| <= |mins| && |order| <= |maxs|
    requires Distinct(order) && k < |order|
    ensures order[k] in TableOf(order, sum, count, mins, maxs)
    ensures TableOf(order, sum, count, mins, maxs)[order[k]] == Stats(sum[k], count[k], mins[k], maxs[k])
    decreases |order|
  {
    var last := |order| - 1;
    if k < last {
      TableOfAt(order[..last], sum, count, mins, maxs, k);
      assert order[k] != order[last];
    }
  }

  /** For distinct names the table has one entry per name. */
  lemma {:induction false} TableOfSize(order: seq<seq<byte>>, sum: seq<int>, count: seq<nat>, mins: seq<int>, maxs: seq<int>)
    requires |order| <= |sum| && |order| <= |count| && |order| <= |mins| && |order| <= |maxs|
    requires Distinct(order)
    ensures |TableOf(order, sum, count, mins, maxs)| == |order|
    decreases |order|
  {
    if order != [] {
      var last := |order| - 1;
      TableOfSize(order[..last], sum, count, mins, maxs);
      TableOfKeys(order[..last], sum, count, mins, maxs);
    }
  }

  /** The table depends only on the first `|order|` entries of the arrays. */
  lemma {:induction false} TableOfFrame(order: seq<seq<byte>>, sum: seq<int>, count: seq<nat>, mins: seq<int>, maxs: seq<int>,
                                        sum': seq<int>, count': seq<nat>, mins': seq<int>, maxs': seq<int>)
    requires |order| <= |sum| && |order| <= |count| && |order| <= |mins| && |order| <= |maxs|
    requires |order| <= |sum'| && |order| <= |count'| && |order| <= |mins'| && |order| <= |maxs'|
    requires sum[..|order|] == sum'[..|order|] && count[..|order|] == count'[..|order|]
    requires mins[..|order|] == mins'[..|order|] && maxs[..|order|] == maxs'[..|order|]
    ensures TableOf(order, sum, count, mins, maxs) == TableOf(order, sum', count', mins', maxs')
    decreases |order|
  {
    if order != [] {
      var k := |order| - 1;
      assert sum[k] == sum[..|order|][k] && sum'[k] == sum'[..|order|][k];
      assert count[k] == count[..|order|][k] && count'[k] == count'[..|order|][k];
      assert mins[k] == mins[..|order|][k] && mins'[k] == mins'[..|order|][k];
      assert maxs[k] == maxs[..|order|][k] && maxs'[k] == maxs'[..|order|][k];
      assert sum[..k] == sum[..|order|][..k] && sum'[..k] == sum'[..|order|][..k];
      assert count[..k] == count[..|order|][..k] && count'[..k] == count'[..|order|][..k];
      assert mins[..k] == mins[..|order|][..k] && mins'[..k] == mins'[..|order|][..k];
      assert maxs[..k] == maxs[..|order|][..k] && maxs'[..k] == maxs'[..|order|][..k];
      TableOfFrame(order[..k], sum, count, mins, maxs, sum', count', mins', maxs');
    }
  }

  /** Overwriting entry `k` of the arrays overwrites the record of `order[k]`. */
  lemma {:induction false} TableOfUpdate(order: seq<seq<byte>>, sum: seq<int>, count: seq<nat>, mins: seq<int>, maxs: seq<int>, k: nat, r: Stats)
    requires |order| <= |sum| && |order| <= |count| && |order| <= |mins| && |order| <= |maxs|
    requires Distinct(order) && k < |order|
    ensures TableOf(order, sum[k := r.sum], count[k := r.count], mins[k := r.min], maxs[k := r.max])
         == TableOf(order, sum, count, mins, maxs)[order[k] := r]
    decreases |order|
  {
    var last := |order| - 1;
    var prefix := order[..last];
    var sum', count', mins', maxs' := sum[k := r.sum], count[k := r.count], mins[k := r.min], maxs[k := r.max];
    if k == last {
      TableOfFrame(prefix, sum, count, mins, maxs, sum', count', mins', maxs');
    } else {
      TableOfUpdate(prefix, sum, count, mins, maxs, k, r);
      assert order[k] != order[last];
    }
  }

  /** Claiming entry `|order|` of the arrays adds the record of a new name. */
  lemma TableOfAppend(order: seq<seq<byte>>, sum: seq<int>, count: seq<nat>, mins: seq<int>, maxs: seq<int>, name: seq<byte>, r: Stats)
    requires |order| < |sum| && |order| < |count| && |order| < |mins| && |order| < |maxs|
    ensures var k := |order|;
      TableOf(order + [name], sum[k := r.sum], count[k := r.count], mins[k := r.min], maxs[k := r.max])
        == TableOf(order, sum, count, mins, maxs)[name := r]
  {
    var k := |order|;
    assert (order + [name])[..k] == order;
    TableOfFrame(order, sum, count, mins, maxs, sum[k := r.sum], count[k := r.count], mins[k := r.min], maxs[k := r.max]);
  }

  // ---------------------------------------------------------------------------
  // Slot contents in slot order

  /** The names of the taken slots among the first `j`, in slot order. */
  function Occupants(s: seq<Slot>, j: nat): seq<seq<byte>>
    requires j <= |s|
  {
    if j == 0 then []
    else Occupants(s, j - 1) + (if s[j - 1].station != [] then [s[j - 1].station] else [])
  }

  /** The taken slots among the first `j` hold exactly `Occupants`, each name once. */
  lemma {:induction false} OccupantsMeaning(s: seq<Slot>, j: nat)
    requires j <= |s| && Unique(s)
    ensures forall n :: n in Occupants(s, j) <==> exists k :: 0 <= k < j && s[k].station == n && n != []
    ensures forall a, b :: 0 <= a < b < |Occupants(s, j)| ==> Occupants(s, j)[a] != Occupants(s, j)[b]
  {
    if j > 0 {
      OccupantsMeaning(s, j - 1);
      var prev := Occupants(s, j - 1);
      if s[j - 1].station != [] {
        var cur := prev + [s[j - 1].station];
        forall a | 0 <= a < |prev| ensures cur[a] != s[j - 1].station {
          assert cur[a] in prev;
        }
      }
    }
  }

  /** All slots together hold the claimed names. */
  lemma OccupantsAreOrder(h: seq<byte> -> nat, s: seq<Slot>, order: seq<seq<byte>>, at: seq<int>)
    requires IndexInv(h, s, order, at)
    ensures forall n :: n in Occupants(s, |s|) <==> n in order
    ensures forall a, b :: 0 <= a < b < |Occupants(s, |s|)| ==> Occupants(s, |s|)[a] != Occupants(s, |s|)[b]
  {
    OccupantsMeaning(s, |s|);
    forall n ensures n in Occupants(s, |s|) <==> n in order {
      if n in order {
        var k :| 0 <= k < |order| && order[k] == n;
        assert s[at[k]].station == n;
      }
      if n in Occupants(s, |s|) {
        var k :| 0 <= k < |s| && s[k].station == n && n != [];
        SlotInOrder(s, order, at, k);
      }
    }
  }

  /** The records of `m` under the names of the taken slots among the first `j`. */
  function Part(m: Table, s: seq<Slot>, j: nat): (p: Table)
    requires j <= |s|
    ensures p.Keys <= m.Keys
    ensures forall n :: n in p ==> p[n] == m[n]
  {
    map n | n in m && n in Occupants(s, j) :: m[n]
  }

  /**
   * One step of the slot-order walk over a source with table `m` and records `rec`:
   * a taken slot `sl` adds its name, which the walk has not met before, with the record
   * at its dense index; a free slot adds nothing.
   */
  predicate StepTo(m: Table, p: Table, q: Table, sl: Slot, rec: seq<Stats>) {
    && (sl.station == [] ==> q == p)
    && (sl.station != [] ==>
         && 0 <= sl.idx < |rec| && sl.station in m && sl.station !in p
         && q == p[sl.station := rec[sl.idx]])
  }

  /**
   * A source the walk reads correctly: `parts[j]` is what the walk has collected after
   * `j` slots, from nothing to exactly the table `m`.
   */
  predicate WalkOf(parts: seq<Table>, m: Table, s: seq<Slot>, rec: seq<Stats>) {
    && |s| == SLOTS && |parts| == SLOTS + 1
    && parts[0] == map[] && parts[SLOTS] == m
    && forall j {:trigger StepTo(m, parts[j], parts[j + 1], s[j], rec)} ::
         0 <= j < SLOTS ==> StepTo(m, parts[j], parts[j + 1], s[j], rec)
  }

  /** The walk's collections after each number of slots. */
  function Parts(m: Table, s: seq<Slot>): (ps: seq<Table>)
    ensures |ps| == |s| + 1
    ensures forall j :: 0 <= j <= |s| ==> ps[j] == Part(m, s, j)
  {
    seq(|s| + 1, j requires 0 <= j <= |s| => Part(m, s, j))
  }

  /** The records of the four record arrays, by dense index. */
  function RecordsOf(sum: seq<int>, count: seq<nat>, mins: seq<int>, maxs: seq<int>): (rs: seq<Stats>)
    requires |count| == |sum| && |mins| == |sum| && |maxs| == |sum|
    ensures |rs| == |sum|
    ensures forall k :: 0 <= k < |sum| ==> rs[k] == Stats(sum[k], count[k], mins[k], maxs[k])
  {
    seq(|sum|, k requires 0 <= k < |sum| => Stats(sum[k], count[k], mins[k], maxs[k]))
  }

  /** The first slot at or above `i` that holds `name`, if any. */
  function FindEqual(s: seq<Slot>, name: seq<byte>, i: nat): (r: int)
    ensures -1 <= r < |s|
    decreases |s| - i
  {
    if i >= |s| then -1
    else if s[i].station == name then i
    else FindEqual(s, name, i + 1)
  }

  lemma {:induction false} FindEqualMeaning(s: seq<Slot>, name: seq<byte>, i: nat)
    ensures var r := FindEqual(s, name, i);
      && (r >= 0 ==> i <= r && s[r].station == name)
      && (r < 0 ==> forall k :: i <= k < |s| ==> s[k].station != name)
      && (forall k :: i <= k < |s| && s[k].station == name ==> r >= 0 && r <= k)
    decreases |s| - i
  {
    if i < |s| && s[i].station != name {
      FindEqualMeaning(s, name, i + 1);
    }
  }

  /** The equality-only scan of the final lookup finds a claimed name's slot. */
  lemma FindEqualFinds(h: seq<byte> -> nat, s: seq<Slot>, order: seq<seq<byte>>, at: seq<int>, name: seq<byte>)
    requires IndexInv(h, s, order, at)
    ensures var r := FindEqual(s, name, h(name));
      && (name in order ==> r >= 0 && s[r].station == name && s[r].idx < |order| && order[s[r].idx] == name)
      && (name !in order ==> r < 0 || s[r] == FREE)
  {
    var r := FindEqual(s, name, h(name));
    FindEqualMeaning(s, name, h(name));
    if name in order {
      var k :| 0 <= k < |order| && order[k] == name;
      assert s[at[k]].station == name;
      assert ChainAt(h, s, at[k]);
      SlotInOrder(s, order, at, r);
    }
  }

  /**
   * A finished index as its worker hands it on (`resultType{Temps, IdxMap}`,
   * `Result`): its slots and its records by dense index. Nothing writes them afterwards,
   * so the merges read them as values.
   */
  datatype Result = Result(idxMap: seq<Slot>, temps: seq<Stats>)

  // ---------------------------------------------------------------------------
  // The index with its record arrays

  class StationIndex {
    /** The start slot of a name. */
    const hash: seq<byte> -> nat
    /** `stationIdxMap`: 65536 slots of (name, dense index). */
    const slots: array<Slot>
    const tempSum: array<int>
    const count: array<nat>
    const minT: array<int>
    const maxT: array<int>
    /** `stationIdx`: the next dense index to hand out. */
    var stationIdx: nat
    /** The names in the order they were claimed, and the slot of each. */
    ghost var order: seq<seq<byte>>
    ghost var at: seq<int>

    ghost predicate Valid()
      reads this, slots, tempSum, count, minT, maxT
    {
      && slots.Length == SLOTS
      && tempSum.Length == CAP && count.Length == CAP && minT.Length == CAP && maxT.Length == CAP
      && tempSum != minT && tempSum != maxT && minT != maxT
      && stationIdx == |order| <= CAP
      && (forall n :: hash(n) < SLOTS)
      && IndexInv(hash, slots[..], order, at)
    }

    /** The table the index and its record arrays represent. */
    ghost function Model(): Table
      reads this, slots, tempSum, count, minT, maxT
      requires Valid()
    {
      TableOf(order, tempSum[..], count[..], minT[..], maxT[..])
    }

    /** An empty index: every slot free, every record zero. */
    constructor (hash: seq<byte> -> nat)
      requires forall n :: hash(n) < SLOTS
      ensures Valid() && this.hash == hash
      ensures Model() == map[] && stationIdx == 0
      ensures slots[..] == seq(SLOTS, _ => FREE)
      ensures fresh(slots) && fresh(tempSum) && fresh(count) && fresh(minT) && fresh(maxT)
    {
      this.hash := hash;
      slots := new Slot[SLOTS](_ => FREE);
      tempSum := new int[CAP](_ => 0);
      count := new nat[CAP](_ => 0);
      minT := new int[CAP](_ => 0);
      maxT := new int[CAP](_ => 0);
      stationIdx := 0;
      order := [];
      at := [];
      new;
      assert slots[..] == seq(SLOTS, _ => FREE);
    }

    /** The record at dense index `k`. */
    function RecordAt(k: nat): Stats
      reads this, tempSum, count, minT, maxT
      requires k < tempSum.Length && k < count.Length && k < minT.Length && k < maxT.Length
    {
      Stats(tempSum[k], count[k], minT[k], maxT[k])
    }

    /** Which names the table holds, and the record of each. */
    lemma ModelKeys()
      requires Valid()
      ensures forall n :: n in Model() <==> n in order
      ensures |Model()| == stationIdx
    {
      OrderDistinct(hash, slots[..], order, at);
      TableOfKeys(order, tempSum[..], count[..], minT[..], maxT[..]);
      TableOfSize(order, tempSum[..], count[..], minT[..], maxT[..]);
      forall n ensures n in Model() <==> n in order {
        if n in order {
          var k :| 0 <= k < |order| && order[k] == n;
        }
      }
    }

    /** The names whose probe runs past the last slot all start in the top `CAP` slots. */
    lemma DroppedHigh(dropped: set<seq<byte>>)
      requires Valid() && AllFull(hash, slots[..], dropped)
      ensures HighStart(hash, dropped)
    {
      AllFullHigh(hash, slots[..], order, at, dropped);
    }

    /** The table holds one record per claimed dense index. */
    lemma ModelSize()
      requires Valid()
      ensures |Model()| == stationIdx
    {
      OrderDistinct(hash, slots[..], order, at);
      TableOfSize(order, tempSum[..], count[..], minT[..], maxT[..]);
    }

    /** Whether the table holds one given name. */
    lemma ModelHas(n: seq<byte>)
      requires Valid()
      ensures n in Model() <==> n in order
    {
      TableOfKeys(order, tempSum[..], count[..], minT[..], maxT[..]);
      if n in order {
        var k :| 0 <= k < |order| && order[k] == n;
      }
    }

    /** The record of the name with dense index `k`. */
    lemma ModelAt(k: nat)
      requires Valid() && k < stationIdx
      ensures order[k] in Model() && Model()[order[k]] == RecordAt(k)
    {
      OrderDistinct(hash, slots[..], order, at);
      TableOfAt(order, tempSum[..], count[..], minT[..], maxT[..], k);
    }

    /**
     * The slot-order walk of `sumResults` over a source index: slot `j` adds its name
     * with the record at its dense index, or nothing when it is free.
     */
    lemma PartStep(j: nat)
      requires Valid() && j < SLOTS
      ensures slots[j].station == [] ==> Part(Model(), slots[..], j + 1) == Part(Model(), slots[..], j)
      ensures slots[j].station != [] ==>
        && 0 <= slots[j].idx < CAP
        && slots[j].station in Model() && Model()[slots[j].station] == RecordAt(slots[j].idx)
        && slots[j].station !in Part(Model(), slots[..], j)
        && Part(Model(), slots[..], j + 1) == Part(Model(), slots[..], j)[slots[j].station := RecordAt(slots[j].idx)]
    {
      var s := slots[..];
      var n := s[j].station;
      assert Occupants(s, j + 1) == Occupants(s, j) + (if n != [] then [n] else []);
      if n != [] {
        SlotInOrder(s, order, at, j);
        ModelAt(s[j].idx);
        OccupantsMeaning(s, j);
        assert Part(Model(), s, j + 1).Keys == (Part(Model(), s, j)[n := RecordAt(s[j].idx)]).Keys;
      } else {
        assert Part(Model(), s, j + 1).Keys == Part(Model(), s, j).Keys;
      }
    }

    /** The walk starts from nothing and ends with the whole table. */
    lemma PartAll()
      requires Valid()
      ensures Part(Model(), slots[..], 0) == map[]
      ensures Part(Model(), slots[..], SLOTS) == Model()
    {
      OccupantsAreOrder(hash, slots[..], order, at);
      ModelKeys();
      assert Part(Model(), slots[..], SLOTS).Keys == Model().Keys;
    }

    /** The records of the record arrays. */
    ghost function Records(): seq<Stats>
      reads tempSum, count, minT, maxT
      requires count.Length == tempSum.Length && minT.Length == tempSum.Length && maxT.Length == tempSum.Length
    {
      RecordsOf(tempSum[..], count[..], minT[..], maxT[..])
    }

    /** The index handed on as a value. */
    method Send() returns (r: Result)
      requires Valid()
      ensures r.idxMap == slots[..] && |r.temps| == CAP && r.temps == Records()
    {
      r := Result(slots[..], RecordsOf(tempSum[..], count[..], minT[..], maxT[..]));
    }

    /** A valid index is a source the slot-order walk reads correctly. */
    lemma Walk()
      requires Valid()
      ensures WalkOf(Parts(Model(), slots[..]), Model(), slots[..], Records())
    {
      var ps := Parts(Model(), slots[..]);
      PartAll();
      forall j | 0 <= j < SLOTS ensures StepTo(Model(), ps[j], ps[j + 1], slots[..][j], Records()) {
        PartStep(j);
      }
    }

    /** Folding a reading into the record of the taken slot `i` (`+= t`, `++`, min, max). */
    method FoldReading(i: nat, t: int)
      requires Valid() && i < slots.Length && slots[i].station != []
      modifies tempSum, count, minT, maxT
      ensures Valid() && slots[i].station in old(Model())
      ensures Model() == old(Model())[slots[i].station := Add(old(Model())[slots[i].station], t)]
    {
      SlotInOrder(slots[..], order, at, i);
      var stIdx := slots[i].idx;
      ModelAt(stIdx);
      OrderDistinct(hash, slots[..], order, at);
      ghost var r := Add(RecordAt(stIdx), t);
      ghost var sum0, count0, min0, max0 := tempSum[..], count[..], minT[..], maxT[..];
      TableOfUpdate(order, sum0, count0, min0, max0, stIdx, r);
      tempSum[stIdx] := tempSum[stIdx] + t;
      assert tempSum[..] == sum0[stIdx := r.sum];
      count[stIdx] := count[stIdx] + 1;
      assert count[..] == count0[stIdx := r.count];
      minT[stIdx] := Min(minT[stIdx], t);
      assert minT[..] == min0[stIdx := r.min];
      maxT[stIdx] := Max(maxT[stIdx], t);
      assert maxT[..] == max0[stIdx := r.max];
    }

    /** Folding a source record into the record of the taken slot `i`. */
    method CombineAt(i: nat, src: Stats)
      requires Valid() && i < slots.Length && slots[i].station != []
      modifies tempSum, count, minT, maxT
      ensures Valid() && slots[i].station in old(Model())
      ensures Model() == old(Model())[slots[i].station := Combine(old(Model())[slots[i].station], src)]
    {
      SlotInOrder(slots[..], order, at, i);
      var stIdx := slots[i].idx;
      ModelAt(stIdx);
      OrderDistinct(hash, slots[..], order, at);
      ghost var r := Combine(RecordAt(stIdx), src);
      ghost var sum0, count0, min0, max0 := tempSum[..], count[..], minT[..], maxT[..];
      TableOfUpdate(order, sum0, count0, min0, max0, stIdx, r);
      tempSum[stIdx] := tempSum[stIdx] + src.sum;
      assert tempSum[..] == sum0[stIdx := r.sum];
      count[stIdx] := count[stIdx] + src.count;
      assert count[..] == count0[stIdx := r.count];
      minT[stIdx] := Min(src.min, minT[stIdx]);
      assert minT[..] == min0[stIdx := r.min];
      maxT[stIdx] := Max(src.max, maxT[stIdx]);
      assert maxT[..] == max0[stIdx := r.max];
    }

    /** Claiming the free slot `i` for `name` with the record `r` at the next dense index. */
    method Claim(i: nat, name: seq<byte>, r: Stats)
      requires Valid() && name != [] && stationIdx < CAP
      requires i < slots.Length && ProbeFrom(slots[..], name, hash(name)) == Vacant(i)
      modifies this, slots, tempSum, count, minT, maxT
      ensures Valid() && stationIdx == old(stationIdx) + 1
      ensures slots[..] == old(slots[..])[i := Slot(name, old(stationIdx))]
      ensures Model() == old(Model())[name := r]
    {
      ClaimKeeps(hash, slots[..], order, at, name, i);
      TableOfAppend(order, tempSum[..], count[..], minT[..], maxT[..], name, r);
      slots[i] := Slot(name, stationIdx);
      tempSum[stationIdx] := r.sum;
      count[stationIdx] := r.count;
      minT[stationIdx] := r.min;
      maxT[stationIdx] := r.max;
      stationIdx := stationIdx + 1;
      order := order + [name];
      at := at + [i];
    }

    /** The probe loop with the name check first (Go: `bytes.Equal`, then `Station == ""`). */
    method Find(name: seq<byte>, nameHash: nat) returns (p: Probe)
      requires Valid() && nameHash == hash(name)
      ensures p == ProbeFrom(slots[..], name, nameHash)
    {
      var i := nameHash;
      while i < SLOTS
        invariant nameHash <= i <= SLOTS
        invariant ProbeFrom(slots[..], name, i) == ProbeFrom(slots[..], name, nameHash)
        decreases SLOTS - i
      {
        if slots[i].station == name {
          return Found(i);
        } else if slots[i].station == [] {
          return Vacant(i);
        }
        i := i + 1;
      }
      return Full;
    }

    /** The probe loop with the free-slot check first (C: `name[0] == 0`, then `strcmp`). */
    method FindC(name: seq<byte>, nameHash: nat) returns (p: Probe)
      requires Valid() && name != [] && nameHash == hash(name)
      ensures p == ProbeFrom(slots[..], name, nameHash)
    {
      var i := nameHash;
      while i < SLOTS
        invariant nameHash <= i <= SLOTS
        invariant ProbeFrom(slots[..], name, i) == ProbeFrom(slots[..], name, nameHash)
        decreases SLOTS - i
      {
        if slots[i].station == [] {
          return Vacant(i);
        }
        if slots[i].station == name {
          return Found(i);
        }
        i := i + 1;
      }
      return Full;
    }

    /**
     * One reading in a worker table (the probe loop of `processChunk` /
     * `process_chunk`, `cOrder` choosing C's order of the two checks): a slot holding
     * the name folds the reading into its record, a free slot is claimed with
     * `sum = min = max = t`, `count = 1`, and a probe that runs past the last slot
     * drops the reading, changing nothing.
     */
    method AddReading(name: seq<byte>, nameHash: nat, t: int, cOrder: bool) returns (p: Probe)
      requires Valid() && name != [] && nameHash == hash(name)
      requires ProbeFrom(slots[..], name, nameHash).Vacant? ==> stationIdx < CAP
      modifies this, slots, tempSum, count, minT, maxT
      ensures Valid() && p == ProbeFrom(old(slots[..]), name, nameHash)
      ensures p.Found? <==> name in old(Model())
      ensures p.Full? ==> Model() == old(Model()) && slots[..] == old(slots[..]) && stationIdx == old(stationIdx)
      ensures !p.Full? ==> Model() == Record(old(Model()), Reading(name, t))
      ensures p.Found? ==> slots[..] == old(slots[..]) && stationIdx == old(stationIdx)
      ensures p.Vacant? ==> p.at < SLOTS && slots[..] == old(slots[..])[p.at := Slot(name, old(stationIdx))] && stationIdx == old(stationIdx) + 1
    {
      ProbeFinds(hash, slots[..], order, at, name);
      ModelHas(name);
      if cOrder {
        p := FindC(name, nameHash);
      } else {
        p := Find(name, nameHash);
      }
      match p
      case Found(i) =>
        FoldReading(i, t);
      case Vacant(i) =>
        Claim(i, name, Single(t));
      case Full =>
    }

    /**
     * One source record in a merge table (the probe loop of `sumResults` /
     * `sum_results`): a slot holding the name combines the records, a free slot is
     * claimed with a copy of the source record, and a probe past the last slot drops it.
     */
    method MergeEntry(name: seq<byte>, nameHash: nat, src: Stats, cOrder: bool) returns (p: Probe)
      requires Valid() && name != [] && nameHash == hash(name)
      requires ProbeFrom(slots[..], name, nameHash).Vacant? ==> stationIdx < CAP
      modifies this, slots, tempSum, count, minT, maxT
      ensures Valid() && p == ProbeFrom(old(slots[..]), name, nameHash)
      ensures p.Found? <==> name in old(Model())
      ensures p.Full? ==> Model() == old(Model()) && slots[..] == old(slots[..]) && stationIdx == old(stationIdx)
      ensures !p.Full? ==> Model() == MergeOne(old(Model()), name, src)
      ensures p.Found? ==> slots[..] == old(slots[..]) && stationIdx == old(stationIdx)
      ensures p.Vacant? ==> p.at < SLOTS && slots[..] == old(slots[..])[p.at := Slot(name, old(stationIdx))] && stationIdx == old(stationIdx) + 1
    {
      ProbeFinds(hash, slots[..], order, at, name);
      ModelHas(name);
      if cOrder {
        p := FindC(name, nameHash);
      } else {
        p := Find(name, nameHash);
      }
      match p
      case Found(i) =>
        CombineAt(i, src);
      case Vacant(i) =>
        Claim(i, name, src);
      case Full =>
    }

    /**
     * The final lookup in go_parallel_eq.go's `main`: `idx := 0`, then scan upwards from
     * the start slot for a slot whose name equals the key. A name in the table yields
     * the dense index of its record; any other name yields 0.
     */
    method Lookup(name: seq<byte>, nameHash: nat) returns (idx: int)
      requires Valid() && nameHash == hash(name)
      ensures name in Model() ==> 0 <= idx < CAP && RecordAt(idx) == Model()[name]
      ensures name !in Model() ==> idx == 0
    {
      FindEqualFinds(hash, slots[..], order, at, name);
      ModelHas(name);
      ghost var r := FindEqual(slots[..], name, nameHash);
      idx := 0;
      var i := nameHash;
      while i < SLOTS
        invariant nameHash <= i <= SLOTS
        invariant FindEqual(slots[..], name, i) == r
        decreases SLOTS - i
      {
        if slots[i].station == name {
          idx := slots[i].idx;
          break;
        }
        i := i + 1;
      }
      if name in order {
        ModelAt(idx);
      }
    }

    /**
     * The key list of go_parallel_eq.go's `main`: the names of the taken slots, in slot
     * order — every name of the table exactly once.
     */
    method Keys() returns (keys: seq<seq<byte>>)
      requires Valid()
      ensures keys == Occupants(slots[..], SLOTS)
      ensures forall n :: n in keys <==> n in Model()
      ensures forall a, b :: 0 <= a < b < |keys| ==> keys[a] != keys[b]
    {
      OccupantsAreOrder(hash, slots[..], order, at);
      ModelKeys();
      keys := [];
      var i := 0;
      while i < SLOTS
        invariant 0 <= i <= SLOTS
        invariant keys == Occupants(slots[..], i)
      {
        if slots[i].station != [] {
          keys := keys + [slots[i].station];
        }
        i := i + 1;
      }
    }
  }
}
