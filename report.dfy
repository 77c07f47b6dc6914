/**
 * The printed result: `{name=min/mean/max, ...}` over the stations in ascending byte
 * order, each figure the `roundJava` of a value in tenths of a degree. An entry keeps
 * the three figures as integer tenths; the division by 10 and the `%.1f` formatting are
 * not part of this model.
 */
module Report {
  import opened Bytes
  import opened Stats
  import opened Rounding
  import opened KeySort

  /** One `name=min/mean/max` of the output, the figures in tenths of a degree. */
  datatype Entry = Entry(name: seq<byte>, min: int, mean: int, max: int)

  /**
   * The figures of one station: `roundJava` of the minimum, of `sum / count` and of
   * the maximum. Minimum and maximum are whole tenths and come out unchanged, and for
   * a consistent record the rounded mean lies between them.
   */
  function EntryOf(name: seq<byte>, s: Stats): (e: Entry)
    requires s.count > 0
    ensures e.name == name && e.min == s.min && e.max == s.max
    ensures Consistent(s) ==> e.min <= e.mean <= e.max
  {
    RoundJavaInteger(s.min);
    RoundJavaInteger(s.max);
    assert Consistent(s) ==> RoundJava(s.min as real) <= RoundJava(Mean(s.sum, s.count)) <= RoundJava(s.max as real) by {
      if Consistent(s) {
        RoundedSummaryOrdered(s.sum, s.count, s.min, s.max);
      }
    }
    Entry(name, RoundJava(s.min as real), RoundJava(Mean(s.sum, s.count)), RoundJava(s.max as real))
  }

  /** Every record of the table has at least one reading. */
  ghost predicate Counted(t: Table) {
    forall n :: n in t ==> t[n].count > 0
  }

  /** The output for table `t`: one entry per station, in ascending name order. */
  ghost function ReportOf(t: Table): (r: seq<Entry>)
    requires Counted(t)
    ensures |r| == |t|
  {
    assert |t.Keys| == |t|;
    SortedOfMeaning(t.Keys);
    var keys := SortedOf(t.Keys);
    seq(|keys|, i requires 0 <= i < |keys| => EntryOf(keys[i], t[keys[i]]))
  }

  /** Entry `i` of the report is that of the `i`-th name in ascending order. */
  lemma ReportStep(t: Table, i: nat)
    requires Counted(t) && i < |t|
    ensures var keys := SortedOf(t.Keys);
      && |keys| == |t| && keys[i] in t
      && ReportOf(t)[i] == EntryOf(keys[i], t[keys[i]])
  {
    assert |t.Keys| == |t|;
    SortedOfMeaning(t.Keys);
  }

  /**
   * What the output lists: every station of the table exactly once, in ascending byte
   * order.
   */
  lemma ReportOfNames(t: Table)
    requires Counted(t)
    ensures var r := ReportOf(t);
      && |r| == |t|
      && (forall i, j :: 0 <= i < j < |r| ==> Less(r[i].name, r[j].name))
      && (forall n :: n in t <==> exists i :: 0 <= i < |r| && r[i].name == n)
  {
    var keys := SortedOf(t.Keys);
    var r := ReportOf(t);
    SortedOfMeaning(t.Keys);
    forall i | 0 <= i < |r| ensures r[i].name == keys[i] {
      ReportStep(t, i);
    }
    ListedNames(t, keys, r);
  }

  /** Entries named after a strictly sorted listing of the table's names list each name once, in order. */
  lemma ListedNames(t: Table, keys: seq<seq<byte>>, r: seq<Entry>)
    requires |r| == |keys| && StrictlySorted(keys) && (forall n :: n in keys <==> n in t)
    requires forall i :: 0 <= i < |r| ==> r[i].name == keys[i]
    ensures forall i, j :: 0 <= i < j < |r| ==> Less(r[i].name, r[j].name)
    ensures forall n :: n in t <==> exists i :: 0 <= i < |r| && r[i].name == n
  {
    forall n ensures n in t <==> exists i :: 0 <= i < |r| && r[i].name == n {
      if n in t {
        var i :| 0 <= i < |keys| && keys[i] == n;
        assert r[i].name == n;
      }
    }
  }

  /**
   * What the output says of each station: the table's own minimum and maximum, and a
   * mean between the two.
   */
  lemma ReportOfFigures(t: Table)
    requires AllConsistent(t)
    ensures Counted(t)
    ensures var r := ReportOf(t);
      forall i :: 0 <= i < |r| ==>
        r[i].name in t && r[i].min == t[r[i].name].min && r[i].max == t[r[i].name].max
        && r[i].min <= r[i].mean <= r[i].max
  {
    SortedOfMeaning(t.Keys);
  }
}
