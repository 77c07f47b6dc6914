/**
 * The output order: `sort.Strings` in Go and `qsort` with `strcmp` in C, both the
 * ascending byte-wise (lexicographic) order on station names.
 */
module KeySort {
  import opened Bytes

  /** Byte-wise lexicographic order, with a proper prefix first. */
  predicate Less(a: seq<byte>, b: seq<byte>) {
    if |a| == 0 then |b| > 0
    else if |b| == 0 then false
    else a[0] < b[0] || (a[0] == b[0] && Less(a[1..], b[1..]))
  }

  lemma {:induction false} LessIrreflexive(a: seq<byte>)
    ensures !Less(a, a)
  {
    if |a| > 0 {
      LessIrreflexive(a[1..]);
    }
  }

  lemma {:induction false} LessTransitive(a: seq<byte>, b: seq<byte>, c: seq<byte>)
    requires Less(a, b) && Less(b, c)
    ensures Less(a, c)
  {
    if |a| > 0 && |b| > 0 && |c| > 0 && a[0] == b[0] && b[0] == c[0] {
      LessTransitive(a[1..], b[1..], c[1..]);
    }
  }

  /** Any two different names are ordered one way or the other. */
  lemma {:induction false} LessTotal(a: seq<byte>, b: seq<byte>)
    requires a != b
    ensures Less(a, b) || Less(b, a)
  {
    if |a| > 0 && |b| > 0 && a[0] == b[0] {
      assert a == [a[0]] + a[1..] && b == [b[0]] + b[1..];
      LessTotal(a[1..], b[1..]);
    }
  }

  lemma LessAsymmetric(a: seq<byte>, b: seq<byte>)
    requires Less(a, b)
    ensures !Less(b, a)
  {
    if Less(b, a) {
      LessTransitive(a, b, a);
      LessIrreflexive(a);
    }
  }

  /** Strictly ascending: sorted with every name once. */
  predicate StrictlySorted(s: seq<seq<byte>>) {
    forall i, j :: 0 <= i < j < |s| ==> Less(s[i], s[j])
  }

  lemma StrictlySortedDistinct(s: seq<seq<byte>>)
    requires StrictlySorted(s)
    ensures forall i, j :: 0 <= i < j < |s| ==> s[i] != s[j]
  {
    forall i, j | 0 <= i < j < |s| ensures s[i] != s[j] {
      LessIrreflexive(s[i]);
    }
  }

  /** Inserting a name into a strictly ascending list. */
  function Insert(x: seq<byte>, s: seq<seq<byte>>): seq<seq<byte>> {
    if s == [] || Less(x, s[0]) then [x] + s else [s[0]] + Insert(x, s[1..])
  }

  lemma {:induction false} InsertSorted(x: seq<byte>, s: seq<seq<byte>>)
    requires StrictlySorted(s) && x !in s
    ensures StrictlySorted(Insert(x, s))
    ensures |Insert(x, s)| == |s| + 1
    ensures forall n :: n in Insert(x, s) <==> n == x || n in s
  {
    if s == [] {
    } else if Less(x, s[0]) {
      forall j | 0 < j < |s| ensures Less(x, s[j]) {
        LessTransitive(x, s[0], s[j]);
      }
      var r := [x] + s;
      forall i, j | 0 <= i < j < |r| ensures Less(r[i], r[j]) {
        if i > 0 {
          assert r[i] == s[i - 1] && r[j] == s[j - 1];
        }
      }
    } else {
      LessTotal(x, s[0]);
      assert s == [s[0]] + s[1..];
      InsertSorted(x, s[1..]);
      var t := Insert(x, s[1..]);
      var r := [s[0]] + t;
      forall i, j | 0 <= i < j < |r| ensures Less(r[i], r[j]) {
        if i > 0 {
          assert r[i] == t[i - 1] && r[j] == t[j - 1];
        } else {
          assert r[j] in t;
          if r[j] != x {
            var k :| 0 <= k < |s[1..]| && s[1..][k] == r[j];
            assert s[k + 1] == r[j];
          }
        }
      }
    }
  }

  /** The names of a set in ascending order, each once. */
  ghost function SortedOf(names: set<seq<byte>>): (r: seq<seq<byte>>)
    ensures |r| == |names|
    decreases |names|, 0
  {
    if names == {} then []
    else
      var x :| x in names;
      var rest := SortedOf(names - {x});
      assert |names - {x}| == |names| - 1;
      SortedOfMeaning(names - {x});
      InsertSorted(x, rest);
      Insert(x, rest)
  }

  /** `SortedOf` lists the names of the set in ascending order, each once. */
  lemma {:induction false} SortedOfMeaning(names: set<seq<byte>>)
    ensures StrictlySorted(SortedOf(names))
    ensures forall n :: n in SortedOf(names) <==> n in names
    decreases |names|, 1
  {
    if names != {} {
      var x :| x in names && SortedOf(names) == Insert(x, SortedOf(names - {x}));
      SortedOfMeaning(names - {x});
      InsertSorted(x, SortedOf(names - {x}));
    }
  }

  /** The first name of an ascending list comes before every other name in it. */
  lemma FirstIsLeast(a: seq<seq<byte>>, n: seq<byte>)
    requires StrictlySorted(a) && n in a && n != a[0]
    ensures Less(a[0], n)
  {
    var k :| 0 <= k < |a| && a[k] == n;
  }

  /** Without its first name an ascending list holds the other names. */
  lemma TailNames(a: seq<seq<byte>>, n: seq<byte>)
    requires StrictlySorted(a) && |a| > 0
    ensures n in a[1..] <==> n in a && n != a[0]
  {
    StrictlySortedDistinct(a);
    if n in a && n != a[0] {
      var k :| 0 <= k < |a| && a[k] == n;
      assert a[1..][k - 1] == n;
    }
    if n in a[1..] {
      var k :| 0 <= k < |a[1..]| && a[1..][k] == n;
      assert a[k + 1] == n;
    }
  }

  /** The ascending list of a set of names is unique. */
  lemma {:induction false} StrictlySortedUnique(a: seq<seq<byte>>, b: seq<seq<byte>>)
    requires StrictlySorted(a) && StrictlySorted(b)
    requires forall n :: n in a <==> n in b
    ensures a == b
  {
    assert a != [] ==> a[0] in b;
    assert b != [] ==> b[0] in a;
    if a != [] && b != [] {
      assert a[0] in b && b[0] in a;
      if a[0] != b[0] {
        FirstIsLeast(b, a[0]);
        FirstIsLeast(a, b[0]);
        LessAsymmetric(a[0], b[0]);
      }
      forall n ensures n in a[1..] <==> n in b[1..] {
        TailNames(a, n);
        TailNames(b, n);
      }
      StrictlySortedUnique(a[1..], b[1..]);
      assert a == [a[0]] + a[1..] && b == [b[0]] + b[1..];
    }
  }

  /**
   * `keys := ...; for key := range m { keys = append(keys, key) }`: the map's keys in
   * the order the map yields them (unspecified in Go), each once.
   */
  method CollectKeys<V>(m: map<seq<byte>, V>) returns (keys: seq<seq<byte>>)
    ensures |keys| == |m|
    ensures forall n :: n in keys <==> n in m
    ensures forall i, j :: 0 <= i < j < |keys| ==> keys[i] != keys[j]
  {
    keys := [];
    var left := m.Keys;
    while left != {}
      invariant left <= m.Keys
      invariant forall n :: n in keys <==> n in m && n !in left
      invariant forall i, j :: 0 <= i < j < |keys| ==> keys[i] != keys[j]
      invariant |keys| + |left| == |m.Keys|
      decreases |left|
    {
      var key :| key in left;
      keys := keys + [key];
      left := left - {key};
    }
    assert |m.Keys| == |m|;
  }

  /** `sort.Strings(keys)` on distinct names: the same names in ascending order. */
  method SortStrings(keys: seq<seq<byte>>) returns (sorted: seq<seq<byte>>)
    requires forall i, j :: 0 <= i < j < |keys| ==> keys[i] != keys[j]
    ensures StrictlySorted(sorted)
    ensures |sorted| == |keys|
    ensures forall n :: n in sorted <==> n in keys
  {
    sorted := [];
    var i := 0;
    while i < |keys|
      invariant 0 <= i <= |keys|
      invariant StrictlySorted(sorted)
      invariant |sorted| == i
      invariant forall n :: n in sorted <==> n in keys[..i]
    {
      assert keys[..i + 1] == keys[..i] + [keys[i]];
      InsertSorted(keys[i], sorted);
      sorted := Insert(keys[i], sorted);
      i := i + 1;
    }
    assert keys[..i] == keys;
  }

  /**
   * `sortStationNames` and the key lists of every Go variant: every key of the map
   * exactly once, in ascending byte order.
   */
  method SortStationNames<V>(m: map<seq<byte>, V>) returns (keys: seq<seq<byte>>)
    ensures StrictlySorted(keys)
    ensures |keys| == |m|
    ensures forall n :: n in keys <==> n in m
    ensures keys == SortedOf(m.Keys)
  {
    var collected := CollectKeys(m);
    keys := SortStrings(collected);
    SortedOfMeaning(m.Keys);
    StrictlySortedUnique(keys, SortedOf(m.Keys));
  }
}
