/**
 * The input grammar: one reading per line, `name;[-]D.D\n` or `name;[-]DD.D\n`,
 * with the temperature in integer tenths of a degree. `Encode` writes a well-formed
 * file for a sequence of readings; the parsers are proved to read such a file back.
 */
module Lines {
  import opened Bytes

  /** One input line: a station name and its reading in tenths of a degree. */
  datatype Reading = Reading(name: seq<byte>, temp: int)

  /** A name holds no `;` and no newline. */
  predicate ValidName(n: seq<byte>) {
    SEMICOLON !in n && NEWLINE !in n
  }

  /** The readings the benchmark produces: -99.9 .. 99.9. */
  predicate ValidTemp(t: int) {
    -999 <= t <= 999
  }

  predicate WellFormed(rs: seq<Reading>) {
    forall i :: 0 <= i < |rs| ==> ValidName(rs[i].name) && ValidTemp(rs[i].temp)
  }

  /** Every name has between `lo` and `hi` bytes. */
  predicate NameLengths(rs: seq<Reading>, lo: nat, hi: nat) {
    forall i :: 0 <= i < |rs| ==> lo <= |rs[i].name| <= hi
  }

  /** No name holds a NUL byte (C compares names with `strcmp`). */
  predicate NoNul(rs: seq<Reading>) {
    forall i :: 0 <= i < |rs| ==> 0 !in rs[i].name
  }

  /** The set of station names among the readings. */
  function Names(rs: seq<Reading>): (ns: set<seq<byte>>)
    ensures forall i :: 0 <= i < |rs| ==> rs[i].name in ns
    ensures forall n :: n in ns ==> exists i :: 0 <= i < |rs| && rs[i].name == n
  {
    set i | 0 <= i < |rs| :: rs[i].name
  }

  function Abs(t: int): nat {
    if t < 0 then -t else t
  }

  /** The digits of a reading: one or two integer digits, a dot, one fractional digit. */
  function DigitsText(a: nat): (s: seq<byte>)
    requires a <= 999
    ensures NEWLINE !in s && SEMICOLON !in s && MINUS !in s
    ensures |s| == (if a < 100 then 3 else 4)
  {
    if a < 100 then [Digit(a / 10), DOT, Digit(a % 10)]
    else [Digit(a / 100), Digit(a / 10 % 10), DOT, Digit(a % 10)]
  }

  /** The text of a reading as the input file writes it. */
  function TempText(t: int): (s: seq<byte>)
    requires ValidTemp(t)
    ensures NEWLINE !in s && SEMICOLON !in s
    ensures |s| == (if t < 0 then 1 else 0) + (if Abs(t) < 100 then 3 else 4)
  {
    (if t < 0 then [MINUS] else []) + DigitsText(Abs(t))
  }

  predicate ValidReading(r: Reading) {
    ValidName(r.name) && ValidTemp(r.temp)
  }

  function LineText(r: Reading): (s: seq<byte>)
    requires ValidReading(r)
    ensures |s| > 0 && s[|s| - 1] == NEWLINE
  {
    r.name + [SEMICOLON] + TempText(r.temp) + [NEWLINE]
  }

  /** The file that holds the readings `rs`, one line each, in order. */
  function Encode(rs: seq<Reading>): seq<byte>
    requires WellFormed(rs)
  {
    if rs == [] then [] else LineText(rs[0]) + Encode(rs[1..])
  }

  /** The line of reading `i` is where the suffix from reading `i` starts. */
  lemma EncodeAt(rs: seq<Reading>, i: nat)
    requires WellFormed(rs) && i < |rs|
    ensures WellFormed(rs[i..]) && WellFormed(rs[i + 1..]) && ValidReading(rs[i])
    ensures Encode(rs[i..]) == LineText(rs[i]) + Encode(rs[i + 1..])
  {
    assert rs[i..][0] == rs[i];
    assert rs[i..][1..] == rs[i + 1..];
  }

  lemma WellFormedConcat(a: seq<Reading>, b: seq<Reading>)
    requires WellFormed(a) && WellFormed(b)
    ensures WellFormed(a + b)
  {
    forall i | 0 <= i < |a + b|
      ensures ValidName((a + b)[i].name) && ValidTemp((a + b)[i].temp)
    {
      if i < |a| {
        assert (a + b)[i] == a[i];
      } else {
        assert (a + b)[i] == b[i - |a|];
      }
    }
  }

  lemma {:induction false} EncodeConcat(a: seq<Reading>, b: seq<Reading>)
    requires WellFormed(a) && WellFormed(b)
    ensures WellFormed(a + b)
    ensures Encode(a + b) == Encode(a) + Encode(b)
  {
    WellFormedConcat(a, b);
    if a == [] {
      assert a + b == b;
    } else {
      var ab := a + b;
      assert ab[0] == a[0];
      assert ab[1..] == a[1..] + b;
      EncodeConcat(a[1..], b);
      calc {
        Encode(ab);
        LineText(a[0]) + Encode(a[1..] + b);
        LineText(a[0]) + (Encode(a[1..]) + Encode(b));
        (LineText(a[0]) + Encode(a[1..])) + Encode(b);
      }
    }
  }

  /** The empty file holds no readings. */
  lemma EncodeEmpty(rs: seq<Reading>)
    requires WellFormed(rs)
    ensures |Encode(rs)| == 0 <==> rs == []
  {
  }

  /** The only newline of a line is its last byte. */
  lemma NewlineEndsLine(r: Reading)
    requires ValidReading(r)
    ensures forall c :: 0 <= c < |LineText(r)| - 1 ==> LineText(r)[c] != NEWLINE
  {
    var s := LineText(r);
    assert s[..|s| - 1] == r.name + [SEMICOLON] + TempText(r.temp);
    forall c | 0 <= c < |s| - 1 ensures s[c] != NEWLINE {
      assert s[c] == s[..|s| - 1][c];
    }
  }

  /**
   * A newline in an encoded file ends a line: the bytes up to and including it are
   * the first `k` lines, the bytes after it are the remaining lines.
   */
  lemma {:induction false} SplitAtNewline(rs: seq<Reading>, c: nat) returns (k: nat)
    requires WellFormed(rs)
    requires c < |Encode(rs)| && Encode(rs)[c] == NEWLINE
    ensures 0 < k <= |rs|
    ensures WellFormed(rs[..k]) && WellFormed(rs[k..])
    ensures Encode(rs)[..c + 1] == Encode(rs[..k])
    ensures Encode(rs)[c + 1..] == Encode(rs[k..])
  {
    WellFormedSlices(rs);
    if c < |LineText(rs[0])| {
      SplitFirstLine(rs, c);
      k := 1;
    } else {
      var c' := c - |LineText(rs[0])|;
      assert Encode(rs[1..])[c'] == Encode(rs)[c];
      var k' := SplitAtNewline(rs[1..], c');
      SplitLaterLine(rs, c, k');
      k := k' + 1;
    }
  }

  /** A newline within the first line is its last byte, and splits off that line. */
  lemma SplitFirstLine(rs: seq<Reading>, c: nat)
    requires WellFormed(rs) && |rs| > 0 && c < |LineText(rs[0])|
    requires c < |Encode(rs)| && Encode(rs)[c] == NEWLINE
    ensures Encode(rs)[..c + 1] == Encode(rs[..1])
    ensures Encode(rs)[c + 1..] == Encode(rs[1..])
  {
    var line := LineText(rs[0]);
    assert Encode(rs) == line + Encode(rs[1..]);
    AddFirst(rs);
    NewlineEndsLine(rs[0]);
    assert line[c] == NEWLINE;
    assert c == |line| - 1;
    SliceConcat(line, Encode(rs[1..]), 0);
  }

  /** A split of the lines after the first is a split of all of them one line later. */
  lemma SplitLaterLine(rs: seq<Reading>, c: nat, k': nat)
    requires WellFormed(rs) && |rs| > 0 && |LineText(rs[0])| <= c
    requires k' <= |rs| - 1 && WellFormed(rs[1..][..k']) && WellFormed(rs[1..][k'..])
    requires c - |LineText(rs[0])| < |Encode(rs[1..])|
    requires Encode(rs[1..])[..c - |LineText(rs[0])| + 1] == Encode(rs[1..][..k'])
    requires Encode(rs[1..])[c - |LineText(rs[0])| + 1..] == Encode(rs[1..][k'..])
    requires c < |Encode(rs)|
    ensures WellFormed(rs[..k' + 1]) && WellFormed(rs[k' + 1..])
    ensures Encode(rs)[..c + 1] == Encode(rs[..k' + 1])
    ensures Encode(rs)[c + 1..] == Encode(rs[k' + 1..])
  {
    WellFormedSlices(rs);
    EncodeCons(rs, k');
    SliceConcat(LineText(rs[0]), Encode(rs[1..]), c - |LineText(rs[0])| + 1);
  }

  /** The first `k + 1` lines are the first line and the first `k` lines after it. */
  lemma EncodeCons(rs: seq<Reading>, k: nat)
    requires WellFormed(rs) && k < |rs|
    ensures WellFormed(rs[..k + 1]) && WellFormed(rs[1..][..k])
    ensures Encode(rs) == LineText(rs[0]) + Encode(rs[1..])
    ensures Encode(rs[..k + 1]) == LineText(rs[0]) + Encode(rs[1..][..k])
    ensures rs[k + 1..] == rs[1..][k..]
  {
    WellFormedSlices(rs);
    var front := rs[..k + 1];
    assert front[1..] == rs[1..][..k];
    assert front[0] == rs[0];
    WellFormedSlices(front);
    assert Encode(front) == LineText(front[0]) + Encode(front[1..]);
  }

  /** A prefix one element longer. */
  lemma PrefixStep<T>(s: seq<T>, i: nat)
    requires i < |s|
    ensures s[..i + 1] == s[..i] + [s[i]]
  {
  }

  /** A slice that runs to the end is the suffix. */
  lemma SliceToEnd<T>(s: seq<T>, i: nat, j: nat)
    requires i <= j == |s|
    ensures s[i..j] == s[i..]
  {
  }

  /** A non-empty sequence is its first element followed by the rest. */
  lemma HeadTail<T>(s: seq<T>)
    requires s != []
    ensures s == [s[0]] + s[1..]
  {
  }

  /** A sequence is its prefix followed by the rest. */
  lemma SplitJoin<T>(s: seq<T>, k: nat)
    requires k <= |s|
    ensures s[..k] + s[k..] == s
  {
  }

  lemma SliceConcat<T>(a: seq<T>, b: seq<T>, n: nat)
    requires n <= |b|
    ensures (a + b)[..|a| + n] == a + b[..n]
    ensures (a + b)[|a| + n..] == b[n..]
  {
  }

  lemma WellFormedSlices(rs: seq<Reading>)
    requires WellFormed(rs)
    ensures forall k :: 0 <= k <= |rs| ==> WellFormed(rs[..k]) && WellFormed(rs[k..])
  {
  }

  /** The first line alone encodes as its line text. */
  lemma AddFirst(rs: seq<Reading>)
    requires WellFormed(rs) && |rs| > 0
    ensures WellFormed(rs[..1]) && rs[..1] == [rs[0]]
    ensures Encode([rs[0]]) == LineText(rs[0])
  {
    assert rs[..1] == [rs[0]];
    assert [rs[0]][1..] == [];
  }

  /** Readings taken from `rs` have no other names and no other name lengths. */
  lemma SubReadings(rs: seq<Reading>, ps: seq<Reading>, lo: nat, hi: nat)
    requires forall r :: r in ps ==> r in rs
    ensures WellFormed(rs) ==> WellFormed(ps)
    ensures NameLengths(rs, lo, hi) ==> NameLengths(ps, lo, hi)
    ensures Names(ps) <= Names(rs)
  {
    forall i | 0 <= i < |ps| ensures exists j :: 0 <= j < |rs| && rs[j] == ps[i] {
      assert ps[i] in rs;
    }
  }
}
