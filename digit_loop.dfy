/**
 * The general digit loops of the single-thread variants: the bytes of the reading field
 * (after `;`, up to the newline) are folded as decimal digits, `.` is skipped and a `-`
 * anywhere makes the value negative. A non-digit byte b contributes the `uint8`
 * difference `b - '0'`, which wraps.
 */
module DigitLoop {
  import opened Bytes
  import opened Lines

  /** `currByte - '0'` on `uint8`. */
  function ByteDigit(b: byte): (d: int)
    ensures 0 <= d < 256
    ensures IsDigit(b) ==> d == b as int - ZERO as int
  {
    (b as int - ZERO as int) % 256
  }

  /** The digit fold on unbounded integers: `temperature = temperature*10 + d`. */
  function DigitFold(s: seq<byte>): (v: nat) {
    if s == [] then 0
    else
      var b := s[|s| - 1];
      var v := DigitFold(s[..|s| - 1]);
      if b == MINUS || b == DOT then v else v * 10 + ByteDigit(b)
  }

  /** The same fold in Go `int16`, wrapping at every step. */
  function DigitFold16(s: seq<byte>): (v: int)
    ensures -0x8000 <= v < 0x8000
  {
    if s == [] then 0
    else
      var b := s[|s| - 1];
      var v := DigitFold16(s[..|s| - 1]);
      if b == MINUS || b == DOT then v else WrapInt16(v * 10 + ByteDigit(b))
  }

  /** `negate`: -1 once a `-` was seen, else 1. */
  function Negate(s: seq<byte>): int {
    if MINUS in s then -1 else 1
  }

  /** The reading field: the bytes up to the first newline, or all of them. */
  function Field(s: seq<byte>): (f: seq<byte>)
    ensures NEWLINE !in f && |f| <= |s| && f == s[..|f|]
  {
    if NEWLINE in s then s[..IndexByte(s, NEWLINE)] else s
  }

  /** The bytes the labelled loop consumes: the field and, when there is one, its newline. */
  function Consumed(s: seq<byte>): (n: nat)
    ensures n == |Field(s)| + (if NEWLINE in s then 1 else 0)
    ensures n <= |s|
  {
    if NEWLINE in s then IndexByte(s, NEWLINE) + 1 else |s|
  }

  /** The value of a reading field: the digit fold with its sign, in `int16` when `narrow`. */
  function FieldValue(field: seq<byte>, narrow: bool): int {
    if narrow then WrapInt16(Signed(DigitFold16(field), field)) else Signed(DigitFold(field), field)
  }

  /** `v` with the sign the field's `-` gives it. */
  function Signed(v: int, field: seq<byte>): int {
    if MINUS in field then -v else v
  }

  /** `temperature *= negate` is the signed value. */
  lemma NegateTimes(v: int, field: seq<byte>)
    ensures v * Negate(field) == Signed(v, field)
  {
  }

  lemma FoldAppend(s: seq<byte>, b: byte)
    ensures DigitFold(s + [b]) == if b == MINUS || b == DOT then DigitFold(s) else DigitFold(s) * 10 + ByteDigit(b)
    ensures DigitFold16(s + [b]) == if b == MINUS || b == DOT then DigitFold16(s) else WrapInt16(DigitFold16(s) * 10 + ByteDigit(b))
    ensures (MINUS in s + [b]) <==> (MINUS in s || b == MINUS)
  {
    assert (s + [b])[..|s|] == s;
  }

  /** The folds of a slice one byte longer, and whether it holds a `-` or a newline. */
  lemma FoldSlice(s: seq<byte>, lo: nat, i: nat)
    requires lo <= i < |s|
    ensures DigitFold(s[lo..i + 1]) ==
      if s[i] == MINUS || s[i] == DOT then DigitFold(s[lo..i]) else DigitFold(s[lo..i]) * 10 + ByteDigit(s[i])
    ensures DigitFold16(s[lo..i + 1]) ==
      if s[i] == MINUS || s[i] == DOT then DigitFold16(s[lo..i]) else WrapInt16(DigitFold16(s[lo..i]) * 10 + ByteDigit(s[i]))
    ensures Negate(s[lo..i + 1]) == if s[i] == MINUS then -1 else Negate(s[lo..i])
    ensures (NEWLINE in s[lo..i + 1]) <==> (NEWLINE in s[lo..i] || s[i] == NEWLINE)
  {
    assert s[lo..i + 1] == s[lo..i] + [s[i]];
    FoldAppend(s[lo..i], s[i]);
  }

  /**
   * `parseTemperature` (go_single_thread_profiling.go) and the same labelled loop inline
   * in go_single_thread_arrays_single_parse.go: it reads from `start` to the newline or
   * the end of `content` and returns the signed value and the number of bytes read.
   */
  method ParseTemperature(content: seq<byte>, start: nat) returns (temperature: int, newLineIdx: nat)
    requires start <= |content|
    ensures newLineIdx == Consumed(content[start..])
    ensures temperature == FieldValue(Field(content[start..]), false)
  {
    temperature := 0;
    var negate := 1;
    var tmpIdx := start;
    newLineIdx := 0;
    ghost var found := false;
    while tmpIdx < |content|
      invariant start <= tmpIdx <= |content|
      invariant newLineIdx == tmpIdx - start
      invariant NEWLINE !in content[start..tmpIdx]
      invariant temperature == DigitFold(content[start..tmpIdx])
      invariant negate == Negate(content[start..tmpIdx])
    {
      var currByte := content[tmpIdx];
      FoldSlice(content, start, tmpIdx);
      // The `'\n'` case first: it leaves both values alone, so the order of the cases
      // does not change what the switch does.
      if currByte == NEWLINE {
        found := true;
        newLineIdx := newLineIdx + 1;
        break;
      }
      tmpIdx := tmpIdx + 1;
      newLineIdx := newLineIdx + 1;
      if currByte == MINUS {
        negate := -1;
      } else if currByte == DOT {
        continue;
      } else {
        var intVal := ByteDigit(currByte);
        temperature := temperature * 10 + intVal;
      }
    }
    ParseExit(content, start, tmpIdx, found, temperature, negate);
    temperature := temperature * negate;
  }

  /** Where the labelled loop stops: at the first newline, or at the end of the content. */
  lemma ParseExit(content: seq<byte>, start: nat, i: nat, found: bool, v: int, negate: int)
    requires start <= i <= |content| && NEWLINE !in content[start..i]
    requires v == DigitFold(content[start..i]) && negate == Negate(content[start..i])
    requires if found then i < |content| && content[i] == NEWLINE else i == |content|
    ensures Consumed(content[start..]) == i - start + (if found then 1 else 0)
    ensures v * negate == FieldValue(Field(content[start..]), false)
  {
    if found {
      FieldEndsAt(content, start, i);
    } else {
      FieldToEnd(content, start, i);
    }
    NegateTimes(v, content[start..i]);
  }

  /** A first newline at `i` ends the field from `start` there. */
  lemma FieldEndsAt(content: seq<byte>, start: nat, i: nat)
    requires start <= i < |content| && content[i] == NEWLINE && NEWLINE !in content[start..i]
    ensures Field(content[start..]) == content[start..i] && Consumed(content[start..]) == i - start + 1
  {
    var s := content[start..];
    assert s[..i - start] == content[start..i];
    NewlineAt(s, i - start);
  }

  /** Without a newline the field runs to the end. */
  lemma FieldToEnd(content: seq<byte>, start: nat, i: nat)
    requires start <= i == |content| && NEWLINE !in content[start..i]
    ensures Field(content[start..]) == content[start..i] && Consumed(content[start..]) == i - start
  {
    assert content[start..i] == content[start..];
  }

  /** A first newline at `k` ends the field there. */
  lemma NewlineAt(s: seq<byte>, k: nat)
    requires k < |s| && s[k] == NEWLINE && NEWLINE !in s[..k]
    ensures Field(s) == s[..k] && Consumed(s) == k + 1
  {
    IndexByteAfter(s[..k], NEWLINE, s[k + 1..]);
    assert s == s[..k] + [NEWLINE] + s[k + 1..];
  }

  /**
   * The bounded `int16` digit loop of go_single_thread_arrays.go and go_single_thread.go
   * over `content[lo..hi]` (the bytes strictly between `;` and the newline or the end).
   */
  method DigitLoop16(content: seq<byte>, lo: nat, hi: nat) returns (temperature: int)
    requires lo <= hi <= |content|
    ensures temperature == FieldValue(content[lo..hi], true)
  {
    temperature := 0;
    var negate := 1;
    var tmpIdx := lo;
    while tmpIdx < hi
      invariant lo <= tmpIdx <= hi
      invariant temperature == DigitFold16(content[lo..tmpIdx])
      invariant negate == Negate(content[lo..tmpIdx])
    {
      var currByte := content[tmpIdx];
      FoldSlice(content, lo, tmpIdx);
      if currByte == MINUS {
        negate := -1;
      } else if currByte != DOT {
        var intVal := ByteDigit(currByte);
        temperature := WrapInt16(temperature * 10 + intVal);
      }
      tmpIdx := tmpIdx + 1;
    }
    NegateTimes(temperature, content[lo..hi]);
    temperature := WrapInt16(temperature * negate);
  }

  /** The same loop over `int` in go_single_thread_arrays_64bit_ints.go. */
  method DigitLoopInt(content: seq<byte>, lo: nat, hi: nat) returns (temperature: int)
    requires lo <= hi <= |content|
    ensures temperature == FieldValue(content[lo..hi], false)
  {
    temperature := 0;
    var negate := 1;
    var tmpIdx := lo;
    while tmpIdx < hi
      invariant lo <= tmpIdx <= hi
      invariant temperature == DigitFold(content[lo..tmpIdx])
      invariant negate == Negate(content[lo..tmpIdx])
    {
      var currByte := content[tmpIdx];
      FoldSlice(content, lo, tmpIdx);
      if currByte == MINUS {
        negate := -1;
      } else if currByte != DOT {
        var intVal := ByteDigit(currByte);
        temperature := temperature * 10 + intVal;
      }
      tmpIdx := tmpIdx + 1;
    }
    NegateTimes(temperature, content[lo..hi]);
    temperature := temperature * negate;
  }

  // ---------------------------------------------------------------------------
  // The folds on the readings of a well-formed file

  /** The digit text of a reading folds to its absolute value. */
  lemma DigitsFold(a: nat)
    requires a <= 999
    ensures DigitFold(DigitsText(a)) == a
    ensures MINUS !in DigitsText(a)
  {
    var s := DigitsText(a);
    if a < 100 {
      var d0 := Digit(a / 10);
      assert s[..2] == [d0, DOT];
      assert [d0, DOT][..1] == [d0];
      assert [d0][..0] == [];
      assert DigitFold([d0]) == a / 10;
      assert DigitFold(s[..2]) == a / 10;
      assert DigitFold(s) == a / 10 * 10 + a % 10;
    } else {
      var d0 := Digit(a / 100);
      var d1 := Digit(a / 10 % 10);
      assert s[..3] == [d0, d1, DOT];
      assert [d0, d1, DOT][..2] == [d0, d1];
      assert [d0, d1][..1] == [d0];
      assert [d0][..0] == [];
      assert DigitFold([d0]) == a / 100;
      assert DigitFold([d0, d1]) == a / 100 * 10 + a / 10 % 10;
      assert DigitFold(s[..3]) == a / 10;
      assert DigitFold(s) == a / 10 * 10 + a % 10;
    }
  }

  lemma MinusPrefixFold(ds: seq<byte>)
    ensures DigitFold([MINUS] + ds) == DigitFold(ds)
    ensures DigitFold16([MINUS] + ds) == DigitFold16(ds)
  {
    if ds != [] {
      var init := ds[..|ds| - 1];
      MinusPrefixFold(init);
      assert ([MINUS] + ds)[..|ds|] == [MINUS] + init;
    }
  }

  /** The field of a well-formed reading folds to its value, with the sign from the `-`. */
  lemma TempTextFold(t: int)
    requires ValidTemp(t)
    ensures DigitFold(TempText(t)) == Abs(t)
    ensures Negate(TempText(t)) * Abs(t) == t
  {
    DigitsFold(Abs(t));
    if t < 0 {
      MinusPrefixFold(DigitsText(Abs(t)));
      assert MINUS in TempText(t) by {
        assert TempText(t)[0] == MINUS;
      }
    } else {
      assert TempText(t) == DigitsText(Abs(t));
    }
  }

  /** The unbounded fold never decreases from a prefix to the whole. */
  lemma {:induction false} FoldMonotone(s: seq<byte>, k: nat)
    requires k <= |s|
    ensures DigitFold(s[..k]) <= DigitFold(s)
  {
    if k < |s| {
      FoldMonotone(s[..|s| - 1], k);
      assert s[..|s| - 1][..k] == s[..k];
      assert DigitFold(s[..|s| - 1]) <= DigitFold(s);
    } else {
      assert s[..k] == s;
    }
  }

  /** While the fold stays below 2^15 the `int16` fold never wraps. */
  lemma {:induction false} NoWrap16(s: seq<byte>)
    requires DigitFold(s) < 0x8000
    ensures DigitFold16(s) == DigitFold(s)
  {
    if s != [] {
      var init := s[..|s| - 1];
      FoldMonotone(s, |s| - 1);
      NoWrap16(init);
    }
  }

  /** A reading of at most three digits never overflows `int16`. */
  lemma TempTextFold16(t: int)
    requires ValidTemp(t)
    ensures DigitFold16(TempText(t)) == Abs(t)
    ensures WrapInt16(DigitFold16(TempText(t)) * Negate(TempText(t))) == t
  {
    TempTextFold(t);
    NoWrap16(TempText(t));
  }

  /** The field and the consumed count of a well-formed line's reading. */
  lemma FieldOfLine(content: seq<byte>, start: nat, t: int)
    requires ValidTemp(t)
    requires start + |TempText(t)| + 1 <= |content|
    requires content[start..start + |TempText(t)| + 1] == TempText(t) + [NEWLINE]
    ensures Field(content[start..]) == TempText(t)
    ensures Consumed(content[start..]) == |TempText(t)| + 1
  {
    var s := content[start..];
    var txt := TempText(t);
    assert s[..|txt| + 1] == txt + [NEWLINE];
    assert s == txt + [NEWLINE] + s[|txt| + 1..];
    IndexByteAfter(txt, NEWLINE, s[|txt| + 1..]);
  }
}
