/**
 * What the cursor loops of the single-thread variants read from any content, well
 * formed or not: at the cursor, the name is everything up to the next `;` (the loop
 * stops when there is none), the reading field runs from after the `;` up to the next
 * newline or, when there is none, to the end, and the cursor moves past that newline.
 */
module CursorParse {
  import opened Bytes
  import opened Lines
  import opened DigitLoop

  /** The reading of the line that starts `s`. */
  function FirstReading(s: seq<byte>, narrow: bool): Reading
    requires SEMICOLON in s
  {
    var semi := IndexByte(s, SEMICOLON);
    Reading(s[..semi], FieldValue(Field(s[semi + 1..]), narrow))
  }

  /** Where the line after the one that starts `s` begins. */
  function NextLine(s: seq<byte>): (n: nat)
    requires SEMICOLON in s
    ensures 0 < n <= |s|
  {
    var semi := IndexByte(s, SEMICOLON);
    semi + 1 + Consumed(s[semi + 1..])
  }

  /** The readings of `s` in order, up to the last `;`. */
  function ParseAll(s: seq<byte>, narrow: bool): seq<Reading>
    decreases |s|
  {
    if SEMICOLON !in s then [] else [FirstReading(s, narrow)] + ParseAll(s[NextLine(s)..], narrow)
  }

  /** The content from the cursor on; nothing once the cursor has run past the end. */
  function From(content: seq<byte>, idx: int): (s: seq<byte>)
    ensures 0 <= idx <= |content| ==> s == content[idx..]
    ensures idx > |content| ==> s == []
  {
    if 0 <= idx <= |content| then content[idx..] else []
  }

  /**
   * Dropping `n` after dropping `i` is dropping `j`, for `j` the sum written as the
   * caller has it: stated once, it keeps this sequence identity out of the contexts
   * where the cursor arithmetic is unfolded.
   */
  lemma DropAt<T>(s: seq<T>, i: nat, n: nat, j: nat)
    requires i + n == j <= |s|
    ensures s[i..][n..] == s[j..]
  {
  }

  lemma ParseFirst(s: seq<byte>, narrow: bool)
    requires SEMICOLON in s
    ensures ParseAll(s, narrow) == [FirstReading(s, narrow)] + ParseAll(s[NextLine(s)..], narrow)
  {
  }

  /**
   * One turn of a cursor loop at `idx`: the line there is the first reading, and the
   * readings after it start at `next`, past the line's newline or at the end.
   */
  lemma ParseStep(content: seq<byte>, idx: nat, next: nat, narrow: bool)
    requires idx <= |content| && SEMICOLON in content[idx..]
    requires next == idx + NextLine(content[idx..])
    ensures next <= |content|
    ensures ParseAll(content[idx..], narrow) == [FirstReading(content[idx..], narrow)] + ParseAll(content[next..], narrow)
  {
    var s := content[idx..];
    DropAt(content, idx, NextLine(s), next);
    ParseFirst(s, narrow);
  }

  /** The pieces of the line at `idx`, for a `;` found `semi` bytes on. */
  lemma LineParts(content: seq<byte>, idx: nat, semi: int, narrow: bool)
    requires idx <= |content| && semi == IndexByte(content[idx..], SEMICOLON) && 0 <= semi
    ensures idx + semi < |content| && content[idx + semi] == SEMICOLON
    ensures FirstReading(content[idx..], narrow)
      == Reading(content[idx..idx + semi], FieldValue(Field(content[idx + semi + 1..]), narrow))
    ensures NextLine(content[idx..]) == semi + 1 + Consumed(content[idx + semi + 1..])
  {
    var s := content[idx..];
    assert s[semi + 1..] == content[idx + semi + 1..];
    assert s[..semi] == content[idx..idx + semi];
  }

  /** The loop stops where no `;` is left: nothing more is read. */
  lemma ParseNone(s: seq<byte>, narrow: bool)
    requires SEMICOLON !in s
    ensures ParseAll(s, narrow) == []
  {
  }

  // ---------------------------------------------------------------------------
  // Well-formed content

  /** A well-formed reading field holds the reading, in either width. */
  lemma FieldValueText(t: int, narrow: bool)
    requires ValidTemp(t)
    ensures FieldValue(TempText(t), narrow) == t
  {
    TempTextFold(t);
    TempTextFold16(t);
  }

  /** After the `;` of a well-formed line: the field is the reading's text, then its newline. */
  lemma RestOfLine(rest: seq<byte>, t: int, tail: seq<byte>)
    requires ValidTemp(t) && rest == TempText(t) + [NEWLINE] + tail
    ensures Field(rest) == TempText(t) && Consumed(rest) == |TempText(t)| + 1
    ensures rest[Consumed(rest)..] == tail
  {
    assert rest[0..|TempText(t)| + 1] == TempText(t) + [NEWLINE];
    FieldOfLine(rest, 0, t);
    assert rest[0..] == rest;
  }

  /**
   * A well-formed line followed by anything: its `;` comes right after the name, it
   * reads back as its reading, and the next line starts right after it.
   */
  lemma LineFirst(s: seq<byte>, r: Reading, tail: seq<byte>, narrow: bool)
    requires ValidReading(r) && s == LineText(r) + tail
    ensures SEMICOLON in s && IndexByte(s, SEMICOLON) == |r.name|
    ensures FirstReading(s, narrow) == r
    ensures s[NextLine(s)..] == tail
  {
    var rest := TempText(r.temp) + [NEWLINE] + tail;
    assert s == r.name + [SEMICOLON] + rest;
    IndexByteAfter(r.name, SEMICOLON, rest);
    assert s[|r.name| + 1..] == rest;
    assert s[..|r.name|] == r.name;
    RestOfLine(rest, r.temp, tail);
    FieldValueText(r.temp, narrow);
    assert s[|r.name| + 1..][Consumed(rest)..] == s[|r.name| + 1 + Consumed(rest)..];
  }

  /** The first line of a well-formed file, and where the rest of the file starts. */
  lemma EncodeFirst(rs: seq<Reading>, narrow: bool)
    requires WellFormed(rs) && rs != []
    ensures WellFormed(rs[1..])
    ensures var s := Encode(rs);
      && SEMICOLON in s && IndexByte(s, SEMICOLON) == |rs[0].name|
      && FirstReading(s, narrow) == rs[0]
      && s[NextLine(s)..] == Encode(rs[1..])
  {
    EncodeAt(rs, 0);
    assert rs[0..] == rs;
    LineFirst(Encode(rs), rs[0], Encode(rs[1..]), narrow);
  }

  /** The file of well-formed readings reads back as those readings, names of any length. */
  lemma {:induction false} ParseEncode(rs: seq<Reading>, narrow: bool)
    requires WellFormed(rs)
    ensures ParseAll(Encode(rs), narrow) == rs
  {
    if rs != [] {
      EncodeFirst(rs, narrow);
      assert ParseAll(Encode(rs), narrow) == [rs[0]] + ParseAll(Encode(rs[1..]), narrow) by {
        var s := Encode(rs);
        ParseFirst(s, narrow);
      }
      assert ParseAll(Encode(rs[1..]), narrow) == rs[1..] by {
        ParseEncode(rs[1..], narrow);
      }
      HeadTail(rs);
    }
  }

  /**
   * Content `parseStationName` (go_single_thread_profiling.go) goes through without
   * running off the end or out of its 100-byte `station` buffer: every line up to the
   * end holds a `;` after at most 100 bytes.
   */
  ghost predicate Scannable(s: seq<byte>)
    decreases |s|
  {
    s == [] || (SEMICOLON in s && IndexByte(s, SEMICOLON) <= 100 && Scannable(s[NextLine(s)..]))
  }

  /** A well-formed file with names of at most 100 bytes is such content. */
  lemma {:induction false} EncodeScannable(rs: seq<Reading>)
    requires WellFormed(rs) && NameLengths(rs, 0, 100)
    ensures Scannable(Encode(rs))
  {
    if rs != [] {
      EncodeFirst(rs, false);
      assert NameLengths(rs[1..], 0, 100) by {
        forall i | 0 <= i < |rs[1..]| ensures |rs[1..][i].name| <= 100 {
          assert rs[1..][i] == rs[i + 1];
        }
      }
      EncodeScannable(rs[1..]);
    }
  }

  /**
   * One turn of the profiling loop: with the `;` found `semi` bytes on and `consumed`
   * bytes read after it, the cursor lands on the next line, which is scannable again,
   * and the line read is the first of the readings ahead.
   */
  lemma ScanLine(content: seq<byte>, idx: nat, semi: int, consumed: nat, next: nat, narrow: bool)
    requires idx < |content| && Scannable(content[idx..])
    requires semi == IndexByte(content[idx..], SEMICOLON) && 0 <= semi && idx + semi < |content|
    requires consumed == Consumed(content[idx + semi + 1..]) && next == idx + semi + 1 + consumed
    ensures semi <= 100 && next <= |content| && Scannable(content[next..])
    ensures ParseAll(content[idx..], narrow)
      == [Reading(content[idx..idx + semi], FieldValue(Field(content[idx + semi + 1..]), narrow))]
        + ParseAll(content[next..], narrow)
  {
    CursorLine(content, idx, semi, consumed, next, narrow);
    assert next == idx + NextLine(content[idx..]) by {
      NextLineAt(content, idx, semi);
    }
    ScanStep(content, idx, next);
  }

  /** The line after the cursor's starts past the field after the `;` found `semi` bytes on. */
  lemma NextLineAt(content: seq<byte>, idx: nat, semi: int)
    requires idx < |content| && semi == IndexByte(content[idx..], SEMICOLON) && 0 <= semi && idx + semi < |content|
    ensures SEMICOLON in content[idx..]
    ensures NextLine(content[idx..]) == semi + 1 + Consumed(content[idx + semi + 1..])
  {
    ghost var s := content[idx..];
    assert SEMICOLON in s;
    assert NextLine(s) == semi + 1 + Consumed(s[semi + 1..]);
    assert s[semi + 1..] == content[idx + semi + 1..];
  }

  /**
   * One turn of the cursor loop of go_single_thread_arrays_single_parse.go: the name up
   * to the `;` found `semi` bytes on, the field after it, and the cursor past the line.
   */
  lemma CursorLine(content: seq<byte>, idx: nat, semi: int, consumed: nat, next: nat, narrow: bool)
    requires idx <= |content| && semi == IndexByte(content[idx..], SEMICOLON) && 0 <= semi
    requires idx + semi < |content| && consumed == Consumed(content[idx + semi + 1..])
    requires next == idx + semi + 1 + consumed
    ensures next <= |content|
    ensures ParseAll(content[idx..], narrow)
      == [Reading(content[idx..idx + semi], FieldValue(Field(content[idx + semi + 1..]), narrow))]
        + ParseAll(content[next..], narrow)
  {
    LineParts(content, idx, semi, narrow);
    ParseStep(content, idx, next, narrow);
  }

  /**
   * One turn of the cursor loop of go_single_thread_arrays.go, its 64-bit twin and
   * go_single_thread.go: the newline offset `nl` counts from the `;`, or reaches the end
   * when there is no newline, the digit loop reads the bytes strictly between, and the
   * cursor moves to `next`, one past the end in the second case.
   */
  lemma ArraysLine(content: seq<byte>, idx: nat, semi: int, n: int, nl: int, next: int, narrow: bool)
    requires idx <= |content| && semi == IndexByte(content[idx..], SEMICOLON) && 0 <= semi
    requires idx + semi < |content| && n == IndexByte(content[idx + semi..], NEWLINE)
    requires nl == (if n < 0 then |content| - (idx + semi) else n) && next == idx + semi + nl + 1
    ensures 1 <= nl && idx + semi + nl <= |content| && next <= |content| + 1
    ensures ParseAll(From(content, idx), narrow)
      == [Reading(content[idx..idx + semi], FieldValue(content[idx + semi + 1..idx + semi + nl], narrow))]
        + ParseAll(From(content, next), narrow)
  {
    var after := idx + semi + 1 + Consumed(content[idx + semi + 1..]);
    NewlineCursor(content, idx, semi, n, nl, next);
    CursorLine(content, idx, semi, Consumed(content[idx + semi + 1..]), after, narrow);
    assert Field(content[idx + semi + 1..]) == content[idx + semi + 1..idx + semi + nl];
    assert From(content, idx) == content[idx..] && ParseAll(From(content, next), narrow) == ParseAll(content[after..], narrow);
  }

  /**
   * The cursor arithmetic of `ArraysLine`: the newline is measured from the `;`, and the
   * rest of the content is taken when there is none. The bytes strictly between are the
   * reading field, and the cursor moves past the newline, or one past the end.
   */
  lemma NewlineCursor(content: seq<byte>, idx: nat, semi: int, n: int, nl: int, next: int)
    requires idx <= |content| && semi == IndexByte(content[idx..], SEMICOLON) && 0 <= semi
    requires idx + semi < |content| && n == IndexByte(content[idx + semi..], NEWLINE)
    requires nl == (if n < 0 then |content| - (idx + semi) else n) && next == idx + semi + nl + 1
    ensures 1 <= nl && idx + semi + nl <= |content| && next <= |content| + 1
    ensures content[idx + semi + 1..idx + semi + nl] == Field(content[idx + semi + 1..])
    ensures From(content, next) == content[idx + semi + 1 + Consumed(content[idx + semi + 1..])..]
  {
    assert content[idx + semi] == SEMICOLON by {
      assert content[idx..][semi] == content[idx + semi];
    }
    NewlineAfterSemicolon(content[idx + semi..], n, nl);
    assert content[idx + semi..][1..] == content[idx + semi + 1..];
    assert content[idx + semi..][1..nl] == content[idx + semi + 1..idx + semi + nl];
  }

  /**
   * The newline offset measured from the `;` that starts `u`, or the length of `u` when
   * there is none: the bytes between are the field, and the offset is the bytes the field
   * and its newline take after the `;`.
   */
  lemma NewlineAfterSemicolon(u: seq<byte>, n: int, nl: int)
    requires |u| > 0 && u[0] == SEMICOLON && n == IndexByte(u, NEWLINE)
    requires nl == (if n < 0 then |u| else n)
    ensures 1 <= nl <= |u| && u[1..nl] == Field(u[1..])
    ensures n >= 0 ==> Consumed(u[1..]) == nl
    ensures n < 0 ==> Consumed(u[1..]) == |u| - 1
  {
    var k := IndexByte(u[1..], NEWLINE);
    assert n == (if k < 0 then -1 else k + 1);
    if n >= 0 {
      assert u[1..][..nl - 1] == u[1..nl];
    }
  }

  /** One turn of the profiling loop on scannable content ends at scannable content. */
  lemma ScanStep(content: seq<byte>, idx: nat, next: nat)
    requires idx < |content| && Scannable(content[idx..])
    ensures SEMICOLON in content[idx..] && IndexByte(content[idx..], SEMICOLON) <= 100
    ensures next == idx + NextLine(content[idx..]) ==> next <= |content| && Scannable(content[next..])
  {
    if next == idx + NextLine(content[idx..]) {
      DropAt(content, idx, NextLine(content[idx..]), next);
    }
  }
}
