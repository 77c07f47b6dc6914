/**
 * The fixed-shape line decoder shared by the parallel variants and two single-thread
 * ones. The first name byte is taken unconditionally and the scan for `;` starts at the
 * second byte; the reading after `;` is `[-]D.D` or `[-]DD.D`, told apart by a `.` in
 * its second place, and its value is computed with the constants 528 = 11 * '0' and
 * 5328 = 111 * '0' (sign first) or `'0' * 11` and `'0' * 111` (sign applied after).
 */
module FixedShape {
  import opened Bytes
  import opened Lines
  import opened Fnv

  /** A decoded reading and the position of the next line. */
  datatype Decoded = Decoded(temp: int, next: nat)

  /** Whether `s[pos..pos + |t|]` is `t`. */
  predicate At(s: seq<byte>, pos: nat, t: seq<byte>) {
    pos + |t| <= |s| && s[pos..pos + |t|] == t
  }

  lemma AtIndex(s: seq<byte>, pos: nat, t: seq<byte>, i: nat)
    requires At(s, pos, t) && i < |t|
    ensures s[pos + i] == t[i]
  {
    assert s[pos..pos + |t|][i] == s[pos + i];
  }

  lemma AtSplit(s: seq<byte>, pos: nat, a: seq<byte>, b: seq<byte>)
    requires At(s, pos, a + b)
    ensures At(s, pos, a) && At(s, pos + |a|, b)
  {
    assert s[pos..pos + |a|] == (a + b)[..|a|];
    assert s[pos + |a|..pos + |a| + |b|] == (a + b)[|a|..];
  }

  /** The sign byte and the slice lengths every index below stays within. */
  predicate DecodableAt(content: seq<byte>, at: nat) {
    at < |content| &&
    var p := if content[at] == MINUS then at + 1 else at;
    p + 1 < |content| &&
    (if content[p + 1] == DOT then p + 4 <= |content| else p + 5 <= |content|)
  }

  function Val(b: byte): int {
    b as int
  }

  /**
   * The sign-first decoder of `processChunk` / `process_chunk` in the parallel variants:
   * `at` is the byte after `;`; a `-` there sets `negate = -1` and is skipped.
   */
  function DecodeSignFirst(content: seq<byte>, at: nat): (d: Decoded)
    requires DecodableAt(content, at)
    ensures at + 4 <= d.next <= |content|
  {
    var negate := if content[at] == MINUS then -1 else 1;
    var p := if content[at] == MINUS then at + 1 else at;
    if content[p + 1] == DOT then
      Decoded(negate * (Val(content[p]) * 10 + Val(content[p + 2]) - 528), p + 4)
    else
      Decoded(negate * (Val(content[p]) * 100 + Val(content[p + 1]) * 10 + Val(content[p + 3]) - 5328), p + 5)
  }

  /**
   * The sign-after decoder of go_parallel_thread_factor.go, go_single_thread_parsing.go
   * and go_single_thread_variables.go: the digits are combined first, then negated.
   */
  function DecodeSignAfter(content: seq<byte>, at: nat): (d: Decoded)
    requires DecodableAt(content, at)
    ensures d == DecodeSignFirst(content, at)
  {
    var negate := content[at] == MINUS;
    var p := if negate then at + 1 else at;
    var temperature :=
      if content[p + 1] == DOT then Val(content[p]) * 10 + Val(content[p + 2]) - ZERO as int * 11
      else Val(content[p]) * 100 + Val(content[p + 1]) * 10 + Val(content[p + 3]) - ZERO as int * 111;
    var next := if content[p + 1] == DOT then p + 4 else p + 5;
    Decoded(if negate then temperature * -1 else temperature, next)
  }

  /**
   * On digit bytes the constants remove the `'0'` offsets: `D.D` reads as `10 d0 + d2`
   * in 4 bytes and `DD.D` as `100 d0 + 10 d1 + d3` in 5, one more with a leading `-`.
   */
  lemma DecodeShapes(content: seq<byte>, at: nat)
    requires DecodableAt(content, at)
    ensures var neg := content[at] == MINUS;
      var p := if neg then at + 1 else at;
      var sign := if neg then -1 else 1;
      var d := DecodeSignFirst(content, at);
      var dig := (i: nat) requires i < |content| => content[i] as int - ZERO as int;
      if content[p + 1] == DOT then
        d.next == at + (if neg then 5 else 4) && d.temp == sign * (10 * dig(p) + dig(p + 2))
      else
        d.next == at + (if neg then 6 else 5) && d.temp == sign * (100 * dig(p) + 10 * dig(p + 1) + dig(p + 3))
  {
  }

  /** The bytes of `D.D` combine, with 528 = 11 * '0', to the reading they spell. */
  lemma ShortDigits(a: nat)
    requires a < 100
    ensures Val(Digit(a / 10)) * 10 + Val(Digit(a % 10)) - 528 == a
  {
  }

  /** The bytes of `DD.D` combine, with 5328 = 111 * '0', to the reading they spell. */
  lemma LongDigits(a: nat)
    requires 100 <= a <= 999
    ensures Val(Digit(a / 100)) * 100 + Val(Digit(a / 10 % 10)) * 10 + Val(Digit(a % 10)) - 5328 == a
  {
  }

  /** Every reading the file format can hold decodes back to its value. */
  lemma {:induction false} DecodeRoundTrip(content: seq<byte>, at: nat, t: int)
    requires ValidTemp(t)
    requires At(content, at, TempText(t) + [NEWLINE])
    ensures DecodableAt(content, at)
    ensures DecodeSignFirst(content, at) == Decoded(t, at + |TempText(t)| + 1)
  {
    var txt := TempText(t) + [NEWLINE];
    var a := Abs(t);
    var ds := DigitsText(a);
    var off := if t < 0 then 1 else 0;
    var p := at + off;
    assert txt == (if t < 0 then [MINUS] else []) + ds + [NEWLINE];
    assert txt[off..] == ds + [NEWLINE];
    AtIndex(content, at, txt, 0);
    AtIndex(content, at, txt, off);
    AtIndex(content, at, txt, off + 1);
    AtIndex(content, at, txt, off + 2);
    AtIndex(content, at, txt, off + 3);
    assert content[at] == MINUS <==> t < 0;
    if a < 100 {
      assert content[p] == Digit(a / 10) && content[p + 1] == DOT && content[p + 2] == Digit(a % 10);
      ShortDigits(a);
    } else {
      AtIndex(content, at, txt, off + 4);
      assert content[p] == Digit(a / 100) && content[p + 1] == Digit(a / 10 % 10);
      assert content[p + 2] == DOT && content[p + 3] == Digit(a % 10);
      LongDigits(a);
    }
  }

  /**
   * `processChunk`'s name scan: `station[0]` is the first byte however it reads, then
   * bytes are copied up to the first `;` after it. The `station` buffer has 100 bytes,
   * so a name is at most 100 bytes long (99 in C, which also writes a NUL after it:
   * `maxLen` is the buffer bound).
   */
  method ScanName(content: seq<byte>, pos: nat, maxLen: nat) returns (name: seq<byte>, semi: nat)
    requires pos + 1 < |content| && SEMICOLON in content[pos + 1..]
    requires IndexByte(content[pos + 1..], SEMICOLON) < maxLen
    ensures semi == 1 + IndexByte(content[pos + 1..], SEMICOLON)
    ensures 1 <= semi <= maxLen && pos + semi < |content|
    ensures name == content[pos..pos + semi]
  {
    name := [content[pos]];
    semi := 1;
    var currByte := content[pos + 1];
    while currByte != SEMICOLON
      invariant 1 <= semi && pos + semi < |content|
      invariant SEMICOLON !in content[pos + 1..pos + semi]
      invariant currByte == content[pos + semi]
      invariant name == content[pos..pos + semi]
      invariant semi - 1 <= IndexByte(content[pos + 1..], SEMICOLON)
      decreases |content| - semi
    {
      ExtendScan(content, pos, semi, name);
      name := name + [currByte];
      semi := semi + 1;
      currByte := content[pos + semi];
    }
    EndScan(content, pos, semi);
  }

  /**
   * The same scan in go_parallel_eq.go and c_parallel.c, which also folds every copied
   * byte after the first into the FNV-1a hash and masks it: the start slot of the name
   * with its first byte skipped.
   */
  method ScanNameHashed(content: seq<byte>, pos: nat, maxLen: nat) returns (name: seq<byte>, semi: nat, nameHash: int)
    requires pos + 1 < |content| && SEMICOLON in content[pos + 1..]
    requires IndexByte(content[pos + 1..], SEMICOLON) < maxLen
    ensures semi == 1 + IndexByte(content[pos + 1..], SEMICOLON)
    ensures 1 <= semi <= maxLen && pos + semi < |content|
    ensures name == content[pos..pos + semi]
    ensures nameHash == SlotHash(SkipFirst, name)
  {
    name := [content[pos]];
    semi := 1;
    var currByte := content[pos + 1];
    var hash: bv32 := FNV_OFFSET_BASIS;
    while currByte != SEMICOLON
      invariant 1 <= semi && pos + semi < |content|
      invariant SEMICOLON !in content[pos + 1..pos + semi]
      invariant currByte == content[pos + semi]
      invariant name == content[pos..pos + semi]
      invariant hash == Fold(name[1..])
      invariant semi - 1 <= IndexByte(content[pos + 1..], SEMICOLON)
      decreases |content| - semi
    {
      name, semi, hash, currByte := HashedStep(content, pos, name, semi, hash, currByte);
    }
    EndScan(content, pos, semi);
    nameHash := Mask16(hash);
  }

  /**
   * One turn of the hashing scan loop: the byte before the next one is copied into the
   * name and folded into the hash of the name after its first byte.
   */
  method HashedStep(content: seq<byte>, pos: nat, name: seq<byte>, semi: nat, hash: bv32, currByte: byte)
    returns (name': seq<byte>, semi': nat, hash': bv32, currByte': byte)
    requires 1 <= semi && pos + semi < |content| && SEMICOLON in content[pos + 1..]
    requires SEMICOLON !in content[pos + 1..pos + semi]
    requires currByte == content[pos + semi] && currByte != SEMICOLON
    requires name == content[pos..pos + semi] && hash == Fold(name[1..])
    requires semi - 1 <= IndexByte(content[pos + 1..], SEMICOLON)
    ensures semi' == semi + 1 && pos + semi' < |content|
    ensures SEMICOLON !in content[pos + 1..pos + semi']
    ensures currByte' == content[pos + semi']
    ensures name' == content[pos..pos + semi'] && hash' == Fold(name'[1..])
    ensures semi' - 1 <= IndexByte(content[pos + 1..], SEMICOLON)
  {
    ExtendScan(content, pos, semi, name);
    FoldAppend(name[1..], currByte);
    hash' := XorByte(hash, currByte);
    hash' := MulPrime(hash');
    name' := name + [currByte];
    semi' := semi + 1;
    currByte' := content[pos + semi'];
  }

  /** One more byte of the name, when it is not `;`. */
  lemma ExtendScan(content: seq<byte>, pos: nat, semi: nat, name: seq<byte>)
    requires 1 <= semi && pos + semi < |content|
    requires content[pos + semi] != SEMICOLON && SEMICOLON in content[pos + 1..]
    requires SEMICOLON !in content[pos + 1..pos + semi]
    requires semi - 1 <= IndexByte(content[pos + 1..], SEMICOLON)
    requires name == content[pos..pos + semi]
    ensures pos + semi + 1 < |content|
    ensures SEMICOLON !in content[pos + 1..pos + semi + 1]
    ensures semi <= IndexByte(content[pos + 1..], SEMICOLON)
    ensures name + [content[pos + semi]] == content[pos..pos + semi + 1]
    ensures (name + [content[pos + semi]])[1..] == name[1..] + [content[pos + semi]]
  {
    var tail := content[pos + 1..];
    assert tail[semi - 1] == content[pos + semi];
    assert tail[..semi] == content[pos + 1..pos + semi + 1];
  }

  /** The scan stops at the first `;` after the first byte. */
  lemma EndScan(content: seq<byte>, pos: nat, semi: nat)
    requires 1 <= semi && pos + semi < |content|
    requires content[pos + semi] == SEMICOLON
    requires SEMICOLON !in content[pos + 1..pos + semi]
    ensures semi == 1 + IndexByte(content[pos + 1..], SEMICOLON)
  {
    var tail := content[pos + 1..];
    assert tail[semi - 1] == SEMICOLON;
    assert tail[..semi - 1] == content[pos + 1..pos + semi];
  }

  /**
   * A well-formed line at `pos` is read back by the scan and the decoder: the name is
   * the line's name, the value its reading, and the next position the following line.
   */
  lemma LineDecodes(content: seq<byte>, pos: nat, r: Reading)
    requires ValidReading(r) && 1 <= |r.name|
    requires At(content, pos, LineText(r))
    ensures pos + 1 < |content| && SEMICOLON in content[pos + 1..]
    ensures 1 + IndexByte(content[pos + 1..], SEMICOLON) == |r.name|
    ensures content[pos..pos + |r.name|] == r.name
    ensures DecodableAt(content, pos + |r.name| + 1)
    ensures DecodeSignFirst(content, pos + |r.name| + 1) == Decoded(r.temp, pos + |LineText(r)|)
  {
    var line := LineText(r);
    assert line == r.name + ([SEMICOLON] + (TempText(r.temp) + [NEWLINE]));
    AtSplit(content, pos, r.name, [SEMICOLON] + (TempText(r.temp) + [NEWLINE]));
    AtSplit(content, pos + |r.name|, [SEMICOLON], TempText(r.temp) + [NEWLINE]);
    DecodeRoundTrip(content, pos + |r.name| + 1, r.temp);
    assert pos + |r.name| + 1 + |TempText(r.temp)| + 1 == pos + |LineText(r)|;
    AtIndex(content, pos + |r.name|, [SEMICOLON], 0);
    NameEndsAtSemicolon(content, pos, r.name);
  }

  lemma NameEndsAtSemicolon(content: seq<byte>, pos: nat, name: seq<byte>)
    requires 1 <= |name| && SEMICOLON !in name
    requires At(content, pos, name) && pos + |name| < |content|
    requires content[pos + |name|] == SEMICOLON
    ensures SEMICOLON in content[pos + 1..]
    ensures 1 + IndexByte(content[pos + 1..], SEMICOLON) == |name|
  {
    var tail := content[pos + 1..];
    assert tail[..|name| - 1] == name[1..] by {
      assert content[pos..pos + |name|] == name;
    }
    assert tail[|name| - 1] == SEMICOLON;
    assert SEMICOLON !in name[1..];
    assert tail == name[1..] + [SEMICOLON] + tail[|name|..];
    IndexByteAfter(name[1..], SEMICOLON, tail[|name|..]);
  }

  /** Where the name of the line at the start of `content` ends: the index of its `;`. */
  function NameEnd(content: seq<byte>): nat
    requires 1 < |content| && SEMICOLON in content[1..]
  {
    1 + IndexByte(content[1..], SEMICOLON)
  }

  /** A well-formed line followed by anything decodes back to its reading. */
  lemma LineReadsBack(r: Reading, rest: seq<byte>)
    requires ValidReading(r) && 1 <= |r.name| <= 100
    ensures var content := LineText(r) + rest;
      && 1 < |content| && SEMICOLON in content[1..] && NameEnd(content) == |r.name|
      && DecodableAt(content, NameEnd(content) + 1)
      && content[..NameEnd(content)] == r.name
      && DecodeSignFirst(content, NameEnd(content) + 1) == Decoded(r.temp, |LineText(r)|)
      && content[|LineText(r)|..] == rest
  {
    var content := LineText(r) + rest;
    assert content[0..|LineText(r)|] == LineText(r);
    LineDecodes(content, 0, r);
    assert content[..|r.name|] == content[0..|r.name|];
  }

  /**
   * The rest of the chunk from reading `i` on, as the line loop sees it: its first
   * line decodes to reading `i` and leaves the rest from reading `i + 1` on.
   */
  lemma LineAhead(rs: seq<Reading>, i: nat, content: seq<byte>)
    requires WellFormed(rs) && i < |rs| && content == Encode(rs[i..]) && 1 <= |rs[i].name| <= 100
    ensures 1 < |content| && SEMICOLON in content[1..] && NameEnd(content) == |rs[i].name|
    ensures DecodableAt(content, NameEnd(content) + 1) && content[..NameEnd(content)] == rs[i].name
    ensures var d := DecodeSignFirst(content, NameEnd(content) + 1);
      d.temp == rs[i].temp && WellFormed(rs[i + 1..]) && content[d.next..] == Encode(rs[i + 1..])
  {
    EncodeAt(rs, i);
    LineReadsBack(rs[i], Encode(rs[i + 1..]));
  }

  /**
   * The reading of one line of `processChunk` (go_parallel_thread_factor.go) and of the
   * loops of go_single_thread_parsing.go and go_single_thread_variables.go, `at` being
   * the byte after `;`: a `-` sets `negate` and is skipped, `content[1] == '.'` tells
   * `D.D` from `DD.D`, the digits are combined with `'0' * 11` or `'0' * 111`, and the
   * value is negated last. The slicing steps `content = content[...:]` are kept as one
   * offset `p`.
   */
  method DecodeTemperatureAfter(content: seq<byte>, at: nat) returns (temperature: int, next: nat)
    requires DecodableAt(content, at)
    ensures Decoded(temperature, next) == DecodeSignAfter(content, at)
  {
    var p := at;
    var negate := false;
    if content[p] == MINUS {
      negate := true;
      p := p + 1;
    }
    if content[p + 1] == DOT {
      temperature := content[p] as int * 10 + content[p + 2] as int - ZERO as int * 11;
      next := p + 4;
    } else {
      temperature := content[p] as int * 100 + content[p + 1] as int * 10 + content[p + 3] as int - ZERO as int * 111;
      next := p + 5;
    }
    if negate {
      temperature := temperature * -1;
    }
  }

  /**
   * One line of `processChunk` (go_parallel_thread_factor.go) or of the loop of
   * go_single_thread_parsing.go: the first name byte is taken as it is, the rest is
   * copied up to `;` into the 100-byte `station` buffer, then the reading is decoded
   * and the content advances past the line.
   */
  method ReadStation(content: seq<byte>) returns (station: seq<byte>, temperature: int, next: seq<byte>)
    requires 1 < |content| && SEMICOLON in content[1..] && NameEnd(content) <= 100
    requires DecodableAt(content, NameEnd(content) + 1)
    ensures station == content[..NameEnd(content)]
    ensures var d := DecodeSignFirst(content, NameEnd(content) + 1);
      temperature == d.temp && next == content[d.next..]
  {
    var semiColonIdx, rest;
    station, semiColonIdx := ScanName(content, 0, 100);
    assert semiColonIdx == NameEnd(content);
    temperature, rest := DecodeTemperatureAfter(content, semiColonIdx + 1);
    next := content[rest..];
  }
}
