/**
 * go_single_thread_variables.go: the loop of go_single_thread_parsing.go with its
 * variables hoisted out of the loop. The 100-byte `station` buffer lives across lines
 * and keeps the bytes of longer earlier names past the current one; `semiColonIdx`,
 * `temperature` and `negate` are reset at the top of every line, so a line's name
 * and reading depend on that line alone.
 */
module Variables {
  import opened Bytes
  import opened Lines
  import opened Stats
  import opened FixedShape
  import opened OpenAddressing
  import opened KeySort
  import opened DenseTable

  /**
   * `semiColonIdx = 1`, `station[0] = content[0]` and the copy loop up to `;`, into the
   * `[100]byte` array value left over from the previous line: the bytes before
   * `semiColonIdx` are the name, the bytes from there on are the old ones.
   */
  method ScanNameInto(buffer: seq<byte>, content: seq<byte>) returns (semiColonIdx: nat, station: seq<byte>)
    requires |buffer| == 100
    requires 1 < |content| && SEMICOLON in content[1..] && NameEnd(content) <= 100
    ensures semiColonIdx == NameEnd(content) && |station| == 100
    ensures station[..semiColonIdx] == content[..semiColonIdx]
    ensures station[semiColonIdx..] == buffer[semiColonIdx..]
  {
    ghost var semi := NameEnd(content);
    station := buffer;
    semiColonIdx := 1;
    station := station[0 := content[0]];
    var currByte := content[1];
    while currByte != SEMICOLON
      invariant 1 <= semiColonIdx <= semi && currByte == content[semiColonIdx] && |station| == 100
      invariant station[..semiColonIdx] == content[..semiColonIdx]
      invariant station[semiColonIdx..] == buffer[semiColonIdx..]
      decreases semi - semiColonIdx
    {
      assert content[1..][semiColonIdx - 1] == currByte;
      assert semiColonIdx < semi;
      station := station[semiColonIdx := currByte];
      semiColonIdx := semiColonIdx + 1;
      currByte := content[semiColonIdx];
    }
    assert content[1..][semiColonIdx - 1] == SEMICOLON;
  }

  /**
   * One line of the loop, lines 56-84, into the hoisted variables: the name scanned into
   * the buffer up to its `;` and the reading decoded after it are the next reading, and
   * the readings after it start at `next`.
   */
  method ReadLineInto(buffer: seq<byte>, rest: seq<byte>, ghost rs: seq<Reading>, ghost i: nat)
    returns (semiColonIdx: nat, station: seq<byte>, temperature: int, next: nat)
    requires |buffer| == 100 && WellFormed(rs) && i < |rs| && rest == Encode(rs[i..]) && 1 <= |rs[i].name| <= 100
    ensures |station| == 100 && semiColonIdx <= 100 && Reading(station[..semiColonIdx], temperature) == rs[i]
    ensures next <= |rest| && WellFormed(rs[i + 1..]) && rest[next..] == Encode(rs[i + 1..])
  {
    LineAhead(rs, i, rest);
    semiColonIdx, station := ScanNameInto(buffer, rest);
    temperature, next := DecodeTemperatureAfter(rest, semiColonIdx + 1);
  }

  /**
   * The loop of `main`, lines 46-100, over a well-formed file: the hoisted variables
   * are assigned afresh for every line and the table ends up holding the aggregate.
   */
  method Scan(content: seq<byte>, ghost rs: seq<Reading>) returns (table: StationTable)
    requires WellFormed(rs) && NameLengths(rs, 1, 100) && content == Encode(rs)
    requires |Names(rs)| <= CAP
    ensures table.Valid() && !table.narrow && table.Model() == Aggregate(rs)
  {
    table := new StationTable(false);
    var stationIdx := 0;
    var station: seq<byte> := seq(100, _ => 0);
    var semiColonIdx := 1;
    var temperature := 0;
    var next := 0;
    var rest := content;
    ghost var i := 0;
    while |rest| > 0
      invariant i <= |rs| && WellFormed(rs[i..]) && rest == Encode(rs[i..])
      invariant fresh(table) && fresh(table.tempSum) && fresh(table.count) && fresh(table.minT) && fresh(table.maxT)
      invariant |station| == 100
      invariant table.Valid() && !table.narrow && stationIdx == |table.order|
      invariant table.Model() == Aggregate(rs[..i])
      decreases |rest|
    {
      EncodeEmpty(rs[i..]);
      assert 1 <= |rs[i].name| <= 100;
      semiColonIdx, station, temperature, next := ReadLineInto(station, rest, rs, i);
      var name := station[..semiColonIdx];
      ReadingStep(rs, i);
      stationIdx := StoreReading(table, Reading(name, temperature), stationIdx, Names(rs));
      rest := rest[next..];
      i := i + 1;
    }
    EncodeEmpty(rs[i..]);
    assert rs[..i] == rs;
  }

  /**
   * `main` on a well-formed file: the loop, the sorted key list and, for each key, the
   * record its figures are printed from.
   */
  method Run(content: seq<byte>, ghost rs: seq<Reading>) returns (keys: seq<seq<byte>>, recs: seq<Stats>, ghost final: Table)
    requires WellFormed(rs) && NameLengths(rs, 1, 100) && content == Encode(rs)
    requires |Names(rs)| <= CAP
    ensures final == Aggregate(rs)
    ensures keys == SortedOf(final.Keys) && StrictlySorted(keys) && |recs| == |keys|
    ensures forall i :: 0 <= i < |keys| ==> keys[i] in final && recs[i] == final[keys[i]]
  {
    var table := Scan(content, rs);
    final := table.Model();
    keys := SortedKeys(table);
    SortedOfMeaning(final.Keys);
    recs := ListRecords(keys, table);
  }
}
