/**
 * The chunk planner of the parallel variants: chunk 0 starts at byte 0; for every
 * further worker the 150 bytes at `k * chunkSize` are searched for the first newline,
 * which ends the previous chunk and starts the next one after it. The last chunk ends
 * at `size - 1`. A window without a newline stops the planning.
 */
module Chunks {
  import opened Bytes
  import opened Lines
  import opened Stats

  /** `chunk` / `Chunk`: inclusive byte offsets. */
  datatype Chunk = Chunk(start: int, end: int)

  /** The length of every probe window. */
  const WINDOW: nat := 150

  /** The offset of the first newline among `data[off..off + len]` from `off`, or -1. */
  function FirstNewline(data: seq<byte>, off: nat, len: nat): (r: int)
    requires off + len <= |data|
    ensures -1 <= r < len
    decreases len
  {
    if len == 0 then -1
    else if data[off] == NEWLINE then 0
    else
      var k := FirstNewline(data, off + 1, len - 1);
      if k < 0 then -1 else k + 1
  }

  /** `FirstNewline` finds the first newline of the range, and -1 only when it has none. */
  lemma {:induction false} FirstNewlineMeaning(data: seq<byte>, off: nat, len: nat)
    requires off + len <= |data|
    ensures var r := FirstNewline(data, off, len);
      && (r >= 0 ==> data[off + r] == NEWLINE && forall j :: off <= j < off + r ==> data[j] != NEWLINE)
      && (r < 0 ==> forall j :: off <= j < off + len ==> data[j] != NEWLINE)
    decreases len
  {
    if len > 0 && data[off] != NEWLINE {
      FirstNewlineMeaning(data, off + 1, len - 1);
    }
  }

  /** `bytes.IndexByte` / `memchr` on the window finds that newline. */
  lemma ProbeFindsFirstNewline(data: seq<byte>, off: nat, len: nat)
    requires off + len <= |data|
    ensures IndexByte(data[off..off + len], NEWLINE) == FirstNewline(data, off, len)
  {
    var w := data[off..off + len];
    var r := IndexByte(w, NEWLINE);
    var f := FirstNewline(data, off, len);
    FirstNewlineMeaning(data, off, len);
    assert forall j :: 0 <= j < len ==> w[j] == data[off + j];
    if r >= 0 {
      assert forall j :: 0 <= j < r ==> w[..r][j] == w[j];
      assert w[r] == NEWLINE;
    }
  }

  /** One probe: read the window at `off` and search it for a newline. */
  method Probe(data: seq<byte>, off: nat) returns (newlineIdx: int)
    requires off + WINDOW <= |data|
    ensures newlineIdx == FirstNewline(data, off, WINDOW)
  {
    var buffer := data[off..off + WINDOW];
    newlineIdx := IndexByte(buffer, NEWLINE);
    ProbeFindsFirstNewline(data, off, WINDOW);
  }

  /** The cut points the remaining probes find, and whether a read fails. */
  datatype Plan = Plan(cuts: seq<int>, readFailed: bool)

  /**
   * What `left` more probes find when the next one reads at `off` and each later one
   * `chunkSize` bytes further on. In Go a window that runs past the end of the file is
   * a failed `ReadAt`, after which the program exits; a window without a newline ends
   * the planning.
   */
  function PlanFrom(data: seq<byte>, chunkSize: nat, off: nat, left: nat): (p: Plan)
    ensures |p.cuts| <= left
    decreases left
  {
    if left == 0 then Plan([], false)
    else if off + WINDOW > |data| then Plan([], true)
    else
      var n := FirstNewline(data, off, WINDOW);
      if n < 0 then Plan([], false)
      else
        var rest := PlanFrom(data, chunkSize, off + chunkSize, left - 1);
        Plan([off + n] + rest.cuts, rest.readFailed)
  }

  /** `chunkSize`: the size of the file shared out among `numCPUs`, rounded down. */
  function ShareOf(size: nat, numCPUs: nat): (r: nat)
    requires numCPUs >= 1
    ensures r * numCPUs <= size < (r + 1) * numCPUs
  {
    size / numCPUs
  }

  /** The plan of the planner: `numCPUs - 1` probes, the first at `chunkSize`. */
  function PlanOf(data: seq<byte>, chunkSize: nat, numCPUs: nat): Plan
    requires numCPUs >= 1
  {
    PlanFrom(data, chunkSize, chunkSize, numCPUs - 1)
  }

  /**
   * Chunk `i` of the cut points `cuts`: it starts at 0 or right after cut `i - 1`, and
   * ends at cut `i` or, for the last chunk, at `size - 1`.
   */
  function ChunkAt(cuts: seq<int>, size: int, i: nat): Chunk
    requires i <= |cuts|
  {
    Chunk(if i == 0 then 0 else cuts[i - 1] + 1, if i < |cuts| then cuts[i] else size - 1)
  }

  /** The chunks the cut points delimit: `[0, c1], [c1 + 1, c2], ..., [cm + 1, size - 1]`. */
  function ChunksOf(cuts: seq<int>, size: int): (cs: seq<Chunk>)
    ensures |cs| == |cuts| + 1
  {
    seq(|cuts| + 1, i requires 0 <= i <= |cuts| => ChunkAt(cuts, size, i))
  }

  /** A new cut `c` ends the last chunk at `c` and opens a chunk from `c + 1` to the end. */
  lemma ChunkAtAppend(cuts: seq<int>, c: int, size: int)
    ensures forall i :: 0 <= i < |cuts| ==> ChunkAt(cuts + [c], size, i) == ChunkAt(cuts, size, i)
    ensures ChunkAt(cuts + [c], size, |cuts|) == Chunk(ChunkAt(cuts, size, |cuts|).start, c)
    ensures ChunkAt(cuts + [c], size, |cuts| + 1) == Chunk(c + 1, size - 1)
  {
  }

  /**
   * `generateChunkIndices` (go_parallel_eq.go) and the same loop inline in
   * go_parallel_thread_factor.go. `data` is the file; the `ReadAt` of a window is the
   * slice of `data` it reads.
   */
  method GenerateChunkIndices(data: seq<byte>, numCPUs: nat, chunkSize: nat)
    returns (chunkList: seq<Chunk>, readFailed: bool)
    requires numCPUs >= 1
    ensures readFailed == PlanOf(data, chunkSize, numCPUs).readFailed
    ensures !readFailed ==> chunkList == ChunksOf(PlanOf(data, chunkSize, numCPUs).cuts, |data|)
  {
    var size := |data|;
    chunkList := [Chunk(0, size - 1)];
    ghost var cuts: seq<int> := [];
    FirstChunk(size);
    ghost var plan := PlanOf(data, chunkSize, numCPUs);
    var readOff: nat := chunkSize;
    var cpuIdx := 1;
    ghost var left: nat := numCPUs - 1;
    readFailed := false;
    while cpuIdx < numCPUs
      invariant 1 <= cpuIdx <= numCPUs && left == numCPUs - cpuIdx
      invariant |cuts| == cpuIdx - 1
      invariant chunkList == ChunksOf(cuts, size)
      invariant plan.cuts == cuts + PlanFrom(data, chunkSize, readOff, left).cuts
      invariant plan.readFailed == PlanFrom(data, chunkSize, readOff, left).readFailed
      decreases numCPUs - cpuIdx
    {
      if readOff + WINDOW > size {
        PlanFails(data, chunkSize, readOff, left);
        readFailed := true;
        return;
      }
      var newlineIdx := Probe(data, readOff);
      if newlineIdx < 0 {
        CloseLast(cuts, size);
        chunkList := chunkList[cpuIdx - 1 := Chunk(chunkList[cpuIdx - 1].start, size - 1)];
        PlanStops(data, chunkSize, readOff, left);
        break;
      }
      PlanAdvance(data, chunkSize, readOff, left, plan, cuts, newlineIdx);
      chunkList := AddChunk(chunkList, cpuIdx, readOff + newlineIdx, size, cuts);
      cuts := cuts + [readOff + newlineIdx];
      readOff := readOff + chunkSize;
      cpuIdx := cpuIdx + 1;
      left := left - 1;
    }
    PlanDone(data, chunkSize, readOff, left, plan, cuts);
  }

  /** When no probe is left, or the last one found no newline, the cuts found are the plan's. */
  lemma PlanDone(data: seq<byte>, chunkSize: nat, off: nat, left: nat, plan: Plan, cuts: seq<int>)
    requires plan.cuts == cuts + PlanFrom(data, chunkSize, off, left).cuts
    requires plan.readFailed == PlanFrom(data, chunkSize, off, left).readFailed
    requires left == 0 || PlanFrom(data, chunkSize, off, left) == Plan([], false)
    ensures plan.cuts == cuts && !plan.readFailed
  {
    assert cuts + [] == cuts;
  }

  /**
   * The append of the chunk after a new cut `c` and the update that ends chunk `k - 1`
   * at `c`: the list of the chunks of `cuts + [c]`.
   */
  method AddChunk(chunkList: seq<Chunk>, k: nat, c: int, size: int, ghost cuts: seq<int>) returns (cs: seq<Chunk>)
    requires |cuts| + 1 == k && chunkList == ChunksOf(cuts, size)
    ensures cs == ChunksOf(cuts + [c], size)
  {
    AppendCut(chunkList, cuts, c, size);
    cs := chunkList + [Chunk(c + 1, size - 1)];
    cs := cs[k - 1 := Chunk(cs[k - 1].start, c)];
    ListsAll(cs, cuts + [c], size);
  }

  /** A window past the end of the file is a failed read, whatever follows. */
  lemma PlanFails(data: seq<byte>, chunkSize: nat, off: nat, left: nat)
    requires left > 0 && off + WINDOW > |data|
    ensures PlanFrom(data, chunkSize, off, left) == Plan([], true)
  {
  }

  /** The last chunk of the list already ends at `size - 1`. */
  lemma CloseLast(cuts: seq<int>, size: int)
    ensures var cs := ChunksOf(cuts, size); cs[|cuts| := Chunk(cs[|cuts|].start, size - 1)] == cs
  {
  }

  /** Before any cut the list holds the one chunk of the whole file. */
  lemma FirstChunk(size: int)
    ensures ChunksOf([], size) == [Chunk(0, size - 1)]
  {
    assert ChunksOf([], size)[0] == Chunk(0, size - 1);
  }

  /** A window without a newline ends the plan: no more cuts, no failed read. */
  lemma PlanStops(data: seq<byte>, chunkSize: nat, off: nat, left: nat)
    requires left > 0 && off + WINDOW <= |data| && FirstNewline(data, off, WINDOW) < 0
    ensures PlanFrom(data, chunkSize, off, left) == Plan([], false)
  {
  }

  /** A list with the chunks of `cuts` entry by entry is the list of those chunks. */
  lemma ListsAll(cs: seq<Chunk>, cuts: seq<int>, size: int)
    requires ListsChunks(cs, cuts, size)
    ensures cs == ChunksOf(cuts, size)
  {
  }

  /**
   * A probe that finds a newline at `n` moves its cut from the plan of the remaining
   * probes to the cuts found so far.
   */
  lemma PlanAdvance(data: seq<byte>, chunkSize: nat, off: nat, left: nat, plan: Plan, cuts: seq<int>, n: int)
    requires left > 0 && off + WINDOW <= |data| && n == FirstNewline(data, off, WINDOW) && n >= 0
    requires plan.cuts == cuts + PlanFrom(data, chunkSize, off, left).cuts
    requires plan.readFailed == PlanFrom(data, chunkSize, off, left).readFailed
    ensures plan.cuts == cuts + [off + n] + PlanFrom(data, chunkSize, off + chunkSize, left - 1).cuts
    ensures plan.readFailed == PlanFrom(data, chunkSize, off + chunkSize, left - 1).readFailed
  {
    var rest := PlanFrom(data, chunkSize, off + chunkSize, left - 1);
    assert PlanFrom(data, chunkSize, off, left).cuts == [off + n] + rest.cuts;
    assert cuts + ([off + n] + rest.cuts) == cuts + [off + n] + rest.cuts;
  }

  /** The chunks of `cuts`, entry by entry. */
  predicate ListsChunks(cs: seq<Chunk>, cuts: seq<int>, size: int) {
    |cs| == |cuts| + 1 && forall i :: 0 <= i < |cs| ==> cs[i] == ChunkAt(cuts, size, i)
  }

  /** The Go planner's append and update for a new cut `c` list the chunks of `cuts + [c]`. */
  lemma AppendCut(cs: seq<Chunk>, cuts: seq<int>, c: int, size: int)
    requires ListsChunks(cs, cuts, size)
    ensures ListsChunks((cs + [Chunk(c + 1, size - 1)])[|cuts| := Chunk(cs[|cuts|].start, c)], cuts + [c], size)
  {
    ChunkAtAppend(cuts, c, size);
  }

  // ---------------------------------------------------------------------------
  // What the plan guarantees

  /** Every cut is a newline of the file at or after `off`. */
  predicate NewlineCuts(data: seq<byte>, cuts: seq<int>, off: nat) {
    forall i :: 0 <= i < |cuts| ==> off <= cuts[i] < |data| && data[cuts[i]] == NEWLINE
  }

  /** Every cut of a plan is a newline of the file at or after the first window. */
  lemma {:induction false} PlanCutsAreNewlines(data: seq<byte>, chunkSize: nat, off: nat, left: nat)
    ensures NewlineCuts(data, PlanFrom(data, chunkSize, off, left).cuts, off)
    decreases left
  {
    if left > 0 && off + WINDOW <= |data| {
      var n := FirstNewline(data, off, WINDOW);
      if n >= 0 {
        var rest := PlanFrom(data, chunkSize, off + chunkSize, left - 1);
        assert PlanFrom(data, chunkSize, off, left).cuts == [off + n] + rest.cuts;
        assert data[off + n] == NEWLINE by {
          FirstNewlineMeaning(data, off, WINDOW);
        }
        assert NewlineCuts(data, rest.cuts, off + chunkSize) by {
          PlanCutsAreNewlines(data, chunkSize, off + chunkSize, left - 1);
        }
        NewlineCutsCons(data, off + n, rest.cuts, off, off + chunkSize);
      }
    }
  }

  lemma NewlineCutsCons(data: seq<byte>, c: int, rest: seq<int>, off: nat, off2: nat)
    requires off <= c < |data| && data[c] == NEWLINE
    requires off <= off2 && NewlineCuts(data, rest, off2)
    ensures NewlineCuts(data, [c] + rest, off)
  {
    var cuts := [c] + rest;
    forall i | 0 <= i < |cuts| ensures off <= cuts[i] < |data| && data[cuts[i]] == NEWLINE {
      if i > 0 {
        assert cuts[i] == rest[i - 1];
      }
    }
  }

  /** The first cut is the first newline from the first window's start. */
  lemma FirstCut(data: seq<byte>, chunkSize: nat, off: nat, left: nat)
    requires |PlanFrom(data, chunkSize, off, left).cuts| > 0
    ensures var c := PlanFrom(data, chunkSize, off, left).cuts[0];
      off <= c < |data| && forall j :: off <= j < c ==> data[j] != NEWLINE
  {
    FirstNewlineMeaning(data, off, WINDOW);
  }

  predicate Nondecreasing(cuts: seq<int>) {
    forall i, j :: 0 <= i <= j < |cuts| ==> cuts[i] <= cuts[j]
  }

  /**
   * Later probes never find an earlier newline: each probe starts at or after the
   * previous one and the previous one found the first newline from its start.
   */
  lemma {:induction false} CutsNondecreasing(data: seq<byte>, chunkSize: nat, off: nat, left: nat)
    ensures Nondecreasing(PlanFrom(data, chunkSize, off, left).cuts)
    decreases left
  {
    var p := PlanFrom(data, chunkSize, off, left);
    if |p.cuts| > 1 {
      var q := PlanFrom(data, chunkSize, off + chunkSize, left - 1);
      assert p.cuts == [p.cuts[0]] + q.cuts;
      CutsNondecreasing(data, chunkSize, off + chunkSize, left - 1);
      FirstCut(data, chunkSize, off, left);
      PlanCutsAreNewlines(data, chunkSize, off + chunkSize, left - 1);
      assert data[q.cuts[0]] == NEWLINE;
      assert p.cuts[0] <= q.cuts[0];
      forall i, j | 0 <= i <= j < |p.cuts| ensures p.cuts[i] <= p.cuts[j] {
        if i > 0 {
          assert p.cuts[i] == q.cuts[i - 1] && p.cuts[j] == q.cuts[j - 1];
        } else if j > 0 {
          assert p.cuts[j] == q.cuts[j - 1];
        }
      }
    }
  }

  /**
   * Tiling: the chunks start at 0, end at `size - 1`, each starts right after the end
   * of the one before, every chunk but the last ends on a newline, no chunk has a
   * negative length, and there are at most `numCPUs` of them.
   */
  lemma ChunksTile(data: seq<byte>, chunkSize: nat, numCPUs: nat)
    requires numCPUs >= 1 && |data| > 0
    ensures var cs := ChunksOf(PlanOf(data, chunkSize, numCPUs).cuts, |data|);
      && 1 <= |cs| <= numCPUs
      && cs[0].start == 0
      && cs[|cs| - 1].end == |data| - 1
      && (forall i :: 0 <= i < |cs| - 1 ==> cs[i].end + 1 == cs[i + 1].start)
      && (forall i :: 0 <= i < |cs| - 1 ==> 0 <= cs[i].end < |data| && data[cs[i].end] == NEWLINE)
      && (forall i :: 0 <= i < |cs| ==> cs[i].start <= cs[i].end + 1)
  {
    var p := PlanOf(data, chunkSize, numCPUs);
    PlanCutsAreNewlines(data, chunkSize, chunkSize, numCPUs - 1);
    CutsNondecreasing(data, chunkSize, chunkSize, numCPUs - 1);
    var cs := ChunksOf(p.cuts, |data|);
    forall i | 0 <= i < |cs| ensures cs[i].start <= cs[i].end + 1 {
      if 0 < i < |p.cuts| {
        assert p.cuts[i - 1] <= p.cuts[i];
      }
    }
  }

  /** The bytes of chunk `ch`: `content[chunk.StartIdx:chunk.EndIdx+1]`. */
  function Piece(data: seq<byte>, ch: Chunk): (p: seq<byte>)
    requires 0 <= ch.start <= ch.end + 1 <= |data|
    ensures |p| == ch.end + 1 - ch.start
  {
    data[ch.start..ch.end + 1]
  }

  /** A chunk inside a prefix of the file reads the same bytes there. */
  lemma PiecePrefix(data: seq<byte>, n: nat, ch: Chunk)
    requires 0 <= ch.start <= ch.end + 1 <= n <= |data|
    ensures Piece(data[..n], ch) == Piece(data, ch)
  {
  }

  /** Chunk `i` of `data` is the encoding of `parts[i]`. */
  predicate Holds(cs: seq<Chunk>, data: seq<byte>, parts: seq<seq<Reading>>) {
    && |parts| == |cs|
    && forall i :: 0 <= i < |cs| ==>
      && 0 <= cs[i].start <= cs[i].end + 1 <= |data|
      && WellFormed(parts[i]) && Encode(parts[i]) == Piece(data, cs[i])
  }

  /**
   * Dropping the last cut `c` leaves the chunks of the file up to `c`: they are the
   * chunks before the last one.
   */
  lemma ChunksDropLast(cuts: seq<int>, size: int)
    requires |cuts| >= 1
    ensures var m := |cuts| - 1; var cs := ChunksOf(cuts, size); var cs' := ChunksOf(cuts[..m], cuts[m] + 1);
      && forall i :: 0 <= i <= m ==> cs'[i] == cs[i]
  {
  }

  /** The step of `ChunksSplit`: the chunk after the last cut holds the readings after it. */
  lemma HoldsAppend(cuts: seq<int>, m: nat, c: int, data: seq<byte>, prefix: seq<byte>,
                    ps: seq<seq<Reading>>, back: seq<Reading>)
    requires m + 1 == |cuts| && c == cuts[m] && 0 <= c < |data| && prefix == data[..c + 1]
    requires Holds(ChunksOf(cuts[..m], c + 1), prefix, ps)
    requires WellFormed(back) && Encode(back) == data[c + 1..]
    ensures Holds(ChunksOf(cuts, |data|), data, ps + [back])
  {
    var cs, cs' := ChunksOf(cuts, |data|), ChunksOf(cuts[..m], c + 1);
    var parts := ps + [back];
    ChunksDropLast(cuts, |data|);
    forall i | 0 <= i < |cs|
      ensures 0 <= cs[i].start <= cs[i].end + 1 <= |data|
      ensures WellFormed(parts[i]) && Encode(parts[i]) == Piece(data, cs[i])
    {
      if i <= m {
        assert parts[i] == ps[i] && cs'[i] == cs[i];
        PiecePrefix(data, c + 1, cs[i]);
      } else {
        assert parts[i] == back && cs[i] == Chunk(c + 1, |data| - 1);
        assert data[c + 1..] == Piece(data, cs[i]);
      }
    }
  }

  /** Without a cut the one chunk holds the whole file. */
  lemma HoldsWhole(rs: seq<Reading>)
    requires WellFormed(rs)
    ensures Holds(ChunksOf([], |Encode(rs)|), Encode(rs), [rs])
  {
    var data := Encode(rs);
    var cs := ChunksOf([], |data|);
    assert cs[0] == Chunk(0, |data| - 1);
    assert Piece(data, cs[0]) == data;
  }

  /** The cuts before the last one are newline cuts of the file up to the last one. */
  lemma CutsPrefix(data: seq<byte>, cuts: seq<int>, m: nat, prefix: seq<byte>)
    requires NewlineCuts(data, cuts, 0) && Nondecreasing(cuts)
    requires m + 1 == |cuts| && prefix == data[..cuts[m] + 1]
    ensures NewlineCuts(prefix, cuts[..m], 0) && Nondecreasing(cuts[..m])
  {
    forall i | 0 <= i < m ensures cuts[i] < |prefix| && prefix[cuts[i]] == NEWLINE {
      assert cuts[i] <= cuts[m];
    }
  }

  /** The readings of the parts, the parts of a prefix followed by the rest. */
  lemma PartsAppend(rs: seq<Reading>, k: nat, ps: seq<seq<Reading>>)
    requires k <= |rs| && Flatten(ps) == rs[..k]
    requires forall i, r :: 0 <= i < |ps| && r in ps[i] ==> r in rs[..k]
    ensures Flatten(ps + [rs[k..]]) == rs
    ensures forall i, r :: 0 <= i <= |ps| && r in (ps + [rs[k..]])[i] ==> r in rs
  {
    var parts := ps + [rs[k..]];
    assert parts[..|ps|] == ps;
    SplitJoin(rs, k);
    forall i, r | 0 <= i <= |ps| && r in parts[i] ensures r in rs {
      if i < |ps| {
        assert r in ps[i];
      }
    }
  }

  /**
   * Newline cuts split the readings of an encoded file: chunk `i` holds the encoding
   * of `parts[i]`, and the parts in order are the readings of the file.
   */
  lemma {:induction false} ChunksSplit(rs: seq<Reading>, cuts: seq<int>) returns (parts: seq<seq<Reading>>)
    requires WellFormed(rs) && NewlineCuts(Encode(rs), cuts, 0) && Nondecreasing(cuts)
    ensures Flatten(parts) == rs && Holds(ChunksOf(cuts, |Encode(rs)|), Encode(rs), parts)
    ensures forall i, r :: 0 <= i < |parts| && r in parts[i] ==> r in rs
    decreases |cuts|
  {
    var data := Encode(rs);
    if cuts == [] {
      parts := [rs];
      assert parts[..0] == [];
      HoldsWhole(rs);
    } else {
      var m := |cuts| - 1;
      var c := cuts[m];
      var k := SplitAtNewline(rs, c);
      var prefix := data[..c + 1];
      CutsPrefix(data, cuts, m, prefix);
      var ps := ChunksSplit(rs[..k], cuts[..m]);
      HoldsAppend(cuts, m, c, data, prefix, ps, rs[k..]);
      PartsAppend(rs, k, ps);
      parts := ps + [rs[k..]];
    }
  }

  /**
   * The readings of a well-formed file whose probe windows all lie inside it are split
   * by the planner into `numCPUs` parts, chunk `i` holding part `i`.
   */
  lemma PlanSplits(rs: seq<Reading>, chunkSize: nat, numCPUs: nat) returns (parts: seq<seq<Reading>>)
    requires numCPUs >= 1 && WellFormed(rs) && NameLengths(rs, 0, 100)
    requires ProbesInside(|Encode(rs)|, chunkSize, numCPUs)
    ensures var p := PlanOf(Encode(rs), chunkSize, numCPUs);
      && !p.readFailed && |p.cuts| == numCPUs - 1
      && Flatten(parts) == rs && Holds(ChunksOf(p.cuts, |Encode(rs)|), Encode(rs), parts)
      && forall i, r :: 0 <= i < |parts| && r in parts[i] ==> r in rs
  {
    var p := PlanOf(Encode(rs), chunkSize, numCPUs);
    NewlineEveryWindow(rs);
    PlanCuts(Encode(rs), chunkSize, numCPUs);
    parts := ChunksSplit(rs, p.cuts);
  }

  /** Every window of 150 bytes inside `data` holds a newline. */
  predicate NewlineEvery(data: seq<byte>) {
    forall off: nat | off + WINDOW <= |data| :: FirstNewline(data, off, WINDOW) >= 0
  }

  /** The plan of such a file has a newline cut for every probe, in order. */
  lemma PlanCuts(data: seq<byte>, chunkSize: nat, numCPUs: nat)
    requires numCPUs >= 1 && NewlineEvery(data) && ProbesInside(|data|, chunkSize, numCPUs)
    ensures var p := PlanOf(data, chunkSize, numCPUs);
      && !p.readFailed && |p.cuts| == numCPUs - 1
      && NewlineCuts(data, p.cuts, 0) && Nondecreasing(p.cuts)
  {
    var p := PlanFrom(data, chunkSize, chunkSize, numCPUs - 1);
    assert !p.readFailed && |p.cuts| == numCPUs - 1 by {
      ProbesWindowsInside(|data|, chunkSize, numCPUs);
      PlanComplete(data, chunkSize, chunkSize, numCPUs - 1);
    }
    assert NewlineCuts(data, p.cuts, 0) by {
      PlanCutsAreNewlines(data, chunkSize, chunkSize, numCPUs - 1);
    }
    assert Nondecreasing(p.cuts) by {
      CutsNondecreasing(data, chunkSize, chunkSize, numCPUs - 1);
    }
  }

  /** In a well-formed file with names of at most 100 bytes every line has at most 107. */
  lemma LineLength(r: Reading)
    requires ValidReading(r) && |r.name| <= 100
    ensures |LineText(r)| <= 107
  {
  }

  /**
   * In such a file every window of 150 bytes holds a newline, so the planner never
   * takes the no-newline branch.
   */
  lemma {:induction false} WindowHasNewline(rs: seq<Reading>, off: nat)
    requires WellFormed(rs) && NameLengths(rs, 0, 100)
    requires off + WINDOW <= |Encode(rs)|
    ensures NEWLINE in Encode(rs)[off..off + WINDOW]
  {
    var e := Encode(rs);
    assert |rs| > 0;
    var line := LineText(rs[0]);
    var rest := rs[1..];
    assert e == line + Encode(rest) && WellFormed(rest) && NameLengths(rest, 0, 100) && |line| <= 107 by {
      EncodeAt(rs, 0);
      assert rs[0..] == rs;
      LineLength(rs[0]);
      forall i | 0 <= i < |rest| ensures |rest[i].name| <= 100 {
        assert rest[i] == rs[i + 1];
      }
    }
    if off >= |line| {
      WindowHasNewline(rest, off - |line|);
    }
    WindowSplit(line, Encode(rest), off);
  }

  /**
   * A window of a line ending in a newline followed by more bytes holds a newline when
   * it starts in the line, or when it starts after it and its part of the rest holds one.
   */
  lemma WindowSplit(line: seq<byte>, tail: seq<byte>, off: nat)
    requires 0 < |line| <= WINDOW && line[|line| - 1] == NEWLINE && off + WINDOW <= |line| + |tail|
    requires off >= |line| ==> NEWLINE in tail[off - |line|..off - |line| + WINDOW]
    ensures NEWLINE in (line + tail)[off..off + WINDOW]
  {
    if off < |line| {
      assert (line + tail)[|line| - 1] == NEWLINE;
      InWindow(line + tail, off, WINDOW, |line| - 1);
    } else {
      ShiftSlice(line, tail, off, off + WINDOW);
    }
  }

  /** A byte of the window is in the window. */
  lemma InWindow<T>(s: seq<T>, off: nat, len: nat, j: nat)
    requires off <= j < off + len <= |s|
    ensures s[j] in s[off..off + len]
  {
    assert s[off..off + len][j - off] == s[j];
  }

  /** A slice past the front of a concatenation is a slice of its back. */
  lemma ShiftSlice<T>(a: seq<T>, b: seq<T>, i: nat, j: nat)
    requires |a| <= i <= j <= |a| + |b|
    ensures (a + b)[i..j] == b[i - |a|..j - |a|]
  {
  }

  /** Every one of `left` windows, at `off`, `off + chunkSize`, and so on, lies inside the file. */
  predicate WindowsInside(size: int, off: nat, chunkSize: nat, left: nat)
    decreases left
  {
    left == 0 || (off + WINDOW <= size && WindowsInside(size, off + chunkSize, chunkSize, left - 1))
  }

  /** The windows lie inside the file as soon as the last one does. */
  lemma {:induction false} LastWindowInside(size: int, off: nat, chunkSize: nat, left: nat)
    requires left >= 1 && off + (left - 1) * chunkSize + WINDOW <= size
    ensures WindowsInside(size, off, chunkSize, left)
    decreases left
  {
    assert (left - 1) * chunkSize >= 0;
    if left >= 2 {
      assert (left - 1) * chunkSize == (left - 2) * chunkSize + chunkSize;
      LastWindowInside(size, off + chunkSize, chunkSize, left - 1);
    }
  }

  /** The probes of workers `1 .. n - 1` stay inside a file of `size` bytes. */
  predicate ProbesInside(size: int, chunkSize: nat, n: nat) {
    n <= 1 || (n - 1) * chunkSize + WINDOW <= size
  }

  lemma ProbesWindowsInside(size: int, chunkSize: nat, n: nat)
    requires n >= 1 && ProbesInside(size, chunkSize, n)
    ensures WindowsInside(size, chunkSize, chunkSize, n - 1)
  {
    if n >= 2 {
      assert (n - 1) * chunkSize == chunkSize + (n - 2) * chunkSize;
      LastWindowInside(size, chunkSize, chunkSize, n - 1);
    }
  }

  /** Hence, when every window lies inside the file, the plan has a cut for every probe. */
  lemma {:induction false} PlanComplete(data: seq<byte>, chunkSize: nat, off: nat, left: nat)
    requires NewlineEvery(data) && WindowsInside(|data|, off, chunkSize, left)
    ensures var p := PlanFrom(data, chunkSize, off, left);
      !p.readFailed && |p.cuts| == left
    decreases left
  {
    if left > 0 {
      assert FirstNewline(data, off, WINDOW) >= 0;
      PlanComplete(data, chunkSize, off + chunkSize, left - 1);
    }
  }

  /** So every window of such a file holds a newline the probe finds. */
  lemma NewlineEveryWindow(rs: seq<Reading>)
    requires WellFormed(rs) && NameLengths(rs, 0, 100)
    ensures NewlineEvery(Encode(rs))
  {
    forall off: nat | off + WINDOW <= |Encode(rs)| ensures FirstNewline(Encode(rs), off, WINDOW) >= 0 {
      WindowHasNewline(rs, off);
      ProbeFindsFirstNewline(Encode(rs), off, WINDOW);
    }
  }

  /** Without a failed read there is no failed plan. */
  lemma {:induction false} NoReadFailure(data: seq<byte>, chunkSize: nat, off: nat, left: nat)
    requires WindowsInside(|data|, off, chunkSize, left)
    ensures !PlanFrom(data, chunkSize, off, left).readFailed
    decreases left
  {
    if left > 0 {
      NoReadFailure(data, chunkSize, off + chunkSize, left - 1);
    }
  }

  // ---------------------------------------------------------------------------
  // The C planner

  /**
   * What `generate_chunk_indices` leaves in its `calloc`'d array of `numThreads`
   * entries. After a window without a newline at worker `k`, entry `k` is
   * `{0, size - 1}`: its `start_idx` keeps the 0 of `calloc`. The entries after it
   * stay `{0, 0}`.
   */
  function CChunks(data: seq<byte>, chunkSize: nat, numThreads: nat): (cs: seq<Chunk>)
    requires numThreads >= 1
    ensures |cs| == numThreads
  {
    CChunksOf(PlanOf(data, chunkSize, numThreads).cuts, |data|, numThreads)
  }

  /** The C array for the cuts `cuts` out of `n` entries. */
  function CChunksOf(cuts: seq<int>, size: int, n: nat): (cs: seq<Chunk>)
    ensures |cs| == n
  {
    seq(n, i requires 0 <= i < n =>
      if i <= |cuts| then ChunkAt(cuts, size, i)
      else if i == |cuts| + 1 then Chunk(0, size - 1)
      else Chunk(0, 0))
  }

  /**
   * `generate_chunk_indices` in c_parallel.c, on an array zeroed as `calloc` leaves it.
   * `memchr` reads 150 bytes at every probe, so every window must lie inside the data.
   */
  method GenerateChunkIndicesC(data: seq<byte>, numThreads: nat, chunkSize: nat) returns (chunkList: array<Chunk>)
    requires numThreads >= 1
    requires ProbesInside(|data|, chunkSize, numThreads)
    ensures fresh(chunkList)
    ensures chunkList[..] == CChunks(data, chunkSize, numThreads)
  {
    var size := |data|;
    ProbesWindowsInside(size, chunkSize, numThreads);
    chunkList := new Chunk[numThreads](_ => Chunk(0, 0));
    chunkList[0] := Chunk(0, size - 1);
    ghost var cuts: seq<int> := [];
    assert chunkList[..] == InProgress(cuts, size, numThreads);
    ghost var plan := PlanOf(data, chunkSize, numThreads);
    var readOff: nat := chunkSize;
    var cpuIdx := 1;
    ghost var left: nat := numThreads - 1;
    while cpuIdx < numThreads
      invariant 1 <= cpuIdx <= numThreads && left == numThreads - cpuIdx
      invariant |cuts| == cpuIdx - 1
      invariant WindowsInside(size, readOff, chunkSize, left)
      invariant chunkList.Length == numThreads
      invariant chunkList[..] == InProgress(cuts, size, numThreads)
      invariant plan.cuts == cuts + PlanFrom(data, chunkSize, readOff, left).cuts
      invariant plan.readFailed == PlanFrom(data, chunkSize, readOff, left).readFailed
      decreases numThreads - cpuIdx
    {
      var newlineIdx := Probe(data, readOff);
      if newlineIdx < 0 {
        WriteLast(chunkList, cpuIdx, size, cuts);
        assert plan.cuts == cuts;
        return;
      }
      PlanAdvance(data, chunkSize, readOff, left, plan, cuts, newlineIdx);
      WriteCut(chunkList, cpuIdx, readOff + newlineIdx, size, cuts);
      cuts := cuts + [readOff + newlineIdx];
      readOff := readOff + chunkSize;
      cpuIdx := cpuIdx + 1;
      left := left - 1;
    }
    assert plan.cuts == cuts;
    CFull(cuts, size, numThreads);
  }

  /**
   * The `calloc`'d array while the C planner runs: the chunks of the cuts found so far,
   * then untouched `{0, 0}` entries.
   */
  function InProgress(cuts: seq<int>, size: int, n: nat): (cs: seq<Chunk>)
    ensures |cs| == n
  {
    seq(n, i requires 0 <= i < n => if i <= |cuts| then ChunkAt(cuts, size, i) else Chunk(0, 0))
  }

  /** The loop body's three writes for a cut `c` found by worker `k`'s probe. */
  method WriteCut(chunkList: array<Chunk>, k: nat, c: int, size: int, ghost cuts: seq<int>)
    requires |cuts| == k - 1 && k < chunkList.Length
    requires chunkList[..] == InProgress(cuts, size, chunkList.Length)
    modifies chunkList
    ensures chunkList[..] == InProgress(cuts + [c], size, chunkList.Length)
  {
    ChunkAtAppend(cuts, c, size);
    chunkList[k - 1] := Chunk(chunkList[k - 1].start, c);
    chunkList[k] := Chunk(c + 1, chunkList[k].end);
    chunkList[k] := Chunk(chunkList[k].start, size - 1);
    assert forall i :: 0 <= i < chunkList.Length ==> chunkList[i] == InProgress(cuts + [c], size, chunkList.Length)[i];
  }

  /** The write after a window without a newline, and what the array then holds. */
  method WriteLast(chunkList: array<Chunk>, k: nat, size: int, ghost cuts: seq<int>)
    requires |cuts| == k - 1 && k < chunkList.Length
    requires chunkList[..] == InProgress(cuts, size, chunkList.Length)
    modifies chunkList
    ensures chunkList[..] == CChunksOf(cuts, size, chunkList.Length)
  {
    chunkList[k] := Chunk(chunkList[k].start, size - 1);
    assert forall i :: 0 <= i < chunkList.Length ==> chunkList[i] == CChunksOf(cuts, size, chunkList.Length)[i];
  }

  /** Once every probe found a newline the array holds the chunks of all cuts. */
  lemma CFull(cuts: seq<int>, size: int, n: nat)
    requires |cuts| + 1 == n
    ensures InProgress(cuts, size, n) == CChunksOf(cuts, size, n)
  {
    assert forall i :: 0 <= i < n ==> InProgress(cuts, size, n)[i] == CChunksOf(cuts, size, n)[i];
  }

  /**
   * When every probe finds a newline the C planner lays out the same chunks as the Go
   * one; otherwise the entry after the last cut covers the whole file again.
   */
  lemma CChunksAgree(data: seq<byte>, chunkSize: nat, numThreads: nat)
    requires numThreads >= 1
    requires ProbesInside(|data|, chunkSize, numThreads)
    ensures var p := PlanOf(data, chunkSize, numThreads);
      && !p.readFailed
      && CChunks(data, chunkSize, numThreads)[..|p.cuts| + 1] == ChunksOf(p.cuts, |data|)
      && (|p.cuts| < numThreads - 1 ==> CChunks(data, chunkSize, numThreads)[|p.cuts| + 1] == Chunk(0, |data| - 1))
  {
    ProbesWindowsInside(|data|, chunkSize, numThreads);
    NoReadFailure(data, chunkSize, chunkSize, numThreads - 1);
    var p := PlanOf(data, chunkSize, numThreads);
    var cs := CChunks(data, chunkSize, numThreads);
    assert forall i :: 0 <= i <= |p.cuts| ==> cs[..|p.cuts| + 1][i] == ChunksOf(p.cuts, |data|)[i];
  }
}
