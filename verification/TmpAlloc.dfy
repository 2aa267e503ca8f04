/**
 lib/gmp/tal-notreent.c: temporary memory in a stack of chunks, with marks to which
 everything allocated later is released.  Addresses are relative to their chunk.
 */
module TmpAlloc {
  import opened Limbs
  import opened WideArith

  /** struct tmp_stack */
  class Chunk {
    const end: nat
    const prev: Chunk?
    var allocPoint: nat

    constructor (end: nat, allocPoint: nat, prev: Chunk?)
      ensures this.end == end && this.allocPoint == allocPoint && this.prev == prev
    {
      this.end := end;
      this.allocPoint := allocPoint;
      this.prev := prev;
    }
  }

  /** Allocated memory: size bytes from start on. */
  datatype Block = Block(chunk: Chunk, start: nat, size: nat)

  /** struct tmp_marker */
  datatype Mark = Mark(chunk: Chunk, allocPoint: nat)

  /** The state in which a mark was taken: the chunks, their allocation points, the live blocks. */
  datatype Frame = Frame(mark: Mark, chunks: seq<Chunk>, points: seq<nat>, blocks: seq<Block>)

  // ---------- rounding up to the alignment ----------

  /** The mask -align has the bits from a up to the word size. */
  lemma MaskBits(w: nat, a: nat, j: nat)
    requires a < w
    ensures Bit(Neg(w, Pow2(a)), j) <==> a <= j < w
  {
    Pow2Add(w - a, a);
    var m := Pow2(w) - Pow2(a);
    Pow2Monotone(a, w);
    ModUnique(0 - Pow2(a), Pow2(w), -1, m);
    MaskProduct(w, a);
    BitOfProduct(Ones(w - a), a, j);
    if a <= j {
      BitOfOnes(w - a, j - a);
    }
  }

  lemma MaskProduct(w: nat, a: nat)
    requires a < w
    ensures Pow2(w) - Pow2(a) == Ones(w - a) * Pow2(a)
  {
    hide Pow2;
    Pow2Add(w - a, a);
    OneLess(Pow2(w - a), Pow2(a));
  }

  lemma OneLess(p: int, q: int)
    ensures (p - 1) * q == p * q - q
  {
  }

  /** x & -align rounds down to a multiple of the alignment. */
  lemma MaskRoundsDown(w: nat, a: nat, x: nat)
    requires a < w && x < Pow2(w)
    ensures And(x, Neg(w, Pow2(a))) == x - x % Pow2(a)
  {
    hide Pow2, And, Neg;
    var q := Shr(x, a);
    forall j: nat
      ensures Bit(And(x, Neg(w, Pow2(a))), j) <==> Bit(q * Pow2(a), j)
    {
      BitOfAnd(x, Neg(w, Pow2(a)), j);
      MaskBits(w, a, j);
      BitOfProduct(q, a, j);
      if a <= j {
        BitOfShr(x, a, j - a);
      }
      if w <= j {
        BitAboveWord(x, w, j);
      }
    }
    BitsDetermine(And(x, Neg(w, Pow2(a))), q * Pow2(a));
    HighPart(x, a);
    QuotientTimes(x, Pow2(a), q);
  }

  lemma QuotientTimes(x: nat, m: nat, q: nat)
    requires 1 <= m && q == x / m
    ensures q * m == x - x % m
  {
    assert x == m * q + x % m;
  }

  /** now * 3 / 2, rounded up to the alignment, when nothing wraps. */
  function GrownBy(now: nat, align: nat): int
    requires 1 <= align
  {
    var x := now * 3 / 2 + align - 1;
    x - x % align
  }

  /** It is the least multiple of the alignment from now * 3 / 2 on. */
  lemma GrownTotal(now: nat, align: nat)
    requires 1 <= align
    ensures now <= now * 3 / 2 <= GrownBy(now, align) < now * 3 / 2 + align && GrownBy(now, align) % align == 0
  {
    var x := now * 3 / 2 + align - 1;
    var q := x / align;
    assert x == align * q + x % align;
    ModUnique(x - x % align, align, q, 0);
  }

  /** "(now * 3 / 2 + align - 1) & -align" in words. */
  function RoundedWord(w: nat, a: nat, now: nat): nat {
    And((now * 3 % Pow2(w) / 2 + Pow2(a) - 1) % Pow2(w), Neg(w, Pow2(a)))
  }

  lemma RoundedValue(w: nat, a: nat, now: nat)
    requires a < w
    ensures var t := now * 3 % Pow2(w) / 2 + Pow2(a) - 1;
            0 <= t < Pow2(w) && RoundedWord(w, a, now) == t - t % Pow2(a) && RoundedWord(w, a, now) < Pow2(w)
  {
    hide Pow2, And, Neg;
    var t := now * 3 % Pow2(w) / 2 + Pow2(a) - 1;
    HalfWord(w, a);
    assert 0 <= now * 3 % Pow2(w) < Pow2(w);
    SmallWord(w, t);
    MaskRoundsDown(w, a, t);
  }

  lemma HalfWord(w: nat, a: nat)
    ensures a < w ==> 2 * Pow2(a) <= Pow2(w)
    ensures a + 3 <= w ==> 8 * Pow2(a) <= Pow2(w)
  {
    if a < w {
      Pow2Monotone(a + 1, w);
    }
    if a + 3 <= w {
      Pow2Monotone(a + 3, w);
      assert Pow2(a + 3) == 2 * Pow2(a + 2) == 4 * Pow2(a + 1) == 8 * Pow2(a);
    }
  }

  /** The rounded word covers the request if now * 3 does not wrap, and does not if it wraps. */
  lemma RoundedWordExact(w: nat, a: nat, now: nat)
    requires a < w && now < Pow2(w)
    ensures RoundedWord(w, a, now) < Pow2(w)
    ensures now * 3 < Pow2(w) ==> now <= RoundedWord(w, a, now) == GrownBy(now, Pow2(a))
    ensures a + 3 <= w && Pow2(w) <= now * 3 ==> RoundedWord(w, a, now) < now
  {
    hide Pow2, RoundedWord;
    HalfWord(w, a);
    RoundedValue(w, a, now);
    GrownTotal(now, Pow2(a));
    SmallWord(w, now * 3);
    if Pow2(w) <= now * 3 {
      WrappedTriple(Pow2(w), now);
    }
  }

  lemma Pow2Of32()
    ensures Pow2(32) == 0x1_0000_0000 && Pow2(30) == 0x4000_0000
  {
    assert Pow2(10) == 1024 && Pow2(20) == 0x10_0000 && Pow2(30) == 0x4000_0000;
  }

  lemma QuarterAligned(a: nat)
    requires a <= 29
    ensures (0x4000_0000 + Pow2(a) - 1) % Pow2(a) == Pow2(a) - 1
  {
    Pow2Of32();
    hide Pow2;
    Pow2Add(a, 30 - a);
    ModOfSum(Pow2(a), Pow2(30 - a), Pow2(a) - 1);
    SmallMod(Pow2(a) - 1, Pow2(a));
  }

  lemma WrappedTriple(M: nat, now: nat)
    requires now < M <= now * 3
    ensures now * 3 % M == if now * 3 < 2 * M then now * 3 - M else now * 3 - 2 * M
  {
    ModUnique(now * 3, M, if now * 3 < 2 * M then 1 else 2, if now * 3 < 2 * M then now * 3 - M else now * 3 - 2 * M);
  }

  lemma SmallWord(w: nat, x: int)
    ensures 0 <= x < Pow2(w) ==> x % Pow2(w) == x
  {
    if 0 <= x < Pow2(w) {
      ModUnique(x, Pow2(w), 0, x);
    }
  }

  /** A chunk size that wraps is too small for its header. */
  lemma WrappedSize(M: nat, total: nat, current: nat, hsiz: nat)
    requires current <= total < M
    ensures total - current + hsiz < M ==> (total - current + hsiz) % M == total - current + hsiz
    ensures M <= total - current + hsiz ==> (total - current + hsiz) % M < hsiz
  {
    var x := total - current + hsiz;
    if x < M {
      ModUnique(x, M, 0, x);
    } else {
      ModOfSum(M, 1, x - M);
      assert (x - M) % M <= x - M;
    }
  }

  // ---------- the stack ----------

  /** The sum of the usable sizes of the chunks above the sentinel. */
  ghost function Capacity(hsiz: nat, chunks: seq<Chunk>): int {
    if |chunks| <= 1 then 0
    else Capacity(hsiz, chunks[..|chunks| - 1]) + (chunks[|chunks| - 1].end - hsiz)
  }

  lemma CapacitySnoc(hsiz: nat, chunks: seq<Chunk>, c: Chunk)
    requires chunks != []
    ensures Capacity(hsiz, chunks + [c]) == Capacity(hsiz, chunks) + (c.end - hsiz)
  {
    assert (chunks + [c])[..|chunks|] == chunks;
  }

  lemma {:induction false} CapacityNonNegative(hsiz: nat, chunks: seq<Chunk>)
    requires forall i | 0 < i < |chunks| :: hsiz <= chunks[i].end
    ensures 0 <= Capacity(hsiz, chunks)
  {
    if 1 < |chunks| {
      CapacityNonNegative(hsiz, chunks[..|chunks| - 1]);
    }
  }

  /** The first usable address of chunk number i. */
  function Base(hsiz: nat, i: nat): nat {
    if i == 0 then 0 else hsiz
  }

  ghost predicate Linked(chunks: seq<Chunk>) {
    && chunks != [] && chunks[0].prev == null && chunks[0].end == 0
    && (forall i | 0 < i < |chunks| :: chunks[i].prev == chunks[i - 1])
    && (forall i, j | 0 <= i < j < |chunks| :: chunks[i] != chunks[j])
  }

  ghost function PointsOf(chunks: seq<Chunk>): (points: seq<nat>)
    reads chunks
    ensures |points| == |chunks| && forall i: nat | i < |chunks| :: points[i] == chunks[i].allocPoint
  {
    if chunks == [] then [] else PointsOf(chunks[..|chunks| - 1]) + [chunks[|chunks| - 1].allocPoint]
  }

  /** Allocation points lie inside their chunks and are aligned. */
  ghost predicate PointsInside(hsiz: nat, align: nat, chunks: seq<Chunk>, points: seq<nat>) {
    align != 0 && |points| == |chunks| && forall i: nat | i < |chunks| ::
      Base(hsiz, i) <= points[i] <= chunks[i].end && points[i] % align == 0
  }

  /** b lies in the allocated part of one of the chunks. */
  ghost predicate Inside(hsiz: nat, chunks: seq<Chunk>, points: seq<nat>, b: Block) {
    exists i: nat :: InsideAt(hsiz, chunks, points, b, i)
  }

  ghost predicate InsideAt(hsiz: nat, chunks: seq<Chunk>, points: seq<nat>, b: Block, i: nat) {
    i < |chunks| && i < |points| && b.chunk == chunks[i] && Base(hsiz, i) <= b.start && b.start + b.size <= points[i]
  }

  ghost predicate AllInside(hsiz: nat, chunks: seq<Chunk>, points: seq<nat>, blocks: seq<Block>) {
    forall k: nat | k < |blocks| :: Inside(hsiz, chunks, points, blocks[k])
  }

  /** Two blocks of the same chunk do not overlap: the later one starts after the earlier one. */
  ghost predicate Disjoint(blocks: seq<Block>) {
    forall k: nat, l: nat | k < l < |blocks| && blocks[k].chunk == blocks[l].chunk :: blocks[k].start + blocks[k].size <= blocks[l].start
  }

  ghost predicate Aligned(align: nat, blocks: seq<Block>) {
    align != 0 && forall k: nat | k < |blocks| :: blocks[k].start % align == 0
  }

  /** Everything the mark of frame f would restore is still there. */
  ghost predicate FrameKept(hsiz: nat, align: nat, f: Frame, chunks: seq<Chunk>, points: seq<nat>, blocks: seq<Block>) {
    && f.chunks != [] && f.chunks <= chunks && PointsInside(hsiz, align, f.chunks, f.points)
    && f.mark == Mark(f.chunks[|f.chunks| - 1], f.points[|f.points| - 1])
    && Grown(f.points, points) && f.blocks <= blocks && AllInside(hsiz, f.chunks, f.points, f.blocks)
  }

  /** Only the last of the earlier allocation points can have moved, upwards. */
  ghost predicate Grown(points: seq<nat>, points': seq<nat>) {
    && |points| <= |points'|
    && (forall i: nat | i + 1 < |points| :: points[i] == points'[i])
    && (points != [] ==> points[|points| - 1] <= points'[|points| - 1])
  }

  ghost predicate Nested(f: Frame, g: Frame) {
    f.chunks <= g.chunks && f.blocks <= g.blocks && Grown(f.points, g.points)
  }

  /** The whole invariant, on values. */
  ghost predicate StackValid(hsiz: nat, align: nat, chunks: seq<Chunk>, points: seq<nat>, blocks: seq<Block>, frames: seq<Frame>) {
    && Linked(chunks) && PointsInside(hsiz, align, chunks, points)
    && AllInside(hsiz, chunks, points, blocks) && Disjoint(blocks) && Aligned(align, blocks)
    && (forall k: nat | k < |frames| :: FrameKept(hsiz, align, frames[k], chunks, points, blocks))
    && (forall k: nat, l: nat | k < l < |frames| :: Nested(frames[k], frames[l]))
  }

  // ---------- what the operations do to the invariant ----------

  lemma InsideMore(hsiz: nat, chunks: seq<Chunk>, points: seq<nat>, chunks': seq<Chunk>, points': seq<nat>, blocks: seq<Block>)
    requires AllInside(hsiz, chunks, points, blocks) && chunks <= chunks' && |points| <= |points'|
    requires forall i: nat | i < |points| :: points[i] <= points'[i]
    ensures AllInside(hsiz, chunks', points', blocks)
  {
    forall k: nat | k < |blocks|
      ensures Inside(hsiz, chunks', points', blocks[k])
    {
      var i: nat :| InsideAt(hsiz, chunks, points, blocks[k], i);
      assert InsideAt(hsiz, chunks', points', blocks[k], i);
    }
  }

  lemma AlignedSum(align: nat, x: nat, y: nat)
    requires align != 0 && x % align == 0 && y % align == 0
    ensures (x + y) % align == 0
  {
    var k := x / align;
    assert x == align * k;
    ModOfSum(align, k, y);
  }

  /** A new chunk on top. */
  lemma ChunkPushed(hsiz: nat, align: nat, chunks: seq<Chunk>, points: seq<nat>, blocks: seq<Block>, frames: seq<Frame>, c: Chunk)
    requires StackValid(hsiz, align, chunks, points, blocks, frames)
    requires c !in chunks && c.prev == chunks[|chunks| - 1] && hsiz <= c.end && hsiz % align == 0
    ensures StackValid(hsiz, align, chunks + [c], points + [hsiz], blocks, frames)
  {
    hide Inside, AllInside, Disjoint, Nested, Aligned;
    InsideMore(hsiz, chunks, points, chunks + [c], points + [hsiz], blocks);
  }

  /** size bytes taken from the top chunk. */
  lemma BlockTaken(hsiz: nat, align: nat, chunks: seq<Chunk>, points: seq<nat>, blocks: seq<Block>, frames: seq<Frame>, size: nat)
    requires StackValid(hsiz, align, chunks, points, blocks, frames) && size % align == 0
    requires points[|points| - 1] + size <= chunks[|chunks| - 1].end
    ensures var n := |chunks| - 1; var b := Block(chunks[n], points[n], size);
            StackValid(hsiz, align, chunks, points[n := points[n] + size], blocks + [b], frames)
  {
    assert chunks != [] && |points| == |chunks|;
    hide Linked, Nested;
    var n := |chunks| - 1;
    var points', b := points[n := points[n] + size], Block(chunks[n], points[n], size);
    AlignedSum(align, points[n], size);
    InsideMore(hsiz, chunks, points, chunks, points', blocks);
    assert InsideAt(hsiz, chunks, points', b, n);
    forall k: nat | k < |blocks| && blocks[k].chunk == chunks[n]
      ensures blocks[k].start + blocks[k].size <= points[n]
    {
      LastChunkOnce(hsiz, chunks, points, blocks[k]);
    }
  }

  lemma LastChunkOnce(hsiz: nat, chunks: seq<Chunk>, points: seq<nat>, b: Block)
    requires Linked(chunks) && |points| == |chunks| && Inside(hsiz, chunks, points, b) && b.chunk == chunks[|chunks| - 1]
    ensures b.start + b.size <= points[|chunks| - 1]
  {
    var i: nat :| InsideAt(hsiz, chunks, points, b, i);
  }

  /** A mark remembers the present state. */
  lemma FramePushed(hsiz: nat, align: nat, chunks: seq<Chunk>, points: seq<nat>, blocks: seq<Block>, frames: seq<Frame>, f: Frame)
    requires StackValid(hsiz, align, chunks, points, blocks, frames)
    requires f == Frame(Mark(chunks[|chunks| - 1], points[|points| - 1]), chunks, points, blocks)
    ensures StackValid(hsiz, align, chunks, points, blocks, frames + [f])
  {
    assert chunks != [] && |points| == |chunks|;
    hide Linked, AllInside, Disjoint, Aligned;
    var all := frames + [f];
    forall k: nat | k < |all|
      ensures FrameKept(hsiz, align, all[k], chunks, points, blocks)
    {
      if k < |frames| {
        assert all[k] == frames[k];
      }
    }
    forall k: nat, l: nat | k < l < |all|
      ensures Nested(all[k], all[l])
    {
      if l < |frames| {
        assert Nested(frames[k], frames[l]);
      } else {
        assert FrameKept(hsiz, align, frames[k], chunks, points, blocks);
      }
    }
  }

  /** Going back to frame k. */
  lemma FrameRestored(hsiz: nat, align: nat, chunks: seq<Chunk>, points: seq<nat>, blocks: seq<Block>, frames: seq<Frame>, k: nat)
    requires StackValid(hsiz, align, chunks, points, blocks, frames) && k < |frames|
    ensures var f := frames[k]; StackValid(hsiz, align, f.chunks, f.points, f.blocks, frames[..k])
  {
    hide Inside;
    var f := frames[k];
    assert FrameKept(hsiz, align, f, chunks, points, blocks);
    forall j: nat | j < k
      ensures FrameKept(hsiz, align, frames[j], f.chunks, f.points, f.blocks)
    {
      assert Nested(frames[j], f);
      assert FrameKept(hsiz, align, frames[j], chunks, points, blocks);
    }
  }

  class TmpStack {
    const w: nat               // bits of an unsigned long
    const alignBits: nat
    const hsiz: nat            // the rounded size of a chunk header
    var maxTotal: nat
    var currentTotal: nat
    var current: Chunk
    ghost var chunks: seq<Chunk>
    ghost var blocks: seq<Block>
    ghost var frames: seq<Frame>

    ghost predicate Valid()
      reads this, chunks
    {
      && alignBits < w && hsiz % Pow2(alignBits) == 0
      && StackValid(hsiz, Pow2(alignBits), chunks, PointsOf(chunks), blocks, frames)
      && current == chunks[|chunks| - 1]
      && currentTotal == Capacity(hsiz, chunks) && currentTotal <= maxTotal < Pow2(w)
    }

    /** The initial state: the sentinel xxx, which holds nothing. */
    constructor (w: nat, alignBits: nat, hsiz: nat)
      requires alignBits < w && hsiz % Pow2(alignBits) == 0
      ensures Valid() && fresh(chunks) && blocks == [] && frames == [] && currentTotal == maxTotal == 0
      ensures chunks == [current] && current.end == current.allocPoint == 0
      ensures this.w == w && this.alignBits == alignBits && this.hsiz == hsiz
    {
      var xxx := new Chunk(0, 0, null);
      this.w, this.alignBits, this.hsiz := w, alignBits, hsiz;
      maxTotal, currentTotal := 0, 0;
      current := xxx;
      chunks, blocks, frames := [xxx], [], [];
    }

    /** The request and the size of a new chunk for it stay within an unsigned long. */
    ghost predicate Fits(size: nat)
      reads this
    {
      var now := currentTotal + size;
      && now < Pow2(w)
      && if now <= maxTotal then maxTotal - currentTotal + hsiz < Pow2(w)
         else 3 * now < Pow2(w) && GrownBy(now, Pow2(alignBits)) - currentTotal + hsiz < Pow2(w)
    }

    /**
     The total after a new chunk for the request: the maximum so far if that is enough, and
     otherwise half as much again as is needed now, rounded up to the alignment.
     */
    ghost function NewTotal(size: nat): int
      reads this
    {
      var now := currentTotal + size;
      if now <= maxTotal then maxTotal else GrownBy(now, Pow2(alignBits))
    }

    /** The new chunk holds the request behind its header, and the new total counts it. */
    ghost predicate Sufficient(size: nat, chunkSize: nat, total: nat)
      reads this
    {
      hsiz + size <= chunkSize && currentTotal + size <= total
    }

    /**
     The sizes computed for a new chunk, in word arithmetic.  For an alignment of at most an
     eighth of the address space they suffice exactly when the request fits.
     */
    method ChunkSize(size: nat) returns (chunkSize: nat, total: nat, max: nat)
      requires Valid()
      ensures Fits(size) ==> total == max == NewTotal(size) && total < Pow2(w) && chunkSize == total - currentTotal + hsiz
      ensures Fits(size) ==> Sufficient(size, chunkSize, total) && maxTotal <= max
      ensures alignBits + 3 <= w && Sufficient(size, chunkSize, total) ==> Fits(size)
    {
      WordsInBound();
      hide *;
      var now := (currentTotal + size) % Pow2(w);
      if now > maxTotal {
        now := RoundedWord(w, alignBits, now);
        chunkSize := (now - currentTotal + hsiz) % Pow2(w);
        total := now;
        max := now;
      } else {
        chunkSize := (maxTotal - currentTotal + hsiz) % Pow2(w);
        total := maxTotal;
        max := maxTotal;
      }
      SizesExact(size, chunkSize, total, max);
    }

    lemma WordsInBound()
      requires Valid()
      ensures alignBits < w && currentTotal <= maxTotal < Pow2(w) && hsiz % Pow2(alignBits) == 0
    {
    }

    lemma SizesExact(size: nat, chunkSize: nat, total: nat, max: nat)
      requires alignBits < w && currentTotal <= maxTotal < Pow2(w)
      requires var now := (currentTotal + size) % Pow2(w);
               var grows := now > maxTotal;
               && total == max == (if grows then RoundedWord(w, alignBits, now) else maxTotal)
               && chunkSize == (total - currentTotal + hsiz) % Pow2(w)
      ensures Fits(size) ==> total == max == NewTotal(size) && total < Pow2(w) && chunkSize == total - currentTotal + hsiz
      ensures Fits(size) ==> Sufficient(size, chunkSize, total) && maxTotal <= max
      ensures alignBits + 3 <= w && Sufficient(size, chunkSize, total) ==> Fits(size)
    {
      hide Pow2, RoundedWord, GrownBy;
      var now := currentTotal + size;
      SmallWord(w, now);
      assert 0 <= now % Pow2(w) < Pow2(w);
      RoundedWordExact(w, alignBits, now % Pow2(w));
      if currentTotal <= total {
        WrappedSize(Pow2(w), total, currentTotal, hsiz);
      }
    }

    /** A request that does not fit: half of a 32-bit address space when nothing is allocated yet.  The total made for it is a quarter. */
    lemma HugeRequest()
      requires Valid() && w == 32 && alignBits <= 29 && currentTotal == maxTotal == 0
      ensures !Fits(0x8000_0000) && RoundedWord(w, alignBits, 0x8000_0000) == 0x4000_0000
    {
      Pow2Of32();
      hide Pow2, RoundedWord, StackValid, Capacity;
      RoundedValue(w, alignBits, 0x8000_0000);
      QuarterAligned(alignBits);
    }

    lemma SmallRequestFits()
      requires w == 32 && alignBits == 3 && hsiz == 16 && currentTotal == maxTotal == 0
      ensures Fits(16) && NewTotal(16) == 24 && Pow2(alignBits) == 8
    {
      Pow2Of32();
      assert Pow2(3) == 8;
      hide Pow2;
    }

    /** The request does not fit the current chunk: a new one that it does fit is put on top. */
    method NewChunk(size: nat)
      requires Valid() && Fits(size)
      modifies this
      ensures Valid() && blocks == old(blocks) && frames == old(frames)
      ensures fresh(current) && chunks == old(chunks) + [current] && old(maxTotal) <= maxTotal
      ensures current.allocPoint == hsiz && hsiz + size <= current.end
      ensures currentTotal == maxTotal == old(NewTotal(size)) && current.end == maxTotal - old(currentTotal) + hsiz
    {
      hide StackValid, Pow2, Capacity, Linked, PointsInside;
      ghost var align := Pow2(alignBits);
      StackFacts(hsiz, align, chunks, PointsOf(chunks), blocks, frames);
      var chunkSize, total, max := ChunkSize(size);
      var header := new Chunk(chunkSize, hsiz, current);
      ghost var before := PointsOf(chunks);
      ChunkPushed(hsiz, align, chunks, before, blocks, frames, header);
      CapacitySnoc(hsiz, chunks, header);
      currentTotal, maxTotal := total, max;
      current := header;
      chunks := chunks + [header];
      assert PointsOf(chunks) == before + [hsiz];
      ValidAgain();
    }

    /** __gmp_tmp_alloc */
    method Alloc(size: nat) returns (b: Block)
      requires Valid() && size % Pow2(alignBits) == 0
      requires size > current.end - current.allocPoint ==> Fits(size)
      modifies this, current
      ensures Valid() && blocks == old(blocks) + [b] && frames == old(frames)
      ensures b.size == size && b.chunk == current
      ensures if size <= old(current.end - current.allocPoint)
              then && chunks == old(chunks) && current == old(current) && b.start == old(current.allocPoint)
                   && currentTotal == old(currentTotal) && maxTotal == old(maxTotal)
              else && fresh(current) && chunks == old(chunks) + [current] && b.start == hsiz && old(maxTotal) <= maxTotal
                   && currentTotal == maxTotal == old(NewTotal(size)) && current.end == maxTotal - old(currentTotal) + hsiz
      ensures current.allocPoint == b.start + size <= current.end
    {
      hide StackValid, Pow2, Capacity, Linked, PointsInside;
      if size > current.end - current.allocPoint {
        NewChunk(size);
      }
      b := Block(current, current.allocPoint, size);
      Bump(size);
    }

    /** A request that fits the growth made for the one before opens no further chunk. */
    method AllocTwice(size: nat, next: nat) returns (a: Block, b: Block)
      requires Valid() && size % Pow2(alignBits) == 0 && next % Pow2(alignBits) == 0
      requires size > current.end - current.allocPoint && Fits(size) && next <= NewTotal(size) - (currentTotal + size)
      modifies this, current
      ensures Valid() && chunks == old(chunks) + [current] && blocks == old(blocks) + [a, b]
      ensures a == Block(current, hsiz, size) && b == Block(current, hsiz + size, next)
      ensures currentTotal == maxTotal == old(NewTotal(size))
    {
      a := Alloc(size);
      b := Alloc(next);
    }

    /** The top chunk's allocation point moves past the block. */
    method Bump(size: nat)
      requires Valid() && size % Pow2(alignBits) == 0 && current.allocPoint + size <= current.end
      modifies this`blocks, current
      ensures Valid() && blocks == old(blocks) + [Block(current, old(current.allocPoint), size)]
      ensures current.allocPoint == old(current.allocPoint) + size
    {
      hide StackValid, Pow2, Capacity, PointsInside;
      ghost var points := PointsOf(chunks);
      StackFacts(hsiz, Pow2(alignBits), chunks, points, blocks, frames);
      BlockTaken(hsiz, Pow2(alignBits), chunks, points, blocks, frames, size);
      blocks := blocks + [Block(current, current.allocPoint, size)];
      current.allocPoint := current.allocPoint + size;
      assert PointsOf(chunks) == points[|chunks| - 1 := points[|chunks| - 1] + size];
    }

    /** __gmp_tmp_mark */
    method TakeMark() returns (mark: Mark)
      requires Valid()
      modifies this`frames
      ensures Valid() && mark == Mark(current, current.allocPoint)
      ensures frames == old(frames) + [Frame(mark, chunks, PointsOf(chunks), blocks)]
    {
      hide StackValid, Capacity;
      ghost var points := PointsOf(chunks);
      StackFacts(hsiz, Pow2(alignBits), chunks, points, blocks, frames);
      mark := Mark(current, current.allocPoint);
      FramePushed(hsiz, Pow2(alignBits), chunks, points, blocks, frames, Frame(mark, chunks, points, blocks));
      frames := frames + [Frame(mark, chunks, points, blocks)];
    }

    /** The loop of __gmp_tmp_free: chunks above the mark's are released. */
    method Pop(mark: Mark, ghost f: Frame)
      requires Valid() && f in frames && f.mark == mark
      modifies this`current, this`currentTotal
      ensures current == mark.chunk && currentTotal == Capacity(hsiz, f.chunks) <= old(currentTotal)
    {
      hide *;
      ghost var align, points := Pow2(alignBits), PointsOf(chunks);
      ValidFacts(f);
      ghost var n: nat := |chunks| - 1;
      assert chunks[..n + 1] == chunks;
      while mark.chunk != current
        invariant |f.chunks| <= n + 1 <= |chunks| && current == chunks[n]
        invariant currentTotal == Capacity(hsiz, chunks[..n + 1]) <= old(currentTotal)
        decreases n
      {
        AboveBottom(chunks, f, n);
        DropLast(hsiz, align, chunks, points, n);
        var tmp := current;
        current := tmp.prev;
        currentTotal := currentTotal - (tmp.end - hsiz);
        n := n - 1;
      }
      SameChunk(chunks, f.chunks, n);
    }

    lemma ValidFacts(f: Frame)
      requires Valid() && f in frames
      ensures Linked(chunks) && PointsInside(hsiz, Pow2(alignBits), chunks, PointsOf(chunks))
      ensures f.chunks != [] && f.chunks <= chunks && f.mark.chunk == f.chunks[|f.chunks| - 1]
      ensures chunks != [] && current == chunks[|chunks| - 1] && currentTotal == Capacity(hsiz, chunks)
    {
      hide Linked, PointsInside;
      var k :| 0 <= k < |frames| && frames[k] == f;
      FrameFacts(hsiz, Pow2(alignBits), chunks, PointsOf(chunks), blocks, frames, k);
    }

    /** __gmp_tmp_free: back to the state in which mark number k was taken. */
    method Free(mark: Mark, ghost k: nat)
      requires Valid() && k < |frames| && frames[k].mark == mark
      modifies this, mark.chunk
      ensures Valid() && maxTotal == old(maxTotal) && frames == old(frames)[..k]
      ensures chunks == old(frames[k]).chunks && PointsOf(chunks) == old(frames[k]).points && blocks == old(frames[k]).blocks
      ensures chunks <= old(chunks) && current == mark.chunk && currentTotal <= old(currentTotal)
    {
      hide *;
      ghost var f := frames[k];
      WordsInBound();
      WayBack(k);
      Pop(mark, f);
      current.allocPoint := mark.allocPoint;
      chunks := f.chunks;
      blocks := f.blocks;
      frames := frames[..k];
      PointsAre(chunks, f.points);
      ValidAgain();
    }

    lemma ValidAgain()
      requires alignBits < w && hsiz % Pow2(alignBits) == 0 && chunks != [] && current == chunks[|chunks| - 1]
      requires StackValid(hsiz, Pow2(alignBits), chunks, PointsOf(chunks), blocks, frames)
      requires currentTotal == Capacity(hsiz, chunks) && currentTotal <= maxTotal < Pow2(w)
      ensures Valid()
    {
      hide StackValid, Capacity, Pow2;
    }

    /** What frame number k says about the stack that it restores. */
    lemma WayBack(k: nat)
      requires Valid() && k < |frames|
      ensures var f := frames[k];
              && f in frames && f.chunks != [] && f.chunks <= chunks && |f.points| == |f.chunks|
              && f.mark == Mark(f.chunks[|f.chunks| - 1], f.points[|f.chunks| - 1])
              && StackValid(hsiz, Pow2(alignBits), f.chunks, f.points, f.blocks, frames[..k])
              && forall i: nat | i + 1 < |f.chunks| :: f.chunks[i] != f.mark.chunk && f.points[i] == f.chunks[i].allocPoint
    {
      hide StackValid, Capacity, Linked, PointsInside, Pow2;
      ghost var f := frames[k];
      StackFacts(hsiz, Pow2(alignBits), chunks, PointsOf(chunks), blocks, frames);
      FrameFacts(hsiz, Pow2(alignBits), chunks, PointsOf(chunks), blocks, frames, k);
      FrameRestored(hsiz, Pow2(alignBits), chunks, PointsOf(chunks), blocks, frames, k);
      FramePoints(f, chunks, PointsOf(chunks));
    }
  }

  lemma PointsAre(chunks: seq<Chunk>, points: seq<nat>)
    requires |points| == |chunks| && forall i: nat | i < |chunks| :: points[i] == chunks[i].allocPoint
    ensures PointsOf(chunks) == points
  {
  }

  /** Except for the mark's own chunk, the chunks of a frame still have their allocation points. */
  lemma FramePoints(f: Frame, chunks: seq<Chunk>, points: seq<nat>)
    requires f.chunks != [] && f.chunks <= chunks && Grown(f.points, points) && Linked(chunks)
    requires |points| == |chunks| && |f.points| == |f.chunks|
    ensures forall i: nat | i < |f.chunks| && f.chunks[i] != f.chunks[|f.chunks| - 1] :: f.points[i] == points[i]
    ensures forall i: nat | i + 1 < |f.chunks| :: f.chunks[i] != f.chunks[|f.chunks| - 1]
  {
  }

  /** Above the chunk of the mark there is a chunk below. */
  lemma AboveBottom(chunks: seq<Chunk>, f: Frame, n: nat)
    requires f.chunks != [] && f.chunks <= chunks && |f.chunks| <= n + 1 <= |chunks|
    requires chunks[n] != f.chunks[|f.chunks| - 1]
    ensures |f.chunks| <= n && 0 < n
  {
  }

  lemma StackFacts(hsiz: nat, align: nat, chunks: seq<Chunk>, points: seq<nat>, blocks: seq<Block>, frames: seq<Frame>)
    requires StackValid(hsiz, align, chunks, points, blocks, frames)
    ensures chunks != [] && |points| == |chunks| && points[|points| - 1] <= chunks[|chunks| - 1].end
    ensures PointsInside(hsiz, align, chunks, points) && Linked(chunks)
  {
  }

  lemma FrameFacts(hsiz: nat, align: nat, chunks: seq<Chunk>, points: seq<nat>, blocks: seq<Block>, frames: seq<Frame>, k: nat)
    requires StackValid(hsiz, align, chunks, points, blocks, frames) && k < |frames|
    ensures FrameKept(hsiz, align, frames[k], chunks, points, blocks) && |frames[k].points| == |frames[k].chunks|
  {
  }

  /** Removing chunk n from the top. */
  lemma DropLast(hsiz: nat, align: nat, chunks: seq<Chunk>, points: seq<nat>, n: nat)
    requires Linked(chunks) && PointsInside(hsiz, align, chunks, points) && 0 < n < |chunks|
    ensures chunks[n].prev == chunks[n - 1] && hsiz <= chunks[n].end
    ensures Capacity(hsiz, chunks[..n + 1]) == Capacity(hsiz, chunks[..n]) + (chunks[n].end - hsiz)
    ensures 0 <= Capacity(hsiz, chunks[..n])
  {
    assert chunks[..n + 1] == chunks[..n] + [chunks[n]];
    CapacitySnoc(hsiz, chunks[..n], chunks[n]);
    forall i | 0 < i < n
      ensures hsiz <= chunks[..n][i].end
    {
      assert Base(hsiz, i) <= points[i] <= chunks[i].end;
    }
    assert Base(hsiz, n) <= points[n] <= chunks[n].end;
    CapacityNonNegative(hsiz, chunks[..n]);
  }

  /** The chunk of the mark is found exactly where the mark left it. */
  lemma SameChunk(chunks: seq<Chunk>, lower: seq<Chunk>, n: nat)
    requires Linked(chunks) && lower != [] && lower <= chunks && n < |chunks| && chunks[n] == lower[|lower| - 1]
    ensures n + 1 == |lower| && chunks[..n + 1] == lower
  {
    var m := |lower| - 1;
    assert chunks[m] == lower[m];
  }

  /** 16 bytes and then 8 of a fresh 32-bit stack: one chunk of 40 bytes, with a total of 24. */
  method SmallRequests() returns (stack: TmpStack, a: Block, b: Block)
    ensures fresh(stack) && stack.Valid() && stack.maxTotal == stack.currentTotal == 24
    ensures a == Block(stack.current, 16, 16) && b == Block(stack.current, 32, 8) && stack.current.end == 40
  {
    stack := new TmpStack(32, 3, 16);
    stack.SmallRequestFits();
    hide *;
    a, b := stack.AllocTwice(16, 8);
  }
}
