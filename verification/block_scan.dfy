/** The block-format data store on the host: filling the blocks that are not
    yet cached with coalesced file reads, sizing the chunks of a direct scan,
    and the (block, line pointer) cursor that hands out the tuples. */
module BlockScan {
  import opened Common
  import KdsInsert

  /** PostgreSQL's page size and the number of blocks in one segment file. */
  const BLCKSZ: nat := 8192
  const RELSEG_SIZE: nat := 131072

  // ------------------------------------------------------------------
  // PDS_fillup_blocks
  // ------------------------------------------------------------------

  /** Byte offset of a block inside its segment file. `RELSEG_SIZE` is a
      power of two, so masking with `RELSEG_SIZE - 1` is the remainder. */
  function FilePos(blockNr: u32): nat
  {
    (blockNr % RELSEG_SIZE) * BLCKSZ
  }

  /** One `pread` of `size` bytes at file offset `fpos`. */
  datatype Run = Run(fpos: nat, size: nat)

  /** The file offsets of the pages a run covers, in order. */
  function RunPages(r: Run): (p: seq<nat>)
    ensures |p| == r.size / BLCKSZ
    ensures forall k :: 0 <= k < |p| ==> p[k] == r.fpos + k * BLCKSZ
  {
    seq(r.size / BLCKSZ, k => r.fpos + k * BLCKSZ)
  }

  /** The file offsets of the pages a sequence of runs reads, in order; this is
      also the order in which they land in the destination buffer. */
  function Pages(runs: seq<Run>): seq<nat>
  {
    if runs == [] then [] else Pages(runs[..|runs| - 1]) + RunPages(runs[|runs| - 1])
  }

  function TotalSize(runs: seq<Run>): nat
  {
    if runs == [] then 0 else TotalSize(runs[..|runs| - 1]) + runs[|runs| - 1].size
  }

  /** The pages that must be read: the first `m` of the uncached blocks
      `n - 1, n - 2, ..., 0`, taken from the highest index down. */
  function Wanted(blockNums: seq<u32>, n: nat, m: nat): (w: seq<nat>)
    requires m <= n <= |blockNums|
    ensures |w| == m
    ensures forall k :: 0 <= k < m ==> w[k] == FilePos(blockNums[n - 1 - k])
  {
    seq(m, k requires 0 <= k < m => FilePos(blockNums[n - 1 - k]))
  }

  /** No two consecutive runs could have been one read. */
  predicate Maximal(runs: seq<Run>)
  {
    forall k :: 0 <= k < |runs| - 1 ==> runs[k].fpos + runs[k].size != runs[k + 1].fpos
  }

  /** Every run reads whole pages, at least one. */
  predicate WholePages(runs: seq<Run>)
  {
    forall k :: 0 <= k < |runs| ==> runs[k].size > 0 && runs[k].size % BLCKSZ == 0
  }

  function Pending(fpos: nat, size: nat): seq<Run>
  {
    if size > 0 then [Run(fpos, size)] else []
  }

  /** The loop state: the runs already read, and the pending run
      (`curr_fpos`, `curr_size`), empty while `curr_size` is 0. */
  datatype Acc = Acc(runs: seq<Run>, fpos: nat, size: nat)

  /** All runs, the pending one included. */
  function Flushed(a: Acc): seq<Run>
  {
    a.runs + Pending(a.fpos, a.size)
  }

  /** One iteration of the loop over the uncached blocks: extend the pending
      run when the block continues it, otherwise issue it and start anew. */
  function Feed(a: Acc, filePos: nat): Acc
  {
    if a.size > 0 && a.fpos + a.size == filePos then a.(size := a.size + BLCKSZ)
    else Acc(Flushed(a), filePos, BLCKSZ)
  }

  /** After `m` iterations the runs read the first `m` wanted pages, in order,
      in whole pages, and no two neighbours could be one read. */
  predicate AccInv(a: Acc, blockNums: seq<u32>, n: nat, m: nat)
    requires m <= n <= |blockNums|
  {
    && a.size % BLCKSZ == 0
    && (a.size > 0 <==> m > 0)
    && (a.size == 0 ==> a.runs == [])
    && WholePages(Flushed(a))
    && Maximal(Flushed(a))
    && Pages(Flushed(a)) == Wanted(blockNums, n, m)
  }

  lemma FeedPreserves(a: Acc, blockNums: seq<u32>, n: nat, m: nat)
    requires m < n <= |blockNums|
    requires AccInv(a, blockNums, n, m)
    ensures AccInv(Feed(a, FilePos(blockNums[n - 1 - m])), blockNums, n, m + 1)
  {
    var filePos := FilePos(blockNums[n - 1 - m]);
    WantedStep(blockNums, n, m);
    if a.size > 0 && a.fpos + a.size == filePos {
      FeedExtends(a, filePos);
    } else {
      FeedStarts(a, filePos);
    }
  }

  lemma FeedExtends(a: Acc, filePos: nat)
    requires a.size > 0 && a.size % BLCKSZ == 0 && a.fpos + a.size == filePos
    requires WholePages(Flushed(a)) && Maximal(Flushed(a))
    ensures Pages(Flushed(Feed(a, filePos))) == Pages(Flushed(a)) + [filePos]
    ensures WholePages(Flushed(Feed(a, filePos))) && Maximal(Flushed(Feed(a, filePos)))
  {
    assert Flushed(a) == a.runs + [Run(a.fpos, a.size)];
    assert Flushed(Feed(a, filePos)) == a.runs + [Run(a.fpos, a.size + BLCKSZ)];
    ExtendLast(a.runs, a.fpos, a.size);
  }

  lemma ExtendLast(runs: seq<Run>, fpos: nat, size: nat)
    requires size > 0 && size % BLCKSZ == 0
    requires WholePages(runs + [Run(fpos, size)]) && Maximal(runs + [Run(fpos, size)])
    ensures Pages(runs + [Run(fpos, size + BLCKSZ)]) == Pages(runs + [Run(fpos, size)]) + [fpos + size]
    ensures WholePages(runs + [Run(fpos, size + BLCKSZ)]) && Maximal(runs + [Run(fpos, size + BLCKSZ)])
  {
    var cur := Run(fpos, size);
    var last := Run(fpos, size + BLCKSZ);
    RunPagesGrow(fpos, size);
    PagesLast(runs, cur);
    PagesLast(runs, last);
    MaximalReplaceLast(runs, cur, last);
    WholePagesReplaceLast(runs, cur, last);
  }

  lemma WholePagesReplaceLast(runs: seq<Run>, a: Run, b: Run)
    requires WholePages(runs + [a]) && b.size > 0 && b.size % BLCKSZ == 0
    ensures WholePages(runs + [b])
  {
    forall k | 0 <= k < |runs + [b]|
      ensures (runs + [b])[k].size > 0 && (runs + [b])[k].size % BLCKSZ == 0
    {
      if k < |runs| {
        assert (runs + [b])[k] == (runs + [a])[k];
      }
    }
  }

  lemma FeedStarts(a: Acc, filePos: nat)
    requires !(a.size > 0 && a.fpos + a.size == filePos)
    requires a.size == 0 ==> a.runs == []
    requires WholePages(Flushed(a)) && Maximal(Flushed(a))
    ensures Pages(Flushed(Feed(a, filePos))) == Pages(Flushed(a)) + [filePos]
    ensures WholePages(Flushed(Feed(a, filePos))) && Maximal(Flushed(Feed(a, filePos)))
  {
    var started := Run(filePos, BLCKSZ);
    var fs := Flushed(Feed(a, filePos));
    assert fs == Flushed(a) + [started];
    RunPagesOne(filePos);
    PagesLast(Flushed(a), started);
    if a.size > 0 {
      assert Flushed(a)[|Flushed(a)| - 1] == Run(a.fpos, a.size);
    }
    MaximalAppend(Flushed(a), started);
    forall k | 0 <= k < |fs|
      ensures fs[k].size > 0 && fs[k].size % BLCKSZ == 0
    {
      if k < |Flushed(a)| {
        assert fs[k] == Flushed(a)[k];
      }
    }
  }

  datatype Filled = Filled(runs: seq<Run>, nblocksUncached: nat)

  /** `PDS_fillup_blocks`: reads the `nblocksUncached` uncached blocks, whose
      numbers are the first entries of `blockNums`, as few contiguous runs as
      the block order allows. A run is issued as one read here; the retry loop
      around a short `pread` only splits it. */
  method FillupBlocks(format: KdsInsert.KdsFormat, nblocksUncached: nat, blockNums: seq<u32>)
    returns (r: Result<Filled>)
    requires format == KdsInsert.BlockFormat ==> nblocksUncached <= |blockNums|
    ensures r.Err? <==> format != KdsInsert.BlockFormat
    ensures r.Ok? ==> r.value.nblocksUncached == 0
    ensures r.Ok? && nblocksUncached == 0 ==> r.value.runs == []
    ensures r.Ok? ==> Pages(r.value.runs) == Wanted(blockNums, nblocksUncached, nblocksUncached)
    ensures r.Ok? ==> Maximal(r.value.runs) && WholePages(r.value.runs)
    ensures r.Ok? ==> TotalSize(r.value.runs) == nblocksUncached * BLCKSZ
  {
    if format != KdsInsert.BlockFormat {
      return Err("only KDS_FORMAT_BLOCK can be filled up");
    }
    if nblocksUncached == 0 {
      return Ok(Filled([], 0));
    }
    var n := nblocksUncached;
    var acc := Acc([], 0, 0);
    var i: int := n - 1;
    while i >= 0
      invariant -1 <= i < n
      invariant AccInv(acc, blockNums, n, n - 1 - i)
      decreases i
    {
      FeedPreserves(acc, blockNums, n, n - 1 - i);
      acc := Feed(acc, FilePos(blockNums[i]));
      i := i - 1;
    }
    FlushedReadsWanted(acc, blockNums, n);
    return Ok(Filled(Flushed(acc), 0));
  }

  /** Once every wanted block has been fed, issuing the pending run reads
      exactly the wanted pages, in whole pages and maximal runs. */
  lemma FlushedReadsWanted(acc: Acc, blockNums: seq<u32>, n: nat)
    requires n <= |blockNums|
    requires AccInv(acc, blockNums, n, n)
    ensures Pages(Flushed(acc)) == Wanted(blockNums, n, n)
    ensures Maximal(Flushed(acc)) && WholePages(Flushed(acc))
    ensures TotalSize(Flushed(acc)) == n * BLCKSZ
  {
    TotalSizePages(Flushed(acc));
  }

  lemma PagesLast(runs: seq<Run>, r: Run)
    ensures Pages(runs + [r]) == Pages(runs) + RunPages(r)
  {
    assert (runs + [r])[..|runs|] == runs;
  }

  lemma RunPagesGrow(fpos: nat, size: nat)
    requires size % BLCKSZ == 0
    ensures RunPages(Run(fpos, size + BLCKSZ)) == RunPages(Run(fpos, size)) + [fpos + size]
  {
    assert (size + BLCKSZ) / BLCKSZ == size / BLCKSZ + 1;
    assert (size / BLCKSZ) * BLCKSZ == size;
  }

  lemma RunPagesOne(fpos: nat)
    ensures RunPages(Run(fpos, BLCKSZ)) == [fpos]
  {
  }

  lemma WantedStep(blockNums: seq<u32>, n: nat, m: nat)
    requires m < n <= |blockNums|
    ensures Wanted(blockNums, n, m + 1) == Wanted(blockNums, n, m) + [FilePos(blockNums[n - 1 - m])]
  {
  }

  lemma MaximalReplaceLast(runs: seq<Run>, a: Run, b: Run)
    requires Maximal(runs + [a]) && a.fpos == b.fpos
    ensures Maximal(runs + [b])
  {
    forall k | 0 <= k < |runs + [b]| - 1
      ensures (runs + [b])[k].fpos + (runs + [b])[k].size != (runs + [b])[k + 1].fpos
    {
      assert (runs + [a])[k] == (runs + [b])[k];
      assert (runs + [a])[k + 1].fpos == (runs + [b])[k + 1].fpos;
    }
  }

  lemma MaximalAppend(runs: seq<Run>, r: Run)
    requires Maximal(runs)
    requires runs != [] ==> runs[|runs| - 1].fpos + runs[|runs| - 1].size != r.fpos
    ensures Maximal(runs + [r])
  {
    forall k | 0 <= k < |runs + [r]| - 1
      ensures (runs + [r])[k].fpos + (runs + [r])[k].size != (runs + [r])[k + 1].fpos
    {
      if k < |runs| - 1 {
        assert (runs + [r])[k] == runs[k] && (runs + [r])[k + 1] == runs[k + 1];
      }
    }
  }

  /** Whole-page runs read exactly one page per `BLCKSZ` bytes. */
  lemma {:induction false} TotalSizePages(runs: seq<Run>)
    requires WholePages(runs)
    ensures TotalSize(runs) == |Pages(runs)| * BLCKSZ
    decreases |runs|
  {
    if runs != [] {
      var init := runs[..|runs| - 1];
      var last := runs[|runs| - 1];
      assert WholePages(init) by {
        forall k | 0 <= k < |init| ensures init[k].size > 0 && init[k].size % BLCKSZ == 0 {
          assert init[k] == runs[k];
        }
      }
      TotalSizePages(init);
      assert (last.size / BLCKSZ) * BLCKSZ == last.size;
    }
  }

  // ------------------------------------------------------------------
  // PDS_init_heapscan_state: chunk balancing
  // ------------------------------------------------------------------

  datatype ChunkPlan = ChunkPlan(nchunks: nat, nblocksPerChunk: nat, nrSegs: nat)

  /** Ceiling division as the source writes it, `(a + b - 1) / b`. */
  function CeilDiv(a: nat, b: nat): (q: nat)
    requires b > 0
    ensures (q - 1) * b < a <= q * b
  {
    CeilDivBounds(a, b);
    (a + b - 1) / b
  }

  lemma CeilDivBounds(a: nat, b: nat)
    requires b > 0
    ensures ((a + b - 1) / b - 1) * b < a <= ((a + b - 1) / b) * b
  {
    var q := (a + b - 1) / b;
    var rem := (a + b - 1) % b;
    assert a + b - 1 == q * b + rem;
    assert (q - 1) * b == q * b - b;
  }

  /** `nr_segs` as written: the sum is taken in 32-bit `BlockNumber`
      arithmetic, which wraps before the division. */
  function SegmentCountAsWritten(nrBlocks: u32): nat
  {
    WrapU(nrBlocks + RELSEG_SIZE - 1, 32) / RELSEG_SIZE
  }

  /** The number of segment files a relation of `nrBlocks` blocks spans:
      the fewest `RELSEG_SIZE` segments that hold every block. */
  function SegmentCount(nrBlocks: u32): (r: nat)
    ensures (r - 1) * RELSEG_SIZE < nrBlocks <= r * RELSEG_SIZE
  {
    CeilDiv(nrBlocks, RELSEG_SIZE)
  }

  /** The direct-scan sizing of `PDS_init_heapscan_state`, from the number of
      blocks one chunk can hold (`nroomsMax`, computed from struct sizes not
      modelled here). `None` is the early return that leaves the scan without
      direct reads. The segment count is taken without the 32-bit wrap
      (see `SegmentCountWraps`). */
  function PlanChunks(nrowsPerBlock: nat, canUseNvme: bool, nrBlocks: u32, nroomsMax: u32): (r: Option<ChunkPlan>)
    ensures r.None? <==> nrowsPerBlock == 0 || !canUseNvme || nrBlocks <= RELSEG_SIZE || nroomsMax < 1
    ensures r.Some? ==> r.value.nrSegs == SegmentCount(nrBlocks)
  {
    if nrowsPerBlock == 0 || !canUseNvme || nrBlocks <= RELSEG_SIZE then None
    else if nroomsMax < 1 then None
    else
      var nchunks := CeilDiv(RELSEG_SIZE, nroomsMax);
      var nblocksPerChunk := CeilDiv(RELSEG_SIZE, nchunks);
      Some(ChunkPlan(nchunks, nblocksPerChunk, SegmentCount(nrBlocks)))
  }

  /** The balancing promise: the fewest chunks of at most `nroomsMax` blocks
      that cover a segment, each as small as that many chunks allow, so no
      chunk exceeds the room a data store has; and, while the 32-bit sum does
      the segment count is the number of segment files. */
  lemma {:induction false} PlanChunksBalanced(nrowsPerBlock: nat, canUseNvme: bool, nrBlocks: u32, nroomsMax: u32)
    requires PlanChunks(nrowsPerBlock, canUseNvme, nrBlocks, nroomsMax).Some?
    ensures var p := PlanChunks(nrowsPerBlock, canUseNvme, nrBlocks, nroomsMax).value;
      && (p.nchunks - 1) * nroomsMax < RELSEG_SIZE <= p.nchunks * nroomsMax
      && (p.nblocksPerChunk - 1) * p.nchunks < RELSEG_SIZE <= p.nblocksPerChunk * p.nchunks
      && 1 <= p.nblocksPerChunk <= nroomsMax
      && (p.nrSegs - 1) * RELSEG_SIZE < nrBlocks <= p.nrSegs * RELSEG_SIZE
  {
    var p := PlanChunks(nrowsPerBlock, canUseNvme, nrBlocks, nroomsMax).value;
    var m: nat := nroomsMax;
    var c := p.nchunks;
    var b := p.nblocksPerChunk;
    assert c == CeilDiv(RELSEG_SIZE, m);
    assert c > 0;
    assert b == CeilDiv(RELSEG_SIZE, c);
    // (b - 1) * c < RELSEG_SIZE <= m * c, so b - 1 < m.
    if b > m {
      assert (b - 1) * c >= m * c by {
        assert b - 1 >= m;
        MulMonotone(m, b - 1, c);
      }
    }
  }

  lemma MulMonotone(x: int, y: int, c: nat)
    requires x <= y
    ensures x * c <= y * c
  {
  }

  /** As written, the count is right while the 32-bit sum does not wrap; a
      relation of `2^32 - RELSEG_SIZE + 1` blocks or more wraps it and gets
      too few segments. */
  lemma SegmentCountWraps(nrBlocks: u32)
    ensures nrBlocks + RELSEG_SIZE - 1 < TWO32 ==> SegmentCountAsWritten(nrBlocks) == SegmentCount(nrBlocks)
    ensures SegmentCountAsWritten(TWO32 - 2) * RELSEG_SIZE < TWO32 - 2
  {
    if nrBlocks + RELSEG_SIZE - 1 < TWO32 {
      assert WrapU(nrBlocks + RELSEG_SIZE - 1, 32) == nrBlocks + RELSEG_SIZE - 1;
    }
  }

  // ------------------------------------------------------------------
  // KDS_fetch_tuple_block: the (block, line pointer) cursor
  // ------------------------------------------------------------------

  /** An `ItemIdData`: whether it is LP_NORMAL, the tuple length, and the
      tuple's offset inside the page. */
  datatype LinePointer = LinePointer(normal: bool, len: nat, off: nat)

  /** A cached page: its block number and line-pointer array (whose length is
      `PageGetMaxOffsetNumber`). */
  datatype Page = Page(blockNr: u32, linp: seq<LinePointer>)

  /** `gts->curr_index` and `gts->curr_lp_index`. */
  datatype Cursor = Cursor(index: nat, lp: nat)

  /** A line-pointer position: block slot `index`, array index `lp`. */
  datatype Pos = Pos(index: nat, lp: nat)

  predicate Before(c: Cursor, p: Pos)
  {
    c.index < p.index || (c.index == p.index && c.lp <= p.lp)
  }

  predicate NormalAt(pages: seq<Page>, i: nat, j: nat)
  {
    i < |pages| && j < |pages[i].linp| && pages[i].linp[j].normal
  }

  /** The cursor scan: the first normal line pointer at or after the cursor,
      and the cursor that the next call starts from; `None` at the end of the
      store, with the cursor moved past the last block. */
  function NextNormal(pages: seq<Page>, c: Cursor): (r: (Option<Pos>, Cursor))
    ensures r.0.Some? ==>
      && NormalAt(pages, r.0.value.index, r.0.value.lp)
      && Before(c, r.0.value)
      && r.1 == Cursor(r.0.value.index, r.0.value.lp + 1)
    ensures r.0.Some? ==> forall i, j :: NormalAt(pages, i, j) && Before(c, Pos(i, j)) ==>
      Before(Cursor(r.0.value.index, r.0.value.lp), Pos(i, j))
    ensures r.0.None? ==> r.1.index >= |pages| && r.1.index >= c.index
    ensures r.0.None? ==> forall i, j :: NormalAt(pages, i, j) ==> !Before(c, Pos(i, j))
    decreases |pages| - c.index,
      if c.index < |pages| && c.lp < |pages[c.index].linp| then |pages[c.index].linp| - c.lp else 0
  {
    if c.index >= |pages| then (None, c)
    else if c.lp < |pages[c.index].linp| then
      if pages[c.index].linp[c.lp].normal then (Some(Pos(c.index, c.lp)), Cursor(c.index, c.lp + 1))
      else NextNormal(pages, Cursor(c.index, c.lp + 1))
    else NextNormal(pages, Cursor(c.index + 1, 0))
  }

  /** `ItemPointerData` as stored in `t_self`. */
  datatype Tid = Tid(block: u32, posid: nat)

  /** The heap tuple header fields the fetch fills in. */
  datatype Fetched = Fetched(tLen: nat, tSelf: Tid, dataOff: nat)

  /** `FirstOffsetNumber`: line-pointer numbers in PostgreSQL start at 1, and 0
      is `InvalidOffsetNumber`. */
  const FIRST_OFFSET_NUMBER: nat := 1

  /** `PageGetItemId(page, offnum)`. */
  function ItemId(p: Page, offnum: nat): Option<LinePointer>
  {
    if FIRST_OFFSET_NUMBER <= offnum <= |p.linp| then Some(p.linp[offnum - 1]) else None
  }

  /** `KDS_fetch_tuple_block` as written: `ip_posid` is set to the 0-based
      array index of the line pointer. */
  function FetchTupleBlockAsWritten(pages: seq<Page>, c: Cursor): (r: (Option<Fetched>, Cursor))
    ensures r.0.None? <==> NextNormal(pages, c).0.None?
    ensures r.0.None? ==> r.1.index >= |pages|
    ensures r.1 == NextNormal(pages, c).1
    ensures r.0.Some? ==>
      var p := NextNormal(pages, c).0.value;
      && r.0.value.tSelf == Tid(pages[p.index].blockNr, p.lp)
      && r.0.value.tLen == pages[p.index].linp[p.lp].len
  {
    var (pos, c2) := NextNormal(pages, c);
    match pos
    case None => (None, c2)
    case Some(p) =>
      var lp := pages[p.index].linp[p.lp];
      (Some(Fetched(lp.len, Tid(pages[p.index].blockNr, p.lp), lp.off)), c2)
  }

  /** On the first line pointer of a page the tuple gets the invalid offset
      number 0, and `PageGetItemId` of its `t_self` does not find it. */
  lemma FetchAsWrittenInvalidTid()
    ensures var pages := [Page(7, [LinePointer(true, 40, 8000)])];
      var r := FetchTupleBlockAsWritten(pages, Cursor(0, 0)).0;
      r.Some? && r.value.tSelf.posid == 0 && ItemId(pages[0], r.value.tSelf.posid).None?
  {
  }

  /** `KDS_fetch_tuple_block` with the offset number PostgreSQL uses for the
      line pointer: its array index plus one. */
  function FetchTupleBlock(pages: seq<Page>, c: Cursor): (r: (Option<Fetched>, Cursor))
    ensures r.0.None? <==> NextNormal(pages, c).0.None?
    ensures r.0.None? ==> r.1.index >= |pages|
    ensures r.1 == NextNormal(pages, c).1
  {
    var (pos, c2) := NextNormal(pages, c);
    match pos
    case None => (None, c2)
    case Some(p) =>
      var lp := pages[p.index].linp[p.lp];
      (Some(Fetched(lp.len, Tid(pages[p.index].blockNr, p.lp + FIRST_OFFSET_NUMBER), lp.off)), c2)
  }

  /** The fetched tuple's `t_self` names a valid offset in its page whose line
      pointer is the normal one the tuple was read through. */
  lemma FetchTupleBlockTid(pages: seq<Page>, c: Cursor)
    requires FetchTupleBlock(pages, c).0.Some?
    ensures var f := FetchTupleBlock(pages, c).0.value;
      var p := NextNormal(pages, c).0.value;
      && f.tSelf.posid >= FIRST_OFFSET_NUMBER
      && f.tSelf.block == pages[p.index].blockNr
      && ItemId(pages[p.index], f.tSelf.posid) == Some(pages[p.index].linp[p.lp])
      && pages[p.index].linp[p.lp].normal
      && f.tLen == pages[p.index].linp[p.lp].len
  {
  }

  /** The fetch as written and the corrected fetch agree on everything but
      the offset number, which as written is one less. */
  lemma FetchAsWrittenOffByOne(pages: seq<Page>, c: Cursor)
    ensures FetchTupleBlockAsWritten(pages, c).1 == FetchTupleBlock(pages, c).1
    ensures FetchTupleBlockAsWritten(pages, c).0.Some? <==> FetchTupleBlock(pages, c).0.Some?
    ensures FetchTupleBlock(pages, c).0.Some? ==>
      var w := FetchTupleBlockAsWritten(pages, c).0.value;
      var f := FetchTupleBlock(pages, c).0.value;
      && w.tSelf.posid + 1 == f.tSelf.posid
      && w.tSelf.block == f.tSelf.block && w.tLen == f.tLen && w.dataOff == f.dataOff
  {
  }

  /** Each successful fetch moves the cursor strictly forward. */
  lemma FetchAdvances(pages: seq<Page>, c: Cursor)
    requires FetchTupleBlock(pages, c).0.Some?
    ensures var c2 := FetchTupleBlock(pages, c).1;
      c.index < c2.index || (c.index == c2.index && c.lp < c2.lp)
  {
  }
}
