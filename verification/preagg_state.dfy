/** The host-visible state of one GPU pre-aggregation task (`kern_gpupreagg`),
    the suspend-context array packed behind its parameter buffer, and the
    tail-growing item area of the global hash slot. */
module PreAggState {
  import opened Common

  /** `kern_parambuf`: only its total length matters to the layout; the
      parameters themselves are carried as opaque bytes. */
  datatype ParamBuf = ParamBuf(length: u32, payload: seq<byte>)

  /** `kern_gpupreagg`. The error buffer is carried as its raw bytes. */
  datatype KernGpuPreAgg = KernGpuPreAgg(
    kerror: seq<byte>,
    numGroupKeys: u32,
    readSlotPos: u32,
    gridSz: u32,
    blockSz: u32,
    setupSlotDone: bool,
    finalBufferModified: bool,
    resumeContext: bool,
    suspendCount: u32,
    suspendSize: u32,
    nitemsReal: u32,
    nitemsFiltered: u32,
    numGroups: u32,
    extraUsage: u32,
    tvStatDebug: seq<u64>,
    kparams: ParamBuf)

  /** Everything a reset must leave alone: the configuration chosen by the
      planner, the output statistics and the parameter buffer. */
  predicate SameConfiguration(a: KernGpuPreAgg, b: KernGpuPreAgg)
  {
    && a.numGroupKeys == b.numGroupKeys
    && a.gridSz == b.gridSz
    && a.blockSz == b.blockSz
    && a.suspendSize == b.suspendSize
    && a.nitemsReal == b.nitemsReal
    && a.nitemsFiltered == b.nitemsFiltered
    && a.numGroups == b.numGroups
    && a.extraUsage == b.extraUsage
    && a.tvStatDebug == b.tvStatDebug
    && a.kparams == b.kparams
  }

  function Zeros(n: nat): (r: seq<byte>)
    ensures |r| == n && forall i :: 0 <= i < n ==> r[i] == 0
  {
    if n == 0 then [] else [0] + Zeros(n - 1)
  }

  /** `gpupreagg_reset_kernel_task`: clears the error buffer and the progress
      fields before a (re)launch and records whether it resumes a suspended
      run. */
  function Reset(k: KernGpuPreAgg, resumeContext: bool): (r: KernGpuPreAgg)
    ensures |r.kerror| == |k.kerror| && forall i :: 0 <= i < |r.kerror| ==> r.kerror[i] == 0
    ensures r.readSlotPos == 0 && r.suspendCount == 0
    ensures !r.setupSlotDone && !r.finalBufferModified
    ensures r.resumeContext == resumeContext
    ensures SameConfiguration(k, r)
  {
    k.(kerror := Zeros(|k.kerror|),
       readSlotPos := 0,
       setupSlotDone := false,
       finalBufferModified := false,
       resumeContext := resumeContext,
       suspendCount := 0)
  }

  /** A reset is determined by the configuration and the last flag alone:
      resetting twice is resetting once with the second flag. */
  lemma ResetLastWins(k: KernGpuPreAgg, a: bool, b: bool)
    ensures Reset(Reset(k, a), b) == Reset(k, b)
  {
  }

  /** Two tasks with the same configuration and error-buffer size reset to the
      same state: nothing of a previous run survives a reset. */
  lemma ResetForgetsProgress(k1: KernGpuPreAgg, k2: KernGpuPreAgg, flag: bool)
    requires SameConfiguration(k1, k2) && |k1.kerror| == |k2.kerror|
    ensures Reset(k1, flag) == Reset(k2, flag)
  {
  }

  // ------------------------------------------------------------------
  // KERN_GPUPREAGG_LENGTH / KERN_GPUPREAGG_SUSPEND_CONTEXT
  // ------------------------------------------------------------------

  /** `sizeof(gpupreaggSuspendContext)`: a union of one `size_t` and two
      `cl_uint`. */
  const SUSPEND_CONTEXT_SIZE: nat := 8

  /** `KERN_GPUPREAGG_LENGTH`: the offset of `kparams` in the struct (which
      depends on `kern_errorbuf`, declared elsewhere, so it is a parameter)
      plus the parameter buffer's length. */
  function KernLength(paramsOffset: nat, k: KernGpuPreAgg): (r: nat)
    ensures r >= paramsOffset
  {
    paramsOffset + k.kparams.length
  }

  /** `KERN_GPUPREAGG_SUSPEND_CONTEXT(k, g)` as a byte offset from the start of
      the struct, or `None` for the NULL pointer when no suspend buffer was
      reserved. */
  function SuspendContextAt(paramsOffset: nat, k: KernGpuPreAgg, groupId: nat): (r: Option<nat>)
    ensures r.None? <==> k.suspendSize == 0
    ensures r.Some? ==> r.value >= KernLength(paramsOffset, k)
    ensures r.Some? ==> (r.value - KernLength(paramsOffset, k)) % SUSPEND_CONTEXT_SIZE == 0
    ensures r.Some? ==> (r.value - KernLength(paramsOffset, k)) / SUSPEND_CONTEXT_SIZE == groupId
  {
    if k.suspendSize > 0 then Some(KernLength(paramsOffset, k) + SUSPEND_CONTEXT_SIZE * groupId)
    else None
  }

  /** Distinct groups get disjoint suspend records, all beyond the header and
      parameter buffer. */
  lemma SuspendContextsDisjoint(paramsOffset: nat, k: KernGpuPreAgg, g1: nat, g2: nat)
    requires k.suspendSize > 0 && g1 != g2
    ensures var a := SuspendContextAt(paramsOffset, k, g1).value;
      var b := SuspendContextAt(paramsOffset, k, g2).value;
      a + SUSPEND_CONTEXT_SIZE <= b || b + SUSPEND_CONTEXT_SIZE <= a
  {
  }

  /** A reset never moves the suspend records. */
  lemma ResetKeepsLayout(paramsOffset: nat, k: KernGpuPreAgg, flag: bool, g: nat)
    ensures KernLength(paramsOffset, Reset(k, flag)) == KernLength(paramsOffset, k)
    ensures SuspendContextAt(paramsOffset, Reset(k, flag), g) == SuspendContextAt(paramsOffset, k, g)
  {
  }

  /** `gpupreaggSuspendContext`, read through the member that matches the
      data-store format: the row and column formats save a byte position, the
      block format a (block, line-pointer) cursor. */
  datatype SuspendContext =
    | RowContext(srcBase: u64)
    | BlockContext(partIndex: u32, lineIndex: u32)
    | ColumnContext(srcBase: u64)

  datatype StoreFormat = RowFormat | BlockFormat | ColumnFormat

  function FormatOf(c: SuspendContext): StoreFormat
  {
    match c
    case RowContext(_) => RowFormat
    case BlockContext(_, _) => BlockFormat
    case ColumnContext(_) => ColumnFormat
  }

  /** The eight bytes of the union after writing one member. */
  function EncodeSuspendContext(c: SuspendContext): (r: seq<byte>)
    ensures |r| == SUSPEND_CONTEXT_SIZE
  {
    match c
    case RowContext(b) => EncodeLE(b, 8)
    case BlockContext(p, l) => EncodeLE(p, 4) + EncodeLE(l, 4)
    case ColumnContext(b) => EncodeLE(b, 8)
  }

  /** Reading the union back through the member for the given format. */
  function DecodeSuspendContext(f: StoreFormat, bs: seq<byte>): (r: SuspendContext)
    requires |bs| == SUSPEND_CONTEXT_SIZE
    ensures FormatOf(r) == f
  {
    match f
    case RowFormat => RowContext(DecodeLE(bs))
    case BlockFormat => BlockContext(DecodeLE(bs[..4]), DecodeLE(bs[4..]))
    case ColumnFormat => ColumnContext(DecodeLE(bs))
  }

  /** Saving a context and resuming it under the same format restores it. */
  lemma SuspendContextRoundTrip(c: SuspendContext)
    ensures DecodeSuspendContext(FormatOf(c), EncodeSuspendContext(c)) == c
  {
    match c
    case RowContext(b) =>
      DecodeEncodeLE(b, 8);
    case BlockContext(p, l) =>
      var bs := EncodeLE(p, 4) + EncodeLE(l, 4);
      assert bs[..4] == EncodeLE(p, 4);
      assert bs[4..] == EncodeLE(l, 4);
      DecodeEncodeLE(p, 4);
      DecodeEncodeLE(l, 4);
    case ColumnContext(b) =>
      DecodeEncodeLE(b, 8);
  }

  // ------------------------------------------------------------------
  // preagg_hash_item and GLOBAL_HASHSLOT_GETITEM
  // ------------------------------------------------------------------

  /** `preagg_hash_item`: three `cl_uint`, twelve bytes. */
  datatype HashItem = HashItem(index: u32, hash: u32, next: u32)

  const HASH_ITEM_SIZE: nat := 12

  /** `offsetof(kern_global_hashslot, slots)`: `size_t length` then three
      `cl_uint`. */
  const HASHSLOT_HEADER_SIZE: nat := 20

  function EncodeHashItem(h: HashItem): (r: seq<byte>)
    ensures |r| == HASH_ITEM_SIZE
  {
    EncodeLE(h.index, 4) + EncodeLE(h.hash, 4) + EncodeLE(h.next, 4)
  }

  function DecodeHashItem(bs: seq<byte>): HashItem
    requires |bs| == HASH_ITEM_SIZE
  {
    HashItem(DecodeLE(bs[..4]), DecodeLE(bs[4..8]), DecodeLE(bs[8..]))
  }

  lemma HashItemRoundTrip(h: HashItem)
    ensures DecodeHashItem(EncodeHashItem(h)) == h
  {
    var bs := EncodeHashItem(h);
    assert bs[..4] == EncodeLE(h.index, 4);
    assert bs[4..8] == EncodeLE(h.hash, 4);
    assert bs[8..] == EncodeLE(h.next, 4);
    DecodeEncodeLE(h.index, 4);
    DecodeEncodeLE(h.hash, 4);
    DecodeEncodeLE(h.next, 4);
  }

  /** `GLOBAL_HASHSLOT_GETITEM(f_hash, i)` as a byte offset from the start of
      the hash slot: items are laid out backwards from the end of the buffer. */
  function HashItemOffset(length: nat, index: nat): (r: int)
    ensures r + HASH_ITEM_SIZE * (index + 1) == length
    ensures HASH_ITEM_SIZE * (index + 1) <= length ==> 0 <= r
  {
    length - HASH_ITEM_SIZE * (index + 1)
  }

  /** Item 0 ends at the buffer's end and every further item sits directly
      below its predecessor, so distinct items never overlap. */
  lemma HashItemsTile(length: nat, i: nat, j: nat)
    ensures HashItemOffset(length, 0) + HASH_ITEM_SIZE == length
    ensures HashItemOffset(length, i + 1) + HASH_ITEM_SIZE == HashItemOffset(length, i)
    ensures i != j ==>
      (HashItemOffset(length, i) + HASH_ITEM_SIZE <= HashItemOffset(length, j)
       || HashItemOffset(length, j) + HASH_ITEM_SIZE <= HashItemOffset(length, i))
  {
  }

  /** While the header, the `nslots` slot words and the `usage` items fit in
      `length` bytes, every item in use lies above the slot array and inside
      the buffer. */
  lemma HashItemsAboveSlots(length: nat, nslots: nat, usage: nat, i: nat)
    requires HASHSLOT_HEADER_SIZE + 4 * nslots + HASH_ITEM_SIZE * usage <= length
    requires i < usage
    ensures HASHSLOT_HEADER_SIZE + 4 * nslots <= HashItemOffset(length, i)
    ensures HashItemOffset(length, i) + HASH_ITEM_SIZE <= length
  {
  }
}
