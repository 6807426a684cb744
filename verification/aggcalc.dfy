/** The GPU pre-aggregation accumulator calculus for the integer kinds.

    An accumulator is a (datum class, 64-bit register) pair. The `int` kinds keep
    their value in the low 32-bit lane of the register and never touch the high
    half; the `long` kinds use the whole register. Every operation is modelled by
    its single-threaded effect: the atomic and warp-shuffle variants differ from
    the serial one only in how concurrent callers are serialised. */
module AggCalc {
  import opened Common

  /** `DATUM_CLASS__NORMAL`, `DATUM_CLASS__NULL`, or any other class code. */
  datatype DatumClass = Normal | Null | Other(code: int)

  datatype Kind = IntKind | LongKind
  datatype Op = Min | Max | Add

  datatype Accum = Accum(dclass: DatumClass, datum: u64)

  /** Outcome of one merge: the new accumulator, or the device `assert` failing
      because the source's class was neither NORMAL nor NULL. */
  datatype Step = Merged(acc: Accum) | AssertFailed

  const INT_MAX: int := 0x7fff_ffff
  const INT_MIN: int := -0x8000_0000
  const LONG_MAX: int := 0x7fff_ffff_ffff_ffff
  const LONG_MIN: int := -0x8000_0000_0000_0000

  /** Width in bits of the lane a kind operates on. */
  function Bits(kind: Kind): nat { if kind == IntKind then 32 else 64 }

  function LaneMod(kind: Kind): int { if kind == IntKind then TWO32 else TWO64 }

  /** The lane of a register a kind reads: `datum & 0xffffffff` for int. */
  function Lane(kind: Kind, d: u64): (r: int)
    ensures 0 <= r < LaneMod(kind)
  {
    if kind == IntKind then d % TWO32 else d
  }

  /** The part of the register a kind never writes. */
  function HighPart(kind: Kind, d: u64): int
  {
    if kind == IntKind then d / TWO32 else 0
  }

  /** Stores a lane back, leaving the high half of an int register unchanged. */
  function WithLane(kind: Kind, d: u64, lane: int): (r: u64)
    requires 0 <= lane < LaneMod(kind)
    ensures Lane(kind, r) == lane
    ensures HighPart(kind, r) == HighPart(kind, d)
  {
    if kind == IntKind then (d / TWO32) * TWO32 + lane else lane
  }

  /** Signed value to its unsigned lane pattern (the C cast to the unsigned type). */
  function Unsigned(kind: Kind, v: int): (r: int)
    ensures 0 <= r < LaneMod(kind)
  {
    WrapU(v, Bits(kind))
  }

  /** A lane pattern read as the kind's signed C type (`cl_int` / `cl_long`). */
  function Signed(kind: Kind, w: int): (r: int)
    requires 0 <= w < LaneMod(kind)
    ensures IsValueOf(kind, r)
  {
    if kind == IntKind then Signed32(w) else Signed64(w)
  }

  /** The register's lane read as the kind's signed C type. */
  function SignedLane(kind: Kind, d: u64): (r: int)
    ensures IsValueOf(kind, r)
  {
    Signed(kind, Lane(kind, d))
  }

  predicate IsValueOf(kind: Kind, v: int)
  {
    if kind == IntKind then IsInt32(v) else IsInt64(v)
  }

  /** The operation's identity in the kind's signed range. */
  function IdentityValue(kind: Kind, op: Op): int
  {
    match op
    case Min => if kind == IntKind then INT_MAX else LONG_MAX
    case Max => if kind == IntKind then INT_MIN else LONG_MIN
    case Add => 0
  }

  /** The op on two signed values in C: `Min`, `Max`, or `+=` wrapped to the
      kind's width. */
  function SignedOp(kind: Kind, op: Op, a: int, b: int): int
  {
    match op
    case Min => if a < b then a else b
    case Max => if a > b then a else b
    case Add => Signed(kind, Unsigned(kind, a + b))
  }

  // ------------------------------------------------------------------
  // Two's-complement facts for a fixed lane width
  // ------------------------------------------------------------------

  lemma ModAddMultiple(kind: Kind, y: int, k: int)
    ensures (y + k * LaneMod(kind)) % LaneMod(kind) == y % LaneMod(kind)
  {
    if kind == IntKind {
      var q, r := y / TWO32, y % TWO32;
      assert y + k * TWO32 == (q + k) * TWO32 + r;
    } else {
      var q, r := y / TWO64, y % TWO64;
      assert y + k * TWO64 == (q + k) * TWO64 + r;
    }
  }

  /** Storing the signed reading of a pattern gives the pattern back. */
  lemma UnsignedOfSigned(kind: Kind, w: int)
    requires 0 <= w < LaneMod(kind)
    ensures Unsigned(kind, Signed(kind, w)) == w
  {
    if Signed(kind, w) != w {
      ModAddMultiple(kind, w, -1);
    }
  }

  /** Reading back a stored signed value gives the value itself. */
  lemma SignedOfUnsigned(kind: Kind, v: int)
    requires IsValueOf(kind, v)
    ensures Signed(kind, Unsigned(kind, v)) == v
  {
    if v < 0 {
      ModAddMultiple(kind, v, 1);
    }
  }

  /** Wrapping an intermediate sum does not change the final wrapped sum. */
  lemma ReWrap(kind: Kind, u: int, b: int)
    ensures Unsigned(kind, Signed(kind, Unsigned(kind, u)) + b) == Unsigned(kind, u + b)
  {
    var m := LaneMod(kind);
    var w := Unsigned(kind, u);
    var q := if kind == IntKind then u / TWO32 else u / TWO64;
    assert u == q * m + w;
    var j := if Signed(kind, w) == w then 0 else 1;
    assert Signed(kind, w) + b == (u + b) + (-(q + j)) * m;
    ModAddMultiple(kind, u + b, -(q + j));
  }

  /** Adding the signed readings and wrapping equals adding the patterns. */
  lemma WrapSum(kind: Kind, a: int, b: int)
    requires 0 <= a < LaneMod(kind) && 0 <= b < LaneMod(kind)
    ensures Unsigned(kind, Signed(kind, a) + Signed(kind, b)) == (a + b) % LaneMod(kind)
  {
    var m := LaneMod(kind);
    var ja := if Signed(kind, a) == a then 0 else 1;
    var jb := if Signed(kind, b) == b then 0 else 1;
    assert Signed(kind, a) + Signed(kind, b) == (a + b) + (-(ja + jb)) * m;
    ModAddMultiple(kind, a + b, -(ja + jb));
  }

  /** Two registers whose lanes read as the same signed value have the same lane. */
  lemma LaneFromSigned(kind: Kind, d: u64, e: u64)
    requires SignedLane(kind, d) == SignedLane(kind, e)
    ensures Lane(kind, d) == Lane(kind, e)
  {
    UnsignedOfSigned(kind, Lane(kind, d));
    UnsignedOfSigned(kind, Lane(kind, e));
  }

  lemma SameLaneSameRegister(kind: Kind, d: u64, e: u64)
    requires Lane(kind, d) == Lane(kind, e) && HighPart(kind, d) == HighPart(kind, e)
    ensures d == e
  {
  }

  // ------------------------------------------------------------------
  // aggcalc_init_*
  // ------------------------------------------------------------------

  /** `aggcalc_init_<op>_<kind>`: the class becomes NULL and the register holds
      the identity cast to `Datum` (for `INT_MIN` the cast sign-extends). */
  function Init(kind: Kind, op: Op): (r: Accum)
    ensures r.dclass == Null
    ensures SignedLane(kind, r.datum) == IdentityValue(kind, op)
  {
    var datum := match op
      case Min => if kind == IntKind then INT_MAX else LONG_MAX
      case Max => if kind == IntKind then WrapU(INT_MIN, 64) else WrapU(LONG_MIN, 64)
      case Add => 0;
    Accum(Null, datum)
  }

  /** `aggcalc_init_null`: NULL with a zero register. */
  function InitNull(): (r: Accum)
    ensures r.dclass == Null && r.datum == 0
  {
    Accum(Null, 0)
  }

  /** The NULL initialiser is the additive one, merging it as a source changes
      nothing, and an additive merge into it yields the source's value. */
  lemma InitNullIsNeutral(kind: Kind, op: Op, a: Accum, src: u64)
    ensures InitNull() == Init(kind, Add)
    ensures NormalMerge(kind, op, a, InitNull().dclass, InitNull().datum) == Merged(a)
    ensures NormalMerge(kind, Add, InitNull(), Normal, src).Merged?
    ensures SignedLane(kind, NormalMerge(kind, Add, InitNull(), Normal, src).acc.datum) == SignedLane(kind, src)
  {
  }

  /** The initial value is neutral for the operation on every value of the kind. */
  lemma IdentityIsNeutral(kind: Kind, op: Op, v: int)
    requires IsValueOf(kind, v)
    ensures SignedOp(kind, op, IdentityValue(kind, op), v) == v
    ensures SignedOp(kind, op, v, IdentityValue(kind, op)) == v
  {
    if op == Add {
      SignedOfUnsigned(kind, v);
    }
  }

  // ------------------------------------------------------------------
  // aggcalc_normal_*
  // ------------------------------------------------------------------

  /** The register after a serial merge of a NORMAL source: the statement
      `*((cl_int *)p) = Min(*((cl_int *)p), (cl_int)(src & 0xffffffff))` and its
      siblings, which work on signed C values. */
  function NormalRegister(kind: Kind, op: Op, d: u64, src: u64): u64
  {
    var lane := Unsigned(kind, SignedOp(kind, op, SignedLane(kind, d), SignedLane(kind, src)));
    WithLane(kind, d, lane)
  }

  /** `aggcalc_normal_<op>_<kind>`: a NULL source leaves the accumulator alone, a
      NORMAL one is folded into the lane and makes the class NORMAL, any other
      class fails the device assertion. */
  function NormalMerge(kind: Kind, op: Op, acc: Accum, srcClass: DatumClass, src: u64): (r: Step)
    ensures r.AssertFailed? <==> srcClass != Normal && srcClass != Null
    ensures srcClass == Null ==> r == Merged(acc)
    ensures srcClass == Normal ==> r.Merged? && r.acc.dclass == Normal
    ensures srcClass == Normal ==> HighPart(kind, r.acc.datum) == HighPart(kind, acc.datum)
    ensures srcClass == Normal ==>
      SignedLane(kind, r.acc.datum) == SignedOp(kind, op, SignedLane(kind, acc.datum), SignedLane(kind, src))
  {
    if srcClass == Normal then
      var v := SignedOp(kind, op, SignedLane(kind, acc.datum), SignedLane(kind, src));
      SignedOfUnsigned(kind, v);
      Merged(Accum(Normal, NormalRegister(kind, op, acc.datum, src)))
    else if srcClass == Null then Merged(acc)
    else AssertFailed
  }

  // ------------------------------------------------------------------
  // aggcalc_merge_* (atomic) and aggcalc_update_*
  // ------------------------------------------------------------------

  /** What the hardware atomic stores: `atomicMin`/`atomicMax` compare as the
      pointer's signed type, `atomicAdd` adds bit patterns (on `cl_ulong *` for
      the long kind). */
  function AtomicRegister(kind: Kind, op: Op, d: u64, src: u64): u64
  {
    var cur := Lane(kind, d);
    var val := Lane(kind, src);
    var stored := match op
      case Min => if Signed(kind, val) < Signed(kind, cur) then val else cur
      case Max => if Signed(kind, val) > Signed(kind, cur) then val else cur
      case Add => (cur + val) % LaneMod(kind);
    WithLane(kind, d, stored)
  }

  /** `aggcalc_merge_<op>_<kind>`: the atomic primitive on the lane, then the
      class becomes NORMAL; its effect equals the serial merge's. */
  function Merge(kind: Kind, op: Op, acc: Accum, srcClass: DatumClass, src: u64): (r: Step)
    ensures r == NormalMerge(kind, op, acc, srcClass, src)
  {
    if srcClass == Normal then
      AtomicMatchesSerial(kind, op, acc.datum, src);
      Merged(Accum(Normal, AtomicRegister(kind, op, acc.datum, src)))
    else if srcClass == Null then Merged(acc)
    else AssertFailed
  }

  /** `aggcalc_update_<op>_<kind>` is a macro alias of the merge; its effect is
      the serial merge's. */
  function Update(kind: Kind, op: Op, acc: Accum, srcClass: DatumClass, src: u64): (r: Step)
    ensures r == NormalMerge(kind, op, acc, srcClass, src)
  {
    Merge(kind, op, acc, srcClass, src)
  }

  /** The atomic instruction and the serial C statement store the same register. */
  lemma AtomicMatchesSerial(kind: Kind, op: Op, d: u64, src: u64)
    ensures AtomicRegister(kind, op, d, src) == NormalRegister(kind, op, d, src)
  {
    var cur := Lane(kind, d);
    var val := Lane(kind, src);
    var stored := match op
      case Min => if Signed(kind, val) < Signed(kind, cur) then val else cur
      case Max => if Signed(kind, val) > Signed(kind, cur) then val else cur
      case Add => (cur + val) % LaneMod(kind);
    assert AtomicRegister(kind, op, d, src) == WithLane(kind, d, stored);
    AtomicLaneMatches(kind, op, cur, val);
  }

  /** The lane the atomic primitive stores is the serial result written back. */
  lemma AtomicLaneMatches(kind: Kind, op: Op, cur: int, val: int)
    requires 0 <= cur < LaneMod(kind) && 0 <= val < LaneMod(kind)
    ensures var stored := match op
      case Min => if Signed(kind, val) < Signed(kind, cur) then val else cur
      case Max => if Signed(kind, val) > Signed(kind, cur) then val else cur
      case Add => (cur + val) % LaneMod(kind);
      stored == Unsigned(kind, SignedOp(kind, op, Signed(kind, cur), Signed(kind, val)))
  {
    UnsignedOfSigned(kind, cur);
    UnsignedOfSigned(kind, val);
    if op == Add {
      UnsignedOfSigned(kind, Unsigned(kind, Signed(kind, cur) + Signed(kind, val)));
      WrapSum(kind, cur, val);
    }
  }

  // ------------------------------------------------------------------
  // aggcalc_shuffle_*
  // ------------------------------------------------------------------

  const WARP_SIZE: nat := 32
  const FULL_MASK: u32 := 0xffff_ffff

  /** Outcome of one warp-wide shuffle merge. */
  datatype WarpStep = WarpMerged(lanes: seq<Accum>) | WarpAssertFailed

  /** The lane `__shfl_sync` reads for a requested source lane: the index is
      taken modulo the warp width. */
  function SourceLane(laneId: int): (r: nat)
    ensures r < WARP_SIZE
  {
    laneId % WARP_SIZE
  }

  /** The merge lane `l` performs with the value it pulls from its source lane. */
  function LaneStep(kind: Kind, op: Op, warp: seq<Accum>, laneIds: seq<int>, l: nat): Step
    requires |warp| == WARP_SIZE && |laneIds| == WARP_SIZE && l < WARP_SIZE
  {
    var src := warp[SourceLane(laneIds[l])];
    NormalMerge(kind, op, warp[l], src.dclass, src.datum)
  }

  /** `aggcalc_shuffle_<op>_<kind>` run by every lane of a warp at once.
      `warp[l]` is lane l's accumulator and `laneIds[l]` the source lane it asks
      for. All lanes read the pre-shuffle values before any lane writes. */
  function Shuffle(kind: Kind, op: Op, activeMask: u32, warp: seq<Accum>, laneIds: seq<int>): (r: WarpStep)
    requires |warp| == WARP_SIZE && |laneIds| == WARP_SIZE
    ensures activeMask != FULL_MASK ==> r.WarpAssertFailed?
    ensures r.WarpMerged? ==> |r.lanes| == WARP_SIZE
    ensures r.WarpMerged? ==> forall l :: 0 <= l < WARP_SIZE ==>
      LaneStep(kind, op, warp, laneIds, l) == Merged(r.lanes[l])
    ensures r.WarpAssertFailed? && activeMask == FULL_MASK ==>
      exists l :: 0 <= l < WARP_SIZE && LaneStep(kind, op, warp, laneIds, l).AssertFailed?
  {
    if activeMask != FULL_MASK then WarpAssertFailed
    else ShuffleFrom(kind, op, warp, laneIds, 0)
  }

  /** The lanes `from ..` of a full-warp shuffle. */
  function ShuffleFrom(kind: Kind, op: Op, warp: seq<Accum>, laneIds: seq<int>, from: nat): (r: WarpStep)
    requires |warp| == WARP_SIZE && |laneIds| == WARP_SIZE && from <= WARP_SIZE
    ensures r.WarpMerged? ==> |r.lanes| == WARP_SIZE - from
    ensures r.WarpMerged? ==> forall l :: from <= l < WARP_SIZE ==>
      LaneStep(kind, op, warp, laneIds, l) == Merged(r.lanes[l - from])
    ensures r.WarpAssertFailed? ==>
      exists l :: from <= l < WARP_SIZE && LaneStep(kind, op, warp, laneIds, l).AssertFailed?
    decreases WARP_SIZE - from
  {
    if from == WARP_SIZE then WarpMerged([])
    else
      match LaneStep(kind, op, warp, laneIds, from)
      case AssertFailed => WarpAssertFailed
      case Merged(a) =>
        match ShuffleFrom(kind, op, warp, laneIds, from + 1)
        case WarpAssertFailed => WarpAssertFailed
        case WarpMerged(rest) => WarpMerged([a] + rest)
  }

  // ------------------------------------------------------------------
  // Algebraic laws
  // ------------------------------------------------------------------

  /** An accumulator as the kernels keep it: NORMAL, or NULL still holding the
      identity the init routine stored. */
  predicate WellFormed(kind: Kind, op: Op, acc: Accum)
  {
    acc.dclass == Normal || (acc.dclass == Null && SignedLane(kind, acc.datum) == IdentityValue(kind, op))
  }

  /** Init establishes the invariant and every successful merge keeps it. */
  lemma MergePreservesWellFormed(kind: Kind, op: Op, acc: Accum, c: DatumClass, v: u64)
    requires WellFormed(kind, op, acc)
    ensures WellFormed(kind, op, Init(kind, op))
    ensures NormalMerge(kind, op, acc, c, v).Merged? ==> WellFormed(kind, op, NormalMerge(kind, op, acc, c, v).acc)
  {
  }

  /** Init followed by one NORMAL merge of v leaves (NORMAL, v) in the lane. */
  lemma InitThenMerge(kind: Kind, op: Op, v: u64)
    ensures NormalMerge(kind, op, Init(kind, op), Normal, v).Merged?
    ensures NormalMerge(kind, op, Init(kind, op), Normal, v).acc.dclass == Normal
    ensures Lane(kind, NormalMerge(kind, op, Init(kind, op), Normal, v).acc.datum) == Lane(kind, v)
    ensures kind == LongKind ==> NormalMerge(kind, op, Init(kind, op), Normal, v).acc == Accum(Normal, v)
  {
    var r := NormalMerge(kind, op, Init(kind, op), Normal, v).acc;
    IdentityIsNeutral(kind, op, SignedLane(kind, v));
    LaneFromSigned(kind, r.datum, v);
  }

  /** Continues a step with one more merge; a failed assertion stays failed. */
  function Then(kind: Kind, op: Op, s: Step, c: DatumClass, v: u64): Step
  {
    if s.AssertFailed? then AssertFailed else NormalMerge(kind, op, s.acc, c, v)
  }

  /** The signed operation can take its two right operands in either order. */
  lemma SignedOpCommutes(kind: Kind, op: Op, x: int, a: int, b: int)
    requires IsValueOf(kind, x) && IsValueOf(kind, a) && IsValueOf(kind, b)
    ensures SignedOp(kind, op, SignedOp(kind, op, x, a), b) == SignedOp(kind, op, SignedOp(kind, op, x, b), a)
  {
    if op == Add {
      AddTwice(kind, x, a, b);
      AddTwice(kind, x, b, a);
      assert x + a + b == x + b + a;
    }
  }

  /** Two wrapping additions in a row wrap the whole sum once. */
  lemma AddTwice(kind: Kind, x: int, a: int, b: int)
    ensures SignedOp(kind, Add, SignedOp(kind, Add, x, a), b) == Signed(kind, Unsigned(kind, x + a + b))
  {
    ReWrap(kind, x + a, b);
  }

  /** Two merges commute: a then b leaves the same accumulator as b then a. */
  lemma MergeCommutes(kind: Kind, op: Op, acc: Accum, ca: DatumClass, a: u64, cb: DatumClass, b: u64)
    ensures Then(kind, op, NormalMerge(kind, op, acc, ca, a), cb, b)
         == Then(kind, op, NormalMerge(kind, op, acc, cb, b), ca, a)
  {
    if ca == Normal && cb == Normal {
      var ab := NormalMerge(kind, op, NormalMerge(kind, op, acc, ca, a).acc, cb, b).acc;
      var ba := NormalMerge(kind, op, NormalMerge(kind, op, acc, cb, b).acc, ca, a).acc;
      SignedOpCommutes(kind, op, SignedLane(kind, acc.datum), SignedLane(kind, a), SignedLane(kind, b));
      LaneFromSigned(kind, ab.datum, ba.datum);
      SameLaneSameRegister(kind, ab.datum, ba.datum);
    }
  }

  lemma SignedOpSymmetric(kind: Kind, op: Op, x: int, y: int)
    ensures SignedOp(kind, op, x, y) == SignedOp(kind, op, y, x)
  {
    assert x + y == y + x;
  }

  /** A shuffle whose lanes pair up (lane l reads p and p reads l, as the xor
      butterfly of a warp reduction does) leaves both partners with the same
      class and the same lane value, provided the warp held well-formed
      accumulators. */
  lemma PairedShuffleAgrees(kind: Kind, op: Op, warp: seq<Accum>, laneIds: seq<int>, l: nat)
    requires |warp| == WARP_SIZE && |laneIds| == WARP_SIZE && l < WARP_SIZE
    requires forall i :: 0 <= i < WARP_SIZE ==> WellFormed(kind, op, warp[i])
    requires SourceLane(laneIds[SourceLane(laneIds[l])]) == l
    ensures Shuffle(kind, op, FULL_MASK, warp, laneIds).WarpMerged?
    ensures var r := Shuffle(kind, op, FULL_MASK, warp, laneIds).lanes;
      var p := SourceLane(laneIds[l]);
      r[l].dclass == r[p].dclass && Lane(kind, r[l].datum) == Lane(kind, r[p].datum)
  {
    var s := Shuffle(kind, op, FULL_MASK, warp, laneIds);
    if s.WarpAssertFailed? {
      var i :| 0 <= i < WARP_SIZE && LaneStep(kind, op, warp, laneIds, i).AssertFailed?;
      assert false;
    }
    var r := s.lanes;
    var p := SourceLane(laneIds[l]);
    assert LaneStep(kind, op, warp, laneIds, l) == Merged(r[l]);
    assert LaneStep(kind, op, warp, laneIds, p) == Merged(r[p]);
    var x := SignedLane(kind, warp[l].datum);
    var y := SignedLane(kind, warp[p].datum);
    assert WellFormed(kind, op, warp[l]) && WellFormed(kind, op, warp[p]);
    if warp[l].dclass == Normal && warp[p].dclass == Normal {
      SignedOpSymmetric(kind, op, x, y);
    } else if warp[p].dclass == Normal {
      IdentityIsNeutral(kind, op, y);
    } else if warp[l].dclass == Normal {
      IdentityIsNeutral(kind, op, x);
    }
    LaneFromSigned(kind, r[l].datum, r[p].datum);
  }
}
