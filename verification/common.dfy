/** Shared vocabulary: failure-compatible wrappers, fixed-width machine integers
    and the C arithmetic the rest of the model relies on. */
module Common {

  datatype Option<+T> = None | Some(value: T)

  /** An operation that either produces a value or raises an error (`elog(ERROR)`,
      `rb_raise`, a failed `Elog`). The error carries a short reason. */
  datatype Result<+T> = Ok(value: T) | Err(reason: string)

  const TWO8: int := 0x100
  const TWO16: int := 0x1_0000
  const TWO31: int := 0x8000_0000
  const TWO32: int := 0x1_0000_0000
  const TWO63: int := 0x8000_0000_0000_0000
  const TWO64: int := 0x1_0000_0000_0000_0000
  const TWO127: int := 0x8000_0000_0000_0000_0000_0000_0000_0000

  type byte = x: int | 0 <= x < TWO8
  type u32 = x: int | 0 <= x < TWO32
  type u64 = x: int | 0 <= x < TWO64

  predicate IsInt32(x: int) { -TWO31 <= x < TWO31 }
  predicate IsInt64(x: int) { -TWO63 <= x < TWO63 }
  predicate IsInt128(x: int) { -TWO127 <= x < TWO127 }

  /** Reduction of an unbounded integer to its `bits`-wide unsigned pattern. */
  function WrapU(x: int, bits: nat): (r: int)
    requires bits == 32 || bits == 64
    ensures 0 <= r < (if bits == 32 then TWO32 else TWO64)
  {
    if bits == 32 then x % TWO32 else x % TWO64
  }

  /** Two's-complement reading of an unsigned 32-bit pattern. */
  function Signed32(w: u32): (r: int)
    ensures IsInt32(r)
    ensures (r - w) % TWO32 == 0
  {
    if w < TWO31 then w else w - TWO32
  }

  /** Two's-complement reading of an unsigned 64-bit pattern. */
  function Signed64(w: u64): (r: int)
    ensures IsInt64(r)
    ensures (r - w) % TWO64 == 0
  {
    if w < TWO63 then w else w - TWO64
  }

  /** An alignment width the source's `TYPEALIGN` macros are used with. */
  predicate IsAlignment(a: nat) { a == 1 || a == 2 || a == 4 || a == 8 || a == 16 }

  /** Rounds `x` up to the next multiple of `a` (the `TYPEALIGN` family). */
  function AlignUp(a: nat, x: nat): nat
    requires IsAlignment(a)
  {
    if a == 1 then x
    else if a == 2 then (if x % 2 == 0 then x else x + (2 - x % 2))
    else if a == 4 then (if x % 4 == 0 then x else x + (4 - x % 4))
    else if a == 8 then (if x % 8 == 0 then x else x + (8 - x % 8))
    else (if x % 16 == 0 then x else x + (16 - x % 16))
  }

  /** The aligned value is the least multiple of `a` not below `x`. */
  lemma AlignUpBounds(a: nat, x: nat)
    requires IsAlignment(a)
    ensures AlignUp(a, x) % a == 0
    ensures x <= AlignUp(a, x) < x + a
  {
    if a == 2 { RoundUp2(x); }
    else if a == 4 { RoundUp4(x); }
    else if a == 8 { RoundUp8(x); }
    else if a == 16 { RoundUp16(x); }
  }

  lemma RoundUp2(x: nat)
    ensures (x + (2 - x % 2)) % 2 == 0
  {
    assert x + (2 - x % 2) == 2 * (x / 2 + 1);
  }

  lemma RoundUp4(x: nat)
    ensures (x + (4 - x % 4)) % 4 == 0
  {
    assert x + (4 - x % 4) == 4 * (x / 4 + 1);
  }

  lemma RoundUp8(x: nat)
    ensures (x + (8 - x % 8)) % 8 == 0
  {
    assert x + (8 - x % 8) == 8 * (x / 8 + 1);
  }

  lemma RoundUp16(x: nat)
    ensures (x + (16 - x % 16)) % 16 == 0
  {
    assert x + (16 - x % 16) == 16 * (x / 16 + 1);
  }

  /** `MAXALIGN` for MAXIMUM_ALIGNOF = 8. */
  function MaxAlign(x: nat): nat { AlignUp(8, x) }

  /** `STROMALIGN` for STROMALIGN_LEN = 16. */
  function StromAlign(x: nat): nat { AlignUp(16, x) }

  /** C integer division, which truncates toward zero. */
  function CDiv(a: int, b: int): (q: int)
    requires b > 0
    ensures a >= 0 ==> q == a / b
  {
    if a >= 0 then a / b else -((-a) / b)
  }

  /** C remainder, whose sign follows the dividend. */
  function CMod(a: int, b: int): (r: int)
    requires b > 0
    ensures a == CDiv(a, b) * b + r
    ensures -b < r < b
  {
    a - CDiv(a, b) * b
  }

  /** Bitwise exclusive-or of two naturals, bit by bit from the least significant. */
  function Xor(a: nat, b: nat): nat
    decreases a + b
  {
    if a == 0 && b == 0 then 0
    else (if a % 2 != b % 2 then 1 else 0) + 2 * Xor(a / 2, b / 2)
  }

  lemma {:induction false} XorZero(a: nat)
    ensures Xor(a, 0) == a
    decreases a
  {
    if a != 0 {
      XorZero(a / 2);
    }
  }

  /** C `isspace` in the "C" locale. */
  predicate IsSpace(c: char) {
    c == ' ' || c == '\t' || c == '\n' || c == '\r' || c == '\U{0B}' || c == '\U{0C}'
  }

  predicate IsDigit(c: char) { '0' <= c <= '9' }

  function Sum(xs: seq<int>): int
  {
    if xs == [] then 0 else xs[0] + Sum(xs[1..])
  }

  lemma SumAppend(xs: seq<int>, x: int)
    ensures Sum(xs + [x]) == Sum(xs) + x
  {
    if xs != [] {
      assert (xs + [x])[1..] == xs[1..] + [x];
      SumAppend(xs[1..], x);
    }
  }

  /** Applies `f` to every element in order; the first error is the result
      (the `elog`/`rb_raise` of a loop that stops at the first bad element). */
  function MapResult<A, B>(xs: seq<A>, f: A -> Result<B>): (r: Result<seq<B>>)
    ensures r.Ok? <==> forall k :: 0 <= k < |xs| ==> f(xs[k]).Ok?
    ensures r.Ok? ==> |r.value| == |xs| && forall k :: 0 <= k < |xs| ==> f(xs[k]) == Ok(r.value[k])
    ensures r.Err? ==> exists k :: 0 <= k < |xs| && f(xs[k]) == Err(r.reason)
    decreases |xs|
  {
    if xs == [] then Ok([])
    else match f(xs[0])
      case Err(e) => Err(e)
      case Ok(y) =>
        match MapResult(xs[1..], f)
        case Err(e) =>
          var k :| 0 <= k < |xs[1..]| && f(xs[1..][k]) == Err(e);
          assert f(xs[k + 1]) == Err(e);
          Err(e)
        case Ok(ys) =>
          assert forall k :: 1 <= k < |xs| ==> xs[k] == xs[1..][k - 1];
          Ok([y] + ys)
  }

  /** Index of the first occurrence of `c`, if any (`strchr`). */
  function IndexOf(s: string, c: char): (r: Option<nat>)
    ensures r.None? <==> c !in s
    ensures r.Some? ==> r.value < |s| && s[r.value] == c && c !in s[..r.value]
  {
    if s == [] then None
    else if s[0] == c then Some(0)
    else match IndexOf(s[1..], c)
      case None => None
      case Some(i) => assert s[1..][..i] == s[1..i + 1]; Some(i + 1)
  }

  predicate StartsWith(s: string, prefix: string) {
    |prefix| <= |s| && s[..|prefix|] == prefix
  }

  function Pow256(n: nat): (r: nat)
    ensures r >= 1
  {
    if n == 0 then 1 else 256 * Pow256(n - 1)
  }

  /** The `n` bytes of `x` in little-endian order, as a plain store of an
      unsigned field writes them on the hosts and GPUs the system targets. */
  function EncodeLE(x: nat, n: nat): (r: seq<byte>)
    ensures |r| == n
  {
    if n == 0 then [] else [x % 256] + EncodeLE(x / 256, n - 1)
  }

  /** The unsigned value a little-endian byte sequence holds. */
  function DecodeLE(bs: seq<byte>): (r: nat)
    ensures r < Pow256(|bs|)
  {
    if bs == [] then 0 else bs[0] + 256 * DecodeLE(bs[1..])
  }

  /** Decoding an encoded field gives the value back whenever it fits. */
  lemma {:induction false} DecodeEncodeLE(x: nat, n: nat)
    requires x < Pow256(n)
    ensures DecodeLE(EncodeLE(x, n)) == x
  {
    if n > 0 {
      assert x / 256 < Pow256(n - 1);
      DecodeEncodeLE(x / 256, n - 1);
      assert EncodeLE(x, n)[1..] == EncodeLE(x / 256, n - 1);
    }
  }

  /** Decoding a concatenation splits at the boundary. */
  lemma {:induction false} DecodeLEAppend(a: seq<byte>, b: seq<byte>)
    ensures DecodeLE(a + b) == DecodeLE(a) + Pow256(|a|) * DecodeLE(b)
  {
    if a != [] {
      assert (a + b)[1..] == a[1..] + b;
      DecodeLEAppend(a[1..], b);
      var t := DecodeLE(a[1..]);
      var u := Pow256(|a| - 1) * DecodeLE(b);
      assert 256 * (t + u) == 256 * t + 256 * u;
      assert 256 * u == Pow256(|a|) * DecodeLE(b) by {
        assert Pow256(|a|) == 256 * Pow256(|a| - 1);
        MulAssoc(256, Pow256(|a| - 1), DecodeLE(b));
      }
      assert DecodeLE(a + b) == (a + b)[0] + 256 * DecodeLE((a + b)[1..]);
      assert DecodeLE(a) == a[0] + 256 * t;
    } else {
      assert a + b == b;
    }
  }

  lemma MulAssoc(x: int, y: int, z: int)
    ensures x * (y * z) == (x * y) * z
  {
  }
}
