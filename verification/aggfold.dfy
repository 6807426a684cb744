/** A group's accumulator after a whole stream of merges, as the pre-aggregation
    kernels produce it by calling the merge routines once per input row (in an
    order the hardware scheduler chooses). */
module AggFold {
  import opened Common
  import opened AggCalc

  /** One input row's contribution: its datum class and register. */
  datatype Input = Input(dclass: DatumClass, datum: u64)

  /** The accumulator after merging `xs` in order, starting from `s`. */
  function FoldFrom(kind: Kind, op: Op, s: Step, xs: seq<Input>): Step
    decreases |xs|
  {
    if xs == [] then s
    else FoldFrom(kind, op, Then(kind, op, s, xs[0].dclass, xs[0].datum), xs[1..])
  }

  /** The signed values of the NORMAL inputs, in order. */
  function NormalValues(kind: Kind, xs: seq<Input>): (r: seq<int>)
    ensures |r| <= |xs|
    ensures forall v :: v in r ==> IsValueOf(kind, v)
  {
    if xs == [] then []
    else (if xs[0].dclass == Normal then [SignedLane(kind, xs[0].datum)] else [])
         + NormalValues(kind, xs[1..])
  }

  /** Reference semantics: the C operator applied left to right to signed values. */
  function RefFold(kind: Kind, op: Op, a: int, vals: seq<int>): int
    decreases |vals|
  {
    if vals == [] then a else RefFold(kind, op, SignedOp(kind, op, a, vals[0]), vals[1..])
  }

  predicate HasBadClass(xs: seq<Input>)
  {
    exists i :: 0 <= i < |xs| && xs[i].dclass.Other?
  }

  predicate HasNormal(xs: seq<Input>)
  {
    exists i :: 0 <= i < |xs| && xs[i].dclass == Normal
  }

  /** Once the device assertion has failed, later merges cannot undo it. */
  lemma {:induction false} FoldFromFailed(kind: Kind, op: Op, xs: seq<Input>)
    ensures FoldFrom(kind, op, AssertFailed, xs) == AssertFailed
    decreases |xs|
  {
    if xs != [] {
      FoldFromFailed(kind, op, xs[1..]);
    }
  }

  /** The stream fails the device assertion exactly when some row carries a
      class other than NORMAL or NULL. */
  lemma {:induction false} FoldFailsIffBadClass(kind: Kind, op: Op, acc: Accum, xs: seq<Input>)
    ensures FoldFrom(kind, op, Merged(acc), xs).AssertFailed? <==> HasBadClass(xs)
    decreases |xs|
  {
    if xs != [] {
      var s := NormalMerge(kind, op, acc, xs[0].dclass, xs[0].datum);
      if s.AssertFailed? {
        FoldFromFailed(kind, op, xs[1..]);
        assert xs[0].dclass.Other?;
      } else {
        FoldFailsIffBadClass(kind, op, s.acc, xs[1..]);
        if HasBadClass(xs[1..]) {
          var i :| 0 <= i < |xs[1..]| && xs[1..][i].dclass.Other?;
          assert xs[i + 1].dclass.Other?;
        }
        if HasBadClass(xs) {
          var i :| 0 <= i < |xs| && xs[i].dclass.Other?;
          assert i != 0;
          assert xs[1..][i - 1].dclass.Other?;
        }
      }
    }
  }

  /** Folding a well-formed accumulator over rows without bad classes yields
      the reference fold of the NORMAL values, and the class is NORMAL exactly
      when the accumulator or some row already was. */
  lemma {:induction false} FoldMatchesReference(kind: Kind, op: Op, acc: Accum, xs: seq<Input>)
    requires WellFormed(kind, op, acc)
    requires !HasBadClass(xs)
    ensures FoldFrom(kind, op, Merged(acc), xs).Merged?
    ensures var r := FoldFrom(kind, op, Merged(acc), xs).acc;
      WellFormed(kind, op, r)
      && (r.dclass == Normal <==> acc.dclass == Normal || HasNormal(xs))
      && SignedLane(kind, r.datum) == RefFold(kind, op, SignedLane(kind, acc.datum), NormalValues(kind, xs))
    decreases |xs|
  {
    if xs != [] {
      assert !xs[0].dclass.Other?;
      var s := NormalMerge(kind, op, acc, xs[0].dclass, xs[0].datum);
      MergePreservesWellFormed(kind, op, acc, xs[0].dclass, xs[0].datum);
      assert !HasBadClass(xs[1..]);
      FoldMatchesReference(kind, op, s.acc, xs[1..]);
      HasNormalSplit(xs);
      var a := SignedLane(kind, acc.datum);
      var rest := NormalValues(kind, xs[1..]);
      if xs[0].dclass == Normal {
        var v := SignedLane(kind, xs[0].datum);
        assert NormalValues(kind, xs) == [v] + rest;
        assert ([v] + rest)[1..] == rest;
        assert RefFold(kind, op, a, [v] + rest) == RefFold(kind, op, SignedOp(kind, op, a, v), rest);
      } else {
        assert NormalValues(kind, xs) == rest;
      }
    }
  }

  lemma HasNormalSplit(xs: seq<Input>)
    requires xs != []
    ensures HasNormal(xs) <==> xs[0].dclass == Normal || HasNormal(xs[1..])
  {
    if HasNormal(xs[1..]) {
      var i :| 0 <= i < |xs[1..]| && xs[1..][i].dclass == Normal;
      assert xs[i + 1].dclass == Normal;
    }
  }

  /** Moving one row to the front of the stream does not change the result. */
  lemma {:induction false} FoldMoveFront(kind: Kind, op: Op, s: Step, zs: seq<Input>, y: Input, ws: seq<Input>)
    ensures FoldFrom(kind, op, s, zs + [y] + ws) == FoldFrom(kind, op, s, [y] + zs + ws)
    decreases |zs|
  {
    if zs != [] {
      var z := zs[0];
      var s1 := Then(kind, op, s, z.dclass, z.datum);
      assert (zs + [y] + ws)[1..] == zs[1..] + [y] + ws;
      FoldMoveFront(kind, op, s1, zs[1..], y, ws);
      assert ([y] + zs[1..] + ws)[1..] == zs[1..] + ws;
      assert ([y] + zs + ws)[1..] == zs + ws;
      assert (zs + ws)[1..] == zs[1..] + ws;
      ThenCommutes(kind, op, s, z, y);
    }
  }

  lemma ThenCommutes(kind: Kind, op: Op, s: Step, a: Input, b: Input)
    ensures Then(kind, op, Then(kind, op, s, a.dclass, a.datum), b.dclass, b.datum)
         == Then(kind, op, Then(kind, op, s, b.dclass, b.datum), a.dclass, a.datum)
  {
    if s.Merged? {
      MergeCommutes(kind, op, s.acc, a.dclass, a.datum, b.dclass, b.datum);
    }
  }

  /** The order of the rows is irrelevant: any permutation gives the same
      accumulator (or the same assertion failure). */
  lemma {:induction false} FoldPermutation(kind: Kind, op: Op, s: Step, xs: seq<Input>, ys: seq<Input>)
    requires multiset(xs) == multiset(ys)
    ensures FoldFrom(kind, op, s, xs) == FoldFrom(kind, op, s, ys)
    decreases |xs|
  {
    if xs == [] {
      assert |ys| == |multiset(ys)| == 0;
    } else {
      var x := xs[0];
      assert x in multiset(ys);
      var i :| 0 <= i < |ys| && ys[i] == x;
      var rest := ys[..i] + ys[i + 1..];
      assert ys == ys[..i] + [x] + ys[i + 1..];
      FoldMoveFront(kind, op, s, ys[..i], x, ys[i + 1..]);
      assert [x] + ys[..i] + ys[i + 1..] == [x] + rest;
      assert xs == [x] + xs[1..];
      assert multiset(ys) == multiset(ys[..i]) + multiset([x]) + multiset(ys[i + 1..]);
      assert multiset(rest) == multiset(ys[..i]) + multiset(ys[i + 1..]);
      assert multiset(xs) == multiset([x]) + multiset(xs[1..]);
      assert multiset(xs[1..]) == multiset(xs) - multiset([x]);
      assert multiset(rest) == multiset(ys) - multiset([x]);
      FoldPermutation(kind, op, Then(kind, op, s, x.dclass, x.datum), xs[1..], rest);
      assert ([x] + rest)[1..] == rest;
    }
  }

  // ------------------------------------------------------------------
  // The reference fold per operation
  // ------------------------------------------------------------------

  /** Summing is the wrapped sum of all values. */
  lemma {:induction false} RefAddIsWrappedSum(kind: Kind, a: int, vals: seq<int>)
    requires IsValueOf(kind, a)
    ensures RefFold(kind, Add, a, vals) == Signed(kind, Unsigned(kind, a + Sum(vals)))
    decreases |vals|
  {
    if vals == [] {
      SignedOfUnsigned(kind, a);
    } else {
      var a1 := SignedOp(kind, Add, a, vals[0]);
      RefAddIsWrappedSum(kind, a1, vals[1..]);
      ReWrap(kind, a + vals[0], Sum(vals[1..]));
      assert a + vals[0] + Sum(vals[1..]) == a + Sum(vals);
    }
  }

  /** A minimum (maximum) is below (above) the start and every value, and is
      the start or one of the values. */
  lemma {:induction false} RefMinMaxBounds(kind: Kind, op: Op, a: int, vals: seq<int>)
    requires op != Add
    ensures var r := RefFold(kind, op, a, vals);
      (r == a || r in vals)
      && (op == Min ==> r <= a && forall v :: v in vals ==> r <= v)
      && (op == Max ==> r >= a && forall v :: v in vals ==> r >= v)
    decreases |vals|
  {
    if vals != [] {
      var a1 := SignedOp(kind, op, a, vals[0]);
      RefMinMaxBounds(kind, op, a1, vals[1..]);
      assert vals == [vals[0]] + vals[1..];
    }
  }

  function Ones(n: nat): (r: seq<Input>)
    ensures |r| == n
    ensures forall i :: 0 <= i < n ==> r[i] == Input(Normal, 1)
  {
    if n == 0 then [] else [Input(Normal, 1)] + Ones(n - 1)
  }

  /** `count(*)` as the kernels compute it: `n` rows each contributing a NORMAL 1
      to a long sum give NORMAL `n` (for any `n` a `cl_long` holds). */
  lemma CountRows(n: nat)
    requires n < TWO63
    ensures FoldFrom(LongKind, Add, Merged(Init(LongKind, Add)), Ones(n)).Merged?
    ensures FoldFrom(LongKind, Add, Merged(Init(LongKind, Add)), Ones(n)).acc.dclass == (if n == 0 then Null else Normal)
    ensures SignedLane(LongKind, FoldFrom(LongKind, Add, Merged(Init(LongKind, Add)), Ones(n)).acc.datum) == n
  {
    var xs := Ones(n);
    assert !HasBadClass(xs);
    FoldMatchesReference(LongKind, Add, Init(LongKind, Add), xs);
    if n > 0 {
      assert xs[0].dclass == Normal;
    }
    OnesValues(n);
    RefAddIsWrappedSum(LongKind, 0, NormalValues(LongKind, xs));
    SignedOfUnsigned(LongKind, n);
  }

  lemma {:induction false} OnesValues(n: nat)
    ensures Sum(NormalValues(LongKind, Ones(n))) == n
  {
    if n > 0 {
      OnesValues(n - 1);
      assert Ones(n)[1..] == Ones(n - 1);
    }
  }
}
