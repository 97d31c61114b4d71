/**
 * What one output slot of a forward pooling kernel holds: the fold of its
 * window's in-bounds taps, in the kernels' own order (k1 outer, k2 inner).
 * Average pooling sums from 0 and divides by the full kernel area; max and min
 * pooling fold from an infinite identity, so a window without an in-bounds tap
 * yields that identity.
 */
module Pool2DForwardSpec {
  import opened Wrappers
  import opened Pool2DIndexing

  /** A float value of a pooling output: the reals extended by the two infinities. */
  datatype Ext = NegInf | Fin(v: real) | PosInf

  predicate ExtLe(a: Ext, b: Ext)
  {
    match (a, b)
    case (NegInf, _) => true
    case (_, PosInf) => true
    case (Fin(x), Fin(y)) => x <= y
    case _ => false
  }

  function ExtMax(a: Ext, b: Ext): Ext
  {
    if ExtLe(a, b) then b else a
  }

  function ExtMin(a: Ext, b: Ext): Ext
  {
    if ExtLe(a, b) then a else b
  }

  /** The value read by a tap, or `None` when the tap is in the padding. */
  function TapValue(op: Pool2DOp, istr: Strides4, inp: seq<real>,
                    b: nat, c: nat, oh: nat, ow: nat, k1: nat, k2: nat): Option<real>
    requires InputFits(op, istr, |inp|) && b < op.batch && c < op.chan
  {
    match TapIndex(op, istr, b, c, oh, ow, k1, k2)
    case Some(i) => Some(inp[i])
    case None => None
  }

  // ---------------------------------------------------------------- average

  /** `acc` plus the in-bounds taps k2 < n of row k1 (the `tmp += ...` steps). */
  function RowSum(op: Pool2DOp, istr: Strides4, inp: seq<real>,
                  b: nat, c: nat, oh: nat, ow: nat, k1: nat, n: nat, acc: real): real
    requires InputFits(op, istr, |inp|) && b < op.batch && c < op.chan
    decreases n
  {
    if n == 0 then acc
    else
      var a := RowSum(op, istr, inp, b, c, oh, ow, k1, n - 1, acc);
      match TapValue(op, istr, inp, b, c, oh, ow, k1, n - 1)
      case Some(v) => a + v
      case None => a
  }

  /** The sum of the in-bounds taps of rows k1 < n1, accumulated from 0. */
  function WindowSumUpTo(op: Pool2DOp, istr: Strides4, inp: seq<real>,
                         b: nat, c: nat, oh: nat, ow: nat, n1: nat): real
    requires InputFits(op, istr, |inp|) && b < op.batch && c < op.chan
    decreases n1
  {
    if n1 == 0 then 0.0
    else RowSum(op, istr, inp, b, c, oh, ow, n1 - 1, op.kernel, WindowSumUpTo(op, istr, inp, b, c, oh, ow, n1 - 1))
  }

  function WindowSum(op: Pool2DOp, istr: Strides4, inp: seq<real>, b: nat, c: nat, oh: nat, ow: nat): real
    requires InputFits(op, istr, |inp|) && b < op.batch && c < op.chan
  {
    WindowSumUpTo(op, istr, inp, b, c, oh, ow, op.kernel)
  }

  /** Average pooling divides by kernel * kernel, however many taps are in bounds. */
  function AvgValue(op: Pool2DOp, istr: Strides4, inp: seq<real>, b: nat, c: nat, oh: nat, ow: nat): real
    requires InputFits(op, istr, |inp|) && b < op.batch && c < op.chan
    requires op.kernel > 0
  {
    WindowSum(op, istr, inp, b, c, oh, ow) / (op.kernel * op.kernel) as real
  }

  /** The number of in-bounds taps k2 < n of row k1. */
  function RowCount(op: Pool2DOp, oh: nat, ow: nat, k1: nat, n: nat): nat
    decreases n
  {
    if n == 0 then 0
    else RowCount(op, oh, ow, k1, n - 1) + (if TapInBounds(op, oh, ow, k1, n - 1) then 1 else 0)
  }

  function WindowCountUpTo(op: Pool2DOp, oh: nat, ow: nat, n1: nat): nat
    decreases n1
  {
    if n1 == 0 then 0 else WindowCountUpTo(op, oh, ow, n1 - 1) + RowCount(op, oh, ow, n1 - 1, op.kernel)
  }

  /** The number of in-bounds taps of the window of output row oh, column ow. */
  function WindowCount(op: Pool2DOp, oh: nat, ow: nat): nat
  {
    WindowCountUpTo(op, oh, ow, op.kernel)
  }

  /** v added once for each in-bounds tap k2 < n of row k1. */
  function RowRepeat(op: Pool2DOp, oh: nat, ow: nat, k1: nat, n: nat, v: real): real
    decreases n
  {
    if n == 0 then 0.0
    else RowRepeat(op, oh, ow, k1, n - 1, v) + (if TapInBounds(op, oh, ow, k1, n - 1) then v else 0.0)
  }

  /** v added once for each in-bounds tap of rows k1 < n1. */
  function WindowRepeatUpTo(op: Pool2DOp, oh: nat, ow: nat, n1: nat, v: real): real
    decreases n1
  {
    if n1 == 0 then 0.0 else WindowRepeatUpTo(op, oh, ow, n1 - 1, v) + RowRepeat(op, oh, ow, n1 - 1, op.kernel, v)
  }

  /** v added n times. */
  function Repeat(v: real, n: nat): real
    decreases n
  {
    if n == 0 then 0.0 else Repeat(v, n - 1) + v
  }

  lemma {:induction false} RepeatAdds(v: real, m: nat, n: nat)
    ensures Repeat(v, m) + Repeat(v, n) == Repeat(v, m + n)
    decreases n
  {
    if n > 0 {
      RepeatAdds(v, m, n - 1);
    }
  }

  lemma {:induction false} RepeatIsProduct(v: real, n: nat)
    ensures Repeat(v, n) == v * n as real
    decreases n
  {
    if n > 0 {
      RepeatIsProduct(v, n - 1);
      assert v * (n - 1) as real + v == v * n as real;
    }
  }

  lemma {:induction false} RowRepeatIsCount(op: Pool2DOp, oh: nat, ow: nat, k1: nat, n: nat, v: real)
    ensures RowCount(op, oh, ow, k1, n) <= n
    ensures RowRepeat(op, oh, ow, k1, n, v) == Repeat(v, RowCount(op, oh, ow, k1, n))
    decreases n
  {
    if n > 0 {
      RowRepeatIsCount(op, oh, ow, k1, n - 1, v);
      RepeatAdds(v, RowCount(op, oh, ow, k1, n - 1), if TapInBounds(op, oh, ow, k1, n - 1) then 1 else 0);
    }
  }

  lemma {:induction false} WindowCountBound(op: Pool2DOp, oh: nat, ow: nat, n1: nat)
    ensures WindowCountUpTo(op, oh, ow, n1) <= n1 * op.kernel
    decreases n1
  {
    if n1 > 0 {
      WindowCountBound(op, oh, ow, n1 - 1);
      RowRepeatIsCount(op, oh, ow, n1 - 1, op.kernel, 0.0);
      assert (n1 - 1) * op.kernel + op.kernel == n1 * op.kernel;
    }
  }

  lemma {:induction false} WindowRepeatIsCount(op: Pool2DOp, oh: nat, ow: nat, n1: nat, v: real)
    ensures WindowRepeatUpTo(op, oh, ow, n1, v) == Repeat(v, WindowCountUpTo(op, oh, ow, n1))
    decreases n1
  {
    if n1 > 0 {
      WindowRepeatIsCount(op, oh, ow, n1 - 1, v);
      RowRepeatIsCount(op, oh, ow, n1 - 1, op.kernel, v);
      RepeatAdds(v, WindowCountUpTo(op, oh, ow, n1 - 1), RowCount(op, oh, ow, n1 - 1, op.kernel));
    }
  }

  lemma {:induction false} RowSumUniform(op: Pool2DOp, istr: Strides4, inp: seq<real>,
                                         b: nat, c: nat, oh: nat, ow: nat, k1: nat, n: nat, acc: real, v: real)
    requires InputFits(op, istr, |inp|) && b < op.batch && c < op.chan
    requires forall k2: nat | k2 < n :: TapValue(op, istr, inp, b, c, oh, ow, k1, k2).Some? ==>
               TapValue(op, istr, inp, b, c, oh, ow, k1, k2).value == v
    ensures RowSum(op, istr, inp, b, c, oh, ow, k1, n, acc) == acc + RowRepeat(op, oh, ow, k1, n, v)
    decreases n
  {
    if n > 0 {
      RowSumUniform(op, istr, inp, b, c, oh, ow, k1, n - 1, acc, v);
    }
  }

  lemma {:induction false} WindowSumUniform(op: Pool2DOp, istr: Strides4, inp: seq<real>,
                                            b: nat, c: nat, oh: nat, ow: nat, n1: nat, v: real)
    requires InputFits(op, istr, |inp|) && b < op.batch && c < op.chan
    requires forall k1: nat, k2: nat | k1 < n1 && k2 < op.kernel :: TapValue(op, istr, inp, b, c, oh, ow, k1, k2).Some? ==>
               TapValue(op, istr, inp, b, c, oh, ow, k1, k2).value == v
    ensures WindowSumUpTo(op, istr, inp, b, c, oh, ow, n1) == WindowRepeatUpTo(op, oh, ow, n1, v)
    decreases n1
  {
    if n1 > 0 {
      WindowSumUniform(op, istr, inp, b, c, oh, ow, n1 - 1, v);
      RowSumUniform(op, istr, inp, b, c, oh, ow, n1 - 1, op.kernel, WindowSumUpTo(op, istr, inp, b, c, oh, ow, n1 - 1), v);
    }
  }

  /**
   * When every in-bounds tap of a window reads the same value v, the average is
   * v scaled by (in-bounds taps) / (kernel * kernel): taps in the padding count
   * in the divisor but not in the sum.
   */
  lemma UniformWindowAverage(op: Pool2DOp, istr: Strides4, inp: seq<real>,
                             b: nat, c: nat, oh: nat, ow: nat, v: real)
    requires InputFits(op, istr, |inp|) && b < op.batch && c < op.chan
    requires op.kernel > 0
    requires forall k1: nat, k2: nat | k1 < op.kernel && k2 < op.kernel :: TapValue(op, istr, inp, b, c, oh, ow, k1, k2).Some? ==>
               TapValue(op, istr, inp, b, c, oh, ow, k1, k2).value == v
    ensures WindowCount(op, oh, ow) <= op.kernel * op.kernel
    ensures AvgValue(op, istr, inp, b, c, oh, ow) == v * WindowCount(op, oh, ow) as real / (op.kernel * op.kernel) as real
  {
    var count := WindowCount(op, oh, ow);
    assert WindowSum(op, istr, inp, b, c, oh, ow) == v * count as real by {
      WindowSumUniform(op, istr, inp, b, c, oh, ow, op.kernel, v);
      WindowRepeatIsCount(op, oh, ow, op.kernel, v);
      RepeatIsProduct(v, count);
    }
    WindowCountBound(op, oh, ow, op.kernel);
  }

  // ---------------------------------------------------------------- max and min

  /** Which extremum a kernel folds: max pooling or min pooling. */
  datatype Extremum = Largest | Smallest

  /** The fold's start value: `F::neg_infinity()` for max, `F::infinity()` for min. */
  function Identity(kind: Extremum): Ext
  {
    match kind
    case Largest => NegInf
    case Smallest => PosInf
  }

  /** One fold step: `tmp.max(v)` or `tmp.min(v)`. */
  function Combine(kind: Extremum, acc: Ext, v: real): Ext
  {
    match kind
    case Largest => ExtMax(acc, Fin(v))
    case Smallest => ExtMin(acc, Fin(v))
  }

  /** a is at least as large (max) or at least as small (min) as e. */
  predicate Dominates(kind: Extremum, a: Ext, e: Ext)
  {
    match kind
    case Largest => ExtLe(e, a)
    case Smallest => ExtLe(a, e)
  }

  /** `acc` folded with the in-bounds taps k2 < n of row k1. */
  function RowExtremum(kind: Extremum, op: Pool2DOp, istr: Strides4, inp: seq<real>,
                       b: nat, c: nat, oh: nat, ow: nat, k1: nat, n: nat, acc: Ext): Ext
    requires InputFits(op, istr, |inp|) && b < op.batch && c < op.chan
    decreases n
  {
    if n == 0 then acc
    else
      var a := RowExtremum(kind, op, istr, inp, b, c, oh, ow, k1, n - 1, acc);
      match TapValue(op, istr, inp, b, c, oh, ow, k1, n - 1)
      case Some(v) => Combine(kind, a, v)
      case None => a
  }

  /** The identity folded with the in-bounds taps of rows k1 < n1. */
  function WindowExtremumUpTo(kind: Extremum, op: Pool2DOp, istr: Strides4, inp: seq<real>,
                              b: nat, c: nat, oh: nat, ow: nat, n1: nat): Ext
    requires InputFits(op, istr, |inp|) && b < op.batch && c < op.chan
    decreases n1
  {
    if n1 == 0 then Identity(kind)
    else RowExtremum(kind, op, istr, inp, b, c, oh, ow, n1 - 1, op.kernel,
                     WindowExtremumUpTo(kind, op, istr, inp, b, c, oh, ow, n1 - 1))
  }

  function WindowExtremum(kind: Extremum, op: Pool2DOp, istr: Strides4, inp: seq<real>,
                          b: nat, c: nat, oh: nat, ow: nat): Ext
    requires InputFits(op, istr, |inp|) && b < op.batch && c < op.chan
  {
    WindowExtremumUpTo(kind, op, istr, inp, b, c, oh, ow, op.kernel)
  }

  function WindowMax(op: Pool2DOp, istr: Strides4, inp: seq<real>, b: nat, c: nat, oh: nat, ow: nat): Ext
    requires InputFits(op, istr, |inp|) && b < op.batch && c < op.chan
  {
    WindowExtremum(Largest, op, istr, inp, b, c, oh, ow)
  }

  function WindowMin(op: Pool2DOp, istr: Strides4, inp: seq<real>, b: nat, c: nat, oh: nat, ow: nat): Ext
    requires InputFits(op, istr, |inp|) && b < op.batch && c < op.chan
  {
    WindowExtremum(Smallest, op, istr, inp, b, c, oh, ow)
  }

  /** A fold step keeps the accumulator's bound, bounds the new value, and returns one of the two. */
  lemma CombineSpec(kind: Extremum, acc: Ext, v: real)
    ensures Dominates(kind, Combine(kind, acc, v), acc)
    ensures Dominates(kind, Combine(kind, acc, v), Fin(v))
    ensures Combine(kind, acc, v) == acc || Combine(kind, acc, v) == Fin(v)
    ensures forall e :: Dominates(kind, acc, e) ==> Dominates(kind, Combine(kind, acc, v), e)
  {
  }

  lemma {:induction false} RowExtremumSpec(kind: Extremum, op: Pool2DOp, istr: Strides4, inp: seq<real>,
                                           b: nat, c: nat, oh: nat, ow: nat, k1: nat, n: nat, acc: Ext)
    requires InputFits(op, istr, |inp|) && b < op.batch && c < op.chan
    ensures forall e :: Dominates(kind, acc, e) ==>
              Dominates(kind, RowExtremum(kind, op, istr, inp, b, c, oh, ow, k1, n, acc), e)
    ensures forall k2: nat | k2 < n && TapValue(op, istr, inp, b, c, oh, ow, k1, k2).Some? ::
              Dominates(kind, RowExtremum(kind, op, istr, inp, b, c, oh, ow, k1, n, acc),
                        Fin(TapValue(op, istr, inp, b, c, oh, ow, k1, k2).value))
    ensures || RowExtremum(kind, op, istr, inp, b, c, oh, ow, k1, n, acc) == acc
            || exists k2: nat | k2 < n && TapValue(op, istr, inp, b, c, oh, ow, k1, k2).Some? ::
                 RowExtremum(kind, op, istr, inp, b, c, oh, ow, k1, n, acc)
                   == Fin(TapValue(op, istr, inp, b, c, oh, ow, k1, k2).value)
    decreases n
  {
    if n > 0 {
      RowExtremumSpec(kind, op, istr, inp, b, c, oh, ow, k1, n - 1, acc);
      var a := RowExtremum(kind, op, istr, inp, b, c, oh, ow, k1, n - 1, acc);
      match TapValue(op, istr, inp, b, c, oh, ow, k1, n - 1)
      case Some(v) => CombineSpec(kind, a, v);
      case None =>
    }
  }

  lemma {:induction false} WindowExtremumUpToSpec(kind: Extremum, op: Pool2DOp, istr: Strides4, inp: seq<real>,
                                                  b: nat, c: nat, oh: nat, ow: nat, n1: nat)
    requires InputFits(op, istr, |inp|) && b < op.batch && c < op.chan
    ensures forall k1: nat, k2: nat | k1 < n1 && k2 < op.kernel && TapValue(op, istr, inp, b, c, oh, ow, k1, k2).Some? ::
              Dominates(kind, WindowExtremumUpTo(kind, op, istr, inp, b, c, oh, ow, n1),
                        Fin(TapValue(op, istr, inp, b, c, oh, ow, k1, k2).value))
    ensures || WindowExtremumUpTo(kind, op, istr, inp, b, c, oh, ow, n1) == Identity(kind)
            || exists k1: nat, k2: nat | k1 < n1 && k2 < op.kernel && TapValue(op, istr, inp, b, c, oh, ow, k1, k2).Some? ::
                 WindowExtremumUpTo(kind, op, istr, inp, b, c, oh, ow, n1)
                   == Fin(TapValue(op, istr, inp, b, c, oh, ow, k1, k2).value)
    decreases n1
  {
    if n1 > 0 {
      WindowExtremumUpToSpec(kind, op, istr, inp, b, c, oh, ow, n1 - 1);
      var a := WindowExtremumUpTo(kind, op, istr, inp, b, c, oh, ow, n1 - 1);
      RowExtremumSpec(kind, op, istr, inp, b, c, oh, ow, n1 - 1, op.kernel, a);
    }
  }

  /**
   * The extremum of a window bounds every in-bounds tap, is the identity exactly
   * when no tap is in bounds, and otherwise is the value of one of the taps.
   */
  lemma WindowExtremumSpec(kind: Extremum, op: Pool2DOp, istr: Strides4, inp: seq<real>,
                           b: nat, c: nat, oh: nat, ow: nat)
    requires InputFits(op, istr, |inp|) && b < op.batch && c < op.chan
    ensures forall k1: nat, k2: nat | k1 < op.kernel && k2 < op.kernel && TapValue(op, istr, inp, b, c, oh, ow, k1, k2).Some? ::
              Dominates(kind, WindowExtremum(kind, op, istr, inp, b, c, oh, ow),
                        Fin(TapValue(op, istr, inp, b, c, oh, ow, k1, k2).value))
    ensures WindowExtremum(kind, op, istr, inp, b, c, oh, ow) == Identity(kind) <==>
              forall k1: nat, k2: nat | k1 < op.kernel && k2 < op.kernel :: !TapInBounds(op, oh, ow, k1, k2)
    ensures WindowExtremum(kind, op, istr, inp, b, c, oh, ow) != Identity(kind) ==>
              exists k1: nat, k2: nat | k1 < op.kernel && k2 < op.kernel && TapValue(op, istr, inp, b, c, oh, ow, k1, k2).Some? ::
                WindowExtremum(kind, op, istr, inp, b, c, oh, ow) == Fin(TapValue(op, istr, inp, b, c, oh, ow, k1, k2).value)
  {
    WindowExtremumUpToSpec(kind, op, istr, inp, b, c, oh, ow, op.kernel);
    var w := WindowExtremum(kind, op, istr, inp, b, c, oh, ow);
    forall k1: nat, k2: nat
      ensures TapInBounds(op, oh, ow, k1, k2) ==> TapValue(op, istr, inp, b, c, oh, ow, k1, k2).Some?
    {
    }
  }

  /**
   * Max pooling: the output is at least every in-bounds tap and equal to one of
   * them, or negative infinity when the window has no in-bounds tap.
   */
  lemma WindowMaxSpec(op: Pool2DOp, istr: Strides4, inp: seq<real>, b: nat, c: nat, oh: nat, ow: nat)
    requires InputFits(op, istr, |inp|) && b < op.batch && c < op.chan
    ensures forall k1: nat, k2: nat | k1 < op.kernel && k2 < op.kernel && TapValue(op, istr, inp, b, c, oh, ow, k1, k2).Some? ::
              ExtLe(Fin(TapValue(op, istr, inp, b, c, oh, ow, k1, k2).value), WindowMax(op, istr, inp, b, c, oh, ow))
    ensures WindowMax(op, istr, inp, b, c, oh, ow) == NegInf <==>
              forall k1: nat, k2: nat | k1 < op.kernel && k2 < op.kernel :: !TapInBounds(op, oh, ow, k1, k2)
    ensures WindowMax(op, istr, inp, b, c, oh, ow) != NegInf ==>
              exists k1: nat, k2: nat | k1 < op.kernel && k2 < op.kernel && TapValue(op, istr, inp, b, c, oh, ow, k1, k2).Some? ::
                WindowMax(op, istr, inp, b, c, oh, ow) == Fin(TapValue(op, istr, inp, b, c, oh, ow, k1, k2).value)
  {
    WindowExtremumSpec(Largest, op, istr, inp, b, c, oh, ow);
  }

  /**
   * Min pooling: the output is at most every in-bounds tap and equal to one of
   * them, or positive infinity when the window has no in-bounds tap.
   */
  lemma WindowMinSpec(op: Pool2DOp, istr: Strides4, inp: seq<real>, b: nat, c: nat, oh: nat, ow: nat)
    requires InputFits(op, istr, |inp|) && b < op.batch && c < op.chan
    ensures forall k1: nat, k2: nat | k1 < op.kernel && k2 < op.kernel && TapValue(op, istr, inp, b, c, oh, ow, k1, k2).Some? ::
              ExtLe(WindowMin(op, istr, inp, b, c, oh, ow), Fin(TapValue(op, istr, inp, b, c, oh, ow, k1, k2).value))
    ensures WindowMin(op, istr, inp, b, c, oh, ow) == PosInf <==>
              forall k1: nat, k2: nat | k1 < op.kernel && k2 < op.kernel :: !TapInBounds(op, oh, ow, k1, k2)
    ensures WindowMin(op, istr, inp, b, c, oh, ow) != PosInf ==>
              exists k1: nat, k2: nat | k1 < op.kernel && k2 < op.kernel && TapValue(op, istr, inp, b, c, oh, ow, k1, k2).Some? ::
                WindowMin(op, istr, inp, b, c, oh, ow) == Fin(TapValue(op, istr, inp, b, c, oh, ow, k1, k2).value)
  {
    WindowExtremumSpec(Smallest, op, istr, inp, b, c, oh, ow);
  }
}
