/**
 * The CPU kernels of 2-D pooling. Each kernel walks the output slots in the
 * order batch, channel, row, column, and for each slot the taps of its window in
 * the order k1, k2, skipping taps that fall in the padding. Forward kernels
 * write one value per slot into the output buffer; backward kernels add into
 * the input-gradient buffer.
 */
module Pool2DCpuKernel {
  import opened Wrappers
  import opened Pool2DIndexing
  import opened Pool2DForwardSpec
  import opened Pool2DBackwardSpec

  // ---------------------------------------------------------------- forward

  /** The k1/k2 loops of the average forward kernel: the sum of the window's in-bounds taps. */
  method AvgWindowSum(op: Pool2DOp, istr: Strides4, inp: seq<real>, b: nat, c: nat, oh: nat, ow: nat)
    returns (tmp: real)
    requires InputFits(op, istr, |inp|) && b < op.batch && c < op.chan
    ensures tmp == WindowSum(op, istr, inp, b, c, oh, ow)
  {
    tmp := 0.0;
    var k1 := 0;
    while k1 < op.kernel
      invariant k1 <= op.kernel
      invariant tmp == WindowSumUpTo(op, istr, inp, b, c, oh, ow, k1)
    {
      var y := CheckedSub(oh * op.stride + k1, op.padding);
      var k2 := 0;
      while k2 < op.kernel
        invariant k2 <= op.kernel
        invariant tmp == RowSum(op, istr, inp, b, c, oh, ow, k1, k2, WindowSumUpTo(op, istr, inp, b, c, oh, ow, k1))
      {
        var x := CheckedSub(ow * op.stride + k2, op.padding);
        if y.Some? && x.Some? {
          if y.value < op.hIn && x.value < op.wIn {
            var inpIdx := b * istr[0] + c * istr[1] + y.value * istr[2] + x.value * istr[3];
            assert inpIdx == Offset(istr, b, c, y.value, x.value);
            tmp := tmp + inp[inpIdx];
          }
        }
        k2 := k2 + 1;
      }
      k1 := k1 + 1;
    }
  }

  /**
   * Average pooling forward: every output slot receives the sum of its window's
   * in-bounds taps divided by kernel * kernel; no other element of `out` changes.
   */
  method AvgPoolForward(op: Pool2DOp, inpStrides: seq<nat>, inp: seq<real>, outStrides: seq<nat>, out: array<real>)
    requires Make4d(inpStrides).Some? && Make4d(outStrides).Some?
    requires op.kernel > 0
    requires InputFits(op, Make4d(inpStrides).value, |inp|)
    requires OutputFits(op, Make4d(outStrides).value, out.Length)
    requires OutputInjective(op, Make4d(outStrides).value)
    modifies out
    ensures forall b: nat, c: nat, oh: nat, ow: nat | IsSlot(op, b, c, oh, ow) ::
              out[Offset(Make4d(outStrides).value, b, c, oh, ow)] == AvgValue(op, Make4d(inpStrides).value, inp, b, c, oh, ow)
    ensures forall j: nat | j < out.Length && !IsOutputIndex(op, Make4d(outStrides).value, j) :: out[j] == old(out[j])
  {
    var istr := Make4d(inpStrides).value;
    var ostr := Make4d(outStrides).value;
    var b := 0;
    while b < op.batch
      invariant b <= op.batch
      invariant forall B: nat, C: nat, OH: nat, OW: nat | IsSlot(op, B, C, OH, OW) && SlotBefore(B, C, OH, OW, b, 0, 0, 0) ::
                  out[Offset(ostr, B, C, OH, OW)] == AvgValue(op, istr, inp, B, C, OH, OW)
      invariant forall j: nat | j < out.Length && !IsOutputIndex(op, ostr, j) :: out[j] == old(out[j])
    {
      var c := 0;
      while c < op.chan
        invariant c <= op.chan
        invariant forall B: nat, C: nat, OH: nat, OW: nat | IsSlot(op, B, C, OH, OW) && SlotBefore(B, C, OH, OW, b, c, 0, 0) ::
                    out[Offset(ostr, B, C, OH, OW)] == AvgValue(op, istr, inp, B, C, OH, OW)
        invariant forall j: nat | j < out.Length && !IsOutputIndex(op, ostr, j) :: out[j] == old(out[j])
      {
        var oh := 0;
        while oh < op.hOut
          invariant oh <= op.hOut
          invariant forall B: nat, C: nat, OH: nat, OW: nat | IsSlot(op, B, C, OH, OW) && SlotBefore(B, C, OH, OW, b, c, oh, 0) ::
                      out[Offset(ostr, B, C, OH, OW)] == AvgValue(op, istr, inp, B, C, OH, OW)
          invariant forall j: nat | j < out.Length && !IsOutputIndex(op, ostr, j) :: out[j] == old(out[j])
        {
          var ow := 0;
          while ow < op.wOut
            invariant ow <= op.wOut
            invariant forall B: nat, C: nat, OH: nat, OW: nat | IsSlot(op, B, C, OH, OW) && SlotBefore(B, C, OH, OW, b, c, oh, ow) ::
                        out[Offset(ostr, B, C, OH, OW)] == AvgValue(op, istr, inp, B, C, OH, OW)
            invariant forall j: nat | j < out.Length && !IsOutputIndex(op, ostr, j) :: out[j] == old(out[j])
          {
            var tmp := AvgWindowSum(op, istr, inp, b, c, oh, ow);
            tmp := tmp / (op.kernel * op.kernel) as real;
            var outIdx := b * ostr[0] + c * ostr[1] + oh * ostr[2] + ow * ostr[3];
            assert outIdx == Offset(ostr, b, c, oh, ow);
            out[outIdx] := tmp;
            ow := ow + 1;
          }
          oh := oh + 1;
        }
        c := c + 1;
      }
      b := b + 1;
    }
  }

  /** The k1/k2 loops of the max and min forward kernels: the fold of the window's in-bounds taps. */
  method ExtremumWindow(kind: Extremum, op: Pool2DOp, istr: Strides4, inp: seq<real>, b: nat, c: nat, oh: nat, ow: nat)
    returns (tmp: Ext)
    requires InputFits(op, istr, |inp|) && b < op.batch && c < op.chan
    ensures tmp == WindowExtremum(kind, op, istr, inp, b, c, oh, ow)
  {
    tmp := if kind == Largest then NegInf else PosInf;
    var k1 := 0;
    while k1 < op.kernel
      invariant k1 <= op.kernel
      invariant tmp == WindowExtremumUpTo(kind, op, istr, inp, b, c, oh, ow, k1)
    {
      var y := CheckedSub(oh * op.stride + k1, op.padding);
      var k2 := 0;
      while k2 < op.kernel
        invariant k2 <= op.kernel
        invariant tmp == RowExtremum(kind, op, istr, inp, b, c, oh, ow, k1, k2,
                                     WindowExtremumUpTo(kind, op, istr, inp, b, c, oh, ow, k1))
      {
        var x := CheckedSub(ow * op.stride + k2, op.padding);
        if y.Some? && x.Some? {
          if y.value < op.hIn && x.value < op.wIn {
            var inpIdx := b * istr[0] + c * istr[1] + y.value * istr[2] + x.value * istr[3];
            assert inpIdx == Offset(istr, b, c, y.value, x.value);
            tmp := if kind == Largest then ExtMax(tmp, Fin(inp[inpIdx])) else ExtMin(tmp, Fin(inp[inpIdx]));
          }
        }
        k2 := k2 + 1;
      }
      k1 := k1 + 1;
    }
  }

  /** The slot loops shared by the max and min forward kernels. */
  method ExtremumPoolForward(kind: Extremum, op: Pool2DOp, inpStrides: seq<nat>, inp: seq<real>,
                             outStrides: seq<nat>, out: array<Ext>)
    requires Make4d(inpStrides).Some? && Make4d(outStrides).Some?
    requires InputFits(op, Make4d(inpStrides).value, |inp|)
    requires OutputFits(op, Make4d(outStrides).value, out.Length)
    requires OutputInjective(op, Make4d(outStrides).value)
    modifies out
    ensures forall b: nat, c: nat, oh: nat, ow: nat | IsSlot(op, b, c, oh, ow) ::
              out[Offset(Make4d(outStrides).value, b, c, oh, ow)]
                == WindowExtremum(kind, op, Make4d(inpStrides).value, inp, b, c, oh, ow)
    ensures forall j: nat | j < out.Length && !IsOutputIndex(op, Make4d(outStrides).value, j) :: out[j] == old(out[j])
  {
    var istr := Make4d(inpStrides).value;
    var ostr := Make4d(outStrides).value;
    var b := 0;
    while b < op.batch
      invariant b <= op.batch
      invariant forall B: nat, C: nat, OH: nat, OW: nat | IsSlot(op, B, C, OH, OW) && SlotBefore(B, C, OH, OW, b, 0, 0, 0) ::
                  out[Offset(ostr, B, C, OH, OW)] == WindowExtremum(kind, op, istr, inp, B, C, OH, OW)
      invariant forall j: nat | j < out.Length && !IsOutputIndex(op, ostr, j) :: out[j] == old(out[j])
    {
      var c := 0;
      while c < op.chan
        invariant c <= op.chan
        invariant forall B: nat, C: nat, OH: nat, OW: nat | IsSlot(op, B, C, OH, OW) && SlotBefore(B, C, OH, OW, b, c, 0, 0) ::
                    out[Offset(ostr, B, C, OH, OW)] == WindowExtremum(kind, op, istr, inp, B, C, OH, OW)
        invariant forall j: nat | j < out.Length && !IsOutputIndex(op, ostr, j) :: out[j] == old(out[j])
      {
        var oh := 0;
        while oh < op.hOut
          invariant oh <= op.hOut
          invariant forall B: nat, C: nat, OH: nat, OW: nat | IsSlot(op, B, C, OH, OW) && SlotBefore(B, C, OH, OW, b, c, oh, 0) ::
                      out[Offset(ostr, B, C, OH, OW)] == WindowExtremum(kind, op, istr, inp, B, C, OH, OW)
          invariant forall j: nat | j < out.Length && !IsOutputIndex(op, ostr, j) :: out[j] == old(out[j])
        {
          var ow := 0;
          while ow < op.wOut
            invariant ow <= op.wOut
            invariant forall B: nat, C: nat, OH: nat, OW: nat | IsSlot(op, B, C, OH, OW) && SlotBefore(B, C, OH, OW, b, c, oh, ow) ::
                        out[Offset(ostr, B, C, OH, OW)] == WindowExtremum(kind, op, istr, inp, B, C, OH, OW)
            invariant forall j: nat | j < out.Length && !IsOutputIndex(op, ostr, j) :: out[j] == old(out[j])
          {
            var tmp := ExtremumWindow(kind, op, istr, inp, b, c, oh, ow);
            var outIdx := b * ostr[0] + c * ostr[1] + oh * ostr[2] + ow * ostr[3];
            assert outIdx == Offset(ostr, b, c, oh, ow);
            out[outIdx] := tmp;
            ow := ow + 1;
          }
          oh := oh + 1;
        }
        c := c + 1;
      }
      b := b + 1;
    }
  }

  /**
   * Max pooling forward: every output slot receives the largest in-bounds tap of
   * its window, or negative infinity when there is none.
   */
  method MaxPoolForward(op: Pool2DOp, inpStrides: seq<nat>, inp: seq<real>, outStrides: seq<nat>, out: array<Ext>)
    requires Make4d(inpStrides).Some? && Make4d(outStrides).Some?
    requires InputFits(op, Make4d(inpStrides).value, |inp|)
    requires OutputFits(op, Make4d(outStrides).value, out.Length)
    requires OutputInjective(op, Make4d(outStrides).value)
    modifies out
    ensures forall b: nat, c: nat, oh: nat, ow: nat | IsSlot(op, b, c, oh, ow) ::
              out[Offset(Make4d(outStrides).value, b, c, oh, ow)] == WindowMax(op, Make4d(inpStrides).value, inp, b, c, oh, ow)
    ensures forall j: nat | j < out.Length && !IsOutputIndex(op, Make4d(outStrides).value, j) :: out[j] == old(out[j])
  {
    ExtremumPoolForward(Largest, op, inpStrides, inp, outStrides, out);
  }

  /**
   * Min pooling forward: every output slot receives the smallest in-bounds tap of
   * its window, or positive infinity when there is none.
   */
  method MinPoolForward(op: Pool2DOp, inpStrides: seq<nat>, inp: seq<real>, outStrides: seq<nat>, out: array<Ext>)
    requires Make4d(inpStrides).Some? && Make4d(outStrides).Some?
    requires InputFits(op, Make4d(inpStrides).value, |inp|)
    requires OutputFits(op, Make4d(outStrides).value, out.Length)
    requires OutputInjective(op, Make4d(outStrides).value)
    modifies out
    ensures forall b: nat, c: nat, oh: nat, ow: nat | IsSlot(op, b, c, oh, ow) ::
              out[Offset(Make4d(outStrides).value, b, c, oh, ow)] == WindowMin(op, Make4d(inpStrides).value, inp, b, c, oh, ow)
    ensures forall j: nat | j < out.Length && !IsOutputIndex(op, Make4d(outStrides).value, j) :: out[j] == old(out[j])
  {
    ExtremumPoolForward(Smallest, op, inpStrides, inp, outStrides, out);
  }

  // ---------------------------------------------------------------- backward

  /**
   * The k1/k2 loops of a backward kernel for slot (b, c, oh, ow): every
   * receiving in-bounds tap adds the slot's share at the offset it reads.
   */
  method BackwardWindow(a: Backprop, ginp: array<real>, b: nat, c: nat, oh: nat, ow: nat)
    requires Fits(a) && IsSlot(a.op, b, c, oh, ow) && InputFits(a.op, a.istr, ginp.Length)
    modifies ginp
    ensures forall j: nat | j < ginp.Length :: ginp[j] == old(ginp[j]) + WindowGrad(a, b, c, oh, ow, j)
  {
    var op, istr, ostr := a.op, a.istr, a.ostr;
    var outIdx := b * ostr[0] + c * ostr[1] + oh * ostr[2] + ow * ostr[3];
    assert outIdx == Offset(ostr, b, c, oh, ow);
    var g := a.gout[outIdx];
    if a.rule.SpreadEvenly? && op.kernel > 0 {
      g := g / (op.kernel * op.kernel) as real;
    }
    var k1 := 0;
    while k1 < op.kernel
      invariant k1 <= op.kernel
      invariant forall j: nat | j < ginp.Length :: ginp[j] == old(ginp[j]) + WindowGradUpTo(a, b, c, oh, ow, k1, j)
    {
      var y := CheckedSub(oh * op.stride + k1, op.padding);
      var k2 := 0;
      while k2 < op.kernel
        invariant k2 <= op.kernel
        invariant forall j: nat | j < ginp.Length ::
                    ginp[j] == old(ginp[j]) + WindowGradUpTo(a, b, c, oh, ow, k1, j) + RowGrad(a, b, c, oh, ow, k1, k2, j)
      {
        var x := CheckedSub(ow * op.stride + k2, op.padding);
        if y.Some? && x.Some? {
          if x.value < op.wIn && y.value < op.hIn {
            var inpIdx := b * istr[0] + c * istr[1] + y.value * istr[2] + x.value * istr[3];
            assert inpIdx == Offset(istr, b, c, y.value, x.value);
            var receives := match a.rule
              case SpreadEvenly => true
              case ToMatching(inp, out) => Fin(inp[inpIdx]) == out[outIdx];
            if receives {
              ginp[inpIdx] := ginp[inpIdx] + g;
            }
          }
        }
        k2 := k2 + 1;
      }
      k1 := k1 + 1;
    }
  }

  /** The slot loops shared by the three backward kernels. */
  method PoolBackward(a: Backprop, ginp: array<real>)
    requires Fits(a) && InputFits(a.op, a.istr, ginp.Length)
    modifies ginp
    ensures forall j: nat | j < ginp.Length :: ginp[j] == old(ginp[j]) + Contribution(a, j)
  {
    var b := 0;
    while b < a.op.batch
      invariant b <= a.op.batch
      invariant forall j: nat | j < ginp.Length :: ginp[j] == old(ginp[j]) + BatchGrad(a, b, j)
    {
      var c := 0;
      while c < a.op.chan
        invariant c <= a.op.chan
        invariant forall j: nat | j < ginp.Length :: ginp[j] == old(ginp[j]) + BatchGrad(a, b, j) + ChannelsGrad(a, b, c, j)
      {
        var oh := 0;
        while oh < a.op.hOut
          invariant oh <= a.op.hOut
          invariant forall j: nat | j < ginp.Length ::
                      ginp[j] == old(ginp[j]) + BatchGrad(a, b, j) + ChannelsGrad(a, b, c, j) + RowsGrad(a, b, c, oh, j)
        {
          var ow := 0;
          while ow < a.op.wOut
            invariant ow <= a.op.wOut
            invariant forall j: nat | j < ginp.Length ::
                        ginp[j] == old(ginp[j]) + BatchGrad(a, b, j) + ChannelsGrad(a, b, c, j) + RowsGrad(a, b, c, oh, j)
                                   + ColumnsGrad(a, b, c, oh, ow, j)
          {
            BackwardWindow(a, ginp, b, c, oh, ow);
            ow := ow + 1;
          }
          oh := oh + 1;
        }
        c := c + 1;
      }
      b := b + 1;
    }
  }

  /**
   * Average pooling backward: every in-bounds tap of every window adds the
   * slot's grad_out / (kernel * kernel) to the input gradient at the offset it reads.
   */
  method AvgPoolBackward(op: Pool2DOp, inpStrides: seq<nat>, ginp: array<real>, outStrides: seq<nat>, gout: seq<real>)
    requires Make4d(inpStrides).Some? && Make4d(outStrides).Some?
    requires InputFits(op, Make4d(inpStrides).value, ginp.Length)
    requires OutputFits(op, Make4d(outStrides).value, |gout|)
    modifies ginp
    ensures forall j: nat | j < ginp.Length ::
              ginp[j] == old(ginp[j]) + Contribution(Backprop(SpreadEvenly, op, Make4d(inpStrides).value, Make4d(outStrides).value, gout), j)
  {
    PoolBackward(Backprop(SpreadEvenly, op, Make4d(inpStrides).value, Make4d(outStrides).value, gout), ginp);
  }

  /**
   * Max pooling backward: every in-bounds tap whose input equals the slot's
   * forward output adds the slot's whole grad_out at the offset it reads.
   */
  method MaxPoolBackward(op: Pool2DOp, inpStrides: seq<nat>, inp: seq<real>, ginp: array<real>,
                         outStrides: seq<nat>, out: seq<Ext>, gout: seq<real>)
    requires Make4d(inpStrides).Some? && Make4d(outStrides).Some?
    requires InputFits(op, Make4d(inpStrides).value, |inp|) && InputFits(op, Make4d(inpStrides).value, ginp.Length)
    requires OutputFits(op, Make4d(outStrides).value, |out|) && OutputFits(op, Make4d(outStrides).value, |gout|)
    modifies ginp
    ensures forall j: nat | j < ginp.Length ::
              ginp[j] == old(ginp[j])
                         + Contribution(Backprop(ToMatching(inp, out), op, Make4d(inpStrides).value, Make4d(outStrides).value, gout), j)
  {
    PoolBackward(Backprop(ToMatching(inp, out), op, Make4d(inpStrides).value, Make4d(outStrides).value, gout), ginp);
  }

  /** Min pooling backward: the same routing as max pooling, to the taps equal to the minimum. */
  method MinPoolBackward(op: Pool2DOp, inpStrides: seq<nat>, inp: seq<real>, ginp: array<real>,
                         outStrides: seq<nat>, out: seq<Ext>, gout: seq<real>)
    requires Make4d(inpStrides).Some? && Make4d(outStrides).Some?
    requires InputFits(op, Make4d(inpStrides).value, |inp|) && InputFits(op, Make4d(inpStrides).value, ginp.Length)
    requires OutputFits(op, Make4d(outStrides).value, |out|) && OutputFits(op, Make4d(outStrides).value, |gout|)
    modifies ginp
    ensures forall j: nat | j < ginp.Length ::
              ginp[j] == old(ginp[j])
                         + Contribution(Backprop(ToMatching(inp, out), op, Make4d(inpStrides).value, Make4d(outStrides).value, gout), j)
  {
    PoolBackward(Backprop(ToMatching(inp, out), op, Make4d(inpStrides).value, Make4d(outStrides).value, gout), ginp);
  }
}
