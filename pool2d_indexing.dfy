/**
 * Index arithmetic shared by the six CPU pooling kernels: stride normalisation to
 * four axes (batch, channel, row, column), the coordinates of a window tap, the
 * in-bounds filter, and the conditions under which a strided buffer can be
 * addressed without a panic.
 */
module Pool2DIndexing {
  import opened Wrappers

  /** The static configuration of one pooling call. */
  datatype Pool2DOp = Pool2DOp(
    kernel: nat, stride: nat, padding: nat,
    batch: nat, chan: nat,
    hIn: nat, wIn: nat,
    hOut: nat, wOut: nat)

  /** A stride array over the four axes (batch, channel, row, column). */
  type Strides4 = s: seq<nat> | |s| == 4 witness [0, 0, 0, 0]

  /**
   * Normalises the strides of a rank-3 or rank-4 storage to four axes. A rank-3
   * storage has no batch axis, so it gets batch stride 0. Any other rank panics,
   * which is `None` here.
   */
  function Make4d(strides: seq<nat>): (r: Option<Strides4>)
    ensures r.Some? <==> |strides| == 3 || |strides| == 4
    ensures |strides| == 3 ==> r.Some? && r.value == [0] + strides
    ensures |strides| == 4 ==> r.Some? && r.value == strides
  {
    if |strides| == 3 then Some([0, strides[0], strides[1], strides[2]])
    else if |strides| == 4 then Some([strides[0], strides[1], strides[2], strides[3]])
    else None
  }

  /** Physical offset of the multi-index (i0, i1, i2, i3). */
  function Offset(str: Strides4, i0: nat, i1: nat, i2: nat, i3: nat): nat
  {
    i0 * str[0] + i1 * str[1] + i2 * str[2] + i3 * str[3]
  }

  /** A rank-3 storage is addressed the same way for every batch index. */
  lemma Rank3IgnoresBatch(strides: seq<nat>, b: nat, c: nat, y: nat, x: nat)
    requires |strides| == 3
    ensures Make4d(strides).Some?
    ensures Offset(Make4d(strides).value, b, c, y, x) == c * strides[0] + y * strides[1] + x * strides[2]
  {
  }

  /** `usize::checked_sub`: the difference, or `None` on underflow. */
  function CheckedSub(a: nat, b: nat): (r: Option<nat>)
    ensures r.Some? <==> b <= a
    ensures r.Some? ==> r.value + b == a
  {
    if b <= a then Some(a - b) else None
  }

  /**
   * Tap (k1, k2) of the window of output slot row oh, column ow reads input row
   * oh * stride + k1 - padding and column ow * stride + k2 - padding; it is used
   * only when neither subtraction underflows and both results are below the
   * input extents. This one filter guards every tap in all six kernels.
   */
  predicate TapInBounds(op: Pool2DOp, oh: nat, ow: nat, k1: nat, k2: nat)
  {
    && op.padding <= oh * op.stride + k1 < op.padding + op.hIn
    && op.padding <= ow * op.stride + k2 < op.padding + op.wIn
  }

  /**
   * The input offset read by tap (k1, k2) of the window of output slot
   * (b, c, oh, ow), or `None` when the tap lies in the padding, computed as the
   * kernels compute it, with two checked subtractions.
   */
  function TapIndex(op: Pool2DOp, istr: Strides4, b: nat, c: nat, oh: nat, ow: nat, k1: nat, k2: nat)
    : (r: Option<nat>)
    ensures r.Some? <==> TapInBounds(op, oh, ow, k1, k2)
    ensures r.Some? ==>
      && op.padding <= oh * op.stride + k1
      && op.padding <= ow * op.stride + k2
      && r.value == Offset(istr, b, c, oh * op.stride + k1 - op.padding, ow * op.stride + k2 - op.padding)
  {
    var y := CheckedSub(oh * op.stride + k1, op.padding);
    var x := CheckedSub(ow * op.stride + k2, op.padding);
    if y.Some? && x.Some? && y.value < op.hIn && x.value < op.wIn then
      Some(Offset(istr, b, c, y.value, x.value))
    else
      None
  }

  /** (b, c, oh, ow) is one of the output slots the kernels visit. */
  predicate IsSlot(op: Pool2DOp, b: nat, c: nat, oh: nat, ow: nat)
  {
    b < op.batch && c < op.chan && oh < op.hOut && ow < op.wOut
  }

  /** Every in-bounds input position has an offset below n (no index panic). */
  ghost predicate InputFits(op: Pool2DOp, istr: Strides4, n: nat)
  {
    forall b: nat, c: nat, y: nat, x: nat
      | b < op.batch && c < op.chan && y < op.hIn && x < op.wIn :: Offset(istr, b, c, y, x) < n
  }

  /** Every output slot has an offset below n (no index panic). */
  ghost predicate OutputFits(op: Pool2DOp, ostr: Strides4, n: nat)
  {
    forall b: nat, c: nat, oh: nat, ow: nat | IsSlot(op, b, c, oh, ow) :: Offset(ostr, b, c, oh, ow) < n
  }

  /** Distinct output slots have distinct offsets: the output is not a broadcast view. */
  ghost predicate OutputInjective(op: Pool2DOp, ostr: Strides4)
  {
    forall b: nat, c: nat, oh: nat, ow: nat, b': nat, c': nat, oh': nat, ow': nat
      | IsSlot(op, b, c, oh, ow) && IsSlot(op, b', c', oh', ow')
        && Offset(ostr, b, c, oh, ow) == Offset(ostr, b', c', oh', ow')
      :: b == b' && c == c' && oh == oh' && ow == ow'
  }

  /** Distinct in-bounds input positions have distinct offsets. */
  ghost predicate InputInjective(op: Pool2DOp, istr: Strides4)
  {
    forall b: nat, c: nat, y: nat, x: nat, b': nat, c': nat, y': nat, x': nat
      | b < op.batch && c < op.chan && y < op.hIn && x < op.wIn
        && b' < op.batch && c' < op.chan && y' < op.hIn && x' < op.wIn
        && Offset(istr, b, c, y, x) == Offset(istr, b', c', y', x')
      :: b == b' && c == c' && y == y' && x == x'
  }

  /** j is the offset of some output slot. */
  ghost predicate IsOutputIndex(op: Pool2DOp, ostr: Strides4, j: nat)
  {
    exists b: nat, c: nat, oh: nat, ow: nat :: IsSlot(op, b, c, oh, ow) && Offset(ostr, b, c, oh, ow) == j
  }

  /** Slot (b, c, oh, ow) is visited before slot (B, C, OH, OW) by the nested loops. */
  predicate SlotBefore(b: nat, c: nat, oh: nat, ow: nat, B: nat, C: nat, OH: nat, OW: nat)
  {
    b < B || (b == B && (c < C || (c == C && (oh < OH || (oh == OH && ow < OW)))))
  }

}
