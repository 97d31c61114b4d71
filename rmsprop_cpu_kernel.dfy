/**
 * The CPU kernel of the RMSprop update: one loop that walks the parameter,
 * gradient, square-average, gradient-average and momentum buffers in lockstep
 * and updates the four mutable ones in place, element by element.
 */
module RmspropCpuKernel {
  import opened Wrappers
  import opened RmspropSpec

  /** The number of positions the zipped iteration visits: it stops at the shortest buffer. */
  function Lockstep(nParam: nat, nGrad: nat, nSquare: nat, nGradAvg: nat, nMomentum: nat): (n: nat)
    ensures n <= nParam && n <= nGrad && n <= nSquare && n <= nGradAvg && n <= nMomentum
    ensures n == nParam || n == nGrad || n == nSquare || n == nGradAvg || n == nMomentum
  {
    var a := if nParam <= nGrad then nParam else nGrad;
    var b := if nSquare <= nGradAvg then nSquare else nGradAvg;
    var c := if a <= b then a else b;
    if c <= nMomentum then c else nMomentum
  }

  /** `x += (1 - alpha) * (y - x)` is the moving average `alpha * x + (1 - alpha) * y`. */
  lemma IncrementalAverage(alpha: real, x: real, y: real)
    ensures x + (1.0 - alpha) * (y - x) == alpha * x + (1.0 - alpha) * y
  {
  }

  /**
   * The first half of the loop body: L2 decay of the gradient, the moving
   * averages (through the references `s_avg` and `g_avg`) and the root.
   */
  method UpdateAverages(cfg: RmspropConfig, sqrt: real -> real, e: Elem, grad: real)
    returns (g: real, sAvg': real, gAvg': real, avg: real)
    ensures g == DecayedGrad(cfg, e.param, grad)
    ensures sAvg' == SquareAvg(cfg, e, grad)
    ensures gAvg' == GradAvg(cfg, e, grad)
    ensures avg == sqrt(RootArg(cfg, e, grad))
  {
    sAvg', gAvg' := e.squareAvg, e.gradAvg;
    g := grad;
    if cfg.weightDecay.Some? && cfg.weightDecay.value.L2? {
      g := g + cfg.weightDecay.value.wd * e.param;
    }

    sAvg' := sAvg' + (1.0 - cfg.alpha) * (g * g - sAvg');
    assert sAvg' == SquareAvg(cfg, e, grad) by {
      assert SquareAvg(cfg, e, grad) == cfg.alpha * e.squareAvg + (1.0 - cfg.alpha) * (g * g);
      IncrementalAverage(cfg.alpha, e.squareAvg, g * g);
    }

    if cfg.centered {
      gAvg' := gAvg' + (1.0 - cfg.alpha) * (g - gAvg');
      assert gAvg' == GradAvg(cfg, e, grad) by {
        IncrementalAverage(cfg.alpha, e.gradAvg, g);
      }
      assert RootArg(cfg, e, grad) == sAvg' - gAvg' * gAvg' + cfg.eps;
      avg := sqrt(sAvg' - gAvg' * gAvg' + cfg.eps);
    } else {
      assert RootArg(cfg, e, grad) == sAvg' + cfg.eps;
      avg := sqrt(sAvg' + cfg.eps);
    }
  }

  /**
   * The loop body for one position, on its four mutable elements: the averages,
   * then normalisation, momentum, decoupled decay and the parameter update.
   */
  method UpdateElement(cfg: RmspropConfig, sqrt: real -> real, p: real, m: real, sAvg: real, gAvg: real, grad: real)
    returns (p': real, m': real, sAvg': real, gAvg': real)
    requires Normalizable(cfg, sqrt, Elem(p, m, sAvg, gAvg), grad)
    ensures Elem(p', m', sAvg', gAvg') == Step(cfg, sqrt, Elem(p, m, sAvg, gAvg), grad)
  {
    var e := Elem(p, m, sAvg, gAvg);
    var g, avg;
    g, sAvg', gAvg', avg := UpdateAverages(cfg, sqrt, e, grad);
    assert avg == sqrt(RootArg(cfg, e, grad));
    p', m' := p, m;

    g := g / avg;
    assert g == Normalized(cfg, sqrt, e, grad);

    match cfg.momentum {
      case Some(u) =>
        m' := m' * u + g;
        g := m' * cfg.lr;
      case None =>
        g := g * cfg.lr;
    }
    assert m' == NewMomentum(cfg, sqrt, e, grad) && g == StepAmount(cfg, sqrt, e, grad);

    if cfg.weightDecay.Some? && cfg.weightDecay.value.Decoupled? {
      g := g + cfg.weightDecay.value.wd * cfg.lr * p';
    }
    assert g == StepAmount(cfg, sqrt, e, grad) + DecoupledDecay(cfg, p);

    p' := p' - g;
    assert sAvg' == SquareAvg(cfg, e, grad) && gAvg' == GradAvg(cfg, e, grad);
  }

  /**
   * One RMSprop update. Every visited position i ends up holding
   * `Step(cfg, sqrt, old state at i, grad[i])`, computed from that position
   * alone; positions past the shortest buffer are not touched.
   */
  method Update(cfg: RmspropConfig, sqrt: real -> real,
                param: array<real>, momentum: array<real>, squareAvg: array<real>, gradAvg: array<real>,
                grad: seq<real>)
    requires param.Length == |grad|
    requires param != momentum && param != squareAvg && param != gradAvg
    requires momentum != squareAvg && momentum != gradAvg && squareAvg != gradAvg
    requires forall i: nat | i < Lockstep(param.Length, |grad|, squareAvg.Length, gradAvg.Length, momentum.Length) ::
               Normalizable(cfg, sqrt, Elem(param[i], momentum[i], squareAvg[i], gradAvg[i]), grad[i])
    modifies param, momentum, squareAvg, gradAvg
    ensures forall i: nat | i < Lockstep(param.Length, |grad|, squareAvg.Length, gradAvg.Length, momentum.Length) ::
              Elem(param[i], momentum[i], squareAvg[i], gradAvg[i])
                == Step(cfg, sqrt, Elem(old(param[i]), old(momentum[i]), old(squareAvg[i]), old(gradAvg[i])), grad[i])
    ensures forall i: nat | Lockstep(param.Length, |grad|, squareAvg.Length, gradAvg.Length, momentum.Length) <= i ::
              && (i < param.Length ==> param[i] == old(param[i]))
              && (i < momentum.Length ==> momentum[i] == old(momentum[i]))
              && (i < squareAvg.Length ==> squareAvg[i] == old(squareAvg[i]))
              && (i < gradAvg.Length ==> gradAvg[i] == old(gradAvg[i]))
    ensures cfg.momentum.None? ==> momentum[..] == old(momentum[..])
    ensures !cfg.centered ==> gradAvg[..] == old(gradAvg[..])
  {
    var n := Lockstep(param.Length, |grad|, squareAvg.Length, gradAvg.Length, momentum.Length);
    var i := 0;
    while i < n
      invariant i <= n
      invariant forall k: nat | k < i ::
                  Elem(param[k], momentum[k], squareAvg[k], gradAvg[k])
                    == Step(cfg, sqrt, Elem(old(param[k]), old(momentum[k]), old(squareAvg[k]), old(gradAvg[k])), grad[k])
      invariant forall k: nat | i <= k ::
                  && (k < param.Length ==> param[k] == old(param[k]))
                  && (k < momentum.Length ==> momentum[k] == old(momentum[k]))
                  && (k < squareAvg.Length ==> squareAvg[k] == old(squareAvg[k]))
                  && (k < gradAvg.Length ==> gradAvg[k] == old(gradAvg[k]))
      invariant cfg.momentum.None? ==> momentum[..] == old(momentum[..])
      invariant !cfg.centered ==> gradAvg[..] == old(gradAvg[..])
    {
      param[i], momentum[i], squareAvg[i], gradAvg[i] :=
        UpdateElement(cfg, sqrt, param[i], momentum[i], squareAvg[i], gradAvg[i], grad[i]);
      i := i + 1;
    }
  }
}
