/**
 * Circle_Shapes: circles rendered onto the grid with the smooth boundary
 * indicator and composited, in input order, over a background permittivity.
 * A grid is flattened to a sequence with one entry per cell; `xs` and `ys`
 * hold the physical coordinates of every cell.
 */
module Circles {
  import opened Numerics
  import opened Shape

  /** One rendered circle: its indicator on every cell and the value it deposits. */
  datatype Layer = Layer(indicator: seq<real>, value: real)

  /** Every layer covers a grid of `cells` cells. */
  predicate Fits(layers: seq<Layer>, cells: nat) {
    forall k :: 0 <= k < |layers| ==> |layers[k].indicator| == cells
  }

  /** The number of tuples `zip(xs, ys, rs, values)` yields: the shortest length. */
  function ZipLength(xs: seq<real>, ys: seq<real>, rs: seq<real>, values: seq<real>): (n: nat)
    ensures n <= |xs| && n <= |ys| && n <= |rs| && n <= |values|
    ensures n == |xs| || n == |ys| || n == |rs| || n == |values|
  {
    var a := if |xs| < |ys| then |xs| else |ys|;
    var b := if |rs| < |values| then |rs| else |values|;
    if a < b then a else b
  }

  /** `np.power(t, 2)`. */
  function Square(t: real): real {
    t * t
  }

  /** `dist_from_edge`: squared distance from the centre minus the squared radius. */
  function DistFromEdge(xc: real, yc: real, x: real, y: real, r: real): real {
    Square(xc - x) + Square(yc - y) - Square(r)
  }

  /** The sigmoid's argument: the negated distance from the edge in units of `dL^2`. */
  function EdgeArgument(dist: real, dL: real): (t: real)
    requires dL != 0.0
    ensures t > 0.0 <==> dist < 0.0
    ensures t == 0.0 <==> dist == 0.0
    ensures t < 0.0 <==> dist > 0.0
  {
    PositiveSquare(dL);
    -dist / Square(dL)
  }

  lemma PositiveSquare(t: real)
    requires t != 0.0
    ensures Square(t) > 0.0
  {
    if t < 0.0 {
      MulPositive(-t, -t);
    } else {
      MulPositive(t, t);
    }
  }

  /** One cell of the blend: `c*value + (1-c)*e`. */
  function Mix(c: real, value: real, e: real): real {
    Mul(c, value) + Mul(1.0 - c, e)
  }

  /**
   * One step of the compositing loop, `circle*value + (1-circle)*eps_r`,
   * cell by cell: where the indicator is 1 the circle's value replaces the
   * cell, where it is 0 the cell is unchanged.
   */
  function Blend(eps: seq<real>, layer: Layer): (r: seq<real>)
    requires |layer.indicator| == |eps|
    ensures |r| == |eps|
    ensures forall i :: 0 <= i < |r| && layer.indicator[i] == 1.0 ==> r[i] == layer.value
    ensures forall i :: 0 <= i < |r| && layer.indicator[i] == 0.0 ==> r[i] == eps[i]
  {
    seq(|eps|, i requires 0 <= i < |eps| =>
      Mix(layer.indicator[i], layer.value, eps[i]))
  }

  /** The background with every layer blended over it, first layer first. */
  function Composite(background: seq<real>, layers: seq<Layer>): (r: seq<real>)
    requires Fits(layers, |background|)
    ensures |r| == |background|
    decreases |layers|
  {
    if layers == [] then background
    else Blend(Composite(background, layers[..|layers| - 1]), layers[|layers| - 1])
  }

  /** Blending one more layer is one more step of the composite. */
  lemma CompositeStep(background: seq<real>, layers: seq<Layer>, k: nat)
    requires Fits(layers, |background|) && k < |layers|
    ensures Composite(background, layers[..k + 1]) == Blend(Composite(background, layers[..k]), layers[k])
  {
    assert layers[..k + 1][..k] == layers[..k];
  }

  /** A convex combination of two values in [lo, hi] stays in [lo, hi]. */
  lemma BlendBetween(c: real, v: real, e: real, lo: real, hi: real)
    requires 0.0 <= c <= 1.0 && lo <= v <= hi && lo <= e <= hi
    ensures lo <= Mix(c, v, e) <= hi
  {
    MulMonotone(c, lo, v);
    MulMonotone(c, v, hi);
    MulMonotone(1.0 - c, lo, e);
    MulMonotone(1.0 - c, e, hi);
    MulComplement(c, lo);
    MulComplement(c, hi);
  }

  /**
   * With indicators in [0, 1], every cell of the composite lies between the
   * smallest and the largest of its background value and the layers' values.
   */
  lemma {:induction false} CompositeStaysBetween(background: seq<real>, layers: seq<Layer>, i: nat, lo: real, hi: real)
    requires Fits(layers, |background|) && i < |background|
    requires lo <= background[i] <= hi
    requires forall k :: 0 <= k < |layers| ==> 0.0 <= layers[k].indicator[i] <= 1.0
    requires forall k :: 0 <= k < |layers| ==> lo <= layers[k].value <= hi
    ensures lo <= Composite(background, layers)[i] <= hi
  {
    if layers != [] {
      var n := |layers| - 1;
      CompositeStaysBetween(background, layers[..n], i, lo, hi);
      BlendBetween(layers[n].indicator[i], layers[n].value, Composite(background, layers[..n])[i], lo, hi);
    }
  }

  /**
   * Blending pulls a cell towards the layer's value: the cell's distance
   * from that value shrinks by the factor `1 - indicator`.
   */
  lemma BlendTowards(eps: seq<real>, layer: Layer, i: nat)
    requires |layer.indicator| == |eps| && i < |eps|
    ensures Blend(eps, layer)[i] - layer.value == Mul(1.0 - layer.indicator[i], eps[i] - layer.value)
  {
    var c := layer.indicator[i];
    assert Mul(c, layer.value) + Mul(1.0 - c, eps[i]) - layer.value
        == (1.0 - c) * eps[i] - (1.0 - c) * layer.value;
  }

  /**
   * The last layer dominates: with indicators in [0, 1] and every value in
   * [lo, hi], a cell of the composite is within `(1 - c) * (hi - lo)` of the
   * last layer's value, where `c` is that layer's indicator at the cell.
   */
  lemma CompositeLastWins(background: seq<real>, layers: seq<Layer>, i: nat, lo: real, hi: real)
    requires Fits(layers, |background|) && i < |background| && layers != []
    requires lo <= background[i] <= hi
    requires forall k :: 0 <= k < |layers| ==> 0.0 <= layers[k].indicator[i] <= 1.0
    requires forall k :: 0 <= k < |layers| ==> lo <= layers[k].value <= hi
    ensures var last := layers[|layers| - 1];
            var gap := Mul(1.0 - last.indicator[i], hi - lo);
            -gap <= Composite(background, layers)[i] - last.value <= gap
  {
    var n := |layers| - 1;
    var c, v := layers[n].indicator[i], layers[n].value;
    var before := Composite(background, layers[..n]);
    CompositeStaysBetween(background, layers[..n], i, lo, hi);
    BlendTowards(before, layers[n], i);
    MulMonotone(1.0 - c, before[i] - v, hi - lo);
    MulMonotone(1.0 - c, -(hi - lo), before[i] - v);
    assert Mul(1.0 - c, -(hi - lo)) == -Mul(1.0 - c, hi - lo);
  }

  /**
   * Where the last layer's indicator exceeds 1/2, the cell is strictly
   * closer to that layer's value than half the spread of the values, so it
   * is not an even average of that layer and what lies below.
   */
  lemma CompositeOnTop(background: seq<real>, layers: seq<Layer>, i: nat, lo: real, hi: real)
    requires Fits(layers, |background|) && i < |background| && layers != []
    requires lo <= background[i] <= hi
    requires forall k :: 0 <= k < |layers| ==> 0.0 <= layers[k].indicator[i] <= 1.0
    requires forall k :: 0 <= k < |layers| ==> lo <= layers[k].value <= hi
    requires layers[|layers| - 1].indicator[i] > 0.5
    ensures var d := Composite(background, layers)[i] - layers[|layers| - 1].value;
            && (lo == hi ==> d == 0.0)
            && (lo < hi ==> -Mul(0.5, hi - lo) < d < Mul(0.5, hi - lo))
  {
    var c := layers[|layers| - 1].indicator[i];
    CompositeLastWins(background, layers, i, lo, hi);
    if lo < hi {
      MulStrictMonotone(1.0 - c, 0.5, hi - lo);
    }
  }

  /**
   * A layer whose indicator is 1 at a cell erases there everything painted
   * before it: the cell no longer depends on the background or on the
   * earlier layers, only on that layer and the ones after it.
   */
  lemma {:induction false} CompositeOverwrite(background: seq<real>, other: seq<real>, layers: seq<Layer>, j: nat, i: nat)
    requires |other| == |background| && Fits(layers, |background|)
    requires j < |layers| && i < |background| && layers[j].indicator[i] == 1.0
    ensures Composite(background, layers)[i] == Composite(other, layers[j..])[i]
  {
    var n := |layers| - 1;
    if j == n {
      assert layers[j..] == [layers[j]];
      assert [layers[j]][..0] == [];
    } else {
      CompositeOverwrite(background, other, layers[..n], j, i);
      assert layers[..n][j..] == layers[j..][..|layers[j..]| - 1];
    }
  }

  /**
   * The topmost layer wins: where layer `j` has indicator 1 and no later
   * layer touches the cell (indicator 0), the cell holds layer `j`'s value.
   */
  lemma {:induction false} CompositeTopmost(background: seq<real>, layers: seq<Layer>, j: nat, i: nat)
    requires Fits(layers, |background|)
    requires j < |layers| && i < |background| && layers[j].indicator[i] == 1.0
    requires forall k :: j < k < |layers| ==> layers[k].indicator[i] == 0.0
    ensures Composite(background, layers)[i] == layers[j].value
  {
    var n := |layers| - 1;
    if j < n {
      CompositeTopmost(background, layers[..n], j, i);
    }
  }

  /**
   * `Circle_Shapes`: the background permittivity (held by reference, as the
   * caller's array), the grid step and the cell coordinates, all fixed at
   * construction.
   */
  class CircleShapes {
    const epsBackground: array<real>
    const dL: real
    const xs: seq<real>
    const ys: seq<real>

    /** The coordinate arrays have the background's shape. */
    predicate Valid() {
      |xs| == epsBackground.Length && |ys| == epsBackground.Length
    }

    /**
     * `Circle_Shapes.__init__`; the coordinates that `grid_coords` derives
     * from the background and `dL` are passed in.
     */
    constructor (epsBackground: array<real>, dL: real, xs: seq<real>, ys: seq<real>)
      requires |xs| == epsBackground.Length && |ys| == epsBackground.Length
      ensures Valid()
      ensures this.epsBackground == epsBackground && this.dL == dL
      ensures this.xs == xs && this.ys == ys
    {
      this.epsBackground := epsBackground;
      this.dL := dL;
      this.xs := xs;
      this.ys := ys;
    }

    /** `Circle_Shapes.circle`: the anti-aliased indicator of one circle on every cell. */
    function Circle(xs: seq<real>, ys: seq<real>, x: real, y: real, r: real, exp: real -> real): (c: seq<real>)
      requires |xs| == |ys| && dL != 0.0 && ExpLaws(exp)
      ensures |c| == |xs|
      ensures forall i :: 0 <= i < |c| ==> 0.0 < c[i] < 1.0
    {
      seq(|xs|, i requires 0 <= i < |xs| =>
        Sigmoid(EdgeArgument(DistFromEdge(xs[i], ys[i], x, y, r), dL), DEFAULT_STRENGTH, exp))
    }

    /** The circles that `zip(xs, ys, rs, values)` yields, rendered on this grid, in input order. */
    function CircleLayers(cx: seq<real>, cy: seq<real>, rs: seq<real>, values: seq<real>, exp: real -> real): (layers: seq<Layer>)
      requires Valid() && ExpLaws(exp)
      requires ZipLength(cx, cy, rs, values) > 0 ==> dL != 0.0
      ensures |layers| == ZipLength(cx, cy, rs, values)
      ensures Fits(layers, epsBackground.Length)
      ensures forall k, i :: 0 <= k < |layers| && 0 <= i < |layers[k].indicator| ==> 0.0 < layers[k].indicator[i] < 1.0
    {
      seq(ZipLength(cx, cy, rs, values), k requires 0 <= k < ZipLength(cx, cy, rs, values) =>
        Layer(Circle(xs, ys, cx[k], cy[k], rs[k], exp), values[k]))
    }

    /**
     * `Circle_Shapes.get_eps`: a copy of the background with each circle
     * blended over it in turn. The stored background is only read.
     */
    method GetEps(cx: seq<real>, cy: seq<real>, rs: seq<real>, values: seq<real>, exp: real -> real) returns (eps: seq<real>)
      requires Valid() && ExpLaws(exp)
      requires ZipLength(cx, cy, rs, values) > 0 ==> dL != 0.0
      ensures eps == Composite(epsBackground[..], CircleLayers(cx, cy, rs, values, exp))
      ensures |eps| == epsBackground.Length
      ensures ZipLength(cx, cy, rs, values) == 0 ==> eps == epsBackground[..]
    {
      ghost var layers := CircleLayers(cx, cy, rs, values, exp);
      eps := epsBackground[..];
      var k := 0;
      while k < |cx| && k < |cy| && k < |rs| && k < |values|
        invariant 0 <= k <= |layers|
        invariant eps == Composite(epsBackground[..], layers[..k])
      {
        var circle := Circle(xs, ys, cx[k], cy[k], rs[k], exp);
        eps := Blend(eps, Layer(circle, values[k]));
        CompositeStep(epsBackground[..], layers, k);
        k := k + 1;
      }
      assert layers[..k] == layers;
    }
  }

  /**
   * With the default strength, a circle's indicator is exactly 1/2 on its
   * boundary, above 1/2 strictly inside and below 1/2 strictly outside.
   */
  lemma CircleInsideOutside(shapes: CircleShapes, xs: seq<real>, ys: seq<real>, x: real, y: real, r: real,
                            exp: real -> real, i: nat)
    requires |xs| == |ys| && shapes.dL != 0.0 && ExpLaws(exp) && i < |xs|
    ensures var c := shapes.Circle(xs, ys, x, y, r, exp)[i];
            var d := Square(xs[i] - x) + Square(ys[i] - y);
            && (c == 0.5 <==> d == Square(r))
            && (c > 0.5 <==> d < Square(r))
            && (c < 0.5 <==> d > Square(r))
  {
    var t := EdgeArgument(DistFromEdge(xs[i], ys[i], x, y, r), shapes.dL);
    SigmoidSign(t, DEFAULT_STRENGTH, exp);
  }

  /**
   * Each cell of `get_eps`'s result lies between the smallest and the
   * largest of that cell's background value and the fill values drawn.
   */
  lemma GetEpsStaysBetween(shapes: CircleShapes, cx: seq<real>, cy: seq<real>, rs: seq<real>, values: seq<real>,
                           exp: real -> real, i: nat, lo: real, hi: real)
    requires shapes.Valid() && ExpLaws(exp)
    requires ZipLength(cx, cy, rs, values) > 0 ==> shapes.dL != 0.0
    requires i < shapes.epsBackground.Length && lo <= shapes.epsBackground[i] <= hi
    requires forall k :: 0 <= k < ZipLength(cx, cy, rs, values) ==> lo <= values[k] <= hi
    ensures lo <= Composite(shapes.epsBackground[..], shapes.CircleLayers(cx, cy, rs, values, exp))[i] <= hi
  {
    var layers := shapes.CircleLayers(cx, cy, rs, values, exp);
    CompositeStaysBetween(shapes.epsBackground[..], layers, i, lo, hi);
  }

  /**
   * Where a cell lies strictly inside the last circle drawn, `get_eps`
   * leaves it strictly closer to that circle's value than half the spread
   * of the background and fill values (and equal to it when there is no
   * spread): the last circle is on top, not averaged with what lies below.
   */
  lemma GetEpsLastCircleOnTop(shapes: CircleShapes, cx: seq<real>, cy: seq<real>, rs: seq<real>, values: seq<real>,
                              exp: real -> real, i: nat, lo: real, hi: real)
    requires shapes.Valid() && ExpLaws(exp)
    requires ZipLength(cx, cy, rs, values) > 0 && shapes.dL != 0.0
    requires i < shapes.epsBackground.Length && lo <= shapes.epsBackground[i] <= hi
    requires forall k :: 0 <= k < ZipLength(cx, cy, rs, values) ==> lo <= values[k] <= hi
    ensures var n := ZipLength(cx, cy, rs, values) - 1;
            var eps := Composite(shapes.epsBackground[..], shapes.CircleLayers(cx, cy, rs, values, exp));
            Square(shapes.xs[i] - cx[n]) + Square(shapes.ys[i] - cy[n]) < Square(rs[n]) ==>
              && (lo == hi ==> eps[i] == values[n])
              && (lo < hi ==> -Mul(0.5, hi - lo) < eps[i] - values[n] < Mul(0.5, hi - lo))
  {
    var n := ZipLength(cx, cy, rs, values) - 1;
    var layers := shapes.CircleLayers(cx, cy, rs, values, exp);
    if Square(shapes.xs[i] - cx[n]) + Square(shapes.ys[i] - cy[n]) < Square(rs[n]) {
      CircleInsideOutside(shapes, shapes.xs, shapes.ys, cx[n], cy[n], rs[n], exp, i);
      assert layers[n].indicator[i] > 0.5;
      CompositeOnTop(shapes.epsBackground[..], layers, i, lo, hi);
    }
  }
}
