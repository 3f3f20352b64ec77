# ceviche parameterizations, modelled in Dafny

This project models the parameterization layer of ceviche (`ceviche/parameterizations.py`).
That layer turns optimisation parameters into a permittivity field on a simulation grid:

- **Density topology** (`Param_Topology`): every cell's density is interpolated linearly between
  free space (permittivity 1) and `eps_max`. This happens only where the design region is 1.
  Where the design region is 0, the background is kept.
- **Smooth boundary indicator** (`Param_Shape.sigmoid`): a logistic function evaluated in a split,
  sign-dependent form. Its two branches are combined through 0/1 masks.
- **Circle rendering** (`Circle_Shapes`): each circle's squared distance from its edge, scaled by
  `dL^2`, is passed through the sigmoid. The circles are then alpha-blended over a copy of the
  background, one after the other in input order.
- **Not-implemented variants**: `Param_Base`, `Param_Shape` and `Param_LevelSet` raise
  `NotImplementedError` from `get_eps`.

Grids are flattened to `seq<real>`, one entry per cell. Every operation is element-wise, so the
properties are stated per cell.

Numbers are Dafny `real`s. The exponential is foreign code, so it is a parameter `exp: real -> real`.
The ghost predicate `Numerics.ExpLaws` constrains it:

- `exp(0) = 1`;
- `exp` is positive;
- `exp` is strictly increasing;
- `exp(a) * exp(-a) = 1`.

The lemma `Numerics.ExpLawsSatisfiable` exhibits a function that meets these laws, so the
preconditions that assume them are consistent.

`Circle_Shapes` is a class. Its fields `epsBackground`, `dL`, `xs` and `ys` are set by the
constructor and never reassigned, so they are `const`. The background is an `array<real>` held by
reference, just as the caller's numpy array is. `GetEps` has no `modifies` clause, so the verifier
guarantees that it leaves the stored background untouched. Its loop blends one circle per iteration
into a local copy. The loop is proved against the specification function `Circles.Composite`.

Modules: `Numerics` (exp laws, boolean masks, arithmetic helpers), `Topology`, `Shape`, `Circles`,
`Variants` (the `get_eps` dispatch).

The code does not validate its inputs, and the model follows it:

- A design-region cell that is neither 0 nor 1 falls into neither mask. The code yields 0 there and
  does not report an error.
- Circle sequences of unequal lengths are not rejected. `zip` stops at the shortest, and
  `Circles.ZipLength` is that length.

## Model

| member | source | states |
|---|---|---|
| Numerics.Mask | ceviche/parameterizations.py:50-51 | `x * (x >= 0)` and `x * (x < 0)` keep `x` where the mask holds and give 0 elsewhere |
| Topology.Density2Eps | ceviche/parameterizations.py:23-25 | density 0 maps to permittivity 1 (free space) and density 1 maps to `eps_max` |
| Topology.Density2EpsBounds | ceviche/parameterizations.py:24-25 | for density in [0, 1] and `eps_max >= 1` the permittivity lies in [1, eps_max] |
| Topology.Density2EpsMonotone | ceviche/parameterizations.py:24-25 | for `eps_max >= 1` a higher density never gives a lower permittivity |
| Topology.GetEps | ceviche/parameterizations.py:27-34 | output has the input's length; cells with region 0 are the background whatever the density; cells with region 1 are `_density2eps` of their density; any other region value gives 0 |
| Topology.GetEpsPartition | ceviche/parameterizations.py:31-34 | on a binary region with densities in [0, 1], design cells lie in [1, eps_max] and background cells equal the background, independently of the densities there |
| Shape.Sigmoid | ceviche/parameterizations.py:47-53 | the split-form indicator lies strictly between 0 and 1 |
| Shape.SigmoidBranches | ceviche/parameterizations.py:50-53 | exactly one branch is active: `1/(1+exp(-x*s))` for `x >= 0`, `exp(x*s)/(1+exp(x*s))` for `x < 0` |
| Shape.SigmoidAtZero | ceviche/parameterizations.py:47-53 | the indicator is 1/2 at 0 for every strength |
| Shape.SigmoidSymmetry | ceviche/parameterizations.py:50-53 | `sigmoid(-x) = 1 - sigmoid(x)` |
| Shape.SigmoidIsLogistic | ceviche/parameterizations.py:50-53 | the split form equals the plain logistic `1/(1+exp(-x*s))` for every `x` |
| Shape.SigmoidSign | ceviche/parameterizations.py:47-53 | for positive strength the indicator is above, at or below 1/2 exactly when `x` is positive, zero or negative |
| Shape.SigmoidMonotone | ceviche/parameterizations.py:47-53 | for positive strength the indicator is strictly increasing in `x` |
| Circles.EdgeArgument | ceviche/parameterizations.py:65-66 | `-dist_from_edge / dL^2` is positive, zero or negative exactly when the distance from the edge is negative, zero or positive |
| Circles.ZipLength | ceviche/parameterizations.py:71 | `zip` yields as many tuples as the shortest of the four sequences |
| Circles.Blend | ceviche/parameterizations.py:73 | one blend step keeps the field's length; where the indicator is 1 the cell becomes the circle's value, where it is 0 the cell is unchanged |
| Circles.Composite | ceviche/parameterizations.py:70-73 | blending a sequence of circles over the background, first to last, keeps the background's length |
| Circles.CompositeStaysBetween | ceviche/parameterizations.py:71-73 | with indicators in [0, 1], every cell stays between the min and max of its background value and the fill values |
| Circles.BlendTowards | ceviche/parameterizations.py:73 | one blend step shrinks a cell's distance from the circle's value by the factor `1 - circle` at that cell |
| Circles.CompositeLastWins | ceviche/parameterizations.py:71-73 | with indicators in [0, 1] and all values in [lo, hi], each cell of the composite is within `(1 - c) * (hi - lo)` of the last circle's value, `c` being that circle's indicator there |
| Circles.CompositeOnTop | ceviche/parameterizations.py:71-73 | where the last layer's indicator exceeds 1/2 and all values lie in [lo, hi], the cell is strictly within half the spread of that layer's value (equal to it when the spread is 0), so it is not an even average with the field below |
| Circles.CompositeOverwrite | ceviche/parameterizations.py:71-73 | a circle whose indicator is exactly 1 at a cell erases there the background and every earlier circle |
| Circles.CompositeTopmost | ceviche/parameterizations.py:71-73 | where circle `j` has indicator exactly 1 and every later circle has indicator exactly 0 at the cell, the cell holds circle `j`'s value |
| Circles.CircleShapes.constructor | ceviche/parameterizations.py:57-61 | stores the background by reference, `dL` and the grid coordinates, which have the background's shape |
| Circles.CircleShapes.Circle | ceviche/parameterizations.py:63-66 | one indicator per grid cell, each strictly between 0 and 1 |
| Circles.CircleShapes.CircleLayers | ceviche/parameterizations.py:71-72 | one rendered circle per tuple of the zip, in input order, each covering the whole grid with indicators in (0, 1) |
| Circles.CircleShapes.GetEps | ceviche/parameterizations.py:68-74 | the result is the background with the zipped circles blended over it in input order; with no circles it equals the background; it has the background's length |
| Circles.CircleInsideOutside | ceviche/parameterizations.py:63-66 | with the default strength the indicator is exactly 1/2 on the circle, above 1/2 strictly inside and below 1/2 strictly outside |
| Circles.GetEpsStaysBetween | ceviche/parameterizations.py:68-74 | every cell of `get_eps`'s result lies between the min and max of its background value and the drawn fill values |
| Circles.GetEpsLastCircleOnTop | ceviche/parameterizations.py:68-74 | a cell strictly inside the last circle drawn ends strictly within half the spread of the background and fill values of that circle's value (equal to it when the spread is 0), so the last circle is on top rather than averaged with the field below |
| Variants.GetEps | ceviche/parameterizations.py:12-85 | only `Param_Topology` returns a field (that of `Topology.GetEps`); `Param_Base`, `Param_Shape` and `Param_LevelSet` return the not-implemented error with its message, whatever the arguments |

## Left out

- Automatic differentiation (`autograd`, `primitive`, `defvjp`): gradients are not modelled.
- Floating point: the model uses exact reals, so it does not capture overflow, underflow or NaN. NaN would arise from `inf * 0` in a mask or from `dL = 0`. The numerical-stability rationale for the split sigmoid is therefore not captured either; the model proves only that the split form is algebraically the logistic function.
- `exp` is a parameter constrained by `ExpLaws`, not the real exponential. Limits (the indicator tends to 1 or 0 as `x` grows or falls) and quantitative bounds such as "above 0.99 a few cells inside the circle" need more than these laws and are not stated. The 1/2 threshold is proved instead.
- Circles.CircleShapes.GetEps: requires `dL != 0` when at least one circle is drawn; so do Circles.EdgeArgument, Circles.CircleShapes.Circle and Circles.CircleShapes.CircleLayers. The source would divide by zero there, which Dafny's reals cannot represent.
- Circles.CompositeOverwrite and Circles.CompositeTopmost: their premises (an indicator of exactly 1, later indicators of exactly 0) describe a hard-edged layer; a rendered circle's indicator lies strictly between 0 and 1 in exact reals, so for circles the ordering is stated by Circles.CompositeLastWins and Circles.GetEpsLastCircleOnTop instead.
- `grid_coords` and `circ2eps` from `ceviche.utils` are not part of this model. The coordinates that `grid_coords` would compute are passed to the constructor and must have the background's shape.
- Numpy broadcasting and N-dimensional shapes: all arrays of one call have the same length, and grids are flattened.
- `Circle_Shapes.get_eps` returns its field as a `seq<real>` value rather than as a freshly allocated array.
- `Param_Topology.__init__` and `Param_LevelSet.__init__` pass `self` twice to the base constructor and would fail if called. `Param_Base.__init__` and `Param_Shape.__init__` do nothing. `get_eps` of the topology and level-set classes is a class method, so none of these constructors matters to the model.
- The `__main__` example is illustrative and not modelled.
