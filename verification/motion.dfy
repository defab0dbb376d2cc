/**
  The mean of the constant-velocity state estimator of one track: the state
  [x, y, s, r, vx, vy, vs] (centre, area, aspect, and the velocities of
  centre and area), its one-frame transition F, and the area-velocity guard
  applied before each prediction.
 */
module Motion {
  import opened Geometry

  datatype Mean = Mean(x: real, y: real, s: real, r: real, vx: real, vy: real, vs: real)

  /** The state as the column vector the filter works on. */
  function AsVector(m: Mean): (v: seq<real>)
    ensures |v| == 7
  {
    [m.x, m.y, m.s, m.r, m.vx, m.vy, m.vs]
  }

  /** The transition matrix: each velocity is added to its position; aspect has none. */
  const F: seq<seq<real>> := [
    [1.0, 0.0, 0.0, 0.0, 1.0, 0.0, 0.0],
    [0.0, 1.0, 0.0, 0.0, 0.0, 1.0, 0.0],
    [0.0, 0.0, 1.0, 0.0, 0.0, 0.0, 1.0],
    [0.0, 0.0, 0.0, 1.0, 0.0, 0.0, 0.0],
    [0.0, 0.0, 0.0, 0.0, 1.0, 0.0, 0.0],
    [0.0, 0.0, 0.0, 0.0, 0.0, 1.0, 0.0],
    [0.0, 0.0, 0.0, 0.0, 0.0, 0.0, 1.0]
  ]

  function Dot7(a: seq<real>, b: seq<real>): real
    requires |a| == 7 && |b| == 7
  {
    a[0] * b[0] + a[1] * b[1] + a[2] * b[2] + a[3] * b[3]
      + a[4] * b[4] + a[5] * b[5] + a[6] * b[6]
  }

  /** Matrix-vector product for a 7 x 7 matrix. */
  function Apply(mat: seq<seq<real>>, v: seq<real>): (w: seq<real>)
    requires IsMatrix(mat, 7, 7) && |v| == 7
    ensures |w| == 7
  {
    seq(7, i requires 0 <= i < 7 => Dot7(mat[i], v))
  }

  /** One step of the constant-velocity model, agreeing with the product F x. */
  function Transition(m: Mean): (n: Mean)
    ensures AsVector(n) == Apply(F, AsVector(m))
  {
    Mean(m.x + m.vx, m.y + m.vy, m.s + m.vs, m.r, m.vx, m.vy, m.vs)
  }

  /**
    The mean after `predict`: when the area would not stay positive under the
    current area velocity, that velocity is zeroed first; then F is applied.
   */
  function PredictMean(m: Mean): (n: Mean)
    ensures n.x == m.x + m.vx && n.y == m.y + m.vy && n.r == m.r
    ensures n.vx == m.vx && n.vy == m.vy
    ensures m.s + m.vs <= 0.0 ==> n.vs == 0.0
    ensures m.s + m.vs > 0.0 ==> n.vs == m.vs
    ensures n.s == m.s + n.vs
    ensures n.s > 0.0 <==> m.s > 0.0 || m.s + m.vs > 0.0
  {
    var g := if m.vs + m.s <= 0.0 then m.(vs := m.vs * 0.0) else m;
    Transition(g)
  }

  /** The mean of a freshly created track: the observation, velocities at rest. */
  function InitialMean(z: Z): (m: Mean)
    ensures Observed(m) == z
    ensures m.vx == 0.0 && m.vy == 0.0 && m.vs == 0.0
  {
    Mean(z.x, z.y, z.s, z.r, 0.0, 0.0, 0.0)
  }

  /** The observed part of the state, [x, y, s, r]. */
  function Observed(m: Mean): Z {
    Z(m.x, m.y, m.s, m.r)
  }

  /**
    Converting a mean to corner form takes the square root of s * r and divides
    the area by it; the result has a non-finite coordinate (NaN or infinity)
    exactly when s * r is not positive.
   */
  predicate Degenerate(m: Mean) {
    m.s * m.r <= 0.0
  }
}
