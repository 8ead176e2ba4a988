/** Two-dimensional vectors over the reals, and the square root used for
    distances. Both simulators store positions, velocities and forces as pairs
    of doubles; here they are exact reals, so IEEE rounding is not modelled. */
module Vectors {

  datatype Vec = Vec(x: real, y: real)

  const Zero: Vec := Vec(0.0, 0.0)

  function Add(a: Vec, b: Vec): Vec {
    Vec(a.x + b.x, a.y + b.y)
  }

  function Sub(a: Vec, b: Vec): Vec {
    Vec(a.x - b.x, a.y - b.y)
  }

  function Neg(a: Vec): Vec {
    Vec(-a.x, -a.y)
  }

  function Scale(k: real, a: Vec): Vec {
    Vec(k * a.x, k * a.y)
  }

  lemma AddZero(v: Vec)
    ensures Add(Zero, v) == v && Add(v, Zero) == v
  {
  }

  /** A common term cancels from both sides of a vector equation. */
  lemma AddCancel(a: Vec, b: Vec, o: Vec, m: Vec)
    requires Add(a, o) == Add(b, Add(o, m))
    ensures a == Add(b, m)
  {
  }

  /** Sum of a sequence of vectors, accumulated left to right from Zero. */
  function Sum(vs: seq<Vec>): Vec {
    if |vs| == 0 then Zero else Add(Sum(vs[..|vs| - 1]), vs[|vs| - 1])
  }

  lemma {:induction false} SumAppend(vs: seq<Vec>, ws: seq<Vec>)
    ensures Sum(vs + ws) == Add(Sum(vs), Sum(ws))
    decreases |ws|
  {
    if |ws| == 0 {
      assert vs + ws == vs;
    } else {
      var ws' := ws[..|ws| - 1];
      assert (vs + ws)[..|vs + ws| - 1] == vs + ws';
      SumAppend(vs, ws');
    }
  }

  /** A real is a non-negative square root of `s`. */
  ghost predicate IsRoot(w: real, s: real) {
    0.0 <= w && w * w == s
  }

  /** The non-negative square root of `s`, as `sqrt` of the C library is
      for non-negative arguments. Over the reals the root exists, but the
      prover cannot construct it, so the model states three facts: the
      value is non-negative, it squares back to `s` wherever a root exists,
      and it is 0 where none does (which over the reals means only a
      negative `s`, never the sum of squares `Norm` passes). */
  ghost function Sqrt(s: real): (r: real)
    ensures 0.0 <= r
    ensures (exists w :: IsRoot(w, s)) ==> r * r == s
    ensures !(exists w :: IsRoot(w, s)) ==> r == 0.0
  {
    if exists w :: IsRoot(w, s) then var w :| IsRoot(w, s); w else 0.0
  }

  /** Euclidean length of the displacement (dx, dy). */
  ghost function Norm(dx: real, dy: real): (r: real)
    ensures 0.0 <= r
  {
    Sqrt(dx * dx + dy * dy)
  }

  /** Reversing a displacement does not change its length. */
  lemma NormOfReversed(dx: real, dy: real)
    ensures Norm(-dx, -dy) == Norm(dx, dy)
  {
    assert (-dx) * (-dx) + (-dy) * (-dy) == dx * dx + dy * dy;
  }
}
