/** The softened inverse-square pull shared by both simulators. */
module Gravity {
  import opened Vectors

  /** Softening length added to every distance, keeping the pull finite
      when two bodies meet. */
  const Softening: real := 0.001

  /** Cube of the softened distance for the displacement (rx, ry). */
  ghost function SoftCube(rx: real, ry: real): (d3: real)
    ensures 0.0 < d3
  {
    var d := Norm(rx, ry) + Softening;
    d * d * d
  }

  /** Acceleration at `q` due to a mass `m` at `c` with gravitational
      constant `G`: -G m / (r + Softening)^3 times the displacement q - c. */
  ghost function Pull(G: real, q: Vec, c: Vec, m: real): (f: Vec)
    ensures q == c ==> f == Zero
  {
    var rx := q.x - c.x;
    var ry := q.y - c.y;
    var comm := -G * m / SoftCube(rx, ry);
    Vec(comm * rx, comm * ry)
  }

  /** The pull is central and attractive: it lies along the line through
      the two points and, for non-negative G and m, points from `q`
      towards `c`. */
  lemma PullIsAttractive(G: real, q: Vec, c: Vec, m: real)
    ensures var f := Pull(G, q, c, m);
            && f.x * (q.y - c.y) == f.y * (q.x - c.x)
            && (0.0 <= G && 0.0 <= m ==> f.x * (q.x - c.x) + f.y * (q.y - c.y) <= 0.0)
  {
    var rx := q.x - c.x;
    var ry := q.y - c.y;
    var comm := -G * m / SoftCube(rx, ry);
    assert comm * rx * ry == comm * ry * rx;
    assert 0.0 <= G && 0.0 <= m ==> comm <= 0.0;
    assert comm * rx * rx + comm * ry * ry == comm * (rx * rx + ry * ry);
  }

  lemma SoftCubeOfReversed(rx: real, ry: real)
    ensures SoftCube(-rx, -ry) == SoftCube(rx, ry)
  {
    NormOfReversed(rx, ry);
  }

  /** Two equal masses pull each other with opposite accelerations. */
  lemma PullReversed(G: real, q: Vec, c: Vec, m: real)
    ensures Pull(G, c, q, m) == Neg(Pull(G, q, c, m))
  {
    SoftCubeOfReversed(q.x - c.x, q.y - c.y);
    assert c.x - q.x == -(q.x - c.x) && c.y - q.y == -(q.y - c.y);
  }
}
