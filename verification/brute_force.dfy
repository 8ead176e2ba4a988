/** The O(N^2) reference simulator: every body is pulled by every other
    body, then velocities and positions are advanced. */
module BruteForce {
  import opened Vectors
  import opened Gravity

  datatype Body = Body(x: real, y: real, mass: real, vx: real, vy: real, brightness: real)

  function Position(b: Body): Vec {
    Vec(b.x, b.y)
  }

  /** The term the inner loop adds to the force on `a` for another body `b`:
      -G m_a m_b / (r + Softening)^3 times the displacement from b to a. */
  ghost function PairForce(G: real, a: Body, b: Body): (f: Vec)
    ensures Position(a) == Position(b) ==> f == Zero
  {
    var rx := a.x - b.x;
    var ry := a.y - b.y;
    var fabs := -G * a.mass * b.mass / SoftCube(rx, ry);
    Vec(fabs * rx, fabs * ry)
  }

  /** The pair term is the pull of `b` scaled by the mass of `a`. */
  lemma PairForceIsScaledPull(G: real, a: Body, b: Body)
    ensures PairForce(G, a, b) == Scale(a.mass, Pull(G, Position(a), Position(b), b.mass))
  {
    var rx := a.x - b.x;
    var ry := a.y - b.y;
    var d := SoftCube(rx, ry);
    var u := -G * b.mass / d;
    assert u * d == -G * b.mass;
    assert -G * a.mass * b.mass / d == a.mass * u;
  }

  /** The term added to the force on `a` for `b` is the opposite of the
      term added to the force on `b` for `a`. */
  lemma PairForceAntisymmetric(G: real, a: Body, b: Body)
    ensures PairForce(G, a, b) == Neg(PairForce(G, b, a))
  {
    SoftCubeOfReversed(a.x - b.x, a.y - b.y);
    assert b.x - a.x == -(a.x - b.x) && b.y - a.y == -(a.y - b.y);
    assert -G * a.mass * b.mass == -G * b.mass * a.mass;
  }

  /** The force on body i after the inner loop has run over j = 0 .. n-1,
      starting from zero and skipping j == i. */
  ghost function RowForce(G: real, B: seq<Body>, i: nat, n: nat): Vec
    requires i < |B| && n <= |B|
    decreases n
  {
    if n == 0 then Zero
    else if n - 1 == i then RowForce(G, B, i, n - 1)
    else Add(RowForce(G, B, i, n - 1), PairForce(G, B[i], B[n - 1]))
  }

  /** The force array after both loops of the force phase. */
  ghost function Forces(G: real, B: seq<Body>): (F: seq<Vec>)
    ensures |F| == |B|
  {
    seq(|B|, i requires 0 <= i < |B| => RowForce(G, B, i, |B|))
  }

  /** The update of one body under force `f`: the acceleration is the
      force over the body's own mass, the velocity is advanced first and the
      position moves by the new velocity. Mass and brightness are carried
      over. */
  function Advance(b: Body, f: Vec, dt: real): (b': Body)
    requires b.mass != 0.0
    ensures b'.mass == b.mass && b'.brightness == b.brightness
    ensures b'.vx - b.vx == dt * (f.x / b.mass) && b'.vy - b.vy == dt * (f.y / b.mass)
    ensures b'.x - b.x == dt * b'.vx && b'.y - b.y == dt * b'.vy
  {
    var ax := f.x / b.mass;
    var ay := f.y / b.mass;
    var vx := b.vx + dt * ax;
    var vy := b.vy + dt * ay;
    Body(b.x + dt * vx, b.y + dt * vy, b.mass, vx, vy, b.brightness)
  }

  /** Written out, the position advances by dt times the old velocity plus
      dt^2 times the acceleration. */
  lemma AdvanceDisplacement(b: Body, f: Vec, dt: real)
    requires b.mass != 0.0
    ensures Advance(b, f, dt).x == b.x + dt * b.vx + dt * dt * (f.x / b.mass)
    ensures Advance(b, f, dt).y == b.y + dt * b.vy + dt * dt * (f.y / b.mass)
  {
  }

  /** One time step: all forces are computed from the positions before the
      step, then every body is advanced by its own force. */
  ghost function Step(G: real, dt: real, B: seq<Body>): (B': seq<Body>)
    requires forall i :: 0 <= i < |B| ==> B[i].mass != 0.0
    ensures |B'| == |B|
    ensures forall i :: 0 <= i < |B| ==> B'[i] == Advance(B[i], Forces(G, B)[i], dt)
  {
    var F := Forces(G, B);
    seq(|B|, i requires 0 <= i < |B| => Advance(B[i], F[i], dt))
  }

  // ---------------------------------------------------------------------
  // The self term is skipped

  /** The pair terms on a body `b` from each body of `others`. */
  ghost function PairsOn(G: real, b: Body, others: seq<Body>): (fs: seq<Vec>)
    ensures |fs| == |others|
  {
    seq(|others|, k requires 0 <= k < |others| => PairForce(G, b, others[k]))
  }

  /** After the inner loop has run over the first n bodies, the force on
      body i is the sum of the pair terms from those bodies, body i itself
      taken out. */
  lemma {:induction false} RowForceOverOthers(G: real, B: seq<Body>, i: nat, n: nat)
    requires i < |B| && n <= |B|
    ensures n <= i ==> RowForce(G, B, i, n) == Sum(PairsOn(G, B[i], B[..n]))
    ensures i < n ==> RowForce(G, B, i, n) == Sum(PairsOn(G, B[i], B[..i] + B[i + 1..n]))
    decreases n
  {
    if n == 0 {
    } else if n - 1 == i {
      RowForceOverOthers(G, B, i, n - 1);
      assert B[..i] + B[i + 1..n] == B[..i];
    } else {
      RowForceOverOthers(G, B, i, n - 1);
      if n <= i {
        SumPairsSnoc(G, B[i], B[..n]);
        assert B[..n][..n - 1] == B[..n - 1];
      } else {
        var os := B[..i] + B[i + 1..n];
        assert B[i + 1..n] == B[i + 1..n - 1] + [B[n - 1]];
        assert os == (B[..i] + B[i + 1..n - 1]) + [B[n - 1]];
        SumPairsSnoc(G, B[i], os);
      }
    }
  }

  /** The sum of pair terms over a list ends with the term of its last body. */
  lemma SumPairsSnoc(G: real, b: Body, os: seq<Body>)
    requires 0 < |os|
    ensures Sum(PairsOn(G, b, os))
            == Add(Sum(PairsOn(G, b, os[..|os| - 1])), PairForce(G, b, os[|os| - 1]))
  {
    var fs := PairsOn(G, b, os);
    assert fs[..|fs| - 1] == PairsOn(G, b, os[..|os| - 1]);
  }

  /** The force on a body is the sum of the pair terms from all the other
      bodies, the body itself taken out of the list. */
  lemma ForceSkipsSelf(G: real, B: seq<Body>, i: nat)
    requires i < |B|
    ensures Forces(G, B)[i] == Sum(PairsOn(G, B[i], B[..i] + B[i + 1..]))
  {
    RowForceOverOthers(G, B, i, |B|);
    assert B[i + 1..|B|] == B[i + 1..];
  }

  // ---------------------------------------------------------------------
  // The pair terms cancel

  /** The terms contributed by body k to the forces on bodies 0 .. m-1. */
  ghost function ColumnForce(G: real, B: seq<Body>, k: nat, m: nat): Vec
    requires k < |B| && m <= |B|
    decreases m
  {
    if m == 0 then Zero
    else if m - 1 == k then ColumnForce(G, B, k, m - 1)
    else Add(ColumnForce(G, B, k, m - 1), PairForce(G, B[m - 1], B[k]))
  }

  /** Sum of the forces on bodies 0 .. m-1 when the inner loop has run over
      j = 0 .. n-1. */
  ghost function RowsForce(G: real, B: seq<Body>, m: nat, n: nat): Vec
    requires m <= |B| && n <= |B|
    decreases m
  {
    if m == 0 then Zero else Add(RowsForce(G, B, m - 1, n), RowForce(G, B, m - 1, n))
  }

  lemma {:induction false} RowIsNegatedColumn(G: real, B: seq<Body>, k: nat, m: nat)
    requires k < |B| && m <= |B|
    ensures RowForce(G, B, k, m) == Neg(ColumnForce(G, B, k, m))
    decreases m
  {
    if m > 0 {
      RowIsNegatedColumn(G, B, k, m - 1);
      PairForceAntisymmetric(G, B[k], B[m - 1]);
    }
  }

  lemma {:induction false} RowsGrow(G: real, B: seq<Body>, m: nat, k: nat)
    requires m <= k < |B|
    ensures RowsForce(G, B, m, k + 1) == Add(RowsForce(G, B, m, k), ColumnForce(G, B, k, m))
    decreases m
  {
    if m > 0 {
      RowsGrow(G, B, m - 1, k);
    }
  }

  lemma {:induction false} SquareCancels(G: real, B: seq<Body>, k: nat)
    requires k <= |B|
    ensures RowsForce(G, B, k, k) == Zero
    decreases k
  {
    if k > 0 {
      var j := k - 1;
      SquareCancels(G, B, j);
      RowsGrow(G, B, j, j);
      RowIsNegatedColumn(G, B, j, j);
    }
  }

  lemma {:induction false} SumOfRows(G: real, B: seq<Body>, m: nat)
    requires m <= |B|
    ensures Sum(Forces(G, B)[..m]) == RowsForce(G, B, m, |B|)
    decreases m
  {
    if m > 0 {
      SumOfRows(G, B, m - 1);
      assert Forces(G, B)[..m][..m - 1] == Forces(G, B)[..m - 1];
    }
  }

  /** Pairwise terms cancel, so the forces on all bodies add up to zero. */
  lemma NetForceZero(G: real, B: seq<Body>)
    ensures Sum(Forces(G, B)) == Zero
  {
    SumOfRows(G, B, |B|);
    SquareCancels(G, B, |B|);
    assert Forces(G, B)[..|B|] == Forces(G, B);
  }

  // ---------------------------------------------------------------------
  // Momentum

  function Momentum(b: Body): Vec {
    Vec(b.mass * b.vx, b.mass * b.vy)
  }

  function Momenta(B: seq<Body>): (ps: seq<Vec>)
    ensures |ps| == |B| && forall i :: 0 <= i < |B| ==> ps[i] == Momentum(B[i])
  {
    seq(|B|, i requires 0 <= i < |B| => Momentum(B[i]))
  }

  lemma RegroupScaled(a: Vec, b: Vec, p: Vec, f: Vec, dt: real)
    ensures Add(Add(a, Scale(dt, b)), Add(p, Scale(dt, f))) == Add(Add(a, p), Scale(dt, Add(b, f)))
  {
    assert dt * (b.x + f.x) == dt * b.x + dt * f.x;
    assert dt * (b.y + f.y) == dt * b.y + dt * f.y;
  }

  lemma {:induction false} SumOfStepped(ps: seq<Vec>, qs: seq<Vec>, fs: seq<Vec>, dt: real)
    requires |ps| == |qs| == |fs|
    requires forall i :: 0 <= i < |ps| ==> qs[i] == Add(ps[i], Scale(dt, fs[i]))
    ensures Sum(qs) == Add(Sum(ps), Scale(dt, Sum(fs)))
    decreases |ps|
  {
    if |ps| > 0 {
      var n := |ps| - 1;
      SumOfStepped(ps[..n], qs[..n], fs[..n], dt);
      var a := Sum(ps[..n]);
      var b := Sum(fs[..n]);
      var c := Sum(qs[..n]);
      assert c == Add(a, Scale(dt, b));
      assert Sum(qs) == Add(c, qs[n]);
      assert Sum(ps) == Add(a, ps[n]);
      assert Sum(fs) == Add(b, fs[n]);
      assert qs[n] == Add(ps[n], Scale(dt, fs[n]));
      RegroupScaled(a, b, ps[n], fs[n], dt);
    }
  }

  /** A kick by force f changes the momentum m v by dt f. */
  lemma MomentumKick(m: real, v: real, f: real, dt: real)
    requires m != 0.0
    ensures m * (v + dt * (f / m)) == m * v + dt * f
  {
    assert m * (dt * (f / m)) == dt * f;
  }

  /** Advancing a body by force f changes its momentum by dt f. */
  lemma AdvanceMomentum(b: Body, f: Vec, dt: real)
    requires b.mass != 0.0
    ensures Momentum(Advance(b, f, dt)) == Add(Momentum(b), Scale(dt, f))
  {
    MomentumKick(b.mass, b.vx, f.x, dt);
    MomentumKick(b.mass, b.vy, f.y, dt);
  }

  /** Each body's momentum changes by dt times the force on it. */
  lemma MomentaKicked(G: real, dt: real, B: seq<Body>)
    requires forall i :: 0 <= i < |B| ==> B[i].mass != 0.0
    ensures forall i :: 0 <= i < |B| ==>
              Momenta(Step(G, dt, B))[i] == Add(Momenta(B)[i], Scale(dt, Forces(G, B)[i]))
  {
    var F := Forces(G, B);
    forall i | 0 <= i < |B|
      ensures Momenta(Step(G, dt, B))[i] == Add(Momenta(B)[i], Scale(dt, F[i]))
    {
      AdvanceMomentum(B[i], F[i], dt);
    }
  }

  /** Since the forces cancel, a step leaves the total momentum unchanged. */
  lemma MomentumConserved(G: real, dt: real, B: seq<Body>)
    requires forall i :: 0 <= i < |B| ==> B[i].mass != 0.0
    ensures Sum(Momenta(Step(G, dt, B))) == Sum(Momenta(B))
  {
    MomentaKicked(G, dt, B);
    SumOfStepped(Momenta(B), Momenta(Step(G, dt, B)), Forces(G, B), dt);
    NetForceZero(G, B);
  }
}
