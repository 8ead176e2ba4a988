/** The two simulators agree: with theta at most zero, the Barnes-Hut
    traversal of the threaded simulator gives every body the acceleration
    whose mass multiple is the force the brute-force simulator computes. */
module Agreement {
  import opened Vectors
  import opened Gravity
  import opened Quadtree
  import opened BarnesHut
  import BruteForce

  /** The point masses of the brute-force bodies, in index order. */
  function BodyMasses(B: seq<BruteForce.Body>): (ps: seq<PointMass>)
    ensures |ps| == |B|
    ensures forall i :: 0 <= i < |B| ==> ps[i] == PointMass(BruteForce.Position(B[i]), B[i].mass)
  {
    seq(|B|, i requires 0 <= i < |B| => PointMass(BruteForce.Position(B[i]), B[i].mass))
  }

  lemma ScaleAdd(m: real, u: Vec, v: Vec)
    ensures Scale(m, Add(u, v)) == Add(Scale(m, u), Scale(m, v))
  {
    assert m * (u.x + v.x) == m * u.x + m * v.x;
    assert m * (u.y + v.y) == m * u.y + m * v.y;
  }

  /** The brute-force pair terms on `b` add up to the mass of `b` times the
      exact sum of the pulls of the same bodies. */
  lemma {:induction false} PairsAreScaledDirect(G: real, b: BruteForce.Body, os: seq<BruteForce.Body>)
    ensures Sum(BruteForce.PairsOn(G, b, os))
            == Scale(b.mass, Direct(G, BruteForce.Position(b), BodyMasses(os)))
    decreases |os|
  {
    var q := BruteForce.Position(b);
    if |os| == 0 {
      assert BodyMasses(os) == [];
      assert Pulls(G, q, []) == [];
    } else {
      var n := |os| - 1;
      var o := os[n];
      var p := PointMass(BruteForce.Position(o), o.mass);
      PairsAreScaledDirect(G, b, os[..n]);
      BruteForce.SumPairsSnoc(G, b, os);
      BruteForce.PairForceIsScaledPull(G, b, o);
      assert BodyMasses(os) == BodyMasses(os[..n]) + [p];
      DirectAppend(G, q, BodyMasses(os[..n]), [p]);
      DirectSingle(G, q, p);
      ScaleAdd(b.mass, Direct(G, q, BodyMasses(os[..n])), Pull(G, q, p.pos, p.mass));
    }
  }

  /** The brute-force force on body i is its mass times the exact sum of
      the pulls of all bodies, its own included: the self pull is zero. */
  lemma BruteForceIsScaledDirect(G: real, B: seq<BruteForce.Body>, i: nat)
    requires i < |B|
    ensures BruteForce.Forces(G, B)[i]
            == Scale(B[i].mass, Direct(G, BruteForce.Position(B[i]), BodyMasses(B)))
  {
    var q := BruteForce.Position(B[i]);
    var xs := BodyMasses(B);
    BruteForce.ForceSkipsSelf(G, B, i);
    PairsAreScaledDirect(G, B[i], B[..i] + B[i + 1..]);
    assert xs[..i] + xs[i + 1..] == BodyMasses(B[..i] + B[i + 1..]);
    DirectRemove(G, q, xs, i);
    AddZero(Direct(G, q, xs[..i] + xs[i + 1..]));
  }

  /** With theta at most zero, and no body meeting a box centre on its way
      down within the depth bound, a completed tree gives every body an
      acceleration whose mass multiple is exactly the brute-force force on
      it. */
  lemma ThetaZeroMatchesBruteForce(G: real, B: seq<BruteForce.Body>, fuel: nat, theta: real, i: nat)
    requires i < |B| && theta <= 0.0
    requires forall j :: 0 <= j < |B| ==> 0.0 < B[j].mass
    requires forall j :: 0 <= j < |B| ==> !HitsCentre(BruteForce.Position(B[j]), Vec(0.5, 0.5), 0.5, fuel)
    ensures var cs := seq(|B|, j requires 0 <= j < |B| => BruteForce.Position(B[j]));
            var ms := seq(|B|, j requires 0 <= j < |B| => B[j].mass);
            Build(cs, ms, fuel).Placed? ==>
              Scale(B[i].mass, Force(G, cs[i], Build(cs, ms, fuel).tree, theta))
              == BruteForce.Forces(G, B)[i]
  {
    var cs := seq(|B|, j requires 0 <= j < |B| => BruteForce.Position(B[j]));
    var ms := seq(|B|, j requires 0 <= j < |B| => B[j].mass);
    assert PointMasses(cs, ms) == BodyMasses(B);
    ThetaZeroIsExactSum(G, cs[i], cs, ms, fuel, theta);
    BruteForceIsScaledDirect(G, B, i);
  }

  /** When moreover each body parts from every earlier one within the depth
      bound, the tree is complete, so the agreement holds outright. */
  lemma PartedBodiesMatchBruteForce(G: real, B: seq<BruteForce.Body>, fuel: nat, theta: real, i: nat)
    requires i < |B| && theta <= 0.0
    requires forall j :: 0 <= j < |B| ==> 0.0 < B[j].mass
    requires forall j :: 0 <= j < |B| ==> !HitsCentre(BruteForce.Position(B[j]), Vec(0.5, 0.5), 0.5, fuel)
    requires forall j, l :: 0 <= j < l < |B| ==>
               Parts(BruteForce.Position(B[j]), BruteForce.Position(B[l]), Vec(0.5, 0.5), 0.5, fuel)
    ensures var cs := seq(|B|, j requires 0 <= j < |B| => BruteForce.Position(B[j]));
            var ms := seq(|B|, j requires 0 <= j < |B| => B[j].mass);
            && Build(cs, ms, fuel).Placed?
            && Scale(B[i].mass, Force(G, cs[i], Build(cs, ms, fuel).tree, theta))
               == BruteForce.Forces(G, B)[i]
  {
    var cs := seq(|B|, j requires 0 <= j < |B| => BruteForce.Position(B[j]));
    var ms := seq(|B|, j requires 0 <= j < |B| => B[j].mass);
    BuildCompletes(cs, ms, fuel);
    ThetaZeroMatchesBruteForce(G, B, fuel, theta, i);
  }
}
