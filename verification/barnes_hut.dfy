/** The Barnes-Hut force evaluator: the acceleration of one body computed
    by walking the quadtree, replacing a subtree by its aggregate whenever
    the subtree's box looks small enough from the body. */
module BarnesHut {
  import opened Vectors
  import opened Gravity
  import opened Quadtree

  /** The opening test: the box of node `t` is narrow compared with its
      distance from `q`, scaled by the approximation parameter `theta`. */
  ghost predicate FarEnough(t: Tree, q: Vec, theta: real): (far: bool)
    requires t.Node?
    ensures far && 0.0 <= t.half ==> 0.0 < theta && q != t.box
  {
    assert IsRoot(0.0, 0.0);
    t.half * 2.0 < theta * Norm(q.x - t.box.x, q.y - t.box.y)
  }

  /** Acceleration of a body at `q` due to the subtree `t`. An empty slot
      contributes nothing, an external node contributes its own pull (zero
      when it is the body itself), an internal node that passes the opening
      test contributes the pull of its aggregate, and any other internal
      node the sum over its children. */
  ghost function Force(G: real, q: Vec, t: Tree, theta: real): (f: Vec)
    ensures t.Empty? ==> f == Zero
    ensures IsExternal(t) && t.com == q ==> f == Zero
    ensures t.Node? && (IsExternal(t) || FarEnough(t, q, theta)) ==> f == Pull(G, q, t.com, t.mass)
    decreases t
  {
    match t
    case Empty => Zero
    case Node(c, _, m, _, nw, ne, sw, se) =>
      if IsExternal(t) || FarEnough(t, q, theta) then Pull(G, q, c, m)
      else Add(Add(Add(Force(G, q, sw, theta), Force(G, q, nw, theta)),
                   Force(G, q, se, theta)), Force(G, q, ne, theta))
  }

  /** An internal node that fails the opening test contributes the sum
      over its children, visited SW, NW, SE, NE. */
  lemma OpenedNode(G: real, q: Vec, t: Tree, theta: real)
    requires t.Node? && !IsExternal(t) && !FarEnough(t, q, theta)
    ensures Force(G, q, t, theta)
            == Add(Add(Add(Force(G, q, t.sw, theta), Force(G, q, t.nw, theta)),
                       Force(G, q, t.se, theta)), Force(G, q, t.ne, theta))
  {
  }

  /** The pull of each point mass in `bs` on a body at `q`. */
  ghost function Pulls(G: real, q: Vec, bs: seq<PointMass>): (fs: seq<Vec>)
    ensures |fs| == |bs|
  {
    seq(|bs|, i requires 0 <= i < |bs| => Pull(G, q, bs[i].pos, bs[i].mass))
  }

  /** Exact pairwise sum: the acceleration at `q` due to every point mass
      in `bs`. */
  ghost function Direct(G: real, q: Vec, bs: seq<PointMass>): Vec {
    Sum(Pulls(G, q, bs))
  }

  lemma DirectAppend(G: real, q: Vec, as_: seq<PointMass>, bs: seq<PointMass>)
    ensures Direct(G, q, as_ + bs) == Add(Direct(G, q, as_), Direct(G, q, bs))
  {
    assert Pulls(G, q, as_ + bs) == Pulls(G, q, as_) + Pulls(G, q, bs);
    SumAppend(Pulls(G, q, as_), Pulls(G, q, bs));
  }

  /** All half widths in the tree are non-negative. */
  predicate NonNegHalves(t: Tree) {
    match t
    case Empty => true
    case Node(_, _, _, h, nw, ne, sw, se) =>
      0.0 <= h && NonNegHalves(nw) && NonNegHalves(ne) && NonNegHalves(sw) && NonNegHalves(se)
  }

  /** With theta at most zero no internal node passes the opening test, so
      the traversal degenerates to the exact pairwise sum over every body
      stored in the tree. */
  lemma {:induction false} ExactWhenThetaZero(G: real, q: Vec, t: Tree, theta: real)
    requires theta <= 0.0 && NonNegHalves(t)
    ensures Force(G, q, t, theta) == Direct(G, q, Bodies(t))
    decreases t
  {
    match t
    case Empty =>
    case Node(c, _, m, _, nw, ne, sw, se) =>
      if IsExternal(t) {
        var fs := Pulls(G, q, Bodies(t));
        assert Bodies(t) == [PointMass(c, m)];
        assert fs[..0] == [];
        assert Sum(fs) == Add(Zero, fs[0]);
      } else {
        assert !FarEnough(t, q, theta) by {
          assert theta * Norm(q.x - t.box.x, q.y - t.box.y) <= 0.0;
        }
        ExactWhenThetaZero(G, q, sw, theta);
        ExactWhenThetaZero(G, q, nw, theta);
        ExactWhenThetaZero(G, q, se, theta);
        ExactWhenThetaZero(G, q, ne, theta);
        DirectAppend(G, q, Bodies(sw), Bodies(nw));
        DirectAppend(G, q, Bodies(sw) + Bodies(nw), Bodies(se));
        DirectAppend(G, q, Bodies(sw) + Bodies(nw) + Bodies(se), Bodies(ne));
      }
  }

  /** Every tree whose boxes are quarters of their parents' has
      non-negative half widths once the root's is. */
  lemma {:induction false} PlacedHalvesNonNeg(t: Tree)
    requires WellPlaced(t) && (t.Node? ==> 0.0 <= t.half)
    ensures NonNegHalves(t)
    decreases t
  {
    match t
    case Empty =>
    case Node(_, _, _, _, nw, ne, sw, se) =>
      PlacedHalvesNonNeg(nw);
      PlacedHalvesNonNeg(ne);
      PlacedHalvesNonNeg(sw);
      PlacedHalvesNonNeg(se);
  }

  /** Seen from a body far enough away, the whole tree of a time step acts
      as a single body holding the total mass at the mass-weighted mean
      position of all bodies. */
  lemma DistantTreeActsAsOneBody(G: real, q: Vec, cs: seq<Vec>, ms: seq<real>, fuel: nat, theta: real)
    requires |cs| == |ms| && 0 < |cs|
    requires forall i :: 0 <= i < |ms| ==> 0.0 < ms[i]
    requires Build(cs, ms, fuel).Placed?
    requires FarEnough(Build(cs, ms, fuel).tree, q, theta)
    ensures var t := Build(cs, ms, fuel).tree;
            && Force(G, q, t, theta) == Pull(G, q, t.com, MassSum(ms))
            && Moment(t.com, MassSum(ms)) == MomentSum(cs, ms)
  {
  }

  /** Any node of an aggregated tree that passes the opening test, not only
      the root, contributes the pull of the total mass of the bodies below
      it, placed at their mass-weighted mean position. */
  lemma FarNodeActsAsItsBodies(G: real, q: Vec, t: Tree, theta: real)
    requires t.Node? && Aggregated(t) && FarEnough(t, q, theta)
    ensures Force(G, q, t, theta) == Pull(G, q, t.com, TotalMass(Bodies(t)))
    ensures Moment(t.com, TotalMass(Bodies(t))) == TotalMoment(Bodies(t))
  {
    AggregatedTotals(t);
  }

  /** Taking one body out of the list takes its pull out of the sum. */
  lemma DirectRemove(G: real, q: Vec, xs: seq<PointMass>, j: nat)
    requires j < |xs|
    ensures Direct(G, q, xs)
            == Add(Direct(G, q, xs[..j] + xs[j + 1..]), Pull(G, q, xs[j].pos, xs[j].mass))
  {
    var y := xs[j];
    assert xs == xs[..j] + [y] + xs[j + 1..];
    DirectAppend(G, q, xs[..j] + [y], xs[j + 1..]);
    DirectAppend(G, q, xs[..j], [y]);
    DirectAppend(G, q, xs[..j], xs[j + 1..]);
    DirectSingle(G, q, y);
  }

  /** The exact sum does not depend on the order of the bodies. */
  lemma {:induction false} DirectPermutation(G: real, q: Vec, xs: seq<PointMass>, ys: seq<PointMass>)
    requires multiset(xs) == multiset(ys)
    ensures Direct(G, q, xs) == Direct(G, q, ys)
    decreases |ys|
  {
    if |ys| == 0 {
      assert |xs| == 0;
    } else {
      var n := |ys| - 1;
      var y := ys[n];
      assert y in multiset(xs);
      var j :| 0 <= j < |xs| && xs[j] == y;
      var xs' := xs[..j] + xs[j + 1..];
      assert xs == xs[..j] + [y] + xs[j + 1..];
      assert ys == ys[..n] + [y];
      assert multiset(xs') == multiset(xs) - multiset{y};
      assert multiset(ys[..n]) == multiset(ys) - multiset{y};
      DirectPermutation(G, q, xs', ys[..n]);
      DirectRemove(G, q, xs, j);
      DirectRemove(G, q, ys, n);
      assert ys[..n] + ys[n + 1..] == ys[..n];
    }
  }

  lemma DirectSingle(G: real, q: Vec, b: PointMass)
    ensures Direct(G, q, [b]) == Pull(G, q, b.pos, b.mass)
  {
    var fs := Pulls(G, q, [b]);
    assert fs[..0] == [];
    assert Sum(fs) == Add(Zero, fs[0]);
  }

  /** With theta at most zero, the force on a body from the tree of a time
      step is the exact sum of the pulls of all the step's bodies, as long
      as no body meets a box centre on its way down within the depth bound
      (otherwise the tree does not store it). */
  lemma ThetaZeroIsExactSum(G: real, q: Vec, cs: seq<Vec>, ms: seq<real>, fuel: nat, theta: real)
    requires |cs| == |ms| && theta <= 0.0
    requires forall i :: 0 <= i < |ms| ==> 0.0 < ms[i]
    requires forall i :: 0 <= i < |cs| ==> !HitsCentre(cs[i], Vec(0.5, 0.5), 0.5, fuel)
    ensures Build(cs, ms, fuel).Placed? ==>
              Force(G, q, Build(cs, ms, fuel).tree, theta) == Direct(G, q, PointMasses(cs, ms))
  {
    var r := Build(cs, ms, fuel);
    if r.Placed? {
      BuildIsWellFormed(cs, ms, fuel);
      PlacedHalvesNonNeg(r.tree);
      ExactWhenThetaZero(G, q, r.tree, theta);
      BuildStoresEveryBody(cs, ms, fuel);
      DirectPermutation(G, q, Bodies(r.tree), PointMasses(cs, ms));
    }
  }
}
