/** A worked two-body time step of the Barnes-Hut simulator: unit masses at
    (0.3, 0.3) and (0.7, 0.7), at rest, theta 0.5, so G = 100 / 2 = 50. */
module Scenarios {
  import opened Vectors
  import opened Gravity
  import opened Quadtree
  import opened BarnesHut
  import opened Simulation

  const P0: Vec := Vec(0.3, 0.3)
  const P1: Vec := Vec(0.7, 0.7)

  /** The tree of the two bodies: the root is split once, the first body
      going to the SW child and the second to the NE child. */
  function PairRoot(): Tree {
    Node(Vec(0.5, 0.5), Vec(0.5, 0.5), 2.0, 0.5,
         Empty,
         Node(P1, Vec(0.75, 0.75), 1.0, 0.25, Empty, Empty, Empty, Empty),
         Node(P0, Vec(0.25, 0.25), 1.0, 0.25, Empty, Empty, Empty, Empty),
         Empty)
  }

  lemma PairInsert(a: Tree, b: Tree)
    requires a == NewNode(P0, 1.0) && b == NewNode(P1, 1.0)
    ensures Insert(a, b, 1) == Placed(PairRoot())
  {
    assert Merge(a.com, 1.0, b.com, 1.0) == Vec(0.5, 0.5);
    var split := WithChild(Absorb(a, b.com, b.mass), SW, SplitChild(a, SW));
    var b' := b.(half := 0.25);
    assert Insert(a, b, 1) == PushDown(split, b', 1);
    assert Insert(Empty, b'.(box := ChildCentre(split.box, NE, 0.25)), 0)
        == Placed(b'.(box := Vec(0.75, 0.75)));
  }

  lemma PairBuild(cs: seq<Vec>, ms: seq<real>)
    requires cs == [P0, P1] && ms == [1.0, 1.0]
    ensures Build(cs, ms, 1) == Placed(PairRoot())
  {
    assert cs[..1] == [P0] && ms[..1] == [1.0];
    assert cs[..1][..0] == [] && ms[..1][..0] == [];
    assert Build(cs[..1], ms[..1], 1) == Placed(NewNode(P0, 1.0));
    PairInsert(NewNode(P0, 1.0), NewNode(P1, 1.0));
  }

  /** The root box (width 1) is not far enough from either body for theta
      0.5: the distance to the box centre squares to 0.08. Where a root of
      0.08 exists it is below 2, since its square is below 4; where none
      does, `Sqrt` gives 0. */
  lemma RootIsOpened(q: Vec)
    requires q == P0 || q == P1
    ensures !FarEnough(PairRoot(), q, 0.5)
  {
    var s := (q.x - 0.5) * (q.x - 0.5) + (q.y - 0.5) * (q.y - 0.5);
    assert s == 0.08;
    var r := Sqrt(s);
    if exists w :: IsRoot(w, s) {
      if 2.0 <= r {
        assert 4.0 <= r * r;
      }
    }
  }

  lemma AddZeros(a: Vec)
    ensures Add(Add(Add(Zero, Zero), Zero), a) == a
    ensures Add(Add(Add(a, Zero), Zero), Zero) == a
  {
    assert Add(Zero, Zero) == Zero;
    assert Add(a, Zero) == a;
  }

  /** Each body receives exactly the pull of the other one: the root is
      opened, its own leaf contributes zero and the two empty slots nothing. */
  lemma PairForce(G: real, q: Vec, other: Vec, t: Tree)
    requires t == PairRoot()
    requires (q == P0 && other == P1) || (q == P1 && other == P0)
    ensures Force(G, q, t, 0.5) == Pull(G, q, other, 1.0)
  {
    RootIsOpened(q);
    var sw := Force(G, q, t.sw, 0.5);
    var ne := Force(G, q, t.ne, 0.5);
    OpenedNode(G, q, t, 0.5);
    assert Force(G, q, t, 0.5) == Add(Add(Add(sw, Zero), Zero), ne);
    if q == P0 {
      assert sw == Zero;
      assert ne == Pull(G, q, t.ne.com, t.ne.mass);
      AddZeros(ne);
    } else {
      assert ne == Zero;
      assert sw == Pull(G, q, t.sw.com, t.sw.mass);
      AddZeros(sw);
    }
  }

  /** The pull of the body at (0.7, 0.7) on the body at (0.3, 0.3) points
      up and to the right, towards it. */
  lemma PullTowardsOther(G: real)
    requires 0.0 < G
    ensures 0.0 < Pull(G, P0, P1, 1.0).x && 0.0 < Pull(G, P0, P1, 1.0).y
  {
    var d3 := SoftCube(P0.x - P1.x, P0.y - P1.y);
    var comm := -G * 1.0 / d3;
    assert comm < 0.0;
  }

  /** A positive step along a positive direction stays positive. */
  lemma PositiveKick(dt: real, a: real)
    requires 0.0 < dt && 0.0 < a
    ensures 0.0 < dt * a
  {
  }

  /** The velocities after one step from rest, on the tree `t` of the two
      bodies. */
  lemma VelocitiesFromRest(s: State, dt: real, threads: nat, t: Tree, G: real)
    requires s.pos == [P0, P1] && s.vel == [Zero, Zero] && s.mass == [1.0, 1.0]
    requires |s.brightness| == 2 && 0 < threads && t == PairRoot() && G == GravityConstant(2)
    ensures Step(s, dt, 0.5, threads, 1).Stepped?
    ensures Step(s, dt, 0.5, threads, 1).next.vel[0] == Scale(dt, Pull(G, P0, P1, 1.0))
    ensures Step(s, dt, 0.5, threads, 1).next.vel[1] == Scale(dt, Pull(G, P1, P0, 1.0))
  {
    PairBuild(s.pos, s.mass);
    StepFromRest(s, dt, 0.5, threads, 1, t, 0);
    StepFromRest(s, dt, 0.5, threads, 1, t, 1);
    PairForce(G, P0, P1, t);
    PairForce(G, P1, P0, t);
  }

  /** Kicks from rest by opposite forces give opposite velocities; a force
      pointing up and to the right gives such a velocity. */
  lemma OppositeKicks(v0: Vec, v1: Vec, f: Vec, g: Vec, dt: real)
    requires v0 == Scale(dt, f) && v1 == Scale(dt, g) && f == Neg(g)
    requires 0.0 < dt && 0.0 < f.x && f.x == f.y
    ensures v1 == Neg(v0) && 0.0 < v0.x && 0.0 < v0.y && v0.x == v0.y
  {
    PositiveKick(dt, f.x);
  }

  /** One step from rest: both bodies start moving towards each other, with
      opposite velocities along the line joining them. */
  lemma TwoBodiesApproach(s: State, dt: real, threads: nat)
    requires s.pos == [P0, P1] && s.vel == [Zero, Zero] && s.mass == [1.0, 1.0]
    requires |s.brightness| == 2 && 0 < threads && 0.0 < dt
    ensures Step(s, dt, 0.5, threads, 1).Stepped?
    ensures var n := Step(s, dt, 0.5, threads, 1).next;
            && n.vel[1] == Neg(n.vel[0])
            && 0.0 < n.vel[0].x && 0.0 < n.vel[0].y
            && n.vel[0].x == n.vel[0].y
  {
    var G := GravityConstant(2);
    VelocitiesFromRest(s, dt, threads, PairRoot(), G);
    var f := Pull(G, P0, P1, 1.0);
    var g := Pull(G, P1, P0, 1.0);
    PullReversed(G, P1, P0, 1.0);
    PullTowardsOther(G);
    assert f.x == f.y;
    var n := Step(s, dt, 0.5, threads, 1).next;
    OppositeKicks(n.vel[0], n.vel[1], f, g, dt);
  }
}
