/** The Barnes-Hut quadtree of the threaded simulator: node construction,
    quadrant selection and incremental insertion with mass and centre-of-mass
    aggregation. A node owns its four children by value, so the freeing of
    nodes has no counterpart here. */
module Quadtree {
  import opened Vectors

  /** A subtree slot. `com` is the centre of mass, `box` the centre of the
      node's bounding box and `half` its half width. A node whose four
      children are all `Empty` is external (a leaf); any other node is
      internal. */
  datatype Tree =
    | Empty
    | Node(com: Vec, box: Vec, mass: real, half: real,
           nw: Tree, ne: Tree, sw: Tree, se: Tree)

  /** The code returned by the quadrant test: a point is in one of the four
      quadrants of a box, or exactly on its centre. */
  datatype Quad = Centre | NW | NE | SW | SE

  /** Result of an insertion: the new subtree, or the report that the
      insertion needs more nested calls than the depth bound allows. */
  datatype Insertion = Placed(tree: Tree) | OutOfDepth

  /** A body as the tree sees it: a position and a mass. */
  datatype PointMass = PointMass(pos: Vec, mass: real)

  predicate IsExternal(t: Tree) {
    t.Node? && t.nw.Empty? && t.ne.Empty? && t.sw.Empty? && t.se.Empty?
  }

  // ---------------------------------------------------------------------
  // Quadrant selection

  /** The quadrant of point `c` relative to box centre `p`. The four tests
      are tried in the order NW, NE, SW, SE; the boundary rays are shared out
      so that each quadrant owns one half-axis, and the centre itself is in
      none of them. */
  function Quadrant(c: Vec, p: Vec): (q: Quad)
    ensures q == Centre <==> c == p
    ensures q == NW ==> c.x <= p.x && c.y > p.y
    ensures q == NE ==> c.x > p.x && c.y >= p.y
    ensures q == SW ==> c.x < p.x && c.y <= p.y
    ensures q == SE ==> c.x >= p.x && c.y < p.y
  {
    if c.x <= p.x && c.y > p.y then NW
    else if c.x > p.x && c.y >= p.y then NE
    else if c.x < p.x && c.y <= p.y then SW
    else if c.x >= p.x && c.y < p.y then SE
    else Centre
  }

  /** The region of the plane owned by each quadrant code. */
  predicate InRegion(c: Vec, p: Vec, q: Quad) {
    match q
    case NW => c.x <= p.x && c.y > p.y
    case NE => c.x > p.x && c.y >= p.y
    case SW => c.x < p.x && c.y <= p.y
    case SE => c.x >= p.x && c.y < p.y
    case Centre => c == p
  }

  /** The five regions are pairwise disjoint and cover the plane, so the
      order in which the tests are tried does not matter: every point lies
      in exactly the region whose code it receives. */
  lemma RegionsPartitionPlane(c: Vec, p: Vec, q: Quad)
    ensures InRegion(c, p, q) <==> q == Quadrant(c, p)
  {
  }

  /** Turning a point a quarter turn anticlockwise about `p`. */
  function QuarterTurn(c: Vec, p: Vec): (r: Vec)
    ensures r.x - p.x == -(c.y - p.y) && r.y - p.y == c.x - p.x
  {
    Vec(p.x - (c.y - p.y), p.y + (c.x - p.x))
  }

  function NextAnticlockwise(q: Quad): Quad {
    match q
    case NE => NW
    case NW => SW
    case SW => SE
    case SE => NE
    case Centre => Centre
  }

  /** The boundary tie-break is fair: a quarter turn about the centre maps
      each quadrant, boundary rays included, exactly onto the next one. */
  lemma QuadrantTurnsWithPlane(c: Vec, p: Vec)
    ensures Quadrant(QuarterTurn(c, p), p) == NextAnticlockwise(Quadrant(c, p))
  {
  }

  // ---------------------------------------------------------------------
  // Child slots and box geometry

  function Child(t: Tree, q: Quad): Tree
    requires t.Node?
  {
    match q
    case NW => t.nw
    case NE => t.ne
    case SW => t.sw
    case SE => t.se
    case Centre => Empty
  }

  function WithChild(t: Tree, q: Quad, c: Tree): (r: Tree)
    requires t.Node? && q != Centre
    ensures r.Node? && Child(r, q) == c
    ensures forall q' :: q' != q ==> Child(r, q') == Child(t, q')
    ensures r.com == t.com && r.box == t.box && r.mass == t.mass && r.half == t.half
  {
    match q
    case NW => t.(nw := c)
    case NE => t.(ne := c)
    case SW => t.(sw := c)
    case SE => t.(se := c)
  }

  /** Centre of the child box in quadrant `q` of the box centred at `p`,
      where `hh` is the child's half width. */
  function ChildCentre(p: Vec, q: Quad, hh: real): (r: Vec)
    requires q != Centre
    ensures r.x == p.x - hh || r.x == p.x + hh
    ensures r.y == p.y - hh || r.y == p.y + hh
  {
    match q
    case NW => Vec(p.x - hh, p.y + hh)
    case NE => Vec(p.x + hh, p.y + hh)
    case SW => Vec(p.x - hh, p.y - hh)
    case SE => Vec(p.x + hh, p.y - hh)
  }

  /** For a positive half width, the child box centre lies in the quadrant
      it was made for. */
  lemma ChildCentreInQuadrant(p: Vec, q: Quad, hh: real)
    requires q != Centre && 0.0 < hh
    ensures Quadrant(ChildCentre(p, q, hh), p) == q
  {
  }

  // ---------------------------------------------------------------------
  // Node construction and insertion

  /** A fresh childless node for a body at `c` with mass `m`, placed in
      the root box: the unit square centred at (0.5, 0.5). */
  function NewNode(c: Vec, m: real): (r: Tree)
    ensures IsExternal(r)
  {
    Node(c, Vec(0.5, 0.5), m, 0.5, Empty, Empty, Empty, Empty)
  }

  /** Centre of mass of two point masses. */
  function Merge(c: Vec, m: real, a: Vec, ma: real): (r: Vec)
    requires m + ma != 0.0
    ensures Moment(r, m + ma) == Add(Moment(c, m), Moment(a, ma))
  {
    var s := m + ma;
    Vec((c.x * m + a.x * ma) / s, (c.y * m + a.y * ma) / s)
  }

  /** First moment of a point mass about the origin. */
  function Moment(c: Vec, m: real): Vec {
    Vec(c.x * m, c.y * m)
  }

  /** Every node of the tree has a positive mass. */
  predicate Positive(t: Tree) {
    match t
    case Empty => true
    case Node(_, _, m, _, nw, ne, sw, se) =>
      0.0 < m && Positive(nw) && Positive(ne) && Positive(sw) && Positive(se)
  }

  /** The aggregate after merging the mass `ma` at `a` into a node of mass
      `m` at `c`: the masses add up and the moments add up. */
  predicate Aggregates(r: Tree, c: Vec, m: real, a: Vec, ma: real) {
    && r.Node?
    && r.mass == m + ma
    && Moment(r.com, r.mass) == Add(Moment(c, m), Moment(a, ma))
  }

  /** Node `t` after absorbing a mass `ma` at `a` into its aggregate; its
      box and children stay as they are. */
  function Absorb(t: Tree, a: Vec, ma: real): (r: Tree)
    requires t.Node? && Positive(t) && 0.0 < ma
    ensures Aggregates(r, t.com, t.mass, a, ma) && Positive(r)
    ensures r == t.(mass := r.mass, com := r.com)
  {
    t.(mass := t.mass + ma, com := Merge(t.com, t.mass, a, ma))
  }

  /** The child made when an external node is split: a fresh node for the
      old body, given the box of quadrant `k` one level down. */
  function SplitChild(t: Tree, k: Quad): (r: Tree)
    requires t.Node? && k != Centre
    ensures IsExternal(r) && r.com == t.com && r.mass == t.mass
    ensures r.half == t.half / 2.0 && r.box == ChildCentre(t.box, k, t.half / 2.0)
  {
    var hh := t.half / 2.0;
    NewNode(t.com, t.mass).(box := ChildCentre(t.box, k, hh), half := hh)
  }

  /** Insert the node `add` into the slot holding `t`, with at most `fuel`
      nested recursive insertions. An empty slot takes `add` as it is. A
      non-empty node first absorbs the mass and moment of `add`; an external
      node is split, its body copied into a fresh child in its own quadrant
      (or dropped when it sits on the box centre); then `add` is pushed down
      into the child slot of its quadrant. */
  function Insert(t: Tree, add: Tree, fuel: nat): (r: Insertion)
    requires add.Node? && Positive(add) && Positive(t)
    ensures r.Placed? ==> Positive(r.tree)
    ensures r.Placed? && t.Empty? ==> r.tree == add
    ensures r.Placed? && t.Node? ==>
              && Aggregates(r.tree, t.com, t.mass, add.com, add.mass)
              && r.tree.box == t.box && r.tree.half == t.half
    decreases fuel, 1
  {
    if t.Empty? then Placed(add)
    else
      var merged := Absorb(t, add.com, add.mass);
      var k := Quadrant(t.com, t.box);
      var split :=
        if !IsExternal(t) || k == Centre then merged
        else WithChild(merged, k, SplitChild(t, k));
      PushDown(split, add.(half := t.half / 2.0), fuel)
  }

  /** Send `add` (whose half width is already that of a child of `n`) into
      the child slot of its quadrant; a body on the box centre is not
      stored anywhere. The aggregate of `n` itself is left as it is. */
  function PushDown(n: Tree, add: Tree, fuel: nat): (r: Insertion)
    requires n.Node? && Positive(n) && add.Node? && Positive(add)
    ensures r.Placed? ==> Positive(r.tree)
    ensures r.Placed? ==>
              && r.tree.Node?
              && r.tree.com == n.com && r.tree.box == n.box
              && r.tree.mass == n.mass && r.tree.half == n.half
    ensures r.Placed? && Quadrant(add.com, n.box) == Centre ==> r.tree == n
    ensures r.Placed? && Quadrant(add.com, n.box) != Centre ==>
              var k := Quadrant(add.com, n.box);
              && r.tree == WithChild(n, k, Child(r.tree, k))
              && (Child(n, k).Empty? ==>
                    Child(r.tree, k) == add.(box := ChildCentre(n.box, k, add.half)))
              && (Child(n, k).Node? ==>
                    Aggregates(Child(r.tree, k), Child(n, k).com, Child(n, k).mass, add.com, add.mass))
    decreases fuel, 0
  {
    var k := Quadrant(add.com, n.box);
    if k == Centre then Placed(n)
    else if fuel == 0 then OutOfDepth
    else
      match Insert(Child(n, k), add.(box := ChildCentre(n.box, k, add.half)), fuel - 1)
      case Placed(c) => Placed(WithChild(n, k, c))
      case OutOfDepth => OutOfDepth
  }

  // ---------------------------------------------------------------------
  // Building the tree for one time step

  function MassSum(ms: seq<real>): real {
    if |ms| == 0 then 0.0 else MassSum(ms[..|ms| - 1]) + ms[|ms| - 1]
  }

  function MomentSum(cs: seq<Vec>, ms: seq<real>): Vec
    requires |cs| == |ms|
  {
    if |cs| == 0 then Zero
    else Add(MomentSum(cs[..|cs| - 1], ms[..|ms| - 1]), Moment(cs[|cs| - 1], ms[|ms| - 1]))
  }

  /** The tree of one time step: starting from an empty root, a fresh node
      for body i (position `cs[i]`, mass `ms[i]`) is inserted for i = 0, 1,
      ..., each insertion allowed `fuel` nested calls. The root always ends
      up holding the total mass, with the mass-weighted mean position as its
      centre of mass, and keeps the unit-square box. */
  function Build(cs: seq<Vec>, ms: seq<real>, fuel: nat): (r: Insertion)
    requires |cs| == |ms|
    requires forall i :: 0 <= i < |ms| ==> 0.0 < ms[i]
    ensures r.Placed? ==> Positive(r.tree) && (r.tree.Empty? <==> |cs| == 0)
    ensures r.Placed? && 0 < |cs| ==>
              && r.tree.mass == MassSum(ms)
              && Moment(r.tree.com, r.tree.mass) == MomentSum(cs, ms)
              && r.tree.box == Vec(0.5, 0.5) && r.tree.half == 0.5
    decreases |cs|
  {
    if |cs| == 0 then Placed(Empty)
    else
      var n := |cs| - 1;
      match Build(cs[..n], ms[..n], fuel)
      case OutOfDepth => OutOfDepth
      case Placed(t) => Insert(t, NewNode(cs[n], ms[n]), fuel)
  }

  /** A fresh node has the root box, and inserting it into an empty slot
      stores it unchanged. */
  lemma NewNodeFillsEmptySlot(c: Vec, m: real, fuel: nat)
    requires 0.0 < m
    ensures NewNode(c, m).com == c && NewNode(c, m).mass == m
    ensures NewNode(c, m).box == Vec(0.5, 0.5) && NewNode(c, m).half == 0.5
    ensures Insert(Empty, NewNode(c, m), fuel) == Placed(NewNode(c, m))
  {
  }

  // ---------------------------------------------------------------------
  // Shape of the tree

  /** Child `c` in quadrant `k` of `t` has half the width of `t` and the box
      of that quadrant. */
  predicate Fits(c: Tree, t: Tree, k: Quad)
    requires t.Node? && k != Centre
  {
    c.Node? ==> c.half == t.half / 2.0 && c.box == ChildCentre(t.box, k, t.half / 2.0)
  }

  /** Every child box is the matching quarter of its parent's box. */
  predicate WellPlaced(t: Tree) {
    match t
    case Empty => true
    case Node(_, _, _, _, nw, ne, sw, se) =>
      && Fits(nw, t, NW) && Fits(ne, t, NE) && Fits(sw, t, SW) && Fits(se, t, SE)
      && WellPlaced(nw) && WellPlaced(ne) && WellPlaced(sw) && WellPlaced(se)
  }

  lemma {:induction false} InsertKeepsPlacement(t: Tree, add: Tree, fuel: nat)
    requires add.Node? && Positive(add) && Positive(t) && IsExternal(add) && WellPlaced(t)
    ensures Insert(t, add, fuel).Placed? ==> WellPlaced(Insert(t, add, fuel).tree)
    decreases fuel, 1
  {
    if t.Node? {
      var merged := Absorb(t, add.com, add.mass);
      var k := Quadrant(t.com, t.box);
      var add' := add.(half := t.half / 2.0);
      assert WellPlaced(merged);
      if !IsExternal(t) || k == Centre {
        assert Insert(t, add, fuel) == PushDown(merged, add', fuel);
        PushDownKeepsPlacement(merged, add', fuel);
      } else {
        var split := WithChild(merged, k, SplitChild(t, k));
        WithChildKeepsPlacement(merged, k, SplitChild(t, k));
        assert Insert(t, add, fuel) == PushDown(split, add', fuel);
        PushDownKeepsPlacement(split, add', fuel);
      }
    }
  }

  lemma {:induction false} PushDownKeepsPlacement(n: Tree, add: Tree, fuel: nat)
    requires n.Node? && Positive(n) && add.Node? && Positive(add) && IsExternal(add)
    requires WellPlaced(n) && add.half == n.half / 2.0
    ensures PushDown(n, add, fuel).Placed? ==> WellPlaced(PushDown(n, add, fuel).tree)
    decreases fuel, 0
  {
    var k := Quadrant(add.com, n.box);
    if k != Centre && fuel > 0 {
      var add' := add.(box := ChildCentre(n.box, k, add.half));
      InsertKeepsPlacement(Child(n, k), add', fuel - 1);
      var r := Insert(Child(n, k), add', fuel - 1);
      if r.Placed? {
        assert Child(n, k).Node? ==> r.tree.box == Child(n, k).box && r.tree.half == Child(n, k).half;
        WithChildKeepsPlacement(n, k, r.tree);
      }
    }
  }

  lemma WithChildKeepsPlacement(n: Tree, k: Quad, c: Tree)
    requires n.Node? && k != Centre && WellPlaced(n) && WellPlaced(c) && Fits(c, n, k)
    ensures WellPlaced(WithChild(n, k, c))
  {
    match k
    case NW =>
    case NE =>
    case SW =>
    case SE =>
  }

  /** The point masses held by the external nodes, listed in the order the
      force traversal visits the children: SW, NW, SE, NE. */
  function Bodies(t: Tree): seq<PointMass> {
    match t
    case Empty => []
    case Node(c, _, m, _, nw, ne, sw, se) =>
      if IsExternal(t) then [PointMass(c, m)]
      else Bodies(sw) + Bodies(nw) + Bodies(se) + Bodies(ne)
  }

  /** Positions of the external nodes. */
  function Positions(t: Tree): set<Vec> {
    match t
    case Empty => {}
    case Node(c, _, _, _, nw, ne, sw, se) =>
      if IsExternal(t) then {c}
      else Positions(nw) + Positions(ne) + Positions(sw) + Positions(se)
  }

  /** Every external node below `t` lies in quadrant `k` of centre `p`. */
  predicate AllIn(t: Tree, p: Vec, k: Quad) {
    forall c :: c in Positions(t) ==> Quadrant(c, p) == k
  }

  /** Every body stored in a child slot lies in that child's quadrant of
      its parent: the four subtrees of a node hold disjoint regions. */
  predicate Sorted(t: Tree) {
    match t
    case Empty => true
    case Node(_, p, _, _, nw, ne, sw, se) =>
      && AllIn(nw, p, NW) && AllIn(ne, p, NE) && AllIn(sw, p, SW) && AllIn(se, p, SE)
      && Sorted(nw) && Sorted(ne) && Sorted(sw) && Sorted(se)
  }

  function ChildPositions(n: Tree): set<Vec>
    requires n.Node?
  {
    Positions(n.nw) + Positions(n.ne) + Positions(n.sw) + Positions(n.se)
  }

  lemma WithChildPositions(n: Tree, k: Quad, c: Tree)
    requires n.Node? && k != Centre && c.Node?
    ensures Positions(WithChild(n, k, c)) <= ChildPositions(n) + Positions(c)
  {
    match k
    case NW =>
    case NE =>
    case SW =>
    case SE =>
  }

  /** Two equal positions have that position as their centre of mass. */
  lemma MergeSamePosition(c: Vec, m: real, ma: real)
    requires 0.0 < m && 0.0 < ma
    ensures Merge(c, m, c, ma) == c
  {
    var r := Merge(c, m, c, ma);
    var s := m + ma;
    assert r.x * s == c.x * s;
    assert r.y * s == c.y * s;
  }

  /** Insertion never invents a position: every external node of the result
      sits at a position already held by an external node, or at the
      position of the inserted node. */
  lemma {:induction false} InsertKeepsPositions(t: Tree, add: Tree, fuel: nat)
    requires add.Node? && Positive(add) && Positive(t) && IsExternal(add)
    ensures Insert(t, add, fuel).Placed? ==>
              Positions(Insert(t, add, fuel).tree) <= Positions(t) + {add.com}
    decreases fuel, 1
  {
    if t.Node? {
      var merged := Absorb(t, add.com, add.mass);
      var k := Quadrant(t.com, t.box);
      var add' := add.(half := t.half / 2.0);
      if !IsExternal(t) {
        assert ChildPositions(merged) == Positions(t);
        PushDownKeepsPositions(merged, add', fuel);
      } else if k == Centre {
        if Quadrant(add.com, t.box) == Centre {
          MergeSamePosition(t.com, t.mass, add.mass);
        } else {
          PushDownKeepsPositions(merged, add', fuel);
        }
      } else {
        var split := WithChild(merged, k, SplitChild(t, k));
        assert ChildPositions(split) == Positions(t) by {
          match k
          case NW =>
          case NE =>
          case SW =>
          case SE =>
        }
        PushDownKeepsPositions(split, add', fuel);
      }
    }
  }

  lemma {:induction false} PushDownKeepsPositions(n: Tree, add: Tree, fuel: nat)
    requires n.Node? && Positive(n) && add.Node? && Positive(add) && IsExternal(add)
    ensures PushDown(n, add, fuel).Placed? && Quadrant(add.com, n.box) != Centre ==>
              Positions(PushDown(n, add, fuel).tree) <= ChildPositions(n) + {add.com}
    decreases fuel, 0
  {
    var k := Quadrant(add.com, n.box);
    if k != Centre && fuel > 0 {
      var add' := add.(box := ChildCentre(n.box, k, add.half));
      InsertKeepsPositions(Child(n, k), add', fuel - 1);
      var r := Insert(Child(n, k), add', fuel - 1);
      if r.Placed? {
        WithChildPositions(n, k, r.tree);
        assert Positions(Child(n, k)) <= ChildPositions(n) by {
          match k
          case NW =>
          case NE =>
          case SW =>
          case SE =>
        }
      }
    }
  }

  lemma WithChildKeepsSorted(n: Tree, k: Quad, c: Tree)
    requires n.Node? && k != Centre && Sorted(n) && Sorted(c) && AllIn(c, n.box, k)
    ensures Sorted(WithChild(n, k, c))
  {
    match k
    case NW =>
    case NE =>
    case SW =>
    case SE =>
  }

  /** Insertion keeps every body in the quadrant of each of its ancestors. */
  lemma {:induction false} InsertKeepsSorted(t: Tree, add: Tree, fuel: nat)
    requires add.Node? && Positive(add) && Positive(t) && IsExternal(add) && Sorted(t)
    ensures Insert(t, add, fuel).Placed? ==> Sorted(Insert(t, add, fuel).tree)
    decreases fuel, 1
  {
    if t.Node? {
      var merged := Absorb(t, add.com, add.mass);
      var k := Quadrant(t.com, t.box);
      var add' := add.(half := t.half / 2.0);
      if !IsExternal(t) || k == Centre {
        PushDownKeepsSorted(merged, add', fuel);
      } else {
        var c := SplitChild(t, k);
        assert Positions(c) == {t.com};
        WithChildKeepsSorted(merged, k, c);
        PushDownKeepsSorted(WithChild(merged, k, c), add', fuel);
      }
    }
  }

  lemma {:induction false} PushDownKeepsSorted(n: Tree, add: Tree, fuel: nat)
    requires n.Node? && Positive(n) && add.Node? && Positive(add) && IsExternal(add) && Sorted(n)
    ensures PushDown(n, add, fuel).Placed? ==> Sorted(PushDown(n, add, fuel).tree)
    decreases fuel, 0
  {
    var k := Quadrant(add.com, n.box);
    if k != Centre && fuel > 0 {
      var add' := add.(box := ChildCentre(n.box, k, add.half));
      InsertKeepsSorted(Child(n, k), add', fuel - 1);
      InsertKeepsPositions(Child(n, k), add', fuel - 1);
      var r := Insert(Child(n, k), add', fuel - 1);
      if r.Placed? {
        assert Sorted(Child(n, k)) && AllIn(Child(n, k), n.box, k) by {
          match k
          case NW =>
          case NE =>
          case SW =>
          case SE =>
        }
        WithChildKeepsSorted(n, k, r.tree);
      }
    }
  }

  // ---------------------------------------------------------------------
  // Particular insertions

  /** An internal node receiving a body exactly on its box centre counts the
      body's mass in its aggregate but keeps its children as they were: the
      body is stored nowhere. */
  lemma CentreBodyIsDropped(t: Tree, add: Tree, fuel: nat)
    requires t.Node? && !IsExternal(t) && Positive(t) && add.Node? && Positive(add)
    requires add.com == t.box
    ensures Insert(t, add, fuel).Placed?
    ensures var r := Insert(t, add, fuel).tree;
            && r.mass == t.mass + add.mass
            && r.nw == t.nw && r.ne == t.ne && r.sw == t.sw && r.se == t.se
            && Positions(r) == Positions(t)
  {
  }

  /** Splitting an external node whose body is off the box centre makes it
      internal and moves its body, with unchanged mass and centre of mass,
      into the child of its own quadrant; the new body then joins that child
      or takes a slot of its own. */
  lemma SplitKeepsOldBody(t: Tree, add: Tree, fuel: nat)
    requires IsExternal(t) && Positive(t) && add.Node? && Positive(add)
    requires Quadrant(t.com, t.box) != Centre
    ensures var k := Quadrant(t.com, t.box);
            var r := Insert(t, add, fuel);
            && (1 <= fuel && Quadrant(add.com, t.box) != k ==> r.Placed?)
            && (r.Placed? ==>
                  && !IsExternal(r.tree)
                  && (Quadrant(add.com, t.box) != k ==> Child(r.tree, k) == SplitChild(t, k))
                  && (Quadrant(add.com, t.box) == k ==>
                        Aggregates(Child(r.tree, k), t.com, t.mass, add.com, add.mass)))
  {
    var k := Quadrant(t.com, t.box);
    var merged := Absorb(t, add.com, add.mass);
    var split := WithChild(merged, k, SplitChild(t, k));
    var k2 := Quadrant(add.com, t.box);
    assert Insert(t, add, fuel) == PushDown(split, add.(half := t.half / 2.0), fuel);
    if k2 != k && k2 != Centre && 1 <= fuel {
      var add' := add.(half := t.half / 2.0);
      var add'' := add'.(box := ChildCentre(split.box, k2, add'.half));
      assert Child(split, k2) == Empty;
      assert Insert(Empty, add'', fuel - 1) == Placed(add'');
    }
  }

  /** The root after unit masses at (0.25, 0.25) and (0.75, 0.75): an
      internal node with the two bodies in its SW and NE children. */
  function TwoBodyRoot(): Tree {
    Node(Vec(0.5, 0.5), Vec(0.5, 0.5), 2.0, 0.5,
         Empty,
         Node(Vec(0.75, 0.75), Vec(0.75, 0.75), 1.0, 0.25, Empty, Empty, Empty, Empty),
         Node(Vec(0.25, 0.25), Vec(0.25, 0.25), 1.0, 0.25, Empty, Empty, Empty, Empty),
         Empty)
  }

  lemma SecondBodySplitsRoot()
    ensures Insert(NewNode(Vec(0.25, 0.25), 1.0), NewNode(Vec(0.75, 0.75), 1.0), 1) == Placed(TwoBodyRoot())
  {
    var a := NewNode(Vec(0.25, 0.25), 1.0);
    var b := NewNode(Vec(0.75, 0.75), 1.0);
    assert Merge(a.com, 1.0, b.com, 1.0) == Vec(0.5, 0.5);
    var split := WithChild(Absorb(a, b.com, b.mass), SW, SplitChild(a, SW));
    var b' := b.(half := 0.25);
    assert Insert(a, b, 1) == PushDown(split, b', 1);
    assert Insert(Empty, b'.(box := ChildCentre(split.box, NE, 0.25)), 0)
        == Placed(b'.(box := Vec(0.75, 0.75)));
  }

  lemma TwoBodyRootPositions()
    ensures Positions(TwoBodyRoot()) == {Vec(0.25, 0.25), Vec(0.75, 0.75)}
  {
    var t := TwoBodyRoot();
    assert !IsExternal(t);
    assert Positions(t.ne) == {Vec(0.75, 0.75)};
    assert Positions(t.sw) == {Vec(0.25, 0.25)};
  }

  lemma BuildTwo(cs: seq<Vec>, ms: seq<real>)
    requires cs == [Vec(0.25, 0.25), Vec(0.75, 0.75)] && ms == [1.0, 1.0]
    ensures Build(cs, ms, 1) == Placed(TwoBodyRoot())
  {
    assert cs[..1] == [Vec(0.25, 0.25)] && ms[..1] == [1.0];
    assert cs[..1][..0] == [] && ms[..1][..0] == [];
    assert Build(cs[..1], ms[..1], 1) == Placed(NewNode(Vec(0.25, 0.25), 1.0));
    SecondBodySplitsRoot();
  }

  lemma BuildThree(cs: seq<Vec>, ms: seq<real>)
    requires cs == [Vec(0.25, 0.25), Vec(0.75, 0.75), Vec(0.5, 0.5)] && ms == [1.0, 1.0, 1.0]
    ensures Build(cs, ms, 1) == Insert(TwoBodyRoot(), NewNode(Vec(0.5, 0.5), 1.0), 1)
  {
    assert cs[..2] == [Vec(0.25, 0.25), Vec(0.75, 0.75)] && ms[..2] == [1.0, 1.0];
    BuildTwo(cs[..2], ms[..2]);
  }

  lemma CentreOfTwoBodyRoot(t: Tree, add: Tree)
    requires t == TwoBodyRoot() && add == NewNode(Vec(0.5, 0.5), 1.0)
    ensures Insert(t, add, 1).Placed?
    ensures Insert(t, add, 1).tree.mass == 3.0
    ensures Positions(Insert(t, add, 1).tree) == {Vec(0.25, 0.25), Vec(0.75, 0.75)}
  {
    CentreBodyIsDropped(t, add, 1);
    TwoBodyRootPositions();
  }

  /** Three unit masses at (0.25, 0.25), (0.75, 0.75) and then (0.5, 0.5):
      the third lands on the centre of the root box, which has become
      internal, so the root counts all three masses but stores only two
      bodies. */
  lemma ThirdBodyOnRootCentreIsLost(cs: seq<Vec>, ms: seq<real>)
    requires cs == [Vec(0.25, 0.25), Vec(0.75, 0.75), Vec(0.5, 0.5)] && ms == [1.0, 1.0, 1.0]
    ensures Build(cs, ms, 1).Placed?
    ensures Build(cs, ms, 1).tree.mass == 3.0
    ensures Positions(Build(cs, ms, 1).tree) == {Vec(0.25, 0.25), Vec(0.75, 0.75)}
  {
    BuildThree(cs, ms);
    CentreOfTwoBodyRoot(TwoBodyRoot(), NewNode(Vec(0.5, 0.5), 1.0));
  }

  /** Whether the point `q`, descending from the box centred at `p` with
      half width `h`, meets a box centre within `d` levels. */
  predicate HitsCentre(q: Vec, p: Vec, h: real, d: nat)
    decreases d
  {
    q == p || (0 < d && HitsCentre(q, ChildCentre(p, Quadrant(q, p), h / 2.0), h / 2.0, d - 1))
  }

  /** Two bodies at the same position are never separated: inserting a body
      at the position of an external node only succeeds when that position
      is the centre of one of the boxes it descends through. Otherwise every
      depth bound is exhausted, which is the non-termination of the
      unbounded recursion. */
  lemma {:induction false} DuplicatesNeverSeparate(t: Tree, add: Tree, fuel: nat)
    requires IsExternal(t) && Positive(t) && add.Node? && Positive(add)
    requires add.com == t.com
    ensures Insert(t, add, fuel).Placed? ==> HitsCentre(t.com, t.box, t.half, fuel)
    decreases fuel
  {
    var k := Quadrant(t.com, t.box);
    if k != Centre && 0 < fuel {
      var c := SplitChild(t, k);
      var merged := Absorb(t, add.com, add.mass);
      var split := WithChild(merged, k, c);
      var add' := add.(half := t.half / 2.0);
      var add'' := add'.(box := ChildCentre(t.box, k, add'.half));
      assert Insert(t, add, fuel) == PushDown(split, add', fuel);
      assert Child(split, k) == c;
      assert add''.com == c.com;
      DuplicatesNeverSeparate(c, add'', fuel - 1);
      if Insert(t, add, fuel).Placed? {
        assert Insert(c, add'', fuel - 1).Placed?;
      }
    }
  }

  /** The depth bound only decides whether the insertion completes, never
      what it produces. */
  lemma {:induction false} MoreFuelSameTree(t: Tree, add: Tree, fuel: nat, more: nat)
    requires add.Node? && Positive(add) && Positive(t) && fuel <= more
    ensures Insert(t, add, fuel).Placed? ==> Insert(t, add, more) == Insert(t, add, fuel)
    decreases fuel, 1
  {
    if t.Node? {
      var merged := Absorb(t, add.com, add.mass);
      var k := Quadrant(t.com, t.box);
      var split :=
        if !IsExternal(t) || k == Centre then merged
        else WithChild(merged, k, SplitChild(t, k));
      PushDownMoreFuel(split, add.(half := t.half / 2.0), fuel, more);
    }
  }

  lemma {:induction false} PushDownMoreFuel(n: Tree, add: Tree, fuel: nat, more: nat)
    requires n.Node? && Positive(n) && add.Node? && Positive(add) && fuel <= more
    ensures PushDown(n, add, fuel).Placed? ==> PushDown(n, add, more) == PushDown(n, add, fuel)
    decreases fuel, 0
  {
    var k := Quadrant(add.com, n.box);
    if k != Centre && 0 < fuel {
      MoreFuelSameTree(Child(n, k), add.(box := ChildCentre(n.box, k, add.half)), fuel - 1, more - 1);
    }
  }

  /** The tree of a time step has every child box a quarter of its parent's
      and every body in the quadrant of each of its ancestors. */
  lemma {:induction false} BuildIsWellFormed(cs: seq<Vec>, ms: seq<real>, fuel: nat)
    requires |cs| == |ms|
    requires forall i :: 0 <= i < |ms| ==> 0.0 < ms[i]
    ensures Build(cs, ms, fuel).Placed? ==>
              WellPlaced(Build(cs, ms, fuel).tree) && Sorted(Build(cs, ms, fuel).tree)
    decreases |cs|
  {
    if |cs| > 0 {
      var n := |cs| - 1;
      BuildIsWellFormed(cs[..n], ms[..n], fuel);
      var r := Build(cs[..n], ms[..n], fuel);
      if r.Placed? {
        InsertKeepsPlacement(r.tree, NewNode(cs[n], ms[n]), fuel);
        InsertKeepsSorted(r.tree, NewNode(cs[n], ms[n]), fuel);
      }
    }
  }

  // ---------------------------------------------------------------------
  // Every body is stored when no body meets a box centre

  /** The point masses of bodies `cs` with masses `ms`, in index order. */
  function PointMasses(cs: seq<Vec>, ms: seq<real>): (ps: seq<PointMass>)
    requires |cs| == |ms|
    ensures |ps| == |cs| && forall i :: 0 <= i < |cs| ==> ps[i] == PointMass(cs[i], ms[i])
  {
    seq(|cs|, i requires 0 <= i < |cs| => PointMass(cs[i], ms[i]))
  }

  /** No external node within `d` levels of `t` holds a body that would
      meet a box centre on its way down the remaining levels: splitting any
      of those leaves never drops its body. */
  predicate Separable(t: Tree, d: nat) {
    match t
    case Empty => true
    case Node(c, p, _, h, nw, ne, sw, se) =>
      && (IsExternal(t) ==> !HitsCentre(c, p, h, d))
      && (0 < d ==> Separable(nw, d - 1) && Separable(ne, d - 1) && Separable(sw, d - 1) && Separable(se, d - 1))
  }

  lemma WithChildBodies(n: Tree, k: Quad, c: Tree)
    requires n.Node? && !IsExternal(n) && k != Centre && c.Node?
    ensures multiset(Bodies(WithChild(n, k, c))) + multiset(Bodies(Child(n, k)))
            == multiset(Bodies(n)) + multiset(Bodies(c))
  {
    match k
    case NW =>
    case NE =>
    case SW =>
    case SE =>
  }

  /** Replacing child `k` of an internal node by a tree that holds one body
      more keeps the node separable and adds that body to the node. */
  lemma ReplaceChild(n: Tree, k: Quad, c: Tree, d: nat, b: PointMass)
    requires n.Node? && !IsExternal(n) && k != Centre && c.Node? && 0 < d
    requires Separable(n, d) && Separable(c, d - 1)
    requires multiset(Bodies(c)) == multiset(Bodies(Child(n, k))) + multiset{b}
    ensures Separable(WithChild(n, k, c), d)
    ensures multiset(Bodies(WithChild(n, k, c))) == multiset(Bodies(n)) + multiset{b}
  {
    WithChildSeparable(n, k, c, d);
    WithChildBodies(n, k, c);
  }

  lemma ChildOfPlaced(n: Tree, k: Quad)
    requires n.Node? && k != Centre && WellPlaced(n) && Positive(n)
    ensures WellPlaced(Child(n, k)) && Positive(Child(n, k)) && Fits(Child(n, k), n, k)
  {
    match k
    case NW =>
    case NE =>
    case SW =>
    case SE =>
  }

  lemma WithChildSeparable(n: Tree, k: Quad, c: Tree, d: nat)
    requires n.Node? && k != Centre && c.Node? && 0 < d && Separable(n, d) && Separable(c, d - 1)
    ensures Separable(WithChild(n, k, c), d)
  {
    match k
    case NW =>
    case NE =>
    case SW =>
    case SE =>
  }

  lemma SeparableChild(n: Tree, k: Quad, d: nat)
    requires n.Node? && k != Centre && 0 < d && Separable(n, d)
    ensures Separable(Child(n, k), d - 1)
  {
    match k
    case NW =>
    case NE =>
    case SW =>
    case SE =>
  }

  /** Absorbing a body into an internal node changes neither its shape nor
      the bodies it stores. */
  lemma AbsorbKeepsShape(t: Tree, a: Vec, ma: real, d: nat)
    requires t.Node? && !IsExternal(t) && Positive(t) && 0.0 < ma && WellPlaced(t) && Separable(t, d)
    ensures var r := Absorb(t, a, ma);
            && !IsExternal(r) && WellPlaced(r) && Separable(r, d) && Bodies(r) == Bodies(t)
  {
  }

  /** A childless node given one external child in quadrant `k` becomes
      internal and stores exactly that child's body. */
  lemma LoneChild(n: Tree, k: Quad, c: Tree, d: nat)
    requires IsExternal(n) && Positive(n) && k != Centre && IsExternal(c) && Positive(c) && 0 < d
    requires !HitsCentre(c.com, c.box, c.half, d - 1)
    ensures var r := WithChild(n, k, c);
            && !IsExternal(r) && Positive(r) && Separable(r, d)
            && Bodies(r) == [PointMass(c.com, c.mass)]
  {
    match k
    case NW =>
    case NE =>
    case SW =>
    case SE =>
  }

  /** Splitting a separable leaf moves its body into a child of its own:
      the node becomes internal and stores the same single body. */
  lemma SplitKeepsShape(t: Tree, a: Vec, ma: real, d: nat)
    requires IsExternal(t) && Positive(t) && 0.0 < ma && WellPlaced(t) && Separable(t, d) && 0 < d
    ensures var k := Quadrant(t.com, t.box);
            && k != Centre
            && var split := WithChild(Absorb(t, a, ma), k, SplitChild(t, k));
            && !IsExternal(split) && Positive(split) && WellPlaced(split) && Separable(split, d)
            && multiset(Bodies(split)) == multiset(Bodies(t))
  {
    var k := Quadrant(t.com, t.box);
    assert k != Centre;
    var merged := Absorb(t, a, ma);
    var c := SplitChild(t, k);
    LoneChild(merged, k, c, d);
    WithChildKeepsPlacement(merged, k, c);
  }

  /** Completeness of insertion: when neither the inserted body nor any
      stored body meets a box centre within the depth bound, a completed
      insertion stores the new body as a leaf of its own and keeps every
      body already stored, each with its own mass. */
  lemma {:induction false} InsertStoresBody(t: Tree, add: Tree, fuel: nat)
    requires add.Node? && Positive(add) && Positive(t) && IsExternal(add) && WellPlaced(t)
    requires t.Node? ==> t.box == add.box && t.half == add.half
    requires Separable(t, fuel) && !HitsCentre(add.com, add.box, add.half, fuel)
    ensures Insert(t, add, fuel).Placed? ==>
              && Separable(Insert(t, add, fuel).tree, fuel)
              && multiset(Bodies(Insert(t, add, fuel).tree))
                 == multiset(Bodies(t)) + multiset{PointMass(add.com, add.mass)}
    decreases fuel, 1
  {
    if t.Node? {
      var merged := Absorb(t, add.com, add.mass);
      var add' := add.(half := t.half / 2.0);
      if !IsExternal(t) {
        AbsorbKeepsShape(t, add.com, add.mass, fuel);
        assert Insert(t, add, fuel) == PushDown(merged, add', fuel);
        PushDownStoresBody(merged, add', fuel);
      } else if 0 < fuel {
        var k := Quadrant(t.com, t.box);
        var split := WithChild(merged, k, SplitChild(t, k));
        SplitKeepsShape(t, add.com, add.mass, fuel);
        assert Insert(t, add, fuel) == PushDown(split, add', fuel);
        PushDownStoresBody(split, add', fuel);
      }
    }
  }

  lemma {:induction false} PushDownStoresBody(n: Tree, add: Tree, fuel: nat)
    requires n.Node? && !IsExternal(n) && Positive(n) && add.Node? && Positive(add) && IsExternal(add)
    requires WellPlaced(n) && add.half == n.half / 2.0
    requires Separable(n, fuel) && !HitsCentre(add.com, n.box, n.half, fuel)
    ensures PushDown(n, add, fuel).Placed? ==>
              && Separable(PushDown(n, add, fuel).tree, fuel)
              && multiset(Bodies(PushDown(n, add, fuel).tree))
                 == multiset(Bodies(n)) + multiset{PointMass(add.com, add.mass)}
    decreases fuel, 0
  {
    var k := Quadrant(add.com, n.box);
    assert k != Centre;
    if 0 < fuel {
      var add' := add.(box := ChildCentre(n.box, k, add.half));
      assert !HitsCentre(add'.com, add'.box, add'.half, fuel - 1);
      ChildOfPlaced(n, k);
      SeparableChild(n, k, fuel);
      InsertStoresBody(Child(n, k), add', fuel - 1);
      var r := Insert(Child(n, k), add', fuel - 1);
      assert PushDown(n, add, fuel) == if r.Placed? then Placed(WithChild(n, k, r.tree)) else OutOfDepth;
      if r.Placed? {
        ReplaceChild(n, k, r.tree, fuel, PointMass(add.com, add.mass));
      }
    }
  }

  lemma PointMassesSnoc(cs: seq<Vec>, ms: seq<real>)
    requires |cs| == |ms| && 0 < |cs|
    ensures PointMasses(cs, ms)
            == PointMasses(cs[..|cs| - 1], ms[..|ms| - 1]) + [PointMass(cs[|cs| - 1], ms[|ms| - 1])]
  {
  }

  /** A build inserts its last body into the tree of the others; that body
      is a fresh leaf at the root box, and it and the others meet no box
      centre when no body does. */
  lemma BuildLast(cs: seq<Vec>, ms: seq<real>, fuel: nat)
    requires |cs| == |ms| && 0 < |cs|
    requires forall i :: 0 <= i < |ms| ==> 0.0 < ms[i]
    requires forall i :: 0 <= i < |cs| ==> !HitsCentre(cs[i], Vec(0.5, 0.5), 0.5, fuel)
    ensures var n := |cs| - 1;
            && (forall i :: 0 <= i < n ==> 0.0 < ms[..n][i])
            && (forall i :: 0 <= i < n ==> !HitsCentre(cs[..n][i], Vec(0.5, 0.5), 0.5, fuel))
            && var add := NewNode(cs[n], ms[n]);
               && Positive(add) && add.box == Vec(0.5, 0.5) && add.half == 0.5
               && !HitsCentre(add.com, add.box, add.half, fuel)
               && Build(cs, ms, fuel)
                  == if Build(cs[..n], ms[..n], fuel).Placed?
                     then Insert(Build(cs[..n], ms[..n], fuel).tree, add, fuel)
                     else OutOfDepth
  {
    var n := |cs| - 1;
    assert forall i :: 0 <= i < n ==> cs[..n][i] == cs[i] && ms[..n][i] == ms[i];
  }

  /** The tree of a time step stores every body, with its own mass, as
      long as no body meets a box centre on its way down within the depth
      bound: the bodies of the tree are a permutation of the input. */
  lemma {:induction false} BuildStoresEveryBody(cs: seq<Vec>, ms: seq<real>, fuel: nat)
    requires |cs| == |ms|
    requires forall i :: 0 <= i < |ms| ==> 0.0 < ms[i]
    requires forall i :: 0 <= i < |cs| ==> !HitsCentre(cs[i], Vec(0.5, 0.5), 0.5, fuel)
    ensures Build(cs, ms, fuel).Placed? ==>
              && Separable(Build(cs, ms, fuel).tree, fuel)
              && multiset(Bodies(Build(cs, ms, fuel).tree)) == multiset(PointMasses(cs, ms))
    decreases |cs|
  {
    if |cs| > 0 {
      var n := |cs| - 1;
      BuildLast(cs, ms, fuel);
      BuildStoresEveryBody(cs[..n], ms[..n], fuel);
      BuildIsWellFormed(cs[..n], ms[..n], fuel);
      var r := Build(cs[..n], ms[..n], fuel);
      if r.Placed? {
        InsertStoresBody(r.tree, NewNode(cs[n], ms[n]), fuel);
        PointMassesSnoc(cs, ms);
      }
    }
  }

  // ---------------------------------------------------------------------
  // Every node aggregates the bodies below it

  /** Mass and moment held in a slot; an empty slot holds neither. */
  function MassOf(t: Tree): real {
    if t.Empty? then 0.0 else t.mass
  }

  function MomentOf(t: Tree): Vec {
    if t.Empty? then Zero else Moment(t.com, t.mass)
  }

  /** Mass and moment held by the four children of `n`, in traversal order. */
  function ChildMass(n: Tree): real
    requires n.Node?
  {
    MassOf(n.sw) + MassOf(n.nw) + MassOf(n.se) + MassOf(n.ne)
  }

  function ChildMoment(n: Tree): Vec
    requires n.Node?
  {
    Add(Add(Add(MomentOf(n.sw), MomentOf(n.nw)), MomentOf(n.se)), MomentOf(n.ne))
  }

  /** Every internal node holds the mass of its four children together,
      at the position that makes its moment the sum of theirs: the
      aggregate `qt_add` updates each time a body passes through a node. */
  predicate Aggregated(t: Tree) {
    match t
    case Empty => true
    case Node(c, _, m, _, nw, ne, sw, se) =>
      && (!IsExternal(t) ==> m == ChildMass(t) && Moment(c, m) == ChildMoment(t))
      && Aggregated(nw) && Aggregated(ne) && Aggregated(sw) && Aggregated(se)
  }

  predicate ChildrenAggregated(n: Tree)
    requires n.Node?
  {
    Aggregated(n.nw) && Aggregated(n.ne) && Aggregated(n.sw) && Aggregated(n.se)
  }

  /** Total mass of a list of point masses. */
  function TotalMass(ps: seq<PointMass>): real {
    if |ps| == 0 then 0.0 else TotalMass(ps[..|ps| - 1]) + ps[|ps| - 1].mass
  }

  /** Total first moment of a list of point masses. */
  function TotalMoment(ps: seq<PointMass>): Vec {
    if |ps| == 0 then Zero
    else Add(TotalMoment(ps[..|ps| - 1]), Moment(ps[|ps| - 1].pos, ps[|ps| - 1].mass))
  }

  lemma {:induction false} TotalsAppend(ps: seq<PointMass>, qs: seq<PointMass>)
    ensures TotalMass(ps + qs) == TotalMass(ps) + TotalMass(qs)
    ensures TotalMoment(ps + qs) == Add(TotalMoment(ps), TotalMoment(qs))
    decreases |qs|
  {
    if |qs| == 0 {
      assert ps + qs == ps;
    } else {
      var qs' := qs[..|qs| - 1];
      assert (ps + qs)[..|ps + qs| - 1] == ps + qs';
      TotalsAppend(ps, qs');
    }
  }

  /** An aggregated slot holds the total mass of the bodies stored below
      it, with their mass-weighted mean position as its centre of mass. */
  lemma {:induction false} AggregatedTotals(t: Tree)
    requires Aggregated(t)
    ensures MassOf(t) == TotalMass(Bodies(t)) && MomentOf(t) == TotalMoment(Bodies(t))
    decreases t
  {
    if IsExternal(t) {
      LeafTotals(t);
    } else if t.Node? {
      AggregatedTotals(t.sw);
      AggregatedTotals(t.nw);
      AggregatedTotals(t.se);
      AggregatedTotals(t.ne);
      ChildTotalsAreTotals(t);
    }
  }

  lemma LeafTotals(t: Tree)
    requires IsExternal(t)
    ensures MassOf(t) == TotalMass(Bodies(t)) && MomentOf(t) == TotalMoment(Bodies(t))
  {
    assert Bodies(t) == [PointMass(t.com, t.mass)];
    assert [PointMass(t.com, t.mass)][..0] == [];
    AddZero(Moment(t.com, t.mass));
  }

  /** Children holding the totals of their bodies hold, together, the
      totals of the bodies of their internal parent. */
  lemma ChildTotalsAreTotals(t: Tree)
    requires t.Node? && !IsExternal(t)
    requires MassOf(t.sw) == TotalMass(Bodies(t.sw)) && MassOf(t.nw) == TotalMass(Bodies(t.nw))
    requires MassOf(t.se) == TotalMass(Bodies(t.se)) && MassOf(t.ne) == TotalMass(Bodies(t.ne))
    requires MomentOf(t.sw) == TotalMoment(Bodies(t.sw)) && MomentOf(t.nw) == TotalMoment(Bodies(t.nw))
    requires MomentOf(t.se) == TotalMoment(Bodies(t.se)) && MomentOf(t.ne) == TotalMoment(Bodies(t.ne))
    ensures ChildMass(t) == TotalMass(Bodies(t)) && ChildMoment(t) == TotalMoment(Bodies(t))
  {
    assert Bodies(t) == Bodies(t.sw) + Bodies(t.nw) + Bodies(t.se) + Bodies(t.ne);
    TotalsOfFour(Bodies(t.sw), Bodies(t.nw), Bodies(t.se), Bodies(t.ne));
  }

  lemma TotalsOfFour(a: seq<PointMass>, b: seq<PointMass>, c: seq<PointMass>, d: seq<PointMass>)
    ensures TotalMass(a + b + c + d) == TotalMass(a) + TotalMass(b) + TotalMass(c) + TotalMass(d)
    ensures TotalMoment(a + b + c + d)
            == Add(Add(Add(TotalMoment(a), TotalMoment(b)), TotalMoment(c)), TotalMoment(d))
  {
    TotalsAppend(a, b);
    TotalsAppend(a + b, c);
    TotalsAppend(a + b + c, d);
  }

  /** The slot reached from `t` by following the quadrants of `path`. */
  function At(t: Tree, path: seq<Quad>): Tree
    decreases |path|
  {
    if |path| == 0 || t.Empty? then t else At(Child(t, path[0]), path[1..])
  }

  lemma ChildIsAggregated(t: Tree, k: Quad)
    requires t.Node? && Aggregated(t)
    ensures Aggregated(Child(t, k))
  {
    match k
    case Centre =>
    case NW =>
    case NE =>
    case SW =>
    case SE =>
  }

  /** In an aggregated tree every node, wherever it sits, holds the total
      mass and moment of the bodies stored below it. */
  lemma {:induction false} EveryNodeHoldsItsBodies(t: Tree, path: seq<Quad>)
    requires Aggregated(t)
    ensures MassOf(At(t, path)) == TotalMass(Bodies(At(t, path)))
    ensures MomentOf(At(t, path)) == TotalMoment(Bodies(At(t, path)))
    decreases |path|
  {
    if |path| == 0 || t.Empty? {
      AggregatedTotals(t);
    } else {
      ChildIsAggregated(t, path[0]);
      EveryNodeHoldsItsBodies(Child(t, path[0]), path[1..]);
    }
  }

  /** Replacing child `k` changes the children's totals by the difference
      between the new and the old child. */
  lemma WithChildMass(n: Tree, k: Quad, c: Tree)
    requires n.Node? && k != Centre
    ensures ChildMass(WithChild(n, k, c)) + MassOf(Child(n, k)) == ChildMass(n) + MassOf(c)
  {
    match k
    case NW =>
    case NE =>
    case SW =>
    case SE =>
  }

  lemma WithChildMoment(n: Tree, k: Quad, c: Tree)
    requires n.Node? && k != Centre
    ensures Add(ChildMoment(WithChild(n, k, c)), MomentOf(Child(n, k)))
            == Add(ChildMoment(n), MomentOf(c))
  {
    var r := WithChild(n, k, c);
    var a, b, d, e, v := MomentOf(n.sw), MomentOf(n.nw), MomentOf(n.se), MomentOf(n.ne), MomentOf(c);
    match k
    case SW =>
      assert r == n.(sw := c);
      ExchangeOne(a, b, d, e, v);
    case NW =>
      assert r == n.(nw := c);
      ExchangeOne(b, a, d, e, v);
    case SE =>
      assert r == n.(se := c);
      ExchangeOne(d, a, b, e, v);
    case NE =>
      assert r == n.(ne := c);
      ExchangeOne(e, a, b, d, v);
  }

  /** Swapping one of four summed vectors for another changes the sum by
      their difference, wherever the swapped one sits. */
  lemma ExchangeOne(a: Vec, b: Vec, c: Vec, d: Vec, v: Vec)
    ensures Add(Add(Add(Add(v, b), c), d), a) == Add(Add(Add(Add(a, b), c), d), v)
    ensures Add(Add(Add(Add(b, v), c), d), a) == Add(Add(Add(Add(b, a), c), d), v)
    ensures Add(Add(Add(Add(b, c), v), d), a) == Add(Add(Add(Add(b, c), a), d), v)
    ensures Add(Add(Add(Add(b, c), d), v), a) == Add(Add(Add(Add(b, c), d), a), v)
  {
  }

  lemma WithChildAggregated(n: Tree, k: Quad, c: Tree)
    requires n.Node? && k != Centre && ChildrenAggregated(n) && Aggregated(c)
    ensures ChildrenAggregated(WithChild(n, k, c)) && Aggregated(Child(n, k))
  {
    match k
    case NW =>
    case NE =>
    case SW =>
    case SE =>
  }

  /** An internal node that has already absorbed the mass `ma` at `a`
      becomes aggregated once the child of the quadrant receiving that mass
      is replaced by an aggregated tree holding it. */
  lemma ReplaceAggregatedChild(n: Tree, k: Quad, c: Tree, a: Vec, ma: real)
    requires n.Node? && k != Centre && c.Node? && ChildrenAggregated(n) && Aggregated(c)
    requires n.mass == ChildMass(n) + ma
    requires Moment(n.com, n.mass) == Add(ChildMoment(n), Moment(a, ma))
    requires MassOf(c) == MassOf(Child(n, k)) + ma
    requires MomentOf(c) == Add(MomentOf(Child(n, k)), Moment(a, ma))
    ensures Aggregated(WithChild(n, k, c))
  {
    ReplacedChildTotals(n, k, c, a, ma);
    WithChildAggregated(n, k, c);
    WithNodeIsInternal(n, k, c);
  }

  lemma WithNodeIsInternal(n: Tree, k: Quad, c: Tree)
    requires n.Node? && k != Centre && c.Node?
    ensures !IsExternal(WithChild(n, k, c))
  {
  }

  /** The replaced child brings the children's totals up to the node's. */
  lemma ReplacedChildTotals(n: Tree, k: Quad, c: Tree, a: Vec, ma: real)
    requires n.Node? && k != Centre
    requires n.mass == ChildMass(n) + ma
    requires Moment(n.com, n.mass) == Add(ChildMoment(n), Moment(a, ma))
    requires MassOf(c) == MassOf(Child(n, k)) + ma
    requires MomentOf(c) == Add(MomentOf(Child(n, k)), Moment(a, ma))
    ensures var r := WithChild(n, k, c);
            r.mass == ChildMass(r) && Moment(r.com, r.mass) == ChildMoment(r)
  {
    ReplacedChildMass(n, k, c, ma);
    ReplacedChildMoment(n, k, c, Moment(a, ma));
  }

  lemma ReplacedChildMass(n: Tree, k: Quad, c: Tree, ma: real)
    requires n.Node? && k != Centre
    requires n.mass == ChildMass(n) + ma && MassOf(c) == MassOf(Child(n, k)) + ma
    ensures WithChild(n, k, c).mass == ChildMass(WithChild(n, k, c))
  {
    WithChildMass(n, k, c);
  }

  lemma ReplacedChildMoment(n: Tree, k: Quad, c: Tree, v: Vec)
    requires n.Node? && k != Centre
    requires Moment(n.com, n.mass) == Add(ChildMoment(n), v)
    requires MomentOf(c) == Add(MomentOf(Child(n, k)), v)
    ensures var r := WithChild(n, k, c);
            Moment(r.com, r.mass) == ChildMoment(r)
  {
    var r := WithChild(n, k, c);
    WithChildMoment(n, k, c);
    AddCancel(ChildMoment(r), ChildMoment(n), MomentOf(Child(n, k)), v);
  }

  /** An aggregated internal node that absorbs the mass `ma` at `a` holds
      its children's totals plus that mass. */
  lemma AbsorbAggregates(t: Tree, a: Vec, ma: real)
    requires t.Node? && !IsExternal(t) && Positive(t) && 0.0 < ma && Aggregated(t)
    ensures var merged := Absorb(t, a, ma);
            && ChildrenAggregated(merged)
            && merged.mass == ChildMass(merged) + ma
            && Moment(merged.com, merged.mass) == Add(ChildMoment(merged), Moment(a, ma))
  {
  }

  /** A completed insertion adds the inserted mass and moment to the slot. */
  lemma InsertTotals(t: Tree, add: Tree, fuel: nat)
    requires add.Node? && Positive(add) && Positive(t)
    ensures var r := Insert(t, add, fuel);
            r.Placed? ==> && MassOf(r.tree) == MassOf(t) + add.mass
                          && MomentOf(r.tree) == Add(MomentOf(t), Moment(add.com, add.mass))
  {
    AddZero(Moment(add.com, add.mass));
  }

  /** A split leaf holds its old body in one child and nothing else, while
      its aggregate already includes the incoming mass. */
  lemma SplitAggregates(t: Tree, a: Vec, ma: real)
    requires IsExternal(t) && Positive(t) && 0.0 < ma && Quadrant(t.com, t.box) != Centre
    ensures var k := Quadrant(t.com, t.box);
            var split := WithChild(Absorb(t, a, ma), k, SplitChild(t, k));
            && ChildrenAggregated(split)
            && split.mass == ChildMass(split) + ma
            && Moment(split.com, split.mass) == Add(ChildMoment(split), Moment(a, ma))
  {
    var k := Quadrant(t.com, t.box);
    var c := SplitChild(t, k);
    LoneChildTotals(Absorb(t, a, ma), k, c);
  }

  /** A childless node given the single child `c` holds exactly what `c`
      holds in its children. */
  lemma LoneChildTotals(n: Tree, k: Quad, c: Tree)
    requires IsExternal(n) && k != Centre && Aggregated(c)
    ensures var r := WithChild(n, k, c);
            && ChildrenAggregated(r) && ChildMass(r) == MassOf(c) && ChildMoment(r) == MomentOf(c)
  {
    assert Aggregated(Empty);
    LoneChildMass(n, k, c);
    LoneChildMoment(n, k, c);
  }

  lemma LoneChildMass(n: Tree, k: Quad, c: Tree)
    requires IsExternal(n) && k != Centre
    ensures ChildMass(WithChild(n, k, c)) == MassOf(c)
  {
    match k
    case NW =>
    case NE =>
    case SW =>
    case SE =>
  }

  lemma LoneChildMoment(n: Tree, k: Quad, c: Tree)
    requires IsExternal(n) && k != Centre
    ensures ChildMoment(WithChild(n, k, c)) == MomentOf(c)
  {
    var v := MomentOf(c);
    AddZero(v);
    AddZero(Zero);
    match k
    case NW => assert ChildMoment(n.(nw := c)) == Add(Add(Add(Zero, v), Zero), Zero);
    case NE => assert ChildMoment(n.(ne := c)) == Add(Add(Add(Zero, Zero), Zero), v);
    case SW => assert ChildMoment(n.(sw := c)) == Add(Add(Add(v, Zero), Zero), Zero);
    case SE => assert ChildMoment(n.(se := c)) == Add(Add(Add(Zero, Zero), v), Zero);
  }

  /** Inserting into an internal node absorbs the body and pushes it down. */
  lemma InsertIntoInternal(t: Tree, add: Tree, fuel: nat)
    requires t.Node? && !IsExternal(t) && add.Node? && Positive(add) && Positive(t)
    ensures Insert(t, add, fuel)
            == PushDown(Absorb(t, add.com, add.mass), add.(half := t.half / 2.0), fuel)
  {
  }

  /** Inserting into a leaf whose body is off the box centre splits it,
      then pushes the new body down. */
  lemma InsertIntoLeaf(t: Tree, add: Tree, fuel: nat)
    requires IsExternal(t) && add.Node? && Positive(add) && Positive(t)
    requires Quadrant(t.com, t.box) != Centre
    ensures var k := Quadrant(t.com, t.box);
            Insert(t, add, fuel)
            == PushDown(WithChild(Absorb(t, add.com, add.mass), k, SplitChild(t, k)),
                        add.(half := t.half / 2.0), fuel)
  {
  }

  /** A body that meets no box centre is off this box's centre, and meets
      none in the box of its quadrant one level down. */
  lemma MissesCentreStep(q: Vec, p: Vec, h: real, d: nat)
    requires !HitsCentre(q, p, h, d)
    ensures Quadrant(q, p) != Centre
    ensures 0 < d ==> !HitsCentre(q, ChildCentre(p, Quadrant(q, p), h / 2.0), h / 2.0, d - 1)
  {
  }

  /** Pushing a body off the box centre down inserts it into the child of
      its quadrant. */
  lemma PushDownIntoChild(n: Tree, add: Tree, fuel: nat)
    requires n.Node? && Positive(n) && add.Node? && Positive(add)
    requires Quadrant(add.com, n.box) != Centre && 0 < fuel
    ensures var k := Quadrant(add.com, n.box);
            var r := Insert(Child(n, k), add.(box := ChildCentre(n.box, k, add.half)), fuel - 1);
            PushDown(n, add, fuel) == if r.Placed? then Placed(WithChild(n, k, r.tree)) else OutOfDepth
  {
  }

  /** Node `n` has already absorbed the mass and moment of `add`, which is
      ready to be pushed into the child of its quadrant without meeting a
      box centre, and the rest of `n` is aggregated. */
  predicate Pending(n: Tree, add: Tree, fuel: nat) {
    && n.Node? && !IsExternal(n) && Positive(n) && add.Node? && Positive(add) && IsExternal(add)
    && WellPlaced(n) && add.half == n.half / 2.0
    && Separable(n, fuel) && !HitsCentre(add.com, n.box, n.half, fuel)
    && ChildrenAggregated(n)
    && n.mass == ChildMass(n) + add.mass
    && Moment(n.com, n.mass) == Add(ChildMoment(n), Moment(add.com, add.mass))
  }

  lemma AbsorbIsPending(t: Tree, add: Tree, fuel: nat)
    requires t.Node? && !IsExternal(t)
    requires add.Node? && Positive(add) && Positive(t) && IsExternal(add) && WellPlaced(t)
    requires t.box == add.box && t.half == add.half
    requires Separable(t, fuel) && !HitsCentre(add.com, add.box, add.half, fuel)
    requires Aggregated(t)
    ensures Pending(Absorb(t, add.com, add.mass), add.(half := t.half / 2.0), fuel)
  {
    AbsorbKeepsShape(t, add.com, add.mass, fuel);
    AbsorbAggregates(t, add.com, add.mass);
  }

  lemma SplitIsPending(t: Tree, add: Tree, fuel: nat)
    requires IsExternal(t) && 0 < fuel
    requires add.Node? && Positive(add) && Positive(t) && IsExternal(add) && WellPlaced(t)
    requires t.box == add.box && t.half == add.half
    requires Separable(t, fuel) && !HitsCentre(add.com, add.box, add.half, fuel)
    ensures var k := Quadrant(t.com, t.box);
            && k != Centre
            && Pending(WithChild(Absorb(t, add.com, add.mass), k, SplitChild(t, k)),
                       add.(half := t.half / 2.0), fuel)
  {
    SplitKeepsShape(t, add.com, add.mass, fuel);
    SplitAggregates(t, add.com, add.mass);
  }

  /** Under the hypotheses of `InsertStoresBody`, a completed insertion
      keeps every node holding the totals of the bodies below it. */
  lemma {:induction false} InsertKeepsAggregated(t: Tree, add: Tree, fuel: nat)
    requires add.Node? && Positive(add) && Positive(t) && IsExternal(add) && WellPlaced(t)
    requires t.Node? ==> t.box == add.box && t.half == add.half
    requires Separable(t, fuel) && !HitsCentre(add.com, add.box, add.half, fuel)
    requires Aggregated(t)
    ensures Insert(t, add, fuel).Placed? ==> Aggregated(Insert(t, add, fuel).tree)
    decreases fuel, 3
  {
    if t.Node? {
      if !IsExternal(t) {
        InsertIntoInternalAggregated(t, add, fuel);
      } else if 0 < fuel {
        SplitLeafAggregated(t, add, fuel);
      } else {
        LeafOutOfDepth(t, add, fuel);
      }
    }
  }

  lemma {:induction false} InsertIntoInternalAggregated(t: Tree, add: Tree, fuel: nat)
    requires t.Node? && !IsExternal(t)
    requires add.Node? && Positive(add) && Positive(t) && IsExternal(add) && WellPlaced(t)
    requires t.box == add.box && t.half == add.half
    requires Separable(t, fuel) && !HitsCentre(add.com, add.box, add.half, fuel)
    requires Aggregated(t)
    ensures Insert(t, add, fuel).Placed? ==> Aggregated(Insert(t, add, fuel).tree)
    decreases fuel, 2
  {
    AbsorbIsPending(t, add, fuel);
    InsertIntoInternal(t, add, fuel);
    PushDownKeepsAggregated(Absorb(t, add.com, add.mass), add.(half := t.half / 2.0), fuel);
  }

  /** A leaf split with depth to spare: its old body moves one level down,
      then the new one follows it. */
  lemma {:induction false} SplitLeafAggregated(t: Tree, add: Tree, fuel: nat)
    requires IsExternal(t) && 0 < fuel
    requires add.Node? && Positive(add) && Positive(t) && IsExternal(add) && WellPlaced(t)
    requires t.box == add.box && t.half == add.half
    requires Separable(t, fuel) && !HitsCentre(add.com, add.box, add.half, fuel)
    ensures Insert(t, add, fuel).Placed? ==> Aggregated(Insert(t, add, fuel).tree)
    decreases fuel, 1
  {
    var k := Quadrant(t.com, t.box);
    var split := WithChild(Absorb(t, add.com, add.mass), k, SplitChild(t, k));
    SplitIsPending(t, add, fuel);
    InsertIntoLeaf(t, add, fuel);
    PushDownKeepsAggregated(split, add.(half := t.half / 2.0), fuel);
  }

  /** With no depth left, a second body never fits beside a leaf's. */
  lemma LeafOutOfDepth(t: Tree, add: Tree, fuel: nat)
    requires IsExternal(t) && add.Node? && Positive(add) && Positive(t) && fuel == 0
    requires t.box == add.box && Separable(t, fuel) && !HitsCentre(add.com, add.box, add.half, fuel)
    ensures !Insert(t, add, fuel).Placed?
  {
    MissesCentreStep(t.com, t.box, t.half, 0);
    MissesCentreStep(add.com, add.box, add.half, 0);
    InsertIntoLeaf(t, add, 0);
  }

  lemma {:induction false} PushDownKeepsAggregated(n: Tree, add: Tree, fuel: nat)
    requires Pending(n, add, fuel)
    ensures PushDown(n, add, fuel).Placed? ==> Aggregated(PushDown(n, add, fuel).tree)
    decreases fuel, 0
  {
    var k := Quadrant(add.com, n.box);
    MissesCentreStep(add.com, n.box, n.half, fuel);
    if 0 < fuel {
      var add' := add.(box := ChildCentre(n.box, k, add.half));
      PushDownIntoChild(n, add, fuel);
      ChildInsertAggregated(n, k, add', fuel - 1);
    } else {
      PushDownOutOfDepth(n, add, fuel);
    }
  }

  /** With no depth left, a body off the box centre is not stored. */
  lemma PushDownOutOfDepth(n: Tree, add: Tree, fuel: nat)
    requires n.Node? && Positive(n) && add.Node? && Positive(add)
    requires Quadrant(add.com, n.box) != Centre && fuel == 0
    ensures PushDown(n, add, fuel) == OutOfDepth
  {
  }

  /** The descent step of `PushDownKeepsAggregated`: inserting into child
      `k` and putting the result back in its slot. */
  lemma {:induction false} ChildInsertAggregated(n: Tree, k: Quad, add: Tree, fuel: nat)
    requires n.Node? && k != Centre && Positive(n) && add.Node? && Positive(add) && IsExternal(add)
    requires WellPlaced(n) && add.half == n.half / 2.0 && add.box == ChildCentre(n.box, k, add.half)
    requires Separable(n, fuel + 1) && !HitsCentre(add.com, add.box, add.half, fuel)
    requires ChildrenAggregated(n)
    requires n.mass == ChildMass(n) + add.mass
    requires Moment(n.com, n.mass) == Add(ChildMoment(n), Moment(add.com, add.mass))
    ensures var r := Insert(Child(n, k), add, fuel);
            r.Placed? ==> Aggregated(WithChild(n, k, r.tree))
    decreases fuel, 5
  {
    WithChildAggregated(n, k, Child(n, k));
    InsertIntoSlot(n, k, add, fuel);
    var r := Insert(Child(n, k), add, fuel);
    if r.Placed? {
      ReplaceAggregatedChild(n, k, r.tree, add.com, add.mass);
    }
  }

  /** Inserting into an aggregated child slot gives an aggregated slot
      whose totals grew by the inserted body. */
  lemma {:induction false} InsertIntoSlot(n: Tree, k: Quad, add: Tree, fuel: nat)
    requires n.Node? && k != Centre && Positive(n) && add.Node? && Positive(add) && IsExternal(add)
    requires WellPlaced(n) && add.half == n.half / 2.0 && add.box == ChildCentre(n.box, k, add.half)
    requires Separable(n, fuel + 1) && !HitsCentre(add.com, add.box, add.half, fuel)
    requires Aggregated(Child(n, k))
    ensures var r := Insert(Child(n, k), add, fuel);
            r.Placed? ==> && Aggregated(r.tree)
                          && MassOf(r.tree) == MassOf(Child(n, k)) + add.mass
                          && MomentOf(r.tree) == Add(MomentOf(Child(n, k)), Moment(add.com, add.mass))
    decreases fuel, 4
  {
    ChildOfPlaced(n, k);
    SeparableChild(n, k, fuel + 1);
    InsertKeepsAggregated(Child(n, k), add, fuel);
    InsertTotals(Child(n, k), add, fuel);
  }

  /** The tree of a time step aggregates at every node, as long as no body
      meets a box centre on its way down within the depth bound: each node
      holds the total mass of the bodies below it, at their mass-weighted
      mean position. */
  lemma {:induction false} BuildAggregates(cs: seq<Vec>, ms: seq<real>, fuel: nat)
    requires |cs| == |ms|
    requires forall i :: 0 <= i < |ms| ==> 0.0 < ms[i]
    requires forall i :: 0 <= i < |cs| ==> !HitsCentre(cs[i], Vec(0.5, 0.5), 0.5, fuel)
    ensures Build(cs, ms, fuel).Placed? ==> Aggregated(Build(cs, ms, fuel).tree)
    decreases |cs|
  {
    if |cs| > 0 {
      var n := |cs| - 1;
      BuildLast(cs, ms, fuel);
      BuildAggregates(cs[..n], ms[..n], fuel);
      BuildStoresEveryBody(cs[..n], ms[..n], fuel);
      BuildIsWellFormed(cs[..n], ms[..n], fuel);
      var r := Build(cs[..n], ms[..n], fuel);
      if r.Placed? {
        InsertKeepsAggregated(r.tree, NewNode(cs[n], ms[n]), fuel);
      }
    }
  }

  // ---------------------------------------------------------------------
  // When an insertion completes

  /** A body at `b` arriving at a leaf that holds a body at `a`, in the box
      centred at `p` with half width `h`, is stored within `d` further
      levels: it sits on the box centre, or there is a level left and the
      old body sits on the centre (and is dropped), or the two bodies lie in
      different quadrants, or they part further down in the old body's
      quadrant. */
  predicate Parts(a: Vec, b: Vec, p: Vec, h: real, d: nat)
    decreases d
  {
    || Quadrant(b, p) == Centre
    || (0 < d && (|| Quadrant(a, p) == Centre
                  || Quadrant(b, p) != Quadrant(a, p)
                  || Parts(a, b, ChildCentre(p, Quadrant(a, p), h / 2.0), h / 2.0, d - 1)))
  }

  /** Inserting into a leaf completes exactly when the two bodies part
      within the depth bound. */
  lemma {:induction false} LeafInsertCompletes(t: Tree, add: Tree, fuel: nat)
    requires IsExternal(t) && Positive(t) && add.Node? && Positive(add)
    ensures Insert(t, add, fuel).Placed? <==> Parts(t.com, add.com, t.box, t.half, fuel)
    decreases fuel, 2
  {
    if Quadrant(t.com, t.box) == Centre {
      CentreLeafInsertCompletes(t, add, fuel);
    } else {
      SplitLeafInsertCompletes(t, add, fuel);
    }
  }

  /** A leaf whose body is off its box centre is split, and the new body
      either finds an empty slot or meets the old one again one level down. */
  lemma {:induction false} SplitLeafInsertCompletes(t: Tree, add: Tree, fuel: nat)
    requires IsExternal(t) && Positive(t) && add.Node? && Positive(add)
    requires Quadrant(t.com, t.box) != Centre
    ensures Insert(t, add, fuel).Placed? <==> Parts(t.com, add.com, t.box, t.half, fuel)
    decreases fuel, 1
  {
    var kb := Quadrant(add.com, t.box);
    if kb == Centre || fuel == 0 {
      SplitLeafShallow(t, add, fuel);
    } else if kb != Quadrant(t.com, t.box) {
      SplitLeafApart(t, add, fuel);
    } else {
      SplitLeafTogether(t, add, fuel);
    }
  }

  /** On the box centre the new body stays in the split node; with no level
      left and off the centre it is not stored. */
  lemma SplitLeafShallow(t: Tree, add: Tree, fuel: nat)
    requires IsExternal(t) && Positive(t) && add.Node? && Positive(add)
    requires Quadrant(t.com, t.box) != Centre
    requires Quadrant(add.com, t.box) == Centre || fuel == 0
    ensures Insert(t, add, fuel).Placed? <==> Parts(t.com, add.com, t.box, t.half, fuel)
  {
    var k := Quadrant(t.com, t.box);
    var split := WithChild(Absorb(t, add.com, add.mass), k, SplitChild(t, k));
    InsertIntoLeaf(t, add, fuel);
    if Quadrant(add.com, t.box) != Centre {
      PushDownOutOfDepth(split, add.(half := t.half / 2.0), fuel);
    }
  }

  /** Bodies in different quadrants part at once: the new one takes an
      empty slot. */
  lemma SplitLeafApart(t: Tree, add: Tree, fuel: nat)
    requires IsExternal(t) && Positive(t) && add.Node? && Positive(add)
    requires Quadrant(t.com, t.box) != Centre && Quadrant(add.com, t.box) != Centre && 0 < fuel
    requires Quadrant(add.com, t.box) != Quadrant(t.com, t.box)
    ensures Insert(t, add, fuel).Placed? && Parts(t.com, add.com, t.box, t.half, fuel)
  {
    var k := Quadrant(t.com, t.box);
    var kb := Quadrant(add.com, t.box);
    var split := WithChild(Absorb(t, add.com, add.mass), k, SplitChild(t, k));
    InsertIntoLeaf(t, add, fuel);
    PushDownIntoChild(split, add.(half := t.half / 2.0), fuel);
    assert Child(split, kb) == Empty;
  }

  /** Bodies in the same quadrant meet again at the old body's new leaf. */
  lemma {:induction false} SplitLeafTogether(t: Tree, add: Tree, fuel: nat)
    requires IsExternal(t) && Positive(t) && add.Node? && Positive(add)
    requires Quadrant(t.com, t.box) != Centre && 0 < fuel
    requires Quadrant(add.com, t.box) == Quadrant(t.com, t.box)
    ensures Insert(t, add, fuel).Placed? <==> Parts(t.com, add.com, t.box, t.half, fuel)
    decreases fuel, 0
  {
    var k := Quadrant(t.com, t.box);
    var leaf := SplitChild(t, k);
    var next := add.(half := t.half / 2.0, box := ChildCentre(t.box, k, t.half / 2.0));
    SplitLeafStep(t, add, fuel);
    PartsOffCentre(t.com, add.com, t.box, t.half, fuel);
    LeafInsertCompletes(leaf, next, fuel - 1);
  }

  /** After a split, a body in the old body's quadrant completes exactly
      when its insertion into the old body's new leaf does. */
  lemma SplitLeafStep(t: Tree, add: Tree, fuel: nat)
    requires IsExternal(t) && Positive(t) && add.Node? && Positive(add)
    requires Quadrant(t.com, t.box) != Centre && 0 < fuel
    requires Quadrant(add.com, t.box) == Quadrant(t.com, t.box)
    ensures var k := Quadrant(t.com, t.box);
            Insert(t, add, fuel).Placed?
            <==> Insert(SplitChild(t, k), add.(half := t.half / 2.0, box := ChildCentre(t.box, k, t.half / 2.0)),
                        fuel - 1).Placed?
  {
    var k := Quadrant(t.com, t.box);
    var split := WithChild(Absorb(t, add.com, add.mass), k, SplitChild(t, k));
    var add' := add.(half := t.half / 2.0);
    InsertIntoLeaf(t, add, fuel);
    PushDownCompletes(split, add', fuel);
    assert Child(split, k) == SplitChild(t, k);
  }

  /** Pushing a body off the box centre down completes exactly when its
      insertion into the child of its quadrant does. */
  lemma PushDownCompletes(n: Tree, add: Tree, fuel: nat)
    requires n.Node? && Positive(n) && add.Node? && Positive(add)
    requires Quadrant(add.com, n.box) != Centre && 0 < fuel
    ensures var k := Quadrant(add.com, n.box);
            PushDown(n, add, fuel).Placed?
            <==> Insert(Child(n, k), add.(box := ChildCentre(n.box, k, add.half)), fuel - 1).Placed?
  {
    PushDownIntoChild(n, add, fuel);
  }

  /** Off the box centre and with a level left, two bodies part exactly when
      they lie in different quadrants or part one level down. */
  lemma PartsOffCentre(a: Vec, b: Vec, p: Vec, h: real, d: nat)
    requires Quadrant(a, p) != Centre && Quadrant(b, p) != Centre && 0 < d
    ensures Parts(a, b, p, h, d)
            <==> Quadrant(b, p) != Quadrant(a, p)
                 || Parts(a, b, ChildCentre(p, Quadrant(a, p), h / 2.0), h / 2.0, d - 1)
  {
  }

  /** For two bodies at one position, parting is meeting a box centre on
      the way down, so `LeafInsertCompletes` gives the converse of
      `DuplicatesNeverSeparate`. */
  lemma {:induction false} DuplicatesPartAtCentre(a: Vec, p: Vec, h: real, d: nat)
    ensures Parts(a, a, p, h, d) <==> HitsCentre(a, p, h, d)
    decreases d
  {
    if 0 < d && Quadrant(a, p) != Centre {
      DuplicatesPartAtCentre(a, ChildCentre(p, Quadrant(a, p), h / 2.0), h / 2.0, d - 1);
    }
  }

  /** A leaf whose body sits on its box centre drops that body, and the new
      body then finds an empty slot whenever a level is left. */
  lemma CentreLeafInsertCompletes(t: Tree, add: Tree, fuel: nat)
    requires IsExternal(t) && Positive(t) && add.Node? && Positive(add)
    requires Quadrant(t.com, t.box) == Centre
    ensures Insert(t, add, fuel).Placed? <==> Parts(t.com, add.com, t.box, t.half, fuel)
  {
    var kb := Quadrant(add.com, t.box);
    var merged := Absorb(t, add.com, add.mass);
    var add' := add.(half := t.half / 2.0);
    assert Insert(t, add, fuel) == PushDown(merged, add', fuel);
    if kb != Centre && 0 < fuel {
      PushDownIntoChild(merged, add', fuel);
      assert Child(merged, kb) == Empty;
    }
  }

  /** A non-empty slot stores at least one body. */
  lemma {:induction false} NodeHasPosition(t: Tree)
    requires t.Node?
    ensures Positions(t) != {}
    decreases t
  {
    if !IsExternal(t) {
      if t.nw.Node? {
        NodeHasPosition(t.nw);
      } else if t.ne.Node? {
        NodeHasPosition(t.ne);
      } else if t.sw.Node? {
        NodeHasPosition(t.sw);
      } else {
        NodeHasPosition(t.se);
      }
    }
  }

  /** The bodies stored in child `k` are bodies of the node, and lie in its
      quadrant `k`. */
  lemma ChildPositionsInQuadrant(t: Tree, k: Quad)
    requires t.Node? && !IsExternal(t) && k != Centre && Sorted(t)
    ensures forall c :: c in Positions(Child(t, k)) ==> c in Positions(t) && Quadrant(c, t.box) == k
  {
    match k
    case NW =>
    case NE =>
    case SW =>
    case SE =>
  }

  /** Inserting into a tree completes when the new body parts, within the
      depth bound, from every body already stored, each followed from the
      root box. */
  lemma {:induction false} InsertCompletes(t: Tree, add: Tree, fuel: nat)
    requires add.Node? && Positive(add) && Positive(t) && WellPlaced(t) && Sorted(t)
    requires forall c :: c in Positions(t) ==> Parts(c, add.com, t.box, t.half, fuel)
    ensures Insert(t, add, fuel).Placed?
    decreases fuel
  {
    if IsExternal(t) {
      assert t.com in Positions(t);
      LeafInsertCompletes(t, add, fuel);
    } else if t.Node? {
      var kb := Quadrant(add.com, t.box);
      var merged := Absorb(t, add.com, add.mass);
      var add' := add.(half := t.half / 2.0);
      InsertIntoInternal(t, add, fuel);
      if kb != Centre {
        PartsInChild(t, add.com, fuel);
        PushDownIntoChild(merged, add', fuel);
        assert Child(merged, kb) == Child(t, kb);
        if Child(t, kb).Node? {
          InsertCompletes(Child(t, kb), add'.(box := ChildCentre(merged.box, kb, add'.half)), fuel - 1);
        }
      }
    }
  }

  /** A body off the centre of an internal node that parts from all the
      node's bodies has a level left, and parts from all the bodies of the
      child of its quadrant, followed from that child's box. */
  lemma PartsInChild(t: Tree, b: Vec, fuel: nat)
    requires t.Node? && !IsExternal(t) && Positive(t) && WellPlaced(t) && Sorted(t)
    requires Quadrant(b, t.box) != Centre
    requires forall c :: c in Positions(t) ==> Parts(c, b, t.box, t.half, fuel)
    ensures var child := Child(t, Quadrant(b, t.box));
            && 0 < fuel
            && Positive(child) && WellPlaced(child) && Sorted(child)
            && (child.Node? ==>
                  && child.box == ChildCentre(t.box, Quadrant(b, t.box), t.half / 2.0)
                  && child.half == t.half / 2.0
                  && forall c :: c in Positions(child) ==> Parts(c, b, child.box, child.half, fuel - 1))
  {
    var kb := Quadrant(b, t.box);
    var child := Child(t, kb);
    NodeHasPosition(t);
    var c0 :| c0 in Positions(t);
    PartsNeedALevel(c0, b, t.box, t.half, fuel);
    ChildOfPlaced(t, kb);
    ChildIsSorted(t, kb);
    if child.Node? {
      ChildPositionsInQuadrant(t, kb);
      forall c | c in Positions(child)
        ensures Parts(c, b, child.box, child.half, fuel - 1)
      {
        PartsStep(c, b, t.box, t.half, fuel);
      }
    }
  }

  lemma PartsNeedALevel(a: Vec, b: Vec, p: Vec, h: real, d: nat)
    requires Parts(a, b, p, h, d) && Quadrant(b, p) != Centre
    ensures 0 < d
  {
  }

  /** Two bodies in the same quadrant that part do so within that quadrant,
      one level down. */
  lemma PartsStep(a: Vec, b: Vec, p: Vec, h: real, d: nat)
    requires Parts(a, b, p, h, d) && Quadrant(b, p) != Centre && Quadrant(a, p) == Quadrant(b, p)
    ensures 0 < d && Parts(a, b, ChildCentre(p, Quadrant(b, p), h / 2.0), h / 2.0, d - 1)
  {
  }

  lemma ChildIsSorted(t: Tree, k: Quad)
    requires t.Node? && Sorted(t)
    ensures Sorted(Child(t, k))
  {
    match k
    case Centre =>
    case NW =>
    case NE =>
    case SW =>
    case SE =>
  }

  /** A build inserts its last body into the tree of the others. */
  lemma BuildSnoc(cs: seq<Vec>, ms: seq<real>, fuel: nat)
    requires |cs| == |ms| && 0 < |cs|
    requires forall i :: 0 <= i < |ms| ==> 0.0 < ms[i]
    ensures var n := |cs| - 1;
            && (forall i :: 0 <= i < n ==> 0.0 < ms[..n][i])
            && Build(cs, ms, fuel)
               == if Build(cs[..n], ms[..n], fuel).Placed?
                  then Insert(Build(cs[..n], ms[..n], fuel).tree, NewNode(cs[n], ms[n]), fuel)
                  else OutOfDepth
  {
    var n := |cs| - 1;
    assert forall i :: 0 <= i < n ==> ms[..n][i] == ms[i];
  }

  /** Every body stored by a build is one of the input bodies. */
  lemma {:induction false} BuildKeepsPositions(cs: seq<Vec>, ms: seq<real>, fuel: nat)
    requires |cs| == |ms|
    requires forall i :: 0 <= i < |ms| ==> 0.0 < ms[i]
    ensures Build(cs, ms, fuel).Placed? ==>
              forall c :: c in Positions(Build(cs, ms, fuel).tree) ==> c in cs
    decreases |cs|
  {
    if |cs| > 0 {
      var n := |cs| - 1;
      BuildSnoc(cs, ms, fuel);
      BuildKeepsPositions(cs[..n], ms[..n], fuel);
      var r := Build(cs[..n], ms[..n], fuel);
      if r.Placed? {
        InsertKeepsPositions(r.tree, NewNode(cs[n], ms[n]), fuel);
        PrefixElements(cs, n);
      }
    }
  }

  lemma PrefixElements(cs: seq<Vec>, n: nat)
    requires n <= |cs|
    ensures forall c :: c in cs[..n] ==> c in cs
  {
    assert forall i :: 0 <= i < n ==> cs[..n][i] == cs[i];
  }

  /** A build completes when each body parts, within the depth bound, from
      every body inserted before it, followed from the root box. */
  lemma {:induction false} BuildCompletes(cs: seq<Vec>, ms: seq<real>, fuel: nat)
    requires |cs| == |ms|
    requires forall i :: 0 <= i < |ms| ==> 0.0 < ms[i]
    requires forall i, j :: 0 <= i < j < |cs| ==> Parts(cs[i], cs[j], Vec(0.5, 0.5), 0.5, fuel)
    ensures Build(cs, ms, fuel).Placed?
    decreases |cs|
  {
    if |cs| > 0 {
      var n := |cs| - 1;
      BuildSnoc(cs, ms, fuel);
      PartsPrefix(cs, fuel);
      BuildCompletes(cs[..n], ms[..n], fuel);
      BuildIsWellFormed(cs[..n], ms[..n], fuel);
      BuildKeepsPositions(cs[..n], ms[..n], fuel);
      LastBodyParts(cs, Build(cs[..n], ms[..n], fuel).tree, fuel);
      InsertCompletes(Build(cs[..n], ms[..n], fuel).tree, NewNode(cs[n], ms[n]), fuel);
    }
  }

  lemma PartsPrefix(cs: seq<Vec>, fuel: nat)
    requires 0 < |cs|
    requires forall i, j :: 0 <= i < j < |cs| ==> Parts(cs[i], cs[j], Vec(0.5, 0.5), 0.5, fuel)
    ensures var n := |cs| - 1;
            forall i, j :: 0 <= i < j < n ==> Parts(cs[..n][i], cs[..n][j], Vec(0.5, 0.5), 0.5, fuel)
  {
  }

  /** The last body parts from every body of a tree built from the others. */
  lemma LastBodyParts(cs: seq<Vec>, t: Tree, fuel: nat)
    requires 0 < |cs|
    requires forall i, j :: 0 <= i < j < |cs| ==> Parts(cs[i], cs[j], Vec(0.5, 0.5), 0.5, fuel)
    requires forall c :: c in Positions(t) ==> c in cs[..|cs| - 1]
    requires t.Node? ==> t.box == Vec(0.5, 0.5) && t.half == 0.5
    ensures forall c :: c in Positions(t) ==> Parts(c, cs[|cs| - 1], t.box, t.half, fuel)
  {
    var n := |cs| - 1;
    forall c | c in Positions(t)
      ensures Parts(c, cs[n], t.box, t.half, fuel)
    {
      var i :| 0 <= i < n && cs[..n][i] == c;
      assert Parts(cs[i], cs[n], Vec(0.5, 0.5), 0.5, fuel);
    }
  }

  /** Unit masses at (0.1, 0.1), (0.9, 0.9) and (0.2, 0.2): the first two
      part at the root, the first and third only two levels further down,
      in the box centred at (0.125, 0.125), so the build needs three levels. */
  lemma ThreeBodiesPart(cs: seq<Vec>, ms: seq<real>)
    requires cs == [Vec(0.1, 0.1), Vec(0.9, 0.9), Vec(0.2, 0.2)] && ms == [1.0, 1.0, 1.0]
    ensures Build(cs, ms, 3).Placed?
  {
    var root := Vec(0.5, 0.5);
    assert Parts(cs[0], cs[1], root, 0.5, 3);
    assert Parts(cs[1], cs[2], root, 0.5, 3);
    assert Parts(cs[0], cs[2], Vec(0.125, 0.125), 0.125, 1);
    assert Parts(cs[0], cs[2], Vec(0.25, 0.25), 0.25, 2);
    assert Parts(cs[0], cs[2], root, 0.5, 3);
    BuildCompletes(cs, ms, 3);
  }

  /** With one level fewer the same build runs out of depth: the third body
      reaches the first one's leaf at (0.25, 0.25) with a single level left,
      and the two only part a level below that. */
  lemma ThreeBodiesNeedThreeLevels(cs: seq<Vec>, ms: seq<real>)
    requires cs == [Vec(0.1, 0.1), Vec(0.9, 0.9), Vec(0.2, 0.2)] && ms == [1.0, 1.0, 1.0]
    ensures Build(cs, ms, 2) == OutOfDepth
  {
    var a := NewNode(cs[0], 1.0);
    var b := NewNode(cs[1], 1.0);
    var c := NewNode(cs[2], 1.0);
    assert Build(cs[..1], ms[..1], 2) == Placed(a) by {
      assert cs[..1][..0] == [];
    }
    SplitKeepsOldBody(a, b, 2);
    assert Build(cs[..2], ms[..2], 2) == Insert(a, b, 2) by {
      assert cs[..2][..1] == cs[..1] && ms[..2][..1] == ms[..1];
    }
    var t := Insert(a, b, 2).tree;
    var leaf := SplitChild(a, SW);
    assert Child(t, SW) == leaf;
    assert Build(cs, ms, 2) == Insert(t, c, 2) by {
      assert cs[..2] == cs[..|cs| - 1] && ms[..2] == ms[..|ms| - 1];
    }
    InsertIntoInternal(t, c, 2);
    var merged := Absorb(t, c.com, c.mass);
    var c' := c.(half := t.half / 2.0);
    PushDownIntoChild(merged, c', 2);
    assert Child(merged, SW) == leaf;
    LeafInsertCompletes(leaf, c'.(box := ChildCentre(merged.box, SW, c'.half)), 1);
    assert !Parts(cs[0], cs[2], Vec(0.25, 0.25), 0.25, 1);
  }
}
