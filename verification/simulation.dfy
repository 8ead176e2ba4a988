/** One time step of the threaded Barnes-Hut simulator: build the tree,
    let every thread accumulate the forces of its block of bodies into a
    zeroed force array, join, then advance velocities and positions with
    the semi-implicit Euler rule. */
module Simulation {
  import opened Vectors
  import opened Gravity
  import opened Quadtree
  import opened BarnesHut
  import opened Partition

  /** Work of thread `rank`: for every index in its range, the force on that
      body is accumulated into the shared array; no other entry is touched. */
  ghost function RunThread(F: seq<Vec>, cs: seq<Vec>, G: real, t: Tree, theta: real,
                           threads: nat, rank: nat): (F': seq<Vec>)
    requires |F| == |cs| && 0 < threads && rank < threads
    ensures |F'| == |F|
    ensures forall i :: 0 <= i < |F| && !Range(|F|, threads, rank).Contains(i) ==> F'[i] == F[i]
  {
    var s := Range(|F|, threads, rank);
    seq(|F|, i requires 0 <= i < |F| =>
      if s.Contains(i) then Add(F[i], Force(G, cs[i], t, theta)) else F[i])
  }

  /** The shared array once threads 0 .. k-1 have finished: exactly the
      bodies owned by those threads have received their force, once. */
  ghost function RunThreads(F: seq<Vec>, cs: seq<Vec>, G: real, t: Tree, theta: real,
                            threads: nat, k: nat): (F': seq<Vec>)
    requires |F| == |cs| && 0 < threads && k <= threads
    ensures |F'| == |F|
    ensures forall i :: 0 <= i < |F| ==>
              F'[i] == if Owner(|F|, threads, i) < k then Add(F[i], Force(G, cs[i], t, theta)) else F[i]
    decreases k
  {
    if k == 0 then F
    else RunThread(RunThreads(F, cs, G, t, theta, threads, k - 1), cs, G, t, theta, threads, k - 1)
  }

  /** Threads write disjoint slices, so the order in which they finish does
      not change the force array. */
  lemma ThreadsCommute(F: seq<Vec>, cs: seq<Vec>, G: real, t: Tree, theta: real,
                       threads: nat, a: nat, b: nat)
    requires |F| == |cs| && 0 < threads && a < threads && b < threads
    ensures RunThread(RunThread(F, cs, G, t, theta, threads, a), cs, G, t, theta, threads, b)
         == RunThread(RunThread(F, cs, G, t, theta, threads, b), cs, G, t, theta, threads, a)
  {
    var ab := RunThread(RunThread(F, cs, G, t, theta, threads, a), cs, G, t, theta, threads, b);
    var ba := RunThread(RunThread(F, cs, G, t, theta, threads, b), cs, G, t, theta, threads, a);
    forall i | 0 <= i < |F|
      ensures ab[i] == ba[i]
    {
      RangesPartitionIndices(|F|, threads, i, a, b);
    }
  }

  function Zeros(n: nat): (z: seq<Vec>)
    ensures |z| == n && forall i :: 0 <= i < n ==> z[i] == Zero
  {
    seq(n, _ => Zero)
  }

  /** The force phase of a step: a zeroed array, all threads run and
      joined. Every body ends up with exactly the force evaluator's value. */
  ghost function ForcePhase(cs: seq<Vec>, G: real, t: Tree, theta: real, threads: nat): (F: seq<Vec>)
    requires 0 < threads
    ensures |F| == |cs|
    ensures forall i :: 0 <= i < |cs| ==> F[i] == Force(G, cs[i], t, theta)
  {
    var F := RunThreads(Zeros(|cs|), cs, G, t, theta, threads, threads);
    assert forall i :: 0 <= i < |cs| ==> Owner(|cs|, threads, i) < threads;
    F
  }

  /** Semi-implicit Euler: velocities are advanced by the force first, and
      positions by the new velocities. */
  function Integrate(C: seq<Vec>, V: seq<Vec>, F: seq<Vec>, dt: real): (r: (seq<Vec>, seq<Vec>))
    requires |C| == |V| == |F|
    ensures |r.0| == |C| && |r.1| == |C|
    ensures forall i :: 0 <= i < |C| ==> r.1[i] == Add(V[i], Scale(dt, F[i]))
    ensures forall i :: 0 <= i < |C| ==> r.0[i] == Add(C[i], Scale(dt, r.1[i]))
    ensures forall i :: 0 <= i < |C| ==>
              r.0[i] == Add(Add(C[i], Scale(dt, V[i])), Scale(dt * dt, F[i]))
  {
    var V' := seq(|V|, i requires 0 <= i < |V| => Vec(V[i].x + dt * F[i].x, V[i].y + dt * F[i].y));
    var C' := seq(|C|, i requires 0 <= i < |C| => Vec(C[i].x + V'[i].x * dt, C[i].y + V'[i].y * dt));
    (C', V')
  }

  /** The bodies of the threaded simulator: positions, velocities, masses
      and brightness, indexed by body. */
  datatype State = State(pos: seq<Vec>, vel: seq<Vec>, mass: seq<real>, brightness: seq<real>)

  ghost predicate Valid(s: State) {
    && |s.pos| == |s.vel| == |s.mass| == |s.brightness|
    && forall i :: 0 <= i < |s.mass| ==> 0.0 < s.mass[i]
  }

  /** The gravitational constant used for N bodies, 100 / N. */
  function GravityConstant(n: nat): (G: real)
    requires 0 < n
    ensures 0.0 < G && G * (n as real) == 100.0
  {
    100.0 / (n as real)
  }

  datatype StepResult = Stepped(next: State) | TooDeep

  /** One time step with approximation parameter `theta`, `threads` worker
      threads and insertion depth bound `fuel`. */
  ghost function Step(s: State, dt: real, theta: real, threads: nat, fuel: nat): (r: StepResult)
    requires Valid(s) && 0 < threads
    ensures r.TooDeep? <==> Build(s.pos, s.mass, fuel).OutOfDepth?
    ensures r.Stepped? ==>
              && Valid(r.next)
              && r.next.mass == s.mass && r.next.brightness == s.brightness
    ensures r.Stepped? && 0 < |s.pos| ==>
              var t := Build(s.pos, s.mass, fuel).tree;
              var G := GravityConstant(|s.pos|);
              forall i :: 0 <= i < |s.pos| ==>
                && r.next.vel[i] == Add(s.vel[i], Scale(dt, Force(G, s.pos[i], t, theta)))
                && r.next.pos[i] == Add(s.pos[i], Scale(dt, r.next.vel[i]))
  {
    match Build(s.pos, s.mass, fuel)
    case OutOfDepth => TooDeep
    case Placed(t) =>
      if |s.pos| == 0 then Stepped(s)
      else
        var F := ForcePhase(s.pos, GravityConstant(|s.pos|), t, theta, threads);
        var (C', V') := Integrate(s.pos, s.vel, F, dt);
        Stepped(s.(pos := C', vel := V'))
  }

  /** The velocity a step gives body i, once the tree of the step is known. */
  lemma StepVelocity(s: State, dt: real, theta: real, threads: nat, fuel: nat, t: Tree, i: nat)
    requires Valid(s) && 0 < threads && i < |s.pos|
    requires Build(s.pos, s.mass, fuel) == Placed(t)
    ensures var r := Step(s, dt, theta, threads, fuel);
            && r.Stepped?
            && r.next.vel[i] == Add(s.vel[i], Scale(dt, Force(GravityConstant(|s.pos|), s.pos[i], t, theta)))
  {
  }

  /** A body at rest is given dt times the force on it as its velocity. */
  lemma StepFromRest(s: State, dt: real, theta: real, threads: nat, fuel: nat, t: Tree, i: nat)
    requires Valid(s) && 0 < threads && i < |s.pos| && s.vel[i] == Zero
    requires Build(s.pos, s.mass, fuel) == Placed(t)
    ensures var r := Step(s, dt, theta, threads, fuel);
            && r.Stepped?
            && r.next.vel[i] == Scale(dt, Force(GravityConstant(|s.pos|), s.pos[i], t, theta))
  {
    StepVelocity(s, dt, theta, threads, fuel, t, i);
  }

  /** The tree of a single body is that body's fresh node, and the body
      feels no force from it. */
  lemma LoneBodyFeelsNothing(s: State, theta: real, fuel: nat)
    requires Valid(s) && |s.pos| == 1
    ensures Build(s.pos, s.mass, fuel) == Placed(NewNode(s.pos[0], s.mass[0]))
    ensures Force(GravityConstant(1), s.pos[0], NewNode(s.pos[0], s.mass[0]), theta) == Zero
  {
    assert s.pos[..0] == [] && s.mass[..0] == [];
  }

  lemma NoForceKeepsVelocity(v: Vec, dt: real)
    ensures Add(v, Scale(dt, Zero)) == v
  {
  }

  /** A lone body feels no force: its velocity is kept and it drifts along
      it, whatever the depth bound. */
  lemma LoneBodyDrifts(s: State, dt: real, theta: real, threads: nat, fuel: nat)
    requires Valid(s) && 0 < threads && |s.pos| == 1
    ensures Step(s, dt, theta, threads, fuel).Stepped?
    ensures var n := Step(s, dt, theta, threads, fuel).next;
            && n.vel[0] == s.vel[0]
            && n.pos[0] == Add(s.pos[0], Scale(dt, s.vel[0]))
  {
    LoneBodyFeelsNothing(s, theta, fuel);
    NoForceKeepsVelocity(s.vel[0], dt);
  }
}
