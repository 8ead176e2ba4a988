# Galaxy simulation: Barnes-Hut quadtree, work split and brute-force step

This project models, over exact reals, the numerical core of a 2-D
gravitational N-body ("galaxy") simulator in two variants:

- **The threaded Barnes-Hut simulator** (`Assignment5/main.c`). Each time
  step builds a fresh quadtree over the unit square: `new_qt` makes a node,
  `qt_add` inserts it, and `check_quadrant` picks the quadrant. Worker
  threads then evaluate the force on their own contiguous block of bodies
  (`thread_force`, `force_BH_one_body`). Last, a semi-implicit Euler
  integrator advances velocities and positions.
- **The brute-force reference step** (`Assignment3/A3/main.c`, `step`). It
  sums the softened pairwise pull over all other bodies, then performs the
  same velocity-then-position update.

Modules, one per file:

| file | module | contents |
|---|---|---|
| `vectors.dfy` | `Vectors` | 2-D vectors, sums of vectors, a square root |
| `gravity.dfy` | `Gravity` | the softened pull `-G m / (r + 0.001)^3` times the displacement |
| `quadtree.dfy` | `Quadtree` | nodes, quadrant test, insertion, building the tree of a step |
| `barnes_hut.dfy` | `BarnesHut` | the force traversal with the opening test |
| `partition.dfy` | `Partition` | the `ceil(N/T)` index split between threads |
| `simulation.dfy` | `Simulation` | threads writing into the force array, integration, one full step |
| `scenarios.dfy` | `Scenarios` | a worked two-body step |
| `agreement.dfy` | `Agreement` | the Barnes-Hut force with theta 0 against the brute-force force |
| `brute_force.dfy` | `BruteForce` | the O(N^2) step, cancellation of pair forces, momentum |

Notes on the model:

- **The centre of a box.** `check_quadrant` (Assignment5/main.c:402-409)
  returns code 0 for a point exactly on the box centre, so such a point
  belongs to no quadrant.
  - `qt_add` then still adds the body's mass to the node's aggregate but
    stores the body nowhere (`CentreBodyIsDropped`).
  - On a leaf split, the old body is likewise not re-attached when it sits
    on the centre.
  - So an internal node's mass can exceed the total mass of the leaves
    below it (`ThirdBodyOnRootCentreIsLost`).
  - When no body meets a box centre on its way down, nothing is lost: the
    leaves of the tree are exactly the bodies of the step
    (`BuildStoresEveryBody`), and with theta 0 the traversal gives the exact
    pairwise sum over all of them (`ThetaZeroIsExactSum`). Every node, not
    only the root, then holds the total mass of the bodies below it at
    their mass-weighted mean position (`BuildAggregates`), which is the
    aggregate the traversal uses for a node it does not open
    (`FarNodeActsAsItsBodies`). The theta-0 acceleration times the body's
    mass is the brute-force simulator's force on that body
    (`ThetaZeroMatchesBruteForce`).
- **Bounded recursion.** `qt_add` recurses without bound for two bodies at
  one position, unless that position is the centre of a box on their way
  down, where both are absorbed into one leaf (`DuplicatesNeverSeparate`). It does the same for two
  distinct bodies outside the unit square that stay in one quadrant. The
  model therefore gives `Insert` a depth bound `fuel`, counting nested
  recursive calls, and reports `OutOfDepth` when the bound runs out.
  `MoreFuelSameTree` shows the bound never changes a completed result.
  Inserting into a leaf completes exactly when the two bodies part within
  the bound (`Parts`, `LeafInsertCompletes`):
  - the new body sits on the box centre; or
  - with a level left, the old body sits on the centre, or the two lie in
    different quadrants, or they part one level down in the old body's
    quadrant.

  For a whole tree, it is enough that the new body parts in this way from
  every stored body (`InsertCompletes`). For a whole step, it is enough
  that each body parts from every earlier one (`BuildCompletes`). Unit
  masses at (0.1, 0.1), (0.9, 0.9) and (0.2, 0.2), for instance, complete
  with three levels but not with two (`ThreeBodiesPart`,
  `ThreeBodiesNeedThreeLevels`).
- **The square root.** `Vectors.Sqrt` returns the non-negative root where
  one exists, and 0 where none does. Its contract states all three facts:
  the value is non-negative, it squares back to its argument wherever a
  root exists, and it is 0 otherwise. The proofs use all three: the prover
  cannot construct roots such as that of 0.08, so `Scenarios.RootIsOpened`
  and the scenarios after it also go through the branch with no root.
  Over the reals that branch only happens for a negative argument, which
  `Norm` never passes.
- **Threads.** The threads are modelled as functions applied one after
  another to the shared force array. `ThreadsCommute` shows that the order
  in which they finish does not matter.
- **Acceleration in the Barnes-Hut variant.** Here the "force" is already
  an acceleration: `-G m_node / (r+E)^3` does not include the mass of the
  body it acts on. The integrator therefore adds `dt * F` directly. The
  brute-force `step` divides by the body's own mass.

## Model

| member | source | states |
|---|---|---|
| Gravity.Pull | Assignment5/main.c:225-231 | The pull of a mass sitting exactly at the query point is zero. |
| Gravity.PullIsAttractive | Assignment5/main.c:225-231 | The pull lies on the line through the two points. For non-negative G and mass it points from the body towards the attracting mass. |
| Gravity.PullReversed | Assignment5/main.c:225-228 | Swapping the two points negates the pull of a given mass. |
| Quadtree.IsExternal | Assignment5/main.c:224 | The leaf test (a definition, no contract): a node is external when all four child slots are empty. `Force` and `Insert` branch on it as the C code does at lines 224 and 285. |
| Quadtree.Quadrant | Assignment5/main.c:402-409 | Code 0 (`Centre`) is returned exactly when the point equals the box centre. Each of NW/NE/SW/SE is returned only for points in that quadrant's half-open region. |
| Quadtree.RegionsPartitionPlane | Assignment5/main.c:402-409 | The five regions, boundary rays included, are disjoint and cover the plane. A point is in a region if and only if the test returns that region's code. |
| Quadtree.QuadrantTurnsWithPlane | Assignment5/main.c:402-409 | The tie-break is rotationally fair: a quarter turn about the centre maps each quadrant, boundaries included, onto the next one. |
| Quadtree.ChildCentre | Assignment5/main.c:295-320 | A child box centre is the parent centre shifted by plus or minus the child half width in each coordinate. |
| Quadtree.ChildCentreInQuadrant | Assignment5/main.c:295-320 | For a positive half width, the child box centre lies in the quadrant it was made for. |
| Quadtree.NewNode | Assignment5/main.c:261-273 | A fresh node is childless (external). |
| Quadtree.NewNodeFillsEmptySlot | Assignment5/main.c:261-282 | A fresh node has the given centre of mass and mass, box centre (0.5, 0.5) and half width 0.5. Inserting it into an empty slot stores it unchanged. |
| Quadtree.Merge | Assignment5/main.c:287-292 | The merged centre of mass times the total mass equals the sum of the two moments: a mass-weighted average. |
| Quadtree.Absorb | Assignment5/main.c:337-341 | Absorbing a body adds its mass and its moment to a node. Nothing else in the node changes. |
| Quadtree.SplitChild | Assignment5/main.c:329-370 | On a leaf split, the copy of the old leaf keeps its mass and centre of mass, is childless, has half the parent's width and has the box of its own quadrant. |
| Quadtree.Insert | Assignment5/main.c:277-400 | An empty slot takes the new node unchanged. A non-empty node's mass rises by exactly the inserted mass and its moment by the inserted moment. Its box and half width stay the same, and all masses stay positive. |
| Quadtree.PushDown | Assignment5/main.c:294-323 | A body on the box centre leaves the node unchanged. Otherwise only the child of the body's quadrant changes: an empty child becomes the body with that quadrant's box, and a non-empty child absorbs the body's mass and moment. |
| Quadtree.Build | Assignment5/main.c:106-113 | The tree of a step is empty exactly when there are no bodies. Otherwise its root holds the total mass, has the mass-weighted mean position as its centre of mass and keeps the unit-square box. The same for every inner node is `BuildAggregates`. |
| Quadtree.InsertKeepsPlacement | Assignment5/main.c:294-335 | Insertion keeps every child box the matching quarter of its parent's box, with half the parent's width. |
| Quadtree.InsertKeepsPositions | Assignment5/main.c:277-400 | Insertion never invents a body position. Every leaf of the result sits where a leaf already was, or at the inserted position. |
| Quadtree.InsertKeepsSorted | Assignment5/main.c:277-400 | Insertion keeps every stored body in the quadrant of each of its ancestors, so sibling subtrees hold disjoint regions. |
| Quadtree.MergeSamePosition | Assignment5/main.c:338-341 | Merging two positive masses at one position leaves the centre of mass at that position. |
| Quadtree.CentreBodyIsDropped | Assignment5/main.c:284-323 | An internal node receiving a body on its box centre gains that body's mass. Its children and stored positions stay as they were. |
| Quadtree.SplitKeepsOldBody | Assignment5/main.c:326-399 | Splitting a leaf whose body is off the centre makes the node internal. A new body in the same quadrant joins the old body's aggregate in that child. A new body in another quadrant leaves the old body unchanged in its child and, with one level of depth, always completes. |
| Quadtree.DuplicatesNeverSeparate | Assignment5/main.c:326-399 | Inserting a body at an existing leaf's position succeeds within a depth bound only if the position is the centre of one of the boxes on its way down. Otherwise the recursion never ends. |
| Quadtree.MoreFuelSameTree | Assignment5/main.c:277-400 | A larger depth bound gives the same tree as any bound under which the insertion completes. |
| Quadtree.BuildIsWellFormed | Assignment5/main.c:111-113 | The tree of a step has every child box a quarter of its parent's, and every body in its ancestors' quadrants. |
| Quadtree.ThirdBodyOnRootCentreIsLost | Assignment5/main.c:284-323 | Unit masses at (0.25, 0.25), (0.75, 0.75) and (0.5, 0.5) give a root of mass 3 that stores only the first two bodies. |
| Quadtree.LeafInsertCompletes | Assignment5/main.c:325-399 | Inserting a body into a leaf completes within the depth bound if and only if the two bodies part within it. They part when the new body is on the box centre, or, with a level left, when the old body is on the centre, when the two lie in different quadrants, or when they part one level down in the old body's quadrant. |
| Quadtree.DuplicatesPartAtCentre | Assignment5/main.c:326-399 | Two bodies at one position part exactly when that position is the centre of one of the boxes on their way down. With `LeafInsertCompletes`, this is the converse of `DuplicatesNeverSeparate`. |
| Quadtree.InsertCompletes | Assignment5/main.c:277-400 | Inserting into a tree whose child boxes are the quarters of their parents and whose bodies lie in their ancestors' quadrants completes when the new body parts, within the depth bound, from every body already stored. |
| Quadtree.BuildKeepsPositions | Assignment5/main.c:111-113 | Every body stored by a completed build sits at the position of one of the input bodies. |
| Quadtree.BuildCompletes | Assignment5/main.c:111-113 | A build completes when each body parts, within the depth bound and starting from the root box, from every body inserted before it. |
| Quadtree.ThreeBodiesPart | Assignment5/main.c:111-113 | Unit masses at (0.1, 0.1), (0.9, 0.9) and (0.2, 0.2) give a completed tree within three levels. |
| Quadtree.ThreeBodiesNeedThreeLevels | Assignment5/main.c:325-399 | The same three bodies run out of depth with two levels: the third meets the first one's leaf with one level left, and they part only below it. |
| Quadtree.PointMasses | Assignment5/main.c:111-113 | The bodies of a step as point masses: entry i is body i's position and mass. |
| Quadtree.InsertStoresBody | Assignment5/main.c:277-400 | Completeness of insertion. Suppose neither the inserted body nor any stored leaf meets a box centre within the depth bound. Then a completed insertion stores the new body as a leaf, keeps every stored body with its own mass, and keeps that condition. |
| Quadtree.PushDownStoresBody | Assignment5/main.c:294-323 | The same completeness for the descent into the child slot of the body's quadrant. |
| Quadtree.BuildStoresEveryBody | Assignment5/main.c:111-113 | If no body meets a box centre on its way down within the depth bound, the leaves of a completed tree are exactly the bodies of the step, with their masses: a permutation of the input. |
| Quadtree.AggregatedTotals | Assignment5/main.c:286-292 | If every internal node's mass and moment are the sums of its children's, then the node, and by recursion every node below it, holds the total mass and moment of the bodies stored beneath it. |
| Quadtree.EveryNodeHoldsItsBodies | Assignment5/main.c:277-341 | In such a tree, the node reached by any path of quadrants holds the total mass and moment of the bodies stored below it. |
| Quadtree.InsertKeepsAggregated | Assignment5/main.c:277-400 | Under the hypotheses of `InsertStoresBody`, a completed insertion keeps every node holding the total mass of the bodies below it, with their mass-weighted mean position as its centre of mass. |
| Quadtree.PushDownKeepsAggregated | Assignment5/main.c:294-323 | For a node that has already absorbed the new body's mass and moment, the descent into its quadrant makes every node of the result hold the totals of the bodies below it. |
| Quadtree.BuildAggregates | Assignment5/main.c:111-113 | If no body meets a box centre on its way down within the depth bound, every node of a completed tree, not only the root, holds the total mass and moment of the bodies stored below it. |
| BarnesHut.FarEnough | Assignment5/main.c:236-240 | The opening test `2h < theta * d`. A node with a non-negative half width passes it only for a positive theta and a body off the box centre. |
| BarnesHut.Force | Assignment5/main.c:217-258 | An empty subtree contributes zero, and so does a leaf at the query position. A leaf, or a node passing the opening test, contributes one pull at its centre of mass. |
| BarnesHut.OpenedNode | Assignment5/main.c:250-255 | An internal node that fails the opening test contributes the sum of its children's contributions, visited SW, NW, SE, NE. |
| BarnesHut.ExactWhenThetaZero | Assignment5/main.c:234-256 | With theta at most zero the traversal equals the exact sum of the pulls of all bodies stored in the tree. |
| BarnesHut.PlacedHalvesNonNeg | Assignment5/main.c:332-335 | In a tree with a non-negative root half width and every child box a quarter of its parent's, all half widths are non-negative. |
| BarnesHut.DistantTreeActsAsOneBody | Assignment5/main.c:240-250 | A far-enough body feels the whole tree as one body: the total mass at the mass-weighted mean position. |
| BarnesHut.FarNodeActsAsItsBodies | Assignment5/main.c:240-249 | In an aggregated tree, any node that passes the opening test contributes the pull of the total mass of the bodies below it, at their mass-weighted mean position. |
| BarnesHut.DirectPermutation | Assignment5/main.c:252-255 | The exact sum of pulls does not depend on the order of the bodies, so the order in which the traversal visits the children does not matter. |
| BarnesHut.ThetaZeroIsExactSum | Assignment5/main.c:240-256 | With theta at most zero, if no body meets a box centre on its way down, the force from a step's tree equals the exact sum of the pulls of all the step's bodies. |
| Agreement.PairsAreScaledDirect | Assignment3/A3/main.c:118-130 | The sum of the brute-force pair terms on a body from a list of bodies is the body's mass times the exact sum of the pulls of that list. |
| Agreement.BruteForceIsScaledDirect | Assignment3/A3/main.c:116-131 | Body i's brute-force force is its mass times the exact sum of the pulls of all bodies, its own included, because its own pull is zero. |
| Agreement.ThetaZeroMatchesBruteForce | Assignment5/main.c:217-258 | With theta at most zero, if no body meets a box centre on its way down, the Barnes-Hut acceleration of a completed tree times the body's mass is exactly the brute-force force on that body. |
| Agreement.PartedBodiesMatchBruteForce | Assignment5/main.c:106-113 | If moreover each body parts from every earlier one within the depth bound, the tree is completed, and its theta-0 acceleration times the body's mass is the brute-force force on it. |
| Partition.ChunkLen | Assignment5/main.c:203 | The block length is the least length whose `threads` blocks reach N, that is, N/threads rounded up. |
| Partition.Range | Assignment5/main.c:203-206 | A thread's range never passes N. An index is in thread r's range exactly when it is below N and its block number is r. |
| Partition.Owner | Assignment5/main.c:203-208 | Every index below N has an owning thread, among the thread ranks, whose range holds it. |
| Partition.RangesPartitionIndices | Assignment5/main.c:203-208 | The ranges hold only indices in [0, N), no index is in two ranges, and every index in [0, N) is in one. |
| Partition.SurplusThreadsIdle | Assignment5/main.c:203-206 | With more threads than bodies, each thread gets at most one index and threads numbered N and above get none. |
| Simulation.RunThread | Assignment5/main.c:208-210 | A thread writes only entries in its own range. |
| Simulation.RunThreads | Assignment5/main.c:124-139 | After threads 0..k-1 have run, exactly the bodies they own have received their force, once. |
| Simulation.ThreadsCommute | Assignment5/main.c:124-139 | Any two threads give the same array in either order. |
| Simulation.ForcePhase | Assignment5/main.c:108-139 | Starting from a zeroed array, once all threads are joined each body holds exactly the traversal's force on it. |
| Simulation.Integrate | Assignment5/main.c:143-150 | The velocity is advanced first. The position moves by the new velocity, which is dt times the old velocity plus dt^2 times the force. |
| Simulation.GravityConstant | Assignment5/main.c:78 | G is positive and G * N = 100. |
| Simulation.Step | Assignment5/main.c:104-150 | A step fails only when building the tree runs out of depth. Otherwise masses and brightness are unchanged, and every body's velocity is advanced by dt times the force on it from that step's tree, then its position by dt times the new velocity. |
| Simulation.StepVelocity | Assignment5/main.c:143-147 | Once the step's tree is known, each body's new velocity is its old one plus dt times its force on that tree. |
| Simulation.LoneBodyFeelsNothing | Assignment5/main.c:224-231 | A single body's tree is its own fresh node, which exerts no force on it. |
| Simulation.LoneBodyDrifts | Assignment5/main.c:143-150 | A single body keeps its velocity and drifts by dt times it, whatever the depth bound. |
| Scenarios.PairBuild | Assignment5/main.c:111-113 | Unit masses at (0.3, 0.3) and (0.7, 0.7) give a root at (0.5, 0.5) of mass 2, with the bodies in its SW and NE children. |
| Scenarios.RootIsOpened | Assignment5/main.c:236-240 | For theta 0.5 the root box of that pair is opened from either body. |
| Scenarios.PairForce | Assignment5/main.c:217-258 | Each of the two bodies feels exactly the pull of the other. |
| Scenarios.TwoBodiesApproach | Assignment5/main.c:104-150 | From rest, one step gives the two bodies opposite velocities along the diagonal joining them, each pointing towards the other. |
| BruteForce.PairForce | Assignment3/A3/main.c:122-128 | The pair term `-G m_i m_j / (r + 0.001)^3` times the displacement. It is zero for a body at the same position. |
| BruteForce.PairForceIsScaledPull | Assignment3/A3/main.c:122-128 | The pair term is the Barnes-Hut pull scaled by the mass of the body acted on. |
| BruteForce.PairForceAntisymmetric | Assignment3/A3/main.c:122-128 | The term added to F[i] for body j is the negation of the term added to F[j] for body i. |
| BruteForce.RowForce | Assignment3/A3/main.c:118-131 | The inner loop over j for body i (a definition, no contract): it starts from zero and adds the pair term of every j other than i. Its value is stated by `RowForceOverOthers`. |
| BruteForce.RowForceOverOthers | Assignment3/A3/main.c:118-131 | After the inner loop has run over the first n bodies, body i's force is the sum of the pair terms from those bodies, body i itself taken out. |
| BruteForce.Forces | Assignment3/A3/main.c:116-131 | The force array has one entry per body. `ForceSkipsSelf` gives each entry's value. |
| BruteForce.ForceSkipsSelf | Assignment3/A3/main.c:116-131 | Body i's force starts from zero and sums the pair terms of all other bodies; the i == j term is skipped. |
| BruteForce.NetForceZero | Assignment3/A3/main.c:118-131 | The forces on all bodies add up to zero. |
| BruteForce.Advance | Assignment3/A3/main.c:134-141 | One body's update: the velocity changes by dt times force over the body's own mass, and the position then by dt times the new velocity. Mass and brightness are kept. |
| BruteForce.AdvanceDisplacement | Assignment3/A3/main.c:137-140 | Written out, the position moves by dt times the old velocity plus dt^2 times the acceleration. |
| BruteForce.Step | Assignment3/A3/main.c:113-143 | The step keeps the number of bodies. All forces come from the positions before the step, and every body is advanced by its own force. |
| BruteForce.AdvanceMomentum | Assignment3/A3/main.c:134-141 | Advancing a body changes its momentum by dt times the force on it. |
| BruteForce.MomentumConserved | Assignment3/A3/main.c:113-143 | A step leaves the total momentum of all bodies unchanged. |

## Left out

- Binary input and output of the body arrays (`load_data`, `write_data`), command-line parsing, graphics, `usleep` and the wall-clock timers: I/O and instrumentation with no effect on the numbers.
- `pthread_create` / `pthread_join`: the threads are modelled as functions over disjoint slices of the force array, applied in rank order; `ThreadsCommute` covers other orders. There is no model of interleaving within a thread.
- `qt_del`, `qt_print` and the leaked copy of a leaf whose body sits on the box centre: nodes are immutable values, so freeing memory has no counterpart.
- IEEE double rounding, the `float` type of the half width `h` and of `theta`, and the numeric value of `sqrt`: all arithmetic is over exact reals, and the proofs use three facts about the square root: it is non-negative, it squares back to its argument wherever a root exists, and it is 0 where none does.
- Quadtree.Insert: requires positive masses. The centre-of-mass update divides by the new total mass, and the C code does not guard that division.
- Quadtree.Insert: the depth bound `fuel` stands in for unbounded recursion. Where the C code never returns, the model reports `OutOfDepth`.
- Quadtree.InsertCompletes: gives a sufficient condition for completion, not an if-and-only-if. It asks the new body to part from every stored body, although only the bodies along its path matter. The exact condition is proved only for a leaf (`LeafInsertCompletes`). `BuildCompletes` is sufficient in the same way.
- BruteForce.Step: requires non-zero masses, because the acceleration divides by the body's own mass.
- Partition.ChunkLen: requires at least one thread, because it divides by the thread count; only a running thread evaluates it (Assignment5/main.c:203).
- Simulation.Step: requires at least one thread and, through `Valid`, positive masses, because the centre-of-mass update in `qt_add` divides by the total mass. With zero threads the arrays declared at Assignment5/main.c:118 and 123 have length zero, which C leaves undefined; no thread would start, the force array would keep the zeros `calloc` gave it at line 108, and every body would drift with its old velocity.
- Simulation.LoneBodyDrifts: states the single body's new velocity and position rather than equality of the whole state.
- The Barnes-Hut `main` loop over time steps and `thread_force` argument unpacking: one step is modelled, and repeating it is plain iteration of `Simulation.Step`.
