/**
 * The point-cloud handler (PCLHandler.cs): every frame it samples the Kinect's camera
 * points on a grid into `worldPoints`, and, when enabled, segments them into clusters,
 * matches the clusters against the previous frame's and gives every cluster an id.
 *
 * The device is not modelled: `cameraPoints` holds whatever the SDK last mapped, the
 * GameObject's transform and the collider's bounds are parameters, and the k-d tree
 * built from the points is given as its radius query `tree`. The asynchronous task
 * that runs a pass becomes a sequential call.
 */
module PointCloud {
  import opened Geometry
  import opened ClusterSpec

  /** The X coordinate of a camera-space point: the SDK reports infinity or NaN where depth is unknown. */
  datatype CoordX = Finite(v: real) | NotFinite

  datatype CameraPoint = CameraPoint(x: CoordX, y: real, z: real)

  /**
   * How `updateWorldPoints` samples the `width` x `height` depth grid: every `steps`-th
   * row and column, mirrored in X and taken to world space by `toWorld`, and, when
   * `useCollider` is set, kept only inside the collider's bounds `inBounds`.
   */
  datatype Sampling = Sampling(width: nat, height: nat, steps: nat, useCollider: bool,
                               toWorld: Vec3 -> Vec3, inBounds: Vec3 -> bool)

  predicate SamplingValid(sp: Sampling, cam: seq<CameraPoint>) {
    sp.steps >= 1 && |cam| == sp.width * sp.height
  }

  /** The accepted world point of one camera point: none when X is not finite or it is outside the collider. */
  function Sample(sp: Sampling, p: CameraPoint): seq<Vec3> {
    if p.x.NotFinite? then []
    else
      var w := sp.toWorld(Vec3(-p.x.v, p.y, p.z));
      if sp.useCollider && !sp.inBounds(w) then [] else [w]
  }

  lemma MulLe(a: nat, b: nat, c: nat)
    requires a <= b
    ensures a * c <= b * c
  {
  }

  /** A row that exists ends within the grid. */
  lemma LastRow(ty: nat, w: nat, h: nat)
    requires ty < h
    ensures ty * w + w <= w * h
  {
    MulLe(ty + 1, h, w);
  }

  /** The first cell of the next sampled row lies at least a full row further on. */
  lemma NextRowStart(ty: nat, steps: nat, w: nat)
    requires steps >= 1
    ensures ty * w + w <= (ty + steps) * w
  {
    MulLe(ty + 1, ty + steps, w);
  }

  /** The camera points of row `ty` of the depth grid: entries `ty * width + tx`. */
  function Line(sp: Sampling, cam: seq<CameraPoint>, ty: nat): (line: seq<CameraPoint>)
    requires SamplingValid(sp, cam) && ty < sp.height
    ensures |line| == sp.width
  {
    LastRow(ty, sp.width, sp.height);
    cam[ty * sp.width .. ty * sp.width + sp.width]
  }

  /** Sampling column `tx` of `line` extends the samples `done` of the columns before it. */
  lemma RowStep(sp: Sampling, line: seq<CameraPoint>, tx: nat, start: seq<Vec3>, done: seq<Vec3>)
    requires sp.steps >= 1 && tx < |line|
    requires done + RowFrom(sp, line, tx) == RowFrom(sp, line, 0)
    ensures (done + Sample(sp, line[tx])) + RowFrom(sp, line, tx + sp.steps) == RowFrom(sp, line, 0)
    ensures (start + done) + Sample(sp, line[tx]) == start + (done + Sample(sp, line[tx]))
  {
    Assoc(done, Sample(sp, line[tx]), RowFrom(sp, line, tx + sp.steps));
    Assoc(start, done, Sample(sp, line[tx]));
  }

  /** Cell `tx` of row `ty` is entry `ty * width + tx` of the camera points. */
  lemma CellOfLine(sp: Sampling, cam: seq<CameraPoint>, ty: nat, tx: nat)
    requires SamplingValid(sp, cam) && ty < sp.height && tx < sp.width
    ensures ty * sp.width + tx < |cam| && cam[ty * sp.width + tx] == Line(sp, cam, ty)[tx]
  {
    LastRow(ty, sp.width, sp.height);
  }

  /** The accepted points of a row `line`, from column `tx` on, every `steps`-th column. */
  function RowFrom(sp: Sampling, line: seq<CameraPoint>, tx: nat): seq<Vec3>
    requires sp.steps >= 1
    decreases |line| - tx
  {
    if tx >= |line| then [] else Sample(sp, line[tx]) + RowFrom(sp, line, tx + sp.steps)
  }

  /** The accepted points of the sampled rows from `ty` on, row after row. */
  function GridFrom(sp: Sampling, cam: seq<CameraPoint>, ty: nat): seq<Vec3>
    requires SamplingValid(sp, cam)
    decreases sp.height - ty
  {
    if ty >= sp.height then [] else RowFrom(sp, Line(sp, cam, ty), 0) + GridFrom(sp, cam, ty + sp.steps)
  }

  /** The number of grid cells visited in a row from column `tx` on. */
  function RowCells(sp: Sampling, tx: nat): nat
    requires sp.steps >= 1
    decreases sp.width - tx
  {
    if tx >= sp.width then 0 else 1 + RowCells(sp, tx + sp.steps)
  }

  /** The number of grid cells visited from row `ty` on. */
  function GridCells(sp: Sampling, ty: nat): nat
    requires sp.steps >= 1
    decreases sp.height - ty
  {
    if ty >= sp.height then 0 else RowCells(sp, 0) + GridCells(sp, ty + sp.steps)
  }

  lemma {:induction false} RowBound(sp: Sampling, line: seq<CameraPoint>, tx: nat)
    requires sp.steps >= 1 && |line| == sp.width
    ensures |RowFrom(sp, line, tx)| <= RowCells(sp, tx)
    decreases sp.width - tx
  {
    if tx < sp.width {
      RowBound(sp, line, tx + sp.steps);
    }
  }

  /** At most one point is kept per visited cell. */
  lemma {:induction false} GridBound(sp: Sampling, cam: seq<CameraPoint>, ty: nat)
    requires SamplingValid(sp, cam)
    ensures |GridFrom(sp, cam, ty)| <= GridCells(sp, ty)
    decreases sp.height - ty
  {
    if ty < sp.height {
      RowBound(sp, Line(sp, cam, ty), 0);
      GridBound(sp, cam, ty + sp.steps);
    }
  }

  /** A row from column `tx` on keeps at most one point per remaining column. */
  lemma {:induction false} RowFits(sp: Sampling, line: seq<CameraPoint>, tx: nat)
    requires sp.steps >= 1
    ensures tx <= |line| ==> |RowFrom(sp, line, tx)| + tx <= |line|
    decreases |line| - tx
  {
    if tx < |line| {
      RowFits(sp, line, tx + sp.steps);
    }
  }

  /** The rows from `ty` on fit in the cells from row `ty` on: `worldPoints` never overflows. */
  lemma {:induction false} GridFits(sp: Sampling, cam: seq<CameraPoint>, ty: nat)
    requires SamplingValid(sp, cam)
    ensures ty <= sp.height ==> |GridFrom(sp, cam, ty)| + ty * sp.width <= |cam|
    decreases sp.height - ty
  {
    if ty == sp.height {
      assert |GridFrom(sp, cam, ty)| == 0;
    } else if ty + sp.steps <= sp.height {
      GridFits(sp, cam, ty + sp.steps);
      GridFitsStep(sp, cam, ty);
    } else if ty < sp.height {
      GridFitsLast(sp, cam, ty);
    }
  }

  /** A row followed by rows that fit fits as well. */
  lemma GridFitsStep(sp: Sampling, cam: seq<CameraPoint>, ty: nat)
    requires SamplingValid(sp, cam) && ty < sp.height && ty + sp.steps <= sp.height
    requires |GridFrom(sp, cam, ty + sp.steps)| + (ty + sp.steps) * sp.width <= |cam|
    ensures |GridFrom(sp, cam, ty)| + ty * sp.width <= |cam|
  {
    var row, later := RowFrom(sp, Line(sp, cam, ty), 0), GridFrom(sp, cam, ty + sp.steps);
    assert |GridFrom(sp, cam, ty)| == |row| + |later|;
    RowFits(sp, Line(sp, cam, ty), 0);
    NextRowStart(ty, sp.steps, sp.width);
    var here: int, next: int := ty * sp.width, (ty + sp.steps) * sp.width;
    FitsStep(|row|, |later|, sp.width, here, next, |cam|);
  }

  /** The last sampled row fits in the grid. */
  lemma GridFitsLast(sp: Sampling, cam: seq<CameraPoint>, ty: nat)
    requires SamplingValid(sp, cam) && ty < sp.height && sp.height < ty + sp.steps
    ensures |GridFrom(sp, cam, ty)| + ty * sp.width <= |cam|
  {
    var row := RowFrom(sp, Line(sp, cam, ty), 0);
    assert GridFrom(sp, cam, ty + sp.steps) == [];
    assert |GridFrom(sp, cam, ty)| == |row|;
    RowFits(sp, Line(sp, cam, ty), 0);
    LastRow(ty, sp.width, sp.height);
  }

  /** Linear core of one `GridFits` step, kept apart from the products it is applied to. */
  lemma FitsStep(row: int, later: int, w: int, here: int, next: int, total: int)
    requires row <= w && later + next <= total && here + w <= next
    ensures row + later + here <= total
  {
  }

  /** With the collider enabled, every kept point lies inside it. */
  lemma {:induction false} GridInBounds(sp: Sampling, cam: seq<CameraPoint>, ty: nat)
    requires SamplingValid(sp, cam) && sp.useCollider
    ensures forall q :: q in GridFrom(sp, cam, ty) ==> sp.inBounds(q)
    decreases sp.height - ty
  {
    if ty < sp.height {
      RowInBounds(sp, Line(sp, cam, ty), 0);
      GridInBounds(sp, cam, ty + sp.steps);
    }
  }

  lemma {:induction false} RowInBounds(sp: Sampling, line: seq<CameraPoint>, tx: nat)
    requires sp.steps >= 1 && sp.useCollider
    ensures forall q :: q in RowFrom(sp, line, tx) ==> sp.inBounds(q)
    decreases |line| - tx
  {
    if tx < |line| {
      RowInBounds(sp, line, tx + sp.steps);
    }
  }

  lemma GrowsTrans(o1: seq<int>, o2: seq<int>, o3: seq<int>, k: int)
    requires Grows(o1, o2, k) && Grows(o2, o3, k) && k >= 0
    ensures Grows(o1, o3, k)
  {
  }

  /**
   * The neighbours (below `|owner|`) of the first `upto` queue entries all have an owner.
   */
  ghost predicate NeighboursOwned(query: Vec3 -> seq<nat>, pts: seq<Vec3>, queue: seq<nat>, upto: int,
                                  owner: seq<int>)
  {
    forall t, nb :: 0 <= t < upto && t < |queue| && queue[t] < |pts| && nb in query(pts[queue[t]]) && nb < |owner| ==>
      owner[nb] >= 0
  }

  lemma NeighboursOwnedStep(query: Vec3 -> seq<nat>, pts: seq<Vec3>, queue: seq<nat>, queue': seq<nat>, i: nat,
                            owner: seq<int>, owner': seq<int>, k: int)
    requires NeighboursOwned(query, pts, queue, i, owner) && Grows(owner, owner', k)
    requires i < |queue| <= |queue'| && queue'[..|queue|] == queue && queue[i] < |pts|
    requires forall nb :: nb in query(pts[queue[i]]) && nb < |owner'| ==> owner'[nb] >= 0
    ensures NeighboursOwned(query, pts, queue', i + 1, owner')
  {
    forall t, nb | 0 <= t < i + 1 && t < |queue'| && queue'[t] < |pts| && nb in query(pts[queue'[t]]) && nb < |owner'|
      ensures owner'[nb] >= 0
    {
      assert queue'[t] == queue[t];
    }
  }

  /**
   * The flood fill while group `k` grows over `n` points: `owner` follows the flood fill
   * (see `PartialSegmentation`), the queue lists exactly the points of group `k` without
   * repetition, and a point other than `pending` (the seed not yet visited, or -1) is
   * marked exactly when it has an owner.
   */
  ghost predicate FloodState(n: nat, marked: seq<bool>, queue: seq<nat>, owner: seq<int>, k: int, pending: int) {
    && k >= 0 && |owner| == n == |marked|
    && IndicesBelow(queue, n) && NoDup(queue)
    && (forall j :: 0 <= j < n ==> (owner[j] == k <==> j in queue))
    && (forall j :: 0 <= j < n && j != pending ==> (marked[j] <==> owner[j] >= 0))
  }

  /** Visiting a queued point (the pending seed or another) marks it: no point is pending any more. */
  lemma VisitKeeps(n: nat, marked: seq<bool>, queue: seq<nat>, owner: seq<int>, k: int, m: nat, pending: int)
    requires FloodState(n, marked, queue, owner, k, pending) && m in queue && (pending == -1 || pending == m)
    ensures FloodState(n, marked[m := true], queue, owner, k, -1)
  {
  }

  /** Enqueueing an unmarked point marks it and gives it to group `k`. */
  lemma EnqueueKeeps(n: nat, marked: seq<bool>, queue: seq<nat>, owner: seq<int>, k: int, ind: nat)
    requires FloodState(n, marked, queue, owner, k, -1) && ind < n && !marked[ind]
    ensures FloodState(n, marked[ind := true], queue + [ind], owner[ind := k], k, -1)
    ensures Grows(owner, owner[ind := k], k)
  {
    var queue' := queue + [ind];
    assert forall t :: 0 <= t < |queue| ==> queue'[t] == queue[t];
  }

  /** Seeding group `k` at the first unprocessed point: the seed is pending, nothing else is in the group. */
  lemma SeedStart(pts: seq<Vec3>, query: Vec3 -> seq<nat>, n: nat, owner: seq<int>, groups: seq<seq<nat>>,
                  marked: seq<bool>, seed: nat)
    requires PartialSegmentation(pts, query, n, owner, groups) && |marked| == n
    requires forall j :: 0 <= j < n ==> (marked[j] <==> owner[j] >= 0)
    requires seed < n && !marked[seed] && forall j :: 0 <= j < seed ==> marked[j]
    ensures FloodState(n, marked, [seed], owner[seed := |groups|], |groups|, seed)
    ensures owner[seed] < 0 && forall j :: 0 <= j < seed ==> owner[j] >= 0
  {
  }

  /**
   * A finished flood fill from the first unprocessed point `seed` is a new group: the
   * points it took were unprocessed, and its members' in-range neighbours are processed.
   */
  lemma FinishGroup(pts: seq<Vec3>, query: Vec3 -> seq<nat>, n: nat, owner: seq<int>, groups: seq<seq<nat>>,
                    seed: nat, marked: seq<bool>, q: seq<nat>, owner': seq<int>)
    requires PartialSegmentation(pts, query, n, owner, groups)
    requires seed < n && owner[seed] < 0 && forall j :: 0 <= j < seed ==> owner[j] >= 0
    requires FloodState(n, marked, q, owner', |groups|, -1) && q != [] && q[0] == seed && Reached(pts, query, q)
    requires Grows(owner[seed := |groups|], owner', |groups|)
    requires NeighboursOwned(query, pts, q, |q|, owner')
    ensures PartialSegmentation(pts, query, n, owner', groups + [q])
  {
    var k := |groups|;
    assert forall j :: 0 <= j < n ==> -1 <= owner'[j] <= k;
    assert forall j :: 0 <= j < n && owner'[j] >= 0 && owner'[j] != k ==> owner[j] == owner'[j];
    forall j, nb | 0 <= j < n && owner'[j] >= 0 && nb in query(pts[j]) && nb < n
      ensures 0 <= owner'[nb] <= owner'[j]
    {
      if owner'[j] == k {
        var t :| 0 <= t < |q| && q[t] == j;
      }
    }
    AppendGroup(pts, query, n, owner, groups, owner', q);
  }

  /**
   * The outcome of a clustering pass over the points `pts`, the first `n` of them in use:
   * `owner` and `groups` are a segmentation by the radius query, and `clusters` are the
   * groups of at least `minSize` points, tracked against `prior` and given ids.
   */
  ghost predicate Clustered(pts: seq<Vec3>, query: Vec3 -> seq<nat>, n: nat, minSize: nat, prior: seq<Cluster>,
                            owner: seq<int>, groups: seq<seq<nat>>, clusters: seq<Cluster>)
  {
    && IsSegmentation(pts, query, n, owner, groups)
    && GroupsWellFormed(groups, |pts|)
    && clusters == AssignFrom(TrackFrom(Emit(groups, pts, minSize), prior), 0)
  }

  /** Every cluster a pass produces has at least one point. */
  lemma ClustersNonEmpty(groups: seq<seq<nat>>, pts: seq<Vec3>, minSize: nat, prior: seq<Cluster>)
    requires GroupsWellFormed(groups, |pts|) && IdsValid(prior)
    ensures var r := AssignFrom(TrackFrom(Emit(groups, pts, minSize), prior), 0);
      forall j :: 0 <= j < |r| ==> r[j].numPoints >= 1
  {
    var news := Emit(groups, pts, minSize);
    EmitSound(groups, pts, minSize);
    EmitUnassigned(groups, pts, minSize);
    TrackAssignValid(news, prior);
    assert forall j :: 0 <= j < |news| ==> news[j] in news;
  }

  /** Visiting entry `i` of a queue that has since grown adds its point to the sum of the visited ones. */
  lemma SumStep(pts: seq<Vec3>, queue: seq<nat>, queue': seq<nat>, i: nat)
    requires i < |queue| <= |queue'| && queue'[..|queue|] == queue
    requires IndicesBelow(queue[..i], |pts|) && queue[i] < |pts|
    ensures IndicesBelow(queue'[..i + 1], |pts|)
    ensures SumPoints(pts, queue'[..i + 1]) == Add(SumPoints(pts, queue[..i]), pts[queue[i]])
  {
    assert queue'[..i + 1] == queue[..i] + [queue[i]];
    assert (queue[..i] + [queue[i]])[..i] == queue[..i];
  }

  /** The points a visit of queue entry `i` enqueues were returned by its query: the queue stays reached. */
  lemma ReachedAppend(pts: seq<Vec3>, query: Vec3 -> seq<nat>, queue: seq<nat>, i: nat, n: nat, marked: seq<bool>)
    requires Reached(pts, query, queue) && i < |queue| && queue[i] < |pts| && |marked| == n
    ensures Reached(pts, query, queue + Enqueued(query(pts[queue[i]]), n, marked))
  {
    var added := Enqueued(query(pts[queue[i]]), n, marked);
    var queue' := queue + added;
    EnqueuedSpec(query(pts[queue[i]]), n, marked);
    forall t | 0 < t < |queue'|
      ensures ReachedFromEarlier(pts, query, queue', t)
    {
      if t < |queue| {
        assert ReachedFromEarlier(pts, query, queue, t);
        var p :| 0 <= p < t && queue[p] < |pts| && queue[t] in query(pts[queue[p]]);
        assert queue'[p] == queue[p] && queue'[t] == queue[t];
      } else {
        assert queue'[t] == added[t - |queue|] && queue'[i] == queue[i];
        assert 0 <= i < t && queue'[i] < |pts| && queue'[t] in query(pts[queue'[i]]);
      }
    }
  }

  lemma Assoc<T>(a: seq<T>, b: seq<T>, c: seq<T>)
    ensures a + (b + c) == (a + b) + c
  {
  }

  /**
   * `owner'` extends `owner` by group `k`: processed points keep their group, and an
   * unprocessed one stays unprocessed or joins `k`.
   */
  ghost predicate Grows(owner: seq<int>, owner': seq<int>, k: int) {
    && |owner'| == |owner|
    && (forall j :: 0 <= j < |owner| && owner[j] >= 0 ==> owner'[j] == owner[j])
    && (forall j :: 0 <= j < |owner| && owner[j] < 0 ==> owner'[j] == owner[j] || owner'[j] == k)
  }

  /** The good points among the first `j` neighbours in `indices` all have an owner. */
  ghost predicate VisitedOwned(indices: seq<nat>, j: nat, n: nat, owner: seq<int>) {
    && j <= |indices| && |owner| == n
    && forall t :: 0 <= t < j && indices[t] < n ==> owner[indices[t]] >= 0
  }

  lemma VisitedOwnedStep(indices: seq<nat>, j: nat, n: nat, before: seq<int>, after: seq<int>, k: int)
    requires VisitedOwned(indices, j, n, before) && j < |indices| && Grows(before, after, k)
    requires indices[j] < n ==> after[indices[j]] >= 0
    ensures VisitedOwned(indices, j + 1, n, after)
  {
  }

  class PclHandler {
    const kinectIsInit: bool
    const depthWidth: nat
    const depthHeight: nat
    /** The camera-space points of the last depth frame, row-major. */
    const cameraPoints: array<CameraPoint>
    const worldPoints: array<Vec3>
    var numGoodPoints: nat
    const useCollider: bool
    const steps: nat
    const processClusters: bool
    const updateTree: bool
    var clusterReady: bool
    const clusterPoints: array<Vec3>
    const minClusterSize: nat
    var numClusters: nat
    /** The radius query (`FindNearestsRadius` with `clusterMaxDist`) of the current k-d tree. */
    var tree: Vec3 -> seq<nat>
    var clusters: seq<Cluster>
    var clusterQueue: seq<nat>
    var processedIndices: array<bool>
    const processClusterOrientation: bool
    /** The fraction of a cluster's points `computeClusterOrientation` makes room for. */
    const numPointsForOrientation: real

    ghost predicate Valid()
      reads this`numGoodPoints, this`numClusters, this`clusters
    {
      && (!kinectIsInit ==> depthWidth == 0 && depthHeight == 0)
      && cameraPoints.Length == depthWidth * depthHeight
      && worldPoints.Length == cameraPoints.Length
      && clusterPoints.Length == worldPoints.Length
      && worldPoints != clusterPoints
      && numGoodPoints <= worldPoints.Length
      && steps >= 1
      && numClusters == |clusters|
      && IdsValid(clusters)
    }

    /**
     * Field initialisers, `initKinect` and `Start`: the arrays have one entry per depth
     * pixel (none when the sensor could not be opened), there are no clusters and the
     * gate is open.
     */
    constructor (kinectOpened: bool, width: nat, height: nat, steps: nat, useCollider: bool,
                 processClusters: bool, updateTree: bool, minClusterSize: nat,
                 processClusterOrientation: bool, numPointsForOrientation: real)
      requires steps >= 1
      ensures Valid()
      ensures kinectIsInit == kinectOpened
      ensures depthWidth == (if kinectOpened then width else 0)
      ensures depthHeight == (if kinectOpened then height else 0)
      ensures this.steps == steps && this.useCollider == useCollider
      ensures this.processClusters == processClusters && this.updateTree == updateTree
      ensures this.minClusterSize == minClusterSize
      ensures this.processClusterOrientation == processClusterOrientation
      ensures this.numPointsForOrientation == numPointsForOrientation
      ensures clusters == [] && numClusters == 0 && numGoodPoints == 0 && clusterReady
    {
      var w := if kinectOpened then width else 0;
      var h := if kinectOpened then height else 0;
      kinectIsInit := kinectOpened;
      depthWidth := w;
      depthHeight := h;
      cameraPoints := new CameraPoint[w * h](_ => CameraPoint(Finite(0.0), 0.0, 0.0));
      worldPoints := new Vec3[w * h](_ => Zero);
      clusterPoints := new Vec3[w * h](_ => Zero);
      numGoodPoints := 0;
      this.steps := steps;
      this.useCollider := useCollider;
      this.processClusters := processClusters;
      this.updateTree := updateTree;
      this.minClusterSize := minClusterSize;
      this.processClusterOrientation := processClusterOrientation;
      this.numPointsForOrientation := numPointsForOrientation;
      numClusters := 0;
      tree := _ => [];
      clusters := [];
      clusterQueue := [];
      processedIndices := new bool[0];
      clusterReady := true;
    }

    function SamplingOf(toWorld: Vec3 -> Vec3, inBounds: Vec3 -> bool): Sampling
    {
      Sampling(depthWidth, depthHeight, steps, useCollider, toWorld, inBounds)
    }

    /**
     * `updateWorldPoints`: without a sensor nothing changes; otherwise the accepted
     * samples, in row-major order, are written to the front of `worldPoints` and counted
     * in `numGoodPoints`; the entries behind them keep their old values.
     */
    method UpdateWorldPoints(toWorld: Vec3 -> Vec3, inBounds: Vec3 -> bool)
      requires Valid()
      modifies this`numGoodPoints, worldPoints
      ensures Valid()
      ensures !kinectIsInit ==> numGoodPoints == old(numGoodPoints) && worldPoints[..] == old(worldPoints[..])
      ensures kinectIsInit ==>
        worldPoints[..numGoodPoints] == GridFrom(SamplingOf(toWorld, inBounds), cameraPoints[..], 0)
      ensures kinectIsInit ==> numGoodPoints <= GridCells(SamplingOf(toWorld, inBounds), 0)
      ensures forall j :: numGoodPoints <= j < worldPoints.Length ==> worldPoints[j] == old(worldPoints[j])
    {
      if !kinectIsInit {
        return;
      }
      var sp := SamplingOf(toWorld, inBounds);
      var cam := cameraPoints[..];
      SampleGrid(sp, cam);
      GridBound(sp, cam, 0);
    }

    /**
     * The outer loop of `updateWorldPoints` over the rows of the depth grid, every
     * `steps`-th one: the accepted samples are written from the front of `worldPoints`.
     */
    method SampleGrid(sp: Sampling, cam: seq<CameraPoint>)
      requires SamplingValid(sp, cam) && worldPoints.Length == |cam|
      modifies this`numGoodPoints, worldPoints
      ensures numGoodPoints <= worldPoints.Length
      ensures worldPoints[..numGoodPoints] == GridFrom(sp, cam, 0)
      ensures forall j :: numGoodPoints <= j < worldPoints.Length ==> worldPoints[j] == old(worldPoints[j])
    {
      GridFits(sp, cam, 0);
      ghost var orig := worldPoints[..];
      ghost var out: seq<Vec3> := [];
      numGoodPoints := 0;
      var ty := 0;
      while ty < sp.height
        invariant GridProgress(sp, cam, ty, out, orig)
        decreases sp.height - ty
      {
        out := SampleNextRow(sp, cam, ty, out, orig);
        ty := ty + sp.steps;
      }
    }

    /**
     * The row loop before row `ty`: `out` holds the accepted samples of the rows before
     * it, at the front of `worldPoints`, and the entries behind them still hold their
     * values `orig` from before the loop.
     */
    ghost predicate GridProgress(sp: Sampling, cam: seq<CameraPoint>, ty: nat, out: seq<Vec3>, orig: seq<Vec3>)
      reads this, worldPoints
    {
      && SamplingValid(sp, cam) && worldPoints.Length == |cam| == |orig|
      && |GridFrom(sp, cam, 0)| <= worldPoints.Length
      && out + GridFrom(sp, cam, ty) == GridFrom(sp, cam, 0)
      && numGoodPoints <= worldPoints.Length
      && worldPoints[..numGoodPoints] == out
      && (forall j :: numGoodPoints <= j < worldPoints.Length ==> worldPoints[j] == orig[j])
    }

    /** One pass of the row loop: sample row `ty`. */
    method SampleNextRow(sp: Sampling, cam: seq<CameraPoint>, ty: nat, ghost out: seq<Vec3>, ghost orig: seq<Vec3>)
      returns (ghost out': seq<Vec3>)
      requires GridProgress(sp, cam, ty, out, orig) && ty < sp.height
      modifies this`numGoodPoints, worldPoints
      ensures GridProgress(sp, cam, ty + sp.steps, out', orig)
    {
      ghost var row := RowFrom(sp, Line(sp, cam, ty), 0);
      ghost var later := GridFrom(sp, cam, ty + sp.steps);
      assert GridFrom(sp, cam, ty) == row + later;
      Assoc(out, row, later);
      SampleRow(sp, cam, ty);
      out' := out + row;
    }

    /**
     * The inner loop of `updateWorldPoints` over the columns of row `ty`: the row's
     * accepted samples are appended behind the `numGoodPoints` already kept.
     */
    method SampleRow(sp: Sampling, cam: seq<CameraPoint>, ty: nat)
      requires SamplingValid(sp, cam) && ty < sp.height
      requires numGoodPoints + |RowFrom(sp, Line(sp, cam, ty), 0)| <= worldPoints.Length
      modifies this`numGoodPoints, worldPoints
      ensures numGoodPoints <= worldPoints.Length
      ensures worldPoints[..numGoodPoints] == old(worldPoints[..numGoodPoints]) + RowFrom(sp, Line(sp, cam, ty), 0)
      ensures forall j :: numGoodPoints <= j < worldPoints.Length ==> worldPoints[j] == old(worldPoints[j])
    {
      ghost var start := worldPoints[..numGoodPoints];
      ghost var orig := worldPoints[..];
      ghost var done: seq<Vec3> := [];
      var tx := 0;
      while tx < sp.width
        invariant RowProgress(sp, cam, ty, tx, start, done, orig)
        decreases sp.width - tx
      {
        done := SampleColumn(sp, cam, ty, tx, start, done, orig);
        tx := tx + sp.steps;
      }
    }

    /**
     * The column loop over row `ty` before column `tx`: behind the `start` points kept
     * before the row, `done` holds the row's accepted samples so far, and the entries
     * behind them still hold their values `orig` from before the row.
     */
    ghost predicate RowProgress(sp: Sampling, cam: seq<CameraPoint>, ty: nat, tx: nat,
                                start: seq<Vec3>, done: seq<Vec3>, orig: seq<Vec3>)
      reads this, worldPoints
    {
      && SamplingValid(sp, cam) && ty < sp.height && |orig| == worldPoints.Length
      && |start| + |RowFrom(sp, Line(sp, cam, ty), 0)| <= worldPoints.Length
      && done + RowFrom(sp, Line(sp, cam, ty), tx) == RowFrom(sp, Line(sp, cam, ty), 0)
      && numGoodPoints == |start| + |done|
      && worldPoints[..numGoodPoints] == start + done
      && (forall j :: numGoodPoints <= j < worldPoints.Length ==> worldPoints[j] == orig[j])
    }

    /** One pass of the column loop: sample column `tx` of row `ty`. */
    method SampleColumn(sp: Sampling, cam: seq<CameraPoint>, ty: nat, tx: nat,
                        ghost start: seq<Vec3>, ghost done: seq<Vec3>, ghost orig: seq<Vec3>)
      returns (ghost done': seq<Vec3>)
      requires RowProgress(sp, cam, ty, tx, start, done, orig) && tx < sp.width
      modifies this`numGoodPoints, worldPoints
      ensures RowProgress(sp, cam, ty, tx + sp.steps, start, done', orig)
    {
      CellOfLine(sp, cam, ty, tx);
      var p := cam[ty * sp.width + tx];
      RowStep(sp, Line(sp, cam, ty), tx, start, done);
      SampleCell(sp, p);
      done' := done + Sample(sp, p);
    }

    /**
     * The body of the column loop of `updateWorldPoints` for one camera point: points
     * whose X is not finite, or that fall outside the collider when it is enabled, are
     * skipped; any other is written at `numGoodPoints`, which then moves on by one.
     */
    method SampleCell(sp: Sampling, p: CameraPoint)
      requires numGoodPoints + |Sample(sp, p)| <= worldPoints.Length
      modifies this`numGoodPoints, worldPoints
      ensures numGoodPoints <= worldPoints.Length
      ensures worldPoints[..numGoodPoints] == old(worldPoints[..numGoodPoints]) + Sample(sp, p)
      ensures forall j :: numGoodPoints <= j < worldPoints.Length ==> worldPoints[j] == old(worldPoints[j])
    {
      if p.x.NotFinite? {
        return;
      }
      var worldPoint := sp.toWorld(Vec3(-p.x.v, p.y, p.z));
      if sp.useCollider && !sp.inBounds(worldPoint) {
        return;
      }
      worldPoints[numGoodPoints] := worldPoint;
      numGoodPoints := numGoodPoints + 1;
    }

    /**
     * The flood fill state while group `k` grows: `owner` follows the flood fill (see
     * `PartialSegmentation`), the queue lists exactly the points of group `k` without
     * repetition, and a point other than `pending` (the seed not yet visited, or -1) is
     * marked processed exactly when it has an owner.
     */
    ghost predicate Flooding(k: int, owner: seq<int>, pending: int)
      reads this, processedIndices
    {
      && processedIndices.Length == numGoodPoints
      && FloodState(numGoodPoints, processedIndices[..], clusterQueue, owner, k, pending)
    }

    /**
     * The seed search of `processClustersInternal`: the first point not yet processed,
     * or -1 when every point is.
     */
    method FindSeed() returns (seed: int)
      requires numGoodPoints <= processedIndices.Length
      ensures -1 <= seed < numGoodPoints
      ensures seed >= 0 ==> !processedIndices[seed] && forall j :: 0 <= j < seed ==> processedIndices[j]
      ensures seed == -1 <==> forall j :: 0 <= j < numGoodPoints ==> processedIndices[j]
    {
      seed := -1;
      var i := 0;
      while i < numGoodPoints
        invariant i <= numGoodPoints
        invariant forall j :: 0 <= j < i ==> processedIndices[j]
      {
        if !processedIndices[i] {
          seed := i;
          return;
        }
        i := i + 1;
      }
    }

    /**
     * One pass of the queue loop of `processClustersInternal` for the entry at `i`: the
     * point is marked processed, and each index the radius query returns for it that lies
     * below `numGoodPoints` and is not yet processed is marked and appended to the queue,
     * in the order returned.
     */
    method VisitQueued(i: nat, ghost k: int, ghost owner: seq<int>, ghost pending: int) returns (ghost owner': seq<int>)
      requires numGoodPoints <= worldPoints.Length && i < |clusterQueue|
      requires Flooding(k, owner, pending)
      requires pending == -1 || (pending == clusterQueue[i] && !processedIndices[pending])
      modifies this`clusterQueue, processedIndices
      ensures Flooding(k, owner', -1)
      ensures clusterQueue == old(clusterQueue) + Enqueued(tree(worldPoints[old(clusterQueue)[i]]), numGoodPoints,
                                                           old(processedIndices[..])[old(clusterQueue)[i] := true])
      ensures Grows(owner, owner', k)
      ensures CountTrue(processedIndices[..]) ==
        old(CountTrue(processedIndices[..])) + (if pending == -1 then 0 else 1) + |clusterQueue| - |old(clusterQueue)|
      ensures forall nb :: nb in tree(worldPoints[old(clusterQueue)[i]]) && nb < numGoodPoints ==> owner'[nb] >= 0
    {
      var m := clusterQueue[i];
      ghost var marked := processedIndices[..];
      CountTrueUpdate(marked, m, true);
      processedIndices[m] := true;
      assert processedIndices[..] == marked[m := true];
      VisitKeeps(numGoodPoints, marked, clusterQueue, owner, k, m, pending);
      owner' := EnqueueNeighbors(m, k, owner);
    }

    /** The inner loop of the queue loop: enqueue and mark every unmarked neighbour of point `m`. */
    method EnqueueNeighbors(m: nat, ghost k: int, ghost owner: seq<int>) returns (ghost owner': seq<int>)
      requires numGoodPoints <= worldPoints.Length && m < numGoodPoints
      requires Flooding(k, owner, -1)
      modifies this`clusterQueue, processedIndices
      ensures Flooding(k, owner', -1)
      ensures clusterQueue == old(clusterQueue) + Enqueued(tree(worldPoints[m]), numGoodPoints, old(processedIndices[..]))
      ensures Grows(owner, owner', k)
      ensures CountTrue(processedIndices[..]) == old(CountTrue(processedIndices[..])) + |clusterQueue| - |old(clusterQueue)|
      ensures forall nb :: nb in tree(worldPoints[m]) && nb < numGoodPoints ==> owner'[nb] >= 0
    {
      ghost var queue, count, marks := clusterQueue, CountTrue(processedIndices[..]), processedIndices[..];
      ghost var added: seq<nat> := [];
      owner' := owner;
      var indices := tree(worldPoints[m]);
      var j := 0;
      assert indices[0..] == indices;
      while j < |indices|
        invariant Enqueuing(indices, j, k, owner, owner', queue, added, count, marks)
      {
        owner', added := EnqueueNext(indices, j, k, owner, owner', queue, added, count, marks);
        j := j + 1;
      }
      assert indices[j..] == [];
    }

    /**
     * That loop after the first `j` neighbours in `indices`: the queue, `queue` at the
     * start, has grown by `added`, which followed by what the other neighbours will
     * enqueue is what `Enqueued` gives for all of them from the starting marks `marks`;
     * each added point is marked and counted, and every visited good neighbour has an owner.
     */
    ghost predicate Enqueuing(indices: seq<nat>, j: nat, k: int, owner: seq<int>, owner': seq<int>,
                              queue: seq<nat>, added: seq<nat>, count: nat, marks: seq<bool>)
      reads this, processedIndices
    {
      && j <= |indices| && |marks| == numGoodPoints && Flooding(k, owner', -1) && Grows(owner, owner', k)
      && clusterQueue == queue + added
      && CountTrue(processedIndices[..]) == count + |added|
      && VisitedOwned(indices, j, numGoodPoints, owner')
      && added + Enqueued(indices[j..], numGoodPoints, processedIndices[..]) == Enqueued(indices, numGoodPoints, marks)
    }

    /** One turn of that loop, on the neighbour at position `j`. */
    method EnqueueNext(indices: seq<nat>, j: nat, ghost k: int, ghost owner: seq<int>, ghost owner': seq<int>,
                       ghost queue: seq<nat>, ghost added: seq<nat>, ghost count: nat, ghost marks: seq<bool>)
      returns (ghost owner'': seq<int>, ghost added': seq<nat>)
      requires numGoodPoints <= worldPoints.Length && j < |indices|
      requires Enqueuing(indices, j, k, owner, owner', queue, added, count, marks)
      modifies this`clusterQueue, processedIndices
      ensures Enqueuing(indices, j + 1, k, owner, owner'', queue, added', count, marks)
    {
      ghost var step, marked := [], processedIndices[..];
      EnqueuedFrom(indices, j, numGoodPoints, marked);
      owner'', step := EnqueueIfUnmarked(indices[j], k, owner');
      ghost var rest := Enqueued(indices[j + 1..], numGoodPoints, processedIndices[..]);
      assert Enqueued(indices[j..], numGoodPoints, marked) == step + rest;
      Assoc(added, step, rest);
      GrowsTrans(owner, owner', owner'', k);
      VisitedOwnedStep(indices, j, numGoodPoints, owner', owner'', k);
      Assoc(queue, added, step);
      added' := added + step;
    }

    /** One neighbour `ind` of that loop: enqueued and marked when it is a good point not yet marked. */
    method EnqueueIfUnmarked(ind: nat, ghost k: int, ghost owner: seq<int>)
      returns (ghost owner': seq<int>, ghost step: seq<nat>)
      requires numGoodPoints <= worldPoints.Length
      requires Flooding(k, owner, -1)
      modifies this`clusterQueue, processedIndices
      ensures Flooding(k, owner', -1)
      ensures Grows(owner, owner', k)
      ensures ind < numGoodPoints ==> owner'[ind] >= 0
      ensures step == (if ind < numGoodPoints && !old(processedIndices[ind]) then [ind] else [])
      ensures clusterQueue == old(clusterQueue) + step
      ensures processedIndices[..] == if step == [] then old(processedIndices[..]) else old(processedIndices[..])[ind := true]
      ensures CountTrue(processedIndices[..]) == old(CountTrue(processedIndices[..])) + |step|
    {
      owner', step := owner, [];
      if ind < numGoodPoints && !processedIndices[ind] {
        ghost var marked := processedIndices[..];
        CountTrueUpdate(marked, ind, true);
        EnqueueKeeps(numGoodPoints, marked, clusterQueue, owner, k, ind);
        processedIndices[ind] := true;
        assert processedIndices[..] == marked[ind := true];
        clusterQueue := clusterQueue + [ind];
        owner', step := owner[ind := k], [ind];
      }
    }

    /**
     * The queue loop of `processClustersInternal` for the cluster grown from `seed`: each
     * queued point in turn is visited, counted and added to the running sum, until the
     * queue is exhausted.
     */
    method GrowCluster(seed: nat, numProcessed: nat, ghost k: int, ghost owner: seq<int>)
      returns (clusterCenter: Vec3, numProcessed': nat, ghost owner': seq<int>)
      requires numGoodPoints <= worldPoints.Length && seed < numGoodPoints
      requires clusterQueue == [seed] && Flooding(k, owner, seed) && !processedIndices[seed]
      requires CountTrue(processedIndices[..]) == numProcessed
      modifies this`clusterQueue, processedIndices
      ensures Flooding(k, owner', -1)
      ensures clusterQueue != [] && clusterQueue[0] == seed
      ensures Grows(owner, owner', k)
      ensures numProcessed' == numProcessed + |clusterQueue| == CountTrue(processedIndices[..])
      ensures NeighboursOwned(tree, worldPoints[..], clusterQueue, |clusterQueue|, owner')
      ensures Reached(worldPoints[..], tree, clusterQueue)
      ensures clusterCenter == SumPoints(worldPoints[..], clusterQueue)
    {
      ghost var pts := worldPoints[..];
      clusterCenter := Zero;
      numProcessed' := numProcessed;
      owner' := owner;
      var i := 0;
      while i < |clusterQueue|
        invariant Growing(seed, i, numProcessed, k, owner, owner', pts, clusterCenter)
        invariant numProcessed' == numProcessed + i
        invariant Reached(pts, tree, clusterQueue)
        decreases numGoodPoints - i
      {
        clusterCenter, owner' := GrowStep(seed, i, numProcessed, k, owner, owner', pts, clusterCenter);
        numProcessed' := numProcessed' + 1;
        i := i + 1;
      }
      assert clusterQueue[..i] == clusterQueue;
    }

    /**
     * The state of the queue loop before pass `i`, for the cluster seeded at `seed` as
     * group `k` over the points `pts`: the visited entries' neighbours are processed,
     * and `clusterCenter` is the sum of the visited points.
     */
    ghost predicate Growing(seed: nat, i: nat, numProcessed: nat, k: int, owner: seq<int>, owner': seq<int>,
                            pts: seq<Vec3>, clusterCenter: Vec3)
      reads this, processedIndices
    {
      && numGoodPoints <= |pts| && i <= |clusterQueue|
      && clusterQueue != [] && clusterQueue[0] == seed
      && Flooding(k, owner', if i == 0 then seed else -1)
      && (i == 0 ==> clusterQueue == [seed] && !processedIndices[seed])
      && CountTrue(processedIndices[..]) + (if i == 0 then 1 else 0) == numProcessed + |clusterQueue|
      && Grows(owner, owner', k)
      && NeighboursOwned(tree, pts, clusterQueue, i, owner')
      && IndicesBelow(clusterQueue[..i], |pts|)
      && clusterCenter == SumPoints(pts, clusterQueue[..i])
    }

    /** One pass of the queue loop: visit entry `i` and add its point to the sum. */
    method GrowStep(seed: nat, i: nat, ghost numProcessed: nat, ghost k: int, ghost owner: seq<int>,
                    ghost owner': seq<int>, ghost pts: seq<Vec3>, clusterCenter: Vec3)
      returns (clusterCenter': Vec3, ghost owner'': seq<int>)
      requires pts == worldPoints[..] && numGoodPoints <= worldPoints.Length
      requires Growing(seed, i, numProcessed, k, owner, owner', pts, clusterCenter) && i < |clusterQueue|
      requires Reached(pts, tree, clusterQueue)
      modifies this`clusterQueue, processedIndices
      ensures Growing(seed, i + 1, numProcessed, k, owner, owner'', pts, clusterCenter')
      ensures Reached(pts, tree, clusterQueue)
      ensures |clusterQueue| <= numGoodPoints
    {
      var m := clusterQueue[i];
      ghost var queue := clusterQueue;
      ghost var marks := processedIndices[..];
      owner'' := VisitQueued(i, k, owner', if i == 0 then seed else -1);
      ReachedAppend(pts, tree, queue, i, numGoodPoints, marks[m := true]);
      clusterCenter' := Add(clusterCenter, worldPoints[m]);
      GrowsTrans(owner, owner', owner'', k);
      NeighboursOwnedStep(tree, pts, queue, clusterQueue, i, owner', owner'', k);
      SumStep(pts, queue, clusterQueue, i);
      CountTrueBound(processedIndices[..]);
    }

    /**
     * The body of the seed loop of `processClustersInternal`, up to the division: the
     * queue is cleared, the first unprocessed point seeds it, and the queue loop grows it
     * into a new group; the returned centre is the sum of the group's points.
     */
    method SeedAndGrow(numProcessed: nat, ghost owner: seq<int>, ghost groups: seq<seq<nat>>)
      returns (clusterCenter: Vec3, numProcessed': nat, ghost owner': seq<int>)
      requires numGoodPoints <= worldPoints.Length && processedIndices.Length == numGoodPoints
      requires PartialSegmentation(worldPoints[..], tree, numGoodPoints, owner, groups)
      requires forall j :: 0 <= j < numGoodPoints ==> (processedIndices[j] <==> owner[j] >= 0)
      requires numProcessed == CountTrue(processedIndices[..]) < numGoodPoints
      modifies this`clusterQueue, processedIndices
      ensures PartialSegmentation(worldPoints[..], tree, numGoodPoints, owner', groups + [clusterQueue])
      ensures forall j :: 0 <= j < numGoodPoints ==> (processedIndices[j] <==> owner'[j] >= 0)
      ensures numProcessed < numProcessed' == CountTrue(processedIndices[..])
      ensures clusterQueue != [] && IndicesBelow(clusterQueue, worldPoints.Length)
      ensures clusterCenter == SumPoints(worldPoints[..], clusterQueue)
    {
      ghost var pts := worldPoints[..];
      var seed := StartCluster(owner, groups);
      clusterCenter, numProcessed', owner' := GrowCluster(seed, numProcessed, |groups|, owner[seed := |groups|]);
      assert worldPoints[..] == pts;
      FinishGroup(pts, tree, numGoodPoints, owner, groups, seed, processedIndices[..], clusterQueue, owner');
    }

    /** The queue is cleared and the first unprocessed point starts it, as group `|groups|`. */
    method StartCluster(ghost owner: seq<int>, ghost groups: seq<seq<nat>>) returns (seed: nat)
      requires numGoodPoints <= worldPoints.Length && processedIndices.Length == numGoodPoints
      requires PartialSegmentation(worldPoints[..], tree, numGoodPoints, owner, groups)
      requires forall j :: 0 <= j < numGoodPoints ==> (processedIndices[j] <==> owner[j] >= 0)
      requires CountTrue(processedIndices[..]) < numGoodPoints
      modifies this`clusterQueue
      ensures seed < numGoodPoints && clusterQueue == [seed] && !processedIndices[seed]
      ensures Flooding(|groups|, owner[seed := |groups|], seed)
      ensures owner[seed] < 0 && forall j :: 0 <= j < seed ==> owner[j] >= 0
    {
      clusterQueue := [];
      SomeUnmarked(processedIndices[..]);
      var first := FindSeed();
      assert first >= 0;
      seed := first;
      clusterQueue := clusterQueue + [seed];
      SeedStart(worldPoints[..], tree, numGoodPoints, owner, groups, processedIndices[..], seed);
    }

    /**
     * The seed loop of `processClustersInternal` over freshly cleared marks: it ends with
     * every point processed, in a segmentation of the points by the radius query, and
     * emits one cluster with id -1 and the mean of its points as centre for each group
     * of at least `minClusterSize` points, in the order the groups were seeded.
     */
    method Segment() returns (newClusters: seq<Cluster>, ghost owner: seq<int>, ghost groups: seq<seq<nat>>)
      requires numGoodPoints <= worldPoints.Length && processedIndices.Length == numGoodPoints
      requires forall j :: 0 <= j < numGoodPoints ==> !processedIndices[j]
      modifies this`clusterQueue, processedIndices
      ensures IsSegmentation(worldPoints[..], tree, numGoodPoints, owner, groups)
      ensures GroupsWellFormed(groups, worldPoints.Length)
      ensures newClusters == Emit(groups, worldPoints[..], minClusterSize)
      ensures forall j :: 0 <= j < numGoodPoints ==> processedIndices[j]
    {
      ghost var pts := worldPoints[..];
      owner := seq(numGoodPoints, j => -1);
      groups := [];
      EmptySegmentation(pts, tree, numGoodPoints);
      CountTrueNone(processedIndices[..]);
      newClusters := [];
      var numProcessedPoints := 0;
      while numProcessedPoints < numGoodPoints
        invariant PartialSegmentation(pts, tree, numGoodPoints, owner, groups)
        invariant GroupsWellFormed(groups, |pts|)
        invariant forall j :: 0 <= j < numGoodPoints ==> (processedIndices[j] <==> owner[j] >= 0)
        invariant numProcessedPoints == CountTrue(processedIndices[..]) <= numGoodPoints
        invariant newClusters == Emit(groups, pts, minClusterSize)
        decreases numGoodPoints - numProcessedPoints
      {
        var clusterCenter;
        clusterCenter, numProcessedPoints, owner := SeedAndGrow(numProcessedPoints, owner, groups);
        clusterCenter := Div(clusterCenter, |clusterQueue|);
        EmitSnoc(groups, clusterQueue, pts, minClusterSize);
        if |clusterQueue| >= minClusterSize {
          newClusters := newClusters + [NewCluster(clusterQueue, -1, clusterCenter)];
        }
        groups := groups + [clusterQueue];
        PartialWellFormed(pts, tree, numGoodPoints, owner, groups);
        CountTrueBound(processedIndices[..]);
      }
      AllMarked(processedIndices[..]);
    }

    /**
     * The inner loop of the tracking pass: the position of the prior cluster nearest to
     * `center`, the first of the nearest, if one is closer than 1000; -1 otherwise.
     */
    method NearestPrior(center: Vec3) returns (nearestIndice: int)
      ensures nearestIndice == Nearest(clusters, center)
    {
      nearestIndice := -1;
      var minDist := MatchBound;
      var j := 0;
      while j < |clusters|
        invariant j <= |clusters|
        invariant nearestIndice == Nearest(clusters[..j], center)
        invariant minDist == if nearestIndice == -1 then MatchBound else SqDist(clusters[nearestIndice].center, center)
      {
        assert clusters[..j + 1][..j] == clusters[..j];
        var dist := SqDist(clusters[j].center, center);
        if dist < minDist {
          nearestIndice := j;
          minDist := dist;
        }
        j := j + 1;
      }
      assert clusters[..j] == clusters;
    }

    /**
     * The tracking pass of `processClustersInternal`: each new cluster in turn takes the
     * id of the nearest prior cluster, which is removed from `clusters`.
     */
    method TrackClusters(newClusters: seq<Cluster>) returns (tracked: seq<Cluster>)
      modifies this`clusters
      ensures tracked == TrackFrom(newClusters, old(clusters))
    {
      tracked := newClusters;
      var i := 0;
      while i < |tracked|
        invariant i <= |tracked| == |newClusters|
        invariant forall j :: i <= j < |tracked| ==> tracked[j] == newClusters[j]
        invariant tracked[..i] + TrackFrom(newClusters[i..], clusters) == TrackFrom(newClusters, old(clusters))
      {
        ghost var done := tracked[..i];
        tracked := TrackOne(newClusters, i, tracked);
        assert tracked[..i + 1] == done + [tracked[i]];
        Assoc(done, [tracked[i]], TrackFrom(newClusters[i + 1..], clusters));
        i := i + 1;
      }
      assert tracked[..i] == tracked;
    }

    /** One pass of the tracking loop, for the new cluster at `i`. */
    method TrackOne(newClusters: seq<Cluster>, i: nat, tracked: seq<Cluster>) returns (tracked': seq<Cluster>)
      requires i < |tracked| == |newClusters| && tracked[i] == newClusters[i]
      modifies this`clusters
      ensures |tracked'| == |tracked| && tracked' == tracked[i := tracked'[i]]
      ensures [tracked'[i]] + TrackFrom(newClusters[i + 1..], clusters) == TrackFrom(newClusters[i..], old(clusters))
    {
      TrackStep(newClusters, i, clusters);
      tracked' := tracked;
      var nearestIndice := NearestPrior(tracked[i].center);
      if nearestIndice >= 0 {
        tracked' := tracked'[i := tracked'[i].(id := clusters[nearestIndice].id)];
        clusters := RemoveAt(clusters, nearestIndice);
      }
    }

    /**
     * `getNextClusterId`: the smallest id, counting up from 0, that no cluster has.
     */
    method NextClusterId() returns (result: nat)
      requires numClusters == |clusters|
      ensures result == MinFree(Ids(clusters))
    {
      ghost var ids := Ids(clusters);
      result := 0;
      while true
        invariant forall v :: 0 <= v < result ==> v in ids
        decreases |clusters| - result
      {
        var found := false;
        var i := 0;
        while i < numClusters
          invariant i <= numClusters
          invariant found ==> result in ids
          invariant !found ==> forall j :: 0 <= j < i ==> clusters[j].id != result
        {
          if clusters[i].id == result {
            assert ids[i] == result;
            found := true;
            break;
          }
          i := i + 1;
        }
        if !found {
          break;
        }
        Pigeonhole(ids, result + 1);
        result := result + 1;
      }
      assert result !in ids;
      MinFreeUnique(ids, result);
    }

    /** The id assignment pass: every cluster without id (-1), in order, takes the next free id. */
    method AssignIds()
      requires numClusters == |clusters|
      modifies this`clusters
      ensures clusters == AssignFrom(old(clusters), 0)
    {
      var i := 0;
      while i < numClusters
        invariant i <= numClusters == |clusters|
        invariant AssignFrom(clusters, i) == AssignFrom(old(clusters), 0)
      {
        if clusters[i].id != -1 {
          i := i + 1;
          continue;
        }
        var id := NextClusterId();
        clusters := clusters[i := clusters[i].(id := id)];
        i := i + 1;
      }
    }

    /**
     * `processClustersInternal`: the points are segmented by the radius query, the groups
     * of at least `minClusterSize` points become the new clusters, which are tracked
     * against the previous ones and given ids; the points are copied to `clusterPoints`
     * and the gate reopens. The pass stops before reopening it when there is no sensor
     * (the copy finds no arrays) and when the orientation pass faults.
     */
    method ProcessClustersInternal() returns (ghost owner: seq<int>, ghost groups: seq<seq<nat>>)
      requires Valid() && processedIndices.Length == numGoodPoints
      requires forall j :: 0 <= j < numGoodPoints ==> !processedIndices[j]
      modifies this`clusterReady, this`clusters, this`numClusters, this`clusterQueue, processedIndices, clusterPoints
      ensures Valid()
      ensures clusterReady <==>
        kinectIsInit && !(processClusterOrientation && OrientationFaults(clusters, numPointsForOrientation))
      ensures forall j :: 0 <= j < |clusters| ==> clusters[j].numPoints >= 1
      ensures Clustered(worldPoints[..], tree, numGoodPoints, minClusterSize, old(clusters), owner, groups, clusters)
      ensures clusterPoints[..numGoodPoints] == worldPoints[..numGoodPoints]
      ensures clusterPoints[numGoodPoints..] == old(clusterPoints[numGoodPoints..])
    {
      clusterReady := false;
      owner, groups := SegmentAndTrack();
      CopyAndReopen();
    }

    /**
     * The end of `processClustersInternal`: with a sensor, the points are copied to
     * `clusterPoints` and the gate reopens unless the orientation pass faults; without
     * one the copy finds no arrays and the gate stays closed.
     */
    method CopyAndReopen()
      requires Valid() && !clusterReady
      modifies this`clusterReady, clusterPoints
      ensures clusterReady <==>
        kinectIsInit && !(processClusterOrientation && OrientationFaults(clusters, numPointsForOrientation))
      ensures clusterPoints[..numGoodPoints] == worldPoints[..numGoodPoints]
      ensures clusterPoints[numGoodPoints..] == old(clusterPoints[numGoodPoints..])
      ensures worldPoints[..] == old(worldPoints[..])
    {
      if kinectIsInit {
        CopyPoints();
        // The orientation pass faulting ends the pass before the gate reopens.
        clusterReady := !(processClusterOrientation && OrientationFaults(clusters, numPointsForOrientation));
      }
    }

    /**
     * The seed loop, the emission of the groups of at least `minClusterSize` points and
     * the tracking and id passes of `processClustersInternal`.
     */
    method SegmentAndTrack() returns (ghost owner: seq<int>, ghost groups: seq<seq<nat>>)
      requires Valid() && processedIndices.Length == numGoodPoints
      requires forall j :: 0 <= j < numGoodPoints ==> !processedIndices[j]
      modifies this`clusters, this`numClusters, this`clusterQueue, processedIndices
      ensures Valid()
      ensures forall j :: 0 <= j < |clusters| ==> clusters[j].numPoints >= 1
      ensures Clustered(worldPoints[..], tree, numGoodPoints, minClusterSize, old(clusters), owner, groups, clusters)
    {
      ghost var pts := worldPoints[..];
      ghost var prior := clusters;
      var newClusters;
      newClusters, owner, groups := Segment();
      EmitUnassigned(groups, pts, minClusterSize);
      TrackAndAssign(newClusters);
      ClustersNonEmpty(groups, pts, minClusterSize, prior);
      assert worldPoints[..] == pts;
    }

    /**
     * The tracking and id assignment passes of `processClustersInternal` over new
     * clusters without ids: the resulting clusters are the new ones with only their ids
     * changed, and their ids are distinct and non-negative.
     */
    method TrackAndAssign(newClusters: seq<Cluster>)
      requires forall i :: 0 <= i < |newClusters| ==> newClusters[i].id == -1
      requires IdsValid(clusters)
      modifies this`clusters, this`numClusters
      ensures clusters == AssignFrom(TrackFrom(newClusters, old(clusters)), 0)
      ensures numClusters == |clusters| == |newClusters| && IdsValid(clusters)
      ensures forall j :: 0 <= j < |clusters| ==> clusters[j] == newClusters[j].(id := clusters[j].id)
    {
      TrackAssignValid(newClusters, clusters);
      var tracked := TrackClusters(newClusters);
      clusters := tracked;
      numClusters := |clusters|;
      AssignIds();
    }

    /** `Array.Copy(worldPoints, clusterPoints, numGoodPoints)`. */
    method CopyPoints()
      requires worldPoints != clusterPoints
      requires numGoodPoints <= worldPoints.Length && numGoodPoints <= clusterPoints.Length
      modifies clusterPoints
      ensures clusterPoints[..numGoodPoints] == worldPoints[..numGoodPoints]
      ensures clusterPoints[numGoodPoints..] == old(clusterPoints[numGoodPoints..])
    {
      forall j | 0 <= j < numGoodPoints {
        clusterPoints[j] := worldPoints[j];
      }
    }

    /**
     * `updateKDTree`: when enabled, the radius query of the tree built from the current
     * points replaces the old one, every point becomes unprocessed, and, when cluster
     * processing is on, a pass of `processClustersInternal` runs.
     */
    method UpdateKdTree(builtTree: Vec3 -> seq<nat>) returns (ghost owner: seq<int>, ghost groups: seq<seq<nat>>)
      requires Valid()
      modifies this`tree, this`processedIndices, this`clusterQueue, this`clusterReady, this`clusters,
        this`numClusters, clusterPoints
      ensures Valid()
      ensures !updateTree ==> unchanged(this, clusterPoints)
      ensures updateTree ==> tree == builtTree && fresh(processedIndices) && processedIndices.Length == numGoodPoints
      ensures updateTree && !processClusters ==>
        && clusterQueue == [] && clusters == old(clusters) && clusterPoints[..] == old(clusterPoints[..])
        && clusterReady == old(clusterReady)
        && (forall j :: 0 <= j < numGoodPoints ==> !processedIndices[j])
      ensures updateTree && processClusters ==>
        && (clusterReady <==> kinectIsInit && !(processClusterOrientation && OrientationFaults(clusters, numPointsForOrientation)))
        && tree == builtTree && Clustered(worldPoints[..], tree, numGoodPoints, minClusterSize, old(clusters), owner, groups, clusters)
        && clusterPoints[..numGoodPoints] == worldPoints[..numGoodPoints]
    {
      owner, groups := [], [];
      if !updateTree {
        return;
      }
      tree := builtTree;
      ResetMarks();
      if processClusters {
        owner, groups := ProcessClustersInternal();
      }
    }

    /**
     * `Update` after the sensor has been read: the points are resampled and the tree
     * rebuilt only when cluster processing is off or the last pass has finished;
     * otherwise the frame is skipped and nothing changes.
     */
    method Update(toWorld: Vec3 -> Vec3, inBounds: Vec3 -> bool, builtTree: Vec3 -> seq<nat>)
      returns (ghost owner: seq<int>, ghost groups: seq<seq<nat>>)
      requires Valid()
      modifies this`numGoodPoints, worldPoints, this`tree, this`processedIndices, this`clusterQueue,
        this`clusterReady, this`clusters, this`numClusters, clusterPoints
      ensures Valid()
      ensures processClusters && !old(clusterReady) ==>
        && !clusterReady && numGoodPoints == old(numGoodPoints) && worldPoints[..] == old(worldPoints[..])
        && tree == old(tree) && clusters == old(clusters) && clusterPoints[..] == old(clusterPoints[..])
      ensures (!processClusters || old(clusterReady)) && !kinectIsInit ==>
        numGoodPoints == old(numGoodPoints) && worldPoints[..] == old(worldPoints[..])
      ensures (!processClusters || old(clusterReady)) && kinectIsInit ==>
        worldPoints[..numGoodPoints] == GridFrom(SamplingOf(toWorld, inBounds), cameraPoints[..], 0)
      ensures (!processClusters || old(clusterReady)) && !updateTree ==>
        && tree == old(tree) && clusters == old(clusters) && clusterReady == old(clusterReady)
        && clusterPoints[..] == old(clusterPoints[..])
      ensures (!processClusters || old(clusterReady)) && updateTree && !processClusters ==>
        && tree == builtTree && clusters == old(clusters) && clusterReady == old(clusterReady)
        && clusterPoints[..] == old(clusterPoints[..])
      ensures (!processClusters || old(clusterReady)) && updateTree && processClusters ==>
        && (clusterReady <==> kinectIsInit && !(processClusterOrientation && OrientationFaults(clusters, numPointsForOrientation)))
        && tree == builtTree && Clustered(worldPoints[..], tree, numGoodPoints, minClusterSize, old(clusters), owner, groups, clusters)
    {
      owner, groups := [], [];
      if !processClusters || clusterReady {
        owner, groups := Refresh(toWorld, inBounds, builtTree);
      }
    }

    /** `updateKDTree` clears the marks and the queue for the next pass. */
    method ResetMarks()
      modifies this`processedIndices, this`clusterQueue
      ensures fresh(processedIndices) && processedIndices.Length == numGoodPoints && clusterQueue == []
      ensures forall j :: 0 <= j < numGoodPoints ==> !processedIndices[j]
    {
      processedIndices := new bool[numGoodPoints](_ => false);
      clusterQueue := [];
    }

    /** The body of `Update` behind the gate: resample the points, then rebuild the tree. */
    method Refresh(toWorld: Vec3 -> Vec3, inBounds: Vec3 -> bool, builtTree: Vec3 -> seq<nat>)
      returns (ghost owner: seq<int>, ghost groups: seq<seq<nat>>)
      requires Valid()
      modifies this`numGoodPoints, worldPoints, this`tree, this`processedIndices, this`clusterQueue,
        this`clusterReady, this`clusters, this`numClusters, clusterPoints
      ensures Valid()
      ensures !kinectIsInit ==> numGoodPoints == old(numGoodPoints) && worldPoints[..] == old(worldPoints[..])
      ensures kinectIsInit ==> worldPoints[..numGoodPoints] == GridFrom(SamplingOf(toWorld, inBounds), cameraPoints[..], 0)
      ensures !updateTree ==>
        && tree == old(tree) && clusters == old(clusters) && clusterReady == old(clusterReady)
        && clusterPoints[..] == old(clusterPoints[..])
      ensures updateTree && !processClusters ==>
        && tree == builtTree && clusters == old(clusters) && clusterReady == old(clusterReady)
        && clusterPoints[..] == old(clusterPoints[..])
      ensures updateTree && processClusters ==>
        && (clusterReady <==> kinectIsInit && !(processClusterOrientation && OrientationFaults(clusters, numPointsForOrientation)))
        && tree == builtTree && Clustered(worldPoints[..], tree, numGoodPoints, minClusterSize, old(clusters), owner, groups, clusters)
    {
      UpdateWorldPoints(toWorld, inBounds);
      ghost var sampled := worldPoints[..];
      owner, groups := UpdateKdTree(builtTree);
      assert worldPoints[..] == sampled;
    }
  }
}
