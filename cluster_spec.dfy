/**
 * What a clustering pass of the point-cloud handler (PCLHandler.cs) computes, stated
 * as functions and predicates over values, with the properties proved about them.
 * The class in `PointCloud` runs the pass imperatively and is proved to compute
 * these functions.
 *
 * The radius query of the k-d tree is an oracle `query: Vec3 -> seq<nat>`: the
 * indices the tree returns for a point (FindNearestsRadius with `clusterMaxDist`).
 * The tree itself is not part of this model.
 */
module ClusterSpec {
  import opened Geometry

  /** A cluster of the current frame: member point indices, tracked id, size, centre. */
  datatype Cluster = Cluster(indices: seq<nat>, id: int, numPoints: nat, center: Vec3, orientation: Vec3)

  /** The `Cluster` constructor: the size is the number of indices; orientation starts at zero. */
  function NewCluster(indices: seq<nat>, clusterId: int, center: Vec3): (c: Cluster)
    ensures c.numPoints == |indices| && c.indices == indices
    ensures c.id == clusterId && c.center == center && c.orientation == Zero
  {
    Cluster(indices, clusterId, |indices|, center, Zero)
  }

  /* ---------- Counting marked points ---------- */

  /** Number of `true` entries in `s`. */
  function CountTrue(s: seq<bool>): nat {
    if s == [] then 0 else CountTrue(s[..|s| - 1]) + (if s[|s| - 1] then 1 else 0)
  }

  lemma {:induction false} CountTrueBound(s: seq<bool>)
    ensures CountTrue(s) <= |s|
  {
    if s != [] {
      CountTrueBound(s[..|s| - 1]);
    }
  }

  lemma {:induction false} CountTrueNone(s: seq<bool>)
    requires forall j :: 0 <= j < |s| ==> !s[j]
    ensures CountTrue(s) == 0
  {
    if s != [] {
      CountTrueNone(s[..|s| - 1]);
    }
  }

  /** Setting one entry changes the count by the difference of the old and new entry. */
  lemma {:induction false} CountTrueUpdate(s: seq<bool>, j: nat, v: bool)
    requires j < |s|
    ensures CountTrue(s[j := v]) == CountTrue(s) - (if s[j] then 1 else 0) + (if v then 1 else 0)
  {
    var n := |s|;
    if j < n - 1 {
      assert s[j := v][..n - 1] == s[..n - 1][j := v];
      CountTrueUpdate(s[..n - 1], j, v);
    } else {
      assert s[j := v][..n - 1] == s[..n - 1];
    }
  }

  /** An unmarked entry keeps the count below the length: the seed search cannot fail. */
  lemma {:induction false} UnmarkedBelowLength(s: seq<bool>, j: nat)
    requires j < |s| && !s[j]
    ensures CountTrue(s) < |s|
  {
    var n := |s|;
    if j < n - 1 {
      UnmarkedBelowLength(s[..n - 1], j);
    } else {
      CountTrueBound(s[..n - 1]);
    }
  }

  /** While fewer than `|s|` entries are marked, some entry is unmarked. */
  lemma {:induction false} SomeUnmarked(s: seq<bool>)
    requires CountTrue(s) < |s|
    ensures exists j :: 0 <= j < |s| && !s[j]
  {
    var n := |s|;
    if s[n - 1] {
      CountTrueBound(s[..n - 1]);
      SomeUnmarked(s[..n - 1]);
      var j :| 0 <= j < n - 1 && !s[..n - 1][j];
      assert !s[j];
    }
  }

  /* ---------- Centroids ---------- */

  predicate IndicesBelow(idx: seq<nat>, n: nat) {
    forall t :: 0 <= t < |idx| ==> idx[t] < n
  }

  /** Sum of the points at `idx`, in order. */
  function SumPoints(pts: seq<Vec3>, idx: seq<nat>): Vec3
    requires IndicesBelow(idx, |pts|)
  {
    if idx == [] then Zero else Add(SumPoints(pts, idx[..|idx| - 1]), pts[idx[|idx| - 1]])
  }

  /** The mean of the points at `idx`. */
  function Centroid(pts: seq<Vec3>, idx: seq<nat>): Vec3
    requires IndicesBelow(idx, |pts|) && idx != []
  {
    Div(SumPoints(pts, idx), |idx|)
  }

  /* ---------- Segmentation ---------- */

  predicate NoDup(s: seq<nat>) {
    forall a, b :: 0 <= a < b < |s| ==> s[a] != s[b]
  }

  /** Groups that can be turned into clusters: non-empty, over points that exist. */
  predicate GroupsWellFormed(groups: seq<seq<nat>>, n: nat) {
    forall g :: 0 <= g < |groups| ==> groups[g] != [] && IndicesBelow(groups[g], n)
  }

  /**
   * Every entry of the queue `q` after the first was returned by the radius query of an
   * earlier entry: the flood fill reached it from the seed through query edges.
   */
  ghost predicate Reached(pts: seq<Vec3>, query: Vec3 -> seq<nat>, q: seq<nat>) {
    forall t :: 0 < t < |q| ==> ReachedFromEarlier(pts, query, q, t)
  }

  /** Entry `t` of `q` was returned by the radius query of an entry before it. */
  ghost predicate ReachedFromEarlier(pts: seq<Vec3>, query: Vec3 -> seq<nat>, q: seq<nat>, t: nat)
    requires t < |q|
  {
    exists p :: 0 <= p < t && q[p] < |pts| && q[t] in query(pts[q[p]])
  }

  /**
   * The flood fill part-way through the first `n` points: `owner[j]` is the group
   * point `j` was enqueued in, or -1 while it is unprocessed; `groups` holds the queue
   * of every finished group, in order. Every processed point lies in its group's queue,
   * each queue is duplicate-free, lists only points it owns and was reached from its
   * seed through query edges, the in-range neighbours (index below `n`) of a processed
   * point are processed in its group or an earlier one, and every point below the seed
   * of a group was processed by an earlier group.
   */
  ghost predicate PartialSegmentation(pts: seq<Vec3>, query: Vec3 -> seq<nat>, n: nat,
                                      owner: seq<int>, groups: seq<seq<nat>>)
  {
    && n <= |pts| && |owner| == n
    && GroupsWellFormed(groups, n)
    && (forall j :: 0 <= j < n ==> -1 <= owner[j] < |groups|)
    && (forall j :: 0 <= j < n && owner[j] >= 0 ==> j in groups[owner[j]])
    && (forall g :: 0 <= g < |groups| ==> NoDup(groups[g]) && Reached(pts, query, groups[g]))
    && (forall g, t :: 0 <= g < |groups| && 0 <= t < |groups[g]| ==> owner[groups[g][t]] == g)
    && (forall j, nb :: 0 <= j < n && owner[j] >= 0 && nb in query(pts[j]) && nb < n ==>
          0 <= owner[nb] <= owner[j])
    && (forall g, j :: 0 <= g < |groups| && 0 <= j < groups[g][0] ==> 0 <= owner[j] < g)
  }

  /** The outcome of the flood fill: a partial segmentation in which every point is processed. */
  ghost predicate IsSegmentation(pts: seq<Vec3>, query: Vec3 -> seq<nat>, n: nat,
                                 owner: seq<int>, groups: seq<seq<nat>>)
  {
    && PartialSegmentation(pts, query, n, owner, groups)
    && (forall j :: 0 <= j < n ==> owner[j] >= 0)
  }

  /** Before the first seed nothing is processed. */
  lemma EmptySegmentation(pts: seq<Vec3>, query: Vec3 -> seq<nat>, n: nat)
    requires n <= |pts|
    ensures PartialSegmentation(pts, query, n, seq(n, j => -1), [])
  {
  }

  /**
   * Growing one more group `q` from the smallest unprocessed index: the points it takes
   * were unprocessed and reached from its seed, and its members' in-range neighbours
   * end up processed. The partial segmentation then extends by `q`.
   */
  lemma AppendGroup(pts: seq<Vec3>, query: Vec3 -> seq<nat>, n: nat,
                    owner: seq<int>, groups: seq<seq<nat>>, owner': seq<int>, q: seq<nat>)
    requires PartialSegmentation(pts, query, n, owner, groups)
    requires q != [] && NoDup(q) && IndicesBelow(q, n) && |owner'| == n && Reached(pts, query, q)
    requires forall j :: 0 <= j < q[0] ==> owner[j] >= 0
    requires forall j :: 0 <= j < n && owner[j] >= 0 ==> owner'[j] == owner[j]
    requires forall j :: 0 <= j < n && owner[j] < 0 ==> owner'[j] == -1 || owner'[j] == |groups|
    requires forall j :: 0 <= j < n ==> (owner'[j] == |groups| <==> j in q)
    requires forall j, nb :: 0 <= j < n && owner'[j] >= 0 && nb in query(pts[j]) && nb < n ==>
               0 <= owner'[nb] <= owner'[j]
    ensures PartialSegmentation(pts, query, n, owner', groups + [q])
  {
    AppendMembers(n, owner, groups, owner', q);
    AppendOwned(n, owner, groups, owner', q);
    AppendSeeds(n, owner, groups, owner', q);
    var gs := groups + [q];
    forall g | 0 <= g < |gs| ensures NoDup(gs[g]) && Reached(pts, query, gs[g]) {
      if g < |groups| {
        assert gs[g] == groups[g];
      }
    }
  }

  /** After `AppendGroup`, every member of every group is owned by that group. */
  lemma AppendMembers(n: nat, owner: seq<int>, groups: seq<seq<nat>>, owner': seq<int>, q: seq<nat>)
    requires |owner| == n == |owner'| && GroupsWellFormed(groups, n) && IndicesBelow(q, n)
    requires forall g, t :: 0 <= g < |groups| && 0 <= t < |groups[g]| ==> owner[groups[g][t]] == g
    requires forall j :: 0 <= j < n && owner[j] >= 0 ==> owner'[j] == owner[j]
    requires forall j :: 0 <= j < n ==> (owner'[j] == |groups| <==> j in q)
    ensures var gs := groups + [q];
      forall g, t :: 0 <= g < |gs| && 0 <= t < |gs[g]| ==> owner'[gs[g][t]] == g
  {
    var gs := groups + [q];
    forall g, t | 0 <= g < |gs| && 0 <= t < |gs[g]| ensures owner'[gs[g][t]] == g {
      if g < |groups| {
        assert gs[g] == groups[g];
      } else {
        assert gs[g][t] in q;
      }
    }
  }

  /** After `AppendGroup`, every processed point lies in its group. */
  lemma AppendOwned(n: nat, owner: seq<int>, groups: seq<seq<nat>>, owner': seq<int>, q: seq<nat>)
    requires |owner| == n == |owner'|
    requires forall j :: 0 <= j < n ==> -1 <= owner[j] < |groups|
    requires forall j :: 0 <= j < n && owner[j] >= 0 ==> j in groups[owner[j]]
    requires forall j :: 0 <= j < n && owner[j] >= 0 ==> owner'[j] == owner[j]
    requires forall j :: 0 <= j < n && owner[j] < 0 ==> owner'[j] == -1 || owner'[j] == |groups|
    requires forall j :: 0 <= j < n ==> (owner'[j] == |groups| <==> j in q)
    ensures var gs := groups + [q];
      forall j :: 0 <= j < n && owner'[j] >= 0 ==> 0 <= owner'[j] < |gs| && j in gs[owner'[j]]
  {
    var gs := groups + [q];
    forall j | 0 <= j < n && owner'[j] >= 0 ensures 0 <= owner'[j] < |gs| && j in gs[owner'[j]] {
      if owner[j] >= 0 {
        assert gs[owner[j]] == groups[owner[j]];
      }
    }
  }

  /** After `AppendGroup`, every point below a group's seed belongs to an earlier group. */
  lemma AppendSeeds(n: nat, owner: seq<int>, groups: seq<seq<nat>>, owner': seq<int>, q: seq<nat>)
    requires |owner| == n == |owner'| && q != [] && IndicesBelow(q, n) && GroupsWellFormed(groups, n)
    requires forall j :: 0 <= j < q[0] ==> owner[j] >= 0
    requires forall g, j :: 0 <= g < |groups| && 0 <= j < groups[g][0] ==> 0 <= owner[j] < g
    requires forall j :: 0 <= j < n ==> -1 <= owner[j] < |groups|
    requires forall j :: 0 <= j < n && owner[j] >= 0 ==> owner'[j] == owner[j]
    ensures var gs := groups + [q];
      forall g, j :: 0 <= g < |gs| && 0 <= j < gs[g][0] ==> 0 <= owner'[j] < g
  {
    var gs := groups + [q];
    forall g, j | 0 <= g < |gs| && 0 <= j < gs[g][0] ensures 0 <= owner'[j] < g {
      if g < |groups| {
        assert gs[g] == groups[g];
      }
    }
  }

  /** Once all `n` entries are marked, every entry is. */
  lemma AllMarked(s: seq<bool>)
    requires CountTrue(s) == |s|
    ensures forall j :: 0 <= j < |s| ==> s[j]
  {
    forall j | 0 <= j < |s| ensures s[j] {
      if !s[j] {
        UnmarkedBelowLength(s, j);
      }
    }
  }

  /** The radius query is symmetric on the first `n` points (as a radius query is). */
  ghost predicate Symmetric(pts: seq<Vec3>, query: Vec3 -> seq<nat>, n: nat)
    requires n <= |pts|
  {
    forall i, j :: 0 <= i < n && 0 <= j < n && j in query(pts[i]) ==> i in query(pts[j])
  }

  /** Distinct groups share no point. */
  lemma GroupsDisjoint(pts: seq<Vec3>, query: Vec3 -> seq<nat>, n: nat,
                       owner: seq<int>, groups: seq<seq<nat>>, g1: nat, g2: nat, x: nat)
    requires IsSegmentation(pts, query, n, owner, groups)
    requires g1 < |groups| && g2 < |groups| && g1 != g2
    ensures !(x in groups[g1] && x in groups[g2])
  {
  }

  /**
   * With a symmetric radius query, every cluster is closed: each neighbour of a member
   * that the code does not skip is a member of the same group.
   */
  lemma ClosedUnderNeighbours(pts: seq<Vec3>, query: Vec3 -> seq<nat>, n: nat,
                              owner: seq<int>, groups: seq<seq<nat>>, g: nat, m: nat, nb: nat)
    requires IsSegmentation(pts, query, n, owner, groups) && Symmetric(pts, query, n)
    requires g < |groups| && m in groups[g] && nb in query(pts[m]) && nb < n
    ensures nb in groups[g]
  {
    var t :| 0 <= t < |groups[g]| && groups[g][t] == m;
    assert owner[m] == g;
    assert m in query(pts[nb]);
  }

  /** Seeds grow with the group number: groups start at increasing indices. */
  lemma SeedsIncrease(pts: seq<Vec3>, query: Vec3 -> seq<nat>, n: nat,
                      owner: seq<int>, groups: seq<seq<nat>>, g1: nat, g2: nat)
    requires IsSegmentation(pts, query, n, owner, groups)
    requires g1 < g2 < |groups|
    ensures groups[g1][0] < groups[g2][0]
  {
  }

  /** A chain of query edges over the first `n` points. */
  ghost predicate Path(pts: seq<Vec3>, query: Vec3 -> seq<nat>, n: nat, path: seq<nat>) {
    && path != [] && n <= |pts| && IndicesBelow(path, n)
    && forall t :: 0 < t < |path| ==> path[t] in query(pts[path[t - 1]])
  }

  /** Every member of a group is connected to the group's seed by a chain of query edges. */
  lemma {:induction false} MemberReachable(pts: seq<Vec3>, query: Vec3 -> seq<nat>, n: nat,
                                           owner: seq<int>, groups: seq<seq<nat>>, g: nat, t: nat)
    returns (path: seq<nat>)
    requires PartialSegmentation(pts, query, n, owner, groups)
    requires g < |groups| && t < |groups[g]|
    ensures Path(pts, query, n, path) && path[0] == groups[g][0] && path[|path| - 1] == groups[g][t]
    decreases t
  {
    var q := groups[g];
    assert IndicesBelow(q, n);
    if t == 0 {
      path := [q[0]];
    } else {
      assert ReachedFromEarlier(pts, query, q, t);
      var p :| 0 <= p < t && q[p] < |pts| && q[t] in query(pts[q[p]]);
      var pre := MemberReachable(pts, query, n, owner, groups, g, p);
      path := pre + [q[t]];
      assert forall i :: 0 <= i < |pre| ==> path[i] == pre[i];
    }
  }

  /**
   * With a symmetric radius query, a chain of query edges that starts in a group stays
   * in it: together with `MemberReachable`, each group is the connected component of its
   * seed in the graph of the query.
   */
  lemma {:induction false} PathStaysInGroup(pts: seq<Vec3>, query: Vec3 -> seq<nat>, n: nat,
                                            owner: seq<int>, groups: seq<seq<nat>>, g: nat, path: seq<nat>, t: nat)
    requires IsSegmentation(pts, query, n, owner, groups) && Symmetric(pts, query, n)
    requires g < |groups| && Path(pts, query, n, path) && path[0] in groups[g] && t < |path|
    ensures path[t] in groups[g]
  {
    if t > 0 {
      PathStaysInGroup(pts, query, n, owner, groups, g, path, t - 1);
      ClosedUnderNeighbours(pts, query, n, owner, groups, g, path[t - 1], path[t]);
    }
  }

  /**
   * Two points where the query of the first does not return the second cannot form one
   * group seeded at the first: merging unconnected points is not a segmentation.
   */
  lemma UnconnectedNotMerged(pts: seq<Vec3>, query: Vec3 -> seq<nat>)
    requires |pts| == 2 && 1 !in query(pts[0])
    ensures !PartialSegmentation(pts, query, 2, [0, 0], [[0, 1]])
  {
    var q: seq<nat> := [0, 1];
    var groups: seq<seq<nat>> := [q];
    assert !ReachedFromEarlier(pts, query, q, 1);
    assert !Reached(pts, query, groups[0]);
  }

  /* ---------- One visit of the queue loop ---------- */

  /**
   * The points a visit enqueues, given the indices the radius query returned and the
   * marks before: each index below `n` not yet marked, in the order returned, once.
   */
  function Enqueued(indices: seq<nat>, n: nat, marked: seq<bool>): seq<nat>
    requires |marked| == n
  {
    if indices == [] then []
    else
      var i := indices[0];
      if i < n && !marked[i] then [i] + Enqueued(indices[1..], n, marked[i := true])
      else Enqueued(indices[1..], n, marked)
  }

  /** A visit enqueues exactly the unmarked good points the query returned, each once. */
  lemma {:induction false} EnqueuedSpec(indices: seq<nat>, n: nat, marked: seq<bool>)
    requires |marked| == n
    ensures forall x :: x in Enqueued(indices, n, marked) <==> x in indices && x < n && !marked[x]
    ensures NoDup(Enqueued(indices, n, marked))
  {
    if indices != [] {
      var i := indices[0];
      assert indices == [i] + indices[1..];
      if i < n && !marked[i] {
        EnqueuedSpec(indices[1..], n, marked[i := true]);
        var rest := Enqueued(indices[1..], n, marked[i := true]);
        assert i !in rest;
        assert forall a :: 1 <= a < |[i] + rest| ==> ([i] + rest)[a] == rest[a - 1];
      } else {
        EnqueuedSpec(indices[1..], n, marked);
      }
    }
  }

  /** `Enqueued` over the indices from position `j` on, one index at a time. */
  lemma EnqueuedFrom(indices: seq<nat>, j: nat, n: nat, marked: seq<bool>)
    requires j < |indices| && |marked| == n
    ensures Enqueued(indices[j..], n, marked) ==
      (if indices[j] < n && !marked[indices[j]]
       then [indices[j]] + Enqueued(indices[j + 1..], n, marked[indices[j] := true])
       else Enqueued(indices[j + 1..], n, marked))
  {
    assert indices[j..][1..] == indices[j + 1..];
  }

  /** The clusters emitted from the groups: those of at least `minSize` points, in order, with id -1. */
  function Emit(groups: seq<seq<nat>>, pts: seq<Vec3>, minSize: nat): seq<Cluster>
    requires GroupsWellFormed(groups, |pts|)
  {
    if groups == [] then []
    else
      var g := groups[|groups| - 1];
      Emit(groups[..|groups| - 1], pts, minSize)
        + (if |g| >= minSize then [NewCluster(g, -1, Centroid(pts, g))] else [])
  }

  /** The groups of a partial segmentation can be turned into clusters. */
  lemma PartialWellFormed(pts: seq<Vec3>, query: Vec3 -> seq<nat>, n: nat, owner: seq<int>, groups: seq<seq<nat>>)
    requires PartialSegmentation(pts, query, n, owner, groups)
    ensures GroupsWellFormed(groups, |pts|)
  {
  }

  /** Emitting one more group adds its cluster, if it is large enough, behind the others. */
  lemma EmitSnoc(groups: seq<seq<nat>>, g: seq<nat>, pts: seq<Vec3>, minSize: nat)
    requires GroupsWellFormed(groups, |pts|) && g != [] && IndicesBelow(g, |pts|)
    ensures GroupsWellFormed(groups + [g], |pts|)
    ensures Emit(groups + [g], pts, minSize) ==
      Emit(groups, pts, minSize) + (if |g| >= minSize then [NewCluster(g, -1, Centroid(pts, g))] else [])
  {
    assert (groups + [g])[..|groups|] == groups;
    assert forall i :: 0 <= i < |groups| ==> (groups + [g])[i] == groups[i];
  }

  /** Every emitted cluster is a group of at least `minSize` points, with id -1 and its centroid. */
  lemma {:induction false} EmitSound(groups: seq<seq<nat>>, pts: seq<Vec3>, minSize: nat)
    requires GroupsWellFormed(groups, |pts|)
    ensures forall c :: c in Emit(groups, pts, minSize) ==>
      && c.indices in groups && c.indices != [] && IndicesBelow(c.indices, |pts|)
      && c.numPoints == |c.indices| && c.numPoints >= minSize
      && c.id == -1 && c.center == Centroid(pts, c.indices)
  {
    if groups != [] {
      EmitSound(groups[..|groups| - 1], pts, minSize);
    }
  }

  /** The emitted clusters have no id yet. */
  lemma EmitUnassigned(groups: seq<seq<nat>>, pts: seq<Vec3>, minSize: nat)
    requires GroupsWellFormed(groups, |pts|)
    ensures forall i :: 0 <= i < |Emit(groups, pts, minSize)| ==> Emit(groups, pts, minSize)[i].id == -1
  {
    var cs := Emit(groups, pts, minSize);
    EmitSound(groups, pts, minSize);
    assert forall i :: 0 <= i < |cs| ==> cs[i] in cs;
  }

  /** Every group of at least `minSize` points is emitted. */
  lemma {:induction false} EmitComplete(groups: seq<seq<nat>>, pts: seq<Vec3>, minSize: nat, g: nat)
    requires GroupsWellFormed(groups, |pts|)
    requires g < |groups| && |groups[g]| >= minSize
    ensures exists c :: c in Emit(groups, pts, minSize) && c.indices == groups[g]
  {
    var k := |groups| - 1;
    var c := NewCluster(groups[k], -1, Centroid(pts, groups[k]));
    if g < k {
      EmitComplete(groups[..k], pts, minSize, g);
    } else {
      assert c in Emit(groups, pts, minSize);
    }
  }

  /** Every emitted cluster is built from one of the groups. */
  lemma {:induction false} EmitFromGroups(groups: seq<seq<nat>>, pts: seq<Vec3>, minSize: nat)
    requires GroupsWellFormed(groups, |pts|)
    ensures forall k :: 0 <= k < |Emit(groups, pts, minSize)| ==>
      exists g :: 0 <= g < |groups| && Emit(groups, pts, minSize)[k].indices == groups[g]
  {
    if groups != [] {
      var last := |groups| - 1;
      var prefix := groups[..last];
      EmitFromGroups(prefix, pts, minSize);
      var ps := Emit(prefix, pts, minSize);
      var cs := Emit(groups, pts, minSize);
      var g := groups[last];
      assert cs == ps + (if |g| >= minSize then [NewCluster(g, -1, Centroid(pts, g))] else []);
      forall k | 0 <= k < |cs| ensures exists g :: 0 <= g < |groups| && cs[k].indices == groups[g] {
        if k < |ps| {
          var g :| 0 <= g < |prefix| && ps[k].indices == prefix[g];
          assert cs[k] == ps[k] && prefix[g] == groups[g];
        } else {
          assert cs[k].indices == groups[last];
          assert 0 <= last < |groups|;
        }
      }
      assert forall k :: 0 <= k < |cs| ==> exists g :: 0 <= g < |groups| && cs[k].indices == groups[g];
    } else {
      assert Emit(groups, pts, minSize) == [];
    }
  }

  /** No point belongs to two of the clusters. */
  predicate ClustersDisjoint(cs: seq<Cluster>) {
    forall k1, k2, x :: 0 <= k1 < k2 < |cs| && x in cs[k1].indices ==> x !in cs[k2].indices
  }

  /** Pairwise disjoint groups give pairwise disjoint clusters. */
  lemma {:induction false} EmitDisjoint(groups: seq<seq<nat>>, pts: seq<Vec3>, minSize: nat)
    requires GroupsWellFormed(groups, |pts|)
    requires forall g1, g2, x :: 0 <= g1 < g2 < |groups| && x in groups[g1] ==> x !in groups[g2]
    ensures ClustersDisjoint(Emit(groups, pts, minSize))
  {
    if groups != [] {
      var last := |groups| - 1;
      var prefix := groups[..last];
      EmitDisjoint(prefix, pts, minSize);
      EmitFromGroups(prefix, pts, minSize);
      var cs := Emit(groups, pts, minSize);
      var ps := Emit(prefix, pts, minSize);
      var g := groups[last];
      assert cs == ps + (if |g| >= minSize then [NewCluster(g, -1, Centroid(pts, g))] else []);
      forall k1, k2, x | 0 <= k1 < k2 < |cs| && x in cs[k1].indices
        ensures x !in cs[k2].indices
      {
        assert cs[k1] == ps[k1];
        if k2 == |ps| {
          var g1 :| 0 <= g1 < |prefix| && ps[k1].indices == prefix[g1];
          assert prefix[g1] == groups[g1];
          assert cs[k2].indices == g;
          assert x in groups[g1] && g1 < last;
          assert x !in groups[last];
        } else {
          assert cs[k2] == ps[k2];
          assert x in ps[k1].indices;
          assert x !in ps[k2].indices;
        }
      }
    }
  }

  /** The clusters of a segmentation are pairwise disjoint. */
  lemma SegmentationClustersDisjoint(pts: seq<Vec3>, query: Vec3 -> seq<nat>, n: nat,
                                     owner: seq<int>, groups: seq<seq<nat>>, minSize: nat)
    requires IsSegmentation(pts, query, n, owner, groups)
    ensures GroupsWellFormed(groups, |pts|)
    ensures ClustersDisjoint(Emit(groups, pts, minSize))
  {
    forall g1, g2, x | 0 <= g1 < g2 < |groups| && x in groups[g1]
      ensures x !in groups[g2]
    {
      GroupsDisjoint(pts, query, n, owner, groups, g1, g2, x);
    }
    EmitDisjoint(groups, pts, minSize);
  }

  /* ---------- Tracking ---------- */

  /** The initial `minDist` of the matching loop is 1000; squared, as `SqDist` is. */
  const MatchBound: real := 1000.0 * 1000.0

  /**
   * Position in `pool` of the prior cluster nearest to `p`: the first of the nearest,
   * and only if it is closer than 1000; -1 otherwise. `NearestSpec` states this.
   */
  function Nearest(pool: seq<Cluster>, p: Vec3): (r: int)
    ensures -1 <= r < |pool|
  {
    if pool == [] then -1
    else
      var r := Nearest(pool[..|pool| - 1], p);
      var d := SqDist(pool[|pool| - 1].center, p);
      if d < (if r == -1 then MatchBound else SqDist(pool[r].center, p)) then |pool| - 1 else r
  }

  /**
   * `Nearest` finds a prior cluster exactly when one is closer than 1000; it is then
   * strictly closer than every earlier one and no farther than every later one.
   */
  lemma {:induction false} NearestSpec(pool: seq<Cluster>, p: Vec3)
    ensures var r := Nearest(pool, p);
      && (r == -1 <==> forall j :: 0 <= j < |pool| ==> SqDist(pool[j].center, p) >= MatchBound)
      && (r >= 0 ==> SqDist(pool[r].center, p) < MatchBound)
      && (r >= 0 ==> forall j :: 0 <= j < r ==> SqDist(pool[j].center, p) > SqDist(pool[r].center, p))
      && (r >= 0 ==> forall j :: r < j < |pool| ==> SqDist(pool[j].center, p) >= SqDist(pool[r].center, p))
  {
    if pool != [] {
      NearestSpec(pool[..|pool| - 1], p);
    }
  }

  function RemoveAt(pool: seq<Cluster>, k: nat): (r: seq<Cluster>)
    requires k < |pool|
    ensures |r| == |pool| - 1
  {
    pool[..k] + pool[k + 1..]
  }

  /**
   * The matching loop: each new cluster, in order, takes the id of the nearest prior
   * cluster still in the pool, which then leaves the pool; an unmatched one keeps its id.
   */
  function TrackFrom(news: seq<Cluster>, pool: seq<Cluster>): seq<Cluster>
    decreases |news|
  {
    if news == [] then []
    else
      var k := Nearest(pool, news[0].center);
      if k >= 0 then [news[0].(id := pool[k].id)] + TrackFrom(news[1..], RemoveAt(pool, k))
      else [news[0]] + TrackFrom(news[1..], pool)
  }

  /** One step of the matching loop, at position `i` of the new clusters. */
  lemma TrackStep(news: seq<Cluster>, i: nat, pool: seq<Cluster>)
    requires i < |news|
    ensures TrackFrom(news[i..], pool) ==
      var k := Nearest(pool, news[i].center);
      if k >= 0 then [news[i].(id := pool[k].id)] + TrackFrom(news[i + 1..], RemoveAt(pool, k))
      else [news[i]] + TrackFrom(news[i + 1..], pool)
  {
    assert news[i..][1..] == news[i + 1..];
  }

  function Ids(cs: seq<Cluster>): (ids: seq<int>)
    ensures |ids| == |cs| && forall i :: 0 <= i < |cs| ==> ids[i] == cs[i].id
  {
    seq(|cs|, i requires 0 <= i < |cs| => cs[i].id)
  }

  /**
   * Tracking changes nothing but ids, and every id it changes is taken from the pool;
   * with a pool of distinct ids no two new clusters receive the same one.
   */
  lemma {:induction false} TrackIds(news: seq<Cluster>, pool: seq<Cluster>)
    ensures TrackedFrom(TrackFrom(news, pool), news, pool)
    decreases |news|, 1
  {
    if news != [] {
      var k := Nearest(pool, news[0].center);
      if k >= 0 {
        TrackIdsMatched(news, pool);
      } else {
        TrackIds(news[1..], pool);
        TrackedCons(TrackFrom(news, pool), news[0], TrackFrom(news[1..], pool), news, pool, pool);
      }
    }
  }

  lemma {:induction false} TrackIdsMatched(news: seq<Cluster>, pool: seq<Cluster>)
    requires news != [] && Nearest(pool, news[0].center) >= 0
    ensures TrackedFrom(TrackFrom(news, pool), news, pool)
    decreases |news|, 0
  {
    var k := Nearest(pool, news[0].center);
    var rest := RemoveAt(pool, k);
    TrackIds(news[1..], rest);
    RemoveAtIds(pool, k);
    assert Ids(pool)[k] == pool[k].id;
    TrackedCons(TrackFrom(news, pool), news[0].(id := pool[k].id), TrackFrom(news[1..], rest), news, pool, rest);
  }

  /**
   * `r` is `news` with only ids changed, and every changed id comes from `pool`.
   */
  predicate TrackedFrom(r: seq<Cluster>, news: seq<Cluster>, pool: seq<Cluster>) {
    && |r| == |news|
    && (forall i :: 0 <= i < |r| ==> r[i] == news[i].(id := r[i].id))
    && (forall i :: 0 <= i < |r| ==> r[i].id == news[i].id || r[i].id in Ids(pool))
  }

  lemma TrackedCons(r: seq<Cluster>, head: Cluster, tail: seq<Cluster>,
                    news: seq<Cluster>, pool: seq<Cluster>, rest: seq<Cluster>)
    requires news != [] && r == [head] + tail
    requires head == news[0].(id := head.id)
    requires head.id == news[0].id || head.id in Ids(pool)
    requires TrackedFrom(tail, news[1..], rest)
    requires forall x :: x in Ids(rest) ==> x in Ids(pool)
    ensures TrackedFrom(r, news, pool)
  {
    forall i | 0 < i < |r| ensures r[i] == tail[i - 1] && news[i] == news[1..][i - 1] {}
  }


  /** Removing a cluster removes its id and keeps every other position's id. */
  lemma RemoveAtIds(pool: seq<Cluster>, k: nat)
    requires k < |pool|
    ensures forall x :: x in Ids(RemoveAt(pool, k)) ==> x in Ids(pool)
    ensures forall j :: 0 <= j < |pool| - 1 ==> RemoveAt(pool, k)[j] == pool[if j >= k then j + 1 else j]
  {
    var rest := RemoveAt(pool, k);
    forall x | x in Ids(rest) ensures x in Ids(pool) {
      var j :| 0 <= j < |rest| && Ids(rest)[j] == x;
      var j' := if j >= k then j + 1 else j;
      assert Ids(pool)[j'] == x;
    }
  }

  /** No two clusters share an id, except the unassigned id -1. */
  predicate DistinctAssigned(cs: seq<Cluster>) {
    forall i, j :: 0 <= i < j < |cs| && cs[i].id == cs[j].id ==> cs[i].id == -1
  }

  /** Distinct, non-negative ids: the invariant of the tracked clusters between passes. */
  predicate IdsValid(cs: seq<Cluster>) {
    && (forall i :: 0 <= i < |cs| ==> cs[i].id >= 0)
    && (forall i, j :: 0 <= i < j < |cs| ==> cs[i].id != cs[j].id)
  }

  /** New clusters with id -1, matched against prior clusters with valid ids, inherit no id twice. */
  lemma {:induction false} TrackDistinct(news: seq<Cluster>, pool: seq<Cluster>)
    requires forall i :: 0 <= i < |news| ==> news[i].id == -1
    requires IdsValid(pool)
    ensures DistinctAssigned(TrackFrom(news, pool))
    decreases |news|, 1
  {
    if news != [] {
      if Nearest(pool, news[0].center) >= 0 {
        TrackDistinctMatched(news, pool);
      } else {
        TrackDistinctUnmatched(news, pool);
      }
    }
  }

  lemma {:induction false} TrackDistinctMatched(news: seq<Cluster>, pool: seq<Cluster>)
    requires news != [] && Nearest(pool, news[0].center) >= 0
    requires forall i :: 0 <= i < |news| ==> news[i].id == -1
    requires IdsValid(pool)
    ensures DistinctAssigned(TrackFrom(news, pool))
    decreases |news|, 0
  {
    var k := Nearest(pool, news[0].center);
    var rest := RemoveAt(pool, k);
    var head := news[0].(id := pool[k].id);
    var tail := TrackFrom(news[1..], rest);
    RemoveAtValid(pool, k);
    RemovedIdGone(pool, k);
    TrackDistinct(news[1..], rest);
    TrackIds(news[1..], rest);
    FreshIdUnused(news[1..], rest, tail, pool[k].id);
    ConsDistinct(TrackFrom(news, pool), head, tail);
  }

  lemma {:induction false} TrackDistinctUnmatched(news: seq<Cluster>, pool: seq<Cluster>)
    requires news != [] && Nearest(pool, news[0].center) < 0
    requires forall i :: 0 <= i < |news| ==> news[i].id == -1
    requires IdsValid(pool)
    ensures DistinctAssigned(TrackFrom(news, pool))
    decreases |news|, 0
  {
    TrackDistinct(news[1..], pool);
    ConsDistinct(TrackFrom(news, pool), news[0], TrackFrom(news[1..], pool));
  }



  lemma RemoveAtValid(pool: seq<Cluster>, k: nat)
    requires k < |pool| && IdsValid(pool)
    ensures IdsValid(RemoveAt(pool, k))
  {
    RemoveAtIds(pool, k);
  }

  /** With distinct ids, the id of the removed cluster is no longer in the pool. */
  lemma RemovedIdGone(pool: seq<Cluster>, k: nat)
    requires k < |pool| && IdsValid(pool)
    ensures pool[k].id !in Ids(RemoveAt(pool, k))
  {
    RemoveAtIds(pool, k);
    var rest := RemoveAt(pool, k);
    forall m | 0 <= m < |rest| ensures Ids(rest)[m] != pool[k].id {
      assert rest[m] == pool[if m >= k then m + 1 else m];
    }
  }

  /** An id not in the pool, other than -1, is not given to any of the tracked clusters. */
  lemma FreshIdUnused(news: seq<Cluster>, pool: seq<Cluster>, tracked: seq<Cluster>, x: int)
    requires forall i :: 0 <= i < |news| ==> news[i].id == -1
    requires TrackedFrom(tracked, news, pool)
    requires x != -1 && x !in Ids(pool)
    ensures forall j :: 0 <= j < |tracked| ==> tracked[j].id != x
  {
  }

  lemma ConsDistinct(r: seq<Cluster>, head: Cluster, tail: seq<Cluster>)
    requires r == [head] + tail
    requires DistinctAssigned(tail)
    requires forall j :: 0 <= j < |tail| && tail[j].id == head.id ==> head.id == -1
    ensures DistinctAssigned(r)
  {
    forall i, j | 0 <= i < j < |r| && r[i].id == r[j].id ensures r[i].id == -1 {
      assert r[j] == tail[j - 1];
      if i > 0 {
        assert r[i] == tail[i - 1];
      }
    }
  }


  /** With no prior clusters, nothing is matched. */
  lemma {:induction false} TrackEmptyPool(news: seq<Cluster>)
    ensures TrackFrom(news, []) == news
  {
    if news != [] {
      TrackEmptyPool(news[1..]);
    }
  }

  /* ---------- Identifier assignment ---------- */

  /** If `0..m-1` all occur in `ids`, then `ids` has at least `m` entries. */
  lemma {:induction false} Pigeonhole(ids: seq<int>, m: nat)
    requires forall v :: 0 <= v < m ==> v in ids
    ensures m <= |ids|
  {
    if m > 0 {
      assert m - 1 in ids;
      var p :| 0 <= p < |ids| && ids[p] == m - 1;
      var rest := ids[..p] + ids[p + 1..];
      forall v | 0 <= v < m - 1 ensures v in rest {
        assert v in ids;
        var q :| 0 <= q < |ids| && ids[q] == v;
        assert rest[if q < p then q else q - 1] == v;
      }
      Pigeonhole(rest, m - 1);
    }
  }

  /** The smallest non-negative integer at least `r` that is not in `ids`, when `0..r-1` all are. */
  function MinFreeFrom(ids: seq<int>, r: nat): (f: nat)
    requires r <= |ids|
    requires forall v :: 0 <= v < r ==> v in ids
    ensures r <= f <= |ids|
    ensures f !in ids
    ensures forall v :: 0 <= v < f ==> v in ids
    decreases |ids| - r
  {
    if r !in ids then r
    else
      Pigeonhole(ids, r + 1);
      MinFreeFrom(ids, r + 1)
  }

  /** The smallest non-negative integer not in `ids`. */
  function MinFree(ids: seq<int>): (f: nat)
    ensures f !in ids && forall v :: 0 <= v < f ==> v in ids
  {
    MinFreeFrom(ids, 0)
  }

  /** The two properties of `MinFree` determine it. */
  lemma MinFreeUnique(ids: seq<int>, f: nat)
    requires f !in ids && forall v :: 0 <= v < f ==> v in ids
    ensures f == MinFree(ids)
  {
  }

  /**
   * The assignment loop from position `i` on: each cluster still without id (-1) gets
   * the smallest id not used by any cluster at that moment.
   */
  function AssignFrom(cs: seq<Cluster>, i: nat): (r: seq<Cluster>)
    ensures |r| == |cs|
    decreases |cs| - i
  {
    if i >= |cs| then cs
    else if cs[i].id != -1 then AssignFrom(cs, i + 1)
    else AssignFrom(cs[i := cs[i].(id := MinFree(Ids(cs)))], i + 1)
  }

  /**
   * Assignment changes only ids of clusters without one; afterwards ids are distinct and
   * non-negative, provided the assigned ones were distinct and non-negative before.
   */
  lemma {:induction false} AssignValid(cs: seq<Cluster>, i: nat)
    requires DistinctAssigned(cs)
    requires forall j :: 0 <= j < |cs| ==> cs[j].id >= -1
    requires forall j :: 0 <= j < i && j < |cs| ==> cs[j].id >= 0
    ensures var r := AssignFrom(cs, i);
      && |r| == |cs|
      && (forall j :: 0 <= j < |r| ==> r[j] == cs[j].(id := r[j].id))
      && (forall j :: 0 <= j < |r| && cs[j].id != -1 ==> r[j].id == cs[j].id)
      && IdsValid(r)
    decreases |cs| - i
  {
    if i < |cs| {
      if cs[i].id != -1 {
        AssignValid(cs, i + 1);
      } else {
        var f := MinFree(Ids(cs));
        var next := cs[i := cs[i].(id := f)];
        assert forall j :: 0 <= j < |cs| ==> cs[j].id != f by {
          forall j | 0 <= j < |cs| ensures cs[j].id != f { assert Ids(cs)[j] == cs[j].id; }
        }
        AssignValid(next, i + 1);
      }
    }
  }

  /**
   * A whole pass over new clusters (id -1) and prior clusters with valid ids: the result
   * is the new clusters with only their ids changed, and its ids are valid again.
   */
  lemma TrackAssignValid(news: seq<Cluster>, pool: seq<Cluster>)
    requires forall i :: 0 <= i < |news| ==> news[i].id == -1
    requires IdsValid(pool)
    ensures var r := AssignFrom(TrackFrom(news, pool), 0);
      && |r| == |news|
      && (forall j :: 0 <= j < |r| ==> r[j] == news[j].(id := r[j].id))
      && IdsValid(r)
  {
    var t := TrackFrom(news, pool);
    TrackIds(news, pool);
    TrackDistinct(news, pool);
    forall j | 0 <= j < |t| ensures t[j].id >= -1 {
      if t[j].id != news[j].id {
        var m :| 0 <= m < |pool| && Ids(pool)[m] == t[j].id;
      }
    }
    AssignValid(t, 0);
  }

  /** On a first frame, when no cluster has an id yet, the ids handed out are 0, 1, 2, ... in order. */
  lemma {:induction false} AssignFirstFrame(cs: seq<Cluster>, i: nat)
    requires i <= |cs|
    requires forall j :: 0 <= j < i ==> cs[j].id == j
    requires forall j :: i <= j < |cs| ==> cs[j].id == -1
    ensures forall j :: 0 <= j < |cs| ==> AssignFrom(cs, i)[j].id == j
    decreases |cs| - i
  {
    if i < |cs| {
      var ids := Ids(cs);
      assert forall v :: 0 <= v < i ==> v in ids by {
        forall v | 0 <= v < i ensures v in ids { assert ids[v] == v; }
      }
      assert i !in ids by {
        forall j | 0 <= j < |cs| ensures ids[j] != i {}
      }
      MinFreeUnique(ids, i);
      AssignFirstFrame(cs[i := cs[i].(id := i)], i + 1);
    }
  }

  /* ---------- Cluster orientation ---------- */

  /** C#'s `(int)` conversion of a number: truncation toward zero. */
  function Truncate(x: real): (r: int)
    ensures 0.0 <= x ==> r as real <= x < r as real + 1.0
    ensures x < 0.0 ==> r as real - 1.0 < x <= r as real
  {
    if x >= 0.0 then x.Floor else -((-x).Floor)
  }

  /**
   * `computeClusterOrientation` copies all `numPoints` points of each cluster into an
   * array of `(int)(f * numPoints)` entries: it throws as soon as one cluster has more
   * points than that.
   */
  predicate OrientationFaults(cs: seq<Cluster>, f: real) {
    exists j :: 0 <= j < |cs| && Truncate(f * cs[j].numPoints as real) < cs[j].numPoints
  }

  /**
   * For non-empty clusters, a fraction below one (the range the inspector offers, except
   * its upper end) faults on every non-empty list of clusters, and a fraction of at least
   * one never faults.
   */
  lemma OrientationFaultsIff(cs: seq<Cluster>, f: real)
    requires forall j :: 0 <= j < |cs| ==> cs[j].numPoints >= 1
    ensures f < 1.0 ==> (OrientationFaults(cs, f) <==> cs != [])
    ensures 1.0 <= f ==> !OrientationFaults(cs, f)
  {
    if f < 1.0 && cs != [] {
      ShortArray(f, cs[0].numPoints);
    }
    if 1.0 <= f {
      forall j | 0 <= j < |cs| ensures Truncate(f * cs[j].numPoints as real) >= cs[j].numPoints {
        WholeArray(f, cs[j].numPoints);
      }
    }
  }

  /** A fraction below one of a positive size truncates below it. */
  lemma ShortArray(f: real, n: nat)
    requires f < 1.0 && n >= 1
    ensures Truncate(f * n as real) < n
  {
    var x := n as real;
    assert (1.0 - f) * x > 0.0;
    assert f * x == x - (1.0 - f) * x;
  }

  /** A fraction of at least one of a size truncates to at least it. */
  lemma WholeArray(f: real, n: nat)
    requires 1.0 <= f
    ensures Truncate(f * n as real) >= n
  {
    var x := n as real;
    assert (f - 1.0) * x >= 0.0;
    assert f * x == x + (f - 1.0) * x;
  }
}
