# MotionMap client core in Dafny

This project models the Unity client of MotionMap. A Kinect depth camera watches a
room. The client turns the people in front of it into tracked clusters of points,
and lets them select "zones" of the scene by pointing at them. Selection events go
out as OpenSoundControl (OSC) messages.

The model covers four parts of the client:

- **Point-cloud handler** (`PCLHandler.cs`, modules `ClusterSpec` and `PointCloud`). Each frame:
  - the camera points are sampled on a grid with stride `steps` and compacted into `worldPoints`;
  - the good points are segmented into clusters by a flood fill over a radius query;
  - the clusters are matched against the previous frame's by nearest centre;
  - each unmatched cluster gets the smallest free id.

  `ClusterSpec` states what a pass computes, as functions over values, and proves its properties:
  - the groups partition the points;
  - each group was reached from its seed through query edges, is closed under the query, and is
    seeded at the smallest unprocessed index, so for a symmetric query it is the seed's connected
    component in the query's graph;
  - the emitted clusters have the minimum size and the right centroid, and are pairwise disjoint;
  - no prior id is inherited twice, and ids are distinct and non-negative afterwards.

  The class `PointCloud.PclHandler` runs the pass imperatively over a `processedIndices`
  array and a growing `clusterQueue`. Each visit of a queued point is proved to append exactly
  what the function `Enqueued` gives, and the whole pass is proved to produce such a
  segmentation and the clusters `Emit`, `TrackFrom` and `AssignFrom` compute from it. A pass
  that stops early leaves the gate `clusterReady` closed, as the code does.
- **Zones** (`MotionMapZone.cs`, module `Zones`). The `over` and `selected` flags and their
  idempotent setters. Each real change sends one message and starts the colour animations,
  which are logged as commands.
- **Scene controller** (`MotionMap.cs`, module `Selection`):
  - the cursor list;
  - the demo-mode flag;
  - the per-frame recomputation of which zones are over;
  - the switch of the selected zone.

  Every zone field, the selection and the packets sent are read together as a value `Scene`
  (`MotionMap.View`). `Update` and each of its steps are proved to change that value exactly as
  a function over scenes does (`UpdateFrame`, `Frame`, `Visit`, `SelectZone`). The properties
  are then proved about those functions.
- **OSC hub** (`OSCMaster.cs`, module `OscRouting`). Incoming addresses are split on '/' and
  routed to a controllable by name. Outgoing messages get default host and port. Sent
  packets and `setProp` calls are appended to logs.

The model's inputs stand in for what it cannot see:
- The Kinect SDK, the GameObject transform and the collider bounds are parameters.
- `Physics.Raycast` and `Time.time` are parameters.
- The k-d tree is its radius query, a function `Vec3 -> seq<nat>`.

`Vector3` is a triple of reals (module `Geometry`). Distances are compared as squares,
which gives the same answers for `<`. The initial `minDist` of 1000 therefore becomes
`1000 * 1000`.

The tracking loop in the code only matches a prior cluster that is closer than the initial
`minDist` of 1000 (strict `<`, ties to the earlier position). The model follows the code,
including that bound.

## Model

| member | source | states |
|---|---|---|
| ClusterSpec.NewCluster | MotionMapUnityClient/Assets/Lib/MotionMap/Scripts/PCLHandler.cs:17-23 | the size is the number of indices; indices, id and centre are stored unchanged; orientation starts at zero |
| ClusterSpec.CountTrueNone | MotionMapUnityClient/Assets/Lib/MotionMap/Scripts/PCLHandler.cs:306 | a freshly allocated `processedIndices` counts no processed point |
| ClusterSpec.CountTrueBound | MotionMapUnityClient/Assets/Lib/MotionMap/Scripts/PCLHandler.cs:331 | the processed count never exceeds the number of points |
| ClusterSpec.CountTrueUpdate | MotionMapUnityClient/Assets/Lib/MotionMap/Scripts/PCLHandler.cs:350-351 | marking one entry changes the count by the old and new value of that entry, so `numProcessedPoints` tracks the marks |
| ClusterSpec.UnmarkedBelowLength | MotionMapUnityClient/Assets/Lib/MotionMap/Scripts/PCLHandler.cs:331 | while some point is unprocessed, `numProcessedPoints < numGoodPoints` |
| ClusterSpec.SomeUnmarked | MotionMapUnityClient/Assets/Lib/MotionMap/Scripts/PCLHandler.cs:331-345 | while `numProcessedPoints < numGoodPoints`, some point is unprocessed, so the seed search always finds one |
| ClusterSpec.AllMarked | MotionMapUnityClient/Assets/Lib/MotionMap/Scripts/PCLHandler.cs:331 | when the seed loop exits, every point is processed |
| ClusterSpec.EmptySegmentation | MotionMapUnityClient/Assets/Lib/MotionMap/Scripts/PCLHandler.cs:330 | before the first seed, no point is processed and there is no group |
| ClusterSpec.AppendGroup | MotionMapUnityClient/Assets/Lib/MotionMap/Scripts/PCLHandler.cs:338-365 | a group grown from the smallest unprocessed index extends the partial segmentation. Its points were unprocessed, each lies in its own group, and its members' in-range neighbours are processed in it or earlier |
| ClusterSpec.GroupsDisjoint | MotionMapUnityClient/Assets/Lib/MotionMap/Scripts/PCLHandler.cs:348-364 | no point belongs to two groups, so each point is dequeued in exactly one group |
| ClusterSpec.ClosedUnderNeighbours | MotionMapUnityClient/Assets/Lib/MotionMap/Scripts/PCLHandler.cs:354-363 | for a symmetric radius query, each neighbour below `numGoodPoints` of a group member is in the same group |
| ClusterSpec.SeedsIncrease | MotionMapUnityClient/Assets/Lib/MotionMap/Scripts/PCLHandler.cs:338-345 | groups are seeded at strictly increasing indices |
| ClusterSpec.MemberReachable | MotionMapUnityClient/Assets/Lib/MotionMap/Scripts/PCLHandler.cs:348-364 | every member of a group is joined to the group's seed by a chain of query edges among the good points |
| ClusterSpec.PathStaysInGroup | MotionMapUnityClient/Assets/Lib/MotionMap/Scripts/PCLHandler.cs:338-364 | for a symmetric query, a chain of query edges that starts in a group stays in it; with `MemberReachable`, each group is its seed's connected component |
| ClusterSpec.UnconnectedNotMerged | MotionMapUnityClient/Assets/Lib/MotionMap/Scripts/PCLHandler.cs:354-363 | two points that the first one's query does not join cannot form one group seeded at the first |
| ClusterSpec.EnqueuedSpec | MotionMapUnityClient/Assets/Lib/MotionMap/Scripts/PCLHandler.cs:355-364 | a visit enqueues exactly the unprocessed points below `numGoodPoints` that the query returned, each once |
| ClusterSpec.EmitSnoc | MotionMapUnityClient/Assets/Lib/MotionMap/Scripts/PCLHandler.cs:367-368 | a finished group adds exactly one cluster (id -1, its centroid) behind the others iff it has at least `minClusterSize` points |
| ClusterSpec.EmitSound | MotionMapUnityClient/Assets/Lib/MotionMap/Scripts/PCLHandler.cs:352-368 | every emitted cluster is a non-empty group of at least `minClusterSize` points; its size is its index count, its id is -1, and its centre is the sum of its points divided by their count |
| ClusterSpec.EmitUnassigned | MotionMapUnityClient/Assets/Lib/MotionMap/Scripts/PCLHandler.cs:368 | the emitted clusters all have id -1 |
| ClusterSpec.EmitComplete | MotionMapUnityClient/Assets/Lib/MotionMap/Scripts/PCLHandler.cs:368 | every group of at least `minClusterSize` points is emitted; smaller groups are the dropped noise |
| ClusterSpec.EmitFromGroups | MotionMapUnityClient/Assets/Lib/MotionMap/Scripts/PCLHandler.cs:368 | every emitted cluster's indices are one of the groups |
| ClusterSpec.EmitDisjoint | MotionMapUnityClient/Assets/Lib/MotionMap/Scripts/PCLHandler.cs:348-368 | pairwise disjoint groups give pairwise disjoint clusters |
| ClusterSpec.SegmentationClustersDisjoint | MotionMapUnityClient/Assets/Lib/MotionMap/Scripts/PCLHandler.cs:331-369 | the clusters of a finished segmentation are pairwise disjoint |
| ClusterSpec.Nearest | MotionMapUnityClient/Assets/Lib/MotionMap/Scripts/PCLHandler.cs:374-385 | the match is -1 or a position in the prior clusters |
| ClusterSpec.NearestSpec | MotionMapUnityClient/Assets/Lib/MotionMap/Scripts/PCLHandler.cs:374-385 | the match is -1 iff no prior centre is closer than 1000. Otherwise it is closer than 1000, strictly closer than every earlier prior cluster, and no farther than every later one |
| ClusterSpec.RemoveAt | MotionMapUnityClient/Assets/Lib/MotionMap/Scripts/PCLHandler.cs:390 | `RemoveAt` removes exactly one cluster |
| ClusterSpec.RemoveAtIds | MotionMapUnityClient/Assets/Lib/MotionMap/Scripts/PCLHandler.cs:390 | after `RemoveAt` the others keep their order, and no new id appears |
| ClusterSpec.RemovedIdGone | MotionMapUnityClient/Assets/Lib/MotionMap/Scripts/PCLHandler.cs:389-390 | with distinct ids, the id just inherited is no longer among the prior clusters |
| ClusterSpec.RemoveAtValid | MotionMapUnityClient/Assets/Lib/MotionMap/Scripts/PCLHandler.cs:390 | removing a prior cluster keeps the remaining ids distinct and non-negative |
| ClusterSpec.TrackIds | MotionMapUnityClient/Assets/Lib/MotionMap/Scripts/PCLHandler.cs:372-393 | tracking changes nothing but ids; a changed id comes from a prior cluster, otherwise the cluster keeps its id |
| ClusterSpec.TrackDistinct | MotionMapUnityClient/Assets/Lib/MotionMap/Scripts/PCLHandler.cs:372-393 | new clusters matched against prior clusters with distinct ids never share an inherited id, because a matched prior cluster is removed |
| ClusterSpec.TrackEmptyPool | MotionMapUnityClient/Assets/Lib/MotionMap/Scripts/PCLHandler.cs:372-393 | with no prior clusters, tracking leaves every new cluster as it is |
| ClusterSpec.Pigeonhole | MotionMapUnityClient/Assets/Lib/MotionMap/Scripts/PCLHandler.cs:472-485 | if the ids 0..m-1 all occur, there are at least m clusters, so `getNextClusterId` terminates |
| ClusterSpec.MinFreeFrom | MotionMapUnityClient/Assets/Lib/MotionMap/Scripts/PCLHandler.cs:469-487 | counting up from a used prefix finds an unused id no larger than the number of clusters, with every smaller id used |
| ClusterSpec.MinFree | MotionMapUnityClient/Assets/Lib/MotionMap/Scripts/PCLHandler.cs:469-487 | the smallest non-negative integer that is no cluster's id |
| ClusterSpec.MinFreeUnique | MotionMapUnityClient/Assets/Lib/MotionMap/Scripts/PCLHandler.cs:469-487 | being unused with all smaller ids used determines the result |
| ClusterSpec.AssignFrom | MotionMapUnityClient/Assets/Lib/MotionMap/Scripts/PCLHandler.cs:398-403 | assignment keeps the number of clusters |
| ClusterSpec.AssignValid | MotionMapUnityClient/Assets/Lib/MotionMap/Scripts/PCLHandler.cs:398-403 | assignment changes only the ids of clusters with id -1. If the ids other than -1 were distinct, all ids are afterwards distinct and non-negative |
| ClusterSpec.TrackAssignValid | MotionMapUnityClient/Assets/Lib/MotionMap/Scripts/PCLHandler.cs:372-403 | tracking then assignment, from prior clusters with valid ids, yields the new clusters with only their ids changed, with distinct non-negative ids |
| ClusterSpec.AssignFirstFrame | MotionMapUnityClient/Assets/Lib/MotionMap/Scripts/PCLHandler.cs:398-403 | on a first frame the ids handed out are 0, 1, 2, ... in order |
| ClusterSpec.Truncate | MotionMapUnityClient/Assets/Lib/MotionMap/Scripts/PCLHandler.cs:420 | C#'s `(int)` cast truncates toward zero: `r <= x < r + 1` for `x >= 0`, and `r - 1 < x <= r` for `x < 0` |
| ClusterSpec.OrientationFaultsIff | MotionMapUnityClient/Assets/Lib/MotionMap/Scripts/PCLHandler.cs:408-428 | for clusters of at least one point, a fraction below 1 makes the orientation pass overrun its array iff there is a cluster; a fraction of at least 1 never does |
| PointCloud.Line | MotionMapUnityClient/Assets/Lib/MotionMap/Scripts/PCLHandler.cs:282 | a depth row holds `depthWidth` camera points |
| PointCloud.CellOfLine | MotionMapUnityClient/Assets/Lib/MotionMap/Scripts/PCLHandler.cs:282-283 | `ty * depthWidth + tx` is in range and is cell `tx` of row `ty` |
| PointCloud.RowBound | MotionMapUnityClient/Assets/Lib/MotionMap/Scripts/PCLHandler.cs:280-293 | a row keeps at most one point per visited column |
| PointCloud.GridBound | MotionMapUnityClient/Assets/Lib/MotionMap/Scripts/PCLHandler.cs:278-294 | the number of kept points never exceeds the number of grid cells visited |
| PointCloud.RowFits | MotionMapUnityClient/Assets/Lib/MotionMap/Scripts/PCLHandler.cs:280-293 | a row from column `tx` on keeps at most `width - tx` points |
| PointCloud.GridFits | MotionMapUnityClient/Assets/Lib/MotionMap/Scripts/PCLHandler.cs:291 | the kept points from row `ty` on fit behind row `ty`'s start, so `worldPoints[numGoodPoints]` is always in range |
| PointCloud.GridInBounds | MotionMapUnityClient/Assets/Lib/MotionMap/Scripts/PCLHandler.cs:289 | with the collider enabled, every kept point lies inside it |
| PointCloud.EnqueueKeeps | MotionMapUnityClient/Assets/Lib/MotionMap/Scripts/PCLHandler.cs:359-363 | an unmarked point is marked as it is enqueued, so the queue stays duplicate-free and lists exactly the group's points |
| PointCloud.SeedStart | MotionMapUnityClient/Assets/Lib/MotionMap/Scripts/PCLHandler.cs:338-345 | the seed is the smallest unprocessed point and starts a group of its own |
| PointCloud.FinishGroup | MotionMapUnityClient/Assets/Lib/MotionMap/Scripts/PCLHandler.cs:338-365 | an exhausted queue grown from the seed is a new group of the segmentation |
| PointCloud.ClustersNonEmpty | MotionMapUnityClient/Assets/Lib/MotionMap/Scripts/PCLHandler.cs:327-403 | every cluster a pass produces has at least one point |
| PointCloud.SumStep | MotionMapUnityClient/Assets/Lib/MotionMap/Scripts/PCLHandler.cs:352 | visiting a queue entry adds its point to the running sum of the visited points |
| PointCloud.ReachedAppend | MotionMapUnityClient/Assets/Lib/MotionMap/Scripts/PCLHandler.cs:354-363 | appending what a visit enqueues keeps every queue entry reached from an earlier one |
| PointCloud.PclHandler.constructor | MotionMapUnityClient/Assets/Lib/MotionMap/Scripts/PCLHandler.cs:111-131 | after start-up the point arrays have one entry per depth pixel (none without a sensor), the settings are those given, there are no clusters, and the gate `clusterReady` is open |
| PointCloud.PclHandler.UpdateWorldPoints | MotionMapUnityClient/Assets/Lib/MotionMap/Scripts/PCLHandler.cs:273-294 | without a sensor nothing changes. Otherwise `worldPoints[0..numGoodPoints)` are exactly the accepted samples in row-major order, `numGoodPoints` is at most the number of cells visited, and later entries are untouched |
| PointCloud.PclHandler.SampleGrid | MotionMapUnityClient/Assets/Lib/MotionMap/Scripts/PCLHandler.cs:278-294 | the row loop writes exactly the accepted samples of all sampled rows at the front of `worldPoints` |
| PointCloud.PclHandler.SampleRow | MotionMapUnityClient/Assets/Lib/MotionMap/Scripts/PCLHandler.cs:280-293 | the column loop appends exactly the row's accepted samples behind the points already kept |
| PointCloud.PclHandler.SampleCell | MotionMapUnityClient/Assets/Lib/MotionMap/Scripts/PCLHandler.cs:283-292 | a point with infinite or NaN X, or outside the enabled collider, is skipped; any other point is appended |
| PointCloud.PclHandler.FindSeed | MotionMapUnityClient/Assets/Lib/MotionMap/Scripts/PCLHandler.cs:338-345 | the result is the first unprocessed point, or -1 exactly when all are processed |
| PointCloud.PclHandler.VisitQueued | MotionMapUnityClient/Assets/Lib/MotionMap/Scripts/PCLHandler.cs:350-364 | visiting a queue entry marks it and appends exactly `Enqueued` of its query and the marks, so every newly marked point is counted. Afterwards all of its in-range neighbours are processed |
| PointCloud.PclHandler.EnqueueNeighbors | MotionMapUnityClient/Assets/Lib/MotionMap/Scripts/PCLHandler.cs:354-364 | the queue grows by exactly `Enqueued(tree(worldPoints[m]), ...)`, the unprocessed in-range neighbours in the order returned; each is counted once, and every in-range neighbour ends up processed |
| PointCloud.PclHandler.EnqueueNext | MotionMapUnityClient/Assets/Lib/MotionMap/Scripts/PCLHandler.cs:356-363 | one turn of the neighbour loop: the appended entries so far followed by what the remaining neighbours will append are what `Enqueued` gives for all of them |
| PointCloud.PclHandler.EnqueueIfUnmarked | MotionMapUnityClient/Assets/Lib/MotionMap/Scripts/PCLHandler.cs:357-363 | a neighbour is appended and marked iff it is below `numGoodPoints` and not yet processed |
| PointCloud.PclHandler.GrowCluster | MotionMapUnityClient/Assets/Lib/MotionMap/Scripts/PCLHandler.cs:348-365 | the queue loop ends with the group's points counted, every entry reached from an earlier one by the query, their neighbours processed, and the centre equal to the sum of its points |
| PointCloud.PclHandler.StartCluster | MotionMapUnityClient/Assets/Lib/MotionMap/Scripts/PCLHandler.cs:333-345 | the cleared queue starts with the first unprocessed point, which the seed search always finds |
| PointCloud.PclHandler.SeedAndGrow | MotionMapUnityClient/Assets/Lib/MotionMap/Scripts/PCLHandler.cs:333-365 | one pass of the seed loop adds a non-empty group, reached from its seed, to the segmentation and strictly raises `numProcessedPoints`; the centre is the sum of the group's points |
| PointCloud.PclHandler.Segment | MotionMapUnityClient/Assets/Lib/MotionMap/Scripts/PCLHandler.cs:330-369 | the seed loop ends with every point processed, in a segmentation by the radius query whose groups are reached from their seeds, and emits the clusters of the groups of at least `minClusterSize` points |
| PointCloud.PclHandler.NearestPrior | MotionMapUnityClient/Assets/Lib/MotionMap/Scripts/PCLHandler.cs:374-385 | the search loop returns the nearest prior cluster under 1000, the first on ties, or -1 |
| PointCloud.PclHandler.TrackOne | MotionMapUnityClient/Assets/Lib/MotionMap/Scripts/PCLHandler.cs:374-391 | one new cluster takes the matched prior id, and the matched prior cluster leaves `clusters` |
| PointCloud.PclHandler.TrackClusters | MotionMapUnityClient/Assets/Lib/MotionMap/Scripts/PCLHandler.cs:372-393 | the tracking loop computes the greedy in-order matching against the prior clusters |
| PointCloud.PclHandler.NextClusterId | MotionMapUnityClient/Assets/Lib/MotionMap/Scripts/PCLHandler.cs:469-487 | `getNextClusterId` returns the smallest non-negative integer that is no cluster's id |
| PointCloud.PclHandler.AssignIds | MotionMapUnityClient/Assets/Lib/MotionMap/Scripts/PCLHandler.cs:398-403 | each cluster with id -1, in order, takes the next free id |
| PointCloud.PclHandler.TrackAndAssign | MotionMapUnityClient/Assets/Lib/MotionMap/Scripts/PCLHandler.cs:372-403 | the new clusters replace the old ones with only their ids changed; `numClusters` is their count, and the ids are distinct and non-negative |
| PointCloud.PclHandler.CopyPoints | MotionMapUnityClient/Assets/Lib/MotionMap/Scripts/PCLHandler.cs:406 | the first `numGoodPoints` points are copied to `clusterPoints`, and the rest is untouched |
| PointCloud.PclHandler.ProcessClustersInternal | MotionMapUnityClient/Assets/Lib/MotionMap/Scripts/PCLHandler.cs:324-413 | a pass segments the points, emits, tracks and numbers the clusters and copies the points; the gate reopens iff there is a sensor and the orientation pass does not overrun |
| PointCloud.PclHandler.SegmentAndTrack | MotionMapUnityClient/Assets/Lib/MotionMap/Scripts/PCLHandler.cs:326-403 | the new clusters are those emitted from a segmentation, tracked against the old ones and given ids, each of at least one point |
| PointCloud.PclHandler.CopyAndReopen | MotionMapUnityClient/Assets/Lib/MotionMap/Scripts/PCLHandler.cs:406-410 | with a sensor the points are copied and the gate reopens unless the orientation pass overruns; without one the copy throws and the gate stays closed |
| PointCloud.PclHandler.ResetMarks | MotionMapUnityClient/Assets/Lib/MotionMap/Scripts/PCLHandler.cs:306-307 | a fresh all-false `processedIndices` of `numGoodPoints` entries, and an empty queue |
| PointCloud.PclHandler.UpdateKdTree | MotionMapUnityClient/Assets/Lib/MotionMap/Scripts/PCLHandler.cs:300-316 | when disabled, nothing changes. Otherwise the tree is replaced and the marks are cleared. With processing off, the clusters, gate and copied points are unchanged; with it on, a pass runs, and the gate is open afterwards iff that pass reached its end |
| PointCloud.PclHandler.Refresh | MotionMapUnityClient/Assets/Lib/MotionMap/Scripts/PCLHandler.cs:139-140 | without a sensor the points are kept; otherwise they are resampled. With tree updates off, the tree, clusters, gate and copied points are unchanged; with processing off, only the tree is replaced. With both on, the sampled points are clustered as a pass does, with the gate as the pass leaves it |
| PointCloud.PclHandler.Update | MotionMapUnityClient/Assets/Lib/MotionMap/Scripts/PCLHandler.cs:133-145 | while a pass is pending or stopped early (`processClusters && !clusterReady`), the frame changes nothing. Otherwise the frame is a `Refresh`: the points are resampled when there is a sensor, and they are clustered only with both tree updates and processing on. With tree updates off, the tree, clusters, gate and copied points are unchanged; with processing off, only the tree is replaced |
| Zones.AllTo | MotionMapUnityClient/Assets/Lib/MotionMap/Scripts/MotionMapZone.cs:106-113 | one animation per material |
| Zones.ResetAll | MotionMapUnityClient/Assets/Lib/MotionMap/Scripts/MotionMapZone.cs:115-123 | one animation per recorded start-up colour |
| Zones.OverToOnce | MotionMapUnityClient/Assets/Lib/MotionMap/Scripts/MotionMapZone.cs:48-68 | `setOver` takes the value, sends one message iff it changed, starts the clock on entering while not selected, keeps everything but the flag, clock and animations, and a repeat does nothing |
| Zones.SelectedToOnce | MotionMapUnityClient/Assets/Lib/MotionMap/Scripts/MotionMapZone.cs:70-93 | `setSelected` takes the value, sends one message iff it changed, keeps everything but the flag and animations, a repeat does nothing, and a selected zone ignores progress reports |
| Zones.MotionMapZone.constructor | MotionMapUnityClient/Assets/Lib/MotionMap/Scripts/MotionMapZone.cs:8-25 | a zone starts neither over nor selected, with no materials and no animations |
| Zones.MotionMapZone.Start | MotionMapUnityClient/Assets/Lib/MotionMap/Scripts/MotionMapZone.cs:28-41 | an empty id becomes the GameObject's name; materials are listed renderer by renderer, each start-up colour at the same position |
| Zones.MotionMapZone.SetAllMaterialsColors | MotionMapUnityClient/Assets/Lib/MotionMap/Scripts/MotionMapZone.cs:106-113 | every material animates to the colour over 0.5 s |
| Zones.MotionMapZone.ResetAllMaterialsColors | MotionMapUnityClient/Assets/Lib/MotionMap/Scripts/MotionMapZone.cs:115-123 | every material animates back to its start-up colour over 0.5 s |
| Zones.MotionMapZone.SetOver | MotionMapUnityClient/Assets/Lib/MotionMap/Scripts/MotionMapZone.cs:48-68 | setting the same value changes nothing and sends nothing. Otherwise the flag changes, and the clock restarts only on entering while not selected. Materials turn yellow or reset only while not selected. Exactly one `/targetOver` or `/targetOut` with the id is sent |
| Zones.MotionMapZone.SetSelectionProgression | MotionMapUnityClient/Assets/Lib/MotionMap/Scripts/MotionMapZone.cs:70-77 | only while not selected: the progression is recorded, and one `/targetSelectionProgress` with the id is sent |
| Zones.MotionMapZone.SetSelected | MotionMapUnityClient/Assets/Lib/MotionMap/Scripts/MotionMapZone.cs:79-93 | setting the same value changes nothing. Otherwise the flag changes, the materials turn green or reset, and exactly one `/targetSelected` or `/targetDeselected` with the id is sent |
| Selection.FirstCursorFor | MotionMapUnityClient/Assets/Lib/MotionMap/Scripts/MotionMap.cs:130-138 | the first cursor whose cluster is `c`; none iff no cursor has it |
| Selection.UnlinkedCursorNeverFound | MotionMapUnityClient/Assets/Lib/MotionMap/Scripts/MotionMap.cs:87-96 | a cursor added without its cluster never changes which cursor is found for any cluster |
| Selection.LinkedCursorFound | MotionMapUnityClient/Assets/Lib/MotionMap/Scripts/MotionMap.cs:87-96 | after adding a cursor linked to `c`, a cursor for `c` is found |
| Selection.RemoveFoundCursor | MotionMapUnityClient/Assets/Lib/MotionMap/Scripts/MotionMap.cs:79 | removing the cursor found for `c` removes exactly that one cursor |
| Selection.ClearThenFlag | MotionMapUnityClient/Assets/Lib/MotionMap/Scripts/MotionMap.cs:39-53 | clearing every per-frame flag and then setting those of the hit zones leaves a zone's flag set exactly when it is hit |
| Selection.ProgressBySteps | MotionMapUnityClient/Assets/Lib/MotionMap/Scripts/MotionMap.cs:60-65 | a zone's progress step is the progress report followed, once complete, by the selection |
| Selection.FrameNext | MotionMapUnityClient/Assets/Lib/MotionMap/Scripts/MotionMap.cs:55-67 | one more visit extends the zone loop by one zone |
| Selection.LastQualifyingSpec | MotionMapUnityClient/Assets/Lib/MotionMap/Scripts/MotionMap.cs:55-67 | the last-qualifying position is the default when no zone qualifies, and otherwise a qualifying zone after which none qualifies |
| Selection.SelectZoneEffect | MotionMapUnityClient/Assets/Lib/MotionMap/Scripts/MotionMap.cs:99-116 | a switch selects exactly the new position, changes only the `selected` flags and animations of the old and new zones, sends deselection, selection and `targetChanged` in that order, and is idempotent |
| Selection.VisitEffect | MotionMapUnityClient/Assets/Lib/MotionMap/Scripts/MotionMap.cs:57-66 | a visit makes the zone take its flag as `over`, selects it iff it qualifies, keeps every other zone's `over`, clock and progress, and keeps the flags in agreement |
| Selection.ProgressEffect | MotionMapUnityClient/Assets/Lib/MotionMap/Scripts/MotionMap.cs:58-66 | the progress step of a zone that is over selects it iff it qualifies, and changes no zone but in progress, `selected` flag and animations |
| Selection.TurnsStep | MotionMapUnityClient/Assets/Lib/MotionMap/Scripts/MotionMap.cs:55-67 | one visit that does what `Turn` says extends what `Turns` says about the loop by one zone |
| Selection.IterateTurns | MotionMapUnityClient/Assets/Lib/MotionMap/Scripts/MotionMap.cs:55-67 | a loop of such visits ends with each visited zone over iff flagged, the rest untouched, and the selection on the last qualifying zone or unchanged |
| Selection.VisitTurn | MotionMapUnityClient/Assets/Lib/MotionMap/Scripts/MotionMap.cs:57-66 | every visit of a consistent scene does what `Turn` says |
| Selection.FrameTurns | MotionMapUnityClient/Assets/Lib/MotionMap/Scripts/MotionMap.cs:55-67 | the zone loop after `k` zones does what `Turns` says |
| Selection.QualifyingKept | MotionMapUnityClient/Assets/Lib/MotionMap/Scripts/MotionMap.cs:55-67 | zones whose `over` state and clock are unchanged qualify alike, so later visits keep the last qualifying position |
| Selection.QuietFrame | MotionMapUnityClient/Assets/Lib/MotionMap/Scripts/MotionMap.cs:55-67 | a frame in which no zone is over or hit changes nothing and sends nothing |
| Selection.MotionMap.constructor | MotionMapUnityClient/Assets/Lib/MotionMap/Scripts/MotionMap.cs:27-35 | the zones are those found, there are no cursors and no selected zone, selection takes 2 s, and the demo starts after 30 s |
| Selection.MotionMap.SelectedFlags | MotionMapUnityClient/Assets/Lib/MotionMap/Scripts/MotionMap.cs:99-116 | in a valid map, a zone's `selected` flag is set exactly when it is `selectedZone` |
| Selection.MotionMap.GetCursorForCluster | MotionMapUnityClient/Assets/Lib/MotionMap/Scripts/MotionMap.cs:130-138 | the search loop returns the first cursor for `c`, or none |
| Selection.MotionMap.ClusterAddedAsWritten | MotionMapUnityClient/Assets/Lib/MotionMap/Scripts/MotionMap.cs:87-96 | as written: appends an unlinked cursor, cancels the pending demo, and leaves demo mode |
| Selection.MotionMap.ClusterAdded | MotionMapUnityClient/Assets/Lib/MotionMap/Scripts/MotionMap.cs:87-96 | appends a cursor linked to `c`, which removal then finds; cancels the pending demo and leaves demo mode |
| Selection.MotionMap.ClusterRemoved | MotionMapUnityClient/Assets/Lib/MotionMap/Scripts/MotionMap.cs:77-85 | removes the first cursor for `c`, if any; the demo is scheduled iff no cluster remains (or it already was) |
| Selection.MotionMap.DemoInvokeFires | MotionMapUnityClient/Assets/Lib/MotionMap/Scripts/MotionMap.cs:120-123 | a scheduled `startDemo` turns demo mode on and is consumed |
| Selection.MotionMap.StartDemo | MotionMapUnityClient/Assets/Lib/MotionMap/Scripts/MotionMap.cs:120-123 | demo mode is on |
| Selection.MotionMap.StopDemo | MotionMapUnityClient/Assets/Lib/MotionMap/Scripts/MotionMap.cs:125-128 | demo mode is off |
| Selection.MotionMap.Update | MotionMapUnityClient/Assets/Lib/MotionMap/Scripts/MotionMap.cs:38-69 | the scene value (every zone field, the selection and the packets) becomes `UpdateFrame` of the old one. So a zone is over exactly when a cursor's ray hits it; with no zone qualifying the selection is unchanged, and otherwise it is the last zone that qualifies |
| Selection.MotionMap.MarkHits | MotionMapUnityClient/Assets/Lib/MotionMap/Scripts/MotionMap.cs:39-53 | the zones' values become `Mark` of the old ones: the per-frame flag is set exactly for the hit zones, and nothing else changes |
| Selection.MotionMap.SetFlags | MotionMapUnityClient/Assets/Lib/MotionMap/Scripts/MotionMap.cs:41-53 | the zones' values become `Flag` of the old ones: each hit zone's flag is set, nothing else changes |
| Selection.MotionMap.ClearFlags | MotionMapUnityClient/Assets/Lib/MotionMap/Scripts/MotionMap.cs:39 | every zone's per-frame flag is cleared, nothing else about any zone changes, and the selection stays |
| Selection.MotionMap.SelectOverZones | MotionMapUnityClient/Assets/Lib/MotionMap/Scripts/MotionMap.cs:55-67 | the scene value becomes `Frame` of the old one: each zone in order is visited as `Visit` says |
| Selection.MotionMap.ValidAfterFrame | MotionMapUnityClient/Assets/Lib/MotionMap/Scripts/MotionMap.cs:55-67 | a map whose scene is a frame of a consistent scene is valid |
| Selection.MotionMap.FrameOnZones | MotionMapUnityClient/Assets/Lib/MotionMap/Scripts/MotionMap.cs:38-67 | read on the zone objects, after `UpdateFrame` each zone is over iff hit, and the selected zone is the last that qualifies, or the previous one when none does |
| Selection.MotionMap.SelectedIsLastQualifying | MotionMapUnityClient/Assets/Lib/MotionMap/Scripts/MotionMap.cs:55-67 | a selected position that is the last qualifying one is, on the objects, the last zone that qualifies or the previous selection |
| Selection.MotionMap.VisitNext | MotionMapUnityClient/Assets/Lib/MotionMap/Scripts/MotionMap.cs:55-67 | one turn of the zone loop extends the frame by the zone at position `k` |
| Selection.MotionMap.VisitZone | MotionMapUnityClient/Assets/Lib/MotionMap/Scripts/MotionMap.cs:57-66 | the scene value becomes `Visit` of the old one: `setOver` with the flag, then, while over, the progress report and the selection once complete |
| Selection.MotionMap.SetOverAt | MotionMapUnityClient/Assets/Lib/MotionMap/Scripts/MotionMap.cs:57 | only zone `k` changes, as `setOver` with its flag does, and its message is appended |
| Selection.MotionMap.ProgressZone | MotionMapUnityClient/Assets/Lib/MotionMap/Scripts/MotionMap.cs:58-66 | the scene value becomes `Progress` of the old one: progress `(now - overStartTime) / selectionTime` reported, and the zone selected iff that is at least 1 |
| Selection.MotionMap.SelectIfComplete | MotionMapUnityClient/Assets/Lib/MotionMap/Scripts/MotionMap.cs:62-65 | a complete progress switches the selection to the zone as `SelectZone` does; otherwise nothing changes |
| Selection.MotionMap.ReportProgress | MotionMapUnityClient/Assets/Lib/MotionMap/Scripts/MotionMap.cs:60-61 | the progress is the elapsed fraction of `selectionTime`, and only zone `k` changes, as `setSelectionProgression` does |
| Selection.MotionMap.SetSelectedZone | MotionMapUnityClient/Assets/Lib/MotionMap/Scripts/MotionMap.cs:99-116 | the scene value becomes `SelectZone` of the old one. The same zone changes nothing. Otherwise the old zone is deselected before the new one is selected, `targetChanged` with the new id is sent, and no zone's clock, flags, id or materials change. For `null` the result reports the null dereference of line 115 |
| Selection.MotionMap.DeselectCurrent | MotionMapUnityClient/Assets/Lib/MotionMap/Scripts/MotionMap.cs:102-105 | the selected zone, if any, is deselected as `Deselect` says; nothing else changes |
| Selection.MotionMap.SetSelectedAt | MotionMapUnityClient/Assets/Lib/MotionMap/Scripts/MotionMap.cs:104-111 | `setSelected` on the zone at `k`; no other zone changes |
| Selection.MotionMap.SelectNew | MotionMapUnityClient/Assets/Lib/MotionMap/Scripts/MotionMap.cs:107-115 | the new zone becomes `selectedZone` and is selected, and `targetChanged` is sent with its id, as `SelectRest` says; for null, only the null dereference is reported |
| Selection.MotionMap.SelectionOnZones | MotionMapUnityClient/Assets/Lib/MotionMap/Scripts/MotionMap.cs:99-116 | read on the objects, a switch leaves the new zone selected, changes no clock, flag, id or materials, and sends the deselection, selection and `targetChanged` in that order |
| OscRouting.Split | MotionMapUnityClient/Assets/Lib/OSC/OSCMaster/OSCMaster.cs:39 | splitting on '/' gives one more segment than there are slashes; no segment contains '/'; joining them gives the address back |
| OscRouting.SplitJoin | MotionMapUnityClient/Assets/Lib/OSC/OSCMaster/OSCMaster.cs:39 | splitting a join of '/'-free segments gives the segments back |
| OscRouting.AcceptedIffTwoSlashes | MotionMapUnityClient/Assets/Lib/OSC/OSCMaster/OSCMaster.cs:39-41 | an address is accepted iff it contains exactly two '/' |
| OscRouting.ShapedAddressAccepted | MotionMapUnityClient/Assets/Lib/OSC/OSCMaster/OSCMaster.cs:39-44 | every `h/t/p` with '/'-free parts routes to target `t`, property `p` |
| OscRouting.AcceptedAddressShape | MotionMapUnityClient/Assets/Lib/OSC/OSCMaster/OSCMaster.cs:39-44 | every accepted address is `segment0/target/property`, with '/'-free target and property |
| OscRouting.ParseExamples | MotionMapUnityClient/Assets/Lib/OSC/OSCMaster/OSCMaster.cs:39-44 | `/a/b` and `x/a/b` route to target `a`, property `b`; `/a/b/c` and `/a` are dropped |
| OscRouting.FirstNamed | MotionMapUnityClient/Assets/Lib/OSC/OSCMaster/OSCMaster.cs:55-62 | the first controllable named `id`; none iff no controllable has that name |
| OscRouting.OscMaster.constructor | MotionMapUnityClient/Assets/Lib/OSC/OSCMaster/OSCMaster.cs:13-33 | listens on 6000, sends to 127.0.0.1:6001 by default, and knows the controllables found |
| OscRouting.OscMaster.GetControllableForId | MotionMapUnityClient/Assets/Lib/OSC/OSCMaster/OSCMaster.cs:55-62 | the search loop returns the first controllable named `id`, or none |
| OscRouting.OscMaster.PacketReceived | MotionMapUnityClient/Assets/Lib/OSC/OSCMaster/OSCMaster.cs:35-53 | a message is dropped unless its address has three segments and names a controllable. That controllable receives exactly the parsed property and the message's arguments |
| OscRouting.OscMaster.SendPacket | MotionMapUnityClient/Assets/Lib/OSC/OSCMaster/OSCMaster.cs:75-80 | an empty host and a zero port become the defaults; given values are used as they are |
| OscRouting.OscMaster.SendMessage | MotionMapUnityClient/Assets/Lib/OSC/OSCMaster/OSCMaster.cs:82-91 | the message sent carries exactly `args`, in order |

## Left out

- PointCloud.PclHandler.constructor: requires `steps >= 1`, the range `[Range(1, 20)]` gives it in the Unity inspector (PCLHandler.cs:56-57). Code could still set other values. With `steps == 0` the loops at PCLHandler.cs:278 and 280 never end. With a negative `steps`, the second cell has a negative index and line 283 throws.
- Selection.MotionMap.constructor: `selectionTime` and `demoModeTime` take their field initialisers, 2 s and 30 s (MotionMap.cs:16, 19). Values set in the Unity scene are not taken as parameters. The frame loop requires `selectionTime > 0`; the code divides by it at line 60 with no check.
- Kinect acquisition (`initKinect`, `updateKinect`, PCLHandler.cs:176-271) is device I/O. `cameraPoints` holds whatever was last mapped. The constructor takes whether the sensor opened and the frame size as parameters.
- The `KDTree` class is not part of this model. Its `FindNearestsRadius(p, clusterMaxDist)` is the field `tree: Vec3 -> seq<nat>`. `MakeFromPoints` is the `builtTree` parameter of `Update`.
- ClusterSpec.ClosedUnderNeighbours: assumes the radius query is symmetric on the good points, because the tree is not modelled. Without symmetry the code still guarantees the weaker `PartialSegmentation` property: a neighbour is processed in the same group or an earlier one.
- The background task (`StartCoroutineAsync`, `Task.Cancel`, PCLHandler.cs:164, 171, 313-322) is plumbing. A pass runs as one sequential call. Only the `clusterReady` gate is kept, so the model does not capture a frame overlapping a pass that is still running.
- `computeClusterOrientation` (PCLHandler.cs:415-467) is float vector numerics, and cluster orientations stay zero. Only whether it throws is modelled (`OrientationFaults`): it allocates `(int)(numPointsForOrientation * c.numPoints)` entries (lines 420-421) but fills `c.numPoints` of them (lines 425-428). When that overruns, the pass ends before line 410 and the gate stays closed, which the model states. The default `numPointsForOrientation` below 1 makes that the usual case.
- ClusterSpec.Truncate: the product `numPointsForOrientation * c.numPoints` is taken over the reals, without `float` rounding.
- Without a sensor, `worldPoints` and `clusterPoints` are never allocated (PCLHandler.cs:205-207). The model gives them no entries. `Array.Copy` on them throws (line 406), so the pass stops and the gate stays closed, which the model states. What `KDTree.MakeFromPoints` does with the missing array is not part of this model: the tree is the `builtTree` parameter.
- The settings of the handler (`steps`, `useCollider`, `processClusters`, `updateTree`, `minClusterSize`, `processClusterOrientation`, `numPointsForOrientation`), the sensor state and frame size, the zone list of `MotionMap`, its `selectionTime` and the default OSC destination are fixed after start-up. Edits in the Unity inspector at run time are not modelled.
- PointCloud.PclHandler.Segment: the order of the points inside a group, which becomes a cluster's `indices`, is stated visit by visit (`VisitQueued` appends exactly `Enqueued`), not as one function of the whole group.
- `pointingPos = pointingTarget.position` (PCLHandler.cs:312) only feeds the orientation, so it is left out.
- Rendering, calibration and input are GL/UI code: `postRender`, `drawCross`, `updateKinectCalib`, `getSpacePointForTarget`, `OnDrawGizmos`, and the mouse toggle of `colorMode` in `Update` (PCLHandler.cs:147-151).
- Floating point: `float` and `Vector3` are modelled over the reals, and the centroid division is exact. Infinity and NaN are kept only where the code tests them, for the X coordinate of a camera point. `Vector3.Distance` is compared as a squared distance.
- Cluster identity: `MotionMap` compares a cursor's `c` by reference. The model compares cluster values, so two distinct clusters with equal fields would not be told apart.
- Cluster events: MotionMap.cs:33-34 and 73-74 subscribe to `handler.clusterAddedHandler` and `handler.clusterRemovedHandler`, but `PCLHandler` declares no such members, so `MotionMap.cs` does not compile against this `PCLHandler` and the two events are never raised. `ClusterAdded` and `ClusterRemoved` are called directly, and `remainingClusters` stands for `handler.clusters.Count`.
- Selection.MotionMap.Update: `Physics.Raycast` from each cursor's cluster is an input (`hits`). The model therefore does not capture that, with cursors added as written, `cursors[i].c` is null and line 45 dereferences it.
- `Invoke("startDemo", demoModeTime)` and `CancelInvoke` become the flag `demoInvokePending`; the 30-second delay itself is not modelled. The cursor prefab, its parent and its random colour (MotionMap.cs:89-92) are scene set-up.
- DOTween colour animations are logged as `Tween` commands and not run. OSC transport (`OSCServer`, `OSCClient`, `Awake`, `Update`, `OnDestroy`) is a log `sent` of packets. `setProp` is a log `propCalls`.
- The static `OSCMaster.instance` is an explicit `OscMaster` object passed to every sender.
- OSC address patterns: the code only splits addresses on '/' and does no pattern matching, so neither does the model.

## Findings

| source | as written | input that shows it | evidently intended | confidence | as-written member | corrected member |
|---|---|---|---|---|---|---|
| MotionMapUnityClient/Assets/Lib/MotionMap/Scripts/MotionMap.cs:87-96 | `clusterAdded` appends a new cursor but never sets its `c` to the added cluster | add cluster `c`, then remove `c`: `getCursorForCluster(c)` finds no cursor, so `cursors.Remove(null)` leaves the cursor in place | the new cursor is linked to `c`, so `clusterRemoved` finds and removes it | not executed | Selection.MotionMap.ClusterAddedAsWritten | Selection.MotionMap.ClusterAdded |
