/**
 * The scene controller (MotionMap.cs): one cursor per tracked cluster, and each frame
 * the zones hit by a cursor's ray are "over"; a zone that stays over for
 * `selectionTime` seconds becomes the selected zone. `Physics.Raycast` and `Time.time`
 * are inputs: `hits[i]` is the position in `zones` of the zone hit by cursor `i`'s ray,
 * or any value outside `0..|zones|-1` when the ray hits nothing, or hits a collider
 * without a zone. `Invoke("startDemo", demoModeTime)` is the flag `demoInvokePending`.
 */
module Selection {
  import opened Wrappers
  import opened OscRouting
  import opened Zones
  import opened ClusterSpec

  /**
   * A `MotionMapCursor`: only its `c` field matters here; `None` is a cursor whose
   * cluster was never set (a null `c`).
   */
  datatype Cursor = Cursor(c: Option<Cluster>)

  /** Position of the first cursor whose cluster is `c`, if any. */
  function FirstCursorFor(cursors: seq<Cursor>, c: Cluster): (r: Option<nat>)
    ensures r.None? <==> forall k :: 0 <= k < |cursors| ==> cursors[k].c != Some(c)
    ensures r.Some? ==> (r.value < |cursors| && cursors[r.value].c == Some(c)
                         && forall k :: 0 <= k < r.value ==> cursors[k].c != Some(c))
  {
    if cursors == [] then None
    else if cursors[0].c == Some(c) then Some(0)
    else match FirstCursorFor(cursors[1..], c)
      case None => None
      case Some(k) => Some(k + 1)
  }

  /** `cursors.Remove(x)` of a cursor found at `k`, or no change when none was found. */
  function RemoveCursor(cursors: seq<Cursor>, found: Option<nat>): seq<Cursor>
    requires found.Some? ==> found.value < |cursors|
  {
    match found
    case None => cursors
    case Some(k) => cursors[..k] + cursors[k + 1..]
  }

  /**
   * As written, `clusterAdded` never sets the new cursor's `c`: a cursor appended that way
   * is never found for any cluster, so `clusterRemoved` cannot remove it.
   */
  lemma {:induction false} UnlinkedCursorNeverFound(cursors: seq<Cursor>, c: Cluster)
    ensures FirstCursorFor(cursors + [Cursor(None)], c) == FirstCursorFor(cursors, c)
  {
    if cursors != [] {
      assert (cursors + [Cursor(None)])[1..] == cursors[1..] + [Cursor(None)];
      UnlinkedCursorNeverFound(cursors[1..], c);
    }
  }

  /** With the cursor linked to its cluster, removal finds a cursor for it. */
  lemma LinkedCursorFound(cursors: seq<Cursor>, c: Cluster)
    ensures FirstCursorFor(cursors + [Cursor(Some(c))], c).Some?
  {
    assert (cursors + [Cursor(Some(c))])[|cursors|].c == Some(c);
  }

  /** Removing the cursor found for `c` removes exactly one cursor, the first for `c`. */
  lemma {:induction false} RemoveFoundCursor(cursors: seq<Cursor>, c: Cluster)
    requires FirstCursorFor(cursors, c).Some?
    ensures var k := FirstCursorFor(cursors, c).value;
      var rest := RemoveCursor(cursors, Some(k));
      |rest| == |cursors| - 1
      && multiset(rest) + multiset{cursors[k]} == multiset(cursors)
  {
    var k := FirstCursorFor(cursors, c).value;
    assert cursors == cursors[..k] + [cursors[k]] + cursors[k + 1..];
  }

  /** The cursor `i`'s ray hits the zone at position `k`. */
  predicate HitBy(hits: seq<int>, k: int) {
    k in hits
  }

  /** The selection test of `Update`: over, and the elapsed fraction of `selectionTime` is at least 1. */
  ghost predicate Qualifies(z: MotionMapZone, now: real, selectionTime: real)
    reads z
    requires selectionTime > 0.0
  {
    z.over && (now - z.overStartTime) / selectionTime >= 1.0
  }

  /* ---------- The scene as a value ---------- */

  /**
   * The state `Update` works on: every zone's fields in scene order, the position of the
   * selected zone (-1 for none), and the packets sent so far.
   */
  datatype Scene = Scene(zones: seq<ZoneState>, selected: int, sent: seq<Packet>)

  /** The selected position `sel` is a zone or -1, and exactly that zone has its `selected` flag. */
  predicate Agree(zs: seq<ZoneState>, sel: int) {
    && -1 <= sel < |zs|
    && forall j :: 0 <= j < |zs| ==> (zs[j].selected <==> j == sel)
  }

  /** The scene's flags agree with its selected position. */
  predicate Consistent(s: Scene) {
    Agree(s.zones, s.selected)
  }

  /** The first two loops of `Update`: each zone's per-frame flag is whether a cursor hits it. */
  function Mark(zs: seq<ZoneState>, hits: seq<int>): (r: seq<ZoneState>)
    ensures |r| == |zs|
  {
    seq(|zs|, k requires 0 <= k < |zs| => zs[k].(isOverInThisFrame := HitBy(hits, k)))
  }

  /** The second loop of `Update` on the zones' values: the flag of each zone `hits` names is set. */
  function Flag(zs: seq<ZoneState>, hits: seq<int>): (r: seq<ZoneState>)
    ensures |r| == |zs|
  {
    seq(|zs|, k requires 0 <= k < |zs| => zs[k].(isOverInThisFrame := zs[k].isOverInThisFrame || HitBy(hits, k)))
  }

  /** Clearing every flag and then setting those of the hit zones marks exactly the hit zones. */
  lemma ClearThenFlag(zs: seq<ZoneState>, hits: seq<int>)
    ensures Flag(Mark(zs, []), hits) == Mark(zs, hits)
  {
    forall k | 0 <= k < |zs|
      ensures Flag(Mark(zs, []), hits)[k] == Mark(zs, hits)[k]
    {
      assert !HitBy([], k);
    }
  }

  /** A zone event on the zone at `k`. */
  function Apply(s: Scene, k: nat, step: ZoneStep): Scene
    requires k < |s.zones|
  {
    Scene(s.zones[k := step.zone], s.selected, s.sent + step.sent)
  }

  /** The message `setSelectedZone` sends after a change. */
  function Changed(id: string, host: string, port: int): Packet {
    Packet(OscMessage("targetChanged", [OscString(id)]), host, port)
  }

  /** `setSelectedZone` with the zone at `k` (-1 for null). */
  function SelectZone(s: Scene, k: int, host: string, port: int): Scene
    requires -1 <= k < |s.zones| && -1 <= s.selected < |s.zones|
  {
    if k == s.selected then s else SelectRest(Deselect(s, host, port), k, host, port)
  }

  /** The first step of a selection change: the selected zone, if any, is deselected. */
  function Deselect(s: Scene, host: string, port: int): (r: Scene)
    requires -1 <= s.selected < |s.zones|
    ensures |r.zones| == |s.zones| && r.selected == s.selected
  {
    if s.selected >= 0 then Apply(s, s.selected, SelectedTo(s.zones[s.selected], false, host, port)) else s
  }

  /**
   * The rest of a selection change: the position `k` becomes the selected one; a zone
   * there is selected and `targetChanged` is sent with its id.
   */
  function SelectRest(s: Scene, k: int, host: string, port: int): Scene
    requires -1 <= k < |s.zones|
  {
    var s1 := s.(selected := k);
    if k < 0 then s1
    else
      var s2 := Apply(s1, k, SelectedTo(s1.zones[k], true, host, port));
      s2.(sent := s2.sent + [Changed(s2.zones[k].id, host, port)])
  }

  /** `Progress` as its two steps: the progress report, then the selection once complete. */
  lemma ProgressBySteps(s: Scene, s1: Scene, s2: Scene, k: nat, cur: real, now: real, selectionTime: real,
                        host: string, port: int)
    requires k < |s.zones| && -1 <= s.selected < |s.zones| && selectionTime > 0.0
    requires cur == (now - s.zones[k].overStartTime) / selectionTime
    requires s1 == Apply(s, k, ProgressTo(s.zones[k], cur, host, port))
    requires s2 == if cur >= 1.0 then SelectZone(s1, k, host, port) else s1
    ensures s2 == Progress(s, k, now, selectionTime, host, port)
  {
  }

  /** The selection test of `Update` on a zone's value. */
  predicate QualifiesState(z: ZoneState, now: real, selectionTime: real)
    requires selectionTime > 0.0
  {
    z.over && (now - z.overStartTime) / selectionTime >= 1.0
  }

  /** The part of the last loop's step for a zone that is over: report progress, select once complete. */
  function Progress(s: Scene, k: nat, now: real, selectionTime: real, host: string, port: int): Scene
    requires k < |s.zones| && -1 <= s.selected < |s.zones| && selectionTime > 0.0
  {
    var cur := (now - s.zones[k].overStartTime) / selectionTime;
    var s1 := Apply(s, k, ProgressTo(s.zones[k], cur, host, port));
    if cur >= 1.0 then SelectZone(s1, k, host, port) else s1
  }

  /** The step of the last loop of `Update` on the zone at `k`. */
  function Visit(s: Scene, k: nat, now: real, selectionTime: real, host: string, port: int): Scene
    requires k < |s.zones| && -1 <= s.selected < |s.zones| && selectionTime > 0.0
  {
    var s1 := Apply(s, k, OverTo(s.zones[k], s.zones[k].isOverInThisFrame, now, host, port));
    if s1.zones[k].over then Progress(s1, k, now, selectionTime, host, port) else s1
  }

  /** `Visit` as a total step: a position or a scene it does not apply to is left as it is. */
  function VisitStep(now: real, selectionTime: real, host: string, port: int): (Scene, nat) -> Scene {
    (t: Scene, i: nat) =>
      if i < |t.zones| && -1 <= t.selected < |t.zones| && selectionTime > 0.0
      then Visit(t, i, now, selectionTime, host, port)
      else t
  }

  /** The scene after the first `k` turns of a loop whose turn at position `i` is `step`. */
  function Iterate(step: (Scene, nat) -> Scene, s: Scene, k: nat): Scene {
    if k == 0 then s else step(Iterate(step, s, k - 1), k - 1)
  }

  /** The last loop of `Update` after its first `k` zones. */
  function Frame(s: Scene, k: nat, now: real, selectionTime: real, host: string, port: int): Scene {
    Iterate(VisitStep(now, selectionTime, host, port), s, k)
  }

  /** One more visit extends the frame by one zone. */
  lemma FrameNext(s: Scene, k: nat, before: Scene, after: Scene, now: real, selectionTime: real, host: string, port: int)
    requires k < |before.zones| && -1 <= before.selected < |before.zones| && selectionTime > 0.0
    requires before == Frame(s, k, now, selectionTime, host, port)
    requires after == Visit(before, k, now, selectionTime, host, port)
    ensures after == Frame(s, k + 1, now, selectionTime, host, port)
  {
  }

  /** A whole `Update` on the scene `s`, with `hits` the zones the cursors' rays hit. */
  function UpdateFrame(s: Scene, hits: seq<int>, now: real, selectionTime: real, host: string, port: int): Scene {
    Frame(s.(zones := Mark(s.zones, hits)), |s.zones|, now, selectionTime, host, port)
  }

  /** The zone keeps what no event of `Update` changes: id, renderers, materials, per-frame flag. */
  predicate Keeps(z: ZoneState, z': ZoneState) {
    && z'.id == z.id && z'.objects == z.objects && z'.materials == z.materials
    && z'.initMaterialColors == z.initMaterialColors && z'.isOverInThisFrame == z.isOverInThisFrame
  }

  /** Each zone of `zs'` keeps what `Update` never changes about the zone at its position in `zs`. */
  predicate AllKeep(zs: seq<ZoneState>, zs': seq<ZoneState>) {
    |zs'| == |zs| && forall j :: 0 <= j < |zs| ==> Keeps(zs[j], zs'[j])
  }

  /** The zones at positions `lo` up to `hi` keep `over`, their clock and their progress. */
  predicate ClockKept(zs: seq<ZoneState>, zs': seq<ZoneState>, lo: nat, hi: nat) {
    && hi <= |zs| && hi <= |zs'|
    && forall j :: lo <= j < hi ==>
         zs'[j].over == zs[j].over && zs'[j].overStartTime == zs[j].overStartTime
         && zs'[j].selectionProgression == zs[j].selectionProgression
  }

  /** Each of the first `k` zones of `zs'` is over exactly when its per-frame flag in `zs` is set. */
  predicate OverFromFlags(zs: seq<ZoneState>, zs': seq<ZoneState>, k: nat) {
    k <= |zs| && k <= |zs'| && forall j :: 0 <= j < k ==> zs'[j].over == zs[j].isOverInThisFrame
  }

  lemma KeepsTrans(a: seq<ZoneState>, b: seq<ZoneState>, c: seq<ZoneState>)
    requires AllKeep(a, b) && AllKeep(b, c)
    ensures AllKeep(a, c)
  {
  }

  /** The zone at `k - 1` taking its flag extends `OverFromFlags` by one zone. */
  lemma OverStep(s: seq<ZoneState>, f: seq<ZoneState>, r: seq<ZoneState>, k: nat)
    requires 0 < k <= |s| && |r| == |s|
    requires AllKeep(s, f) && OverFromFlags(s, f, k - 1) && ClockKept(s, f, k - 1, |s|)
    requires ClockKept(f, r, 0, k - 1) && r[k - 1].over == f[k - 1].isOverInThisFrame && ClockKept(f, r, k, |s|)
    ensures OverFromFlags(s, r, k) && ClockKept(s, r, k, |s|)
  {
  }

  /** The position of the last of the first `k` zones that qualifies, `dflt` when none does. */
  function LastQualifying(zs: seq<ZoneState>, k: nat, dflt: int, now: real, selectionTime: real): int
    requires k <= |zs| && selectionTime > 0.0
  {
    if k == 0 then dflt
    else if QualifiesState(zs[k - 1], now, selectionTime) then k - 1
    else LastQualifying(zs, k - 1, dflt, now, selectionTime)
  }

  /**
   * `LastQualifying` is what its name says: the default exactly when none of the first
   * `k` zones qualifies, and otherwise a qualifying zone after which none qualifies.
   */
  lemma {:induction false} LastQualifyingSpec(zs: seq<ZoneState>, k: nat, dflt: int, now: real, selectionTime: real)
    requires k <= |zs| && selectionTime > 0.0
    ensures var r := LastQualifying(zs, k, dflt, now, selectionTime);
      && ((forall j :: 0 <= j < k ==> !QualifiesState(zs[j], now, selectionTime)) ==> r == dflt)
      && (forall j :: 0 <= j < k && QualifiesState(zs[j], now, selectionTime) ==>
            j <= r < k && QualifiesState(zs[r], now, selectionTime)
            && forall i :: r < i < k ==> !QualifiesState(zs[i], now, selectionTime))
  {
    if k > 0 && !QualifiesState(zs[k - 1], now, selectionTime) {
      LastQualifyingSpec(zs, k - 1, dflt, now, selectionTime);
    }
  }

  /**
   * `setSelectedZone` with the zone at `k`, or with null for `k == -1`: afterwards that
   * position is the selected one and the flags agree; only the previously selected zone
   * and the new one change, and only in their `selected` flags and animations; a change
   * sends the deselection (when a zone was selected), then the selection and
   * `targetChanged` (when the new zone is not null), and a second call changes nothing.
   */
  lemma SelectZoneEffect(s: Scene, k: int, host: string, port: int)
    requires Consistent(s) && -1 <= k < |s.zones|
    ensures var r := SelectZone(s, k, host, port);
      && Consistent(r) && r.selected == k && |r.zones| == |s.zones|
      && (forall j :: 0 <= j < |s.zones| && j != k && j != s.selected ==> r.zones[j] == s.zones[j])
      && (forall j :: 0 <= j < |s.zones| ==>
            r.zones[j] == s.zones[j].(selected := r.zones[j].selected, tweens := r.zones[j].tweens))
      && (k == s.selected ==> r == s)
      && (k != s.selected ==>
            r.sent == s.sent
              + (if s.selected >= 0 then [Packet(ZoneMessage("/targetDeselected", s.zones[s.selected].id), host, port)]
                 else [])
              + (if k >= 0 then [Packet(ZoneMessage("/targetSelected", s.zones[k].id), host, port), Changed(s.zones[k].id, host, port)]
                 else []))
      && SelectZone(r, k, host, port) == r
  {
    if k != s.selected && k >= 0 {
      assert Deselect(s, host, port).zones[k] == s.zones[k];
    }
  }

  /**
   * One visit: the zone takes its per-frame flag as `over`; it becomes the selected zone
   * exactly when it qualifies, otherwise the selection stays; the other zones change only
   * in their `selected` flags and animations, and the flags still agree.
   */
  lemma VisitEffect(s: Scene, k: nat, now: real, selectionTime: real, host: string, port: int)
    requires Consistent(s) && k < |s.zones| && selectionTime > 0.0
    ensures var r := Visit(s, k, now, selectionTime, host, port);
      && Consistent(r) && |r.zones| == |s.zones|
      && r.zones[k].over == s.zones[k].isOverInThisFrame
      && AllKeep(s.zones, r.zones)
      && ClockKept(s.zones, r.zones, 0, k) && ClockKept(s.zones, r.zones, k + 1, |s.zones|)
      && (forall j :: 0 <= j < |s.zones| && j != k ==>
            r.zones[j] == s.zones[j].(selected := r.zones[j].selected, tweens := r.zones[j].tweens))
      && (QualifiesState(r.zones[k], now, selectionTime) ==> r.selected == k)
      && (!QualifiesState(r.zones[k], now, selectionTime) ==> r.selected == s.selected)
  {
    var z := s.zones[k];
    var s1 := Apply(s, k, OverTo(z, z.isOverInThisFrame, now, host, port));
    assert Consistent(s1);
    if s1.zones[k].over {
      ProgressEffect(s1, k, now, selectionTime, host, port);
    }
  }
  /**
   * The part of a visit for a zone that is over: it becomes the selected zone exactly
   * when it qualifies; no zone changes but in its progress, `selected` flag and
   * animations, and the flags still agree.
   */
  lemma ProgressEffect(s: Scene, k: nat, now: real, selectionTime: real, host: string, port: int)
    requires Consistent(s) && k < |s.zones| && selectionTime > 0.0 && s.zones[k].over
    ensures var r := Progress(s, k, now, selectionTime, host, port);
      && Consistent(r) && |r.zones| == |s.zones|
      && (forall j :: 0 <= j < |s.zones| ==>
            r.zones[j] == s.zones[j].(selectionProgression := r.zones[j].selectionProgression,
                                      selected := r.zones[j].selected, tweens := r.zones[j].tweens))
      && (forall j :: 0 <= j < |s.zones| && j != k ==>
            r.zones[j] == s.zones[j].(selected := r.zones[j].selected, tweens := r.zones[j].tweens))
      && (QualifiesState(r.zones[k], now, selectionTime) ==> r.selected == k)
      && (!QualifiesState(r.zones[k], now, selectionTime) ==> r.selected == s.selected)
  {
    var cur := (now - s.zones[k].overStartTime) / selectionTime;
    var s2 := Apply(s, k, ProgressTo(s.zones[k], cur, host, port));
    assert Consistent(s2);
    if cur >= 1.0 {
      SelectZoneEffect(s2, k, host, port);
    }
  }

  /**
   * What one turn of the last loop of `Update` does at position `i`, from `t` to `r`: the
   * flags still agree; nothing about a zone changes but its `over` state, clock, progress,
   * `selected` flag and animations; the zone takes its per-frame flag as `over` and the
   * others keep `over`, clock and progress; the zone becomes the selected one when it
   * qualifies, and otherwise the selection stays.
   */
  predicate Turn(t: Scene, r: Scene, i: nat, now: real, selectionTime: real)
    requires selectionTime > 0.0
  {
    && i < |t.zones| && |r.zones| == |t.zones| && Consistent(r)
    && AllKeep(t.zones, r.zones)
    && r.zones[i].over == t.zones[i].isOverInThisFrame
    && ClockKept(t.zones, r.zones, 0, i) && ClockKept(t.zones, r.zones, i + 1, |t.zones|)
    && (QualifiesState(r.zones[i], now, selectionTime) ==> r.selected == i)
    && (!QualifiesState(r.zones[i], now, selectionTime) ==> r.selected == t.selected)
  }

  /**
   * What the first `k` turns do, from `s` to `r`: the flags still agree; nothing about a
   * zone changes but its `over` state, clock, progress, `selected` flag and animations;
   * each visited zone is over exactly when its per-frame flag is set, the others keep
   * `over`, clock and progress; and the selected zone is the last visited zone that
   * qualifies, or the one selected before when none does.
   */
  predicate Turns(s: Scene, r: Scene, k: nat, now: real, selectionTime: real)
    requires selectionTime > 0.0
  {
    && k <= |s.zones| && |r.zones| == |s.zones| && Consistent(r)
    && AllKeep(s.zones, r.zones)
    && OverFromFlags(s.zones, r.zones, k) && ClockKept(s.zones, r.zones, k, |s.zones|)
    && r.selected == LastQualifying(r.zones, k, s.selected, now, selectionTime)
  }

  /** One more turn extends `Turns` by one zone. */
  lemma TurnsStep(s: Scene, f: Scene, r: Scene, k: nat, now: real, selectionTime: real)
    requires selectionTime > 0.0 && k < |s.zones|
    requires Turns(s, f, k, now, selectionTime) && Turn(f, r, k, now, selectionTime)
    ensures Turns(s, r, k + 1, now, selectionTime)
  {
    KeepsTrans(s.zones, f.zones, r.zones);
    OverStep(s.zones, f.zones, r.zones, k + 1);
    QualifyingKept(f.zones, r.zones, k, s.selected, now, selectionTime);
  }

  /**
   * Turns that each do what `Turn` says add up to what `Turns` says. The step is a
   * parameter, so the proof never looks inside it.
   */
  lemma {:induction false} IterateTurns(step: (Scene, nat) -> Scene, s: Scene, k: nat, now: real, selectionTime: real)
    requires selectionTime > 0.0 && Consistent(s) && k <= |s.zones|
    requires forall t: Scene, i: nat :: Consistent(t) && i < |t.zones| ==> Turn(t, step(t, i), i, now, selectionTime)
    ensures Turns(s, Iterate(step, s, k), k, now, selectionTime)
  {
    if k > 0 {
      IterateTurns(step, s, k - 1, now, selectionTime);
      var f := Iterate(step, s, k - 1);
      TurnsStep(s, f, step(f, k - 1), k - 1, now, selectionTime);
    }
  }

  /** Every visit of a zone of a consistent scene is a turn that does what `Turn` says. */
  lemma VisitTurn(now: real, selectionTime: real, host: string, port: int)
    requires selectionTime > 0.0
    ensures forall t: Scene, i: nat :: Consistent(t) && i < |t.zones| ==>
      Turn(t, VisitStep(now, selectionTime, host, port)(t, i), i, now, selectionTime)
  {
    forall t: Scene, i: nat | Consistent(t) && i < |t.zones|
      ensures Turn(t, VisitStep(now, selectionTime, host, port)(t, i), i, now, selectionTime)
    {
      VisitEffect(t, i, now, selectionTime, host, port);
    }
  }

  /** The last loop of `Update` after `k` zones does what `Turns` says. */
  lemma FrameTurns(s: Scene, k: nat, now: real, selectionTime: real, host: string, port: int)
    requires Consistent(s) && k <= |s.zones| && selectionTime > 0.0
    ensures Turns(s, Frame(s, k, now, selectionTime, host, port), k, now, selectionTime)
  {
    VisitTurn(now, selectionTime, host, port);
    IterateTurns(VisitStep(now, selectionTime, host, port), s, k, now, selectionTime);
  }

  /** Zones whose `over` and clock are unchanged qualify alike. */
  lemma {:induction false} QualifyingKept(zs: seq<ZoneState>, zs': seq<ZoneState>, k: nat, dflt: int,
                                          now: real, selectionTime: real)
    requires k <= |zs| == |zs'| && selectionTime > 0.0
    requires forall j :: 0 <= j < k ==> zs'[j].over == zs[j].over && zs'[j].overStartTime == zs[j].overStartTime
    ensures LastQualifying(zs', k, dflt, now, selectionTime) == LastQualifying(zs, k, dflt, now, selectionTime)
  {
    if k > 0 {
      QualifyingKept(zs, zs', k - 1, dflt, now, selectionTime);
    }
  }

  /** A loop whose step leaves `s` as it is at every position leaves it as it is. */
  lemma {:induction false} IterateStill(step: (Scene, nat) -> Scene, s: Scene, k: nat)
    requires forall i: nat :: step(s, i) == s
    ensures Iterate(step, s, k) == s
  {
    if k > 0 {
      IterateStill(step, s, k - 1);
    }
  }

  /** A frame in which no zone is over or hit changes nothing and sends nothing. */
  lemma QuietFrame(s: Scene, k: nat, now: real, selectionTime: real, host: string, port: int)
    requires forall j :: 0 <= j < |s.zones| ==> !s.zones[j].over && !s.zones[j].isOverInThisFrame
    ensures Frame(s, k, now, selectionTime, host, port) == s
  {
    forall i: nat
      ensures VisitStep(now, selectionTime, host, port)(s, i) == s
    {
    }
    IterateStill(VisitStep(now, selectionTime, host, port), s, k);
  }

  /** The fields of the zones, in order. */
  function StatesOf(zs: seq<MotionMapZone>): (r: seq<ZoneState>)
    reads zs
    ensures |r| == |zs| && forall k :: 0 <= k < |zs| ==> r[k] == zs[k].State()
  {
    seq(|zs|, k requires 0 <= k < |zs| reads zs => zs[k].State())
  }

  /** No zone object occurs twice. */
  predicate Distinct(zs: seq<MotionMapZone>) {
    forall i, j :: 0 <= i < j < |zs| ==> zs[i] != zs[j]
  }

  /** The position of `z` in `zs`, or -1 when it is not there (in particular for null). */
  function IndexOf(zs: seq<MotionMapZone>, z: MotionMapZone?): (r: int)
    ensures -1 <= r < |zs|
    ensures r == -1 <==> z !in zs
    ensures r >= 0 ==> zs[r] == z && z !in zs[..r]
  {
    if zs == [] then -1
    else if zs[0] == z then 0
    else
      var r := IndexOf(zs[1..], z);
      assert zs[1..][..if r < 0 then 0 else r] == zs[1..if r < 0 then 1 else r + 1];
      if r < 0 then -1 else r + 1
  }

  /** In distinct zones, a zone's position is where it is. */
  lemma IndexOfDistinct(zs: seq<MotionMapZone>, k: nat)
    requires Distinct(zs) && k < |zs|
    ensures IndexOf(zs, zs[k]) == k
  {
  }

  class MotionMap {
    const zones: seq<MotionMapZone>
    var selectedZone: MotionMapZone?
    var cursors: seq<Cursor>
    const selectionTime: real
    var demoModeTime: real
    var demoMode: bool
    var demoInvokePending: bool

    /**
     * The zones are distinct objects, each consistent; the selected zone is one of
     * them, and a zone's `selected` flag is set exactly when it is at the selected
     * zone's position (`SelectedFlags` reads this on the objects).
     */
    ghost predicate Valid()
      reads this, zones
    {
      Shape() && Agree(StatesOf(zones), IndexOf(zones, selectedZone))
    }

    /** `Valid` but for the agreement of the `selected` flags with `selectedZone`. */
    ghost predicate Shape()
      reads this, zones
    {
      && Distinct(zones)
      && (forall k :: 0 <= k < |zones| ==> zones[k].Valid())
      && (selectedZone != null ==> selectedZone in zones)
    }

    /** Read on the objects, a zone's `selected` flag is set exactly when it is the selected zone. */
    lemma SelectedFlags()
      requires Valid()
      ensures forall k :: 0 <= k < |zones| ==> (zones[k].selected <==> zones[k] == selectedZone)
    {
      var sel := IndexOf(zones, selectedZone);
      forall k | 0 <= k < |zones|
        ensures zones[k].selected <==> zones[k] == selectedZone
      {
        assert zones[k].selected == StatesOf(zones)[k].selected;
        if zones[k] == selectedZone {
          assert zones[sel] == zones[k];
        }
      }
    }

    /** `Start` with the field initialisers: the zones are those found in the scene. */
    constructor (found: seq<MotionMapZone>)
      requires Distinct(found)
      requires forall k :: 0 <= k < |found| ==> found[k].Valid() && !found[k].selected
      ensures Valid()
      ensures zones == found && selectedZone == null && cursors == []
      ensures selectionTime == 2.0 && demoModeTime == 30.0 && !demoMode && !demoInvokePending
    {
      zones := found;
      selectedZone := null;
      cursors := [];
      selectionTime := 2.0;
      demoModeTime := 30.0;
      demoMode := false;
      demoInvokePending := false;
    }

    /** `getCursorForCluster`: the first cursor whose cluster is `c`, or none. */
    method GetCursorForCluster(c: Cluster) returns (r: Option<nat>)
      ensures r == FirstCursorFor(cursors, c)
      ensures r.Some? ==> r.value < |cursors| && cursors[r.value].c == Some(c)
    {
      for i := 0 to |cursors|
        invariant forall k :: 0 <= k < i ==> cursors[k].c != Some(c)
      {
        if cursors[i].c == Some(c) {
          return Some(i);
        }
      }
      return None;
    }

    /**
     * `clusterAdded` as the code has it: a cursor is appended without its cluster, any
     * pending demo start is cancelled and demo mode is left.
     */
    method ClusterAddedAsWritten(c: Cluster)
      modifies this`cursors, this`demoMode, this`demoInvokePending
      ensures cursors == old(cursors) + [Cursor(None)]
      ensures !demoMode && !demoInvokePending
    {
      cursors := cursors + [Cursor(None)];
      demoInvokePending := false;
      if demoMode {
        StopDemo();
      }
    }

    /**
     * `clusterAdded` with the cursor linked to its cluster, as `clusterRemoved` and
     * `Update` expect: a cursor for `c` is appended, any pending demo start is
     * cancelled and demo mode is left.
     */
    method ClusterAdded(c: Cluster)
      modifies this`cursors, this`demoMode, this`demoInvokePending
      ensures cursors == old(cursors) + [Cursor(Some(c))]
      ensures FirstCursorFor(cursors, c).Some?
      ensures !demoMode && !demoInvokePending
    {
      cursors := cursors + [Cursor(Some(c))];
      LinkedCursorFound(old(cursors), c);
      demoInvokePending := false;
      if demoMode {
        StopDemo();
      }
    }

    /**
     * `clusterRemoved`: the first cursor for `c` is removed (none when there is none),
     * and the demo is scheduled only when the tracker has no cluster left.
     */
    method ClusterRemoved(c: Cluster, remainingClusters: nat)
      modifies this`cursors, this`demoInvokePending
      ensures cursors == RemoveCursor(old(cursors), FirstCursorFor(old(cursors), c))
      ensures demoInvokePending == (remainingClusters == 0 || old(demoInvokePending))
    {
      var found := GetCursorForCluster(c);
      if found.Some? {
        cursors := cursors[..found.value] + cursors[found.value + 1..];
      }
      if remainingClusters == 0 {
        demoInvokePending := true;
      }
    }

    /** The scheduled `startDemo` call runs. */
    method DemoInvokeFires()
      modifies this`demoMode, this`demoInvokePending
      ensures demoMode == (old(demoInvokePending) || old(demoMode))
      ensures !demoInvokePending
    {
      if demoInvokePending {
        demoInvokePending := false;
        StartDemo();
      }
    }

    method StartDemo()
      modifies this`demoMode
      ensures demoMode
    {
      demoMode := true;
    }

    method StopDemo()
      modifies this`demoMode
      ensures !demoMode
    {
      demoMode := false;
    }

    /** The scene as a value, with the packets `osc` has sent. */
    ghost function View(osc: OscMaster): Scene
      reads this, zones, osc
    {
      Scene(StatesOf(zones), IndexOf(zones, selectedZone), osc.sent)
    }

    /** In a valid scene the value's flags agree with its selected position, which is `selectedZone`'s. */
    lemma ViewConsistent(osc: OscMaster)
      requires Valid()
      ensures Consistent(View(osc))
      ensures selectedZone == if View(osc).selected < 0 then null else zones[View(osc).selected]
      ensures forall k :: 0 <= k < |zones| ==>
        |View(osc).zones[k].initMaterialColors| == |View(osc).zones[k].materials|
    {
    }

    /**
     * `Update`: every zone's per-frame flag is cleared, then set for each zone hit by a
     * cursor's ray; each zone in turn takes the flag as its `over` state and, while over,
     * reports its selection progress and becomes the selected zone once it has been over
     * for `selectionTime` seconds. So afterwards a zone is over exactly when some cursor
     * hits it, and the selected zone changes only to the last zone that qualifies.
     */
    method Update(now: real, hits: seq<int>, osc: OscMaster)
      requires Valid() && selectionTime > 0.0
      requires |hits| == |cursors|
      modifies zones, this`selectedZone, osc`sent
      ensures Valid()
      ensures View(osc) ==
        UpdateFrame(old(View(osc)), hits, now, selectionTime, osc.defaultRemoteHost, osc.defaultRemotePort)
      ensures forall k :: 0 <= k < |zones| ==>
        zones[k].isOverInThisFrame == HitBy(hits, k) && zones[k].over == HitBy(hits, k)
      ensures (forall k :: 0 <= k < |zones| ==> !Qualifies(zones[k], now, selectionTime))
        ==> selectedZone == old(selectedZone)
      ensures forall k :: 0 <= k < |zones| && Qualifies(zones[k], now, selectionTime) ==>
        exists s :: k <= s < |zones| && selectedZone == zones[s] && Qualifies(zones[s], now, selectionTime)
          && forall j :: s < j < |zones| ==> !Qualifies(zones[j], now, selectionTime)
    {
      ghost var s0 := View(osc);
      ViewConsistent(osc);
      MarkHits(hits);
      assert View(osc) == s0.(zones := Mark(s0.zones, hits));
      SelectOverZones(now, hits, osc);
      FrameOnZones(osc, s0, hits, now, selectionTime, osc.defaultRemoteHost, osc.defaultRemotePort,
                   old(selectedZone));
    }

    /** The first two loops of `Update`: clear every zone's flag, then set it for each hit. */
    method MarkHits(hits: seq<int>)
      requires Valid()
      modifies zones
      ensures Valid()
      ensures StatesOf(zones) == Mark(old(StatesOf(zones)), hits)
      ensures forall j :: 0 <= j < |zones| ==> zones[j].isOverInThisFrame == HitBy(hits, j)
    {
      ghost var zs := StatesOf(zones);
      ValidStates();
      ClearFlags();
      SetFlags(hits);
      ClearThenFlag(zs, hits);
      FlagsOnly(zs, hits);
    }

    /** The second loop of `Update`: the flag of every zone a cursor hits is set. */
    method SetFlags(hits: seq<int>)
      requires Distinct(zones)
      modifies zones
      ensures StatesOf(zones) == Flag(old(StatesOf(zones)), hits)
      ensures selectedZone == old(selectedZone)
    {
      ghost var zs := StatesOf(zones);
      for i := 0 to |hits|
        invariant forall j :: 0 <= j < |zones| ==>
          zones[j].State() == old(zones[j].State()).(isOverInThisFrame := old(zones[j].isOverInThisFrame) || j in hits[..i])
      {
        var h := hits[i];
        assert hits[..i + 1] == hits[..i] + [h];
        if 0 <= h < |zones| {
          zones[h].isOverInThisFrame := true;
        }
      }
      assert hits[..|hits|] == hits;
      assert forall j :: 0 <= j < |zones| ==> StatesOf(zones)[j] == Flag(zs, hits)[j];
    }

    /** The first loop of `Update`: no zone is over in this frame yet, and nothing else changes. */
    method ClearFlags()
      requires Valid()
      modifies zones
      ensures Valid()
      ensures StatesOf(zones) == Mark(old(StatesOf(zones)), [])
      ensures selectedZone == old(selectedZone)
      ensures forall j :: 0 <= j < |zones| ==> !zones[j].isOverInThisFrame
    {
      ghost var zs := StatesOf(zones);
      ValidStates();
      for k := 0 to |zones|
        invariant forall j :: 0 <= j < |zones| ==>
          zones[j].State() == if j < k then zs[j].(isOverInThisFrame := false) else zs[j]
      {
        zones[k].isOverInThisFrame := false;
        forall j | 0 <= j < |zones|
          ensures zones[j].State() == if j < k + 1 then zs[j].(isOverInThisFrame := false) else zs[j]
        {
          if j != k {
            assert zones[j] != zones[k];
          }
        }
      }
      assert StatesOf(zones) == Mark(zs, []);
      FlagsOnly(zs, []);
    }

    /** The zones' values of a valid map agree with the selection and are each consistent. */
    lemma ValidStates()
      requires Valid()
      ensures Agree(StatesOf(zones), IndexOf(zones, selectedZone))
      ensures forall j :: 0 <= j < |zones| ==> |StatesOf(zones)[j].initMaterialColors| == |StatesOf(zones)[j].materials|
    {
    }

    /**
     * A map that was valid with zone values `zs` is valid again when the zones' values are
     * `zs` with the per-frame flags `Mark` sets for `hits`.
     */
    lemma FlagsOnly(zs: seq<ZoneState>, hits: seq<int>)
      requires Distinct(zones) && (selectedZone != null ==> selectedZone in zones)
      requires Agree(zs, IndexOf(zones, selectedZone)) && |zs| == |zones|
      requires forall j :: 0 <= j < |zs| ==> |zs[j].initMaterialColors| == |zs[j].materials|
      requires StatesOf(zones) == Mark(zs, hits)
      ensures Valid()
    {
    }

    /** The last loop of `Update`: each zone in turn takes its flag as `over` and may become selected. */
    method SelectOverZones(now: real, hits: seq<int>, osc: OscMaster)
      requires Valid() && selectionTime > 0.0
      modifies zones, this`selectedZone, osc`sent
      ensures Valid()
      ensures View(osc) ==
        Frame(old(View(osc)), |zones|, now, selectionTime, osc.defaultRemoteHost, osc.defaultRemotePort)
    {
      ghost var s0 := View(osc);
      for k := 0 to |zones|
        invariant AtFrame(osc, s0, k, now)
      {
        VisitNext(k, now, osc, s0);
      }
      ValidAfterFrame(osc, s0, |zones|, now, selectionTime, osc.defaultRemoteHost, osc.defaultRemotePort);
    }

    /** A map in shape whose scene is a frame of a consistent scene is valid. */
    lemma ValidAfterFrame(osc: OscMaster, s0: Scene, k: nat, now: real, selectionTime: real, host: string, port: int)
      requires Shape() && Consistent(s0) && k <= |s0.zones| && selectionTime > 0.0
      requires View(osc) == Frame(s0, k, now, selectionTime, host, port)
      ensures Valid()
    {
      FrameTurns(s0, k, now, selectionTime, host, port);
    }

    /**
     * A frame read on the zone objects: each zone is over exactly when some cursor hits
     * it, and the selected zone is the last one that qualifies, or `prev`, the one
     * selected before, when none does.
     */
    lemma FrameOnZones(osc: OscMaster, s0: Scene, hits: seq<int>, now: real, selectionTime: real,
                       host: string, port: int, prev: MotionMapZone?)
      requires Valid() && selectionTime > 0.0 && Consistent(s0) && |s0.zones| == |zones|
      requires prev == if s0.selected < 0 then null else zones[s0.selected]
      requires View(osc) == UpdateFrame(s0, hits, now, selectionTime, host, port)
      ensures forall k :: 0 <= k < |zones| ==>
        zones[k].isOverInThisFrame == HitBy(hits, k) && zones[k].over == HitBy(hits, k)
      ensures (forall k :: 0 <= k < |zones| ==> !Qualifies(zones[k], now, selectionTime)) ==> selectedZone == prev
      ensures forall k :: 0 <= k < |zones| && Qualifies(zones[k], now, selectionTime) ==>
        exists s :: k <= s < |zones| && selectedZone == zones[s] && Qualifies(zones[s], now, selectionTime)
          && forall j :: s < j < |zones| ==> !Qualifies(zones[j], now, selectionTime)
    {
      var s1 := s0.(zones := Mark(s0.zones, hits));
      assert Consistent(s1);
      FrameTurns(s1, |zones|, now, selectionTime, host, port);
      SelectedIsLastQualifying(osc, s1.selected, now, selectionTime, prev);
    }

    /**
     * Read on the zone objects, a selected position that is the last qualifying one is
     * the last zone that qualifies, or `prev` when none does.
     */
    lemma SelectedIsLastQualifying(osc: OscMaster, dflt: int, now: real, selectionTime: real, prev: MotionMapZone?)
      requires Valid() && selectionTime > 0.0 && -1 <= dflt < |zones|
      requires prev == if dflt < 0 then null else zones[dflt]
      requires View(osc).selected == LastQualifying(View(osc).zones, |zones|, dflt, now, selectionTime)
      ensures (forall k :: 0 <= k < |zones| ==> !Qualifies(zones[k], now, selectionTime)) ==> selectedZone == prev
      ensures forall k :: 0 <= k < |zones| && Qualifies(zones[k], now, selectionTime) ==>
        exists s :: k <= s < |zones| && selectedZone == zones[s] && Qualifies(zones[s], now, selectionTime)
          && forall j :: s < j < |zones| ==> !Qualifies(zones[j], now, selectionTime)
    {
      var r := View(osc);
      ViewConsistent(osc);
      LastQualifyingSpec(r.zones, |zones|, dflt, now, selectionTime);
      QualifiesRead(osc, now, selectionTime);
      forall k | 0 <= k < |zones| && Qualifies(zones[k], now, selectionTime)
        ensures exists s :: k <= s < |zones| && selectedZone == zones[s] && Qualifies(zones[s], now, selectionTime)
                            && forall j :: s < j < |zones| ==> !Qualifies(zones[j], now, selectionTime)
      {
        assert selectedZone == zones[r.selected];
      }
    }

    /** A zone object qualifies exactly when its value does. */
    lemma QualifiesRead(osc: OscMaster, now: real, selectionTime: real)
      requires selectionTime > 0.0
      ensures forall j :: 0 <= j < |zones| ==>
        (Qualifies(zones[j], now, selectionTime) <==> QualifiesState(View(osc).zones[j], now, selectionTime))
    {
    }

    /** The step of that loop on the zone at position `k`, as the code has it. */
    method VisitZone(k: nat, now: real, osc: OscMaster)
      requires Valid() && selectionTime > 0.0 && k < |zones|
      modifies zones, this`selectedZone, osc`sent
      ensures Valid()
      ensures View(osc) == Visit(old(View(osc)), k, now, selectionTime, osc.defaultRemoteHost, osc.defaultRemotePort)
    {
      SetOverAt(k, now, osc);
      if zones[k].over {
        ProgressZone(k, now, osc);
      }
    }

    /** The invariant of that loop: the first `k` zones of `s0` have been visited. */
    ghost predicate AtFrame(osc: OscMaster, s0: Scene, k: nat, now: real)
      reads this, zones, osc
    {
      && Shape() && selectionTime > 0.0 && k <= |zones|
      && |s0.zones| == |zones| && Consistent(s0)
      && View(osc) == Frame(s0, k, now, selectionTime, osc.defaultRemoteHost, osc.defaultRemotePort)
    }

    /** One turn of that loop: the frame so far grows by the zone at position `k`. */
    method VisitNext(k: nat, now: real, osc: OscMaster, ghost s0: Scene)
      requires AtFrame(osc, s0, k, now) && k < |zones|
      modifies zones, this`selectedZone, osc`sent
      ensures AtFrame(osc, s0, k + 1, now)
    {
      ValidAfterFrame(osc, s0, k, now, selectionTime, osc.defaultRemoteHost, osc.defaultRemotePort);
      ghost var before := View(osc);
      VisitZone(k, now, osc);
      FrameNext(s0, k, before, View(osc), now, selectionTime, osc.defaultRemoteHost, osc.defaultRemotePort);
    }

    /** `zone.setOver(zone.isOverInThisFrame)` on the zone at position `k`. */
    method SetOverAt(k: nat, now: real, osc: OscMaster)
      requires Valid() && k < |zones|
      modifies zones[k], osc`sent
      ensures Valid()
      ensures var s0 := old(View(osc));
        View(osc) == Apply(s0, k, OverTo(s0.zones[k], s0.zones[k].isOverInThisFrame, now,
                                         osc.defaultRemoteHost, osc.defaultRemotePort))
    {
      ghost var s0 := View(osc);
      var z := zones[k];
      z.SetOver(z.isOverInThisFrame, now, osc);
      forall j | 0 <= j < |zones| && j != k
        ensures zones[j].State() == s0.zones[j] && zones[j].Valid()
      {
        assert zones[j] != z;
      }
      assert StatesOf(zones) == s0.zones[k := z.State()];
    }

    /** The rest of that step for a zone that is over: report its progress, select it once it is complete. */
    method ProgressZone(k: nat, now: real, osc: OscMaster)
      requires Valid() && selectionTime > 0.0 && k < |zones| && zones[k].over
      modifies zones, this`selectedZone, osc`sent
      ensures Valid()
      ensures View(osc) == Progress(old(View(osc)), k, now, selectionTime, osc.defaultRemoteHost, osc.defaultRemotePort)
    {
      ghost var s0 := View(osc);
      var curSelectTime := ReportProgress(k, now, osc);
      ghost var s1 := View(osc);
      SelectIfComplete(k, curSelectTime, osc);
      ProgressBySteps(s0, s1, View(osc), k, curSelectTime, now, selectionTime,
                      osc.defaultRemoteHost, osc.defaultRemotePort);
    }

    /** The zone at position `k` becomes the selected zone once its progress is complete. */
    method SelectIfComplete(k: nat, curSelectTime: real, osc: OscMaster)
      requires Valid() && k < |zones|
      modifies zones, this`selectedZone, osc`sent
      ensures Valid()
      ensures View(osc) == if curSelectTime >= 1.0 then SelectZone(old(View(osc)), k, osc.defaultRemoteHost, osc.defaultRemotePort)
                           else old(View(osc))
    {
      if curSelectTime >= 1.0 {
        IndexOfDistinct(zones, k);
        var _ := SetSelectedZone(zones[k], osc);
      }
    }

    /**
     * `zone.setSelectionProgression(curSelectTime)` on the zone at position `k`, with
     * `curSelectTime` the time it has been over as a fraction of `selectionTime`.
     */
    method ReportProgress(k: nat, now: real, osc: OscMaster) returns (curSelectTime: real)
      requires Valid() && selectionTime > 0.0 && k < |zones|
      modifies zones[k], osc`sent
      ensures Valid()
      ensures var s0 := old(View(osc));
        && curSelectTime == (now - s0.zones[k].overStartTime) / selectionTime
        && View(osc) == Apply(s0, k, ProgressTo(s0.zones[k], curSelectTime, osc.defaultRemoteHost, osc.defaultRemotePort))
    {
      ghost var s0 := View(osc);
      var z := zones[k];
      curSelectTime := (now - z.overStartTime) / selectionTime;
      z.SetSelectionProgression(curSelectTime, osc);
      assert StatesOf(zones) == s0.zones[k := z.State()];
    }

    /**
     * `setSelectedZone(zone)`: nothing happens when `zone` is already selected.
     * Otherwise the previous zone is deselected, `zone` becomes the selected zone and is
     * selected, and `targetChanged` is sent with its id. The code reads
     * `selectedZone.id` without a null check: for `zone == null` the result `nullRef` is
     * true, the previous zone has been deselected and no `targetChanged` is sent.
     */
    method SetSelectedZone(zone: MotionMapZone?, osc: OscMaster) returns (nullRef: bool)
      requires Valid()
      requires zone != null ==> zone in zones
      modifies this`selectedZone, zones, osc`sent
      ensures Valid()
      ensures View(osc) == SelectZone(old(View(osc)), IndexOf(zones, zone), osc.defaultRemoteHost, osc.defaultRemotePort)
      ensures old(selectedZone) == zone ==>
        (selectedZone == zone && !nullRef && osc.sent == old(osc.sent)
         && forall k :: 0 <= k < |zones| ==> zones[k].tweens == old(zones[k].tweens))
      ensures old(selectedZone) != zone ==>
        (selectedZone == zone && nullRef == (zone == null)
         && osc.sent == old(osc.sent)
              + (if old(selectedZone) == null then []
                 else [Packet(ZoneMessage("/targetDeselected", old(selectedZone).id),
                              osc.defaultRemoteHost, osc.defaultRemotePort)])
              + (if zone == null then []
                 else [Packet(ZoneMessage("/targetSelected", zone.id),
                              osc.defaultRemoteHost, osc.defaultRemotePort),
                       Packet(OscMessage("targetChanged", [OscString(zone.id)]),
                              osc.defaultRemoteHost, osc.defaultRemotePort)]))
      ensures forall k :: 0 <= k < |zones| ==>
        zones[k].over == old(zones[k].over) && zones[k].overStartTime == old(zones[k].overStartTime)
        && zones[k].isOverInThisFrame == old(zones[k].isOverInThisFrame)
        && zones[k].id == old(zones[k].id) && zones[k].materials == old(zones[k].materials)
        && zones[k].initMaterialColors == old(zones[k].initMaterialColors)
    {
      ghost var s0 := View(osc);
      ghost var host, port := osc.defaultRemoteHost, osc.defaultRemotePort;
      ViewConsistent(osc);
      if zone == selectedZone {
        nullRef := false;
      } else {
        DeselectCurrent(osc);
        nullRef := SelectNew(zone, osc);
      }
      SelectionOnZones(osc, s0, zone, old(selectedZone), host, port);
    }

    /** The first step of `setSelectedZone`: the selected zone, if any, is deselected. */
    method DeselectCurrent(osc: OscMaster)
      requires Valid()
      modifies zones, osc`sent
      ensures forall k :: 0 <= k < |zones| ==> zones[k].Valid()
      ensures View(osc) == Deselect(old(View(osc)), osc.defaultRemoteHost, osc.defaultRemotePort)
    {
      ViewConsistent(osc);
      if selectedZone != null {
        SetSelectedAt(IndexOf(zones, selectedZone), false, osc);
      }
    }

    /** `setSelected(value)` on the zone at position `k`; no other zone changes. */
    method SetSelectedAt(k: nat, value: bool, osc: OscMaster)
      requires k < |zones| && Distinct(zones) && forall j :: 0 <= j < |zones| ==> zones[j].Valid()
      modifies zones[k], osc`sent
      ensures forall j :: 0 <= j < |zones| ==> zones[j].Valid()
      ensures View(osc) ==
        Apply(old(View(osc)), k, SelectedTo(old(View(osc)).zones[k], value, osc.defaultRemoteHost, osc.defaultRemotePort))
    {
      ghost var s0 := View(osc);
      var z := zones[k];
      z.SetSelected(value, osc);
      forall j | 0 <= j < |zones| && j != k
        ensures zones[j].State() == s0.zones[j] && zones[j].Valid()
      {
        assert zones[j] != z;
      }
      assert StatesOf(zones) == s0.zones[k := z.State()];
    }

    /**
     * The rest of `setSelectedZone`: `zone` becomes the selected zone and is selected,
     * and `targetChanged` is sent with its id; for null, `nullRef` is true and nothing
     * is sent.
     */
    method SelectNew(zone: MotionMapZone?, osc: OscMaster) returns (nullRef: bool)
      requires zone != null ==> zone in zones
      requires Distinct(zones) && forall k :: 0 <= k < |zones| ==> zones[k].Valid()
      modifies this`selectedZone, zones, osc`sent
      ensures forall k :: 0 <= k < |zones| ==> zones[k].Valid()
      ensures nullRef == (zone == null) && selectedZone == zone
      ensures View(osc) == SelectRest(old(View(osc)), IndexOf(zones, zone), osc.defaultRemoteHost, osc.defaultRemotePort)
    {
      selectedZone := zone;
      if selectedZone == null {
        return true;
      }
      SetSelectedAt(IndexOf(zones, zone), true, osc);
      osc.SendMessage("targetChanged", [OscString(selectedZone.id)], "", 0);
      return false;
    }

    /**
     * A selection change from `prev` to `zone` read on the zone objects: `zone` is the
     * selected zone, no zone's state other than its `selected` flag and animations
     * changes, and the messages sent are the deselection of `prev`, then the selection
     * and `targetChanged` of `zone`, each only when it is not null.
     */
    lemma SelectionOnZones(osc: OscMaster, s0: Scene, zone: MotionMapZone?, prev: MotionMapZone?,
                           host: string, port: int)
      requires Consistent(s0) && |s0.zones| == |zones|
      requires Distinct(zones) && forall k :: 0 <= k < |zones| ==> zones[k].Valid()
      requires (zone != null ==> zone in zones) && selectedZone == zone
      requires prev == if s0.selected < 0 then null else zones[s0.selected]
      requires View(osc) == SelectZone(s0, IndexOf(zones, zone), host, port)
      ensures Valid() && selectedZone == zone
      ensures forall k :: 0 <= k < |zones| ==>
        zones[k].over == s0.zones[k].over && zones[k].overStartTime == s0.zones[k].overStartTime
        && zones[k].isOverInThisFrame == s0.zones[k].isOverInThisFrame
        && zones[k].id == s0.zones[k].id && zones[k].materials == s0.zones[k].materials
        && zones[k].initMaterialColors == s0.zones[k].initMaterialColors
      ensures prev == zone ==>
        osc.sent == s0.sent && forall k :: 0 <= k < |zones| ==> zones[k].tweens == s0.zones[k].tweens
      ensures prev != zone ==>
        osc.sent == s0.sent
          + (if prev == null then [] else [Packet(ZoneMessage("/targetDeselected", prev.id), host, port)])
          + (if zone == null then []
             else [Packet(ZoneMessage("/targetSelected", zone.id), host, port),
                   Packet(OscMessage("targetChanged", [OscString(zone.id)]), host, port)])
    {
      var t := IndexOf(zones, zone);
      assert prev == zone <==> t == s0.selected;
      SelectZoneEffect(s0, t, host, port);
      assert IndexOf(zones, selectedZone) == t;
      assert prev != null ==> prev.id == s0.zones[s0.selected].id;
      assert zone != null ==> zone.id == s0.zones[t].id;
    }
  }
}
