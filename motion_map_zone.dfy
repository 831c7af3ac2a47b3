/**
 * An interaction zone (MotionMapZone.cs): a region of the scene that a cursor can
 * hover ("over") and, after hovering long enough, select. Each real change of the
 * `over` or `selected` flag sends exactly one OSC message, and recolours the zone's
 * materials. The DOTween colour animations are not run: each one is appended to
 * `tweens` as a command. `Time.time` is a parameter.
 */
module Zones {
  import opened OscRouting

  datatype Color = Color(r: real, g: real, b: real, a: real)

  /** Unity's `Color.yellow` and `Color.green`, with the decimal constants Unity declares them with. */
  const Yellow := Color(1.0, 0.921568632, 0.0156862754, 1.0)
  const Green := Color(0.0, 1.0, 0.0, 1.0)

  /** Duration of every colour animation the zone starts (`time = .5f`). */
  const TweenTime: real := 0.5

  /** A material of one of the zone's renderers, with its colour at start-up. */
  datatype Material = Material(name: string, color: Color)

  /** A `DOColor(color, duration)` animation started on the zone's material at `material`. */
  datatype Tween = Tween(material: nat, color: Color, duration: real)

  /** The materials of all renderers, renderer by renderer. */
  function Flatten(objects: seq<seq<Material>>): seq<Material> {
    if objects == [] then [] else Flatten(objects[..|objects| - 1]) + objects[|objects| - 1]
  }

  /** The animations of `setAllMaterialsColors(color)` on `n` materials. */
  function AllTo(n: nat, color: Color): (ts: seq<Tween>)
    ensures |ts| == n
  {
    seq(n, i requires 0 <= i < n => Tween(i, color, TweenTime))
  }

  /** The animations of `resetAllMaterialsColors`: material `i` back to `colors[i]`. */
  function ResetAll(colors: seq<Color>): (ts: seq<Tween>)
    ensures |ts| == |colors|
  {
    seq(|colors|, i requires 0 <= i < |colors| => Tween(i, colors[i], TweenTime))
  }

  /** The message every zone event sends: the address with the zone's id as sole argument. */
  function ZoneMessage(address: string, id: string): OscMessage {
    OscMessage(address, [OscString(id)])
  }

  /** The value of all the fields of a zone. */
  datatype ZoneState = ZoneState(
    id: string, objects: seq<seq<Material>>, materials: seq<Material>, initMaterialColors: seq<Color>,
    overStartTime: real, isOverInThisFrame: bool, over: bool, selected: bool,
    selectionProgression: real, tweens: seq<Tween>)

  /** What one zone event leaves: the zone's new state and the packets it sent, in order. */
  datatype ZoneStep = ZoneStep(zone: ZoneState, sent: seq<Packet>)

  /** `setOver(value)` on a zone in state `z`, with `host` and `port` the default destination. */
  function OverTo(z: ZoneState, value: bool, now: real, host: string, port: int): ZoneStep {
    if z.over == value then ZoneStep(z, [])
    else
      ZoneStep(
        z.(over := value,
           overStartTime := if value && !z.selected then now else z.overStartTime,
           tweens := z.tweens + (if z.selected then []
                                 else if value then AllTo(|z.materials|, Yellow)
                                 else ResetAll(z.initMaterialColors))),
        [Packet(ZoneMessage(if value then "/targetOver" else "/targetOut", z.id), host, port)])
  }

  /** `setSelectionProgression(value)` on a zone in state `z`. */
  function ProgressTo(z: ZoneState, value: real, host: string, port: int): ZoneStep {
    if z.selected then ZoneStep(z, [])
    else ZoneStep(z.(selectionProgression := value),
                  [Packet(ZoneMessage("/targetSelectionProgress", z.id), host, port)])
  }

  /** `setSelected(value)` on a zone in state `z`. */
  function SelectedTo(z: ZoneState, value: bool, host: string, port: int): ZoneStep {
    if z.selected == value then ZoneStep(z, [])
    else
      ZoneStep(
        z.(selected := value,
           tweens := z.tweens + (if value then AllTo(|z.materials|, Green) else ResetAll(z.initMaterialColors))),
        [Packet(ZoneMessage(if value then "/targetSelected" else "/targetDeselected", z.id), host, port)])
  }

  /**
   * `setOver` acts on a real change only: the flag takes the value, one message is sent
   * when it changed and none otherwise, and a second call with the same value changes
   * nothing and sends nothing. The zone's identity, materials and other flags are kept.
   */
  lemma OverToOnce(z: ZoneState, value: bool, now: real, now': real, host: string, port: int)
    ensures var r := OverTo(z, value, now, host, port);
      && r.zone.over == value
      && |r.sent| == (if z.over == value then 0 else 1)
      && OverTo(r.zone, value, now', host, port) == ZoneStep(r.zone, [])
      && r.zone.(over := z.over, overStartTime := z.overStartTime, tweens := z.tweens) == z
      && (value && !z.over && !z.selected ==> r.zone.overStartTime == now)
  {
  }

  /**
   * `setSelected` acts on a real change only, in the same way; a zone that is selected
   * ignores progress reports.
   */
  lemma SelectedToOnce(z: ZoneState, value: bool, progress: real, host: string, port: int)
    ensures var r := SelectedTo(z, value, host, port);
      && r.zone.selected == value
      && |r.sent| == (if z.selected == value then 0 else 1)
      && SelectedTo(r.zone, value, host, port) == ZoneStep(r.zone, [])
      && r.zone.(selected := z.selected, tweens := z.tweens) == z
      && (value ==> ProgressTo(r.zone, progress, host, port) == ZoneStep(r.zone, []))
  {
  }

  class MotionMapZone {
    var id: string
    /** The renderers of the zone, each with its materials (`objects`). */
    var objects: seq<seq<Material>>
    var materials: seq<Material>
    var initMaterialColors: seq<Color>
    var overStartTime: real
    var isOverInThisFrame: bool
    var over: bool
    var selected: bool
    var selectionProgression: real
    /** The colour animations started on the zone's materials, oldest first. */
    var tweens: seq<Tween>

    ghost predicate Valid()
      reads this
    {
      |initMaterialColors| == |materials|
    }

    /** The zone's fields as a value. */
    function State(): ZoneState
      reads this
    {
      ZoneState(id, objects, materials, initMaterialColors, overStartTime, isOverInThisFrame, over, selected,
                selectionProgression, tweens)
    }

    /** The component as configured in the scene, before `Start` runs. */
    constructor (id: string, objects: seq<seq<Material>>)
      ensures Valid()
      ensures this.id == id && this.objects == objects
      ensures materials == [] && initMaterialColors == [] && tweens == []
      ensures !over && !selected && !isOverInThisFrame
    {
      this.id := id;
      this.objects := objects;
      materials := [];
      initMaterialColors := [];
      overStartTime := 0.0;
      isOverInThisFrame := false;
      over := false;
      selected := false;
      selectionProgression := 0.0;
      tweens := [];
    }

    /**
     * `Start`: an empty id becomes the GameObject's name, and the materials of all
     * renderers are listed in order, each with its colour at start-up at the same position.
     */
    method Start(gameObjectName: string)
      modifies this`id, this`materials, this`initMaterialColors
      ensures Valid()
      ensures id == if old(id) == "" then gameObjectName else old(id)
      ensures materials == Flatten(objects)
      ensures forall i :: 0 <= i < |materials| ==> initMaterialColors[i] == materials[i].color
    {
      if id == "" {
        id := gameObjectName;
      }
      materials := [];
      initMaterialColors := [];
      for r := 0 to |objects|
        invariant id == if old(id) == "" then gameObjectName else old(id)
        invariant materials == Flatten(objects[..r])
        invariant |initMaterialColors| == |materials|
        invariant forall i :: 0 <= i < |materials| ==> initMaterialColors[i] == materials[i].color
      {
        var ms := objects[r];
        for m := 0 to |ms|
          invariant id == if old(id) == "" then gameObjectName else old(id)
          invariant materials == Flatten(objects[..r]) + ms[..m]
          invariant |initMaterialColors| == |materials|
          invariant forall i :: 0 <= i < |materials| ==> initMaterialColors[i] == materials[i].color
        {
          materials := materials + [ms[m]];
          initMaterialColors := initMaterialColors + [ms[m].color];
        }
        assert ms[..|ms|] == ms;
        assert objects[..r + 1][..r] == objects[..r];
      }
      assert objects[..|objects|] == objects;
    }

    /** `setAllMaterialsColors(color)`: every material animates towards `color`. */
    method SetAllMaterialsColors(color: Color)
      modifies this`tweens
      ensures tweens == old(tweens) + AllTo(|materials|, color)
    {
      for i := 0 to |materials|
        invariant tweens == old(tweens) + AllTo(i, color)
      {
        tweens := tweens + [Tween(i, color, TweenTime)];
      }
    }

    /** `resetAllMaterialsColors`: every material animates back to its start-up colour. */
    method ResetAllMaterialsColors()
      requires Valid()
      modifies this`tweens
      ensures tweens == old(tweens) + ResetAll(initMaterialColors)
    {
      for i := 0 to |materials|
        invariant tweens == old(tweens) + ResetAll(initMaterialColors[..i])
      {
        tweens := tweens + [Tween(i, initMaterialColors[i], TweenTime)];
      }
      assert initMaterialColors[..|materials|] == initMaterialColors;
    }

    /**
     * `setOver(value)`: nothing happens when the flag already has that value. Otherwise
     * the flag takes it; if the zone is not selected, becoming "over" restarts the
     * selection clock and turns the materials yellow, and leaving resets their colours;
     * whether selected or not, one `/targetOver` or `/targetOut` message carrying the id
     * is sent.
     */
    method SetOver(value: bool, now: real, osc: OscMaster)
      requires Valid()
      modifies this`over, this`overStartTime, this`tweens, osc`sent
      ensures Valid()
      ensures old(over) == value ==>
        (over == old(over) && overStartTime == old(overStartTime)
         && tweens == old(tweens) && osc.sent == old(osc.sent))
      ensures old(over) != value ==>
        (over == value
         && overStartTime == (if value && !selected then now else old(overStartTime))
         && tweens == old(tweens) + (if selected then []
                                     else if value then AllTo(|materials|, Yellow)
                                     else ResetAll(initMaterialColors))
         && osc.sent == old(osc.sent)
              + [Packet(ZoneMessage(if value then "/targetOver" else "/targetOut", id),
                        osc.defaultRemoteHost, osc.defaultRemotePort)])
      ensures State() == OverTo(old(State()), value, now, osc.defaultRemoteHost, osc.defaultRemotePort).zone
      ensures osc.sent == old(osc.sent) + OverTo(old(State()), value, now, osc.defaultRemoteHost, osc.defaultRemotePort).sent
    {
      if over == value {
        return;
      }
      over := value;
      if !selected {
        if value {
          overStartTime := now;
          SetAllMaterialsColors(Yellow);
        } else {
          ResetAllMaterialsColors();
        }
      }
      osc.SendMessage(if value then "/targetOver" else "/targetOut", [OscString(id)], "", 0);
    }

    /**
     * `setSelectionProgression(value)`: only while the zone is not selected, records the
     * progression and sends `/targetSelectionProgress` with the id (and not the value).
     */
    method SetSelectionProgression(value: real, osc: OscMaster)
      modifies this`selectionProgression, osc`sent
      ensures selected ==>
        (selectionProgression == old(selectionProgression) && osc.sent == old(osc.sent))
      ensures !selected ==>
        (selectionProgression == value
         && osc.sent == old(osc.sent)
              + [Packet(ZoneMessage("/targetSelectionProgress", id),
                        osc.defaultRemoteHost, osc.defaultRemotePort)])
      ensures State() == ProgressTo(old(State()), value, osc.defaultRemoteHost, osc.defaultRemotePort).zone
      ensures osc.sent == old(osc.sent) + ProgressTo(old(State()), value, osc.defaultRemoteHost, osc.defaultRemotePort).sent
    {
      if !selected {
        selectionProgression := value;
        osc.SendMessage("/targetSelectionProgress", [OscString(id)], "", 0);
      }
    }

    /**
     * `setSelected(value)`: nothing happens when the flag already has that value.
     * Otherwise the flag takes it, the materials turn green or back to their start-up
     * colours, and one `/targetSelected` or `/targetDeselected` message carrying the id
     * is sent.
     */
    method SetSelected(value: bool, osc: OscMaster)
      requires Valid()
      modifies this`selected, this`tweens, osc`sent
      ensures Valid()
      ensures old(selected) == value ==>
        (selected == old(selected) && tweens == old(tweens) && osc.sent == old(osc.sent))
      ensures old(selected) != value ==>
        (selected == value
         && tweens == old(tweens) + (if value then AllTo(|materials|, Green)
                                     else ResetAll(initMaterialColors))
         && osc.sent == old(osc.sent)
              + [Packet(ZoneMessage(if value then "/targetSelected" else "/targetDeselected", id),
                        osc.defaultRemoteHost, osc.defaultRemotePort)])
      ensures State() == SelectedTo(old(State()), value, osc.defaultRemoteHost, osc.defaultRemotePort).zone
      ensures osc.sent == old(osc.sent) + SelectedTo(old(State()), value, osc.defaultRemoteHost, osc.defaultRemotePort).sent
    {
      if selected == value {
        return;
      }
      selected := value;
      if value {
        SetAllMaterialsColors(Green);
      } else {
        ResetAllMaterialsColors();
      }
      osc.SendMessage(if value then "/targetSelected" else "/targetDeselected", [OscString(id)], "", 0);
    }
  }
}
