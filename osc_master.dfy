/**
 * The OSC hub of the installation (OSCMaster.cs): it routes incoming messages whose
 * address has the form `<prefix>/<target>/<property>` to the controllable named
 * `<target>`, and sends outgoing messages to a default host and port unless told
 * otherwise. The UDP server and client are not modelled: what the client would
 * transmit is appended to `sent`, and each `setProp` call a routed message causes
 * is appended to `propCalls`. The static `instance` of the C# class becomes an
 * explicit `OscMaster` object that senders receive as a parameter.
 */
module OscRouting {
  import opened Wrappers

  /** An argument of an OSC message (the C# code passes `object`s). */
  datatype OscArg = OscString(s: string) | OscInt(i: int) | OscFloat(r: real)

  datatype OscMessage = OscMessage(address: string, args: seq<OscArg>)

  /** A message handed to the UDP client, with the destination it was sent to. */
  datatype Packet = Packet(message: OscMessage, host: string, port: int)

  /** An `OSCControllable` in the scene, known by its `oscName`. */
  datatype Controllable = Controllable(oscName: string)

  /** One `setProp(property, data)` call, on the controllable at position `target`. */
  datatype PropCall = PropCall(target: nat, property: string, data: seq<OscArg>)

  /** The target and property named by an accepted address. */
  datatype Route = Route(target: string, property: string)

  /** Joins segments with '/', the inverse of `Split`. */
  function Join(segs: seq<string>): string
    requires |segs| >= 1
  {
    if |segs| == 1 then segs[0] else segs[0] + "/" + Join(segs[1..])
  }

  /** Number of '/' characters in `s`. */
  function Slashes(s: string): nat {
    if s == [] then 0 else (if s[0] == '/' then 1 else 0) + Slashes(s[1..])
  }

  /**
   * `s.Split(new char[] { '/' })` in C#: cut at every '/', keeping empty segments,
   * so "/a/b" gives ["", "a", "b"].
   */
  function Split(s: string): (segs: seq<string>)
    ensures |segs| == Slashes(s) + 1
    ensures forall k :: 0 <= k < |segs| ==> '/' !in segs[k]
    ensures Join(segs) == s
  {
    if s == [] then [""]
    else
      var rest := Split(s[1..]);
      if s[0] == '/' then [""] + rest
      else [[s[0]] + rest[0]] + rest[1..]
  }

  /** Splitting a join of '/'-free segments gives the segments back. */
  lemma {:induction false} SplitJoin(segs: seq<string>)
    requires |segs| >= 1
    requires forall k :: 0 <= k < |segs| ==> '/' !in segs[k]
    ensures Split(Join(segs)) == segs
  {
    SplitFree(segs[0]);
    if |segs| > 1 {
      SplitJoin(segs[1..]);
      SplitPrefix(segs[0], Join(segs[1..]));
    }
  }

  /** A '/'-free string splits into itself. */
  lemma {:induction false} SplitFree(s: string)
    requires '/' !in s
    ensures Split(s) == [s]
  {
    if s != [] {
      SplitFree(s[1..]);
    }
  }

  /** Splitting `h + "/" + t` with a '/'-free `h` puts `h` in front of the split of `t`. */
  lemma {:induction false} SplitPrefix(h: string, t: string)
    requires '/' !in h
    ensures Split(h + "/" + t) == [h] + Split(t)
    decreases |h|
  {
    if h == [] {
      assert h + "/" + t == ['/'] + t;
      assert (['/'] + t)[1..] == t;
    } else {
      assert (h + "/" + t)[1..] == h[1..] + "/" + t;
      SplitPrefix(h[1..], t);
      assert [h[0]] + h[1..] == h;
    }
  }

  /**
   * The address check of `packetReceived`: the address must split into exactly three
   * segments; the target is the second and the property the third.
   */
  function ParseAddress(address: string): Option<Route> {
    var segs := Split(address);
    if |segs| != 3 then None else Some(Route(segs[1], segs[2]))
  }

  /** An address is accepted exactly when it has exactly two '/' characters. */
  lemma AcceptedIffTwoSlashes(address: string)
    ensures ParseAddress(address).Some? <==> Slashes(address) == 2
  {
  }

  /**
   * Any `h/t/p` with '/'-free `h`, `t` and `p` is accepted with target `t` and
   * property `p`: whatever stands before the first '/' is ignored.
   */
  lemma {:induction false} ShapedAddressAccepted(h: string, t: string, p: string)
    requires '/' !in h && '/' !in t && '/' !in p
    ensures ParseAddress(h + "/" + t + "/" + p) == Some(Route(t, p))
  {
    SplitJoin([h, t, p]);
    assert [h, t, p][1..] == [t, p] && [t, p][1..] == [p];
    assert Join([p]) == p;
    assert Join([t, p]) == t + "/" + p;
    assert Join([h, t, p]) == h + "/" + (t + "/" + p);
    assert h + "/" + (t + "/" + p) == h + "/" + t + "/" + p;
  }

  /** Every accepted address is rebuilt from its three segments. */
  lemma {:induction false} AcceptedAddressShape(address: string)
    requires ParseAddress(address).Some?
    ensures var r := ParseAddress(address).value;
      '/' !in r.target && '/' !in r.property
      && address == Split(address)[0] + "/" + r.target + "/" + r.property
  {
    var segs := Split(address);
    assert Join(segs) == segs[0] + "/" + Join(segs[1..]);
    assert segs[1..][1..] == [segs[2]];
  }

  /** The addresses "/a/b" and "x/a/b" both route to target "a", property "b". */
  lemma ParseExamples()
    ensures ParseAddress("/a/b") == Some(Route("a", "b"))
    ensures ParseAddress("x/a/b") == Some(Route("a", "b"))
    ensures ParseAddress("/a/b/c") == None
    ensures ParseAddress("/a") == None
  {
    ShapedAddressAccepted("", "a", "b");
    assert "" + "/" + "a" + "/" + "b" == "/a/b";
    ShapedAddressAccepted("x", "a", "b");
    assert "x" + "/" + "a" + "/" + "b" == "x/a/b";
    DroppedExamples();
  }

  /** Four segments and two segments are both dropped. */
  lemma DroppedExamples()
    ensures |Split("/a/b/c")| == 4 && |Split("/a")| == 2
  {
    SplitJoin(["", "a", "b", "c"]);
    assert Join(["", "a", "b", "c"]) == "/a/b/c";
    SplitJoin(["", "a"]);
    assert Join(["", "a"]) == "/a";
  }

  /** Position of the first controllable named `id`, if any. */
  function FirstNamed(cs: seq<Controllable>, id: string): (r: Option<nat>)
    ensures r.None? <==> forall k :: 0 <= k < |cs| ==> cs[k].oscName != id
    ensures r.Some? ==> (r.value < |cs| && cs[r.value].oscName == id
                         && forall k :: 0 <= k < r.value ==> cs[k].oscName != id)
  {
    if cs == [] then None
    else if cs[0].oscName == id then Some(0)
    else match FirstNamed(cs[1..], id)
      case None => None
      case Some(k) => Some(k + 1)
  }

  /** The host actually used: the given one, or the default when it is empty. */
  function ResolveHost(host: string, defaultHost: string): string {
    if host == "" then defaultHost else host
  }

  /** The port actually used: the given one, or the default when it is 0. */
  function ResolvePort(port: int, defaultPort: int): int {
    if port == 0 then defaultPort else port
  }

  class OscMaster {
    var port: int
    var controllables: seq<Controllable>
    const defaultRemoteHost: string
    const defaultRemotePort: int
    /** What the UDP client was asked to send, oldest first. */
    var sent: seq<Packet>
    /** The `setProp` calls made on controllables, oldest first. */
    var propCalls: seq<PropCall>

    /**
     * Field initialisers and `Start`: the controllables are those found in the scene.
     */
    constructor (found: seq<Controllable>)
      ensures port == 6000 && defaultRemoteHost == "127.0.0.1" && defaultRemotePort == 6001
      ensures controllables == found && sent == [] && propCalls == []
    {
      port := 6000;
      defaultRemoteHost := "127.0.0.1";
      defaultRemotePort := 6001;
      controllables := found;
      sent := [];
      propCalls := [];
    }

    /** `getControllableForID`: the first controllable whose name is `id`, or none. */
    method GetControllableForId(id: string) returns (r: Option<nat>)
      ensures r == FirstNamed(controllables, id)
      ensures r.Some? ==> r.value < |controllables| && controllables[r.value].oscName == id
    {
      var i := 0;
      while i < |controllables|
        invariant 0 <= i <= |controllables|
        invariant forall k :: 0 <= k < i ==> controllables[k].oscName != id
      {
        if controllables[i].oscName == id {
          return Some(i);
        }
        i := i + 1;
      }
      return None;
    }

    /**
     * `packetReceived`: an address that does not split into three segments, or whose
     * target names no controllable, is dropped; otherwise the first controllable so
     * named receives the property and the message's arguments.
     */
    method PacketReceived(m: OscMessage)
      modifies this`propCalls
      ensures match ParseAddress(m.address)
        case None => propCalls == old(propCalls)
        case Some(route) =>
          match FirstNamed(controllables, route.target)
          case None => propCalls == old(propCalls)
          case Some(k) => propCalls == old(propCalls) + [PropCall(k, route.property, m.args)]
    {
      var addSplit := Split(m.address);
      if |addSplit| != 3 {
        return;
      }
      var target := addSplit[1];
      var property := addSplit[2];
      var c := GetControllableForId(target);
      if c.None? {
        return;
      }
      propCalls := propCalls + [PropCall(c.value, property, m.args)];
    }

    /**
     * `sendMessage(OSCMessage, host, port)`: an empty host and a zero port are replaced
     * by the defaults before the message is handed to the client.
     */
    method SendPacket(m: OscMessage, host: string, port: int)
      modifies this`sent
      ensures sent == old(sent) + [Packet(m, ResolveHost(host, defaultRemoteHost),
                                          ResolvePort(port, defaultRemotePort))]
      ensures host != "" ==> sent[|sent| - 1].host == host
      ensures port != 0 ==> sent[|sent| - 1].port == port
    {
      var h := host;
      var p := port;
      if h == "" {
        h := defaultRemoteHost;
      }
      if p == 0 {
        p := defaultRemotePort;
      }
      sent := sent + [Packet(m, h, p)];
    }

    /**
     * `sendMessage(address, args, host, port)`: builds a message whose arguments are
     * exactly `args`, in order, and sends it.
     */
    method SendMessage(address: string, args: seq<OscArg>, host: string, port: int)
      modifies this`sent
      ensures sent == old(sent) + [Packet(OscMessage(address, args),
                                          ResolveHost(host, defaultRemoteHost),
                                          ResolvePort(port, defaultRemotePort))]
    {
      var m := OscMessage(address, []);
      for i := 0 to |args|
        invariant m == OscMessage(address, args[..i])
      {
        m := m.(args := m.args + [args[i]]);
      }
      assert args[..|args|] == args;
      SendPacket(m, host, port);
    }
  }
}
