/** The connection status that the other threads read: what the MQTT event
    handler (src/mqtt/ha_mqtt_callback.c) and the connection loop publish. */
module Link {
  import opened Text
  import opened Io

  /** A connect answer with its result, the end of a connection, and the
      connection loop's own message after the TCP session is up. `pubOk` tells
      whether the status channel took the message. */
  datatype LinkEvent = Connack(result: int, pubOk: bool) | Disconnect(pubOk: bool) | TcpUp(pubOk: bool)

  class LinkStatus {
    var handler: Status   // the handler's own record
    var channel: Status   // what is on the channel

    ghost function Vars(): (Status, Status)
      reads this
    {
      (handler, channel)
    }

    constructor ()
      ensures Vars() == After([])
    {
      handler, channel := Status(true, false), Status(false, false);
    }

    method Handle(ev: LinkEvent)
      modifies this
      ensures Vars() == NextLink(old(Vars()), ev)
    {
      match ev
      case Connack(result, pubOk) =>
        if result != 0 {
          return;
        }
        handler := handler.(connected := true);
        if pubOk { channel := handler; }
      case Disconnect(pubOk) =>
        handler := handler.(connected := false);
        if pubOk { channel := handler; }
      case TcpUp(pubOk) =>
        if pubOk { channel := Status(true, false); }
    }
  }

  function NextLink(s: (Status, Status), ev: LinkEvent): (Status, Status) {
    match ev
    case Connack(result, pubOk) =>
      var h := s.0.(connected := true);
      if result != 0 then s else (h, if pubOk then h else s.1)
    case Disconnect(pubOk) =>
      var h := s.0.(connected := false);
      (h, if pubOk then h else s.1)
    case TcpUp(pubOk) => (s.0, if pubOk then Status(true, false) else s.1)
  }

  function After(evs: seq<LinkEvent>): (Status, Status) {
    if evs == [] then (Status(true, false), Status(false, false))
    else NextLink(After(evs[..|evs| - 1]), evs[|evs| - 1])
  }

  predicate Publishes(ev: LinkEvent) {
    ev.pubOk && (ev.Connack? ==> ev.result == 0)
  }

  /** The channel says enabled exactly from the first publication on. */
  lemma {:induction false} EnabledFromFirstPublication(evs: seq<LinkEvent>)
    ensures After(evs).0.enabled
    ensures After(evs).1.enabled <==> exists i :: 0 <= i < |evs| && Publishes(evs[i])
  {
    if evs != [] {
      var pre, ev := evs[..|evs| - 1], evs[|evs| - 1];
      EnabledFromFirstPublication(pre);
      assert evs == pre + [ev];
      if Publishes(ev) {
        assert Publishes(evs[|evs| - 1]);
      }
    }
  }

  /** The last event that got through decides what the channel says. */
  function LastPublished(evs: seq<LinkEvent>): bool {
    if evs == [] then false
    else if Publishes(evs[|evs| - 1]) then evs[|evs| - 1].Connack?
    else LastPublished(evs[..|evs| - 1])
  }

  /** Other threads see a connection exactly when the last message that the
      channel took was that of a successful connect answer. */
  lemma {:induction false} ConnectedIffLastPublished(evs: seq<LinkEvent>)
    ensures After(evs).1.connected == LastPublished(evs)
  {
    if evs != [] {
      ConnectedIffLastPublished(evs[..|evs| - 1]);
    }
  }

  /** The handler's own record follows every connect answer that succeeds and
      every disconnection, whether or not the channel took the message. */
  function LastHandled(evs: seq<LinkEvent>): bool {
    if evs == [] then false else
    match evs[|evs| - 1]
    case Connack(result, _) => result == 0 || LastHandled(evs[..|evs| - 1])
    case Disconnect(_) => false
    case TcpUp(_) => LastHandled(evs[..|evs| - 1])
  }

  lemma {:induction false} HandlerKnows(evs: seq<LinkEvent>)
    ensures After(evs).0 == Status(true, LastHandled(evs))
  {
    if evs != [] {
      HandlerKnows(evs[..|evs| - 1]);
    }
  }

  // ---- the relay thread reads this channel ----

  /** Every status that a tick reads is what the channel says after the first
      `seen[i]` events. */
  ghost predicate Reads(ts: seq<Tick>, evs: seq<LinkEvent>, seen: seq<nat>) {
    && |seen| == |ts|
    && (forall i :: 0 <= i < |ts| ==> seen[i] <= |evs|)
    && (forall i :: 0 <= i < |ts| && ts[i].status.Some? ==> ts[i].status.value == After(evs[..seen[i]]).1)
  }

  ghost predicate PublishedBefore(evs: seq<LinkEvent>, n: nat) {
    exists i :: 0 <= i < n && i < |evs| && Publishes(evs[i])
  }

  lemma StatusReadIs(evs: seq<LinkEvent>, n: nat)
    requires n <= |evs|
    ensures After(evs[..n]).1.enabled <==> PublishedBefore(evs, n)
  {
    EnabledFromFirstPublication(evs[..n]);
    if i :| 0 <= i < n && Publishes(evs[i]) {
      assert Publishes(evs[..n][i]);
    }
  }

  /** Both threads together: after any connection history, a tick that finds the
      broker unreachable applies the default state exactly when no earlier tick
      looked at the status before the MQTT thread had published anything. */
  lemma FallsBackIffNoEarlyLook(enabled: bool, ts: seq<Tick>, evs: seq<LinkEvent>, seen: seq<nat>, t: Tick)
    requires enabled && Reads(ts, evs, seen)
    requires t.channel.Some? && t.defaults.enabled && t.status == Some(After(evs).1) && !LastPublished(evs)
    requires PinsOf(t.channel.value) != PinsOf(DefaultBits(t.defaults))
    ensures Io.Run(enabled, ts + [t]).pins == (t.defaults.relay1, t.defaults.relay2, t.defaults.relay3)
       <==> forall i :: 0 <= i < |ts| && LooksAtStatus(ts[i]) ==> PublishedBefore(evs, seen[i])
  {
    ConnectedIffLastPublished(evs);
    DefaultStateAppliedIff(enabled, ts, t);
    DefaultPins(t.defaults);
    forall i | 0 <= i < |ts| && LooksAtStatus(ts[i])
      ensures ts[i].status.value.enabled <==> PublishedBefore(evs, seen[i])
    {
      StatusReadIs(evs, seen[i]);
    }
  }
}
