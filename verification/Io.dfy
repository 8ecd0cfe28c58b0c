/** The relay thread (src/io/io.c): it chooses between the relay channel and the
    configured default state, and writes the pins only when something changed. */
module Io {
  import opened Text
  import opened HaTask

  datatype Status = Status(enabled: bool, connected: bool)

  /** The default relay state of the settings. */
  datatype Defaults = Defaults(enabled: bool, relay1: bool, relay2: bool, relay3: bool)

  type Pins = (bool, bool, bool)

  function PinsOf(state: bv8): Pins {
    (state & 1 != 0, state & 2 != 0, state & 4 != 0)
  }

  function DefaultBits(d: Defaults): bv8 {
    (if d.relay1 then 1 else 0) | ((if d.relay2 then 1 else 0) << 1) | ((if d.relay3 then 1 else 0) << 2)
  }

  /** What one tick reads; None stands for a busy channel. */
  datatype Tick = Tick(channel: Option<bv8>, status: Option<Status>, defaults: Defaults)

  datatype State = State(applied: bv8, pins: Pins, status: Status)

  class IoThread {
    var applied: bv8
    var pins: Pins
    var status: Status

    ghost function Vars(): State
      reads this
    {
      State(applied, pins, status)
    }

    /** `enabled` comes from the settings. */
    constructor (enabled: bool)
      ensures Vars() == Init(enabled)
    {
      applied, pins, status := 0, (false, false, false), Status(enabled, false);
    }

    method WriteRelaysOnce(state: bv8)
      modifies `pins
      ensures pins == PinsOf(state)
    {
      pins := (state & 1 != 0, state & 2 != 0, state & 4 != 0);
    }

    method DoTick(t: Tick)
      modifies this
      ensures Vars() == Step(old(Vars()), t)
    {
      if t.channel.None? {
        return;
      }
      var state := t.channel.value;
      if status.enabled && t.defaults.enabled {
        if t.status.Some? {
          status := t.status.value;
        }
        if !status.connected {
          state := DefaultBits(t.defaults);
        }
      }
      if state != applied {
        applied := state;
        WriteRelaysOnce(applied);
      }
    }
  }

  function Init(enabled: bool): State {
    State(0, (false, false, false), Status(enabled, false))
  }

  function StatusAfter(s: State, t: Tick): Status {
    if t.channel.Some? && s.status.enabled && t.defaults.enabled && t.status.Some? then t.status.value else s.status
  }

  /** The state this tick wants on the pins. */
  function Wanted(s: State, t: Tick): bv8
    requires t.channel.Some?
  {
    if s.status.enabled && t.defaults.enabled && !StatusAfter(s, t).connected then DefaultBits(t.defaults)
    else t.channel.value
  }

  function Step(s: State, t: Tick): State {
    if t.channel.None? then s
    else if Wanted(s, t) == s.applied then s.(status := StatusAfter(s, t))
    else State(Wanted(s, t), PinsOf(Wanted(s, t)), StatusAfter(s, t))
  }

  function Run(enabled: bool, ts: seq<Tick>): State {
    if ts == [] then Init(enabled) else Step(Run(enabled, ts[..|ts| - 1]), ts[|ts| - 1])
  }

  lemma {:induction false} PinsShowApplied(enabled: bool, ts: seq<Tick>)
    ensures var s := Run(enabled, ts); s.pins == PinsOf(s.applied)
  {
    if ts == [] {
      assert PinsOf(0) == (false, false, false);
    } else {
      PinsShowApplied(enabled, ts[..|ts| - 1]);
    }
  }

  /** Although an unchanged state is never written again, after every tick that
      reads the channel the pins show what that tick wants. */
  lemma PinsShowWanted(enabled: bool, ts: seq<Tick>, t: Tick)
    requires t.channel.Some?
    ensures Run(enabled, ts + [t]).pins == PinsOf(Wanted(Run(enabled, ts), t))
  {
    assert (ts + [t])[..|ts + [t]| - 1] == ts;
    PinsShowApplied(enabled, ts);
    PinsShowApplied(enabled, ts + [t]);
  }

  lemma DefaultPins(d: Defaults)
    ensures PinsOf(DefaultBits(d)) == (d.relay1, d.relay2, d.relay3)
  {
  }

  /** The three pins are the three bits that the bridge reports and commands. */
  lemma PinsAreBits(state: bv8)
    ensures PinsOf(state) == (IsOn(state, 1), IsOn(state, 2), IsOn(state, 3))
  {
  }

  /** A tick at which the thread would look at the connection status. */
  predicate LooksAtStatus(t: Tick) {
    t.channel.Some? && t.defaults.enabled && t.status.Some?
  }

  lemma {:induction false} StillArmed(enabled: bool, ts: seq<Tick>)
    ensures Run(enabled, ts).status.enabled <==>
      enabled && forall i :: 0 <= i < |ts| && LooksAtStatus(ts[i]) ==> ts[i].status.value.enabled
  {
    if ts != [] {
      var pre, t := ts[..|ts| - 1], ts[|ts| - 1];
      StillArmed(enabled, pre);
      assert ts == pre + [t];
      assert forall i :: 0 <= i < |pre| ==> ts[i] == pre[i];
    }
  }

  /** No status looked at so far carried enabled = false. */
  ghost predicate AllEnabled(ts: seq<Tick>) {
    forall i :: 0 <= i < |ts| && LooksAtStatus(ts[i]) ==> ts[i].status.value.enabled
  }

  /** The last status that was there to be looked at. */
  function LastLook(ts: seq<Tick>): Option<Status> {
    if ts == [] then None
    else if LooksAtStatus(ts[|ts| - 1]) then ts[|ts| - 1].status
    else LastLook(ts[..|ts| - 1])
  }

  predicate Connected(ts: seq<Tick>) {
    LastLook(ts).Some? && LastLook(ts).value.connected
  }

  lemma {:induction false} StatusIsLastLook(ts: seq<Tick>)
    requires AllEnabled(ts)
    ensures Run(true, ts).status == if LastLook(ts).Some? then LastLook(ts).value else Status(true, false)
  {
    if ts != [] {
      var pre, t := ts[..|ts| - 1], ts[|ts| - 1];
      assert ts == pre + [t];
      assert forall i :: 0 <= i < |pre| ==> pre[i] == ts[i];
      StatusIsLastLook(pre);
      StillArmed(true, pre);
    }
  }

  /** What every tick leaves on the pins, from what was read alone: a tick that
      finds the relay channel busy changes nothing; otherwise the pins take the
      default state exactly when the fall-back is enabled in the settings and no
      status looked at before carried enabled = false and the last status looked
      at, a tick without one counting as the one before, says that the broker is
      unreachable; in all other cases they follow the channel. */
  lemma TickOutcome(enabled: bool, ts: seq<Tick>, t: Tick)
    ensures Run(enabled, ts + [t]).pins ==
      if t.channel.None? then Run(enabled, ts).pins
      else if enabled && AllEnabled(ts) && t.defaults.enabled && !Connected(ts + [t]) then
        (t.defaults.relay1, t.defaults.relay2, t.defaults.relay3)
      else PinsOf(t.channel.value)
  {
    assert (ts + [t])[..|ts + [t]| - 1] == ts;
    if t.channel.Some? {
      PinsShowWanted(enabled, ts, t);
      StillArmed(enabled, ts);
      DefaultPins(t.defaults);
      if enabled && AllEnabled(ts) {
        StatusIsLastLook(ts);
      }
    }
  }

  /** While the broker is unreachable the relays take the default state exactly
      when the function is enabled in the settings and no status read before
      carried enabled = false; after one that did, they follow the channel for
      good. The status channel starts out with enabled = false. */
  lemma DefaultStateAppliedIff(enabled: bool, ts: seq<Tick>, t: Tick)
    requires t.channel.Some? && t.status.Some? && !t.status.value.connected && t.defaults.enabled
    ensures Run(enabled, ts + [t]).pins ==
      if enabled && AllEnabled(ts) then (t.defaults.relay1, t.defaults.relay2, t.defaults.relay3)
      else PinsOf(t.channel.value)
  {
    TickOutcome(enabled, ts, t);
  }

  /** While the last status looked at says that the broker is reachable, the pins
      follow the channel. */
  lemma ConnectedFollowsChannel(enabled: bool, ts: seq<Tick>, t: Tick)
    requires t.channel.Some? && Connected(ts + [t])
    ensures Run(enabled, ts + [t]).pins == (IsOn(t.channel.value, 1), IsOn(t.channel.value, 2), IsOn(t.channel.value, 3))
  {
    TickOutcome(enabled, ts, t);
    PinsAreBits(t.channel.value);
  }
}
