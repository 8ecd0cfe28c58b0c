/** From received commands to the relay channel: who decides a relay's bit over
    whole runs of the Home Assistant thread (src/mqtt/ha_task.c). */
module Relays {
  import opened Text
  import opened Topics
  import opened HaTask
  import opened Reports

  /** What the relay channel should hold: every command and every REST write
      applied to what was there before. */
  function Intended(evs: seq<Event>): bv8 {
    if evs == [] then 0 as bv8 else
    var before, ev := Intended(evs[..|evs| - 1]), evs[|evs| - 1];
    match ev
    case PassEvent(e) => ChannelAfter(before, e.(pubOk := true), before)
    case RestWrite(relays) => relays
    case Announce(_, _) => before
  }

  /** The thread has read the channel since the last REST write. */
  ghost predicate Synced(evs: seq<Event>) {
    evs != [] ==>
      match evs[|evs| - 1]
      case PassEvent(_) => true
      case RestWrite(_) => false
      case Announce(_, _) => Synced(evs[..|evs| - 1])
  }

  /** Publishing and reading succeed, and no command is applied while a REST
      write waits to be read. */
  ghost predicate NothingRaces(evs: seq<Event>) {
    evs != [] ==>
      var pre, ev := evs[..|evs| - 1], evs[|evs| - 1];
      && NothingRaces(pre)
      && (ev.PassEvent? ==>
            && ev.env.pubOk && ev.env.readOk
            && (RelayCommand(ev.env.rx).Some? ==> Synced(pre)))
  }

  lemma {:induction false} ChannelIsIntended(id: string, evs: seq<Event>)
    requires NothingRaces(evs)
    ensures Run(id, evs).channel == Intended(evs)
    ensures Synced(evs) ==> Run(id, evs).task.outputs == Run(id, evs).channel
  {
    if evs != [] {
      ChannelIsIntended(id, evs[..|evs| - 1]);
    }
  }

  /** What a pass with this command and this write of another thread says. */
  function WordOfPass(c: Option<Command>, rest: Option<bv8>, n: nat): Option<bool>
    requires 1 <= n <= 3
  {
    if rest.Some? then Some(IsOn(rest.value, n))
    else if c.Some? && c.value.number == n then Some(c.value.on) else None
  }

  /** The last word on relay `n`: a command for it, or a REST write. */
  function LastWord(evs: seq<Event>, n: nat): Option<bool>
    requires 1 <= n <= 3
  {
    if evs == [] then None else
    var ev := evs[|evs| - 1];
    var word := if ev.RestWrite? then Some(IsOn(ev.relays, n))
                else if ev.PassEvent? then WordOfPass(RelayCommand(ev.env.rx), ev.env.rest, n)
                else None;
    if word.Some? then word else LastWord(evs[..|evs| - 1], n)
  }

  lemma {:induction false} IntendedBits(evs: seq<Event>, n: nat)
    requires 1 <= n <= 3
    ensures IsOn(Intended(evs), n) == (LastWord(evs, n) == Some(true))
  {
    if evs == [] {
      assert forall i: nat :: i < 3 ==> GetBit(0, i) == 0;
    } else {
      var pre, ev := evs[..|evs| - 1], evs[|evs| - 1];
      IntendedBits(pre, n);
      if ev.PassEvent? && RelayCommand(ev.env.rx).Some? {
        var c := RelayCommand(ev.env.rx).value;
        SetRelayBits(Intended(pre), c.number, c.on, n);
      }
    }
  }

  /** After any history of passes, commands and REST writes in which nothing
      races, each relay's bit on the channel is the last word on that relay, and
      off when there was none. */
  lemma LastWordDecides(id: string, evs: seq<Event>, n: nat)
    requires NothingRaces(evs) && 1 <= n <= 3
    ensures IsOn(Run(id, evs).channel, n) == (LastWord(evs, n) == Some(true))
  {
    ChannelIsIntended(id, evs);
    IntendedBits(evs, n);
  }

  // ---- a command that meets unread writes ----

  ghost predicate NoPass(evs: seq<Event>) {
    forall i :: 0 <= i < |evs| ==> !evs[i].PassEvent?
  }

  lemma RunOneMore(id: string, evs: seq<Event>, ev: Event)
    ensures Run(id, evs + [ev]) == Step(id, Run(id, evs), ev)
  {
  }

  /** Writes and announcements leave the thread's variables alone. */
  lemma {:induction false} TaskSince(id: string, evs: seq<Event>, k: nat)
    requires k <= |evs| && NoPass(evs[k..])
    ensures Run(id, evs).task == Run(id, evs[..k]).task
  {
    if k == |evs| {
      assert evs[..k] == evs;
    } else {
      var pre := evs[..|evs| - 1];
      assert pre[..k] == evs[..k] && !evs[k..][|evs| - 1 - k].PassEvent?;
      assert pre[k..] == evs[k..][..|evs| - 1 - k];
      TaskSince(id, pre, k);
    }
  }

  lemma UnreadWrites(id: string, pre: seq<Event>, ws: seq<Event>)
    requires NoPass(ws)
    ensures Run(id, pre + ws).task == Run(id, pre).task
  {
    assert (pre + ws)[|pre|..] == ws && (pre + ws)[..|pre|] == pre;
    TaskSince(id, pre + ws, |pre|);
  }

  /** A command is applied to the bits that the thread holds. */
  lemma RacingPass(id: string, t: Task, channel: bv8, e: Env)
    requires RelayCommand(e.rx).Some? && e.pubOk
    ensures var c := RelayCommand(e.rx).value;
      Pass(id, t, channel, e).channel == if e.rest.Some? then e.rest.value else SetRelay(t.outputs, c.number, c.on)
  {
  }

  lemma LastWordOneMore(evs: seq<Event>, e: Env, n: nat)
    requires 1 <= n <= 3
    ensures var word := WordOfPass(RelayCommand(e.rx), e.rest, n);
      LastWord(evs + [PassEvent(e)], n) == if word.Some? then word else LastWord(evs, n)
  {
    assert (evs + [PassEvent(e)])[..|evs|] == evs;
  }

  /** A race. After any race-free history that the thread has caught up with, let
      any number of REST writes and announcements happen, as they do while the
      link is down and when it comes back, and then a pass that applies a command.
      A relay's bit is the last word on it exactly when the command is for this
      relay, or another write lands behind the command, or the unread writes as a
      whole have not changed the last word on it. */
  lemma RaceKeepsLastWordIff(id: string, pre: seq<Event>, ws: seq<Event>, e: Env, n: nat)
    requires NothingRaces(pre) && Synced(pre) && NoPass(ws)
    requires RelayCommand(e.rx).Some? && e.pubOk && 1 <= n <= 3
    ensures var all := pre + ws + [PassEvent(e)];
      IsOn(Run(id, all).channel, n) == (LastWord(all, n) == Some(true))
      <==> e.rest.Some? || n == RelayCommand(e.rx).value.number
           || (LastWord(pre, n) == Some(true)) == (LastWord(pre + ws, n) == Some(true))
  {
    var c := RelayCommand(e.rx).value;
    ChannelIsIntended(id, pre);
    UnreadWrites(id, pre, ws);
    RunOneMore(id, pre + ws, PassEvent(e));
    RacingPass(id, Run(id, pre).task, Run(id, pre + ws).channel, e);
    LastWordOneMore(pre + ws, e, n);
    SetRelayBits(Intended(pre), c.number, c.on, n);
    IntendedBits(pre, n);
  }

  /** A command whose publication fails is lost, but does no harm: after a pass
      that can read the channel everything is as if it had not come. */
  lemma FailedPublishDropsCommand(id: string, pre: seq<Event>, e: Env)
    requires !e.pubOk && e.readOk
    ensures Run(id, pre + [PassEvent(e)]) == Run(id, pre + [PassEvent(e.(rx := None))])
  {
    RunOneMore(id, pre, PassEvent(e));
    RunOneMore(id, pre, PassEvent(e.(rx := None)));
  }
}
