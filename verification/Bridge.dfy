/** The bridge end to end: both threads and the queues between them, seen from
    Home Assistant on one side and from the relay pins on the other. */
module Bridge {
  import opened Text
  import opened Topics
  import opened HaTask
  import opened Reports
  import opened Relays
  import opened TxPipe
  import opened Receive
  import Io

  // ---- outbound ----

  /** The events of the Home Assistant thread so far, the queue with the MQTT
      thread, the packets that the MQTT library has accepted but that have not
      arrived yet, and those that have. A pass is recorded when it begins, with
      everything it will read; its messages then enter the queue one at a time,
      each as soon as there is room. */
  datatype System = System(evs: seq<Event>, pipe: Pipe, wire: seq<Packet>, arrived: seq<Packet>)

  const OFF := System([], EMPTY, [], [])

  /** A break of the connection loses what has not arrived: the session is a
      clean one, and the queue has let go of it. */
  datatype Move = Think(ev: Event) | HandOver | Consume(a: Action) | Deliver | Break

  /** The Home Assistant thread waits in k_msgq_put until everything it has
      handed over is in the queue. */
  predicate AllQueued(id: string, s: System) {
    s.pipe.enqueued == Run(id, s.evs).handed
  }

  predicate CanMove(id: string, s: System, m: Move) {
    match m
    case Think(ev) => ev.RestWrite? || AllQueued(id, s)
    case HandOver => |s.pipe.enqueued| < |Run(id, s.evs).handed| && |s.pipe.queue| < QUEUE_SIZE
    case Consume(a) => !a.Put? && Enabled(s.pipe, a)
    case Deliver => s.wire != []
    case Break => true
  }

  /** Acting on the pipe only ever adds packets. */
  function Sent(p: Pipe, a: Action): (ps: seq<Packet>)
    requires Enabled(p, a)
    ensures Act(p, a).published == p.published + ps
  {
    if a.Publish? && a.ok && p.consumer.msg.topic != "" then [Packet(p.consumer.msg, p.consumer.mid)] else []
  }

  function Next(id: string, s: System, m: Move): System
    requires CanMove(id, s, m)
  {
    match m
    case Think(ev) => s.(evs := s.evs + [ev])
    case HandOver => s.(pipe := Act(s.pipe, Put(Run(id, s.evs).handed[|s.pipe.enqueued|])))
    case Consume(a) => s.(pipe := Act(s.pipe, a), wire := s.wire + Sent(s.pipe, a))
    case Deliver => s.(wire := s.wire[1..], arrived := s.arrived + [s.wire[0]])
    case Break => s.(wire := [])
  }

  ghost predicate Feasible(id: string, s: System, ms: seq<Move>)
    decreases |ms|
  {
    ms != [] ==> CanMove(id, s, ms[0]) && Feasible(id, Next(id, s, ms[0]), ms[1..])
  }

  ghost function After(id: string, s: System, ms: seq<Move>): System
    requires Feasible(id, s, ms)
    decreases |ms|
  {
    if ms == [] then s else After(id, Next(id, s, ms[0]), ms[1..])
  }

  /** Nothing that arrives was made up on the way. */
  ghost predicate Sound(id: string, s: System) {
    && Inv(s.pipe) && s.pipe.enqueued <= Run(id, s.evs).handed
    && (forall p :: p in s.wire || p in s.arrived ==> p in s.pipe.published)
  }

  lemma MoveKeeps(id: string, s: System, m: Move)
    requires Sound(id, s) && CanMove(id, s, m)
    ensures Sound(id, Next(id, s, m)) && s.evs <= Next(id, s, m).evs
  {
    match m
    case Think(ev) => ThinkGrows(id, s.evs, ev);
    case HandOver =>
      var h := Run(id, s.evs).handed;
      ActKeeps(s.pipe, Put(h[|s.pipe.enqueued|]));
      PrefixGrows(s.pipe.enqueued, h);
    case Consume(a) => ActKeeps(s.pipe, a);
    case Deliver =>
    case Break =>
  }

  lemma ThinkGrows(id: string, evs: seq<Event>, ev: Event)
    ensures Run(id, evs).handed <= Run(id, evs + [ev]).handed
  {
  }

  lemma PrefixGrows(a: seq<Msg>, h: seq<Msg>)
    requires a <= h && |a| < |h|
    ensures a + [h[|a|]] <= h
  {
  }

  lemma {:induction false} MovesKeep(id: string, s: System, ms: seq<Move>)
    requires Sound(id, s) && Feasible(id, s, ms)
    ensures Sound(id, After(id, s, ms)) && s.evs <= After(id, s, ms).evs
    decreases |ms|
  {
    if ms != [] {
      MoveKeeps(id, s, ms[0]);
      MovesKeep(id, Next(id, s, ms[0]), ms[1..]);
    }
  }

  lemma {:induction false} LastUsable(h: seq<Msg>, topic: string)
    requires topic != ""
    ensures LastFor(Usable(h), topic) == LastFor(h, topic)
  {
    if h != [] {
      var init, m := h[..|h| - 1], h[|h| - 1];
      LastUsable(init, topic);
      if m.topic != "" {
        LastForOneMore(Usable(init), m, topic);
      } else {
        assert Usable(init) + [] == Usable(init);
      }
    }
  }

  /** What Home Assistant shows for an object: the last message that arrived on
      the announced state topic, read through the announced template. */
  function ShownFor(id: string, arrived: seq<Packet>, d: Device): Option<string> {
    var last := LastFor(Messages(arrived), AnnouncedStateTopic(id, d.kind, d.index));
    if last.None? then None else Shown(AnnouncedTemplate(d.kind, d.index), last.value)
  }

  /** The state of an object as the last pass read it. */
  function Snapshot(id: string, s: System, d: Device): string
    requires 1 <= d.index <= 3
  {
    if IsOn(Seen(id, s.evs, d.kind), d.index) then "ON" else "OFF"
  }

  /** The thread has finished a pass and the MQTT thread the whole queue. */
  ghost predicate Settled(id: string, s: System) {
    && HasPass(s.evs) && Uptimes(s.evs)
    && AllQueued(id, s) && s.pipe.queue == [] && s.pipe.consumer.Idle?
  }

  ghost function LastOn(id: string, ps: seq<Packet>, d: Device): Option<string> {
    LastFor(Messages(ps), TopicOf(id, d))
  }

  lemma TopicIsText(id: string, d: Device)
    ensures TopicOf(id, d) != ""
  {
    assert TopicOf(id, d)[0] == 'c';
  }

  /** In a settled system the last packet sent for an object says what the
      snapshot says. */
  lemma LastSentIsSnapshot(id: string, s: System, d: Device)
    requires ValidId(id) && Known(d) && Sound(id, s) && Settled(id, s)
    ensures LastOn(id, s.pipe.published, d) == Some(PayloadOf(d, Seen(id, s.evs, d.kind)))
  {
    LastStatusIsRight(id, s.evs, d);
    TopicIsText(id, d);
    LastUsable(s.pipe.enqueued, TopicOf(id, d));
    assert Messages(s.pipe.published) + [] == Messages(s.pipe.published);
    assert Usable(s.pipe.enqueued) == Messages(s.pipe.published);
  }

  /** What arrived last for an object is one of its two payloads. */
  lemma ArrivedIsGenuine(id: string, s: System, d: Device)
    requires ValidId(id) && Known(d) && Sound(id, s) && LastOn(id, s.arrived, d).Some?
    ensures IsStatusOf(LastOn(id, s.arrived, d).value, d)
  {
    RunIsGenuine(id, s.evs, d);
    assert forall m :: m in s.pipe.enqueued ==> m in Run(id, s.evs).handed;
    UsableIsPart(s.pipe.enqueued);
    var h := Messages(s.arrived);
    forall m | m in h
      ensures m in Run(id, s.evs).handed
    {
      var i :| 0 <= i < |h| && h[i] == m;
      assert s.arrived[i] in s.pipe.published;
      var j :| 0 <= j < |s.pipe.published| && s.pipe.published[j] == s.arrived[i];
      assert Messages(s.pipe.published)[j] == m;
      assert m in Usable(s.pipe.enqueued);
    }
    LastIsGenuine(id, h, d);
  }

  lemma {:induction false} UsableIsPart(ms: seq<Msg>)
    ensures forall m :: m in Usable(ms) ==> m in ms
  {
    if ms != [] {
      UsableIsPart(ms[..|ms| - 1]);
    }
  }

  lemma ShownReads(id: string, arrived: seq<Packet>, d: Device, on: bool)
    requires ValidId(id) && Known(d) && LastOn(id, arrived, d) == Some(StatusPayload(d.kind, d.index, on))
    ensures ShownFor(id, arrived, d) == Some(if on then "ON" else "OFF")
  {
    AnnouncedTopicsAreUsed(id, d.kind, d.index);
    TemplateShowsItsObject(d.kind, d.index, d.kind, d.index, on);
  }

  lemma NothingShown(id: string, arrived: seq<Packet>, d: Device)
    requires ValidId(id) && Known(d) && LastOn(id, arrived, d).None?
    ensures ShownFor(id, arrived, d).None?
  {
    AnnouncedTopicsAreUsed(id, d.kind, d.index);
  }

  /** Whatever the interleaving, the failed publishes, the broken connections and
      the commands and REST writes in between: once the system has settled, Home
      Assistant shows an object as it was in the last pass exactly when the last
      status of it that arrived says the same as the last one that was sent. */
  lemma HomeAssistantIsRightIff(id: string, ms: seq<Move>, s: System, d: Device)
    requires ValidId(id) && Known(d) && Feasible(id, OFF, ms) && s == After(id, OFF, ms) && Settled(id, s)
    ensures ShownFor(id, s.arrived, d) == Some(Snapshot(id, s, d))
       <==> LastOn(id, s.arrived, d) == LastOn(id, s.pipe.published, d)
  {
    EmptyIsFine();
    MovesKeep(id, OFF, ms);
    LastSentIsSnapshot(id, s, d);
    SettledIsRightIff(id, s, d, IsOn(Seen(id, s.evs, d.kind), d.index));
  }

  lemma SettledIsRightIff(id: string, s: System, d: Device, on: bool)
    requires ValidId(id) && Known(d) && Sound(id, s)
    requires LastOn(id, s.pipe.published, d) == Some(StatusPayload(d.kind, d.index, on))
    ensures ShownFor(id, s.arrived, d) == Some(if on then "ON" else "OFF")
       <==> LastOn(id, s.arrived, d) == LastOn(id, s.pipe.published, d)
  {
    if LastOn(id, s.arrived, d).None? {
      NothingShown(id, s.arrived, d);
    } else {
      ArrivedIsGenuine(id, s, d);
      var last := LastOn(id, s.arrived, d).value;
      if last == StatusPayload(d.kind, d.index, on) {
        ShownReads(id, s.arrived, d, on);
      } else {
        ShownReads(id, s.arrived, d, !on);
      }
    }
  }

  // ---- without a break everything arrives ----

  ghost predicate NoBreak(ms: seq<Move>) {
    forall i :: 0 <= i < |ms| ==> !ms[i].Break?
  }

  /** While the connection holds, what has arrived or is on its way grows by
      exactly what is sent. */
  lemma {:induction false} UnbrokenCarriesAll(id: string, s: System, ms: seq<Move>)
    requires Feasible(id, s, ms) && NoBreak(ms)
    ensures var s' := After(id, s, ms);
      && s.pipe.published <= s'.pipe.published
      && s'.arrived + s'.wire == s.arrived + s.wire + s'.pipe.published[|s.pipe.published|..]
    decreases |ms|
  {
    if ms == [] {
      assert s.arrived + s.wire + [] == s.arrived + s.wire;
    } else {
      var s1 := Next(id, s, ms[0]);
      MoveCarries(id, s, ms[0]);
      UnbrokenCarriesAll(id, s1, ms[1..]);
      var s', n, n1 := After(id, s1, ms[1..]), |s.pipe.published|, |s1.pipe.published|;
      assert s'.pipe.published[n..] == s1.pipe.published[n..] + s'.pipe.published[n1..];
      Associative(s.arrived + s.wire, s1.pipe.published[n..], s'.pipe.published[n1..]);
    }
  }

  lemma MoveCarries(id: string, s: System, m: Move)
    requires CanMove(id, s, m) && !m.Break?
    ensures var s' := Next(id, s, m);
      && s.pipe.published <= s'.pipe.published
      && s'.arrived + s'.wire == s.arrived + s.wire + s'.pipe.published[|s.pipe.published|..]
  {
    var s' := Next(id, s, m);
    match m
    case Consume(a) => Associative(s.arrived, s.wire, Sent(s.pipe, a));
    case Deliver =>
      assert [s.wire[0]] + s.wire[1..] == s.wire;
      Associative(s.arrived, [s.wire[0]], s.wire[1..]);
      assert s.arrived + s.wire + [] == s.arrived + s.wire;
    case _ => assert s.arrived + s.wire + [] == s.arrived + s.wire;
  }

  /** While the connection holds: once the system has settled and everything sent
      has arrived, Home Assistant shows all six objects as they were in the last
      pass. */
  lemma HomeAssistantShowsTheSnapshot(id: string, ms: seq<Move>, s: System, d: Device)
    requires ValidId(id) && Known(d) && Feasible(id, OFF, ms) && s == After(id, OFF, ms) && Settled(id, s)
    requires NoBreak(ms) && s.wire == []
    ensures ShownFor(id, s.arrived, d) == Some(Snapshot(id, s, d))
  {
    UnbrokenCarriesAll(id, OFF, ms);
    assert s.arrived + [] == s.arrived && [] + [] + s.pipe.published == s.pipe.published;
    HomeAssistantIsRightIff(id, ms, s, d);
  }

  // ---- recovery after a break ----

  /** The messages since `before` on a topic decide its last one. */
  lemma LastInTail(front: seq<Packet>, tail: seq<Packet>, topic: string)
    requires LastFor(Messages(tail), topic).Some?
    ensures LastFor(Messages(front + tail), topic) == LastFor(Messages(tail), topic)
  {
    assert Messages(front + tail) == Messages(front) + Messages(tail);
    LastForConcat(Messages(front), Messages(tail), topic);
  }

  /** A status handed over since an earlier moment is among the packets sent since
      that moment, once the queue is empty. */
  lemma HandedIsSent(id: string, s1: System, s2: System, topic: string)
    requires Sound(id, s1) && Sound(id, s2) && topic != ""
    requires AllQueued(id, s2) && s2.pipe.queue == [] && s2.pipe.consumer.Idle?
    requires Run(id, s1.evs).handed <= Run(id, s2.evs).handed && s1.pipe.published <= s2.pipe.published
    requires LastFor(Run(id, s2.evs).handed[|Run(id, s1.evs).handed|..], topic).Some?
    ensures LastFor(Messages(s2.pipe.published[|s1.pipe.published|..]), topic).Some?
  {
    var m1, m2 := Messages(s1.pipe.published), Messages(s2.pipe.published);
    assert m2 + [] == m2;
    UsableTail(m1, Usable(Waiting(s1.pipe)), s1.pipe.enqueued, Run(id, s1.evs).handed, Run(id, s2.evs).handed, topic);
    assert m2[|m1|..] == Messages(s2.pipe.published[|s1.pipe.published|..]);
  }

  lemma UsableTail(sent: seq<Msg>, waiting: seq<Msg>, queued: seq<Msg>, h1: seq<Msg>, h2: seq<Msg>, topic: string)
    requires Usable(queued) == sent + waiting && queued <= h1 <= h2
    requires topic != "" && LastFor(h2[|h1|..], topic).Some?
    ensures sent <= Usable(h2) && LastFor(Usable(h2)[|sent|..], topic).Some?
  {
    var late, rest := h1[|queued|..], h2[|h1|..];
    assert h1 == queued + late && h2 == h1 + rest;
    UsableConcat(queued, late);
    UsableConcat(h1, rest);
    LastUsable(rest, topic);
    TailOf(sent, waiting, Usable(late), Usable(rest));
    LastForConcat(waiting + Usable(late), Usable(rest), topic);
  }

  lemma TailOf(a: seq<Msg>, b: seq<Msg>, c: seq<Msg>, d: seq<Msg>)
    ensures a <= a + b + c + d && (a + b + c + d)[|a|..] == b + c + d
  {
  }

  lemma TailArrives(id: string, carried: seq<Packet>, arrived: seq<Packet>, before: seq<Packet>, published: seq<Packet>,
                    d: Device)
    requires before <= published && arrived == carried + published[|before|..]
    requires LastOn(id, published[|before|..], d).Some?
    ensures LastOn(id, arrived, d) == LastOn(id, published, d)
  {
    var tail := published[|before|..];
    assert published == before + tail;
    LastInTail(carried, tail, TopicOf(id, d));
    LastInTail(before, tail, TopicOf(id, d));
  }

  /** Whatever was lost before the moment `s1`: if no break follows, then as soon
      as a pass comes more than 500 seconds after the last one at that moment, and
      everything has settled and arrived, Home Assistant shows all six objects
      right again. */
  lemma HomeAssistantRecovers(id: string, ms: seq<Move>, s1: System, later: seq<Move>, s2: System, d: Device)
    requires ValidId(id) && Known(d) && Feasible(id, OFF, ms) && s1 == After(id, OFF, ms)
    requires Feasible(id, s1, later) && s2 == After(id, s1, later) && NoBreak(later)
    requires Settled(id, s2) && s2.wire == [] && Timed(s1.evs) && Timed(s2.evs)
    requires LastPass(s1.evs).Some? ==>
      LastPass(s2.evs).Some? && LastPass(s2.evs).value > LastPass(s1.evs).value + UPDATE_PERIOD_SEC
    ensures ShownFor(id, s2.arrived, d) == Some(Snapshot(id, s2, d))
  {
    UnbrokenPart(id, ms, s1, later, s2);
    RefreshArrives(id, s1, s2, s2.evs[|s1.evs|..], d);
    RightWhenLastArrived(id, s2, d);
  }

  lemma UnbrokenPart(id: string, ms: seq<Move>, s1: System, later: seq<Move>, s2: System)
    requires Feasible(id, OFF, ms) && s1 == After(id, OFF, ms)
    requires Feasible(id, s1, later) && s2 == After(id, s1, later) && NoBreak(later) && s2.wire == []
    ensures Sound(id, s1) && Sound(id, s2)
    ensures |s1.evs| <= |s2.evs| && s2.evs == s1.evs + s2.evs[|s1.evs|..]
    ensures s1.pipe.published <= s2.pipe.published
    ensures s2.arrived == s1.arrived + s1.wire + s2.pipe.published[|s1.pipe.published|..]
  {
    EmptyIsFine();
    MovesKeep(id, OFF, ms);
    MovesKeep(id, s1, later);
    UnbrokenCarriesAll(id, s1, later);
    assert s2.arrived + [] == s2.arrived;
  }

  lemma RightWhenLastArrived(id: string, s: System, d: Device)
    requires ValidId(id) && Known(d) && Sound(id, s) && Settled(id, s)
    requires LastOn(id, s.arrived, d) == LastOn(id, s.pipe.published, d)
    ensures ShownFor(id, s.arrived, d) == Some(Snapshot(id, s, d))
  {
    LastSentIsSnapshot(id, s, d);
    SettledIsRightIff(id, s, d, IsOn(Seen(id, s.evs, d.kind), d.index));
  }

  lemma RefreshArrives(id: string, s1: System, s2: System, more: seq<Event>, d: Device)
    requires ValidId(id) && Known(d) && Sound(id, s1) && Sound(id, s2) && s2.evs == s1.evs + more
    requires s1.pipe.published <= s2.pipe.published && Timed(s1.evs) && Timed(s1.evs + more)
    requires HasPass(s1.evs + more) && AllQueued(id, s2) && s2.pipe.queue == [] && s2.pipe.consumer.Idle?
    requires LastPass(s1.evs).Some? ==>
      LastPass(s1.evs + more).Some? && LastPass(s1.evs + more).value > LastPass(s1.evs).value + UPDATE_PERIOD_SEC
    requires s2.arrived == s1.arrived + s1.wire + s2.pipe.published[|s1.pipe.published|..]
    ensures LastOn(id, s2.arrived, d) == LastOn(id, s2.pipe.published, d)
  {
    SentAfterwards(id, s1, s2, more, d);
    TailArrives(id, s1.arrived + s1.wire, s2.arrived, s1.pipe.published, s2.pipe.published, d);
  }

  lemma SentAfterwards(id: string, s1: System, s2: System, more: seq<Event>, d: Device)
    requires ValidId(id) && Known(d) && Sound(id, s1) && Sound(id, s2) && s2.evs == s1.evs + more
    requires s1.pipe.published <= s2.pipe.published && Timed(s1.evs) && Timed(s1.evs + more)
    requires HasPass(s1.evs + more) && AllQueued(id, s2) && s2.pipe.queue == [] && s2.pipe.consumer.Idle?
    requires LastPass(s1.evs).Some? ==>
      LastPass(s1.evs + more).Some? && LastPass(s1.evs + more).value > LastPass(s1.evs).value + UPDATE_PERIOD_SEC
    ensures LastOn(id, s2.pipe.published[|s1.pipe.published|..], d).Some?
  {
    RefreshedSince(id, s1.evs, more, d);
    TopicIsText(id, d);
    HandedIsSent(id, s1, s2, TopicOf(id, d));
  }

  // ---- inbound ----

  /** A message on the subscribed topic of a relay, with a state word in front. */
  ghost predicate Commands(id: string, m: Msg, n: nat, on: bool) {
    1 <= n <= 3 && m.topic == CommandTopic(id, n) && exists word :: PayloadForm(m.payload, word, on)
  }

  lemma CommandIsUnderstood(id: string, m: Msg, n: nat, on: bool)
    requires ValidId(id) && Commands(id, m, n, on)
    ensures RelayCommand(Some(m)) == Some(Command(OutputDevice, n, on))
  {
    var word :| PayloadForm(m.payload, word, on);
    CommandRoundTrip(id, Command(OutputDevice, n, on), m.topic, m.payload, word);
  }

  /** A command on a relay's topic sets that relay's pin: after the pass that
      takes it from the queue and a tick of the relay thread that follows the
      channel, the pin shows the commanded state and the two others the last word
      on them. */
  lemma CommandReachesPins(id: string, evs: seq<Event>, e: Env, n: nat, on: bool,
                           enabled: bool, ts: seq<Io.Tick>, t: Io.Tick)
    requires ValidId(id) && e.rx.Some? && Commands(id, e.rx.value, n, on) && e.rest.None?
    requires NothingRaces(evs + [PassEvent(e)])
    requires t.channel == Some(Run(id, evs + [PassEvent(e)]).channel)
    requires !enabled || !Io.AllEnabled(ts) || !t.defaults.enabled || Io.Connected(ts + [t])
    ensures var pins := Io.Run(enabled, ts + [t]).pins;
      && pins.0 == (if n == 1 then on else LastWord(evs, 1) == Some(true))
      && pins.1 == (if n == 2 then on else LastWord(evs, 2) == Some(true))
      && pins.2 == (if n == 3 then on else LastWord(evs, 3) == Some(true))
  {
    var all := evs + [PassEvent(e)];
    assert all[..|all| - 1] == evs;
    CommandIsUnderstood(id, e.rx.value, n, on);
    LastWordDecides(id, all, 1);
    LastWordDecides(id, all, 2);
    LastWordDecides(id, all, 3);
    Io.TickOutcome(enabled, ts, t);
    Io.PinsAreBits(t.channel.value);
  }

  // ---- the receive queue and the passes ----

  /** A publication that the MQTT thread handles, or a step of the Home Assistant
      thread and its surroundings. */
  datatype Inbound = Publication(msg: Msg) | Happens(ev: Event)

  function RxEvents(ms: seq<Inbound>): seq<RxEvent> {
    if ms == [] then [] else
    var m := ms[|ms| - 1];
    RxEvents(ms[..|ms| - 1])
    + if m.Publication? then [Arrive(m.msg)] else if m.ev.PassEvent? then [Take] else []
  }

  function Events(ms: seq<Inbound>): seq<Event> {
    if ms == [] then [] else
    Events(ms[..|ms| - 1]) + if ms[|ms| - 1].Happens? then [ms[|ms| - 1].ev] else []
  }

  function Queue(ms: seq<Inbound>): Rx {
    RxAfter(RxEvents(ms))
  }

  /** Each pass finds the oldest message of the queue, or none. */
  ghost predicate FedFromQueue(ms: seq<Inbound>) {
    ms != [] ==>
      var pre, m := ms[..|ms| - 1], ms[|ms| - 1];
      && FedFromQueue(pre)
      && (m.Happens? && m.ev.PassEvent? ==>
            m.ev.env.rx == if Queue(pre).queue == [] then None else Some(Queue(pre).queue[0]))
  }

  /** The relays that an event writes by REST, between passes or within one. */
  function Written(ev: Event): Option<bv8> {
    if ev.RestWrite? then Some(ev.relays) else if ev.PassEvent? then ev.env.rest else None
  }

  function LastWrite(ms: seq<Inbound>): Option<bv8> {
    if ms == [] then None else
    var m := ms[|ms| - 1];
    if m.Happens? && Written(m.ev).Some? then Written(m.ev) else LastWrite(ms[..|ms| - 1])
  }

  /** How many messages the thread had taken at the last REST write. */
  function TakenAtWrite(ms: seq<Inbound>): nat {
    if ms == [] then 0 else
    var m := ms[|ms| - 1];
    if m.Happens? && Written(m.ev).Some? then |Queue(ms).taken| else TakenAtWrite(ms[..|ms| - 1])
  }

  /** The last command for relay `n` among these messages. */
  function LastCommand(ms: seq<Msg>, n: nat): Option<bool> {
    if ms == [] then None else
    var c := RelayCommand(Some(ms[|ms| - 1]));
    if c.Some? && c.value.number == n then Some(c.value.on) else LastCommand(ms[..|ms| - 1], n)
  }

  /** The last command for the relay among these messages, or else the write. */
  function Decided(ms: seq<Msg>, written: Option<bv8>, n: nat): Option<bool>
    requires 1 <= n <= 3
  {
    if LastCommand(ms, n).Some? then LastCommand(ms, n)
    else if written.Some? then Some(IsOn(written.value, n)) else None
  }

  lemma LastCommandOneMore(ms: seq<Msg>, m: Msg, n: nat)
    ensures var c := RelayCommand(Some(m));
      LastCommand(ms + [m], n) == if c.Some? && c.value.number == n then Some(c.value.on) else LastCommand(ms, n)
  {
    assert (ms + [m])[..|ms|] == ms;
  }

  ghost predicate DecidedByTaken(ms: seq<Inbound>, n: nat)
    requires 1 <= n <= 3
  {
    && TakenAtWrite(ms) <= |Queue(ms).taken|
    && LastWord(Events(ms), n) == Decided(Queue(ms).taken[TakenAtWrite(ms)..], LastWrite(ms), n)
  }

  lemma {:induction false} TakenDecides(ms: seq<Inbound>, n: nat)
    requires FedFromQueue(ms) && 1 <= n <= 3
    ensures DecidedByTaken(ms, n)
  {
    if ms != [] {
      var pre, m := ms[..|ms| - 1], ms[|ms| - 1];
      assert ms == pre + [m];
      TakenDecides(pre, n);
      if m.Publication? {
        assert RxEvents(ms)[..|RxEvents(ms)| - 1] == RxEvents(pre);
        assert Events(ms) == Events(pre);
      } else if m.ev.PassEvent? {
        PassTaken(pre, m.ev.env, n);
      } else {
        assert RxEvents(ms) == RxEvents(pre);
        assert Events(ms)[..|Events(ms)| - 1] == Events(pre);
      }
    }
  }

  lemma PassTaken(pre: seq<Inbound>, e: Env, n: nat)
    requires 1 <= n <= 3 && DecidedByTaken(pre, n)
    requires e.rx == if Queue(pre).queue == [] then None else Some(Queue(pre).queue[0])
    ensures DecidedByTaken(pre + [Happens(PassEvent(e))], n)
  {
    PassRecorded(pre, e);
    LastWordOneMore(Events(pre), e, n);
    var q := Queue(pre);
    TakenGrows(q.taken, TakenAtWrite(pre), q.queue, e.rx, n);
  }

  /** What a pass adds to the records. */
  lemma PassRecorded(pre: seq<Inbound>, e: Env)
    ensures var ms := pre + [Happens(PassEvent(e))];
      && Events(ms) == Events(pre) + [PassEvent(e)]
      && Queue(ms) == NextRx(Queue(pre), Take)
      && LastWrite(ms) == (if e.rest.Some? then e.rest else LastWrite(pre))
      && TakenAtWrite(ms) == if e.rest.Some? then |Queue(ms).taken| else TakenAtWrite(pre)
  {
    var ms := pre + [Happens(PassEvent(e))];
    assert ms[..|ms| - 1] == pre;
    assert RxEvents(ms)[..|RxEvents(ms)| - 1] == RxEvents(pre);
  }

  lemma TakenGrows(taken: seq<Msg>, k: nat, queue: seq<Msg>, rx: Option<Msg>, n: nat)
    requires k <= |taken| && rx == if queue == [] then None else Some(queue[0])
    ensures var c, after := RelayCommand(rx), if queue == [] then taken else taken + [queue[0]];
      && LastCommand(after[|after|..], n) == None
      && LastCommand(after[k..], n) ==
           if c.Some? && c.value.number == n then Some(c.value.on) else LastCommand(taken[k..], n)
  {
    if queue != [] {
      assert (taken + [queue[0]])[k..] == taken[k..] + [queue[0]];
      LastCommandOneMore(taken[k..], queue[0], n);
    }
  }

  /** As long as the thread is never more than a queue's length behind and nothing
      races: once it has caught up, each relay's bit is what the last command for
      it said among the messages that were not yet taken at the last REST write,
      without one what that write said, and off when there was neither. */
  lemma LastArrivedCommandDecides(id: string, ms: seq<Inbound>, n: nat)
    requires FedFromQueue(ms) && NothingRaces(Events(ms)) && 1 <= n <= 3
    requires forall k :: 0 <= k <= |RxEvents(ms)| ==> Backlog(RxEvents(ms)[..k]) <= QUEUE_SIZE
    requires Backlog(RxEvents(ms)) == 0
    ensures TakenAtWrite(ms) <= |Arrivals(RxEvents(ms))|
    ensures IsOn(Run(id, Events(ms)).channel, n)
         == (Decided(Arrivals(RxEvents(ms))[TakenAtWrite(ms)..], LastWrite(ms), n) == Some(true))
  {
    NothingDroppedIff(RxEvents(ms));
    assert Queue(ms).taken + [] == Queue(ms).taken;
    TakenDecides(ms, n);
    LastWordDecides(id, Events(ms), n);
  }
}
