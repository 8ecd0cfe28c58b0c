/** What the status messages of the Home Assistant thread amount to over whole
    runs: the last one per device is right, and none is ever overdue. */
module Reports {
  import opened Text
  import opened Topics
  import opened HaTask

  // ---- runs of the thread ----

  /** Between passes other threads may write the relay channel, and after a
      reconnect the device announces its six objects again. */
  datatype Event =
    | PassEvent(env: Env)
    | RestWrite(relays: bv8)
    | Announce(device: Device, payload: string)

  datatype State = State(task: Task, channel: bv8, handed: seq<Msg>)

  const START := State(BOOT, 0, [])

  function Step(id: string, s: State, ev: Event): State {
    match ev
    case PassEvent(env) =>
      var r := Pass(id, s.task, s.channel, env);
      State(r.task, r.channel, s.handed + r.msgs)
    case RestWrite(relays) => s.(channel := relays)
    case Announce(d, payload) =>
      s.(handed := s.handed + [Msg(ConfigTopic(id, d.kind, d.index), payload, 1, true)])
  }

  function Run(id: string, evs: seq<Event>): State {
    if evs == [] then START else Step(id, Run(id, evs[..|evs| - 1]), evs[|evs| - 1])
  }

  // ---- the last message on a topic ----

  function LastFor(h: seq<Msg>, topic: string): Option<string> {
    if h == [] then None
    else if h[|h| - 1].topic == topic then Some(h[|h| - 1].payload)
    else LastFor(h[..|h| - 1], topic)
  }

  lemma LastForOneMore(h: seq<Msg>, m: Msg, topic: string)
    ensures LastFor(h + [m], topic) == if m.topic == topic then Some(m.payload) else LastFor(h, topic)
  {
  }

  lemma {:induction false} LastForConcat(a: seq<Msg>, b: seq<Msg>, topic: string)
    ensures LastFor(a + b, topic) == if LastFor(b, topic).Some? then LastFor(b, topic) else LastFor(a, topic)
  {
    if b == [] {
      assert a + b == a;
    } else {
      var init, m := b[..|b| - 1], b[|b| - 1];
      LastForConcat(a, init, topic);
      LastForOneMore(a + init, m, topic);
      assert a + init + [m] == a + b;
    }
  }

  function Count(h: seq<Msg>, topic: string): nat {
    if h == [] then 0 else Count(h[..|h| - 1], topic) + if h[|h| - 1].topic == topic then 1 else 0
  }

  lemma CountOneMore(h: seq<Msg>, m: Msg, topic: string)
    ensures Count(h + [m], topic) == Count(h, topic) + if m.topic == topic then 1 else 0
  {
  }

  ghost predicate Known(d: Device) {
    1 <= d.index <= 3
  }

  function TopicOf(id: string, d: Device): string {
    StatusTopic(id, d.kind, d.index)
  }

  function PayloadOf(d: Device, state: bv8): string
    requires 1 <= d.index <= 3
  {
    StatusPayload(d.kind, d.index, IsOn(state, d.index))
  }

  lemma KnownInTable(d: Device)
    requires Known(d)
    ensures d in Devices()
  {
    assert Devices()[if d.kind.InputSensor? then d.index - 1 else d.index + 2] == d;
  }

  // ---- what one report contains ----

  lemma {:induction false} ChangedLast(id: string, ds: seq<Device>, kind: Kind, prev: bv8, current: bv8, d: Device)
    requires ValidId(id) && Known(d) && forall x :: x in ds ==> 1 <= x.index <= 3
    ensures LastFor(Changed(id, ds, kind, prev, current), TopicOf(id, d)) ==
            if d in ds && Differs(d, kind, prev, current) then Some(PayloadOf(d, current)) else None
  {
    if ds != [] {
      var init, x := ds[..|ds| - 1], ds[|ds| - 1];
      ChangedLast(id, init, kind, prev, current, d);
      assert ds == init + [x];
      if Differs(x, kind, prev, current) {
        LastForOneMore(Changed(id, init, kind, prev, current), StatusMsg(id, x, current), TopicOf(id, d));
        SameTopicSameDevice(id, x, d);
      } else {
        assert Changed(id, ds, kind, prev, current) == Changed(id, init, kind, prev, current);
      }
    }
  }

  lemma SameTopicSameDevice(id: string, x: Device, d: Device)
    requires ValidId(id) && Known(d) && Known(x)
    ensures TopicOf(id, x) == TopicOf(id, d) <==> x == d
  {
    if TopicOf(id, x) == TopicOf(id, d) {
      StatusTopicsDistinct(id, x.kind, x.index, d.kind, d.index);
    }
  }

  lemma ReportLast(id: string, kind: Kind, prev: bv8, current: bv8, d: Device)
    requires ValidId(id) && Known(d)
    ensures LastFor(Report(id, kind, prev, current), TopicOf(id, d)) ==
            if Differs(d, kind, prev, current) then Some(PayloadOf(d, current)) else None
  {
    KnownInTable(d);
    ChangedLast(id, Devices(), kind, prev, current, d);
  }

  lemma {:induction false} ChangedCount(id: string, ds: seq<Device>, kind: Kind, prev: bv8, current: bv8, d: Device)
    requires ValidId(id) && Known(d) && forall x :: x in ds ==> 1 <= x.index <= 3
    requires forall i, j :: 0 <= i < j < |ds| ==> ds[i] != ds[j]
    ensures Count(Changed(id, ds, kind, prev, current), TopicOf(id, d)) ==
            if d in ds && Differs(d, kind, prev, current) then 1 else 0
  {
    if ds != [] {
      var init, x := ds[..|ds| - 1], ds[|ds| - 1];
      ChangedCount(id, init, kind, prev, current, d);
      assert ds == init + [x] && x !in init;
      if Differs(x, kind, prev, current) {
        CountOneMore(Changed(id, init, kind, prev, current), StatusMsg(id, x, current), TopicOf(id, d));
        SameTopicSameDevice(id, x, d);
      } else {
        assert Changed(id, ds, kind, prev, current) == Changed(id, init, kind, prev, current);
      }
    }
  }

  /** The number of devices of the kind whose bit differs. */
  function Differing(kind: Kind, ds: seq<Device>, prev: bv8, current: bv8): nat
    requires forall x :: x in ds ==> 1 <= x.index <= 3
  {
    if ds == [] then 0
    else Differing(kind, ds[..|ds| - 1], prev, current) + if Differs(ds[|ds| - 1], kind, prev, current) then 1 else 0
  }

  lemma {:induction false} ChangedLength(id: string, ds: seq<Device>, kind: Kind, prev: bv8, current: bv8)
    requires forall x :: x in ds ==> 1 <= x.index <= 3
    ensures |Changed(id, ds, kind, prev, current)| == Differing(kind, ds, prev, current)
  {
    if ds != [] {
      ChangedLength(id, ds[..|ds| - 1], kind, prev, current);
    }
  }

  /** A report holds exactly one message per device of the kind whose bit
      differs, none for any other device, and nothing else. */
  lemma ReportIsExact(id: string, kind: Kind, prev: bv8, current: bv8)
    requires ValidId(id)
    ensures forall d :: Known(d) ==>
      Count(Report(id, kind, prev, current), TopicOf(id, d)) == if Differs(d, kind, prev, current) then 1 else 0
    ensures |Report(id, kind, prev, current)| == Differing(kind, Devices(), prev, current)
  {
    var ds := Devices();
    ChangedLength(id, ds, kind, prev, current);
    if prev == current {
      NoneDiffer(kind, ds, current);
    }
    forall d | Known(d)
      ensures Count(Report(id, kind, prev, current), TopicOf(id, d)) == if Differs(d, kind, prev, current) then 1 else 0
    {
      KnownInTable(d);
      ChangedCount(id, ds, kind, prev, current, d);
    }
  }

  lemma {:induction false} NoneDiffer(kind: Kind, ds: seq<Device>, state: bv8)
    requires forall x :: x in ds ==> 1 <= x.index <= 3
    ensures Differing(kind, ds, state, state) == 0
  {
    if ds != [] {
      NoneDiffer(kind, ds[..|ds| - 1], state);
    }
  }

  // ---- the last status is right ----

  function Noted(t: Task, kind: Kind): bv8 {
    if kind.InputSensor? then t.inputsOld else t.outputsOld
  }

  /** The last status handed over for each of the six devices says ON exactly
      when its bit in the noted state is 1. */
  ghost predicate Tracks(id: string, t: Task, h: seq<Msg>) {
    forall d :: Known(d) ==> LastFor(h, TopicOf(id, d)) == Some(PayloadOf(d, Noted(t, d.kind)))
  }

  ghost predicate TracksOne(id: string, h: seq<Msg>, d: Device, state: bv8)
    requires Known(d)
  {
    LastFor(h, TopicOf(id, d)) == Some(PayloadOf(d, state))
  }

  /** A report brings the last status of its own kind up to date. */
  lemma ReportUpdates(id: string, h: seq<Msg>, kind: Kind, now: u32, next: u32, prev: bv8, current: bv8, d: Device)
    requires ValidId(id) && Known(d) && d.kind == kind
    requires now > next || TracksOne(id, h, d, prev)
    ensures TracksOne(id, h + Report(id, kind, Remembered(now, next, prev, current), current), d, current)
  {
    var remembered := Remembered(now, next, prev, current);
    LastForConcat(h, Report(id, kind, remembered, current), TopicOf(id, d));
    ReportLast(id, kind, remembered, current, d);
    ComplementDiffers(current, d.index - 1);
    BitIsZeroOrOne(current, d.index - 1);
    BitIsZeroOrOne(prev, d.index - 1);
  }

  /** A report of the other kind leaves it alone. */
  lemma ReportLeaves(id: string, h: seq<Msg>, kind: Kind, prev: bv8, current: bv8, d: Device)
    requires ValidId(id) && Known(d) && d.kind != kind
    ensures LastFor(h + Report(id, kind, prev, current), TopicOf(id, d)) == LastFor(h, TopicOf(id, d))
  {
    LastForConcat(h, Report(id, kind, prev, current), TopicOf(id, d));
    ReportLast(id, kind, prev, current, d);
  }

  lemma PassTracks(id: string, t: Task, channel: bv8, e: Env, h: seq<Msg>)
    requires ValidId(id)
    requires Tracks(id, t, h) || (e.now > t.nextInput && e.now > t.nextOutput)
    ensures var r := Pass(id, t, channel, e); Tracks(id, r.task, h + r.msgs)
  {
    var r := Pass(id, t, channel, e);
    var (t1, msgs1) := InputStage(id, t, e.now, e.inputs);
    var before, now := t1.(outputs := CommandStage(t1.outputs, channel, e.rx, e.pubOk).0), e.now;
    var read := if e.readOk then Some(r.channel) else None;
    var msgs3 := OutputStage(id, before, now, read).1;
    Associative(h, msgs1, msgs3);
    forall d | Known(d)
      ensures LastFor(h + r.msgs, TopicOf(id, d)) == Some(PayloadOf(d, Noted(r.task, d.kind)))
    {
      assert Tracks(id, t, h) ==> TracksOne(id, h, d, Noted(t, d.kind));
      if d.kind.InputSensor? {
        ReportUpdates(id, h, InputSensor, now, t.nextInput, t.inputsOld, t1.inputs, d);
        ReportLeaves(id, h + msgs1, OutputDevice, Remembered(now, t.nextOutput, t.outputsOld, r.task.outputs), r.task.outputs, d);
      } else {
        ReportLeaves(id, h, InputSensor, Remembered(now, t.nextInput, t.inputsOld, t1.inputs), t1.inputs, d);
        ReportUpdates(id, h + msgs1, OutputDevice, now, t.nextOutput, t.outputsOld, r.task.outputs, d);
      }
    }
  }

  ghost predicate HasPass(evs: seq<Event>) {
    exists i :: 0 <= i < |evs| && evs[i].PassEvent?
  }

  /** The thread has slept before its first pass, so the uptime is not zero. */
  ghost predicate Uptimes(evs: seq<Event>) {
    forall i :: 0 <= i < |evs| && evs[i].PassEvent? ==> evs[i].env.now > 0
  }

  lemma AnnounceTracks(id: string, s: State, ev: Event)
    requires ev.Announce? && Tracks(id, s.task, s.handed)
    ensures Tracks(id, Step(id, s, ev).task, Step(id, s, ev).handed)
  {
    var m := Msg(ConfigTopic(id, ev.device.kind, ev.device.index), ev.payload, 1, true);
    forall d | Known(d)
      ensures LastFor(s.handed + [m], TopicOf(id, d)) == LastFor(s.handed, TopicOf(id, d))
    {
      ConfigIsNotStatus(id, ev.device.kind, ev.device.index, d.kind, d.index);
      LastForOneMore(s.handed, m, TopicOf(id, d));
    }
  }

  lemma {:induction false} AlwaysTracks(id: string, evs: seq<Event>)
    requires ValidId(id) && Uptimes(evs)
    ensures var s := Run(id, evs);
      HasPass(evs) ==> Tracks(id, s.task, s.handed) && s.task.inputsOld == s.task.inputs && s.task.outputsOld == s.task.outputs
    ensures !HasPass(evs) ==> Run(id, evs).task == BOOT
  {
    if evs != [] {
      var pre, ev := evs[..|evs| - 1], evs[|evs| - 1];
      AlwaysTracks(id, pre);
      assert evs == pre + [ev];
      assert HasPass(pre) ==> HasPass(evs);
      assert !ev.PassEvent? && HasPass(evs) ==> HasPass(pre);
      var s := Run(id, pre);
      match ev
      case PassEvent(env) =>
        assert evs[|evs| - 1].PassEvent? && env.now > 0;
        PassTracks(id, s.task, s.channel, env, s.handed);
      case RestWrite(_) =>
      case Announce(_, _) =>
        if HasPass(pre) { AnnounceTracks(id, s, ev); }
    }
  }

  /** What the inputs channel said when it could last be read. */
  function LastInputs(evs: seq<Event>): bv8 {
    if evs == [] then 0 as bv8
    else if evs[|evs| - 1].PassEvent? && evs[|evs| - 1].env.inputs.Some? then evs[|evs| - 1].env.inputs.value
    else LastInputs(evs[..|evs| - 1])
  }

  /** What the relay channel said when it could last be read, with the commands
      that the thread has applied since. */
  function RelaysSeen(id: string, evs: seq<Event>): bv8 {
    if evs == [] then 0 as bv8 else
    var pre, ev := evs[..|evs| - 1], evs[|evs| - 1];
    if !ev.PassEvent? then RelaysSeen(id, pre)
    else if ev.env.readOk then Run(id, evs).channel
    else
      var c := RelayCommand(ev.env.rx);
      if c.Some? then SetRelay(RelaysSeen(id, pre), c.value.number, c.value.on) else RelaysSeen(id, pre)
  }

  function Seen(id: string, evs: seq<Event>, kind: Kind): bv8 {
    if kind.InputSensor? then LastInputs(evs) else RelaysSeen(id, evs)
  }

  /** The thread's variables are what was read. */
  lemma {:induction false} SnapshotIsRead(id: string, evs: seq<Event>)
    ensures Run(id, evs).task.inputs == LastInputs(evs)
    ensures Run(id, evs).task.outputs == RelaysSeen(id, evs)
  {
    if evs != [] {
      SnapshotIsRead(id, evs[..|evs| - 1]);
    }
  }

  /** In every run, across reconnects and races and whatever is read, received or
      written by others: from the first pass on, the last status of each input
      says what the inputs channel said when last read, and that of each relay
      what the relay channel said when last read, which is its present content
      right after a pass that could read it. */
  lemma LastStatusIsRight(id: string, evs: seq<Event>, d: Device)
    requires ValidId(id) && Uptimes(evs) && HasPass(evs) && Known(d)
    ensures LastFor(Run(id, evs).handed, TopicOf(id, d)) == Some(PayloadOf(d, Seen(id, evs, d.kind)))
    ensures d.kind.OutputDevice? && evs[|evs| - 1].PassEvent? && evs[|evs| - 1].env.readOk ==>
      LastFor(Run(id, evs).handed, TopicOf(id, d)) == Some(PayloadOf(d, Run(id, evs).channel))
  {
    AlwaysTracks(id, evs);
    SnapshotIsRead(id, evs);
    TrackedIs(id, Run(id, evs), d);
  }

  lemma TrackedIs(id: string, s: State, d: Device)
    requires Known(d) && Tracks(id, s.task, s.handed)
    requires s.task.inputsOld == s.task.inputs && s.task.outputsOld == s.task.outputs
    ensures LastFor(s.handed, TopicOf(id, d)) ==
            Some(PayloadOf(d, if d.kind.InputSensor? then s.task.inputs else s.task.outputs))
  {
  }

  /** The statuses of the devices of one kind, in the order of the table. */
  function Statuses(id: string, ds: seq<Device>, kind: Kind, state: bv8): seq<Msg>
    requires forall d :: d in ds ==> 1 <= d.index <= 3
  {
    if ds == [] then [] else
    var d := ds[|ds| - 1];
    if d.kind == kind then Statuses(id, ds[..|ds| - 1], kind, state) + [StatusMsg(id, d, state)]
    else Statuses(id, ds[..|ds| - 1], kind, state)
  }

  lemma {:induction false} RefreshInOrder(id: string, ds: seq<Device>, kind: Kind, state: bv8)
    requires forall d :: d in ds ==> 1 <= d.index <= 3
    ensures Changed(id, ds, kind, !state, state) == Statuses(id, ds, kind, state)
  {
    if ds != [] {
      RefreshInOrder(id, ds[..|ds| - 1], kind, state);
      ComplementDiffers(state, ds[|ds| - 1].index - 1);
    }
  }

  lemma RefreshReport(id: string, kind: Kind, state: bv8)
    ensures Report(id, kind, !state, state) == Statuses(id, Devices(), kind, state)
  {
    RefreshInOrder(id, Devices(), kind, state);
    NotItsComplement(state);
  }

  lemma NotItsComplement(x: bv8)
    ensures x != !x
  {
  }

  lemma FirstReports(id: string, channel: bv8, e: Env)
    requires e.now > 0
    ensures var r := Pass(id, BOOT, channel, e);
      r.msgs == Report(id, InputSensor, !r.task.inputs, r.task.inputs)
              + Report(id, OutputDevice, !r.task.outputs, r.task.outputs)
  {
  }

  /** The thread's first pass sends all six statuses, inputs first, in the order
      of the table. */
  lemma FirstPassSendsAll(id: string, channel: bv8, e: Env, r: Result)
    requires e.now > 0 && r == Pass(id, BOOT, channel, e)
    ensures r.msgs == Statuses(id, Devices(), InputSensor, r.task.inputs)
                    + Statuses(id, Devices(), OutputDevice, r.task.outputs)
  {
    FirstReports(id, channel, e);
    RefreshReport(id, InputSensor, r.task.inputs);
    RefreshReport(id, OutputDevice, r.task.outputs);
  }

  // ---- how messages are sent ----

  /** Statuses are sent at QoS 1 and not retained, announcements at QoS 1 and
      retained, and nothing else is sent. */
  ghost predicate SentAs(id: string, m: Msg) {
    && m.qos == 1
    && if m.retain then exists d: Device :: m.topic == ConfigTopic(id, d.kind, d.index)
       else exists d: Device :: Known(d) && m.topic == TopicOf(id, d) && IsStatusOf(m.payload, d)
  }

  lemma {:induction false} ChangedSentAs(id: string, ds: seq<Device>, kind: Kind, prev: bv8, current: bv8)
    requires forall x :: x in ds ==> 1 <= x.index <= 3
    ensures forall m :: m in Changed(id, ds, kind, prev, current) ==> SentAs(id, m)
  {
    if ds != [] {
      ChangedSentAs(id, ds[..|ds| - 1], kind, prev, current);
      var d := ds[|ds| - 1];
      var m := StatusMsg(id, d, current);
      assert Known(d) && m.topic == TopicOf(id, d) && IsStatusOf(m.payload, d);
      assert SentAs(id, m);
    }
  }

  lemma {:induction false} AllSentAs(id: string, evs: seq<Event>)
    ensures forall m :: m in Run(id, evs).handed ==> SentAs(id, m)
  {
    if evs != [] {
      var pre, ev := evs[..|evs| - 1], evs[|evs| - 1];
      AllSentAs(id, pre);
      match ev
      case PassEvent(e) => PassSentAs(id, Run(id, pre), e);
      case RestWrite(_) =>
      case Announce(d, payload) =>
        assert SentAs(id, Msg(ConfigTopic(id, d.kind, d.index), payload, 1, true));
    }
  }

  lemma PassSentAs(id: string, s: State, e: Env)
    ensures forall m :: m in Pass(id, s.task, s.channel, e).msgs ==> SentAs(id, m)
  {
    var r := Pass(id, s.task, s.channel, e);
    var prev1 := Remembered(e.now, s.task.nextInput, s.task.inputsOld, r.task.inputs);
    var prev3 := Remembered(e.now, s.task.nextOutput, s.task.outputsOld, r.task.outputs);
    ChangedSentAs(id, Devices(), InputSensor, prev1, r.task.inputs);
    ChangedSentAs(id, Devices(), OutputDevice, prev3, r.task.outputs);
    assert r.msgs == Report(id, InputSensor, prev1, r.task.inputs) + Report(id, OutputDevice, prev3, r.task.outputs);
  }

  // ---- a pass without a refresh ----

  lemma {:induction false} CountConcat(a: seq<Msg>, b: seq<Msg>, topic: string)
    ensures Count(a + b, topic) == Count(a, topic) + Count(b, topic)
  {
    if b == [] {
      assert a + b == a;
    } else {
      var init, m := b[..|b| - 1], b[|b| - 1];
      CountConcat(a, init, topic);
      CountOneMore(a + init, m, topic);
      assert a + init + [m] == a + b;
    }
  }

  /** While no timer has run out, a pass hands over exactly one message for each
      device whose bit changed since it was last noted, and nothing else. */
  lemma QuietPassReportsChanges(id: string, t: Task, channel: bv8, e: Env)
    requires ValidId(id) && e.now <= t.nextInput && e.now <= t.nextOutput
    ensures var r := Pass(id, t, channel, e);
      && (forall d :: Known(d) ==>
            (Count(r.msgs, TopicOf(id, d)) ==
              if Differs(d, d.kind, Noted(t, d.kind), Noted(r.task, d.kind)) then 1 else 0))
      && |r.msgs| == Differing(InputSensor, Devices(), t.inputsOld, r.task.inputsOld)
                   + Differing(OutputDevice, Devices(), t.outputsOld, r.task.outputsOld)
  {
    var r := Pass(id, t, channel, e);
    var msgs1 := Report(id, InputSensor, t.inputsOld, r.task.inputsOld);
    var msgs3 := Report(id, OutputDevice, t.outputsOld, r.task.outputsOld);
    assert r.msgs == msgs1 + msgs3;
    ReportIsExact(id, InputSensor, t.inputsOld, r.task.inputsOld);
    ReportIsExact(id, OutputDevice, t.outputsOld, r.task.outputsOld);
    forall d | Known(d)
      ensures Count(r.msgs, TopicOf(id, d)) ==
              if Differs(d, d.kind, Noted(t, d.kind), Noted(r.task, d.kind)) then 1 else 0
    {
      CountConcat(msgs1, msgs3, TopicOf(id, d));
    }
  }

  // ---- no status expires ----

  /** Whether this event hands over a status of this device. */
  ghost predicate Sends(id: string, s: State, ev: Event, d: Device) {
    ev.PassEvent? && LastFor(Pass(id, s.task, s.channel, ev.env).msgs, TopicOf(id, d)).Some?
  }

  ghost function LastSent(id: string, evs: seq<Event>, d: Device): Option<nat> {
    if evs == [] then None else
    var pre, ev := evs[..|evs| - 1], evs[|evs| - 1];
    if Sends(id, Run(id, pre), ev, d) then Some(ev.env.now) else LastSent(id, pre, d)
  }

  ghost function LastPass(evs: seq<Event>): Option<nat> {
    if evs == [] then None
    else if evs[|evs| - 1].PassEvent? then Some(evs[|evs| - 1].env.now)
    else LastPass(evs[..|evs| - 1])
  }

  /** The uptime of the passes does not step back and does not wrap. */
  ghost predicate Timed(evs: seq<Event>) {
    evs != [] ==>
      var pre, ev := evs[..|evs| - 1], evs[|evs| - 1];
      && Timed(pre)
      && (ev.PassEvent? ==>
            && 0 < ev.env.now && ev.env.now + UPDATE_PERIOD_SEC < U32
            && (LastPass(pre).Some? ==> LastPass(pre).value <= ev.env.now))
  }

  /** Passes also follow each other within 100 seconds. */
  ghost predicate Paced(evs: seq<Event>) {
    evs != [] ==>
      var pre, ev := evs[..|evs| - 1], evs[|evs| - 1];
      && Paced(pre)
      && (ev.PassEvent? && LastPass(pre).Some? ==> ev.env.now <= LastPass(pre).value + 100)
  }

  function Timer(t: Task, kind: Kind): u32 {
    if kind.InputSensor? then t.nextInput else t.nextOutput
  }

  /** A timer that has run out makes the pass send every device of its kind. */
  lemma RefreshSends(id: string, s: State, e: Env, d: Device)
    requires ValidId(id) && Known(d) && e.now > Timer(s.task, d.kind)
    ensures Sends(id, s, PassEvent(e), d)
  {
    var r := Pass(id, s.task, s.channel, e);
    var msgs1 := Report(id, InputSensor, Remembered(e.now, s.task.nextInput, s.task.inputsOld, r.task.inputs), r.task.inputs);
    var msgs3 := Report(id, OutputDevice, Remembered(e.now, s.task.nextOutput, s.task.outputsOld, r.task.outputs), r.task.outputs);
    assert r.msgs == msgs1 + msgs3;
    LastForConcat(msgs1, msgs3, TopicOf(id, d));
    var current := if d.kind.InputSensor? then r.task.inputs else r.task.outputs;
    ComplementDiffers(current, d.index - 1);
    ReportLast(id, d.kind, !current, current, d);
  }

  /** What one event does to the three quantities. */
  lemma EventTimes(id: string, pre: seq<Event>, ev: Event, d: Device)
    ensures var evs, s := pre + [ev], Run(id, pre);
      && LastPass(evs) == (if ev.PassEvent? then Some(ev.env.now) else LastPass(pre))
      && LastSent(id, evs, d) == (if Sends(id, s, ev, d) then Some(ev.env.now) else LastSent(id, pre, d))
      && Timer(Run(id, evs).task, d.kind) ==
           if ev.PassEvent? then NextUpdate(ev.env.now, Timer(s.task, d.kind)) else Timer(s.task, d.kind)
  {
  }

  /** Last status, last pass and timer of one device, kept within bounds. */
  ghost predicate InTime(sent: Option<nat>, pass: Option<nat>, timer: nat) {
    if pass.None? then sent.None? && timer == 0
    else sent.Some? && timer <= sent.value + UPDATE_PERIOD_SEC && sent.value <= pass.value <= timer
  }

  lemma PassKeepsTime(sent: Option<nat>, pass: Option<nat>, timer: u32, sends: bool, now: u32)
    requires InTime(sent, pass, timer) && 0 < now && now + UPDATE_PERIOD_SEC < U32
    requires pass.Some? ==> pass.value <= now
    requires now > timer ==> sends
    ensures InTime(if sends then Some(now) else sent, Some(now), NextUpdate(now, timer))
  {
  }

  ghost predicate DeviceInTime(id: string, evs: seq<Event>, d: Device) {
    InTime(LastSent(id, evs, d), LastPass(evs), Timer(Run(id, evs).task, d.kind))
  }

  lemma {:induction false} TimersHold(id: string, evs: seq<Event>, d: Device)
    requires ValidId(id) && Known(d) && Timed(evs)
    ensures DeviceInTime(id, evs, d)
  {
    if evs != [] {
      var pre, ev := evs[..|evs| - 1], evs[|evs| - 1];
      assert evs == pre + [ev];
      TimersHold(id, pre, d);
      EventTimes(id, pre, ev, d);
      if ev.PassEvent? {
        var s := Run(id, pre);
        PassInTime(id, s, ev.env, d);
        PassKeepsTime(LastSent(id, pre, d), LastPass(pre), Timer(s.task, d.kind), Sends(id, s, ev, d), ev.env.now);
      }
    }
  }

  lemma PassInTime(id: string, s: State, e: Env, d: Device)
    requires ValidId(id) && Known(d)
    ensures e.now > Timer(s.task, d.kind) ==> Sends(id, s, PassEvent(e), d)
  {
    if e.now > Timer(s.task, d.kind) {
      RefreshSends(id, s, e, d);
    }
  }

  /** While passes are at most 100 seconds apart, a device's last status is never
      older than 500 seconds at the end of a pass, and the next one follows it
      within the announced 600 seconds. */
  lemma StatusNeverExpires(id: string, evs: seq<Event>, e: Env, d: Device)
    requires ValidId(id) && Known(d) && Timed(evs + [PassEvent(e)]) && Paced(evs + [PassEvent(e)])
    ensures LastSent(id, evs + [PassEvent(e)], d).Some?
    ensures e.now <= LastSent(id, evs + [PassEvent(e)], d).value + UPDATE_PERIOD_SEC
    ensures LastSent(id, evs, d).Some? && Sends(id, Run(id, evs), PassEvent(e), d)
            ==> e.now <= LastSent(id, evs, d).value + EXPIRE_AFTER_SEC
  {
    var all := evs + [PassEvent(e)];
    assert all[..|all| - 1] == evs;
    TimersHold(id, evs, d);
    TimersHold(id, all, d);
    EventTimes(id, evs, PassEvent(e), d);
  }

  /** A status that is sent although the device has not changed. */
  ghost predicate Refreshes(id: string, s: State, e: Env, d: Device)
    requires Known(d)
  {
    && Sends(id, s, PassEvent(e), d)
    && !Differs(d, d.kind, Noted(s.task, d.kind), Noted(Step(id, s, PassEvent(e)).task, d.kind))
  }

  lemma QuietPassSendsChanges(id: string, s: State, e: Env, d: Device)
    requires ValidId(id) && Known(d) && e.now <= Timer(s.task, d.kind)
    ensures !Refreshes(id, s, e, d)
  {
    var r := Pass(id, s.task, s.channel, e);
    var prev1 := Remembered(e.now, s.task.nextInput, s.task.inputsOld, r.task.inputs);
    var prev3 := Remembered(e.now, s.task.nextOutput, s.task.outputsOld, r.task.outputs);
    var msgs1 := Report(id, InputSensor, prev1, r.task.inputs);
    var msgs3 := Report(id, OutputDevice, prev3, r.task.outputs);
    assert r.msgs == msgs1 + msgs3;
    LastForConcat(msgs1, msgs3, TopicOf(id, d));
    ReportLast(id, InputSensor, prev1, r.task.inputs, d);
    ReportLast(id, OutputDevice, prev3, r.task.outputs, d);
  }

  /** A refresh sets the timer 500 seconds ahead, in 32 bits. */
  lemma RefreshSetsTimer(id: string, s: State, e: Env, d: Device)
    requires ValidId(id) && Known(d) && Refreshes(id, s, e, d)
    ensures Timer(Step(id, s, PassEvent(e)).task, d.kind) ==
            if e.now < U32 - UPDATE_PERIOD_SEC then e.now + UPDATE_PERIOD_SEC else e.now + UPDATE_PERIOD_SEC - U32
  {
    PassTimer(id, s, e, d.kind);
    if e.now <= Timer(s.task, d.kind) {
      QuietPassSendsChanges(id, s, e, d);
    } else {
      TimerWraps(e.now, Timer(s.task, d.kind));
    }
  }

  lemma PassTimer(id: string, s: State, e: Env, kind: Kind)
    ensures Timer(Step(id, s, PassEvent(e)).task, kind) == NextUpdate(e.now, Timer(s.task, kind))
  {
  }

  lemma TimerWraps(now: u32, next: u32)
    requires now > next
    ensures NextUpdate(now, next) ==
            if now < U32 - UPDATE_PERIOD_SEC then now + UPDATE_PERIOD_SEC else now + UPDATE_PERIOD_SEC - U32
  {
  }

  /** A timer stays until a pass comes later than it says. */
  lemma {:induction false} TimerStays(id: string, a: seq<Event>, mid: seq<Event>, kind: Kind, due: nat)
    requires Timed(a + mid) && Timer(Run(id, a).task, kind) == due
    ensures Timer(Run(id, a + mid).task, kind) == due
            || (LastPass(a + mid).Some? && LastPass(a + mid).value > due)
  {
    if mid == [] {
      assert a + mid == a;
    } else {
      var init, ev := mid[..|mid| - 1], mid[|mid| - 1];
      assert (a + mid)[..|a + mid| - 1] == a + init;
      TimerStays(id, a, init, kind, due);
    }
  }

  /** No status is repeated early: between two statuses of a device that has not
      changed lie more than 500 seconds. */
  lemma RefreshesAreSpaced(id: string, pre: seq<Event>, e1: Env, mid: seq<Event>, e2: Env, d: Device)
    requires ValidId(id) && Known(d) && Timed(pre + [PassEvent(e1)] + mid + [PassEvent(e2)])
    requires e1.now + UPDATE_PERIOD_SEC < U32
    requires Refreshes(id, Run(id, pre), e1, d)
    requires Refreshes(id, Run(id, pre + [PassEvent(e1)] + mid), e2, d)
    ensures e2.now > e1.now + UPDATE_PERIOD_SEC
  {
    var a := pre + [PassEvent(e1)];
    var b := a + mid;
    assert (b + [PassEvent(e2)])[..|b|] == b && a[..|pre|] == pre;
    RefreshSetsTimer(id, Run(id, pre), e1, d);
    TimerStays(id, a, mid, d.kind, e1.now + UPDATE_PERIOD_SEC);
    if e2.now <= Timer(Run(id, b).task, d.kind) {
      QuietPassSendsChanges(id, Run(id, b), e2, d);
    }
  }

  /** A status sent after the last pass of `a` is among the messages handed over
      since. */
  lemma {:induction false} SentSince(id: string, a: seq<Event>, more: seq<Event>, d: Device)
    requires ValidId(id) && Known(d) && Timed(a + more) && Timed(a)
    requires LastSent(id, a + more, d).Some?
    requires LastPass(a).Some? ==> LastSent(id, a + more, d).value > LastPass(a).value
    ensures Run(id, a).handed <= Run(id, a + more).handed
    ensures LastFor(Run(id, a + more).handed[|Run(id, a).handed|..], TopicOf(id, d)).Some?
  {
    if more == [] {
      assert a + more == a;
      TimersHold(id, a, d);
    } else {
      var init, ev := more[..|more| - 1], more[|more| - 1];
      assert (a + more)[..|a + more| - 1] == a + init;
      var sends := Sends(id, Run(id, a + init), ev, d);
      if sends {
        HandedGrows(id, a, init);
      } else {
        SentSince(id, a, init, d);
      }
      StepExtends(id, Run(id, a).handed, Run(id, a + init), ev, TopicOf(id, d));
    }
  }

  lemma {:induction false} HandedGrows(id: string, a: seq<Event>, more: seq<Event>)
    ensures Run(id, a).handed <= Run(id, a + more).handed
  {
    if more == [] {
      assert a + more == a;
    } else {
      assert (a + more)[..|a + more| - 1] == a + more[..|more| - 1];
      HandedGrows(id, a, more[..|more| - 1]);
    }
  }

  /** What one event adds to the messages since `before`. */
  lemma StepExtends(id: string, before: seq<Msg>, s: State, ev: Event, topic: string)
    requires before <= s.handed
    ensures before <= Step(id, s, ev).handed
    ensures LastFor(s.handed[|before|..], topic).Some?
            || (ev.PassEvent? && LastFor(Pass(id, s.task, s.channel, ev.env).msgs, topic).Some?)
            ==> LastFor(Step(id, s, ev).handed[|before|..], topic).Some?
  {
    var after := Step(id, s, ev).handed;
    var added := after[|s.handed|..];
    assert after[|before|..] == s.handed[|before|..] + added;
    LastForConcat(s.handed[|before|..], added, topic);
    if ev.PassEvent? {
      assert added == Pass(id, s.task, s.channel, ev.env).msgs;
    }
  }

  lemma {:induction false} PassIsLast(evs: seq<Event>)
    ensures HasPass(evs) ==> LastPass(evs).Some?
  {
    if evs != [] && !evs[|evs| - 1].PassEvent? {
      PassIsLast(evs[..|evs| - 1]);
      assert HasPass(evs) ==> HasPass(evs[..|evs| - 1]);
    }
  }

  /** More than 500 seconds of passes after `a`, every device has been reported
      again. */
  lemma RefreshedSince(id: string, a: seq<Event>, more: seq<Event>, d: Device)
    requires ValidId(id) && Known(d) && Timed(a) && Timed(a + more) && HasPass(a + more)
    requires LastPass(a).Some? ==>
      LastPass(a + more).Some? && LastPass(a + more).value > LastPass(a).value + UPDATE_PERIOD_SEC
    ensures Run(id, a).handed <= Run(id, a + more).handed
    ensures LastFor(Run(id, a + more).handed[|Run(id, a).handed|..], TopicOf(id, d)).Some?
  {
    PassIsLast(a + more);
    TimersHold(id, a + more, d);
    SentSince(id, a, more, d);
  }

  // ---- only statuses go to status topics ----

  ghost predicate Genuine(id: string, h: seq<Msg>, d: Device) {
    forall m :: m in h && m.topic == TopicOf(id, d) ==> IsStatusOf(m.payload, d)
  }

  ghost predicate IsStatusOf(payload: string, d: Device) {
    payload == StatusPayload(d.kind, d.index, true) || payload == StatusPayload(d.kind, d.index, false)
  }

  lemma {:induction false} ChangedIsGenuine(id: string, ds: seq<Device>, kind: Kind, prev: bv8, current: bv8, d: Device)
    requires ValidId(id) && Known(d) && forall x :: x in ds ==> 1 <= x.index <= 3
    ensures Genuine(id, Changed(id, ds, kind, prev, current), d)
  {
    if ds != [] {
      ChangedIsGenuine(id, ds[..|ds| - 1], kind, prev, current, d);
      SameTopicSameDevice(id, ds[|ds| - 1], d);
    }
  }

  lemma {:induction false} RunIsGenuine(id: string, evs: seq<Event>, d: Device)
    requires ValidId(id) && Known(d)
    ensures Genuine(id, Run(id, evs).handed, d)
  {
    if evs != [] {
      var pre, ev := evs[..|evs| - 1], evs[|evs| - 1];
      RunIsGenuine(id, pre, d);
      match ev
      case PassEvent(e) => PassIsGenuine(id, Run(id, pre), e, d);
      case RestWrite(_) =>
      case Announce(x, _) => ConfigIsNotStatus(id, x.kind, x.index, d.kind, d.index);
    }
  }

  lemma PassIsGenuine(id: string, s: State, e: Env, d: Device)
    requires ValidId(id) && Known(d)
    ensures Genuine(id, Pass(id, s.task, s.channel, e).msgs, d)
  {
    var r := Pass(id, s.task, s.channel, e);
    var prev1 := Remembered(e.now, s.task.nextInput, s.task.inputsOld, r.task.inputs);
    var prev3 := Remembered(e.now, s.task.nextOutput, s.task.outputsOld, r.task.outputs);
    ChangedIsGenuine(id, Devices(), InputSensor, prev1, r.task.inputs, d);
    ChangedIsGenuine(id, Devices(), OutputDevice, prev3, r.task.outputs, d);
    assert r.msgs == Report(id, InputSensor, prev1, r.task.inputs) + Report(id, OutputDevice, prev3, r.task.outputs);
  }

  lemma {:induction false} LastIsGenuine(id: string, h: seq<Msg>, d: Device)
    requires Genuine(id, h, d) && LastFor(h, TopicOf(id, d)).Some?
    ensures IsStatusOf(LastFor(h, TopicOf(id, d)).value, d)
  {
    if h[|h| - 1].topic != TopicOf(id, d) {
      LastIsGenuine(id, h[..|h| - 1], d);
    } else {
      assert h[|h| - 1] in h;
    }
  }
}
