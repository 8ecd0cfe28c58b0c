/** The Home Assistant thread (src/mqtt/ha_task.c): it reports changed inputs
    and relays, repeats every status in time, and applies received commands. */
module HaTask {
  import opened Text
  import opened Topics

  const UPDATE_PERIOD_SEC: nat := 500   // ha_mqtt_keepalive_sec - 100
  const EXPIRE_AFTER_SEC: nat := 600    // ha_mqtt_keepalive_sec

  datatype Msg = Msg(topic: string, payload: string, qos: nat, retain: bool)

  datatype Device = Device(kind: Kind, index: nat)

  /** The table of the six devices. */
  function Devices(): (ds: seq<Device>)
    ensures forall d :: d in ds ==> 1 <= d.index <= 3
  {
    [Device(InputSensor, 1), Device(InputSensor, 2), Device(InputSensor, 3),
     Device(OutputDevice, 1), Device(OutputDevice, 2), Device(OutputDevice, 3)]
  }

  /** `get_bit`. */
  function GetBit(state: bv8, index: nat): bv8
    requires index < 8
  {
    (state >> index) & 1
  }

  /** Input or relay number `n`. */
  predicate IsOn(state: bv8, n: nat)
    requires 1 <= n <= 8
  {
    GetBit(state, n - 1) == 1
  }

  function StatusMsg(id: string, d: Device, state: bv8): Msg
    requires 1 <= d.index <= 3
  {
    Msg(StatusTopic(id, d.kind, d.index), StatusPayload(d.kind, d.index, IsOn(state, d.index)), 1, false)
  }

  /** The variables the thread keeps between passes. */
  datatype Task = Task(inputs: bv8, inputsOld: bv8, nextInput: u32, outputs: bv8, outputsOld: bv8, nextOutput: u32)

  const BOOT := Task(0, 0xFF, 0, 0, 0xFF, 0)

  // ---- specification of one pass ----

  /** The remembered state after the refresh timer has been looked at: when it
      has run out, the complement of the current one. */
  function Remembered(now: u32, next: u32, prev: bv8, current: bv8): bv8 {
    if now > next then !current else prev
  }

  function NextUpdate(now: u32, next: u32): u32 {
    if now > next then (now + UPDATE_PERIOD_SEC) % U32 else next
  }

  predicate Differs(d: Device, kind: Kind, prev: bv8, current: bv8)
    requires 1 <= d.index <= 3
  {
    d.kind == kind && GetBit(current, d.index - 1) != GetBit(prev, d.index - 1)
  }

  /** One status for each of these devices that is of the kind and differs. */
  function Changed(id: string, ds: seq<Device>, kind: Kind, prev: bv8, current: bv8): seq<Msg>
    requires forall d :: d in ds ==> 1 <= d.index <= 3
  {
    if ds == [] then [] else
    var d := ds[|ds| - 1];
    Changed(id, ds[..|ds| - 1], kind, prev, current)
    + if Differs(d, kind, prev, current) then [StatusMsg(id, d, current)] else []
  }

  function Report(id: string, kind: Kind, prev: bv8, current: bv8): seq<Msg> {
    if current != prev then Changed(id, Devices(), kind, prev, current) else []
  }

  /** `1u << (n - 1)` kept in eight bits. */
  function Mask(n: nat): bv8 {
    match n
    case 1 => 1
    case 2 => 2
    case 3 => 4
    case 4 => 8
    case 5 => 16
    case 6 => 32
    case 7 => 64
    case 8 => 128
    case _ => 0
  }

  function SetRelay(state: bv8, n: nat, on: bool): bv8 {
    if on then state | Mask(n) else state & !Mask(n)
  }

  /** The relay command in a received message, if it is one. */
  function RelayCommand(rx: Option<Msg>): Option<Command> {
    if rx.None? then None else
    var c := ParseIncoming(rx.value.topic, rx.value.payload);
    if c.Some? && c.value.kind.OutputDevice? then c else None
  }

  /** Exactly these messages command a relay: a switch topic with a number, and a
      payload that begins with a state word. */
  lemma RelayCommandsExactly(m: Msg, c: Command)
    ensures RelayCommand(Some(m)) == Some(c) <==>
      && c.kind == OutputDevice
      && exists head, digits, word :: TopicForm(m.topic, head, c.kind, digits)
           && PayloadForm(m.payload, word, c.on) && c.number == DecimalValue(digits) % 256
  {
    ParserAcceptsExactly(m.topic, m.payload, c);
  }

  /** What one pass finds: the uptime, the inputs channel (None when it is busy),
      the oldest received message, whether publishing and reading the outputs
      channel succeed, and a REST write that lands between these two. */
  datatype Env = Env(now: u32, inputs: Option<bv8>, rx: Option<Msg>, pubOk: bool, rest: Option<bv8>, readOk: bool)

  datatype Result = Result(task: Task, channel: bv8, msgs: seq<Msg>)

  function InputStage(id: string, t: Task, now: u32, read: Option<bv8>): (Task, seq<Msg>) {
    var inputs := if read.Some? then read.value else t.inputs;
    (t.(inputs := inputs, inputsOld := inputs, nextInput := NextUpdate(now, t.nextInput)),
     Report(id, InputSensor, Remembered(now, t.nextInput, t.inputsOld, inputs), inputs))
  }

  /** The relay bits the thread holds and those on the channel after a command. */
  function CommandStage(outputs: bv8, channel: bv8, rx: Option<Msg>, pubOk: bool): (bv8, bv8) {
    match RelayCommand(rx)
    case None => (outputs, channel)
    case Some(c) =>
      var next := SetRelay(outputs, c.number, c.on);
      (next, if pubOk then next else channel)
  }

  function OutputStage(id: string, t: Task, now: u32, read: Option<bv8>): (Task, seq<Msg>) {
    var outputs := if read.Some? then read.value else t.outputs;
    (t.(outputs := outputs, outputsOld := outputs, nextOutput := NextUpdate(now, t.nextOutput)),
     Report(id, OutputDevice, Remembered(now, t.nextOutput, t.outputsOld, outputs), outputs))
  }

  function ChannelAfter(channel: bv8, e: Env, outputs: bv8): bv8 {
    if e.rest.Some? then e.rest.value else CommandStage(outputs, channel, e.rx, e.pubOk).1
  }

  function Pass(id: string, t: Task, channel: bv8, e: Env): Result {
    var (t1, msgs1) := InputStage(id, t, e.now, e.inputs);
    var t2 := t1.(outputs := CommandStage(t1.outputs, channel, e.rx, e.pubOk).0);
    var channel2 := ChannelAfter(channel, e, t1.outputs);
    var (t3, msgs3) := OutputStage(id, t2, e.now, if e.readOk then Some(channel2) else None);
    Result(t3, channel2, msgs1 + msgs3)
  }

  // ---- the thread as the firmware runs it ----

  /** A zbus channel holding relay bits. */
  class Channel {
    var state: bv8

    constructor (state: bv8)
      ensures this.state == state
    {
      this.state := state;
    }
  }

  class Thread {
    const id: string
    const outputsChannel: Channel
    var task: Task           // the thread's variables
    var msg: Msg             // the one message buffer, reused for everything
    var handed: seq<Msg>     // messages passed to k_msgq_put, in order

    constructor (id: string, outputsChannel: Channel)
      ensures this.id == id && this.outputsChannel == outputsChannel
      ensures task == BOOT && handed == []
    {
      this.id, this.outputsChannel, task := id, outputsChannel, BOOT;
      msg, handed := Msg("", "", 0, false), [];
    }

    method ReportChanges(kind: Kind, prev: bv8, current: bv8)
      modifies `msg, `handed
      ensures handed == old(handed) + Report(id, kind, prev, current)
    {
      if current != prev {
        ReportDevices(Devices(), kind, prev, current);
      }
    }

    method ReportDevices(ds: seq<Device>, kind: Kind, prev: bv8, current: bv8)
      requires forall d :: d in ds ==> 1 <= d.index <= 3
      modifies `msg, `handed
      ensures handed == old(handed) + Changed(id, ds, kind, prev, current)
    {
      for i := 0 to |ds|
        invariant handed == old(handed) + Changed(id, ds[..i], kind, prev, current)
      {
        ChangedStep(id, ds, i, kind, prev, current);
        if Differs(ds[i], kind, prev, current) {
          PutStatus(ds[i], current);
        }
      }
      assert ds[..|ds|] == ds;
    }

    /** Fills the message buffer and hands it over. */
    method PutStatus(d: Device, current: bv8)
      requires 1 <= d.index <= 3
      modifies `msg, `handed
      ensures handed == old(handed) + [StatusMsg(id, d, current)]
    {
      msg := msg.(qos := 1, retain := false);
      msg := msg.(topic := StatusTopic(id, d.kind, d.index));
      msg := msg.(payload := StatusPayload(d.kind, d.index, (current >> (d.index - 1)) & 1 == 1));
      handed := handed + [msg];
    }

    /** One pass of the inner loop while the link is up. */
    method EventPass(e: Env)
      modifies this, outputsChannel
      ensures var r := Pass(id, old(task), old(outputsChannel.state), e);
              task == r.task && outputsChannel.state == r.channel && handed == old(handed) + r.msgs
    {
      ghost var h := handed;
      ReportInputs(e.now, e.inputs);
      ghost var msgs1 := InputStage(id, old(task), e.now, e.inputs).1;
      ApplyReceived(e.rx, e.pubOk);
      if e.rest.Some? {                       // another thread
        outputsChannel.state := e.rest.value;
      }
      ghost var t2 := task;
      ReportOutputs(e.now, e.readOk);
      ghost var msgs3 := OutputStage(id, t2, e.now, if e.readOk then Some(outputsChannel.state) else None).1;
      Associative(h, msgs1, msgs3);
    }

    method ReportInputs(now: u32, read: Option<bv8>)
      modifies this
      ensures var (t, msgs) := InputStage(id, old(task), now, read);
              task == t && handed == old(handed) + msgs
    {
      if read.Some? {
        task := task.(inputs := read.value);
      }
      if now > task.nextInput {
        task := task.(inputsOld := !task.inputs, nextInput := (now + UPDATE_PERIOD_SEC) % U32);
      }
      ReportChanges(InputSensor, task.inputsOld, task.inputs);
      task := task.(inputsOld := task.inputs);
    }

    method ApplyReceived(rx: Option<Msg>, pubOk: bool)
      modifies `msg, `task, outputsChannel
      ensures var (outputs, channel) := CommandStage(old(task).outputs, old(outputsChannel.state), rx, pubOk);
              task == old(task).(outputs := outputs) && outputsChannel.state == channel
    {
      if rx.Some? {
        msg := rx.value;
      }
      var command := RelayCommand(rx);
      if command.Some? {
        task := task.(outputs := SetRelay(task.outputs, command.value.number, command.value.on));
        if pubOk {
          outputsChannel.state := task.outputs;
        }
      }
    }

    method ReportOutputs(now: u32, readOk: bool)
      modifies this
      ensures var (t, msgs) := OutputStage(id, old(task), now, if readOk then Some(outputsChannel.state) else None);
              task == t && handed == old(handed) + msgs
    {
      if readOk {
        task := task.(outputs := outputsChannel.state);
      }
      if now > task.nextOutput {
        task := task.(outputsOld := !task.outputs, nextOutput := (now + UPDATE_PERIOD_SEC) % U32);
      }
      ReportChanges(OutputDevice, task.outputsOld, task.outputs);
      task := task.(outputsOld := task.outputs);
    }
  }

  lemma ChangedStep(id: string, ds: seq<Device>, i: nat, kind: Kind, prev: bv8, current: bv8)
    requires i < |ds| && forall d :: d in ds ==> 1 <= d.index <= 3
    ensures 1 <= ds[i].index <= 3
    ensures Changed(id, ds[..i + 1], kind, prev, current) ==
            if Differs(ds[i], kind, prev, current)
            then Changed(id, ds[..i], kind, prev, current) + [StatusMsg(id, ds[i], current)]
            else Changed(id, ds[..i], kind, prev, current)
  {
    assert ds[i] in ds && ds[..i + 1][..i] == ds[..i];
  }

  // ---- bits ----

  lemma ComplementDiffers(x: bv8, index: nat)
    requires index < 3
    ensures GetBit(!x, index) != GetBit(x, index)
  {
  }

  lemma BitIsZeroOrOne(x: bv8, index: nat)
    requires index < 8
    ensures GetBit(x, index) == 0 || GetBit(x, index) == 1
  {
  }

  /** A command changes the bit of its relay and no other of the eight. */
  lemma SetRelayBits(x: bv8, n: nat, on: bool, m: nat)
    requires 1 <= m <= 8
    ensures IsOn(SetRelay(x, n, on), m) == if n == m then on else IsOn(x, m)
  {
    if m <= 3 { LowerBits(x, n, on, m); } else if m <= 6 { MiddleBits(x, n, on, m); } else { UpperBits(x, n, on, m); }
  }

  lemma LowerBits(x: bv8, n: nat, on: bool, m: nat)
    requires 1 <= m <= 3
    ensures IsOn(SetRelay(x, n, on), m) == if n == m then on else IsOn(x, m)
  {
  }

  lemma MiddleBits(x: bv8, n: nat, on: bool, m: nat)
    requires 4 <= m <= 6
    ensures IsOn(SetRelay(x, n, on), m) == if n == m then on else IsOn(x, m)
  {
  }

  lemma UpperBits(x: bv8, n: nat, on: bool, m: nat)
    requires 7 <= m <= 8
    ensures IsOn(SetRelay(x, n, on), m) == if n == m then on else IsOn(x, m)
  {
  }
}
