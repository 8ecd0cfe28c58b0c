/** The transmit queue between the Home Assistant thread and the MQTT thread
    (src/msgq_topiks.c, src/mqtt/ha_mqtt_adapter.c): the consumer peeks at the
    head, publishes it and only then takes it out. */
module TxPipe {
  import opened Text
  import opened HaTask

  const QUEUE_SIZE: nat := 16
  const EINVAL := 22
  const ENODATA := 61

  // ---- packet identifiers ----

  type u16 = x: nat | x < 65536

  function NextMid(mid: u16): (r: u16) {
    if mid == 65535 then 1 else mid + 1
  }

  /** The counter after `k` allocations, which is also the `k`-th identifier. */
  function MidAfter(k: nat): u16 {
    if k == 0 then 1 else NextMid(MidAfter(k - 1))
  }

  lemma {:induction false} MidFormula(k: nat)
    ensures MidAfter(k) == 1 + k % 65535
  {
    if k > 0 {
      MidFormula(k - 1);
      NextRemainder(k - 1);
    }
  }

  lemma NextRemainder(k: nat)
    ensures (k + 1) % 65535 == if k % 65535 == 65534 then 0 else k % 65535 + 1
  {
  }

  lemma SameRemainder(j: nat, k: nat)
    ensures j % 65535 == k % 65535 <==> (j - k) % 65535 == 0
  {
  }

  /** Identifiers are never 0, and two are equal only a multiple of 65535
      allocations apart (section 2.3.1 of MQTT 3.1.1). */
  lemma MidsCollideOnlyAfterAll(j: nat, k: nat)
    ensures MidAfter(k) != 0
    ensures MidAfter(j) == MidAfter(k) <==> (j - k) % 65535 == 0
  {
    MidFormula(j);
    MidFormula(k);
    SameRemainder(j, k);
  }

  // ---- the consumer as the firmware writes it ----

  class MsgQueue {
    var items: seq<Msg>

    ghost predicate Valid()
      reads this
    {
      |items| <= QUEUE_SIZE
    }

    constructor ()
      ensures Valid() && items == []
    {
      items := [];
    }

    /** `k_msgq_put` without waiting. */
    method Put(m: Msg) returns (ok: bool)
      requires Valid()
      modifies this
      ensures Valid() && ok == (|old(items)| < QUEUE_SIZE)
      ensures items == if ok then old(items) + [m] else old(items)
    {
      ok := |items| < QUEUE_SIZE;
      if ok {
        items := items + [m];
      }
    }

    method Peek() returns (m: Option<Msg>)
      ensures m == if items == [] then None else Some(items[0])
    {
      return if items == [] then None else Some(items[0]);
    }

    method Get() returns (m: Option<Msg>)
      requires Valid()
      modifies this
      ensures Valid() && m == if old(items) == [] then None else Some(old(items)[0])
      ensures items == if old(items) == [] then [] else old(items)[1..]
    {
      if items == [] {
        return None;
      }
      m := Some(items[0]);
      items := items[1..];
    }
  }

  /** What goes to the MQTT library in one publish call. */
  datatype Packet = Packet(msg: Msg, mid: u16)

  /** What one call works on: the queue, the identifier counter, and the packets
      that the MQTT library has accepted, in order. */
  datatype Outbox = Outbox(queue: seq<Msg>, nextMid: u16, published: seq<Packet>)

  function NeedsMid(m: Msg): bool {
    m.qos == 1 || m.qos == 2
  }

  /** One call of the consumer, with what arrives after it has peeked. */
  function Call(o: Outbox, publishRc: int, arrivals: seq<Msg>): (Outbox, int) {
    if o.queue == [] then (o, -ENODATA) else
    var head, all := o.queue[0], o.queue + arrivals;
    var next := if NeedsMid(head) then NextMid(o.nextMid) else o.nextMid;
    if head.topic == "" then (Outbox(all[1..], next, o.published), -EINVAL)
    else if publishRc != 0 then (Outbox(all, next, o.published), publishRc)
    else (Outbox(all[1..], next, o.published + [Packet(head, if NeedsMid(head) then next else 0)]), 0)
  }

  class Adapter {
    const queue: MsgQueue
    var nextMid: u16
    var published: seq<Packet>

    ghost function Vars(): Outbox
      reads this, queue
    {
      Outbox(queue.items, nextMid, published)
    }

    constructor (queue: MsgQueue)
      ensures this.queue == queue && nextMid == 1 && published == []
    {
      this.queue, nextMid, published := queue, 1, [];
    }

    method AllocMid() returns (mid: u16)
      modifies `nextMid
      ensures nextMid == mid == NextMid(old(nextMid))
    {
      nextMid := if nextMid == 65535 then 0 else nextMid + 1;   // 16-bit wrap-around
      if nextMid == 0 {
        nextMid := 1;
      }
      return nextMid;
    }

    /** `publishRc` is the library's answer; `arrivals` are put by the other
        thread once the call has peeked. */
    method SendDataFromQToMqtt(publishRc: int, arrivals: seq<Msg>) returns (rc: int)
      requires queue.Valid() && |queue.items| + |arrivals| <= QUEUE_SIZE
      modifies this, queue
      ensures queue.Valid()
      ensures (Vars(), rc) == Call(old(Vars()), publishRc, arrivals)
    {
      var peeked := queue.Peek();
      if peeked.None? {
        return -ENODATA;
      }
      queue.items := queue.items + arrivals;   // the other thread
      var msg := peeked.value;
      var mid: u16 := 0;
      if msg.qos == 1 || msg.qos == 2 {
        mid := AllocMid();
      }
      if msg.topic == "" {
        var dropped := queue.Get();
        return -EINVAL;
      }
      if publishRc != 0 {
        return publishRc;
      }
      published := published + [Packet(msg, mid)];
      var taken := queue.Get();
      return 0;
    }
  }

  // ---- the two threads, step by step ----

  /** Where the consumer stands inside its call. `Handled` means published or
      found to be unusable; only the pop is left. */
  datatype Consumer = Idle | Peeked(msg: Msg, mid: u16) | Handled(msg: Msg)

  datatype Pipe = Pipe(queue: seq<Msg>, consumer: Consumer, midsUsed: nat, enqueued: seq<Msg>, published: seq<Packet>)

  const EMPTY := Pipe([], Idle, 0, [], [])

  /** `Put` is the producer's; a failed publish, also one cut off by a broken
      link, leaves the message where it is. */
  datatype Action = Put(msg: Msg) | Peek | Publish(ok: bool) | Pop

  predicate Enabled(p: Pipe, a: Action) {
    match a
    case Put(_) => |p.queue| < QUEUE_SIZE
    case Peek => p.consumer.Idle? && p.queue != []
    case Publish(_) => p.consumer.Peeked?
    case Pop => p.consumer.Handled? && p.queue != []
  }

  function Act(p: Pipe, a: Action): Pipe
    requires Enabled(p, a)
  {
    match a
    case Put(m) => p.(queue := p.queue + [m], enqueued := p.enqueued + [m])
    case Peek =>
      var k := p.midsUsed + if NeedsMid(p.queue[0]) then 1 else 0;
      p.(consumer := Peeked(p.queue[0], if NeedsMid(p.queue[0]) then MidAfter(k) else 0), midsUsed := k)
    case Publish(ok) =>
      var m := p.consumer.msg;
      if m.topic == "" then p.(consumer := Handled(m))
      else if ok then p.(consumer := Handled(m), published := p.published + [Packet(m, p.consumer.mid)])
      else p.(consumer := Idle)
    case Pop => p.(queue := p.queue[1..], consumer := Idle)
  }

  ghost predicate Possible(p: Pipe, acts: seq<Action>)
    decreases |acts|
  {
    acts != [] ==> Enabled(p, acts[0]) && Possible(Act(p, acts[0]), acts[1..])
  }

  function Perform(p: Pipe, acts: seq<Action>): Pipe
    requires Possible(p, acts)
    decreases |acts|
  {
    if acts == [] then p else Perform(Act(p, acts[0]), acts[1..])
  }

  /** The messages that carry a topic. */
  function Usable(ms: seq<Msg>): seq<Msg> {
    if ms == [] then [] else Usable(ms[..|ms| - 1]) + if ms[|ms| - 1].topic != "" then [ms[|ms| - 1]] else []
  }

  lemma {:induction false} UsableConcat(a: seq<Msg>, b: seq<Msg>)
    ensures Usable(a + b) == Usable(a) + Usable(b)
  {
    if b == [] {
      assert a + b == a;
    } else {
      UsableConcat(a, b[..|b| - 1]);
      assert (a + b)[..|a + b| - 1] == a + b[..|b| - 1];
    }
  }

  function Messages(ps: seq<Packet>): seq<Msg> {
    seq(|ps|, i requires 0 <= i < |ps| => ps[i].msg)
  }

  /** What is still to be published. */
  function Waiting(p: Pipe): seq<Msg> {
    if p.consumer.Handled? && p.queue != [] then p.queue[1..] else p.queue
  }

  ghost predicate Inv(p: Pipe) {
    && |p.queue| <= QUEUE_SIZE
    && (!p.consumer.Idle? ==> p.queue != [] && p.queue[0] == p.consumer.msg)
    && Usable(p.enqueued) == Messages(p.published) + Usable(Waiting(p))
  }

  lemma PutKeeps(p: Pipe, m: Msg)
    requires Inv(p) && Enabled(p, Put(m))
    ensures Inv(Act(p, Put(m)))
  {
    WaitingGrows(p, m);
    Associative(Messages(p.published), Usable(Waiting(p)), Usable([m]));
    UsableConcat(p.enqueued, [m]);
  }

  lemma WaitingGrows(p: Pipe, m: Msg)
    requires Inv(p) && Enabled(p, Put(m))
    ensures Usable(Waiting(Act(p, Put(m)))) == Usable(Waiting(p)) + Usable([m])
  {
    assert Waiting(Act(p, Put(m))) == Waiting(p) + [m];
    UsableConcat(Waiting(p), [m]);
  }

  lemma TakeHead(queue: seq<Msg>)
    requires queue != []
    ensures Usable(queue) == (if queue[0].topic == "" then [] else [queue[0]]) + Usable(queue[1..])
  {
    UsableConcat([queue[0]], queue[1..]);
    assert [queue[0]] + queue[1..] == queue;
    assert Usable([queue[0]]) == Usable([]) + if queue[0].topic != "" then [queue[0]] else [] by {
      assert [queue[0]][..0] == [];
    }
  }

  lemma EmptyFront(b: seq<Msg>)
    ensures [] + b == b
  {
  }

  lemma PublishKeeps(p: Pipe, ok: bool)
    requires Inv(p) && Enabled(p, Publish(ok))
    ensures Inv(Act(p, Publish(ok)))
  {
    var q, m := Act(p, Publish(ok)), p.consumer.msg;
    TakeHead(p.queue);
    assert Waiting(p) == p.queue;
    if m.topic == "" {
      EmptyFront(Usable(p.queue[1..]));
    } else if ok {
      assert Messages(q.published) == Messages(p.published) + [m];
      Associative(Messages(p.published), [m], Usable(p.queue[1..]));
    }
  }

  lemma ActKeeps(p: Pipe, a: Action)
    requires Inv(p) && Enabled(p, a)
    ensures Inv(Act(p, a))
  {
    match a
    case Put(m) => PutKeeps(p, m);
    case Peek =>
    case Publish(ok) => PublishKeeps(p, ok);
    case Pop =>
  }

  /** Under any interleaving of the two threads, failed publishes and broken
      links included: the queue never exceeds its size, what the consumer pops is
      what it handled, and the usable messages enqueued are those published, in
      order, followed by those still waiting. */
  lemma {:induction false} NothingLostOrRepeated(p: Pipe, acts: seq<Action>)
    requires Inv(p) && Possible(p, acts)
    ensures Inv(Perform(p, acts))
    decreases |acts|
  {
    if acts != [] {
      ActKeeps(p, acts[0]);
      NothingLostOrRepeated(Act(p, acts[0]), acts[1..]);
    }
  }

  lemma EmptyIsFine()
    ensures Inv(EMPTY)
  {
  }

  /** Packets carry an identifier other than 0 exactly at QoS 1 or 2. */
  ghost predicate MidsValid(p: Pipe) {
    && (p.consumer.Peeked? ==> (p.consumer.mid != 0 <==> p.consumer.msg.qos == 1 || p.consumer.msg.qos == 2))
    && forall k :: 0 <= k < |p.published| ==>
         (p.published[k].mid != 0 <==> p.published[k].msg.qos == 1 || p.published[k].msg.qos == 2)
  }

  lemma {:induction false} PublishedMidsValid(p: Pipe, acts: seq<Action>)
    requires MidsValid(p) && Possible(p, acts)
    ensures MidsValid(Perform(p, acts))
    decreases |acts|
  {
    if acts != [] {
      MidsCollideOnlyAfterAll(0, p.midsUsed + 1);
      PublishedMidsValid(Act(p, acts[0]), acts[1..]);
    }
  }

  // ---- a call is a run of steps ----

  lemma {:induction false} PerformConcat(p: Pipe, a: seq<Action>, b: seq<Action>)
    requires Possible(p, a) && Possible(Perform(p, a), b)
    ensures Possible(p, a + b) && Perform(p, a + b) == Perform(Perform(p, a), b)
    decreases |a|
  {
    if a == [] {
      assert a + b == b;
    } else {
      assert (a + b)[0] == a[0] && (a + b)[1..] == a[1..] + b;
      PerformConcat(Act(p, a[0]), a[1..], b);
    }
  }

  function Puts(ms: seq<Msg>): seq<Action> {
    seq(|ms|, i requires 0 <= i < |ms| => Put(ms[i]))
  }

  lemma {:induction false} PutsArrive(p: Pipe, ms: seq<Msg>)
    requires |p.queue| + |ms| <= QUEUE_SIZE
    ensures Possible(p, Puts(ms))
    ensures Perform(p, Puts(ms)) == p.(queue := p.queue + ms, enqueued := p.enqueued + ms)
    decreases |ms|
  {
    if ms == [] {
      assert p.queue + ms == p.queue && p.enqueued + ms == p.enqueued;
    } else {
      var q := Act(p, Put(ms[0]));
      PutsArrive(q, ms[1..]);
      assert Puts(ms)[0] == Put(ms[0]) && Puts(ms)[1..] == Puts(ms[1..]);
      assert [ms[0]] + ms[1..] == ms;
      Associative(p.queue, [ms[0]], ms[1..]);
      Associative(p.enqueued, [ms[0]], ms[1..]);
    }
  }

  /** What the consumer does once it has peeked and the arrivals are in. */
  function Finish(head: Msg, ok: bool): seq<Action> {
    if head.topic == "" || ok then [Publish(ok), Pop] else [Publish(ok)]
  }

  function CallSteps(head: Msg, ok: bool, arrivals: seq<Msg>): seq<Action> {
    [Peek] + (Puts(arrivals) + Finish(head, ok))
  }

  /** The pipe after one call, `c` being what the call itself computes. */
  ghost predicate AgreesWith(r: Pipe, c: Outbox, enqueued: seq<Msg>) {
    && r.consumer.Idle? && r.queue == c.queue && r.published == c.published
    && MidAfter(r.midsUsed) == c.nextMid && r.enqueued == enqueued
  }

  /** A call of the consumer, with the messages that arrive during it, is exactly
      the steps peek, puts, publish and, if the head is done with, pop: same
      queue, same packets, same identifiers. What is kept by every step is
      therefore kept by every call. */
  lemma CallIsSteps(p: Pipe, publishRc: int, arrivals: seq<Msg>)
    requires p.consumer.Idle? && p.queue != [] && |p.queue| + |arrivals| <= QUEUE_SIZE
    ensures var acts := CallSteps(p.queue[0], publishRc == 0, arrivals);
      && Possible(p, acts)
      && AgreesWith(Perform(p, acts),
                    Call(Outbox(p.queue, MidAfter(p.midsUsed), p.published), publishRc, arrivals).0,
                    p.enqueued + arrivals)
    ensures var r := Call(Outbox(p.queue, MidAfter(p.midsUsed), p.published), publishRc, arrivals);
      && (r.1 == if p.queue[0].topic == "" then -EINVAL else publishRc)
      && (p.queue[0].topic != "" ==> (r.1 == 0 <==> |r.0.published| == |p.published| + 1))
  {
    var head, ok := p.queue[0], publishRc == 0;
    var p1 := Act(p, Peek);
    PutsArrive(p1, arrivals);
    FinishSteps(Perform(p1, Puts(arrivals)), head, ok);
    PerformConcat(p1, Puts(arrivals), Finish(head, ok));
    PerformFirst(p, Peek, Puts(arrivals) + Finish(head, ok));
  }

  /** A call on an empty queue reports that and changes nothing. */
  lemma EmptyCall(o: Outbox, publishRc: int, arrivals: seq<Msg>)
    requires o.queue == []
    ensures Call(o, publishRc, arrivals) == (o, -ENODATA)
  {
  }

  lemma PerformFirst(p: Pipe, a: Action, rest: seq<Action>)
    requires Enabled(p, a) && Possible(Act(p, a), rest)
    ensures Possible(p, [a] + rest) && Perform(p, [a] + rest) == Perform(Act(p, a), rest)
  {
    assert ([a] + rest)[1..] == rest;
  }

  lemma FinishSteps(p: Pipe, head: Msg, ok: bool)
    requires p.consumer.Peeked? && p.consumer.msg == head && p.queue != [] && p.queue[0] == head
    ensures Possible(p, Finish(head, ok))
    ensures Perform(p, Finish(head, ok)) ==
            if head.topic == "" then p.(queue := p.queue[1..], consumer := Idle)
            else if !ok then p.(consumer := Idle)
            else p.(queue := p.queue[1..], consumer := Idle, published := p.published + [Packet(head, p.consumer.mid)])
  {
    var p1 := Act(p, Publish(ok));
    assert [Publish(ok)][1..] == [] && [Publish(ok), Pop][1..] == [Pop] && [Pop][1..] == [];
    assert Possible(p1, []) && Perform(p1, []) == p1;
    if head.topic == "" || ok {
      var p2 := Act(p1, Pop);
      assert Possible(p2, []) && Perform(p2, []) == p2;
      assert Possible(p1, [Pop]) && Perform(p1, [Pop]) == p2;
    }
  }
}
