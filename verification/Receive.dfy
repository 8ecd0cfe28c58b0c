/** Incoming publications (src/mqtt/ha_mqtt_callback.c): the payload is read in
    pieces of the transport's choosing, the excess is drained, and the message is
    queued for the Home Assistant thread. */
module Receive {
  import opened Text
  import opened HaTask
  import opened TxPipe

  const TOPIC_SIZE: nat := 128
  const PAYLOAD_SIZE: nat := 700
  const DRAIN_SIZE: nat := 128
  const NUL: char := 0 as char
  const EIO := 5

  /** The unread part of one publication's payload on the connection. */
  class Transport {
    var remaining: string
    ghost var failed: bool   // a read has returned nothing or an error

    constructor (payload: string)
      ensures remaining == payload && !failed
    {
      remaining, failed := payload, false;
    }

    /** `mqtt_read_publish_payload` into `buf` at `at`: any number of bytes up to
        what is asked for and left, or a failure. */
    method Read(buf: array<char>, at: nat, max: nat) returns (n: int)
      requires max > 0 && at + max <= buf.Length
      modifies this, buf
      ensures n <= 0 ==> remaining == old(remaining) && buf[..] == old(buf[..])
      ensures n <= 0 ==> failed || old(remaining) == ""
      ensures n > 0 ==> n <= max && n <= |old(remaining)| && remaining == old(remaining)[n..]
      ensures n > 0 ==> buf[..] == old(buf[..at]) + old(remaining)[..n] + old(buf[at + n..])
      ensures (old(failed) ==> failed) && (n > 0 ==> failed == old(failed))
    {
      if * {
        failed := true;
        if * { return -EIO; } else { return 0; }
      }
      if remaining == "" {
        return 0;
      }
      var count: nat :| 1 <= count <= max && count <= |remaining|;
      ghost var before := buf[..];
      for i := 0 to count
        invariant remaining == old(remaining) && failed == old(failed)
        invariant buf[..] == before[..at] + remaining[..i] + before[at + i..]
      {
        buf[at + i] := remaining[i];
      }
      remaining := remaining[count..];
      return count;
    }
  }

  function Least(a: nat, b: nat): nat {
    if a < b then a else b
  }

  /** Read and drain. `toRead` is the length the packet announces. */
  method ReadPayload(t: Transport, toRead: nat, buf: array<char>) returns (got: nat)
    requires buf.Length == PAYLOAD_SIZE && toRead == |t.remaining| && !t.failed
    modifies t, buf
    ensures got <= toRead && got < PAYLOAD_SIZE
    ensures buf[..got] == old(t.remaining)[..got] && buf[got] == NUL
    ensures !t.failed ==> got == Least(toRead, PAYLOAD_SIZE - 1) && t.remaining == ""
  {
    got := 0;
    if toRead == 0 {
      buf[0] := NUL;
      return;
    }
    while got < toRead && got < PAYLOAD_SIZE - 1
      invariant got <= toRead && got < PAYLOAD_SIZE
      invariant t.remaining == old(t.remaining)[got..]
      invariant buf[..got] == old(t.remaining)[..got]
      invariant !t.failed
      decreases toRead - got
    {
      var n := t.Read(buf, got, PAYLOAD_SIZE - 1 - got);
      if n <= 0 {
        break;
      }
      got := got + n;
    }
    buf[got] := NUL;
    if toRead > got {
      Drain(t, toRead - got);
    }
  }

  /** Throws away what does not fit. */
  method Drain(t: Transport, excess: nat)
    requires excess == |t.remaining|
    modifies t
    ensures t.failed || t.remaining == ""
    ensures old(t.failed) ==> t.failed
  {
    var drainBuf := new char[DRAIN_SIZE];
    var remain := excess;
    while remain > 0
      invariant remain == |t.remaining|
      invariant old(t.failed) ==> t.failed
    {
      var n := t.Read(drainBuf, 0, Least(DRAIN_SIZE, remain));
      if n <= 0 {
        break;
      }
      remain := remain - n;
    }
  }

  /** The C string at the start of a buffer's content. */
  function CString(s: string): string {
    s[..IndexOf(s, NUL, 0)]
  }

  /** What the Home Assistant thread will see of a publication of which `got`
      payload bytes were stored. */
  function Received(topic: string, payload: string, got: nat, qos: nat, retain: bool): Msg
    requires got <= |payload|
  {
    Msg(CString(Snprintf(TOPIC_SIZE, topic)), CString(payload[..got]), qos, retain)
  }

  /** The PUBLISH branch of `mqtt_evt_handler` up to the acknowledgement. */
  method OnPublish(topic: string, t: Transport, qos: nat, retain: bool, queue: MsgQueue)
    requires queue.Valid() && !t.failed
    modifies t, queue
    ensures queue.Valid()
    ensures |old(queue.items)| == QUEUE_SIZE ==> queue.items == old(queue.items)
    ensures exists m :: queue.items == NextRx(Rx(old(queue.items), [], []), Arrive(m)).queue
    ensures |old(queue.items)| < QUEUE_SIZE ==> exists got: nat ::
      && got <= Least(|old(t.remaining)|, PAYLOAD_SIZE - 1)
      && (!t.failed ==> got == Least(|old(t.remaining)|, PAYLOAD_SIZE - 1))
      && queue.items == old(queue.items) + [Received(topic, old(t.remaining), got, qos, retain)]
    ensures !t.failed ==> t.remaining == ""
  {
    ghost var payload := t.remaining;
    var buf := new char[PAYLOAD_SIZE](_ => NUL);
    var got := ReadPayload(t, |t.remaining|, buf);
    assert buf[..got] == payload[..got];
    var m := Msg(CString(Snprintf(TOPIC_SIZE, topic)), CString(buf[..got]), qos, retain);
    assert m == Received(topic, payload, got, qos, retain);
    ghost var before := queue.items;
    var ok := queue.Put(m);
    assert queue.items == NextRx(Rx(before, [], []), Arrive(m)).queue;
  }

  /** Text that fits arrives unchanged. */
  lemma ShortTextArrives(topic: string, payload: string, qos: nat, retain: bool)
    requires |topic| < TOPIC_SIZE && |payload| < PAYLOAD_SIZE && NUL !in topic && NUL !in payload
    ensures Received(topic, payload, Least(|payload|, PAYLOAD_SIZE - 1), qos, retain) == Msg(topic, payload, qos, retain)
  {
  }

  /** What is longer is cut, and a string ends at its first NUL. */
  lemma LongTextIsCut(topic: string, payload: string, got: nat, qos: nat, retain: bool)
    requires got <= |payload|
    ensures var m := Received(topic, payload, got, qos, retain);
      && m.topic <= topic && |m.topic| <= 127 && m.payload <= payload && |m.payload| <= got
      && NUL !in m.topic && NUL !in m.payload
      && (|m.topic| < 127 && |m.topic| < |topic| ==> topic[|m.topic|] == NUL)
      && (|m.payload| < got ==> payload[|m.payload|] == NUL)
      && m.qos == qos && m.retain == retain
  {
  }

  // ---- the receive queue over whole runs ----

  /** A publication handled by the MQTT thread, or the Home Assistant thread
      looking for the oldest message. */
  datatype RxEvent = Arrive(msg: Msg) | Take

  datatype Rx = Rx(queue: seq<Msg>, taken: seq<Msg>, dropped: seq<Msg>)

  function NextRx(s: Rx, ev: RxEvent): Rx {
    match ev
    case Arrive(m) =>
      if |s.queue| < QUEUE_SIZE then s.(queue := s.queue + [m]) else s.(dropped := s.dropped + [m])
    case Take => if s.queue == [] then s else s.(queue := s.queue[1..], taken := s.taken + [s.queue[0]])
  }

  function RxAfter(evs: seq<RxEvent>): Rx {
    if evs == [] then Rx([], [], []) else NextRx(RxAfter(evs[..|evs| - 1]), evs[|evs| - 1])
  }

  function Arrivals(evs: seq<RxEvent>): seq<Msg> {
    if evs == [] then [] else
    Arrivals(evs[..|evs| - 1]) + if evs[|evs| - 1].Arrive? then [evs[|evs| - 1].msg] else []
  }

  /** How far the arrivals are ahead of the thread, whatever the queue holds. */
  function Backlog(evs: seq<RxEvent>): nat {
    if evs == [] then 0 else
    var b := Backlog(evs[..|evs| - 1]);
    if evs[|evs| - 1].Arrive? then b + 1 else if b > 0 then b - 1 else 0
  }

  /** Nothing is lost, and everything is taken in the order of arrival, exactly
      while the thread is never more than the queue's length behind. */
  lemma {:induction false} NothingDroppedIff(evs: seq<RxEvent>)
    ensures |RxAfter(evs).queue| <= QUEUE_SIZE
    ensures RxAfter(evs).dropped == [] <==> forall n :: 0 <= n <= |evs| ==> Backlog(evs[..n]) <= QUEUE_SIZE
    ensures RxAfter(evs).dropped == [] ==> |RxAfter(evs).queue| == Backlog(evs)
    ensures RxAfter(evs).dropped == [] ==> RxAfter(evs).taken + RxAfter(evs).queue == Arrivals(evs)
  {
    if evs == [] {
      assert evs[..0] == [];
    } else {
      var pre, ev := evs[..|evs| - 1], evs[|evs| - 1];
      NothingDroppedIff(pre);
      assert evs[..|evs|] == evs;
      assert forall n :: 0 <= n <= |pre| ==> evs[..n] == pre[..n];
      var s := RxAfter(pre);
      match ev
      case Arrive(m) => Associative(s.taken, s.queue, [m]);
      case Take =>
        if s.queue != [] {
          assert [s.queue[0]] + s.queue[1..] == s.queue;
          Associative(s.taken, [s.queue[0]], s.queue[1..]);
        }
    }
  }

  /** Every publication is taken, waiting or dropped, and each once. */
  ghost predicate Accounted(arrived: seq<Msg>, s: Rx) {
    multiset(arrived) == multiset(s.taken) + multiset(s.queue) + multiset(s.dropped)
  }

  lemma {:induction false} ArrivalsAreAccounted(evs: seq<RxEvent>)
    ensures Accounted(Arrivals(evs), RxAfter(evs))
  {
    if evs != [] {
      var pre, ev := evs[..|evs| - 1], evs[|evs| - 1];
      ArrivalsAreAccounted(pre);
      match ev
      case Arrive(m) => ArriveAccounted(Arrivals(pre), RxAfter(pre), m);
      case Take => TakeAccounted(Arrivals(pre), RxAfter(pre));
    }
  }

  lemma ArriveAccounted(arrived: seq<Msg>, s: Rx, m: Msg)
    requires Accounted(arrived, s)
    ensures Accounted(arrived + [m], NextRx(s, Arrive(m)))
  {
  }

  lemma TakeAccounted(arrived: seq<Msg>, s: Rx)
    requires Accounted(arrived, s)
    ensures Accounted(arrived, NextRx(s, Take)) && Accounted(arrived + [], NextRx(s, Take))
  {
    assert arrived + [] == arrived;
    if s.queue != [] {
      assert s.queue == [s.queue[0]] + s.queue[1..];
      assert multiset(s.queue) == multiset{s.queue[0]} + multiset(s.queue[1..]);
    }
  }
}
