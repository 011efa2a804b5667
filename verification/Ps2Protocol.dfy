/** The PS/2 command protocol of ps2.c on values: a queue of commands against an arbitrary
    stream of device bytes. Each enqueue and each interrupt is one step. */
module Ps2Protocol {
  import opened Basics

  const ACK: Byte := 0xfa
  const RESEND: Byte := 0xfe
  const CAPACITY: nat := 7

  datatype Command = Command(data: seq<Byte>, pos: nat, retries: nat, waitingAck: bool)

  /** The queued commands, oldest first; the bytes written to the device; the bytes handed to the
      keyboard. */
  datatype Driver = Driver(queue: seq<Command>, busy: bool, wire: seq<Byte>, keyboard: seq<Byte>)

  const INITIAL: Driver := Driver([], false, [], [])

  /** What the code relies on and keeps: busy exactly while a command is queued; the oldest one
      has sent 1 to len bytes and awaits an answer; the others have sent nothing. */
  ghost predicate Inv(d: Driver)
  {
    && |d.queue| <= CAPACITY
    && (d.busy <==> d.queue != [])
    && (forall i :: 0 <= i < |d.queue| ==> 1 <= |d.queue[i].data| <= 4 && d.queue[i].retries <= 3)
    && (d.queue != [] ==> d.queue[0].waitingAck && 1 <= d.queue[0].pos <= |d.queue[0].data|)
    && (forall i :: 1 <= i < |d.queue| ==> Fresh(d.queue[i]))
  }

  predicate Fresh(c: Command)
  {
    c.pos == 0 && c.retries == 3 && !c.waitingAck
  }

  /** PS2_SendNextCommand, when the oldest command, if any, has sent nothing. */
  function SendNext(d: Driver): Driver
    requires d.queue != [] ==> d.queue[0].pos < |d.queue[0].data|
  {
    if d.queue == [] then d.(busy := false)
    else SendByte(d.(busy := true))
  }

  /** Write the next byte of the oldest command. */
  function SendByte(d: Driver): Driver
    requires d.queue != [] && d.queue[0].pos < |d.queue[0].data|
  {
    var c := d.queue[0];
    d.(queue := d.queue[0 := c.(pos := c.pos + 1, waitingAck := true)], wire := d.wire + [c.data[c.pos]])
  }

  /** PS2_EnqueueCommand; false when the ring is full. */
  function Enqueue(d: Driver, data: seq<Byte>): (Driver, bool)
    requires Inv(d) && 1 <= |data| <= 4
  {
    if |d.queue| == CAPACITY then (d, false)
    else
      var e := d.(queue := d.queue + [Command(data, 0, 3, false)]);
      (if d.busy then e else SendNext(e), true)
  }

  /** The device answers the oldest command. */
  predicate Consumed(d: Driver, b: Byte)
  {
    d.queue != [] && (b == ACK || b == RESEND)
  }

  /** PS2_IRQHandler, for a byte that was read. */
  function Interrupt(d: Driver, b: Byte): Driver
    requires Inv(d)
  {
    if d.busy && d.queue[0].waitingAck && b == ACK then
      if d.queue[0].pos < |d.queue[0].data| then SendByte(d)
      else SendNext(d.(queue := d.queue[1..]))
    else if d.busy && d.queue[0].waitingAck && b == RESEND then
      var c := d.queue[0];
      if c.retries > 0 then
        SendByte(d.(queue := d.queue[0 := c.(retries := c.retries - 1, pos := c.pos - 1)]))
      else SendNext(d.(queue := d.queue[1..]))
    else
      d.(keyboard := d.keyboard + [b])
  }

  /** What a request does: it is refused, changing nothing, if and only if seven commands are queued; an
      idle driver sends its first byte at once. */
  lemma EnqueueEffect(d: Driver, data: seq<Byte>)
    requires Inv(d) && 1 <= |data| <= 4
    ensures var (d', accepted) := Enqueue(d, data);
      && (accepted <==> |d.queue| < 7) && d'.keyboard == d.keyboard
      && (!accepted ==> d' == d)
      && (accepted && d.queue != [] ==> d'.queue == d.queue + [Command(data, 0, 3, false)] && d'.wire == d.wire)
      && (accepted && d.queue == [] ==> d'.queue == [Command(data, 1, 3, true)] && d'.wire == d.wire + [data[0]])
  {
  }

  /** What an answer does: 0xfa sends the next byte, 0xfe the last one again as long as a retry is left;
      otherwise the command leaves and the next one sends its first byte. */
  lemma AnswerEffect(d: Driver, b: Byte)
    requires Inv(d) && d.queue != [] && (b == 0xfa || b == 0xfe)
    ensures var c, d' := d.queue[0], Interrupt(d, b);
      if b == 0xfa && c.pos < |c.data| then
        d'.queue == d.queue[0 := Command(c.data, c.pos + 1, c.retries, true)] && d'.wire == d.wire + [c.data[c.pos]]
      else if b == 0xfe && c.retries > 0 then
        d'.queue == d.queue[0 := Command(c.data, c.pos, c.retries - 1, true)] && d'.wire == d.wire + [c.data[c.pos - 1]]
      else if |d.queue| == 1 then d'.queue == [] && !d'.busy && d'.wire == d.wire
      else d'.queue[1..] == d.queue[2..] && d'.queue[0] == Command(d.queue[1].data, 1, 3, true) &&
           d'.wire == d.wire + [d.queue[1].data[0]]
  {
  }

  // ----- The invariant -----

  lemma EnqueueKeepsInv(d: Driver, data: seq<Byte>)
    requires Inv(d) && 1 <= |data| <= 4
    ensures Inv(Enqueue(d, data).0)
  {
  }

  lemma InterruptKeepsInv(d: Driver, b: Byte)
    requires Inv(d)
    ensures Inv(Interrupt(d, b))
  {
  }

  datatype Event = Asked(data: seq<Byte>) | Received(byte: Byte)

  predicate WellFormed(e: Event)
  {
    e.Asked? ==> 1 <= |e.data| <= 4
  }

  function Step(d: Driver, e: Event): (r: Driver)
    requires Inv(d) && WellFormed(e)
    ensures Inv(r)
  {
    match e
    case Asked(data) => EnqueueKeepsInv(d, data); Enqueue(d, data).0
    case Received(b) => InterruptKeepsInv(d, b); Interrupt(d, b)
  }

  /** The state after any interleaving of requests and device bytes. */
  function Run(d: Driver, es: seq<Event>): (r: Driver)
    requires Inv(d) && forall e :: e in es ==> WellFormed(e)
    ensures Inv(r)
    decreases |es|
  {
    if es == [] then d else Run(Step(d, es[0]), es[1..])
  }

  /** Every device byte is either consumed as an answer or forwarded to the keyboard, never both. */
  lemma ConsumedOrForwarded(d: Driver, b: Byte)
    requires Inv(d)
    ensures Interrupt(d, b).keyboard == if Consumed(d, b) then d.keyboard else d.keyboard + [b]
    ensures !Consumed(d, b) ==> Interrupt(d, b).wire == d.wire && Interrupt(d, b).queue == d.queue
  {
  }

  // ----- Progress -----

  /** Answers the device still owes before the command has left the ring, at most. */
  function Owed(c: Command): int
  {
    |c.data| - c.pos + c.retries + 1
  }

  function Work(q: seq<Command>): int
  {
    if q == [] then 0 else Owed(q[0]) + Work(q[1..])
  }

  /** Each consumed answer brings the work down, by at least one. */
  lemma AnswerMakesProgress(d: Driver, b: Byte)
    requires Inv(d) && Consumed(d, b)
    ensures Work(Interrupt(d, b).queue) < Work(d.queue)
    ensures |Interrupt(d, b).queue| == |d.queue| - 1 ||
            (|Interrupt(d, b).queue| == |d.queue| && Owed(Interrupt(d, b).queue[0]) == Owed(d.queue[0]) - 1)
  {
    var q, r := d.queue, Interrupt(d, b).queue;
    if |r| == |q| {
      assert r[1..] == q[1..];
    } else if |q| > 1 {
      assert r[1..] == q[1..][1..];
    }
  }

  lemma {:induction false} WorkIsPositive(q: seq<Command>)
    requires forall i :: 0 <= i < |q| ==> q[i].pos <= |q[i].data|
    ensures Work(q) >= |q|
  {
    if q != [] {
      WorkIsPositive(q[1..]);
    }
  }

  /** Whatever it answers, a device that answers often enough empties the ring. */
  lemma {:induction false} AnswersDrainRing(d: Driver, es: seq<Event>)
    requires Inv(d)
    requires forall e :: e in es ==> e == Received(ACK) || e == Received(RESEND)
    requires |es| >= Work(d.queue)
    ensures Run(d, es).queue == [] && !Run(d, es).busy
    decreases |es|
  {
    WorkIsPositive(d.queue);
    if es != [] {
      assert es[0] in es;
      var e := Step(d, es[0]);
      if d.queue != [] {
        AnswerMakesProgress(d, es[0].byte);
      } else {
        ConsumedOrForwarded(d, es[0].byte);
      }
      assert forall x :: x in es[1..] ==> x in es;
      AnswersDrainRing(e, es[1..]);
    }
  }

  /** How many answers there are among the events. */
  function Answers(es: seq<Event>): nat
  {
    if es == [] then 0
    else (if es[0] == Received(ACK) || es[0] == Received(RESEND) then 1 else 0) + Answers(es[1..])
  }

  /** How many commands leave the ring during the events. */
  function Departures(d: Driver, es: seq<Event>): nat
    requires Inv(d) && forall e :: e in es ==> WellFormed(e)
    decreases |es|
  {
    if es == [] then 0
    else
      (if es[0].Received? && |Step(d, es[0]).queue| < |d.queue| then 1 else 0) + Departures(Step(d, es[0]), es[1..])
  }

  lemma OtherEventsKeepHead(d: Driver, e: Event)
    requires Inv(d) && WellFormed(e) && d.queue != []
    requires e.Received? ==> !Consumed(d, e.byte)
    ensures Step(d, e).queue != [] && Step(d, e).queue[0] == d.queue[0]
  {
  }

  /** Whatever else happens in between, the oldest command leaves the ring within as many answers
      as it is owed. */
  lemma {:induction false} HeadLeaves(d: Driver, es: seq<Event>)
    requires Inv(d) && forall e :: e in es ==> WellFormed(e)
    requires d.queue != [] && Answers(es) >= Owed(d.queue[0])
    ensures Departures(d, es) >= 1
    decreases |es|
  {
    assert Owed(d.queue[0]) >= 1;
    assert es[0] in es;
    var e := Step(d, es[0]);
    if es[0].Received? && Consumed(d, es[0].byte) {
      AnswerMakesProgress(d, es[0].byte);
      if |e.queue| == |d.queue| { HeadLeaves(e, es[1..]); }
    } else {
      OtherEventsKeepHead(d, es[0]);
      HeadLeaves(e, es[1..]);
    }
  }

  /** A command whose turn has just come is gone after len + 3 answers, whatever else happens. */
  lemma TurnEnds(d: Driver, es: seq<Event>)
    requires d.queue != [] && Fresh(d.queue[0]) && d.queue[0].data != []
    requires Inv(SendNext(d)) && forall e :: e in es ==> WellFormed(e)
    requires Answers(es) >= |d.queue[0].data| + 3
    ensures Departures(SendNext(d), es) >= 1
  {
    HeadLeaves(SendNext(d), es);
  }
}
