/** The PS/2 driver of ps2.c: a ring of eight command slots, changed in place. */
module Ps2 {
  import opened Basics
  import opened Ps2Protocol

  const MAX_CMD_QUEUE_SIZE: nat := 8

  /** A PS2Command; `bytes` holds the len bytes copied in. */
  datatype Slot = Slot(bytes: seq<Byte>, len: nat, pos: nat, retries: nat, waitingAck: bool)

  class CommandQueue {
    const commands: array<Slot>
    var head: nat
    var tail: nat
    var busy: bool
    /** What the driver has written to the device and handed to the keyboard. */
    var wire: seq<Byte>
    var keyboard: seq<Byte>

    ghost predicate InRing()
      reads this, commands
    {
      && commands.Length == MAX_CMD_QUEUE_SIZE && head < MAX_CMD_QUEUE_SIZE && tail < MAX_CMD_QUEUE_SIZE
      && forall i :: 0 <= i < MAX_CMD_QUEUE_SIZE ==> |commands[i].bytes| == commands[i].len
    }

    ghost function Count(): nat
      requires InRing()
      reads this, commands
    {
      if tail >= head then tail - head else tail + MAX_CMD_QUEUE_SIZE - head
    }

    /** The queued commands, from head to tail around the ring. */
    ghost function State(): Driver
      requires InRing()
      reads this, commands
    {
      Driver(Queued(commands[..], head, Count()), busy, wire, keyboard)
    }

    ghost predicate Valid()
      reads this, commands
    {
      InRing() && Inv(State())
    }

    constructor ()
      ensures Valid() && State() == INITIAL && fresh(commands)
    {
      commands := new Slot[MAX_CMD_QUEUE_SIZE](_ => Slot([], 0, 0, 0, false));
      head, tail, busy, wire, keyboard := 0, 0, false, [], [];
    }

    /** Writing the head command's next byte to the device, whose answer it then waits for. */
    method WriteNextByte()
      requires InRing() && State().queue != [] && State().queue[0].pos < |State().queue[0].data|
      modifies this, commands
      ensures InRing() && State() == SendByte(old(State()))
    {
      hide Queued;
      RingCounts(head, tail, Count());
      var cmd := commands[head];
      HeadSlot(commands[..], head, Count());
      SetHead(commands[..], head, Count(), cmd.(pos := cmd.pos + 1, waitingAck := true));
      wire := wire + [cmd.bytes[cmd.pos]];
      commands[head] := cmd.(pos := cmd.pos + 1, waitingAck := true);
      assert commands[..] == old(commands[..])[head := commands[head]];
    }

    /** PS2_SendNextCommand. */
    method SendNextCommand()
      requires InRing()
      requires State().queue != [] ==> State().queue[0].pos < |State().queue[0].data|
      modifies this, commands
      ensures InRing() && State() == SendNext(old(State()))
    {
      if tail == head {
        busy := false;
        return;
      }
      busy := true;
      WriteNextByte();
    }

    /** PS2_EnqueueCommand. */
    method EnqueueCommand(bytes: seq<Byte>) returns (accepted: bool)
      requires Valid() && 1 <= |bytes| <= 4
      modifies this, commands
      ensures Valid()
      ensures (State(), accepted) == Enqueue(old(State()), bytes)
      ensures accepted <==> old(|State().queue|) < 7
      ensures !accepted ==> State() == old(State())
    {
      hide Inv, SlotAt, Queued;
      RingCounts(head, tail, Count());
      EnqueueKeepsInv(State(), bytes);
      InvFacts(State());
      var next := SlotAt(tail, 1);
      if next == head { return false; }
      AppendSlot(commands[..], head, Count(), tail, Slot(bytes, |bytes|, 0, 3, false));
      commands[tail] := Slot(bytes, |bytes|, 0, 3, false);
      assert commands[..] == old(commands[..])[tail := commands[tail]];
      tail := next;
      if !busy {
        SendNextCommand();
      }
      accepted := true;
    }

    /** PS2_IRQHandler; None when no byte could be read. */
    method IRQHandler(input: Option<Byte>)
      requires Valid()
      modifies this, commands
      ensures Valid()
      ensures State() == if input.Some? then Interrupt(old(State()), input.value) else old(State())
    {
      hide Inv, Queued;
      if input.None? { return; }
      var byte := input.value;
      InterruptKeepsInv(State(), byte);
      InvFacts(State());
      if busy {
        HeadSlot(commands[..], head, Count());
        var cmd := commands[head];
        if cmd.waitingAck {
          if byte == 0xfa {
            if cmd.pos < cmd.len {
              WriteNextByte();
            } else {
              DropHead();
              SendNextCommand();
            }
            return;
          } else if byte == 0xfe {
            // retries is an unsigned byte: counting down from 0 leaves 255
            var left := cmd.retries;
            var again := if left > 0 then cmd.(retries := left - 1, pos := cmd.pos - 1) else cmd.(retries := 255);
            SetHead(commands[..], head, Count(), again);
            commands[head] := again;
            assert commands[..] == old(commands[..])[head := commands[head]];
            if left > 0 {
              WriteNextByte();
            } else {
              DropHead();
              SendNextCommand();
            }
            return;
          }
        }
      }
      keyboard := keyboard + [byte];
    }

    /** Taking the head command off the ring. */
    method DropHead()
      requires InRing() && State().queue != []
      modifies this
      ensures InRing() && State() == old(State()).(queue := old(State()).queue[1..])
    {
      hide SlotAt, Queued;
      RingCounts(head, tail, Count());
      DropSlot(commands[..], head, Count());
      head := SlotAt(head, 1);
    }
  }

  // ----- The ring -----

  function AsCommand(s: Slot): Command
  {
    Command(s.bytes, s.pos, s.retries, s.waitingAck)
  }

  /** The i-th slot from head on. */
  function SlotAt(head: nat, i: nat): (k: nat)
    ensures k < MAX_CMD_QUEUE_SIZE
  {
    (head + i) % MAX_CMD_QUEUE_SIZE
  }

  lemma SlotAtIs(head: nat, i: nat)
    requires head < MAX_CMD_QUEUE_SIZE && i <= MAX_CMD_QUEUE_SIZE
    ensures SlotAt(head, i) == if head + i < MAX_CMD_QUEUE_SIZE then head + i else head + i - MAX_CMD_QUEUE_SIZE
  {
  }

  ghost function Queued(slots: seq<Slot>, head: nat, count: nat): (q: seq<Command>)
    requires |slots| == MAX_CMD_QUEUE_SIZE
    ensures |q| == count
    ensures forall i: nat :: i < count ==> q[i] == AsCommand(slots[SlotAt(head, i)])
  {
    seq(count, i requires 0 <= i => AsCommand(slots[SlotAt(head, i)]))
  }

  lemma InvFacts(d: Driver)
    requires Inv(d)
    ensures |d.queue| <= CAPACITY && (d.busy <==> d.queue != [])
    ensures d.queue != [] ==> d.queue[0].waitingAck && 1 <= d.queue[0].pos <= |d.queue[0].data|
    ensures |d.queue| > 1 ==> d.queue[1].pos == 0 && 1 <= |d.queue[1].data|
  {
  }

  lemma HeadSlot(slots: seq<Slot>, head: nat, count: nat)
    requires |slots| == MAX_CMD_QUEUE_SIZE && head < MAX_CMD_QUEUE_SIZE && count > 0
    ensures Queued(slots, head, count)[0] == AsCommand(slots[head])
  {
    SlotAtIs(head, 0);
  }

  lemma SetHead(slots: seq<Slot>, head: nat, count: nat, s: Slot)
    requires |slots| == MAX_CMD_QUEUE_SIZE && head < MAX_CMD_QUEUE_SIZE && 0 < count < MAX_CMD_QUEUE_SIZE
    ensures Queued(slots[head := s], head, count) == Queued(slots, head, count)[0 := AsCommand(s)]
  {
    hide SlotAt;
    forall i: nat | i < count ensures SlotAt(head, i) == head <==> i == 0 {
      SlotAtIs(head, i);
    }
  }

  lemma AppendSlot(slots: seq<Slot>, head: nat, count: nat, tail: nat, s: Slot)
    requires |slots| == MAX_CMD_QUEUE_SIZE && head < MAX_CMD_QUEUE_SIZE && count < CAPACITY
    requires tail == SlotAt(head, count)
    ensures Queued(slots[tail := s], head, count + 1) == Queued(slots, head, count) + [AsCommand(s)]
  {
    hide SlotAt;
    SlotAtIs(head, count);
    forall i: nat | i < count ensures SlotAt(head, i) != tail {
      SlotAtIs(head, i);
    }
  }

  lemma DropSlot(slots: seq<Slot>, head: nat, count: nat)
    requires |slots| == MAX_CMD_QUEUE_SIZE && head < MAX_CMD_QUEUE_SIZE && 0 < count < MAX_CMD_QUEUE_SIZE
    ensures Queued(slots, SlotAt(head, 1), count - 1) == Queued(slots, head, count)[1..]
  {
    hide SlotAt;
    SlotAtIs(head, 1);
    forall i: nat | i < count - 1 ensures SlotAt(SlotAt(head, 1), i) == SlotAt(head, i + 1) {
      SlotAtIs(head, i + 1);
      SlotAtIs(SlotAt(head, 1), i);
    }
  }

  /** The next slot after head or tail; the ring holds one command less than it has slots. */
  lemma RingCounts(head: nat, tail: nat, count: nat)
    requires head < MAX_CMD_QUEUE_SIZE && tail < MAX_CMD_QUEUE_SIZE
    requires count == if tail >= head then tail - head else tail + MAX_CMD_QUEUE_SIZE - head
    ensures tail == SlotAt(head, count) && count <= CAPACITY
    ensures SlotAt(tail, 1) == head <==> count == CAPACITY
    ensures var next := SlotAt(tail, 1);
      count < CAPACITY ==> (if next >= head then next - head else next + MAX_CMD_QUEUE_SIZE - head) == count + 1
    ensures var next := SlotAt(head, 1);
      count > 0 ==> (if tail >= next then tail - next else tail + MAX_CMD_QUEUE_SIZE - next) == count - 1
  {
    hide SlotAt;
    SlotAtIs(head, count); SlotAtIs(tail, 1); SlotAtIs(head, 1);
  }
}
