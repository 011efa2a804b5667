/** What the device sees: the bytes written over a whole run. */
module Ps2Wire {
  import opened Basics
  import opened Ps2Protocol

  /** t is data[..pos], in order, with `repeats` bytes sent again right after themselves. */
  ghost predicate Stutter(t: seq<Byte>, data: seq<Byte>, pos: nat, repeats: nat)
    requires pos <= |data|
    decreases |t|
  {
    if t == [] then pos == 0 && repeats == 0
    else
      var before := t[..|t| - 1];
      && pos > 0 && t[|t| - 1] == data[pos - 1]
      && (Stutter(before, data, pos - 1, repeats) || (repeats > 0 && Stutter(before, data, pos, repeats - 1)))
  }

  function Flatten(ts: seq<seq<Byte>>): seq<Byte>
  {
    if ts == [] then [] else Flatten(ts[..|ts| - 1]) + ts[|ts| - 1]
  }

  /** What a command has sent by the time it leaves the ring: all of its bytes, or, if it was
      given up, some of them with three repeats. */
  ghost predicate Finished(t: seq<Byte>, data: seq<Byte>, repeats: nat)
  {
    repeats <= 3 &&
    exists pos: nat :: 1 <= pos <= |data| && Stutter(t, data, pos, repeats) && (pos == |data| || repeats == 3)
  }

  function Sum(ns: seq<nat>): nat
  {
    if ns == [] then 0 else Sum(ns[..|ns| - 1]) + ns[|ns| - 1]
  }

  /** The commands accepted so far; what each of those whose turn has come has sent, and how many of
      those bytes are repeats. */
  datatype History = History(accepted: seq<seq<Byte>>, sent: seq<seq<Byte>>, repeats: seq<nat>)

  /** The history accounts for the state: commands leave in the order in which they were accepted,
      and the bytes written are what they sent, one command after the other. */
  ghost predicate Explains(h: History, d: Driver)
  {
    && |d.queue| <= |h.accepted|
    && var gone := |h.accepted| - |d.queue|;
    && |h.sent| == |h.repeats| == (if d.queue == [] then gone else gone + 1)
    && Flatten(h.sent) == d.wire
    && (forall i :: 0 <= i < |d.queue| ==> d.queue[i].data == h.accepted[gone + i])
    && (forall i :: 0 <= i < gone ==> Finished(h.sent[i], h.accepted[i], h.repeats[i]))
    && (d.queue != [] ==> InProgress(h.sent[gone], d.queue[0]) && h.repeats[gone] == 3 - d.queue[0].retries)
  }

  ghost predicate InProgress(t: seq<Byte>, c: Command)
  {
    c.pos <= |c.data| && c.retries <= 3 && Stutter(t, c.data, c.pos, 3 - c.retries)
  }

  lemma FlattenSnoc(ts: seq<seq<Byte>>, t: seq<Byte>)
    ensures Flatten(ts + [t]) == Flatten(ts) + t
  {
    assert (ts + [t])[..|ts|] == ts;
  }

  /** One more byte at the end of the last entry. */
  lemma FlattenExtend(ts: seq<seq<Byte>>, b: Byte)
    requires ts != []
    ensures var k := |ts| - 1; Flatten(ts[k := ts[k] + [b]]) == Flatten(ts) + [b]
  {
    var k := |ts| - 1;
    assert ts[k := ts[k] + [b]][..k] == ts[..k];
  }

  lemma SumLast(ns: seq<nat>, n: nat)
    requires ns != []
    ensures var k := |ns| - 1; Sum(ns[k := n]) == Sum(ns) - ns[k] + n
  {
    var k := |ns| - 1;
    assert ns[k := n][..k] == ns[..k];
  }

  lemma SumSnoc(ns: seq<nat>, n: nat)
    ensures Sum(ns + [n]) == Sum(ns) + n
  {
    assert (ns + [n])[..|ns|] == ns;
  }

  lemma StutterOn(t: seq<Byte>, data: seq<Byte>, pos: nat, repeats: nat)
    requires pos < |data| && Stutter(t, data, pos, repeats)
    ensures Stutter(t + [data[pos]], data, pos + 1, repeats)
  {
    assert (t + [data[pos]])[..|t|] == t;
  }

  lemma StutterAgain(t: seq<Byte>, data: seq<Byte>, pos: nat, repeats: nat)
    requires 0 < pos <= |data| && Stutter(t, data, pos, repeats)
    ensures Stutter(t + [data[pos - 1]], data, pos, repeats + 1)
  {
    assert (t + [data[pos - 1]])[..|t|] == t;
  }

  lemma StutterFirst(data: seq<Byte>)
    requires data != []
    ensures Stutter([data[0]], data, 1, 0)
  {
    assert [data[0]][..0] == [];
  }

  /** The oldest command sends a byte: the next one, or the last one again. */
  lemma SendKeepsExplained(h: History, d: Driver, again: bool) returns (h': History)
    requires Inv(d) && Explains(h, d) && d.queue != []
    requires if again then d.queue[0].retries > 0 else d.queue[0].pos < |d.queue[0].data|
    ensures h'.accepted == h.accepted && Sum(h'.repeats) == Sum(h.repeats) + (if again then 1 else 0)
    ensures var c := d.queue[0];
      Explains(h', if again then SendByte(d.(queue := d.queue[0 := c.(retries := c.retries - 1, pos := c.pos - 1)]))
                   else SendByte(d))
  {
    hide Stutter, Finished, Flatten, Sum;
    var c, k := d.queue[0], |h.sent| - 1;
    var b := if again then c.data[c.pos - 1] else c.data[c.pos];
    var r := if again then h.repeats[k] + 1 else h.repeats[k];
    h' := h.(sent := h.sent[k := h.sent[k] + [b]], repeats := h.repeats[k := r]);
    FlattenExtend(h.sent, b);
    SumLast(h.repeats, r);
    if again { StutterAgain(h.sent[k], c.data, c.pos, 3 - c.retries); }
    else { StutterOn(h.sent[k], c.data, c.pos, 3 - c.retries); }
  }

  /** The oldest command leaves, and the next one, if any, sends its first byte. */
  lemma LeaveKeepsExplained(h: History, d: Driver) returns (h': History)
    requires Inv(d) && Explains(h, d) && d.queue != []
    requires d.queue[0].pos == |d.queue[0].data| || d.queue[0].retries == 0
    ensures h'.accepted == h.accepted && Sum(h'.repeats) == Sum(h.repeats)
    ensures Explains(h', SendNext(d.(queue := d.queue[1..])))
  {
    hide Stutter, Sum;
    var c, gone := d.queue[0], |h.accepted| - |d.queue|;
    assert Finished(h.sent[gone], h.accepted[gone], h.repeats[gone]) by {
      assert Stutter(h.sent[gone], c.data, c.pos, 3 - c.retries);
    }
    h' := h;
    if |d.queue| > 1 {
      h' := StartKeepsExplained(h, d.(queue := d.queue[1..]));
    }
  }

  /** A command that has sent nothing becomes the oldest one. */
  lemma StartKeepsExplained(h: History, d: Driver) returns (h': History)
    requires d.queue != [] && Fresh(d.queue[0]) && d.queue[0].data != [] && |d.queue| <= |h.accepted|
    requires var gone := |h.accepted| - |d.queue|;
      && |h.sent| == |h.repeats| == gone && Flatten(h.sent) == d.wire
      && (forall i :: 0 <= i < |d.queue| ==> d.queue[i].data == h.accepted[gone + i])
      && (forall i :: 0 <= i < gone ==> Finished(h.sent[i], h.accepted[i], h.repeats[i]))
    ensures h'.accepted == h.accepted && Sum(h'.repeats) == Sum(h.repeats) && Explains(h', SendNext(d))
  {
    hide Stutter, Sum;
    var first := [d.queue[0].data[0]];
    h' := h.(sent := h.sent + [first], repeats := h.repeats + [0]);
    FlattenSnoc(h.sent, first);
    SumSnoc(h.repeats, 0);
    StutterFirst(d.queue[0].data);
  }

  lemma EnqueueKeepsExplained(h: History, d: Driver, data: seq<Byte>) returns (h': History)
    requires Inv(d) && Explains(h, d) && 1 <= |data| <= 4
    ensures h'.accepted == if Enqueue(d, data).1 then h.accepted + [data] else h.accepted
    ensures Sum(h'.repeats) == Sum(h.repeats) && Explains(h', Enqueue(d, data).0)
  {
    hide Stutter, Sum;
    h' := h;
    if |d.queue| < CAPACITY {
      h' := h.(accepted := h.accepted + [data]);
      if !d.busy {
        h' := StartKeepsExplained(h', d.(queue := d.queue + [Command(data, 0, 3, false)]));
      }
    }
  }

  lemma InterruptKeepsExplained(h: History, d: Driver, b: Byte) returns (h': History)
    requires Inv(d) && Explains(h, d)
    ensures h'.accepted == h.accepted && Explains(h', Interrupt(d, b))
    ensures Sum(h'.repeats) == Sum(h.repeats) + (if Repeated(d, Received(b)) then 1 else 0)
  {
    hide Stutter, Sum;
    h' := h;
    if Consumed(d, b) {
      var c := d.queue[0];
      if b == ACK && c.pos < |c.data| {
        h' := SendKeepsExplained(h, d, false);
      } else if b == RESEND && c.retries > 0 {
        h' := SendKeepsExplained(h, d, true);
      } else {
        h' := LeaveKeepsExplained(h, d);
      }
    }
  }

  /** The requests that the ring accepts during a run, in order. */
  function Accepted(d: Driver, es: seq<Event>): seq<seq<Byte>>
    requires Inv(d) && forall e :: e in es ==> WellFormed(e)
    decreases |es|
  {
    if es == [] then []
    else
      assert es[0] in es && WellFormed(es[0]);
      (if es[0].Asked? && Enqueue(d, es[0].data).1 then [es[0].data] else []) + Accepted(Step(d, es[0]), es[1..])
  }

  /** The device asks for a byte again, and the oldest command has a retry left. */
  predicate Repeated(d: Driver, e: Event)
  {
    e == Received(0xfe) && d.queue != [] && d.queue[0].retries > 0
  }

  /** How often that happens during a run. */
  function Resends(d: Driver, es: seq<Event>): nat
    requires Inv(d) && forall e :: e in es ==> WellFormed(e)
    decreases |es|
  {
    if es == [] then 0
    else
      assert es[0] in es && WellFormed(es[0]);
      (if Repeated(d, es[0]) then 1 else 0) + Resends(Step(d, es[0]), es[1..])
  }

  lemma {:induction false} RunIsExplained(h: History, d: Driver, es: seq<Event>) returns (h': History)
    requires Inv(d) && Explains(h, d) && forall e :: e in es ==> WellFormed(e)
    ensures h'.accepted == h.accepted + Accepted(d, es)
    ensures Sum(h'.repeats) == Sum(h.repeats) + Resends(d, es)
    ensures Explains(h', Run(d, es))
    decreases |es|
  {
    hide Explains, Inv, Enqueue, Interrupt, Sum;
    h' := h;
    if es != [] {
      assert es[0] in es;
      match es[0] {
        case Asked(data) => h' := EnqueueKeepsExplained(h, d, data);
        case Received(b) => h' := InterruptKeepsExplained(h, d, b);
      }
      h' := RunIsExplained(h', Step(d, es[0]), es[1..]);
    }
  }

  /** Over any run from power-up, the bytes on the wire are the accepted commands' bytes in the
      order of acceptance, each command with at most three repeats in all; every command that has
      left was sent completely or given up after three repeats; and there are as many repeats as the
      device asked for a byte again while a retry was left. */
  lemma WireTrace(es: seq<Event>) returns (h: History)
    requires forall e :: e in es ==> WellFormed(e)
    ensures h.accepted == Accepted(INITIAL, es)
    ensures Sum(h.repeats) == Resends(INITIAL, es)
    ensures Explains(h, Run(INITIAL, es))
  {
    h := RunIsExplained(History([], [], []), INITIAL, es);
  }

  // ----- Runs without a byte asked for again -----

  function Concat(ts: seq<seq<Byte>>): seq<Byte>
  {
    if ts == [] then [] else ts[0] + Concat(ts[1..])
  }

  /** What the queued commands have still to send. */
  function Unsent(q: seq<Command>): seq<Byte>
  {
    if q == [] then [] else Left(q[0]) + Unsent(q[1..])
  }

  function Left(c: Command): seq<Byte>
  {
    if c.pos <= |c.data| then c.data[c.pos..] else []
  }

  /** How many 0xfa bytes come while a command is queued. */
  function Acked(d: Driver, es: seq<Event>): nat
    requires Inv(d) && forall e :: e in es ==> WellFormed(e)
    decreases |es|
  {
    if es == [] then 0
    else
      assert es[0] in es && WellFormed(es[0]);
      (if es[0] == Received(0xfa) && d.queue != [] then 1 else 0) + Acked(Step(d, es[0]), es[1..])
  }

  lemma UnsentStep(c: Command, q: seq<Command>)
    ensures Unsent([c] + q) == Left(c) + Unsent(q)
  {
    assert ([c] + q)[1..] == q;
  }

  lemma {:induction false} UnsentSnoc(q: seq<Command>, c: Command)
    ensures Unsent(q + [c]) == Unsent(q) + Left(c)
    decreases |q|
  {
    hide Left;
    if q == [] {
      assert q + [c] == [c] + [];
      UnsentStep(c, []);
    } else {
      assert q + [c] == [q[0]] + (q[1..] + [c]) && q == [q[0]] + q[1..];
      UnsentStep(q[0], q[1..] + [c]);
      UnsentStep(q[0], q[1..]);
      hide Unsent;
      UnsentSnoc(q[1..], c);
    }
  }

  /** A byte that is sent goes from what is unsent to the wire. */
  lemma SendByteMoves(d: Driver)
    requires d.queue != [] && d.queue[0].pos < |d.queue[0].data|
    ensures SendByte(d).wire + Unsent(SendByte(d).queue) == d.wire + Unsent(d.queue)
    ensures |SendByte(d).wire| == |d.wire| + 1 && |SendByte(d).queue| == |d.queue|
  {
    var c := d.queue[0];
    var c' := c.(pos := c.pos + 1, waitingAck := true);
    assert d.queue == [c] + d.queue[1..] && SendByte(d).queue == [c'] + d.queue[1..];
    UnsentStep(c, d.queue[1..]);
    UnsentStep(c', d.queue[1..]);
    assert Left(c) == [c.data[c.pos]] + Left(c');
    hide Unsent, Left;
  }

  /** 1 while a command is queued: the byte whose answer is awaited. */
  function InFlight(d: Driver): nat
  {
    if d.queue == [] then 0 else 1
  }

  lemma RequestSends(d: Driver, data: seq<Byte>)
    requires Inv(d) && 1 <= |data| <= 4
    ensures var (d', accepted) := Enqueue(d, data);
      && d'.wire + Unsent(d'.queue) == d.wire + Unsent(d.queue) + (if accepted then data else [])
      && |d'.wire| + InFlight(d) == |d.wire| + InFlight(d')
  {
    hide Unsent, SendByte;
    if |d.queue| < CAPACITY {
      var c := Command(data, 0, 3, false);
      var asked := d.(queue := d.queue + [c]);
      UnsentSnoc(d.queue, c);
      assert Left(c) == data;
      if !d.busy { SendByteMoves(asked.(busy := true)); }
    }
  }

  lemma AnswerSends(d: Driver)
    requires Inv(d) && d.queue != []
    ensures var d' := Interrupt(d, 0xfa);
      && d'.wire + Unsent(d'.queue) == d.wire + Unsent(d.queue)
      && |d'.wire| + InFlight(d) == |d.wire| + InFlight(d') + 1
  {
    hide Unsent, SendByte;
    var c := d.queue[0];
    if c.pos < |c.data| {
      SendByteMoves(d);
    } else {
      assert d.queue == [c] + d.queue[1..] && Left(c) == [];
      UnsentStep(c, d.queue[1..]);
      var rest := d.(queue := d.queue[1..], busy := true);
      if rest.queue != [] { SendByteMoves(rest); }
    }
  }

  /** What an event other than 0xfe does to the wire and to what is unsent. */
  lemma EventSends(d: Driver, e: Event)
    requires Inv(d) && WellFormed(e) && e != Received(0xfe)
    ensures var d' := Step(d, e);
      && d'.wire + Unsent(d'.queue) == d.wire + Unsent(d.queue) + Concat(Accepted(d, [e]))
      && |d'.wire| + InFlight(d) == |d.wire| + InFlight(d') + (if e == Received(0xfa) && d.queue != [] then 1 else 0)
  {
    hide Inv, Unsent, InFlight, Enqueue, Interrupt;
    assert [e][1..] == [];
    match e {
      case Asked(data) =>
        assert Concat([data]) == data;
        RequestSends(d, data);
      case Received(b) =>
        if Consumed(d, b) { AnswerSends(d); } else { ConsumedOrForwarded(d, b); OthersSendNothing(d, b); }
    }
  }

  lemma OthersSendNothing(d: Driver, b: Byte)
    requires Inv(d) && !Consumed(d, b)
    ensures Interrupt(d, b).wire == d.wire && Interrupt(d, b).queue == d.queue
    ensures InFlight(Interrupt(d, b)) == InFlight(d)
  {
  }

  lemma {:induction false} ConcatJoins(s: seq<seq<Byte>>, t: seq<seq<Byte>>)
    ensures Concat(s + t) == Concat(s) + Concat(t)
  {
    if s == [] {
      assert s + t == t;
    } else {
      assert (s + t)[1..] == s[1..] + t;
      ConcatJoins(s[1..], t);
    }
  }

  lemma {:induction false} RunSends(d: Driver, es: seq<Event>)
    requires Inv(d) && (forall e :: e in es ==> WellFormed(e)) && Received(0xfe) !in es
    ensures var d' := Run(d, es);
      && d'.wire + Unsent(d'.queue) == d.wire + Unsent(d.queue) + Concat(Accepted(d, es))
      && |d'.wire| + InFlight(d) == |d.wire| + InFlight(d') + Acked(d, es)
    decreases |es|
  {
    hide Inv, Step, Unsent, InFlight;
    if es != [] {
      assert es[0] in es;
      EventSends(d, es[0]);
      RunSends(Step(d, es[0]), es[1..]);
      AcceptedFirst(d, es);
      ConcatJoins(Accepted(d, [es[0]]), Accepted(Step(d, es[0]), es[1..]));
    }
  }

  lemma AcceptedFirst(d: Driver, es: seq<Event>)
    requires Inv(d) && es != [] && forall e :: e in es ==> WellFormed(e)
    ensures Accepted(d, es) == Accepted(d, [es[0]]) + Accepted(Step(d, es[0]), es[1..])
  {
    hide Inv, Step, Enqueue;
    assert es[0] in es && [es[0]][1..] == [];
  }

  /** A device that never asks for a byte again gets each accepted command exactly once: the wire is a
      prefix of the accepted commands' bytes, as long as there were 0xfa answers, and one more while
      an answer is awaited. It is complete after as many answers as there are bytes. */
  lemma AcknowledgedRun(es: seq<Event>)
    requires (forall e :: e in es ==> WellFormed(e)) && Received(0xfe) !in es
    ensures var d := Run(INITIAL, es); var all := Concat(Accepted(INITIAL, es)); var acked := Acked(INITIAL, es);
      && d.wire <= all
      && |d.wire| == acked + (if d.queue == [] then 0 else 1)
      && acked <= |all| && (acked == |all| ==> d.queue == [] && d.wire == all)
      && (d.queue == [] ==> d.wire == all)
  {
    hide Run, Concat, Accepted, Acked;
    RunSends(INITIAL, es);
    var d, all := Run(INITIAL, es), Concat(Accepted(INITIAL, es));
    assert [] + Unsent([]) + all == all;
    assert d.wire + Unsent(d.queue) == all;
    assert d.queue == [] ==> d.wire + [] == d.wire;
  }

  // ----- What is accepted -----

  /** The ring holds what was accepted and has not departed. */
  lemma {:induction false} QueueCount(d: Driver, es: seq<Event>)
    requires Inv(d) && forall e :: e in es ==> WellFormed(e)
    ensures |Run(d, es).queue| == |d.queue| + |Accepted(d, es)| - Departures(d, es)
    decreases |es|
  {
    hide Inv, Step, Enqueue;
    if es != [] {
      assert es[0] in es;
      StepCount(d, es[0]);
      QueueCount(Step(d, es[0]), es[1..]);
    }
  }

  lemma StepCount(d: Driver, e: Event)
    requires Inv(d) && WellFormed(e)
    ensures |Step(d, e).queue| == |d.queue| + (if e.Asked? && Enqueue(d, e.data).1 then 1 else 0)
                                  - (if e.Received? && |Step(d, e).queue| < |d.queue| then 1 else 0)
  {
    match e {
      case Asked(data) => EnqueueEffect(d, data);
      case Received(b) => if Consumed(d, b) { AnswerMakesProgress(d, b); } else { ConsumedOrForwarded(d, b); }
    }
  }

  lemma {:induction false} RunJoins(d: Driver, es: seq<Event>, e: Event)
    requires Inv(d) && WellFormed(e) && forall x :: x in es ==> WellFormed(x)
    ensures forall x :: x in es + [e] ==> WellFormed(x)
    ensures Accepted(d, es + [e]) == Accepted(d, es) + Accepted(Run(d, es), [e])
    ensures Run(d, es + [e]) == Step(Run(d, es), e)
    decreases |es|
  {
    hide Inv, Step, Enqueue;
    if es == [] {
      assert [] + [e] == [e] && [e][1..] == [];
    } else {
      assert es[0] in es && (es + [e])[0] == es[0] && (es + [e])[1..] == es[1..] + [e];
      RunJoins(Step(d, es[0]), es[1..], e);
    }
  }

  /** After any run a request is accepted if and only if fewer than seven of the accepted commands have
      not departed yet. */
  lemma AcceptedIff(es: seq<Event>, data: seq<Byte>)
    requires (forall e :: e in es ==> WellFormed(e)) && 1 <= |data| <= 4
    ensures forall e :: e in es + [Asked(data)] ==> WellFormed(e)
    ensures Accepted(INITIAL, es + [Asked(data)]) == Accepted(INITIAL, es) +
      (if |Accepted(INITIAL, es)| - Departures(INITIAL, es) < 7 then [data] else [])
  {
    RunJoins(INITIAL, es, Asked(data));
    QueueCount(INITIAL, es);
    assert [Asked(data)][1..] == [];
  }

  function Requests(datas: seq<seq<Byte>>): seq<Event>
  {
    seq(|datas|, i requires 0 <= i < |datas| => Asked(datas[i]))
  }

  /** From power-up, of requests without a device byte in between the first seven are accepted. */
  lemma {:induction false} SevenAreAccepted(datas: seq<seq<Byte>>)
    requires forall i :: 0 <= i < |datas| ==> 1 <= |datas[i]| <= 4
    ensures forall e :: e in Requests(datas) ==> WellFormed(e)
    ensures Accepted(INITIAL, Requests(datas)) == datas[..if |datas| < 7 then |datas| else 7]
    ensures Departures(INITIAL, Requests(datas)) == 0
    decreases |datas|
  {
    hide Accepted, Departures, Inv;
    if datas == [] {
      assert Requests(datas) == [];
      NothingAccepted();
    } else {
      var n := |datas| - 1;
      var before := datas[..n];
      SevenAreAccepted(before);
      assert Requests(datas) == Requests(before) + [Asked(datas[n])];
      AcceptedIff(Requests(before), datas[n]);
      assert before[..if n < 7 then n else 7] + (if n < 7 then [datas[n]] else []) ==
        datas[..if n + 1 < 7 then n + 1 else 7];
    }
    NoDepartures(INITIAL, Requests(datas));
  }

  lemma NothingAccepted()
    ensures Accepted(INITIAL, []) == []
  {
  }

  lemma {:induction false} NoDepartures(d: Driver, es: seq<Event>)
    requires Inv(d) && forall e :: e in es ==> WellFormed(e) && e.Asked?
    ensures Departures(d, es) == 0
    decreases |es|
  {
    if es != [] {
      assert es[0] in es;
      NoDepartures(Step(d, es[0]), es[1..]);
    }
  }
}
