/** rcopy.c: the receiver's state machine, IN_ORDER / BUFFERING / FLUSHING. */
module Receiver {
  import opened Bytes
  import opened Wire
  import opened CircularBuffer
  import opened Window

  datatype ReceiveState = InOrder | Buffering | Flushing

  /** The receiver as a value; buffer is what its circular buffer stands for. */
  datatype RecvState = RecvState(
    expected: nat, highest: int, mode: ReceiveState, buffer: map<nat, Packet>,
    last: Option<Control>, output: seq<byte>, done: bool)

  // ---- specification ----

  /** Keep an out-of-order packet; highest rises even when the buffer refuses it. */
  ghost function Store(r: RecvState, w: nat, p: Packet): RecvState
    requires w > 0
  {
    r.(buffer := if p.seqNo > r.expected + w then r.buffer else Put(r.buffer, w, p.seqNo, p),
       highest := if p.seqNo > r.highest then p.seqNo else r.highest)
  }

  /** Write the expected packet, then the run the buffer holds behind it. */
  ghost function FillGap(r: RecvState, p: Packet): RecvState
  {
    var f := Flush(r.buffer, r.expected + 1);
    r.(output := r.output + p.payload + f.written,
       expected := f.expected,
       buffer := f.rest,
       done := r.done || p.eof || f.eof,
       last := Some(RR(f.expected)),
       mode := if f.expected > r.highest then InOrder else Buffering)
  }

  /** One packet: the new state and the control packets sent. */
  ghost function Receive(r: RecvState, w: nat, p: Packet): (RecvState, seq<Control>)
    requires w > 0
  {
    if p.seqNo < r.expected then
      (r, if r.last.Some? then [r.last.value] else [])
    else if p.seqNo > r.expected then
      (Store(r.(mode := Buffering), w, p), [SREJ(r.expected)])
    else if r.mode.InOrder? then
      (r.(output := r.output + p.payload,
          expected := r.expected + 1,
          done := r.done || p.eof,
          last := Some(RR(r.expected + 1))),
       [RR(r.expected + 1)])
    else
      var g := FillGap(r, p);
      (g, if g.mode.InOrder? then [RR(g.expected)] else [RR(g.expected), SREJ(g.expected)])
  }

  /** State and buffer agree. */
  ghost predicate Agrees(r: RecvState, w: nat)
  {
    && !r.mode.Flushing? && r.highest >= -1
    && (forall q :: q in r.buffer ==> r.expected < q <= r.expected + w && q <= r.highest && r.buffer[q].seqNo == q)
    && (r.mode.InOrder? <==> r.expected > r.highest)
    && (r.mode.InOrder? <==> r.buffer == map[])
    && (r.mode.Buffering? ==> r.highest in r.buffer)
    && r.last == if r.expected == 0 then None else Some(RR(r.expected))
  }

  /** The buffer after a packet: every buffered number from the new expected on is
      kept with its packet, the packet itself is added if it is ahead and not
      beyond the window, and nothing else is there. */
  ghost predicate BufferAfter(r: RecvState, w: nat, p: Packet, t: RecvState)
  {
    var added := r.expected < p.seqNo <= r.expected + w;
    && (forall q :: q in t.buffer <==> q >= t.expected && (q in r.buffer || (added && q == p.seqNo)))
    && (forall q :: q in t.buffer ==> t.buffer[q] == if added && q == p.seqNo then p else r.buffer[q])
  }

  /** All that is sent for a packet, given the number then waited for and whether
      anything is still buffered behind it. */
  function Answer(r: RecvState, p: Packet, expected: nat, nothingBuffered: bool): seq<Control>
  {
    if p.seqNo > r.expected then [SREJ(r.expected)]
    else if p.seqNo < r.expected || nothingBuffered then [RR(expected)]
    else [RR(expected), SREJ(expected)]
  }

  const Start := RecvState(0, -1, InOrder, map[], None, [], false)

  // ---- the machine ----

  class Rcopy {
    const rbuf: ReceiverBuffer
    var mode: ReceiveState
    var output: seq<byte>
    var done: bool

    ghost predicate Valid()
      reads this, rbuf, rbuf.slots
    {
      rbuf.Valid() && !mode.Flushing?
    }

    ghost function State(): RecvState
      reads this, rbuf
    {
      RecvState(rbuf.expected, rbuf.highest, mode, rbuf.entries, rbuf.last, output, done)
    }

    constructor (windowSize: nat)
      requires windowSize > 0
      ensures Valid() && fresh(rbuf) && fresh(rbuf.slots) && rbuf.windowSize == windowSize
      ensures State() == Start
    {
      rbuf := new ReceiverBuffer(windowSize);
      mode, output, done := InOrder, [], false;
    }

    method WritePayloadToFile(p: Packet)
      modifies this`output, this`done
      ensures output == old(output) + p.payload && done == (old(done) || p.eof)
    {
      output := output + p.payload;
      done := done || p.eof;
    }

    /** Before the first write there is nothing to resend; from then on what is
        stored is an RR for the packet the receiver waits for. */
    method ResendLastControl() returns (sent: seq<Control>)
      ensures sent == if rbuf.last.Some? then [rbuf.last.value] else []
      ensures Agrees(State(), rbuf.windowSize) ==> sent == if rbuf.expected == 0 then [] else [RR(rbuf.expected)]
    {
      sent := if rbuf.last.Some? then [rbuf.last.value] else [];
    }

    method DoInOrderState(p: Packet) returns (next: ReceiveState, sent: seq<Control>)
      requires Valid() && mode.InOrder? && p.seqNo >= rbuf.expected
      modifies this`output, this`done, rbuf, rbuf.slots
      ensures rbuf.Valid() && !next.Flushing?
      ensures (State().(mode := next), sent) == Receive(old(State()), rbuf.windowSize, p)
    {
      if p.seqNo == rbuf.expected {
        WritePayloadToFile(p);
        rbuf.expected := rbuf.expected + 1;
        rbuf.last := Some(RR(rbuf.expected));
        return InOrder, [RR(rbuf.expected)];
      } else {
        StorePacket(p);
        return Buffering, [SREJ(rbuf.expected)];
      }
    }

    /** Buffer the packet and raise highest. */
    method StorePacket(p: Packet)
      requires rbuf.Valid()
      modifies rbuf, rbuf.slots
      ensures rbuf.Valid()
      ensures State() == Store(old(State()), rbuf.windowSize, p)
    {
      rbuf.InsertReceiverPacket(p);
      if p.seqNo > rbuf.highest {
        rbuf.highest := p.seqNo;
      }
    }

    /** Stay, asking for the gap again, until the missing packet arrives. */
    method DoBufferState(p: Packet) returns (next: ReceiveState, sent: seq<Control>)
      requires Valid() && mode.Buffering? && p.seqNo >= rbuf.expected
      modifies rbuf, rbuf.slots
      ensures rbuf.Valid()
      ensures if p.seqNo == rbuf.expected
              then next == Flushing && sent == [] && State() == old(State())
              else next == Buffering && (State(), sent) == Receive(old(State()), rbuf.windowSize, p)
    {
      if p.seqNo == rbuf.expected {
        return Flushing, [];
      }
      StorePacket(p);
      return Buffering, [SREJ(rbuf.expected)];
    }

    /** Write the missing packet, flush what it was holding up, and report. */
    method DoFlushingState(p: Packet) returns (next: ReceiveState, sent: seq<Control>)
      requires rbuf.Valid()
      modifies this`output, this`done, rbuf, rbuf.slots
      ensures rbuf.Valid()
      ensures State().(mode := next) == FillGap(old(State()), p)
      ensures sent == if next.InOrder? then [RR(rbuf.expected)] else [RR(rbuf.expected), SREJ(rbuf.expected)]
    {
      WritePayloadToFile(p);
      var written, eof, _ := rbuf.FlushBuffer();
      output, done := output + written, done || eof;
      rbuf.last := Some(RR(rbuf.expected));
      if rbuf.expected > rbuf.highest {
        return InOrder, [RR(rbuf.expected)];
      } else {
        return Buffering, [RR(rbuf.expected), SREJ(rbuf.expected)];
      }
    }

    method HandleDataPacket(p: Packet) returns (sent: seq<Control>)
      requires Valid()
      modifies this, rbuf, rbuf.slots
      ensures Valid()
      ensures (State(), sent) == Receive(old(State()), rbuf.windowSize, p)
      ensures Agrees(old(State()), rbuf.windowSize) ==>
                && BufferAfter(old(State()), rbuf.windowSize, p, State())
                && sent == Answer(old(State()), p, rbuf.expected, rbuf.entries == map[])
    {
      if Agrees(State(), rbuf.windowSize) {
        BufferExactly(State(), rbuf.windowSize, p);
        RepliesExactly(State(), rbuf.windowSize, p);
      }
      if p.seqNo < rbuf.expected {
        sent := ResendLastControl();
        return;
      }
      if mode.InOrder? {
        mode, sent := DoInOrderState(p);
      } else {
        var next;
        next, sent := DoBufferState(p);
        if next.Flushing? {
          next, sent := DoFlushingState(p);
        }
        mode := next;
      }
    }
  }

  // ---- state and buffer agree, over whole runs ----

  /** What the flush leaves behind in a buffer whose largest number is highest. */
  lemma FlushAgrees(r: RecvState, w: nat)
    requires w > 0 && Agrees(r, w) && r.mode.Buffering?
    ensures var f := Flush(r.buffer, r.expected + 1);
            && r.expected < f.expected && f.expected !in f.rest
            && (forall q :: q in f.rest ==> q in r.buffer && f.expected < q)
            && (f.rest == map[] <==> f.expected > r.highest)
            && (f.expected <= r.highest ==> r.highest in f.rest)
  {
    RunEndIsFirstGap(r.buffer, r.expected + 1);
    var f := Flush(r.buffer, r.expected + 1);
    if f.expected <= r.highest {
      assert r.highest in f.rest;
    } else {
      assert forall q :: q in r.buffer ==> r.expected + 1 <= q < f.expected;
      assert f.rest.Keys == {};
    }
  }

  lemma FillGapAgrees(r: RecvState, w: nat, p: Packet)
    requires w > 0 && Agrees(r, w) && r.mode.Buffering?
    ensures Agrees(FillGap(r, p), w)
  {
    FlushAgrees(r, w);
  }

  lemma StoreAgrees(r: RecvState, w: nat, p: Packet)
    requires w > 0 && Agrees(r, w) && r.expected < p.seqNo
    ensures Agrees(Store(r.(mode := Buffering), w, p), w) <==> p.seqNo <= r.expected + w
  {
    var s := Store(r.(mode := Buffering), w, p);
    if p.seqNo > r.expected + w {
      assert s.highest !in s.buffer;
    } else {
      PutWithin(r.buffer, r.expected + 1, w, p.seqNo, p);
      assert s.buffer == r.buffer[p.seqNo := p] && p.seqNo in s.buffer;
    }
  }

  /** Handling a packet keeps state and buffer in agreement exactly when the
      packet is not beyond the window the buffer can hold: the branch that
      refuses it still raises highest. */
  lemma ReceiveAgreesIff(r: RecvState, w: nat, p: Packet)
    requires w > 0 && Agrees(r, w)
    ensures Agrees(Receive(r, w, p).0, w) <==> p.seqNo <= r.expected + w
  {
    if p.seqNo > r.expected {
      StoreAgrees(r, w, p);
    } else if p.seqNo == r.expected && r.mode.Buffering? {
      FillGapAgrees(r, w, p);
    }
  }

  /** An out-of-order packet inside the window is added and nothing is lost. */
  lemma StoreLosesNothing(r: RecvState, w: nat, p: Packet)
    requires w > 0 && Agrees(r, w) && r.expected < p.seqNo <= r.expected + w
    ensures Receive(r, w, p).0.buffer == r.buffer[p.seqNo := p]
    ensures Receive(r, w, p).0.expected == r.expected && Receive(r, w, p).0.output == r.output
  {
    PutWithin(r.buffer, r.expected + 1, w, p.seqNo, p);
  }

  /** Nothing but the run that is written leaves the buffer, in any state. */
  lemma BufferExactly(r: RecvState, w: nat, p: Packet)
    requires w > 0 && Agrees(r, w)
    ensures BufferAfter(r, w, p, Receive(r, w, p).0)
  {
    if p.seqNo > r.expected {
      if p.seqNo <= r.expected + w { StoreLosesNothing(r, w, p); }
    } else if p.seqNo == r.expected && r.mode.Buffering? {
      FlushLeaves(r.buffer, r.expected + 1);
    }
  }

  /** Where expected moves to: past the packet and everything stored right behind
      it, and no further; and the end is known once an EOF among them is written. */
  lemma ExpectedExactly(r: RecvState, w: nat, p: Packet)
    requires w > 0 && Agrees(r, w)
    ensures var t := Receive(r, w, p).0;
            if p.seqNo != r.expected then t.expected == r.expected && t.output == r.output && t.done == r.done
            else && t.expected > r.expected && t.expected !in r.buffer
                 && (forall q :: r.expected < q < t.expected ==> q in r.buffer)
                 && r.output + p.payload <= t.output
                 && (t.done <==> r.done || p.eof || exists q :: r.expected < q < t.expected && r.buffer[q].eof)
  {
    FlushLeaves(r.buffer, r.expected + 1);
  }

  /** One SREJ for a packet that leaves a gap, one RR for any other, and an SREJ
      after it if the flush stopped at another gap; nothing else. */
  lemma RepliesExactly(r: RecvState, w: nat, p: Packet)
    requires w > 0 && Agrees(r, w)
    ensures var (t, sent) := Receive(r, w, p);
            sent == Answer(r, p, t.expected, t.buffer == map[])
  {
    if p.seqNo == r.expected && r.mode.Buffering? { FillGapAgrees(r, w, p); }
  }

  /** The one number that would: written to the buffer, the missing packet itself
      shares its slot with the far edge of the window. */
  lemma MissingPacketSharesSlot(m: map<nat, Packet>, w: nat, e: nat, p: Packet)
    requires w > 0 && Within(m, e + 1, w)
    ensures Put(m, w, e, p) == m[e := p] <==> e + w !in m
  {
    PutKeepsIff(m, w, e, p);
    assert (e + w) % w == e % w by { SlotPeriod(e, w); }
    forall k | k in m && k % w == e % w ensures k == e + w {
      SameSlotApart(e, k, w);
    }
  }

  /** In the documented protocol every packet is answered, always with the number
      the receiver then waits for: with an RR when that number moved, and with an
      SREJ when a packet that was not old leaves a gap.  (Which packets the code
      answers is AsWritten.EveryPacketAnsweredIff.) */
  lemma ReplyTellsExpected(r: RecvState, w: nat, p: Packet)
    requires w > 0 && Agrees(r, w)
    ensures var (t, sent) := Receive(r, w, p);
            && sent != [] && (forall c :: c in sent ==> c.n == t.expected)
            && (t.expected != r.expected ==> RR(t.expected) in sent)
            && (p.seqNo >= r.expected && t.mode.Buffering? ==> SREJ(t.expected) in sent)
  {
    var (t, sent) := Receive(r, w, p);
    assert sent[0] in sent;
  }

  /** A run of packets through the receiver. */
  ghost function ReceiveRun(r: RecvState, w: nat, ps: seq<Packet>): RecvState
    requires w > 0
    decreases ps
  {
    if ps == [] then r else ReceiveRun(Receive(r, w, ps[0]).0, w, ps[1..])
  }

  ghost predicate InWindowRun(r: RecvState, w: nat, ps: seq<Packet>)
    requires w > 0
    decreases ps
  {
    ps == [] || (ps[0].seqNo <= r.expected + w && InWindowRun(Receive(r, w, ps[0]).0, w, ps[1..]))
  }

  /** After every packet of any run whose packets stay inside the window the
      buffer was given for, state and buffer agree. */
  lemma {:induction false} AgreesOverRuns(r: RecvState, w: nat, ps: seq<Packet>)
    requires w > 0 && Agrees(r, w) && InWindowRun(r, w, ps)
    ensures Agrees(ReceiveRun(r, w, ps), w)
    decreases ps
  {
    if ps != [] {
      ReceiveAgreesIff(r, w, ps[0]);
      AgreesOverRuns(Receive(r, w, ps[0]).0, w, ps[1..]);
    }
  }

  /** Old packets, however many and in whatever state, change nothing, and each
      is answered with an RR for the packet the receiver is waiting for. */
  lemma {:induction false} DuplicatesIdempotent(r: RecvState, w: nat, ps: seq<Packet>)
    requires w > 0 && Agrees(r, w)
    requires forall p :: p in ps ==> p.seqNo < r.expected
    ensures ReceiveRun(r, w, ps) == r
    ensures forall p :: p in ps ==> Receive(r, w, p) == (r, [RR(r.expected)])
    decreases ps
  {
    if ps != [] {
      assert ps[0] in ps && forall p :: p in ps[1..] ==> p in ps;
      assert Receive(r, w, ps[0]) == (r, [RR(r.expected)]);
      DuplicatesIdempotent(r, w, ps[1..]);
    }
  }
}
