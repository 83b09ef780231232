/** The whole transfer: sender, receiver, and a network between them that may
    lose, duplicate, delay and reorder anything in either direction.  Either end
    may give up at any time, and the receiver leaves once it has finished: nothing is
    delivered to it any more, and nothing answered.  (Network puts the same endpoints on a network of
    bytes that also corrupts.) */
module Transfer {
  import opened Bytes
  import opened Wire
  import opened CircularBuffer
  import opened Window
  import opened FileChunks
  import opened Sender
  import opened Receiver

  /** data and replies are the messages in flight in each direction. */
  datatype State = State(
    snd: SendState, rcv: RecvState,
    data: multiset<Packet>, replies: multiset<Control>,
    sndUp: bool, rcvUp: bool)

  datatype Step =
    | SendNext
    | Timeout
    | DeliverData(p: Packet)
    | DeliverReply(c: Control)
    | LoseData(p: Packet)
    | LoseReply(c: Control)
    | DuplicateData(p: Packet)
    | DuplicateReply(c: Control)
    | SenderGivesUp
    | ReceiverGivesUp

  ghost function Init(): State
  {
    State(SendState(0, 0, map[]), Start, multiset{}, multiset{}, true, true)
  }

  ghost predicate Enabled(cs: seq<seq<byte>>, w: nat, s: State, step: Step)
  {
    match step
    case SendNext => s.sndUp && CanFill(cs, s.snd, w)
    case Timeout => s.sndUp && !CanFill(cs, s.snd, w)
    case DeliverData(p) => s.rcvUp && !s.rcv.done && p in s.data
    case DeliverReply(c) => s.sndUp && c in s.replies
    case LoseData(p) => p in s.data
    case LoseReply(c) => c in s.replies
    case DuplicateData(p) => p in s.data
    case DuplicateReply(c) => c in s.replies
    case SenderGivesUp => true
    case ReceiverGivesUp => true
  }

  /** A resend, if there is one, put into the network. */
  function Emit(o: Option<Packet>): multiset<Packet>
  {
    if o.Some? then multiset{o.value} else multiset{}
  }

  ghost function Apply(cs: seq<seq<byte>>, w: nat, s: State, step: Step): State
    requires w > 0
  {
    match step
    case SendNext =>
      s.(snd := FillOne(cs, s.snd, w), data := s.data + multiset{PacketOf(cs, s.snd.next)})
    case Timeout => s.(data := s.data + Emit(OnTimeout(s.snd, w)))
    case DeliverData(p) =>
      var (r, sent) := Receive(s.rcv, w, p);
      s.(rcv := r, data := s.data - multiset{p}, replies := s.replies + multiset(sent))
    case DeliverReply(c) =>
      var (t, resent) := OnControl(s.snd, w, c);
      s.(snd := t, replies := s.replies - multiset{c}, data := s.data + Emit(resent))
    case LoseData(p) => s.(data := s.data - multiset{p})
    case LoseReply(c) => s.(replies := s.replies - multiset{c})
    case DuplicateData(p) => s.(data := s.data + multiset{p})
    case DuplicateReply(c) => s.(replies := s.replies + multiset{c})
    case SenderGivesUp => s.(sndUp := false)
    case ReceiverGivesUp => s.(rcvUp := false)
  }

  ghost predicate CanRun(cs: seq<seq<byte>>, w: nat, s: State, steps: seq<Step>)
    requires w > 0
    decreases steps
  {
    steps == [] || (Enabled(cs, w, s, steps[0]) && CanRun(cs, w, Apply(cs, w, s, steps[0]), steps[1..]))
  }

  ghost function Run(cs: seq<seq<byte>>, w: nat, s: State, steps: seq<Step>): State
    requires w > 0
    decreases steps
  {
    if steps == [] then s else Run(cs, w, Apply(cs, w, s, steps[0]), steps[1..])
  }

  // ---- the invariant ----

  /** The first k packets' worth of the file. */
  ghost function Upto(cs: seq<seq<byte>>, k: nat): seq<byte>
  {
    Flatten(cs[..if k < |cs| then k else |cs|])
  }

  ghost predicate Genuine(cs: seq<seq<byte>>, p: Packet, top: nat)
  {
    p.seqNo < top && p == PacketOf(cs, p.seqNo)
  }

  /** What the receiver has written and buffered, when top packets exist. */
  ghost predicate Faithful(cs: seq<seq<byte>>, r: RecvState, top: nat)
  {
    && r.expected <= top <= |cs| + 1
    && r.output == Upto(cs, r.expected)
    && (r.done <==> r.expected == |cs| + 1)
    && (forall q :: q in r.buffer ==> q < top && r.buffer[q] == PacketOf(cs, q))
  }

  ghost predicate Inv(cs: seq<seq<byte>>, w: nat, s: State)
  {
    && Outstanding(cs, s.snd, w)
    && Agrees(s.rcv, w)
    && s.snd.lower <= s.rcv.expected
    && Faithful(cs, s.rcv, s.snd.next)
    && (forall p :: p in s.data ==> Genuine(cs, p, s.snd.next))
    && (forall c :: c in s.replies ==> c.n <= s.rcv.expected && (c.SREJ? ==> c.n < s.snd.next))
  }

  lemma UptoStep(cs: seq<seq<byte>>, k: nat)
    ensures Upto(cs, k + 1) == Upto(cs, k) + PacketOf(cs, k).payload
  {
    if k < |cs| {
      assert cs[..k + 1][..k] == cs[..k];
    } else {
      assert Upto(cs, k) + [] == Upto(cs, k);
    }
  }

  lemma {:induction false} PayloadsAreChunks(cs: seq<seq<byte>>, m: map<nat, Packet>, lo: nat, hi: nat)
    requires lo <= hi
    requires forall q :: lo <= q < hi ==> q in m && m[q].payload == PacketOf(cs, q).payload
    ensures Upto(cs, lo) + Payloads(m, lo, hi) == Upto(cs, hi)
    decreases hi
  {
    if lo < hi {
      PayloadsAreChunks(cs, m, lo, hi - 1);
      UptoStep(cs, hi - 1);
      Associative(Upto(cs, lo), Payloads(m, lo, hi - 1), m[hi - 1].payload);
    } else {
      assert Upto(cs, lo) + [] == Upto(cs, lo);
    }
  }

  /** Filling the gap writes the missing chunk and the chunks waiting behind it. */
  lemma FillGapFaithful(cs: seq<seq<byte>>, w: nat, r: RecvState, top: nat)
    requires w > 0 && Agrees(r, w) && Faithful(cs, r, top) && r.expected < top
    ensures var g := FillGap(r, PacketOf(cs, r.expected));
            && Faithful(cs, g, top) && r.expected < g.expected
            && (r.mode.Buffering? && g.mode.Buffering? ==> g.expected < top)
  {
    var e, f := r.expected, Flush(r.buffer, r.expected + 1);
    var p := PacketOf(cs, e);
    RunEndIsFirstGap(r.buffer, e + 1);
    assert f.expected <= top by {
      if f.expected > e + 1 { assert f.expected - 1 in r.buffer; }
    }
    UptoStep(cs, e);
    PayloadsAreChunks(cs, r.buffer, e + 1, f.expected);
    assert HasEof(r.buffer, e + 1, f.expected) <==> e + 1 <= |cs| < f.expected;
  }

  /** The receiver handles any genuine packet faithfully, in any state. */
  lemma ReceiveFaithful(cs: seq<seq<byte>>, w: nat, r: RecvState, p: Packet, top: nat)
    requires w > 0 && Agrees(r, w) && Faithful(cs, r, top)
    requires Genuine(cs, p, top) && top <= r.expected + w
    ensures var (t, sent) := Receive(r, w, p);
            && Agrees(t, w) && Faithful(cs, t, top) && r.expected <= t.expected
            && (forall c :: c in sent ==> c.n <= t.expected && (c.SREJ? ==> c.n < top))
  {
    ReceiveAgreesIff(r, w, p);
    if p.seqNo > r.expected {
      StoreLosesNothing(r, w, p);
    } else if p.seqNo == r.expected && r.mode.InOrder? {
      UptoStep(cs, r.expected);
    } else if p.seqNo == r.expected {
      FillGapFaithful(cs, w, r, top);
    }
  }

  // Each step, what it keeps and what it makes possible next.

  lemma SendNextKeeps(cs: seq<seq<byte>>, w: nat, s: State)
    requires w > 0 && Inv(cs, w, s) && Enabled(cs, w, s, SendNext)
    ensures var t := Apply(cs, w, s, SendNext);
            && Inv(cs, w, t) && PacketOf(cs, s.snd.next) in t.data
            && t.snd.lower == s.snd.lower && t.snd.next == s.snd.next + 1
            && t.rcv == s.rcv && t.sndUp == s.sndUp && t.rcvUp == s.rcvUp
  {
    FillOneKeeps(cs, s.snd, w);
  }

  lemma TimeoutKeeps(cs: seq<seq<byte>>, w: nat, s: State)
    requires w > 0 && Inv(cs, w, s) && Enabled(cs, w, s, Timeout)
    ensures var t := Apply(cs, w, s, Timeout);
            && Inv(cs, w, t) && t == s.(data := t.data)
            && (s.snd.lower < s.snd.next ==> PacketOf(cs, s.snd.lower) in t.data)
  {
    if s.snd.lower < s.snd.next {
      TimeoutFindsLower(cs, s.snd, w);
    } else {
      TimeoutFindsNothing(s.snd, w, s.snd.lower);
    }
  }

  lemma DeliverDataKeeps(cs: seq<seq<byte>>, w: nat, s: State, p: Packet)
    requires w > 0 && Inv(cs, w, s) && Enabled(cs, w, s, DeliverData(p))
    ensures var t := Apply(cs, w, s, DeliverData(p));
            && Inv(cs, w, t)
            && t.snd == s.snd && t.sndUp == s.sndUp && t.rcvUp == s.rcvUp
            && (if p.seqNo == s.rcv.expected then t.rcv.expected > s.rcv.expected
                else t.rcv == s.rcv.(buffer := t.rcv.buffer, highest := t.rcv.highest, mode := t.rcv.mode))
  {
    ReceiveFaithful(cs, w, s.rcv, p, s.snd.next);
    if p.seqNo == s.rcv.expected && s.rcv.mode.Buffering? {
      FillGapFaithful(cs, w, s.rcv, s.snd.next);
    }
  }

  /** How a delivery is answered. */
  lemma DeliverDataAnswered(cs: seq<seq<byte>>, w: nat, s: State, p: Packet)
    requires w > 0 && Agrees(s.rcv, w) && Enabled(cs, w, s, DeliverData(p))
    ensures var t := Apply(cs, w, s, DeliverData(p));
            && (p.seqNo < s.rcv.expected ==> RR(s.rcv.expected) in t.replies)
            && (p.seqNo > s.rcv.expected ==> SREJ(s.rcv.expected) in t.replies)
            && (p.seqNo == s.rcv.expected ==> RR(t.rcv.expected) in t.replies)
  {
    var sent := Receive(s.rcv, w, p).1;
    assert sent[0] in sent;
  }

  lemma DeliverReplyKeeps(cs: seq<seq<byte>>, w: nat, s: State, c: Control)
    requires w > 0 && Inv(cs, w, s) && Enabled(cs, w, s, DeliverReply(c))
    ensures var t := Apply(cs, w, s, DeliverReply(c));
            && Inv(cs, w, t)
            && t.rcv == s.rcv && t.snd.next == s.snd.next && t.sndUp == s.sndUp && t.rcvUp == s.rcvUp
            && t.snd.lower == (if c.RR? && c.n > s.snd.lower then c.n else s.snd.lower)
            && (c.SREJ? && s.snd.lower <= c.n < s.snd.next ==> PacketOf(cs, c.n) in t.data)
  {
    OnControlKeepsIff(cs, s.snd, w, c);
    if c.SREJ? { SrejFaithful(cs, s.snd, w, c.n); }
  }

  /** Every step keeps the invariant. */
  lemma StepKeeps(cs: seq<seq<byte>>, w: nat, s: State, step: Step)
    requires w > 0 && Inv(cs, w, s) && Enabled(cs, w, s, step)
    ensures Inv(cs, w, Apply(cs, w, s, step))
  {
    match step {
      case SendNext => SendNextKeeps(cs, w, s);
      case Timeout => TimeoutKeeps(cs, w, s);
      case DeliverData(p) => DeliverDataKeeps(cs, w, s, p);
      case DeliverReply(c) => DeliverReplyKeeps(cs, w, s, c);
      case _ => NetworkKeeps(cs, w, s, step);
    }
  }

  lemma NetworkKeeps(cs: seq<seq<byte>>, w: nat, s: State, step: Step)
    requires w > 0 && Inv(cs, w, s) && Enabled(cs, w, s, step)
    requires !step.SendNext? && !step.Timeout? && !step.DeliverData? && !step.DeliverReply?
    ensures Inv(cs, w, Apply(cs, w, s, step))
  {
  }

  lemma {:induction false} TimeoutFindsNothing(s: SendState, w: nat, q: nat)
    requires w > 0 && s.window == map[]
    ensures Scan(s.window, w, q, s.lower + w) == None
    decreases s.lower + w - q
  {
    if q <= s.lower + w { TimeoutFindsNothing(s, w, q + 1); }
  }

  lemma {:induction false} RunKeeps(cs: seq<seq<byte>>, w: nat, s: State, steps: seq<Step>)
    requires w > 0 && Inv(cs, w, s) && CanRun(cs, w, s, steps)
    ensures Inv(cs, w, Run(cs, w, s, steps))
    decreases steps
  {
    if steps != [] {
      StepKeeps(cs, w, s, steps[0]);
      RunKeeps(cs, w, Apply(cs, w, s, steps[0]), steps[1..]);
    }
  }

  // ---- safety ----

  ghost predicate Reachable(file: seq<byte>, b: nat, w: nat, s: State)
    requires b > 0 && w > 0
  {
    exists steps :: CanRun(Chunks(file, b), w, Init(), steps) && s == Run(Chunks(file, b), w, Init(), steps)
  }

  lemma ReachableInv(file: seq<byte>, b: nat, w: nat, s: State)
    requires b > 0 && w > 0 && Reachable(file, b, w, s)
    ensures Inv(Chunks(file, b), w, s)
  {
    var cs := Chunks(file, b);
    var steps :| CanRun(cs, w, Init(), steps) && s == Run(cs, w, Init(), steps);
    assert cs[..0] == [];
    RunKeeps(cs, w, Init(), steps);
  }

  /** In every reachable state the output is exactly the chunks below expected,
      hence a prefix of the source file. */
  lemma OutputIsPrefix(file: seq<byte>, b: nat, w: nat, s: State)
    requires b > 0 && w > 0 && Reachable(file, b, w, s)
    ensures s.rcv.output == Upto(Chunks(file, b), s.rcv.expected)
    ensures s.rcv.output <= file
  {
    var cs := Chunks(file, b);
    ReachableInv(file, b, w, s);
    ChunksRebuildFile(file, b);
    FlattenPrefix(cs, if s.rcv.expected < |cs| then s.rcv.expected else |cs|);
  }

  /** The receiver has finished exactly when every chunk and the EOF packet have
      been flushed, and then its output is the whole file. */
  lemma CompletionExact(file: seq<byte>, b: nat, w: nat, s: State)
    requires b > 0 && w > 0 && Reachable(file, b, w, s)
    ensures s.rcv.done <==> s.rcv.expected == |Chunks(file, b)| + 1
    ensures s.rcv.done ==> s.rcv.output == file && s.rcv.buffer == map[]
    ensures s.snd.lower == |Chunks(file, b)| + 1 ==> s.rcv.done
  {
    var cs := Chunks(file, b);
    ReachableInv(file, b, w, s);
    ChunksRebuildFile(file, b);
    assert cs[..|cs|] == cs;
    if s.rcv.done {
      assert forall q :: q !in s.rcv.buffer;
    }
  }

  /** The windows of the two ends, and what may be in flight between them. */
  lemma WindowsAgree(file: seq<byte>, b: nat, w: nat, s: State)
    requires b > 0 && w > 0 && Reachable(file, b, w, s)
    ensures s.snd.lower <= s.rcv.expected <= s.snd.next <= s.snd.lower + w
    ensures forall c :: c in s.replies ==> c.n <= s.rcv.expected
    ensures forall p :: p in s.data ==> p.seqNo < s.snd.next && p == PacketOf(Chunks(file, b), p.seqNo)
    ensures forall p :: p in s.data ==> p.seqNo <= s.rcv.expected + w
    ensures forall q :: q in s.snd.window <==> s.snd.lower <= q < s.snd.next
  {
    ReachableInv(file, b, w, s);
  }

  /** An SREJ in flight is stale, or the sender still holds exactly the packet it
      asks for, as first sent; and whenever the sender is waiting with work
      outstanding, whatever is in flight, the timeout resends the lower edge. */
  lemma RetransmissionPossible(file: seq<byte>, b: nat, w: nat, s: State)
    requires b > 0 && w > 0 && Reachable(file, b, w, s)
    ensures forall n: nat :: SREJ(n) in s.replies ==>
              n < s.snd.lower || OnControl(s.snd, w, SREJ(n)).1 == Some(PacketOf(Chunks(file, b), n))
    ensures !CanFill(Chunks(file, b), s.snd, w) && s.snd.lower <= |Chunks(file, b)| ==>
            OnTimeout(s.snd, w) == Some(PacketOf(Chunks(file, b), s.snd.lower))
  {
    var cs := Chunks(file, b);
    ReachableInv(file, b, w, s);
    forall n: nat | SREJ(n) in s.replies
      ensures n < s.snd.lower || OnControl(s.snd, w, SREJ(n)).1 == Some(PacketOf(cs, n))
    {
      SrejFaithful(cs, s.snd, w, n);
    }
    if s.snd.lower < s.snd.next { TimeoutFindsLower(cs, s.snd, w); }
  }

  /** A packet below expected, delivered again in any reachable state before the
      receiver has finished, changes nothing there, and the RR it is answered with brings the sender's
      lower edge level with expected. */
  lemma OldPacketHarmless(file: seq<byte>, b: nat, w: nat, s: State, p: Packet)
    requires b > 0 && w > 0 && Reachable(file, b, w, s) && s.rcvUp && s.sndUp && !s.rcv.done
    requires p in s.data && p.seqNo < s.rcv.expected
    ensures var cs := Chunks(file, b);
            var t := Apply(cs, w, s, DeliverData(p));
            && t.rcv == s.rcv
            && Enabled(cs, w, t, DeliverReply(RR(s.rcv.expected)))
            && Apply(cs, w, t, DeliverReply(RR(s.rcv.expected))).snd.lower == s.rcv.expected
  {
    var cs := Chunks(file, b);
    ReachableInv(file, b, w, s);
    DeliverDataKeeps(cs, w, s, p);
    DeliverDataAnswered(cs, w, s, p);
    DeliverReplyKeeps(cs, w, Apply(cs, w, s, DeliverData(p)), RR(s.rcv.expected));
  }

  // ---- progress ----

  ghost predicate Unfinished(s: State)
  {
    s.sndUp && s.rcvUp && !s.rcv.done
  }

  /** If the receiver has finished, its last RR is in flight. */
  ghost predicate LastReplySent(cs: seq<seq<byte>>, s: State)
  {
    s.rcv.done ==> RR(|cs| + 1) in s.replies
  }

  /** What remains: packets still to be received plus packets still to be
      acknowledged. */
  ghost function Remaining(cs: seq<seq<byte>>, s: State): int
  {
    2 * (|cs| + 1) - s.snd.lower - s.rcv.expected
  }

  /** One round: a new send, or a timeout when there is nothing new to send; its
      delivery; and the answer that makes progress. */
  ghost function Round(cs: seq<seq<byte>>, w: nat, s: State): seq<Step>
  {
    var e := s.rcv.expected;
    if CanFill(cs, s.snd, w) then
      var p := PacketOf(cs, s.snd.next);
      if e == s.snd.next then [SendNext, DeliverData(p)]
      else [SendNext, DeliverData(p), DeliverReply(SREJ(e)), DeliverData(PacketOf(cs, e))]
    else
      var p := PacketOf(cs, s.snd.lower);
      if e == s.snd.lower then [Timeout, DeliverData(p)]
      else [Timeout, DeliverData(p), DeliverReply(RR(e))]
  }

  lemma RunCons(cs: seq<seq<byte>>, w: nat, s: State, a: Step, rest: seq<Step>)
    requires w > 0 && Enabled(cs, w, s, a) && CanRun(cs, w, Apply(cs, w, s, a), rest)
    ensures CanRun(cs, w, s, [a] + rest)
    ensures Run(cs, w, s, [a] + rest) == Run(cs, w, Apply(cs, w, s, a), rest)
  {
    assert ([a] + rest)[1..] == rest;
  }

  /** These steps can be taken and leave less to do, with the sender still up and
      the receiver still there or its last RR on the way. */
  ghost predicate Reduces(cs: seq<seq<byte>>, w: nat, s: State, steps: seq<Step>, from: int)
    requires w > 0
  {
    && CanRun(cs, w, s, steps)
    && var t := Run(cs, w, s, steps);
       Remaining(cs, t) < from && t.sndUp && t.rcvUp && LastReplySent(cs, t)
  }

  lemma ReducesCons(cs: seq<seq<byte>>, w: nat, s: State, a: Step, rest: seq<Step>, from: int)
    requires w > 0 && Enabled(cs, w, s, a) && Reduces(cs, w, Apply(cs, w, s, a), rest, from)
    ensures Reduces(cs, w, s, [a] + rest, from)
  {
    RunCons(cs, w, s, a, rest);
  }

  lemma ReducesOne(cs: seq<seq<byte>>, w: nat, s: State, a: Step, from: int)
    requires w > 0 && Enabled(cs, w, s, a)
    requires var t := Apply(cs, w, s, a); Remaining(cs, t) < from && t.sndUp && t.rcvUp && LastReplySent(cs, t)
    ensures Reduces(cs, w, s, [a], from)
  {
    RunCons(cs, w, s, a, []);
    assert [a] + [] == [a];
  }

  /** A last delivery to the receiver of the packet it waits for. */
  lemma EndExpected(cs: seq<seq<byte>>, w: nat, s: State)
    requires w > 0 && Inv(cs, w, s) && Unfinished(s)
    requires PacketOf(cs, s.rcv.expected) in s.data
    ensures Reduces(cs, w, s, [DeliverData(PacketOf(cs, s.rcv.expected))], Remaining(cs, s))
  {
    ExpectedDelivered(cs, w, s);
    ReducesOne(cs, w, s, DeliverData(PacketOf(cs, s.rcv.expected)), Remaining(cs, s));
  }

  lemma ExpectedDelivered(cs: seq<seq<byte>>, w: nat, s: State)
    requires w > 0 && Inv(cs, w, s) && Unfinished(s)
    requires PacketOf(cs, s.rcv.expected) in s.data
    ensures var t := Apply(cs, w, s, DeliverData(PacketOf(cs, s.rcv.expected)));
            Remaining(cs, t) < Remaining(cs, s) && t.sndUp && t.rcvUp && LastReplySent(cs, t)
  {
    var p := PacketOf(cs, s.rcv.expected);
    assert p.seqNo == s.rcv.expected;
    ExpectedMoves(cs, w, s, p);
    DeliverDataAnswered(cs, w, s, p);
  }

  lemma ExpectedMoves(cs: seq<seq<byte>>, w: nat, s: State, p: Packet)
    requires w > 0 && Inv(cs, w, s) && Enabled(cs, w, s, DeliverData(p)) && p.seqNo == s.rcv.expected
    ensures var t := Apply(cs, w, s, DeliverData(p));
            && t.rcv.expected > s.rcv.expected && (t.rcv.done ==> t.rcv.expected == |cs| + 1)
            && t.snd == s.snd && t.sndUp == s.sndUp && t.rcvUp == s.rcvUp
  {
    DeliverDataKeeps(cs, w, s, p);
  }

  /** An SREJ for the missing packet, its retransmission and its delivery. */
  lemma EndSrej(cs: seq<seq<byte>>, w: nat, s: State)
    requires w > 0 && Inv(cs, w, s) && Unfinished(s)
    requires var e := s.rcv.expected; e < s.snd.next && SREJ(e) in s.replies
    ensures var e := s.rcv.expected;
            Reduces(cs, w, s, [DeliverReply(SREJ(e)), DeliverData(PacketOf(cs, e))], Remaining(cs, s))
  {
    var a := DeliverReply(SREJ(s.rcv.expected));
    var d := DeliverData(PacketOf(cs, s.rcv.expected));
    DeliverReplyKeeps(cs, w, s, a.c);
    EndExpected(cs, w, Apply(cs, w, s, a));
    ReducesCons(cs, w, s, a, [d], Remaining(cs, s));
    assert [a] + [d] == [a, d];
  }

  /** An RR above the lower edge and its delivery. */
  lemma EndRR(cs: seq<seq<byte>>, w: nat, s: State)
    requires w > 0 && Inv(cs, w, s) && Unfinished(s)
    requires var e := s.rcv.expected; s.snd.lower < e && RR(e) in s.replies
    ensures Reduces(cs, w, s, [DeliverReply(RR(s.rcv.expected))], Remaining(cs, s))
  {
    var a := DeliverReply(RR(s.rcv.expected));
    DeliverReplyKeeps(cs, w, s, a.c);
    ReducesOne(cs, w, s, a, Remaining(cs, s));
  }

  /** A packet from beyond the gap, the SREJ it provokes, and the rest. */
  lemma EndAhead(cs: seq<seq<byte>>, w: nat, s: State, p: Packet)
    requires w > 0 && Inv(cs, w, s) && Unfinished(s)
    requires p in s.data && p.seqNo > s.rcv.expected
    ensures var e := s.rcv.expected;
            Reduces(cs, w, s, [DeliverData(p), DeliverReply(SREJ(e)), DeliverData(PacketOf(cs, e))], Remaining(cs, s))
  {
    var e := s.rcv.expected;
    var rest := [DeliverReply(SREJ(e)), DeliverData(PacketOf(cs, e))];
    DeliverDataKeeps(cs, w, s, p);
    DeliverDataAnswered(cs, w, s, p);
    EndSrej(cs, w, Apply(cs, w, s, DeliverData(p)));
    ReducesCons(cs, w, s, DeliverData(p), rest, Remaining(cs, s));
    assert [DeliverData(p)] + rest == [DeliverData(p), rest[0], rest[1]];
  }

  /** A packet already received, and the RR it is answered with. */
  lemma EndOld(cs: seq<seq<byte>>, w: nat, s: State, p: Packet)
    requires w > 0 && Inv(cs, w, s) && Unfinished(s)
    requires p in s.data && p.seqNo < s.rcv.expected && s.snd.lower < s.rcv.expected
    ensures Reduces(cs, w, s, [DeliverData(p), DeliverReply(RR(s.rcv.expected))], Remaining(cs, s))
  {
    var a := DeliverReply(RR(s.rcv.expected));
    DeliverDataKeeps(cs, w, s, p);
    DeliverDataAnswered(cs, w, s, p);
    EndRR(cs, w, Apply(cs, w, s, DeliverData(p)));
    ReducesCons(cs, w, s, DeliverData(p), [a], Remaining(cs, s));
    assert [DeliverData(p)] + [a] == [DeliverData(p), a];
  }

  /** The receiver waits for the very packet about to be sent. */
  lemma SendNew(cs: seq<seq<byte>>, w: nat, s: State)
    requires w > 0 && Inv(cs, w, s) && Unfinished(s) && CanFill(cs, s.snd, w)
    requires s.rcv.expected == s.snd.next
    ensures Reduces(cs, w, s, [SendNext, DeliverData(PacketOf(cs, s.snd.next))], Remaining(cs, s))
  {
    var d := DeliverData(PacketOf(cs, s.snd.next));
    SendNextKeeps(cs, w, s);
    EndExpected(cs, w, Apply(cs, w, s, SendNext));
    ReducesCons(cs, w, s, SendNext, [d], Remaining(cs, s));
    assert [SendNext] + [d] == [SendNext, d];
  }

  /** The receiver has a gap below the packet about to be sent. */
  lemma SendAhead(cs: seq<seq<byte>>, w: nat, s: State)
    requires w > 0 && Inv(cs, w, s) && Unfinished(s) && CanFill(cs, s.snd, w)
    requires s.rcv.expected < s.snd.next
    ensures var e := s.rcv.expected;
            Reduces(cs, w, s, [SendNext, DeliverData(PacketOf(cs, s.snd.next)), DeliverReply(SREJ(e)),
                               DeliverData(PacketOf(cs, e))], Remaining(cs, s))
  {
    var e, d := s.rcv.expected, DeliverData(PacketOf(cs, s.snd.next));
    var rest := [d, DeliverReply(SREJ(e)), DeliverData(PacketOf(cs, e))];
    SendNextKeeps(cs, w, s);
    EndAhead(cs, w, Apply(cs, w, s, SendNext), d.p);
    ReducesCons(cs, w, s, SendNext, rest, Remaining(cs, s));
    assert [SendNext] + rest == [SendNext, rest[0], rest[1], rest[2]];
  }

  /** The receiver waits for the packet the timeout resends. */
  lemma TimeoutMissing(cs: seq<seq<byte>>, w: nat, s: State)
    requires w > 0 && Inv(cs, w, s) && Unfinished(s) && !CanFill(cs, s.snd, w)
    requires s.rcv.expected == s.snd.lower
    ensures Reduces(cs, w, s, [Timeout, DeliverData(PacketOf(cs, s.snd.lower))], Remaining(cs, s))
  {
    var d := DeliverData(PacketOf(cs, s.snd.lower));
    TimeoutKeeps(cs, w, s);
    EndExpected(cs, w, Apply(cs, w, s, Timeout));
    ReducesCons(cs, w, s, Timeout, [d], Remaining(cs, s));
    assert [Timeout] + [d] == [Timeout, d];
  }

  /** The receiver is past the packet the timeout resends. */
  lemma TimeoutOld(cs: seq<seq<byte>>, w: nat, s: State)
    requires w > 0 && Inv(cs, w, s) && Unfinished(s) && !CanFill(cs, s.snd, w)
    requires s.snd.lower < s.rcv.expected
    ensures Reduces(cs, w, s, [Timeout, DeliverData(PacketOf(cs, s.snd.lower)), DeliverReply(RR(s.rcv.expected))],
                    Remaining(cs, s))
  {
    var d, a := DeliverData(PacketOf(cs, s.snd.lower)), DeliverReply(RR(s.rcv.expected));
    TimeoutKeeps(cs, w, s);
    EndOld(cs, w, Apply(cs, w, s, Timeout), d.p);
    ReducesCons(cs, w, s, Timeout, [d, a], Remaining(cs, s));
    assert [Timeout] + [d, a] == [Timeout, d, a];
  }

  /** No deadlock: from every reachable unfinished state, whatever is or is not
      in flight, one round strictly reduces what remains. */
  lemma RoundProgress(cs: seq<seq<byte>>, w: nat, s: State)
    requires w > 0 && Inv(cs, w, s) && Unfinished(s)
    ensures Reduces(cs, w, s, Round(cs, w, s), Remaining(cs, s)) && |Round(cs, w, s)| <= 4
    ensures Inv(cs, w, Run(cs, w, s, Round(cs, w, s)))
  {
    var e := s.rcv.expected;
    if CanFill(cs, s.snd, w) {
      if e == s.snd.next { SendNew(cs, w, s); } else { SendAhead(cs, w, s); }
    } else {
      if e == s.snd.lower { TimeoutMissing(cs, w, s); } else { TimeoutOld(cs, w, s); }
    }
    RunKeeps(cs, w, s, Round(cs, w, s));
  }

  /** Round after round. */
  ghost predicate CanRunAll(cs: seq<seq<byte>>, w: nat, s: State, rounds: seq<seq<Step>>)
    requires w > 0
    decreases rounds
  {
    rounds == [] || (CanRun(cs, w, s, rounds[0]) && CanRunAll(cs, w, Run(cs, w, s, rounds[0]), rounds[1..]))
  }

  ghost function RunAll(cs: seq<seq<byte>>, w: nat, s: State, rounds: seq<seq<Step>>): State
    requires w > 0
    decreases rounds
  {
    if rounds == [] then s else RunAll(cs, w, Run(cs, w, s, rounds[0]), rounds[1..])
  }

  ghost predicate Short(rounds: seq<seq<Step>>, n: int)
  {
    |rounds| <= n && forall i :: 0 <= i < |rounds| ==> |rounds[i]| <= 4
  }

  lemma RoundsCons(cs: seq<seq<byte>>, w: nat, s: State, round: seq<Step>, rest: seq<seq<Step>>, t: State)
    requires w > 0 && CanRun(cs, w, s, round) && t == Run(cs, w, s, round) && CanRunAll(cs, w, t, rest)
    ensures CanRunAll(cs, w, s, [round] + rest) && RunAll(cs, w, s, [round] + rest) == RunAll(cs, w, t, rest)
  {
    assert ([round] + rest)[1..] == rest;
  }

  lemma NextRound(cs: seq<seq<byte>>, w: nat, s: State) returns (round: seq<Step>, t: State)
    requires w > 0 && Inv(cs, w, s) && Unfinished(s)
    ensures |round| <= 4 && CanRun(cs, w, s, round) && t == Run(cs, w, s, round)
    ensures Inv(cs, w, t) && t.sndUp && t.rcvUp && LastReplySent(cs, t) && Remaining(cs, t) < Remaining(cs, s)
  {
    RoundProgress(cs, w, s);
    round, t := Round(cs, w, s), Run(cs, w, s, Round(cs, w, s));
  }

  /** The last reply to arrive. */
  lemma LastRound(cs: seq<seq<byte>>, w: nat, s: State)
    requires w > 0 && Inv(cs, w, s) && s.sndUp && RR(|cs| + 1) in s.replies
    ensures var last := [DeliverReply(RR(|cs| + 1))];
            var t := Run(cs, w, s, last);
            CanRun(cs, w, s, last) && Inv(cs, w, t) && t.snd.lower == |cs| + 1
  {
    var a := DeliverReply(RR(|cs| + 1));
    DeliverReplyKeeps(cs, w, s, a.c);
    RunCons(cs, w, s, a, []);
    assert [a] + [] == [a];
  }

  /** A schedule that completes, one round after another. */
  lemma {:induction false} CompletingSchedule(cs: seq<seq<byte>>, w: nat, s: State) returns (rounds: seq<seq<Step>>)
    requires w > 0 && Inv(cs, w, s) && s.sndUp && s.rcvUp && LastReplySent(cs, s)
    ensures CanRunAll(cs, w, s, rounds) && Short(rounds, Remaining(cs, s))
    ensures var t := RunAll(cs, w, s, rounds); Inv(cs, w, t) && t.snd.lower == |cs| + 1
    decreases Remaining(cs, s)
  {
    if s.rcv.done {
      if s.snd.lower == |cs| + 1 {
        return [];
      }
      LastRound(cs, w, s);
      var last := [DeliverReply(RR(|cs| + 1))];
      RoundsCons(cs, w, s, last, [], Run(cs, w, s, last));
      assert [last] + [] == [last];
      return [last];
    }
    var round, t := NextRound(cs, w, s);
    var rest := CompletingSchedule(cs, w, t);
    RoundsCons(cs, w, s, round, rest, t);
    rounds := [round] + rest;
  }

  /** From every reachable state in which the receiver has not finished and
      neither end has given up, even with everything in flight lost, a bounded
      schedule delivers the whole file and has it acknowledged. */
  lemma TransferCompletes(file: seq<byte>, b: nat, w: nat, s: State) returns (rounds: seq<seq<Step>>)
    requires b > 0 && w > 0 && Reachable(file, b, w, s) && Unfinished(s)
    ensures var cs := Chunks(file, b);
            var silent := s.(data := multiset{}, replies := multiset{});
            && CanRunAll(cs, w, silent, rounds)
            && Short(rounds, 2 * (|cs| + 1))
            && var t := RunAll(cs, w, silent, rounds);
               t.rcv.done && t.rcv.output == file && t.snd.lower == |cs| + 1
  {
    var cs := Chunks(file, b);
    ReachableInv(file, b, w, s);
    rounds := CompletingSchedule(cs, w, s.(data := multiset{}, replies := multiset{}));
    ChunksRebuildFile(file, b);
    assert cs[..|cs|] == cs;
  }

  // ---- after the receiver has left ----

  /** An end that has given up, or a receiver that has finished, never changes
      again, whatever the network and the other end go on doing. */
  lemma {:induction false} LeftForGood(cs: seq<seq<byte>>, w: nat, s: State, steps: seq<Step>)
    requires w > 0 && CanRun(cs, w, s, steps)
    ensures var t := Run(cs, w, s, steps);
            && (!s.sndUp ==> t.snd == s.snd && !t.sndUp)
            && (Stopped(s) ==> t.rcv == s.rcv && Stopped(t))
    decreases steps
  {
    if steps != [] { LeftForGood(cs, w, Apply(cs, w, s, steps[0]), steps[1..]); }
  }

  /** Giving up is final, for either end. */
  lemma SenderGone(cs: seq<seq<byte>>, w: nat, s: State, t: State, steps: seq<Step>)
    requires w > 0 && t == Apply(cs, w, s, SenderGivesUp) && CanRun(cs, w, t, steps)
    ensures Run(cs, w, t, steps).snd == s.snd
  {
    LeftForGood(cs, w, t, steps);
  }

  lemma ReceiverGone(cs: seq<seq<byte>>, w: nat, s: State, t: State, steps: seq<Step>)
    requires w > 0 && t == Apply(cs, w, s, ReceiverGivesUp) && CanRun(cs, w, t, steps)
    ensures Run(cs, w, t, steps).rcv == s.rcv
  {
    LeftForGood(cs, w, t, steps);
  }

  /** The receiver takes no step any more. */
  ghost predicate Stopped(s: State) { s.rcv.done || !s.rcvUp }

  /** The file is not acknowledged, and no reply that would do so can arrive. */
  ghost predicate Orphaned(cs: seq<seq<byte>>, s: State)
  {
    Stopped(s) && s.snd.lower < |cs| + 1 && (!s.sndUp || RR(|cs| + 1) !in s.replies)
  }

  lemma OrphanedStep(cs: seq<seq<byte>>, w: nat, s: State, step: Step)
    requires w > 0 && Inv(cs, w, s) && Orphaned(cs, s) && Enabled(cs, w, s, step)
    ensures Orphaned(cs, Apply(cs, w, s, step))
  {
    if step.DeliverReply? { DeliverReplyKeeps(cs, w, s, step.c); }
  }

  lemma {:induction false} OrphanedForGood(cs: seq<seq<byte>>, w: nat, s: State, steps: seq<Step>)
    requires w > 0 && Inv(cs, w, s) && Orphaned(cs, s) && CanRun(cs, w, s, steps)
    ensures Orphaned(cs, Run(cs, w, s, steps))
    decreases steps
  {
    if steps != [] {
      OrphanedStep(cs, w, s, steps[0]);
      StepKeeps(cs, w, s, steps[0]);
      OrphanedForGood(cs, w, Apply(cs, w, s, steps[0]), steps[1..]);
    }
  }

  /** A run that has everything, EOF included, acknowledged. */
  ghost predicate Acknowledges(cs: seq<seq<byte>>, w: nat, s: State, steps: seq<Step>)
    requires w > 0
  {
    CanRun(cs, w, s, steps) && Run(cs, w, s, steps).snd.lower == |cs| + 1
  }

  lemma NeverAcknowledged(cs: seq<seq<byte>>, w: nat, s: State)
    requires w > 0 && Inv(cs, w, s) && Orphaned(cs, s)
    ensures forall steps :: !Acknowledges(cs, w, s, steps)
  {
    forall steps ensures !Acknowledges(cs, w, s, steps) {
      if CanRun(cs, w, s, steps) { OrphanedForGood(cs, w, s, steps); }
    }
  }

  lemma StillAcknowledged(cs: seq<seq<byte>>, w: nat, s: State) returns (steps: seq<Step>)
    requires w > 0 && Inv(cs, w, s) && Stopped(s) && !Orphaned(cs, s)
    ensures Acknowledges(cs, w, s, steps)
  {
    if s.snd.lower == |cs| + 1 {
      return [];
    }
    LastRound(cs, w, s);
    return [DeliverReply(RR(|cs| + 1))];
  }

  /** Once the receiver has finished or given up, some run still has the whole
      file acknowledged exactly when it already is, or the last RR is in flight
      to a sender that is up: a lost last RR is never made good. */
  lemma AcknowledgedIff(file: seq<byte>, b: nat, w: nat, s: State)
    requires b > 0 && w > 0 && Reachable(file, b, w, s) && Stopped(s)
    ensures var cs := Chunks(file, b);
            (exists steps :: Acknowledges(cs, w, s, steps))
            <==> s.snd.lower == |cs| + 1 || (s.sndUp && RR(|cs| + 1) in s.replies)
  {
    var cs := Chunks(file, b);
    ReachableInv(file, b, w, s);
    if Orphaned(cs, s) {
      NeverAcknowledged(cs, w, s);
    } else {
      var steps := StillAcknowledged(cs, w, s);
    }
  }

  // ---- the fill loop is a run of sends ----

  ghost function PacketsFrom(cs: seq<seq<byte>>, lo: nat, hi: nat): multiset<Packet>
    decreases hi - lo
  {
    if hi <= lo then multiset{} else multiset{PacketOf(cs, lo)} + PacketsFrom(cs, lo + 1, hi)
  }

  ghost function Sends(n: nat): seq<Step>
  {
    if n == 0 then [] else [SendNext] + Sends(n - 1)
  }

  /** The state after the fill loop has run to its end, everything it sent in flight. */
  ghost function Filled(cs: seq<seq<byte>>, w: nat, s: State): State
    requires w > 0
  {
    var t := FillAll(cs, s.snd, w);
    s.(snd := t, data := s.data + PacketsFrom(cs, s.snd.next, t.next))
  }

  lemma {:induction false} FillAllGrows(cs: seq<seq<byte>>, s: SendState, w: nat)
    requires w > 0
    ensures FillAll(cs, s, w).next >= s.next
    ensures CanFill(cs, s, w) ==> FillAll(cs, s, w).next > s.next
    decreases |cs| + 1 - s.next
  {
    if CanFill(cs, s, w) { FillAllGrows(cs, FillOne(cs, s, w), w); }
  }

  lemma FilledStep(cs: seq<seq<byte>>, w: nat, s: State)
    requires w > 0 && CanFill(cs, s.snd, w)
    ensures Filled(cs, w, Apply(cs, w, s, SendNext)) == Filled(cs, w, s)
  {
    FillAllGrows(cs, s.snd, w);
    var t := FillAll(cs, s.snd, w);
    var p, ps := multiset{PacketOf(cs, s.snd.next)}, PacketsFrom(cs, s.snd.next + 1, t.next);
    assert s.data + p + ps == s.data + (p + ps);
  }

  /** The sender's inner loop, as one action, is SendNext repeated. */
  lemma {:induction false} FillIsSends(cs: seq<seq<byte>>, w: nat, s: State)
    requires w > 0 && s.sndUp
    ensures var n := FillAll(cs, s.snd, w).next - s.snd.next;
            n >= 0 && CanRun(cs, w, s, Sends(n)) && Run(cs, w, s, Sends(n)) == Filled(cs, w, s)
    decreases |cs| + 1 - s.snd.next
  {
    FillAllGrows(cs, s.snd, w);
    if CanFill(cs, s.snd, w) {
      var s1 := Apply(cs, w, s, SendNext);
      FillIsSends(cs, w, s1);
      FilledStep(cs, w, s);
      RunCons(cs, w, s, SendNext, Sends(FillAll(cs, s1.snd, w).next - s1.snd.next));
    } else {
      assert s.data + multiset{} == s.data;
    }
  }

  // ---- the machines take these steps ----

  ghost function Joint(server: Server, client: Rcopy, data: multiset<Packet>, replies: multiset<Control>,
                       sndUp: bool, rcvUp: bool): State
    reads server, server.win, client, client.rbuf
  {
    State(server.State(), client.State(), data, replies, sndUp, rcvUp)
  }

  /** Each step of the system that an endpoint takes is one call of its method,
      on the arrays of window.c, with what it sends put into the network. */
  method EndpointStep(server: Server, client: Rcopy, data: multiset<Packet>, replies: multiset<Control>, step: Step)
    returns (data': multiset<Packet>, replies': multiset<Control>)
    requires server.Valid() && client.Valid() && server.win.windowSize == client.rbuf.windowSize
    requires Enabled(server.cs, server.win.windowSize, Joint(server, client, data, replies, true, true), step)
    requires step.SendNext? || step.Timeout? || step.DeliverData? || step.DeliverReply?
    modifies server, server.win, server.win.slots, client, client.rbuf, client.rbuf.slots
    ensures server.Valid() && client.Valid()
    ensures Joint(server, client, data', replies', true, true) ==
            Apply(server.cs, server.win.windowSize, old(Joint(server, client, data, replies, true, true)), step)
  {
    data', replies' := data, replies;
    match step {
      case SendNext =>
        var p := server.SendOne();
        data' := data + multiset{p};
      case Timeout =>
        var resent := server.TimeoutResend();
        data' := data + Emit(resent);
      case DeliverData(p) =>
        var sent := client.HandleDataPacket(p);
        data', replies' := data - multiset{p}, replies + multiset(sent);
      case DeliverReply(c) =>
        var resent := server.HandleControl(c);
        data', replies' := data + Emit(resent), replies - multiset{c};
    }
  }
}
