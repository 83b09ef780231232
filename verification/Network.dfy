/** The transfer over a network of bytes.  Every PDU is laid out and stamped on
    the sending host, goes through that host's fault injector (which may drop it
    or complement one of its bytes), can then be lost, duplicated, delayed and
    reordered, and is taken in only if the receiving host's parser accepts it.
    The two sockets are those of the handshake, so PDUs of the handshake may
    still be in flight when the transfer starts.  The endpoints are those of
    Transfer. */
module Network {
  import opened Bytes
  import opened Checksum
  import opened Wire
  import opened Window
  import opened FileChunks
  import opened Sender
  import opened Receiver
  import Handshake
  import Injector
  import Transfer

  /** A host: its byte order and what its injector was told. */
  datatype Host = Host(order: Endian, settings: Injector.Settings)

  /** The two hosts, and what both programs look at before they take a PDU in. */
  datatype Link = Link(sender: Host, receiver: Host, parser: Parser)

  /** data and replies are the messages in flight in each direction. */
  datatype State = State(
    snd: SendState, rcv: RecvState,
    data: multiset<seq<byte>>, replies: multiset<seq<byte>>,
    sndUp: bool, rcvUp: bool)

  /** One pass through the injector: the number of the message and its draws;
      localSeq is the header number of a control packet. */
  datatype Pass = Pass(localSeq: u32, msgNo: u32, draws: Injector.Draws)

  datatype Step =
    | SendNext(passes: seq<Pass>)
    | Timeout(passes: seq<Pass>)
    | DeliverData(m: seq<byte>, passes: seq<Pass>)
    | DeliverReply(m: seq<byte>, passes: seq<Pass>)
    | LoseData(m: seq<byte>)
    | LoseReply(m: seq<byte>)
    | DuplicateData(m: seq<byte>)
    | DuplicateReply(m: seq<byte>)
    | SenderGivesUp
    | ReceiverGivesUp

  ghost function Init(data: multiset<seq<byte>>, replies: multiset<seq<byte>>): State
  {
    State(SendState(0, 0, map[]), Start, data, replies, true, true)
  }

  // ---- what goes out ----

  /** htonl keeps 32 bits of a number. */
  function DataPDU(e: Endian, p: Packet): seq<byte>
  {
    Stamp(e, DataBytes(p.(seqNo := p.seqNo % 0x1_0000_0000)))
  }

  function ControlPDU(e: Endian, localSeq: u32, c: Control): seq<byte>
  {
    Stamp(e, ControlBytes(localSeq, c.(n := c.n % 0x1_0000_0000)))
  }

  ghost predicate LegalPass(h: Host, len: nat, t: Pass)
  {
    Injector.Legal(Injector.Standard(h.settings), Injector.Chance(h.settings), len, t.draws)
  }

  ghost function Through(h: Host, m: seq<byte>, t: Pass): Option<seq<byte>>
    requires LegalPass(h, |m|, t)
  {
    Injector.Sent(Injector.Standard(h.settings), Injector.Chance(h.settings), m, t.msgNo, t.draws)
  }

  ghost function Arriving(o: Option<seq<byte>>): multiset<seq<byte>>
  {
    if o.Some? then multiset{o.value} else multiset{}
  }

  ghost predicate LegalData(h: Host, ps: seq<Packet>, ts: seq<Pass>)
  {
    |ts| == |ps| && forall i :: 0 <= i < |ps| ==> LegalPass(h, HEADER + |ps[i].payload|, ts[i])
  }

  /** What comes out of the injector for these packets. */
  ghost function CarryData(h: Host, ps: seq<Packet>, ts: seq<Pass>): multiset<seq<byte>>
    requires LegalData(h, ps, ts)
  {
    if ps == [] then multiset{}
    else Arriving(Through(h, DataPDU(h.order, ps[0]), ts[0])) + CarryData(h, ps[1..], ts[1..])
  }

  ghost predicate LegalReplies(h: Host, cs: seq<Control>, ts: seq<Pass>)
  {
    |ts| == |cs| && forall i :: 0 <= i < |cs| ==> LegalPass(h, CONTROL_SIZE, ts[i])
  }

  ghost function CarryReplies(h: Host, cs: seq<Control>, ts: seq<Pass>): multiset<seq<byte>>
    requires LegalReplies(h, cs, ts)
  {
    if cs == [] then multiset{}
    else Arriving(Through(h, ControlPDU(h.order, ts[0].localSeq, cs[0]), ts[0])) + CarryReplies(h, cs[1..], ts[1..])
  }

  function ToList<T>(o: Option<T>): seq<T>
  {
    if o.Some? then [o.value] else []
  }

  // ---- the steps ----

  /** What the receiver does with a message: nothing, if it is not accepted. */
  ghost function Accept(l: Link, w: nat, s: State, m: seq<byte>): (RecvState, seq<Control>)
    requires w > 0
  {
    match TakeData(l.parser, l.receiver.order, m)
    case Some(p) => Receive(s.rcv, w, p)
    case None => (s.rcv, [])
  }

  ghost function React(l: Link, w: nat, s: State, m: seq<byte>): (SendState, seq<Packet>)
    requires w > 0
  {
    match TakeControl(l.parser, l.sender.order, m)
    case Some(c) => var (t, resent) := OnControl(s.snd, w, c); (t, ToList(resent))
    case None => (s.snd, [])
  }

  ghost predicate Enabled(l: Link, cs: seq<seq<byte>>, w: nat, s: State, step: Step)
    requires w > 0
  {
    match step
    case SendNext(ts) => s.sndUp && CanFill(cs, s.snd, w) && LegalData(l.sender, [PacketOf(cs, s.snd.next)], ts)
    case Timeout(ts) => s.sndUp && !CanFill(cs, s.snd, w) && LegalData(l.sender, ToList(OnTimeout(s.snd, w)), ts)
    case DeliverData(m, ts) =>
      s.rcvUp && !s.rcv.done && m in s.data && LegalReplies(l.receiver, Accept(l, w, s, m).1, ts)
    case DeliverReply(m, ts) => s.sndUp && m in s.replies && LegalData(l.sender, React(l, w, s, m).1, ts)
    case LoseData(m) => m in s.data
    case LoseReply(m) => m in s.replies
    case DuplicateData(m) => m in s.data
    case DuplicateReply(m) => m in s.replies
    case SenderGivesUp => true
    case ReceiverGivesUp => true
  }

  ghost function Apply(l: Link, cs: seq<seq<byte>>, w: nat, s: State, step: Step): State
    requires w > 0 && Enabled(l, cs, w, s, step)
  {
    match step
    case SendNext(ts) =>
      s.(snd := FillOne(cs, s.snd, w), data := s.data + CarryData(l.sender, [PacketOf(cs, s.snd.next)], ts))
    case Timeout(ts) => s.(data := s.data + CarryData(l.sender, ToList(OnTimeout(s.snd, w)), ts))
    case DeliverData(m, ts) =>
      var (r, sent) := Accept(l, w, s, m);
      s.(rcv := r, data := s.data - multiset{m}, replies := s.replies + CarryReplies(l.receiver, sent, ts))
    case DeliverReply(m, ts) =>
      var (t, resent) := React(l, w, s, m);
      s.(snd := t, replies := s.replies - multiset{m}, data := s.data + CarryData(l.sender, resent, ts))
    case LoseData(m) => s.(data := s.data - multiset{m})
    case LoseReply(m) => s.(replies := s.replies - multiset{m})
    case DuplicateData(m) => s.(data := s.data + multiset{m})
    case DuplicateReply(m) => s.(replies := s.replies + multiset{m})
    case SenderGivesUp => s.(sndUp := false)
    case ReceiverGivesUp => s.(rcvUp := false)
  }

  ghost predicate Reaches(l: Link, cs: seq<seq<byte>>, w: nat, s: State, steps: seq<Step>, t: State)
    requires w > 0
    decreases steps
  {
    if steps == [] then s == t
    else Enabled(l, cs, w, s, steps[0]) && Reaches(l, cs, w, Apply(l, cs, w, s, steps[0]), steps[1..], t)
  }

  // ---- what the handshake leaves behind ----

  /** The seven-byte PDUs of the handshake, all with sequence number 1. */
  function HandshakePDU(e: Endian, flag: byte): (m: seq<byte>)
    ensures |m| == HEADER
  {
    Stamp(e, Header(1, flag))
  }

  /** This is what the host's injector may make of that message. */
  ghost predicate Emerges(h: Host, sent: seq<byte>, m: seq<byte>)
  {
    exists t :: LegalPass(h, |sent|, t) && Through(h, sent, t) == Some(m)
  }

  /** From a child to the client: flags 33, 9 and 32. */
  ghost predicate ServerLeftover(h: Host, m: seq<byte>)
  {
    || Emerges(h, HandshakePDU(h.order, Handshake.TALK_HERE), m)
    || Emerges(h, HandshakePDU(h.order, Handshake.FILE_OK), m)
    || Emerges(h, HandshakePDU(h.order, Handshake.FILE_NOT_OK), m)
  }

  /** From the client to a child: a repeated request, or the answer to flag 32. */
  ghost predicate ClientLeftover(h: Host, m: seq<byte>)
  {
    || Emerges(h, HandshakePDU(h.order, Handshake.TALK_HERE), m)
    || exists name: seq<byte>, bufferSize: nat, windowSize: nat ::
         |name| <= NAME_SIZE && Emerges(h, Stamp(h.order, FilenameBytes(name, bufferSize, windowSize)), m)
  }

  ghost predicate Leftovers(l: Link, data: multiset<seq<byte>>, replies: multiset<seq<byte>>)
  {
    && (forall m :: m in data ==> ServerLeftover(l.sender, m))
    && (forall m :: m in replies ==> ClientLeftover(l.receiver, m))
  }

  ghost predicate Reachable(l: Link, file: seq<byte>, b: nat, w: nat, s: State)
    requires b > 0 && w > 0
  {
    exists data, replies, steps ::
      Leftovers(l, data, replies) && Reaches(l, Chunks(file, b), w, Init(data, replies), steps, s)
  }

  /** At most one byte of a message is complemented on the way. */
  lemma EmergedByte(h: Host, sent: seq<byte>, m: seq<byte>, i: nat)
    requires Emerges(h, sent, m) && i < |sent|
    ensures |m| == |sent| && (m[i] == sent[i] || m[i] == 0xFF - sent[i])
  {
    var t :| LegalPass(h, |sent|, t) && Through(h, sent, t) == Some(m);
    Injector.FlipRegisteredIff(h.settings);
    Injector.Conservation(Injector.Standard(h.settings), Injector.Chance(h.settings), sent, t.msgNo, t.draws);
  }

  /** No flag of the handshake, complemented or not, is that of a data packet ... */
  lemma ServerLeftoverRejected(h: Host, k: Parser, e: Endian, m: seq<byte>)
    requires ServerLeftover(h, m) && k.flags
    ensures TakeData(k, e, m) == None
  {
    var flags: set<byte> := {Handshake.TALK_HERE, Handshake.FILE_OK, Handshake.FILE_NOT_OK};
    var flag :| flag in flags && Emerges(h, HandshakePDU(h.order, flag), m);
    EmergedByte(h, HandshakePDU(h.order, flag), m, 6);
  }

  /** ... or of an RR or SREJ. */
  lemma ClientLeftoverRejected(h: Host, k: Parser, e: Endian, m: seq<byte>)
    requires ClientLeftover(h, m)
    ensures TakeControl(k, e, m) == None
  {
    if Emerges(h, HandshakePDU(h.order, Handshake.TALK_HERE), m) {
      EmergedByte(h, HandshakePDU(h.order, Handshake.TALK_HERE), m, 6);
    } else {
      var name: seq<byte>, bufferSize: nat, windowSize: nat :|
        |name| <= NAME_SIZE && Emerges(h, Stamp(h.order, FilenameBytes(name, bufferSize, windowSize)), m);
      EmergedByte(h, Stamp(h.order, FilenameBytes(name, bufferSize, windowSize)), m, 6);
    }
  }

  // ---- the invariant ----

  /** The endpoints alone, as a state of Transfer with these messages in flight. */
  ghost function Core(s: State, data: multiset<Packet>, replies: multiset<Control>): Transfer.State
  {
    Transfer.State(s.snd, s.rcv, data, replies, s.sndUp, s.rcvUp)
  }

  /** Bytes in flight are rejected, or are a packet of the file already sent. */
  ghost predicate DataOk(l: Link, cs: seq<seq<byte>>, m: seq<byte>, top: nat)
  {
    var p := TakeData(l.parser, l.receiver.order, m);
    p.Some? ==> Transfer.Genuine(cs, p.value, top)
  }

  ghost predicate HonestReply(c: Control, expected: nat, top: nat)
  {
    c.n <= expected && (c.SREJ? ==> c.n < top)
  }

  ghost predicate ReplyOk(l: Link, m: seq<byte>, expected: nat, top: nat)
  {
    var c := TakeControl(l.parser, l.sender.order, m);
    c.Some? ==> HonestReply(c.value, expected, top)
  }

  ghost predicate Inv(l: Link, cs: seq<seq<byte>>, w: nat, s: State)
  {
    && |cs| + 1 < 0x1_0000_0000 && l.parser == DOCUMENTED
    && Transfer.Inv(cs, w, Core(s, multiset{}, multiset{}))
    && (forall m :: m in s.data ==> DataOk(l, cs, m, s.snd.next))
    && (forall m :: m in s.replies ==> ReplyOk(l, m, s.rcv.expected, s.snd.next))
  }

  /** Every genuine packet comes out of the injector as bytes that are rejected
      or are that packet. */
  lemma {:induction false} CarriedData(l: Link, cs: seq<seq<byte>>, ps: seq<Packet>, ts: seq<Pass>, top: nat)
    requires l.parser == DOCUMENTED && LegalData(l.sender, ps, ts) && top <= |cs| + 1 < 0x1_0000_0000
    requires forall p :: p in ps ==> Transfer.Genuine(cs, p, top)
    ensures forall m :: m in CarryData(l.sender, ps, ts) ==> DataOk(l, cs, m, top)
    decreases ps
  {
    if ps != [] {
      var p, c := ps[0], l.sender.settings;
      assert p in ps && p.(seqNo := p.seqNo % 0x1_0000_0000) == p;
      Injector.FlipRegisteredIff(c);
      Injector.DataLostOrIntact(l.sender.order, l.receiver.order, Injector.Standard(c), Injector.Chance(c),
                                p, ts[0].msgNo, ts[0].draws);
      CarriedData(l, cs, ps[1..], ts[1..], top);
    }
  }

  lemma {:induction false} CarriedReplies(l: Link, rs: seq<Control>, ts: seq<Pass>, expected: nat, top: nat)
    requires l.parser == DOCUMENTED && LegalReplies(l.receiver, rs, ts) && expected < 0x1_0000_0000
    requires forall c :: c in rs ==> HonestReply(c, expected, top)
    ensures forall m :: m in CarryReplies(l.receiver, rs, ts) ==> ReplyOk(l, m, expected, top)
    decreases rs
  {
    if rs != [] {
      var r, c := rs[0], l.receiver.settings;
      assert r in rs && r.(n := r.n % 0x1_0000_0000) == r;
      Injector.FlipRegisteredIff(c);
      Injector.ControlLostOrIntact(l.receiver.order, l.sender.order, Injector.Standard(c), Injector.Chance(c),
                                   ts[0].localSeq, r, ts[0].msgNo, ts[0].draws);
      CarriedReplies(l, rs[1..], ts[1..], expected, top);
    }
  }

  /** What is in flight stays fit to arrive while the edges only move up. */
  lemma InFlightStays(l: Link, cs: seq<seq<byte>>, w: nat, s: State, t: State)
    requires Inv(l, cs, w, s) && s.rcv.expected <= t.rcv.expected && s.snd.next <= t.snd.next
    ensures forall m :: m in s.data ==> DataOk(l, cs, m, t.snd.next)
    ensures forall m :: m in s.replies ==> ReplyOk(l, m, t.rcv.expected, t.snd.next)
  {
  }

  lemma SendNextKeeps(l: Link, cs: seq<seq<byte>>, w: nat, s: State, ts: seq<Pass>)
    requires w > 0 && Inv(l, cs, w, s) && Enabled(l, cs, w, s, SendNext(ts))
    ensures Inv(l, cs, w, Apply(l, cs, w, s, SendNext(ts)))
  {
    var t := Apply(l, cs, w, s, SendNext(ts));
    Transfer.SendNextKeeps(cs, w, Core(s, multiset{}, multiset{}));
    CarriedData(l, cs, [PacketOf(cs, s.snd.next)], ts, t.snd.next);
    InFlightStays(l, cs, w, s, t);
  }

  lemma TimeoutKeeps(l: Link, cs: seq<seq<byte>>, w: nat, s: State, ts: seq<Pass>)
    requires w > 0 && Inv(l, cs, w, s) && Enabled(l, cs, w, s, Timeout(ts))
    ensures Inv(l, cs, w, Apply(l, cs, w, s, Timeout(ts)))
  {
    var o, c := OnTimeout(s.snd, w), Core(s, multiset{}, multiset{});
    Transfer.TimeoutKeeps(cs, w, c);
    if o.Some? { assert o.value in Transfer.Apply(cs, w, c, Transfer.Timeout).data; }
    CarriedData(l, cs, ToList(o), ts, s.snd.next);
  }

  /** What a message does to the receiver. */
  lemma AcceptKeeps(l: Link, cs: seq<seq<byte>>, w: nat, s: State, m: seq<byte>)
    requires w > 0 && Inv(l, cs, w, s) && m in s.data
    ensures var (r, sent) := Accept(l, w, s, m);
            && Transfer.Inv(cs, w, Core(s.(rcv := r), multiset{}, multiset{})) && s.rcv.expected <= r.expected
            && (forall c :: c in sent ==> HonestReply(c, r.expected, s.snd.next))
  {
    assert DataOk(l, cs, m, s.snd.next);
    var o := TakeData(l.parser, l.receiver.order, m);
    if o.Some? {
      Transfer.ReceiveFaithful(cs, w, s.rcv, o.value, s.snd.next);
    }
  }

  /** What a message does to the sender. */
  lemma ReactKeeps(l: Link, cs: seq<seq<byte>>, w: nat, s: State, m: seq<byte>)
    requires w > 0 && Inv(l, cs, w, s) && m in s.replies
    ensures var (t, resent) := React(l, w, s, m);
            && Transfer.Inv(cs, w, Core(s.(snd := t), multiset{}, multiset{})) && t.next == s.snd.next
            && (forall p :: p in resent ==> Transfer.Genuine(cs, p, t.next))
  {
    assert ReplyOk(l, m, s.rcv.expected, s.snd.next);
    var o := TakeControl(l.parser, l.sender.order, m);
    if o.Some? {
      OnControlKeepsIff(cs, s.snd, w, o.value);
      if o.value.SREJ? { SrejFaithful(cs, s.snd, w, o.value.n); }
    }
  }

  lemma DeliverDataKeeps(l: Link, cs: seq<seq<byte>>, w: nat, s: State, m: seq<byte>, ts: seq<Pass>)
    requires w > 0 && Inv(l, cs, w, s) && Enabled(l, cs, w, s, DeliverData(m, ts))
    ensures Inv(l, cs, w, Apply(l, cs, w, s, DeliverData(m, ts)))
  {
    var (r, sent) := Accept(l, w, s, m);
    AcceptKeeps(l, cs, w, s, m);
    CarriedReplies(l, sent, ts, r.expected, s.snd.next);
    InFlightStays(l, cs, w, s, s.(rcv := r));
  }

  lemma DeliverReplyKeeps(l: Link, cs: seq<seq<byte>>, w: nat, s: State, m: seq<byte>, ts: seq<Pass>)
    requires w > 0 && Inv(l, cs, w, s) && Enabled(l, cs, w, s, DeliverReply(m, ts))
    ensures Inv(l, cs, w, Apply(l, cs, w, s, DeliverReply(m, ts)))
  {
    var (t, resent) := React(l, w, s, m);
    ReactKeeps(l, cs, w, s, m);
    CarriedData(l, cs, resent, ts, t.next);
    InFlightStays(l, cs, w, s, s.(snd := t));
  }

  lemma StepKeeps(l: Link, cs: seq<seq<byte>>, w: nat, s: State, step: Step)
    requires w > 0 && Inv(l, cs, w, s) && Enabled(l, cs, w, s, step)
    ensures Inv(l, cs, w, Apply(l, cs, w, s, step))
  {
    match step {
      case SendNext(ts) => SendNextKeeps(l, cs, w, s, ts);
      case Timeout(ts) => TimeoutKeeps(l, cs, w, s, ts);
      case DeliverData(m, ts) => DeliverDataKeeps(l, cs, w, s, m, ts);
      case DeliverReply(m, ts) => DeliverReplyKeeps(l, cs, w, s, m, ts);
      case _ => NetworkKeeps(l, cs, w, s, step);
    }
  }

  lemma NetworkKeeps(l: Link, cs: seq<seq<byte>>, w: nat, s: State, step: Step)
    requires w > 0 && Inv(l, cs, w, s) && Enabled(l, cs, w, s, step)
    requires !step.SendNext? && !step.Timeout? && !step.DeliverData? && !step.DeliverReply?
    ensures Inv(l, cs, w, Apply(l, cs, w, s, step))
  {
  }

  lemma {:induction false} RunKeeps(l: Link, cs: seq<seq<byte>>, w: nat, s: State, steps: seq<Step>, t: State)
    requires w > 0 && Inv(l, cs, w, s) && Reaches(l, cs, w, s, steps, t)
    ensures Inv(l, cs, w, t)
    decreases steps
  {
    if steps != [] {
      StepKeeps(l, cs, w, s, steps[0]);
      RunKeeps(l, cs, w, Apply(l, cs, w, s, steps[0]), steps[1..], t);
    }
  }

  /** The file's numbers fit the wire, and PDUs are taken in as documented. */
  ghost predicate Sound(l: Link, file: seq<byte>, b: nat)
    requires b > 0
  {
    l.parser == DOCUMENTED && |Chunks(file, b)| + 1 < 0x1_0000_0000
  }

  lemma ReachableInv(l: Link, file: seq<byte>, b: nat, w: nat, s: State)
    requires b > 0 && w > 0 && Reachable(l, file, b, w, s) && Sound(l, file, b)
    ensures Inv(l, Chunks(file, b), w, s)
  {
    var cs := Chunks(file, b);
    var data, replies, steps :| Leftovers(l, data, replies) && Reaches(l, cs, w, Init(data, replies), steps, s);
    forall m | m in data ensures DataOk(l, cs, m, 0) {
      ServerLeftoverRejected(l.sender, l.parser, l.receiver.order, m);
    }
    forall m | m in replies ensures ReplyOk(l, m, 0, 0) {
      ClientLeftoverRejected(l.receiver, l.parser, l.sender.order, m);
    }
    assert cs[..0] == [];
    RunKeeps(l, cs, w, Init(data, replies), steps, s);
  }

  // ---- safety ----

  /** Whatever the handshake left in flight, and whatever the injectors of the two
      hosts and the network between them lose, corrupt, duplicate, delay or
      reorder, the bytes written are a prefix of the file, and the receiver has
      finished only with the whole of it. */
  lemma OutputIsPrefix(l: Link, file: seq<byte>, b: nat, w: nat, s: State)
    requires b > 0 && w > 0 && Reachable(l, file, b, w, s) && Sound(l, file, b)
    ensures s.rcv.output == Transfer.Upto(Chunks(file, b), s.rcv.expected)
    ensures s.rcv.output <= file
    ensures s.rcv.done <==> s.rcv.expected == |Chunks(file, b)| + 1
    ensures s.rcv.done ==> s.rcv.output == file
  {
    var cs := Chunks(file, b);
    ReachableInv(l, file, b, w, s);
    ChunksRebuildFile(file, b);
    FlattenPrefix(cs, if s.rcv.expected < |cs| then s.rcv.expected else |cs|);
    assert cs[..|cs|] == cs;
  }

  /** Bytes in flight are rejected, or are exactly a packet of the file; and a
      reply that is accepted never acknowledges what was not received. */
  lemma InFlightGenuine(l: Link, file: seq<byte>, b: nat, w: nat, s: State)
    requires b > 0 && w > 0 && Reachable(l, file, b, w, s) && Sound(l, file, b)
    ensures forall m :: m in s.data ==>
              var p := ReceiveData(l.receiver.order, m);
              p.Some? ==> p.value.seqNo < s.snd.next && p.value == PacketOf(Chunks(file, b), p.value.seqNo)
    ensures forall m :: m in s.replies ==>
              var c := ReceiveControl(l.sender.order, m);
              c.Some? ==> c.value.n <= s.rcv.expected
    ensures s.snd.lower <= s.rcv.expected <= s.snd.next <= s.snd.lower + w
  {
    ReachableInv(l, file, b, w, s);
    assert forall m :: m in s.data ==> DataOk(l, Chunks(file, b), m, s.snd.next);
    assert forall m :: m in s.replies ==> ReplyOk(l, m, s.rcv.expected, s.snd.next);
  }

  // ---- progress ----

  /** No drop list is registered, so there is always a draw that does nothing. */
  predicate NoDropList(l: Link)
  {
    Injector.DropList(l.sender.settings) == [] && Injector.DropList(l.receiver.settings) == []
  }

  /** The chance event does not fire. */
  function QuietPass(h: Host): Pass
  {
    Pass(0, 0, Injector.Draws(seq(|Injector.Standard(h.settings)|, _ => 0), false, 0, 0))
  }

  function Quiet(h: Host, n: nat): (ts: seq<Pass>)
    ensures |ts| == n
  {
    seq(n, _ => QuietPass(h))
  }

  ghost predicate CoversData(e: Endian, ms: multiset<seq<byte>>, ps: multiset<Packet>)
  {
    forall p :: p in ps ==> ms[DataPDU(e, p)] >= ps[p]
  }

  ghost predicate CoversReplies(e: Endian, ms: multiset<seq<byte>>, cs: multiset<Control>)
  {
    forall c :: c in cs ==> ms[ControlPDU(e, 0, c)] >= cs[c]
  }

  /** Everything in flight in the state of Transfer is in flight here as bytes. */
  ghost predicate Covers(l: Link, s: State, a: Transfer.State)
  {
    && s.snd == a.snd && s.rcv == a.rcv && s.sndUp == a.sndUp && s.rcvUp == a.rcvUp
    && CoversData(l.sender.order, s.data, a.data)
    && CoversReplies(l.receiver.order, s.replies, a.replies)
  }

  /** A PDU gives back what it was made of, to every parser ... */
  lemma DataAccepted(k: Parser, e: Endian, host: Endian, p: Packet)
    requires p.seqNo < 0x1_0000_0000
    ensures TakeData(k, host, DataPDU(e, p)) == Some(p)
  {
    assert p.(seqNo := p.seqNo % 0x1_0000_0000) == p;
    DataRoundTrip(e, host, p);
  }

  lemma ReplyAccepted(k: Parser, e: Endian, host: Endian, c: Control)
    requires c.n < 0x1_0000_0000
    ensures TakeControl(k, host, ControlPDU(e, 0, c)) == Some(c)
  {
    assert c.(n := c.n % 0x1_0000_0000) == c;
    ControlRoundTrip(e, host, 0, c);
  }

  /** ... so no two are alike, and taking one away leaves the others covered. */
  lemma DataTaken(e: Endian, ms: multiset<seq<byte>>, ps: multiset<Packet>, p: Packet)
    requires CoversData(e, ms, ps) && p in ps && forall q :: q in ps ==> q.seqNo < 0x1_0000_0000
    ensures DataPDU(e, p) in ms && CoversData(e, ms - multiset{DataPDU(e, p)}, ps - multiset{p})
  {
    forall q | q in ps - multiset{p}
      ensures (ms - multiset{DataPDU(e, p)})[DataPDU(e, q)] >= (ps - multiset{p})[q]
    {
      DataAccepted(DOCUMENTED, e, e, p);
      DataAccepted(DOCUMENTED, e, e, q);
    }
  }

  lemma ReplyTaken(e: Endian, ms: multiset<seq<byte>>, cs: multiset<Control>, c: Control)
    requires CoversReplies(e, ms, cs) && c in cs && forall d :: d in cs ==> d.n < 0x1_0000_0000
    ensures ControlPDU(e, 0, c) in ms && CoversReplies(e, ms - multiset{ControlPDU(e, 0, c)}, cs - multiset{c})
  {
    forall d | d in cs - multiset{c}
      ensures (ms - multiset{ControlPDU(e, 0, c)})[ControlPDU(e, 0, d)] >= (cs - multiset{c})[d]
    {
      ReplyAccepted(DOCUMENTED, e, e, c);
      ReplyAccepted(DOCUMENTED, e, e, d);
    }
  }

  lemma DataAdded(e: Endian, ms: multiset<seq<byte>>, ps: multiset<Packet>,
                  ms': multiset<seq<byte>>, ps': multiset<Packet>)
    requires CoversData(e, ms, ps) && CoversData(e, ms', ps')
    ensures CoversData(e, ms + ms', ps + ps')
  {
    forall p | p in ps + ps' ensures (ms + ms')[DataPDU(e, p)] >= (ps + ps')[p] {
      assert ms[DataPDU(e, p)] >= ps[p] && ms'[DataPDU(e, p)] >= ps'[p];
    }
  }

  lemma RepliesAdded(e: Endian, ms: multiset<seq<byte>>, cs: multiset<Control>,
                     ms': multiset<seq<byte>>, cs': multiset<Control>)
    requires CoversReplies(e, ms, cs) && CoversReplies(e, ms', cs')
    ensures CoversReplies(e, ms + ms', cs + cs')
  {
    forall c | c in cs + cs' ensures (ms + ms')[ControlPDU(e, 0, c)] >= (cs + cs')[c] {
      assert ms[ControlPDU(e, 0, c)] >= cs[c] && ms'[ControlPDU(e, 0, c)] >= cs'[c];
    }
  }

  /** A message then goes through the injector unchanged. */
  lemma Unharmed(h: Host, m: seq<byte>)
    requires Injector.DropList(h.settings) == [] && m != []
    ensures LegalPass(h, |m|, QuietPass(h)) && Through(h, m, QuietPass(h)) == Some(m)
  {
    var c, t := h.settings, QuietPass(h);
    Injector.FlipRegisteredIff(c);
    Injector.StandardDrops(c, t.msgNo);
    Injector.Conservation(Injector.Standard(c), Injector.Chance(c), m, t.msgNo, t.draws);
  }

  lemma QuietData(l: Link, o: Option<Packet>)
    requires NoDropList(l)
    ensures LegalData(l.sender, ToList(o), Quiet(l.sender, |ToList(o)|))
    ensures CoversData(l.sender.order, CarryData(l.sender, ToList(o), Quiet(l.sender, |ToList(o)|)), Transfer.Emit(o))
  {
    if o.Some? { Unharmed(l.sender, DataPDU(l.sender.order, o.value)); }
  }

  ghost function ReplyPDUs(e: Endian, rs: seq<Control>): multiset<seq<byte>>
  {
    if rs == [] then multiset{} else multiset{ControlPDU(e, 0, rs[0])} + ReplyPDUs(e, rs[1..])
  }

  lemma {:induction false} ReplyPDUsCover(e: Endian, rs: seq<Control>)
    ensures CoversReplies(e, ReplyPDUs(e, rs), multiset(rs))
  {
    if rs != [] {
      ReplyPDUsCover(e, rs[1..]);
      RepliesAdded(e, multiset{ControlPDU(e, 0, rs[0])}, multiset{rs[0]}, ReplyPDUs(e, rs[1..]), multiset(rs[1..]));
      assert multiset(rs) == multiset{rs[0]} + multiset(rs[1..]) by { assert rs == [rs[0]] + rs[1..]; }
    }
  }

  lemma {:induction false} QuietReplies(l: Link, rs: seq<Control>)
    requires NoDropList(l)
    ensures LegalReplies(l.receiver, rs, Quiet(l.receiver, |rs|))
    ensures CarryReplies(l.receiver, rs, Quiet(l.receiver, |rs|)) == ReplyPDUs(l.receiver.order, rs)
    decreases rs
  {
    if rs != [] {
      QuietReplies(l, rs[1..]);
      Unharmed(l.receiver, ControlPDU(l.receiver.order, 0, rs[0]));
      assert Quiet(l.receiver, |rs|)[1..] == Quiet(l.receiver, |rs[1..]|);
    }
  }

  /** The step over bytes that does what a step of Transfer does. */
  ghost function Lift(l: Link, w: nat, a: Transfer.State, step: Transfer.Step): Step
    requires w > 0
  {
    match step
    case SendNext => SendNext(Quiet(l.sender, 1))
    case Timeout => Timeout(Quiet(l.sender, |ToList(OnTimeout(a.snd, w))|))
    case DeliverData(p) => DeliverData(DataPDU(l.sender.order, p), Quiet(l.receiver, |Receive(a.rcv, w, p).1|))
    case DeliverReply(c) =>
      DeliverReply(ControlPDU(l.receiver.order, 0, c), Quiet(l.sender, |ToList(OnControl(a.snd, w, c).1)|))
    case LoseData(p) => LoseData(DataPDU(l.sender.order, p))
    case LoseReply(c) => LoseReply(ControlPDU(l.receiver.order, 0, c))
    case DuplicateData(p) => DuplicateData(DataPDU(l.sender.order, p))
    case DuplicateReply(c) => DuplicateReply(ControlPDU(l.receiver.order, 0, c))
    case SenderGivesUp => SenderGivesUp
    case ReceiverGivesUp => ReceiverGivesUp
  }

  /** The numbers in flight fit the wire. */
  ghost predicate Fits(a: Transfer.State)
  {
    && (forall p :: p in a.data ==> p.seqNo < 0x1_0000_0000)
    && (forall c :: c in a.replies ==> c.n < 0x1_0000_0000)
  }

  ghost predicate Lifts(l: Link, cs: seq<seq<byte>>, w: nat, s: State, a: Transfer.State, step: Transfer.Step)
    requires w > 0
  {
    var b := Lift(l, w, a, step);
    Enabled(l, cs, w, s, b) && Covers(l, Apply(l, cs, w, s, b), Transfer.Apply(cs, w, a, step))
  }

  lemma LiftSend(l: Link, cs: seq<seq<byte>>, w: nat, s: State, a: Transfer.State, step: Transfer.Step)
    requires w > 0 && NoDropList(l) && Covers(l, s, a) && Transfer.Enabled(cs, w, a, step)
    requires step.SendNext? || step.Timeout?
    ensures Lifts(l, cs, w, s, a, step)
  {
    var o := if step.SendNext? then Some(PacketOf(cs, s.snd.next)) else OnTimeout(s.snd, w);
    QuietData(l, o);
    DataAdded(l.sender.order, s.data, a.data,
              CarryData(l.sender, ToList(o), Quiet(l.sender, |ToList(o)|)), Transfer.Emit(o));
  }

  lemma LiftData(l: Link, cs: seq<seq<byte>>, w: nat, s: State, a: Transfer.State, p: Packet)
    requires w > 0 && NoDropList(l) && Covers(l, s, a) && Fits(a) && Transfer.Enabled(cs, w, a, Transfer.DeliverData(p))
    ensures Lifts(l, cs, w, s, a, Transfer.DeliverData(p))
  {
    var sent, e := Receive(a.rcv, w, p).1, l.receiver.order;
    DataTaken(l.sender.order, s.data, a.data, p);
    DataAccepted(l.parser, l.sender.order, e, p);
    QuietReplies(l, sent);
    ReplyPDUsCover(e, sent);
    RepliesAdded(e, s.replies, a.replies, CarryReplies(l.receiver, sent, Quiet(l.receiver, |sent|)), multiset(sent));
  }

  lemma LiftReply(l: Link, cs: seq<seq<byte>>, w: nat, s: State, a: Transfer.State, c: Control)
    requires w > 0 && NoDropList(l) && Covers(l, s, a) && Fits(a)
    requires Transfer.Enabled(cs, w, a, Transfer.DeliverReply(c))
    ensures Lifts(l, cs, w, s, a, Transfer.DeliverReply(c))
  {
    var o, e := OnControl(a.snd, w, c).1, l.sender.order;
    ReplyTaken(l.receiver.order, s.replies, a.replies, c);
    ReplyAccepted(l.parser, l.receiver.order, e, c);
    QuietData(l, o);
    DataAdded(e, s.data, a.data, CarryData(l.sender, ToList(o), Quiet(l.sender, |ToList(o)|)), Transfer.Emit(o));
  }

  lemma LiftLoseData(l: Link, cs: seq<seq<byte>>, w: nat, s: State, a: Transfer.State, p: Packet)
    requires w > 0 && Covers(l, s, a) && Fits(a) && p in a.data
    ensures Lifts(l, cs, w, s, a, Transfer.LoseData(p))
  {
    DataTaken(l.sender.order, s.data, a.data, p);
  }

  lemma LiftLoseReply(l: Link, cs: seq<seq<byte>>, w: nat, s: State, a: Transfer.State, c: Control)
    requires w > 0 && Covers(l, s, a) && Fits(a) && c in a.replies
    ensures Lifts(l, cs, w, s, a, Transfer.LoseReply(c))
  {
    ReplyTaken(l.receiver.order, s.replies, a.replies, c);
  }

  lemma LiftDuplicateData(l: Link, cs: seq<seq<byte>>, w: nat, s: State, a: Transfer.State, p: Packet)
    requires w > 0 && Covers(l, s, a) && p in a.data
    ensures Lifts(l, cs, w, s, a, Transfer.DuplicateData(p))
  {
    var e := l.sender.order;
    DataAdded(e, s.data, a.data, multiset{DataPDU(e, p)}, multiset{p});
  }

  lemma LiftDuplicateReply(l: Link, cs: seq<seq<byte>>, w: nat, s: State, a: Transfer.State, c: Control)
    requires w > 0 && Covers(l, s, a) && c in a.replies
    ensures Lifts(l, cs, w, s, a, Transfer.DuplicateReply(c))
  {
    var e := l.receiver.order;
    RepliesAdded(e, s.replies, a.replies, multiset{ControlPDU(e, 0, c)}, multiset{c});
  }

  lemma LiftGivingUp(l: Link, cs: seq<seq<byte>>, w: nat, s: State, a: Transfer.State, step: Transfer.Step)
    requires w > 0 && Covers(l, s, a) && (step.SenderGivesUp? || step.ReceiverGivesUp?)
    ensures Lifts(l, cs, w, s, a, step)
  {
  }

  /** Every step of Transfer can be taken over bytes. */
  lemma LiftStep(l: Link, cs: seq<seq<byte>>, w: nat, s: State, a: Transfer.State, step: Transfer.Step)
    requires w > 0 && NoDropList(l) && Covers(l, s, a) && Fits(a) && Transfer.Enabled(cs, w, a, step)
    ensures Lifts(l, cs, w, s, a, step)
  {
    match step {
      case SendNext => LiftSend(l, cs, w, s, a, step);
      case Timeout => LiftSend(l, cs, w, s, a, step);
      case DeliverData(p) => LiftData(l, cs, w, s, a, p);
      case DeliverReply(c) => LiftReply(l, cs, w, s, a, c);
      case LoseData(p) => LiftLoseData(l, cs, w, s, a, p);
      case LoseReply(c) => LiftLoseReply(l, cs, w, s, a, c);
      case DuplicateData(p) => LiftDuplicateData(l, cs, w, s, a, p);
      case DuplicateReply(c) => LiftDuplicateReply(l, cs, w, s, a, c);
      case _ => LiftGivingUp(l, cs, w, s, a, step);
    }
  }

  lemma InvFits(cs: seq<seq<byte>>, w: nat, a: Transfer.State)
    requires Transfer.Inv(cs, w, a) && |cs| + 1 < 0x1_0000_0000
    ensures Fits(a)
  {
  }

  /** Every run of Transfer is a run over bytes. */
  lemma {:induction false} LiftRun(l: Link, cs: seq<seq<byte>>, w: nat, s: State, a: Transfer.State,
                                   steps: seq<Transfer.Step>) returns (bs: seq<Step>, t: State)
    requires w > 0 && NoDropList(l) && Covers(l, s, a) && |cs| + 1 < 0x1_0000_0000
    requires Transfer.Inv(cs, w, a) && Transfer.CanRun(cs, w, a, steps)
    ensures |bs| == |steps| && Reaches(l, cs, w, s, bs, t) && Covers(l, t, Transfer.Run(cs, w, a, steps))
    decreases steps
  {
    if steps == [] {
      return [], s;
    }
    InvFits(cs, w, a);
    LiftStep(l, cs, w, s, a, steps[0]);
    Transfer.StepKeeps(cs, w, a, steps[0]);
    var b := Lift(l, w, a, steps[0]);
    var rest;
    rest, t := LiftRun(l, cs, w, Apply(l, cs, w, s, b), Transfer.Apply(cs, w, a, steps[0]), steps[1..]);
    bs := [b] + rest;
    assert bs[1..] == rest;
  }

  lemma ReachesCons(l: Link, cs: seq<seq<byte>>, w: nat, s: State, a: Step, rest: seq<Step>, t: State)
    requires w > 0 && Enabled(l, cs, w, s, a) && Reaches(l, cs, w, Apply(l, cs, w, s, a), rest, t)
    ensures Reaches(l, cs, w, s, [a] + rest, t)
  {
    assert ([a] + rest)[1..] == rest;
  }

  lemma {:induction false} ReachesConcat(l: Link, cs: seq<seq<byte>>, w: nat, s: State, xs: seq<Step>, t: State,
                                         ys: seq<Step>, u: State)
    requires w > 0 && Reaches(l, cs, w, s, xs, t) && Reaches(l, cs, w, t, ys, u)
    ensures Reaches(l, cs, w, s, xs + ys, u)
    decreases xs
  {
    if xs == [] {
      assert xs + ys == ys;
    } else {
      ReachesConcat(l, cs, w, Apply(l, cs, w, s, xs[0]), xs[1..], t, ys, u);
      ReachesCons(l, cs, w, s, xs[0], xs[1..] + ys, u);
      assert xs + ys == [xs[0]] + (xs[1..] + ys);
    }
  }

  lemma {:induction false} LiftRounds(l: Link, cs: seq<seq<byte>>, w: nat, s: State, a: Transfer.State,
                                      rounds: seq<seq<Transfer.Step>>) returns (bs: seq<Step>, t: State)
    requires w > 0 && NoDropList(l) && Covers(l, s, a) && |cs| + 1 < 0x1_0000_0000
    requires Transfer.Inv(cs, w, a) && Transfer.CanRunAll(cs, w, a, rounds)
    requires forall i :: 0 <= i < |rounds| ==> |rounds[i]| <= 4
    ensures |bs| <= 4 * |rounds|
    ensures Reaches(l, cs, w, s, bs, t) && Covers(l, t, Transfer.RunAll(cs, w, a, rounds))
    decreases rounds
  {
    if rounds == [] {
      return [], s;
    }
    var xs, m := LiftRun(l, cs, w, s, a, rounds[0]);
    Transfer.RunKeeps(cs, w, a, rounds[0]);
    var ys;
    ys, t := LiftRounds(l, cs, w, m, Transfer.Run(cs, w, a, rounds[0]), rounds[1..]);
    ReachesConcat(l, cs, w, s, xs, m, ys, t);
    bs := xs + ys;
  }

  /** From every state reachable over bytes in which the receiver has not finished
      and neither end has given up, even if every message in flight is lost or
      was corrupted, a transfer can be completed in at most 8(N + 1) steps. */
  lemma TransferCompletes(l: Link, file: seq<byte>, b: nat, w: nat, s: State) returns (steps: seq<Step>, t: State)
    requires b > 0 && w > 0 && Reachable(l, file, b, w, s) && Sound(l, file, b)
    requires NoDropList(l) && s.sndUp && s.rcvUp && !s.rcv.done
    ensures var cs := Chunks(file, b);
            && |steps| <= 8 * (|cs| + 1)
            && Reaches(l, cs, w, s.(data := multiset{}, replies := multiset{}), steps, t)
            && t.rcv.done && t.rcv.output == file && t.snd.lower == |cs| + 1
  {
    var cs := Chunks(file, b);
    ReachableInv(l, file, b, w, s);
    var a := Core(s, multiset{}, multiset{});
    var rounds := Transfer.CompletingSchedule(cs, w, a);
    steps, t := LiftRounds(l, cs, w, s.(data := multiset{}, replies := multiset{}), a, rounds);
    ChunksRebuildFile(file, b);
    assert cs[..|cs|] == cs;
  }

  // ---- after the receiver has left ----

  /** Some message in flight is taken for the RR that acknowledges everything. */
  ghost predicate LastReplyInFlight(l: Link, cs: seq<seq<byte>>, s: State)
  {
    exists m :: m in s.replies && ReceiveControl(l.sender.order, m) == Some(RR(|cs| + 1))
  }

  ghost predicate Orphaned(l: Link, cs: seq<seq<byte>>, s: State)
  {
    (s.rcv.done || !s.rcvUp) && s.snd.lower < |cs| + 1 && (!s.sndUp || !LastReplyInFlight(l, cs, s))
  }

  lemma StoppedStep(l: Link, cs: seq<seq<byte>>, w: nat, s: State, step: Step)
    requires w > 0 && Enabled(l, cs, w, s, step) && (s.rcv.done || !s.rcvUp)
    ensures var t := Apply(l, cs, w, s, step);
            && t.rcv == s.rcv && (t.sndUp ==> s.sndUp) && (t.rcvUp ==> s.rcvUp)
            && (forall m :: m in t.replies ==> m in s.replies)
            && (!step.DeliverReply? ==> t.snd.lower == s.snd.lower)
  {
  }

  /** No reply that is taken in acknowledges more than there is. */
  lemma ReplyBounded(l: Link, cs: seq<seq<byte>>, w: nat, s: State, m: seq<byte>)
    requires Inv(l, cs, w, s) && m in s.replies
    ensures var o := TakeControl(l.parser, l.sender.order, m); o.Some? ==> o.value.n <= |cs| + 1
  {
    assert ReplyOk(l, m, s.rcv.expected, s.snd.next);
    assert Transfer.Faithful(cs, s.rcv, s.snd.next);
  }

  lemma OrphanedReply(l: Link, cs: seq<seq<byte>>, w: nat, s: State, m: seq<byte>)
    requires w > 0 && l.parser == DOCUMENTED && Orphaned(l, cs, s) && s.sndUp && m in s.replies
    requires var o := TakeControl(l.parser, l.sender.order, m); o.Some? ==> o.value.n <= |cs| + 1
    ensures React(l, w, s, m).0.lower < |cs| + 1
  {
    assert !LastReplyInFlight(l, cs, s);
    assert ReceiveControl(l.sender.order, m) != Some(RR(|cs| + 1));
  }

  lemma OrphanedStep(l: Link, cs: seq<seq<byte>>, w: nat, s: State, step: Step)
    requires w > 0 && Inv(l, cs, w, s) && Orphaned(l, cs, s) && Enabled(l, cs, w, s, step)
    ensures Orphaned(l, cs, Apply(l, cs, w, s, step))
  {
    StoppedStep(l, cs, w, s, step);
    if step.DeliverReply? {
      ReplyBounded(l, cs, w, s, step.m);
      OrphanedReply(l, cs, w, s, step.m);
    }
  }

  lemma {:induction false} OrphanedForGood(l: Link, cs: seq<seq<byte>>, w: nat, s: State, steps: seq<Step>, t: State)
    requires w > 0 && Inv(l, cs, w, s) && Orphaned(l, cs, s) && Reaches(l, cs, w, s, steps, t)
    ensures Orphaned(l, cs, t)
    decreases steps
  {
    if steps != [] {
      OrphanedStep(l, cs, w, s, steps[0]);
      StepKeeps(l, cs, w, s, steps[0]);
      OrphanedForGood(l, cs, w, Apply(l, cs, w, s, steps[0]), steps[1..], t);
    }
  }

  ghost predicate Acknowledges(l: Link, cs: seq<seq<byte>>, w: nat, s: State, steps: seq<Step>, t: State)
    requires w > 0
  {
    Reaches(l, cs, w, s, steps, t) && t.snd.lower == |cs| + 1
  }

  lemma StillAcknowledged(l: Link, cs: seq<seq<byte>>, w: nat, s: State) returns (steps: seq<Step>, t: State)
    requires w > 0 && Inv(l, cs, w, s) && (s.rcv.done || !s.rcvUp) && !Orphaned(l, cs, s)
    ensures Acknowledges(l, cs, w, s, steps, t)
  {
    if s.snd.lower == |cs| + 1 {
      return [], s;
    }
    var m :| m in s.replies && ReceiveControl(l.sender.order, m) == Some(RR(|cs| + 1));
    var d := DeliverReply(m, []);
    t := Apply(l, cs, w, s, d);
    steps := [d];
    assert steps[1..] == [];
  }

  /** Once the receiver has finished or given up, some run over bytes still has
      the whole file acknowledged exactly when it already is, or such a message
      is in flight to a sender that is up. */
  lemma AcknowledgedIff(l: Link, file: seq<byte>, b: nat, w: nat, s: State)
    requires b > 0 && w > 0 && Reachable(l, file, b, w, s) && Sound(l, file, b) && (s.rcv.done || !s.rcvUp)
    ensures var cs := Chunks(file, b);
            (exists steps, t :: Acknowledges(l, cs, w, s, steps, t))
            <==> s.snd.lower == |cs| + 1 || (s.sndUp && LastReplyInFlight(l, cs, s))
  {
    var cs := Chunks(file, b);
    ReachableInv(l, file, b, w, s);
    if Orphaned(l, cs, s) {
      forall steps, t ensures !Acknowledges(l, cs, w, s, steps, t) {
        if Reaches(l, cs, w, s, steps, t) { OrphanedForGood(l, cs, w, s, steps, t); }
      }
    } else {
      var steps, t := StillAcknowledged(l, cs, w, s);
    }
  }

  // ---- nothing comes from nowhere ----

  lemma {:induction false} CarriesAtMost(h: Host, ps: seq<Packet>, ts: seq<Pass>)
    requires LegalData(h, ps, ts)
    ensures |CarryData(h, ps, ts)| <= |ps|
    decreases ps
  {
    if ps != [] { CarriesAtMost(h, ps[1..], ts[1..]); }
  }

  function Puts(step: Step): nat
  {
    if step.SendNext? || step.Timeout? || step.DeliverReply? || step.DuplicateData? then 1 else 0
  }

  function Removes(step: Step): nat { if step.DeliverData? || step.LoseData? then 1 else 0 }

  function Total(f: Step -> nat, steps: seq<Step>): nat
  {
    if steps == [] then 0 else f(steps[0]) + Total(f, steps[1..])
  }

  lemma StepPuts(l: Link, cs: seq<seq<byte>>, w: nat, s: State, step: Step)
    requires w > 0 && Enabled(l, cs, w, s, step)
    ensures |Apply(l, cs, w, s, step).data| + Removes(step) <= |s.data| + Puts(step)
  {
    match step {
      case SendNext(ts) => CarriesAtMost(l.sender, [PacketOf(cs, s.snd.next)], ts);
      case Timeout(ts) => CarriesAtMost(l.sender, ToList(OnTimeout(s.snd, w)), ts);
      case DeliverReply(m, ts) => CarriesAtMost(l.sender, React(l, w, s, m).1, ts);
      case _ =>
    }
  }

  /** Over any run: data messages in flight, taken in and lost are no more than
      those there were, those sent or resent, one at a time, and the duplicates. */
  lemma {:induction false} DataBounded(l: Link, cs: seq<seq<byte>>, w: nat, s: State, steps: seq<Step>, t: State)
    requires w > 0 && Reaches(l, cs, w, s, steps, t)
    ensures |t.data| + Total(Removes, steps) <= |s.data| + Total(Puts, steps)
    decreases steps
  {
    if steps != [] {
      StepPuts(l, cs, w, s, steps[0]);
      DataBounded(l, cs, w, Apply(l, cs, w, s, steps[0]), steps[1..], t);
    }
  }
}
