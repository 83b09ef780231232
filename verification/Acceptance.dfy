/** What the checks of the parsers are worth.  The byte network of Network with
    any parser: verifying or not, looking at the flag of a data packet or not.
    Over all runs the output stays a prefix of the file exactly under the
    conditions proved here; the code as committed does neither check. */
module Acceptance {
  import opened Bytes
  import opened Checksum
  import opened Wire
  import opened CircularBuffer
  import opened Window
  import opened FileChunks
  import opened Sender
  import opened Receiver
  import opened Network
  import Handshake
  import Injector
  import Transfer

  // ---- the receiver, given packets that fit a list of chunks ----

  ghost predicate Fits(cs: seq<seq<byte>>, p: Packet)
  {
    p.payload == PacketOf(cs, p.seqNo).payload && (p.eof ==> p.seqNo >= |cs|)
  }

  /** What has been written are these chunks up to expected, and what is buffered
      behind goes on with them. */
  ghost predicate Written(cs: seq<seq<byte>>, r: RecvState)
  {
    && r.output == Transfer.Upto(cs, r.expected)
    && (r.done ==> r.expected >= |cs|)
    && forall q :: q in r.buffer && q > r.expected ==>
         r.buffer[q].payload == PacketOf(cs, q).payload && (r.buffer[q].eof ==> q >= |cs|)
  }

  lemma FillGapWritten(cs: seq<seq<byte>>, r: RecvState, p: Packet)
    requires Written(cs, r) && Fits(cs, p) && p.seqNo == r.expected
    ensures Written(cs, FillGap(r, p))
  {
    var e, f := r.expected, Flush(r.buffer, r.expected + 1);
    RunEndIsFirstGap(r.buffer, e + 1);
    Transfer.UptoStep(cs, e);
    Transfer.PayloadsAreChunks(cs, r.buffer, e + 1, f.expected);
  }

  /** Whatever state the receiver is in and however far ahead a packet is. */
  lemma ReceiveWritten(cs: seq<seq<byte>>, w: nat, r: RecvState, p: Packet)
    requires w > 0 && Written(cs, r) && Fits(cs, p)
    ensures Written(cs, Receive(r, w, p).0)
  {
    if p.seqNo == r.expected {
      if r.mode.InOrder? { Transfer.UptoStep(cs, r.expected); } else { FillGapWritten(cs, r, p); }
    }
  }

  /** The file without its second chunk: what comes out if an empty packet is
      taken for packet 1. */
  ghost function Skip(cs: seq<seq<byte>>): seq<seq<byte>>
  {
    if |cs| > 1 then cs[1 := []] else cs
  }

  ghost predicate EmptyOne(p: Packet) { p.seqNo == 1 && p.payload == [] && !p.eof }

  ghost predicate WrittenEither(cs: seq<seq<byte>>, r: RecvState) { Written(cs, r) || Written(Skip(cs), r) }

  lemma SameStart(cs: seq<seq<byte>>, e: nat)
    requires e <= 1
    ensures Transfer.Upto(Skip(cs), e) == Transfer.Upto(cs, e)
  {
    if |cs| > 1 { assert Skip(cs)[..e] == cs[..e]; }
  }

  /** Packet 1 decides which of the two lists it is, if it comes in time. */
  lemma PacketOneDecides(cs: seq<seq<byte>>, ds: seq<seq<byte>>, w: nat, r: RecvState, p: Packet)
    requires w > 0 && WrittenEither(cs, r) && ds in {cs, Skip(cs)} && Fits(ds, p) && p.seqNo == 1 && r.expected <= 1
    ensures Written(ds, Receive(r, w, p).0)
  {
    SameStart(cs, r.expected);
    if r.expected == 1 {
      assert Written(ds, r);
      ReceiveWritten(ds, w, r, p);
    }
  }

  lemma ReceiveEither(cs: seq<seq<byte>>, w: nat, r: RecvState, p: Packet)
    requires w > 0 && WrittenEither(cs, r) && (Fits(cs, p) || EmptyOne(p))
    ensures WrittenEither(cs, Receive(r, w, p).0)
  {
    if p.seqNo == 1 && r.expected <= 1 {
      PacketOneDecides(cs, if Fits(cs, p) then cs else Skip(cs), w, r, p);
    } else if p.seqNo >= r.expected {
      var ds := if Written(cs, r) then cs else Skip(cs);
      assert Fits(ds, p);
      ReceiveWritten(ds, w, r, p);
    }
  }

  // ---- the sender, whatever it is told ----

  ghost predicate Own(cs: seq<seq<byte>>, p: Packet) { p.seqNo <= |cs| && p == PacketOf(cs, p.seqNo) }

  ghost predicate Holds(cs: seq<seq<byte>>, s: SendState)
  {
    forall q :: q in s.window ==> Own(cs, s.window[q].pkt)
  }

  lemma {:induction false} ScanOwn(cs: seq<seq<byte>>, s: SendState, w: nat, lo: nat, hi: nat)
    requires w > 0 && Holds(cs, s)
    ensures var o := Scan(s.window, w, lo, hi); o.Some? ==> Own(cs, o.value)
    decreases hi - lo
  {
    if lo <= hi { ScanOwn(cs, s, w, lo + 1, hi); }
  }

  /** No RR or SREJ, true or false, makes it send anything but its own packets. */
  lemma OnControlOwn(cs: seq<seq<byte>>, w: nat, s: SendState, c: Control)
    requires w > 0 && Holds(cs, s)
    ensures var (t, resent) := OnControl(s, w, c);
            Holds(cs, t) && (resent.Some? ==> Own(cs, resent.value))
  {
    if c.RR? && c.n > s.lower {
      ReleaseIff(Acknowledge(s.window, w, c.n - 1), w, s.lower, c.n);
    }
  }

  // ---- what arrives ----

  /** Either the parser verifies or nothing can be altered. */
  ghost predicate Unaltered(l: Link) { l.parser.verify || !Injector.FlipsRegistered(l.sender.settings) }

  lemma EmergedSame(h: Host, sent: seq<byte>, m: seq<byte>)
    requires Emerges(h, sent, m)
    ensures |m| == |sent| && (!Injector.FlipsRegistered(h.settings) ==> m == sent)
    ensures forall e :: Checks(e, sent) && Checks(e, m) ==> m == sent
  {
    var c := h.settings;
    var t :| LegalPass(h, |sent|, t) && Through(h, sent, t) == Some(m);
    Injector.FlipRegisteredIff(c);
    Injector.Conservation(Injector.Standard(c), Injector.Chance(c), sent, t.msgNo, t.draws);
    forall e | Checks(e, sent) && Checks(e, m) ensures m == sent {
      Injector.VerifiedMeansUnmodified(e, Injector.Standard(c), Injector.Chance(c), sent, t.msgNo, t.draws);
    }
  }

  /** A packet of the file is taken for itself if nothing is altered unnoticed;
      and one without bytes always fits a file without bytes. */
  lemma DataArrives(l: Link, cs: seq<seq<byte>>, p: Packet, m: seq<byte>)
    requires Own(cs, p) && Emerges(l.sender, DataPDU(l.sender.order, p), m) && |cs| + 1 < 0x1_0000_0000
    requires cs == [] || Unaltered(l)
    ensures var o := TakeData(l.parser, l.receiver.order, m); o.Some? ==> Fits(cs, o.value)
  {
    var sent := DataPDU(l.sender.order, p);
    EmergedSame(l.sender, sent, m);
    DataAccepted(DOCUMENTED, l.sender.order, l.receiver.order, p);
    DataAccepted(l.parser, l.sender.order, l.receiver.order, p);
    if cs == [] { assert |m| == HEADER; }
  }

  lemma HandshakeChecks(e: Endian, host: Endian, flag: byte)
    ensures Checks(host, HandshakePDU(e, flag)) && HandshakePDU(e, flag)[6] == flag
    ensures Get32(HandshakePDU(e, flag)[..4]) == 1
  {
    var s := Header(1, flag);
    assert s[..HEADER] == s;
    HeaderKept(e, s, 1, flag);
    StampChecks(e, s);
    StampPortable(e, s);
    assert host == e || host == Other(e);
    RoundTrip32(1, Put32(1));
  }

  /** To a parser that ignores the flag a PDU of the handshake is packet 1, empty. */
  lemma HandshakeArrives(l: Link, cs: seq<seq<byte>>, m: seq<byte>)
    requires ServerLeftover(l.sender, m) && (cs == [] || Unaltered(l))
    ensures var o := TakeData(l.parser, l.receiver.order, m);
            o.Some? ==> (!DataFlag(m[6]) && (Fits(cs, o.value) || EmptyOne(o.value))
                         && (Unaltered(l) ==> EmptyOne(o.value)))
  {
    var flags: set<byte> := {Handshake.TALK_HERE, Handshake.FILE_OK, Handshake.FILE_NOT_OK};
    var flag :| flag in flags && Emerges(l.sender, HandshakePDU(l.sender.order, flag), m);
    var sent := HandshakePDU(l.sender.order, flag);
    EmergedByte(l.sender, sent, m, 6);
    EmergedSame(l.sender, sent, m);
    HandshakeChecks(l.sender.order, l.receiver.order, flag);
    assert |m| == HEADER;
  }

  // ---- every run ----

  /** What may be in flight when the transfer starts: PDUs of the handshake, and
      data PDUs of other children that send the same file. */
  ghost predicate Stray(l: Link, cs: seq<seq<byte>>, m: seq<byte>)
  {
    || ServerLeftover(l.sender, m)
    || exists q :: 0 <= q <= |cs| && Emerges(l.sender, DataPDU(l.sender.order, PacketOf(cs, q)), m)
  }

  /** One of them is accepted that is no data packet. */
  ghost predicate Live(l: Link, data: multiset<seq<byte>>)
  {
    exists m :: m in data && TakeData(l.parser, l.receiver.order, m).Some? && !DataFlag(m[6])
  }

  ghost predicate Fine(l: Link, cs: seq<seq<byte>>, live: bool, m: seq<byte>)
  {
    var o := TakeData(l.parser, l.receiver.order, m);
    o.Some? ==> Fits(cs, o.value) || (live && EmptyOne(o.value))
  }

  ghost predicate SafeInv(l: Link, cs: seq<seq<byte>>, live: bool, s: State)
  {
    && |cs| + 1 < 0x1_0000_0000 && (cs == [] || Unaltered(l))
    && Holds(cs, s.snd)
    && (if live then WrittenEither(cs, s.rcv) else Written(cs, s.rcv))
    && forall m :: m in s.data ==> Fine(l, cs, live, m)
  }

  lemma {:induction false} CarriedFine(l: Link, cs: seq<seq<byte>>, live: bool, ps: seq<Packet>, ts: seq<Pass>)
    requires LegalData(l.sender, ps, ts) && |cs| + 1 < 0x1_0000_0000 && (cs == [] || Unaltered(l))
    requires forall p :: p in ps ==> Own(cs, p)
    ensures forall m :: m in CarryData(l.sender, ps, ts) ==> Fine(l, cs, live, m)
    decreases ps
  {
    if ps != [] {
      var sent := DataPDU(l.sender.order, ps[0]);
      var o := Through(l.sender, sent, ts[0]);
      assert ps[0] in ps;
      if o.Some? {
        assert Emerges(l.sender, sent, o.value);
        DataArrives(l, cs, ps[0], o.value);
      }
      CarriedFine(l, cs, live, ps[1..], ts[1..]);
    }
  }

  lemma SenderKeeps(l: Link, cs: seq<seq<byte>>, live: bool, w: nat, s: State, step: Step)
    requires w > 0 && SafeInv(l, cs, live, s) && Enabled(l, cs, w, s, step) && (step.SendNext? || step.Timeout?)
    ensures SafeInv(l, cs, live, Apply(l, cs, w, s, step))
  {
    if step.SendNext? {
      CarriedFine(l, cs, live, [PacketOf(cs, s.snd.next)], step.passes);
    } else {
      ScanOwn(cs, s.snd, w, s.snd.lower, s.snd.lower + w);
      CarriedFine(l, cs, live, ToList(OnTimeout(s.snd, w)), step.passes);
    }
  }

  lemma DataKeeps(l: Link, cs: seq<seq<byte>>, live: bool, w: nat, s: State, m: seq<byte>, ts: seq<Pass>)
    requires w > 0 && SafeInv(l, cs, live, s) && Enabled(l, cs, w, s, DeliverData(m, ts))
    ensures SafeInv(l, cs, live, Apply(l, cs, w, s, DeliverData(m, ts)))
  {
    var o := TakeData(l.parser, l.receiver.order, m);
    assert Fine(l, cs, live, m);
    if o.Some? {
      if live { ReceiveEither(cs, w, s.rcv, o.value); } else { ReceiveWritten(cs, w, s.rcv, o.value); }
    }
  }

  lemma ReplyKeepsSafe(l: Link, cs: seq<seq<byte>>, live: bool, w: nat, s: State, m: seq<byte>, ts: seq<Pass>)
    requires w > 0 && SafeInv(l, cs, live, s) && Enabled(l, cs, w, s, DeliverReply(m, ts))
    ensures SafeInv(l, cs, live, Apply(l, cs, w, s, DeliverReply(m, ts)))
  {
    var o := TakeControl(l.parser, l.sender.order, m);
    if o.Some? { OnControlOwn(cs, w, s.snd, o.value); }
    CarriedFine(l, cs, live, React(l, w, s, m).1, ts);
  }

  lemma SafeStep(l: Link, cs: seq<seq<byte>>, live: bool, w: nat, s: State, step: Step)
    requires w > 0 && SafeInv(l, cs, live, s) && Enabled(l, cs, w, s, step)
    ensures SafeInv(l, cs, live, Apply(l, cs, w, s, step))
  {
    match step {
      case SendNext(_) => SenderKeeps(l, cs, live, w, s, step);
      case Timeout(_) => SenderKeeps(l, cs, live, w, s, step);
      case DeliverData(m, ts) => DataKeeps(l, cs, live, w, s, m, ts);
      case DeliverReply(m, ts) => ReplyKeepsSafe(l, cs, live, w, s, m, ts);
      case _ =>
    }
  }

  lemma {:induction false} SafeRun(l: Link, cs: seq<seq<byte>>, live: bool, w: nat, s: State, steps: seq<Step>,
                                   t: State)
    requires w > 0 && SafeInv(l, cs, live, s) && Reaches(l, cs, w, s, steps, t)
    ensures SafeInv(l, cs, live, t)
    decreases steps
  {
    if steps != [] {
      SafeStep(l, cs, live, w, s, steps[0]);
      SafeRun(l, cs, live, w, Apply(l, cs, w, s, steps[0]), steps[1..], t);
    }
  }

  lemma SafeStart(l: Link, cs: seq<seq<byte>>, data: multiset<seq<byte>>, replies: multiset<seq<byte>>)
    requires |cs| + 1 < 0x1_0000_0000 && (cs == [] || Unaltered(l))
    requires forall m :: m in data ==> Stray(l, cs, m)
    ensures SafeInv(l, cs, Live(l, data), Init(data, replies))
  {
    forall m | m in data ensures Fine(l, cs, Live(l, data), m) {
      if ServerLeftover(l.sender, m) {
        HandshakeArrives(l, cs, m);
      } else {
        var q :| 0 <= q <= |cs| && Emerges(l.sender, DataPDU(l.sender.order, PacketOf(cs, q)), m);
        DataArrives(l, cs, PacketOf(cs, q), m);
      }
    }
    assert cs[..0] == [] && Skip(cs)[..0] == [];
  }

  // ---- runs that go wrong ----

  ghost predicate Reached(l: Link, cs: seq<seq<byte>>, w: nat, data: multiset<seq<byte>>, replies: multiset<seq<byte>>,
                          s: State)
    requires w > 0
  {
    exists steps :: Reaches(l, cs, w, Init(data, replies), steps, s)
  }

  lemma ReachedStep(l: Link, cs: seq<seq<byte>>, w: nat, data: multiset<seq<byte>>, replies: multiset<seq<byte>>,
                    s: State, step: Step)
    requires w > 0 && Reached(l, cs, w, data, replies, s) && Enabled(l, cs, w, s, step)
    ensures Reached(l, cs, w, data, replies, Apply(l, cs, w, s, step))
  {
    var steps :| Reaches(l, cs, w, Init(data, replies), steps, s);
    var t := Apply(l, cs, w, s, step);
    assert Reaches(l, cs, w, s, [step], t) by { assert [step][1..] == []; }
    ReachesConcat(l, cs, w, Init(data, replies), steps, s, [step], t);
  }

  /** Sender and receiver are level at q, with these chunks written so far. */
  ghost predicate Even(ds: seq<seq<byte>>, s: State, q: nat)
  {
    && s.snd.lower == q == s.snd.next && s.rcv.expected == q
    && s.rcv.mode.InOrder? && !s.rcv.done && s.sndUp && s.rcvUp
    && s.rcv.output == Transfer.Upto(ds, q)
  }

  /** The next packet is sent. */
  lemma NextSent(l: Link, cs: seq<seq<byte>>, w: nat, data: multiset<seq<byte>>, replies: multiset<seq<byte>>, s: State)
    returns (t: State)
    requires w > 0 && NoDropList(l) && Reached(l, cs, w, data, replies, s) && s.sndUp && CanFill(cs, s.snd, w)
    ensures Reached(l, cs, w, data, replies, t)
    ensures t.snd.lower == s.snd.lower && t.snd.next == s.snd.next + 1
    ensures t.rcv == s.rcv && t.sndUp && t.rcvUp == s.rcvUp
    ensures s.data + multiset{DataPDU(l.sender.order, PacketOf(cs, s.snd.next))} <= t.data
  {
    var p, e := PacketOf(cs, s.snd.next), l.sender.order;
    var a := SendNext(Quiet(l.sender, 1));
    QuietData(l, Some(p));
    ReachedStep(l, cs, w, data, replies, s, a);
    t := Apply(l, cs, w, s, a);
    var carried := CarryData(l.sender, ToList(Some(p)), Quiet(l.sender, 1));
    assert carried[DataPDU(e, p)] >= Transfer.Emit(Some(p))[p];
    assert t.data == s.data + carried;
  }

  /** A message that is taken for the packet waited for. */
  lemma Taken(l: Link, cs: seq<seq<byte>>, w: nat, data: multiset<seq<byte>>, replies: multiset<seq<byte>>, s: State,
              m: seq<byte>, p: Packet) returns (t: State)
    requires w > 0 && NoDropList(l) && Reached(l, cs, w, data, replies, s) && m in s.data
    requires TakeData(l.parser, l.receiver.order, m) == Some(p) && p.seqNo == s.rcv.expected
    requires s.rcv.mode.InOrder? && !s.rcv.done && s.rcvUp
    ensures Reached(l, cs, w, data, replies, t) && t.snd == s.snd && t.sndUp == s.sndUp && t.rcvUp
    ensures t.data == s.data - multiset{m}
    ensures t.rcv.output == s.rcv.output + p.payload && t.rcv.expected == p.seqNo + 1 && t.rcv.done == p.eof
    ensures t.rcv.mode.InOrder? && ControlPDU(l.receiver.order, 0, RR(p.seqNo + 1)) in t.replies
  {
    var rr := RR(p.seqNo + 1);
    var r := s.rcv.(output := s.rcv.output + p.payload, expected := rr.n, done := p.eof, last := Some(rr));
    assert Accept(l, w, s, m) == (r, [rr]);
    AnswerPDU(l, rr);
    var d := DeliverData(m, Quiet(l.receiver, 1));
    t := s.(rcv := r, data := s.data - multiset{m},
            replies := s.replies + CarryReplies(l.receiver, [rr], Quiet(l.receiver, 1)));
    assert t == Apply(l, cs, w, s, d);
    ReachedStep(l, cs, w, data, replies, s, d);
  }

  lemma AnswerPDU(l: Link, c: Control)
    requires NoDropList(l)
    ensures LegalReplies(l.receiver, [c], Quiet(l.receiver, 1))
    ensures ControlPDU(l.receiver.order, 0, c) in CarryReplies(l.receiver, [c], Quiet(l.receiver, 1))
  {
    QuietReplies(l, [c]);
    assert ReplyPDUs(l.receiver.order, [c])[ControlPDU(l.receiver.order, 0, c)] > 0;
  }

  /** The next packet is sent and taken. */
  lemma SendAndTake(l: Link, cs: seq<seq<byte>>, ds: seq<seq<byte>>, w: nat, data: multiset<seq<byte>>,
                    replies: multiset<seq<byte>>, s: State, q: nat) returns (t: State)
    requires w > 0 && NoDropList(l) && |cs| + 1 < 0x1_0000_0000 && Reached(l, cs, w, data, replies, s)
    requires Even(ds, s, q) && q <= |cs| == |ds| && (q < |cs| ==> ds[q] == cs[q])
    ensures Reached(l, cs, w, data, replies, t)
    ensures t.snd.lower == q && t.snd.next == q + 1 && t.rcv.expected == q + 1
    ensures t.rcv.mode.InOrder? && t.sndUp && t.rcvUp
    ensures t.rcv.output == Transfer.Upto(ds, q + 1) && (t.rcv.done <==> q == |cs|)
    ensures ControlPDU(l.receiver.order, 0, RR(q + 1)) in t.replies && s.data <= t.data
  {
    var p := PacketOf(cs, q);
    var m := DataPDU(l.sender.order, p);
    var u := NextSent(l, cs, w, data, replies, s);
    assert u.data[m] >= s.data[m] + 1;
    DataAccepted(l.parser, l.sender.order, l.receiver.order, p);
    t := Taken(l, cs, w, data, replies, u, m, p);
    Transfer.UptoStep(ds, q);
    SubsetAfter(s.data, u.data, m);
  }

  lemma SubsetAfter(a: multiset<seq<byte>>, b: multiset<seq<byte>>, m: seq<byte>)
    requires a + multiset{m} <= b
    ensures a <= b - multiset{m}
  {
  }

  /** An RR arrives that acknowledges more than was before. */
  lemma Acknowledged(l: Link, cs: seq<seq<byte>>, w: nat, data: multiset<seq<byte>>, replies: multiset<seq<byte>>,
                     s: State, n: nat) returns (t: State)
    requires w > 0 && n < 0x1_0000_0000 && Reached(l, cs, w, data, replies, s)
    requires s.sndUp && n > s.snd.lower && ControlPDU(l.receiver.order, 0, RR(n)) in s.replies
    ensures Reached(l, cs, w, data, replies, t)
    ensures t.snd.lower == n && t.snd.next == s.snd.next && t.rcv == s.rcv && t.sndUp && t.rcvUp == s.rcvUp
  {
    var m := ControlPDU(l.receiver.order, 0, RR(n));
    ReplyAccepted(l.parser, l.receiver.order, l.sender.order, RR(n));
    var d := DeliverReply(m, []);
    ReachedStep(l, cs, w, data, replies, s, d);
    t := Apply(l, cs, w, s, d);
  }

  /** From there on the transfer goes through to the end. */
  lemma {:induction false} GoesThrough(l: Link, cs: seq<seq<byte>>, ds: seq<seq<byte>>, w: nat,
                                       data: multiset<seq<byte>>, replies: multiset<seq<byte>>, s: State, q: nat)
    returns (t: State)
    requires w > 0 && NoDropList(l) && |cs| + 1 < 0x1_0000_0000 && Reached(l, cs, w, data, replies, s)
    requires Even(ds, s, q) && q <= |cs| == |ds| && forall k :: q <= k < |cs| ==> ds[k] == cs[k]
    ensures Reached(l, cs, w, data, replies, t) && t.rcv.done && t.rcv.output == Flatten(ds)
    decreases |cs| - q
  {
    t := SendAndTake(l, cs, ds, w, data, replies, s, q);
    if q == |cs| {
      assert ds[..|ds|] == ds;
    } else {
      t := Acknowledged(l, cs, w, data, replies, t, q + 1);
      t := GoesThrough(l, cs, ds, w, data, replies, t, q + 1);
    }
  }

  lemma NothingYet(ds: seq<seq<byte>>)
    ensures Transfer.Upto(ds, 0) == []
  {
    assert ds[..0] == [];
  }

  lemma SkipOne(cs: seq<seq<byte>>)
    requires |cs| > 1
    ensures Transfer.Upto(Skip(cs), 2) == Transfer.Upto(Skip(cs), 1) + []
  {
    Transfer.UptoStep(Skip(cs), 1);
  }

  /** The parser takes a PDU that is no data packet for packet 1: the second chunk
      is left out. */
  lemma SecondChunkSkipped(l: Link, cs: seq<seq<byte>>, w: nat, data: multiset<seq<byte>>, replies: multiset<seq<byte>>,
                           m: seq<byte>) returns (t: State)
    requires w > 0 && NoDropList(l) && 1 < |cs| && |cs| + 1 < 0x1_0000_0000 && m in data
    requires var o := TakeData(l.parser, l.receiver.order, m); o.Some? && EmptyOne(o.value)
    ensures Reached(l, cs, w, data, replies, t) && t.rcv.done && t.rcv.output == Flatten(Skip(cs))
  {
    var ds, s := Skip(cs), Init(data, replies);
    assert Reaches(l, cs, w, s, [], s);
    NothingYet(ds);
    s := SendAndTake(l, cs, ds, w, data, replies, s, 0);
    assert s.data[m] >= data[m];
    s := Taken(l, cs, w, data, replies, s, m, TakeData(l.parser, l.receiver.order, m).value);
    SkipOne(cs);
    s := Acknowledged(l, cs, w, data, replies, s, 2);
    s := NextSent(l, cs, w, data, replies, s);
    t := GoesThrough(l, cs, ds, w, data, replies, s, 2);
  }

  /** The first chunk with its first byte complemented. */
  ghost function Spoilt(cs: seq<seq<byte>>): seq<seq<byte>>
    requires cs != [] && cs[0] != []
  {
    cs[0 := cs[0][0 := 0xFF - cs[0][0]]]
  }

  /** A draw that complements the first byte of the payload. */
  lemma Flipped(l: Link, p: Packet) returns (t: Pass)
    requires Injector.FlipsRegistered(l.sender.settings) && NoDropList(l) && p.payload != []
    requires p.seqNo < 0x1_0000_0000 && !l.parser.verify && !p.eof
    ensures LegalData(l.sender, [p], [t])
    ensures var o := Through(l.sender, DataPDU(l.sender.order, p), t);
            && o.Some? && CarryData(l.sender, [p], [t]) == multiset{o.value}
            && TakeData(l.parser, l.receiver.order, o.value) ==
               Some(p.(payload := p.payload[0 := 0xFF - p.payload[0]]))
  {
    var c := l.sender.settings;
    Injector.FlipRegisteredIff(c);
    Injector.StandardDrops(c, 0);
    var k :| 0 <= k < |Injector.Chance(c)| && Injector.Chance(c)[k] == Injector.FlipBits;
    t := Pass(0, 0, Injector.Draws(seq(|Injector.Standard(c)|, _ => 0), true, k, HEADER));
    var sent := DataPDU(l.sender.order, p);
    Injector.Conservation(Injector.Standard(c), Injector.Chance(c), sent, 0, t.draws);
    FlippedTaken(l, p);
  }

  lemma FlippedTaken(l: Link, p: Packet)
    requires p.payload != [] && p.seqNo < 0x1_0000_0000 && !l.parser.verify && !p.eof
    ensures TakeData(l.parser, l.receiver.order, Injector.FlipAt(DataPDU(l.sender.order, p), HEADER)) ==
            Some(p.(payload := p.payload[0 := 0xFF - p.payload[0]]))
  {
    var sent := DataPDU(l.sender.order, p);
    var m := Injector.FlipAt(sent, HEADER);
    DataAccepted(DOCUMENTED, l.sender.order, l.receiver.order, p);
    DataAccepted(l.parser, l.sender.order, l.receiver.order, p);
    assert m[..4] == sent[..4] && m[6] == sent[6];
    assert m[HEADER..] == sent[HEADER..][0 := 0xFF - sent[HEADER..][0]];
  }

  lemma SpoiltSent(l: Link, cs: seq<seq<byte>>, w: nat, data: multiset<seq<byte>>, replies: multiset<seq<byte>>)
    returns (t: State, m: seq<byte>)
    requires w > 0 && NoDropList(l) && 0 < |cs| && cs[0] != []
    requires !l.parser.verify && Injector.FlipsRegistered(l.sender.settings)
    ensures Reached(l, cs, w, data, replies, t) && m in t.data
    ensures t.snd.lower == 0 && t.snd.next == 1 && t.rcv == Start && t.sndUp && t.rcvUp
    ensures TakeData(l.parser, l.receiver.order, m) == Some(Packet(0, false, Spoilt(cs)[0]))
  {
    var s, p := Init(data, replies), PacketOf(cs, 0);
    assert Reaches(l, cs, w, s, [], s);
    var pass := Flipped(l, p);
    m := Through(l.sender, DataPDU(l.sender.order, p), pass).value;
    ReachedStep(l, cs, w, data, replies, s, SendNext([pass]));
    t := Apply(l, cs, w, s, SendNext([pass]));
  }

  lemma SpoiltTaken(l: Link, cs: seq<seq<byte>>, w: nat, data: multiset<seq<byte>>, replies: multiset<seq<byte>>)
    returns (t: State)
    requires w > 0 && NoDropList(l) && 0 < |cs| && cs[0] != []
    requires !l.parser.verify && Injector.FlipsRegistered(l.sender.settings)
    ensures Reached(l, cs, w, data, replies, t) && t.rcv.output == Spoilt(cs)[0]
    ensures t.snd.lower == 1 == t.snd.next && t.rcv.expected == 1
    ensures t.rcv.mode.InOrder? && !t.rcv.done && t.sndUp && t.rcvUp
  {
    var m;
    t, m := SpoiltSent(l, cs, w, data, replies);
    t := Taken(l, cs, w, data, replies, t, m, Packet(0, false, Spoilt(cs)[0]));
    assert [] + Spoilt(cs)[0] == Spoilt(cs)[0];
    t := Acknowledged(l, cs, w, data, replies, t, 1);
  }

  lemma FirstChunkSpoilt(l: Link, cs: seq<seq<byte>>, w: nat, data: multiset<seq<byte>>, replies: multiset<seq<byte>>)
    returns (t: State)
    requires w > 0 && NoDropList(l) && 0 < |cs| && cs[0] != [] && |cs| + 1 < 0x1_0000_0000
    requires !l.parser.verify && Injector.FlipsRegistered(l.sender.settings)
    ensures Reached(l, cs, w, data, replies, t) && t.rcv.done && t.rcv.output == Flatten(Spoilt(cs))
  {
    var s := SpoiltTaken(l, cs, w, data, replies);
    FirstOnly(Spoilt(cs));
    t := GoesThrough(l, cs, Spoilt(cs), w, data, replies, s, 1);
  }

  lemma FirstOnly(ds: seq<seq<byte>>)
    requires ds != []
    ensures Transfer.Upto(ds, 1) == ds[0]
  {
    NothingYet(ds);
    Transfer.UptoStep(ds, 0);
  }

  // ---- what comes out of them ----

  /** The file goes on after its first b bytes as it does after the next b. */
  ghost predicate Repeats(file: seq<byte>, b: nat) { |file| <= 2 * b || file[2 * b..] <= file[b..] }

  lemma FirstChunk(file: seq<byte>, b: nat)
    requires b > 0 && file != []
    ensures var cs := Chunks(file, b);
            cs != [] && if |file| <= b then cs == [file] else cs[0] == file[..b] && cs[1..] == Chunks(file[b..], b)
  {
  }

  lemma SkipParts(cs: seq<seq<byte>>)
    requires |cs| > 1
    ensures Skip(cs) == [cs[0]] + ([[]] + cs[2..])
  {
  }

  /** The second chunk left out of a list. */
  lemma FlattenSkip(cs: seq<seq<byte>>)
    requires |cs| > 1
    ensures Flatten(Skip(cs)) == cs[0] + Flatten(cs[2..])
  {
    var rest := cs[2..];
    SkipParts(cs);
    FlattenCons(cs[0], [[]] + rest);
    FlattenCons([], rest);
    assert [] + Flatten(rest) == Flatten(rest);
  }

  lemma SkippedOutput(file: seq<byte>, b: nat)
    requires 0 < b < |file|
    ensures Flatten(Skip(Chunks(file, b))) == file[..b] + (if |file| <= 2 * b then [] else file[2 * b..])
  {
    var cs, rest := Chunks(file, b), file[b..];
    FirstChunk(file, b);
    FirstChunk(rest, b);
    FlattenSkip(cs);
    assert cs[2..] == Chunks(rest, b)[1..];
    if |file| > 2 * b {
      assert rest[b..] == file[2 * b..];
      ChunksRebuildFile(rest[b..], b);
    } else {
      assert cs[2..] == [];
    }
  }

  /** It is a prefix of the file exactly if the file repeats, and the file itself
      only if there is no second chunk. */
  lemma SkippedIff(file: seq<byte>, b: nat)
    requires b > 0
    ensures Flatten(Skip(Chunks(file, b))) <= file <==> Repeats(file, b)
    ensures Flatten(Skip(Chunks(file, b))) == file <==> |file| <= b
  {
    if |file| <= b {
      ChunksRebuildFile(file, b);
    } else {
      SkippedOutput(file, b);
      if |file| > 2 * b { PrefixAfter(file[..b], file[2 * b..], file[b..], file); }
    }
  }

  lemma PrefixAfter(a: seq<byte>, x: seq<byte>, y: seq<byte>, f: seq<byte>)
    requires f == a + y && |x| < |y|
    ensures a + x <= f <==> x <= y
  {
    if a + x <= f {
      forall i | 0 <= i < |x| ensures x[i] == y[i] {
        assert (a + x)[|a| + i] == f[|a| + i];
      }
    }
  }

  lemma SpoiltOutput(file: seq<byte>, b: nat)
    requires b > 0 && file != []
    ensures var cs := Chunks(file, b);
            cs != [] && cs[0] != [] && Flatten(Spoilt(cs)) != [] && Flatten(Spoilt(cs))[0] != file[0]
  {
    var cs := Chunks(file, b);
    ChunksRebuildFile(file, b);
    var ds := Spoilt(cs);
    assert cs == [cs[0]] + cs[1..] && ds == [ds[0]] + cs[1..];
    FlattenCons(cs[0], cs[1..]);
    FlattenCons(ds[0], cs[1..]);
  }

  // ---- the conditions ----

  ghost predicate AlwaysPrefix(l: Link, file: seq<byte>, b: nat, w: nat, data: multiset<seq<byte>>,
                               replies: multiset<seq<byte>>)
    requires b > 0 && w > 0
  {
    forall s :: Reached(l, Chunks(file, b), w, data, replies, s) ==> s.rcv.output <= file
  }

  ghost predicate AlwaysWhole(l: Link, file: seq<byte>, b: nat, w: nat, data: multiset<seq<byte>>,
                              replies: multiset<seq<byte>>)
    requires b > 0 && w > 0
  {
    forall s :: Reached(l, Chunks(file, b), w, data, replies, s) && s.rcv.done ==> s.rcv.output == file
  }

  /** In every run the output is made of the file's chunks, the second one perhaps
      left out; with any settings and drop lists. */
  lemma OutputOfRuns(l: Link, file: seq<byte>, b: nat, w: nat, data: multiset<seq<byte>>, replies: multiset<seq<byte>>,
                     s: State)
    requires b > 0 && w > 0 && |Chunks(file, b)| + 1 < 0x1_0000_0000
    requires forall m :: m in data ==> Stray(l, Chunks(file, b), m)
    requires file == [] || Unaltered(l)
    requires Reached(l, Chunks(file, b), w, data, replies, s)
    ensures var cs := Chunks(file, b);
            exists ds :: (ds == cs || (Live(l, data) && ds == Skip(cs)))
                         && s.rcv.output <= Flatten(ds) && (s.rcv.done ==> s.rcv.output == Flatten(ds))
  {
    var cs := Chunks(file, b);
    SafeStart(l, cs, data, replies);
    var steps :| Reaches(l, cs, w, Init(data, replies), steps, s);
    SafeRun(l, cs, Live(l, data), w, Init(data, replies), steps, s);
    var ds := if Written(cs, s.rcv) then cs else Skip(cs);
    var e := s.rcv.expected;
    FlattenPrefix(ds, if e < |ds| then e else |ds|);
    assert ds[..|ds|] == ds;
  }

  /** Over all runs, from any strays in flight, the output stays a prefix of the
      file if and only if the file is empty, or nothing is altered unnoticed and
      either no stray is taken for a data packet or the file repeats. */
  lemma PrefixIff(l: Link, file: seq<byte>, b: nat, w: nat, data: multiset<seq<byte>>, replies: multiset<seq<byte>>)
    requires b > 0 && w > 0 && NoDropList(l) && |Chunks(file, b)| + 1 < 0x1_0000_0000
    requires forall m :: m in data ==> Stray(l, Chunks(file, b), m)
    ensures AlwaysPrefix(l, file, b, w, data, replies) <==>
            file == [] || (Unaltered(l) && (!Live(l, data) || Repeats(file, b)))
  {
    if file == [] || (Unaltered(l) && (!Live(l, data) || Repeats(file, b))) {
      forall s | Reached(l, Chunks(file, b), w, data, replies, s) ensures s.rcv.output <= file {
        OutputOfRuns(l, file, b, w, data, replies, s);
        ChunksRebuildFile(file, b);
        SkippedIff(file, b);
      }
    } else {
      var t := BadRun(l, file, b, w, data, replies);
      SkippedIff(file, b);
    }
  }

  /** And the receiver finishes only with the whole file under the same condition,
      but with a stray only if the file has no second chunk. */
  lemma WholeIff(l: Link, file: seq<byte>, b: nat, w: nat, data: multiset<seq<byte>>, replies: multiset<seq<byte>>)
    requires b > 0 && w > 0 && NoDropList(l) && |Chunks(file, b)| + 1 < 0x1_0000_0000
    requires forall m :: m in data ==> Stray(l, Chunks(file, b), m)
    ensures AlwaysWhole(l, file, b, w, data, replies) <==>
            file == [] || (Unaltered(l) && (!Live(l, data) || |file| <= b))
  {
    if file == [] || (Unaltered(l) && (!Live(l, data) || |file| <= b)) {
      forall s | Reached(l, Chunks(file, b), w, data, replies, s) && s.rcv.done ensures s.rcv.output == file {
        OutputOfRuns(l, file, b, w, data, replies, s);
        ChunksRebuildFile(file, b);
        SkippedIff(file, b);
      }
    } else {
      var t := BadRun(l, file, b, w, data, replies);
      SkippedIff(file, b);
    }
  }

  lemma BadRun(l: Link, file: seq<byte>, b: nat, w: nat, data: multiset<seq<byte>>, replies: multiset<seq<byte>>)
    returns (t: State)
    requires b > 0 && w > 0 && NoDropList(l) && |Chunks(file, b)| + 1 < 0x1_0000_0000
    requires forall m :: m in data ==> Stray(l, Chunks(file, b), m)
    requires file != [] && (!Unaltered(l) || (Live(l, data) && |file| > b))
    ensures Reached(l, Chunks(file, b), w, data, replies, t) && t.rcv.done
    ensures if Unaltered(l) then t.rcv.output == Flatten(Skip(Chunks(file, b)))
            else t.rcv.output != [] && t.rcv.output[0] != file[0]
  {
    var cs := Chunks(file, b);
    if Unaltered(l) {
      var m :| m in data && TakeData(l.parser, l.receiver.order, m).Some? && !DataFlag(m[6]);
      LiveIsEmptyOne(l, cs, m);
      t := SecondChunkSkipped(l, cs, w, data, replies, m);
    } else {
      SpoiltOutput(file, b);
      t := FirstChunkSpoilt(l, cs, w, data, replies);
    }
  }

  lemma LiveIsEmptyOne(l: Link, cs: seq<seq<byte>>, m: seq<byte>)
    requires Stray(l, cs, m) && Unaltered(l) && |cs| + 1 < 0x1_0000_0000
    requires TakeData(l.parser, l.receiver.order, m).Some? && !DataFlag(m[6])
    ensures EmptyOne(TakeData(l.parser, l.receiver.order, m).value)
  {
    if ServerLeftover(l.sender, m) {
      HandshakeArrives(l, cs, m);
    } else {
      var q :| 0 <= q <= |cs| && Emerges(l.sender, DataPDU(l.sender.order, PacketOf(cs, q)), m);
      var sent := DataPDU(l.sender.order, PacketOf(cs, q));
      EmergedSame(l.sender, sent, m);
      DataAccepted(DOCUMENTED, l.sender.order, l.receiver.order, PacketOf(cs, q));
    }
  }

  /** With the documented parser no stray matters, other children's packets
      included, and whatever is registered or listed. */
  lemma DocumentedParserSafe(l: Link, file: seq<byte>, b: nat, w: nat, data: multiset<seq<byte>>,
                             replies: multiset<seq<byte>>, s: State)
    requires b > 0 && w > 0 && |Chunks(file, b)| + 1 < 0x1_0000_0000 && l.parser == DOCUMENTED
    requires forall m :: m in data ==> Stray(l, Chunks(file, b), m)
    requires Reached(l, Chunks(file, b), w, data, replies, s)
    ensures s.rcv.output <= file && (s.rcv.done ==> s.rcv.output == file)
  {
    OutputOfRuns(l, file, b, w, data, replies, s);
    ChunksRebuildFile(file, b);
  }
}
