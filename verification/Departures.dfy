/** Places where one expression of the code does not do what its comments and
    the protocol notes say.  The transfer is modelled as documented; here each
    expression is taken as written, with the exact condition under which the
    two agree. */
module Departures {
  import opened Bytes
  import opened Checksum
  import opened Wire
  import opened CircularBuffer
  import opened Window
  import opened FileChunks
  import opened Sender
  import opened Receiver
  import opened Transfer
  import Injector

  // ---- server.c:418-432, the number taken from an RR ----

  /** The lower edge an RR PDU moves the sender to: the server reads seven
      bytes, takes the header sequence and adds one. */
  function LowerAsWritten(s: seq<byte>): nat
    requires |s| >= 4
  {
    HeaderSequence(s) + 1
  }

  /** That is the acknowledged number exactly when the receiver's own control
      counter happens to be one below it. */
  lemma RRNumberIff(e: Endian, localSeq: u32, n: u32)
    ensures LowerAsWritten(Stamp(e, ControlBytes(localSeq, RR(n)))) == n <==> n == localSeq as int + 1
  {
    ControlRoundTrip(e, e, localSeq, RR(n));
  }

  /** For an SREJ the server looks up the header number as it is: the packet asked
      for is resent exactly when the receiver's own SREJ counter happens to share
      its slot. */
  lemma SrejNumberIff(cs: seq<seq<byte>>, s: SendState, w: nat, e: Endian, localSeq: u32, n: u32)
    requires Outstanding(cs, s, w) && s.lower <= n < s.next
    ensures var header := HeaderSequence(Stamp(e, ControlBytes(localSeq, SREJ(n))));
            OnControl(s, w, SREJ(header)).1 == Some(PacketOf(cs, n)) <==> localSeq % w == n % w
  {
    ControlRoundTrip(e, e, localSeq, SREJ(n));
    SlotAnswers(cs, s, w, localSeq, n);
  }

  lemma SlotAnswers(cs: seq<seq<byte>>, s: SendState, w: nat, h: nat, n: nat)
    requires Outstanding(cs, s, w) && s.lower <= n < s.next
    ensures OnControl(s, w, SREJ(h)).1 == Some(PacketOf(cs, n)) <==> h % w == n % w
  {
    if h % w == n % w {
      LookupSlot(s.window, s.lower, w, h, n);
    } else if Lookup(s.window, w, h).Some? {
      var k := LookupStored(s.window, w, h);
      assert PacketOf(cs, k).seqNo == k;
    }
  }

  // ---- window.c:183-186, 244 and 250 with server.c:401, the open window ----

  /** The test of canSendMorePackets on the fields as the code keeps them: current
      is the last number sent, upper starts at w and loses one on every advance. */
  predicate OpenAsWritten(lower: nat, next: nat, w: nat)
  {
    var current := if next == 0 then 0 else next - 1;
    var upper := if lower == 0 then w else lower + w - 1;
    current < upper
  }

  /** The two slips cancel, except in the first window, which lets one packet
      too many out. */
  lemma OpenIff(lower: nat, next: nat, w: nat)
    requires w > 0 && lower <= next
    ensures (OpenAsWritten(lower, next, w) <==> next < lower + w) <==> !(lower == 0 && next == w)
  {
  }

  /** That one packet takes the slot of the one at the lower edge, which is then
      no longer there to be resent. */
  lemma OverrunLosesLower(cs: seq<seq<byte>>, s: SendState, w: nat)
    requires Outstanding(cs, s, w) && s.next == s.lower + w <= |cs|
    ensures s.lower !in FillOne(cs, s, w).window
    ensures OnControl(FillOne(cs, s, w), w, SREJ(s.lower)).1 == Some(PacketOf(cs, s.next))
  {
    SlotPeriod(s.lower, w);
    var m := FillOne(cs, s, w).window;
    forall k | k in m && k % w == s.lower % w ensures k == s.next { }
    assert s.next in m;
  }

  // ---- rcopy.c:606-609 with window.c:95-96, the packet that fills the gap ----

  /** doFlushingState without the missing packet: flushBuffer steps over it. */
  ghost function FlushAsWritten(r: RecvState): RecvState
  {
    var f := Flush(r.buffer, r.expected + 1);
    r.(output := r.output + f.written, expected := f.expected, buffer := f.rest)
  }

  /** The output comes out as if the gap had been filled exactly when there was
      nothing in the packet that filled it. */
  lemma GapFillIff(r: RecvState, p: Packet)
    ensures FlushAsWritten(r).output == FillGap(r, p).output <==> p.payload == []
    ensures FlushAsWritten(r).expected == FillGap(r, p).expected
  {
  }

  // ---- server.c:431, acknowledging without looking at the window ----

  /** acknowledgePacket called for a stale RR marks whatever packet now sits in
      that slot; the timeout still finds the lower edge exactly when the stale
      number does not share its slot, and otherwise goes on to the next packet
      outstanding, if there is one. */
  lemma StaleAckIff(cs: seq<seq<byte>>, s: SendState, w: nat, n: nat)
    requires Outstanding(cs, s, w) && s.lower < s.next && 0 < n <= s.lower
    ensures OnTimeout(s.(window := Acknowledge(s.window, w, n - 1)), w) ==
            if (n - 1) % w != s.lower % w then Some(PacketOf(cs, s.lower))
            else if s.lower + 1 < s.next then Some(PacketOf(cs, s.lower + 1))
            else None
  {
    var a := Acknowledge(s.window, w, n - 1);
    assert Within(a, s.lower, w);
    ScanIsFirst(a, w, s.lower, s.lower + w);
    if (n - 1) % w != s.lower % w {
      LookupWithin(a, s.lower, w, s.lower);
      assert FirstPending(a, w, s.lower, s.lower);
    } else if s.lower + 1 < s.next {
      NextPending(cs, s, w, a);
    } else {
      NonePending(a, s.lower, w);
    }
  }

  lemma NextPending(cs: seq<seq<byte>>, s: SendState, w: nat, a: map<nat, Held>)
    requires Outstanding(cs, s, w) && s.lower + 1 < s.next && a == Acknowledge(s.window, w, s.lower)
    ensures FirstPending(a, w, s.lower, s.lower + 1)
    ensures Lookup(a, w, s.lower + 1).Some? && Lookup(a, w, s.lower + 1).value.pkt == PacketOf(cs, s.lower + 1)
  {
    assert Within(a, s.lower, w);
    WindowDistinct(s.lower, s.lower + 1, w);
    LookupWithin(a, s.lower, w, s.lower);
    LookupWithin(a, s.lower, w, s.lower + 1);
  }

  /** A window that holds only its lower edge, acknowledged, has nothing pending. */
  lemma NonePending(m: map<nat, Held>, lower: nat, w: nat)
    requires w > 0 && m.Keys == {lower} && m[lower].ack
    ensures forall q :: lower <= q <= lower + w ==> !Pending(m, w, q)
  {
    forall q | lower <= q <= lower + w ensures !Pending(m, w, q) {
      if Lookup(m, w, q).Some? {
        var k := LookupStored(m, w, q);
        assert k == lower;
      }
    }
  }

  // ---- window.c:80 and rcopy.c:571, highest ----

  /** An int compared with a uint32_t is converted to unsigned first. */
  predicate RaisesAsWritten(highest: int, seqNo: u32)
    requires -1 <= highest < 0x8000_0000
  {
    seqNo > highest % 0x1_0000_0000
  }

  /** The comparison is the intended one exactly when highest has already left
      its initial -1; from -1 no packet at all raises it. */
  lemma HighestIff(highest: int)
    requires -1 <= highest < 0x8000_0000
    ensures (forall seqNo: u32 :: RaisesAsWritten(highest, seqNo) <==> seqNo > highest) <==> highest >= 0
    ensures highest == -1 ==> forall seqNo: u32 :: !RaisesAsWritten(highest, seqNo)
  {
    if highest == -1 {
      assert highest % 0x1_0000_0000 == 0xFFFF_FFFF;
      assert !RaisesAsWritten(highest, 0);
    }
  }

  // ---- window.c:72 and 113-114 with rcopy.c:568, the length of a flushed packet ----

  /** data_size is the length given to insertReceiverPacket less the header, and
      the flush subtracts the header again; None stands for the negative length
      handed to fwrite. */
  function FlushedAsWritten(pdu: seq<byte>, received: nat): Option<seq<byte>>
    requires received <= |pdu|
  {
    var size := (received - HEADER) - HEADER;
    if size < 0 then None else Some(pdu[HEADER..HEADER + size])
  }

  /** So a buffered packet never comes out as it went in, whatever length was
      given: with the length received it loses its last seven bytes, or has no
      valid length at all. */
  lemma FlushLosesTail(p: Packet, received: nat)
    requires p.seqNo < 0x1_0000_0000 && received <= HEADER + |p.payload|
    ensures FlushedAsWritten(DataBytes(p), received) != Some(p.payload)
    ensures FlushedAsWritten(DataBytes(p), HEADER + |p.payload|) ==
            if |p.payload| < HEADER then None else Some(p.payload[..|p.payload| - HEADER])
  {
    var s, n := DataBytes(p), |p.payload|;
    assert s[HEADER..] == p.payload;
    if n >= HEADER {
      assert s[HEADER..HEADER + (n - HEADER)] == s[HEADER..][..n - HEADER];
    }
    if received >= 2 * HEADER {
      assert |s[HEADER..HEADER + (received - HEADER - HEADER)]| < n;
    }
  }

  /** sizeof of the pointer receivedBuffer, which is what rcopy.c:568 gives. */
  const POINTER_SIZE := 8

  /** In the composed code the length is negative for every packet, whatever its
      payload, so a flush never gets to lose a tail. */
  lemma FlushOfPointer(p: Packet)
    requires p.seqNo < 0x1_0000_0000 && p.payload != []
    ensures FlushedAsWritten(DataBytes(p), POINTER_SIZE) == None
  {
  }

  // ---- rcopy.c:877-883, the length of an in-order write ----

  /** bufferSize bytes are written whatever arrived; stale is what the receive
      buffer held behind the payload. */
  function WrittenAsWritten(payload: seq<byte>, stale: seq<byte>, bufferSize: nat): seq<byte>
    requires |payload| + |stale| >= bufferSize
  {
    (payload + stale)[..bufferSize]
  }

  lemma WriteExactIff(payload: seq<byte>, stale: seq<byte>, bufferSize: nat)
    requires |payload| + |stale| >= bufferSize
    ensures WrittenAsWritten(payload, stale, bufferSize) == payload <==> |payload| == bufferSize
  {
  }

  // ---- server.c:385 and 517, the width of the data size ----

  /** What reaches the builder through a uint8_t is the configured buffer size,
      and only so many bytes are copied from the chunk; this many of the bytes
      then summed, stored and sent lie behind the builder's allocation. */
  function Excess(n: nat, bufferSize: nat): nat
  {
    if n > bufferSize % 0x100 then n - bufferSize % 0x100 else 0
  }

  /** The payload of a data PDU for a chunk; heap is what lies there (taken to
      be the same each time it is read). */
  function PayloadAsWritten(chunk: seq<byte>, heap: seq<byte>, bufferSize: nat): (r: seq<byte>)
    requires |heap| == Excess(|chunk|, bufferSize)
    ensures |r| == |chunk|
  {
    chunk[..|chunk| - |heap|] + heap
  }

  /** The chunk is kept whatever the heap holds exactly when it is not longer
      than the buffer size modulo 256. */
  lemma PayloadKeptIff(chunk: seq<byte>, bufferSize: nat)
    ensures (forall heap: seq<byte> | |heap| == Excess(|chunk|, bufferSize) ::
               PayloadAsWritten(chunk, heap, bufferSize) == chunk) <==> |chunk| <= bufferSize % 0x100
  {
    var n := Excess(|chunk|, bufferSize);
    if n > 0 {
      var heap := OtherBytes(chunk[|chunk| - n..]);
      assert PayloadAsWritten(chunk, heap, bufferSize)[|chunk| - 1] != chunk[|chunk| - 1];
    } else {
      assert forall heap: seq<byte> | |heap| == 0 :: chunk[..|chunk| - |heap|] + heap == chunk;
    }
  }

  function OtherBytes(s: seq<byte>): (r: seq<byte>)
    ensures |r| == |s| && forall i :: 0 <= i < |s| ==> r[i] != s[i]
  {
    seq(|s|, i requires 0 <= i < |s| => if s[i] == 0 then 1 else 0)
  }

  /** Over a whole file every chunk is kept exactly when the buffer size is below
      256, or the file is one chunk no longer than that remainder. */
  lemma FilePayloadsKeptIff(file: seq<byte>, bufferSize: nat)
    requires bufferSize > 0
    ensures (forall i :: 0 <= i < |Chunks(file, bufferSize)| ==>
               |Chunks(file, bufferSize)[i]| <= bufferSize % 0x100)
            <==> bufferSize < 0x100 || |file| <= bufferSize % 0x100
  {
    var cs := Chunks(file, bufferSize);
    ChunksRebuildFile(file, bufferSize);
    if file != [] {
      assert |cs[0]| == if |file| < bufferSize then |file| else bufferSize;
    }
  }

  // ---- server.c:548-578, padding of the data checksum ----

  /** The buffer the data checksum is taken over: the zero-pad test looks at the
      parity of the payload, so an odd payload has its own last byte cleared and
      an even one is padded with whatever byte malloc left. */
  function SummedAsWritten(s: seq<byte>, garbage: byte): seq<byte>
    requires |s| >= HEADER
  {
    if (|s| - HEADER) % 2 != 0 then s[|s| - 1 := 0] else s + [garbage]
  }

  /** The stamp it yields checks exactly when the byte wrongly summed was zero. */
  lemma PaddingIff(e: Endian, s: seq<byte>, garbage: byte)
    requires Unstamped(s)
    ensures Checks(e, WithField(e, s, InternetChecksum(e, SummedAsWritten(s, garbage)))) <==>
            if (|s| - HEADER) % 2 != 0 then s[|s| - 1] == 0 else garbage == 0
  {
    var t := SummedAsWritten(s, garbage);
    if (|s| - HEADER) % 2 != 0 {
      WordSumUpdate(e, s, |s| - 1, 0);
      ShiftedStamp(e, s, t, -(Part(e, |s| - 1, s[|s| - 1]) as int));
    } else {
      PaddingIgnored(e, s, 1);
      WordSumUpdate(e, s + Zeros(1), |s|, garbage);
      assert (s + Zeros(1))[|s| := garbage] == t;
      ShiftedStamp(e, s, t, Part(e, |s|, garbage));
    }
  }

  /** A stamp computed over a sum that is off by less than a word checks exactly
      when it is not off. */
  lemma ShiftedStamp(e: Endian, s: seq<byte>, t: seq<byte>, d: int)
    requires Unstamped(s) && WordSum(e, t) == WordSum(e, s) + d && -0xFFFF < d < 0xFFFF
    ensures Checks(e, WithField(e, s, InternetChecksum(e, t))) <==> d == 0
  {
    FieldChecksIff(e, s, InternetChecksum(e, t));
    ChecksumIsFold(e, s);
    ChecksumIsFold(e, t);
    ShiftedValueIff(WordSum(e, s), WordSum(e, t), d);
  }

  lemma ChecksumIsFold(e: Endian, s: seq<byte>)
    ensures InternetChecksum(e, s) == 0xFFFF - Fold(WordSum(e, s))
  {
    OnesSumIsFold(e, s);
  }

  lemma ShiftedValueIff(n: nat, m: nat, d: int)
    requires m == n + d && -0xFFFF < d < 0xFFFF
    ensures n + (0xFFFF - Fold(m)) > 0 && (0xFFFF - Fold(m)) % 0xFFFF == (0xFFFF - Fold(n)) % 0xFFFF <==> d == 0
  {
    var v := 0xFFFF - Fold(m);
    ComplementIff(n, Fold(n), v);
    ComplementIff(m, Fold(m), v);
    if (n + v) % 0xFFFF == 0 {
      MultiplesApart(n + v, d);
    }
  }

  /** The whole builder: the data PDU sent for a chunk. */
  function SentAsWritten(e: Endian, seqNo: u32, chunk: seq<byte>, heap: seq<byte>, bufferSize: nat, garbage: byte)
    : seq<byte>
    requires |heap| == Excess(|chunk|, bufferSize)
  {
    var s := Header(seqNo, DATA_FLAG) + PayloadAsWritten(chunk, heap, bufferSize);
    WithField(e, s, InternetChecksum(e, SummedAsWritten(s, garbage)))
  }

  /** A receiver that verifies takes it for the packet of that chunk exactly when
      the heap held the rest of the chunk and the byte wrongly summed was zero. */
  lemma BuilderIff(e: Endian, seqNo: u32, chunk: seq<byte>, heap: seq<byte>, bufferSize: nat, garbage: byte)
    requires |heap| == Excess(|chunk|, bufferSize)
    ensures ReceiveData(e, SentAsWritten(e, seqNo, chunk, heap, bufferSize, garbage))
            == Some(Packet(seqNo, false, chunk))
            <==> && heap == chunk[|chunk| - |heap|..]
                 && (if |chunk| % 2 != 0 then chunk[|chunk| - 1] == 0 else garbage == 0)
  {
    var body := PayloadAsWritten(chunk, heap, bufferSize);
    var s := Header(seqNo, DATA_FLAG) + body;
    var t := SentAsWritten(e, seqNo, chunk, heap, bufferSize, garbage);
    assert s[..HEADER] == Header(seqNo, DATA_FLAG) && s[HEADER..] == body;
    HeaderKept(e, s, seqNo, DATA_FLAG);
    PaddingIff(e, s, garbage);
    assert t[..4] == s[..4] == Put32(seqNo) && t[6] == s[6] && t[HEADER..] == body;
    RoundTrip32(seqNo, Put32(seqNo));
    KeptExactly(chunk, heap);
  }

  lemma KeptExactly(chunk: seq<byte>, heap: seq<byte>)
    requires |heap| <= |chunk|
    ensures chunk[..|chunk| - |heap|] + heap == chunk <==> heap == chunk[|chunk| - |heap|..]
  {
    var k := |chunk| - |heap|;
    assert chunk[..k] + chunk[k..] == chunk;
    assert (chunk[..k] + heap)[k..] == heap;
  }

  // ---- server.c:391 with 437, 469 and 490, the length of a resend ----

  /** The stored length already counts the header and is given seven more bytes;
      tail is what the slot held behind the PDU. */
  function ResentAsWritten(pdu: seq<byte>, tail: seq<byte>): seq<byte>
    requires |tail| == HEADER
  {
    pdu + tail
  }

  /** What the tail adds to the sum, given the parity it starts at. */
  function TailSum(e: Endian, n: nat, tail: seq<byte>): nat
  {
    WordSum(e, if n % 2 == 0 then tail else [0] + tail)
  }

  lemma {:induction false} WordSumAppend(e: Endian, s: seq<byte>, tail: seq<byte>)
    ensures WordSum(e, s + tail) == WordSum(e, s) + TailSum(e, |s|, tail)
  {
    if |s| == 0 {
      assert s + tail == tail;
    } else if |s| == 1 {
      if tail != [] {
        var t := s + tail;
        assert t[2..] == tail[1..] && ([0] + tail)[2..] == tail[1..];
        assert t[0] == s[0] && t[1] == tail[0];
      } else {
        assert s + tail == s;
      }
    } else {
      WordSumAppend(e, s[2..], tail);
      assert (s + tail)[2..] == s[2..] + tail;
    }
  }

  /** Hence a resent PDU is never the PDU first sent.  It still checks exactly
      when the tail adds a multiple of 65535; a receiver that verifies then
      takes in the packet with its payload seven bytes longer, and otherwise
      nothing, so it never takes in the packet that was lost. */
  lemma ResentIff(e: Endian, p: Packet, tail: seq<byte>)
    requires p.seqNo < 0x1_0000_0000 && |tail| == HEADER
    ensures var pdu := Stamp(e, DataBytes(p));
            var again := ResentAsWritten(pdu, tail);
            && again != pdu
            && (Checks(e, again) <==> TailSum(e, |pdu|, tail) % 0xFFFF == 0)
            && ReceiveData(e, again) == (if Checks(e, again) then Some(p.(payload := p.payload + tail)) else None)
            && ReceiveData(e, again) != Some(p)
  {
    var s, pdu := DataBytes(p), Stamp(e, DataBytes(p));
    var flag := if p.eof then EOF_FLAG else DATA_FLAG;
    var again := ResentAsWritten(pdu, tail);
    assert |again| == |pdu| + HEADER;
    assert s[..HEADER] == Header(p.seqNo, flag) && s[HEADER..] == p.payload;
    HeaderKept(e, s, p.seqNo, flag);
    StampChecks(e, s);
    RoundTrip32(p.seqNo, Put32(p.seqNo));
    WordSumAppend(e, pdu, tail);
    ChecksIff(e, pdu);
    ChecksIff(e, again);
    ModSum(WordSum(e, pdu), 0, TailSum(e, |pdu|, tail), TailSum(e, |pdu|, tail));
    assert again[..4] == pdu[..4] && again[6] == pdu[6] && again[HEADER..] == p.payload + tail;
    assert |p.payload + tail| != |p.payload|;
  }

  // ---- rcopy.c:320-343 and server.c:415-440, no verification ----

  /** Neither data PDUs nor RRs and SREJs are verified, so everything that
      arrives is taken in.  For one message of a program with these settings it
      is the message sent, whatever the draws, exactly when no flip is
      registered (or the message is on the drop list and never arrives). */
  lemma UnverifiedIff(c: Injector.Settings, s: seq<byte>, msgNo: u32)
    requires s != []
    ensures (forall d | Injector.Legal(Injector.Standard(c), Injector.Chance(c), |s|, d) ::
               Injector.Sent(Injector.Standard(c), Injector.Chance(c), s, msgNo, d) in {None, Some(s)})
            <==> !Injector.FlipsRegistered(c) || msgNo in Injector.DropList(c)
  {
    var standard, chance := Injector.Standard(c), Injector.Chance(c);
    var listed := msgNo in Injector.DropList(c);
    Injector.FlipRegisteredIff(c);
    Injector.StandardDrops(c, msgNo);
    forall d | Injector.Legal(standard, chance, |s|, d) && (!Injector.FlipsRegistered(c) || listed)
      ensures Injector.Sent(standard, chance, s, msgNo, d) in {None, Some(s)}
    {
      Injector.Conservation(standard, chance, s, msgNo, d);
    }
    if Injector.FlipsRegistered(c) && !listed {
      var k :| 0 <= k < |chance| && chance[k] == Injector.FlipBits;
      var d := Injector.Draws(seq(|standard|, _ => 0), true, k, 0);
      Injector.Conservation(standard, chance, s, msgNo, d);
      assert Injector.FlipAt(s, 0)[0] != s[0];
    }
  }

  // ---- rcopy.c:358-367, finishing on any EOF packet ----

  /** The output after an EOF packet went through handleDataPacket as written,
      which treats it as any other packet: if it is the expected one in IN_ORDER,
      bufferSize bytes are written for its empty payload. */
  function EofHandled(r: RecvState, seqNo: nat, stale: seq<byte>, bufferSize: nat): seq<byte>
    requires |stale| >= bufferSize
  {
    if r.mode.InOrder? && seqNo == r.expected then r.output + WrittenAsWritten([], stale, bufferSize) else r.output
  }

  /** The receiver stops at the first packet flagged EOF.  In a reachable state
      where it arrives, stopping there leaves the whole file exactly when every
      chunk has been written; but it is first handled as written, and after that
      the output is the file only if EOF had been handled before. */
  lemma EofAsWrittenIff(file: seq<byte>, b: nat, w: nat, s: State, stale: seq<byte>)
    requires b > 0 && w > 0 && Reachable(file, b, w, s) && |stale| >= b
    requires PacketOf(Chunks(file, b), |Chunks(file, b)|) in s.data
    ensures s.rcv.output == file <==> s.rcv.expected >= |Chunks(file, b)|
    ensures EofHandled(s.rcv, |Chunks(file, b)|, stale, b) == file <==> s.rcv.expected > |Chunks(file, b)|
  {
    var cs, k := Chunks(file, b), s.rcv.expected;
    ReachableInv(file, b, w, s);
    ChunksRebuildFile(file, b);
    assert cs[..|cs|] == cs;
    if k < |cs| {
      UptoStep(cs, k);
      FlattenPrefix(cs, k + 1);
      assert |Upto(cs, k)| < |Upto(cs, k + 1)| <= |file|;
    } else if k == |cs| {
      EofExpected(cs, w, s);
    }
  }

  /** Nothing can be buffered behind EOF. */
  lemma EofExpected(cs: seq<seq<byte>>, w: nat, s: State)
    requires Inv(cs, w, s) && s.rcv.expected == |cs|
    ensures s.rcv.mode.InOrder?
  {
    assert forall q :: q !in s.rcv.buffer;
  }

  /** It can arrive before anything else has.  (From the documented sender: the
      code's own leaves for the EOF state without sending anything, server.c:377-381.) */
  lemma EofCanOvertake()
    ensures var file: seq<byte> := [7];
            exists s :: Reachable(file, 1, 2, s) && PacketOf(Chunks(file, 1), 1) in s.data && s.rcv.output == []
  {
    var file: seq<byte> := [7];
    var cs := Chunks(file, 1);
    var s1 := Apply(cs, 2, Init(), SendNext);
    var s2 := Apply(cs, 2, s1, SendNext);
    RunCons(cs, 2, s1, SendNext, []);
    RunCons(cs, 2, Init(), SendNext, [SendNext] + []);
    var steps := [SendNext] + ([SendNext] + []);
    assert CanRun(cs, 2, Init(), steps) && Run(cs, 2, Init(), steps) == s2;
    assert Reachable(file, 1, 2, s2);
  }
}
