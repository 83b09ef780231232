/** The two data-transfer machines taken exactly as the code has them, and how
    far each of them gets over whole runs.  (The documented protocol is in
    Sender, Receiver and Transfer; single expressions are in Departures.) */
module AsWritten {
  import opened Bytes
  import opened Wire
  import Checksum
  import opened CircularBuffer
  import opened FileChunks
  import opened Departures

  // ---- the sender: server.c doSendDataState over window.c ----

  /** A slot: allocated and unused, set to NULL by an advance, or in use. */
  datatype Cell = Blank | Freed | Holding(seqNo: nat, ack: bool)

  datatype Status = Running | Exited | Crashed

  /** current is the last number sent; next is data_sequence_number. */
  datatype Sending = Sending(lower: nat, upper: nat, current: nat, next: nat, cells: seq<Cell>, status: Status)

  function StartSending(w: nat): Sending
  {
    Sending(0, w, 0, 0, seq(w, _ => Blank), Running)
  }

  /** The fill loop over a file of n chunks: the empty read leaves for the EOF
      state, and inserting into a freed slot dereferences NULL. */
  function Fill(s: Sending, n: nat): (t: Sending)
    requires |s.cells| > 0
    ensures |t.cells| == |s.cells|
    decreases n - s.next
  {
    if !s.status.Running? || s.current >= s.upper then s
    else if s.next >= n then s.(status := Exited)
    else
      var i := s.next % |s.cells|;
      if s.cells[i].Freed? then s.(status := Crashed)
      else Fill(s.(cells := s.cells[i := Holding(s.next, false)], current := s.next, next := s.next + 1), n)
  }

  function Free(cells: seq<Cell>, lo: nat, hi: nat): (r: seq<Cell>)
    requires |cells| > 0
    ensures |r| == |cells|
    decreases hi
  {
    if hi <= lo then cells else Free(cells, lo, hi - 1)[(hi - 1) % |cells| := Freed]
  }

  /** What the sender reacts to; header is the number in the first four bytes. */
  datatype Heard = HeardFill | HeardRR(header: nat) | HeardSREJ(header: nat)

  function React(s: Sending, n: nat, h: Heard): (t: Sending)
    requires |s.cells| > 0
    ensures |t.cells| == |s.cells|
  {
    if !s.status.Running? then s
    else match h
      case HeardFill => Fill(s, n)
      case HeardRR(header) =>
        var i := header % |s.cells|;
        var cells := if s.cells[i].Holding? then s.cells[i := s.cells[i].(ack := true)] else s.cells;
        if header + 1 > s.lower then
          s.(cells := Free(cells, s.lower, header + 1), lower := header + 1, upper := header + |s.cells|)
        else s.(cells := cells)
      case HeardSREJ(header) =>
        if s.cells[header % |s.cells|].Freed? then s.(status := Crashed) else s
  }

  function ReactAll(s: Sending, n: nat, hs: seq<Heard>): Sending
    requires |s.cells| > 0
    decreases hs
  {
    if hs == [] then s else ReactAll(React(s, n, hs[0]), n, hs[1..])
  }

  /** k packets into the first fill; packet w, if reached, goes over packet 0. */
  ghost predicate Filling(s: Sending, w: nat, k: nat)
  {
    && w > 0 && k <= w + 1 && |s.cells| == w
    && s.lower == 0 && s.upper == w && s.next == k && s.status.Running?
    && s.current == (if k == 0 then 0 else k - 1)
    && forall i :: 0 <= i < w ==>
         (s.cells[i] == if i == 0 && k == w + 1 then Holding(w, false)
                        else if i < k then Holding(i, false) else Blank)
  }

  /** The first fill sends w + 1 packets if the file has them: the closing test
      compares the last number sent with an upper edge meant for the next. */
  lemma {:induction false} FirstFill(s: Sending, w: nat, n: nat, k: nat)
    requires Filling(s, w, k) && k <= n
    ensures var t := Fill(s, n);
            if n <= w then t.next == n && t.status.Exited? && Filling(t.(status := Running), w, n)
            else Filling(t, w, w + 1)
    decreases n - k
  {
    if s.current < s.upper && k < n {
      SmallSlot(k, w);
      var i := k % w;
      var t := s.(cells := s.cells[i := Holding(k, false)], current := k, next := k + 1);
      FirstFill(t, w, n, k + 1);
    }
  }

  lemma SmallSlot(k: nat, w: nat)
    requires 0 < w && k <= w
    ensures k % w == if k == w then 0 else k
  {
    if k == w { SlotPeriod(0, w); }
  }

  /** After the first fill every packet sent is still held in its slot exactly
      when the file has no more chunks than the window. */
  lemma FirstFillHoldsIff(w: nat, n: nat)
    requires w > 0
    ensures var t := Fill(StartSending(w), n);
            (forall q :: 0 <= q < t.next ==> t.cells[q % w] == Holding(q, false)) <==> n <= w
  {
    FirstFill(StartSending(w), w, n, 0);
    var t := Fill(StartSending(w), n);
    if n <= w {
      forall q | 0 <= q < t.next ensures t.cells[q % w] == Holding(q, false) {
        SmallSlot(q, w);
      }
    } else {
      SmallSlot(0, w);
      assert t.cells[0 % w] == Holding(w, false);
    }
  }

  /** Past the first fill: nothing new can be sent, slot 0 holds packet w, every
      other slot its own packet, and the slots below the lower edge are freed. */
  ghost predicate Stalled(s: Sending, w: nat)
  {
    && w > 0 && |s.cells| == w && s.next == w + 1
    && (s.status.Running? ==>
          && s.current == w
          && s.upper == (if s.lower == 0 then w else s.lower + w - 1)
          && forall i :: 0 <= i < w ==> CellOk(s.cells[i], w, s.lower, i))
  }

  ghost predicate CellOk(c: Cell, w: nat, lower: nat, i: nat)
  {
    c == if i < lower then Freed else Holding(if i == 0 then w else i, false)
  }

  lemma {:induction false} FreeFrees(cells: seq<Cell>, lo: nat, hi: nat)
    requires |cells| > 0 && lo <= hi
    requires forall i :: 0 <= i < |cells| && i < lo ==> cells[i].Freed?
    ensures forall i :: 0 <= i < |cells| ==> Free(cells, lo, hi)[i] == if i < hi then Freed else cells[i]
    decreases hi
  {
    if lo < hi {
      FreeFrees(cells, lo, hi - 1);
      if hi - 1 < |cells| { SmallSlot(hi - 1, |cells|); }
    }
  }

  lemma FillStalled(s: Sending, w: nat, n: nat)
    requires Stalled(s, w) && s.status.Running?
    ensures Stalled(Fill(s, n), w)
  {
    if s.current < s.upper {
      SlotPeriod(1, w);
      SmallSlot(1, w);
      var i := s.next % |s.cells|;
      assert i < s.lower && CellOk(s.cells[i], w, s.lower, i);
    }
  }

  lemma RRStalled(s: Sending, w: nat, n: nat, header: nat)
    requires Stalled(s, w) && s.status.Running?
    ensures Stalled(React(s, n, HeardRR(header)), w)
  {
    var i := header % w;
    var cells := if s.cells[i].Holding? then s.cells[i := s.cells[i].(ack := true)] else s.cells;
    assert forall k :: 0 <= k < w ==> CellOk(s.cells[k], w, s.lower, k);
    assert forall k :: 0 <= k < w && k != i ==> cells[k] == s.cells[k];
    if header < w { SmallSlot(header, w); }
    if header + 1 > s.lower {
      FreeFrees(cells, s.lower, header + 1);
      var freed := Free(cells, s.lower, header + 1);
      forall k | 0 <= k < w ensures CellOk(freed[k], w, header + 1, k) {
        assert CellOk(s.cells[k], w, s.lower, k);
      }
    } else {
      assert cells == s.cells;
    }
  }

  lemma ReactStalled(s: Sending, w: nat, n: nat, h: Heard)
    requires Stalled(s, w)
    ensures Stalled(React(s, n, h), w)
  {
    if s.status.Running? {
      match h {
        case HeardFill => FillStalled(s, w, n);
        case HeardRR(header) => RRStalled(s, w, n, header);
        case HeardSREJ(header) =>
      }
    }
  }

  lemma {:induction false} StalledForGood(s: Sending, w: nat, n: nat, hs: seq<Heard>)
    requires Stalled(s, w)
    ensures Stalled(ReactAll(s, n, hs), w)
    decreases hs
  {
    if hs != [] {
      ReactStalled(s, w, n, hs[0]);
      StalledForGood(React(s, n, hs[0]), w, n, hs[1..]);
    }
  }

  lemma {:induction false} ExitedForGood(s: Sending, n: nat, hs: seq<Heard>)
    requires |s.cells| > 0 && !s.status.Running?
    ensures ReactAll(s, n, hs) == s
    decreases hs
  {
    if hs != [] { ExitedForGood(s, n, hs[1..]); }
  }

  /** Whatever RRs and SREJs then arrive, the sender as written never sends
      more than w + 1 new packets: it sends every packet number of the file if
      and only if the file has at most w + 1 chunks.  (What those packets carry
      is in Departures.) */
  lemma SenderStalls(w: nat, n: nat, hs: seq<Heard>)
    requires w > 0
    ensures var s := ReactAll(StartSending(w), n, [HeardFill] + hs);
            && s.next == (if n <= w + 1 then n else w + 1)
            && (s.next == n <==> n <= w + 1)
  {
    var t := Fill(StartSending(w), n);
    assert ([HeardFill] + hs)[1..] == hs;
    FirstFill(StartSending(w), w, n, 0);
    if n <= w { ExitedForGood(t, n, hs); } else { StalledForGood(t, w, n, hs); }
  }

  /** With no more chunks than the window the empty read comes in the first fill,
      and the child leaves at once, with everything outstanding. */
  lemma LeavesIff(w: nat, n: nat, hs: seq<Heard>)
    requires w > 0
    ensures Fill(StartSending(w), n).status.Running? <==> n > w
    ensures n <= w ==> ReactAll(StartSending(w), n, [HeardFill] + hs).status.Exited?
  {
    FirstFill(StartSending(w), w, n, 0);
    assert ([HeardFill] + hs)[1..] == hs;
    if n <= w { ExitedForGood(Fill(StartSending(w), n), n, hs); }
  }

  /** The packet resent for an SREJ whose header carries this number. */
  function Resent(s: Sending, header: nat): Option<nat>
    requires |s.cells| > 0
  {
    var c := s.cells[header % |s.cells|];
    if s.status.Running? && c.Holding? then Some(c.seqNo) else None
  }

  /** After any run, an SREJ for a packet that was sent is answered with it exactly
      when the child is still there (so the file has more chunks than the window),
      the SREJ's own sequence number shares its slot, it is not packet 0, which
      was overwritten, and its slot has not been freed. */
  lemma SrejAnsweredIff(w: nat, n: nat, hs: seq<Heard>, localSeq: nat, q: nat)
    requires w > 0
    requires q < ReactAll(StartSending(w), n, [HeardFill] + hs).next
    ensures var s := ReactAll(StartSending(w), n, [HeardFill] + hs);
            && |s.cells| == w
            && (Resent(s, localSeq) == Some(q) <==>
                  && s.status.Running? && localSeq % w == q % w && q > 0
                  && (if q == w then s.lower == 0 else s.lower <= q))
            && (s.status.Running? ==> n > w)
  {
    var t, s := Fill(StartSending(w), n), ReactAll(StartSending(w), n, [HeardFill] + hs);
    assert ([HeardFill] + hs)[1..] == hs;
    FirstFill(StartSending(w), w, n, 0);
    if n <= w {
      ExitedForGood(t, n, hs);
    } else {
      assert Stalled(t, w);
      StalledForGood(t, w, n, hs);
      SmallSlot(q, w);
      if s.status.Running? {
        var k := localSeq % w;
        assert CellOk(s.cells[k], w, s.lower, k);
      }
    }
  }

  /** What the timeout resends: the first slot from lower to upper that holds a
      packet not marked. */
  function TimedOut(s: Sending, q: nat): Option<nat>
    requires |s.cells| > 0
    decreases s.upper - q
  {
    if q > s.upper then None
    else
      var c := s.cells[q % |s.cells|];
      if c.Holding? && !c.ack then Some(c.seqNo) else TimedOut(s, q + 1)
  }

  /** After any run in which the window is closed, the timeout resends packet w as
      long as nothing is acknowledged, and packet 1 after that, if it has a slot
      of its own: packet 0 is never resent. */
  lemma TimeoutAsWritten(w: nat, n: nat, hs: seq<Heard>)
    requires w > 0
    requires var s := ReactAll(StartSending(w), n, [HeardFill] + hs); s.status.Running? && s.current >= s.upper
    ensures var s := ReactAll(StartSending(w), n, [HeardFill] + hs);
            && |s.cells| == w && s.lower <= 1
            && TimedOut(s, s.lower) == if s.lower == 0 then Some(w) else if w > 1 then Some(1) else None
  {
    var t, s := Fill(StartSending(w), n), ReactAll(StartSending(w), n, [HeardFill] + hs);
    assert ([HeardFill] + hs)[1..] == hs;
    FirstFill(StartSending(w), w, n, 0);
    if n <= w { ExitedForGood(t, n, hs); }
    assert Stalled(t, w);
    StalledForGood(t, w, n, hs);
    SmallSlot(s.lower, w);
    assert CellOk(s.cells[s.lower % w], w, s.lower, s.lower % w);
    if s.lower == 1 && w == 1 { assert TimedOut(s, 2) == None; }
  }

  /** What the first RR that frees more than one slot leads to, when the window is
      tried again: the child leaves at the end of the file, or dies on a freed
      slot if there is anything left to send. */
  lemma RefillEnds(w: nat, n: nat, header: nat)
    requires w > 0
    ensures ReactAll(StartSending(w), n, [HeardFill, HeardRR(header), HeardFill]).status ==
            if n <= w then Exited else if header == 0 then Running else if n == w + 1 then Exited else Crashed
  {
    var s := Fill(StartSending(w), n);
    FirstFill(StartSending(w), w, n, 0);
    var t := React(s, n, HeardRR(header));
    ThreeSteps(StartSending(w), n, HeardFill, HeardRR(header), HeardFill);
    if n > w {
      assert Stalled(s, w);
      RRStalled(s, w, n, header);
      if header > 0 {
        SlotPeriod(1, w);
        SmallSlot(1, w);
        var i := t.next % w;
        assert CellOk(t.cells[i], w, t.lower, i);
      }
    }
  }

  /** And an SREJ that comes after that RR kills it exactly if its slot was freed. */
  lemma SrejCrashesIff(w: nat, n: nat, header: nat, h: nat)
    requires w > 0
    ensures ReactAll(StartSending(w), n, [HeardFill, HeardRR(header), HeardSREJ(h)]).status.Crashed?
            <==> n > w && h % w <= header
  {
    var s := Fill(StartSending(w), n);
    FirstFill(StartSending(w), w, n, 0);
    ThreeSteps(StartSending(w), n, HeardFill, HeardRR(header), HeardSREJ(h));
    if n > w {
      assert Stalled(s, w);
      RRStalled(s, w, n, header);
      var t := React(s, n, HeardRR(header));
      assert CellOk(t.cells[h % w], w, t.lower, h % w);
    }
  }

  lemma ThreeSteps(s: Sending, n: nat, a: Heard, b: Heard, c: Heard)
    requires |s.cells| > 0
    ensures ReactAll(s, n, [a, b, c]) == React(React(React(s, n, a), n, b), n, c)
  {
    assert [a, b, c][1..] == [b, c] && [b, c][1..] == [c] && [c][1..] == [];
    assert ReactAll(React(React(s, n, a), n, b), n, [c]) == React(React(React(s, n, a), n, b), n, c);
    assert ReactAll(React(s, n, a), n, [b, c]) == ReactAll(React(React(s, n, a), n, b), n, [c]);
  }

  // ---- the receiver: rcopy.c handleDataPacket over window.c ----

  /** The state value: the fourth is the client's DONE, which the receive states
      return on success as well as on failure and which no case handles. */
  datatype Mode = InOrder | Buffering | Flushing | Done

  /** slots are the numbers of the slots marked valid; last is the stored control
      packet; written are the numbers of the packets whose payload was written, in
      order, and output the bytes. */
  datatype Receiving = Receiving(
    mode: Mode, expected: nat, slots: seq<Option<nat>>, last: Option<Control>,
    written: seq<nat>, output: seq<byte>, crashed: bool)

  /** hasLastControl is not initialised: leftover is what it claims to hold. */
  function StartReceiving(w: nat, leftover: Option<Control>): Receiving
  {
    Receiving(InOrder, 0, seq(w, _ => None), leftover, [], [], false)
  }

  /** A packet handed to handleDataPacket.  gapAt: the poll at which, should it be
      handled in BUFFERING, the missing packet is read, and a number from 10 on if
      none of the ten reads it.  body: the bufferSize bytes that the receive
      buffer then holds behind the header.  stops: what a write of negative
      length does, should it come to one: end the program, or fail and go on. */
  datatype Arrival = Arrival(seqNo: nat, gapAt: nat, body: seq<byte>, stops: bool)

  /** A flush whose writes fail: it steps over the stored run, emptying its slots. */
  function StepOver(slots: seq<Option<nat>>, e: nat): (r: (seq<Option<nat>>, nat))
    requires |slots| > 0
    ensures |r.0| == |slots| && r.1 >= e
    decreases |slots| - multiset(slots)[None]
  {
    if slots[e % |slots|] == Some(e) then StepOver(slots[e % |slots| := None], e + 1) else (slots, e)
  }

  /** One SREJ before each poll. */
  function Asked(e: nat, gapAt: nat): seq<Control>
  {
    seq(if gapAt < 10 then gapAt + 1 else 10, _ => SREJ(e))
  }

  /** The new state and the control packets sent. */
  function Handle(r: Receiving, a: Arrival): (res: (Receiving, seq<Control>))
    requires |r.slots| > 0
    ensures |res.0.slots| == |r.slots|
  {
    var w := |r.slots|;
    if r.crashed then (r, [])
    else if a.seqNo < r.expected then (r, if r.last.Some? then [r.last.value] else [])
    else match r.mode
      case InOrder =>
        if a.seqNo == r.expected then
          (r.(written := r.written + [a.seqNo], output := r.output + a.body, expected := r.expected + 1,
              last := Some(RR(r.expected + 1)), mode := Done),
           [RR(r.expected + 1)])
        else (r.(mode := Buffering), [])
      case Buffering =>
        (r.(slots := if a.seqNo > r.expected + w then r.slots else r.slots[a.seqNo % w := Some(a.seqNo)],
            mode := if a.gapAt < 10 then Flushing else Done),
         Asked(r.expected, a.gapAt))
      case Flushing =>
        // A slot found valid has data_size 1, so fwrite is given 1 - 7.
        if r.slots[(r.expected + 1) % w] == Some(r.expected + 1) && a.stops then
          (r.(expected := r.expected + 1, crashed := true), [])
        else
          var (slots, e) := StepOver(r.slots, r.expected + 1);
          (r.(slots := slots, expected := e, mode := InOrder), [])
      case Done => (r, [])
  }

  function HandleAll(r: Receiving, arrivals: seq<Arrival>): (t: Receiving)
    requires |r.slots| > 0
    ensures |t.slots| == |r.slots|
    decreases arrivals
  {
    if arrivals == [] then r else HandleAll(Handle(r, arrivals[0]).0, arrivals[1..])
  }

  /** What is sent in answer to each packet of a run. */
  function Answers(r: Receiving, arrivals: seq<Arrival>): (sent: seq<seq<Control>>)
    requires |r.slots| > 0
    ensures |sent| == |arrivals|
    decreases arrivals
  {
    if arrivals == [] then []
    else
      var (t, sent) := Handle(r, arrivals[0]);
      [sent] + Answers(t, arrivals[1..])
  }

  // ---- what it writes ----

  /** Nothing has been written, or one packet was and the machine is stuck. */
  ghost predicate AtMostOne(r: Receiving)
  {
    && |r.slots| > 0
    && (|| (r.written == [] && r.output == [])
        || (r.mode.Done? && r.expected > 0 && r.written == [r.expected - 1]))
  }

  /** The one packet written is one of those that arrived. */
  ghost predicate WroteOneOf(t: Receiving, arrivals: seq<Arrival>)
  {
    exists a :: a in arrivals && t.written == [a.seqNo] && t.output == a.body
  }

  lemma {:induction false} WrittenAtMostOne(r: Receiving, arrivals: seq<Arrival>)
    requires AtMostOne(r)
    ensures var t := HandleAll(r, arrivals);
            && AtMostOne(t)
            && (r.written != [] ==> t.written == r.written && t.output == r.output)
            && (r.written == [] && t.written != [] ==> WroteOneOf(t, arrivals))
            && (0 in t.written ==>
                  || 0 in r.written
                  || (!r.crashed && r.mode.InOrder? && r.expected == 0 && arrivals != [] && arrivals[0].seqNo == 0))
    decreases arrivals
  {
    if arrivals != [] {
      var u := Handle(r, arrivals[0]).0;
      WrittenAtMostOne(u, arrivals[1..]);
      var t := HandleAll(r, arrivals);
      if r.written == [] && t.written != [] {
        if u.written != [] {
          assert arrivals[0] in arrivals;
        } else {
          var a :| a in arrivals[1..] && t.written == [a.seqNo] && t.output == a.body;
          assert a in arrivals;
        }
      }
    }
  }

  /** Over any run the receiver as written writes at most one payload, and it is
      the first chunk exactly when that is the first packet to arrive. */
  lemma ReceiverWritesOne(w: nat, leftover: Option<Control>, arrivals: seq<Arrival>)
    requires w > 0
    ensures var t := HandleAll(StartReceiving(w, leftover), arrivals);
            && |t.written| <= 1
            && (if t.written == [] then t.output == [] else WroteOneOf(t, arrivals))
            && (t.written == [0] <==> arrivals != [] && arrivals[0].seqNo == 0)
            && (t.written == [0] ==> t.output == arrivals[0].body)
  {
    var r := StartReceiving(w, leftover);
    WrittenAtMostOne(r, arrivals);
    if arrivals != [] && arrivals[0].seqNo == 0 {
      WrittenAtMostOne(Handle(r, arrivals[0]).0, arrivals[1..]);
    }
  }

  /** What stands behind the header when a packet of the file has been read into
      the receive buffer: at most 1400 bytes of its payload (whether first sent or
      resent), then what was there before. */
  function Body(file: seq<byte>, b: nat, q: nat, heap: seq<byte>, behind: seq<byte>): seq<byte>
    requires b > 0 && q < |Chunks(file, b)| && |heap| == Excess(|Chunks(file, b)[q]|, b) && |behind| >= b
  {
    var payload := PayloadAsWritten(Chunks(file, b)[q], heap, b);
    WrittenAsWritten(if |payload| <= 1400 then payload else payload[..1400], behind, b)
  }

  ghost predicate Genuine(file: seq<byte>, b: nat, a: Arrival)
    requires b > 0
  {
    && a.seqNo < |Chunks(file, b)|
    && exists heap, behind ::
           && |heap| == Excess(|Chunks(file, b)[a.seqNo]|, b) && |behind| >= b
           && a.body == Body(file, b, a.seqNo, heap, behind)
  }

  /** The bytes written are the file exactly when it is empty, or when it is one
      full chunk whose packet, still holding it, arrived first. */
  lemma WholeFileWrittenIff(file: seq<byte>, b: nat, w: nat, leftover: Option<Control>, arrivals: seq<Arrival>)
    requires b > 0 && w > 0 && forall a :: a in arrivals ==> Genuine(file, b, a)
    ensures HandleAll(StartReceiving(w, leftover), arrivals).output == file <==>
            file == [] || (|file| == b && arrivals != [] && arrivals[0].body == file)
  {
    ReceiverWritesOne(w, leftover, arrivals);
    var t := HandleAll(StartReceiving(w, leftover), arrivals);
    assert forall a :: a in arrivals ==> |a.body| == b;
    if arrivals != [] {
      assert Genuine(file, b, arrivals[0]);
      if |file| == b { assert Chunks(file, b) == [file]; }
    }
  }

  /** A run of genuine packets, the first chunk's first. */
  ghost predicate BeginsWithFirst(file: seq<byte>, b: nat, arrivals: seq<Arrival>)
    requires b > 0
  {
    arrivals != [] && arrivals[0].seqNo == 0 && forall a :: a in arrivals ==> Genuine(file, b, a)
  }

  /** So a run that begins with the first chunk writes the whole of a non-empty
      file, whatever follows and whatever memory held, exactly when the file is
      one full chunk of fewer than 256 bytes. */
  lemma WholeFileAlwaysIff(file: seq<byte>, b: nat, w: nat, leftover: Option<Control>)
    requires b > 0 && w > 0 && file != []
    ensures (forall arrivals | BeginsWithFirst(file, b, arrivals) ::
               HandleAll(StartReceiving(w, leftover), arrivals).output == file)
            <==> |file| == b < 0x100
  {
    if |file| == b < 0x100 {
      forall arrivals | BeginsWithFirst(file, b, arrivals)
        ensures HandleAll(StartReceiving(w, leftover), arrivals).output == file
      {
        SmallChunkIntact(file, b, arrivals[0]);
        WholeFileWrittenIff(file, b, w, leftover, arrivals);
      }
    } else {
      var a := SpoiltArrival(file, b);
      WholeFileWrittenIff(file, b, w, leftover, [a]);
      assert BeginsWithFirst(file, b, [a]);
    }
  }

  lemma SmallChunkIntact(file: seq<byte>, b: nat, a: Arrival)
    requires b > 0 && |file| == b < 0x100 && Genuine(file, b, a)
    ensures a.body == file
  {
    assert Chunks(file, b) == [file];
    var heap, behind :| |heap| == Excess(|file|, b) && |behind| >= b && a.body == Body(file, b, 0, heap, behind);
    assert PayloadAsWritten(file, heap, b) == file;
  }

  /** Otherwise there is a first packet whose bytes are not the file. */
  lemma SpoiltArrival(file: seq<byte>, b: nat) returns (a: Arrival)
    requires b > 0 && file != [] && !(|file| == b < 0x100)
    ensures Genuine(file, b, a) && a.seqNo == 0 && (|file| == b ==> a.body != file)
  {
    var chunk := Chunks(file, b)[0];
    var n := Excess(|chunk|, b);
    var heap, behind := OtherBytes(chunk[|chunk| - n..]), Checksum.Zeros(b);
    a := Arrival(0, 10, Body(file, b, 0, heap, behind), true);
    if |file| == b {
      assert chunk == file;
      assert a.body[b % 0x100] == heap[0] != file[b % 0x100];
    }
  }

  /** A gap that was filled in time is skipped: chunk 1 comes out without 0. */
  lemma FilledGapIsSkipped(leftover: Option<Control>, a: Arrival, b: Arrival, c: Arrival, d: Arrival)
    requires a.seqNo == 1 && b.seqNo == 2 && b.gapAt < 10 && c.seqNo == 1 && d.seqNo == 1
    ensures HandleAll(StartReceiving(4, leftover), [a, b, c, d]).written == [1]
    ensures HandleAll(StartReceiving(4, leftover), [a, b, c, d]).output == d.body
  {
    var r1 := Handle(StartReceiving(4, leftover), a).0;
    var r2 := Handle(r1, b).0;
    var r3 := Handle(r2, c).0;
    assert [a, b, c, d][1..] == [b, c, d] && [b, c, d][1..] == [c, d] && [c, d][1..] == [d];
    assert r3.mode.InOrder? && r3.expected == 1;
    assert HandleAll(r3, [d]) == HandleAll(Handle(r3, d).0, []);
    assert HandleAll(r1, [b, c, d]) == HandleAll(r2, [c, d]) == HandleAll(r3, [d]);
  }

  /** A slot holds only a number that belongs there, and none beyond expected + W. */
  ghost predicate SlotsInWindow(r: Receiving)
  {
    && |r.slots| > 0
    && forall i :: 0 <= i < |r.slots| && r.slots[i].Some? ==>
         r.slots[i].value % |r.slots| == i && r.slots[i].value <= r.expected + |r.slots|
  }

  lemma {:induction false} StepOverKeeps(slots: seq<Option<nat>>, e: nat)
    requires |slots| > 0
    ensures var (t, f) := StepOver(slots, e);
            && (forall i :: 0 <= i < |slots| ==> t[i] == slots[i] || (t[i] == None && e <= slots[i].value < f))
            && t[f % |slots|] != Some(f)
    decreases |slots| - multiset(slots)[None]
  {
    if slots[e % |slots|] == Some(e) { StepOverKeeps(slots[e % |slots| := None], e + 1); }
  }

  /** That is kept over any run. */
  lemma {:induction false} SlotsOverRuns(r: Receiving, arrivals: seq<Arrival>)
    requires SlotsInWindow(r)
    ensures SlotsInWindow(HandleAll(r, arrivals))
    decreases arrivals
  {
    if arrivals != [] {
      StepOverKeeps(r.slots, r.expected + 1);
      SlotsOverRuns(Handle(r, arrivals[0]).0, arrivals[1..]);
    }
  }

  /** In BUFFERING a packet that is not old is stored exactly if it is inside the
      window, and asked for once for each poll, ten times at most. */
  lemma BufferedIff(r: Receiving, a: Arrival)
    requires SlotsInWindow(r) && r.mode.Buffering? && !r.crashed && a.seqNo >= r.expected
    ensures var (t, sent) := Handle(r, a);
            && (t.slots[a.seqNo % |t.slots|] == Some(a.seqNo) <==> a.seqNo <= r.expected + |r.slots|)
            && 1 <= |sent| <= 10 && (a.gapAt < 10 ==> |sent| == a.gapAt + 1) && (a.gapAt >= 10 ==> |sent| == 10)
            && (forall c :: c in sent ==> c == SREJ(r.expected))
            && t.mode == if a.gapAt < 10 then Flushing else Done
  {
    assert SlotsInWindow(r);
  }

  /** A gap that is not filled within ten polls is the end: whatever follows,
      nothing is written and nothing moves any more. */
  lemma UnfilledGapEnds(w: nat, leftover: Option<Control>, a: Arrival, b: Arrival, rest: seq<Arrival>)
    requires w > 0 && a.seqNo > 0 && b.gapAt >= 10
    ensures var t := HandleAll(StartReceiving(w, leftover), [a, b] + rest);
            t.mode.Done? && t.written == [] && t.expected == 0
  {
    var r := StartReceiving(w, leftover);
    assert ([a, b] + rest)[1..] == [b] + rest && ([b] + rest)[1..] == rest;
    DoneForGood(Handle(Handle(r, a).0, b).0, rest);
  }

  lemma {:induction false} DoneForGood(r: Receiving, arrivals: seq<Arrival>)
    requires |r.slots| > 0 && r.mode.Done?
    ensures HandleAll(r, arrivals) == r
    decreases arrivals
  {
    if arrivals != [] { DoneForGood(r, arrivals[1..]); }
  }

  /** The first flush meets the negative write exactly if packet 1 was buffered;
      it moves on past the gap, and past packet 1 too if the write only fails. */
  lemma FirstFlush(w: nat, leftover: Option<Control>, a: Arrival, b: Arrival, c: Arrival)
    requires w > 0 && a.seqNo > 0 && b.gapAt < 10
    ensures var t := HandleAll(StartReceiving(w, leftover), [a, b, c]);
            && (t.crashed <==> b.seqNo == 1 && c.stops)
            && (!t.crashed ==> t.mode.InOrder? && t.expected == if b.seqNo == 1 then 2 else 1)
            && t.written == [] && t.last == leftover
  {
    var r1 := Handle(StartReceiving(w, leftover), a).0;
    var r2 := Handle(r1, b).0;
    var r3 := Handle(r2, c).0;
    assert [a, b, c][1..] == [b, c] && [b, c][1..] == [c] && [c][1..] == [];
    assert HandleAll(r2, [c]) == r3 && HandleAll(r1, [b, c]) == HandleAll(r2, [c]);
    assert forall i :: 0 <= i < w && r2.slots[i].Some? ==> r2.slots[i] == Some(b.seqNo);
    if b.seqNo == 1 {
      assert r2.slots[1 % w] == Some(1);
      var cleared := r2.slots[1 % w := None];
      assert forall i :: 0 <= i < w ==> cleared[i] == None;
      assert StepOver(cleared, 2) == (cleared, 2);
    }
  }

  // ---- what it answers ----

  /** The packets that are answered, in any state: an old one if a control packet
      is stored, any other in BUFFERING, and the expected one in IN_ORDER.  The
      answer names the number then waited for unless it is a stored packet that
      was left behind by a flush, or never stored. */
  lemma AnswerIff(r: Receiving, a: Arrival)
    requires |r.slots| > 0 && !r.crashed
    ensures var (t, sent) := Handle(r, a);
            var stale := a.seqNo < r.expected;
            && (sent != [] <==> if stale then r.last.Some?
                                else r.mode.Buffering? || (r.mode.InOrder? && a.seqNo == r.expected))
            && ((forall c :: c in sent ==> c.n == t.expected)
                <==> (stale && r.last.Some? ==> r.last.value.n == r.expected))
  {
    var (t, sent) := Handle(r, a);
    if a.seqNo < r.expected && r.last.Some? { assert sent[0] in sent; }
  }

  /** What is stored is an RR for the number waited for, once anything has been
      written; until then it is what memory held. */
  ghost predicate Stored(r: Receiving, leftover: Option<Control>)
  {
    && |r.slots| > 0
    && r.last == (if r.written == [] then leftover else Some(RR(r.expected)))
    && (r.written != [] ==> r.mode.Done?)
  }

  lemma {:induction false} StoredOverRuns(r: Receiving, leftover: Option<Control>, arrivals: seq<Arrival>)
    requires Stored(r, leftover)
    ensures Stored(HandleAll(r, arrivals), leftover)
    decreases arrivals
  {
    if arrivals != [] {
      StoredOverRuns(Handle(r, arrivals[0]).0, leftover, arrivals[1..]);
    }
  }

  /** After any run, an old packet is answered with an RR for the number waited
      for exactly if something has been written (unless memory happened to hold
      just that packet): after a flush alone there is no answer to repeat. */
  lemma OldAnsweredIff(w: nat, leftover: Option<Control>, arrivals: seq<Arrival>, a: Arrival)
    requires w > 0
    requires var r := HandleAll(StartReceiving(w, leftover), arrivals); !r.crashed && a.seqNo < r.expected
    ensures var r := HandleAll(StartReceiving(w, leftover), arrivals);
            Handle(r, a).1 == [RR(r.expected)] <==> r.written != [] || leftover == Some(RR(r.expected))
  {
    StoredOverRuns(StartReceiving(w, leftover), leftover, arrivals);
    var r := HandleAll(StartReceiving(w, leftover), arrivals);
    if Handle(r, a).1 == [RR(r.expected)] {
      assert r.last.Some? && [r.last.value][0] == RR(r.expected);
    }
  }

  /** Once DONE the receiver only repeats its last RR to old packets. */
  lemma {:induction false} DoneAnswers(r: Receiving, arrivals: seq<Arrival>, i: nat)
    requires |r.slots| > 0 && r.mode.Done? && !r.crashed && r.last == Some(RR(r.expected))
    requires i < |arrivals|
    ensures Answers(r, arrivals)[i] == if arrivals[i].seqNo < r.expected then [RR(r.expected)] else []
    decreases i
  {
    if i > 0 {
      assert Handle(r, arrivals[0]).0 == r;
      DoneAnswers(r, arrivals[1..], i - 1);
    }
  }

  ghost predicate AllAnswered(sent: seq<seq<Control>>) { forall i :: 0 <= i < |sent| ==> sent[i] != [] }

  ghost predicate AllZero(arrivals: seq<Arrival>) { forall i :: 0 <= i < |arrivals| ==> arrivals[i].seqNo == 0 }

  /** In a run that begins with packet 0, the packets 0 are answered and no other. */
  lemma AnsweredAfterZero(w: nat, leftover: Option<Control>, arrivals: seq<Arrival>, i: nat)
    requires w > 0 && i < |arrivals| && arrivals[0].seqNo == 0
    ensures Answers(StartReceiving(w, leftover), arrivals)[i] != [] <==> arrivals[i].seqNo == 0
  {
    if i > 0 {
      DoneAnswers(Handle(StartReceiving(w, leftover), arrivals[0]).0, arrivals[1..], i - 1);
    }
  }

  lemma FirstUnanswered(w: nat, leftover: Option<Control>, arrivals: seq<Arrival>)
    requires w > 0 && arrivals != [] && arrivals[0].seqNo != 0
    ensures Answers(StartReceiving(w, leftover), arrivals)[0] == []
  {
  }

  /** Every packet of a run is answered, as documented, exactly when all of them
      are packet 0: a run that goes on to any other packet has one left
      unanswered, and so has every run that begins with another. */
  lemma EveryPacketAnsweredIff(w: nat, leftover: Option<Control>, arrivals: seq<Arrival>)
    requires w > 0
    ensures AllAnswered(Answers(StartReceiving(w, leftover), arrivals)) <==> AllZero(arrivals)
  {
    var sent := Answers(StartReceiving(w, leftover), arrivals);
    if arrivals != [] && arrivals[0].seqNo == 0 {
      forall i | 0 <= i < |arrivals| ensures sent[i] != [] <==> arrivals[i].seqNo == 0 {
        AnsweredAfterZero(w, leftover, arrivals, i);
      }
    } else if arrivals != [] {
      FirstUnanswered(w, leftover, arrivals);
      assert !AllAnswered(sent) && !AllZero(arrivals);
    }
  }
}
