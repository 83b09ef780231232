/** server.c: the sender's side of a transfer, doSendDataState. */
module Sender {
  import opened Bytes
  import opened Wire
  import opened CircularBuffer
  import opened Window
  import opened FileChunks

  /** The sender as a value; window is what its circular buffer stands for. */
  datatype SendState = SendState(lower: nat, next: nat, window: map<nat, Held>)

  // ---- specification ----

  /** The window is open and there is something left to send, the EOF packet
      included. */
  predicate CanFill(cs: seq<seq<byte>>, s: SendState, w: nat)
  {
    s.next < s.lower + w && s.next <= |cs|
  }

  ghost function FillOne(cs: seq<seq<byte>>, s: SendState, w: nat): SendState
    requires w > 0
  {
    s.(next := s.next + 1, window := Put(s.window, w, s.next, Held(PacketOf(cs, s.next), false)))
  }

  ghost function FillAll(cs: seq<seq<byte>>, s: SendState, w: nat): SendState
    requires w > 0
    decreases |cs| + 1 - s.next
  {
    if CanFill(cs, s, w) then FillAll(cs, FillOne(cs, s, w), w) else s
  }

  /** An RR above the lower edge acknowledges the packet before it and slides
      the window; an SREJ resends whatever the slot of its number holds. */
  ghost function OnControl(s: SendState, w: nat, c: Control): (SendState, Option<Packet>)
    requires w > 0
  {
    match c
    case RR(n) =>
      if n > s.lower then
        (s.(lower := n, window := Release(Acknowledge(s.window, w, n - 1), w, s.lower, n)), None)
      else (s, None)
    case SREJ(n) =>
      (s, match Lookup(s.window, w, n) { case Some(h) => Some(h.pkt) case None => None })
  }

  ghost function OnTimeout(s: SendState, w: nat): Option<Packet>
    requires w > 0
  {
    Scan(s.window, w, s.lower, s.lower + w)
  }

  /** The buffer holds exactly the outstanding packets, each as first sent. */
  ghost predicate Outstanding(cs: seq<seq<byte>>, s: SendState, w: nat)
  {
    && w > 0
    && s.lower <= s.next <= s.lower + w && s.next <= |cs| + 1
    && s.window == map q: nat | s.lower <= q < s.next :: Held(PacketOf(cs, q), false)
  }

  // ---- the machine ----

  class Server {
    const win: SenderWindow
    const bufferSize: nat
    var rest: seq<byte>
    var eofSent: bool
    ghost const cs: seq<seq<byte>>

    ghost predicate Valid()
      reads this, win, win.slots
    {
      && win.Valid() && bufferSize > 0
      && if eofSent then win.current == |cs| + 1
         else win.current <= |cs| && Chunks(rest, bufferSize) == cs[win.current..]
    }

    ghost function State(): SendState
      reads this, win
    {
      SendState(win.lower, win.current, win.entries)
    }

    constructor (file: seq<byte>, bufferSize: nat, windowSize: nat)
      requires bufferSize > 0 && windowSize > 0
      ensures Valid() && fresh(win) && fresh(win.slots) && win.windowSize == windowSize
      ensures cs == Chunks(file, bufferSize) && State() == SendState(0, 0, map[])
    {
      this.bufferSize := bufferSize;
      win := new SenderWindow(windowSize);
      rest, eofSent := file, false;
      cs := Chunks(file, bufferSize);
    }

    /** The inner fill loop: while the window is open read a chunk, make its
        packet, keep it in the window and send it; the empty read sends EOF. */
    method FillWindow() returns (sent: seq<Packet>)
      requires Valid()
      modifies this, win, win.slots
      ensures Valid()
      ensures State() == FillAll(cs, old(State()), win.windowSize)
      ensures old(win.current) + |sent| == win.current
      ensures forall i :: 0 <= i < |sent| ==> sent[i] == PacketOf(cs, old(win.current) + i)
    {
      sent := [];
      ghost var goal := FillAll(cs, State(), win.windowSize);
      var open := win.CanSendMorePackets();
      while open && !eofSent
        invariant Valid()
        invariant open <==> win.current < win.lower + win.windowSize
        invariant FillAll(cs, State(), win.windowSize) == goal
        invariant old(win.current) + |sent| == win.current
        invariant forall i :: 0 <= i < |sent| ==> sent[i] == PacketOf(cs, old(win.current) + i)
        decreases |cs| + 1 - win.current
      {
        var p := SendOne();
        sent := sent + [p];
        open := win.CanSendMorePackets();
      }
    }

    /** One turn of the fill loop. */
    method SendOne() returns (p: Packet)
      requires Valid() && !eofSent && win.current < win.lower + win.windowSize
      modifies this, win, win.slots
      ensures Valid()
      ensures CanFill(cs, old(State()), win.windowSize)
      ensures State() == FillOne(cs, old(State()), win.windowSize)
      ensures p == PacketOf(cs, old(win.current))
    {
      p := NextPacket();
      win.InsertPacketIntoWindow(win.current, p);
      win.current := win.current + 1;
    }

    /** Read on in the file; the packet for the number about to be sent. */
    method NextPacket() returns (p: Packet)
      requires Valid() && !eofSent
      modifies this
      ensures p == PacketOf(cs, win.current)
      ensures if eofSent then win.current == |cs|
              else win.current < |cs| && Chunks(rest, bufferSize) == cs[win.current + 1..]
    {
      var chunk, left := GetDataChunk(rest, bufferSize);
      if |chunk| == 0 {
        eofSent := true;
        p := Packet(win.current, true, []);
      } else {
        assert cs[win.current..][0] == chunk && cs[win.current..][1..] == cs[win.current + 1..];
        rest := left;
        p := Packet(win.current, false, chunk);
      }
    }

    /** An RR or SREJ from the receiver. */
    method HandleControl(c: Control) returns (resent: Option<Packet>)
      requires Valid()
      modifies win, win.slots
      ensures Valid()
      ensures (State(), resent) == OnControl(old(State()), win.windowSize, c)
      ensures c.RR? ==> resent == None
      ensures c.SREJ? || c.n <= old(win.lower) ==> State() == old(State())
    {
      resent := None;
      match c {
        case RR(n) =>
          if n > win.lower {
            win.AcknowledgePacket(n - 1);
            win.AdvanceSenderWindow(n);
          }
        case SREJ(n) =>
          resent := win.PacketAt(n);
      }
    }

    method TimeoutResend() returns (resent: Option<Packet>)
      requires Valid()
      ensures resent == OnTimeout(State(), win.windowSize)
    {
      resent := win.LowestUnacknowledged();
    }
  }

  // ---- what a control packet does, in any state ----

  /** An RR never makes the sender resend anything, and a stale one changes
      nothing; one above the lower edge moves it there and empties the slots of
      the numbers passed over, no other. */
  lemma RRExactly(s: SendState, w: nat, n: nat)
    requires w > 0
    ensures var (t, resent) := OnControl(s, w, RR(n));
            && resent == None
            && t.lower == (if n > s.lower then n else s.lower) && t.next == s.next
            && (forall k :: k in t.window <==> k in s.window && forall i :: s.lower <= i < n ==> k % w != i % w)
            && (forall k :: k in t.window ==> t.window[k] == s.window[k])
            && (n <= s.lower ==> t == s)
  {
    if n > s.lower {
      var a := Acknowledge(s.window, w, n - 1);
      ReleaseIff(a, w, s.lower, n);
      assert forall k :: k in a && k % w != (n - 1) % w ==> a[k] == s.window[k];
    }
  }

  /** An SREJ changes nothing, and what it resends is what its slot holds,
      acknowledged or not. */
  lemma SrejExactly(s: SendState, w: nat, n: nat)
    requires w > 0
    ensures var (t, resent) := OnControl(s, w, SREJ(n));
            && t == s
            && (resent == None <==> forall k :: k in s.window ==> k % w != n % w)
            && (resent.Some? ==> exists k :: k in s.window && k % w == n % w && resent.value == s.window[k].pkt)
  {
    LookupIff(s.window, w, n);
    if Lookup(s.window, w, n).Some? {
      var k := LookupStored(s.window, w, n);
      assert s.window[k].pkt == OnControl(s, w, SREJ(n)).1.value;
    }
  }

  // ---- the buffer holds the outstanding packets, over whole runs ----

  lemma FillOneKeeps(cs: seq<seq<byte>>, s: SendState, w: nat)
    requires Outstanding(cs, s, w) && CanFill(cs, s, w)
    ensures Outstanding(cs, FillOne(cs, s, w), w)
  {
    PutWithin(s.window, s.lower, w, s.next, Held(PacketOf(cs, s.next), false));
  }

  /** Advancing releases exactly the acknowledged packets and marks no other. */
  lemma AdvanceReleases(cs: seq<seq<byte>>, s: SendState, w: nat, n: nat)
    requires Outstanding(cs, s, w) && s.lower < n <= s.next
    ensures OnControl(s, w, RR(n)).0 == s.(lower := n, window := map q | q in s.window && q >= n :: s.window[q])
  {
    var a := Acknowledge(s.window, w, n - 1);
    assert Within(a, s.lower, w);
    ReleaseWithin(a, s.lower, w, n);
    forall q | q in s.window && q >= n ensures a[q] == s.window[q] {
      WindowDistinct(n - 1, q, w);
    }
  }

  /** A control packet leaves exactly the outstanding packets in the buffer if
      and only if it does not acknowledge what was never sent. */
  lemma OnControlKeepsIff(cs: seq<seq<byte>>, s: SendState, w: nat, c: Control)
    requires Outstanding(cs, s, w)
    ensures Outstanding(cs, OnControl(s, w, c).0, w) <==> c.SREJ? || c.n <= s.next
    ensures OnControl(s, w, c).0.lower >= s.lower
  {
    if c.RR? && s.lower < c.n <= s.next {
      AdvanceReleases(cs, s, w, c.n);
    }
  }

  /** The retransmission an SREJ asks for: for an outstanding number it is the
      packet first sent under it; whatever else the slot holds is outstanding too. */
  lemma SrejFaithful(cs: seq<seq<byte>>, s: SendState, w: nat, n: nat)
    requires Outstanding(cs, s, w)
    ensures var r := OnControl(s, w, SREJ(n)).1;
            && (s.lower <= n < s.next ==> r == Some(PacketOf(cs, n)))
            && (r.Some? ==> s.lower <= r.value.seqNo < s.next && r.value == PacketOf(cs, r.value.seqNo))
  {
    if s.lower <= n < s.next {
      LookupWithin(s.window, s.lower, w, n);
    }
  }

  /** While anything is outstanding the timeout resends the lowest of it, so
      the branch that finds nothing to resend is never taken. */
  lemma TimeoutFindsLower(cs: seq<seq<byte>>, s: SendState, w: nat)
    requires Outstanding(cs, s, w) && s.lower < s.next
    ensures OnTimeout(s, w) == Some(PacketOf(cs, s.lower))
  {
    LookupWithin(s.window, s.lower, w, s.lower);
  }

  /** What can happen to a sender. */
  datatype SenderEvent = Fill | Incoming(c: Control)

  ghost function SenderStep(cs: seq<seq<byte>>, s: SendState, w: nat, ev: SenderEvent): SendState
    requires w > 0
  {
    match ev
    case Fill => FillAll(cs, s, w)
    case Incoming(c) => OnControl(s, w, c).0
  }

  ghost function SenderRun(cs: seq<seq<byte>>, s: SendState, w: nat, evs: seq<SenderEvent>): SendState
    requires w > 0
    decreases evs
  {
    if evs == [] then s else SenderRun(cs, SenderStep(cs, s, w, evs[0]), w, evs[1..])
  }

  /** No RR of the run acknowledges what had not been sent when it arrived. */
  ghost predicate HonestRun(cs: seq<seq<byte>>, s: SendState, w: nat, evs: seq<SenderEvent>)
    requires w > 0
    decreases evs
  {
    evs == [] ||
    (&& (evs[0].Incoming? && evs[0].c.RR? ==> evs[0].c.n <= s.next)
     && HonestRun(cs, SenderStep(cs, s, w, evs[0]), w, evs[1..]))
  }

  lemma {:induction false} FillAllKeeps(cs: seq<seq<byte>>, s: SendState, w: nat)
    requires Outstanding(cs, s, w)
    ensures var t := FillAll(cs, s, w);
            Outstanding(cs, t, w) && t.lower == s.lower && t.next >= s.next && !CanFill(cs, t, w)
    decreases |cs| + 1 - s.next
  {
    if CanFill(cs, s, w) {
      FillOneKeeps(cs, s, w);
      FillAllKeeps(cs, FillOne(cs, s, w), w);
    }
  }

  /** For any sequence of fills, RRs (stale and repeated ones included) and
      SREJs the slots hold exactly the outstanding packets, and the lower edge
      never moves back. */
  lemma {:induction false} OutstandingOverRuns(cs: seq<seq<byte>>, s: SendState, w: nat, evs: seq<SenderEvent>)
    requires Outstanding(cs, s, w) && HonestRun(cs, s, w, evs)
    ensures Outstanding(cs, SenderRun(cs, s, w, evs), w)
    ensures SenderRun(cs, s, w, evs).lower >= s.lower
    decreases evs
  {
    if evs != [] {
      match evs[0] {
        case Fill => FillAllKeeps(cs, s, w);
        case Incoming(c) => OnControlKeepsIff(cs, s, w, c);
      }
      OutstandingOverRuns(cs, SenderStep(cs, s, w, evs[0]), w, evs[1..]);
    }
  }
}
