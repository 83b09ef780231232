/** window.c: the two circular buffers, with their arrays updated in place.
    Each class keeps, as a ghost, the map from sequence numbers to packets that
    its slots stand for. */
module Window {
  import opened Bytes
  import opened Wire
  import opened CircularBuffer

  // ---- specification of the flush ----

  /** The stored numbers from e on. */
  ghost function From(m: map<nat, Packet>, e: nat): set<nat>
  {
    set q | q in m && q >= e
  }

  /** The end of the consecutive run of stored numbers that starts at e. */
  ghost function RunEnd(m: map<nat, Packet>, e: nat): nat
    decreases From(m, e)
  {
    if e in m then
      assert e in From(m, e) && e !in From(m, e + 1) && From(m, e + 1) <= From(m, e);
      RunEnd(m, e + 1)
    else e
  }

  /** RunEnd is the first number from e on that is missing. */
  lemma {:induction false} RunEndIsFirstGap(m: map<nat, Packet>, e: nat)
    ensures var k := RunEnd(m, e);
            e <= k && k !in m && forall q :: e <= q < k ==> q in m
    decreases From(m, e)
  {
    if e in m {
      assert e in From(m, e) && e !in From(m, e + 1) && From(m, e + 1) <= From(m, e);
      RunEndIsFirstGap(m, e + 1);
    }
  }

  /** The payloads of a consecutive run, in order. */
  ghost function Payloads(m: map<nat, Packet>, lo: nat, hi: nat): seq<byte>
    requires forall q :: lo <= q < hi ==> q in m
    decreases hi
  {
    if hi <= lo then [] else Payloads(m, lo, hi - 1) + m[hi - 1].payload
  }

  ghost predicate HasEof(m: map<nat, Packet>, lo: nat, hi: nat)
  {
    exists q :: lo <= q < hi && q in m && m[q].eof
  }

  ghost function Without(m: map<nat, Packet>, lo: nat, hi: nat): map<nat, Packet>
  {
    map q | q in m && !(lo <= q < hi) :: m[q]
  }

  datatype Flushed = Flushed(written: seq<byte>, eof: bool, expected: nat, rest: map<nat, Packet>)

  /** What a flush from e must do: write out the maximal consecutive run, in
      order, and leave every other entry as it was. */
  ghost function Flush(m: map<nat, Packet>, e: nat): Flushed
  {
    var k := RunEnd(m, e);
    RunEndIsFirstGap(m, e);
    Flushed(Payloads(m, e, k), HasEof(m, e, k), k, Without(m, e, k))
  }

  /** What a flush leaves: a stored number outside the run it wrote is still
      stored, with the same packet, and no other number is.  The end of the run
      is the first number from e on that was not stored, and an EOF was written
      exactly if one was in the run. */
  lemma FlushLeaves(m: map<nat, Packet>, e: nat)
    ensures var f := Flush(m, e);
            && (forall q :: q in f.rest <==> q in m && (q < e || q >= f.expected))
            && (forall q :: q in f.rest ==> f.rest[q] == m[q])
            && e <= f.expected && f.expected !in m && (forall q :: e <= q < f.expected ==> q in m)
            && (f.eof <==> exists q :: e <= q < f.expected && m[q].eof)
  {
    RunEndIsFirstGap(m, e);
  }

  // ---- the receiver's buffer ----

  class ReceiverBuffer {
    const windowSize: nat
    const slots: array<Option<Entry<Packet>>>
    var expected: nat
    var highest: int
    /** lastControlPacket, absent until hasLastControl is set. */
    var last: Option<Control>
    ghost var entries: map<nat, Packet>

    ghost predicate Valid()
      reads this, slots
    {
      && windowSize > 0 && slots.Length == windowSize
      && Represents(slots[..], entries)
    }

    constructor (windowSize: nat)
      requires windowSize > 0
      ensures Valid() && fresh(slots) && this.windowSize == windowSize
      ensures entries == map[] && expected == 0 && highest == -1 && last == None
    {
      this.windowSize := windowSize;
      slots := new Option<Entry<Packet>>[windowSize](_ => None);
      expected, highest, last := 0, -1, None;
      entries := map[];
    }

    /** insertReceiverPacket: a packet beyond expected + windowSize is refused;
        any other is written to its slot, whatever was there. */
    method InsertReceiverPacket(p: Packet)
      requires Valid()
      modifies this`highest, this`entries, slots
      ensures Valid()
      ensures if p.seqNo > expected + windowSize
              then entries == old(entries) && highest == old(highest)
              else && entries == Put(old(entries), windowSize, p.seqNo, p)
                   && highest == if p.seqNo > old(highest) then p.seqNo else old(highest)
    {
      if p.seqNo > expected + windowSize {
        return;
      }
      PutRepresents(slots[..], entries, p.seqNo, p);
      var index := p.seqNo % windowSize;
      slots[index] := Some(Entry(p.seqNo, p));
      entries := Put(entries, windowSize, p.seqNo, p);
      if p.seqNo > highest {
        highest := p.seqNo;
      }
    }

    /** flushBuffer: step over the packet just written, then write out and empty
        slot after slot until one does not hold the expected packet. */
    method FlushBuffer() returns (written: seq<byte>, eof: bool, flushed: nat)
      requires Valid()
      modifies this`expected, this`entries, slots
      ensures Valid()
      ensures Flush(old(entries), old(expected) + 1) == Flushed(written, eof, expected, entries)
      ensures flushed == expected - old(expected) - 1
      ensures forall q :: q in entries <==> q in old(entries) && (q <= old(expected) || q >= expected)
      ensures forall q :: q in entries ==> entries[q] == old(entries)[q]
      ensures expected !in old(entries) && forall q :: old(expected) < q < expected ==> q in old(entries)
    {
      ghost var m, e := entries, expected + 1;
      RunEndIsFirstGap(m, e);
      expected := expected + 1;
      written, eof, flushed := [], false, 0;
      var foundPacket := true;
      while foundPacket
        invariant Valid()
        invariant e <= expected == e + flushed <= RunEnd(m, e)
        invariant entries == Without(m, e, expected)
        invariant written == Payloads(m, e, expected) && eof == HasEof(m, e, expected)
        invariant !foundPacket ==> expected !in entries
        decreases foundPacket, RunEnd(m, e) - expected
      {
        var found := TakeSlot(expected);
        foundPacket := found.Some?;
        if foundPacket {
          written, eof := written + found.value.payload, eof || found.value.eof;
          expected, flushed := expected + 1, flushed + 1;
          assert entries == Without(m, e, expected);
        }
      }
      FlushLeaves(m, e);
    }

    /** One turn of the flush loop: if the slot of q holds a valid packet
        numbered q, hand it over and mark the slot empty. */
    method TakeSlot(q: nat) returns (p: Option<Packet>)
      requires Valid()
      modifies this`entries, slots
      ensures Valid()
      ensures if q in old(entries) then p == Some(old(entries)[q]) && entries == old(entries) - {q}
              else p == None && entries == old(entries)
    {
      HoldsIff(slots[..], entries, q);
      var index := q % windowSize;
      if slots[index].Some? && slots[index].value.seqNo == q {
        p := Some(slots[index].value.item);
        TakeRepresents(slots[..], entries, q);
        slots[index] := None;
        entries := entries - {q};
      } else {
        p := None;
      }
    }
  }

  // ---- the sender's window ----

  /** A packet held for retransmission and its ACK flag. */
  datatype Held = Held(pkt: Packet, ack: bool)

  /** What the timeout loop resends: the first slot from lo up to hi that holds
      a packet not yet acknowledged. */
  ghost function Scan(m: map<nat, Held>, w: nat, lo: nat, hi: nat): Option<Packet>
    requires w > 0
    decreases hi - lo
  {
    if lo > hi then None
    else
      var s := Lookup(m, w, lo);
      if s.Some? && !s.value.ack then Some(s.value.pkt) else Scan(m, w, lo + 1, hi)
  }

  /** The slot of q holds a packet that is not acknowledged. */
  ghost predicate Pending(m: map<nat, Held>, w: nat, q: nat)
    requires w > 0
  {
    Lookup(m, w, q).Some? && !Lookup(m, w, q).value.ack
  }

  /** The first such slot from lo on is that of q. */
  ghost predicate FirstPending(m: map<nat, Held>, w: nat, lo: nat, q: nat)
    requires w > 0
  {
    lo <= q && Pending(m, w, q) && forall i :: lo <= i < q ==> !Pending(m, w, i)
  }

  /** The scan passes over empty and acknowledged slots alike: it finds a packet
      exactly if some slot holds one not acknowledged, and then the first. */
  lemma {:induction false} ScanIsFirst(m: map<nat, Held>, w: nat, lo: nat, hi: nat)
    requires w > 0
    ensures Scan(m, w, lo, hi) == None <==> forall q :: lo <= q <= hi ==> !Pending(m, w, q)
    ensures forall q: nat :: q <= hi && FirstPending(m, w, lo, q) ==>
              Scan(m, w, lo, hi) == Some(Lookup(m, w, q).value.pkt)
    decreases hi - lo
  {
    if lo <= hi && !Pending(m, w, lo) {
      ScanIsFirst(m, w, lo + 1, hi);
      forall q: nat | q <= hi && FirstPending(m, w, lo, q) ensures FirstPending(m, w, lo + 1, q) { }
    }
  }

  ghost function Acknowledge(m: map<nat, Held>, w: nat, q: nat): map<nat, Held>
    requires w > 0
  {
    map k | k in m :: if k % w == q % w then m[k].(ack := true) else m[k]
  }

  lemma AcknowledgeRepresents(slots: seq<Option<Entry<Held>>>, m: map<nat, Held>, q: nat)
    requires |slots| > 0 && Represents(slots, m)
    ensures var s := slots[q % |slots|];
            Represents(if s.Some? then slots[q % |slots| := Some(s.value.(item := s.value.item.(ack := true)))] else slots,
                       Acknowledge(m, |slots|, q))
  {
    var w := |slots|;
    var o := slots[q % w];
    var s := if o.Some? then slots[q % w := Some(o.value.(item := o.value.item.(ack := true)))] else slots;
    var n := Acknowledge(m, w, q);
    forall i | 0 <= i < w ensures SlotOk(s, n, i) {
      assert SlotOk(slots, m, i);
    }
    forall k | k in n ensures KeyOk(s, n, k) {
      assert KeyOk(slots, m, k);
    }
  }

  class SenderWindow {
    const windowSize: nat
    const slots: array<Option<Entry<Held>>>
    var lower: nat
    var upper: nat
    var current: nat
    ghost var entries: map<nat, Held>

    ghost predicate Valid()
      reads this, slots
    {
      && windowSize > 0 && slots.Length == windowSize
      && upper == lower + windowSize
      && Represents(slots[..], entries)
    }

    constructor (windowSize: nat)
      requires windowSize > 0
      ensures Valid() && fresh(slots) && this.windowSize == windowSize
      ensures entries == map[] && lower == current == 0
    {
      this.windowSize := windowSize;
      slots := new Option<Entry<Held>>[windowSize](_ => None);
      lower, upper, current := 0, windowSize, 0;
      entries := map[];
    }

    method InsertPacketIntoWindow(sequenceNumber: nat, p: Packet)
      requires Valid()
      modifies this`entries, slots
      ensures Valid()
      ensures entries == Put(old(entries), windowSize, sequenceNumber, Held(p, false))
    {
      PutRepresents(slots[..], entries, sequenceNumber, Held(p, false));
      slots[sequenceNumber % windowSize] := Some(Entry(sequenceNumber, Held(p, false)));
      entries := Put(entries, windowSize, sequenceNumber, Held(p, false));
    }

    /** acknowledgePacket marks whatever packet sits in the slot. */
    method AcknowledgePacket(sequenceNumber: nat)
      requires Valid()
      modifies this`entries, slots
      ensures Valid()
      ensures entries == Acknowledge(old(entries), windowSize, sequenceNumber)
      ensures entries.Keys == old(entries).Keys
      ensures forall q :: q in entries ==>
                entries[q] == Held(old(entries)[q].pkt,
                                   old(entries)[q].ack || q % windowSize == sequenceNumber % windowSize)
    {
      AcknowledgeRepresents(slots[..], entries, sequenceNumber);
      var index := sequenceNumber % windowSize;
      if slots[index].Some? {
        var e := slots[index].value;
        slots[index] := Some(e.(item := e.item.(ack := true)));
      }
      entries := Acknowledge(entries, windowSize, sequenceNumber);
    }

    method CheckPacketACKStatus(sequenceNumber: nat) returns (ack: bool)
      requires Valid()
      ensures ack == (Lookup(entries, windowSize, sequenceNumber).Some?
                      && Lookup(entries, windowSize, sequenceNumber).value.ack)
    {
      LookupRepresents(slots[..], entries, sequenceNumber);
      var index := sequenceNumber % windowSize;
      ack := slots[index].Some? && slots[index].value.item.ack;
    }

    /** advanceSenderWindow: empty the slots from lower up to the new lower edge
        and slide both edges; a number not above lower does nothing. */
    method AdvanceSenderWindow(newLower: nat)
      requires Valid()
      modifies this`lower, this`upper, this`entries, slots
      ensures Valid()
      ensures lower == (if newLower > old(lower) then newLower else old(lower))
      ensures entries == Release(old(entries), windowSize, old(lower), lower)
      ensures forall q :: q in entries <==>
                q in old(entries) && forall i :: old(lower) <= i < lower ==> q % windowSize != i % windowSize
      ensures forall q :: q in entries ==> entries[q] == old(entries)[q]
    {
      ReleaseIff(entries, windowSize, lower, if newLower > lower then newLower else lower);
      if newLower > lower {
        var i := lower;
        while i < newLower
          invariant lower == old(lower) <= i <= newLower && upper == old(upper)
          invariant Represents(slots[..], entries)
          invariant entries == Release(old(entries), windowSize, lower, i)
        {
          ClearRepresents(slots[..], entries, i);
          slots[i % windowSize] := None;
          entries := Clear(entries, windowSize, i);
          i := i + 1;
        }
        lower, upper := newLower, newLower + windowSize;
      }
    }

    method CanSendMorePackets() returns (open: bool)
      requires Valid()
      ensures open <==> current < lower + windowSize
    {
      open := current < upper;
    }

    /** The resend on an SREJ: read the slot of the requested number. */
    method PacketAt(sequenceNumber: nat) returns (p: Option<Packet>)
      requires Valid()
      ensures p == match Lookup(entries, windowSize, sequenceNumber)
                   { case Some(h) => Some(h.pkt) case None => None }
    {
      LookupRepresents(slots[..], entries, sequenceNumber);
      var s := slots[sequenceNumber % windowSize];
      p := if s.Some? then Some(s.value.item.pkt) else None;
    }

    /** The timeout loop of doSendDataState. */
    method LowestUnacknowledged() returns (p: Option<Packet>)
      requires Valid()
      ensures p == Scan(entries, windowSize, lower, upper)
      ensures p == None <==> forall q :: lower <= q <= upper ==> !Pending(entries, windowSize, q)
      ensures forall q: nat :: q <= upper && FirstPending(entries, windowSize, lower, q) ==>
                p == Some(Lookup(entries, windowSize, q).value.pkt)
    {
      ScanIsFirst(entries, windowSize, lower, upper);
      var q := lower;
      while q <= upper
        invariant lower <= q <= upper + 1
        invariant Scan(entries, windowSize, lower, upper) == Scan(entries, windowSize, q, upper)
      {
        LookupRepresents(slots[..], entries, q);
        var s := slots[q % windowSize];
        if s.Some? && !s.value.item.ack {
          return Some(s.value.item.pkt);
        }
        q := q + 1;
      }
      p := None;
    }
  }
}
