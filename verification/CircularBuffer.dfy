/** The idea both buffers of window.c share: sequence number q lives in slot
    q % windowSize.  An array of slots represents a map from sequence numbers to
    what is stored, and the laws here say what slot operations do to the map and
    when they touch nothing else. */
module CircularBuffer {
  import opened Bytes

  /** An occupied slot; the struct's sequence_number field is kept beside the data. */
  datatype Entry<+T> = Entry(seqNo: nat, item: T)

  /** Slot i is empty or holds a stored number that belongs there. */
  ghost predicate SlotOk<T>(slots: seq<Option<Entry<T>>>, m: map<nat, T>, i: nat)
    requires i < |slots|
  {
    slots[i].Some? ==> slots[i].value.seqNo in m && slots[i].value.seqNo % |slots| == i
  }

  /** The slot of stored number q holds q and its item. */
  ghost predicate KeyOk<T>(slots: seq<Option<Entry<T>>>, m: map<nat, T>, q: nat)
    requires |slots| > 0 && q in m
  {
    slots[q % |slots|] == Some(Entry(q, m[q]))
  }

  ghost predicate Represents<T>(slots: seq<Option<Entry<T>>>, m: map<nat, T>)
    requires |slots| > 0
  {
    && (forall i {:trigger SlotOk(slots, m, i)} :: 0 <= i < |slots| ==> SlotOk(slots, m, i))
    && (forall q {:trigger KeyOk(slots, m, q)} :: q in m ==> KeyOk(slots, m, q))
  }

  /** Emptying the slot of q drops whatever sequence number shares it. */
  ghost function Clear<T>(m: map<nat, T>, w: nat, q: nat): map<nat, T>
    requires w > 0
  {
    map k | k in m && k % w != q % w :: m[k]
  }

  /** Writing the slot of q replaces whatever sequence number shares it. */
  ghost function Put<T>(m: map<nat, T>, w: nat, q: nat, v: T): map<nat, T>
    requires w > 0
  {
    Clear(m, w, q)[q := v]
  }

  /** Emptying the slots of lo, ..., hi - 1 one after the other. */
  ghost function Release<T>(m: map<nat, T>, w: nat, lo: nat, hi: nat): map<nat, T>
    requires w > 0
    decreases hi
  {
    if hi <= lo then m else Clear(Release(m, w, lo, hi - 1), w, hi - 1)
  }

  /** What the slot of q holds. */
  ghost function Lookup<T>(m: map<nat, T>, w: nat, q: nat): Option<T>
    requires w > 0
  {
    if k :| k in m && k % w == q % w then Some(m[k]) else None
  }

  // ---- slot operations on the representation ----

  lemma HoldsIff<T>(slots: seq<Option<Entry<T>>>, m: map<nat, T>, q: nat)
    requires |slots| > 0 && Represents(slots, m)
    ensures var s := slots[q % |slots|];
            && (q in m <==> s.Some? && s.value.seqNo == q)
            && (q in m ==> m[q] == s.value.item)
  {
    assert SlotOk(slots, m, q % |slots|);
    if q in m { assert KeyOk(slots, m, q); }
  }

  lemma ClearRepresents<T>(slots: seq<Option<Entry<T>>>, m: map<nat, T>, q: nat)
    requires |slots| > 0 && Represents(slots, m)
    ensures Represents(slots[q % |slots| := None], Clear(m, |slots|, q))
  {
    var w := |slots|;
    var s, n := slots[q % w := None], Clear(m, w, q);
    forall i | 0 <= i < w ensures SlotOk(s, n, i) {
      assert SlotOk(slots, m, i);
    }
    forall k | k in n ensures KeyOk(s, n, k) {
      assert KeyOk(slots, m, k);
    }
  }

  lemma PutRepresents<T>(slots: seq<Option<Entry<T>>>, m: map<nat, T>, q: nat, v: T)
    requires |slots| > 0 && Represents(slots, m)
    ensures Represents(slots[q % |slots| := Some(Entry(q, v))], Put(m, |slots|, q, v))
  {
    var w := |slots|;
    var s, n := slots[q % w := Some(Entry(q, v))], Put(m, w, q, v);
    forall i | 0 <= i < w ensures SlotOk(s, n, i) {
      assert SlotOk(slots, m, i);
    }
    forall k | k in n ensures KeyOk(s, n, k) {
      assert k == q || KeyOk(slots, m, k);
    }
  }

  /** Emptying the slot of a stored number removes that number alone. */
  lemma TakeRepresents<T>(slots: seq<Option<Entry<T>>>, m: map<nat, T>, q: nat)
    requires |slots| > 0 && Represents(slots, m) && q in m
    ensures Represents(slots[q % |slots| := None], m - {q})
  {
    var w := |slots|;
    ClearRepresents(slots, m, q);
    forall k | k in m && k % w == q % w ensures k == q {
      assert KeyOk(slots, m, k) && KeyOk(slots, m, q);
    }
    assert Clear(m, w, q) == m - {q};
  }

  lemma LookupRepresents<T>(slots: seq<Option<Entry<T>>>, m: map<nat, T>, q: nat)
    requires |slots| > 0 && Represents(slots, m)
    ensures Lookup(m, |slots|, q) ==
            match slots[q % |slots|] { case Some(e) => Some(e.item) case None => None }
  {
    var w := |slots|;
    var s := slots[q % w];
    assert SlotOk(slots, m, q % w);
    if s.Some? {
      assert KeyOk(slots, m, s.value.seqNo);
    }
    forall k | k in m && k % w == q % w ensures s == Some(Entry(k, m[k])) {
      assert KeyOk(slots, m, k);
    }
  }

  // ---- distinctness within a window ----

  /** Numbers that share a slot are at least a window apart ... */
  lemma SameSlotApart(a: nat, b: nat, w: nat)
    requires w > 0 && a < b && a % w == b % w
    ensures a + w <= b
  {
    var k := b / w - a / w;
    assert b - a == w * k by {
      assert a == w * (a / w) + a % w && b == w * (b / w) + b % w;
    }
    MulSign(w, k);
  }

  lemma MulSign(w: nat, k: int)
    ensures if k <= 0 then w * k <= 0 else w * k >= w
  {
    if k > 0 {
      assert w * k == w + w * (k - 1);
    }
  }

  lemma SlotPeriod(e: nat, w: nat)
    requires w > 0
    ensures (e + w) % w == e % w
  {
    var q, q' := e / w + 1, (e + w) / w;
    assert w * (e / w + 1) == w * (e / w) + w;
    assert w * q + e % w == w * q' + (e + w) % w;
    assert w * (q - q') == w * q - w * q' && w * (q' - q) == w * q' - w * q;
    MulSign(w, q - q');
    MulSign(w, q' - q);
  }

  /** ... so two different numbers less than a window apart never do. */
  lemma WindowDistinct(a: nat, b: nat, w: nat)
    requires a < b < a + w
    ensures a % w != b % w
  {
    if a % w == b % w {
      SameSlotApart(a, b, w);
    }
  }

  /** Every number stored lies in the w numbers starting at lo. */
  ghost predicate Within<T>(m: map<nat, T>, lo: nat, w: nat)
  {
    forall k :: k in m ==> lo <= k < lo + w
  }

  lemma WithinDistinct<T>(m: map<nat, T>, lo: nat, w: nat, q: nat)
    requires w > 0 && Within(m, lo, w) && lo <= q < lo + w
    ensures forall k :: k in m && k % w == q % w ==> k == q
  {
    forall k | k in m && k % w == q % w ensures k == q {
      if k < q { WindowDistinct(k, q, w); } else if q < k { WindowDistinct(q, k, w); }
    }
  }

  /** Writing a slot destroys no other entry exactly when no other stored
      number shares the slot. */
  lemma PutKeepsIff<T>(m: map<nat, T>, w: nat, q: nat, v: T)
    requires w > 0
    ensures Put(m, w, q, v) == m[q := v] <==> forall k :: k in m && k % w == q % w ==> k == q
  {
    var p := Put(m, w, q, v);
    if p == m[q := v] {
      forall k | k in m && k % w == q % w ensures k == q {
        assert k in m[q := v] && (k in p ==> k == q);
      }
    }
  }

  /** Inside the window every slot operation is the plain map operation. */
  lemma PutWithin<T>(m: map<nat, T>, lo: nat, w: nat, q: nat, v: T)
    requires w > 0 && Within(m, lo, w) && lo <= q < lo + w
    ensures Put(m, w, q, v) == m[q := v]
  {
    WithinDistinct(m, lo, w, q);
    PutKeepsIff(m, w, q, v);
  }

  lemma LookupWithin<T>(m: map<nat, T>, lo: nat, w: nat, q: nat)
    requires w > 0 && Within(m, lo, w) && lo <= q < lo + w
    ensures Lookup(m, w, q) == if q in m then Some(m[q]) else None
  {
    WithinDistinct(m, lo, w, q);
    if q in m { assert q % w == q % w; }
  }

  /** What any number's slot holds is the one stored number that shares it. */
  lemma LookupSlot<T>(m: map<nat, T>, lo: nat, w: nat, h: nat, k: nat)
    requires w > 0 && Within(m, lo, w) && k in m && k % w == h % w
    ensures Lookup(m, w, h) == Some(m[k])
  {
    WithinDistinct(m, lo, w, k);
  }

  lemma LookupStored<T>(m: map<nat, T>, w: nat, h: nat) returns (k: nat)
    requires w > 0 && Lookup(m, w, h).Some?
    ensures k in m && k % w == h % w && Lookup(m, w, h) == Some(m[k])
  {
    k :| k in m && k % w == h % w && Lookup(m, w, h) == Some(m[k]);
  }

  /** Emptying slots one after the other drops exactly the numbers that share one
      of them, within the window or not. */
  lemma {:induction false} ReleaseIff<T>(m: map<nat, T>, w: nat, lo: nat, hi: nat)
    requires w > 0
    ensures forall k :: k in Release(m, w, lo, hi) <==> k in m && forall i :: lo <= i < hi ==> k % w != i % w
    ensures forall k :: k in Release(m, w, lo, hi) ==> Release(m, w, lo, hi)[k] == m[k]
    decreases hi
  {
    if lo < hi { ReleaseIff(m, w, lo, hi - 1); }
  }

  /** A slot is read as empty exactly when no stored number shares it. */
  lemma LookupIff<T>(m: map<nat, T>, w: nat, q: nat)
    requires w > 0
    ensures Lookup(m, w, q).None? <==> forall k :: k in m ==> k % w != q % w
  {
  }

  lemma {:induction false} ReleaseWithin<T>(m: map<nat, T>, lo: nat, w: nat, hi: nat)
    requires w > 0 && Within(m, lo, w) && lo <= hi <= lo + w
    ensures Release(m, w, lo, hi) == map k | k in m && k >= hi :: m[k]
    decreases hi
  {
    if lo < hi {
      ReleaseWithin(m, lo, w, hi - 1);
      WithinDistinct(m, lo, w, hi - 1);
    }
  }
}
