/** The Internet checksum of libcpe464/checksum.c, RFC 1071.

    in_cksum adds 16-bit words in host byte order into a signed 32-bit
    accumulator and folds the carries back at the end.  The reference is the
    end-around-carry sum of section 1 of RFC 1071, which never defers a carry. */
module Checksum {
  import opened Bytes

  /** Byte order of the host that runs in_cksum. */
  datatype Endian = Little | Big

  function Other(e: Endian): Endian { if e.Little? then Big else Little }

  /** The 16-bit word found at two consecutive bytes. */
  function Load(e: Endian, b0: byte, b1: byte): u16
  {
    if e.Little? then b0 + 0x100 * b1 else 0x100 * b0 + b1
  }

  /** One's complement addition: the carry out is added back in at once. */
  function OcAdd(a: u16, b: u16): u16
  {
    if a + b > 0xFFFF then a + b - 0xFFFF else a + b
  }

  /** The one's complement sum of section 1 of RFC 1071; an odd last byte is
      paired with a zero byte. */
  function OnesSum(e: Endian, s: seq<byte>): u16
  {
    if |s| == 0 then 0
    else if |s| == 1 then Load(e, s[0], 0)
    else OcAdd(Load(e, s[0], s[1]), OnesSum(e, s[2..]))
  }

  /** The checksum of RFC 1071: the complement of the sum. */
  function InternetChecksum(e: Endian, s: seq<byte>): u16
  {
    0xFFFF - OnesSum(e, s)
  }

  /** The plain sum of the same words, with no carry folded. */
  function WordSum(e: Endian, s: seq<byte>): nat
  {
    if |s| == 0 then 0
    else if |s| == 1 then Load(e, s[0], 0)
    else Load(e, s[0], s[1]) + WordSum(e, s[2..])
  }

  /** What every order of folding arrives at: zero only for zero, otherwise the
      representative in 1..65535 of the residue modulo 65535. */
  function Fold(n: nat): (r: u16)
    ensures r == 0 <==> n == 0
    ensures r % 0xFFFF == n % 0xFFFF
  {
    if n == 0 then 0 else (n - 1) % 0xFFFF + 1
  }

  lemma FoldAdd(a: u16, n: nat)
    ensures Fold(a + n) == OcAdd(a, Fold(n))
  {
    if n > 0 && a > 0 {
      var q, f := (n - 1) / 0xFFFF, Fold(n);
      assert n == 0xFFFF * q + f;
      FoldUnique(a + n, if a + f > 0xFFFF then q + 1 else q, OcAdd(a, f));
    }
  }

  lemma FoldUnique(n: nat, q: nat, f: u16)
    requires n == 0xFFFF * q + f && f > 0
    ensures Fold(n) == f
  {
    assert n - 1 == 0xFFFF * q + (f - 1);
  }

  /** Fold is determined by the residue and by being zero. */
  lemma FoldIs(n: nat, r: u16)
    ensures Fold(n) == r <==> (r == 0 <==> n == 0) && r % 0xFFFF == n % 0xFFFF
  {
    var f := Fold(n);
    if (r == 0 <==> n == 0) && r % 0xFFFF == n % 0xFFFF {
      assert f % 0xFFFF == r % 0xFFFF;
    }
  }

  /** Deferring every carry to the end loses nothing. */
  lemma {:induction false} OnesSumIsFold(e: Endian, s: seq<byte>)
    ensures OnesSum(e, s) == Fold(WordSum(e, s))
  {
    if |s| > 1 {
      OnesSumIsFold(e, s[2..]);
      FoldAdd(Load(e, s[0], s[1]), WordSum(e, s[2..]));
    }
  }

  /** The numerical example of section 3 of RFC 1071: the sum of its eight bytes
      in either byte order, and the checksum. */
  lemma RFCExample()
    ensures var s: seq<byte> := [0x00, 0x01, 0xf2, 0x03, 0xf4, 0xf5, 0xf6, 0xf7];
            OnesSum(Big, s) == 0xddf2 && OnesSum(Little, s) == 0xf2dd && InternetChecksum(Big, s) == 0x220d
  {
    var s: seq<byte> := [0x00, 0x01, 0xf2, 0x03, 0xf4, 0xf5, 0xf6, 0xf7];
    var s6, s4, s2 := s[2..], s[2..][2..], s[2..][2..][2..];
    assert s2 == [0xf6, 0xf7] && s2[2..] == [];
    assert OnesSum(Big, s2) == 0xf6f7 && OnesSum(Little, s2) == 0xf7f6;
    assert OnesSum(Big, s4) == OcAdd(0xf4f5, 0xf6f7) && OnesSum(Little, s4) == OcAdd(0xf5f4, 0xf7f6);
    assert OnesSum(Big, s6) == OcAdd(0xf203, OnesSum(Big, s4));
    assert OnesSum(Little, s6) == OcAdd(0x03f2, OnesSum(Little, s4));
  }

  // ---- the accumulator ----

  newtype int32 = x: int | -0x8000_0000 <= x < 0x8000_0000

  /** The longest buffer whose sum always fits the signed accumulator. */
  function MaxLen(e: Endian): nat { if e.Little? then 65537 else 65536 }

  lemma {:induction false} WordSumBound(e: Endian, s: seq<byte>)
    ensures WordSum(e, s) <= (|s| / 2) * 0xFFFF + (if |s| % 2 == 0 then 0 else Load(e, 0xFF, 0))
  {
    if |s| > 1 {
      WordSumBound(e, s[2..]);
      assert |s[2..]| / 2 == |s| / 2 - 1;
    }
  }

  function Ones(n: nat): (s: seq<byte>)
    ensures |s| == n
  {
    seq(n, _ => 0xFF)
  }

  lemma {:induction false} OnesReachBound(e: Endian, n: nat)
    ensures WordSum(e, Ones(n)) == (n / 2) * 0xFFFF + (if n % 2 == 0 then 0 else Load(e, 0xFF, 0))
  {
    if n > 1 {
      OnesReachBound(e, n - 2);
      assert Ones(n)[2..] == Ones(n - 2);
      assert (n - 2) / 2 == n / 2 - 1;
    }
  }

  /** No buffer of this length can overflow the accumulator if and only if it
      is at most 65537 bytes long (65536 on a big-endian host). */
  lemma AccumulatorFitsIff(e: Endian, n: nat)
    ensures (forall s: seq<byte> :: |s| == n ==> WordSum(e, s) < 0x8000_0000) <==> n <= MaxLen(e)
  {
    if n <= MaxLen(e) {
      forall s: seq<byte> | |s| == n ensures WordSum(e, s) < 0x8000_0000 {
        WordSumBound(e, s);
      }
    } else {
      OnesReachBound(e, n);
      assert |Ones(n)| == n && WordSum(e, Ones(n)) >= 0x8000_0000;
    }
  }

  /** in_cksum: the deferred-carry loop computes the checksum of RFC 1071.
      Every value assigned to sum is checked to fit a signed 32-bit int. */
  method InCksum(e: Endian, addr: array<byte>, len: nat) returns (answer: u16)
    requires len <= addr.Length && len <= MaxLen(e)
    ensures answer == InternetChecksum(e, addr[..len])
  {
    ghost var s := addr[..len];
    WordSumBound(e, s);
    var sum: int32 := 0;
    var w, nleft := 0, len;
    while nleft > 1
      invariant 0 <= nleft == len - w
      invariant 0 <= sum as int
      invariant sum as int + WordSum(e, s[w..]) == WordSum(e, s)
    {
      assert s[w..][2..] == s[w + 2..];
      sum := sum + Load(e, addr[w], addr[w + 1]) as int32;
      w, nleft := w + 2, nleft - 2;
    }
    if nleft == 1 {
      sum := sum + Load(e, addr[w], 0) as int32;
    }
    assert sum as int == WordSum(e, s);
    OnesSumIsFold(e, s);
    answer := FoldCarries(sum);
  }

  /** The last three statements of in_cksum: add the high half to the low half,
      add the carry of that, complement and truncate. */
  method FoldCarries(total: int32) returns (answer: u16)
    requires 0 <= total
    ensures answer == 0xFFFF - Fold(total as int)
  {
    TwoFoldsSuffice(total as int);
    var sum := total / 0x1_0000 + total % 0x1_0000;
    sum := sum + sum / 0x1_0000;
    answer := 0xFFFF - (sum as int) % 0x1_0000;
  }

  /** Two folds leave no carry unaccounted for on any non-negative 32-bit sum. */
  lemma TwoFoldsSuffice(n: nat)
    requires n < 0x8000_0000
    ensures var s := n / 0x1_0000 + n % 0x1_0000;
            (s + s / 0x1_0000) % 0x1_0000 == Fold(n)
  {
    var s := n / 0x1_0000 + n % 0x1_0000;
    var r := (s + s / 0x1_0000) % 0x1_0000;
    assert n == 0xFFFF * (n / 0x1_0000) + s;
    assert s % 0xFFFF == n % 0xFFFF by { ModShift(n / 0x1_0000, s); }
    if s < 0x1_0000 {
      assert r == s;
    } else {
      assert s / 0x1_0000 == 1 && r == s - 0xFFFF;
      ModShift(1, r);
    }
    FoldIs(n, r);
  }

  lemma ModShift(k: nat, r: nat)
    ensures (0xFFFF * k + r) % 0xFFFF == r % 0xFFFF
  {
  }

  // ---- what one changed byte does ----

  /** What a byte at this position adds to the sum. */
  function Part(e: Endian, i: nat, b: byte): nat
  {
    if e.Little? <==> i % 2 == 0 then b else 0x100 * (b as int)
  }

  lemma {:induction false} WordSumUpdate(e: Endian, s: seq<byte>, i: nat, b: byte)
    requires i < |s|
    ensures WordSum(e, s[i := b]) == WordSum(e, s) + Part(e, i, b) - Part(e, i, s[i])
  {
    var r := s[i := b];
    if i >= 2 {
      WordSumUpdate(e, s[2..], i - 2, b);
      assert r[2..] == s[2..][i - 2 := b] && r[0] == s[0] && r[1] == s[1];
      PartPeriod(e, i - 2, b);
      PartPeriod(e, i - 2, s[i]);
    } else if |s| > 1 {
      assert r[2..] == s[2..];
      WordParts(e, s[0], s[1]);
      WordParts(e, r[0], r[1]);
    }
  }

  lemma PartPeriod(e: Endian, i: nat, b: byte)
    ensures Part(e, i + 2, b) == Part(e, i, b)
  {
  }

  lemma WordParts(e: Endian, b0: byte, b1: byte)
    ensures Load(e, b0, b1) == Part(e, 0, b0) + Part(e, 1, b1)
  {
  }

  /** A message checks when in_cksum over it returns zero. */
  predicate Checks(e: Endian, s: seq<byte>) { InternetChecksum(e, s) == 0 }

  lemma ChecksIff(e: Endian, s: seq<byte>)
    ensures Checks(e, s) <==> WordSum(e, s) > 0 && WordSum(e, s) % 0xFFFF == 0
  {
    OnesSumIsFold(e, s);
    FoldIs(WordSum(e, s), 0xFFFF);
  }

  /** Replacing a single byte of a message that checks keeps it checking only
      when the byte was not changed at all. */
  lemma OneByteDetected(e: Endian, s: seq<byte>, i: nat, b: byte)
    requires i < |s| && Checks(e, s)
    ensures Checks(e, s[i := b]) <==> b == s[i]
  {
    ChecksIff(e, s);
    ChecksIff(e, s[i := b]);
    WordSumUpdate(e, s, i, b);
    if b != s[i] && WordSum(e, s[i := b]) % 0xFFFF == 0 {
      var d := Part(e, i, b) - Part(e, i, s[i]);
      assert d != 0 && -0xFFFF < d < 0xFFFF;
      assert WordSum(e, s) + d == WordSum(e, s[i := b]);
      assert false by { MultiplesApart(WordSum(e, s), d); }
    } else if b == s[i] {
      assert s[i := b] == s;
    }
  }

  lemma MultiplesApart(n: nat, d: int)
    requires n % 0xFFFF == 0 && n + d >= 0 && (n + d) % 0xFFFF == 0
    requires -0xFFFF < d < 0xFFFF
    ensures d == 0
  {
  }

  // ---- stamping ----

  /** The checksum field of every header is zero. */
  predicate Unstamped(s: seq<byte>) { |s| >= 7 && s[4] == 0 && s[5] == 0 }

  /** memcpy of a 16-bit value, in host order, over the checksum field. */
  function WithField(e: Endian, s: seq<byte>, v: u16): (r: seq<byte>)
    requires |s| >= 7
    ensures |r| == |s|
  {
    var (b0, b1) := if e.Little? then (v % 0x100, v / 0x100) else (v / 0x100, v % 0x100);
    s[4 := b0][5 := b1]
  }

  lemma WordSumField(e: Endian, s: seq<byte>, v: u16)
    requires Unstamped(s)
    ensures WordSum(e, WithField(e, s, v)) == WordSum(e, s) + v
  {
    var r := WithField(e, s, v);
    WordSumUpdate(e, s, 4, r[4]);
    WordSumUpdate(e, s[4 := r[4]], 5, r[5]);
    assert r == s[4 := r[4]][5 := r[5]];
  }

  /** The stamped form of a message: its own checksum stored in the field. */
  function Stamp(e: Endian, s: seq<byte>): (r: seq<byte>)
    requires |s| >= 7
    ensures |r| == |s|
    ensures forall i :: 0 <= i < |s| && i != 4 && i != 5 ==> r[i] == s[i]
  {
    WithField(e, s, InternetChecksum(e, s))
  }

  /** For a message of any length with the field zeroed, a stored value makes
      in_cksum return zero exactly when it is the stamp (a zero field and an
      all-ones field count alike, as both do in one's complement). */
  lemma FieldChecksIff(e: Endian, s: seq<byte>, v: u16)
    requires Unstamped(s)
    ensures Checks(e, WithField(e, s, v)) <==>
            WordSum(e, s) + v > 0 && v % 0xFFFF == InternetChecksum(e, s) % 0xFFFF
  {
    ChecksIff(e, WithField(e, s, v));
    WordSumField(e, s, v);
    OnesSumIsFold(e, s);
    ComplementIff(WordSum(e, s), Fold(WordSum(e, s)), v);
  }

  lemma ComplementIff(n: nat, f: u16, v: u16)
    requires f % 0xFFFF == n % 0xFFFF
    ensures (n + v) % 0xFFFF == 0 <==> v % 0xFFFF == (0xFFFF - f) % 0xFFFF
  {
    ModSum(n, f, v, v);
  }

  lemma StampChecks(e: Endian, s: seq<byte>)
    requires Unstamped(s)
    ensures Checks(e, Stamp(e, s))
  {
    FieldChecksIff(e, s, InternetChecksum(e, s));
    OnesSumIsFold(e, s);
  }

  // ---- byte order, section 2(B) of RFC 1071 ----

  function Swap(v: u16): u16 { (v % 0x100) * 0x100 + v / 0x100 }

  lemma SwapMod(v: u16)
    ensures Swap(v) % 0xFFFF == (0x100 * v as int) % 0xFFFF
  {
    assert 0x100 * v == 0xFFFF * (v / 0x100) + Swap(v);
    ModShift(v / 0x100, Swap(v));
  }

  lemma {:induction false} WordSumSwapped(e: Endian, s: seq<byte>)
    ensures WordSum(Other(e), s) % 0xFFFF == (0x100 * WordSum(e, s)) % 0xFFFF
    ensures WordSum(Other(e), s) == 0 <==> WordSum(e, s) == 0
  {
    if |s| == 1 {
      SwapLoad(e, s[0], 0);
    } else if |s| > 1 {
      WordSumSwapped(e, s[2..]);
      SwapLoad(e, s[0], s[1]);
      SwapSum(Load(e, s[0], s[1]), WordSum(e, s[2..]), WordSum(Other(e), s[2..]));
    }
  }

  lemma SwapLoad(e: Endian, b0: byte, b1: byte)
    ensures Load(Other(e), b0, b1) == Swap(Load(e, b0, b1))
    ensures Swap(Load(e, b0, b1)) % 0xFFFF == (0x100 * (Load(e, b0, b1) as int)) % 0xFFFF
  {
    SwapPair(b0, b1);
    SwapPair(b1, b0);
    SwapMod(Load(e, b0, b1));
  }

  lemma SwapPair(hi: byte, lo: byte)
    ensures Swap((hi as int) * 0x100 + lo) == (lo as int) * 0x100 + hi
  {
    assert ((hi as int) * 0x100 + lo) / 0x100 == hi;
  }

  lemma SwapSum(v: u16, n: nat, m: nat)
    requires m % 0xFFFF == (0x100 * n) % 0xFFFF && (m == 0 <==> n == 0)
    ensures (Swap(v) as int + m) % 0xFFFF == (0x100 * (v as int + n)) % 0xFFFF
    ensures Swap(v) as int + m == 0 <==> v as int + n == 0
  {
    var k: nat := v;
    SwapMod(v);
    ModSum(Swap(v), 0x100 * k, m, 0x100 * n);
  }

  lemma ModSum(a: nat, b: nat, c: nat, d: nat)
    requires a % 0xFFFF == b % 0xFFFF && c % 0xFFFF == d % 0xFFFF
    ensures (a + c) % 0xFFFF == (b + d) % 0xFFFF
  {
  }

  /** Running in_cksum on a host of the other byte order swaps the two bytes of
      the answer ... */
  lemma ByteOrderIndependent(e: Endian, s: seq<byte>)
    ensures InternetChecksum(Other(e), s) == Swap(InternetChecksum(e, s))
  {
    OnesSumIsFold(e, s);
    OnesSumIsFold(Other(e), s);
    WordSumSwapped(e, s);
    SwapFold(WordSum(e, s), WordSum(Other(e), s));
    SwapComplement(OnesSum(e, s));
  }

  lemma SwapFold(n: nat, m: nat)
    requires m % 0xFFFF == (0x100 * n) % 0xFFFF && (m == 0 <==> n == 0)
    ensures Fold(m) == Swap(Fold(n))
  {
    var f := Fold(n);
    SwapMod(f);
    ModScale(f, n);
    FoldIs(m, Swap(f));
  }

  lemma SwapComplement(f: u16)
    ensures Swap(0xFFFF - f) == 0xFFFF - Swap(f)
  {
    assert 0xFFFF - f == 0x100 * (0xFF - f / 0x100) + (0xFF - f % 0x100);
  }

  lemma ModScale(a: nat, b: nat)
    requires a % 0xFFFF == b % 0xFFFF
    ensures (0x100 * a) % 0xFFFF == (0x100 * b) % 0xFFFF
  {
    var r := a % 0xFFFF;
    assert 0x100 * a == 0xFFFF * (0x100 * (a / 0xFFFF)) + 0x100 * r;
    assert 0x100 * b == 0xFFFF * (0x100 * (b / 0xFFFF)) + 0x100 * r;
    ModShift(0x100 * (a / 0xFFFF), 0x100 * r);
    ModShift(0x100 * (b / 0xFFFF), 0x100 * r);
  }

  /** ... so the bytes stamped are the same bytes, and a stamp made on either
      host checks on both. */
  lemma StampPortable(e: Endian, s: seq<byte>)
    requires Unstamped(s)
    ensures Stamp(Other(e), s) == Stamp(e, s)
    ensures Checks(Other(e), Stamp(e, s))
  {
    ByteOrderIndependent(e, s);
    FieldPortable(e, s, InternetChecksum(e, s));
    StampChecks(Other(e), s);
  }

  lemma FieldPortable(e: Endian, s: seq<byte>, v: u16)
    requires |s| >= 7
    ensures WithField(Other(e), s, Swap(v)) == WithField(e, s, v)
  {
    SwapPair(v / 0x100, v % 0x100);
    assert Swap(v) / 0x100 == v % 0x100 && Swap(v) % 0x100 == v / 0x100;
  }

  // ---- scratch buffers ----

  function Zeros(n: nat): (s: seq<byte>)
    ensures |s| == n
  {
    seq(n, _ => 0)
  }

  /** Trailing zero bytes do not count, whatever the parity of the message. */
  lemma {:induction false} PaddingIgnored(e: Endian, s: seq<byte>, n: nat)
    ensures WordSum(e, s + Zeros(n)) == WordSum(e, s)
    ensures InternetChecksum(e, s + Zeros(n)) == InternetChecksum(e, s)
    decreases |s| + n
  {
    var t := s + Zeros(n);
    if |s| > 1 {
      PaddingIgnored(e, s[2..], n);
      assert t[2..] == s[2..] + Zeros(n);
    } else if |t| > 1 {
      var m: nat := |t| - 2;
      PaddingIgnored(e, [], m);
      assert t[2..] == [] + Zeros(m);
    } else {
      assert t == s || t == Zeros(1);
    }
    OnesSumIsFold(e, t);
    OnesSumIsFold(e, s);
  }

  /** The wrappers around in_cksum copy a packet into a larger zero-filled
      scratch buffer and sum the whole scratch; the answer is the packet's own. */
  method ScratchChecksum(e: Endian, packet: array<byte>, len: nat, size: nat) returns (answer: u16)
    requires len <= packet.Length && len <= size <= MaxLen(e)
    ensures answer == InternetChecksum(e, packet[..len])
  {
    var scratch := new byte[size](_ => 0);
    for i := 0 to len
      invariant forall k :: 0 <= k < i ==> scratch[k] == packet[k]
      invariant forall k :: i <= k < size ==> scratch[k] == 0
    {
      scratch[i] := packet[i];
    }
    answer := InCksum(e, scratch, size);
    assert scratch[..size] == packet[..len] + Zeros(size - len);
    PaddingIgnored(e, packet[..len], size - len);
  }
}
