/** The PDUs that travel between rcopy and server, byte by byte: builders that
    fill a buffer field by field, the parsers on the other end, and the round
    trips between them.  Header: sequence (4, network order), checksum (2, host
    order), flag (1). */
module Wire {
  import opened Bytes
  import opened Checksum

  /** A data PDU as the transfer sees it; eof marks flag 10. */
  datatype Packet = Packet(seqNo: nat, eof: bool, payload: seq<byte>)

  /** A reply: RR n says everything below n has arrived, SREJ n asks for n. */
  datatype Control = RR(n: nat) | SREJ(n: nat)

  const RR_FLAG: byte := 5
  const SREJ_FLAG: byte := 6
  const FILENAME_FLAG: byte := 8
  const EOF_FLAG: byte := 10
  const DATA_FLAG: byte := 16
  const SREJ_RESENT_FLAG: byte := 17
  const TIMEOUT_RESENT_FLAG: byte := 18

  /** The flags that a data packet can have. */
  predicate DataFlag(flag: byte) { flag in {EOF_FLAG, DATA_FLAG, SREJ_RESENT_FLAG, TIMEOUT_RESENT_FLAG} }

  const HEADER := 7
  const CONTROL_SIZE := 11
  const NAME_SIZE := 100
  const FILENAME_SIZE := 113

  // ---- layouts ----

  function Header(seqNo: u32, flag: byte): (s: seq<byte>)
    ensures |s| == HEADER
  {
    Put32(seqNo) + [0, 0, flag]
  }

  function DataBytes(p: Packet): (s: seq<byte>)
    requires p.seqNo < 0x1_0000_0000
  {
    Header(p.seqNo, if p.eof then EOF_FLAG else DATA_FLAG) + p.payload
  }

  function ControlFlag(c: Control): byte { if c.RR? then RR_FLAG else SREJ_FLAG }

  function ControlBytes(localSeq: u32, c: Control): (s: seq<byte>)
    requires c.n < 0x1_0000_0000
    ensures |s| == CONTROL_SIZE
  {
    Header(localSeq, ControlFlag(c)) + Put32(c.n)
  }

  /** What strncpy leaves in the 100-byte name field. */
  function NameField(name: seq<byte>): (s: seq<byte>)
    requires |name| <= NAME_SIZE
    ensures |s| == NAME_SIZE
  {
    name + Zeros(NAME_SIZE - |name|)
  }

  /** htons and htonl of int arguments keep only the low 16 and 32 bits. */
  function FilenameBytes(name: seq<byte>, bufferSize: nat, windowSize: nat): (s: seq<byte>)
    requires |name| <= NAME_SIZE
    ensures |s| == FILENAME_SIZE
  {
    Header(1, FILENAME_FLAG) + NameField(name)
    + Put16(bufferSize % 0x1_0000) + Put32(windowSize % 0x1_0000_0000)
  }

  // ---- builders ----

  /** memcpy into the middle of a buffer. */
  method Memcpy(dst: array<byte>, off: nat, src: seq<byte>)
    requires off + |src| <= dst.Length
    modifies dst
    ensures dst[..] == old(dst[..off]) + src + old(dst[off + |src|..])
  {
    for i := 0 to |src|
      invariant forall k :: 0 <= k < i ==> dst[off + k] == src[k]
      invariant forall k :: 0 <= k < off ==> dst[k] == old(dst[k])
      invariant forall k :: off + i <= k < dst.Length ==> dst[k] == old(dst[k])
    {
      dst[off + i] := src[i];
    }
  }

  method MakeHeader(buffer: array<byte>, seqNo: u32, flag: byte)
    requires buffer.Length >= HEADER
    modifies buffer
    ensures buffer[..HEADER] == Header(seqNo, flag)
    ensures buffer[HEADER..] == old(buffer[HEADER..])
  {
    Memcpy(buffer, 0, Put32(seqNo));
    Memcpy(buffer, 4, [0, 0]);
    Memcpy(buffer, 6, [flag]);
  }

  /** memcpy of the computed checksum over bytes 4 and 5. */
  method StampBuffer(e: Endian, buffer: array<byte>, value: u16)
    requires buffer.Length >= HEADER
    modifies buffer
    ensures buffer[..] == WithField(e, old(buffer[..]), value)
  {
    ghost var s := buffer[..];
    if e.Little? {
      buffer[4], buffer[5] := value % 0x100, value / 0x100;
    } else {
      buffer[4], buffer[5] := value / 0x100, value % 0x100;
    }
    assert buffer[..] == WithField(e, s, value);
  }

  /** An RR or SREJ PDU, built, summed through the 24-byte scratch and stamped. */
  method MakeControlPacket(e: Endian, localSeq: u32, c: Control) returns (buffer: array<byte>)
    requires c.n < 0x1_0000_0000
    ensures fresh(buffer) && buffer[..] == Stamp(e, ControlBytes(localSeq, c))
  {
    buffer := new byte[CONTROL_SIZE](_ => 0);
    MakeHeader(buffer, localSeq, ControlFlag(c));
    Memcpy(buffer, HEADER, Put32(c.n));
    assert buffer[..] == ControlBytes(localSeq, c);
    assert buffer[..CONTROL_SIZE] == buffer[..];
    var sum := ScratchChecksum(e, buffer, CONTROL_SIZE, 24);
    StampBuffer(e, buffer, sum);
  }

  /** A data or EOF PDU as documented, summed over exactly its own bytes.  (What
      the builder does with other sizes and with the padding is in Departures.) */
  method MakeDataPacket(e: Endian, p: Packet) returns (buffer: array<byte>)
    requires p.seqNo < 0x1_0000_0000 && |p.payload| <= 1400
    ensures fresh(buffer) && buffer[..] == Stamp(e, DataBytes(p))
  {
    buffer := new byte[HEADER + |p.payload|](_ => 0);
    MakeHeader(buffer, p.seqNo, if p.eof then EOF_FLAG else DATA_FLAG);
    Memcpy(buffer, HEADER, p.payload);
    assert buffer[..] == DataBytes(p);
    assert buffer[..buffer.Length] == buffer[..];
    var sum := ScratchChecksum(e, buffer, buffer.Length, buffer.Length + buffer.Length % 2);
    StampBuffer(e, buffer, sum);
  }

  method MakeFilenamePacket(e: Endian, name: seq<byte>, bufferSize: nat, windowSize: nat)
    returns (buffer: array<byte>)
    requires |name| <= NAME_SIZE
    ensures fresh(buffer) && buffer[..] == Stamp(e, FilenameBytes(name, bufferSize, windowSize))
  {
    buffer := new byte[FILENAME_SIZE](_ => 0);
    MakeHeader(buffer, 1, FILENAME_FLAG);
    Memcpy(buffer, 7, NameField(name));
    Memcpy(buffer, 107, Put16(bufferSize % 0x1_0000));
    Memcpy(buffer, 109, Put32(windowSize % 0x1_0000_0000));
    assert buffer[..] == FilenameBytes(name, bufferSize, windowSize);
    assert buffer[..FILENAME_SIZE] == buffer[..];
    var sum := ScratchChecksum(e, buffer, FILENAME_SIZE, 228);
    StampBuffer(e, buffer, sum);
  }

  // ---- parsers ----

  /** What a receiving program looks at before it takes a PDU in: whether the
      checksum returns zero, and whether the flag is that of a data packet. */
  datatype Parser = Parser(verify: bool, flags: bool)

  const DOCUMENTED := Parser(true, true)
  const AS_CODED := Parser(false, false)

  function TakeData(k: Parser, e: Endian, s: seq<byte>): Option<Packet>
  {
    if |s| >= HEADER && (k.verify ==> Checks(e, s)) && (k.flags ==> DataFlag(s[6]))
    then Some(Packet(Get32(s[..4]), s[6] == EOF_FLAG, s[HEADER..]))
    else None
  }

  /** The acknowledged number of a control PDU is in bytes 7 to 10. */
  function TakeControl(k: Parser, e: Endian, s: seq<byte>): Option<Control>
  {
    if |s| < CONTROL_SIZE || (k.verify && !Checks(e, s)) then None
    else if s[6] == RR_FLAG then Some(RR(Get32(s[7..11])))
    else if s[6] == SREJ_FLAG then Some(SREJ(Get32(s[7..11])))
    else None
  }

  function ReceiveData(e: Endian, s: seq<byte>): Option<Packet> { TakeData(DOCUMENTED, e, s) }

  function ReceiveControl(e: Endian, s: seq<byte>): Option<Control> { TakeControl(DOCUMENTED, e, s) }

  /** The header sequence number, the first four bytes of any PDU. */
  function HeaderSequence(s: seq<byte>): u32
    requires |s| >= 4
  {
    Get32(s[..4])
  }

  /** A C string: everything before the first zero byte. */
  function CString(s: seq<byte>): (r: seq<byte>)
    ensures |r| <= |s|
  {
    if |s| == 0 || s[0] == 0 then [] else [s[0]] + CString(s[1..])
  }

  datatype FileRequest = FileRequest(name: seq<byte>, bufferSize: nat, windowSize: nat)

  /** What the main server extracts.  The name is copied into an array of exactly
      100 bytes and from then on used as a C string; after is what lies behind
      that array.  The window size passes through a uint16_t. */
  function ReceiveFilename(e: Endian, s: seq<byte>, after: seq<byte>): Option<FileRequest>
  {
    if |s| < FILENAME_SIZE || !Checks(e, s[..FILENAME_SIZE]) then None
    else Some(FileRequest(CString(s[7..107] + after), Get16(s[107..109]), Get32(s[109..113]) % 0x1_0000))
  }

  // ---- stamped headers ----

  lemma HeaderKept(e: Endian, s: seq<byte>, seqNo: u32, flag: byte)
    requires |s| >= HEADER && s[..HEADER] == Header(seqNo, flag)
    ensures Unstamped(s)
    ensures Stamp(e, s)[..4] == Put32(seqNo) && Stamp(e, s)[6] == flag
    ensures Stamp(e, s)[HEADER..] == s[HEADER..]
  {
    var h := Header(seqNo, flag);
    assert s[4] == h[4] && s[5] == h[5] && s[6] == h[6];
    assert s[..4] == h[..4] == Put32(seqNo);
  }

  // ---- what the bytes are ----

  /** Number, flag and payload of a data PDU on the wire. */
  lemma DataLayout(e: Endian, p: Packet)
    requires p.seqNo < 0x1_0000_0000
    ensures var m := Stamp(e, DataBytes(p));
            && |m| == 7 + |p.payload| && m[7..] == p.payload
            && Number(m[..4]) == p.seqNo && m[6] == if p.eof then 10 else 16
  {
    var s := DataBytes(p);
    var flag := if p.eof then EOF_FLAG else DATA_FLAG;
    assert s[..HEADER] == Header(p.seqNo, flag) && s[HEADER..] == p.payload;
    HeaderKept(e, s, p.seqNo, flag);
    NetworkOrder(0, p.seqNo);
  }

  /** Flag 5 says RR and 6 SREJ, and the number meant stands behind the header. */
  lemma ControlLayout(e: Endian, localSeq: u32, c: Control)
    requires c.n < 0x1_0000_0000
    ensures var m := Stamp(e, ControlBytes(localSeq, c));
            && |m| == 11 && m[6] == (if c.RR? then 5 else 6)
            && Number(m[..4]) == localSeq && Number(m[7..11]) == c.n
  {
    var s := ControlBytes(localSeq, c);
    assert s[..HEADER] == Header(localSeq, ControlFlag(c)) && s[HEADER..] == Put32(c.n);
    HeaderKept(e, s, localSeq, ControlFlag(c));
    assert Stamp(e, s)[7..11] == Stamp(e, s)[HEADER..];
    NetworkOrder(0, localSeq);
    NetworkOrder(0, c.n);
  }

  /** The request is number 1 with flag 8: the name from byte 7, zeros up to byte
      107, buffer size, window size. */
  lemma FilenameLayout(e: Endian, name: seq<byte>, bufferSize: nat, windowSize: nat)
    requires |name| <= NAME_SIZE
    ensures var m := Stamp(e, FilenameBytes(name, bufferSize, windowSize));
            && |m| == 113 && Number(m[..4]) == 1 && m[6] == 8
            && m[7..7 + |name|] == name && (forall i :: 7 + |name| <= i < 107 ==> m[i] == 0)
            && Number(m[107..109]) == bufferSize % 0x1_0000
            && Number(m[109..113]) == windowSize % 0x1_0000_0000
  {
    var s := FilenameBytes(name, bufferSize, windowSize);
    FilenameFields(e, name, bufferSize, windowSize);
    var m := Stamp(e, s);
    assert s[..HEADER] == Header(1, FILENAME_FLAG);
    HeaderKept(e, s, 1, FILENAME_FLAG);
    NetworkOrder(bufferSize % 0x1_0000, windowSize % 0x1_0000_0000);
    NetworkOrder(0, 1);
    assert m[7..7 + |name|] == m[7..107][..|name|] == name;
    forall i | 7 + |name| <= i < 107 ensures m[i] == 0 { assert m[i] == m[7..107][i - 7]; }
  }

  /** Of the PDUs that check, a receiver takes those flagged 10, 16, 17 or 18 as
      data, 10 as the end, and no other, unless it does not look at the flag. */
  lemma DataTakenIff(k: Parser, e: Endian, host: Endian, seqNo: u32, flag: byte, payload: seq<byte>)
    ensures TakeData(k, host, Stamp(e, Header(seqNo, flag) + payload)) ==
            if !k.flags || flag == 10 || 16 <= flag <= 18 then Some(Packet(seqNo, flag == 10, payload)) else None
  {
    var s := Header(seqNo, flag) + payload;
    assert s[..HEADER] == Header(seqNo, flag) && s[HEADER..] == payload;
    HeaderKept(e, s, seqNo, flag);
    StampChecks(e, s);
    StampPortable(e, s);
    assert host == e || host == Other(e);
    RoundTrip32(seqNo, Put32(seqNo));
  }

  /** And a sender takes those flagged 5 as RR, 6 as SREJ, and no other. */
  lemma ControlTakenIff(k: Parser, e: Endian, host: Endian, localSeq: u32, flag: byte, n: u32)
    ensures TakeControl(k, host, Stamp(e, Header(localSeq, flag) + Put32(n))) ==
            if flag == 5 then Some(RR(n)) else if flag == 6 then Some(SREJ(n)) else None
  {
    var s := Header(localSeq, flag) + Put32(n);
    assert s[..HEADER] == Header(localSeq, flag) && s[HEADER..] == Put32(n);
    HeaderKept(e, s, localSeq, flag);
    StampChecks(e, s);
    StampPortable(e, s);
    assert host == e || host == Other(e);
    assert Stamp(e, s)[7..11] == Stamp(e, s)[HEADER..];
    RoundTrip32(n, Put32(n));
  }

  // ---- round trips ----

  /** Data and EOF PDUs come back as the same packet on a host of either order. */
  lemma DataRoundTrip(e: Endian, host: Endian, p: Packet)
    requires p.seqNo < 0x1_0000_0000
    ensures ReceiveData(host, Stamp(e, DataBytes(p))) == Some(p)
  {
    var s := DataBytes(p);
    var flag := if p.eof then EOF_FLAG else DATA_FLAG;
    assert s[..HEADER] == Header(p.seqNo, flag) && s[HEADER..] == p.payload;
    HeaderKept(e, s, p.seqNo, flag);
    StampChecks(e, s);
    StampPortable(e, s);
    RoundTrip32(p.seqNo, Put32(p.seqNo));
  }

  /** RR and SREJ PDUs give back the acknowledged number and, independently,
      the local sequence in the header. */
  lemma ControlRoundTrip(e: Endian, host: Endian, localSeq: u32, c: Control)
    requires c.n < 0x1_0000_0000
    ensures ReceiveControl(host, Stamp(e, ControlBytes(localSeq, c))) == Some(c)
    ensures HeaderSequence(Stamp(e, ControlBytes(localSeq, c))) == localSeq
  {
    var s := ControlBytes(localSeq, c);
    var flag := ControlFlag(c);
    assert s[..HEADER] == Header(localSeq, flag) && s[HEADER..] == Put32(c.n);
    HeaderKept(e, s, localSeq, flag);
    StampChecks(e, s);
    StampPortable(e, s);
    assert Stamp(e, s)[7..11] == Stamp(e, s)[HEADER..];
    RoundTrip32(c.n, Put32(c.n));
    RoundTrip32(localSeq, Put32(localSeq));
  }

  /** Reading a C string goes through everything that is not zero. */
  lemma {:induction false} CStringAppend(name: seq<byte>, rest: seq<byte>)
    requires 0 !in name
    ensures CString(name + rest) == name + CString(rest)
  {
    if name == [] {
      assert name + rest == rest;
    } else {
      CStringAppend(name[1..], rest);
      assert (name + rest)[1..] == name[1..] + rest;
      assert [name[0]] + (name[1..] + CString(rest)) == name + CString(rest);
    }
  }

  lemma EndsAt(name: seq<byte>, rest: seq<byte>)
    requires 0 !in name && |rest| > 0
    ensures CString(name + rest) == name <==> rest[0] == 0
  {
    CStringAppend(name, rest);
    var t := CString(rest);
    assert |name + t| == |name| + |t|;
    if rest[0] == 0 { assert name + t == name; }
  }

  /** The name field ends the string itself, unless the name fills it. */
  lemma NameRead(name: seq<byte>, after: seq<byte>)
    requires |name| <= NAME_SIZE && 0 !in name && |after| > 0
    ensures CString(NameField(name) + after) == name <==> |name| < NAME_SIZE || after[0] == 0
  {
    var padding := Zeros(NAME_SIZE - |name|);
    EndsAt(name, padding + after);
    Associative(name, padding, after);
  }

  /** Stamping a filename PDU leaves every field after the header where it was. */
  lemma FilenameFields(e: Endian, name: seq<byte>, bufferSize: nat, windowSize: nat)
    requires |name| <= NAME_SIZE
    ensures var s := FilenameBytes(name, bufferSize, windowSize);
            && Unstamped(s)
            && Stamp(e, s)[7..107] == NameField(name)
            && Stamp(e, s)[107..109] == Put16(bufferSize % 0x1_0000)
            && Stamp(e, s)[109..113] == Put32(windowSize % 0x1_0000_0000)
  {
    var s := FilenameBytes(name, bufferSize, windowSize);
    assert s[..HEADER] == Header(1, FILENAME_FLAG);
    HeaderKept(e, s, 1, FILENAME_FLAG);
    var t := Stamp(e, s);
    assert t[7..107] == s[7..107] == NameField(name);
    assert t[107..109] == s[107..109] == Put16(bufferSize % 0x1_0000);
    assert t[109..113] == s[109..113] == Put32(windowSize % 0x1_0000_0000);
  }

  lemma KeptWidths(bufferSize: nat, windowSize: nat)
    ensures Get16(Put16(bufferSize % 0x1_0000)) == bufferSize % 0x1_0000
    ensures Get32(Put32(windowSize % 0x1_0000_0000)) % 0x1_0000 == windowSize % 0x1_0000
  {
    RoundTrip32(windowSize % 0x1_0000_0000, Put32(windowSize % 0x1_0000_0000));
    Truncated(windowSize);
  }

  /** Truncating to 32 and then to 16 bits is truncating to 16. */
  lemma Truncated(n: nat)
    ensures (n % 0x1_0000_0000) % 0x1_0000 == n % 0x1_0000
  {
    var q, r := n / 0x1_0000_0000, n % 0x1_0000_0000;
    assert n == 0x1_0000 * (0x1_0000 * q + r / 0x1_0000) + r % 0x1_0000;
    RemainderIs(n, 0x1_0000 * q + r / 0x1_0000, r % 0x1_0000);
  }

  lemma RemainderIs(n: nat, q: nat, r: u16)
    requires n == 0x1_0000 * q + r
    ensures n % 0x1_0000 == r
  {
  }

  lemma FilenameReceived(host: Endian, t: seq<byte>, name: seq<byte>, bufferSize: nat, windowSize: nat,
                         after: seq<byte>)
    requires |t| == FILENAME_SIZE && Checks(host, t)
    requires |name| <= NAME_SIZE && t[7..107] == NameField(name)
    requires t[107..109] == Put16(bufferSize % 0x1_0000)
    requires t[109..113] == Put32(windowSize % 0x1_0000_0000)
    ensures ReceiveFilename(host, t, after) ==
            Some(FileRequest(CString(NameField(name) + after), bufferSize % 0x1_0000, windowSize % 0x1_0000))
  {
    assert t[..FILENAME_SIZE] == t;
    KeptWidths(bufferSize, windowSize);
  }

  /** The name of a filename PDU comes back exactly when it is shorter than its
      field or a zero byte happens to follow the server's array, and the whole
      request exactly when moreover both sizes fit the 16 bits the server keeps. */
  lemma FilenameRoundTrip(e: Endian, host: Endian, name: seq<byte>, bufferSize: nat, windowSize: nat,
                          after: seq<byte>)
    requires |name| <= NAME_SIZE && 0 !in name && |after| > 0
    ensures var r := ReceiveFilename(host, Stamp(e, FilenameBytes(name, bufferSize, windowSize)), after);
            var terminated := |name| < NAME_SIZE || after[0] == 0;
            && r.Some?
            && (r.value.name == name <==> terminated)
            && (r == Some(FileRequest(name, bufferSize, windowSize))
                <==> terminated && bufferSize < 0x1_0000 && windowSize < 0x1_0000)
  {
    FilenameFields(e, name, bufferSize, windowSize);
    var s := FilenameBytes(name, bufferSize, windowSize);
    assert host == e || host == Other(e);
    StampChecks(e, s);
    StampPortable(e, s);
    FilenameReceived(host, Stamp(e, s), name, bufferSize, windowSize, after);
    NameRead(name, after);
  }
}
