/** Machine-level values shared by every module: bytes, 16- and 32-bit words,
    and the network (big-endian) layout that htons/htonl produce. */
module Bytes {

  datatype Option<+T> = None | Some(value: T)

  type byte = x: int | 0 <= x < 0x100
  type u16 = x: int | 0 <= x < 0x1_0000
  type u32 = x: int | 0 <= x < 0x1_0000_0000

  /** The two bytes htons leaves in memory. */
  function Put16(v: u16): (s: seq<byte>)
    ensures |s| == 2
  {
    [v / 0x100, v % 0x100]
  }

  function Get16(s: seq<byte>): u16
    requires |s| == 2
  {
    (s[0] as int) * 0x100 + s[1]
  }

  /** The four bytes htonl leaves in memory. */
  function Put32(v: u32): (s: seq<byte>)
    ensures |s| == 4
  {
    Put16(v / 0x1_0000) + Put16(v % 0x1_0000)
  }

  function Get32(s: seq<byte>): u32
    requires |s| == 4
  {
    (Get16(s[..2]) as int) * 0x1_0000 + Get16(s[2..])
  }

  /** ntohl undoes htonl, in both directions. */
  lemma RoundTrip32(v: u32, s: seq<byte>)
    requires |s| == 4
    ensures Get32(Put32(v)) == v
    ensures Put32(Get32(s)) == s
  {
    assert Put32(v)[..2] == Put16(v / 0x1_0000);
    assert Put32(v)[2..] == Put16(v % 0x1_0000);
    var hi, lo := Get16(s[..2]), Get16(s[2..]);
    assert Get32(s) / 0x1_0000 == hi && Get32(s) % 0x1_0000 == lo;
    assert Put16(hi) == [s[0], s[1]] && Put16(lo) == [s[2], s[3]];
  }

  lemma Associative(a: seq<byte>, b: seq<byte>, c: seq<byte>)
    ensures a + (b + c) == (a + b) + c
  {
  }

  /** The number whose base-256 digits these bytes are, the first one the most
      significant. */
  function Number(s: seq<byte>): nat
  {
    if s == [] then 0 else Number(s[..|s| - 1]) * 0x100 + s[|s| - 1]
  }

  /** htons and htonl put the most significant byte first, in two and in four. */
  lemma NetworkOrder(v: u16, n: u32)
    ensures Number(Put16(v)) == v && Number(Put32(n)) == n
  {
    NumberOfTwo(Put16(v));
    var s := Put32(n);
    assert s[..3][..2] == s[..2] == Put16(n / 0x1_0000);
    NumberOfTwo(s[..2]);
    assert Number(s[..3]) == Number(s[..2]) * 0x100 + s[2];
    assert Number(s) == Number(s[..3]) * 0x100 + s[3];
  }

  lemma NumberOfTwo(s: seq<byte>)
    requires |s| == 2
    ensures Number(s) == (s[0] as int) * 0x100 + s[1]
  {
    assert s[..1] == [s[0]] && s[..1][..0] == [];
    assert Number(s[..1]) == s[0];
  }
}
