/** The source file as getDataChunk cuts it, and the packets made of the pieces. */
module FileChunks {
  import opened Bytes
  import opened Wire

  /** What repeated reads of b bytes return before the read that returns none. */
  function Chunks(file: seq<byte>, b: nat): seq<seq<byte>>
    requires b > 0
  {
    if file == [] then []
    else if |file| <= b then [file]
    else [file[..b]] + Chunks(file[b..], b)
  }

  function Flatten(cs: seq<seq<byte>>): seq<byte>
  {
    if cs == [] then [] else Flatten(cs[..|cs| - 1]) + cs[|cs| - 1]
  }

  lemma {:induction false} FlattenCons(c: seq<byte>, cs: seq<seq<byte>>)
    ensures Flatten([c] + cs) == c + Flatten(cs)
  {
    if cs == [] {
      assert ([c] + cs)[..0] == [];
    } else {
      FlattenCons(c, cs[..|cs| - 1]);
      assert ([c] + cs)[..|cs|] == [c] + cs[..|cs| - 1];
    }
  }

  /** The pieces put back together are the file; none is empty or longer than
      b, and only the last may be shorter. */
  lemma {:induction false} ChunksRebuildFile(file: seq<byte>, b: nat)
    requires b > 0
    ensures Flatten(Chunks(file, b)) == file
    ensures forall i :: 0 <= i < |Chunks(file, b)| ==> 0 < |Chunks(file, b)[i]| <= b
    ensures forall i :: 0 <= i < |Chunks(file, b)| - 1 ==> |Chunks(file, b)[i]| == b
    decreases |file|
  {
    if |file| > b {
      ChunksRebuildFile(file[b..], b);
      FlattenCons(file[..b], Chunks(file[b..], b));
    } else if file != [] {
      FlattenCons(file, []);
      assert [file] + [] == [file];
    }
  }

  lemma {:induction false} FlattenPrefix(cs: seq<seq<byte>>, k: nat)
    requires k <= |cs|
    ensures Flatten(cs[..k]) <= Flatten(cs)
  {
    if k < |cs| {
      FlattenPrefix(cs[..|cs| - 1], k);
      assert cs[..|cs| - 1][..k] == cs[..k];
    } else {
      assert cs[..k] == cs;
    }
  }

  /** getDataChunk: read up to bufferSize bytes; an empty read means the end. */
  method GetDataChunk(rest: seq<byte>, bufferSize: nat) returns (chunk: seq<byte>, left: seq<byte>)
    requires bufferSize > 0
    ensures if rest == [] then chunk == [] && left == []
            else Chunks(rest, bufferSize) == [chunk] + Chunks(left, bufferSize) && chunk != []
  {
    var nread := if |rest| < bufferSize then |rest| else bufferSize;
    chunk, left := rest[..nread], rest[nread..];
    if |rest| <= bufferSize {
      assert rest[..|rest|] == rest && [rest] + [] == [rest];
    }
  }

  /** Packet q of the transfer: chunk q, or after the last chunk the EOF packet. */
  function PacketOf(cs: seq<seq<byte>>, q: nat): Packet
  {
    if q < |cs| then Packet(q, false, cs[q]) else Packet(q, true, [])
  }
}
