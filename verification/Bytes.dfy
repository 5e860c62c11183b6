/** Bytes, 16-bit values in network order, and buffers written through a moving cursor. */
module Bytes {

  type byte = x: int | 0 <= x < 0x100
  type u16 = x: int | 0 <= x < 0x1_0000

  function Pair(hi: byte, lo: byte): u16 { hi * 256 + lo }

  function High(v: u16): byte { v / 256 }

  function Low(v: u16): byte { v % 256 }

  lemma PairHalves(v: u16)
    ensures Pair(High(v), Low(v)) == v
  {
  }

  lemma HalvesOfPair(h: byte, l: byte)
    ensures High(Pair(h, l)) == h && Low(Pair(h, l)) == l
  {
  }

  /** The high byte first. */
  lemma NetworkOrder(v: u16)
    ensures U16(v)[0] as int * 256 + U16(v)[1] as int == v
  {
  }

  lemma NetworkOrderRead(msg: seq<byte>, p: nat)
    requires p + 1 < |msg|
    ensures Get16(msg, p) == msg[p] as int * 256 + msg[p + 1] as int
  {
  }

  function U16(v: u16): (r: seq<byte>)
    ensures |r| == 2 && Pair(r[0], r[1]) == v
  {
    [High(v), Low(v)]
  }

  function Get16(msg: seq<byte>, p: nat): u16
    requires p + 1 < |msg|
  {
    Pair(msg[p], msg[p + 1])
  }

  lemma Associate(a: seq<byte>, b: seq<byte>, c: seq<byte>)
    ensures (a + b) + c == a + (b + c)
  {
  }

  /** Chunks one after the other. */
  function Concat(chunks: seq<seq<byte>>): seq<byte>
  {
    if chunks == [] then [] else chunks[0] + Concat(chunks[1..])
  }

  lemma NoChunks()
    ensures Concat([]) == []
  {
  }

  lemma {:induction false} ConcatAppend(chunks: seq<seq<byte>>, chunk: seq<byte>)
    ensures Concat(chunks + [chunk]) == Concat(chunks) + chunk
  {
    if chunks == [] {
      assert [] + [chunk] == [chunk] && [chunk][1..] == [];
    } else {
      assert (chunks + [chunk])[1..] == chunks[1..] + [chunk];
      ConcatAppend(chunks[1..], chunk);
    }
  }

  /** Writes bytes at a cursor, which moves on. */
  method Put(buf: array<byte>, cp: nat, data: seq<byte>) returns (next: nat)
    requires cp + |data| <= buf.Length
    modifies buf
    ensures next == cp + |data| && buf[..next] == old(buf[..cp]) + data
  {
    next := cp;
    for i := 0 to |data|
      invariant next == cp + i && buf[..next] == old(buf[..cp]) + data[..i]
    {
      buf[next] := data[i];
      next := next + 1;
    }
    assert data[..|data|] == data;
  }
}
