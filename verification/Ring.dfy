/** The socket buffers of the W5500: memories of 1, 2, 4, 8 or 16 KiB that the chip and the host address
    with 16-bit pointers which never wrap at the buffer's end, only at 2^16. */
module Ring {
  import opened Bytes

  const WRAP: nat := 0x1_0000

  predicate BufferSize(size: nat)
  {
    size == 1024 || size == 2048 || size == 4096 || size == 8192 || size == 16384
  }

  // ---------- pointer arithmetic ----------

  /** Where the byte with running number p is kept. */
  function Cell(p: nat, size: nat): (i: nat)
    requires size > 0
    ensures i < size
  {
    p % size
  }

  /** The first round of the memory is in order. */
  lemma CellOfFirstRound(p: nat, size: nat)
    requires p < size
    ensures Cell(p, size) == p
  {
  }

  lemma Multiples(size: nat, d: int)
    requires size > 0
    ensures d >= 1 ==> size * d >= size
    ensures d <= -1 ==> size * d + size <= 0
  {
  }

  lemma ModUnique(x: nat, size: nat, q: nat, t: nat)
    requires t < size && x == size * q + t
    ensures x % size == t
  {
    assert x == size * (x / size) + x % size;
    assert size * (x / size) - size * q == size * (x / size - q);
    Multiples(size, x / size - q);
  }

  /** Whole rounds do not change the cell. */
  lemma RoundsKeepCell(r: nat, rounds: nat, size: nat)
    requires size > 0
    ensures Cell(r + size * rounds, size) == Cell(r, size)
  {
    assert size * (r / size + rounds) == size * (r / size) + size * rounds;
    ModUnique(r + size * rounds, size, r / size + rounds, r % size);
  }

  /** Wrapping a pointer at 2^16 does not change the cell: every buffer size divides 2^16. */
  lemma WrapKeepsCell(p: nat, size: nat)
    requires BufferSize(size)
    ensures Cell(p % WRAP, size) == Cell(p, size)
  {
    var m :=
      if size == 1024 then 64 else if size == 2048 then 32 else if size == 4096 then 16
      else if size == 8192 then 8 else 4;
    var k := p / WRAP;
    assert WRAP == size * m;
    assert p == p % WRAP + size * (m * k);
    RoundsKeepCell(p % WRAP, m * k, size);
  }

  /** Two bytes less than a buffer apart are kept in different cells. */
  lemma CellsDiffer(p: nat, q: nat, size: nat)
    requires p < q < p + size
    ensures Cell(p, size) != Cell(q, size)
  {
    assert p == size * (p / size) + p % size && q == size * (q / size) + q % size;
    assert size * (q / size) - size * (p / size) == size * (q / size - p / size);
    Multiples(size, q / size - p / size);
  }

  /** The difference of two 16-bit pointers is the distance they have run apart, however often they
      wrapped, as long as that is less than 2^16. */
  lemma PointerDistance(p: nat, q: nat)
    requires p <= q < p + WRAP
    ensures (q % WRAP - p % WRAP) % WRAP == q - p
  {
  }

  lemma WrapAdd(p: nat, n: nat)
    ensures (p % WRAP + n) % WRAP == (p + n) % WRAP
  {
  }

  /** The memory holds the stretch [from, |data|) of the byte stream that starts at running number base. */
  ghost predicate Keeps(mem: seq<byte>, base: nat, data: seq<byte>, from: nat)
    requires |mem| > 0
  {
    forall p :: from <= p < |data| ==> mem[Cell(base + p, |mem|)] == data[p]
  }

  /** Storing the next byte of the stream overwrites nothing that is still kept. */
  lemma StoreKeeps(mem: seq<byte>, base: nat, data: seq<byte>, from: nat, b: byte)
    requires |mem| > 0 && Keeps(mem, base, data, from) && from <= |data| < from + |mem|
    ensures Keeps(mem[Cell(base + |data|, |mem|) := b], base, data + [b], from)
  {
    var mem' := mem[Cell(base + |data|, |mem|) := b];
    forall p | from <= p < |data| + 1 ensures mem'[Cell(base + p, |mem|)] == (data + [b])[p] {
      if p < |data| {
        CellsDiffer(base + p, base + |data|, |mem|);
      }
    }
  }

  // ---------- receiving ----------

  /** The receive side of a socket: memory and pointer registers, and as ghosts the whole byte stream
      the chip has stored, what the host has read of it, and what it has acknowledged with RECV. */
  class RxRing {
    const mem: array<byte>
    var rd: u16
    var wr: u16
    var rdLatched: u16 // the read pointer the chip took over at the last RECV command
    ghost const base: nat
    ghost var inbox: seq<byte>
    ghost var taken: nat
    ghost var acked: nat

    ghost predicate Valid()
      reads this, mem
    {
      && BufferSize(mem.Length)
      && rd == (base + taken) % WRAP && wr == (base + |inbox|) % WRAP && rdLatched == (base + acked) % WRAP
      && acked <= taken <= |inbox| <= acked + mem.Length
      && Keeps(mem[..], base, inbox, acked)
    }

    constructor (size: nat, start: u16)
      requires BufferSize(size)
      ensures Valid() && fresh(mem) && inbox == [] && taken == acked == 0 && mem.Length == size
    {
      mem := new byte[size];
      rd, wr, rdLatched := start, start, start;
      base, inbox, taken, acked := start, [], 0, 0;
    }

    /** Sn_RX_RSR: what has arrived and is not yet acknowledged. */
    method ReceivedSize() returns (n: nat)
      requires Valid()
      ensures n == |inbox| - acked
    {
      n := (wr - rdLatched) % WRAP;
      PointerDistance(base + acked, base + |inbox|);
    }

    /** The chip stores data when it fits, and drops it otherwise. */
    method Store(data: seq<byte>) returns (stored: bool)
      requires Valid()
      modifies this`wr, this`inbox, mem
      ensures Valid() && stored == (old(|inbox|) + |data| <= acked + mem.Length)
      ensures inbox == if stored then old(inbox) + data else old(inbox)
    {
      PointerDistance(base + acked, base + |inbox|);
      stored := (wr - rdLatched) % WRAP + |data| <= mem.Length;
      if !stored {
        return;
      }
      hide Cell, Keeps;
      for i := 0 to |data|
        invariant Valid() && inbox == old(inbox) + data[..i]
      {
        WrapKeepsCell(base + |inbox|, mem.Length);
        StoreKeeps(mem[..], base, inbox, acked, data[i]);
        WrapAdd(base + |inbox|, 1);
        ghost var m := mem[..];
        mem[Cell(wr, mem.Length)] := data[i];
        assert mem[..] == m[Cell(base + |inbox|, mem.Length) := data[i]];
        wr := (wr + 1) % WRAP;
        inbox := inbox + [data[i]];
      }
    }

    /** wiz_recv_data: copies the next n bytes out and moves the read pointer. */
    method RecvData(n: nat) returns (data: seq<byte>)
      requires Valid() && taken + n <= |inbox|
      modifies this`rd, this`taken
      ensures Valid() && taken == old(taken) + n
      ensures data == inbox[old(taken)..taken]
    {
      hide Cell;
      data := [];
      for i := 0 to n
        invariant data == inbox[taken..taken + i]
        modifies {}
      {
        WrapAdd(base + taken, i);
        WrapKeepsCell(base + taken + i, mem.Length);
        assert mem[..][Cell(base + (taken + i), mem.Length)] == inbox[taken + i];
        data := data + [mem[Cell((rd + i) % WRAP, mem.Length)]];
      }
      WrapAdd(base + taken, n);
      rd := (rd + n) % WRAP;
      taken := taken + n;
    }

    /** The RECV command: the chip takes the read pointer over and frees what lies before it. */
    method Recv()
      requires Valid()
      modifies this`rdLatched, this`acked
      ensures Valid() && acked == taken
    {
      rdLatched := rd;
      acked := taken;
    }
  }

  // ---------- transmitting ----------

  /** The transmit side: registers, the bytes put on the wire so far, running counts of how much was
      handed over with SEND and released again, and as a ghost the whole stream the host has written. */
  class TxRing {
    const mem: array<byte>
    var rd: u16
    var wr: u16
    var sending: bool // a SEND command is being executed
    var sendOk: bool // the SENDOK interrupt flag
    const base: nat
    var committed: nat
    var wire: seq<byte>
    var released: nat
    ghost var accepted: seq<byte>

    ghost predicate Valid()
      reads this, mem
    {
      && BufferSize(mem.Length)
      && rd == (base + released) % WRAP && wr == (base + |accepted|) % WRAP
      && released <= |wire| <= committed <= |accepted| <= released + mem.Length
      && wire <= accepted
      && Keeps(mem[..], base, accepted, released)
      && (!sending ==> |wire| == committed)
      && !(sending && sendOk)
    }

    constructor (size: nat, start: u16)
      requires BufferSize(size)
      ensures Valid() && fresh(mem) && accepted == wire == [] && committed == released == 0
      ensures mem.Length == size && !sending && !sendOk
    {
      mem := new byte[size];
      rd, wr, sending, sendOk := start, start, false, false;
      base, accepted, committed, wire, released := start, [], 0, [], 0;
    }

    /** Sn_TX_FSR. */
    function FreeSize(): (n: nat)
      requires Valid()
      reads this, mem
      ensures n == mem.Length - (|accepted| - released)
    {
      PointerDistance(base + released, base + |accepted|);
      mem.Length - (wr - rd) % WRAP
    }

    /** wiz_send_data: copies the bytes in and moves the write pointer.  They must fit the free space. */
    method SendData(data: seq<byte>)
      requires Valid() && |data| <= FreeSize()
      modifies this`wr, this`accepted, mem
      ensures Valid() && accepted == old(accepted) + data
    {
      hide Cell;
      for i := 0 to |data|
        invariant Valid() && accepted == old(accepted) + data[..i]
      {
        WrapKeepsCell(base + |accepted|, mem.Length);
        StoreKeeps(mem[..], base, accepted, released, data[i]);
        WrapAdd(base + |accepted|, 1);
        mem[Cell(wr, mem.Length)] := data[i];
        wr := (wr + 1) % WRAP;
        accepted := accepted + [data[i]];
      }
    }

    /** The SEND command: everything up to the write pointer is handed over.  It may only be given when
        the previous one has been completed and its SENDOK cleared. */
    method Send()
      requires Valid() && !sending && !sendOk
      modifies this`sending, this`committed
      ensures Valid() && sending && committed == |accepted|
    {
      PointerDistance(base + released, base + |accepted|);
      sending := true;
      committed := released + (wr - rd) % WRAP;
    }

    /** Chip step: the next byte handed over goes out, read from the memory. */
    method Transmit()
      requires Valid()
      modifies this`wire
      ensures Valid() && wire == if sending && |old(wire)| < committed then accepted[..|old(wire)| + 1] else old(wire)
    {
      if sending && |wire| < committed {
        assert mem[..][Cell(base + |wire|, mem.Length)] == accepted[|wire|];
        wire := wire + [mem[Cell(base + |wire|, mem.Length)]];
      }
    }

    /** Chip step: the read pointer moves on over bytes that went out, releasing their cells. */
    method Release(n: nat)
      requires Valid()
      modifies this`rd, this`released
      ensures Valid() && released == if old(released) + n <= |wire| then old(released) + n else old(released)
    {
      if released + n <= |wire| {
        WrapAdd(base + released, n);
        rd := (rd + n) % WRAP;
        released := released + n;
      }
    }

    /** Chip step: a SEND whose bytes are all out completes. */
    method Complete()
      requires Valid()
      modifies this`sending, this`sendOk
      ensures Valid()
      ensures if old(sending) && |wire| == committed then !sending && sendOk
              else sending == old(sending) && sendOk == old(sendOk)
    {
      if sending && |wire| == committed {
        sending, sendOk := false, true;
      }
    }

    method ClearSendOk()
      requires Valid()
      modifies this`sendOk
      ensures Valid() && !sendOk
    {
      sendOk := false;
    }
  }
}
