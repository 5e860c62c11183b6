/** The W25Q16 serial NOR flash and its driver.

    The chip is an array of 2 MiB.  Programming can only clear bits (a bitwise AND with the cell),
    a page-program command wraps inside its 256-byte page, a read command runs on linearly, and
    erasing sets a whole 4 KiB sector to 0xFF. */
module Flash {
  import opened Bytes

  type Page = p: int | 0 <= p < PAGES
  type PageCursor = p: int | 0 <= p <= PAGES // what a stream steps to: one page beyond the chip at its end

  const CHIP_SIZE: nat := 0x20_0000
  const SECTOR_SIZE: nat := 4096
  const SECTORS: nat := 512
  const PAGES: nat := 8192

  // ---------- bit operations on bytes ----------

  /** Bitwise AND. */
  function And(a: nat, b: nat): (r: nat)
    ensures r <= a && r <= b
    decreases a
  {
    if a == 0 || b == 0 then 0
    else 2 * And(a / 2, b / 2) + (if a % 2 == 1 && b % 2 == 1 then 1 else 0)
  }

  function BitSet(v: nat, i: nat): bool
  {
    if i == 0 then v % 2 == 1 else BitSet(v / 2, i - 1)
  }

  /** Bit i is the digit with weight 2^i. */
  lemma {:induction false} BitHasWeight(v: nat, i: nat, above: nat, b: nat, below: nat)
    requires b <= 1 && below < Pow2(i) && v == Pow2(i) * (2 * above + b) + below
    ensures BitSet(v, i) <==> b == 1
  {
    if i == 0 {
    } else {
      var x := Pow2(i - 1) * (2 * above + b);
      assert Pow2(i) * (2 * above + b) == 2 * x;
      BitHasWeight(v / 2, i - 1, above, b, below / 2);
    }
  }

  /** A bit survives exactly when it is set in both: programming can clear bits and never set one. */
  lemma {:induction false} AndBits(a: nat, b: nat, i: nat)
    ensures BitSet(And(a, b), i) <==> BitSet(a, i) && BitSet(b, i)
  {
    if a == 0 || b == 0 {
      NoBits(i);
    } else if i == 0 {
    } else {
      hide And;
      AndBits(a / 2, b / 2, i - 1);
      AndHalf(a, b);
    }
  }

  lemma AndHalf(a: nat, b: nat)
    ensures And(a, b) / 2 == And(a / 2, b / 2)
  {
  }

  lemma {:induction false} NoBits(i: nat)
    ensures !BitSet(0, i)
  {
    if i == 0 {
    } else {
      NoBits(i - 1);
    }
  }

  function ShiftLeft(b: byte): byte { (2 * b) % 256 }

  function Pow2(n: nat): (p: nat)
    ensures p >= 1
  {
    if n == 0 then 1 else 2 * Pow2(n - 1)
  }

  lemma {:induction false} AndAllOnes(n: nat, v: nat)
    requires v < Pow2(n)
    ensures And(Pow2(n) - 1, v) == v == And(v, Pow2(n) - 1)
  {
    if n == 0 {
    } else {
      AndAllOnes(n - 1, v / 2);
    }
  }

  function Shift(i: nat, v: nat): nat
  {
    if i == 0 then v else 2 * Shift(i - 1, v)
  }

  lemma {:induction false} AndShifted(i: nat, a: nat, b: nat)
    ensures And(Shift(i, a), Shift(i, b)) == Shift(i, And(a, b))
  {
    if i == 0 {
    } else {
      AndShifted(i - 1, a, b);
      AndDouble(Shift(i - 1, a), Shift(i - 1, b));
    }
  }

  lemma AndDouble(a: nat, b: nat)
    ensures And(2 * a, 2 * b) == 2 * And(a, b)
  {
    assert (2 * a) / 2 == a && (2 * b) / 2 == b && (2 * a) % 2 == 0;
  }

  lemma AndErased(v: byte)
    ensures And(0xFF, v) == v == And(v, 0xFF)
  {
    assert Pow2(8) == 256;
    AndAllOnes(8, v);
  }

  // ---------- the meaning of the chip's commands, on images ----------

  function Linear(page: Page, column: byte): (a: nat)
    ensures a < CHIP_SIZE
  {
    page * 256 + column
  }

  /** The chip's column counter wraps inside the page. */
  function NextColumn(column: byte): byte { if column == 255 then 0 else column + 1 }

  function NextAddress(a: nat): (b: nat)
    requires a < CHIP_SIZE
    ensures b < CHIP_SIZE
  {
    if a + 1 == CHIP_SIZE then 0 else a + 1
  }

  function ProgramByte(m: seq<byte>, a: nat, v: byte): (r: seq<byte>)
    requires a < |m|
    ensures |r| == |m|
  {
    m[a := And(m[a], v)]
  }

  /** Byte-by-byte programming of consecutive linear addresses. */
  function ProgramRange(m: seq<byte>, a: nat, data: seq<byte>): (r: seq<byte>)
    requires a + |data| <= |m|
    ensures |r| == |m|
  {
    seq(|m|, i requires 0 <= i < |m| => if a <= i < a + |data| then And(m[i], data[i - a]) else m[i])
  }

  /** What one page-program command does when it is fed the first n bytes of `data`: the column
      wraps in the page. */
  function Burst(m: seq<byte>, page: Page, column: byte, data: seq<byte>, n: nat): (r: seq<byte>)
    requires |m| == CHIP_SIZE && n <= |data| && n <= 256
    ensures |r| == |m|
  {
    if n == 0 then m
    else ProgramByte(Burst(m, page, column, data, n - 1), Linear(page, BurstColumn(column, n - 1)), data[n - 1])
  }

  /** The column after n bytes of a burst that has wrapped at most once. */
  function BurstColumn(column: byte, n: nat): byte
    requires n <= 256
  {
    if column + n < 256 then column + n else column + n - 256
  }

  function EraseSector(m: seq<byte>, sector: nat): (r: seq<byte>)
    requires |m| == CHIP_SIZE && sector < SECTORS
    ensures |r| == |m|
  {
    seq(|m|, i requires 0 <= i < |m| => if sector * SECTOR_SIZE <= i < (sector + 1) * SECTOR_SIZE then 0xFF else m[i])
  }

  ghost predicate Erased(m: seq<byte>, a: nat, n: nat)
    requires a + n <= |m|
  {
    forall i :: a <= i < a + n ==> m[i] == 0xFF
  }

  lemma ProgramRangeAppend(m: seq<byte>, a: nat, data: seq<byte>, v: byte)
    requires a + |data| < |m|
    ensures ProgramByte(ProgramRange(m, a, data), a + |data|, v) == ProgramRange(m, a, data + [v])
  {
    hide And;
    var l, r := ProgramByte(ProgramRange(m, a, data), a + |data|, v), ProgramRange(m, a, data + [v]);
    forall i | 0 <= i < |m| ensures l[i] == r[i] {
    }
  }

  function Overwrite(m: seq<byte>, a: nat, data: seq<byte>): (r: seq<byte>)
    requires a + |data| <= |m|
    ensures |r| == |m|
  {
    seq(|m|, i requires 0 <= i < |m| => if a <= i < a + |data| then data[i - a] else m[i])
  }

  /** On erased cells programming stores exactly the data, and touches nothing else. */
  lemma ProgramErasedStores(m: seq<byte>, a: nat, data: seq<byte>)
    requires a + |data| <= |m| && Erased(m, a, |data|)
    ensures ProgramRange(m, a, data) == Overwrite(m, a, data)
  {
    hide And;
    var l, r := ProgramRange(m, a, data), Overwrite(m, a, data);
    forall i | 0 <= i < |m| ensures l[i] == r[i] {
      if a <= i < a + |data| {
        AndErased(data[i - a]);
      }
    }
  }

  lemma ProgramErasedByte(m: seq<byte>, a: nat, v: byte)
    requires a < |m| && m[a] == 0xFF
    ensures ProgramByte(m, a, v) == m[a := v]
  {
    AndErased(v);
  }

  /** A single page-program command of any length is linear programming as long as it stays in its page... */
  lemma {:induction false} BurstInPage(m: seq<byte>, page: Page, column: byte, data: seq<byte>, n: nat)
    requires |m| == CHIP_SIZE && page < PAGES && n <= |data|
    requires column + n <= 256
    ensures Burst(m, page, column, data, n) == ProgramRange(m, page * 256 + column, data[..n])
    decreases n
  {
    var a := page * 256 + column;
    if n == 0 {
      assert ProgramRange(m, a, data[..0]) == m;
    } else {
      BurstInPage(m, page, column, data, n - 1);
      assert Linear(page, BurstColumn(column, n - 1)) == a + (n - 1);
      ProgramRangeAppend(m, a, data[..n - 1], data[n - 1]);
      assert data[..n - 1] + [data[n - 1]] == data[..n];
    }
  }

  /** ...and not one byte further: on erased pages, a burst that leaves its page by one byte differs
      from linear programming unless the byte that crossed was 0xFF. */
  lemma BurstCrossingPage(m: seq<byte>, page: Page, column: byte, data: seq<byte>)
    requires |m| == CHIP_SIZE && page + 1 < PAGES
    requires column + |data| == 257 && |data| <= 256
    requires Erased(m, page * 256, 512)
    ensures Burst(m, page, column, data, |data|) == ProgramRange(m, page * 256 + column, data)
       <==> data[|data| - 1] == 0xFF
  {
    hide And, ProgramByte;
    var n := |data| - 1;
    var a, pre, last := page * 256 + column, data[..n], data[n];
    var m1 := ProgramRange(m, a, pre);
    BurstInPage(m, page, column, data, n);
    assert BurstColumn(column, n) == 0 && Linear(page, 0) == page * 256;
    assert Burst(m, page, column, data, |data|) == ProgramByte(m1, page * 256, last);
    assert ProgramRange(m, a, data) == ProgramByte(m1, (page + 1) * 256, last) by {
      ProgramRangeAppend(m, a, pre, last);
      assert data == pre + [last];
    }
    CrossedByteLost(m1, page, last);
  }

  lemma CrossedByteLost(m1: seq<byte>, page: Page, last: byte)
    requires |m1| == CHIP_SIZE && page + 1 < PAGES && m1[(page + 1) * 256] == 0xFF
    ensures ProgramByte(m1, page * 256, last) == ProgramByte(m1, (page + 1) * 256, last) <==> last == 0xFF
  {
    hide And;
    var b, r := ProgramByte(m1, page * 256, last), ProgramByte(m1, (page + 1) * 256, last);
    AndErased(last);
    assert b[(page + 1) * 256] == 0xFF && r[(page + 1) * 256] == last;
    if last == 0xFF {
      AndErased(m1[page * 256]);
      assert b == m1 == r;
    }
  }

  // ---------- 16-bit values, high byte first ----------

  function WriteU16Image(m: seq<byte>, page: Page, column: byte, v: u16): (r: seq<byte>)
    requires |m| == CHIP_SIZE
    ensures |r| == |m|
  {
    ProgramByte(ProgramByte(m, Linear(page, column), High(v)), Linear(page, NextColumn(column)), Low(v))
  }

  function ReadU16Image(m: seq<byte>, page: Page, column: byte): u16
    requires |m| == CHIP_SIZE
  {
    var a := Linear(page, column);
    Pair(m[a], m[NextAddress(a)])
  }

  lemma TwoBytesStored(m: seq<byte>, page: Page, column: byte, h: byte, l: byte)
    requires |m| == CHIP_SIZE
    requires var a := Linear(page, column); m[a] == 0xFF && m[NextAddress(a)] == 0xFF
    ensures var a := Linear(page, column);
            var r := ProgramByte(ProgramByte(m, a, h), Linear(page, NextColumn(column)), l);
            r[a] == h && r[NextAddress(a)] == if column == 255 then 0xFF else l
  {
    hide And;
    var a := Linear(page, column);
    ProgramErasedByte(m, a, h);
    if column < 255 {
      ProgramErasedByte(m[a := h], a + 1, l);
    }
  }

  /** A 16-bit value reads back from the two cells it is read from, when they were erased, unless it
      starts in the last column of its page: there the low byte wraps to column 0 while the read runs
      on into the next page. */
  lemma U16ReadsBack(m: seq<byte>, page: Page, column: byte, v: u16)
    requires |m| == CHIP_SIZE
    requires var a := Linear(page, column); m[a] == 0xFF && m[NextAddress(a)] == 0xFF
    ensures ReadU16Image(WriteU16Image(m, page, column, v), page, column) == v
       <==> column != 255 || Low(v) == 0xFF
  {
    TwoBytesStored(m, page, column, High(v), Low(v));
    PairHalves(v);
    if column == 255 && Low(v) != 0xFF {
      HalvesOfPair(High(v), 0xFF);
    }
  }

  // ---------- the chip and its driver ----------

  /** The command the chip is in the middle of, with its internal address latch.  OffChip is a command
      opened on the page behind the last one; what it would do is not modelled. */
  datatype Command = Idle | Reading(at: nat) | Programming(page: Page, column: byte) | OffChip

  function ReadingAt(page: PageCursor, column: byte): Command
  {
    if page < PAGES then Reading(Linear(page, column)) else OffChip
  }

  function ProgrammingAt(page: PageCursor, column: byte): Command
  {
    if page < PAGES then Programming(page, column) else OffChip
  }

  class W25Q16 {
    const mem: array<byte>
    const id: u16 // the answer to the manufacturer command; anything but 0xEF.. when there is no chip
    var started: bool // the SPI driver in front of the chip runs
    var command: Command
    ghost var wear: seq<nat> // how often each sector has been erased

    ghost predicate Valid()
      reads this
    {
      mem.Length == CHIP_SIZE && |wear| == SECTORS && (command.Reading? ==> command.at < CHIP_SIZE)
    }

    /** No command is under way. */
    ghost predicate Quiet()
      reads this
    {
      Valid() && command.Idle?
    }

    /** What every command needs: the driver runs, too. */
    ghost predicate Ready()
      reads this
    {
      Quiet() && started
    }

    /** At power-on the driver is not running. */
    constructor (contents: array<byte>, id: u16)
      requires contents.Length == CHIP_SIZE
      ensures Quiet() && !started && mem == contents && this.id == id && wear == seq(SECTORS, _ => 0)
    {
      mem, this.id := contents, id;
      command, started := Idle, false;
      wear := seq(SECTORS, _ => 0);
    }

    predicate Present() { High(id) == 0xEF }

    /** W25Q16_start: starts the driver, running or not, and asks the chip who it is. */
    method Start() returns (manufacturer: u16)
      requires Quiet()
      modifies this`started
      ensures Ready() && manufacturer == if Present() then id else 0
    {
      started := true;
      manufacturer := if High(id) != 0xEF then 0 else id;
    }

    /** spiStop. */
    method Stop()
      requires Quiet()
      modifies this`started
      ensures Quiet() && !started
    {
      started := false;
    }

    /** One byte clocked over the bus during the current command. */
    method Exchange(out: byte) returns (in_: byte)
      requires Valid() && started && !command.Idle? && !command.OffChip?
      modifies this`command, mem
      ensures Valid()
      ensures match old(command)
              case Reading(at) =>
                mem[..] == old(mem[..]) && in_ == mem[at]
                && command == Reading(if at == 0x1F_FFFF then 0 else at + 1)
              case Programming(page, column) =>
                mem[..] == ProgramByte(old(mem[..]), Linear(page, column), out)
                && command == Programming(page, if column == 0xFF then 0 else column + 1)
              case _ => false
    {
      in_ := 0;
      match command {
        case Reading(at) =>
          in_ := mem[at];
          command := Reading(NextAddress(at));
        case Programming(page, column) =>
          var a := Linear(page, column);
          mem[a] := And(mem[a], out);
          command := Programming(page, NextColumn(column));
      }
    }

    method Read(page: Page, column: byte) returns (v: byte)
      requires Ready()
      modifies this`command, mem
      ensures Ready() && mem[..] == old(mem[..])
      ensures v == mem[Linear(page, column)]
    {
      command := Reading(Linear(page, column));
      v := Exchange(0);
      command := Idle;
    }

    method ReadU16(page: Page, column: byte) returns (v: u16)
      requires Ready()
      modifies this`command, mem
      ensures Ready() && mem[..] == old(mem[..])
      ensures v == ReadU16Image(mem[..], page, column)
    {
      command := Reading(Linear(page, column));
      var hi := Exchange(0);
      var lo := Exchange(0);
      command := Idle;
      v := Pair(hi, lo);
    }

    method Write(page: Page, column: byte, v: byte)
      requires Ready()
      modifies this`command, mem
      ensures Ready() && mem[..] == ProgramByte(old(mem[..]), Linear(page, column), v)
    {
      command := Programming(page, column);
      var _ := Exchange(v);
      command := Idle;
    }

    method WriteU16(page: Page, column: byte, v: u16)
      requires Ready()
      modifies this`command, mem
      ensures Ready() && mem[..] == WriteU16Image(old(mem[..]), page, column, v)
    {
      command := Programming(page, column);
      var _ := Exchange(High(v));
      var _ := Exchange(Low(v));
      command := Idle;
    }

    method InitStreamWrite(page: PageCursor, column: byte)
      requires Ready()
      modifies this`command
      ensures Valid() && command == ProgrammingAt(page, column)
    {
      command := ProgrammingAt(page, column);
    }

    /** Programs one byte and moves the caller's cursor to the next linear address.  At a page end
        the command is closed and reopened, so the chip's in-page wrap is never reached. */
    method StreamWrite(page: Page, column: byte, v: byte) returns (page': PageCursor, column': byte)
      requires Valid() && started && command == Programming(page, column)
      modifies this`command, mem
      ensures Valid() && command == ProgrammingAt(page', column')
      ensures mem[..] == ProgramByte(old(mem[..]), Linear(page, column), v)
      ensures page' * 256 + column' == page * 256 + column + 1
    {
      var _ := Exchange(v);
      page', column' := page, NextColumn(column);
      if column' == 0 {
        page' := page' + 1;
        CloseStream();
        InitStreamWrite(page', column');
      }
    }

    method CloseStream()
      requires Valid() && started
      modifies this`command
      ensures Ready()
    {
      command := Idle;
    }

    method InitStreamRead(page: PageCursor, column: byte)
      requires Ready()
      modifies this`command
      ensures Valid() && command == ReadingAt(page, column)
    {
      command := ReadingAt(page, column);
    }

    method StreamRead(page: Page, column: byte) returns (v: byte, page': PageCursor, column': byte)
      requires Valid() && started && command == Reading(Linear(page, column))
      modifies this`command, mem
      ensures Valid() && mem[..] == old(mem[..]) && command == ReadingAt(page', column')
      ensures v == mem[Linear(page, column)]
      ensures page' * 256 + column' == page * 256 + column + 1
    {
      v := Exchange(0);
      page', column' := page, NextColumn(column);
      if column' == 0 {
        page' := page' + 1;
        CloseStream();
        InitStreamRead(page', column');
      }
    }

    /** Streams the bytes out one by one: a stream of any length, up to the chip's last byte, is
        byte-by-byte programming of consecutive linear addresses. */
    method StreamOut(page: Page, column: byte, data: seq<byte>) returns (page': PageCursor, column': byte)
      requires Valid() && started && command == Programming(page, column)
      requires page * 256 + column + |data| <= CHIP_SIZE
      modifies this`command, mem
      ensures Valid() && command == ProgrammingAt(page', column')
      ensures mem[..] == ProgramRange(old(mem[..]), page * 256 + column, data)
      ensures page' * 256 + column' == page * 256 + column + |data|
    {
      page', column' := page, column;
      ghost var m := mem[..];
      assert ProgramRange(m, page * 256 + column, data[..0]) == m;
      for i := 0 to |data|
        invariant Valid() && command == ProgrammingAt(page', column')
        invariant page' * 256 + column' == page * 256 + column + i
        invariant mem[..] == ProgramRange(m, page * 256 + column, data[..i])
      {
        ProgramRangeAppend(m, page * 256 + column, data[..i], data[i]);
        assert data[..i] + [data[i]] == data[..i + 1];
        page', column' := StreamWrite(page', column', data[i]);
      }
      assert data[..|data|] == data;
    }

    /** The loop of stream reads that dumps `n` consecutive bytes. */
    method StreamIn(page: Page, column: byte, n: nat) returns (data: seq<byte>)
      requires Ready()
      requires page * 256 + column + n <= CHIP_SIZE
      modifies this`command, mem
      ensures Ready() && mem[..] == old(mem[..])
      ensures data == mem[page * 256 + column..page * 256 + column + n]
    {
      InitStreamRead(page, column);
      data := [];
      var p: PageCursor, c: byte := page, column;
      for i := 0 to n
        invariant Valid() && command == ReadingAt(p, c) && mem[..] == old(mem[..])
        invariant p * 256 + c == page * 256 + column + i
        invariant data == mem[page * 256 + column..page * 256 + column + i]
      {
        var v;
        v, p, c := StreamRead(p, c);
        data := data + [v];
      }
      CloseStream();
    }

    /** Erases the 4 KiB sector that holds `page`. */
    method SectorErase(page: Page)
      requires Ready()
      modifies this`wear, mem
      ensures Ready()
      ensures mem[..] == EraseSector(old(mem[..]), page / 16)
      ensures wear == old(wear)[page / 16 := old(wear)[page / 16] + 1]
    {
      var s := page / 16;
      forall i | s * SECTOR_SIZE <= i < (s + 1) * SECTOR_SIZE {
        mem[i] := 0xFF;
      }
      wear := wear[s := wear[s] + 1];
    }
  }
}
