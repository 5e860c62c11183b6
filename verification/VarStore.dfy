/** The wear-levelled variable store on the flash chip. */
module VarStore {
  import opened Bytes
  import opened Flash
  import opened VarFormat
  import opened StoreModel

  /** What the name comparison looks at in the name field: up to 31 characters, and the terminator
      when it comes earlier. */
  ghost predicate NameMatches(field: seq<byte>, name: seq<byte>)
    requires |field| == LONGNAME
  {
    Trunc(name) <= field && (|name| < LONGNAME - 1 ==> field[|name|] == 0)
  }

  ghost function NameField(m: seq<byte>, sector: nat): seq<byte>
    requires IsImage(m) && sector < SECTORS
  {
    m[Base(sector) + 3..Base(sector) + 3 + LONGNAME]
  }

  /** What the header comparison looks at. */
  ghost predicate HeaderMatches(m: seq<byte>, sector: nat, tipo: byte, name: seq<byte>, chk: u16)
    requires IsImage(m) && sector < SECTORS
  {
    var b := Base(sector);
    m[b] != 0xFF && m[b] == tipo && Pair(m[b + 1], m[b + 2]) == chk && NameMatches(NameField(m, sector), name)
  }

  lemma NameStored(m: seq<byte>, sector: nat, v: Var)
    requires IsImage(m) && sector < SECTORS && v.Ok() && Holds(m, sector, v)
    ensures v.clave.nombre + [0] <= NameField(m, sector)
  {
    hide FatByte, Flat, Checksum;
    var stored, field := v.clave.nombre, NameField(m, sector);
    forall i | 0 <= i <= |stored| ensures field[i] == (stored + [0])[i] {
      assert m[Base(sector) + (3 + i)] == SectorByte(v, 3 + i);
    }
  }

  /** Two zero-terminated names in the same field are the same name. */
  lemma NamesAgree(field: seq<byte>, stored: seq<byte>, name: seq<byte>)
    requires |field| == LONGNAME && |stored| < LONGNAME && 0 !in stored && NameOk(name)
    requires stored + [0] <= field
    ensures NameMatches(field, name) <==> stored == Trunc(name)
  {
    var want := Trunc(name);
    assert field[|stored|] == (stored + [0])[|stored|] == 0;
    if NameMatches(field, name) {
      forall i | 0 <= i < |want| ensures field[i] != 0 {
        assert field[i] == want[i] == name[i] && name[i] in name;
      }
      forall i | 0 <= i < |stored| ensures field[i] != 0 {
        assert field[i] == (stored + [0])[i] == stored[i] && stored[i] in stored;
      }
      assert stored == field[..|stored|] && want == field[..|want|];
    }
  }

  /** In a sector that stores a variable, the header comparison decides equality of keys. */
  lemma HeaderDecides(m: seq<byte>, sector: nat, v: Var, tipo: byte, name: seq<byte>)
    requires IsImage(m) && sector < SECTORS && v.Ok() && Holds(m, sector, v)
    requires TypeOk(tipo) && NameOk(name)
    ensures HeaderMatches(m, sector, tipo, name, Checksum(name)) <==> v.clave == KeyOf(tipo, name)
  {
    hide SectorByte, Checksum, Trunc, NameMatches;
    HeaderRead(m, sector, v);
    NameStored(m, sector, v);
    NamesAgree(NameField(m, sector), v.clave.nombre, name);
    PairHalves(v.clave.chk);
  }

  const VARU8: byte := 5
  const VARU16: byte := 7

  /** The bytes of a 16-bit value in the microcontroller's memory. */
  function LittleEndian(v: u16): (r: seq<byte>)
    ensures |r| == 2 && r[0] as int + r[1] as int * 256 == v
  {
    [Low(v), High(v)]
  }

  function FromLittleEndian(b: seq<byte>): u16
    requires |b| == 2
  {
    Pair(b[1], b[0])
  }

  lemma LittleEndianInverse(b: seq<byte>, v: u16)
    requires |b| == 2
    ensures FromLittleEndian(b) == v <==> b == LittleEndian(v)
  {
    hide High, Low, Pair;
    HalvesOfPair(b[1], b[0]);
    PairHalves(v);
    assert b == [b[0], b[1]];
  }

  /** Byte j of the sector's allocation table. */
  ghost function FatCell(m: seq<byte>, sector: nat, j: nat): byte
    requires IsImage(m) && sector < SECTORS && j < LONGFAT
  {
    m[Base(sector) + STARTFAT + j]
  }

  /** The number of the table's first set bit from byte j on, on any contents; FAT_BITS when there is none. */
  ghost function FirstSet(m: seq<byte>, sector: nat, j: nat): (pos: nat)
    requires IsImage(m) && sector < SECTORS && j <= LONGFAT
    ensures 8 * j <= pos <= FAT_BITS
    decreases LONGFAT - j
  {
    if j == LONGFAT then FAT_BITS
    else
      var b := FatCell(m, sector, j);
      if b == 0 then FirstSet(m, sector, j + 1)
      else
        CtzOfByte(b);
        8 * j + Ctz(b)
  }

  lemma FirstSetStep(m: seq<byte>, sector: nat, j: nat)
    requires IsImage(m) && sector < SECTORS && j < LONGFAT
    ensures FirstSet(m, sector, j)
         == var b := FatCell(m, sector, j); if b == 0 then FirstSet(m, sector, j + 1) else 8 * j + Ctz(b)
  {
  }

  ghost function FatPos(m: seq<byte>, sector: nat): (pos: nat)
    requires IsImage(m) && sector < SECTORS
    ensures pos <= FAT_BITS
  {
    FirstSet(m, sector, 0)
  }

  lemma CtzOfByte(b: byte)
    requires b != 0
    ensures Ctz(b) < 8
  {
    assert Pow2(8) == 256;
    CtzBelow(b, 8);
  }

  /** On any table: that bit is set, and none before it. */
  lemma FirstSetIs(m: seq<byte>, sector: nat, q: nat)
    requires IsImage(m) && sector < SECTORS && q < FAT_BITS
    ensures q < FatPos(m, sector) ==> !BitSet(FatCell(m, sector, q / 8), q % 8)
    ensures q == FatPos(m, sector) ==> BitSet(FatCell(m, sector, q / 8), q % 8)
  {
    hide FirstSet;
    FirstSetFrom(m, sector, 0, q);
  }

  lemma {:induction false} FirstSetFrom(m: seq<byte>, sector: nat, j: nat, q: nat)
    requires IsImage(m) && sector < SECTORS && j <= LONGFAT && 8 * j <= q < FAT_BITS
    ensures q < FirstSet(m, sector, j) ==> !BitSet(FatCell(m, sector, q / 8), q % 8)
    ensures q == FirstSet(m, sector, j) ==> BitSet(FatCell(m, sector, q / 8), q % 8)
    decreases LONGFAT - j
  {
    hide FatCell, Ctz, BitSet, FirstSet;
    FirstSetStep(m, sector, j);
    var b := FatCell(m, sector, j);
    if b == 0 {
      if q / 8 == j {
        NoBits(q % 8);
        FirstSetFromNext(m, sector, j + 1);
      } else {
        FirstSetFrom(m, sector, j + 1, q);
      }
    } else {
      CtzOfByte(b);
      CtzLowest(b, q % 8);
    }
  }

  lemma FirstSetFromNext(m: seq<byte>, sector: nat, j: nat)
    requires IsImage(m) && sector < SECTORS && j <= LONGFAT
    ensures FirstSet(m, sector, j) >= 8 * j
  {
  }

  /** The table says that its first pos bits are used. */
  ghost predicate Table(m: seq<byte>, sector: nat, pos: nat)
    requires IsImage(m) && sector < SECTORS
  {
    forall j :: 0 <= j < LONGFAT ==> FatCell(m, sector, j) == FatByte(pos, j)
  }

  /** In a sector that stores a variable the scan finds the number of bits in use. */
  lemma ScanResult(m: seq<byte>, sector: nat, v: Var)
    requires IsImage(m) && sector < SECTORS && v.Ok() && Holds(m, sector, v)
    ensures Table(m, sector, v.Pos())
    ensures FatPos(m, sector) == v.Pos()
  {
    hide FirstSet, Checksum, Flat;
    forall j | 0 <= j < LONGFAT ensures FatCell(m, sector, j) == FatByte(v.Pos(), j) {
      assert m[Base(sector) + (STARTFAT + j)] == SectorByte(v, STARTFAT + j);
    }
    ScanFrom(m, sector, v.Pos(), 0);
  }

  lemma {:induction false} ScanFrom(m: seq<byte>, sector: nat, pos: nat, j: nat)
    requires IsImage(m) && sector < SECTORS && Table(m, sector, pos)
    requires j <= LONGFAT && 8 * j <= pos <= FAT_BITS
    ensures FirstSet(m, sector, j) == pos
    decreases LONGFAT - j
  {
    hide Ctz, FatCell;
    if j == LONGFAT {
    } else if 8 * (j + 1) <= pos {
      ScanFrom(m, sector, pos, j + 1);
    } else {
      CtzMask(pos - 8 * j);
    }
  }

  // ---------- what the driver does to any flash contents ----------

  /** The scan over the sectors stops at the first that matches or is free; SECTORS when none does. */
  ghost function Scan(m: seq<byte>, sector: nat, tipo: byte, name: seq<byte>): (s: nat)
    requires IsImage(m) && sector <= SECTORS
    ensures sector <= s <= SECTORS
    decreases SECTORS - sector
  {
    if sector == SECTORS then SECTORS
    else if m[Base(sector)] == 0xFF || HeaderMatches(m, sector, tipo, name, Checksum(name)) then sector
    else Scan(m, sector + 1, tipo, name)
  }

  /** The sector an operation works on: the hinted one when its header matches, else what the scan finds. */
  ghost function Located(m: seq<byte>, hint: nat, tipo: byte, name: seq<byte>): (s: nat)
    requires IsImage(m) && (hint == 0 || FIRST_SECTOR <= hint < SECTORS)
    ensures FIRST_SECTOR <= s <= SECTORS
  {
    if hint != 0 && HeaderMatches(m, hint, tipo, name, Checksum(name)) then hint
    else Scan(m, FIRST_SECTOR, tipo, name)
  }

  /** A free sector is initialised with the key before it is worked on. */
  ghost function Created(m: seq<byte>, sector: nat, c: Clave, value: seq<byte>): (r: seq<byte>)
    requires IsImage(m) && ClaveOk(c) && |value| <= 50
    ensures IsImage(r)
  {
    if sector < SECTORS && m[Base(sector)] == 0xFF then InitImage(m, sector, c, value) else m
  }

  /** The slot behind the one in use lies on the chip, or the sector will be erased first. */
  ghost predicate SlotOnChip(m: seq<byte>, sector: nat, w: nat)
    requires IsImage(m) && sector < SECTORS
  {
    FatPos(m, sector) == FAT_BITS || SlotAddress(sector, w, FatPos(m, sector) + 1) + w <= CHIP_SIZE
  }

  /** One write to a sector: a table bit and a slot, or erased and initialised when no bit is left. */
  ghost function WrittenImage(m: seq<byte>, sector: nat, c: Clave, value: seq<byte>): (r: seq<byte>)
    requires IsImage(m) && sector < SECTORS && ClaveOk(c) && |value| <= 50 && SlotOnChip(m, sector, |value|)
    ensures IsImage(r)
  {
    var pos := FatPos(m, sector);
    if pos == FAT_BITS then InitImage(EraseSector(m, sector), sector, c, value)
    else AppendImage(m, sector, pos, SlotAddress(sector, |value|, pos + 1), value)
  }

  /** The slot a read returns: the one in use, or the first when no bit is left. */
  ghost function SlotInUse(m: seq<byte>, sector: nat, w: nat): nat
    requires IsImage(m) && sector < SECTORS
  {
    SlotAddress(sector, w, if FatPos(m, sector) == FAT_BITS then 0 else FatPos(m, sector))
  }

  /** The slot a read reaches lies on the chip. */
  ghost predicate ReadsOnChip(m: seq<byte>, hint: nat, tipo: byte, name: seq<byte>, value: seq<byte>)
    requires IsImage(m) && TypeOk(tipo) && NameOk(name) && |value| == LongParam(tipo)
    requires hint == 0 || FIRST_SECTOR <= hint < SECTORS
  {
    var s := Located(m, hint, tipo, name);
    s < SECTORS ==> SlotInUse(Created(m, s, KeyOf(tipo, name), value), s, |value|) + |value| <= CHIP_SIZE
  }

  // ---------- runs of calls ----------

  /** One call of the store's interface with its arguments. */
  datatype Call =
    | CallLee(hint: nat, tipo: byte, name: seq<byte>, value: seq<byte>)
    | CallEscribe(hint: nat, tipo: byte, name: seq<byte>, value: seq<byte>)
    | CallEscribeU8(hint: nat, name: seq<byte>, v8: byte)
    | CallEscribeU16(hint: nat, name: seq<byte>, v16: u16)
  {
    ghost function Tipo(): byte
    {
      if CallEscribeU8? then VARU8 else if CallEscribeU16? then VARU16 else tipo
    }

    ghost function Value(): seq<byte>
    {
      if CallEscribeU8? then [v8] else if CallEscribeU16? then LittleEndian(v16) else value
    }

    ghost function Key(): Clave { KeyOf(Tipo(), name) }
  }

  ghost predicate CallOk(vars: seq<Var>, call: Call)
  {
    && (call.hint == 0 || FIRST_SECTOR <= call.hint < SECTORS)
    && TypeOk(call.Tipo()) && NameOk(call.name) && |call.Value()| == LongParam(call.Tipo())
    && HasPlace(vars, call.Key())
    && (!call.CallLee? ==> WriteFits(vars, call.Key()))
  }

  /** What a call does to the store. */
  ghost function OpOf(st: Store, call: Call): (op: Op)
    requires st.Ok() && CallOk(st.vars, call)
    ensures OpOk(st, op)
  {
    match call
    case CallLee(_, _, _, _) => Lee(call.Key(), call.Value())
    case CallEscribe(_, _, _, _) => Escribir(call.Key(), call.Value())
    case _ => Issued(st.vars, call.Key(), call.Value())
  }

  ghost predicate CallsOk(st: Store, calls: seq<Call>)
    requires st.Ok()
    decreases |calls|
  {
    calls == [] || (CallOk(st.vars, calls[0]) && CallsOk(Step(st, OpOf(st, calls[0])), calls[1..]))
  }

  ghost function Ops(st: Store, calls: seq<Call>): (ops: seq<Op>)
    requires st.Ok() && CallsOk(st, calls)
    ensures |ops| == |calls| && RunOk(st, ops)
    decreases |calls|
  {
    if calls == [] then []
    else
      var op := OpOf(st, calls[0]);
      var rest := Ops(Step(st, op), calls[1..]);
      assert ([op] + rest)[1..] == rest;
      [op] + rest
  }

  class VarStore {
    const chip: W25Q16
    ghost var vars: seq<Var>

    ghost predicate Valid()
      reads this, chip, chip.mem
    {
      chip.Ready() && Represents(chip.mem[..], vars)
    }

    /** The store on values, with its erase counters. */
    ghost function Current(): (st: Store)
      requires Valid()
      reads this, chip, chip.mem
      ensures st.Ok()
    {
      Store(vars, chip.wear)
    }

    /** A chip whose variable sectors are erased is an empty store. */
    constructor (chip: W25Q16)
      requires chip.Ready() && BlankFrom(chip.mem[..], FIRST_SECTOR)
      ensures Valid() && this.chip == chip && vars == []
    {
      this.chip := chip;
      vars := [];
    }

    method NombreVarEnFlashOk(sector: nat, name: seq<byte>) returns (same: bool)
      requires chip.Ready() && sector < SECTORS && NameOk(name)
      modifies chip`command, chip.mem
      ensures chip.Ready() && chip.mem[..] == old(chip.mem[..])
      ensures same <==> NameMatches(NameField(chip.mem[..], sector), name)
    {
      ghost var m := chip.mem[..];
      ghost var field := NameField(m, sector);
      var page: Page, column: byte := 16 * sector, 3;
      var i, different := 0, false;
      chip.InitStreamRead(page, column);
      while true
        invariant chip.Valid() && chip.command == Reading(Linear(page, column)) && chip.mem[..] == m
        invariant 0 <= i < LONGNAME - 1 && i <= |name| && !different
        invariant page * 256 + column == Base(sector) + 3 + i
        invariant forall j :: 0 <= j < i ==> field[j] == name[j]
        decreases LONGNAME - i
      {
        var b;
        b, page, column := chip.StreamRead(page, column);
        assert b == field[i];
        if b != (if i < |name| then name[i] else 0) {
          different := true;
          break;
        }
        if b == 0 {
          break;
        }
        i := i + 1;
        if i == LONGNAME - 1 {
          break;
        }
      }
      chip.CloseStream();
      same := !different;
    }

    method StrChecksum(name: seq<byte>) returns (chk: u16)
      requires NameOk(name)
      ensures chk == Checksum(name)
    {
      chk := 0;
      for i := 0 to |name|
        invariant chk == Checksum(name[..i])
      {
        assert name[..i + 1][..i] == name[..i];
        chk := (chk + name[i]) % 0x1_0000;
      }
      assert name[..|name|] == name;
    }

    method CoincidenciaDatosVar(sector: nat, tipo: byte, name: seq<byte>, chk: u16) returns (matches: bool)
      requires chip.Ready() && sector < SECTORS && NameOk(name)
      modifies chip`command, chip.mem
      ensures chip.Ready() && chip.mem[..] == old(chip.mem[..])
      ensures matches <==> HeaderMatches(chip.mem[..], sector, tipo, name, chk)
    {
      var stored := chip.Read(16 * sector, 0);
      if stored == 0xFF {
        return false;
      }
      var chkFlash := chip.ReadU16(16 * sector, 1);
      if stored != tipo || chkFlash != chk {
        return false;
      }
      matches := NombreVarEnFlashOk(sector, name);
    }

    /** Creates the variable in a blank sector. */
    method InitVarFlash(sector: nat, tipo: byte, name: seq<byte>, value: seq<byte>)
      requires chip.Ready() && sector < SECTORS && TypeOk(tipo) && NameOk(name) && |value| == LongParam(tipo)
      modifies chip`command, chip.mem
      ensures chip.Ready()
      ensures chip.mem[..] == InitImage(old(chip.mem[..]), sector, KeyOf(tipo, name), value)
    {
      hide And, ProgramByte, ProgramRange, Checksum;
      var chk := StrChecksum(name);
      chip.Write(16 * sector, 0, tipo);
      chip.WriteU16(16 * sector, 1, chk);
      chip.InitStreamWrite(16 * sector, 3);
      var page, column := chip.StreamOut(16 * sector, 3, Trunc(name) + [0]);
      chip.CloseStream();
      chip.InitStreamWrite(16 * sector, STARTDAT);
      page, column := chip.StreamOut(16 * sector, STARTDAT, value);
      chip.CloseStream();
    }

    /** Scans the 16 allocation bytes for the first set bit: its number, and the byte it is in. */
    method LeePosEnFAT(sector: nat) returns (pos: nat, error: bool, page: Page, column: byte, b: byte)
      requires chip.Ready() && sector < SECTORS
      modifies chip`command, chip.mem
      ensures chip.Ready() && chip.mem[..] == old(chip.mem[..])
      ensures error <==> FatPos(chip.mem[..], sector) == FAT_BITS
      ensures pos == if error then 0 else FatPos(chip.mem[..], sector)
      ensures !error ==> page == 16 * sector && column == STARTFAT + pos / 8 && b == chip.mem[Base(sector) + column]
    {
      hide Ctz, FirstSet;
      page, column, error, pos, b := 16 * sector, STARTFAT, false, 0, 0;
      chip.InitStreamRead(page, column);
      while column <= MAXFAT
        invariant chip.Valid() && chip.command == Reading(Linear(page, column)) && chip.mem[..] == old(chip.mem[..])
        invariant page == 16 * sector && STARTFAT <= column <= MAXFAT + 1
        invariant pos == 8 * (column - STARTFAT)
        invariant FatPos(chip.mem[..], sector) == FirstSet(chip.mem[..], sector, column - STARTFAT)
      {
        FirstSetStep(chip.mem[..], sector, column - STARTFAT);
        b, page, column := chip.StreamRead(page, column);
        assert b == FatCell(old(chip.mem[..]), sector, column - 1 - STARTFAT);
        if b == 0 {
          pos := pos + 8;
          continue;
        }
        CtzOfByte(b);
        chip.CloseStream();
        pos := CountBits(pos, b);
        column := column - 1;
        return;
      }
      chip.CloseStream();
      error := true;
      pos := 0;
    }

    /** The inner loop of the scan: shifts the byte right until its lowest bit is set. */
    method CountBits(start: nat, b: byte) returns (pos: nat)
      requires b != 0
      ensures pos == start + Ctz(b)
    {
      CtzOfByte(b);
      var rest := b;
      pos := start;
      for i := 0 to 8
        invariant rest != 0 && pos == start + i && Ctz(b) == i + Ctz(rest)
      {
        if rest % 2 == 1 {
          return;
        }
        rest := rest / 2;
        pos := pos + 1;
      }
    }

    /** Scans the sectors for the key and creates it in the first free one when it is missing; a chip
        without either is reported.  Any contents of the flash. */
    method EncuentraVariable(tipo: byte, value: seq<byte>, name: seq<byte>) returns (found: bool, sector: nat)
      requires chip.Ready() && TypeOk(tipo) && NameOk(name) && |value| == LongParam(tipo)
      modifies chip`command, chip.mem
      ensures chip.Ready()
      ensures sector == Scan(old(chip.mem[..]), 2, tipo, name)
      ensures found <==> sector < SECTORS
      ensures chip.mem[..] == Created(old(chip.mem[..]), sector, KeyOf(tipo, name), value)
    {
      hide HeaderMatches, InitImage, Checksum, Trunc;
      sector := FIRST_SECTOR;
      var chk := StrChecksum(name);
      while true
        invariant FIRST_SECTOR <= sector < SECTORS && chip.Ready() && chip.mem[..] == old(chip.mem[..])
        invariant Scan(chip.mem[..], FIRST_SECTOR, tipo, name) == Scan(chip.mem[..], sector, tipo, name)
        decreases SECTORS - sector
      {
        var stored := chip.Read(16 * sector, 0);
        if stored == 0xFF {
          InitVarFlash(sector, tipo, name, value);
          return true, sector;
        }
        var same := CoincidenciaDatosVar(sector, tipo, name, chk);
        if same {
          return true, sector;
        }
        sector := sector + 1;
        if sector >= SECTORS {
          break;
        }
      }
      return false, sector;
    }

    /** Finds the sector to work on: the hinted one when its header matches, else by scanning.  In a
        store any hint gives the key's own sector, and the store is kept. */
    method Localiza(hint: nat, tipo: byte, name: seq<byte>, value: seq<byte>) returns (found: bool, sector: nat)
      requires chip.Ready() && TypeOk(tipo) && NameOk(name) && |value| == LongParam(tipo)
      requires hint == 0 || FIRST_SECTOR <= hint < SECTORS
      modifies this`vars, chip`command, chip.mem
      ensures chip.Ready()
      ensures sector == Located(old(chip.mem[..]), hint, tipo, name)
      ensures found <==> sector < SECTORS
      ensures chip.mem[..] == Created(old(chip.mem[..]), sector, KeyOf(tipo, name), value)
      ensures old(Valid()) ==> Valid() && Protected(old(chip.mem[..]), chip.mem[..])
      ensures old(Valid()) ==> (found <==> HasPlace(old(vars), KeyOf(tipo, name)))
      ensures old(Valid()) ==> vars == if found then Ensure(old(vars), KeyOf(tipo, name), value) else old(vars)
      ensures old(Valid()) && found ==>
        Known(vars, KeyOf(tipo, name)) && sector == FIRST_SECTOR + Find(vars, KeyOf(tipo, name))
    {
      hide Represents, HeaderMatches, Checksum, Trunc, Find, And, Scan, Created, VarsOk, Protected, Ensure;
      if Valid() {
        LocatedInStore(chip.mem[..], vars, hint, tipo, name, value);
        if HasPlace(vars, KeyOf(tipo, name)) {
          vars := Ensure(vars, KeyOf(tipo, name), value);
        }
      }
      if hint != 0 {
        var chk := StrChecksum(name);
        var matches := CoincidenciaDatosVar(hint, tipo, name, chk);
        if matches {
          MatchNotFree(chip.mem[..], hint, tipo, name, value);
          return true, hint;
        }
      }
      found, sector := EncuentraVariable(tipo, value, name);
    }

    /** Reads a variable, creating it with the default when it is missing, on any contents of the flash:
        the slot the key's table points to, or the first when no bit is left.  In a store any hint in range
        gives the same answer. */
    method LeeVariable(hint: nat, tipo: byte, name: seq<byte>, valueDefault: seq<byte>)
      returns (found: bool, sector: nat, value: seq<byte>)
      requires chip.Ready() && TypeOk(tipo) && NameOk(name) && |valueDefault| == LongParam(tipo)
      requires hint == 0 || FIRST_SECTOR <= hint < SECTORS
      requires ReadsOnChip(chip.mem[..], hint, tipo, name, valueDefault)
      modifies this`vars, chip`command, chip.mem
      ensures chip.Ready()
      ensures sector == Located(old(chip.mem[..]), hint, tipo, name)
      ensures found <==> sector < SECTORS
      ensures chip.mem[..] == Created(old(chip.mem[..]), sector, KeyOf(tipo, name), valueDefault)
      ensures found ==>
        var a := SlotInUse(chip.mem[..], sector, |valueDefault|);
        a + |valueDefault| <= CHIP_SIZE && value == chip.mem[a..a + |valueDefault|]
      ensures old(Valid()) ==>
        && Valid() && Protected(old(chip.mem[..]), chip.mem[..])
        && (found <==> HasPlace(old(vars), KeyOf(tipo, name)))
        && vars == (if found then Ensure(old(vars), KeyOf(tipo, name), valueDefault) else old(vars))
        && (found ==>
             && Known(vars, KeyOf(tipo, name)) && sector == FIRST_SECTOR + Find(vars, KeyOf(tipo, name))
             && value == vars[Find(vars, KeyOf(tipo, name))].Visible())
    {
      hide Represents, Checksum, Trunc, Find, Protected, Created, Located, Ensure, LongParam, SlotInUse;
      value := [];
      if Valid() {
        ReadInStore(chip.mem[..], vars, hint, tipo, name, valueDefault);
      }
      found, sector := Localiza(hint, tipo, name, valueDefault);
      if found {
        value := LeeDeSector(sector, tipo);
      }
    }

    /** The second half of leeVariable, on the sector it has found. */
    method LeeDeSector(sector: nat, tipo: byte) returns (value: seq<byte>)
      requires chip.Ready() && sector < SECTORS && TypeOk(tipo)
      requires SlotInUse(chip.mem[..], sector, LongParam(tipo)) + LongParam(tipo) <= CHIP_SIZE
      modifies chip`command, chip.mem
      ensures chip.Ready() && chip.mem[..] == old(chip.mem[..])
      ensures var a := SlotInUse(chip.mem[..], sector, LongParam(tipo));
              value == chip.mem[a..a + LongParam(tipo)]
    {
      hide FatPos;
      var pos, error, page, column, b := LeePosEnFAT(sector);
      value := LeeBytes(SlotAddress(sector, LongParam(tipo), pos), LongParam(tipo));
    }

    /** Reads n bytes one by one, stepping to the next page when the column wraps. */
    method LeeBytes(address: nat, n: nat) returns (value: seq<byte>)
      requires chip.Ready() && address + n <= CHIP_SIZE
      modifies chip`command, chip.mem
      ensures chip.Ready() && chip.mem[..] == old(chip.mem[..])
      ensures value == chip.mem[address..address + n]
    {
      var page: PageCursor, column: byte := address / 256, address % 256;
      value := [];
      for i := 0 to n
        invariant chip.Ready() && chip.mem[..] == old(chip.mem[..])
        invariant page * 256 + column == address + i
        invariant value == chip.mem[address..address + i]
      {
        var b := chip.Read(page, column);
        value := value + [b];
        if column == 255 {
          page, column := page + 1, 0;
        } else {
          column := column + 1;
        }
      }
    }

    /** Programs the bytes one by one, stepping to the next page when the column wraps. */
    method EscribeBytes(address: nat, value: seq<byte>)
      requires chip.Ready() && address + |value| <= CHIP_SIZE
      modifies chip`command, chip.mem
      ensures chip.Ready()
      ensures chip.mem[..] == ProgramRange(old(chip.mem[..]), address, value)
    {
      hide And;
      ghost var m := chip.mem[..];
      var page: PageCursor, column: byte := address / 256, address % 256;
      assert ProgramRange(m, address, value[..0]) == m;
      for i := 0 to |value|
        invariant chip.Ready()
        invariant page * 256 + column == address + i
        invariant chip.mem[..] == ProgramRange(m, address, value[..i])
      {
        ProgramRangeAppend(m, address, value[..i], value[i]);
        assert value[..i] + [value[i]] == value[..i + 1];
        chip.Write(page, column, value[i]);
        if column == 255 {
          page, column := page + 1, 0;
        } else {
          column := column + 1;
        }
      }
      assert value[..|value|] == value;
    }

    /** Writes a variable, on any contents of the flash: one table bit and one slot more in the key's
        sector, or a fresh sector when no bit is left.  Nothing keeps the slot inside the sector.  In a
        store, when it does fit, any hint in range gives the same result. */
    method EscribeVar(hint: nat, tipo: byte, name: seq<byte>, value: seq<byte>)
      requires chip.Ready() && TypeOk(tipo) && NameOk(name) && |value| == LongParam(tipo)
      requires hint == 0 || FIRST_SECTOR <= hint < SECTORS
      requires WritesOnChip(chip.mem[..], hint, tipo, name, value)
      modifies this`vars, chip, chip.mem
      ensures chip.Ready()
      ensures chip.mem[..] == EscribeImage(old(chip.mem[..]), hint, tipo, name, value)
      ensures chip.wear == EscribeWear(old(chip.wear), old(chip.mem[..]), hint, tipo, name, value)
      ensures old(Valid() && WriteFits(vars, KeyOf(tipo, name))) ==>
        && Valid() && Protected(old(chip.mem[..]), chip.mem[..])
        && vars == (if HasPlace(old(vars), KeyOf(tipo, name)) then Escribe(old(vars), KeyOf(tipo, name), value)
                    else old(vars))
        && chip.wear == WearAfter(old(chip.wear), old(vars), KeyOf(tipo, name))
    {
      hide Represents, Checksum, Trunc, Find, HeaderMatches, Scan, InitImage, WrittenImage, Protected, VarsOk, FatPos;
      ghost var m, c, vars0 := chip.mem[..], KeyOf(tipo, name), vars;
      ghost var fits := Valid() && WriteFits(vars, c);
      if fits {
        EscribeInStore(m, vars, chip.wear, hint, tipo, name, value);
      }
      var found, sector := Localiza(hint, tipo, name, value);
      if found {
        EscribeEnSector(sector, tipo, name, value);
      }
      if fits {
        vars := if HasPlace(vars0, c) then Escribe(vars0, c, value) else vars0;
      }
    }

    /** Reads an 8-bit variable and clamps it to a range.  On a full chip without the key
        an uninitialised value is clamped. */
    method LeeVariableU8(hint: nat, name: seq<byte>, minimo: byte, maximo: byte, valueDefault: byte)
      returns (error: int, sector: nat, valor: byte)
      requires Valid() && NameOk(name) && (hint == 0 || FIRST_SECTOR <= hint < SECTORS)
      modifies this`vars, chip`command, chip.mem
      ensures Valid() && chip.wear == old(chip.wear) && Protected(old(chip.mem[..]), chip.mem[..])
      ensures !HasPlace(old(vars), KeyOf(VARU8, name)) ==>
        vars == old(vars) && sector == SECTORS
        && (error == 0 ==> minimo <= valor <= maximo)
        && (error == -4 ==> valor == minimo) && (error == -5 ==> valor == maximo)
      ensures HasPlace(old(vars), KeyOf(VARU8, name)) ==>
        && vars == Ensure(old(vars), KeyOf(VARU8, name), [valueDefault]) && Known(vars, KeyOf(VARU8, name))
        && sector == FIRST_SECTOR + Find(vars, KeyOf(VARU8, name)) < SECTORS
        && |vars[Find(vars, KeyOf(VARU8, name))].Visible()| == 1
        && var stored := vars[Find(vars, KeyOf(VARU8, name))].Visible()[0];
           if stored < minimo then error == -4 && valor == minimo
           else if stored > maximo then error == -5 && valor == maximo
           else error == 0 && valor == stored
    {
      hide Represents, Find, Checksum, Trunc, Ensure, Protected;
      var found, leido;
      found, sector, leido := LeeVariable(hint, VARU8, name, [valueDefault]);
      valor := *; // the source's uninitialised local
      if found {
        valor := leido[0];
      }
      if valor < minimo {
        return -4, sector, minimo;
      }
      if valor > maximo {
        return -5, sector, maximo;
      }
      error := 0;
    }

    /** Writes an 8-bit variable unless a read already returns the value. */
    method EscribeVarU8(hint: nat, name: seq<byte>, valor: byte) returns (sector: nat)
      requires Valid() && NameOk(name) && HasPlace(vars, KeyOf(VARU8, name))
      requires hint == 0 || FIRST_SECTOR <= hint < SECTORS
      modifies this`vars, chip, chip.mem
      ensures Valid() && Protected(old(chip.mem[..]), chip.mem[..])
      ensures vars == EscribeSiCambia(old(vars), KeyOf(VARU8, name), [valor])
      ensures chip.wear == if Omits(old(vars), KeyOf(VARU8, name), [valor]) then old(chip.wear)
                           else WearAfter(old(chip.wear), old(vars), KeyOf(VARU8, name))
      ensures sector == FIRST_SECTOR + Find(old(vars), KeyOf(VARU8, name))
    {
      hide AllHold, BlankFrom, Find, Checksum, Trunc, DistinctKeys, And, Scan, High, Low, Pair;
      ghost var c := KeyOf(VARU8, name);
      EnsureOk(vars, c, [valor]);
      FirstMisfit(vars, c);
      WriteAfterRead(vars, c, [valor]);
      var error, actual;
      error, sector, actual := LeeVariableU8(hint, name, 0, 0xFF, valor);
      ghost var visible := vars[Find(vars, c)].Visible();
      assert visible == [actual];
      if error == 0 && actual == valor {
        return;
      }
      StoreOnChip(chip.mem[..], vars, sector, VARU8, name, [valor]);
      EscribeVar(sector, VARU8, name, [valor]);
    }

    /** Reads a 16-bit variable, stored low byte first, and clamps it to a range.  On a full chip without the key
        an uninitialised value is clamped. */
    method LeeVariableU16(hint: nat, name: seq<byte>, minimo: u16, maximo: u16, valueDefault: u16)
      returns (error: int, sector: nat, valor: u16)
      requires Valid() && NameOk(name) && (hint == 0 || FIRST_SECTOR <= hint < SECTORS)
      modifies this`vars, chip`command, chip.mem
      ensures Valid() && chip.wear == old(chip.wear) && Protected(old(chip.mem[..]), chip.mem[..])
      ensures !HasPlace(old(vars), KeyOf(VARU16, name)) ==>
        vars == old(vars) && sector == SECTORS
        && (error == 0 ==> minimo <= valor <= maximo)
        && (error == -4 ==> valor == minimo) && (error == -5 ==> valor == maximo)
      ensures HasPlace(old(vars), KeyOf(VARU16, name)) ==>
        && vars == Ensure(old(vars), KeyOf(VARU16, name), LittleEndian(valueDefault))
        && Known(vars, KeyOf(VARU16, name))
        && sector == FIRST_SECTOR + Find(vars, KeyOf(VARU16, name)) < SECTORS
        && |vars[Find(vars, KeyOf(VARU16, name))].Visible()| == 2
        && var stored := FromLittleEndian(vars[Find(vars, KeyOf(VARU16, name))].Visible());
           if stored < minimo then error == -4 && valor == minimo
           else if stored > maximo then error == -5 && valor == maximo
           else error == 0 && valor == stored
    {
      hide Represents, Find, Checksum, Trunc, Ensure, Protected;
      var found, leido;
      found, sector, leido := LeeVariable(hint, VARU16, name, LittleEndian(valueDefault));
      valor := *; // the source's uninitialised local
      if found {
        valor := FromLittleEndian(leido);
      }
      if valor < minimo {
        return -4, sector, minimo;
      }
      if valor > maximo {
        return -5, sector, maximo;
      }
      error := 0;
    }

    /** Writes a 16-bit variable unless a read already returns the value. */
    method EscribeVarU16(hint: nat, name: seq<byte>, valor: u16) returns (sector: nat)
      requires Valid() && NameOk(name) && HasPlace(vars, KeyOf(VARU16, name))
      requires hint == 0 || FIRST_SECTOR <= hint < SECTORS
      modifies this`vars, chip, chip.mem
      ensures Valid() && Protected(old(chip.mem[..]), chip.mem[..])
      ensures vars == EscribeSiCambia(old(vars), KeyOf(VARU16, name), LittleEndian(valor))
      ensures chip.wear == if Omits(old(vars), KeyOf(VARU16, name), LittleEndian(valor)) then old(chip.wear)
                           else WearAfter(old(chip.wear), old(vars), KeyOf(VARU16, name))
      ensures sector == FIRST_SECTOR + Find(old(vars), KeyOf(VARU16, name))
    {
      hide AllHold, BlankFrom, Find, Checksum, Trunc, DistinctKeys, And, Scan, High, Low, Pair;
      ghost var c := KeyOf(VARU16, name);
      EnsureOk(vars, c, LittleEndian(valor));
      FirstMisfit(vars, c);
      WriteAfterRead(vars, c, LittleEndian(valor));
      var error, actual;
      error, sector, actual := LeeVariableU16(hint, name, 0, 0xFFFF, valor);
      ghost var visible := vars[Find(vars, c)].Visible();
      LittleEndianInverse(visible, valor);
      if error == 0 && actual == valor {
        return;
      }
      StoreOnChip(chip.mem[..], vars, sector, VARU16, name, LittleEndian(valor));
      EscribeVar(sector, VARU16, name, LittleEndian(valor));
    }

    method Perform(call: Call)
      requires Valid() && CallOk(vars, call)
      modifies this`vars, chip, chip.mem
      ensures Valid() && Current() == Step(old(Current()), OpOf(old(Current()), call))
      ensures Protected(old(chip.mem[..]), chip.mem[..])
    {
      hide Represents, Find, Checksum, Trunc, Ensure, Escribe, Located, MustErase, VarsOk, Omits, High, Low;
      hide ReadsOnChip, WritesOnChip, EscribeImage, EscribeWear, Created, SlotInUse, WriteFits, Protected, Erasure;
      match call
      case CallLee(hint, tipo, name, value) =>
        ReadInStore(chip.mem[..], vars, hint, tipo, name, value);
        var _, _, _ := LeeVariable(hint, tipo, name, value);
      case CallEscribe(hint, tipo, name, value) =>
        StoreOnChip(chip.mem[..], vars, hint, tipo, name, value);
        EscribeVar(hint, tipo, name, value);
      case CallEscribeU8(hint, name, v8) =>
        var _ := EscribeVarU8(hint, name, v8);
      case CallEscribeU16(hint, name, v16) =>
        var _ := EscribeVarU16(hint, name, v16);
    }

    /** Any sequence of calls leaves the flash in the state of the run of their operations, so everything
        that is proved of runs holds of the flash. */
    method RunCalls(calls: seq<Call>)
      requires Valid() && CallsOk(Current(), calls)
      modifies this`vars, chip, chip.mem
      ensures Valid() && Current() == Run(old(Current()), Ops(old(Current()), calls))
      ensures Protected(old(chip.mem[..]), chip.mem[..])
    {
      hide Represents, Step, OpOf, CallOk;
      ghost var st := Current();
      for i := 0 to |calls|
        invariant Valid() && Protected(old(chip.mem[..]), chip.mem[..])
        invariant CallsOk(Current(), calls[i..])
        invariant Run(Current(), Ops(Current(), calls[i..])) == Run(st, Ops(st, calls))
      {
        assert calls[i..][1..] == calls[i + 1..];
        ghost var op := OpOf(Current(), calls[i]);
        ghost var rest := Ops(Step(Current(), op), calls[i + 1..]);
        assert ([op] + rest)[1..] == rest;
        Perform(calls[i]);
      }
    }

    /** The second half of escribeVar, on the sector it has found. */
    method EscribeEnSector(sector: nat, tipo: byte, name: seq<byte>, value: seq<byte>)
      requires chip.Ready() && FIRST_SECTOR <= sector < SECTORS
      requires TypeOk(tipo) && NameOk(name) && |value| == LongParam(tipo)
      requires SlotOnChip(chip.mem[..], sector, |value|)
      modifies chip, chip.mem
      ensures chip.Ready()
      ensures chip.mem[..] == WrittenImage(old(chip.mem[..]), sector, KeyOf(tipo, name), value)
      ensures chip.wear == if FatPos(old(chip.mem[..]), sector) == FAT_BITS then Erasure(old(chip.wear), sector)
                           else old(chip.wear)
    {
      hide SectorByte, Checksum, Trunc, And, InitImage, ProgramRange, FatPos;
      var pos, error, page, column, b := LeePosEnFAT(sector);
      if error {
        chip.SectorErase(16 * sector);
        InitVarFlash(sector, tipo, name, value);
      } else {
        chip.Write(page, column, ShiftLeft(b));
        EscribeBytes(SlotAddress(sector, LongParam(tipo), pos + 1), value);
      }
    }
  }

  // ---------- one write ----------

  /** A write without a hint needs a place, and its slot must lie on the chip. */
  ghost predicate WritesOnChip(m: seq<byte>, hint: nat, tipo: byte, name: seq<byte>, value: seq<byte>)
    requires IsImage(m) && TypeOk(tipo) && NameOk(name) && |value| == LongParam(tipo)
    requires hint == 0 || FIRST_SECTOR <= hint < SECTORS
  {
    var s := Located(m, hint, tipo, name);
    (s == SECTORS ==> hint != 0)
    && (s < SECTORS ==> SlotOnChip(Created(m, s, KeyOf(tipo, name), value), s, |value|))
  }

  ghost function EscribeImage(m: seq<byte>, hint: nat, tipo: byte, name: seq<byte>, value: seq<byte>): seq<byte>
    requires IsImage(m) && TypeOk(tipo) && NameOk(name) && |value| == LongParam(tipo)
    requires (hint == 0 || FIRST_SECTOR <= hint < SECTORS) && WritesOnChip(m, hint, tipo, name, value)
  {
    var s, c := Located(m, hint, tipo, name), KeyOf(tipo, name);
    if s == SECTORS then m else WrittenImage(Created(m, s, c, value), s, c, value)
  }

  ghost function EscribeWear(wear: seq<nat>, m: seq<byte>, hint: nat, tipo: byte, name: seq<byte>,
                             value: seq<byte>): seq<nat>
    requires IsImage(m) && |wear| == SECTORS && TypeOk(tipo) && NameOk(name) && |value| == LongParam(tipo)
    requires hint == 0 || FIRST_SECTOR <= hint < SECTORS
  {
    var s := Located(m, hint, tipo, name);
    if s < SECTORS && FatPos(Created(m, s, KeyOf(tipo, name), value), s) == FAT_BITS then Erasure(wear, s) else wear
  }

  /** The erase counters after one write to a key of the store. */
  ghost function WearAfter(wear: seq<nat>, vars: seq<Var>, c: Clave): seq<nat>
    requires |wear| == SECTORS && |vars| <= MAX_VARS
  {
    if MustErase(vars, c) then Erasure(wear, FIRST_SECTOR + Find(vars, c)) else wear
  }

  /** In a store that is the key's own sector, whatever the hint, and creating the key keeps the store. */
  lemma LocatedInStore(m: seq<byte>, vars: seq<Var>, hint: nat, tipo: byte, name: seq<byte>, value: seq<byte>)
    requires Represents(m, vars) && TypeOk(tipo) && NameOk(name) && |value| == LongParam(tipo)
    requires hint == 0 || FIRST_SECTOR <= hint < SECTORS
    ensures var s, c := Located(m, hint, tipo, name), KeyOf(tipo, name);
            && (s < SECTORS <==> HasPlace(vars, c))
            && (s < SECTORS ==>
                 && Represents(Created(m, s, c, value), Ensure(vars, c, value))
                 && Known(Ensure(vars, c, value), c) && s == FIRST_SECTOR + Find(Ensure(vars, c, value), c))
            && (s == SECTORS ==> Created(m, s, c, value) == m)
            && Protected(m, Created(m, s, c, value))
  {
    hide Represents, HeaderMatches, Checksum, Trunc, Find, Scan, InitImage, VarsOk;
    StoredByte(m, vars, FIRST_SECTOR);
    var s, c := Located(m, hint, tipo, name), KeyOf(tipo, name);
    if hint != 0 {
      HeaderFinds(m, vars, hint, tipo, name);
    }
    ScanInStore(m, vars, FIRST_SECTOR, tipo, name);
    if s < SECTORS {
      StoredByte(m, vars, s);
      EnsureInStore(m, vars, c, value);
      if !Known(vars, c) {
        InitRepresents(m, vars, c, value);
      }
    }
  }

  lemma EnsureInStore(m: seq<byte>, vars: seq<Var>, c: Clave, value: seq<byte>)
    requires Represents(m, vars) && ValueOk(c, value) && HasPlace(vars, c)
    ensures Find(Ensure(vars, c, value), c) == Find(vars, c) < |Ensure(vars, c, value)|
  {
    EnsureOk(vars, c, value);
  }

  /** The scan of a store ends at the key, or at the first blank sector. */
  lemma {:induction false} ScanInStore(m: seq<byte>, vars: seq<Var>, sector: nat, tipo: byte, name: seq<byte>)
    requires Represents(m, vars) && TypeOk(tipo) && NameOk(name)
    requires FIRST_SECTOR <= sector <= SECTORS && sector <= FIRST_SECTOR + Find(vars, KeyOf(tipo, name))
    ensures Scan(m, sector, tipo, name) == FIRST_SECTOR + Find(vars, KeyOf(tipo, name))
    decreases SECTORS - sector
  {
    hide Represents, HeaderMatches, Checksum, Trunc, Find;
    StoredByte(m, vars, FIRST_SECTOR);
    if sector == SECTORS {
    } else {
      StoredByte(m, vars, sector);
      HeaderFinds(m, vars, sector, tipo, name);
      if sector < FIRST_SECTOR + Find(vars, KeyOf(tipo, name)) {
        ScanInStore(m, vars, sector + 1, tipo, name);
      }
    }
  }

  /** A sector whose header matches is in use, so it is not initialised. */
  lemma MatchNotFree(m: seq<byte>, hint: nat, tipo: byte, name: seq<byte>, value: seq<byte>)
    requires IsImage(m) && hint < SECTORS && TypeOk(tipo) && NameOk(name) && |value| == LongParam(tipo)
    requires HeaderMatches(m, hint, tipo, name, Checksum(name))
    ensures Created(m, hint, KeyOf(tipo, name), value) == m
  {
  }

  /** One write to a store: when the slot fits, the store it leaves is the one the model says. */
  lemma EscribeInStore(m: seq<byte>, vars: seq<Var>, wear: seq<nat>, hint: nat, tipo: byte, name: seq<byte>,
                       value: seq<byte>)
    requires Represents(m, vars) && TypeOk(tipo) && NameOk(name) && |value| == LongParam(tipo) && |wear| == SECTORS
    requires hint == 0 || FIRST_SECTOR <= hint < SECTORS
    requires WritesOnChip(m, hint, tipo, name, value) && WriteFits(vars, KeyOf(tipo, name))
    ensures |vars| <= MAX_VARS
    ensures var c, m' := KeyOf(tipo, name), EscribeImage(m, hint, tipo, name, value);
            && Represents(m', if HasPlace(vars, c) then Escribe(vars, c, value) else vars)
            && Protected(m, m')
            && EscribeWear(wear, m, hint, tipo, name, value) == WearAfter(wear, vars, c)
  {
    hide Represents, Checksum, Trunc, Find, HeaderMatches, Scan, Located, Created, WrittenImage;
    hide FatPos, Escribe, Ensure, Logged;
    StoredByte(m, vars, FIRST_SECTOR);
    var s, c := Located(m, hint, tipo, name), KeyOf(tipo, name);
    LocatedInStore(m, vars, hint, tipo, name, value);
    if s < SECTORS {
      var m1, vars1 := Created(m, s, c, value), Ensure(vars, c, value);
      FitsKept(m, vars, c, value);
      WrittenInStore(m1, vars1, s - FIRST_SECTOR, vars1[s - FIRST_SECTOR], value, WrittenImage(m1, s, c, value));
    }
  }

  /** One write to the sector of variable i keeps the store when its slot fits. */
  lemma WrittenInStore(m: seq<byte>, vars: seq<Var>, i: nat, v: Var, value: seq<byte>, m': seq<byte>)
    requires IsImage(m) && FIRST_SECTOR + i < SECTORS && SlotOnChip(m, FIRST_SECTOR + i, |value|)
    requires ClaveOk(v.clave) && |value| == v.Width()
    requires IsImage(m') && m' == WrittenImage(m, FIRST_SECTOR + i, v.clave, value)
    requires |v.log| == FAT_BITS + 1 || SlotsFit(v.clave.tipo, |v.log| + 1)
    requires i < |vars| && v == vars[i]
    requires Represents(m, vars)
    ensures FatPos(m, FIRST_SECTOR + i) == FAT_BITS <==> |v.log| == FAT_BITS + 1
    ensures Represents(m', vars[i := Logged(v, value)]) && Protected(m, m')
  {
    hide Represents, AppendImage, InitImage, FatPos, SectorByte;
    StoredAt(m, vars, i);
    assert Holds(m, FIRST_SECTOR + i, vars[i]);
    ScanResult(m, FIRST_SECTOR + i, vars[i]);
    if |vars[i].log| == FAT_BITS + 1 {
      FreshSector(m, vars, i, value);
    } else {
      AppendRepresents(m, vars, i, value);
    }
  }

  /** A write to a store always lies on the chip when its slot fits. */
  lemma StoreOnChip(m: seq<byte>, vars: seq<Var>, hint: nat, tipo: byte, name: seq<byte>, value: seq<byte>)
    requires Represents(m, vars) && TypeOk(tipo) && NameOk(name) && |value| == LongParam(tipo)
    requires hint == 0 || FIRST_SECTOR <= hint < SECTORS
    requires HasPlace(vars, KeyOf(tipo, name)) && WriteFits(vars, KeyOf(tipo, name))
    ensures WritesOnChip(m, hint, tipo, name, value)
  {
    hide Represents, Checksum, Trunc, Find, HeaderMatches, Scan, Located, Created, FatPos, LongParam, SlotAddress;
    hide Table, Holds, Protected;
    StoredByte(m, vars, FIRST_SECTOR);
    var s, c := Located(m, hint, tipo, name), KeyOf(tipo, name);
    LocatedInStore(m, vars, hint, tipo, name, value);
    FitsKept(m, vars, c, value);
    var m1, vars1 := Created(m, s, c, value), Ensure(vars, c, value);
    var v := vars1[s - FIRST_SECTOR];
    StoredAt(m1, vars1, s - FIRST_SECTOR);
    ScanResult(m1, s, v);
    if |v.log| <= FAT_BITS {
      SlotInside(s, tipo, |v.log|);
    }
  }

  /** In a store every read lies on the chip and returns what the key's log shows. */
  lemma ReadInStore(m: seq<byte>, vars: seq<Var>, hint: nat, tipo: byte, name: seq<byte>, value: seq<byte>)
    requires Represents(m, vars) && TypeOk(tipo) && NameOk(name) && |value| == LongParam(tipo)
    requires hint == 0 || FIRST_SECTOR <= hint < SECTORS
    ensures ReadsOnChip(m, hint, tipo, name, value)
    ensures var s, c := Located(m, hint, tipo, name), KeyOf(tipo, name);
            s < SECTORS ==>
              var m', vars1, w := Created(m, s, c, value), Ensure(vars, c, value), |value|;
              && SlotInUse(m', s, w) + w <= CHIP_SIZE && Known(vars1, c) && |vars1[Find(vars1, c)].log| > 0
              && m'[SlotInUse(m', s, w)..SlotInUse(m', s, w) + w] == vars1[Find(vars1, c)].Visible()
  {
    hide Represents, Checksum, Trunc, Find, HeaderMatches, Scan, Located, Created;
    hide FatPos, Ensure, SectorByte, Protected;
    StoredByte(m, vars, FIRST_SECTOR);
    var s, c := Located(m, hint, tipo, name), KeyOf(tipo, name);
    LocatedInStore(m, vars, hint, tipo, name, value);
    if s < SECTORS {
      ReadOfSector(Created(m, s, c, value), Ensure(vars, c, value), s - FIRST_SECTOR);
    }
  }

  lemma ReadOfSector(m: seq<byte>, vars: seq<Var>, i: nat)
    requires Represents(m, vars) && i < |vars|
    ensures IsImage(m) && FIRST_SECTOR + i < SECTORS && vars[i].Ok()
    ensures var a, w := SlotInUse(m, FIRST_SECTOR + i, vars[i].Width()), vars[i].Width();
            a + w <= CHIP_SIZE && m[a..a + w] == vars[i].Visible()
  {
    hide Represents, FatPos, Holds, Table;
    StoredAt(m, vars, i);
    ScanResult(m, FIRST_SECTOR + i, vars[i]);
    SlotRead(m, FIRST_SECTOR + i, vars[i], if vars[i].Pos() == FAT_BITS then 0 else vars[i].Pos());
  }

  /** The first write whose slot does not fit its sector is slot 80 of a 50-byte variable. */
  lemma OverrunInStore(m: seq<byte>, vars: seq<Var>, hint: nat, tipo: byte, name: seq<byte>, value: seq<byte>)
    requires Represents(m, vars) && TypeOk(tipo) && NameOk(name) && |value| == LongParam(tipo)
    requires hint == 0 || FIRST_SECTOR <= hint < SECTORS
    requires !WriteFits(vars, KeyOf(tipo, name)) && FIRST_SECTOR + Find(vars, KeyOf(tipo, name)) + 1 < SECTORS
    ensures WritesOnChip(m, hint, tipo, name, value)
    ensures var s := FIRST_SECTOR + Find(vars, KeyOf(tipo, name));
            tipo == VAR50 && s < FIRST_SECTOR + |vars| && |vars[s - FIRST_SECTOR].log| == 80
            && Holds(m, s, vars[s - FIRST_SECTOR])
            && EscribeImage(m, hint, tipo, name, value) == AppendImage(m, s, 79, SlotAddress(s, 50, 80), value)
  {
    hide Represents, Checksum, Trunc, Find, HeaderMatches, Scan, Located, AppendImage;
    hide FatPos, SectorByte, Table, Protected, InitImage;
    var c := KeyOf(tipo, name);
    FirstMisfitIn(m, vars, c);
    LocatedInStore(m, vars, hint, tipo, name, value);
    var s := FIRST_SECTOR + Find(vars, c);
    StoredAt(m, vars, s - FIRST_SECTOR);
    StoredByte(m, vars, s);
    ScanResult(m, s, vars[s - FIRST_SECTOR]);
  }

  /** From that write to the 129th the table goes on counting, while the values go into the next sector:
      each such write takes one more bit, ANDs the value there, and changes no third sector. */
  lemma OverrunGoesOn(m: seq<byte>, sector: nat, pos: nat, c: Clave, value: seq<byte>)
    requires IsImage(m) && sector + 1 < SECTORS && Table(m, sector, pos) && 79 <= pos < FAT_BITS
    requires ClaveOk(c) && |value| == 50
    ensures SlotOnChip(m, sector, 50)
    ensures var m' := WrittenImage(m, sector, c, value);
            var n, n', d := SectorBytes(m, sector + 1), SectorBytes(m', sector + 1), Beyond(pos + 1);
            && Table(m', sector, pos + 1) && FatPos(m', sector) == pos + 1
            && (forall k :: 0 <= k < SECTOR_SIZE ==>
                 n'[k] == if d <= k < d + 50 then And(n[k], value[k - d]) else n[k])
            && (forall s :: 0 <= s < SECTORS && s != sector && s != sector + 1 ==>
                 SectorBytes(m', s) == SectorBytes(m, s))
  {
    hide FirstSet, And, AppendImage, FatByte, FatCell, SectorBytes;
    ScanFrom(m, sector, pos, 0);
    OverrunImage(m, sector, pos, value);
    TableStep(m, sector, pos, value);
    ScanFrom(WrittenImage(m, sector, c, value), sector, pos + 1, 0);
  }

  lemma TableStep(m: seq<byte>, sector: nat, pos: nat, value: seq<byte>)
    requires IsImage(m) && sector + 1 < SECTORS && Table(m, sector, pos) && 79 <= pos < FAT_BITS
    requires |value| == 50 && SlotAddress(sector, 50, pos + 1) + 50 <= CHIP_SIZE
    ensures Table(AppendImage(m, sector, pos, SlotAddress(sector, 50, pos + 1), value), sector, pos + 1)
  {
    hide And, FatByte;
    var m' := AppendImage(m, sector, pos, SlotAddress(sector, 50, pos + 1), value);
    forall j | 0 <= j < LONGFAT ensures FatCell(m', sector, j) == FatByte(pos + 1, j) {
      FatStep(pos, j);
      assert FatCell(m, sector, j) == FatByte(pos, j);
    }
  }

  lemma FirstMisfitIn(m: seq<byte>, vars: seq<Var>, c: Clave)
    requires Represents(m, vars) && TypeOk(c.tipo) && !WriteFits(vars, c)
    ensures c.tipo == VAR50 && Known(vars, c) && |vars[Find(vars, c)].log| == 80
  {
    FirstMisfit(vars, c);
  }

  /** Creating a missing key does not change whether its next slot fits. */
  lemma FitsKept(m: seq<byte>, vars: seq<Var>, c: Clave, value: seq<byte>)
    requires Represents(m, vars) && ValueOk(c, value) && HasPlace(vars, c) && WriteFits(vars, c)
    ensures var vars1, i := Ensure(vars, c, value), Find(vars, c);
            && Find(vars1, c) == i < |vars1|
            && |value| == vars1[i].Width()
            && vars1[i].clave == c
            && (|vars1[i].log| == FAT_BITS + 1 || SlotsFit(c.tipo, |vars1[i].log| + 1))
            && (|vars1[i].log| == FAT_BITS + 1 <==> MustErase(vars, c))
            && Escribe(vars, c, value) == vars1[i := Logged(vars1[i], value)]
  {
    EnsureOk(vars, c, value);
    SlotsFitExactly(c.tipo, 2);
  }

  lemma StoredAt(m: seq<byte>, vars: seq<Var>, i: nat)
    requires Represents(m, vars) && i < |vars|
    ensures IsImage(m) && FIRST_SECTOR + i < SECTORS && vars[i].Ok() && Holds(m, FIRST_SECTOR + i, vars[i])
  {
  }

  /** One more slot in the sector of variable i keeps the store. */
  lemma AppendRepresents(m: seq<byte>, vars: seq<Var>, i: nat, value: seq<byte>)
    requires Represents(m, vars) && i < |vars| && vars[i].Pos() < FAT_BITS
    requires |value| == vars[i].Width() && SlotsFit(vars[i].clave.tipo, |vars[i].log| + 1)
    ensures var address := SlotAddress(FIRST_SECTOR + i, |value|, vars[i].Pos() + 1);
            address + |value| < CHIP_SIZE
            && Represents(AppendImage(m, FIRST_SECTOR + i, vars[i].Pos(), address, value),
                          vars[i := Logged(vars[i], value)])
            && Protected(m, AppendImage(m, FIRST_SECTOR + i, vars[i].Pos(), address, value))
  {
    hide SectorByte, And, AppendImage;
    var s, v := FIRST_SECTOR + i, vars[i];
    AppendHolds(m, s, v, value);
    var m' := AppendImage(m, s, v.Pos(), SlotAddress(s, |value|, v.Pos() + 1), value);
    RepresentsUpdate(m, vars, m', i, Logged(v, value));
  }

  /** Initialising the first blank sector adds the variable to the store. */
  lemma InitRepresents(m: seq<byte>, vars: seq<Var>, c: Clave, value: seq<byte>)
    requires Represents(m, vars) && !Known(vars, c) && |vars| < MAX_VARS && ValueOk(c, value)
    ensures Represents(InitImage(m, FIRST_SECTOR + |vars|, c, value), Ensure(vars, c, value))
    ensures Protected(m, InitImage(m, FIRST_SECTOR + |vars|, c, value))
    ensures Find(Ensure(vars, c, value), c) == |vars|
  {
    hide InitImage, SectorByte;
    var s := FIRST_SECTOR + |vars|;
    assert Blank(m, s);
    InitHolds(m, s, c, value);
    RepresentsAppend(m, vars, InitImage(m, s, c, value), Var(c, [value]));
    FindAppend(vars, Var(c, [value]));
  }

  /** The header comparison finds the key in the store. */
  lemma HeaderFinds(m: seq<byte>, vars: seq<Var>, sector: nat, tipo: byte, name: seq<byte>)
    requires Represents(m, vars) && FIRST_SECTOR <= sector < SECTORS && TypeOk(tipo) && NameOk(name)
    ensures HeaderMatches(m, sector, tipo, name, Checksum(name))
       <==> sector < FIRST_SECTOR + |vars| && sector == FIRST_SECTOR + Find(vars, KeyOf(tipo, name))
  {
    hide SectorByte, Checksum, Trunc, NameMatches;
    StoredByte(m, vars, sector);
    var i := sector - FIRST_SECTOR;
    if i < |vars| {
      assert Holds(m, FIRST_SECTOR + i, vars[i]);
      HeaderDecides(m, sector, vars[i], tipo, name);
      if vars[i].clave == KeyOf(tipo, name) {
        FindUnique(vars, KeyOf(tipo, name), i);
      }
    }
  }

  /** The type byte tells used sectors from blank ones. */
  lemma StoredByte(m: seq<byte>, vars: seq<Var>, sector: nat)
    requires Represents(m, vars) && FIRST_SECTOR <= sector < SECTORS
    ensures IsImage(m) && |vars| <= MAX_VARS
    ensures m[Base(sector)] == 0xFF <==> sector >= FIRST_SECTOR + |vars|
    ensures sector >= FIRST_SECTOR + |vars| ==> Blank(m, sector)
  {
    if sector < FIRST_SECTOR + |vars| {
      assert Holds(m, FIRST_SECTOR + (sector - FIRST_SECTOR), vars[sector - FIRST_SECTOR]);
      HeaderRead(m, sector, vars[sector - FIRST_SECTOR]);
    } else {
      assert Blank(m, sector);
    }
  }

  /** Erasing a used-up sector and initialising it again keeps the store, with a one-entry log. */
  lemma FreshSector(m: seq<byte>, vars: seq<Var>, i: nat, value: seq<byte>)
    requires Represents(m, vars) && i < |vars| && |vars[i].log| == FAT_BITS + 1 && |value| == vars[i].Width()
    ensures var s := FIRST_SECTOR + i;
            Represents(InitImage(EraseSector(m, s), s, vars[i].clave, value), vars[i := Logged(vars[i], value)])
            && Protected(m, InitImage(EraseSector(m, s), s, vars[i].clave, value))
  {
    hide InitImage, SectorByte;
    var s, c := FIRST_SECTOR + i, vars[i].clave;
    var m1 := EraseSector(m, s);
    InitHolds(m1, s, c, value);
    var m2 := InitImage(m1, s, c, value);
    assert OnlySector(m, m2, s);
    RepresentsUpdate(m, vars, m2, i, Var(c, [value]));
  }
}
