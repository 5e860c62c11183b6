/** The flash layout of one variable per sector: type, checksum, name, a unary allocation table
    (the FAT) that counts the writes, and a log of equally wide value slots. */
module VarFormat {
  import opened Bytes
  import opened Flash

  const LONGNAME: nat := 32
  const LONGFAT: nat := 16
  const STARTFAT: nat := 3 + LONGNAME
  const MAXFAT: nat := STARTFAT + LONGFAT - 1
  const STARTDAT: nat := MAXFAT + 1
  const FIRST_SECTOR: nat := 2 // sectors 0 and 1 are not the store's
  const MAX_VARS: nat := SECTORS - FIRST_SECTOR
  const FAT_BITS: nat := 128

  const VAR50: byte := 10

  predicate TypeOk(tipo: byte) { tipo <= VAR50 }

  /** The slot width of each type, as the driver's table has it. */
  function LongParam(tipo: byte): (w: nat)
    requires TypeOk(tipo)
    ensures 1 <= w <= 50
  {
    if tipo <= 5 then 1
    else if tipo <= 7 then 2
    else if tipo == 8 then 4
    else if tipo == 9 then 8
    else 50
  }

  lemma WidthTable(tipo: byte)
    requires TypeOk(tipo)
    ensures LongParam(tipo) == [1, 1, 1, 1, 1, 1, 2, 2, 4, 8, 50][tipo]
  {
  }

  // ---------- names and keys ----------

  /** A C string whose length fits the driver's 8-bit loop counter. */
  ghost predicate NameOk(name: seq<byte>) { |name| <= 255 && 0 !in name }

  function Checksum(name: seq<byte>): u16
  {
    if name == [] then 0 else (Checksum(name[..|name| - 1]) + name[|name| - 1]) % 0x1_0000
  }

  lemma ChecksumOne(x: byte)
    ensures Checksum([]) == 0 && Checksum([x]) == x
  {
    assert [x][..0] == [];
  }

  /** The checksum is the sum of the name's bytes, modulo 2^16. */
  lemma {:induction false} ChecksumSum(a: seq<byte>, b: seq<byte>)
    ensures Checksum(a + b) == (Checksum(a) + Checksum(b)) % 0x1_0000
    decreases |b|
  {
    hide Checksum;
    ChecksumOne(0);
    if b == [] {
      assert a + b == a;
    } else {
      var n := |b| - 1;
      assert (a + b)[..|a + b| - 1] == a + b[..n];
      ChecksumSum(a, b[..n]);
      ChecksumLast(b);
      ChecksumLast(a + b);
      SumsWrap(Checksum(a), Checksum(b[..n]), b[n]);
    }
  }

  lemma ChecksumLast(s: seq<byte>)
    requires s != []
    ensures Checksum(s) == (Checksum(s[..|s| - 1]) + s[|s| - 1]) % 0x1_0000
  {
  }

  lemma SumsWrap(x: u16, y: u16, z: byte)
    ensures ((x + y) % 0x1_0000 + z) % 0x1_0000 == (x + (y + z) % 0x1_0000) % 0x1_0000
  {
  }

  function Trunc(name: seq<byte>): (r: seq<byte>)
    ensures |r| <= LONGNAME - 1 && r <= name
  {
    if |name| < LONGNAME then name else name[..LONGNAME - 1]
  }

  /** What a sector stores about its variable's identity. */
  datatype Clave = Clave(tipo: byte, chk: u16, nombre: seq<byte>)

  function KeyOf(tipo: byte, name: seq<byte>): (c: Clave)
    ensures TypeOk(tipo) && NameOk(name) ==> ClaveOk(c)
  {
    Clave(tipo, Checksum(name), Trunc(name))
  }

  ghost predicate ClaveOk(c: Clave) { TypeOk(c.tipo) && |c.nombre| < LONGNAME && 0 !in c.nombre }

  /** Names of at most 31 bytes are told apart exactly; longer ones share a key when their first 31
      bytes and their checksums agree. */
  lemma ShortNamesDistinct(tipo: byte, a: seq<byte>, tipo': byte, b: seq<byte>)
    requires |a| < LONGNAME && |b| < LONGNAME
    ensures KeyOf(tipo, a) == KeyOf(tipo', b) <==> tipo == tipo' && a == b
  {
    assert KeyOf(tipo, a).nombre == a && KeyOf(tipo', b).nombre == b;
  }

  // ---------- the allocation table ----------

  /** A FAT byte with its i low bits cleared. */
  function Mask(i: nat): byte
    requires i <= 8
  {
    if i == 0 then 0xFF else if i == 1 then 0xFE else if i == 2 then 0xFC else if i == 3 then 0xF8
    else if i == 4 then 0xF0 else if i == 5 then 0xE0 else if i == 6 then 0xC0 else if i == 7 then 0x80
    else 0x00
  }

  /** Byte j of a table in which `pos` bits are used. */
  function FatByte(pos: nat, j: nat): byte
  {
    if 8 * (j + 1) <= pos then 0x00
    else if pos <= 8 * j then 0xFF
    else Mask(pos - 8 * j)
  }

  /** The index of the lowest set bit. */
  function Ctz(b: byte): (i: nat)
    requires b != 0
    decreases b
  {
    if b % 2 == 1 then 0 else Ctz(b / 2) + 1
  }

  lemma {:induction false} CtzLowest(b: nat, n: nat)
    requires 0 < b < 256
    ensures BitSet(b, Ctz(b)) && (n < Ctz(b) ==> !BitSet(b, n))
    decreases b
  {
    if b % 2 == 1 {
    } else if n == 0 {
      CtzLowest(b / 2, 0);
    } else {
      CtzLowest(b / 2, n - 1);
    }
  }

  lemma {:induction false} CtzBelow(b: byte, n: nat)
    requires 0 < b < Pow2(n)
    ensures Ctz(b) < n
    decreases n
  {
    if b % 2 == 1 {
    } else {
      CtzBelow(b / 2, n - 1);
    }
  }

  lemma CtzMask(i: nat)
    requires i < 8
    ensures Mask(i) != 0 && Ctz(Mask(i)) == i
  {
    assert Ctz(0xFF) == 0 && Ctz(0xFE) == 1 && Ctz(0xFC) == 2 && Ctz(0xF8) == 3;
    assert Ctz(0xF0) == 4 && Ctz(0xE0) == 5 && Ctz(0xC0) == 6 && Ctz(0x80) == 7;
  }

  lemma MaskStep(i: nat)
    requires i < 8
    ensures ShiftLeft(Mask(i)) == Mask(i + 1) && And(Mask(i), Mask(i + 1)) == Mask(i + 1)
  {
    hide And;
    MaskPowers(i);
    AndShifted(i, Pow2(8 - i) - 1, Pow2(8 - i) - 2);
    AndAllOnes(8 - i, Pow2(8 - i) - 2);
  }

  lemma MaskPowers(i: nat)
    requires i < 8
    ensures Pow2(8 - i) >= 2
    ensures Mask(i) == Shift(i, Pow2(8 - i) - 1) && Mask(i + 1) == Shift(i, Pow2(8 - i) - 2)
  {
    assert Pow2(1) == 2 && Pow2(2) == 4 && Pow2(3) == 8 && Pow2(4) == 16;
    assert Pow2(5) == 32 && Pow2(6) == 64 && Pow2(7) == 128 && Pow2(8) == 256;
    assert Shift(0, 255) == 0xFF && Shift(1, 127) == 0xFE && Shift(2, 63) == 0xFC && Shift(3, 31) == 0xF8;
    assert Shift(4, 15) == 0xF0 && Shift(5, 7) == 0xE0 && Shift(6, 3) == 0xC0 && Shift(7, 1) == 0x80;
    assert Shift(0, 254) == 0xFE && Shift(1, 126) == 0xFC && Shift(2, 62) == 0xF8 && Shift(3, 30) == 0xF0;
    assert Shift(4, 14) == 0xE0 && Shift(5, 6) == 0xC0 && Shift(6, 2) == 0x80 && Shift(7, 0) == 0x00;
  }

  /** Clearing the next bit with the driver's shift turns a table for pos into one for pos + 1. */
  lemma FatStep(pos: nat, j: nat)
    requires pos < FAT_BITS
    ensures FatByte(pos + 1, j)
         == if j == pos / 8 then And(FatByte(pos, j), ShiftLeft(FatByte(pos, j))) else FatByte(pos, j)
  {
    if j == pos / 8 {
      MaskStep(pos % 8);
    }
  }

  // ---------- one sector ----------

  /** A stored variable: its key, and the values written since the sector was last erased. */
  datatype Var = Var(clave: Clave, log: seq<seq<byte>>)
  {
    /** The number of FAT bits in use. */
    function Pos(): nat
      requires |log| > 0
    {
      |log| - 1
    }

    function Width(): nat
      requires TypeOk(clave.tipo)
    {
      LongParam(clave.tipo)
    }

    /** What leeVariable returns: with every FAT bit used, the scan reports position 0. */
    function Visible(): seq<byte>
      requires |log| > 0
    {
      if Pos() == FAT_BITS then log[0] else log[Pos()]
    }

    ghost predicate Ok()
    {
      && ClaveOk(clave)
      && 1 <= |log| <= FAT_BITS + 1
      && (forall j :: 0 <= j < |log| ==> |log[j]| == Width())
      && SlotsFit(clave.tipo, |log|)
    }
  }

  /** n slots of the type fit behind the header of one sector. */
  predicate SlotsFit(tipo: byte, n: nat)
    requires TypeOk(tipo)
  {
    STARTDAT + n * LongParam(tipo) <= SECTOR_SIZE
  }

  /** Every type but the 50-byte one has room for all 129 slots; that one for 80. */
  lemma SlotsFitExactly(tipo: byte, n: nat)
    requires TypeOk(tipo) && n <= FAT_BITS + 1
    ensures SlotsFit(tipo, n) <==> tipo != VAR50 || n <= 80
  {
    if tipo != VAR50 {
      assert LongParam(tipo) <= 8;
      assert n * LongParam(tipo) <= 129 * 8;
    }
  }

  /** A slot that fits ends before its sector does. */
  lemma SlotInside(sector: nat, tipo: byte, n: nat)
    requires TypeOk(tipo) && SlotsFit(tipo, n + 1)
    ensures SlotAddress(sector, LongParam(tipo), n) + LongParam(tipo) <= Base(sector + 1)
  {
    var w := LongParam(tipo);
    assert (n + 1) * w == n * w + w;
  }

  ghost function Flat(log: seq<seq<byte>>): seq<byte>
  {
    if log == [] then [] else Flat(log[..|log| - 1]) + log[|log| - 1]
  }

  lemma {:induction false} FlatLength(log: seq<seq<byte>>, w: nat)
    requires forall j :: 0 <= j < |log| ==> |log[j]| == w
    ensures |Flat(log)| == |log| * w
  {
    if log == [] {
    } else {
      var n := |log| - 1;
      FlatLength(log[..n], w);
      assert n * w + w == (n + 1) * w;
    }
  }

  lemma {:induction false} FlatSlot(log: seq<seq<byte>>, j: nat)
    requires j < |log|
    ensures Flat(log[..j]) + log[j] <= Flat(log)
  {
    var n := |log| - 1;
    if j == n {
    } else {
      FlatSlot(log[..n], j);
      assert log[..n][..j] == log[..j];
    }
  }

  /** Byte k of the sector that stores v. */
  ghost function SectorByte(v: Var, k: nat): byte
    requires v.Ok() && k < SECTOR_SIZE
  {
    var name := v.clave.nombre;
    if k == 0 then v.clave.tipo
    else if k == 1 then High(v.clave.chk)
    else if k == 2 then Low(v.clave.chk)
    else if k < STARTFAT then
      (if k - 3 < |name| then name[k - 3] else if k - 3 == |name| then 0 else 0xFF)
    else if k < STARTDAT then FatByte(v.Pos(), k - STARTFAT)
    else if k - STARTDAT < |Flat(v.log)| then Flat(v.log)[k - STARTDAT]
    else 0xFF
  }

  ghost predicate IsImage(m: seq<byte>) { |m| == CHIP_SIZE }

  function Base(sector: nat): nat { sector * SECTOR_SIZE }

  ghost predicate Holds(m: seq<byte>, sector: nat, v: Var)
    requires IsImage(m) && sector < SECTORS && v.Ok()
  {
    forall k {:trigger SectorByte(v, k)} :: 0 <= k < SECTOR_SIZE ==> m[Base(sector) + k] == SectorByte(v, k)
  }

  ghost predicate Blank(m: seq<byte>, sector: nat)
    requires IsImage(m) && sector < SECTORS
  {
    Erased(m, Base(sector), SECTOR_SIZE)
  }

  /** Outside the sector nothing differs. */
  ghost predicate OnlySector(m: seq<byte>, m': seq<byte>, sector: nat)
    requires IsImage(m) && IsImage(m') && sector < SECTORS
  {
    forall i :: 0 <= i < CHIP_SIZE && !(Base(sector) <= i < Base(sector) + SECTOR_SIZE) ==> m'[i] == m[i]
  }

  /** The sectors in front of the store are as they were. */
  ghost predicate Protected(m: seq<byte>, m': seq<byte>)
    requires IsImage(m) && IsImage(m')
  {
    m'[..Base(FIRST_SECTOR)] == m[..Base(FIRST_SECTOR)]
  }

  // ---------- the whole store ----------

  ghost predicate DistinctKeys(vars: seq<Var>)
  {
    forall i, j :: 0 <= i < j < |vars| ==> vars[i].clave != vars[j].clave
  }

  ghost predicate VarsOk(vars: seq<Var>)
  {
    |vars| <= MAX_VARS && (forall i :: 0 <= i < |vars| ==> vars[i].Ok()) && DistinctKeys(vars)
  }

  /** The used sectors are a contiguous run from sector 2, one variable each, no key twice, and
      everything behind them is erased. */
  ghost predicate Represents(m: seq<byte>, vars: seq<Var>)
  {
    IsImage(m) && VarsOk(vars) && AllHold(m, vars) && BlankFrom(m, FIRST_SECTOR + |vars|)
  }

  ghost predicate AllHold(m: seq<byte>, vars: seq<Var>)
    requires IsImage(m) && VarsOk(vars)
  {
    forall i :: 0 <= i < |vars| ==> Holds(m, FIRST_SECTOR + i, vars[i])
  }

  ghost predicate BlankFrom(m: seq<byte>, first: nat)
    requires IsImage(m)
  {
    forall s :: first <= s < SECTORS ==> Blank(m, s)
  }

  /** The index of the key's variable, |vars| when there is none. */
  ghost function Find(vars: seq<Var>, c: Clave): (i: nat)
    ensures i <= |vars|
    ensures i < |vars| ==> vars[i].clave == c
    ensures forall j :: 0 <= j < i ==> vars[j].clave != c
  {
    if vars == [] then 0
    else if vars[0].clave == c then 0
    else Find(vars[1..], c) + 1
  }

  lemma FindUnique(vars: seq<Var>, c: Clave, i: nat)
    requires DistinctKeys(vars) && i < |vars| && vars[i].clave == c
    ensures Find(vars, c) == i
  {
  }

  /** The store as the map that its documentation promises: each key to the last value written. */
  ghost function Contents(vars: seq<Var>): map<Clave, seq<byte>>
    requires VarsOk(vars)
  {
    map c | c in (set i | 0 <= i < |vars| :: vars[i].clave) ::
      var v := vars[Find(vars, c)]; v.log[v.Pos()]
  }

  lemma AllHoldFrame(m: seq<byte>, vars: seq<Var>, m': seq<byte>, sector: nat)
    requires IsImage(m) && IsImage(m') && VarsOk(vars) && sector < SECTORS
    requires AllHold(m, vars) && OnlySector(m, m', sector)
    ensures forall i :: 0 <= i < |vars| && FIRST_SECTOR + i != sector ==> Holds(m', FIRST_SECTOR + i, vars[i])
  {
    forall i | 0 <= i < |vars| && FIRST_SECTOR + i != sector ensures Holds(m', FIRST_SECTOR + i, vars[i]) {
      HoldsFrame(m, m', sector, FIRST_SECTOR + i, vars[i]);
    }
  }

  lemma BlankFromFrame(m: seq<byte>, m': seq<byte>, sector: nat, first: nat)
    requires IsImage(m) && IsImage(m') && sector < SECTORS && sector < first
    requires BlankFrom(m, first) && OnlySector(m, m', sector)
    ensures BlankFrom(m', first)
  {
    forall s | first <= s < SECTORS ensures Blank(m', s) {
      BlankFrame(m, m', sector, s);
    }
  }

  /** Changing one variable's sector carries the representation over. */
  lemma RepresentsUpdate(m: seq<byte>, vars: seq<Var>, m': seq<byte>, i: nat, v: Var)
    requires Represents(m, vars) && IsImage(m') && i < |vars|
    requires v.Ok() && v.clave == vars[i].clave
    requires OnlySector(m, m', FIRST_SECTOR + i) && Holds(m', FIRST_SECTOR + i, v)
    ensures Represents(m', vars[i := v])
  {
    AllHoldFrame(m, vars, m', FIRST_SECTOR + i);
    BlankFromFrame(m, m', FIRST_SECTOR + i, FIRST_SECTOR + |vars|);
  }

  /** So does storing a new variable in the first blank sector. */
  lemma RepresentsAppend(m: seq<byte>, vars: seq<Var>, m': seq<byte>, v: Var)
    requires Represents(m, vars) && IsImage(m') && |vars| < MAX_VARS
    requires v.Ok() && Find(vars, v.clave) == |vars|
    requires OnlySector(m, m', FIRST_SECTOR + |vars|) && Holds(m', FIRST_SECTOR + |vars|, v)
    ensures Represents(m', vars + [v])
  {
    hide SectorByte, Find;
    VarsOkAppend(vars, v);
    assert AllHold(m', vars + [v]) by {
      AllHoldFrame(m, vars, m', FIRST_SECTOR + |vars|);
    }
    assert BlankFrom(m, FIRST_SECTOR + |vars| + 1);
    BlankFromFrame(m, m', FIRST_SECTOR + |vars|, FIRST_SECTOR + |vars| + 1);
  }

  lemma VarsOkAppend(vars: seq<Var>, v: Var)
    requires VarsOk(vars) && |vars| < MAX_VARS && v.Ok() && Find(vars, v.clave) == |vars|
    ensures VarsOk(vars + [v])
  {
    var vars' := vars + [v];
    forall i, j | 0 <= i < j < |vars'| ensures vars'[i].clave != vars'[j].clave {
      assert vars'[i] == vars[i];
    }
  }

  lemma HoldsFrame(m: seq<byte>, m': seq<byte>, s: nat, t: nat, v: Var)
    requires IsImage(m) && IsImage(m') && s < SECTORS && t < SECTORS && s != t && v.Ok()
    requires OnlySector(m, m', s) && Holds(m, t, v)
    ensures Holds(m', t, v)
  {
    forall k | 0 <= k < SECTOR_SIZE ensures m'[Base(t) + k] == SectorByte(v, k) {
      assert m'[Base(t) + k] == m[Base(t) + k];
    }
  }

  lemma BlankFrame(m: seq<byte>, m': seq<byte>, s: nat, t: nat)
    requires IsImage(m) && IsImage(m') && s < SECTORS && t < SECTORS && s != t
    requires OnlySector(m, m', s) && Blank(m, t)
    ensures Blank(m', t)
  {
  }

  /** A sector that stores a variable is not blank, and its type byte says so. */
  lemma HeaderRead(m: seq<byte>, sector: nat, v: Var)
    requires IsImage(m) && sector < SECTORS && v.Ok() && Holds(m, sector, v)
    ensures m[Base(sector)] == v.clave.tipo != 0xFF
    ensures m[Base(sector) + 1] == High(v.clave.chk) && m[Base(sector) + 2] == Low(v.clave.chk)
  {
    var t0, t1, t2 := SectorByte(v, 0), SectorByte(v, 1), SectorByte(v, 2);
  }

  // ---------- what the driver's steps do to a sector ----------

  /** initVarFlash on a sector: type, checksum, name with its terminator, first slot. */
  function InitImage(m: seq<byte>, sector: nat, c: Clave, value: seq<byte>): (r: seq<byte>)
    requires |m| == CHIP_SIZE && sector < SECTORS && |c.nombre| < LONGNAME && |value| <= 50
    ensures |r| == CHIP_SIZE
  {
    var m1 := ProgramByte(m, Base(sector), c.tipo);
    var m2 := WriteU16Image(m1, 16 * sector, 1, c.chk);
    var m3 := ProgramRange(m2, Base(sector) + 3, c.nombre + [0]);
    ProgramRange(m3, Base(sector) + STARTDAT, value)
  }

  lemma InitHolds(m: seq<byte>, sector: nat, c: Clave, value: seq<byte>)
    requires IsImage(m) && sector < SECTORS && Blank(m, sector)
    requires ClaveOk(c) && |value| == LongParam(c.tipo)
    ensures Var(c, [value]).Ok()
    ensures Holds(InitImage(m, sector, c, value), sector, Var(c, [value]))
    ensures OnlySector(m, InitImage(m, sector, c, value), sector)
  {
    var b, v := Base(sector), Var(c, [value]);
    SlotsFitExactly(c.tipo, 1);
    FlatOne(value);
    InitStores(m, sector, c, value);
    var m4 := InitImage(m, sector, c, value);
    forall k | 0 <= k < SECTOR_SIZE ensures m4[b + k] == SectorByte(v, k) {
      InitByte(m, sector, c, value, k);
    }
  }

  lemma InitByte(m: seq<byte>, sector: nat, c: Clave, value: seq<byte>, k: nat)
    requires IsImage(m) && sector < SECTORS && Blank(m, sector) && k < SECTOR_SIZE
    requires Var(c, [value]).Ok() && |value| <= 50 && Flat([value]) == value
    requires InitImage(m, sector, c, value)
         == Overwrite(Overwrite(m[Base(sector) := c.tipo][Base(sector) + 1 := High(c.chk)]
                                [Base(sector) + 2 := Low(c.chk)],
                                Base(sector) + 3, c.nombre + [0]),
                      Base(sector) + STARTDAT, value)
    ensures InitImage(m, sector, c, value)[Base(sector) + k] == SectorByte(Var(c, [value]), k)
  {
    hide And, ProgramRange, InitImage, High, Low;
    assert m[Base(sector) + k] == 0xFF;
  }

  lemma FlatOne(value: seq<byte>)
    ensures Flat([value]) == value
  {
    assert [value][..0] == [];
  }

  lemma InitStores(m: seq<byte>, sector: nat, c: Clave, value: seq<byte>)
    requires IsImage(m) && sector < SECTORS && Blank(m, sector) && |c.nombre| < LONGNAME && |value| <= 50
    ensures InitImage(m, sector, c, value)
         == Overwrite(Overwrite(m[Base(sector) := c.tipo][Base(sector) + 1 := High(c.chk)]
                                [Base(sector) + 2 := Low(c.chk)],
                                Base(sector) + 3, c.nombre + [0]),
                      Base(sector) + STARTDAT, value)
  {
    hide And;
    var b := Base(sector);
    ProgramErasedByte(m, b, c.tipo);
    var m1: seq<byte> := m[b := c.tipo];
    TwoByteWrite(m1, sector, c.chk);
    var m2: seq<byte> := m1[b + 1 := High(c.chk)][b + 2 := Low(c.chk)];
    ProgramErasedStores(m2, b + 3, c.nombre + [0]);
    ProgramErasedStores(Overwrite(m2, b + 3, c.nombre + [0]), b + STARTDAT, value);
  }

  lemma TwoByteWrite(m: seq<byte>, sector: nat, v: u16)
    requires IsImage(m) && sector < SECTORS
    requires m[Base(sector) + 1] == 0xFF && m[Base(sector) + 2] == 0xFF
    ensures WriteU16Image(m, 16 * sector, 1, v) == m[Base(sector) + 1 := High(v)][Base(sector) + 2 := Low(v)]
  {
    hide And;
    ProgramErasedByte(m, Base(sector) + 1, High(v));
    ProgramErasedByte(m[Base(sector) + 1 := High(v)], Base(sector) + 2, Low(v));
  }

  /** Clearing the FAT bit and programming the next slot at offset `data`. */
  function AppendImage(m: seq<byte>, sector: nat, pos: nat, data: nat, value: seq<byte>): (r: seq<byte>)
    requires |m| == CHIP_SIZE && sector < SECTORS && pos < FAT_BITS
    requires data + |value| <= CHIP_SIZE
    ensures |r| == CHIP_SIZE
  {
    var a := Base(sector) + STARTFAT + pos / 8;
    ProgramRange(ProgramByte(m, a, ShiftLeft(m[a])), data, value)
  }

  /** The address the driver computes for slot j. */
  function SlotAddress(sector: nat, w: nat, j: nat): nat { Base(sector) + STARTDAT + j * w }

  lemma AppendHolds(m: seq<byte>, sector: nat, v: Var, value: seq<byte>)
    requires IsImage(m) && sector < SECTORS && v.Ok() && Holds(m, sector, v)
    requires v.Pos() < FAT_BITS && |value| == v.Width() && SlotsFit(v.clave.tipo, |v.log| + 1)
    ensures v.(log := v.log + [value]).Ok()
    ensures SlotAddress(sector, |value|, v.Pos() + 1) + |value| <= Base(sector) + SECTOR_SIZE
    ensures var m' := AppendImage(m, sector, v.Pos(), SlotAddress(sector, |value|, v.Pos() + 1), value);
            Holds(m', sector, v.(log := v.log + [value])) && OnlySector(m, m', sector)
  {
    hide And, ProgramRange, SectorByte;
    FlatLength(v.log, |value|);
    assert (|v.log| + 1) * |value| == |v.log| * |value| + |value|;
    AppendAt(m, sector, v, value, |Flat(v.log)|);
  }

  lemma AppendAt(m: seq<byte>, sector: nat, v: Var, value: seq<byte>, n: nat)
    requires IsImage(m) && sector < SECTORS && v.Ok() && Holds(m, sector, v)
    requires v.Pos() < FAT_BITS && n == |Flat(v.log)| && STARTDAT + n + |value| <= SECTOR_SIZE
    requires v.(log := v.log + [value]).Ok()
    ensures var m' := AppendImage(m, sector, v.Pos(), Base(sector) + STARTDAT + n, value);
            Holds(m', sector, v.(log := v.log + [value])) && OnlySector(m, m', sector)
  {
    hide And, Checksum, FatByte;
    var b, v', pos := Base(sector), v.(log := v.log + [value]), v.Pos();
    var a, d := b + STARTFAT + pos / 8, b + STARTDAT + n;
    AppendFat(m, sector, v);
    var m1: seq<byte> := m[a := FatByte(pos + 1, pos / 8)];
    forall i | d <= i < d + |value| ensures m1[i] == 0xFF {
      assert m[b + (i - b)] == SectorByte(v, i - b);
    }
    ProgramErasedStores(m1, d, value);
    var m2 := Overwrite(m1, d, value);
    forall k | 0 <= k < SECTOR_SIZE ensures m2[b + k] == SectorByte(v', k) {
      assert m[b + k] == SectorByte(v, k);
      AppendByte(m[b + k], v, value, k);
    }
  }

  /** Byte k of the sector before and after one more slot. */
  lemma AppendByte(x: byte, v: Var, value: seq<byte>, k: nat)
    requires v.Ok() && v.Pos() < FAT_BITS && v.(log := v.log + [value]).Ok() && k < SECTOR_SIZE
    requires x == SectorByte(v, k)
    ensures var n, pos := |Flat(v.log)|, v.Pos();
      SectorByte(v.(log := v.log + [value]), k)
      == if STARTDAT + n <= k < STARTDAT + n + |value| then value[k - STARTDAT - n]
         else if k == STARTFAT + pos / 8 then FatByte(pos + 1, pos / 8)
         else x
  {
    hide And, Checksum;
    assert Flat(v.log + [value]) == Flat(v.log) + value by { assert (v.log + [value])[..|v.log|] == v.log; }
    if STARTFAT <= k < STARTDAT {
      FatStep(v.Pos(), k - STARTFAT);
    }
  }

  lemma AppendFat(m: seq<byte>, sector: nat, v: Var)
    requires IsImage(m) && sector < SECTORS && v.Ok() && Holds(m, sector, v) && v.Pos() < FAT_BITS
    ensures var a := Base(sector) + STARTFAT + v.Pos() / 8;
            ProgramByte(m, a, ShiftLeft(m[a])) == m[a := FatByte(v.Pos() + 1, v.Pos() / 8)]
  {
    hide And, Checksum;
    var k := STARTFAT + v.Pos() / 8;
    assert m[Base(sector) + k] == SectorByte(v, k);
    FatStep(v.Pos(), v.Pos() / 8);
  }

  /** The slot that a read at position j reaches. */
  lemma SlotRead(m: seq<byte>, sector: nat, v: Var, j: nat)
    requires IsImage(m) && sector < SECTORS && v.Ok() && Holds(m, sector, v) && j < |v.log|
    ensures SlotAddress(sector, v.Width(), j) + v.Width() <= Base(sector) + SECTOR_SIZE
    ensures m[SlotAddress(sector, v.Width(), j)..SlotAddress(sector, v.Width(), j) + v.Width()] == v.log[j]
  {
    FlatLength(v.log[..j], v.Width());
    FlatLength(v.log, v.Width());
    FlatSlot(v.log, j);
    SlotReadAt(m, sector, v, j, |Flat(v.log[..j])|);
  }

  lemma SlotReadAt(m: seq<byte>, sector: nat, v: Var, j: nat, n: nat)
    requires IsImage(m) && sector < SECTORS && v.Ok() && Holds(m, sector, v) && j < |v.log|
    requires n == |Flat(v.log[..j])| && Flat(v.log[..j]) + v.log[j] <= Flat(v.log)
    requires STARTDAT + |Flat(v.log)| <= SECTOR_SIZE
    ensures m[Base(sector) + STARTDAT + n..Base(sector) + STARTDAT + n + |v.log[j]|] == v.log[j]
  {
    var a, slot := Base(sector) + STARTDAT + n, v.log[j];
    forall i | 0 <= i < |slot| ensures m[a + i] == slot[i] {
      assert m[Base(sector) + (STARTDAT + n + i)] == SectorByte(v, STARTDAT + n + i);
      assert (Flat(v.log[..j]) + slot)[n + i] == slot[i];
    }
  }

  // ---------- slots that do not fit ----------

  ghost function SectorBytes(m: seq<byte>, sector: nat): (r: seq<byte>)
    requires IsImage(m) && sector < SECTORS
    ensures |r| == SECTOR_SIZE
  {
    m[Base(sector)..Base(sector) + SECTOR_SIZE]
  }

  /** Where slot j of a 50-byte variable starts, counted from the end of its sector. */
  function Beyond(j: nat): int { STARTDAT + 50 * j - SECTOR_SIZE }

  /** Slot 80 of a 50-byte variable runs over its sector's end, and slots 81 to 128 lie inside the next
      sector. */
  lemma SlotsBeyond(sector: nat, j: nat)
    requires 80 <= j <= FAT_BITS
    ensures SlotAddress(sector, 50, j) == Base(sector + 1) + Beyond(j)
    ensures Beyond(80) == -45
    ensures j > 80 ==> 0 <= Beyond(j) && Beyond(j) + 50 <= SECTOR_SIZE
  {
  }

  /** What such a write does, on any contents: the value is ANDed into the next sector, less what of it
      still falls into its own, and no third sector changes. */
  lemma OverrunImage(m: seq<byte>, sector: nat, pos: nat, value: seq<byte>)
    requires IsImage(m) && sector + 1 < SECTORS && 79 <= pos < FAT_BITS && |value| == 50
    ensures SlotAddress(sector, 50, pos + 1) + 50 <= CHIP_SIZE
    ensures var m' := AppendImage(m, sector, pos, SlotAddress(sector, 50, pos + 1), value);
            var n, n', d := SectorBytes(m, sector + 1), SectorBytes(m', sector + 1), Beyond(pos + 1);
            && (forall k :: 0 <= k < SECTOR_SIZE ==>
                 n'[k] == if d <= k < d + 50 then And(n[k], value[k - d]) else n[k])
            && (forall s :: 0 <= s < SECTORS && s != sector && s != sector + 1 ==>
                 SectorBytes(m', s) == SectorBytes(m, s))
  {
    hide And;
    SlotsBeyond(sector, pos + 1);
    var m' := AppendImage(m, sector, pos, SlotAddress(sector, 50, pos + 1), value);
    forall s | 0 <= s < SECTORS && s != sector && s != sector + 1 ensures SectorBytes(m', s) == SectorBytes(m, s) {
      OverrunElsewhere(m, sector, pos, value, s);
    }
  }

  lemma OverrunElsewhere(m: seq<byte>, sector: nat, pos: nat, value: seq<byte>, s: nat)
    requires IsImage(m) && sector + 1 < SECTORS && 79 <= pos < FAT_BITS && |value| == 50
    requires SlotAddress(sector, 50, pos + 1) + 50 <= CHIP_SIZE
    requires s < SECTORS && s != sector && s != sector + 1
    ensures var m' := AppendImage(m, sector, pos, SlotAddress(sector, 50, pos + 1), value);
            SectorBytes(m', s) == SectorBytes(m, s)
  {
    hide And;
    SlotsBeyond(sector, pos + 1);
    var m' := AppendImage(m, sector, pos, SlotAddress(sector, 50, pos + 1), value);
    var n, n' := SectorBytes(m, s), SectorBytes(m', s);
    forall k | 0 <= k < SECTOR_SIZE ensures n'[k] == n[k] {
      assert s < sector || s > sector + 1;
      assert m'[Base(s) + k] == m[Base(s) + k];
    }
  }

  /** So slot 80 ANDs the value's last five bytes into the first five of the next sector. */
  lemma SpillHitsNextSector(m: seq<byte>, sector: nat, v: Var, value: seq<byte>)
    requires IsImage(m) && sector + 1 < SECTORS && v.Ok() && Holds(m, sector, v)
    requires v.clave.tipo == VAR50 && |v.log| == 80 && |value| == 50
    ensures SlotAddress(sector, 50, 80) + 50 == Base(sector + 1) + 5
    ensures var m' := AppendImage(m, sector, v.Pos(), SlotAddress(sector, 50, 80), value);
            var n, n' := SectorBytes(m, sector + 1), SectorBytes(m', sector + 1);
            forall k :: 0 <= k < SECTOR_SIZE ==> n'[k] == if k < 5 then And(n[k], value[45 + k]) else n[k]
  {
    hide And, AppendImage, SectorBytes;
    SlotsBeyond(sector, 80);
    OverrunImage(m, sector, 79, value);
  }

  /** A blank next sector is left with those five bytes as its header: it stays blank exactly when they
      are all 0xFF, and counts as used exactly when the first of them is not. */
  lemma SpillIntoBlank(m: seq<byte>, sector: nat, v: Var, value: seq<byte>)
    requires IsImage(m) && sector + 1 < SECTORS && v.Ok() && Holds(m, sector, v)
    requires v.clave.tipo == VAR50 && |v.log| == 80 && |value| == 50 && Blank(m, sector + 1)
    ensures var m' := AppendImage(m, sector, v.Pos(), SlotAddress(sector, 50, 80), value);
            var n' := SectorBytes(m', sector + 1);
            && (forall k :: 0 <= k < SECTOR_SIZE ==> n'[k] == if k < 5 then value[45 + k] else 0xFF)
            && (Blank(m', sector + 1) <==> forall k :: 45 <= k < 50 ==> value[k] == 0xFF)
            && m'[Base(sector + 1)] == value[45]
  {
    hide And, AppendImage;
    SpillHitsNextSector(m, sector, v, value);
    var m' := AppendImage(m, sector, v.Pos(), SlotAddress(sector, 50, 80), value);
    var n' := SectorBytes(m', sector + 1);
    forall k | 0 <= k < SECTOR_SIZE ensures n'[k] == if k < 5 then value[45 + k] else 0xFF {
      assert SectorBytes(m, sector + 1)[k] == 0xFF;
      if k < 5 {
        AndErased(value[45 + k]);
      }
    }
    forall k | 45 <= k < 50 ensures n'[k - 45] == value[k] {
    }
    assert m'[Base(sector + 1)] == n'[0];
    if forall k :: 45 <= k < 50 ==> value[k] == 0xFF {
      forall i | Base(sector + 1) <= i < Base(sector + 1) + SECTOR_SIZE ensures m'[i] == 0xFF {
        assert n'[i - Base(sector + 1)] == 0xFF;
      }
    } else {
      var k :| 45 <= k < 50 && value[k] != 0xFF;
      assert m'[Base(sector + 1) + (k - 45)] == n'[k - 45] != 0xFF;
    }
  }

  /** So the next sector's variable survives that write iff the AND changes none of its header bytes. */
  lemma SpillKeepsNeighbour(m: seq<byte>, sector: nat, v: Var, value: seq<byte>, u: Var)
    requires IsImage(m) && sector + 1 < SECTORS && v.Ok() && Holds(m, sector, v)
    requires v.clave.tipo == VAR50 && |v.log| == 80 && |value| == 50
    requires u.Ok() && Holds(m, sector + 1, u)
    ensures var m' := AppendImage(m, sector, v.Pos(), SlotAddress(sector, 50, 80), value);
            Holds(m', sector + 1, u)
            <==> forall k :: 0 <= k < 5 ==> And(SectorByte(u, k), value[45 + k]) == SectorByte(u, k)
  {
    hide And;
    SpillHitsNextSector(m, sector, v, value);
    var m' := AppendImage(m, sector, v.Pos(), SlotAddress(sector, 50, 80), value);
    forall k | 0 <= k < SECTOR_SIZE
      ensures m'[Base(sector + 1) + k] == if k < 5 then And(SectorByte(u, k), value[45 + k]) else SectorByte(u, k)
    {
      assert m[Base(sector + 1) + k] == SectorByte(u, k) == SectorBytes(m, sector + 1)[k];
      assert m'[Base(sector + 1) + k] == SectorBytes(m', sector + 1)[k];
    }
  }

  /** A short text in a 50-byte variable ends in zero bytes: its 81st slot destroys the neighbour. */
  lemma SpillDestroysNeighbour(m: seq<byte>, sector: nat, v: Var, value: seq<byte>, u: Var)
    requires IsImage(m) && sector + 1 < SECTORS && v.Ok() && Holds(m, sector, v)
    requires v.clave.tipo == VAR50 && |v.log| == 80 && |value| == 50 && value[45] == 0
    requires u.Ok() && Holds(m, sector + 1, u) && u.clave.tipo != 0
    ensures var m' := AppendImage(m, sector, v.Pos(), SlotAddress(sector, 50, 80), value);
            m'[Base(sector + 1)] == 0 && !Holds(m', sector + 1, u)
  {
    SpillHitsNextSector(m, sector, v, value);
    assert m[Base(sector + 1) + 0] == SectorByte(u, 0) == u.clave.tipo;
    var m' := AppendImage(m, sector, v.Pos(), SlotAddress(sector, 50, 80), value);
    assert m'[Base(sector + 1) + 0] == SectorBytes(m', sector + 1)[0] == 0;
    assert SectorByte(u, 0) != 0;
  }
}
