/** The eleven settings kept in sector 0 of the flash, and the three mutually recursive procedures
    that load, reset and save them. */
module Config {
  import opened Bytes
  import opened Flash

  const CLAVE: u16 := 0x7851

  /** A 16-bit field: where it is in page 0, and its value. */
  datatype Field = Field(pos: byte, value: u16)

  // ---------- fields on erased pages ----------

  function Put(m: seq<byte>, f: Field): (r: seq<byte>)
    requires |m| == CHIP_SIZE && f.pos < 255
    ensures |r| == CHIP_SIZE
  {
    m[f.pos := High(f.value)][f.pos + 1 := Low(f.value)]
  }

  ghost predicate Disjoint(fields: seq<Field>)
  {
    (forall i :: 0 <= i < |fields| ==> fields[i].pos < 255)
    && forall i, j :: 0 <= i < j < |fields| ==>
      fields[i].pos + 2 <= fields[j].pos || fields[j].pos + 2 <= fields[i].pos
  }

  function PutAll(m: seq<byte>, fields: seq<Field>): (r: seq<byte>)
    requires |m| == CHIP_SIZE && forall i :: 0 <= i < |fields| ==> fields[i].pos < 255
    ensures |r| == CHIP_SIZE
  {
    if fields == [] then m else Put(PutAll(m, fields[..|fields| - 1]), fields[|fields| - 1])
  }

  /** A byte that no field covers keeps its value. */
  lemma {:induction false} PutAllElsewhere(m: seq<byte>, fields: seq<Field>, a: nat)
    requires |m| == CHIP_SIZE && Disjoint(fields) && a < CHIP_SIZE
    requires forall i :: 0 <= i < |fields| ==> a < fields[i].pos || fields[i].pos + 2 <= a
    ensures PutAll(m, fields)[a] == m[a]
  {
    if fields == [] {
    } else {
      PutAllElsewhere(m, fields[..|fields| - 1], a);
    }
  }

  /** Every field reads back, whatever was stored after it. */
  lemma {:induction false} PutAllReads(m: seq<byte>, fields: seq<Field>, i: nat)
    requires |m| == CHIP_SIZE && Disjoint(fields) && i < |fields|
    ensures ReadU16Image(PutAll(m, fields), 0, fields[i].pos) == fields[i].value
  {
    var n := |fields| - 1;
    if i == n {
      PairHalves(fields[n].value);
    } else {
      PutAllReads(m, fields[..n], i);
    }
  }

  /** Programming the next field after the earlier ones, on a page that was erased. */
  lemma PutStep(m: seq<byte>, fields: seq<Field>, k: nat)
    requires |m| == CHIP_SIZE && Disjoint(fields) && k < |fields| && Erased(m, 0, 256)
    ensures WriteU16Image(PutAll(m, fields[..k]), 0, fields[k].pos, fields[k].value) == PutAll(m, fields[..k + 1])
  {
    hide And, PutAll;
    var m1, a := PutAll(m, fields[..k]), fields[k].pos;
    PutAllElsewhere(m, fields[..k], a);
    PutAllElsewhere(m, fields[..k], a + 1);
    ProgramErasedByte(m1, a, High(fields[k].value));
    ProgramErasedByte(m1[a := High(fields[k].value)], a + 1, Low(fields[k].value));
    PutAllSnoc(m, fields, k);
  }

  lemma PutAllSnoc(m: seq<byte>, fields: seq<Field>, k: nat)
    requires |m| == CHIP_SIZE && Disjoint(fields) && k < |fields|
    ensures PutAll(m, fields[..k + 1]) == Put(PutAll(m, fields[..k]), fields[k])
  {
    assert fields[..k + 1][..k] == fields[..k];
  }

  // ---------- the settings ----------

  /** The settings as the flash layout orders them. */
  datatype Settings = Settings(
    modoRadio: u16, sBeacon: u16,
    idLlamador: u16, dsMaxLlamador: u16, dsMinLlamador: u16,
    bloqueoAbusones: u16, avisaAbuso: u16, tiempoAbuso: u16, dsMaxPozo: u16, dsMinPozo: u16,
    idVacon: u16)

  /** What one save programs, in order: the eleven settings, and last the key that marks them valid. */
  function Fields(s: Settings): seq<Field>
  {
    [Field(2, s.modoRadio), Field(4, s.sBeacon),
     Field(10, s.idLlamador), Field(12, s.dsMaxLlamador), Field(14, s.dsMinLlamador),
     Field(20, s.bloqueoAbusones), Field(22, s.avisaAbuso), Field(24, s.tiempoAbuso),
     Field(26, s.dsMaxPozo), Field(28, s.dsMinPozo), Field(30, s.idVacon), Field(0, CLAVE)]
  }

  lemma FieldsDisjoint(s: Settings)
    ensures Disjoint(Fields(s))
  {
  }

  /** What a load decodes. */
  function Decode(m: seq<byte>): Settings
    requires |m| == CHIP_SIZE
  {
    Settings(ReadU16Image(m, 0, 2), ReadU16Image(m, 0, 4),
             ReadU16Image(m, 0, 10), ReadU16Image(m, 0, 12), ReadU16Image(m, 0, 14),
             ReadU16Image(m, 0, 20), ReadU16Image(m, 0, 22), ReadU16Image(m, 0, 24),
             ReadU16Image(m, 0, 26), ReadU16Image(m, 0, 28), ReadU16Image(m, 0, 30))
  }

  predicate KeyStored(m: seq<byte>)
    requires |m| == CHIP_SIZE
  {
    ReadU16Image(m, 0, 0) == CLAVE
  }

  ghost function SavedImage(m: seq<byte>, s: Settings): (r: seq<byte>)
    requires |m| == CHIP_SIZE
    ensures |r| == CHIP_SIZE
  {
    PutAll(EraseSector(m, 0), Fields(s))
  }

  /** A save leaves the key and exactly the settings, and no trace outside sector 0. */
  lemma SavedDecodes(m: seq<byte>, s: Settings)
    requires |m| == CHIP_SIZE
    ensures KeyStored(SavedImage(m, s)) && Decode(SavedImage(m, s)) == s
    ensures forall a :: SECTOR_SIZE <= a < CHIP_SIZE ==> SavedImage(m, s)[a] == m[a]
  {
    hide PutAll, ReadU16Image;
    var m1, f := EraseSector(m, 0), Fields(s);
    FieldsDisjoint(s);
    forall i | 0 <= i < |f| ensures ReadU16Image(SavedImage(m, s), 0, f[i].pos) == f[i].value {
      PutAllReads(m1, f, i);
    }
    assert f[0].pos == 2 && f[1].pos == 4 && f[2].pos == 10 && f[3].pos == 12 && f[4].pos == 14 && f[5].pos == 20;
    assert f[6].pos == 22 && f[7].pos == 24 && f[8].pos == 26 && f[9].pos == 28 && f[10].pos == 30 && f[11].pos == 0;
    forall a | SECTOR_SIZE <= a < CHIP_SIZE ensures SavedImage(m, s)[a] == m[a] {
      PutAllElsewhere(m1, f, a);
    }
  }

  /** Saving the same settings twice, or saving after a wipe, is saving once. */
  lemma SavedAgain(m: seq<byte>, s: Settings)
    requires |m| == CHIP_SIZE
    ensures SavedImage(EraseSector(m, 0), s) == SavedImage(m, s)
  {
    assert EraseSector(EraseSector(m, 0), 0) == EraseSector(m, 0);
  }

  /** How a load ends: with the low byte of the chip's identity, 0 without a chip; or in a command to a driver
      that has been stopped, where the kernel's assertions halt the firmware. */
  datatype Carga = Leido(hay: byte) | DriverParado

  /** The layout of the first page, byte by byte: each field high byte first, and nothing else. */
  lemma SavedLayout(m: seq<byte>, s: Settings)
    requires |m| == CHIP_SIZE
    ensures var r := SavedImage(m, s);
            && ReadU16Image(r, 0, 0) == 0x7851
            && ReadU16Image(r, 0, 2) == s.modoRadio && ReadU16Image(r, 0, 4) == s.sBeacon
            && ReadU16Image(r, 0, 10) == s.idLlamador && ReadU16Image(r, 0, 12) == s.dsMaxLlamador
            && ReadU16Image(r, 0, 14) == s.dsMinLlamador && ReadU16Image(r, 0, 20) == s.bloqueoAbusones
            && ReadU16Image(r, 0, 22) == s.avisaAbuso && ReadU16Image(r, 0, 24) == s.tiempoAbuso
            && ReadU16Image(r, 0, 26) == s.dsMaxPozo && ReadU16Image(r, 0, 28) == s.dsMinPozo
            && ReadU16Image(r, 0, 30) == s.idVacon
  {
    hide SavedImage, ReadU16Image;
    SavedDecodes(m, s);
  }

  class Variables {
    const chip: W25Q16
    var modoRadio: u16
    var sBeacon: u16
    var idLlamador: u16
    var dsMaxEntreMsgsLlamador: u16
    var dsMinEntreMsgsLlamador: u16
    var bloqueoAbusones: u16
    var avisaAbuso: u16
    var tiempoAbuso: u16
    var dsMaxEntreMsgsPozo: u16
    var dsMinEntreMsgsPozo: u16
    var idVacon: u16

    constructor (chip: W25Q16)
      requires chip.Quiet()
      ensures this.chip == chip && Current() == Settings(0, 0, 0, 0, 0, 0, 0, 0, 0, 0, 0)
    {
      this.chip := chip;
      modoRadio, sBeacon, idLlamador, dsMaxEntreMsgsLlamador, dsMinEntreMsgsLlamador := 0, 0, 0, 0, 0;
      bloqueoAbusones, avisaAbuso, tiempoAbuso, dsMaxEntreMsgsPozo, dsMinEntreMsgsPozo := 0, 0, 0, 0, 0;
      idVacon := 0;
    }

    function Current(): Settings
      reads this
    {
      Settings(modoRadio, sBeacon, idLlamador, dsMaxEntreMsgsLlamador, dsMinEntreMsgsLlamador,
               bloqueoAbusones, avisaAbuso, tiempoAbuso, dsMaxEntreMsgsPozo, dsMinEntreMsgsPozo, idVacon)
    }

    /** Loads the settings; without a chip the defaults are used.  A chip without the key is first
        initialised with the values in memory, but the procedures that do it stop the driver behind them, so
        that the reads of this load find it stopped.  They find it running exactly when the key is stored. */
    method LeeVariables() returns (r: Carga)
      requires chip.Quiet()
      modifies this, chip`started, chip`command, chip`wear, chip.mem
      ensures chip.Quiet() && !chip.started
      ensures r.DriverParado? <==> chip.Present() && !KeyStored(old(chip.mem[..]))
      ensures chip.Present() && KeyStored(old(chip.mem[..])) ==>
        r == Leido(Low(chip.id)) && Current() == Decode(old(chip.mem[..])) && chip.mem[..] == old(chip.mem[..])
      ensures chip.Present() && !KeyStored(old(chip.mem[..])) ==>
        && chip.mem[..] == SavedImage(old(chip.mem[..]), old(Current()))
        && Current() == old(Current()) == Decode(chip.mem[..])
      ensures !chip.Present() ==>
        r == Leido(0) && Current() == Settings(1, 500, 6, 600, 20, 1, 1, 600, 600, 20, 1)
        && chip.mem[..] == old(chip.mem[..])
      decreases if chip.Present() && !KeyStored(chip.mem[..]) then 3 else 0
    {
      hide SavedImage, ReadU16Image, PutAll, And, EraseSector;
      var hay := chip.Start();
      if hay != 0 {
        var clave := chip.ReadU16(0, 0);
        if clave != CLAVE {
          var _ := ReseteaEeprom();
          SavedDecodes(old(chip.mem[..]), old(Current()));
        }
        if !chip.started {
          return DriverParado; // the first of the reads
        }
        CargaDeFlash();
      } else {
        modoRadio, sBeacon := 1, 500;
        idLlamador, dsMaxEntreMsgsLlamador, dsMinEntreMsgsLlamador := 6, 600, 20;
        bloqueoAbusones, avisaAbuso, tiempoAbuso := 1, 1, 600;
        dsMaxEntreMsgsPozo, dsMinEntreMsgsPozo := 600, 20;
        idVacon := 1;
      }
      chip.Stop();
      r := Leido(Low(hay));
    }

    /** Erases and saves; its caller must have started the driver, and finds it stopped. */
    method ReseteaEeprom() returns (error: u16)
      requires chip.Ready() && chip.Present()
      modifies this, chip`started, chip`command, chip`wear, chip.mem
      ensures chip.Quiet() && !chip.started && error == 0 && Current() == old(Current())
      ensures chip.mem[..] == SavedImage(old(chip.mem[..]), old(Current()))
      decreases 2
    {
      error := 0;
      SavedAgain(chip.mem[..], Current());
      chip.SectorErase(0);
      EscribeVariables();
    }

    /** The eleven reads of a load. */
    method CargaDeFlash()
      requires chip.Ready()
      modifies this, chip`command, chip.mem
      ensures chip.Ready() && chip.mem[..] == old(chip.mem[..]) && Current() == Decode(chip.mem[..])
    {
      hide ReadU16Image;
      CargaLlamador();
      CargaPozo();
    }

    method CargaLlamador()
      requires chip.Ready()
      modifies this`modoRadio, this`sBeacon
      modifies this`idLlamador, this`dsMaxEntreMsgsLlamador, this`dsMinEntreMsgsLlamador
      modifies chip`command, chip.mem
      ensures chip.Ready() && chip.mem[..] == old(chip.mem[..])
      ensures var s := Decode(chip.mem[..]);
              modoRadio == s.modoRadio && sBeacon == s.sBeacon && idLlamador == s.idLlamador
              && dsMaxEntreMsgsLlamador == s.dsMaxLlamador && dsMinEntreMsgsLlamador == s.dsMinLlamador
    {
      hide ReadU16Image;
      modoRadio := chip.ReadU16(0, 2);
      sBeacon := chip.ReadU16(0, 4);
      idLlamador := chip.ReadU16(0, 10);
      dsMaxEntreMsgsLlamador := chip.ReadU16(0, 12);
      dsMinEntreMsgsLlamador := chip.ReadU16(0, 14);
    }

    method CargaPozo()
      requires chip.Ready()
      modifies this`bloqueoAbusones, this`avisaAbuso, this`tiempoAbuso
      modifies this`dsMaxEntreMsgsPozo, this`dsMinEntreMsgsPozo, this`idVacon
      modifies chip`command, chip.mem
      ensures chip.Ready() && chip.mem[..] == old(chip.mem[..])
      ensures var s := Decode(chip.mem[..]);
              bloqueoAbusones == s.bloqueoAbusones && avisaAbuso == s.avisaAbuso && tiempoAbuso == s.tiempoAbuso
              && dsMaxEntreMsgsPozo == s.dsMaxPozo && dsMinEntreMsgsPozo == s.dsMinPozo && idVacon == s.idVacon
    {
      hide ReadU16Image;
      bloqueoAbusones := chip.ReadU16(0, 20);
      avisaAbuso := chip.ReadU16(0, 22);
      tiempoAbuso := chip.ReadU16(0, 24);
      dsMaxEntreMsgsPozo := chip.ReadU16(0, 26);
      dsMinEntreMsgsPozo := chip.ReadU16(0, 28);
      idVacon := chip.ReadU16(0, 30);
    }

    /** The twelve writes of a save, on the erased page. */
    method GrabaEnFlash()
      requires chip.Ready() && Erased(chip.mem[..], 0, 256)
      modifies chip`command, chip.mem
      ensures chip.Ready() && chip.mem[..] == PutAll(old(chip.mem[..]), Fields(Current()))
    {
      hide PutAll, WriteU16Image;
      ghost var f, m := Fields(Current()), chip.mem[..];
      FieldsDisjoint(Current());
      PutNone(m, f);
      PutStep(m, f, 0);
      chip.WriteU16(0, 2, modoRadio);
      PutStep(m, f, 1);
      chip.WriteU16(0, 4, sBeacon);
      PutStep(m, f, 2);
      chip.WriteU16(0, 10, idLlamador);
      PutStep(m, f, 3);
      chip.WriteU16(0, 12, dsMaxEntreMsgsLlamador);
      PutStep(m, f, 4);
      chip.WriteU16(0, 14, dsMinEntreMsgsLlamador);
      PutStep(m, f, 5);
      chip.WriteU16(0, 20, bloqueoAbusones);
      PutStep(m, f, 6);
      chip.WriteU16(0, 22, avisaAbuso);
      PutStep(m, f, 7);
      chip.WriteU16(0, 24, tiempoAbuso);
      PutStep(m, f, 8);
      chip.WriteU16(0, 26, dsMaxEntreMsgsPozo);
      PutStep(m, f, 9);
      chip.WriteU16(0, 28, dsMinEntreMsgsPozo);
      PutStep(m, f, 10);
      chip.WriteU16(0, 30, idVacon);
      PutStep(m, f, 11);
      chip.WriteU16(0, 0, CLAVE);
      assert f[..12] == f;
    }

    /** Saves the settings and loads them back: with a chip they survive unchanged and are what the
        flash decodes to, with the key stored; without one they fall back to the defaults. */
    method EscribeVariables()
      requires chip.Quiet()
      modifies this, chip`started, chip`command, chip`wear, chip.mem
      ensures chip.Quiet() && !chip.started
      ensures chip.Present() ==>
        Current() == old(Current()) && chip.mem[..] == SavedImage(old(chip.mem[..]), old(Current()))
      ensures !chip.Present() ==>
        Current() == Settings(1, 500, 6, 600, 20, 1, 1, 600, 600, 20, 1) && chip.mem[..] == old(chip.mem[..])
      decreases 1
    {
      hide PutAll, ReadU16Image, WriteU16Image;
      var hay := chip.Start();
      if hay != 0 {
        chip.SectorErase(0);
        GrabaEnFlash();
        SavedDecodes(old(chip.mem[..]), Current());
      }
      chip.Stop();
      var _ := LeeVariables();
    }
  }

  lemma PutNone(m: seq<byte>, fields: seq<Field>)
    requires |m| == CHIP_SIZE && Disjoint(fields)
    ensures PutAll(m, fields[..0]) == m
  {
  }
}
