/** Reading a 16-bit size register of the W5500 over a bus that transfers one byte at a time, while the
    chip keeps changing it. */
module SizeRegister {
  import opened Bytes

  /** The register never shrinks while it is being read: free space grows as data leaves the TX buffer,
      received size as data arrives. */
  ghost predicate Grows(register: nat -> u16)
  {
    forall i, j :: 0 <= i <= j ==> register(i) <= register(j)
  }

  /** What two byte transfers read when the register holds these values. */
  function Reading(first: u16, second: u16): u16 { Pair(High(first), Low(second)) }

  /** Two torn readings that agree are one value the register held: its high byte did not change between
      them, so the low byte read in between belongs to it. */
  lemma EqualReadsHeld(r0: u16, r1: u16, r2: u16, r3: u16)
    requires r0 <= r1 <= r2 <= r3 && Reading(r0, r1) == Reading(r2, r3)
    ensures Reading(r0, r1) == r1
  {
    hide High, Low, Pair;
    HalvesOfPair(High(r0), Low(r1));
    HalvesOfPair(High(r2), Low(r3));
    HighGrows(r0, r1);
    HighGrows(r1, r2);
    PairHalves(r1);
  }

  lemma HighGrows(a: u16, b: u16)
    requires a <= b
    ensures High(a) <= High(b)
  {
  }

  lemma ReadingBounds(r0: u16, r1: u16)
    requires r0 <= r1
    ensures Reading(r0, r1) <= r1
    ensures Reading(r0, r0) == r0
    ensures r0 >= 256 ==> Reading(r0, r1) != 0
  {
  }

  /** A reading of zero after one that was not: the register has passed 256. */
  lemma ZeroAfterMore(r0: u16, r1: u16, r2: u16, r3: u16)
    requires r0 <= r1 <= r2 <= r3 && Reading(r0, r1) != 0 && Reading(r2, r3) == 0
    ensures r3 >= 256
  {
    hide Reading;
    ReadingOfByte(r0, r1);
    ReadingOfByte(r2, r3);
  }

  lemma ReadingOfByte(r0: u16, r1: u16)
    requires r0 <= r1
    ensures r1 < 256 ==> Reading(r0, r1) == r1
  {
  }

  lemma GrowsOn(register: nat -> u16, t: nat)
    requires Grows(register)
    ensures register(t) <= register(t + 1) <= register(t + 2) <= register(t + 3) <= register(t + 4)
  {
  }

  /** A reading of zero: no high byte at the first transfer, no low byte at the second.  The register
      itself need not have been zero at either. */
  predicate ZeroRead(first: u16, second: u16) { Reading(first, second) == 0 }

  /** Only a register that has filled up to a whole multiple of 256 between the two transfers is taken for
      zero without being zero. */
  lemma ZeroReadExactly(first: u16, second: u16)
    requires first <= second
    ensures ZeroRead(first, second) <==> (first == 0 && second == 0) || (first < 256 <= second && second % 256 == 0)
  {
  }

  /** It does happen: 255 bytes waiting, 257 more between the transfers. */
  lemma ZeroReadOfWaiting()
    ensures ZeroRead(255, 512)
  {
  }

  /** getSn_TX_FSR and getSn_RX_RSR: read twice, byte by byte, until both readings agree; a first reading
      of zero is not read again.  It ends for every growing register, a nonzero result is a value the
      register held during the call, no result exceeds the register at the end, and zero is returned
      exactly for a first reading of zero; `end` counts the byte transfers. */
  method ReadSize(register: nat -> u16) returns (size: u16, end: nat)
    requires Grows(register)
    ensures size != 0 ==> exists t :: 0 <= t < end && register(t) == size
    ensures end > 0 && size <= register(end - 1)
    ensures register(end - 1) == register(0) ==> size == register(0)
    ensures size == 0 <==> ZeroRead(register(0), register(1))
  {
    hide Grows, Reading, High, Low, Pair;
    var val: u16, val1: u16, t := 0, 0, 0;
    end := 0;
    while true
      invariant end == t && val <= register(t)
      invariant val != 0 ==> register(t) != 0
      invariant t > 0 ==> register(0) < register(t)
      invariant if t == 0 then val == 0 else !ZeroRead(register(0), register(1))
      invariant t > 0 ==> val != 0 || register(t) >= 256
      decreases 0x1_0000 - register(t)
    {
      GrowsOn(register, t);
      ghost var r0, r1, r2, r3 := register(t), register(t + 1), register(t + 2), register(t + 3);
      ReadingBounds(r0, r1);
      ReadingBounds(r2, r3);
      val1 := Reading(register(t), register(t + 1));
      t := t + 2;
      if val1 != 0 {
        val := Reading(register(t), register(t + 1));
        t := t + 2;
        if val == val1 {
          EqualReadsHeld(r0, r1, r2, r3);
        } else if val == 0 {
          ZeroAfterMore(r0, r1, r2, r3);
        }
      }
      end := t;
      if val == val1 {
        return val, end;
      }
    }
  }
}
