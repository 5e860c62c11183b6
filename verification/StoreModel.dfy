/** The variable store on values: what reading and writing a key does to the list of stored
    variables, and what follows for whole runs. */
module StoreModel {
  import opened Bytes
  import opened Flash
  import opened VarFormat

  // ---------- one operation ----------

  ghost predicate Known(vars: seq<Var>, c: Clave) { Find(vars, c) < |vars| }

  ghost predicate HasPlace(vars: seq<Var>, c: Clave) { Known(vars, c) || |vars| < MAX_VARS }

  ghost predicate ValueOk(c: Clave, value: seq<byte>) { ClaveOk(c) && |value| == LongParam(c.tipo) }

  /** Looking a key up creates it, with the given value, when it is missing. */
  ghost function Ensure(vars: seq<Var>, c: Clave, value: seq<byte>): seq<Var>
  {
    if Known(vars, c) then vars else vars + [Var(c, [value])]
  }

  /** One more write: the log grows until its 129 slots are used, then the sector starts afresh. */
  ghost function Logged(v: Var, value: seq<byte>): Var
  {
    v.(log := if |v.log| == FAT_BITS + 1 then [value] else v.log + [value])
  }

  ghost function Escribe(vars: seq<Var>, c: Clave, value: seq<byte>): seq<Var>
  {
    var vars1 := Ensure(vars, c, value);
    var i := Find(vars1, c);
    if i < |vars1| then vars1[i := Logged(vars1[i], value)] else vars1
  }

  /** Whether this write has to erase the key's sector first. */
  ghost predicate MustErase(vars: seq<Var>, c: Clave)
  {
    Known(vars, c) && |vars[Find(vars, c)].log| == FAT_BITS + 1
  }

  ghost function Erasure(wear: seq<nat>, sector: nat): seq<nat>
    requires sector < |wear|
  {
    wear[sector := wear[sector] + 1]
  }

  /** The slot this write would use lies in the key's sector. */
  ghost predicate WriteFits(vars: seq<Var>, c: Clave)
    requires TypeOk(c.tipo)
  {
    Known(vars, c) ==>
      |vars[Find(vars, c)].log| == FAT_BITS + 1 || SlotsFit(c.tipo, |vars[Find(vars, c)].log| + 1)
  }

  lemma FindAppend(vars: seq<Var>, v: Var)
    requires Find(vars, v.clave) == |vars|
    ensures Find(vars + [v], v.clave) == |vars|
  {
    assert (vars + [v])[|vars|].clave == v.clave;
    assert forall i :: 0 <= i < |vars| ==> (vars + [v])[i].clave != v.clave;
  }

  lemma EnsureOk(vars: seq<Var>, c: Clave, value: seq<byte>)
    requires VarsOk(vars) && ValueOk(c, value) && HasPlace(vars, c)
    ensures VarsOk(Ensure(vars, c, value))
    ensures Find(Ensure(vars, c, value), c) == Find(vars, c) < |Ensure(vars, c, value)|
    ensures Find(vars, c) == |vars| ==> Ensure(vars, c, value)[Find(vars, c)] == Var(c, [value])
  {
    if !Known(vars, c) {
      SlotsFitExactly(c.tipo, 1);
      VarsOkAppend(vars, Var(c, [value]));
      FindAppend(vars, Var(c, [value]));
    }
  }

  lemma LoggedOk(v: Var, value: seq<byte>)
    requires v.Ok() && |value| == v.Width()
    requires |v.log| == FAT_BITS + 1 || SlotsFit(v.clave.tipo, |v.log| + 1)
    ensures Logged(v, value).Ok()
  {
    SlotsFitExactly(v.clave.tipo, 1);
  }

  // ---------- the log and what a read sees ----------

  /** The documentation promises the last value written.  The scan returns it exactly as long as the
      table has a set bit; with all 128 cleared it returns the oldest slot. */
  lemma ReadsLastWritten(v: Var)
    requires v.Ok()
    ensures v.Visible() == v.log[v.Pos()] <==> v.Pos() < FAT_BITS || v.log[0] == v.log[FAT_BITS]
  {
  }

  /** A used-up table is reached: 128 writes after initialisation a read returns the first value. */
  lemma StaleReadExists(c: Clave, first: seq<byte>, last: seq<byte>)
    requires ClaveOk(c) && c.tipo != VAR50 && |first| == LongParam(c.tipo) == |last| && first != last
    ensures var v := Var(c, [first] + seq(127, _ => first));
            v.Ok() && Logged(v, last).Ok() && Logged(v, last).Visible() == first != last
  {
    var v := Var(c, [first] + seq(127, _ => first));
    SlotsFitExactly(c.tipo, 128);
    SlotsFitExactly(c.tipo, 129);
    assert forall j :: 0 <= j < 128 ==> v.log[j] == first;
  }

  /** A read, which creates a missing key, already returns the value. */
  ghost predicate Omits(vars: seq<Var>, c: Clave, value: seq<byte>)
    requires VarsOk(vars) && ValueOk(c, value) && HasPlace(vars, c)
  {
    EnsureOk(vars, c, value);
    Ensure(vars, c, value)[Find(vars, c)].Visible() == value
  }

  /** The write that the skip-if-equal wrappers issue. */
  ghost function EscribeSiCambia(vars: seq<Var>, c: Clave, value: seq<byte>): seq<Var>
    requires VarsOk(vars) && ValueOk(c, value) && HasPlace(vars, c)
  {
    if Omits(vars, c, value) then Ensure(vars, c, value) else Escribe(vars, c, value)
  }

  /** Creating a missing key, as a read does, does not change what the write after it does. */
  lemma WriteAfterRead(vars: seq<Var>, c: Clave, value: seq<byte>)
    requires VarsOk(vars) && ValueOk(c, value) && HasPlace(vars, c) && WriteFits(vars, c)
    ensures var vars1 := Ensure(vars, c, value);
            && Known(vars1, c) && Find(vars1, c) == Find(vars, c)
            && WriteFits(vars1, c)
            && (MustErase(vars1, c) <==> MustErase(vars, c))
            && Escribe(vars1, c, value) == Escribe(vars, c, value)
  {
    EnsureOk(vars, c, value);
    SlotsFitExactly(c.tipo, 2);
  }

  lemma EscribeLogs(vars: seq<Var>, c: Clave, value: seq<byte>)
    requires VarsOk(vars) && ValueOk(c, value) && HasPlace(vars, c) && WriteFits(vars, c)
    ensures VarsOk(Escribe(vars, c, value))
    ensures Known(Escribe(vars, c, value), c) && Find(Escribe(vars, c, value), c) == Find(vars, c)
    ensures Escribe(vars, c, value)[Find(vars, c)] == Logged(Ensure(vars, c, value)[Find(vars, c)], value)
    ensures |Escribe(vars, c, value)| == |Ensure(vars, c, value)|
    ensures forall j :: 0 <= j < |Ensure(vars, c, value)| && j != Find(vars, c) ==>
      Escribe(vars, c, value)[j] == Ensure(vars, c, value)[j]
  {
    EnsureOk(vars, c, value);
    var vars1, i := Ensure(vars, c, value), Find(vars, c);
    SlotsFitExactly(c.tipo, 2);
    LoggedOk(vars1[i], value);
    var vars2 := vars1[i := Logged(vars1[i], value)];
    assert DistinctKeys(vars2) by {
      assert forall j :: 0 <= j < |vars2| ==> vars2[j].clave == vars1[j].clave;
    }
    FindUnique(vars2, c, i);
  }

  /** After a skip-if-equal write a read returns the value, except when that write cleared the last
      FAT bit and the sector's first slot differs. */
  lemma SkipWriteReadsBack(vars: seq<Var>, c: Clave, value: seq<byte>)
    requires VarsOk(vars) && ValueOk(c, value) && HasPlace(vars, c) && WriteFits(vars, c)
    ensures Known(EscribeSiCambia(vars, c, value), c)
    ensures var i := Find(vars, c);
      EscribeSiCambia(vars, c, value)[i].Visible() == value
      <==> !(Known(vars, c) && |vars[i].log| == FAT_BITS && vars[i].Visible() != value && vars[i].log[0] != value)
  {
    EnsureOk(vars, c, value);
    EscribeLogs(vars, c, value);
  }

  // ---------- whole runs ----------

  /** The abstract store with the erase counter of every sector. */
  datatype Store = Store(vars: seq<Var>, wear: seq<nat>)
  {
    ghost predicate Ok() { VarsOk(vars) && |wear| == SECTORS }
  }

  datatype Op = Lee(c: Clave, valor: seq<byte>) | Escribir(c: Clave, valor: seq<byte>)

  /** What the caller of one operation has to see to: a well-formed value, a place, a slot. */
  ghost predicate OpOk(st: Store, op: Op)
    requires st.Ok()
  {
    ValueOk(op.c, op.valor) && HasPlace(st.vars, op.c) && (op.Escribir? ==> WriteFits(st.vars, op.c))
  }

  ghost function Step(st: Store, op: Op): (r: Store)
    requires st.Ok() && OpOk(st, op)
    ensures r.Ok()
  {
    match op
    case Lee(c, d) =>
      EnsureOk(st.vars, c, d);
      st.(vars := Ensure(st.vars, c, d))
    case Escribir(c, value) =>
      EscribeLogs(st.vars, c, value);
      Store(Escribe(st.vars, c, value),
            if MustErase(st.vars, c) then Erasure(st.wear, FIRST_SECTOR + Find(st.vars, c)) else st.wear)
  }

  ghost predicate RunOk(st: Store, ops: seq<Op>)
    requires st.Ok()
    decreases |ops|
  {
    ops == [] || (OpOk(st, ops[0]) && RunOk(Step(st, ops[0]), ops[1..]))
  }

  ghost function Run(st: Store, ops: seq<Op>): (r: Store)
    requires st.Ok() && RunOk(st, ops)
    ensures r.Ok()
    decreases |ops|
  {
    if ops == [] then st else Run(Step(st, ops[0]), ops[1..])
  }

  /** The same operations on a plain map. */
  ghost function MapStep(m: map<Clave, seq<byte>>, op: Op): map<Clave, seq<byte>>
  {
    match op
    case Lee(c, d) => if c in m then m else m[c := d]
    case Escribir(c, value) => m[c := value]
  }

  ghost function MapRun(m: map<Clave, seq<byte>>, ops: seq<Op>): map<Clave, seq<byte>>
    decreases |ops|
  {
    if ops == [] then m else MapRun(MapStep(m, ops[0]), ops[1..])
  }

  lemma KnownIff(vars: seq<Var>, c: Clave)
    requires VarsOk(vars)
    ensures c in Contents(vars) <==> Known(vars, c)
    ensures Known(vars, c) ==> Contents(vars)[c] == vars[Find(vars, c)].log[vars[Find(vars, c)].Pos()]
  {
    if c in Contents(vars) {
      var i :| 0 <= i < |vars| && vars[i].clave == c;
    }
    if Known(vars, c) {
      assert vars[Find(vars, c)].clave == c;
    }
  }

  /** Two stores agree on a key when its variable is the same in both. */
  lemma EnsureFinds(vars: seq<Var>, c: Clave, value: seq<byte>, d: Clave)
    requires VarsOk(vars) && ValueOk(c, value) && HasPlace(vars, c) && d != c
    ensures Known(Ensure(vars, c, value), d) <==> Known(vars, d)
    ensures Known(vars, d) ==> Find(Ensure(vars, c, value), d) == Find(vars, d)
  {
    EnsureOk(vars, c, value);
    var vars1 := Ensure(vars, c, value);
    if Known(vars, d) {
      FindUnique(vars1, d, Find(vars, d));
    }
  }

  lemma EscribeFinds(vars: seq<Var>, c: Clave, value: seq<byte>, d: Clave)
    requires VarsOk(vars) && ValueOk(c, value) && HasPlace(vars, c) && WriteFits(vars, c) && d != c
    ensures Known(Escribe(vars, c, value), d) <==> Known(vars, d)
    ensures Known(vars, d) ==>
      Find(Escribe(vars, c, value), d) == Find(vars, d) && Escribe(vars, c, value)[Find(vars, d)] == vars[Find(vars, d)]
  {
    EscribeLogs(vars, c, value);
    EnsureFinds(vars, c, value, d);
    EnsureOk(vars, c, value);
    var vars1, vars2 := Ensure(vars, c, value), Escribe(vars, c, value);
    assert forall j :: 0 <= j < |vars1| ==> vars2[j].clave == vars1[j].clave;
    if Known(vars2, d) {
      FindUnique(vars1, d, Find(vars2, d));
    }
    if Known(vars, d) {
      FindUnique(vars2, d, Find(vars, d));
    }
  }

  /** One operation on the store is one operation on the map. */
  lemma StepRefines(st: Store, op: Op)
    requires st.Ok() && OpOk(st, op)
    ensures Contents(Step(st, op).vars) == MapStep(Contents(st.vars), op)
  {
    var vars, vars' := st.vars, Step(st, op).vars;
    var l, r := Contents(vars'), MapStep(Contents(vars), op);
    forall d: Clave ensures (d in l <==> d in r) && (d in l ==> l[d] == r[d]) {
      StepRefinesAt(st, op, d);
    }
    assert l.Keys == r.Keys;
  }

  lemma StepRefinesAt(st: Store, op: Op, d: Clave)
    requires st.Ok() && OpOk(st, op)
    ensures var l, r := Contents(Step(st, op).vars), MapStep(Contents(st.vars), op);
            (d in l <==> d in r) && (d in l ==> l[d] == r[d])
  {
    hide Contents, DistinctKeys, SlotsFit, WriteFits, Ensure, Escribe, Known, Find;
    KnownIff(st.vars, op.c);
    EnsureRefinesAt(st.vars, op.c, op.valor, d);
    if op.Escribir? {
      EscribeRefinesAt(st.vars, op.c, op.valor, d);
    }
  }

  lemma EnsureRefinesAt(vars: seq<Var>, c: Clave, value: seq<byte>, d: Clave)
    requires VarsOk(vars) && ValueOk(c, value) && HasPlace(vars, c)
    ensures VarsOk(Ensure(vars, c, value))
    ensures var l, m := Contents(Ensure(vars, c, value)), Contents(vars);
            var r := if c in m then m else m[c := value];
            (d in l <==> d in r) && (d in l ==> l[d] == r[d])
  {
    hide Contents, DistinctKeys, SlotsFit;
    EnsureOk(vars, c, value);
    KnownIff(vars, c);
    KnownIff(vars, d);
    KnownIff(Ensure(vars, c, value), d);
    if d != c {
      EnsureFinds(vars, c, value, d);
    }
  }

  lemma EscribeRefinesAt(vars: seq<Var>, c: Clave, value: seq<byte>, d: Clave)
    requires VarsOk(vars) && ValueOk(c, value) && HasPlace(vars, c) && WriteFits(vars, c)
    ensures VarsOk(Escribe(vars, c, value))
    ensures var l, r := Contents(Escribe(vars, c, value)), Contents(vars)[c := value];
            (d in l <==> d in r) && (d in l ==> l[d] == r[d])
  {
    hide Contents, DistinctKeys, SlotsFit, Escribe;
    EscribeLogs(vars, c, value);
    KnownIff(vars, d);
    KnownIff(Escribe(vars, c, value), d);
    if d != c {
      EscribeFinds(vars, c, value, d);
    } else {
      EnsureOk(vars, c, value);
    }
  }

  /** Over every run of reads and writes on any keys, the store is the map. */
  lemma {:induction false} RunRefinesMap(st: Store, ops: seq<Op>)
    requires st.Ok() && RunOk(st, ops)
    ensures Contents(Run(st, ops).vars) == MapRun(Contents(st.vars), ops)
    decreases |ops|
  {
    if ops == [] {
    } else {
      StepRefines(st, ops[0]);
      RunRefinesMap(Step(st, ops[0]), ops[1..]);
    }
  }

  /** The plain operation a skip-if-equal write comes to. */
  ghost function Issued(vars: seq<Var>, c: Clave, value: seq<byte>): Op
    requires VarsOk(vars) && ValueOk(c, value) && HasPlace(vars, c)
  {
    if Omits(vars, c, value) then Lee(c, value) else Escribir(c, value)
  }

  /** A skip-if-equal write is a write of the map, except when the table is used up, so that a read
      returns the oldest slot, and the value equals that one but not the last. */
  lemma SkipWriteRefines(st: Store, c: Clave, value: seq<byte>)
    requires st.Ok() && ValueOk(c, value) && HasPlace(st.vars, c) && WriteFits(st.vars, c)
    ensures Contents(Step(st, Issued(st.vars, c, value)).vars) == Contents(st.vars)[c := value]
       <==> !(Known(st.vars, c) && var log := st.vars[Find(st.vars, c)].log;
              |log| == FAT_BITS + 1 && log[0] == value && log[FAT_BITS] != value)
  {
    hide Contents, Step;
    var m := Contents(st.vars);
    StepRefines(st, Issued(st.vars, c, value));
    KnownIff(st.vars, c);
    EnsureOk(st.vars, c, value);
    if Omits(st.vars, c, value) {
      assert c in m && m[c] == value ==> m == m[c := value];
      assert c in m && m[c] != value ==> m[c := value][c] != m[c];
    }
  }

  // ---------- wear ----------

  ghost function WritesTo(ops: seq<Op>, c: Clave): nat
  {
    if ops == [] then 0
    else (if ops[0].Escribir? && ops[0].c == c then 1 else 0) + WritesTo(ops[1..], c)
  }

  /** The total position of a stored key: full rounds of its sector, and bits used in this one. */
  ghost function Odometer(st: Store, c: Clave): nat
    requires st.Ok() && Known(st.vars, c)
  {
    (FAT_BITS + 1) * st.wear[FIRST_SECTOR + Find(st.vars, c)] + st.vars[Find(st.vars, c)].Pos()
  }

  lemma StepTurns(st: Store, op: Op, c: Clave)
    requires st.Ok() && OpOk(st, op) && Known(st.vars, c)
    ensures Known(Step(st, op).vars, c) && Find(Step(st, op).vars, c) == Find(st.vars, c)
    ensures Odometer(Step(st, op), c) == Odometer(st, c) + (if op.Escribir? && op.c == c then 1 else 0)
  {
    EnsureOk(st.vars, op.c, op.valor);
    if op.c != c {
      EnsureFinds(st.vars, op.c, op.valor, c);
    }
    if op.Escribir? {
      EscribeLogs(st.vars, op.c, op.valor);
      if op.c != c {
        EscribeFinds(st.vars, op.c, op.valor, c);
        if Known(st.vars, op.c) {
          assert st.vars[Find(st.vars, op.c)].clave != st.vars[Find(st.vars, c)].clave;
        }
      }
    }
  }

  /** Conservation: over every run, a key's odometer advances by one for each write to that key and
      for nothing else. */
  lemma {:induction false} RunTurns(st: Store, ops: seq<Op>, c: Clave)
    requires st.Ok() && RunOk(st, ops) && Known(st.vars, c)
    ensures Known(Run(st, ops).vars, c) && Find(Run(st, ops).vars, c) == Find(st.vars, c)
    ensures Odometer(Run(st, ops), c) == Odometer(st, c) + WritesTo(ops, c)
    decreases |ops|
  {
    if ops == [] {
    } else {
      StepTurns(st, ops[0], c);
      RunTurns(Step(st, ops[0]), ops[1..], c);
    }
  }

  /** Exact wear: n writes to a key, in a run that starts with its sector freshly initialised, erase
      that sector n / 129 times and leave n % 129 table bits in use. */
  lemma WearLaw(st: Store, ops: seq<Op>, c: Clave)
    requires st.Ok() && RunOk(st, ops) && Known(st.vars, c) && st.vars[Find(st.vars, c)].Pos() == 0
    ensures Known(Run(st, ops).vars, c) && Find(Run(st, ops).vars, c) == Find(st.vars, c)
    ensures var s, n := FIRST_SECTOR + Find(st.vars, c), WritesTo(ops, c);
            Run(st, ops).wear[s] == st.wear[s] + n / (FAT_BITS + 1)
            && Run(st, ops).vars[Find(st.vars, c)].Pos() == n % (FAT_BITS + 1)
  {
    RunTurns(st, ops, c);
  }

  /** A read at the end of any run returns the map's value, unless every bit of the key's table is used
      and its oldest slot differs. */
  lemma RunReads(st: Store, ops: seq<Op>, c: Clave)
    requires st.Ok() && RunOk(st, ops) && Known(Run(st, ops).vars, c)
    ensures c in MapRun(Contents(st.vars), ops)
    ensures var v := Run(st, ops).vars[Find(Run(st, ops).vars, c)];
      v.Visible() == MapRun(Contents(st.vars), ops)[c] <==> v.Pos() < FAT_BITS || v.log[0] == v.log[FAT_BITS]
  {
    RunRefinesMap(st, ops);
    KnownIff(Run(st, ops).vars, c);
    ReadsLastWritten(Run(st, ops).vars[Find(Run(st, ops).vars, c)]);
  }

  /** Every type but the 50-byte one can be written for ever.  That one fits until 80 slots are used, and
      again once the table is used up; from the 81st slot to the 129th none does. */
  lemma WriteFitsExactly(vars: seq<Var>, c: Clave)
    requires TypeOk(c.tipo)
    requires Known(vars, c) ==> 1 <= |vars[Find(vars, c)].log| <= FAT_BITS + 1
    ensures WriteFits(vars, c) <==>
      c.tipo != VAR50 || !Known(vars, c)
      || |vars[Find(vars, c)].log| < 80 || |vars[Find(vars, c)].log| == FAT_BITS + 1
  {
    if Known(vars, c) && |vars[Find(vars, c)].log| <= FAT_BITS {
      SlotsFitExactly(c.tipo, |vars[Find(vars, c)].log| + 1);
    }
  }

  /** In a store that has not overrun yet, the first slot that does not fit is the 81st. */
  lemma FirstMisfit(vars: seq<Var>, c: Clave)
    requires VarsOk(vars) && TypeOk(c.tipo)
    ensures !WriteFits(vars, c) <==> c.tipo == VAR50 && Known(vars, c) && |vars[Find(vars, c)].log| == 80
  {
    WriteFitsExactly(vars, c);
    if Known(vars, c) {
      SlotsFitExactly(c.tipo, |vars[Find(vars, c)].log|);
    }
  }
}
