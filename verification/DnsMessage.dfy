/** Walking a DNS response (sections 4.1.1 to 4.1.4 of RFC 1035): questions, answers, and the address
    they carry. */
module DnsMessage {
  import opened Bytes
  import opened DnsName

  const TYPE_A: u16 := 1
  const TYPE_NS: u16 := 2
  const TYPE_CNAME: u16 := 5
  const TYPE_SOA: u16 := 6
  const TYPE_MB: u16 := 7
  const TYPE_MG: u16 := 8
  const TYPE_MR: u16 := 9
  const TYPE_PTR: u16 := 12
  const TYPE_HINFO: u16 := 13
  const TYPE_MX: u16 := 15

  predicate OneName(t: u16)
  {
    t == TYPE_CNAME || t == TYPE_MB || t == TYPE_MG || t == TYPE_MR || t == TYPE_NS || t == TYPE_PTR
  }

  // ---------- well-formed records ----------

  /** The dotted form of the longest name that the walker's buffers of MAXCNAME bytes hold with its
      terminator.  The parser itself lets one byte more pass. */
  const LONGEST: nat := MAXCNAME - 1

  /** A name whose dotted form has at most max bytes. */
  ghost predicate Named(msg: seq<byte>, p: nat, max: nat)
  {
    exists labels :: NameAt(msg, p, labels, false) && Size(labels) <= max
  }

  ghost predicate QuestionAt(msg: seq<byte>, p: nat, max: nat)
  {
    Named(msg, p, max) && QuestionEnd(msg, p) <= |msg|
  }

  function QuestionEnd(msg: seq<byte>, p: nat): nat { p + Extent(msg, p) + 4 }

  /** The owner name, the ten fixed bytes and as many data bytes as the length field says. */
  ghost predicate RecordAt(msg: seq<byte>, p: nat, max: nat)
  {
    && Named(msg, p, max)
    && DataStart(msg, p) <= |msg|
    && RecordEnd(msg, p) <= |msg|
    && DataOk(msg, RecordType(msg, p), DataStart(msg, p), RecordEnd(msg, p), max)
  }

  function DataStart(msg: seq<byte>, p: nat): nat { p + Extent(msg, p) + 10 }

  function RecordType(msg: seq<byte>, p: nat): u16
    requires DataStart(msg, p) <= |msg|
  {
    Get16(msg, p + Extent(msg, p))
  }

  function RecordEnd(msg: seq<byte>, p: nat): nat
    requires DataStart(msg, p) <= |msg|
  {
    DataStart(msg, p) + Get16(msg, DataStart(msg, p) - 2)
  }

  /** The data section fills exactly the length its header announces. */
  ghost predicate DataOk(msg: seq<byte>, t: u16, d: nat, end: nat, max: nat)
    requires d <= end <= |msg|
  {
    if t == TYPE_A then end == d + 4
    else if OneName(t) then Named(msg, d, max) && end == d + Extent(msg, d)
    else if t == TYPE_HINFO then
      d < end && d + 1 + msg[d] < end && end == d + 1 + msg[d] + 1 + msg[d + 1 + msg[d]]
    else if t == TYPE_MX then Named(msg, d + 2, max) && end == d + 2 + Extent(msg, d + 2)
    else if t == TYPE_SOA then
      Named(msg, d, max) && Named(msg, d + Extent(msg, d), max)
      && end == d + Extent(msg, d) + Extent(msg, d + Extent(msg, d)) + 20
    else true
  }

  /** The types whose data the walker steps over; of any other it skips nothing. */
  predicate Skipped(t: u16) { t == TYPE_A || OneName(t) || t == TYPE_HINFO || t == TYPE_MX || t == TYPE_SOA }

  lemma NamedResolves(msg: seq<byte>, p: nat, max: nat)
    requires max <= MAXCNAME
    ensures Named(msg, p, max) <==>
      var r := Resolve(msg, p, MAXCNAME, false); r.Labels? && Size(r.labels) <= max
  {
    if Named(msg, p, max) {
      var labels :| NameAt(msg, p, labels, false) && Size(labels) <= max;
      ResolvesNames(msg, p, MAXCNAME, false, labels);
    }
    if Resolve(msg, p, MAXCNAME, false).Labels? {
      var labels := Resolve(msg, p, MAXCNAME, false).labels;
      ResolvesNames(msg, p, MAXCNAME, false, labels);
      assert NameAt(msg, p, labels, false);
    }
  }

  lemma SizeOfNone()
    ensures Size([]) == 0
  {
  }

  lemma NamedLoosely(msg: seq<byte>, p: nat)
    ensures Named(msg, p, LONGEST) ==> Named(msg, p, MAXCNAME)
  {
    if Named(msg, p, LONGEST) {
      var labels :| NameAt(msg, p, labels, false) && Size(labels) <= LONGEST;
      assert NameAt(msg, p, labels, false) && Size(labels) <= MAXCNAME;
    }
  }

  /** A name of any length is read without leaving the message: it is found, or refused as too long. */
  lemma NamedInside(msg: seq<byte>, p: nat, max: nat)
    ensures Named(msg, p, max) ==> !Resolve(msg, p, MAXCNAME, false).Fault?
  {
    if Named(msg, p, max) {
      var labels :| NameAt(msg, p, labels, false) && Size(labels) <= max;
      if Size(labels) <= MAXCNAME {
        ResolvesNames(msg, p, MAXCNAME, false, labels);
      } else {
        LongNamesRefused(msg, p, MAXCNAME, false, labels);
      }
    }
  }

  // ---------- one record ----------

  /** A position, the null pointer for a name that does not fit, a read behind the message, or a write
      behind a name buffer. */
  datatype Cursor = At(p: nat) | Null | Outside | Beyond

  /** Parses a name into a local buffer of MAXCNAME bytes, only for its length. */
  method SkipName(msg: seq<byte>, p: nat, ghost max: nat) returns (r: Cursor)
    ensures Named(msg, p, max) ==> !r.Outside?
    ensures Named(msg, p, LONGEST) <==> r.At?
    ensures r.At? ==> r.p == p + Extent(msg, p)
    ensures r.Null? <==> Resolve(msg, p, MAXCNAME, false).TooLong?
    ensures r.Beyond? <==> Named(msg, p, MAXCNAME) && !Named(msg, p, LONGEST)
  {
    hide Named, Size, Text;
    NamedResolves(msg, p, LONGEST);
    NamedResolves(msg, p, MAXCNAME);
    NamedInside(msg, p, max);
    ghost var resolved := Resolve(msg, p, MAXCNAME, false);
    if resolved.Labels? {
      ResolvesNames(msg, p, MAXCNAME, false, resolved.labels);
      TextFits(resolved.labels, MAXCNAME);
      SizeOfNone();
    }
    var name := new byte[MAXCNAME];
    var parsed := ParseName(msg, p, name, MAXCNAME);
    match parsed
    case ReadFault => r := Outside;
    case NameTooLong => r := Null;
    case Overrun => r := Beyond;
    case Name(clen) => r := At(p + clen);
  }

  /** dns_question. */
  method Question(msg: seq<byte>, cp: nat, ghost max: nat) returns (r: Cursor)
    ensures Named(msg, cp, max) ==> !r.Outside?
    ensures Named(msg, cp, LONGEST) <==> r == At(QuestionEnd(msg, cp))
    ensures Named(msg, cp, LONGEST) <==> r.At?
    ensures r.Null? <==> Resolve(msg, cp, MAXCNAME, false).TooLong?
    ensures r.Beyond? <==> Named(msg, cp, MAXCNAME) && !Named(msg, cp, LONGEST)
  {
    r := SkipName(msg, cp, max);
    if r.At? {
      r := At(r.p + 2 + 2);
    }
  }

  /** dns_answer: on a well-formed record of a type it knows it lands exactly on the next record, and
      takes the address of an A record over.  On any other type it stops in front of the data, which is
      the next record only when there is none.  Of the well-formed records, with names of any length in
      owner and data, it gets through exactly those whose names the buffers hold; it overruns a buffer only
      for a name of MAXCNAME bytes. */
  method Answer(msg: seq<byte>, cp: nat, ipBefore: seq<byte>, ghost max: nat) returns (r: Cursor, ip: seq<byte>)
    ensures RecordAt(msg, cp, LONGEST) ==>
      && ip == AddressOf(msg, cp, ipBefore)
      && r == At(if Skipped(RecordType(msg, cp)) then RecordEnd(msg, cp) else DataStart(msg, cp))
      && (r == At(RecordEnd(msg, cp))
          <==> Skipped(RecordType(msg, cp)) || Get16(msg, DataStart(msg, cp) - 2) == 0)
    ensures RecordAt(msg, cp, max) ==> !r.Outside? && (r.At? <==> RecordAt(msg, cp, LONGEST))
    ensures RecordAt(msg, cp, MAXCNAME) ==> (r.Beyond? <==> !RecordAt(msg, cp, LONGEST))
    ensures Resolve(msg, cp, MAXCNAME, false).TooLong? ==> r == Null
  {
    hide Resolve, Extent, Named;
    ip := ipBefore;
    NamedLoosely(msg, cp);
    r := SkipName(msg, cp, max);
    if !r.At? {
      return;
    }
    var p := r.p;
    if p + 1 >= |msg| {
      return Outside, ip;
    }
    var t := Get16(msg, p);
    p := p + 2 + 2 + 4 + 2;
    if t == TYPE_A {
      if p + 4 > |msg| {
        return Outside, ip;
      }
      ip := msg[p..p + 4];
      r := At(p + 4);
    } else if OneName(t) {
      r := SkipName(msg, p, max);
    } else if t == TYPE_HINFO {
      r := SkipStrings(msg, p);
    } else if t == TYPE_MX {
      r := SkipName(msg, p + 2, max);
    } else if t == TYPE_SOA {
      r := SkipName(msg, p, max);
      if r.At? {
        r := SkipName(msg, r.p, max);
        if r.At? {
          r := At(r.p + 4 + 4 + 4 + 4 + 4);
        }
      }
    } else {
      r := At(p);
    }
  }

  /** The two length-prefixed strings of HINFO. */
  method SkipStrings(msg: seq<byte>, p: nat) returns (r: Cursor)
    ensures r == if p < |msg| && p + 1 + msg[p] < |msg| then At(p + 1 + msg[p] + 1 + msg[p + 1 + msg[p]]) else Outside
  {
    if p >= |msg| || p + 1 + msg[p] >= |msg| {
      return Outside;
    }
    var q := p + 1 + msg[p];
    return At(q + 1 + msg[q]);
  }

  function AddressOf(msg: seq<byte>, p: nat, before: seq<byte>): seq<byte>
    requires DataStart(msg, p) <= |msg|
  {
    if RecordType(msg, p) == TYPE_A && DataStart(msg, p) + 4 <= |msg| then msg[DataStart(msg, p)..DataStart(msg, p) + 4]
    else before
  }

  /** A TXT record with one byte of data: the walker stops in front of that byte. */
  method TextRecordLosesPlace() returns (msg: seq<byte>, r: Cursor)
    ensures RecordAt(msg, 0, LONGEST) && RecordEnd(msg, 0) == |msg| == 12 && r == At(11)
  {
    msg := [0, 0, 16, 0, 1, 0, 0, 0, 0, 0, 1, 7];
    assert NameAt(msg, 0, [], false) && Size([]) <= LONGEST;
    var ip;
    r, ip := Answer(msg, 0, [], LONGEST);
  }

  // ---------- whole messages ----------

  ghost predicate QuestionsAt(msg: seq<byte>, p: nat, n: nat, max: nat)
    decreases n
  {
    n == 0 || (QuestionAt(msg, p, max) && QuestionsAt(msg, QuestionEnd(msg, p), n - 1, max))
  }

  ghost function QuestionsEnd(msg: seq<byte>, p: nat, n: nat): nat
    decreases n
  {
    if n == 0 then p else QuestionsEnd(msg, QuestionEnd(msg, p), n - 1)
  }

  /** n well-formed records of types the walker skips, one behind the other. */
  ghost predicate RecordsAt(msg: seq<byte>, p: nat, n: nat, max: nat)
    decreases n
  {
    n == 0
    || (RecordAt(msg, p, max) && Skipped(RecordType(msg, p)) && RecordsAt(msg, RecordEnd(msg, p), n - 1, max))
  }

  /** The address of the last A record among them. */
  ghost function LastAddress(msg: seq<byte>, p: nat, n: nat, before: seq<byte>): seq<byte>
    requires RecordsAt(msg, p, n, LONGEST)
    decreases n
  {
    if n == 0 then before else LastAddress(msg, RecordEnd(msg, p), n - 1, AddressOf(msg, p, before))
  }

  /** The fixed header, field by field. */
  datatype Header = Header(id: u16, qr: bool, opcode: nat, aa: bool, tc: bool, rd: bool, ra: bool, rcode: nat,
                           qdcount: u16, ancount: u16, nscount: u16, arcount: u16)

  function Bit(v: u16, weight: nat): bool
    requires weight > 0
  {
    (v / weight) % 2 == 1
  }

  function HeaderOf(msg: seq<byte>): Header
    requires |msg| >= 12
  {
    var t := Get16(msg, 2);
    Header(Get16(msg, 0), Bit(t, 0x8000), (t / 2048) % 16,
           Bit(t, 0x0400), Bit(t, 0x0200), Bit(t, 0x0100), Bit(t, 0x0080),
           t % 16, Get16(msg, 4), Get16(msg, 6), Get16(msg, 8), Get16(msg, 10))
  }

  function Digit(b: bool): (n: nat)
    ensures n <= 1
  {
    if b then 1 else 0
  }

  /** The 16-bit field between id and counts, from its parts. */
  function FlagsField(qr: bool, opcode: nat, aa: bool, tc: bool, rd: bool, ra: bool, z: nat, rcode: nat): u16
    requires opcode < 16 && z < 8 && rcode < 16
  {
    32768 * Digit(qr) + 2048 * opcode + 1024 * Digit(aa) + 512 * Digit(tc) + 256 * Digit(rd) + 128 * Digit(ra)
    + 16 * z + rcode
  }

  lemma FlagsRead(qr: bool, opcode: nat, aa: bool, tc: bool, rd: bool, ra: bool, z: nat, rcode: nat)
    requires opcode < 16 && z < 8 && rcode < 16
    ensures var t := FlagsField(qr, opcode, aa, tc, rd, ra, z, rcode);
            && Bit(t, 0x8000) == qr && (t / 2048) % 16 == opcode && Bit(t, 0x0400) == aa && Bit(t, 0x0200) == tc
            && Bit(t, 0x0100) == rd && Bit(t, 0x0080) == ra && t % 16 == rcode
  {
    hide Bit, Digit, FlagsField;
    FlagsSum(qr, opcode, aa, tc, rd, ra, z, rcode);
    var t, above := FlagsField(qr, opcode, aa, tc, rd, ra, z, rcode), 16 * Digit(qr) + opcode;
    FlagsLow(t, above, aa, tc, rd, ra, z, rcode);
    FlagsHigh(t, qr, opcode, 16 * z + rcode + 128 * Digit(ra) + 256 * Digit(rd) + 512 * Digit(tc) + 1024 * Digit(aa));
  }

  lemma FlagsHigh(t: u16, qr: bool, opcode: nat, low: nat)
    requires opcode < 16 && low < 2048 && t == 2048 * (16 * Digit(qr) + opcode) + low
    ensures Bit(t, 0x8000) == qr && (t / 2048) % 16 == opcode
  {
    hide Bit, Digit;
    BitIs(t, 0x8000, 0, qr, low + 2048 * opcode);
    Quotient(t, 2048, 16 * Digit(qr) + opcode, low);
    Quotient(16 * Digit(qr) + opcode, 16, Digit(qr), opcode);
  }

  lemma FlagsLow(t: u16, above: nat, aa: bool, tc: bool, rd: bool, ra: bool, z: nat, rcode: nat)
    requires z < 8 && rcode < 16
    requires t == 2048 * above
                  + (16 * z + rcode + 128 * Digit(ra) + 256 * Digit(rd) + 512 * Digit(tc) + 1024 * Digit(aa))
    ensures Bit(t, 0x0400) == aa && Bit(t, 0x0200) == tc && Bit(t, 0x0100) == rd && Bit(t, 0x0080) == ra
    ensures t % 16 == rcode
  {
    hide Bit, Digit;
    var low := 16 * z + rcode;
    BitIs(t, 0x0080, 8 * above + 4 * Digit(aa) + 2 * Digit(tc) + Digit(rd), ra, low);
    BitIs(t, 0x0100, 4 * above + 2 * Digit(aa) + Digit(tc), rd, low + 128 * Digit(ra));
    BitIs(t, 0x0200, 2 * above + Digit(aa), tc, low + 128 * Digit(ra) + 256 * Digit(rd));
    BitIs(t, 0x0400, above, aa, low + 128 * Digit(ra) + 256 * Digit(rd) + 512 * Digit(tc));
    Quotient(t, 16, 128 * above + 64 * Digit(aa) + 32 * Digit(tc) + 16 * Digit(rd) + 8 * Digit(ra) + z, rcode);
  }

  lemma FlagsSum(qr: bool, opcode: nat, aa: bool, tc: bool, rd: bool, ra: bool, z: nat, rcode: nat)
    requires opcode < 16 && z < 8 && rcode < 16
    ensures FlagsField(qr, opcode, aa, tc, rd, ra, z, rcode)
         == 2048 * (16 * Digit(qr) + opcode)
            + (16 * z + rcode + 128 * Digit(ra) + 256 * Digit(rd) + 512 * Digit(tc) + 1024 * Digit(aa))
  {
  }

  lemma Quotient(t: nat, w: nat, q: nat, low: nat)
    requires low < w && t == w * q + low
    ensures t / w == q && t % w == low
  {
    var d: int := t / w - q;
    assert t == w * (t / w) + t % w;
    assert w * d == w * (t / w) - w * q;
    assert d >= 1 ==> w * d >= w;
    assert d <= -1 ==> w * d + w <= 0;
  }

  lemma BitIs(t: u16, w: nat, above: nat, b: bool, low: nat)
    requires low < w && t == w * (2 * above + Digit(b)) + low
    ensures Bit(t, w) == b
  {
    Quotient(t, w, 2 * above + Digit(b), low);
  }

  /** The header decodes to what its twelve bytes were made of. */
  lemma HeaderReads(h: Header, z: nat, rest: seq<byte>)
    requires h.opcode < 16 && z < 8 && h.rcode < 16
    ensures var flags := FlagsField(h.qr, h.opcode, h.aa, h.tc, h.rd, h.ra, z, h.rcode);
            HeaderOf(U16(h.id) + U16(flags) + U16(h.qdcount) + U16(h.ancount) + U16(h.nscount) + U16(h.arcount) + rest)
            == h
  {
    hide Bit, FlagsField;
    var flags := FlagsField(h.qr, h.opcode, h.aa, h.tc, h.rd, h.ra, z, h.rcode);
    FlagsRead(h.qr, h.opcode, h.aa, h.tc, h.rd, h.ra, z, h.rcode);
    var msg := U16(h.id) + U16(flags) + U16(h.qdcount) + U16(h.ancount) + U16(h.nscount) + U16(h.arcount) + rest;
    assert Get16(msg, 0) == h.id && Get16(msg, 2) == flags && Get16(msg, 4) == h.qdcount;
    assert Get16(msg, 6) == h.ancount && Get16(msg, 8) == h.nscount && Get16(msg, 10) == h.arcount;
  }

  /** A response with any number of questions and answers, every name of at most max bytes. */
  ghost predicate Response(msg: seq<byte>, max: nat)
  {
    |msg| >= 12 && var h := HeaderOf(msg);
      QuestionsAt(msg, 12, h.qdcount, max) && RecordsAt(msg, QuestionsEnd(msg, 12, h.qdcount), h.ancount, max)
  }

  datatype Outcome = Code(code: int) | ReadOutside | WriteBeyond

  /** parseDNSMSG: of the well-formed responses, with names of any length, it gets through exactly those whose
      names the buffers hold, and returns 1 or, for a response code other than 0, 0, with the last A
      record's address.  Any other it refuses with -1, or overruns a buffer; always the latter when no name is
      longer than the parser's limit. */
  method ParseMessage(msg: seq<byte>, ipBefore: seq<byte>, ghost max: nat)
      returns (r: Outcome, h: Header, ip: seq<byte>)
    requires |msg| >= 12
    ensures h == HeaderOf(msg)
    ensures Response(msg, LONGEST) ==>
      && r == Code(if h.rcode == 0 then 1 else 0)
      && ip == LastAddress(msg, QuestionsEnd(msg, 12, h.qdcount), h.ancount, ipBefore)
    ensures Response(msg, max) ==> !r.ReadOutside? && (r.Code? && r.code >= 0 <==> Response(msg, LONGEST))
    ensures Response(msg, MAXCNAME) ==> (r.WriteBeyond? <==> !Response(msg, LONGEST))
    ensures r.Code? ==> r.code == 1 || r.code == 0 || r.code == -1
  {
    hide QuestionsAt, QuestionsEnd, RecordsAt, LastAddress;
    h := HeaderOf(msg);
    var c := ParseQuestions(msg, h.qdcount, max);
    if !c.At? {
      return Failed(c), h, ipBefore;
    }
    c, ip := ParseAnswers(msg, c.p, h.ancount, ipBefore, max);
    if !c.At? {
      return Failed(c), h, ip;
    }
    r := Code(if h.rcode == 0 then 1 else 0);
  }

  function Failed(c: Cursor): Outcome
    requires !c.At?
  {
    if c.Null? then Code(-1) else if c.Outside? then ReadOutside else WriteBeyond
  }

  /** The loop over the question section. */
  method ParseQuestions(msg: seq<byte>, n: nat, ghost max: nat) returns (c: Cursor)
    ensures QuestionsAt(msg, 12, n, LONGEST) ==> c == At(QuestionsEnd(msg, 12, n))
    ensures QuestionsAt(msg, 12, n, max) ==>
      && !c.Outside? && (c.At? <==> QuestionsAt(msg, 12, n, LONGEST))
    ensures QuestionsAt(msg, 12, n, MAXCNAME) ==> (c.Beyond? <==> !QuestionsAt(msg, 12, n, LONGEST))
  {
    hide Named, Resolve, Extent, QuestionEnd;
    var cp: nat, i := 12, 0;
    while i < n
      invariant i <= n
      invariant QuestionsAt(msg, 12, n, LONGEST) ==>
        QuestionsAt(msg, cp, n - i, LONGEST) && QuestionsEnd(msg, cp, n - i) == QuestionsEnd(msg, 12, n)
      invariant QuestionsAt(msg, 12, n, max) ==>
        && QuestionsAt(msg, cp, n - i, max)
        && (QuestionsAt(msg, 12, n, LONGEST) <==> QuestionsAt(msg, cp, n - i, LONGEST))
      invariant QuestionsAt(msg, 12, n, MAXCNAME) ==>
        && QuestionsAt(msg, cp, n - i, MAXCNAME)
        && (QuestionsAt(msg, 12, n, LONGEST) <==> QuestionsAt(msg, cp, n - i, LONGEST))
    {
      NamedResolves(msg, cp, MAXCNAME);
      NamedLoosely(msg, cp);
      c := Question(msg, cp, max);
      if !c.At? {
        return;
      }
      cp, i := c.p, i + 1;
    }
    c := At(cp);
  }

  /** The loop over the answer section. */
  method ParseAnswers(msg: seq<byte>, start: nat, n: nat, ipBefore: seq<byte>, ghost max: nat)
      returns (c: Cursor, ip: seq<byte>)
    ensures RecordsAt(msg, start, n, LONGEST) ==> c.At? && ip == LastAddress(msg, start, n, ipBefore)
    ensures RecordsAt(msg, start, n, max) ==>
      && !c.Outside? && (c.At? <==> RecordsAt(msg, start, n, LONGEST))
    ensures RecordsAt(msg, start, n, MAXCNAME) ==> (c.Beyond? <==> !RecordsAt(msg, start, n, LONGEST))
  {
    hide Named, Resolve, Extent, RecordEnd, RecordAt, AddressOf, DataStart;
    var cp: nat, i := start, 0;
    ip := ipBefore;
    while i < n
      invariant i <= n
      invariant RecordsAt(msg, start, n, LONGEST) ==>
        RecordsAt(msg, cp, n - i, LONGEST) && LastAddress(msg, cp, n - i, ip) == LastAddress(msg, start, n, ipBefore)
      invariant RecordsAt(msg, start, n, max) ==>
        && RecordsAt(msg, cp, n - i, max)
        && (RecordsAt(msg, start, n, LONGEST) <==> RecordsAt(msg, cp, n - i, LONGEST))
      invariant RecordsAt(msg, start, n, MAXCNAME) ==>
        && RecordsAt(msg, cp, n - i, MAXCNAME)
        && (RecordsAt(msg, start, n, LONGEST) <==> RecordsAt(msg, cp, n - i, LONGEST))
    {
      RecordLoosely(msg, cp);
      c, ip := Answer(msg, cp, ip, max);
      if !c.At? {
        return;
      }
      cp, i := c.p, i + 1;
    }
    c := At(cp);
  }

  lemma RecordLoosely(msg: seq<byte>, p: nat)
    ensures RecordAt(msg, p, LONGEST) ==> RecordAt(msg, p, MAXCNAME)
  {
    hide Named;
    NamedLoosely(msg, p);
    if RecordAt(msg, p, LONGEST) {
      var d := DataStart(msg, p);
      NamedLoosely(msg, d);
      NamedLoosely(msg, d + 2);
      NamedLoosely(msg, d + Extent(msg, d));
    }
  }

  // ---------- responses made of their parts ----------

  /** The data of a record; names stand for their bytes, plain or compressed. */
  datatype Data =
    | Address(ip: seq<byte>)
    | OneNameData(kind: u16, name: seq<byte>) // NS, CNAME, MB, MG, MR, PTR
    | HostInfo(cpu: seq<byte>, os: seq<byte>)
    | Exchange(preference: u16, name: seq<byte>)
    | Authority(mname: seq<byte>, rname: seq<byte>, numbers: seq<byte>)

  datatype Record = Record(owner: seq<byte>, cls: u16, ttl: seq<byte>, data: Data)

  /** The type numbers of section 3.2.2 of RFC 1035. */
  function Kind(d: Data): u16
  {
    match d
    case Address(_) => 1
    case OneNameData(kind, _) => kind
    case HostInfo(_, _) => 13
    case Exchange(_, _) => 15
    case Authority(_, _, _) => 6
  }

  /** The data formats of section 3.3 of RFC 1035. */
  function DataBytes(d: Data): seq<byte>
    requires d.HostInfo? ==> |d.cpu| < 256 && |d.os| < 256
  {
    match d
    case Address(ip) => ip
    case OneNameData(_, name) => name
    case HostInfo(cpu, os) => [|cpu|] + cpu + [|os|] + os
    case Exchange(preference, name) => U16(preference) + name
    case Authority(mname, rname, numbers) => mname + rname + numbers
  }

  /** A name of at most max dotted bytes stands at p and takes these bytes there. */
  ghost predicate NameThere(msg: seq<byte>, p: nat, name: seq<byte>, max: nat)
  {
    Named(msg, p, max) && Extent(msg, p) == |name|
  }

  ghost predicate DataThere(msg: seq<byte>, p: nat, d: Data, max: nat)
  {
    match d
    case Address(ip) => |ip| == 4
    case OneNameData(kind, name) =>
      (kind == 2 || kind == 5 || kind == 7 || kind == 8 || kind == 9 || kind == 12) && NameThere(msg, p, name, max)
    case HostInfo(cpu, os) => |cpu| < 256 && |os| < 256
    case Exchange(_, name) => NameThere(msg, p + 2, name, max)
    case Authority(mname, rname, numbers) =>
      NameThere(msg, p, mname, max) && NameThere(msg, p + |mname|, rname, max) && |numbers| == 20
  }

  ghost predicate Stands(msg: seq<byte>, p: nat, bytes: seq<byte>)
  {
    p + |bytes| <= |msg| && msg[p..p + |bytes|] == bytes
  }

  /** Type, class, time to live and data length. */
  ghost predicate FixedThere(msg: seq<byte>, p: nat, kind: u16, cls: u16, ttl: seq<byte>, n: u16)
  {
    |ttl| == 4 && Stands(msg, p, U16(kind) + U16(cls) + ttl + U16(n))
  }

  /** The record stands at p, as section 4.1.3 of RFC 1035 lays it out. */
  ghost predicate RecordThere(msg: seq<byte>, p: nat, r: Record, max: nat)
  {
    && NameThere(msg, p, r.owner, max)
    && DataThere(msg, p + |r.owner| + 10, r.data, max) && |DataBytes(r.data)| < 0x1_0000
    && FixedThere(msg, p + |r.owner|, Kind(r.data), r.cls, r.ttl, |DataBytes(r.data)|)
    && Stands(msg, p + |r.owner| + 10, DataBytes(r.data))
  }

  function RecordSize(r: Record): nat
    requires r.data.HostInfo? ==> |r.data.cpu| < 256 && |r.data.os| < 256
  {
    |r.owner| + 10 + |DataBytes(r.data)|
  }

  lemma FixedPart(msg: seq<byte>, p: nat, kind: u16, cls: u16, ttl: seq<byte>, n: u16)
    requires FixedThere(msg, p, kind, cls, ttl, n)
    ensures p + 10 <= |msg| && Get16(msg, p) == kind && Get16(msg, p + 8) == n
  {
    var w := msg[p..p + 10];
    assert w[0] == U16(kind)[0] && w[1] == U16(kind)[1] && w[8] == U16(n)[0] && w[9] == U16(n)[1];
    assert msg[p] == w[0] && msg[p + 1] == w[1] && msg[p + 8] == w[8] && msg[p + 9] == w[9];
  }

  /** Every such record is one that the walker gets through, and an address is taken over from it. */
  lemma RecordReads(msg: seq<byte>, p: nat, r: Record, max: nat, before: seq<byte>)
    requires RecordThere(msg, p, r, max)
    ensures r.data.HostInfo? ==> |r.data.cpu| < 256 && |r.data.os| < 256
    ensures DataStart(msg, p) <= |msg|
    ensures RecordAt(msg, p, max) && Skipped(RecordType(msg, p)) && RecordEnd(msg, p) == p + RecordSize(r)
    ensures AddressOf(msg, p, before) == if r.data.Address? then r.data.ip else before
  {
    hide Named, Extent, DataBytes, DataOk, Kind, Skipped, FixedThere, Get16, DataThere, Stands;
    DataReads(msg, p + |r.owner| + 10, r.data, max);
    FixedPart(msg, p + |r.owner|, Kind(r.data), r.cls, r.ttl, |DataBytes(r.data)|);
  }

  lemma DataReads(msg: seq<byte>, d: nat, data: Data, max: nat)
    requires DataThere(msg, d, data, max) && Stands(msg, d, DataBytes(data))
    ensures data.HostInfo? ==> |data.cpu| < 256 && |data.os| < 256
    ensures d + |DataBytes(data)| <= |msg|
    ensures Skipped(Kind(data)) && DataOk(msg, Kind(data), d, d + |DataBytes(data)|, max)
    ensures Kind(data) == 1 <==> data.Address?
    ensures data.Address? ==> d + 4 <= |msg| && msg[d..d + 4] == data.ip
  {
    hide Named, Extent;
    if data.HostInfo? {
      var w := msg[d..d + |DataBytes(data)|];
      assert w[0] == |data.cpu| && w[1 + |data.cpu|] == |data.os|;
      assert msg[d] == w[0] && msg[d + 1 + |data.cpu|] == w[1 + |data.cpu|];
    }
  }

  ghost predicate RecordsThere(msg: seq<byte>, p: nat, rs: seq<Record>, max: nat)
    decreases |rs|
  {
    rs == [] || (RecordThere(msg, p, rs[0], max) && RecordsThere(msg, p + RecordSize(rs[0]), rs[1..], max))
  }

  /** The last address that the records carry. */
  function LastIp(rs: seq<Record>, before: seq<byte>): seq<byte>
  {
    if rs == [] then before
    else if rs[|rs| - 1].data.Address? then rs[|rs| - 1].data.ip
    else LastIp(rs[..|rs| - 1], before)
  }

  lemma {:induction false} LastIpCons(rs: seq<Record>, before: seq<byte>)
    requires rs != []
    ensures LastIp(rs, before) == LastIp(rs[1..], if rs[0].data.Address? then rs[0].data.ip else before)
  {
    var n := |rs| - 1;
    if n == 0 {
      assert rs[..0] == [] && rs[1..] == [];
    } else {
      LastIpCons(rs[..n], before);
      assert rs[..n][1..] == rs[1..][..n - 1] && rs[1..][n - 1] == rs[n];
    }
  }

  lemma {:induction false} RecordsRead(msg: seq<byte>, p: nat, rs: seq<Record>, before: seq<byte>)
    requires RecordsThere(msg, p, rs, LONGEST)
    ensures RecordsAt(msg, p, |rs|, LONGEST) && LastAddress(msg, p, |rs|, before) == LastIp(rs, before)
    decreases |rs|
  {
    hide RecordAt, RecordThere, LastIp, AddressOf, RecordEnd, RecordSize, DataStart;
    if rs == [] {
      assert LastIp([], before) == before by { LastIpNone(before); }
    } else {
      RecordReads(msg, p, rs[0], LONGEST, before);
      RecordsRead(msg, p + RecordSize(rs[0]), rs[1..], AddressOf(msg, p, before));
      LastIpCons(rs, before);
    }
  }

  lemma LastIpNone(before: seq<byte>)
    ensures LastIp([], before) == before
  {
  }

  /** A question: a name's bytes, and four for type and class. */
  ghost predicate QuestionsThere(msg: seq<byte>, p: nat, names: seq<seq<byte>>, max: nat)
    decreases |names|
  {
    names == []
    || (NameThere(msg, p, names[0], max) && p + |names[0]| + 4 <= |msg|
        && QuestionsThere(msg, p + |names[0]| + 4, names[1..], max))
  }

  function QuestionsSize(names: seq<seq<byte>>): nat
  {
    if names == [] then 0 else |names[0]| + 4 + QuestionsSize(names[1..])
  }

  lemma {:induction false} QuestionsRead(msg: seq<byte>, p: nat, names: seq<seq<byte>>, max: nat)
    requires QuestionsThere(msg, p, names, max)
    ensures QuestionsAt(msg, p, |names|, max) && QuestionsEnd(msg, p, |names|) == p + QuestionsSize(names)
    decreases |names|
  {
    hide Named, Extent;
    if names == [] {
    } else {
      QuestionsRead(msg, p + |names[0]| + 4, names[1..], max);
    }
  }

  /** A response made of a header, questions and records is parsed to the header and the last address among
      the records. */
  method ParseResponse(msg: seq<byte>, h: Header, z: nat, rest: seq<byte>, names: seq<seq<byte>>, rs: seq<Record>,
                       ipBefore: seq<byte>)
      returns (r: Outcome, parsed: Header, ip: seq<byte>)
    requires h.opcode < 16 && z < 8 && h.rcode < 16 && h.qdcount == |names| && h.ancount == |rs|
    requires msg == U16(h.id) + U16(FlagsField(h.qr, h.opcode, h.aa, h.tc, h.rd, h.ra, z, h.rcode))
                    + U16(h.qdcount) + U16(h.ancount) + U16(h.nscount) + U16(h.arcount) + rest
    requires QuestionsThere(msg, 12, names, LONGEST) && RecordsThere(msg, 12 + QuestionsSize(names), rs, LONGEST)
    ensures r == Code(if h.rcode == 0 then 1 else 0) && parsed == h && ip == LastIp(rs, ipBefore)
  {
    hide QuestionsThere, RecordsThere, FlagsField, QuestionsAt, RecordsAt, LastAddress, LastIp, HeaderOf, QuestionsEnd;
    HeaderReads(h, z, rest);
    QuestionsRead(msg, 12, names, LONGEST);
    RecordsRead(msg, 12 + QuestionsSize(names), rs, ipBefore);
    r, parsed, ip := ParseMessage(msg, ipBefore, LONGEST);
  }
}
