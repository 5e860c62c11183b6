/** Building a DNS query from a dotted name (section 4.1 of RFC 1035), and reading it back. */
module DnsQuery {
  import opened Bytes
  import opened DnsName
  import Msg = DnsMessage

  const HEADER: nat := 12

  // ---------- dotted names ----------

  ghost predicate CString(name: seq<byte>) { 0 !in name }

  /** The index of the first dot, or the length when there is none. */
  function FirstDot(name: seq<byte>): (i: nat)
    ensures i <= |name| && DOT !in name[..i] && (i < |name| ==> name[i] == DOT)
  {
    if name == [] || name[0] == DOT then 0 else 1 + FirstDot(name[1..])
  }

  /** The labels the builder emits: the components up to the first empty one. */
  function QueryLabels(name: seq<byte>): seq<seq<byte>>
    decreases |name|
  {
    var i := FirstDot(name);
    if i == 0 then []
    else if i == |name| then [name]
    else [name[..i]] + QueryLabels(name[i + 1..])
  }

  /** Components that a dotted name can be made of. */
  ghost predicate Components(labels: seq<seq<byte>>)
  {
    forall i :: 0 <= i < |labels| ==> labels[i] != [] && DOT !in labels[i]
  }

  /** The components with dots between them. */
  function JoinDots(labels: seq<seq<byte>>): seq<byte>
    requires labels != []
  {
    if |labels| == 1 then labels[0] else labels[0] + [DOT] + JoinDots(labels[1..])
  }

  lemma QueryOne(l: seq<byte>)
    requires l != [] && DOT !in l
    ensures QueryLabels(l) == [l]
  {
    DotBehind(l, []);
    assert l + [] == l;
  }

  lemma QueryCons(l: seq<byte>, rest: seq<byte>)
    requires l != [] && DOT !in l
    ensures QueryLabels(l + [DOT] + rest) == [l] + QueryLabels(rest)
  {
    DotBehind(l, [DOT] + rest);
    assert l + ([DOT] + rest) == l + [DOT] + rest;
    assert (l + [DOT] + rest)[|l| + 1..] == rest;
  }

  /** The builder takes a dotted name apart into exactly its components, with or without a final dot. */
  lemma {:induction false} SplitsComponents(labels: seq<seq<byte>>)
    requires labels != [] && Components(labels)
    ensures QueryLabels(JoinDots(labels)) == labels
    ensures QueryLabels(JoinDots(labels) + [DOT]) == labels
  {
    hide QueryLabels;
    var l, name := labels[0], JoinDots(labels);
    if |labels| == 1 {
      QueryOne(l);
      QueryCons(l, []);
      QueryNone();
      assert l + [DOT] + [] == l + [DOT];
    } else {
      var rest := JoinDots(labels[1..]);
      SplitsComponents(labels[1..]);
      QueryCons(l, rest);
      QueryCons(l, rest + [DOT]);
      assert l + [DOT] + (rest + [DOT]) == name + [DOT];
      assert labels == [l] + labels[1..];
    }
  }

  /** At the first empty component it stops, whatever follows. */
  lemma {:induction false} StopsAtEmpty(labels: seq<seq<byte>>, rest: seq<byte>)
    requires Components(labels)
    ensures QueryLabels(Dotted(labels) + [DOT] + rest) == labels
    decreases |labels|
  {
    hide QueryLabels, Dotted;
    DottedMade(labels);
    if labels == [] {
      LeadingDot(rest);
      assert [] + [DOT] + rest == [DOT] + rest;
    } else {
      var l, tail := labels[0], Dotted(labels[1..]) + [DOT] + rest;
      StopsAtEmpty(labels[1..], rest);
      QueryCons(l, tail);
      Regroup(l, Dotted(labels[1..]), rest);
      assert labels == [l] + labels[1..];
    }
  }

  lemma Regroup(l: seq<byte>, d: seq<byte>, rest: seq<byte>)
    ensures (l + [DOT] + d) + [DOT] + rest == l + [DOT] + (d + [DOT] + rest)
  {
  }

  lemma DottedMade(labels: seq<seq<byte>>)
    ensures Dotted(labels) == if labels == [] then [] else labels[0] + [DOT] + Dotted(labels[1..])
  {
  }

  lemma LeadingDot(rest: seq<byte>)
    ensures QueryLabels([DOT] + rest) == []
  {
  }

  lemma QueryNone()
    ensures QueryLabels([]) == []
  {
  }

  lemma {:induction false} DotBehind(l: seq<byte>, tail: seq<byte>)
    requires DOT !in l && (tail == [] || tail[0] == DOT)
    ensures FirstDot(l + tail) == |l|
    ensures (l + tail)[..|l|] == l
  {
    if l != [] {
      assert (l + tail)[1..] == l[1..] + tail;
      DotBehind(l[1..], tail);
    } else {
      assert l + tail == tail;
    }
  }

  lemma {:induction false} JoinDotsDotted(labels: seq<seq<byte>>)
    requires labels != []
    ensures Dotted(labels) == JoinDots(labels) + [DOT]
  {
    if |labels| == 1 {
      assert labels[1..] == [];
      assert Dotted(labels) == labels[0] + [DOT] + [];
    } else {
      JoinDotsDotted(labels[1..]);
    }
  }

  // ---------- the wire form ----------

  function Wire(labels: seq<seq<byte>>): seq<byte>
    requires forall i :: 0 <= i < |labels| ==> |labels[i]| < 256
  {
    if labels == [] then [0] else [|labels[0]|] + labels[0] + Wire(labels[1..])
  }

  ghost predicate Encodable(labels: seq<seq<byte>>)
  {
    forall i :: 0 <= i < |labels| ==> 0 < |labels[i]| < 0xC0
  }

  lemma Pieces(pre: seq<byte>, n: byte, l: seq<byte>, rest: seq<byte>, post: seq<byte>)
    requires n == |l|
    ensures var msg := pre + ([n] + l + rest) + post;
            msg == (pre + [n] + l) + rest + post && |pre| < |msg| && msg[|pre|] == n
            && |pre| + 1 + n <= |msg| && msg[|pre| + 1..|pre| + 1 + n] == l
  {
    var msg := pre + ([n] + l + rest) + post;
    assert msg == pre + ([n] + (l + (rest + post)));
    assert msg[|pre| + 1..] == l + (rest + post);
    assert msg[|pre| + 1..|pre| + 1 + n] == msg[|pre| + 1..][..n];
  }

  /** Wherever the wire form stands in a message, the labels can be read there, and it is as long as it
      says. */
  lemma {:induction false} WireIsName(pre: seq<byte>, labels: seq<seq<byte>>, post: seq<byte>)
    requires Encodable(labels)
    ensures NameAt(pre + Wire(labels) + post, |pre|, labels, false)
    ensures Extent(pre + Wire(labels) + post, |pre|) == |Wire(labels)|
    decreases |labels|
  {
    hide Wire, NameAt, Extent;
    if labels == [] {
      RootIsName(pre, post);
    } else {
      var l, rest := labels[0], labels[1..];
      assert labels == [l] + rest;
      WireCons(l, rest);
      Pieces(pre, |l|, l, Wire(rest), post);
      WireIsName(pre + [|l|] + l, rest, post);
      LabelStep(pre + Wire(labels) + post, |pre|, labels);
    }
  }

  lemma RootIsName(pre: seq<byte>, post: seq<byte>)
    ensures NameAt(pre + Wire([]) + post, |pre|, [], false) && Extent(pre + Wire([]) + post, |pre|) == |Wire([])|
  {
    assert (pre + [0] + post)[|pre|] == 0;
  }

  /** The whole query: id, flags, one question, the name, type A and class IN. */
  function Query(id: u16, op: u16, labels: seq<seq<byte>>): seq<byte>
    requires Encodable(labels)
  {
    QueryHeader(id, op) + Wire(labels) + [0, 1, 0, 1]
  }

  /** (op << 11) | 0x0100 in 16 bits; the two parts share no bit. */
  function QueryFlags(op: u16): u16 { (op * 2048) % 0x1_0000 + 0x0100 }

  function QueryHeader(id: u16, op: u16): (h: seq<byte>)
    ensures |h| == HEADER
  {
    U16(id) + U16(QueryFlags(op)) + [0, 1] + [0, 0] + [0, 0] + [0, 0]
  }

  lemma {:induction false} WireFits(name: seq<byte>)
    ensures |name| < 0xC0 ==> Encodable(QueryLabels(name))
    decreases |name|
  {
    if |name| < 0xC0 {
      var i := FirstDot(name);
      if 0 < i < |name| {
        WireFits(name[i + 1..]);
        assert QueryLabels(name)[1..] == QueryLabels(name[i + 1..]);
      } else if i != 0 {
        assert QueryLabels(name)[1..] == [];
      }
    }
  }

  lemma TypeAndClass(s: seq<byte>)
    ensures s + [0, 1] + [0, 1] == s + [0, 1, 0, 1]
  {
  }

  // ---------- the builder ----------

  datatype Making = Made(n: nat) | CopyOverrun

  class QueryBuilder {
    var msgId: u16

    constructor (id: u16)
      ensures msgId == id
    {
      msgId := id;
    }

    /** dns_makequery: the query, for every name that fits the builder's local copy of it, and a write behind
        that copy for every other. */
    method MakeQuery(op: u16, name: seq<byte>, buf: array<byte>) returns (r: Making)
      requires CString(name)
      requires HEADER <= buf.Length && (|name| < MAXCNAME ==> HEADER + |name| + 2 + 4 <= buf.Length)
      modifies this, buf
      ensures msgId == (old(msgId) + 1) % 0x1_0000
      ensures r.CopyOverrun? <==> |name| >= MAXCNAME
      ensures r.Made? ==>
        Encodable(QueryLabels(name)) && r.n <= buf.Length && buf[..r.n] == Query(msgId, op, QueryLabels(name))
    {
      hide QueryFlags;
      msgId := (msgId + 1) % 0x1_0000;
      var cp := Put(buf, 0, U16(msgId));
      cp := Put(buf, cp, U16(QueryFlags(op)));
      cp := Put(buf, cp, [0, 1]);
      cp := Put(buf, cp, [0, 0]);
      cp := Put(buf, cp, [0, 0]);
      cp := Put(buf, cp, [0, 0]);
      assert buf[..cp] == QueryHeader(msgId, op);
      if |name| + 1 > MAXCNAME {
        return CopyOverrun;
      }
      WireFits(name);
      cp := PutName(name, buf, cp);
      cp := Put(buf, cp, [0, 1]);
      cp := Put(buf, cp, [0, 1]);
      r := Made(cp);
      TypeAndClass(QueryHeader(msgId, op) + Wire(QueryLabels(name)));
    }

    /** The component loop: finds the next dot, writes length and component. */
    static method PutName(name: seq<byte>, buf: array<byte>, start: nat) returns (cp: nat)
      requires |name| < MAXCNAME && start + |name| + 2 <= buf.Length
      modifies buf
      ensures Encodable(QueryLabels(name))
      ensures cp <= start + |name| + 2 && buf[..cp] == old(buf[..start]) + Wire(QueryLabels(name))
    {
      hide NameWire, FirstDot;
      NameWireIs(name);
      cp := start;
      var dname := name;
      ghost var whole := old(buf[..start]) + NameWire(name);
      while true
        invariant |dname| <= |name| && start <= cp && cp + |dname| <= start + |name|
        invariant buf[..cp] + NameWire(dname) == whole
        decreases |dname|
      {
        NameWireStep(dname);
        var len := FirstDot(dname);
        if len == 0 {
          cp := Put(buf, cp, [0]);
          break;
        }
        Associate(buf[..cp], [len] + dname[..len], if len == |dname| then [0] else NameWire(dname[len + 1..]));
        cp := PutComponent(buf, cp, dname[..len]);
        if len == |dname| {
          cp := Put(buf, cp, [0]);
          break;
        }
        dname := dname[len + 1..];
      }
    }

    static method PutComponent(buf: array<byte>, cp: nat, l: seq<byte>) returns (next: nat)
      requires |l| < 256 && cp + 1 + |l| <= buf.Length
      modifies buf
      ensures next == cp + 1 + |l| && buf[..next] == old(buf[..cp]) + ([|l|] + l)
    {
      next := Put(buf, cp, [|l|]);
      next := Put(buf, next, l);
    }
  }

  /** The wire form of the labels of a name that fits the builder's copy. */
  function NameWire(name: seq<byte>): seq<byte>
    requires |name| < 0xC0
  {
    WireFits(name);
    Wire(QueryLabels(name))
  }

  lemma NameWireIs(name: seq<byte>)
    requires |name| < 0xC0
    ensures Encodable(QueryLabels(name)) && NameWire(name) == Wire(QueryLabels(name))
  {
    WireFits(name);
  }

  /** It is made one component at a time. */
  lemma NameWireStep(name: seq<byte>)
    requires |name| < 0xC0
    ensures var i := FirstDot(name);
      NameWire(name) ==
        if i == 0 then [0]
        else if i == |name| then [i] + name[..i] + [0]
        else [i] + name[..i] + NameWire(name[i + 1..])
  {
    hide Wire;
    WireFits(name);
    var i := FirstDot(name);
    WireNone();
    if i == 0 {
      assert QueryLabels(name) == [];
    } else if i == |name| {
      assert QueryLabels(name) == [name] + [] && name[..i] == name;
      WireCons(name, []);
    } else {
      WireFits(name[i + 1..]);
      assert QueryLabels(name) == [name[..i]] + QueryLabels(name[i + 1..]);
      WireCons(name[..i], QueryLabels(name[i + 1..]));
    }
  }

  lemma WireNone()
    ensures Wire([]) == [0]
  {
  }

  lemma WireCons(l: seq<byte>, rest: seq<seq<byte>>)
    requires |l| < 256 && forall i :: 0 <= i < |rest| ==> |rest[i]| < 256
    ensures Wire([l] + rest) == [|l|] + l + Wire(rest)
  {
    assert ([l] + rest)[1..] == rest;
  }

  // ---------- round trip ----------

  /** Parsing the name in a built query gives the dotted name back, with a final dot, and the whole
      question is consumed to the query's last byte.  The walker's buffer holds the string exactly when
      the name without a final dot is shorter than 191 bytes. */
  lemma QueryRoundTrip(id: u16, op: u16, labels: seq<seq<byte>>, finalDot: bool)
    requires labels != [] && Components(labels)
    requires |JoinDots(labels)| + (if finalDot then 1 else 0) < MAXCNAME
    ensures var name := JoinDots(labels) + (if finalDot then [DOT] else []);
            QueryLabels(name) == labels && Encodable(labels)
    ensures Resolve(Query(id, op, labels), HEADER, MAXCNAME, false) == Labels(labels)
    ensures Text(labels) == JoinDots(labels) + [DOT, 0]
    ensures Msg.QuestionEnd(Query(id, op, labels), HEADER) == |Query(id, op, labels)|
    ensures Msg.QuestionAt(Query(id, op, labels), HEADER, MAXCNAME)
    ensures Msg.QuestionAt(Query(id, op, labels), HEADER, Msg.LONGEST) <==> |JoinDots(labels)| + 1 < MAXCNAME
  {
    hide Resolve, NameAt, Extent, Wire, QueryLabels, Dotted, JoinDots, QueryHeader, Msg.Named;
    var name := JoinDots(labels) + (if finalDot then [DOT] else []);
    assert JoinDots(labels) + [] == JoinDots(labels);
    SplitsComponents(labels);
    WireFits(name);
    JoinDotsDotted(labels);
    assert |Dotted(labels)| == Size(labels) == |JoinDots(labels)| + 1;
    WireIsName(QueryHeader(id, op), labels, [0, 1, 0, 1]);
    ResolvesNames(Query(id, op, labels), HEADER, MAXCNAME, false, labels);
    Msg.NamedResolves(Query(id, op, labels), HEADER, Msg.LONGEST);
    Msg.NamedResolves(Query(id, op, labels), HEADER, MAXCNAME);
    assert JoinDots(labels) + [DOT] + [0] == JoinDots(labels) + [DOT, 0];
  }

  /** Three labels of 63 bytes make a name of 191 that the builder accepts, and its query a question whose
      name takes 193 bytes with the terminator: reading it back overruns the walker's buffer. */
  lemma LongestNameOverruns(id: u16, op: u16, l: seq<byte>)
    requires |l| == 63 && DOT !in l
    ensures var labels := [l, l, l];
            && Components(labels) && Encodable(labels) && |JoinDots(labels)| == 191
            && |Text(labels)| == MAXCNAME + 1
            && Msg.QuestionAt(Query(id, op, labels), HEADER, MAXCNAME)
            && !Msg.QuestionAt(Query(id, op, labels), HEADER, Msg.LONGEST)
  {
    var labels := [l, l, l];
    assert labels[1..] == [l, l] && [l, l][1..] == [l];
    assert JoinDots([l]) == l && |JoinDots([l, l])| == 127;
    QueryRoundTrip(id, op, labels, false);
  }

  /** What a built query says, read back by position: its number, the operation code, recursion desired, one
      question and no record; type A and class IN at its end.  A code of more than four bits reaches into
      the bit that marks a response. */
  lemma QuerySays(id: u16, op: u16, labels: seq<seq<byte>>)
    requires Encodable(labels)
    ensures var q := Query(id, op, labels);
            && |q| == 16 + |Wire(labels)| && q[12..12 + |Wire(labels)|] == Wire(labels)
            && Msg.HeaderOf(q)
               == Msg.Header(id, (op / 16) % 2 == 1, op % 16, false, false, true, false, 0, 1, 0, 0, 0)
            && Get16(q, |q| - 4) == 1 && Get16(q, |q| - 2) == 1
  {
    hide Wire, Msg.FlagsField, QueryFlags, QueryHeader, U16, Get16, Msg.HeaderOf;
    var w := Wire(labels);
    QueryHeaderMade(id, op);
    Msg.HeaderReads(Msg.Header(id, (op / 16) % 2 == 1, op % 16, false, false, true, false, 0, 1, 0, 0, 0), 0,
                    w + [0, 1, 0, 1]);
    Associate(QueryHeader(id, op), w, [0, 1, 0, 1]);
    QueryEnd(QueryHeader(id, op), w);
  }

  lemma QueryHeaderMade(id: u16, op: u16)
    ensures var flags := Msg.FlagsField((op / 16) % 2 == 1, op % 16, false, false, true, false, 0, 0);
            QueryHeader(id, op) == U16(id) + U16(flags) + U16(1) + U16(0) + U16(0) + U16(0)
  {
    hide Msg.FlagsField, QueryFlags, U16;
    QueryFlagsAre(op);
    SmallCounts();
  }

  lemma QueryFlagsAre(op: u16)
    ensures QueryFlags(op) == Msg.FlagsField((op / 16) % 2 == 1, op % 16, false, false, true, false, 0, 0)
  {
    var k, b, r := op / 32, (op / 16) % 2, op % 16;
    assert op == 32 * k + 16 * b + r;
    Msg.Quotient(op * 2048, 0x1_0000, k, 2048 * (16 * b + r));
  }

  lemma QueryEnd(head: seq<byte>, w: seq<byte>)
    requires |head| == 12
    ensures var q := head + w + [0, 1, 0, 1];
            q[12..12 + |w|] == w && Get16(q, |q| - 4) == 1 && Get16(q, |q| - 2) == 1
  {
  }

  lemma SmallCounts()
    ensures U16(1) == [0, 1] && U16(0) == [0, 0]
  {
    hide High, Low;
    SmallHalves(0);
    SmallHalves(1);
  }

  lemma SmallHalves(n: byte)
    ensures High(n) == 0 && Low(n) == n
  {
  }
}
