/** Domain names in DNS messages (sections 3.1 and 4.1.4 of RFC 1035): length-prefixed labels, ended by a
    zero byte or continued elsewhere through a pointer. */
module DnsName {
  import opened Bytes

  const MAXCNAME: nat := 192
  const DOT: byte := 46

  // ---------- what a name is ----------

  /** The two high bits of a length byte mark a pointer. */
  predicate IsPointer(b: byte) { b >= 0xC0 }

  function Target(hi: byte, lo: byte): nat
    requires IsPointer(hi)
  {
    (hi - 0xC0) * 256 + lo
  }

  /** The labels spell the name at p.  A pointer may stand wherever a label may, but must lead to a label
      or the end of a name, not to another pointer. */
  ghost predicate NameAt(msg: seq<byte>, p: nat, labels: seq<seq<byte>>, viaPointer: bool)
    decreases |labels|, if viaPointer then 0 else 1
  {
    p < |msg|
    && if IsPointer(msg[p]) then
         !viaPointer && p + 1 < |msg| && NameAt(msg, Target(msg[p], msg[p + 1]), labels, true)
       else if msg[p] == 0 then labels == []
       else
         labels != [] && p + 1 + msg[p] <= |msg| && labels[0] == msg[p + 1..p + 1 + msg[p]]
         && NameAt(msg, p + 1 + msg[p], labels[1..], false)
  }

  /** How many bytes the name occupies where it stands: up to its zero byte or its first pointer. */
  function Extent(msg: seq<byte>, p: nat): nat
    decreases |msg| - p
  {
    if p >= |msg| then 0
    else if IsPointer(msg[p]) then 2
    else if msg[p] == 0 then 1
    else 1 + msg[p] + Extent(msg, p + 1 + msg[p])
  }

  /** The length of the dotted form, one dot behind each label. */
  function Size(labels: seq<seq<byte>>): nat
  {
    if labels == [] then 0 else |labels[0]| + 1 + Size(labels[1..])
  }

  function Dotted(labels: seq<seq<byte>>): (r: seq<byte>)
    ensures |r| == Size(labels)
  {
    if labels == [] then [] else labels[0] + [DOT] + Dotted(labels[1..])
  }

  /** The C string for a name; the root is a single dot. */
  function Text(labels: seq<seq<byte>>): seq<byte>
  {
    if labels == [] then [DOT, 0] else Dotted(labels) + [0]
  }

  // ---------- reading ----------

  datatype Resolution = Fault | TooLong | Labels(labels: seq<seq<byte>>)
  {
    function Prepend(l: seq<byte>): Resolution
    {
      if Labels? then Labels([l] + labels) else this
    }
  }

  /** Following a name with room for `room` more bytes of dotted form.  Fault stands for a read behind
      the end of the message. */
  function Resolve(msg: seq<byte>, p: nat, room: nat, viaPointer: bool): Resolution
    decreases room, if viaPointer then 0 else 1
  {
    if p >= |msg| then Fault
    else if IsPointer(msg[p]) && !viaPointer then
      if p + 1 < |msg| then Resolve(msg, Target(msg[p], msg[p + 1]), room, true) else Fault
    else if msg[p] == 0 then Labels([])
    else if room <= msg[p] then TooLong
    else if p + 1 + msg[p] > |msg| then Fault
    else Resolve(msg, p + 1 + msg[p], room - 1 - msg[p], false).Prepend(msg[p + 1..p + 1 + msg[p]])
  }

  /** The name parser succeeds exactly on the names whose dotted form fits, and finds their labels. */
  lemma {:induction false} ResolvesNames(msg: seq<byte>, p: nat, room: nat, viaPointer: bool, labels: seq<seq<byte>>)
    requires room <= MAXCNAME
    ensures Resolve(msg, p, room, viaPointer) == Labels(labels)
       <==> NameAt(msg, p, labels, viaPointer) && Size(labels) <= room
    decreases room, if viaPointer then 0 else 1
  {
    if p >= |msg| || msg[p] == 0 {
    } else if IsPointer(msg[p]) {
      if !viaPointer && p + 1 < |msg| {
        ResolvesNames(msg, Target(msg[p], msg[p + 1]), room, true, labels);
      }
    } else if room > msg[p] && p + 1 + msg[p] <= |msg| {
      var l := msg[p + 1..p + 1 + msg[p]];
      if labels != [] {
        ResolvesNames(msg, p + 1 + msg[p], room - 1 - msg[p], false, labels[1..]);
        assert labels == [labels[0]] + labels[1..];
      }
      assert Resolve(msg, p, room, viaPointer) == Resolve(msg, p + 1 + msg[p], room - 1 - msg[p], false).Prepend(l);
    }
  }

  /** A name that is well formed but too long for the buffer is refused. */
  lemma {:induction false} LongNamesRefused(msg: seq<byte>, p: nat, room: nat, viaPointer: bool, labels: seq<seq<byte>>)
    requires NameAt(msg, p, labels, viaPointer) && Size(labels) > room
    ensures Resolve(msg, p, room, viaPointer) == TooLong
    decreases room, if viaPointer then 0 else 1
  {
    if IsPointer(msg[p]) {
      LongNamesRefused(msg, Target(msg[p], msg[p + 1]), room, true, labels);
    } else if room > msg[p] {
      LongNamesRefused(msg, p + 1 + msg[p], room - 1 - msg[p], false, labels[1..]);
    }
  }

  /** What a name occupies depends on nothing but the bytes it occupies, so on no pointer's target. */
  lemma {:induction false} ExtentLocal(msg: seq<byte>, p: nat, msg': seq<byte>, q: nat, labels: seq<seq<byte>>)
    requires NameAt(msg, p, labels, false) && p + Extent(msg, p) <= |msg| && q + Extent(msg, p) <= |msg'|
    requires forall i, j :: p <= i < p + Extent(msg, p) && j == q + (i - p) ==> msg'[j] == msg[i]
    ensures Extent(msg', q) == Extent(msg, p)
    decreases |labels|
  {
    assert msg'[q] == msg[p];
    if IsPointer(msg[p]) || msg[p] == 0 {
    } else {
      ExtentLocal(msg, p + 1 + msg[p], msg', q + 1 + msg[p], labels[1..]);
    }
  }

  /** The string with its terminator fits a buffer of the given size exactly when the dotted form alone is
      shorter than that; the root needs two bytes. */
  lemma TextFits(labels: seq<seq<byte>>, size: nat)
    ensures Text([]) == [46, 0] && (labels != [] ==> Text(labels) == Dotted(labels) + [0])
    ensures |Text(labels)| <= size <==> if labels == [] then size >= 2 else Size(labels) < size
  {
  }

  /** Where a pointer leads: 14 bits of offset from the message's beginning, behind two set bits. */
  lemma PointerLeads(msg: seq<byte>, p: nat, q: nat, labels: seq<seq<byte>>)
    requires q < 0x4000 && p + 1 < |msg| && msg[p] == 0xC0 + q / 256 && msg[p + 1] == q % 256
    requires NameAt(msg, q, labels, true)
    ensures NameAt(msg, p, labels, false) && Extent(msg, p) == 2
  {
    assert Target(msg[p], msg[p + 1]) == q;
  }

  /** Labels as they stand in a message, without what ends the name. */
  function LabelBytes(labels: seq<seq<byte>>): seq<byte>
    requires forall i :: 0 <= i < |labels| ==> |labels[i]| < 256
  {
    if labels == [] then [] else [|labels[0]|] + labels[0] + LabelBytes(labels[1..])
  }

  /** Labels in front of the rest of a name, which may be a pointer, spell the whole name. */
  lemma {:induction false} LabelsThenRest(msg: seq<byte>, p: nat, head: seq<seq<byte>>, tail: seq<seq<byte>>)
    requires forall i :: 0 <= i < |head| ==> 0 < |head[i]| < 0xC0
    requires var n := |LabelBytes(head)|; p + n <= |msg| && msg[p..p + n] == LabelBytes(head)
    requires NameAt(msg, p + |LabelBytes(head)|, tail, false)
    ensures NameAt(msg, p, head + tail, false)
    ensures Extent(msg, p) == |LabelBytes(head)| + Extent(msg, p + |LabelBytes(head)|)
    decreases |head|
  {
    hide NameAt, Extent, LabelBytes;
    LabelBytesMade(head);
    if head == [] {
      assert head + tail == tail;
    } else {
      var l, rest := head[0], LabelBytes(head[1..]);
      LabelPieces(msg, p, l, rest);
      LabelsThenRest(msg, p + 1 + |l|, head[1..], tail);
      assert (head + tail)[1..] == head[1..] + tail && (head + tail)[0] == l;
      LabelStep(msg, p, head + tail);
    }
  }

  lemma LabelBytesMade(labels: seq<seq<byte>>)
    requires forall i :: 0 <= i < |labels| ==> |labels[i]| < 256
    ensures LabelBytes(labels)
         == if labels == [] then [] else [|labels[0]|] + labels[0] + LabelBytes(labels[1..])
  {
  }

  lemma LabelPieces(msg: seq<byte>, p: nat, l: seq<byte>, rest: seq<byte>)
    requires |l| < 256 && p + 1 + |l| + |rest| <= |msg| && msg[p..p + 1 + |l| + |rest|] == [|l|] + l + rest
    ensures msg[p] == |l| && msg[p + 1..p + 1 + |l|] == l
    ensures msg[p + 1 + |l|..p + 1 + |l| + |rest|] == rest
  {
    var w := msg[p..p + 1 + |l| + |rest|];
    assert w == [|l|] + (l + rest);
    assert msg[p] == w[0];
    assert w[1..] == l + rest;
    assert msg[p + 1..p + 1 + |l|] == w[1..][..|l|] && msg[p + 1 + |l|..p + 1 + |l| + |rest|] == w[1..][|l|..];
  }

  lemma LabelStep(msg: seq<byte>, p: nat, labels: seq<seq<byte>>)
    requires labels != [] && 0 < |labels[0]| < 0xC0
    requires p + 1 + |labels[0]| <= |msg| && msg[p] == |labels[0]| && msg[p + 1..p + 1 + |labels[0]|] == labels[0]
    requires NameAt(msg, p + 1 + |labels[0]|, labels[1..], false)
    ensures NameAt(msg, p, labels, false)
    ensures Extent(msg, p) == 1 + |labels[0]| + Extent(msg, p + 1 + |labels[0]|)
  {
  }

  /** A pointer that leads straight to another pointer is refused, although section 4.1.4 of RFC 1035
      would allow the second one as a name of its own. */
  lemma PointerToPointerRefused(msg: seq<byte>, p: nat)
    requires p + 1 < |msg| && IsPointer(msg[p])
    requires Target(msg[p], msg[p + 1]) < |msg| && IsPointer(msg[Target(msg[p], msg[p + 1])])
    ensures Resolve(msg, p, MAXCNAME, false) == TooLong
  {
  }

  // ---------- names that go on and on ----------

  datatype Place = Place(p: nat) | Ended

  /** Where the name at p goes on behind its first label, following the pointer in front of it; Ended at the
      name's end, and where no label can be read. */
  function BehindLabel(msg: seq<byte>, p: nat): Place
  {
    var s := if p + 1 < |msg| && IsPointer(msg[p]) then Target(msg[p], msg[p + 1]) else p;
    if s < |msg| && 0 < msg[s] && !IsPointer(msg[s]) && s + 1 + msg[s] <= |msg| then Place(s + 1 + msg[s])
    else Ended
  }

  /** Where it goes on behind k labels. */
  function AfterN(msg: seq<byte>, p: nat, k: nat): Place
    decreases k
  {
    if k == 0 then Place(p)
    else
      var next := BehindLabel(msg, p);
      if next.Place? then AfterN(msg, next.p, k - 1) else Ended
  }

  lemma {:induction false} AfterLabels(msg: seq<byte>, p: nat, k: nat, labels: seq<seq<byte>>)
    requires NameAt(msg, p, labels, false) && AfterN(msg, p, k).Place?
    ensures k <= |labels| && NameAt(msg, AfterN(msg, p, k).p, labels[k..], false)
    decreases k
  {
    if k == 0 {
    } else {
      assert labels != [] && NameAt(msg, BehindLabel(msg, p).p, labels[1..], false);
      AfterLabels(msg, BehindLabel(msg, p).p, k - 1, labels[1..]);
      assert labels[1..][k - 1..] == labels[k..];
    }
  }

  /** It is where the labels lead: behind each of them there is a place, and behind the last the name ends. */
  lemma {:induction false} LabelsLead(msg: seq<byte>, p: nat, labels: seq<seq<byte>>)
    requires NameAt(msg, p, labels, false)
    ensures forall k :: 0 <= k <= |labels| ==> AfterN(msg, p, k).Place?
    ensures AfterN(msg, p, |labels| + 1) == Ended
    decreases |labels|
  {
    var next := BehindLabel(msg, p);
    if labels == [] {
      assert next == Ended;
    } else {
      assert next.Place? && NameAt(msg, next.p, labels[1..], false);
      LabelsLead(msg, next.p, labels[1..]);
      assert AfterN(msg, p, |labels| + 1) == AfterN(msg, next.p, |labels|);
      forall k | 0 <= k <= |labels| ensures AfterN(msg, p, k).Place? {
        if k > 0 {
          assert AfterN(msg, p, k) == AfterN(msg, next.p, k - 1);
        }
      }
    }
  }

  /** A name that leads back to its beginning, behind any number of labels, is spelled by no labels. */
  lemma {:induction false} CyclesRefused(msg: seq<byte>, p: nat, k: nat, labels: seq<seq<byte>>)
    requires k > 0 && AfterN(msg, p, k) == Place(p)
    ensures !NameAt(msg, p, labels, false)
    decreases |labels|
  {
    if NameAt(msg, p, labels, false) {
      AfterLabels(msg, p, k, labels);
      CyclesRefused(msg, p, k, labels[k..]);
    } else {
    }
  }

  /** A name that has more labels than there is room for bytes is refused. */
  lemma {:induction false} EndlessRefused(msg: seq<byte>, p: nat, room: nat, n: nat)
    requires room <= MAXCNAME && n > room && AfterN(msg, p, n).Place?
    ensures Resolve(msg, p, room, false) == TooLong
    decreases room
  {
    var q := BehindLabel(msg, p).p;
    var s := if IsPointer(msg[p]) then Target(msg[p], msg[p + 1]) else p;
    if room <= msg[s] {
    } else {
      EndlessRefused(msg, q, room - 1 - msg[s], n - 1);
      assert Resolve(msg, s, room, IsPointer(msg[p]))
          == Resolve(msg, q, room - 1 - msg[s], false).Prepend(msg[s + 1..q]);
    }
  }

  lemma {:induction false} AfterMore(msg: seq<byte>, p: nat, a: nat, b: nat)
    requires AfterN(msg, p, a).Place?
    ensures AfterN(msg, p, a + b) == AfterN(msg, AfterN(msg, p, a).p, b)
    decreases a
  {
    if a == 0 {
    } else {
      AfterMore(msg, BehindLabel(msg, p).p, a - 1, b);
    }
  }

  lemma OneMoreRound(rounds: nat, k: nat)
    ensures rounds * k >= 0 && k + rounds * k == (rounds + 1) * k
  {
  }

  /** Round and round a cycle there is always one more label. */
  lemma {:induction false} CycleGoesOn(msg: seq<byte>, p: nat, k: nat, rounds: nat)
    requires AfterN(msg, p, k) == Place(p)
    ensures AfterN(msg, p, rounds * k) == Place(p)
    decreases rounds
  {
    if rounds == 0 {
    } else {
      CycleGoesOn(msg, p, k, rounds - 1);
      OneMoreRound(rounds - 1, k);
      AfterMore(msg, p, k, (rounds - 1) * k);
    }
  }

  /** So the parser refuses every cycle, as a name too long. */
  lemma CyclesTooLong(msg: seq<byte>, p: nat, k: nat)
    requires k > 0 && AfterN(msg, p, k) == Place(p)
    ensures Resolve(msg, p, MAXCNAME, false) == TooLong
  {
    CycleGoesOn(msg, p, k, MAXCNAME + 1);
    assert (MAXCNAME + 1) * k > MAXCNAME;
    EndlessRefused(msg, p, MAXCNAME, (MAXCNAME + 1) * k);
  }

  // ---------- the parser ----------

  /** ReadFault is a read behind the message's end, Overrun a write behind the buffer's. */
  datatype Parsed = ReadFault | NameTooLong | Overrun | Name(clen: nat)

  /** The labels collected so far in front of what the rest resolves to. */
  function After(done: seq<seq<byte>>, r: Resolution): Resolution
  {
    if r.Labels? then Labels(done + r.labels) else r
  }

  lemma {:induction false} DottedAppend(a: seq<seq<byte>>, l: seq<byte>)
    ensures Dotted(a + [l]) == Dotted(a) + l + [DOT]
  {
    if a == [] {
      assert a + [l] == [l] && [l][1..] == [];
      assert Dotted([l]) == l + [DOT] + Dotted([]);
    } else {
      assert (a + [l])[1..] == a[1..] + [l];
      DottedAppend(a[1..], l);
      assert Dotted(a + [l]) == a[0] + [DOT] + (Dotted(a[1..]) + l + [DOT]);
    }
  }

  lemma AfterStep(done: seq<seq<byte>>, l: seq<byte>, r: Resolution)
    ensures After(done, r.Prepend(l)) == After(done + [l], r)
  {
    if r.Labels? {
      assert done + ([l] + r.labels) == (done + [l]) + r.labels;
    }
  }

  lemma AfterNone(r: Resolution)
    ensures After([], r) == r
  {
    if r.Labels? {
      assert [] + r.labels == r.labels;
    }
  }

  lemma AfterAll(done: seq<seq<byte>>)
    ensures After(done, Labels([])) == Labels(done) && After(done, Fault) == Fault && After(done, TooLong) == TooLong
  {
    assert done + [] == done;
  }

  /** The inner loop: copies one label behind the first k bytes of the buffer. */
  method CopyLabel(msg: seq<byte>, start: nat, n: nat, buf: array<byte>, k: nat) returns (fault: bool, cp: nat)
    requires k + n <= buf.Length
    modifies buf
    ensures fault <==> n > 0 && start + n > |msg|
    ensures !fault && n > 0 ==> cp == start + n && buf[..k + n] == old(buf[..k]) + msg[start..cp]
  {
    var slen: nat := n;
    cp := start;
    while slen != 0
      invariant cp + slen == start + n && start <= cp
      invariant slen < n ==> cp <= |msg| && buf[..k + (cp - start)] == old(buf[..k]) + msg[start..cp]
      invariant slen == n ==> buf[..k] == old(buf[..k])
      decreases slen
    {
      if cp >= |msg| {
        return true, cp;
      }
      buf[k + (cp - start)] := msg[cp];
      cp, slen := cp + 1, slen - 1;
    }
    fault := false;
  }

  /** One label and the dot behind it. */
  method PutSegment(msg: seq<byte>, start: nat, n: nat, buf: array<byte>, k: nat) returns (fault: bool, cp: nat)
    requires n > 0 && k + n < buf.Length
    modifies buf
    ensures fault <==> start + n > |msg|
    ensures !fault ==> cp == start + n && buf[..k + n + 1] == old(buf[..k]) + msg[start..cp] + [DOT]
  {
    fault, cp := CopyLabel(msg, start, n, buf, k);
    if fault {
      return;
    }
    buf[k + n] := DOT;
    assert buf[..k + n + 1] == buf[..k + n] + [DOT];
  }

  /** The end of the string: the root's dot when there was no label, and the terminator, if they fit. */
  method Terminate(buf: array<byte>, length: nat, nseg: nat) returns (fits: bool)
    requires length <= buf.Length
    modifies buf
    ensures fits <==> length + (if nseg == 0 then 2 else 1) <= buf.Length
    ensures fits && nseg == 0 ==> buf[..length + 2] == old(buf[..length]) + [DOT, 0]
    ensures fits && nseg > 0 ==> buf[..length + 1] == old(buf[..length]) + [0]
  {
    var k := length;
    if nseg == 0 {
      if k >= buf.Length {
        return false;
      }
      buf[k] := DOT;
      k := k + 1;
    }
    if k >= buf.Length {
      return false;
    }
    buf[k] := 0;
    return true;
  }

  lemma ResolveStep(msg: seq<byte>, p: nat, room: nat, viaPointer: bool)
    ensures Resolve(msg, p, room, viaPointer)
         == if p >= |msg| then Fault
            else if IsPointer(msg[p]) && !viaPointer then
              if p + 1 < |msg| then Resolve(msg, Target(msg[p], msg[p + 1]), room, true) else Fault
            else if msg[p] == 0 then Labels([])
            else if room <= msg[p] then TooLong
            else if p + 1 + msg[p] > |msg| then Fault
            else Resolve(msg, p + 1 + msg[p], room - 1 - msg[p], false).Prepend(msg[p + 1..p + 1 + msg[p]])
  {
  }

  lemma DottedNone()
    ensures Dotted([]) == []
  {
  }

  lemma ExtentStep(msg: seq<byte>, p: nat)
    requires p < |msg|
    ensures Extent(msg, p)
         == if IsPointer(msg[p]) then 2 else if msg[p] == 0 then 1 else 1 + msg[p] + Extent(msg, p + 1 + msg[p])
  {
  }

  lemma ReadsNames(msg: seq<byte>, p: nat, room: nat)
    ensures forall labels :: NameAt(msg, p, labels, false) && Size(labels) <= room <= MAXCNAME ==>
      Resolve(msg, p, room, false) == Labels(labels)
  {
    forall labels | NameAt(msg, p, labels, false) && Size(labels) <= room <= MAXCNAME
      ensures Resolve(msg, p, room, false) == Labels(labels)
    {
      ResolvesNames(msg, p, room, false, labels);
    }
  }

  /** parse_name: writes the dotted form into the buffer and returns the length of the name where it
      stands.  `len` keeps labels and dots inside the buffer, but not the terminator. */
  method ParseName(msg: seq<byte>, compressed: nat, buf: array<byte>, len: nat) returns (r: Parsed)
    requires len <= buf.Length
    modifies buf
    ensures match Resolve(msg, compressed, len, false)
            case Fault => r == ReadFault
            case TooLong => r == NameTooLong
            case Labels(labels) =>
              if |Text(labels)| <= buf.Length then
                r == Name(Extent(msg, compressed)) && buf[..|Text(labels)|] == Text(labels)
              else r == Overrun
    // so every name that fits is read, whatever pointers it goes through
    ensures forall labels ::
      NameAt(msg, compressed, labels, false) && Size(labels) <= len <= MAXCNAME && |Text(labels)| <= buf.Length ==>
      r == Name(Extent(msg, compressed)) && buf[..|Text(labels)|] == Text(labels)
  {
    ReadsNames(msg, compressed, len);
    hide Dotted, Extent, Size, After, NameAt, Resolution.Prepend, IsPointer, Target, Resolve;
    DottedNone();
    AfterNone(Resolve(msg, compressed, len, false));
    var cp: nat, room: nat, clen, indirect, nseg, k: nat := compressed, len, 0, false, 0, 0;
    ghost var done: seq<seq<byte>> := [];
    ghost var want := Resolve(msg, compressed, len, false);
    while true
      invariant want == After(done, Resolve(msg, cp, room, false))
      invariant k + room == len && buf[..k] == Dotted(done) && nseg == |done|
      invariant if indirect then clen == Extent(msg, compressed) else clen + Extent(msg, cp) == Extent(msg, compressed)
      decreases room
    {
      AfterAll(done);
      ResolveStep(msg, cp, room, false);
      if cp >= |msg| {
        return ReadFault;
      }
      ExtentStep(msg, cp);
      var slen: nat := msg[cp];
      ghost var viaPointer := false;
      cp := cp + 1;
      if !indirect {
        clen := clen + 1;
      }
      if IsPointer(slen) {
        if !indirect {
          clen := clen + 1;
        }
        indirect := true;
        if cp >= |msg| {
          return ReadFault;
        }
        cp := Target(slen, msg[cp]);
        ResolveStep(msg, cp, room, true);
        if cp >= |msg| {
          return ReadFault;
        }
        slen := msg[cp];
        cp := cp + 1;
        viaPointer := true;
      }
      assert want == After(done, Resolve(msg, cp - 1, room, viaPointer));
      if slen == 0 {
        break;
      }
      if room < slen + 1 {
        return NameTooLong;
      }
      room := room - (slen + 1);
      if !indirect {
        clen := clen + slen;
      }
      ghost var segment := if cp + slen <= |msg| then msg[cp..cp + slen] else [];
      var fault;
      fault, cp := PutSegment(msg, cp, slen, buf, k);
      if fault {
        return ReadFault;
      }
      k := k + slen + 1;
      nseg := nseg + 1;
      DottedAppend(done, segment);
      AfterStep(done, segment, Resolve(msg, cp, room, false));
      done := done + [segment];
    }
    AfterAll(done);
    var fits := Terminate(buf, k, nseg);
    if !fits {
      return Overrun;
    }
    return Name(clen);
  }

  /** Twelve bytes, the name a, and behind it a pointer to it: read at the pointer it is a, in two bytes. */
  method ReadsThroughPointer() returns (buf: array<byte>, r: Parsed)
    ensures fresh(buf) && buf.Length == MAXCNAME && r == Name(2) && buf[..3] == [97, 46, 0]
  {
    var msg := [7, 0, 0, 0, 0, 0, 0, 0, 0, 0, 0, 0] + [1, 97, 0] + [0xC0, 12];
    assert msg[12..14] == [1, 97] && msg[13..14] == [97];
    assert NameAt(msg, 14, [], false) && [[97]][1..] == [];
    assert NameAt(msg, 12, [[97]], true);
    PointerLeads(msg, 15, 12, [[97]]);
    buf := new byte[MAXCNAME];
    assert Dotted([[97]]) == [97] + [DOT] + Dotted([]);
    assert Text([[97]]) == [97, DOT, 0] && Size([[97]]) == 2;
    r := ParseName(msg, 15, buf, MAXCNAME);
  }
}
