/** The option area of DHCP messages (section 2 of RFC 2132): a tagged list, the client's loop that reads
    it, and the three senders that write it. */
module DhcpOptions {
  import opened Bytes

  const PAD: byte := 0
  const SUBNET: byte := 1
  const ROUTERS: byte := 3
  const DNS: byte := 6
  const HOST_NAME: byte := 12
  const REQUESTED_IP: byte := 50
  const LEASE_TIME: byte := 51
  const MESSAGE_TYPE: byte := 53
  const SERVER_ID: byte := 54
  const PARAM_REQUEST: byte := 55
  const CLIENT_ID: byte := 61
  const END: byte := 255

  const DHCP_DISCOVER: byte := 1
  const DHCP_OFFER: byte := 2
  const DHCP_REQUEST: byte := 3
  const DHCP_DECLINE: byte := 4
  const DHCP_ACK: byte := 5
  const DHCP_NAK: byte := 6

  const OPT_START: nat := 236 // where the option area begins in the message
  const OPT_SIZE: nat := 312
  const COOKIE: seq<byte> := [0x63, 0x82, 0x53, 0x63]

  // ---------- option lists ----------

  datatype Opt = Pad | Tlv(code: byte, data: seq<byte>)

  /** The lengths section 9 and section 3 of RFC 2132 prescribe for the options the client looks at. */
  ghost predicate OptOk(o: Opt)
  {
    o.Tlv? ==>
      && o.code != PAD && o.code != END && |o.data| < 256
      && (o.code == MESSAGE_TYPE ==> |o.data| == 1)
      && (o.code == SUBNET || o.code == LEASE_TIME || o.code == SERVER_ID ==> |o.data| == 4)
      && (o.code == ROUTERS || o.code == DNS ==> |o.data| >= 4)
  }

  ghost predicate OptsOk(opts: seq<Opt>) { forall i :: 0 <= i < |opts| ==> OptOk(opts[i]) }

  function EncodeOpt(o: Opt): seq<byte>
    requires o.Tlv? ==> |o.data| < 256
  {
    match o
    case Pad => [PAD]
    case Tlv(code, data) => [code, |data|] + data
  }

  function Encode(opts: seq<Opt>): seq<byte>
    requires forall i :: 0 <= i < |opts| && opts[i].Tlv? ==> |opts[i].data| < 256
  {
    if opts == [] then [] else EncodeOpt(opts[0]) + Encode(opts[1..])
  }

  /** The formats of section 2 of RFC 2132: one byte of padding, or code, length and data. */
  lemma OptionFormat(code: byte, data: seq<byte>)
    requires |data| < 256
    ensures EncodeOpt(Pad) == [0] && EncodeOpt(Tlv(code, data)) == [code, |data|] + data
    ensures OptOk(Pad) && !OptOk(Tlv(0, data)) && !OptOk(Tlv(255, data))
    ensures |data| == 4 ==> OptOk(Tlv(1, data)) && OptOk(Tlv(3, data)) && OptOk(Tlv(6, data)) && OptOk(Tlv(51, data))
    ensures |data| == 4 ==> OptOk(Tlv(50, data)) && OptOk(Tlv(54, data))
    ensures |data| == 1 ==> OptOk(Tlv(53, data))
  {
  }

  lemma {:induction false} EncodeAppend(opts: seq<Opt>, o: Opt)
    requires forall i :: 0 <= i < |opts| && opts[i].Tlv? ==> |opts[i].data| < 256
    requires o.Tlv? ==> |o.data| < 256
    ensures Encode(opts + [o]) == Encode(opts) + EncodeOpt(o)
  {
    if opts == [] {
      assert opts + [o] == [o] && [o][1..] == [];
      assert EncodeOpt(o) + [] == [] + EncodeOpt(o);
    } else {
      assert (opts + [o])[1..] == opts[1..] + [o];
      EncodeAppend(opts[1..], o);
      assert EncodeOpt(opts[0]) + (Encode(opts[1..]) + EncodeOpt(o))
          == EncodeOpt(opts[0]) + Encode(opts[1..]) + EncodeOpt(o);
    }
  }

  // ---------- what a client learns ----------

  datatype Info = Info(msgType: byte, subnet: seq<byte>, gateway: seq<byte>, dns: seq<byte>, lease: nat,
                       sip: seq<byte>, realSip: seq<byte>)

  function BigEndian(b: seq<byte>): nat
    requires |b| == 4
  {
    Pair(b[0], b[1]) * 0x1_0000 + Pair(b[2], b[3])
  }

  lemma BigEndianNumeral(b: seq<byte>)
    requires |b| == 4
    ensures BigEndian(b) == b[0] as int * 16777216 + b[1] as int * 65536 + b[2] as int * 256 + b[3] as int
  {
  }

  /** The effect of one option, from a server at address svr. */
  function Learn(info: Info, o: Opt, svr: seq<byte>): Info
    requires OptOk(o)
  {
    if o.Pad? then info
    else if o.code == MESSAGE_TYPE then info.(msgType := o.data[0])
    else if o.code == SUBNET then info.(subnet := o.data)
    else if o.code == ROUTERS then info.(gateway := o.data[..4])
    else if o.code == DNS then info.(dns := o.data[..4])
    else if o.code == LEASE_TIME then info.(lease := BigEndian(o.data))
    else if o.code == SERVER_ID then info.(sip := o.data, realSip := svr)
    else info
  }

  function LearnAll(info: Info, opts: seq<Opt>, svr: seq<byte>): Info
    requires forall i :: 0 <= i < |opts| ==> OptOk(opts[i])
    decreases |opts|
  {
    if opts == [] then info else LearnAll(Learn(info, opts[0], svr), opts[1..], svr)
  }

  datatype Maybe = None | Some(data: seq<byte>)

  /** The data of the last option with the code. */
  function Last(opts: seq<Opt>, code: byte): (r: Maybe)
    requires forall i :: 0 <= i < |opts| ==> OptOk(opts[i])
    ensures r.Some? ==> OptOk(Tlv(code, r.data))
  {
    if opts == [] then None
    else
      var rest := Last(opts[1..], code);
      if rest.Some? then rest
      else if opts[0].Tlv? && opts[0].code == code then Some(opts[0].data)
      else None
  }

  /** In a list in any order, with padding and unknown options, the last of each kind wins. */
  lemma {:induction false} LastWins(info: Info, opts: seq<Opt>, svr: seq<byte>)
    requires OptsOk(opts)
    ensures var r := LearnAll(info, opts, svr);
      && r.msgType == (match Last(opts, MESSAGE_TYPE) case Some(d) => d[0] case None => info.msgType)
      && r.subnet == (match Last(opts, SUBNET) case Some(d) => d case None => info.subnet)
      && r.gateway == (match Last(opts, ROUTERS) case Some(d) => d[..4] case None => info.gateway)
      && r.dns == (match Last(opts, DNS) case Some(d) => d[..4] case None => info.dns)
      && r.lease == (match Last(opts, LEASE_TIME) case Some(d) => BigEndian(d) case None => info.lease)
      && r.sip == (match Last(opts, SERVER_ID) case Some(d) => d case None => info.sip)
      && r.realSip == (if Last(opts, SERVER_ID).Some? then svr else info.realSip)
    decreases |opts|
  {
    if opts == [] {
    } else {
      hide BigEndian;
      LastWins(Learn(info, opts[0], svr), opts[1..], svr);
    }
  }

  // ---------- the reading loop ----------

  /** The loop's meaning on any bytes.  The six bytes behind the end are memory the loop may touch. */
  function Read(buf: seq<byte>, p: nat, end: nat, info: Info, svr: seq<byte>): Info
    requires p < end ==> end + 6 <= |buf|
    decreases end - p
  {
    if p >= end || buf[p] == END then info
    else if buf[p] == PAD then Read(buf, p + 1, end, info, svr)
    else if buf[p] == MESSAGE_TYPE then Read(buf, p + 3, end, info.(msgType := buf[p + 2]), svr)
    else if buf[p] == SUBNET then Read(buf, p + 6, end, info.(subnet := buf[p + 2..p + 6]), svr)
    else if buf[p] == ROUTERS then Read(buf, p + 2 + buf[p + 1], end, info.(gateway := buf[p + 2..p + 6]), svr)
    else if buf[p] == DNS then Read(buf, p + 2 + buf[p + 1], end, info.(dns := buf[p + 2..p + 6]), svr)
    else if buf[p] == LEASE_TIME then Read(buf, p + 6, end, info.(lease := BigEndian(buf[p + 2..p + 6])), svr)
    else if buf[p] == SERVER_ID then Read(buf, p + 6, end, info.(sip := buf[p + 2..p + 6], realSip := svr), svr)
    else Read(buf, p + 2 + buf[p + 1], end, info, svr)
  }

  /** One well-formed option at the cursor is read whole. */
  lemma ReadOne(buf: seq<byte>, p: nat, end: nat, info: Info, svr: seq<byte>, o: Opt)
    requires OptOk(o) && p + |EncodeOpt(o)| <= end && end + 6 <= |buf|
    requires buf[p..p + |EncodeOpt(o)|] == EncodeOpt(o)
    ensures Read(buf, p, end, info, svr) == Read(buf, p + |EncodeOpt(o)|, end, Learn(info, o, svr), svr)
  {
    hide BigEndian;
    OptBytes(buf, p, o);
  }

  lemma OptBytes(buf: seq<byte>, p: nat, o: Opt)
    requires OptOk(o) && p + |EncodeOpt(o)| <= |buf|
    requires buf[p..p + |EncodeOpt(o)|] == EncodeOpt(o)
    ensures o.Pad? ==> buf[p] == PAD
    ensures o.Tlv? ==> buf[p] == o.code && buf[p + 1] == |o.data|
    ensures o.Tlv? && |o.data| >= 1 ==> buf[p + 2] == o.data[0]
    ensures o.Tlv? && |o.data| >= 4 ==> buf[p + 2..p + 6] == o.data[..4]
    ensures o.Tlv? && |o.data| == 4 ==> buf[p + 2..p + 6] == o.data
  {
    var e := EncodeOpt(o);
    var w := buf[p..p + |e|];
    assert buf[p] == w[0] == e[0];
    if o.Tlv? {
      assert buf[p + 1] == w[1] == e[1] == |o.data|;
      assert forall i :: 0 <= i < |o.data| ==> buf[p + 2 + i] == w[2 + i] == o.data[i];
      if |o.data| >= 1 {
        assert buf[p + 2 + 0] == o.data[0];
      }
    }
  }

  /** For every well-formed list, the loop learns what the list says. */
  lemma {:induction false} ReadsList(buf: seq<byte>, p: nat, end: nat, info: Info, svr: seq<byte>, opts: seq<Opt>)
    requires OptsOk(opts) && p + |Encode(opts)| <= end && end + 6 <= |buf|
    requires buf[p..p + |Encode(opts)|] == Encode(opts)
    requires p + |Encode(opts)| == end || buf[p + |Encode(opts)|] == END
    ensures Read(buf, p, end, info, svr) == LearnAll(info, opts, svr)
    decreases |opts|
  {
    hide EncodeOpt, Learn, Read, Encode;
    if opts == [] {
      ReadAtEnd(buf, p, end, info, svr);
    } else {
      var e, rest := EncodeOpt(opts[0]), Encode(opts[1..]);
      EncodeCons(opts);
      HeadTail(buf, p, e, rest);
      ReadOne(buf, p, end, info, svr, opts[0]);
      ReadsList(buf, p + |e|, end, Learn(info, opts[0], svr), svr, opts[1..]);
    }
  }

  lemma ReadAtEnd(buf: seq<byte>, p: nat, end: nat, info: Info, svr: seq<byte>)
    requires p <= end && end + 6 <= |buf| && (p + |Encode([])| == end || buf[p + |Encode([])|] == END)
    ensures Read(buf, p, end, info, svr) == info
  {
  }

  lemma EncodeCons(opts: seq<Opt>)
    requires OptsOk(opts) && opts != []
    ensures Encode(opts) == EncodeOpt(opts[0]) + Encode(opts[1..])
  {
  }

  lemma HeadTail(buf: seq<byte>, p: nat, a: seq<byte>, b: seq<byte>)
    requires p + |a| + |b| <= |buf| && buf[p..p + |a + b|] == a + b
    ensures buf[p..p + |a|] == a && buf[p + |a|..p + |a| + |b|] == b
  {
    var w := buf[p..p + |a + b|];
    assert w[..|a|] == a && w[|a|..] == b;
    assert buf[p..p + |a|] == w[..|a|] && buf[p + |a|..p + |a| + |b|] == w[|a|..];
  }

  /** The client's loop over the options, with its moving cursor. */
  method ReadOptions(buf: seq<byte>, start: nat, end: nat, before: Info, svr: seq<byte>) returns (info: Info)
    requires start < end ==> end + 6 <= |buf|
    ensures info == Read(buf, start, end, before, svr)
  {
    hide BigEndian;
    info := before;
    var p := start;
    while p < end
      invariant Read(buf, p, end, info, svr) == Read(buf, start, end, before, svr)
    {
      if buf[p] == END {
        p := end;
        return;
      } else if buf[p] == PAD {
        p := p + 1;
      } else if buf[p] == MESSAGE_TYPE {
        info := info.(msgType := buf[p + 2]);
        p := p + 3;
      } else if buf[p] == SUBNET {
        info := info.(subnet := buf[p + 2..p + 6]);
        p := p + 6;
      } else if buf[p] == ROUTERS {
        info := info.(gateway := buf[p + 2..p + 6]);
        var optLen: int := buf[p + 1];
        p := p + 6 + (optLen - 4);
      } else if buf[p] == DNS {
        info := info.(dns := buf[p + 2..p + 6]);
        var optLen: int := buf[p + 1];
        p := p + 6 + (optLen - 4);
      } else if buf[p] == LEASE_TIME {
        info := info.(lease := BigEndian(buf[p + 2..p + 6]));
        p := p + 6;
      } else if buf[p] == SERVER_ID {
        info := info.(sip := buf[p + 2..p + 6], realSip := svr);
        p := p + 6;
      } else {
        p := p + 2 + buf[p + 1];
      }
    }
  }

  // ---------- the writers ----------

  function NibbleToHex(n: byte): byte
  {
    if n % 16 <= 9 then n % 16 + 48 else n % 16 + 55
  }

  function HexSuffix(mac: seq<byte>): (r: seq<byte>)
    requires |mac| == 6
    ensures |r| == 6
  {
    [NibbleToHex(mac[3] / 16), NibbleToHex(mac[3]), NibbleToHex(mac[4] / 16), NibbleToHex(mac[4]),
     NibbleToHex(mac[5] / 16), NibbleToHex(mac[5])]
  }

  function TypeOpt(t: byte): Opt { Tlv(MESSAGE_TYPE, [t]) }

  function ClientOpt(mac: seq<byte>): Opt { Tlv(CLIENT_ID, [1] + mac) }

  function HostOpt(host: seq<byte>, mac: seq<byte>): Opt
    requires |mac| == 6
  {
    Tlv(HOST_NAME, host + HexSuffix(mac))
  }

  function DiscoverOpts(mac: seq<byte>, host: seq<byte>): seq<Opt>
    requires |mac| == 6
  {
    [TypeOpt(DHCP_DISCOVER), ClientOpt(mac), HostOpt(host, mac), Tlv(PARAM_REQUEST, [1, 3, 6, 15, 58, 59])]
  }

  /** The requested address and the server are named only in a broadcast request. */
  function RequestOpts(mac: seq<byte>, host: seq<byte>, dest: seq<byte>, ip: seq<byte>, sip: seq<byte>): seq<Opt>
    requires |mac| == 6 && |dest| == 4
  {
    [TypeOpt(DHCP_REQUEST), ClientOpt(mac)]
    + (if dest[3] == 255 then [Tlv(REQUESTED_IP, ip), Tlv(SERVER_ID, sip)] else [])
    + [HostOpt(host, mac), Tlv(PARAM_REQUEST, [1, 3, 6, 15, 58, 59, 31, 33])]
  }

  function DeclineOpts(mac: seq<byte>, ip: seq<byte>, sip: seq<byte>): seq<Opt>
    requires |mac| == 6
  {
    [TypeOpt(DHCP_DECLINE), ClientOpt(mac), Tlv(REQUESTED_IP, ip), Tlv(SERVER_ID, sip)]
  }

  /** The whole option area: cookie, list, end mark, zeros. */
  ghost predicate IsArea(area: seq<byte>, opts: seq<Opt>)
    requires forall i :: 0 <= i < |opts| && opts[i].Tlv? ==> |opts[i].data| < 256
  {
    var n := 4 + |Encode(opts)| + 1;
    |area| == OPT_SIZE && n <= OPT_SIZE && area[..n] == COOKIE + Encode(opts) + [END]
    && forall i :: n <= i < OPT_SIZE ==> area[i] == 0
  }

  lemma Extend(pre: seq<byte>, opts: seq<Opt>, o: Opt)
    requires forall i :: 0 <= i < |opts| && opts[i].Tlv? ==> |opts[i].data| < 256
    requires o.Tlv? ==> |o.data| < 256
    requires pre == COOKIE + Encode(opts)
    ensures pre + EncodeOpt(o) == COOKIE + Encode(opts + [o])
  {
    hide Encode, EncodeOpt;
    EncodeAppend(opts, o);
    Associate(COOKIE, Encode(opts), EncodeOpt(o));
  }

  /** Writes one option. */
  method PutOpt(opt: array<byte>, k: nat, o: Opt, ghost opts: seq<Opt>) returns (next: nat)
    requires o.Tlv? && |o.data| < 256 && k + 2 + |o.data| <= opt.Length
    requires forall i :: 0 <= i < |opts| && opts[i].Tlv? ==> |opts[i].data| < 256
    requires opt[..k] == COOKIE + Encode(opts)
    modifies opt
    ensures next == k + 2 + |o.data| && opt[..next] == COOKIE + Encode(opts + [o])
  {
    hide Encode;
    Extend(opt[..k], opts, o);
    next := PutTlv(opt, k, o.code, o.data);
  }

  method PutTlv(opt: array<byte>, k: nat, code: byte, data: seq<byte>) returns (next: nat)
    requires |data| < 256 && k + 2 + |data| <= opt.Length
    modifies opt
    ensures next == k + 2 + |data| && opt[..next] == old(opt[..k]) + ([code, |data|] + data)
  {
    next := Put(opt, k, [code, |data|]);
    next := Put(opt, next, data);
  }

  /** Writes the host name option: its length is left zero first and patched once the name is out. */
  method PutHost(opt: array<byte>, k: nat, host: seq<byte>, mac: seq<byte>, ghost opts: seq<Opt>) returns (next: nat)
    requires |mac| == 6 && |host| + 6 < 256 && k + 8 + |host| <= opt.Length
    requires forall i :: 0 <= i < |opts| && opts[i].Tlv? ==> |opts[i].data| < 256
    requires opt[..k] == COOKIE + Encode(opts)
    modifies opt
    ensures next == k + 8 + |host| && opt[..next] == COOKIE + Encode(opts + [HostOpt(host, mac)])
  {
    hide Encode, HexSuffix;
    Extend(opt[..k], opts, HostOpt(host, mac));
    next := PutPatched(opt, k, host, HexSuffix(mac));
  }

  method PutPatched(opt: array<byte>, k: nat, host: seq<byte>, hex: seq<byte>) returns (next: nat)
    requires |hex| == 6 && |host| + 6 < 256 && k + 8 + |host| <= opt.Length
    modifies opt
    ensures next == k + 8 + |host| && opt[..next] == old(opt[..k]) + ([HOST_NAME, |host| + 6] + (host + hex))
  {
    ghost var pre := opt[..k];
    next := Put(opt, k, [HOST_NAME, 0]);
    next := Put(opt, next, host);
    next := Put(opt, next, hex);
    var i := |host|;
    var length: byte := i + 6;
    ghost var before := opt[..next];
    assert before == pre + ([HOST_NAME, 0] + (host + hex));
    opt[next - (i + 6 + 1)] := length;
    assert opt[..next] == before[k + 1 := length];
    Patch(pre, host + hex, length);
  }

  lemma Patch(pre: seq<byte>, data: seq<byte>, length: byte)
    ensures (pre + ([HOST_NAME, 0] + data))[|pre| + 1 := length] == pre + ([HOST_NAME, length] + data)
  {
  }

  /** Closes the list and clears the rest of the area. */
  method Finish(opt: array<byte>, k: nat, ghost opts: seq<Opt>)
    requires opt.Length == OPT_SIZE && k < OPT_SIZE
    requires forall i :: 0 <= i < |opts| && opts[i].Tlv? ==> |opts[i].data| < 256
    requires opt[..k] == COOKIE + Encode(opts)
    modifies opt
    ensures IsArea(opt[..], opts)
  {
    var next := Put(opt, k, [END]);
    ghost var done := opt[..next];
    for i := next to OPT_SIZE
      invariant opt[..next] == done
      invariant forall j :: next <= j < i ==> opt[j] == 0
    {
      opt[i] := 0;
    }
  }

  method Begin(opt: array<byte>) returns (k: nat)
    requires opt.Length == OPT_SIZE
    modifies opt
    ensures k == 4 && opt[..k] == COOKIE + Encode([])
  {
    k := Put(opt, 0, COOKIE);
  }

  /** The option area of send_DHCP_DISCOVER, for any host name that fits. */
  method BuildDiscover(opt: array<byte>, mac: seq<byte>, host: seq<byte>)
    requires opt.Length == OPT_SIZE && |mac| == 6 && |host| + 6 < 256
    modifies opt
    ensures IsArea(opt[..], DiscoverOpts(mac, host))
  {
    hide Encode, HexSuffix;
    var o := DiscoverOpts(mac, host);
    var k := Begin(opt);
    k := PutOpt(opt, k, o[0], []);
    assert [] + [o[0]] == [o[0]];
    k := PutOpt(opt, k, o[1], [o[0]]);
    assert [o[0]] + [o[1]] == [o[0], o[1]];
    k := PutHost(opt, k, host, mac, [o[0], o[1]]);
    assert [o[0], o[1]] + [o[2]] == [o[0], o[1], o[2]];
    k := PutOpt(opt, k, o[3], [o[0], o[1], o[2]]);
    assert [o[0], o[1], o[2]] + [o[3]] == o;
    Finish(opt, k, o);
  }

  /** The option area of send_DHCP_REQUEST to a destination. */
  method BuildRequest(opt: array<byte>, mac: seq<byte>, host: seq<byte>, dest: seq<byte>, ip: seq<byte>, sip: seq<byte>)
    requires opt.Length == OPT_SIZE && |mac| == 6 && |host| + 6 < 256 && |dest| == |ip| == |sip| == 4
    modifies opt
    ensures IsArea(opt[..], RequestOpts(mac, host, dest, ip, sip))
  {
    hide Encode, HexSuffix, EncodeOpt;
    var r, s := Tlv(REQUESTED_IP, ip), Tlv(SERVER_ID, sip);
    var h, q := HostOpt(host, mac), Tlv(PARAM_REQUEST, [1, 3, 6, 15, 58, 59, 31, 33]);
    ghost var opts := [];
    var k := Begin(opt);
    k := PutOpt(opt, k, TypeOpt(DHCP_REQUEST), opts);
    opts := opts + [TypeOpt(DHCP_REQUEST)];
    k := PutOpt(opt, k, ClientOpt(mac), opts);
    opts := opts + [ClientOpt(mac)];
    if dest[3] == 255 {
      k := PutOpt(opt, k, r, opts);
      opts := opts + [r];
      k := PutOpt(opt, k, s, opts);
      opts := opts + [s];
    }
    k := PutHost(opt, k, host, mac, opts);
    opts := opts + [h];
    k := PutOpt(opt, k, q, opts);
    opts := opts + [q];
    assert opts == RequestOpts(mac, host, dest, ip, sip);
    Finish(opt, k, opts);
  }

  /** The option area of send_DHCP_DECLINE. */
  method BuildDecline(opt: array<byte>, mac: seq<byte>, ip: seq<byte>, sip: seq<byte>)
    requires opt.Length == OPT_SIZE && |mac| == 6 && |ip| == |sip| == 4
    modifies opt
    ensures IsArea(opt[..], DeclineOpts(mac, ip, sip))
  {
    hide Encode;
    var o := DeclineOpts(mac, ip, sip);
    var k := Begin(opt);
    k := PutOpt(opt, k, o[0], []);
    assert [] + [o[0]] == [o[0]];
    k := PutOpt(opt, k, o[1], [o[0]]);
    assert [o[0]] + [o[1]] == [o[0], o[1]];
    k := PutOpt(opt, k, o[2], [o[0], o[1]]);
    assert [o[0], o[1]] + [o[2]] == [o[0], o[1], o[2]];
    k := PutOpt(opt, k, o[3], [o[0], o[1], o[2]]);
    assert [o[0], o[1], o[2]] + [o[3]] == o;
    Finish(opt, k, o);
  }

  /** Whatever a sender wrote, the reading loop finds again: behind any 236-byte header, and whatever
      memory follows. */
  lemma AreaReadsBack(header: seq<byte>, area: seq<byte>, memory: seq<byte>, opts: seq<Opt>, info: Info, svr: seq<byte>)
    requires |header| == 236 && |memory| >= 6 && OptsOk(opts) && IsArea(area, opts)
    ensures Read(header + area + memory, 240, 548, info, svr) == LearnAll(info, opts, svr)
  {
    hide Encode, Read;
    var buf, p, e := header + area + memory, OPT_START + 4, Encode(opts);
    var n := 4 + |e| + 1;
    assert area[..n] == COOKIE + (e + [END]);
    assert buf[OPT_START..OPT_START + n] == area[..n];
    HeadTail(buf, OPT_START, COOKIE, e + [END]);
    HeadTail(buf, p, e, [END]);
    ReadsList(buf, p, OPT_START + OPT_SIZE, info, svr, opts);
  }

  /** In particular the lists the senders write are well formed. */
  lemma SentListsOk(mac: seq<byte>, host: seq<byte>, dest: seq<byte>, ip: seq<byte>, sip: seq<byte>)
    requires |mac| == 6 && |host| + 6 < 256 && |dest| == |ip| == |sip| == 4
    ensures OptsOk(DiscoverOpts(mac, host)) && OptsOk(RequestOpts(mac, host, dest, ip, sip))
    ensures OptsOk(DeclineOpts(mac, ip, sip))
  {
  }

  // ---------- what the senders' lists say ----------

  lemma LastCons(o: Opt, rest: seq<Opt>, code: byte)
    requires OptOk(o) && OptsOk(rest)
    ensures Last([o] + rest, code)
         == if Last(rest, code).Some? then Last(rest, code)
            else if o.Tlv? && o.code == code then Some(o.data)
            else None
  {
    assert ([o] + rest)[1..] == rest;
  }

  lemma LastNone(code: byte)
    ensures Last([], code) == None
  {
  }

  /** The last option with a code, in a list of options with different codes. */
  lemma {:induction false} LastIs(opts: seq<Opt>, i: nat, code: byte)
    requires OptsOk(opts) && i < |opts| && opts[i].Tlv? && opts[i].code == code
    requires forall j :: i < j < |opts| ==> opts[j].Tlv? && opts[j].code != code
    ensures Last(opts, code) == Some(opts[i].data)
    decreases |opts|
  {
    assert opts == [opts[0]] + opts[1..];
    LastCons(opts[0], opts[1..], code);
    if i == 0 {
      Absent(opts[1..], code);
    } else {
      LastIs(opts[1..], i - 1, code);
    }
  }

  lemma {:induction false} Absent(opts: seq<Opt>, code: byte)
    requires OptsOk(opts) && forall j :: 0 <= j < |opts| ==> opts[j].Tlv? && opts[j].code != code
    ensures Last(opts, code) == None
    decreases |opts|
  {
    if opts == [] {
    } else {
      Absent(opts[1..], code);
    }
  }

  /** What a DISCOVER asks: as a client with its hardware address and name. */
  lemma DiscoverSays(mac: seq<byte>, host: seq<byte>)
    requires |mac| == 6 && |host| + 6 < 256
    ensures OptsOk(DiscoverOpts(mac, host))
    ensures var o := DiscoverOpts(mac, host);
            && Last(o, 53) == Some([1]) && Last(o, 61) == Some([1] + mac) && Last(o, 12) == Some(host + HexSuffix(mac))
            && Last(o, 55) == Some([1, 3, 6, 15, 58, 59]) && Last(o, 50) == None && Last(o, 54) == None
  {
    hide HexSuffix, Last;
    var o := DiscoverOpts(mac, host);
    LastIs(o, 0, 53);
    LastIs(o, 1, 61);
    LastIs(o, 2, 12);
    LastIs(o, 3, 55);
    Absent(o, 50);
    Absent(o, 54);
  }

  /** A broadcast REQUEST names the address it wants and the server it wants it from; a directed one neither. */
  lemma RequestSays(mac: seq<byte>, host: seq<byte>, dest: seq<byte>, ip: seq<byte>, sip: seq<byte>)
    requires |mac| == 6 && |host| + 6 < 256 && |dest| == |ip| == |sip| == 4
    ensures OptsOk(RequestOpts(mac, host, dest, ip, sip))
    ensures var o := RequestOpts(mac, host, dest, ip, sip);
            && Last(o, 53) == Some([3]) && Last(o, 61) == Some([1] + mac) && Last(o, 12) == Some(host + HexSuffix(mac))
            && Last(o, 55) == Some([1, 3, 6, 15, 58, 59, 31, 33])
            && Last(o, 50) == (if dest[3] == 255 then Some(ip) else None)
            && Last(o, 54) == (if dest[3] == 255 then Some(sip) else None)
  {
    hide HexSuffix, Last;
    var o := RequestOpts(mac, host, dest, ip, sip);
    LastIs(o, 0, 53);
    LastIs(o, 1, 61);
    LastIs(o, |o| - 2, 12);
    LastIs(o, |o| - 1, 55);
    if dest[3] == 255 {
      LastIs(o, 2, 50);
      LastIs(o, 3, 54);
    } else {
      Absent(o, 50);
      Absent(o, 54);
    }
  }

  /** A DECLINE names the address it refuses and the server that offered it. */
  lemma DeclineSays(mac: seq<byte>, ip: seq<byte>, sip: seq<byte>)
    requires |mac| == 6 && |ip| == |sip| == 4
    ensures OptsOk(DeclineOpts(mac, ip, sip))
    ensures var o := DeclineOpts(mac, ip, sip);
            && Last(o, 53) == Some([4]) && Last(o, 61) == Some([1] + mac)
            && Last(o, 50) == Some(ip) && Last(o, 54) == Some(sip)
  {
    hide Last;
    var o := DeclineOpts(mac, ip, sip);
    LastIs(o, 0, 53);
    LastIs(o, 1, 61);
    LastIs(o, 2, 50);
    LastIs(o, 3, 54);
  }

  const HEX_DIGITS: string := "0123456789ABCDEF"

  /** The name's suffix: the last three bytes of the hardware address in hexadecimal, high digit first. */
  lemma SuffixDigits(mac: seq<byte>, i: nat)
    requires |mac| == 6 && i < 3
    ensures HexSuffix(mac)[2 * i] == HEX_DIGITS[mac[3 + i] / 16] as int
    ensures HexSuffix(mac)[2 * i + 1] == HEX_DIGITS[mac[3 + i] % 16] as int
  {
    hide NibbleToHex;
    var b := mac[3 + i];
    NibbleDigit(b / 16);
    NibbleDigit(b);
    assert b / 16 < 16;
  }

  lemma NibbleDigit(n: byte)
    ensures NibbleToHex(n) == HEX_DIGITS[n % 16] as int
  {
  }

  /** The area begins with the magic cookie of section 2 of RFC 2132 and ends its list with 255. */
  lemma AreaFrame(area: seq<byte>, opts: seq<Opt>)
    requires OptsOk(opts) && IsArea(area, opts)
    ensures area[..4] == [0x63, 0x82, 0x53, 0x63] && area[4..4 + |Encode(opts)|] == Encode(opts)
    ensures area[4 + |Encode(opts)|] == 255
    ensures |area| == 312 && forall i :: 5 + |Encode(opts)| <= i < 312 ==> area[i] == 0
  {
    hide Encode;
    var e := Encode(opts);
    assert area[0..4 + |e + [END]|] == COOKIE + (e + [END]) by { Associate(COOKIE, e, [END]); }
    HeadTail(area, 0, COOKIE, e + [END]);
    HeadTail(area, 4, e, [END]);
    assert area[4 + |e|..4 + |e| + 1][0] == 255;
  }
}
