/** The DHCP client's timed state machine (RFC 2131), one `DHCP_run` at a time. */
module DhcpClient {
  import opened Bytes
  import Opts = DhcpOptions

  const MAX_RETRY: nat := 2
  const WAIT_TIME: nat := 10
  const INFINITE: nat := 0xFFFF_FFFF
  const SERVER_PORT: nat := 67
  const ZERO_IP: seq<byte> := [0, 0, 0, 0]
  const BROADCAST: seq<byte> := [255, 255, 255, 255]

  datatype Phase = Init | Discover | Request | Leased | Rerequest | Stopped

  /** The client's globals; `next` is dhcp_tick_next, and info what the messages so far have taught. */
  datatype Client = Client(phase: Phase, retry: nat, tick: nat, next: nat,
                           ip: seq<byte>, oldIp: seq<byte>, info: Opts.Info)

  datatype Packet = Packet(svr: seq<byte>, port: nat, buf: seq<byte>, len: nat)

  datatype Arrival = Nothing | Received(packet: Packet)

  /** What one run finds: perhaps a packet, and whether a probe of the address stays unanswered. */
  datatype Input = Input(arrival: Arrival, probeTimesOut: bool)

  datatype Ret = Failed | Running | IpAssign | IpChanged | IpLeased | HasStopped

  datatype Sent = SentDiscover | SentRequest(dest: seq<byte>, ip: seq<byte>) | SentDecline(ip: seq<byte>)

  /** The message buffer is long enough for the fixed part, and the loop over the options may look six
      bytes further than the message. */
  predicate PacketOk(pk: Packet)
  {
    |pk.svr| == 4 && |pk.buf| >= 246 && pk.len + 6 <= |pk.buf|
  }

  predicate InputOk(inp: Input) { inp.arrival.Received? ==> PacketOk(inp.arrival.packet) }

  // ---------- the meaning of a run ----------

  /** Whether the message is for this client and from the server it talks to, if it has one. */
  predicate Mine(info: Opts.Info, mac: seq<byte>, pk: Packet)
    requires PacketOk(pk)
  {
    pk.port == SERVER_PORT && pk.buf[28..34] == mac
    && (info.sip == ZERO_IP || pk.svr == info.sip || pk.svr == info.realSip)
  }

  /** parseDHCPMSG: the message's type, 0 when there is none for us, and what its options teach. */
  function Parse(info: Opts.Info, mac: seq<byte>, a: Arrival): Opts.Info
    requires a.Received? ==> PacketOk(a.packet)
  {
    if a.Received? && Mine(info, mac, a.packet)
    then Opts.Read(a.packet.buf, 240, a.packet.len, info.(msgType := 0), a.packet.svr)
    else info.(msgType := 0)
  }

  function YourIp(a: Arrival): seq<byte>
    requires a.Received? && PacketOk(a.packet)
  {
    a.packet.buf[16..20]
  }

  function NoServer(info: Opts.Info): Opts.Info { info.(sip := ZERO_IP, realSip := ZERO_IP) }

  function Reset(c: Client): Client { c.(tick := 0, next := WAIT_TIME, retry := 0) }

  function Destination(c: Client): seq<byte>
  {
    if c.phase == Leased || c.phase == Rerequest then c.info.sip else BROADCAST
  }

  /** check_DHCP_timeout. */
  function Timeout(c: Client): (Client, Ret, seq<Sent>)
  {
    if c.retry < MAX_RETRY then
      if c.next < c.tick then
        var c1 := c.(tick := 0, next := WAIT_TIME, retry := c.retry + 1);
        match c.phase
        case Discover => (c1.(info := NoServer(c1.info)), Running, [SentDiscover])
        case Request => (c1, Running, [SentRequest(Destination(c), c.ip)])
        case Rerequest => (c1, Running, [SentRequest(Destination(c), c.ip)])
        case _ => (c1, Running, [])
      else (c, Running, [])
    else
      match c.phase
      case Discover => (Reset(c).(phase := Init), Failed, [])
      case Request => (Reset(c).(phase := Discover, info := NoServer(c.info)), Running, [SentDiscover])
      case Rerequest => (Reset(c).(phase := Discover, info := NoServer(c.info)), Running, [SentDiscover])
      case _ => (Reset(c), Running, [])
  }

  /** DHCP_run. */
  function Run(c0: Client, mac: seq<byte>, inp: Input): (Client, Ret, seq<Sent>)
    requires InputOk(inp)
  {
    if c0.phase == Stopped then (c0, HasStopped, [])
    else
      var c := c0.(info := Parse(c0.info, mac, inp.arrival));
      var t := c.info.msgType;
      match c.phase
      case Init =>
        (c.(ip := ZERO_IP, phase := Discover, info := NoServer(c.info)), Running, [SentDiscover])
      case Discover =>
        if t == Opts.DHCP_OFFER && inp.arrival.Received? then
          (c.(ip := YourIp(inp.arrival), phase := Request), Running, [SentRequest(BROADCAST, YourIp(inp.arrival))])
        else Timeout(c)
      case Request =>
        if t == Opts.DHCP_ACK then
          if inp.probeTimesOut then (Reset(c).(phase := Leased), Running, [])
          else (Reset(c).(phase := Init), Running, [SentDecline(c.ip)])
        else if t == Opts.DHCP_NAK then (Reset(c).(phase := Discover), Running, [])
        else Timeout(c)
      case Leased =>
        if c.info.lease != INFINITE && c.info.lease / 2 < c.tick then
          (Reset(c).(oldIp := c.ip, phase := Rerequest), IpLeased, [SentRequest(c.info.sip, c.ip)])
        else (c, IpLeased, [])
      case Rerequest =>
        if t == Opts.DHCP_ACK then
          (Reset(c).(phase := Leased), if c.oldIp != c.ip then IpChanged else IpLeased, [])
        else if t == Opts.DHCP_NAK then (Reset(c).(phase := Discover), IpLeased, [])
        else Timeout(c)
      case Stopped => (c, HasStopped, [])
  }

  // ---------- the client itself ----------

  class DhcpMachine {
    const mac: seq<byte>
    var phase: Phase
    var retry: nat
    var tick: nat
    var next: nat
    var ip: seq<byte>
    var oldIp: seq<byte>
    var info: Opts.Info
    var outbox: seq<Sent> // what has been sent, oldest first

    function Snapshot(): Client
      reads this
    {
      Client(phase, retry, tick, next, ip, oldIp, info)
    }

    constructor (mac: seq<byte>)
      ensures Snapshot() == PowerOn() && outbox == [] && this.mac == mac
    {
      this.mac, phase, retry, tick, next := mac, Init, 0, 0, WAIT_TIME;
      ip, oldIp, outbox := ZERO_IP, ZERO_IP, [];
      info := PowerOn().info;
    }

    /** DHCP_init. */
    method Initialize()
      modifies this
      ensures Snapshot() == Reset(old(Snapshot())).(phase := Init) && outbox == old(outbox)
    {
      ResetTimeout();
      phase := Init;
    }

    /** DHCP_stop. */
    method Stop()
      modifies this
      ensures Snapshot() == old(Snapshot()).(phase := Stopped) && outbox == old(outbox)
    {
      phase := Stopped;
    }

    /** DHCP_time_handler. */
    method TimeHandler()
      modifies this
      ensures Snapshot() == Tick(old(Snapshot())) && outbox == old(outbox)
    {
      tick := (tick + 1) % 0x1_0000_0000;
    }

    method ResetTimeout()
      modifies this`tick, this`next, this`retry
      ensures Snapshot() == Reset(old(Snapshot()))
    {
      tick, next, retry := 0, WAIT_TIME, 0;
    }

    method SendDiscover()
      modifies this`info, this`outbox
      ensures Snapshot() == old(Snapshot()).(info := NoServer(old(info))) && outbox == old(outbox) + [SentDiscover]
    {
      info := info.(sip := ZERO_IP, realSip := ZERO_IP);
      outbox := outbox + [SentDiscover];
    }

    method SendRequest()
      modifies this`outbox
      ensures outbox == old(outbox) + [SentRequest(Destination(Snapshot()), ip)]
    {
      var dest := if phase == Leased || phase == Rerequest then info.sip else BROADCAST;
      outbox := outbox + [SentRequest(dest, ip)];
    }

    method ParseMessage(a: Arrival) returns (msgType: byte)
      requires a.Received? ==> PacketOk(a.packet)
      modifies this`info
      ensures info == Parse(old(info), mac, a) && msgType == info.msgType
    {
      info := info.(msgType := 0);
      if a.Received? {
        var pk := a.packet;
        if pk.port == SERVER_PORT {
          if pk.buf[28..34] != mac {
            return 0;
          }
          if info.sip != ZERO_IP && pk.svr != info.sip && pk.svr != info.realSip {
            return 0;
          }
          info := Opts.ReadOptions(pk.buf, 240, pk.len, info, pk.svr);
        }
      }
      msgType := info.msgType;
    }

    /** Asks whether anyone answers for the leased address; if so declines it. */
    method CheckLeasedIp(probeTimesOut: bool) returns (free: bool)
      modifies this`outbox
      ensures free == probeTimesOut && outbox == old(outbox) + (if free then [] else [SentDecline(ip)])
    {
      free := probeTimesOut;
      if !free {
        outbox := outbox + [SentDecline(ip)];
      }
    }

    method CheckTimeout() returns (ret: Ret)
      modifies this
      ensures var r := Timeout(old(Snapshot())); Snapshot() == r.0 && ret == r.1 && outbox == old(outbox) + r.2
    {
      ret := Running;
      if retry < MAX_RETRY {
        if next < tick {
          match phase {
            case Discover => SendDiscover();
            case Request => SendRequest();
            case Rerequest => SendRequest();
            case _ =>
          }
          tick := 0;
          next := tick + WAIT_TIME;
          retry := retry + 1;
        }
      } else {
        match phase {
          case Discover =>
            phase := Init;
            ret := Failed;
          case Request =>
            SendDiscover();
            phase := Discover;
          case Rerequest =>
            SendDiscover();
            phase := Discover;
          case _ =>
        }
        ResetTimeout();
      }
    }

    /** DHCP_run. */
    method DhcpRun(inp: Input) returns (ret: Ret)
      requires InputOk(inp)
      modifies this
      ensures var r := Run(old(Snapshot()), mac, inp); Snapshot() == r.0 && ret == r.1 && outbox == old(outbox) + r.2
    {
      hide Parse;
      if phase == Stopped {
        return HasStopped;
      }
      ret := Running;
      var msgType := ParseMessage(inp.arrival);
      match phase {
        case Init =>
          ip := ZERO_IP;
          SendDiscover();
          phase := Discover;
        case Discover =>
          if msgType == Opts.DHCP_OFFER && inp.arrival.Received? {
            ip := inp.arrival.packet.buf[16..20];
            SendRequest();
            phase := Request;
          } else {
            ret := CheckTimeout();
          }
        case Request =>
          if msgType == Opts.DHCP_ACK {
            var free := CheckLeasedIp(inp.probeTimesOut);
            ResetTimeout();
            phase := if free then Leased else Init;
          } else if msgType == Opts.DHCP_NAK {
            ResetTimeout();
            phase := Discover;
          } else {
            ret := CheckTimeout();
          }
        case Leased =>
          ret := IpLeased;
          if info.lease != INFINITE && info.lease / 2 < tick {
            oldIp := ip;
            SendRequest();
            ResetTimeout();
            phase := Rerequest;
          }
        case Rerequest =>
          ret := IpLeased;
          if msgType == Opts.DHCP_ACK {
            if oldIp != ip {
              ret := IpChanged;
            }
            ResetTimeout();
            phase := Leased;
          } else if msgType == Opts.DHCP_NAK {
            ResetTimeout();
            phase := Discover;
          } else {
            ret := CheckTimeout();
          }
        case Stopped =>
      }
    }
  }

  function PowerOn(): Client
  {
    Client(Init, 0, 0, WAIT_TIME, ZERO_IP, ZERO_IP,
           Opts.Info(0, ZERO_IP, ZERO_IP, ZERO_IP, INFINITE, ZERO_IP, ZERO_IP))
  }

  /** The 32-bit second counter. */
  function Tick(c: Client): Client { c.(tick := (c.tick + 1) % 0x1_0000_0000) }

  // ---------- the exchange ----------

  /** A message for this client, from the server it talks to if it has one, that carries these options. */
  ghost predicate Reply(info: Opts.Info, mac: seq<byte>, pk: Packet, opts: seq<Opts.Opt>)
  {
    && PacketOk(pk) && Opts.OptsOk(opts)
    && pk.port == 67 && pk.buf[28..34] == mac
    && (info.sip == [0, 0, 0, 0] || pk.svr == info.sip || pk.svr == info.realSip)
    && var n := |Opts.Encode(opts)|;
       240 + n <= pk.len && pk.buf[240..240 + n] == Opts.Encode(opts)
       && (240 + n == pk.len || pk.buf[240 + n] == 255)
  }

  /** What a client has learned from it, by option number. */
  ghost predicate Learned(i: Opts.Info, before: Opts.Info, opts: seq<Opts.Opt>, svr: seq<byte>)
    requires Opts.OptsOk(opts)
  {
    && i.msgType == (match Opts.Last(opts, 53) case Some(d) => d[0] case None => 0)
    && i.subnet == (match Opts.Last(opts, 1) case Some(d) => d case None => before.subnet)
    && i.gateway == (match Opts.Last(opts, 3) case Some(d) => d[..4] case None => before.gateway)
    && i.dns == (match Opts.Last(opts, 6) case Some(d) => d[..4] case None => before.dns)
    && i.lease == (match Opts.Last(opts, 51)
                   case Some(d) => d[0] as int * 16777216 + d[1] as int * 65536 + d[2] as int * 256 + d[3] as int
                   case None => before.lease)
    && i.sip == (match Opts.Last(opts, 54) case Some(d) => d case None => before.sip)
    && i.realSip == (if Opts.Last(opts, 54).Some? then svr else before.realSip)
  }

  lemma ReplyLearned(info: Opts.Info, mac: seq<byte>, pk: Packet, opts: seq<Opts.Opt>)
    requires Reply(info, mac, pk, opts)
    ensures Learned(Parse(info, mac, Received(pk)), info, opts, pk.svr)
  {
    hide Opts.Encode, Opts.BigEndian, Opts.Read, Opts.Last;
    Opts.ReadsList(pk.buf, 240, pk.len, info.(msgType := 0), pk.svr, opts);
    Opts.LastWins(info.(msgType := 0), opts, pk.svr);
    if Opts.Last(opts, 51).Some? {
      Opts.BigEndianNumeral(Opts.Last(opts, 51).data);
    }
  }

  /** Any other message is as good as none. */
  lemma OthersIgnored(c: Client, mac: seq<byte>, pk: Packet, probe: bool)
    requires PacketOk(pk)
    requires pk.port != 67 || pk.buf[28..34] != mac
             || (c.info.sip != [0, 0, 0, 0] && pk.svr != c.info.sip && pk.svr != c.info.realSip)
    ensures Run(c, mac, Input(Received(pk), probe)) == Run(c, mac, Input(Nothing, probe))
  {
  }

  /** From INIT the client asks for an address. */
  lemma InitDiscovers(c: Client, mac: seq<byte>, inp: Input)
    requires InputOk(inp) && c.phase == Init
    ensures var (c', ret, sent) := Run(c, mac, inp);
            && c'.phase == Discover && ret == Running && sent == [SentDiscover]
            && c'.ip == [0, 0, 0, 0] == c'.info.sip == c'.info.realSip
            && c'.tick == c.tick && c'.next == c.next && c'.retry == c.retry
  {
    hide Parse;
  }

  /** It requests the address of the first OFFER, from everyone. */
  lemma OfferRequested(c: Client, mac: seq<byte>, pk: Packet, opts: seq<Opts.Opt>, probe: bool)
    requires c.phase == Discover && Reply(c.info, mac, pk, opts) && Opts.Last(opts, 53) == Opts.Some([2])
    ensures var (c', ret, sent) := Run(c, mac, Input(Received(pk), probe));
            && c'.phase == Request && c'.ip == pk.buf[16..20]
            && ret == Running && sent == [SentRequest([255, 255, 255, 255], pk.buf[16..20])]
            && Learned(c'.info, c.info, opts, pk.svr)
            && c'.tick == c.tick && c'.next == c.next && c'.retry == c.retry
  {
    hide Parse;
    ReplyLearned(c.info, mac, pk, opts);
  }

  /** An ACK gives the address to the client if nobody answers the probe of it, and is declined otherwise;
      when it renews there is no probe. */
  lemma AckAnswered(c: Client, mac: seq<byte>, pk: Packet, opts: seq<Opts.Opt>, probeTimesOut: bool)
    requires (c.phase == Request || c.phase == Rerequest) && Reply(c.info, mac, pk, opts)
    requires Opts.Last(opts, 53) == Opts.Some([5])
    ensures var (c', ret, sent) := Run(c, mac, Input(Received(pk), probeTimesOut));
            && c'.ip == c.ip && c'.tick == 0 && c'.next == 10 && c'.retry == 0
            && Learned(c'.info, c.info, opts, pk.svr)
            && (c.phase == Request && probeTimesOut ==> c'.phase == Leased && ret == Running && sent == [])
            && (c.phase == Request && !probeTimesOut ==>
                 c'.phase == Init && ret == Running && sent == [SentDecline(c.ip)])
            && (c.phase == Rerequest ==>
                 c'.phase == Leased && ret == (if c.oldIp == c.ip then IpLeased else IpChanged) && sent == [])
  {
    hide Parse;
    ReplyLearned(c.info, mac, pk, opts);
  }

  /** A NAK sends it back to DISCOVER, where it waits without having sent a DISCOVER. */
  lemma NakAnswered(c: Client, mac: seq<byte>, pk: Packet, opts: seq<Opts.Opt>, probe: bool)
    requires (c.phase == Request || c.phase == Rerequest) && Reply(c.info, mac, pk, opts)
    requires Opts.Last(opts, 53) == Opts.Some([6])
    ensures var (c', ret, sent) := Run(c, mac, Input(Received(pk), probe));
            && c'.phase == Discover && sent == [] && c'.ip == c.ip
            && c'.tick == 0 && c'.next == 10 && c'.retry == 0
            && ret == (if c.phase == Request then Running else IpLeased)
  {
    hide Parse;
    ReplyLearned(c.info, mac, pk, opts);
  }

  /** Half of a finite lease later it asks the server for the same address again; till then it does nothing. */
  lemma LeaseRenewed(c: Client, mac: seq<byte>, probe: bool)
    requires c.phase == Leased
    ensures var (c', ret, sent) := Run(c, mac, Input(Nothing, probe));
            && ret == IpLeased && c'.ip == c.ip && c'.info == c.info.(msgType := 0)
            && if c.info.lease != 4294967295 && c.info.lease / 2 < c.tick then
                 c'.phase == Rerequest && c'.oldIp == c.ip && sent == [SentRequest(c.info.sip, c.ip)]
                 && c'.tick == 0 && c'.next == 10 && c'.retry == 0
               else c'.phase == Leased && sent == [] && c'.tick == c.tick
  {
  }

  /** Without an answer it repeats itself twice, each time after ten seconds, and then starts again. */
  lemma SilenceAnswered(c: Client, mac: seq<byte>, probe: bool)
    requires c.phase == Discover || c.phase == Request || c.phase == Rerequest
    ensures var (c', ret, sent) := Run(c, mac, Input(Nothing, probe));
            && c'.ip == c.ip && c'.oldIp == c.oldIp
            && (c.retry < 2 && c.tick <= c.next ==>
                 c'.phase == c.phase && sent == [] && ret == Running
                 && c'.tick == c.tick && c'.next == c.next && c'.retry == c.retry)
            && (c.retry < 2 && c.tick > c.next ==>
                 c'.phase == c.phase && ret == Running && c'.tick == 0 && c'.next == 10 && c'.retry == c.retry + 1
                 && sent == (match c.phase
                             case Discover => [SentDiscover]
                             case Request => [SentRequest([255, 255, 255, 255], c.ip)]
                             case _ => [SentRequest(c.info.sip, c.ip)]))
            && (c.retry >= 2 ==>
                 c'.tick == 0 && c'.next == 10 && c'.retry == 0
                 && if c.phase == Discover then c'.phase == Init && ret == Failed && sent == []
                    else c'.phase == Discover && ret == Running && sent == [SentDiscover])
  {
  }

  /** The second counter has 32 bits. */
  lemma TickWraps(c: Client)
    requires c.tick < 4294967296
    ensures Tick(c) == c.(tick := if c.tick == 4294967295 then 0 else c.tick + 1)
  {
  }

  // ---------- safety over all runs ----------

  datatype Event = Second | Runs(inp: Input) | Start | Halt

  /** The client together with what has happened to it: the address of the last OFFER taken, and whether
      since then an ACK was taken whose probe stayed unanswered. */
  datatype Traced = Traced(c: Client, offer: Opts.Maybe, confirmed: bool)

  predicate EventOk(ev: Event) { ev.Runs? ==> InputOk(ev.inp) }

  function TakesOffer(c: Client, mac: seq<byte>, inp: Input): bool
    requires InputOk(inp)
  {
    c.phase == Discover && inp.arrival.Received? && Parse(c.info, mac, inp.arrival).msgType == Opts.DHCP_OFFER
  }

  function ConfirmsLease(c: Client, mac: seq<byte>, inp: Input): bool
    requires InputOk(inp)
  {
    c.phase == Request && Parse(c.info, mac, inp.arrival).msgType == Opts.DHCP_ACK && inp.probeTimesOut
  }

  function Happen(t: Traced, mac: seq<byte>, ev: Event): Traced
    requires EventOk(ev)
  {
    match ev
    case Second => t.(c := Tick(t.c))
    case Runs(inp) =>
      Traced(Run(t.c, mac, inp).0,
             if TakesOffer(t.c, mac, inp) then Opts.Some(YourIp(inp.arrival)) else t.offer,
             if TakesOffer(t.c, mac, inp) then false else t.confirmed || ConfirmsLease(t.c, mac, inp))
    case Start => t.(c := Reset(t.c).(phase := Init))
    case Halt => t.(c := t.c.(phase := Stopped))
  }

  function HappenAll(t: Traced, mac: seq<byte>, evs: seq<Event>): Traced
    requires forall i :: 0 <= i < |evs| ==> EventOk(evs[i])
    decreases |evs|
  {
    if evs == [] then t else HappenAll(Happen(t, mac, evs[0]), mac, evs[1..])
  }

  ghost predicate Safe(t: Traced)
  {
    && t.c.retry <= MAX_RETRY && t.c.next == WAIT_TIME
    && (t.c.phase == Request || t.c.phase == Leased || t.c.phase == Rerequest ==> t.offer == Opts.Some(t.c.ip))
    && (t.c.phase == Leased || t.c.phase == Rerequest ==> t.confirmed)
    && (t.c.phase == Rerequest ==> t.c.oldIp == t.c.ip)
  }

  lemma HappenSafe(t: Traced, mac: seq<byte>, ev: Event)
    requires Safe(t) && EventOk(ev)
    ensures Safe(Happen(t, mac, ev))
    ensures ev.Runs? ==> Run(t.c, mac, ev.inp).1 != IpChanged
  {
    hide Parse;
  }

  /** In every reachable state the retry count is at most 2; a client that requests or holds an address
      requests or holds the last one offered to it; one that holds it has probed it since; and a client
      that renews never finds its address changed. */
  lemma {:induction false} AlwaysSafe(mac: seq<byte>, evs: seq<Event>, t: Traced)
    requires forall i :: 0 <= i < |evs| ==> EventOk(evs[i])
    requires Safe(t)
    ensures Safe(HappenAll(t, mac, evs))
    decreases |evs|
  {
    if evs == [] {
    } else {
      HappenSafe(t, mac, evs[0]);
      AlwaysSafe(mac, evs[1..], Happen(t, mac, evs[0]));
    }
  }

  lemma ReachableSafe(mac: seq<byte>, evs: seq<Event>, inp: Input)
    requires (forall i :: 0 <= i < |evs| ==> EventOk(evs[i])) && InputOk(inp)
    ensures var t := HappenAll(Traced(PowerOn(), Opts.None, false), mac, evs);
            && t.c.retry <= 2 && t.c.next == 10
            && (t.c.phase == Request ==> t.offer == Opts.Some(t.c.ip))
            && (t.c.phase == Leased ==> t.offer == Opts.Some(t.c.ip) && t.confirmed)
            && (t.c.phase == Rerequest ==> t.offer == Opts.Some(t.c.ip) && t.confirmed && t.c.oldIp == t.c.ip)
            && Run(t.c, mac, inp).1 != IpChanged
  {
    var t0 := Traced(PowerOn(), Opts.None, false);
    AlwaysSafe(mac, evs, t0);
    HappenSafe(HappenAll(t0, mac, evs), mac, Runs(inp));
  }

  // ---------- an exchange over a run ----------

  function Seconds(n: nat): seq<Event> { seq(n, _ => Second) }

  lemma {:induction false} HappenMore(t: Traced, mac: seq<byte>, a: seq<Event>, b: seq<Event>)
    requires forall i :: 0 <= i < |a| ==> EventOk(a[i])
    requires forall i :: 0 <= i < |b| ==> EventOk(b[i])
    ensures forall i :: 0 <= i < |a + b| ==> EventOk((a + b)[i])
    ensures HappenAll(t, mac, a + b) == HappenAll(HappenAll(t, mac, a), mac, b)
    decreases |a|
  {
    hide Happen;
    if a == [] {
      assert a + b == b;
    } else {
      assert (a + b)[1..] == a[1..] + b;
      HappenMore(Happen(t, mac, a[0]), mac, a[1..], b);
    }
  }

  /** Seconds only count. */
  lemma {:induction false} SecondsCount(t: Traced, mac: seq<byte>, n: nat)
    ensures var t' := HappenAll(t, mac, Seconds(n)); t' == t.(c := t.c.(tick := t'.c.tick))
    decreases n
  {
    if n == 0 {
    } else {
      assert Seconds(n)[1..] == Seconds(n - 1);
      SecondsCount(t.(c := Tick(t.c)), mac, n - 1);
    }
  }

  lemma HappenOne(t: Traced, mac: seq<byte>, ev: Event)
    requires EventOk(ev)
    ensures HappenAll(t, mac, [ev]) == Happen(t, mac, ev)
  {
    assert [ev][1..] == [];
  }

  /** One run, some seconds later. */
  lemma RunAfter(t: Traced, mac: seq<byte>, n: nat, inp: Input)
    requires InputOk(inp)
    ensures var evs := Seconds(n) + [Runs(inp)];
            && (forall i :: 0 <= i < |evs| ==> EventOk(evs[i]))
            && exists tick: nat :: HappenAll(t, mac, evs).c == Run(t.c.(tick := tick), mac, inp).0
  {
    hide Run;
    HappenMore(t, mac, Seconds(n), [Runs(inp)]);
    SecondsCount(t, mac, n);
    var t' := HappenAll(t, mac, Seconds(n));
    HappenOne(t', mac, Runs(inp));
    assert t'.c == t.c.(tick := t'.c.tick);
  }

  /** From INIT, an OFFER and an ACK for this client, from the server of the OFFER and after any number of
      seconds each, lease the address offered, if nobody answers the probe of it. */
  lemma ExchangeLeases(t: Traced, mac: seq<byte>, first: Input, n: nat, offer: Packet, offered: seq<Opts.Opt>,
                       n': nat, ack: Packet, acked: seq<Opts.Opt>, server: seq<byte>)
    requires t.c.phase == Init && InputOk(first)
    requires Reply(PowerOn().info, mac, offer, offered)
    requires Opts.Last(offered, 53) == Opts.Some([2]) && Opts.Last(offered, 54) == Opts.Some(server)
    requires PacketOk(ack) && Reply(PowerOn().info, mac, ack, acked) && (ack.svr == server || ack.svr == offer.svr)
    requires Opts.Last(acked, 53) == Opts.Some([5])
    ensures var evs := [Runs(first)] + (Seconds(n) + [Runs(Input(Received(offer), false))])
                       + (Seconds(n') + [Runs(Input(Received(ack), true))]);
            && (forall i :: 0 <= i < |evs| ==> EventOk(evs[i]))
            && var c := HappenAll(t, mac, evs).c;
               c.phase == Leased && c.ip == offer.buf[16..20] && c.tick == 0
  {
    hide Run, Happen, Opts.Encode, Opts.Last, Learned;
    var a, b := [Runs(first)], Seconds(n) + [Runs(Input(Received(offer), false))];
    var d := Seconds(n') + [Runs(Input(Received(ack), true))];
    RunAfter(HappenAll(t, mac, a), mac, n, Input(Received(offer), false));
    HappenMore(t, mac, a, b);
    RunAfter(HappenAll(t, mac, a + b), mac, n', Input(Received(ack), true));
    HappenMore(t, mac, a + b, d);
    FirstRun(t, mac, first);
    var t1, t2 := HappenAll(t, mac, a), HappenAll(t, mac, a + b);
    var tick: nat :| t2.c == Run(t1.c.(tick := tick), mac, Input(Received(offer), false)).0;
    OfferRequested(t1.c.(tick := tick), mac, offer, offered, false);
    var tick': nat :| HappenAll(t, mac, a + b + d).c == Run(t2.c.(tick := tick'), mac, Input(Received(ack), true)).0;
    LearnedServer(t2.c.info, t1.c.info, offered, offer.svr, server);
    AckAnswered(t2.c.(tick := tick'), mac, ack, acked, true);
  }

  lemma FirstRun(t: Traced, mac: seq<byte>, first: Input)
    requires t.c.phase == Init && InputOk(first)
    ensures var c := HappenAll(t, mac, [Runs(first)]).c; c.phase == Discover && c.info.sip == [0, 0, 0, 0]
  {
    hide Parse;
    HappenOne(t, mac, Runs(first));
    InitDiscovers(t.c, mac, first);
  }

  lemma LearnedServer(i: Opts.Info, before: Opts.Info, opts: seq<Opts.Opt>, svr: seq<byte>, server: seq<byte>)
    requires Opts.OptsOk(opts) && Learned(i, before, opts, svr) && Opts.Last(opts, 54) == Opts.Some(server)
    ensures i.sip == server && i.realSip == svr
  {
  }

  // ---------- time ----------

  /** No reply that the client accepts in its phase, and while it counts its lease down none that changes
      the lease time. */
  predicate Quiet(c: Client, mac: seq<byte>, inp: Input)
    requires InputOk(inp)
  {
    var i := Parse(c.info, mac, inp.arrival);
    (c.phase == Leased ==> i.lease == c.info.lease)
    && match c.phase
       case Discover => i.msgType != Opts.DHCP_OFFER
       case Request => i.msgType != Opts.DHCP_ACK && i.msgType != Opts.DHCP_NAK
       case Rerequest => i.msgType != Opts.DHCP_ACK && i.msgType != Opts.DHCP_NAK
       case _ => true
  }

  /** One second, then one run. */
  function Round(c: Client, mac: seq<byte>, inp: Input): (Client, Ret, seq<Sent>)
    requires InputOk(inp)
  {
    Run(Tick(c), mac, inp)
  }

  /** Rounds until the wait that the timer is in runs out. */
  function Wait(tick: nat): nat { if tick < WAIT_TIME then WAIT_TIME + 1 - tick else 1 }

  /** Rounds until the attempts of this phase are used up. */
  function Attempts(c: Client): nat
  {
    if c.retry >= MAX_RETRY then 1 else Wait(c.tick) + (MAX_RETRY - 1 - c.retry) * (WAIT_TIME + 1) + 1
  }

  /** Rounds until half of the lease is over. */
  function HalfLease(c: Client): nat
  {
    if c.tick <= c.info.lease / 2 then c.info.lease / 2 + 1 - c.tick else 1
  }

  const FULL: nat := 23

  /** Rounds of silence until the client reports failure. */
  function Countdown(c: Client): nat
  {
    match c.phase
    case Init => 1 + Attempts(Tick(c))
    case Discover => Attempts(c)
    case Request => Attempts(c) + FULL
    case Rerequest => Attempts(c) + FULL
    case Leased => HalfLease(c) + FULL + FULL
    case Stopped => 0
  }

  ghost predicate Timed(c: Client)
  {
    c.retry <= MAX_RETRY && c.next == WAIT_TIME && c.phase != Stopped
    && c.tick < (if c.phase == Init then 0x8000_0000 else 0x8000_0001)
    && (c.phase == Leased ==> c.info.lease < INFINITE)
  }

  /** The countdown is exact: each round of silence takes one off, and the round that takes the last one
      off is the one that reports failure. */
  lemma QuietRound(c: Client, mac: seq<byte>, inp: Input)
    requires Timed(c) && InputOk(inp) && Quiet(Tick(c), mac, inp)
    ensures Countdown(c) > 0 && Timed(Round(c, mac, inp).0)
    ensures Round(c, mac, inp).1 == Failed <==> Countdown(c) == 1
    ensures Countdown(c) > 1 ==> Countdown(Round(c, mac, inp).0) == Countdown(c) - 1
  {
    hide Parse;
    if c.phase == Leased {
      assert Countdown(c) > 1;
    } else if c.phase == Init {
      assert Countdown(c) > 1;
    }
  }

  ghost predicate AllQuiet(c: Client, mac: seq<byte>, inps: seq<Input>)
    decreases |inps|
  {
    inps == []
    || (InputOk(inps[0]) && Quiet(Tick(c), mac, inps[0]) && AllQuiet(Round(c, mac, inps[0]).0, mac, inps[1..]))
  }

  ghost function Rounds(c: Client, mac: seq<byte>, inps: seq<Input>): Client
    requires AllQuiet(c, mac, inps)
    decreases |inps|
  {
    if inps == [] then c else Rounds(Round(c, mac, inps[0]).0, mac, inps[1..])
  }

  /** Through any stretch of silence shorter than the countdown, nothing fails, and the round after it
      fails exactly when the countdown is used up. */
  lemma {:induction false} QuietRounds(c: Client, mac: seq<byte>, inps: seq<Input>, last: Input)
    requires Timed(c) && |inps| < Countdown(c) && AllQuiet(c, mac, inps)
    requires InputOk(last) && Quiet(Tick(Rounds(c, mac, inps)), mac, last)
    ensures Countdown(Rounds(c, mac, inps)) == Countdown(c) - |inps|
    ensures Round(Rounds(c, mac, inps), mac, last).1 == Failed <==> |inps| + 1 == Countdown(c)
    decreases |inps|
  {
    if inps == [] {
      QuietRound(c, mac, last);
    } else {
      QuietRound(c, mac, inps[0]);
      QuietRounds(Round(c, mac, inps[0]).0, mac, inps[1..], last);
    }
  }

  /** From DISCOVER, REQUEST or REREQUEST a silent network is reported within 46 rounds; right after an ACK
      the lease is given up, back in DISCOVER, half a lease and 24 rounds later. */
  lemma CountdownBounds(c: Client)
    requires Timed(c)
    ensures c.phase == Discover ==> Countdown(c) <= FULL
    ensures c.phase == Request || c.phase == Rerequest ==> Countdown(c) <= 2 * FULL
    ensures c.phase == Leased && c.tick == 0 ==> Countdown(c) - FULL == c.info.lease / 2 + 24
    ensures c.phase == Leased || c.phase == Rerequest ==> Countdown(c) > FULL
  {
  }

  /** While the countdown is above 23 the client keeps its lease; the round that brings it to 23 puts it
      back in DISCOVER. */
  lemma QuietLeaseRound(c: Client, mac: seq<byte>, inp: Input)
    requires Timed(c) && InputOk(inp) && Quiet(Tick(c), mac, inp)
    requires c.phase == Leased || c.phase == Rerequest
    ensures var c' := Round(c, mac, inp).0;
      if Countdown(c) == FULL + 1 then c'.phase == Discover else c'.phase == Leased || c'.phase == Rerequest
  {
    hide Parse;
  }

  /** Silence right after an ACK: the lease is kept for less than lease / 2 + 24 rounds, and given up in
      that round; so before it has expired exactly for leases of 47 seconds or more. */
  lemma LeaseGivenUp(c: Client, mac: seq<byte>, inps: seq<Input>)
    requires Timed(c) && c.phase == Leased && c.tick == 0 && AllQuiet(c, mac, inps)
    ensures |inps| < c.info.lease / 2 + 24 ==>
              Rounds(c, mac, inps).phase == Leased || Rounds(c, mac, inps).phase == Rerequest
    ensures |inps| == c.info.lease / 2 + 24 ==> Rounds(c, mac, inps).phase == Discover
    ensures c.info.lease / 2 + 24 <= c.info.lease <==> c.info.lease >= 47
  {
    CountdownBounds(c);
    if |inps| <= c.info.lease / 2 + 24 {
      KeepsLease(c, mac, inps);
    }
  }

  lemma {:induction false} KeepsLease(c: Client, mac: seq<byte>, inps: seq<Input>)
    requires Timed(c) && (c.phase == Leased || c.phase == Rerequest) && AllQuiet(c, mac, inps)
    requires |inps| <= Countdown(c) - FULL
    ensures var c' := Rounds(c, mac, inps);
      if |inps| < Countdown(c) - FULL then c'.phase == Leased || c'.phase == Rerequest else c'.phase == Discover
    decreases |inps|
  {
    hide Parse, Run;
    CountdownBounds(c);
    if inps == [] {
    } else {
      QuietRound(c, mac, inps[0]);
      QuietLeaseRound(c, mac, inps[0]);
      var c1 := Round(c, mac, inps[0]).0;
      if Countdown(c) > FULL + 1 {
        KeepsLease(c1, mac, inps[1..]);
      } else {
        assert inps[1..] == [];
      }
    }
  }
}
