/** Sending on a TCP socket: `send` hands buffers to the chip while the chip transmits, releases memory,
    completes commands, times out or closes. */
module TcpSend {
  import opened Bytes
  import opened Ring

  datatype Status = Established | CloseWait | Closed | OtherStatus

  /** One thing the chip or the network does. */
  datatype ChipStep =
    | Transmit // the next byte goes out
    | Release(n: nat) // the read pointer moves on
    | Complete // a finished SEND raises SENDOK
    | Timeout // the TIMEOUT interrupt flag is raised
    | Status(status: Status)

  /** What happens before a look at the free size, and by how much a torn reading of the register may
      fall short of it. */
  datatype Poll = Poll(steps: seq<ChipStep>, lag: nat)

  /** A call of send, or what happens between calls. */
  datatype Event = Call(buf: seq<byte>, polls: seq<Poll>) | Happen(steps: seq<ChipStep>)

  datatype Result =
    | Sent(n: nat)
    | Busy
    | Waiting // blocking, and no room for as long as the environment was described
    | ErrDataLen
    | ErrStatus
    | ErrTimeout

  predicate Live(s: Status) { s == Established || s == CloseWait }

  // ---------- the chip's side ----------

  /** The chip's counters and flags: bytes sent, released and handed over, the SEND command and its flag, the
      socket's status, the TIMEOUT flag. */
  datatype Link = Link(sent: nat, released: nat, committed: nat, sending: bool, sendOk: bool,
                       status: Status, timeout: bool)

  ghost function Act(l: Link, s: ChipStep): Link
  {
    match s
    case Transmit => if l.sending && l.sent < l.committed then l.(sent := l.sent + 1) else l
    case Release(n) => if l.released + n <= l.sent then l.(released := l.released + n) else l
    case Complete => if l.sending && l.sent == l.committed then l.(sending := false, sendOk := true) else l
    case Timeout => l.(timeout := true)
    case Status(st) => l.(status := st)
  }

  ghost function ActAll(l: Link, steps: seq<ChipStep>): Link
  {
    if steps == [] then l else Act(ActAll(l, steps[..|steps| - 1]), steps[|steps| - 1])
  }

  /** After what happens before the first k looks. */
  ghost function LinkAt(l: Link, polls: seq<Poll>, k: nat): Link
    requires k <= |polls|
  {
    if k == 0 then l else ActAll(LinkAt(l, polls, k - 1), polls[k - 1].steps)
  }

  /** The free size that look i sees, of `room` bytes that were free before anything was released. */
  ghost function Seen(l: Link, room: int, polls: seq<Poll>, i: nat): int
    requires i < |polls|
  {
    var free := room + LinkAt(l, polls, i + 1).released - l.released;
    if polls[i].lag < free then free - polls[i].lag else 0
  }

  /** How waiting for room ends. */
  datatype Verdict = Enough | Down(closed: bool) | NotYet | NeverYet

  /** What the look at i says; NotYet when it finds the connection up and too little room. */
  ghost function Look(l: Link, room: int, len: nat, polls: seq<Poll>, i: nat): Verdict
    requires i < |polls|
  {
    var st := LinkAt(l, polls, i + 1).status;
    if !Live(st) then Down(st == Closed)
    else if len <= Seen(l, room, polls, i) then Enough
    else NotYet
  }

  /** A look without traffic sees status and free size as they are; one behind a release sees that much more. */
  lemma LookPlainly(l: Link, room: nat, len: nat, polls: seq<Poll>, n: nat, lag: nat)
    requires polls != [] && len > 0
    ensures polls[0] == Poll([], lag) ==>
      Look(l, room, len, polls, 0)
      == match l.status
         case Closed => Down(true)
         case OtherStatus => Down(false)
         case Established => if len + lag <= room then Enough else NotYet
         case CloseWait => if len + lag <= room then Enough else NotYet
    ensures polls[0] == Poll([Release(n)], 0) && l.released + n <= l.sent && l.status == Established ==>
      Look(l, room, len, polls, 0) == if len <= room + n then Enough else NotYet
    ensures polls[0] == Poll([Status(Closed)], 0) ==> Look(l, room, len, polls, 0) == Down(true)
  {
    assert LinkAt(l, polls, 0) == l;
    assert [Release(n)][..0] == [] && [ChipStep.Status(Closed)][..0] == [];
    assert ActAll(l, []) == l && ActAll(l, [Release(n)]) == Act(l, Release(n));
  }

  /** The first k looks find the connection up, and too little room. */
  ghost predicate Stuck(l: Link, room: int, len: nat, polls: seq<Poll>, k: nat)
    requires k <= |polls|
  {
    forall i :: 0 <= i < k ==> Look(l, room, len, polls, i) == NotYet
  }

  /** The first look that finds the connection down or enough room decides, and any look of a non-blocking
      call; NeverYet when none does. */
  ghost predicate Decided(l: Link, room: int, len: nat, nonBlocking: bool, polls: seq<Poll>, v: Verdict)
  {
    && (forall i :: 0 <= i < |polls| && (i == 0 || !nonBlocking) && Stuck(l, room, len, polls, i) ==>
         Look(l, room, len, polls, i) != NotYet || nonBlocking ==> v == Look(l, room, len, polls, i))
    && (v == NeverYet <==> (polls == [] || !nonBlocking) && Stuck(l, room, len, polls, |polls|))
  }

  /** Which look that is: the first one without a blocking mode, and with it the first that says anything. */
  lemma DecidedBy(l: Link, room: int, len: nat, nonBlocking: bool, polls: seq<Poll>, v: Verdict)
    requires Decided(l, room, len, nonBlocking, polls, v)
    ensures nonBlocking && polls != [] ==> v == Look(l, room, len, polls, 0)
    ensures !nonBlocking ==>
      forall i :: 0 <= i < |polls| && (forall j :: 0 <= j < i ==> Look(l, room, len, polls, j) == NotYet) ==>
        Look(l, room, len, polls, i) != NotYet ==> v == Look(l, room, len, polls, i)
    ensures v == NeverYet <==>
      polls == [] || (!nonBlocking && forall j :: 0 <= j < |polls| ==> Look(l, room, len, polls, j) == NotYet)
  {
    hide LinkAt, Seen;
    if polls != [] {
      assert Stuck(l, room, len, polls, 0);
    }
    if !nonBlocking {
      forall i | 0 <= i < |polls| && (forall j :: 0 <= j < i ==> Look(l, room, len, polls, j) == NotYet)
        ensures Look(l, room, len, polls, i) != NotYet ==> v == Look(l, room, len, polls, i)
      {
        assert Stuck(l, room, len, polls, i);
      }
    }
  }

  lemma LookDecides(l: Link, room: int, len: nat, nonBlocking: bool, polls: seq<Poll>, i: nat)
    requires i < |polls| && (i == 0 || !nonBlocking) && Stuck(l, room, len, polls, i)
    ensures Look(l, room, len, polls, i) != NotYet || nonBlocking ==>
      Decided(l, room, len, nonBlocking, polls, Look(l, room, len, polls, i))
    ensures Look(l, room, len, polls, i) == NotYet ==> Stuck(l, room, len, polls, i + 1)
  {
    hide Act, ActAll, LinkAt, Seen;
  }

  lemma NoLookDecides(l: Link, room: int, len: nat, nonBlocking: bool, polls: seq<Poll>)
    requires (polls == [] || !nonBlocking) && Stuck(l, room, len, polls, |polls|)
    ensures Decided(l, room, len, nonBlocking, polls, NeverYet)
  {
    hide Look;
  }

  // ---------- the driver ----------

  class TcpSocket {
    const ring: TxRing
    var nonBlocking: bool
    var isSending: bool // this socket's bit of sock_is_sending
    var open: bool // cleared by close()
    var status: Status
    var timeout: bool // the TIMEOUT interrupt flag
    ghost var buffers: seq<seq<byte>> // what each successful call took; one SEND command each
    ghost var oks: nat // SENDOK flags consumed

    ghost predicate Valid()
      reads this, ring, ring.mem
    {
      && ring.Valid()
      && ring.committed == |ring.accepted| && ring.accepted == Concat(buffers)
      && |buffers| <= oks + 1
      && (open ==>
        && (isSending <==> ring.sending || ring.sendOk)
        && |buffers| == oks + (if isSending then 1 else 0))
    }

    constructor (size: nat, start: u16, nonBlocking: bool)
      requires BufferSize(size)
      ensures Valid() && open && !isSending && buffers == [] && oks == 0 && fresh(ring) && fresh(ring.mem)
      ensures ring.accepted == ring.wire == [] && this.nonBlocking == nonBlocking
    {
      ring := new TxRing(size, start);
      this.nonBlocking, isSending, open, status, timeout := nonBlocking, false, true, Established, false;
      buffers, oks := [], 0;
    }

    ghost function Now(): Link
      reads this, ring
    {
      Link(|ring.wire|, ring.released, ring.committed, ring.sending, ring.sendOk, status, timeout)
    }

    /** Chip and network act.  Nothing they do changes what was accepted; the wire only grows. */
    method Environment(steps: seq<ChipStep>)
      requires Valid() && open
      modifies this`status, this`timeout, ring`wire, ring`rd, ring`released, ring`sending, ring`sendOk
      ensures Valid() && old(ring.wire) <= ring.wire && ring.released >= old(ring.released)
      ensures !old(ring.sending) ==> ring.sendOk == old(ring.sendOk) && !ring.sending
      ensures Now() == ActAll(old(Now()), steps)
    {
      hide Concat;
      for i := 0 to |steps|
        invariant Valid() && old(ring.wire) <= ring.wire && ring.released >= old(ring.released)
        invariant !old(ring.sending) ==> ring.sendOk == old(ring.sendOk) && !ring.sending
        invariant Now() == ActAll(old(Now()), steps[..i])
      {
        assert steps[..i + 1][..i] == steps[..i];
        match steps[i]
        case Transmit => ring.Transmit();
        case Release(n) => ring.Release(n);
        case Complete => ring.Complete();
        case Timeout => timeout := true;
        case Status(s) => status := s;
      }
      assert steps[..|steps|] == steps;
    }

    /** close: clears the interrupt flags, the sending mark and the socket's blocking mode. */
    method Close()
      requires Valid()
      modifies this`open, this`nonBlocking, this`isSending, this`status, this`timeout
      ensures Valid() && !open && !nonBlocking && !isSending && !timeout && status == Closed
    {
      open, nonBlocking, isSending, status, timeout := false, false, false, Closed, false;
    }

    /** One call of send.  On success the first n bytes of the buffer are accepted behind those of all
        calls before and one SEND is given, after the SENDOK of the one before it has been consumed;
        otherwise no byte is accepted and no command given. */
    method Send(buf: seq<byte>, polls: seq<Poll>) returns (r: Result)
      requires Valid() && open && |buf| < WRAP
      modifies this, ring, ring.mem
      ensures Valid() && old(ring.wire) <= ring.wire
      ensures r.Sent? ==> open && r.n == (if |buf| < ring.mem.Length then |buf| else ring.mem.Length) && r.n > 0
      ensures r.Sent? ==> buffers == old(buffers) + [buf[..r.n]] && isSending && oks == |old(buffers)|
      ensures !r.Sent? ==> ring.accepted == old(ring.accepted) && buffers == old(buffers)
      ensures r.ErrDataLen? <==> buf == []
      ensures buf != [] && !old(Live(status)) ==> r == ErrStatus && open
      // a SEND that has not completed: closed and reported after a timeout, busy until then
      ensures buf != [] && old(Live(status)) && old(isSending) && !old(ring.sendOk) ==>
        r == (if old(timeout) then ErrTimeout else Busy) && (open <==> !old(timeout))
      ensures r.ErrTimeout? ==> buf != [] && old(Live(status)) && old(isSending) && !old(ring.sendOk)
      // otherwise the looks at status and free size decide
      ensures buf != [] && old(Live(status)) && (old(isSending) ==> old(ring.sendOk)) ==>
        var len := if |buf| < ring.mem.Length then |buf| else ring.mem.Length;
        && (r == Sent(len) || r == Busy || r == Waiting || r == ErrStatus)
        && Decided(old(Now()).(sendOk := false), old(ring.FreeSize()), len, old(nonBlocking), polls,
                   if r.Sent? then Enough else if r.Busy? then NotYet else if r.Waiting? then NeverYet else Down(!open))
    {
      hide Concat, Decided, Act, ActAll;
      if buf == [] {
        return ErrDataLen;
      }
      if status != Established && status != CloseWait {
        return ErrStatus;
      }
      if isSending {
        if ring.sendOk {
          ring.ClearSendOk();
          isSending := false;
          oks := oks + 1;
        } else if timeout {
          Close();
          return ErrTimeout;
        } else {
          return Busy;
        }
      }
      var len := if |buf| > ring.mem.Length then ring.mem.Length else |buf|;
      var room;
      room, r := AwaitRoom(len, polls);
      if !room {
        return;
      }
      // the second look at sock_is_sending finds it clear: it was cleared above or never set
      assert !isSending;
      HandOver(buf[..len]);
      return Sent(len);
    }

    /** Any sequence of calls and chip steps, until the socket closes: the wire carries the buffers taken,
        one after the other, up to where it is. */
    method Session(events: seq<Event>) returns (taken: seq<seq<byte>>)
      requires Valid() && open
      requires forall i :: 0 <= i < |events| && events[i].Call? ==> |events[i].buf| < WRAP
      modifies this, ring, ring.mem
      ensures Valid() && buffers == old(buffers) + taken
      ensures old(ring.wire) <= ring.wire <= Concat(old(buffers) + taken)
      ensures |old(buffers) + taken| <= oks + 1
    {
      hide Concat;
      taken := [];
      var i := 0;
      while i < |events| && open
        invariant i <= |events| && Valid() && buffers == old(buffers) + taken
        invariant old(ring.wire) <= ring.wire
      {
        match events[i] {
          case Call(buf, polls) =>
            var r := Send(buf, polls);
            if r.Sent? {
              assert old(buffers) + (taken + [buf[..r.n]]) == (old(buffers) + taken) + [buf[..r.n]];
              taken := taken + [buf[..r.n]];
            }
          case Happen(steps) =>
            Environment(steps);
        }
        i := i + 1;
      }
    }

    /** The end of send: the bytes go into the chip's memory, SEND is given, the mark is set. */
    method HandOver(data: seq<byte>)
      requires Valid() && open && !isSending && |data| <= ring.FreeSize()
      modifies this`buffers, this`isSending, ring`wr, ring`accepted, ring`sending, ring`committed, ring.mem
      ensures Valid() && buffers == old(buffers) + [data] && isSending
    {
      hide Concat;
      ring.SendData(data);
      ring.Send();
      ConcatAppend(buffers, data);
      buffers := buffers + [data];
      isSending := true;
    }

    /** The polling loop: waits until the observed free size covers the request. */
    method AwaitRoom(len: nat, polls: seq<Poll>) returns (room: bool, r: Result)
      requires Valid() && open && !isSending && Live(status) && len > 0
      modifies this`open, this`nonBlocking, this`isSending, this`status, this`timeout
      modifies ring`wire, ring`rd, ring`released, ring`sending, ring`sendOk
      ensures Valid() && old(ring.wire) <= ring.wire
      ensures room ==> open && !isSending && !ring.sending && !ring.sendOk && len <= ring.FreeSize()
      ensures !room ==> r.Busy? || r.Waiting? || r.ErrStatus?
      ensures Decided(old(Now()), old(ring.FreeSize()), len, old(nonBlocking), polls,
                      if room then Enough else if r.Busy? then NotYet else if r.Waiting? then NeverYet else Down(!open))
    {
      hide Concat, Act, ActAll, LinkAt, Stuck, Decided;
      ghost var l, free0, nb := Now(), ring.FreeSize(), nonBlocking;
      LinkAtStart(l, free0, len, polls);
      for i := 0 to |polls|
        invariant Valid() && open && !isSending && !ring.sending && !ring.sendOk
        invariant old(ring.wire) <= ring.wire && nonBlocking == nb
        invariant Now() == LinkAt(l, polls, i) && Stuck(l, free0, len, polls, i)
        invariant i > 0 ==> !nonBlocking
      {
        LinkAtNext(l, polls, i);
        LookDecides(l, free0, len, nb, polls, i);
        Environment(polls[i].steps);
        var free := ring.FreeSize();
        var freesize := if polls[i].lag < free then free - polls[i].lag else 0;
        assert freesize == Seen(l, free0, polls, i);
        if status != Established && status != CloseWait {
          if status == Closed {
            Close();
          }
          return false, ErrStatus;
        }
        if nonBlocking && len > freesize {
          return false, Busy;
        }
        if len <= freesize {
          return true, Waiting;
        }
      }
      NoLookDecides(l, free0, len, nb, polls);
      return false, Waiting;
    }
  }

  lemma LinkAtStart(l: Link, room: int, len: nat, polls: seq<Poll>)
    ensures LinkAt(l, polls, 0) == l && Stuck(l, room, len, polls, 0)
  {
  }

  lemma LinkAtNext(l: Link, polls: seq<Poll>, i: nat)
    requires i < |polls|
    ensures LinkAt(l, polls, i + 1) == ActAll(LinkAt(l, polls, i), polls[i].steps)
  {
  }
}
