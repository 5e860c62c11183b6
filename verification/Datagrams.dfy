/** Receiving datagrams: recvfrom for UDP and MACRAW sockets re-frames the chip's byte stream, handing a
    packet out in as many pieces as the caller's buffers need. */
module Datagrams {
  import opened Bytes
  import opened Ring
  import opened SizeRegister

  datatype Mode = Udp | MacRaw

  /** A received packet: for UDP with the peer's address and port as the chip puts them in front. */
  datatype Frame = Frame(peer: seq<byte>, payload: seq<byte>)

  const MAX_FRAME: nat := 1514

  // ---------- what the chip stores ----------

  ghost predicate FrameOk(mode: Mode, f: Frame)
  {
    match mode
    case Udp => |f.peer| == 6 && |f.payload| < WRAP
    case MacRaw => |f.peer| == 0 && |f.payload| + 2 < WRAP
  }

  /** UDP: address, port, length, payload.  MACRAW: a length that counts itself, and the payload. */
  function Header(mode: Mode, f: Frame): (h: seq<byte>)
    requires FrameOk(mode, f)
    ensures |h| == match mode case Udp => 8 case MacRaw => 2
  {
    match mode
    case Udp => f.peer + U16(|f.payload|)
    case MacRaw => U16(|f.payload| + 2)
  }

  function Encode(mode: Mode, f: Frame): seq<byte>
    requires FrameOk(mode, f)
  {
    Header(mode, f) + f.payload
  }

  ghost predicate FramesOk(mode: Mode, frames: seq<Frame>)
  {
    forall i :: 0 <= i < |frames| ==> FrameOk(mode, frames[i])
  }

  ghost function Stream(mode: Mode, frames: seq<Frame>): seq<byte>
    requires FramesOk(mode, frames)
  {
    if frames == [] then [] else Stream(mode, frames[..|frames| - 1]) + Encode(mode, frames[|frames| - 1])
  }

  ghost function Payloads(frames: seq<Frame>): seq<byte>
  {
    if frames == [] then [] else Payloads(frames[..|frames| - 1]) + frames[|frames| - 1].payload
  }

  lemma StreamAppend(mode: Mode, frames: seq<Frame>, f: Frame)
    requires FramesOk(mode, frames) && FrameOk(mode, f)
    ensures FramesOk(mode, frames + [f]) && Stream(mode, frames + [f]) == Stream(mode, frames) + Encode(mode, f)
  {
    assert (frames + [f])[..|frames|] == frames;
  }

  lemma PayloadsAppend(frames: seq<Frame>, f: Frame)
    ensures Payloads(frames + [f]) == Payloads(frames) + f.payload
  {
    assert (frames + [f])[..|frames|] == frames;
  }

  /** Each frame stands in the stream right behind the ones before it. */
  lemma {:induction false} StreamAt(mode: Mode, frames: seq<Frame>, k: nat)
    requires FramesOk(mode, frames) && k < |frames|
    ensures Stream(mode, frames[..k]) + Encode(mode, frames[k]) <= Stream(mode, frames)
  {
    hide Encode;
    var n := |frames| - 1;
    if k == n {
    } else {
      StreamAt(mode, frames[..n], k);
      assert frames[..n][..k] == frames[..k];
    }
  }

  lemma {:induction false} StreamShorter(mode: Mode, frames: seq<Frame>, k: nat)
    requires FramesOk(mode, frames) && k <= |frames|
    ensures |Stream(mode, frames[..k])| <= |Stream(mode, frames)|
    ensures |Stream(mode, frames[..k])| == |Stream(mode, frames)| <==> k == |frames|
  {
    if k < |frames| {
      StreamAt(mode, frames, k);
    } else {
      assert frames[..k] == frames;
    }
  }

  /** Header and payload of frame k, found by position. */
  lemma FrameAt(mode: Mode, frames: seq<Frame>, k: nat, at: nat)
    requires FramesOk(mode, frames) && k < |frames| && at == |Stream(mode, frames[..k])|
    ensures var f, s := frames[k], Stream(mode, frames); var h := |Header(mode, f)|;
            at + h + |f.payload| <= |s| && s[at..at + h] == Header(mode, f)
            && s[at + h..at + h + |f.payload|] == f.payload
            && |Stream(mode, frames[..k + 1])| == at + h + |f.payload|
  {
    hide Header, Stream;
    StreamAt(mode, frames, k);
    StreamAppend(mode, frames[..k], frames[k]);
    assert frames[..k] + [frames[k]] == frames[..k + 1];
    Slices(Stream(mode, frames[..k]), Header(mode, frames[k]), frames[k].payload, Stream(mode, frames));
  }

  lemma Slices<T>(pre: seq<T>, a: seq<T>, b: seq<T>, s: seq<T>)
    requires pre + (a + b) <= s
    ensures s[|pre|..|pre| + |a|] == a && s[|pre| + |a|..|pre| + |a| + |b|] == b
  {
    var t := pre + (a + b);
    assert s[..|t|] == t;
    assert t[|pre|..|pre| + |a|] == a && t[|pre| + |a|..|t|] == b;
  }

  /** The two length bytes of a header give the payload's length back. */
  lemma HeaderDecodes(mode: Mode, f: Frame)
    requires FrameOk(mode, f)
    ensures mode == Udp ==>
              Header(mode, f)[..6] == f.peer && Pair(Header(mode, f)[6], Header(mode, f)[7]) == |f.payload|
    ensures mode == MacRaw ==> Pair(Header(mode, f)[0], Header(mode, f)[1]) - 2 == |f.payload|
  {
  }

  // ---------- the received size while packets arrive ----------

  /** How many bytes wait once these packets have arrived: each is stored whole when it fits. */
  function Fill(mode: Mode, n: nat, capacity: nat, arriving: seq<Frame>): (r: nat)
    requires FramesOk(mode, arriving) && n <= capacity
    ensures n <= r <= capacity
    decreases |arriving|
  {
    if arriving == [] then n
    else
      var size := |Encode(mode, arriving[0])|;
      Fill(mode, if n + size <= capacity then n + size else n, capacity, arriving[1..])
  }

  ghost predicate BatchesOk(mode: Mode, batches: seq<seq<Frame>>)
  {
    forall i :: 0 <= i < |batches| ==> FramesOk(mode, batches[i])
  }

  /** How many wait after the first t batches. */
  function Level(mode: Mode, n: nat, capacity: nat, batches: seq<seq<Frame>>, t: nat): (r: nat)
    requires BatchesOk(mode, batches) && n <= capacity
    ensures n <= r <= capacity
  {
    if t == 0 then n
    else
      var before := Level(mode, n, capacity, batches, t - 1);
      if t <= |batches| then Fill(mode, before, capacity, batches[t - 1]) else before
  }

  lemma {:induction false} LevelGrows(mode: Mode, n: nat, capacity: nat, batches: seq<seq<Frame>>, i: nat, j: nat)
    requires BatchesOk(mode, batches) && n <= capacity && i <= j
    ensures Level(mode, n, capacity, batches, i) <= Level(mode, n, capacity, batches, j)
    ensures |batches| <= i ==> Level(mode, n, capacity, batches, i) == Level(mode, n, capacity, batches, j)
    decreases j
  {
    if i == j {
    } else {
      LevelGrows(mode, n, capacity, batches, i, j - 1);
    }
  }

  lemma LevelAtEnd(mode: Mode, n: nat, capacity: nat, batches: seq<seq<Frame>>, i: nat)
    requires BatchesOk(mode, batches) && n <= capacity
    ensures Level(mode, n, capacity, batches, i) <= Level(mode, n, capacity, batches, |batches|)
  {
    if i <= |batches| {
      LevelGrows(mode, n, capacity, batches, i, |batches|);
    } else {
      LevelGrows(mode, n, capacity, batches, |batches|, i);
    }
  }

  /** What happens around one look at the size register: the first batch of packets arrives before the
      first byte of the register is transferred, the second before the second byte, and so on; then the
      socket may turn out closed. */
  datatype Poll = Poll(arriving: seq<seq<Frame>>, closes: bool)

  ghost predicate PollsOk(mode: Mode, polls: seq<Poll>)
  {
    forall i :: 0 <= i < |polls| ==> BatchesOk(mode, polls[i].arriving)
  }

  /** The look takes the register for zero, with n bytes waiting before it. */
  ghost predicate SeesNothing(mode: Mode, n: nat, capacity: nat, p: Poll)
    requires BatchesOk(mode, p.arriving) && n <= capacity < WRAP
  {
    ZeroRead(Level(mode, n, capacity, p.arriving, 1), Level(mode, n, capacity, p.arriving, 2))
  }

  /** Exactly when it does: nothing is there by the second transfer, or the bytes that wait fill up from
      below 256 to a whole multiple of it between the two transfers. */
  lemma SeesNothingExactly(mode: Mode, n: nat, capacity: nat, p: Poll)
    requires BatchesOk(mode, p.arriving) && n <= capacity < WRAP
    ensures var first, second := Level(mode, n, capacity, p.arriving, 1), Level(mode, n, capacity, p.arriving, 2);
            SeesNothing(mode, n, capacity, p) <==> second == 0 || (first < 256 <= second && second % 256 == 0)
  {
    LevelGrows(mode, n, capacity, p.arriving, 1, 2);
    ZeroReadExactly(Level(mode, n, capacity, p.arriving, 1), Level(mode, n, capacity, p.arriving, 2));
  }

  /** So it sees what is there when nothing arrives between the transfers, and when 256 bytes wait. */
  lemma SeesWaiting(mode: Mode, n: nat, capacity: nat, p: Poll)
    requires BatchesOk(mode, p.arriving) && n <= capacity < WRAP
    ensures |p.arriving| <= 1 || p.arriving[1] == [] ==>
      (SeesNothing(mode, n, capacity, p) <==> Level(mode, n, capacity, p.arriving, 1) == 0)
    ensures n >= 256 ==> !SeesNothing(mode, n, capacity, p)
  {
    hide SeesNothing, Fill;
    SeesNothingExactly(mode, n, capacity, p);
    LevelGrows(mode, n, capacity, p.arriving, 0, 1);
    LevelGrows(mode, n, capacity, p.arriving, 1, 2);
    if |p.arriving| <= 1 || p.arriving[1] == [] {
      LevelStays(mode, n, capacity, p.arriving, 1);
    }
  }

  lemma LevelStays(mode: Mode, n: nat, capacity: nat, batches: seq<seq<Frame>>, t: nat)
    requires BatchesOk(mode, batches) && n <= capacity && (|batches| <= t || batches[t] == [])
    ensures Level(mode, n, capacity, batches, t + 1) == Level(mode, n, capacity, batches, t)
  {
  }

  /** And it does overlook packets: one of 255 bytes with its header waits, one of 257 arrives in between. */
  lemma WaitingOverlooked(f: Frame, capacity: nat)
    requires FrameOk(Udp, f) && |f.payload| == 249 && 512 <= capacity < WRAP
    ensures BatchesOk(Udp, [[], [f]]) && SeesNothing(Udp, 255, capacity, Poll([[], [f]], false))
  {
    hide Encode, ZeroRead, Fill;
    var batches := [[], [f]];
    FillNone(Udp, 255, capacity);
    EncodedSize(f);
    FillOne(Udp, 255, capacity, f);
    assert Level(Udp, 255, capacity, batches, 1) == 255;
    assert Level(Udp, 255, capacity, batches, 2) == Fill(Udp, 255, capacity, [f]);
    ZeroReadOfWaiting();
  }

  lemma EncodedSize(f: Frame)
    requires FrameOk(Udp, f)
    ensures |Encode(Udp, f)| == 8 + |f.payload|
  {
  }

  lemma FillNone(mode: Mode, n: nat, capacity: nat)
    requires n <= capacity
    ensures Fill(mode, n, capacity, []) == n
  {
  }

  lemma FillOne(mode: Mode, n: nat, capacity: nat, f: Frame)
    requires FrameOk(mode, f) && n + |Encode(mode, f)| <= capacity
    ensures Fill(mode, n, capacity, [f]) == n + |Encode(mode, f)|
  {
    hide Encode;
    assert [f][1..] == [];
  }

  /** How many bytes wait before poll i. */
  ghost function LevelBefore(mode: Mode, n: nat, capacity: nat, polls: seq<Poll>, i: nat): (r: nat)
    requires PollsOk(mode, polls) && n <= capacity && i <= |polls|
    ensures n <= r <= capacity
  {
    if i == 0 then n
    else
      var p := polls[i - 1];
      Level(mode, LevelBefore(mode, n, capacity, polls, i - 1), capacity, p.arriving, |p.arriving|)
  }

  lemma NothingBefore(mode: Mode, n: nat, capacity: nat, polls: seq<Poll>)
    requires PollsOk(mode, polls) && n <= capacity
    ensures LevelBefore(mode, n, capacity, polls, 0) == n
  {
  }

  lemma LevelBeforeNext(mode: Mode, n: nat, capacity: nat, polls: seq<Poll>, i: nat)
    requires PollsOk(mode, polls) && n <= capacity && i < |polls|
    ensures LevelBefore(mode, n, capacity, polls, i + 1)
         == Level(mode, LevelBefore(mode, n, capacity, polls, i), capacity, polls[i].arriving, |polls[i].arriving|)
  {
  }

  /** None of the first k polls closes the socket, and each of them sees nothing. */
  ghost predicate NeverSees(mode: Mode, n: nat, capacity: nat, polls: seq<Poll>, k: nat)
    requires PollsOk(mode, polls) && n <= capacity < WRAP && k <= |polls|
  {
    forall i :: 0 <= i < k ==>
      !polls[i].closes && SeesNothing(mode, LevelBefore(mode, n, capacity, polls, i), capacity, polls[i])
  }

  // ---------- the driver ----------

  /** One call of recvfrom: the size of its buffer, and what happens while it waits. */
  datatype Call = Call(len: nat, polls: seq<Poll>)

  datatype Result =
    | Chunk(data: seq<byte>) // the bytes copied to the caller's buffer
    | Busy // non-blocking and nothing seen
    | Waiting // blocking, and nothing seen for as long as the environment was described
    | ErrClosed
    | ErrDataLen
    | FatalPackLen

  class DatagramSocket {
    const mode: Mode
    const ring: RxRing
    var nonBlocking: bool
    var open: bool
    var remained: u16 // sock_remained_size
    var packFirst: bool // the PACK_FIRST and PACK_REMAINED bits of sock_pack_info
    var packRemained: bool
    var peer: seq<byte>
    ghost var frames: seq<Frame> // every packet the chip has stored
    ghost var next: nat // how many of them have been opened
    ghost var pending: seq<byte> // what is left of the last one opened
    ghost var delivered: seq<byte> // everything handed to callers

    ghost predicate Valid()
      reads this, ring, ring.mem
    {
      InPacket() && (open ==> packRemained == (remained != 0))
    }

    /** Holds also between reading a header and copying the first bytes out, when the flag lags behind. */
    ghost predicate InPacket()
      reads this, ring, ring.mem
    {
      && DeliveredInOrder()
      && (open ==>
        && ring.Valid() && ring.acked == ring.taken
        && FramesOk(mode, frames)
        && ring.inbox == Stream(mode, frames)
        && remained == |pending|
        && AtPayload(mode, frames, next, ring.inbox, ring.taken, pending)
        && delivered + pending == Payloads(frames[..next]))
    }

    /** Holds for closed sockets too. */
    ghost predicate DeliveredInOrder()
      reads this
    {
      next <= |frames| && delivered <= Payloads(frames[..next])
    }

    /** A fresh socket: nothing received, nothing remaining. */
    constructor (mode: Mode, size: nat, start: u16, nonBlocking: bool)
      requires BufferSize(size)
      ensures Valid() && open && fresh(ring) && fresh(ring.mem)
      ensures this.mode == mode && this.nonBlocking == nonBlocking
      ensures frames == [] && next == 0 && pending == [] && delivered == []
    {
      this.mode, this.nonBlocking, open := mode, nonBlocking, true;
      ring := new RxRing(size, start);
      remained, packFirst, packRemained, peer := 0, false, false, [];
      frames, next, pending, delivered := [], 0, [], [];
    }

    /** The chip receives a packet: stores it whole, or drops it when it does not fit. */
    method ArriveOne(f: Frame)
      requires Valid() && open && FrameOk(mode, f)
      modifies this`frames, ring`wr, ring`inbox, ring.mem
      ensures Valid()
      ensures var n, size := old(|ring.inbox| - ring.acked), |Encode(mode, f)|;
              if n + size <= ring.mem.Length then
                frames == old(frames) + [f] && |ring.inbox| - ring.acked == n + size
              else frames == old(frames) && |ring.inbox| - ring.acked == n
    {
      hide Header, Payloads, Encode, Stream, AtPayload, Keeps, Cell, BufferSize;
      ghost var before := ring.inbox;
      var stored := ring.Store(Encode(mode, f));
      if stored {
        StreamAppend(mode, frames, f);
        AtPayloadKept(mode, frames, next, before, ring.inbox, ring.taken, pending, f);
        assert (frames + [f])[..next] == frames[..next];
        frames := frames + [f];
      }
    }

    /** Several packets, one after the other. */
    method Arrive(arriving: seq<Frame>)
      requires Valid() && open && FramesOk(mode, arriving)
      modifies this`frames, ring`wr, ring`inbox, ring.mem
      ensures Valid()
      ensures frames == old(frames) + Fitting(mode, arriving, ring.mem.Length - old(|ring.inbox| - ring.acked))
      ensures |ring.inbox| - ring.acked
           == Fill(mode, old(|ring.inbox| - ring.acked), ring.mem.Length, arriving)
    {
      hide Header, Payloads, Encode, Stream, AtPayload, Keeps, FrameOk;
      for i := 0 to |arriving|
        invariant Valid() && open
        invariant ring.taken == old(ring.taken) && ring.acked == old(ring.acked)
        invariant frames + Fitting(mode, arriving[i..], ring.mem.Length - (|ring.inbox| - ring.acked))
               == old(frames) + Fitting(mode, arriving, ring.mem.Length - old(|ring.inbox| - ring.acked))
        invariant Fill(mode, |ring.inbox| - ring.acked, ring.mem.Length, arriving[i..])
               == Fill(mode, old(|ring.inbox| - ring.acked), ring.mem.Length, arriving)
      {
        ghost var space := ring.mem.Length - (|ring.inbox| - ring.acked);
        assert arriving[i..][0] == arriving[i] && arriving[i..][1..] == arriving[i + 1..];
        Rejoin(frames, arriving[i], Fitting(mode, arriving[i + 1..], space - |Encode(mode, arriving[i])|));
        ArriveOne(arriving[i]);
      }
    }

    /** close: nothing remains, and the socket's blocking mode is forgotten too. */
    method Close()
      requires DeliveredInOrder()
      modifies this`open, this`nonBlocking, this`remained, this`packFirst, this`packRemained, this`pending
      ensures Valid() && !open && !nonBlocking && remained == 0 && !packFirst && !packRemained && pending == []
    {
      open, nonBlocking, remained, packFirst, packRemained, pending := false, false, 0, false, false, [];
    }

    /** Opens the next packet: reads its header and takes the length over. */
    method OpenPacket() returns (fatal: bool)
      requires Valid() && open && remained == 0 && next < |frames|
      modifies this`remained, this`packFirst, this`packRemained, this`peer, this`next, this`pending, this`open
      modifies this`nonBlocking
      modifies ring`rd, ring`taken, ring`rdLatched, ring`acked
      ensures fatal <==> mode == MacRaw && |frames[old(next)].payload| > MAX_FRAME
      ensures fatal ==> !open && remained == 0 && pending == [] && next == old(next)
      ensures !fatal ==>
        open && ring.Valid() && ring.acked == ring.taken && next == old(next) + 1
      ensures !fatal ==>
        pending == frames[old(next)].payload && remained == |pending| && packFirst
        && (mode == Udp ==> peer == frames[old(next)].peer)
      ensures !fatal ==>
        AtPayload(mode, frames, next, ring.inbox, ring.taken, pending)
        && delivered + pending == Payloads(frames[..next])
    {
      hide Stream, Payloads, Encode, Header, Keeps, FrameOk, AtPayload, Cell, BufferSize, Pair;
      ghost var f := frames[next];
      Opened(mode, frames, next, ring.inbox, ring.taken, delivered);
      var head := ring.RecvData(if mode == Udp then 8 else 2);
      ring.Recv();
      if mode == Udp {
        peer := head[..6];
        remained := Pair(head[6], head[7]);
      } else {
        remained := (Pair(head[0], head[1]) - 2) % WRAP;
        if remained > MAX_FRAME {
          Close();
          return true;
        }
      }
      packFirst, packRemained := true, false;
      next, pending := next + 1, f.payload;
      return false;
    }

    /** One look at the size register, byte by byte, while packets arrive. */
    method PollSize(p: Poll) returns (size: u16)
      requires Valid() && open && BatchesOk(mode, p.arriving)
      modifies this`frames, ring`wr, ring`inbox, ring.mem
      ensures Valid() && old(frames) <= frames
      ensures |ring.inbox| - ring.acked
           == Level(mode, old(|ring.inbox| - ring.acked), ring.mem.Length, p.arriving, |p.arriving|)
      ensures size <= |ring.inbox| - ring.acked
      ensures size == 0 <==> SeesNothing(mode, old(|ring.inbox| - ring.acked), ring.mem.Length, p)
    {
      hide Header, Payloads, Encode, Stream, AtPayload, Keeps, Grows, Level, ZeroRead;
      var n := ring.ReceivedSize();
      var arriving, capacity := p.arriving, ring.mem.Length;
      var register := (t: nat) => Level(mode, n, capacity, arriving, t + 1) as u16;
      RegisterGrows(mode, n, capacity, arriving, register);
      var end;
      size, end := ReadSize(register);
      ArriveAll(arriving);
      LevelAtEnd(mode, n, capacity, arriving, end);
    }

    /** The packets that the register counts while it is read. */
    method ArriveAll(arriving: seq<seq<Frame>>)
      requires Valid() && open && BatchesOk(mode, arriving)
      modifies this`frames, ring`wr, ring`inbox, ring.mem
      ensures Valid() && old(frames) <= frames
      ensures |ring.inbox| - ring.acked
           == Level(mode, old(|ring.inbox| - ring.acked), ring.mem.Length, arriving, |arriving|)
    {
      hide Header, Payloads, Encode, Stream, AtPayload, Keeps, Fitting, Fill;
      for i := 0 to |arriving|
        invariant Valid() && open && old(frames) <= frames
        invariant ring.acked == old(ring.acked)
        invariant |ring.inbox| - ring.acked
               == Level(mode, old(|ring.inbox| - ring.acked), ring.mem.Length, arriving, i)
      {
        Arrive(arriving[i]);
      }
    }

    /** The polling loop: looks at the size register until it sees a packet. */
    method AwaitPacket(polls: seq<Poll>) returns (r: Result)
      requires Valid() && open && remained == 0 && PollsOk(mode, polls)
      modifies this`frames, this`open, ring`wr, ring`inbox, ring.mem
      ensures Valid() && old(frames) <= frames
      ensures r.Chunk? ==> open && next < |frames| && r.data == []
      ensures r.ErrClosed? <==> !open
      ensures r.Chunk? || r.Busy? || r.Waiting? || r.ErrClosed?
      // the first look that sees a packet or a closed socket decides, and any look of a non-blocking call
      ensures var n, capacity := old(|ring.inbox| - ring.acked), ring.mem.Length;
        forall i :: 0 <= i < |polls| && (i == 0 || !nonBlocking) && NeverSees(mode, n, capacity, polls, i) ==>
          if polls[i].closes then r.ErrClosed?
          else if !SeesNothing(mode, LevelBefore(mode, n, capacity, polls, i), capacity, polls[i]) then r.Chunk?
          else nonBlocking ==> r.Busy?
      ensures r.Waiting? <==>
        (polls == [] || !nonBlocking)
        && NeverSees(mode, old(|ring.inbox| - ring.acked), ring.mem.Length, polls, |polls|)
      ensures polls == [] ==> r.Waiting?
    {
      hide Header, Payloads, Encode, Stream, AtPayload, Keeps, SeesNothing, Level, LevelBefore, Cell;
      ghost var n, capacity := |ring.inbox| - ring.acked, ring.mem.Length;
      NothingBefore(mode, n, capacity, polls);
      for i := 0 to |polls|
        invariant Valid() && open && old(frames) <= frames && remained == 0
        invariant |ring.inbox| - ring.acked == LevelBefore(mode, n, capacity, polls, i)
        invariant NeverSees(mode, n, capacity, polls, i)
        invariant i > 0 ==> !nonBlocking
      {
        LevelBeforeNext(mode, n, capacity, polls, i);
        var size := PollSize(polls[i]);
        UnreadPacket(mode, frames, next, ring.inbox, ring.taken, pending);
        if polls[i].closes {
          open := false;
          return ErrClosed;
        }
        if nonBlocking && size == 0 {
          return Busy;
        }
        if size != 0 {
          return Chunk([]);
        }
      }
      return Waiting;
    }

    /** Copies what fits the caller's buffer and keeps count of the rest. */
    method CopyOut(len: nat) returns (data: seq<byte>)
      requires InPacket() && open && 0 < len
      modifies this`remained, this`packFirst, this`packRemained, this`pending, this`delivered
      modifies ring`rd, ring`taken, ring`rdLatched, ring`acked
      ensures Valid() && data == Take(old(pending), len) && pending == Drop(old(pending), len)
      ensures delivered == old(delivered) + data && packFirst == (old(packFirst) && pending != [])
    {
      hide Header, Payloads, Encode, Stream, AtPayload;
      var packLen := if len < remained then len else remained;
      PayloadTaken(mode, frames, next, ring.inbox, ring.taken, pending, packLen);
      data := ring.RecvData(packLen);
      ring.Recv();
      Associate(delivered, data, pending[packLen..]);
      pending, delivered := pending[packLen..], delivered + data;
      remained := remained - packLen;
      if remained != 0 {
        packRemained := true;
      } else {
        packFirst, packRemained := false, false;
      }
    }

    /** One call of recvfrom with a buffer of `len` bytes.  `polls` is what the network does while the
        call waits for a packet. */
    method RecvFrom(len: nat, polls: seq<Poll>) returns (r: Result)
      requires Valid() && open && len < WRAP
      requires PollsOk(mode, polls)
      modifies this, ring, ring.mem
      ensures Valid() && old(frames) <= frames
      ensures r.ErrDataLen? <==> len == 0
      ensures len > 0 && old(remained) != 0 ==> r.Chunk? && frames == old(frames)
      ensures r.Chunk? ==> next <= |frames|
      ensures r.Chunk? ==>
        var before := Backlog(old(pending), frames[old(next)..]);
        before.Some() && Serve(before, len) == (Backlog(pending, frames[next..]), r.data)
      // as much of the packet in hand, or else of the next one, as the buffer takes; the rest stays pending
      ensures r.Chunk? ==>
        var whole := if old(remained) != 0 then old(pending) else frames[old(next)].payload;
        && |r.data| == (if len < |whole| then len else |whole|) && r.data + pending == whole
        && next == old(next) + (if old(remained) != 0 then 0 else 1)
        && packRemained == (pending != [])
        && packFirst == (pending != [] && (old(remained) == 0 || old(packFirst)))
      ensures r.Chunk? && old(remained) == 0 && mode == Udp ==> peer == frames[old(next)].peer
      ensures r.Chunk? && old(remained) == 0 && mode == MacRaw ==> |frames[old(next)].payload| <= 1514
      ensures r.Chunk? ==> open && delivered == old(delivered) + r.data
      ensures !r.Chunk? ==> delivered == old(delivered) && next == old(next)
      ensures r.FatalPackLen? ==>
        !open && mode == MacRaw && old(next) < |frames| && |frames[old(next)].payload| > 1514
      ensures r.ErrClosed? ==> !open
      // the first look that sees a packet or a closed socket decides, and any look of a non-blocking call
      ensures len > 0 && old(remained) == 0 ==>
        var n, capacity := old(|ring.inbox| - ring.acked), ring.mem.Length;
        forall i :: 0 <= i < |polls| && (i == 0 || !old(nonBlocking)) && NeverSees(mode, n, capacity, polls, i) ==>
          if polls[i].closes then r.ErrClosed?
          else if !SeesNothing(mode, LevelBefore(mode, n, capacity, polls, i), capacity, polls[i])
            then r.Chunk? || r.FatalPackLen?
          else old(nonBlocking) ==> r.Busy?
      ensures r.Busy? || r.ErrClosed? ==> old(remained) == 0 && polls != []
      ensures r.Waiting? <==>
        len > 0 && old(remained) == 0 && (polls == [] || !old(nonBlocking))
        && NeverSees(mode, old(|ring.inbox| - ring.acked), ring.mem.Length, polls, |polls|)
    {
      hide Payloads, Header, Encode, Stream, AtPayload, SeesNothing, Level, LevelBefore, NeverSees;
      if len == 0 {
        return ErrDataLen;
      }
      if remained == 0 {
        r := AwaitPacket(polls);
        if !r.Chunk? {
          return;
        }
        var fatal := OpenPacket();
        if fatal {
          return FatalPackLen;
        }
      }
      var data := CopyOut(len);
      r := Chunk(data);
    }

    /** Any sequence of calls, until the socket closes: their chunks are what the packets received carry, in
        order, up to what is pending. */
    method ReceiveAll(calls: seq<Call>) returns (chunks: seq<seq<byte>>)
      requires Valid() && open
      requires forall i :: 0 <= i < |calls| ==> calls[i].len < WRAP && PollsOk(mode, calls[i].polls)
      modifies this, ring, ring.mem
      ensures Valid() && old(frames) <= frames
      ensures old(delivered) + Concat(chunks) <= Payloads(frames[..next])
      ensures open ==> old(delivered) + Concat(chunks) + pending == Payloads(frames[..next])
    {
      hide Payloads, Header, Encode, Stream, AtPayload, SeesNothing, Level, LevelBefore, Concat, Serve, NeverSees;
      chunks := [];
      NoChunks();
      var i := 0;
      while i < |calls| && open
        invariant i <= |calls| && Valid() && old(frames) <= frames
        invariant delivered == old(delivered) + Concat(chunks)
      {
        var r := RecvFrom(calls[i].len, calls[i].polls);
        if r.Chunk? {
          ConcatAppend(chunks, r.data);
          Associate(old(delivered), Concat(chunks), r.data);
          chunks := chunks + [r.data];
        }
        i := i + 1;
      }
    }
  }

  // ---------- sequences of calls ----------

  /** What the socket still owes its caller: the rest of the packet in hand and the packets behind it. */
  datatype Backlog = Backlog(pending: seq<byte>, queue: seq<Frame>)
  {
    predicate Some() { pending != [] || queue != [] }

    ghost function Bytes(): seq<byte> { pending + Payloads(queue) }

    /** How many calls it takes at most, even with one-byte buffers: an empty packet takes one too. */
    function Calls(): nat { |pending| + Opens(queue) }
  }

  function Opens(queue: seq<Frame>): nat
  {
    if queue == [] then 0 else 1 + |queue[0].payload| + Opens(queue[1..])
  }

  /** One successful call: it continues the packet in hand, or opens the next one, and never goes beyond
      a packet's end. */
  function Serve(b: Backlog, len: nat): (Backlog, seq<byte>)
    requires b.Some()
  {
    if b.pending != [] then (b.(pending := Drop(b.pending, len)), Take(b.pending, len))
    else (Backlog(Drop(b.queue[0].payload, len), b.queue[1..]), Take(b.queue[0].payload, len))
  }

  /** Calls with the given buffer lengths, until nothing is left. */
  ghost function ServeAll(b: Backlog, lens: seq<nat>): (Backlog, seq<seq<byte>>)
    decreases |lens|
  {
    if lens == [] || !b.Some() then (b, [])
    else
      var (b1, chunk) := Serve(b, lens[0]);
      var (b2, chunks) := ServeAll(b1, lens[1..]);
      (b2, [chunk] + chunks)
  }

  lemma {:induction false} PayloadsHead(frames: seq<Frame>)
    requires frames != []
    ensures Payloads(frames) == frames[0].payload + Payloads(frames[1..])
  {
    var n, tail := |frames| - 1, frames[1..];
    if n == 0 {
      assert frames[..0] == [] && tail == [];
    } else {
      PayloadsHead(frames[..n]);
      assert frames[..n][1..] == tail[..n - 1];
      assert tail[n - 1] == frames[n];
      Associate(frames[0].payload, Payloads(tail[..n - 1]), frames[n].payload);
    }
  }

  lemma ServeConserves(b: Backlog, len: nat)
    requires b.Some()
    ensures var (b1, chunk) := Serve(b, len); chunk + b1.Bytes() == b.Bytes() && (len > 0 ==> b1.Calls() < b.Calls())
  {
    if b.pending == [] {
      PayloadsHead(b.queue);
      TakeDrop(b.queue[0].payload, len);
    } else {
      TakeDrop(b.pending, len);
    }
  }

  lemma TakeDrop(s: seq<byte>, n: nat)
    ensures Take(s, n) + Drop(s, n) == s
  {
  }

  /** Any sequence of calls with any buffer lengths: the chunks are the payloads in order, without loss
      or repetition, up to what is still owed. */
  lemma {:induction false} ChunksAreThePayloads(b: Backlog, lens: seq<nat>)
    ensures var (b1, chunks) := ServeAll(b, lens); Concat(chunks) + b1.Bytes() == b.Bytes()
    decreases |lens|
  {
    if lens == [] || !b.Some() {
    } else {
      ServeConserves(b, lens[0]);
      ChunksAreThePayloads(Serve(b, lens[0]).0, lens[1..]);
      var (b2, chunks) := ServeAll(Serve(b, lens[0]).0, lens[1..]);
      assert ([Serve(b, lens[0]).1] + chunks)[1..] == chunks;
    }
  }

  /** And enough calls with buffers that are not empty deliver everything. */
  lemma {:induction false} CallsDrain(b: Backlog, lens: seq<nat>)
    requires forall i :: 0 <= i < |lens| ==> lens[i] > 0
    requires |lens| >= b.Calls()
    ensures var (b1, chunks) := ServeAll(b, lens); !b1.Some() && Concat(chunks) == b.Bytes()
    decreases |lens|
  {
    if !b.Some() {
    } else {
      ServeConserves(b, lens[0]);
      CallsDrain(Serve(b, lens[0]).0, lens[1..]);
      var (b2, chunks) := ServeAll(Serve(b, lens[0]).0, lens[1..]);
      assert ([Serve(b, lens[0]).1] + chunks)[1..] == chunks;
    }
  }

  function Take(s: seq<byte>, n: nat): seq<byte> { if |s| < n then s else s[..n] }

  function Drop(s: seq<byte>, n: nat): seq<byte> { if |s| < n then [] else s[n..] }

  /** The read pointer stands before the rest of the last opened packet: so right at a header exactly when
      nothing of it is left. */
  ghost predicate AtPayload(mode: Mode, frames: seq<Frame>, next: nat, inbox: seq<byte>, taken: nat, pending: seq<byte>)
    requires FramesOk(mode, frames) && next <= |frames|
  {
    && taken + |pending| <= |inbox|
    && inbox[taken..taken + |pending|] == pending
    && taken + |pending| == |Stream(mode, frames[..next])|
  }

  /** Of the packets that arrive, those that fit what is left of the buffer, one after the other. */
  ghost function Fitting(mode: Mode, arriving: seq<Frame>, space: int): seq<Frame>
    requires FramesOk(mode, arriving)
  {
    if arriving == [] then []
    else
      var n := |Encode(mode, arriving[0])|;
      if n <= space then [arriving[0]] + Fitting(mode, arriving[1..], space - n)
      else Fitting(mode, arriving[1..], space)
  }

  lemma Rejoin(a: seq<Frame>, f: Frame, rest: seq<Frame>)
    ensures a + ([f] + rest) == (a + [f]) + rest
  {
  }

  /** With nothing pending, the next bytes are the header of the next packet, and behind it its payload. */
  lemma OpenNext(mode: Mode, frames: seq<Frame>, next: nat, inbox: seq<byte>, taken: nat)
    requires FramesOk(mode, frames) && next < |frames| && inbox == Stream(mode, frames)
    requires AtPayload(mode, frames, next, inbox, taken, [])
    ensures var h := |Header(mode, frames[next])|;
            taken + h <= |inbox| && inbox[taken..taken + h] == Header(mode, frames[next])
            && AtPayload(mode, frames, next + 1, inbox, taken + h, frames[next].payload)
  {
    hide Stream, Header;
    FrameAt(mode, frames, next, taken);
  }

  /** Everything that opening the next packet rests on. */
  lemma Opened(mode: Mode, frames: seq<Frame>, next: nat, inbox: seq<byte>, taken: nat, delivered: seq<byte>)
    requires FramesOk(mode, frames) && next < |frames| && inbox == Stream(mode, frames)
    requires AtPayload(mode, frames, next, inbox, taken, []) && delivered == Payloads(frames[..next])
    ensures var f := frames[next]; var h := if mode == Udp then 8 else 2;
            && taken + h <= |inbox|
            && AtPayload(mode, frames, next + 1, inbox, taken + h, f.payload)
            && delivered + f.payload == Payloads(frames[..next + 1])
            && delivered <= Payloads(frames[..next + 1])
            && |f.payload| < WRAP
            && var head := inbox[taken..taken + h];
               if mode == Udp then head[..6] == f.peer && Pair(head[6], head[7]) == |f.payload|
               else Pair(head[0], head[1]) - 2 == |f.payload|
  {
    hide Stream, Payloads, Encode, AtPayload;
    HeaderDecodes(mode, frames[next]);
    OpenNext(mode, frames, next, inbox, taken);
    PayloadsAppend(frames[..next], frames[next]);
    assert frames[..next] + [frames[next]] == frames[..next + 1];
  }

  lemma RegisterGrows(mode: Mode, n: nat, capacity: nat, batches: seq<seq<Frame>>, register: nat -> u16)
    requires BatchesOk(mode, batches) && n <= capacity < WRAP
    requires forall t: nat :: register(t) == Level(mode, n, capacity, batches, t + 1)
    ensures Grows(register)
  {
    forall i: nat, j: nat | i <= j ensures register(i) <= register(j) {
      LevelGrows(mode, n, capacity, batches, i + 1, j + 1);
    }
  }

  /** With nothing pending, bytes wait exactly when a packet has not been opened. */
  lemma UnreadPacket(mode: Mode, frames: seq<Frame>, next: nat, inbox: seq<byte>, taken: nat, pending: seq<byte>)
    requires FramesOk(mode, frames) && next <= |frames| && inbox == Stream(mode, frames)
    requires pending == [] && AtPayload(mode, frames, next, inbox, taken, pending)
    ensures |inbox| - taken > 0 <==> next < |frames|
  {
    StreamShorter(mode, frames, next);
  }

  /** Reading on in the pending bytes. */
  lemma PayloadTaken(mode: Mode, frames: seq<Frame>, next: nat, inbox: seq<byte>, taken: nat, pending: seq<byte>,
                     n: nat)
    requires FramesOk(mode, frames) && next <= |frames| && n <= |pending|
    requires AtPayload(mode, frames, next, inbox, taken, pending)
    ensures taken + n <= |inbox| && inbox[taken..taken + n] == pending[..n]
    ensures pending == pending[..n] + pending[n..]
    ensures AtPayload(mode, frames, next, inbox, taken + n, pending[n..])
  {
    var rest := inbox[taken..taken + |pending|];
    assert inbox[taken..taken + n] == rest[..n];
    assert inbox[taken + n..taken + |pending|] == rest[n..];
  }

  lemma AtPayloadKept(mode: Mode, frames: seq<Frame>, next: nat, inbox: seq<byte>, inbox': seq<byte>, taken: nat,
                      pending: seq<byte>, f: Frame)
    requires FramesOk(mode, frames) && next <= |frames| && FrameOk(mode, f) && FramesOk(mode, frames + [f])
    requires inbox <= inbox' && AtPayload(mode, frames, next, inbox, taken, pending)
    ensures AtPayload(mode, frames + [f], next, inbox', taken, pending)
  {
    assert (frames + [f])[..next] == frames[..next];
    assert inbox'[taken..taken + |pending|] == inbox[taken..taken + |pending|];
  }
}
