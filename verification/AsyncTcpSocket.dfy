/**
 asynctcpsocket.cc: packets over a byte stream, each behind a 16-bit big-endian length (the
 framing of section 2 of RFC 4571).  The operating system is a parameter: every socket call
 takes the answer it will get, so partial sends, refusals and any chunking are all covered.
 */
module AsyncTcpSocket {
  import opened Common
  import opened Words

  type Packet = seq<byte>

  const MAX_PACKET_SIZE: nat := 64 * 1024
  const PACKET_LEN_SIZE: nat := 2
  const BUF_SIZE: nat := MAX_PACKET_SIZE + PACKET_LEN_SIZE
  const MINIMUM_RECV_SIZE: nat := 128

  // ----- Frames -----

  /** A packet as Send puts it on the stream; the length is cast to 16 bits. */
  function Frame(p: Packet): (f: seq<byte>)
    ensures |f| == PACKET_LEN_SIZE + |p|
  {
    var len := |p| % 0x1_0000;
    [len / 256, len % 256] + p
  }

  function Frames(ps: seq<Packet>): seq<byte> {
    if ps == [] then [] else Frame(ps[0]) + Frames(ps[1..])
  }

  function GetBE16(data: seq<byte>): (len: nat)
    requires |data| >= 2
    ensures len <= 65535
  {
    256 * data[0] as int + data[1]
  }

  predicate HasFrame(data: seq<byte>) {
    |data| >= PACKET_LEN_SIZE && |data| >= PACKET_LEN_SIZE + GetBE16(data)
  }

  datatype Parsed = Parsed(packets: seq<Packet>, rest: seq<byte>)

  /** What ProcessInput makes of a buffer: the whole frames in it, and what is left. */
  function Parse(data: seq<byte>): Parsed
    decreases |data|
  {
    if !HasFrame(data) then Parsed([], data)
    else
      var end := PACKET_LEN_SIZE + GetBE16(data);
      var tail := Parse(data[end..]);
      Parsed([data[PACKET_LEN_SIZE..end]] + tail.packets, tail.rest)
  }

  lemma {:induction false} ParseRest(data: seq<byte>)
    ensures !HasFrame(Parse(data).rest)
    ensures |Parse(data).rest| <= |data|
    decreases |data|
  {
    if HasFrame(data) { ParseRest(data[PACKET_LEN_SIZE + GetBE16(data)..]); }
  }

  /** The first frame of a buffer stays the first frame when more bytes follow. */
  lemma FirstFrame(a: seq<byte>, b: seq<byte>)
    requires HasFrame(a)
    ensures var end := PACKET_LEN_SIZE + GetBE16(a);
            && Parse(a) == Parsed([a[PACKET_LEN_SIZE..end]] + Parse(a[end..]).packets, Parse(a[end..]).rest)
            && Parse(a + b)
               == Parsed([a[PACKET_LEN_SIZE..end]] + Parse(a[end..] + b).packets, Parse(a[end..] + b).rest)
  {
    var end := PACKET_LEN_SIZE + GetBE16(a);
    assert (a + b)[end..] == a[end..] + b;
    assert (a + b)[PACKET_LEN_SIZE..end] == a[PACKET_LEN_SIZE..end];
  }

  /** Parsing does not depend on how the bytes were cut into chunks. */
  lemma {:induction false} ParseChunks(a: seq<byte>, b: seq<byte>)
    ensures var first := Parse(a); var second := Parse(first.rest + b);
            Parse(a + b) == Parsed(first.packets + second.packets, second.rest)
    decreases |a|
  {
    if HasFrame(a) {
      var end := PACKET_LEN_SIZE + GetBE16(a);
      FirstFrame(a, b);
      ParseChunks(a[end..], b);
      Regroup([a[PACKET_LEN_SIZE..end]], Parse(a[end..]).packets, Parse(Parse(a[end..]).rest + b).packets);
    } else {
      assert [] + Parse(a + b).packets == Parse(a + b).packets;
    }
  }

  /** A frame is read back as its packet exactly when the length fits in 16 bits. */
  lemma FrameReadsBack(p: Packet)
    ensures |p| <= 65535 <==> Parse(Frame(p)) == Parsed([p], [])
  {
    var f := Frame(p);
    var len := |p| % 0x1_0000;
    assert GetBE16(f) == len;
    if |p| <= 65535 {
      assert f[2..2 + len] == p && f[2 + len..] == [];
    } else {
      assert |f[2..2 + len]| != |p|;
    }
  }

  /** On the stream the length comes in front, its high byte first: 300 bytes begin with 01 2C. */
  lemma FrameBytes(p: Packet)
    requires |p| <= 65535
    ensures Frame(p)[0] as int == |p| / 256 && Frame(p)[1] as int == |p| % 256 && Frame(p)[2..] == p
    ensures |p| == 300 ==> Frame(p)[..2] == [0x01, 0x2C]
  {
  }

  /** Whatever follows two bytes is a packet exactly when it is as long as they say, high byte first. */
  lemma LengthBytes(hi: byte, lo: byte, p: Packet)
    ensures Parse([hi, lo] + p) == Parsed([p], []) <==> |p| == 256 * hi as int + lo as int
  {
    var data := [hi, lo] + p;
    assert GetBE16(data) == 256 * hi as int + lo as int && data[2..] == p;
    hide GetBE16;
    OneFrame(data);
  }

  /** A buffer is one whole frame exactly when it is as long as its length says. */
  lemma OneFrame(data: seq<byte>)
    requires |data| >= 2
    ensures Parse(data) == Parsed([data[2..]], []) <==> |data| == 2 + GetBE16(data)
  {
    hide GetBE16, Parse;
    if HasFrame(data) { ParseFirst(data); } else { NoFrame(data); }
    if |data| == 2 + GetBE16(data) { assert data[2..|data|] == data[2..]; }
  }

  lemma NoFrame(data: seq<byte>)
    requires !HasFrame(data)
    ensures Parse(data) == Parsed([], data)
  {
  }

  lemma ParseFirst(data: seq<byte>)
    requires HasFrame(data)
    ensures Parse(data).packets != [] && Parse(data).packets[0] == data[2..2 + GetBE16(data)]
    ensures |data| == 2 + GetBE16(data) ==> Parse(data) == Parsed([data[2..|data|]], [])
  {
    if |data| == 2 + GetBE16(data) {
      assert data[|data|..] == [];
      NoFrame([]);
    }
  }

  ghost predicate SmallPackets(ps: seq<Packet>) {
    forall i | 0 <= i < |ps| :: |ps[i]| <= 65535
  }

  /** The stream of frames is read back as the packets exactly when every length fits in 16 bits. */
  lemma {:induction false} FramesReadBack(ps: seq<Packet>)
    ensures SmallPackets(ps) <==> Parse(Frames(ps)) == Parsed(ps, [])
  {
    hide Frame, Parse;
    if ps == [] {
      assert Parse([]) == Parsed([], []) by { NoFrame([]); }
    } else {
      assert SmallPackets(ps) <==> |ps[0]| <= 65535 && SmallPackets(ps[1..]) by {
        assert SmallPackets(ps) ==> forall i | 0 <= i < |ps[1..]| :: ps[1..][i] == ps[i + 1];
      }
      FramesReadBack(ps[1..]);
      FirstPacket(ps[0], Frames(ps[1..]));
    }
  }

  /** A frame in front of a stream. */
  lemma FirstPacket(p: Packet, more: seq<byte>)
    ensures |p| <= 65535 ==>
              Parse(Frame(p) + more) == Parsed([p] + Parse(more).packets, Parse(more).rest)
    ensures |p| > 65535 ==>
              Parse(Frame(p) + more).packets != [] && |Parse(Frame(p) + more).packets[0]| < |p|
  {
    FrameReadsBack(p);
    if |p| <= 65535 {
      ParseChunks(Frame(p), more);
      assert [] + more == more;
    } else {
      var f := Frame(p);
      assert HasFrame(f) && GetBE16(f) == |p| % 0x1_0000;
      FirstFrame(f, more);
    }
  }

  lemma {:induction false} FramesSnoc(ps: seq<Packet>, p: Packet)
    ensures Frames(ps + [p]) == Frames(ps) + Frame(p)
  {
    if ps == [] {
      assert [p][1..] == [];
      assert Frames([p]) == Frame(p);
    } else {
      assert (ps + [p])[1..] == ps[1..] + [p];
      FramesSnoc(ps[1..], p);
    }
  }

  // ----- What one call does, on values -----

  /** `wire` is everything the socket took; `accepted` the packets Send did not drop. */
  datatype Sender = Sender(outbuf: seq<byte>, wire: seq<byte>, accepted: seq<Packet>)

  /** FlushOutBuffer when the socket answers `answer`. */
  function Flush(s: Sender, answer: int): (Sender, int) {
    if answer <= 0 then (s, answer)
    else if answer > |s.outbuf| then (s, -1)
    else (s.(outbuf := s.outbuf[answer..], wire := s.wire + s.outbuf[..answer]), answer)
  }

  function SendStep(s: Sender, p: Packet, answer: int): (Sender, int) {
    if |p| > BUF_SIZE then (s, -1)
    else if s.outbuf != [] then (s, |p|)
    else
      var (flushed, res) := Flush(s.(outbuf := Frame(p)), answer);
      if res <= 0 then (flushed.(outbuf := []), res)
      else (flushed.(accepted := s.accepted + [p]), |p|)
  }

  /**
   What Send returns and does: -1 for more than 65538 bytes; the length, and nothing done, while an
   earlier packet is pending; the length if the socket took some of the frame, which then is all on
   its way; and else the socket's error or -1, with nothing left behind.
   */
  lemma SendResult(s: Sender, p: Packet, answer: int)
    ensures var progress := 1 <= answer <= |p| + 2;
            var (t, res) := SendStep(s, p, answer);
            && res == (if |p| > 65538 then -1
                       else if s.outbuf != [] || progress then |p|
                       else if answer <= 0 then answer else -1)
            && (|p| > 65538 || s.outbuf != [] ==> t == s)
            && (|p| <= 65538 && s.outbuf == [] ==>
                  if progress then
                    && t.accepted == s.accepted + [p] && |t.wire| == |s.wire| + answer
                    && t.wire + t.outbuf == s.wire + Frame(p)
                  else t == s)
  {
    var f := Frame(p);
    if 1 <= answer <= |f| { assert f[..answer] + f[answer..] == f; }
  }

  /** A packet of at most 65535 bytes that the socket takes whole is on the wire behind its length, high byte first. */
  lemma SentWhole(s: Sender, p: Packet)
    requires s.outbuf == [] && |p| <= 65535
    ensures SendStep(s, p, |p| + 2) ==
            (Sender([], s.wire + [|p| / 256, |p| % 256] + p, s.accepted + [p]), |p|)
  {
    var f := Frame(p);
    assert f[..|p| + 2] == f && f[|p| + 2..] == [];
    assert s.wire + f == s.wire + [|p| / 256, |p| % 256] + p;
  }

  function WriteStep(s: Sender, answer: int): Sender {
    if s.outbuf != [] then Flush(s, answer).0 else s
  }

  /** A write event sends what the socket takes of the pending bytes; other answers change nothing. */
  lemma WriteResult(s: Sender, answer: int)
    ensures var t := WriteStep(s, answer);
            if 1 <= answer <= |s.outbuf|
            then t == s.(outbuf := s.outbuf[answer..], wire := s.wire + s.outbuf[..answer])
            else t == s
  {
  }

  datatype Receiver = Receiver(inbuf: seq<byte>, capacity: nat, signalled: seq<Packet>)

  /** The capacity before the next Recv. */
  function Grown(size: nat, capacity: nat): nat
    requires size <= capacity
  {
    if capacity - size < MINIMUM_RECV_SIZE && capacity < BUF_SIZE then
      var wanted := Min(BUF_SIZE, capacity * 2);
      if wanted > capacity then wanted else capacity
    else capacity
  }

  /** The buffer doubles, up to 65538 bytes, exactly when less than 128 of them are free. */
  lemma GrownExactly(size: nat, capacity: nat)
    requires size <= capacity
    ensures Grown(size, capacity) ==
            if capacity - size >= 128 || capacity >= 65538 then capacity
            else if 2 * capacity <= 65538 then 2 * capacity else 65538
  {
  }

  /**
   The Recv loop: `net` is what the network holds, and each answer is how much the socket is
   willing to hand over, or a negative error.  When the answers run out, the socket would block.
   */
  function RecvLoop(inbuf: seq<byte>, capacity: nat, net: seq<byte>, answers: seq<int>): (seq<byte>, nat, seq<byte>)
    requires |inbuf| <= capacity
    decreases |answers|
  {
    var cap := Grown(|inbuf|, capacity);
    if answers == [] || answers[0] < 0 then (inbuf, cap, net)
    else
      var free := cap - |inbuf|;
      var len := Min(answers[0], Min(free, |net|));
      if len == 0 || len < free then (inbuf + net[..len], cap, net[len..])
      else RecvLoop(inbuf + net[..len], cap, net[len..], answers[1..])
  }

  function ReadStep(r: Receiver, net: seq<byte>, answers: seq<int>): (Receiver, seq<byte>)
    requires |r.inbuf| <= r.capacity
  {
    var (inbuf, capacity, left) := RecvLoop(r.inbuf, r.capacity, net, answers);
    if |inbuf| == |r.inbuf| then (Receiver(inbuf, capacity, r.signalled), left)
    else
      var parsed := Parse(inbuf);
      (Receiver(parsed.rest, capacity, r.signalled + parsed.packets), left)
  }

  // ----- The class -----

  lemma SignalOne(signalled: seq<Packet>, rest: seq<byte>)
    requires HasFrame(rest)
    ensures var end := PACKET_LEN_SIZE + GetBE16(rest);
            && signalled + Parse(rest).packets
               == signalled + [rest[PACKET_LEN_SIZE..end]] + Parse(rest[end..]).packets
            && Parse(rest).rest == Parse(rest[end..]).rest
  {
    ParseOne(rest);
    hide Parse, GetBE16;
    var end := PACKET_LEN_SIZE + GetBE16(rest);
    Regroup(signalled, [rest[PACKET_LEN_SIZE..end]], Parse(rest[end..]).packets);
  }

  lemma ParseOne(data: seq<byte>)
    requires HasFrame(data)
    ensures var end := PACKET_LEN_SIZE + GetBE16(data);
            var tail := Parse(data[end..]);
            Parse(data) == Parsed([data[PACKET_LEN_SIZE..end]] + tail.packets, tail.rest)
  {
    hide GetBE16;
  }

  /** One turn of the Recv loop, at answer i. */
  lemma RecvTurn(inbuf: seq<byte>, capacity: nat, net: seq<byte>, answers: seq<int>, i: nat)
    requires |inbuf| <= capacity && i <= |answers|
    ensures var cap := Grown(|inbuf|, capacity);
            RecvLoop(inbuf, capacity, net, answers[i..]) ==
            if i == |answers| || answers[i] < 0 then (inbuf, cap, net)
            else
              var free := cap - |inbuf|;
              var len := Min(answers[i], Min(free, |net|));
              if len == 0 || len < free then (inbuf + net[..len], cap, net[len..])
              else RecvLoop(inbuf + net[..len], cap, net[len..], answers[i + 1..])
  {
    hide Grown;
    if i < |answers| { assert answers[i..][0] == answers[i] && answers[i..][1..] == answers[i + 1..]; }
  }

  class AsyncTCPSocket {
    var outbuf: seq<byte>
    var inbuf: seq<byte>
    var inCapacity: nat
    /** Packets handed to SignalReadPacket. */
    var signalled: seq<Packet>
    ghost var wire: seq<byte>
    ghost var accepted: seq<Packet>

    ghost function Out(): Sender
      reads this
    {
      Sender(outbuf, wire, accepted)
    }

    ghost function In(): Receiver
      reads this
    {
      Receiver(inbuf, inCapacity, signalled)
    }

    constructor ()
      ensures Out() == Sender([], [], []) && In() == Receiver([], MINIMUM_RECV_SIZE, [])
    {
      outbuf, inbuf, inCapacity, signalled := [], [], MINIMUM_RECV_SIZE, [];
      wire, accepted := [], [];
    }

    method FlushOutBuffer(answer: int) returns (res: int)
      modifies this
      ensures (Out(), res) == Flush(old(Out()), answer)
      ensures In() == old(In())
    {
      res := answer;
      if res <= 0 {
        return res;
      }
      if res > |outbuf| {
        return -1;
      }
      var newSize := |outbuf| - res;
      wire := wire + outbuf[..res];
      if newSize > 0 {
        outbuf := outbuf[res..] + outbuf[newSize..];
      }
      outbuf := outbuf[..newSize];
    }

    /** While the out buffer is blocked, packets are dropped but reported as sent. */
    method Send(pv: Packet, answer: int) returns (res: int)
      modifies this
      ensures (Out(), res) == SendStep(old(Out()), pv, answer)
      ensures In() == old(In())
    {
      if |pv| > BUF_SIZE {
        return -1;
      }
      if outbuf != [] {
        return |pv|;
      }
      var pktLen := |pv| % 0x1_0000;
      outbuf := outbuf + [pktLen / 256, pktLen % 256];
      outbuf := outbuf + pv;
      assert outbuf == Frame(pv);
      res := FlushOutBuffer(answer);
      if res <= 0 {
        outbuf := [];
        return res;
      }
      accepted := accepted + [pv];
      return |pv|;
    }

    method OnWriteEvent(answer: int) returns (readyToSend: bool)
      modifies this
      ensures Out() == WriteStep(old(Out()), answer)
      ensures readyToSend == (outbuf == [])
      ensures In() == old(In())
    {
      if |outbuf| > 0 {
        var _ := FlushOutBuffer(answer);
      }
      readyToSend := |outbuf| == 0;
    }

    method ProcessInput(data: seq<byte>) returns (rest: seq<byte>)
      modifies this`signalled
      ensures rest == Parse(data).rest
      ensures signalled == old(signalled) + Parse(data).packets
    {
      rest := data;
      while true
        invariant old(signalled) + Parse(data).packets == signalled + Parse(rest).packets
        invariant Parse(data).rest == Parse(rest).rest
        decreases |rest|
      {
        if |rest| < PACKET_LEN_SIZE {
          return;
        }
        var pktLen := GetBE16(rest);
        if |rest| < PACKET_LEN_SIZE + pktLen {
          return;
        }
        var packet := rest[PACKET_LEN_SIZE..PACKET_LEN_SIZE + pktLen];
        SignalOne(signalled, rest);
        signalled := signalled + [packet];
        rest := rest[PACKET_LEN_SIZE + pktLen..];
      }
    }

    /** The loop of OnReadEvent around Recv. */
    method Receive(net: seq<byte>, answers: seq<int>) returns (left: seq<byte>, totalRecv: nat)
      requires |inbuf| <= inCapacity
      modifies this`inbuf, this`inCapacity
      ensures (inbuf, inCapacity, left) == old(RecvLoop(inbuf, inCapacity, net, answers))
      ensures |inbuf| == old(|inbuf|) + totalRecv
    {
      hide RecvLoop;
      left := net;
      totalRecv := 0;
      var i := 0;
      assert answers[0..] == answers;
      while true
        invariant i <= |answers| && |inbuf| <= inCapacity && |inbuf| == old(|inbuf|) + totalRecv
        invariant RecvLoop(inbuf, inCapacity, left, answers[i..]) == old(RecvLoop(inbuf, inCapacity, net, answers))
        decreases |answers| - i
      {
        RecvTurn(inbuf, inCapacity, left, answers, i);
        var freeSize := inCapacity - |inbuf|;
        if freeSize < MINIMUM_RECV_SIZE && inCapacity < BUF_SIZE {
          EnsureCapacity(Min(BUF_SIZE, inCapacity * 2));
          freeSize := inCapacity - |inbuf|;
        }
        if i == |answers| || answers[i] < 0 {
          return;
        }
        var len := Min(answers[i], Min(freeSize, |left|));
        totalRecv := totalRecv + len;
        inbuf := inbuf + left[..len];
        left := left[len..];
        i := i + 1;
        if len == 0 || len < freeSize {
          return;
        }
      }
    }

    method OnReadEvent(net: seq<byte>, answers: seq<int>) returns (left: seq<byte>)
      requires |inbuf| <= inCapacity
      modifies this
      ensures (In(), left) == ReadStep(old(In()), net, answers)
      ensures Out() == old(Out())
    {
      hide Parse, RecvLoop;
      var totalRecv;
      left, totalRecv := Receive(net, answers);
      if totalRecv == 0 {
        return;
      }
      inbuf := ProcessInput(inbuf);
    }

    method EnsureCapacity(capacity: nat)
      modifies this`inCapacity
      ensures inCapacity == if capacity > old(inCapacity) then capacity else old(inCapacity)
    {
      if capacity > inCapacity {
        inCapacity := capacity;
      }
    }
  }

  // ----- The sender: the stream is whole accepted frames -----

  ghost predicate SenderInv(s: Sender) {
    s.wire + s.outbuf == Frames(s.accepted)
  }

  lemma SendKeepsInv(s: Sender, p: Packet, answer: int)
    requires SenderInv(s)
    ensures SenderInv(SendStep(s, p, answer).0)
    ensures s.wire <= SendStep(s, p, answer).0.wire
  {
    if |p| <= BUF_SIZE && s.outbuf == [] && 0 < answer <= |Frame(p)| {
      FramesSnoc(s.accepted, p);
      assert s.wire + [] == s.wire;
      assert (s.wire + Frame(p)[..answer]) + Frame(p)[answer..] == s.wire + Frame(p);
    }
  }

  lemma WriteKeepsInv(s: Sender, answer: int)
    requires SenderInv(s)
    ensures SenderInv(WriteStep(s, answer))
    ensures s.wire <= WriteStep(s, answer).wire
  {
    if 0 < answer <= |s.outbuf| {
      assert (s.wire + s.outbuf[..answer]) + s.outbuf[answer..] == s.wire + s.outbuf;
    }
  }

  // ----- The receiver: it never wedges -----

  ghost predicate ReceiverInv(r: Receiver) {
    |r.inbuf| <= r.capacity && MINIMUM_RECV_SIZE <= r.capacity <= BUF_SIZE && !HasFrame(r.inbuf)
  }

  /** The loop moves bytes from the network to the buffer, in order, within the capacity. */
  lemma {:induction false} RecvMoves(inbuf: seq<byte>, capacity: nat, net: seq<byte>, answers: seq<int>)
    requires |inbuf| <= capacity && MINIMUM_RECV_SIZE <= capacity <= BUF_SIZE
    ensures var (inbuf', capacity', left) := RecvLoop(inbuf, capacity, net, answers);
            && inbuf <= inbuf' && inbuf' + left == inbuf + net
            && |inbuf'| <= capacity' && capacity <= capacity' <= BUF_SIZE
    decreases |answers|
  {
    var cap := Grown(|inbuf|, capacity);
    if answers != [] && answers[0] >= 0 {
      var len := Min(answers[0], Min(cap - |inbuf|, |net|));
      assert (inbuf + net[..len]) + net[len..] == inbuf + net;
      if len > 0 && len == cap - |inbuf| {
        RecvMoves(inbuf + net[..len], cap, net[len..], answers[1..]);
      }
    }
  }

  /** A buffer without a whole frame is never full, and after growing it has free space. */
  lemma NeverWedges(r: Receiver)
    requires ReceiverInv(r)
    ensures |r.inbuf| < BUF_SIZE
    ensures |r.inbuf| < Grown(|r.inbuf|, r.capacity)
  {
  }

  /** A completely full buffer always holds a whole frame. */
  lemma FullHasFrame(data: seq<byte>)
    requires |data| >= BUF_SIZE
    ensures Parse(data).packets != []
  {
  }

  /** So a read event with bytes to give always takes some of them. */
  lemma ReadsProgress(r: Receiver, net: seq<byte>, answers: seq<int>)
    requires ReceiverInv(r) && net != [] && answers != [] && answers[0] > 0
    ensures |ReadStep(r, net, answers).1| < |net|
  {
    NeverWedges(r);
    var cap := Grown(|r.inbuf|, r.capacity);
    var len := Min(answers[0], Min(cap - |r.inbuf|, |net|));
    RecvMoves(r.inbuf + net[..len], cap, net[len..], answers[1..]);
  }

  /** One read event, whatever the chunks were: the packets of the bytes taken, and the rest. */
  lemma ReadKeepsInv(r: Receiver, net: seq<byte>, answers: seq<int>)
    requires ReceiverInv(r)
    ensures var (r', left) := ReadStep(r, net, answers);
            && ReceiverInv(r') && |left| <= |net|
            && var taken := net[..|net| - |left|];
               && net == taken + left
               && Parse(r.inbuf + taken) == Parsed(r'.signalled[|r.signalled|..], r'.inbuf)
               && r.signalled <= r'.signalled
  {
    var (inbuf, capacity, left) := RecvLoop(r.inbuf, r.capacity, net, answers);
    RecvMoves(r.inbuf, r.capacity, net, answers);
    var taken := net[..|net| - |left|];
    var got := inbuf[|r.inbuf|..];
    assert inbuf == r.inbuf + got;
    assert got + left == net by {
      assert (r.inbuf + got) + left == r.inbuf + (got + left);
      assert (r.inbuf + (got + left))[|r.inbuf|..] == got + left;
      assert (r.inbuf + net)[|r.inbuf|..] == net;
    }
    assert taken == got;
    if |inbuf| == |r.inbuf| {
      assert r.inbuf + taken == r.inbuf;
      assert r.signalled[|r.signalled|..] == [];
    } else {
      ParseRest(inbuf);
      assert (r.signalled + Parse(inbuf).packets)[|r.signalled|..] == Parse(inbuf).packets;
    }
  }

  // ----- End to end -----

  datatype Event =
    | SendCall(packet: Packet, answer: int)
    | WriteEvent(answer: int)
    | ReadEvent(answers: seq<int>)

  /** One sender, one receiver, and the bytes on their way. */
  datatype System = System(sender: Sender, net: seq<byte>, receiver: Receiver)

  const INITIAL := System(Sender([], [], []), [], Receiver([], MINIMUM_RECV_SIZE, []))

  function Next(s: System, e: Event): System
    requires |s.receiver.inbuf| <= s.receiver.capacity
  {
    match e
    case SendCall(p, answer) =>
      var sender := SendStep(s.sender, p, answer).0;
      System(sender, s.net + NewBytes(s.sender, sender), s.receiver)
    case WriteEvent(answer) =>
      var sender := WriteStep(s.sender, answer);
      System(sender, s.net + NewBytes(s.sender, sender), s.receiver)
    case ReadEvent(answers) =>
      var (receiver, left) := ReadStep(s.receiver, s.net, answers);
      System(s.sender, left, receiver)
  }

  function NewBytes(before: Sender, after: Sender): seq<byte> {
    if |before.wire| <= |after.wire| then after.wire[|before.wire|..] else []
  }

  ghost predicate SystemInv(s: System) {
    && SenderInv(s.sender) && ReceiverInv(s.receiver)
    && |s.net| <= |s.sender.wire|
    && s.sender.wire == Delivered(s) + s.net
    && Parse(Delivered(s)) == Parsed(s.receiver.signalled, s.receiver.inbuf)
  }

  /** The bytes that have reached the receiver. */
  function Delivered(s: System): seq<byte> {
    if |s.net| <= |s.sender.wire| then s.sender.wire[..|s.sender.wire| - |s.net|] else []
  }

  ghost predicate Reaches(s: System, events: seq<Event>, t: System)
    decreases |events|
  {
    if events == [] then s == t
    else |s.receiver.inbuf| <= s.receiver.capacity && Reaches(Next(s, events[0]), events[1..], t)
  }

  lemma SentKeepsInv(s: System, sender: Sender)
    requires SystemInv(s) && SenderInv(sender) && s.sender.wire <= sender.wire
    ensures SystemInv(System(sender, s.net + NewBytes(s.sender, sender), s.receiver))
  {
    var more := NewBytes(s.sender, sender);
    var t := System(sender, s.net + more, s.receiver);
    assert sender.wire == s.sender.wire + more;
    assert Delivered(t) == Delivered(s);
    assert sender.wire == Delivered(t) + (s.net + more);
  }

  lemma ReceivedKeepsInv(s: System, answers: seq<int>)
    requires SystemInv(s)
    ensures SystemInv(Next(s, ReadEvent(answers)))
  {
    hide Parse, Frames, HasFrame, ReadStep;
    var (r', left) := ReadStep(s.receiver, s.net, answers);
    ReadKeepsInv(s.receiver, s.net, answers);
    var taken := s.net[..|s.net| - |left|];
    var t := Next(s, ReadEvent(answers));
    assert Delivered(t) == Delivered(s) + taken;
    ParseChunks(Delivered(s), taken);
    assert s.receiver.signalled + r'.signalled[|s.receiver.signalled|..] == r'.signalled;
    assert s.sender.wire == Delivered(t) + left;
  }

  lemma StepKeepsInv(s: System, e: Event)
    requires SystemInv(s)
    ensures SystemInv(Next(s, e))
  {
    match e
    case SendCall(p, answer) =>
      SendKeepsInv(s.sender, p, answer);
      SentKeepsInv(s, SendStep(s.sender, p, answer).0);
    case WriteEvent(answer) =>
      WriteKeepsInv(s.sender, answer);
      SentKeepsInv(s, WriteStep(s.sender, answer));
    case ReadEvent(answers) =>
      ReceivedKeepsInv(s, answers);
  }

  lemma {:induction false} ReachesInv(s: System, events: seq<Event>, t: System)
    requires SystemInv(s) && Reaches(s, events, t)
    ensures SystemInv(t)
    decreases |events|
  {
    if events != [] {
      StepKeepsInv(s, events[0]);
      ReachesInv(Next(s, events[0]), events[1..], t);
    }
  }

  /**
   For every run: the wire and the out buffer are whole accepted frames, and what was signalled
   depends only on the bytes delivered, never on the chunks.
   */
  lemma StreamIsFrames(events: seq<Event>, t: System)
    requires Reaches(INITIAL, events, t)
    ensures t.sender.wire + t.sender.outbuf == Frames(t.sender.accepted)
    ensures t.sender.wire == Delivered(t) + t.net
    ensures Parse(Delivered(t)) == Parsed(t.receiver.signalled, t.receiver.inbuf)
    ensures |t.receiver.inbuf| <= t.receiver.capacity <= BUF_SIZE && !HasFrame(t.receiver.inbuf)
  {
    assert Parse([]) == Parsed([], []);
    ReachesInv(INITIAL, events, t);
  }

  /**
   With packets of at most 65535 bytes, the receiver signals a prefix of exactly the accepted
   packets.  Once everything has arrived, it has signalled all of them and nothing is left over,
   exactly when no accepted packet was longer: the guard of Send lets up to 65538 bytes through,
   but the length is cast to 16 bits.
   */
  lemma EndToEnd(events: seq<Event>, t: System)
    requires Reaches(INITIAL, events, t)
    ensures SmallPackets(t.sender.accepted) ==> t.receiver.signalled <= t.sender.accepted
    ensures t.sender.outbuf == [] && t.net == [] ==>
              (SmallPackets(t.sender.accepted)
               <==> t.receiver.signalled == t.sender.accepted && t.receiver.inbuf == [])
  {
    hide Parse, Frames, ReceiverInv, HasFrame, Next;
    StreamIsFrames(events, t);
    FramesReadBack(t.sender.accepted);
    var rest := t.net + t.sender.outbuf;
    assert Delivered(t) + rest == (Delivered(t) + t.net) + t.sender.outbuf;
    ParseChunks(Delivered(t), rest);
    if t.sender.outbuf == [] && t.net == [] {
      assert Delivered(t) + rest == Delivered(t);
    }
  }

  /** Such packets do get through: Send accepts one, puts it on the wire whole, and it comes out as something else. */
  lemma TooLongIsAccepted(p: Packet) returns (t: System)
    requires 65535 < |p| <= BUF_SIZE
    ensures Reaches(INITIAL, [SendCall(p, PACKET_LEN_SIZE + |p|)], t)
    ensures t.sender.accepted == [p] && t.sender.outbuf == [] && t.sender.wire == Frame(p)
    ensures Parse(t.sender.wire) != Parsed([p], [])
  {
    var e := SendCall(p, PACKET_LEN_SIZE + |p|);
    var f := Frame(p);
    assert f[..|f|] == f && f[|f|..] == [] && [] + f == f;
    FrameReadsBack(p);
    hide Parse, Frame;
    t := Next(INITIAL, e);
    assert [e][1..] == [];
  }
}
