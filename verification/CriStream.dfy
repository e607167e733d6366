/**
 The host's end of the CRI connection: packets in, a stream buffer of one frame, one
 dispatch per complete frame, packets out.
 */
module CriStream {
  import opened Bytes
  import opened Words
  import CriObject

  const HEADER := 20
  const OBJECT := CriObject.OBJECT
  const FRAME := HEADER + OBJECT

  const MAGIC := 0x4352564d
  const VERSION := 1

  const HOST := 2
  const PORT := 1234
  const STREAM := 1

  const OP_REQUEST: u16 := 1
  const OP_RESPONSE: u16 := 2
  const OP_RST: u16 := 3
  const OP_SHUTDOWN: u16 := 4
  const OP_RW: u16 := 5
  const OP_CREDIT_UPDATE: u16 := 6
  const OP_CREDIT_REQUEST: u16 := 7

  type Payload = s: Text | |s| < TWO32 witness []

  type Object = s: Text | |s| == OBJECT witness Fill(OBJECT, NUL)

  datatype Peer = Peer(cid: u64, port: u32)

  /** A packet of the receive queue: too short for its header, or header fields and the bytes after them. */
  datatype Packet =
    | Runt
    | Packet(from: Peer, cid: u64, port: u32, len: u32, kind: u16, op: u16, rest: Text)

  /** What the dispatcher makes of a request. */
  datatype Answer = Answer(status: u32, body: Object)

  datatype Sent = Sent(to: Peer, op: u16, payload: Text, fwd: u32)

  /**
   `accepted` counts the stream bytes taken in, `requests` are the frames dispatched and
   `replies` the replies made to them, `sent` is what the transmit queue took.
   */
  datatype Link = Link(
    connected: bool, peer: Peer, stream: Text, accepted: nat,
    requests: seq<Text>, replies: seq<Text>, sent: seq<Sent>)

  // ---------------------------------------------------------------------------
  // Packets
  // ---------------------------------------------------------------------------

  predicate HeaderOk(s: Text)
    requires |s| >= HEADER
  {
    U32(s, 0) == MAGIC && U16(s, 4) == VERSION && U32(s, 16) == OBJECT
  }

  /** The request's header with status and length replaced, and the object. */
  function Reply(request: Text, answer: Answer): (reply: Text)
    requires |request| == FRAME
  {
    request[..12] + Put32(answer.status) + Put32(OBJECT) + answer.body
  }

  /** The transmit queue may have no room; then the packet is lost. */
  function Send(l: Link, op: u16, payload: Text, room: bool): Link {
    if room then l.(sent := l.sent + [Sent(l.peer, op, payload, l.accepted % TWO32)]) else l
  }

  function Absorb(l: Link, answer: Answer, room: bool): Link
    requires |l.stream| <= FRAME
  {
    if |l.stream| < HEADER then l
    else if !HeaderOk(l.stream) then Send(l, OP_RST, [], room).(stream := [], connected := false)
    else if |l.stream| < FRAME then l
    else
      var reply := Reply(l.stream, answer);
      Send(l, OP_RW, reply, room)
      .(stream := [], requests := l.requests + [l.stream], replies := l.replies + [reply])
  }

  function Receive(l: Link, p: Packet, answer: Answer, room: bool): Link
    requires |l.stream| < FRAME
  {
    if p.Runt? || p.len > |p.rest| || p.cid != HOST || p.kind != STREAM then l
    else if p.op == OP_REQUEST then
      if l.connected || p.port != PORT then l
      else Send(l.(connected := true, peer := p.from, stream := []), OP_RESPONSE, [], room)
    else if !l.connected || p.from != l.peer || p.port != PORT then l
    else if p.op == OP_RW then
      if p.len > FRAME - |l.stream| then l
      else Absorb(l.(stream := l.stream + p.rest[..p.len], accepted := l.accepted + p.len), answer, room)
    else if p.op == OP_CREDIT_REQUEST then Send(l, OP_CREDIT_UPDATE, [], room)
    else if p.op == OP_SHUTDOWN then Send(l, OP_RST, [], room).(connected := false, stream := [])
    else if p.op == OP_RST then l.(connected := false, stream := [])
    else l
  }

  // ---------------------------------------------------------------------------
  // What every packet keeps
  // ---------------------------------------------------------------------------

  /** A reply echoes magic, version, operation and request id, and says the length of its object. */
  predicate Replies(reply: Text, request: Text) {
    && |reply| == |request| == FRAME && HeaderOk(request) && HeaderOk(reply)
    && U16(reply, 6) == U16(request, 6) && U32(reply, 8) == U32(request, 8)
  }

  /** Less than a frame is buffered, under a good header; every frame dispatched was good and has its reply. */
  predicate Valid(l: Link) {
    && |l.stream| < FRAME && (|l.stream| >= HEADER ==> HeaderOk(l.stream))
    && |l.requests| == |l.replies|
    && forall i :: 0 <= i < |l.requests| ==> Replies(l.replies[i], l.requests[i])
  }

  lemma ReplyReplies(request: Text, answer: Answer)
    requires |request| == FRAME && HeaderOk(request)
    ensures var reply := Reply(request, answer);
            Replies(reply, request) && U32(reply, 12) == answer.status && reply[HEADER..] == answer.body
  {
    var reply := Reply(request, answer);
    assert reply[..12] == request[..12];
    assert request[0..4] == request[..12][0..4] && request[4..6] == request[..12][4..6];
    assert request[6..8] == request[..12][6..8] && request[8..12] == request[..12][8..12];
    assert reply[0..4] == reply[..12][0..4] && reply[4..6] == reply[..12][4..6];
    assert reply[6..8] == reply[..12][6..8] && reply[8..12] == reply[..12][8..12];
    assert reply[12..16] == Put32(answer.status) && reply[16..20] == Put32(OBJECT);
    SameU32(reply, 12, Put32(answer.status), 0);
    SameU32(reply, 0, request, 0);
    SameU16(reply, 4, request, 4);
    SameU16(reply, 6, request, 6);
    SameU32(reply, 8, request, 8);
    SameU32(reply, 16, Put32(OBJECT), 0);
  }

  lemma ReceiveValid(l: Link, p: Packet, answer: Answer, room: bool)
    requires Valid(l)
    ensures Valid(Receive(l, p, answer, room))
  {
    var l' := Receive(l, p, answer, room);
    if |l'.requests| > |l.requests| {
      ReplyReplies(l'.requests[|l.requests|], answer);
    }
  }

  /** An addressed packet of the stream kind that is as long as it says. */
  predicate Sound(p: Packet) {
    p.Packet? && p.len <= |p.rest| && p.cid == 2 && p.kind == 1 && p.port == 1234
  }

  predicate FromPeer(l: Link, p: Packet) {
    Sound(p) && l.connected && p.from == l.peer
  }

  /** A request for a connection to the service while there is none. */
  predicate Connects(l: Link, p: Packet) {
    Sound(p) && !l.connected && p.op == 1
  }

  /** Stream data of the peer's that does not cross the end of the frame. */
  predicate Fits(l: Link, p: Packet) {
    FromPeer(l, p) && p.op == 5 && |l.stream| + p.len <= FRAME
  }

  /** What is buffered and the data. */
  function Grown(l: Link, p: Packet): Text
    requires Sound(p)
  {
    l.stream + p.rest[..p.len]
  }

  /** Data after which the buffered header is not good. */
  predicate Spoils(l: Link, p: Packet) {
    Fits(l, p) && |l.stream| + p.len >= HEADER && !HeaderOk(Grown(l, p))
  }

  /** Data that completes a frame with a good header. */
  predicate Completes(l: Link, p: Packet) {
    Fits(l, p) && |l.stream| + p.len == FRAME && HeaderOk(Grown(l, p))
  }

  predicate HangsUp(l: Link, p: Packet) {
    FromPeer(l, p) && (p.op == 3 || p.op == 4)
  }

  /**
   A packet leads to a dispatch exactly when it is stream data from the connected peer to the
   service, addressed and sized as it says, that completes a frame with a good header; the
   frame dispatched is then what was buffered and the data.
   */
  lemma DispatchExactly(l: Link, p: Packet, answer: Answer, room: bool)
    requires Valid(l)
    ensures Receive(l, p, answer, room).requests != l.requests <==> Completes(l, p)
    ensures Completes(l, p) ==> Receive(l, p, answer, room).requests == l.requests + [Grown(l, p)]
  {
    var l' := Receive(l, p, answer, room);
    assert l'.requests != l.requests <==> |l'.requests| == |l.requests| + 1;
  }

  /**
   A connection begins exactly with a request to the service while there is none, and ends
   exactly with a reset or a shutdown of the peer's or data that spoils the header.
   */
  lemma ConnectionExactly(l: Link, p: Packet, answer: Answer, room: bool)
    requires Valid(l)
    ensures var l' := Receive(l, p, answer, room);
            && (l'.connected <==> Connects(l, p) || (l.connected && !HangsUp(l, p) && !Spoils(l, p)))
            && l'.peer == (if Connects(l, p) then p.from else l.peer)
            && l'.accepted == (if Fits(l, p) then l.accepted + p.len else l.accepted)
            && l'.stream == (if Connects(l, p) || HangsUp(l, p) || Spoils(l, p) || Completes(l, p) then []
                             else if Fits(l, p) then Grown(l, p) else l.stream)
  {
  }

  /** A frame with the request's operation and id, the answer's status and object, under a good header. */
  predicate Answers(payload: Text, request: Text, answer: Answer) {
    && |payload| == |request| == 20 + 2536
    && U32(payload, 0) == 0x4352564d && U16(payload, 4) == 1
    && U16(payload, 6) == U16(request, 6) && U32(payload, 8) == U32(request, 8)
    && U32(payload, 12) == answer.status && U32(payload, 16) == 2536 && payload[20..] == answer.body
  }

  /** Without room nothing is sent; with room a packet is answered by at most one packet, to the peer. */
  lemma SentExactly(l: Link, p: Packet, answer: Answer, room: bool)
    requires Valid(l)
    ensures room && Completes(l, p) ==>
              var l' := Receive(l, p, answer, room);
              && |l'.sent| == |l.sent| + 1 && l.sent < l'.sent
              && var packet := l'.sent[|l.sent|];
                 && packet == Sent(l.peer, 5, packet.payload, (l.accepted + p.len) % 0x1_0000_0000)
                 && Answers(packet.payload, Grown(l, p), answer)
    ensures !(room && Completes(l, p)) ==>
              var l' := Receive(l, p, answer, room);
              l'.sent == l.sent + (
                if !room then []
                else if Connects(l, p) then [Sent(p.from, 2, [], l.accepted % 0x1_0000_0000)]
                else if FromPeer(l, p) && p.op == 4 then [Sent(l.peer, 3, [], l.accepted % 0x1_0000_0000)]
                else if FromPeer(l, p) && p.op == 7 then [Sent(l.peer, 6, [], l.accepted % 0x1_0000_0000)]
                else if Spoils(l, p) then [Sent(l.peer, 3, [], (l.accepted + p.len) % 0x1_0000_0000)]
                else [])
  {
    if Completes(l, p) {
      ReplyReplies(Grown(l, p), answer);
    }
  }

  /** Until it disconnects only the connected peer can change the connection. */
  lemma StrangersIgnored(l: Link, p: Packet, answer: Answer, room: bool)
    requires Valid(l) && l.connected && (p.Packet? ==> p.from != l.peer)
    ensures Receive(l, p, answer, room) == l
  {
  }

  // ---------------------------------------------------------------------------
  // Reassembly
  // ---------------------------------------------------------------------------

  /** A stream packet of the peer's, with what the dispatcher would answer and the room to reply. */
  datatype Arrival = Arrival(payload: Payload, answer: Answer, room: bool)

  function RwPacket(peer: Peer, payload: Payload): Packet {
    Packet(peer, HOST, PORT, |payload|, STREAM, OP_RW, payload)
  }

  function Take(l: Link, a: Arrival): (l': Link)
    requires |l.stream| < FRAME
    ensures |l'.stream| < FRAME
  {
    Receive(l, RwPacket(l.peer, a.payload), a.answer, a.room)
  }

  function Feed(l: Link, arrivals: seq<Arrival>): Link
    requires |l.stream| < FRAME
    decreases |arrivals|
  {
    if arrivals == [] then l else Feed(Take(l, arrivals[0]), arrivals[1..])
  }

  /** The bytes of all payloads in order. */
  function Joined(arrivals: seq<Arrival>): Text {
    if arrivals == [] then [] else arrivals[0].payload + Joined(arrivals[1..])
  }

  /** No payload crosses the end of a frame, when `n` bytes of one are buffered. */
  predicate Aligned(n: nat, arrivals: seq<Arrival>)
    decreases |arrivals|
  {
    arrivals == []
    || (var m := n + |arrivals[0].payload|;
        m <= FRAME && Aligned(if m == FRAME then 0 else m, arrivals[1..]))
  }

  /** The complete frames a byte stream starts with. */
  function Frames(s: Text): seq<Text> {
    if |s| < FRAME then [] else [s[..FRAME]] + Frames(s[FRAME..])
  }

  /** What follows the complete frames. */
  function Partial(s: Text): Text {
    if |s| < FRAME then s else Partial(s[FRAME..])
  }

  /** Every complete header at a frame boundary is good. */
  predicate GoodStream(s: Text) {
    |s| < HEADER || (HeaderOk(s) && (|s| < FRAME || GoodStream(s[FRAME..])))
  }

  lemma HeaderOfPrefix(s: Text, t: Text)
    requires |s| >= HEADER
    ensures HeaderOk(s + t) == HeaderOk(s)
  {
    assert (s + t)[0..4] == s[0..4] && (s + t)[4..6] == s[4..6] && (s + t)[16..20] == s[16..20];
    SameU32(s + t, 0, s, 0);
    SameU16(s + t, 4, s, 4);
    SameU32(s + t, 16, s, 16);
  }

  /** One payload that fits, of a good stream: buffered, or dispatched with what it completes. */
  lemma TakeGood(l: Link, a: Arrival, rest: Text)
    requires |l.stream| < FRAME && l.connected && |l.stream| + |a.payload| <= FRAME
    requires GoodStream(l.stream + a.payload + rest)
    ensures var l', s := Take(l, a), l.stream + a.payload;
            && l'.connected && l'.peer == l.peer && l'.accepted == l.accepted + |a.payload|
            && l'.requests == (if |s| == FRAME then l.requests + [s] else l.requests)
            && l'.replies == (if |s| == FRAME then l.replies + [Reply(s, a.answer)] else l.replies)
            && l'.stream == (if |s| == FRAME then [] else s)
            && l'.sent == (if |s| == FRAME && a.room
                           then l.sent + [Sent(l.peer, OP_RW, Reply(s, a.answer), l'.accepted % TWO32)] else l.sent)
  {
    var s := l.stream + a.payload;
    assert a.payload[..|a.payload|] == a.payload;
    if |s| >= HEADER {
      HeaderOfPrefix(s, rest);
    }
  }

  lemma FramesOfWhole(s: Text, t: Text)
    requires |s| == FRAME && GoodStream(s + t)
    ensures Frames(s + t) == [s] + Frames(t) && Partial(s + t) == Partial(t) && GoodStream(t)
  {
    assert (s + t)[..FRAME] == s && (s + t)[FRAME..] == t;
  }

  /**
   However a good stream is cut into packets, as long as none crosses a frame boundary: each
   frame is dispatched once, in order, with exactly its bytes; the rest is buffered; all
   bytes are counted.
   */
  lemma {:induction false} Reassembles(l: Link, arrivals: seq<Arrival>)
    requires |l.stream| < FRAME && l.connected && Aligned(|l.stream|, arrivals)
    requires GoodStream(l.stream + Joined(arrivals))
    ensures var l', s := Feed(l, arrivals), l.stream + Joined(arrivals);
            && l'.connected && l'.accepted == l.accepted + |Joined(arrivals)|
            && l'.requests == l.requests + Frames(s) && l'.stream == Partial(s)
    decreases |arrivals|
  {
    if arrivals == [] {
      assert l.stream + [] == l.stream;
    } else {
      var a, rest := arrivals[0], Joined(arrivals[1..]);
      var s, l' := l.stream + a.payload, Take(l, a);
      Regroup(l.stream, a.payload, rest);
      TakeGood(l, a, rest);
      if |s| == FRAME {
        FramesOfWhole(s, rest);
        assert [] + rest == rest;
        Reassembles(l', arrivals[1..]);
        Regroup(l.requests, [s], Frames(rest));
      } else {
        Reassembles(l', arrivals[1..]);
      }
    }
  }

  /** The payloads that complete a frame, when `n` bytes of one are buffered. */
  function Completing(n: nat, arrivals: seq<Arrival>): seq<Arrival>
    decreases |arrivals|
  {
    if arrivals == [] then []
    else
      var m := n + |arrivals[0].payload|;
      if m == FRAME then [arrivals[0]] + Completing(0, arrivals[1..]) else Completing(m, arrivals[1..])
  }

  /**
   The packets sent are stream packets to the peer that answer, in order, those frames
   completed with room for a reply; each is credited for its frame and all bytes before it.
   */
  predicate AnsweredInOrder(peer: Peer, before: int, sent: seq<Sent>, frames: seq<Text>, closing: seq<Arrival>)
    decreases |frames|
  {
    if frames == [] || closing == [] then frames == [] && closing == [] && sent == []
    else if !closing[0].room then AnsweredInOrder(peer, before + FRAME, sent, frames[1..], closing[1..])
    else
      && sent != [] && sent[0] == Sent(peer, 5, sent[0].payload, (before + FRAME) % 0x1_0000_0000)
      && Answers(sent[0].payload, frames[0], closing[0].answer)
      && AnsweredInOrder(peer, before + FRAME, sent[1..], frames[1..], closing[1..])
  }

  function SentFor(peer: Peer, count: int, a: Arrival, s: Text): seq<Sent>
    requires |s| == FRAME
  {
    if a.room then [Sent(peer, OP_RW, Reply(s, a.answer), count % TWO32)] else []
  }

  /** What goes out for the packets, when `count` bytes were taken in and `buffered` are left of them. */
  function Outgoing(peer: Peer, count: nat, buffered: Text, arrivals: seq<Arrival>): seq<Sent>
    decreases |arrivals|
  {
    if arrivals == [] then []
    else
      var a := arrivals[0];
      var s, n := buffered + a.payload, count + |a.payload|;
      if |s| == FRAME then SentFor(peer, n, a, s) + Outgoing(peer, n, [], arrivals[1..])
      else Outgoing(peer, n, s, arrivals[1..])
  }

  lemma {:induction false} FeedSends(l: Link, arrivals: seq<Arrival>)
    requires |l.stream| < FRAME && l.connected && Aligned(|l.stream|, arrivals)
    requires GoodStream(l.stream + Joined(arrivals))
    ensures Feed(l, arrivals).sent == l.sent + Outgoing(l.peer, l.accepted, l.stream, arrivals)
    decreases |arrivals|
  {
    if arrivals != [] {
      var a, rest := arrivals[0], Joined(arrivals[1..]);
      var s, l' := l.stream + a.payload, Take(l, a);
      Regroup(l.stream, a.payload, rest);
      TakeGood(l, a, rest);
      if |s| == FRAME {
        FramesOfWhole(s, rest);
        assert [] + rest == rest;
        FeedSends(l', arrivals[1..]);
        Regroup(l.sent, SentFor(l.peer, l'.accepted, a, s), Outgoing(l.peer, l'.accepted, [], arrivals[1..]));
      } else {
        FeedSends(l', arrivals[1..]);
      }
    }
  }

  /** A frame completed after `before` bytes, in front of what answers the frames after it. */
  lemma AnsweredNext(
      peer: Peer, before: int, a: Arrival, s: Text, sent: seq<Sent>, frames: seq<Text>, closing: seq<Arrival>)
    requires |s| == FRAME && HeaderOk(s) && AnsweredInOrder(peer, before + FRAME, sent, frames, closing)
    ensures AnsweredInOrder(peer, before, SentFor(peer, before + FRAME, a, s) + sent, [s] + frames, [a] + closing)
  {
    var all := SentFor(peer, before + FRAME, a, s) + sent;
    assert ([s] + frames)[1..] == frames && ([a] + closing)[1..] == closing;
    if a.room {
      ReplyReplies(s, a.answer);
      assert all[1..] == sent;
    } else {
      assert all == sent;
    }
  }

  lemma FirstArrival(buffered: Text, arrivals: seq<Arrival>, s: Text, rest: Text)
    requires |buffered| < FRAME && arrivals != [] && Aligned(|buffered|, arrivals)
    requires GoodStream(buffered + Joined(arrivals))
    requires s == buffered + arrivals[0].payload && rest == Joined(arrivals[1..])
    ensures buffered + Joined(arrivals) == s + rest
    ensures |s| < FRAME ==> Aligned(|s|, arrivals[1..]) && GoodStream(s + rest)
    ensures |s| == FRAME ==>
              && HeaderOk(s) && Aligned(0, arrivals[1..]) && GoodStream([] + rest)
              && Frames(s + rest) == [s] + Frames([] + rest)
  {
    Regroup(buffered, arrivals[0].payload, rest);
    if |s| == FRAME {
      FramesOfWhole(s, rest);
      HeaderOfPrefix(s, rest);
      assert [] + rest == rest;
    }
  }

  lemma {:induction false} OutgoingAnswers(peer: Peer, count: nat, buffered: Text, arrivals: seq<Arrival>)
    requires |buffered| < FRAME && Aligned(|buffered|, arrivals)
    requires GoodStream(buffered + Joined(arrivals))
    ensures AnsweredInOrder(peer, count - |buffered|, Outgoing(peer, count, buffered, arrivals),
                            Frames(buffered + Joined(arrivals)), Completing(|buffered|, arrivals))
    decreases |arrivals|
  {
    if arrivals != [] {
      var a, rest := arrivals[0], Joined(arrivals[1..]);
      var s, n := buffered + a.payload, count + |a.payload|;
      FirstArrival(buffered, arrivals, s, rest);
      if |s| == FRAME {
        OutgoingAnswers(peer, n, [], arrivals[1..]);
        AnsweredNext(peer, count - |buffered|, a, s, Outgoing(peer, n, [], arrivals[1..]), Frames([] + rest),
                     Completing(0, arrivals[1..]));
      } else {
        OutgoingAnswers(peer, n, s, arrivals[1..]);
      }
    }
  }

  /**
   However a good stream is cut within frame boundaries, `out`, what goes out for it, are the
   answers to its frames, in order.
   */
  lemma AnswersInOrder(l: Link, arrivals: seq<Arrival>, out: seq<Sent>, frames: seq<Text>, closing: seq<Arrival>)
    requires |l.stream| < FRAME && l.connected && Aligned(|l.stream|, arrivals)
    requires GoodStream(l.stream + Joined(arrivals))
    requires Feed(l, arrivals).sent == l.sent + out
    requires frames == Frames(l.stream + Joined(arrivals)) && closing == Completing(|l.stream|, arrivals)
    ensures AnsweredInOrder(l.peer, l.accepted - |l.stream|, out, frames, closing)
  {
    FeedSends(l, arrivals);
    var sends := Outgoing(l.peer, l.accepted, l.stream, arrivals);
    assert (l.sent + out)[|l.sent|..] == out && (l.sent + sends)[|l.sent|..] == sends;
    OutgoingAnswers(l.peer, l.accepted, l.stream, arrivals);
  }

  function Flatten(frames: seq<Text>): Text {
    if frames == [] then [] else frames[0] + Flatten(frames[1..])
  }

  lemma {:induction false} FramesOfFrames(frames: seq<Text>)
    requires forall i :: 0 <= i < |frames| ==> |frames[i]| == FRAME && HeaderOk(frames[i])
    ensures GoodStream(Flatten(frames)) && Frames(Flatten(frames)) == frames && Partial(Flatten(frames)) == []
    decreases |frames|
  {
    if frames != [] {
      FramesOfFrames(frames[1..]);
      var f, rest := frames[0], Flatten(frames[1..]);
      HeaderOfPrefix(f, rest);
      assert (f + rest)[FRAME..] == rest;
      FramesOfWhole(f, rest);
    }
  }

  /** The same for whole frames sent on a fresh connection: one dispatch per frame, nothing left over. */
  lemma OneDispatchPerFrame(l: Link, arrivals: seq<Arrival>, frames: seq<Text>)
    requires l.stream == [] && l.connected && Aligned(0, arrivals)
    requires forall i :: 0 <= i < |frames| ==> |frames[i]| == FRAME && HeaderOk(frames[i])
    requires Joined(arrivals) == Flatten(frames)
    ensures var l' := Feed(l, arrivals);
            && l'.requests == l.requests + frames && l'.stream == []
            && l'.accepted == l.accepted + |Flatten(frames)|
  {
    FramesOfFrames(frames);
    assert [] + Joined(arrivals) == Joined(arrivals);
    Reassembles(l, arrivals);
  }

  // ---------------------------------------------------------------------------
  // Packets that cross a boundary
  // ---------------------------------------------------------------------------

  /** A payload that crosses the end of the frame is dropped without a trace: no byte, no reply, no credit. */
  lemma CrossingIsDropped(l: Link, a: Arrival)
    requires Valid(l) && l.connected
    ensures Take(l, a) == l <==> |a.payload| == 0 || |l.stream| + |a.payload| > FRAME
  {
    assert a.payload[..|a.payload|] == a.payload;
    if |a.payload| == 0 {
      assert l.stream + a.payload == l.stream;
    }
  }

  lemma {:induction false} AcceptedAtMost(l: Link, arrivals: seq<Arrival>)
    requires |l.stream| < FRAME
    ensures Feed(l, arrivals).accepted <= l.accepted + |Joined(arrivals)|
    decreases |arrivals|
  {
    if arrivals != [] {
      AcceptedAtMost(Take(l, arrivals[0]), arrivals[1..]);
    }
  }

  /** Of a good stream nothing is lost exactly when no packet crosses a frame boundary. */
  lemma {:induction false} LostIffCrossing(l: Link, arrivals: seq<Arrival>)
    requires |l.stream| < FRAME && l.connected && GoodStream(l.stream + Joined(arrivals))
    ensures Feed(l, arrivals).accepted == l.accepted + |Joined(arrivals)| <==> Aligned(|l.stream|, arrivals)
    decreases |arrivals|
  {
    if arrivals != [] {
      var a, rest := arrivals[0], Joined(arrivals[1..]);
      var s, l' := l.stream + a.payload, Take(l, a);
      if |s| > FRAME {
        AcceptedAtMost(l', arrivals[1..]);
      } else {
        Regroup(l.stream, a.payload, rest);
        TakeGood(l, a, rest);
        if |s| == FRAME {
          FramesOfWhole(s, rest);
          assert [] + rest == rest;
        }
        LostIffCrossing(l', arrivals[1..]);
      }
    }
  }

  // ---------------------------------------------------------------------------
  // One call of the client's
  // ---------------------------------------------------------------------------

  function RequestHeader(op: u16, id: u32): (h: Text)
    ensures |h| == HEADER
  {
    Put32(MAGIC) + Put16(VERSION) + Put16(op) + Put32(id) + Put32(0) + Put32(OBJECT)
  }

  lemma RequestHeaderIsGood(op: u16, id: u32, body: Object)
    ensures var f := RequestHeader(op, id) + body;
            HeaderOk(f) && U16(f, 6) == op && U32(f, 8) == id
  {
    var f := RequestHeader(op, id) + body;
    assert f[0..4] == Put32(MAGIC) && f[4..6] == Put16(VERSION) && f[6..8] == Put16(op);
    assert f[8..12] == Put32(id) && f[16..20] == Put32(OBJECT);
    SameU32(f, 0, Put32(MAGIC), 0);
    SameU16(f, 4, Put16(VERSION), 0);
    SameU16(f, 6, Put16(op), 0);
    SameU32(f, 8, Put32(id), 0);
    SameU32(f, 16, Put32(OBJECT), 0);
  }

  /** The first write of a call is buffered, the second one completes the frame. */
  lemma CallIsTaken(l: Link, op: u16, id: u32, body: Object, first: Arrival, second: Arrival)
    requires Valid(l) && l.connected && l.stream == []
    requires first.payload == RequestHeader(op, id) && second.payload == body
    ensures var l', f := Feed(l, [first, second]), RequestHeader(op, id) + body;
            && l'.requests == l.requests + [f] && l'.replies == l.replies + [Reply(f, second.answer)]
            && l'.sent == (if second.room
                           then l.sent + [Sent(l.peer, OP_RW, Reply(f, second.answer), l'.accepted % TWO32)]
                           else l.sent)
            && l'.accepted == l.accepted + FRAME
  {
    var h, f := RequestHeader(op, id), RequestHeader(op, id) + body;
    RequestHeaderIsGood(op, id, body);
    assert [] + h == h && f + [] == f;
    GoodFrame(f);
    TakeGood(l, first, body);
    TakeGood(Take(l, first), second, []);
    FeedTwo(l, first, second);
  }

  lemma GoodFrame(f: Text)
    requires |f| == FRAME && HeaderOk(f)
    ensures GoodStream(f)
  {
    assert f[FRAME..] == [];
  }

  /**
   Header and object of a call, sent as the client's two writes, are dispatched as one
   request. With room for it one packet goes back to the client: it passes the client's
   checks, has the call's operation and id, carries the answer and is credited for the call.
   Without room nothing does.
   */
  lemma CallIsServed(l: Link, op: u16, id: u32, body: Object, first: Arrival, second: Arrival)
    requires Valid(l) && l.connected && l.stream == []
    requires first.payload == RequestHeader(op, id) && second.payload == body
    ensures var l' := Feed(l, [first, second]);
            && l'.requests == l.requests + [RequestHeader(op, id) + body]
            && if !second.room then l'.sent == l.sent else
               && |l'.sent| == |l.sent| + 1 && l.sent < l'.sent
               && var packet := l'.sent[|l.sent|];
                  && packet == Sent(l.peer, 5, packet.payload, (l.accepted + 2556) % 0x1_0000_0000)
                  && |packet.payload| == 2556
                  && U32(packet.payload, 0) == 0x4352564d && U32(packet.payload, 16) == 2536
                  && U16(packet.payload, 6) == op && U32(packet.payload, 8) == id
                  && U32(packet.payload, 12) == second.answer.status && packet.payload[20..] == second.answer.body
  {
    RequestHeaderIsGood(op, id, body);
    ReplyReplies(RequestHeader(op, id) + body, second.answer);
    CallIsTaken(l, op, id, body, first, second);
  }

  // ---------------------------------------------------------------------------
  // A stream that is cut elsewhere
  // ---------------------------------------------------------------------------

  /** The first request a client can make: no fields set. */
  function FirstFrame(): (f: Text)
    ensures |f| == FRAME && HeaderOk(f)
  {
    RequestHeaderIsGood(1, 1, Fill(OBJECT, NUL));
    RequestHeader(1, 1) + Fill(OBJECT, NUL)
  }

  /**
   Two such frames, sent in two payloads: cut at the boundary both are dispatched; cut one
   byte before it the second payload is dropped, the bytes before it wait, and nothing is.
   */
  lemma CutBeforeBoundary(l: Link, answer: Answer)
    requires l.stream == [] && l.connected
    ensures var f := FirstFrame();
            var whole, early := [Arrival(f, answer, true), Arrival(f, answer, true)],
                                [Arrival(f[..FRAME - 1], answer, true), Arrival(f[FRAME - 1..] + f, answer, true)];
            && Joined(whole) == Joined(early) == f + f
            && Feed(l, whole).requests == l.requests + [f, f]
            && Feed(l, early) == l.(stream := f[..FRAME - 1], accepted := l.accepted + FRAME - 1)
  {
    var f := FirstFrame();
    var a, b := f[..FRAME - 1], f[FRAME - 1..] + f;
    var whole, early := [Arrival(f, answer, true), Arrival(f, answer, true)],
                        [Arrival(a, answer, true), Arrival(b, answer, true)];
    JoinedTwo(whole[0], whole[1]);
    JoinedTwo(early[0], early[1]);
    assert f == a + f[FRAME - 1..];
    Regroup(a, f[FRAME - 1..], f);
    FlattenTwo(f, f);
    AlignedTwo(whole[0], whole[1]);
    OneDispatchPerFrame(l, whole, [f, f]);
    EarlyTaken(l, early[0]);
    FeedTwo(l, early[0], early[1]);
  }

  lemma EarlyTaken(l: Link, a: Arrival)
    requires l.stream == [] && l.connected && a.payload == FirstFrame()[..FRAME - 1]
    ensures Take(l, a) == l.(stream := a.payload, accepted := l.accepted + FRAME - 1)
  {
    assert a.payload[..|a.payload|] == a.payload && [] + a.payload == a.payload;
    assert FirstFrame() == a.payload + FirstFrame()[FRAME - 1..];
    HeaderOfPrefix(a.payload, FirstFrame()[FRAME - 1..]);
  }

  lemma JoinedTwo(a: Arrival, b: Arrival)
    ensures Joined([a, b]) == a.payload + b.payload
  {
    assert [a, b][1..] == [b] && [b][1..] == [];
    assert b.payload + Joined([]) == b.payload;
    assert Joined([b]) == b.payload;
  }

  lemma AlignedTwo(a: Arrival, b: Arrival)
    requires |a.payload| == |b.payload| == FRAME
    ensures Aligned(0, [a, b])
  {
    assert [a, b][1..] == [b] && [b][1..] == [];
    assert Aligned(0, [b]);
  }

  lemma FlattenTwo(f: Text, g: Text)
    ensures Flatten([f, g]) == f + g
  {
    assert [f, g][1..] == [g] && [g][1..] == [];
    assert g + Flatten([]) == g;
    assert Flatten([g]) == g;
  }

  lemma FeedTwo(l: Link, first: Arrival, second: Arrival)
    requires |l.stream| < FRAME
    ensures Feed(l, [first, second]) == Take(Take(l, first), second)
  {
    var both := [first, second];
    assert both[1..] == [second];
    assert Feed(Take(l, first), [second]) == Feed(Take(Take(l, first), second), [second][1..]);
    assert [second][1..] == [];
  }
}
