/** The connection's state as the runtime keeps it: a fixed stream buffer and scalar fields. */
module CriEndpoint {
  import opened Bytes
  import opened Words
  import opened CriStream

  class Endpoint {
    const stream: array<byte>
    var streamLen: nat
    var connected: bool
    var peer: Peer
    var fwd: u32
    var sent: seq<Sent>

    ghost var accepted: nat
    ghost var requests: seq<Text>
    ghost var replies: seq<Text>

    ghost predicate Ok()
      reads `streamLen, `fwd, `accepted
    {
      stream.Length == FRAME && streamLen <= FRAME && fwd == accepted % TWO32
    }

    ghost function Abs(): Link
      requires Ok()
      reads this, stream
    {
      Link(connected, peer, stream[..streamLen], accepted, requests, replies, sent)
    }

    constructor ()
      ensures Ok() && fresh(stream)
      ensures Abs() == Link(false, Peer(0, 0), [], 0, [], [], [])
    {
      stream := new byte[FRAME](_ => NUL);
      streamLen, connected, peer, fwd, sent := 0, false, Peer(0, 0), 0, [];
      accepted, requests, replies := 0, [], [];
    }

    method SendPacket(op: u16, payload: Text, room: bool)
      requires Ok()
      modifies `sent
      ensures Abs() == Send(old(Abs()), op, payload, room)
    {
      if room {
        sent := sent + [Sent(peer, op, payload, fwd)];
      }
    }

    /** Appends the first `n` bytes of `data`. */
    method Append(data: Text, n: nat)
      requires Ok() && n <= |data| && streamLen + n <= FRAME
      modifies stream, `streamLen
      ensures Ok() && stream[..streamLen] == old(stream[..streamLen]) + data[..n]
    {
      for i := 0 to n
        invariant forall k :: 0 <= k < streamLen ==> stream[k] == old(stream[k])
        invariant forall k :: 0 <= k < i ==> stream[streamLen + k] == data[k]
        modifies stream
      {
        stream[streamLen + i] := data[i];
      }
      streamLen := streamLen + n;
    }

    method ProcessStream(answer: Answer, room: bool)
      requires Ok()
      modifies this
      ensures Ok() && Abs() == Absorb(old(Abs()), answer, room)
    {
      if streamLen < HEADER {
        return;
      }
      if !HeaderOk(stream[..streamLen]) {
        streamLen := 0;
        SendPacket(OP_RST, [], room);
        connected := false;
        return;
      }
      if streamLen < FRAME {
        return;
      }
      var request := stream[..streamLen];
      var reply := Reply(request, answer);
      requests, replies := requests + [request], replies + [reply];
      SendPacket(OP_RW, reply, room);
      streamLen := 0;
    }

    /** Takes in `n` bytes of stream data. */
    method TakeData(data: Text, n: nat, answer: Answer, room: bool)
      requires Ok() && n <= |data| && streamLen + n <= FRAME
      modifies this, stream
      ensures Ok()
      ensures var l := old(Abs());
              Abs() == Absorb(l.(stream := l.stream + data[..n], accepted := l.accepted + n), answer, room)
    {
      Append(data, n);
      fwd, accepted := (fwd + n) % TWO32, accepted + n;
      ProcessStream(answer, room);
    }

    method ProcessPacket(p: Packet, answer: Answer, room: bool)
      requires Ok() && streamLen < FRAME
      modifies this, stream
      ensures Ok() && Abs() == Receive(old(Abs()), p, answer, room)
    {
      if p.Runt? || p.len > |p.rest| || p.cid != HOST || p.kind != STREAM {
        return;
      }
      if p.op == OP_REQUEST {
        if connected || p.port != PORT {
          return;
        }
        connected, peer, streamLen := true, p.from, 0;
        SendPacket(OP_RESPONSE, [], room);
        return;
      }
      if !connected || p.from != peer || p.port != PORT {
        return;
      }
      if p.op == OP_RW {
        if p.len <= FRAME - streamLen {
          TakeData(p.rest, p.len, answer, room);
        }
      } else if p.op == OP_CREDIT_REQUEST {
        SendPacket(OP_CREDIT_UPDATE, [], room);
      } else if p.op == OP_SHUTDOWN || p.op == OP_RST {
        if p.op == OP_SHUTDOWN {
          SendPacket(OP_RST, [], room);
        }
        connected, streamLen := false, 0;
      }
    }
  }
}
