/** A server connection as gate/conn.go runs it: its state, its decoder, its two channels. */
module Conn {
  import opened Prelude
  import opened Inbound
  import C = Crypto
  import Codec
  import M = Message
  import MessageCodec
  import O = Outbound
  import P = Packet

  datatype Status = Start | Handshake | Working | Closed

  class Connection {
    const codec: MessageCodec.Codec  // the package with its route dictionary
    const des: C.Keyed
    const chunks: seq<Bytes>         // what the reads of the socket deliver before it fails
    var at: nat                      // how many of them were read
    const decoder: Codec.Decoder
    var secret: Bytes
    var state: Status
    var chMessage: seq<Request>      // handed on to the session, in order
    var chSend: seq<Bytes>           // queued for the writer, in order

    constructor (codec: MessageCodec.Codec, des: C.Keyed, chunks: seq<Bytes>)
      ensures this.codec == codec && this.des == des && this.chunks == chunks && fresh(decoder)
      ensures Synced() && at == 0 && secret == [] && state == Start && chMessage == [] && chSend == []
    {
      this.codec, this.des, this.chunks := codec, des, chunks;
      decoder := new Codec.Decoder();
      at, secret, state, chMessage, chSend := 0, [], Start, [], [];
    }

    function Shared(): O.Shared
      reads this, codec
    {
      O.Shared(codec.Value(), des, secret)
    }

    /** What the decoder made of the reads so far. */
    function Got(): P.Outcome
      requires at <= |chunks|
      reads this
    {
      P.Fed(chunks[..at])
    }

    ghost predicate Synced()
      reads this, decoder
    {
      at <= |chunks| && Got().err == None && decoder.Value() == Got().state && decoder.size >= -1
    }

    // -------------------------------------------------------------- sending

    method Serialize(data: Bytes) returns (r: Result<Bytes, C.Error>)
      requires Shared().Good()
      ensures r == O.Serialized(Shared(), data)
    {
      if secret == [] {
        return Ok(data);
      }
      var out := C.DesEncrypt(des, data, secret);
      match out
      case Ok(bytes) => return Ok(bytes[..]);
      case Err(e) => return Err(e);
    }

    method Push(data: Bytes)
      requires Shared().Good()
      modifies this`chSend
      ensures O.SendBytes(Shared(), O.Push(data)).Ok?
      ensures chSend == old(chSend) + [O.SendBytes(Shared(), O.Push(data)).value]
    {
      var payload := Serialize(data);
      SendMessage(M.Message(M.PUSH, 0, [], if payload.Ok? then payload.value else []));
    }

    method Response(mid: M.UInt64, data: Bytes) returns (err: Option<O.Error>)
      requires Shared().Good()
      modifies this`chSend
      ensures var sent := O.SendBytes(Shared(), O.Response(mid, data));
              && (sent.Ok? ==> err == None && chSend == old(chSend) + [sent.value])
              && (sent.Err? ==> err == Some(sent.error) && chSend == old(chSend))
    {
      if mid <= 0 {
        return Some(O.SessionOnNotify);
      }
      var payload := Serialize(data);
      SendMessage(M.Message(M.RESPONSE, mid, [], if payload.Ok? then payload.value else []));
      return None;
    }

    /** The common end of `Push` and `Response`. */
    method SendMessage(m: M.Message)
      requires m.typ <= M.PUSH
      modifies this`chSend
      ensures chSend == old(chSend) + [P.Frame(P.DATA, M.Encoded(codec.Value(), m).value)]
    {
      var em := codec.Encode(m);
      var p := Codec.Encode(P.DATA, em.value);
      chSend := chSend + [p.value[..]];
    }

    // -------------------------------------------------------------- handling

    method ProcessMessage(m: M.Message) returns (err: Option<Error>)
      requires Shared().Good()
      modifies this`chMessage
      ensures var r := HandledMessage(Shared(), m);
              && (r.Ok? ==> err == None && chMessage == old(chMessage) + [r.value])
              && (r.Err? ==> err == Some(r.error) && chMessage == old(chMessage))
    {
      var reqId := 0;
      if m.typ == M.REQUEST {
        reqId := m.id;
      } else if m.typ != M.NOTIFY {
        return Some(InvalidMessage);
      }
      var payload := m.data;
      if secret != [] {
        var plain := C.DesDecrypt(des, payload, secret);
        if plain.Err? {
          return Some(if plain.error == C.Panic then BrokenPipe else CryptoFailed(plain.error));
        }
        payload := plain.value;
      }
      chMessage := chMessage + [Request(m.route, payload, reqId)];
      return None;
    }

    method ProcessPacket(p: P.Packet, spare: Bytes) returns (err: Option<Error>)
      requires Shared().Good()
      modifies this`chMessage
      ensures Inbox(chMessage, err) == Added(Inbox(old(chMessage), None), HandledPacket(Shared(), p, spare))
    {
      if p.typ == P.DATA {
        var m := codec.Decode(p.data, spare);
        if m.Err? {
          return Some(if m.error == M.Panic then Crash else MessageFailed(m.error));
        }
        err := ProcessMessage(m.value);
      } else if p.typ == P.HEARTBEAT {
        return None;
      } else {
        return Some(InvalidPacket);
      }
    }

    /** Handles one packet more; `before` are the packets before it, `n` is how many those are. */
    method ProcessNext(p: P.Packet, n: nat, ghost before: seq<P.Packet>, spare: nat -> Bytes)
      returns (err: Option<Error>)
      requires Shared().Good() && |before| == n >= 2
      requires Handled(Shared(), before, 2, spare) == Inbox(chMessage, None)
      modifies this`chMessage
      ensures Handled(Shared(), before + [p], 2, spare) == Inbox(chMessage, err)
    {
      HandledOne(Shared(), before, p, 2, spare);
      err := ProcessPacket(p, spare(n));
    }

    /** Handles a batch. */
    method ProcessBatch(ps: seq<P.Packet>, n: nat, ghost before: seq<P.Packet>, spare: nat -> Bytes)
      returns (err: Option<Error>)
      requires Shared().Good() && |before| == n >= 2
      requires Handled(Shared(), before, 2, spare) == Inbox(chMessage, None)
      modifies this`chMessage
      ensures Handled(Shared(), before + ps, 2, spare) == Inbox(chMessage, err)
    {
      err := None;
      ghost var c, done := Shared(), before;
      assert before + ps[..0] == before;
      for i := 0 to |ps|
        invariant err == None && Shared() == c && done == before + ps[..i]
        invariant Handled(c, done, 2, spare) == Inbox(chMessage, None)
      {
        NextOfBatch(before, ps, i);
        err := ProcessNext(ps[i], n + i, done, spare);
        done := done + [ps[i]];
        if err.Some? {
          HandledStops(c, done, before + ps, 2, spare);
          return;
        }
      }
      assert ps[..|ps|] == ps;
    }

    // -------------------------------------------------------------- reading

    /** One read and one call of the decoder. */
    method Read() returns (packets: seq<P.Packet>, err: Option<Error>)
      requires Synced()
      modifies this`at, decoder
      ensures err == Some(ReadFailed) <==> old(at) == |chunks|
      ensures err == Some(ReadFailed) ==> at == old(at)
      ensures err != Some(ReadFailed) ==> at == old(at) + 1 <= |chunks|
      ensures err == None ==> Synced() && Got().packets == old(Got()).packets + packets
      ensures err != None && err != Some(ReadFailed) ==> Got().err.Some? && err == Some(DecodeFailed(Got().err.value))
                                                         && Got().packets == old(Got()).packets
    {
      if at == |chunks| {
        return [], Some(ReadFailed);
      }
      assert chunks[..at + 1][..at] == chunks[..at];
      P.Conservation(chunks[..at + 1]);
      P.FailureDrops(Got().state, chunks[at]);
      var failed;
      packets, failed := decoder.Decode(chunks[at]);
      at := at + 1;
      err := if failed.Some? then Some(DecodeFailed(failed.value)) else None;
    }

    /** The loop of both handshake phases: reads until there are packets. */
    method NextBatch() returns (packets: seq<P.Packet>, err: Option<Error>)
      requires Synced()
      modifies this`at, decoder
      ensures at >= old(at)
      ensures err == None ==> Synced() && at > 0 && Brings(chunks, at - 1, |old(Got()).packets|)
                              && Got().packets == old(Got()).packets + packets
      ensures err != None ==> NeverBrings(chunks, |old(Got()).packets|) && err == Some(ReadEnd(chunks))
    {
      ghost var before := Got().packets;
      packets := [];
      while true
        invariant Synced() && Got().packets == before && at >= old(at)
        decreases |chunks| - at
      {
        packets, err := Read();
        if err == Some(ReadFailed) {
          assert chunks[..at] == chunks;
          NoneBrings(chunks, |before|);
          return;
        }
        if err.Some? {
          NoneAfterError(chunks, at - 1, |before|);
          ErrorStays(chunks, at);
          return;
        }
        if |packets| >= 1 {
          BringsHere(chunks, at - 1, before, packets);
          return;
        }
      }
    }

    method RecvHandshake(check: Check) returns (err: Option<Error>)
      requires Synced() && Got().packets == []
      modifies this`at, this`secret, decoder
      ensures err == None ==> Synced() && at > 0 && HandshakeAt(chunks, at - 1, check)
                              && Some(secret) == check(Got().packets[0].data)
      ensures err != None ==> NeverShaken(chunks, check) && Refused(chunks, check, err.value)
    {
      var packets;
      packets, err := NextBatch();
      if err.Some? {
        return;
      }
      if !HandshakeAt(chunks, at - 1, check) {
        NotShaken(chunks, at - 1, check);
      }
      if |packets| != 1 {
        return Some(HandShakeAck);
      }
      var p := packets[0];
      if p.typ != P.HANDSHAKE {
        return Some(InvalidPacket);
      }
      var accepted := check(p.data);
      if accepted.None? {
        return Some(Rejected);
      }
      secret := accepted.value;
    }

    method RecvHandshakeAck() returns (rest: seq<P.Packet>, err: Option<Error>)
      requires Synced() && |Got().packets| == 1
      modifies this`at, this`state, decoder
      ensures err == None ==>
                Synced() && state == Working && at > 0 && AckAt(chunks, at - 1) && rest == Got().packets[2..]
      ensures at >= old(at) && (err != None ==> NeverAcked(chunks) && Unacknowledged(chunks, err.value))
    {
      var packets;
      packets, err := NextBatch();
      if err.Some? {
        return [], err;
      }
      if !AckAt(chunks, at - 1) {
        NotAcked(chunks, at - 1);
      }
      var p := packets[0];
      if p.typ != P.HANDSHAKE_ACK {
        return [], Some(InvalidPacket);
      }
      state := Working;
      return packets[1..], None;
    }

    /** The reading goroutine: first what came with the acknowledgement, then read after read. */
    method ReadLoop(rest: seq<P.Packet>, spare: nat -> Bytes) returns (err: Option<Error>)
      requires Shared().Good() && Synced() && chMessage == [] && |Got().packets| >= 2 && rest == Got().packets[2..]
      modifies this`at, this`chMessage, decoder
      ensures var box := Handled(Shared(), P.Fed(chunks).packets, 2, spare);
              chMessage == box.requests && err == if box.err.Some? then box.err else Some(ReadEnd(chunks))
    {
      assert chunks[..|chunks|] == chunks;
      assert Got().packets == Got().packets[..2] + rest;
      err := ProcessBatch(rest, 2, Got().packets[..2], spare);
      if err.Some? {
        FedGrows(chunks, at, |chunks|);
        HandledStops(Shared(), Got().packets, P.Fed(chunks).packets, 2, spare);
        return;
      }
      var n := 2 + |rest|;
      while true
        invariant Synced() && |Got().packets| == n >= 2
        invariant Handled(Shared(), Got().packets, 2, spare) == Inbox(chMessage, None)
        decreases |chunks| - at
      {
        ghost var before := Got().packets;
        var packets;
        packets, err := Read();
        if err.Some? {
          FedGrows(chunks, at, |chunks|);
          return;
        }
        err := ProcessBatch(packets, n, before, spare);
        if err.Some? {
          FedGrows(chunks, at, |chunks|);
          HandledStops(Shared(), Got().packets, P.Fed(chunks).packets, 2, spare);
          return;
        }
        n := n + |packets|;
      }
    }

    /**
     The life of the connection on the reading side. When it opens, exactly the packets behind
     the acknowledgement were handed on, in order, up to the first error; otherwise nothing was.
     */
    method Serve(check: Check, spare: nat -> Bytes) returns (err: Option<Error>)
      requires Synced() && at == 0 && state == Start && chMessage == [] && Shared().Good()
      modifies this`at, this`secret, this`state, this`chMessage, decoder
      ensures state == Closed && err != None
      ensures Opened(chunks, check) ==>
                var ps := P.Fed(chunks).packets;
                && ps != [] && Some(secret) == check(ps[0].data)
                && chMessage == Handled(Shared(), ps, 2, spare).requests
      ensures !Opened(chunks, check) ==> chMessage == []
    {
      var rest;
      rest, err := Open(check);
      if err == None {
        FedGrows(chunks, at, |chunks|);
        assert chunks[..|chunks|] == chunks;
        err := ReadLoop(rest, spare);
      }
      state := Closed;
    }

    /** The two handshake phases of `serve`. */
    method Open(check: Check) returns (rest: seq<P.Packet>, err: Option<Error>)
      requires Synced() && at == 0 && state == Start
      modifies this`at, this`secret, this`state, decoder
      ensures err == None <==> Opened(chunks, check)
      ensures err == None ==>
                && Synced() && state == Working && |Got().packets| >= 2 && rest == Got().packets[2..]
                && Some(secret) == check(Got().packets[0].data)
    {
      assert chunks[..0] == [];
      rest := [];
      err := RecvHandshake(check);
      if err == None {
        ghost var i := at - 1;
        state := Handshake;
        rest, err := RecvHandshakeAck();
        if err == None {
          assert HandshakeAt(chunks, i, check) && AckAt(chunks, at - 1);
          FedGrows(chunks, i + 1, at);
        }
      }
    }
  }
}
