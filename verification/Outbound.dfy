/**
 From `Push` and `Response` on the server (gate/conn.go) to the messages a client receives
 (gate/client/client.go): encryption, message, packet, stream, and back.
 */
module Outbound {
  import opened Prelude
  import C = Crypto
  import M = Message
  import P = Packet

  datatype Error = SessionOnNotify | MessageFailed(error: M.Error) | Crash

  /** What both ends share: the route dictionary, the cipher and the secret, which may be empty. */
  datatype Shared = Shared(tables: M.Tables, des: C.Keyed, secret: Bytes)
  {
    ghost predicate Good() {
      C.AllGood(des)
    }
  }

  datatype Send = Push(data: Bytes) | Response(mid: M.UInt64, data: Bytes)

  datatype Received = Received(typ: Byte, id: nat, route: Bytes, data: Bytes)

  // ---------------------------------------------------------------- the sending side

  function Serialized(c: Shared, data: Bytes): Result<Bytes, C.Error> {
    if c.secret == [] then Ok(data) else C.Encrypted(c.des, data, c.secret)
  }

  /** A payload that cannot be encrypted is logged and sent as an empty one. */
  function Payload(c: Shared, data: Bytes): Bytes {
    match Serialized(c, data)
    case Ok(payload) => payload
    case Err(_) => []
  }

  function MessageOf(c: Shared, s: Send): M.Message {
    match s
    case Push(data) => M.Message(M.PUSH, 0, [], Payload(c, data))
    case Response(mid, data) => M.Message(M.RESPONSE, mid, [], Payload(c, data))
  }

  function EncodedMessage(c: Shared, s: Send): Bytes {
    M.Encoded(c.tables, MessageOf(c, s)).value
  }

  /** The bytes that a send puts on the wire. */
  function SendBytes(c: Shared, s: Send): Result<Bytes, Error> {
    if s.Response? && s.mid == 0 then Err(SessionOnNotify) else Ok(P.Frame(P.DATA, EncodedMessage(c, s)))
  }

  /** The payload is the data, or the data padded and encrypted block by block, or nothing when the key is unusable. */
  ghost predicate IsPayload(c: Shared, data: Bytes, payload: Bytes) {
    if c.secret == [] then payload == data
    else if |c.secret| != 8 then payload == []
    else exists p: Bytes :: C.IsPadded(p, data, 8) && C.IsEcb(c.des(c.secret).encrypt, p, payload)
  }

  ghost predicate IsSend(c: Shared, s: Send, payload: Bytes, em: Bytes) {
    && IsPayload(c, s.data, payload)
    && M.HasLayout(c.tables, M.Message(if s.Push? then 3 else 2, if s.Push? then 0 else s.mid, [], payload), em)
  }

  /**
   What a send puts on the wire, with the types in numbers: a packet of type 3 with a push (3) or a response (2)
   of that id, no route, and the payload. Only a response to id 0 is refused.
   */
  lemma SendIs(c: Shared, s: Send)
    requires c.Good()
    ensures if s.Response? && s.mid == 0 then SendBytes(c, s) == Err(SessionOnNotify) else
              exists payload: Bytes, em: Bytes :: IsSend(c, s, payload, em) && SendBytes(c, s) == Ok(P.Frame(3, em))
  {
    var payload := Payload(c, s.data);
    if |c.secret| == 8 {
      var p, cipher := C.Padding(s.data, 8), c.des(c.secret);
      C.PaddingIs(p, s.data, 8);
      C.BlocksAreEcb(cipher, p);
      assert C.IsEcb(cipher.encrypt, p, payload);
    }
    M.EncodedIsWire(c.tables, MessageOf(c, s));
    assert IsSend(c, s, payload, EncodedMessage(c, s));
  }

  // ---------------------------------------------------------------- the receiving side

  /** A message of another type, or one that does not decrypt, is dropped; `None`. */
  function Taken(c: Shared, m: M.Message): Result<Option<Received>, Error> {
    if m.typ != M.RESPONSE && m.typ != M.PUSH then Ok(None)
    else if c.secret == [] then Ok(Some(Received(m.typ, m.id, m.route, m.data)))
    else
      match C.Decrypted(c.des, m.data, c.secret)
      case Ok(plain) => Ok(Some(Received(m.typ, m.id, m.route, plain)))
      case Err(e) => if e == C.Panic then Err(Crash) else Ok(None)
  }

  /** `spare` is what lies behind the payload in the buffer of the decoder. */
  function Processed(c: Shared, p: P.Packet, spare: Bytes): Result<Option<Received>, Error> {
    if p.typ != P.DATA then Ok(None)
    else
      match M.Decoded(c.tables, p.data, spare)
      case Err(e) => Err(if e == M.Panic then Crash else MessageFailed(e))
      case Ok(m) => Taken(c, m)
  }

  /**
   What the client makes of any packet: it ignores packets of types other than 3 and messages of types
   other than 2 and 3, drops what its secret cannot decrypt, and stops at what it cannot decode.
   */
  lemma ProcessedIs(c: Shared, p: P.Packet, spare: Bytes)
    ensures p.typ != 3 ==> Processed(c, p, spare) == Ok(None)
    ensures p.typ == 3 ==>
              match M.Decoded(c.tables, p.data, spare)
              case Err(e) => Processed(c, p, spare) == Err(if e == M.Panic then Crash else MessageFailed(e))
              case Ok(m) => IsTaken(c, m, Processed(c, p, spare))
  {
  }

  ghost predicate IsTaken(c: Shared, m: M.Message, r: Result<Option<Received>, Error>) {
    if m.typ != 2 && m.typ != 3 then r == Ok(None)
    else if c.secret == [] then r == Ok(Some(Received(m.typ, m.id, m.route, m.data)))
    else if |c.secret| != 8 || |m.data| % 8 != 0 then r == Ok(None)
    else
      match C.UnPadding(C.DecryptBlocks(c.des(c.secret), m.data))
      case Ok(plain) => r == Ok(Some(Received(m.typ, m.id, m.route, plain)))
      case Err(_) => r == Err(Crash)
  }

  // ---------------------------------------------------------------- one message

  function Expected(s: Send): Received {
    match s
    case Push(data) => Received(M.PUSH, 0, [], data)
    case Response(mid, data) => Received(M.RESPONSE, mid, [], data)
  }

  /**
   What a caller can check: an id other than 0, a size within the limit, a usable secret (one of
   another length than eight loses everything), and for a response without a secret some data.
   */
  predicate Arrives(c: Shared, s: Send) {
    && (s.Response? ==> s.mid != 0)
    && |EncodedMessage(c, s)| <= P.MAX_PACKET_SIZE
    && (c.secret == [] || |c.secret| == C.BLOCK_SIZE)
    && (s.Push? ==> M.RouteFits(c.tables, MessageOf(c, s)))
    && (s.Response? && c.secret == [] ==> s.data != [])
  }

  /** The bytes of a send are one whole packet, and the client makes exactly the expected message of it. */
  predicate Arrived(c: Shared, s: Send, spare: Bytes) {
    var sent := SendBytes(c, s);
    && sent.Ok? && P.Complete(sent.value) && P.After(sent.value) == []
    && Processed(c, P.First(sent.value), spare) == Ok(Some(Expected(s)))
  }

  /** What is sent is received as it was sent, exactly when it meets the condition. */
  lemma OneArrives(c: Shared, s: Send, spare: Bytes)
    requires c.Good()
    ensures Arrived(c, s, spare) <==> Arrives(c, s)
  {
    var em := EncodedMessage(c, s);
    P.WholeFrame(P.DATA, em);
    if |em| <= P.MAX_PACKET_SIZE {
      OneProcessed(c, s, spare);
    }
  }

  /** The part of it that concerns the message. */
  lemma OneProcessed(c: Shared, s: Send, spare: Bytes)
    requires c.Good()
    ensures var p := P.Packet(P.DATA, |EncodedMessage(c, s)|, EncodedMessage(c, s));
            Processed(c, p, spare) == Ok(Some(Expected(s))) <==>
              && (c.secret == [] || |c.secret| == C.BLOCK_SIZE)
              && (s.Push? ==> M.RouteFits(c.tables, MessageOf(c, s)))
              && (s.Response? && c.secret == [] ==> s.data != [])
  {
    var m := MessageOf(c, s);
    M.RoundTrip(c.tables, m, spare);
    if |c.secret| == C.BLOCK_SIZE {
      C.EncryptDecrypt(c.des, s.data, c.secret);
    }
    if s.Push? && !M.RouteFits(c.tables, m) {
      M.Misread(c.tables, m, spare);
    }
  }

  // ---------------------------------------------------------------- the whole stream

  /** Between the messages the server sends packets of other kinds: heartbeats, notices. */
  datatype Item = Msg(send: Send) | Control(typ: Byte, data: Bytes)

  function PacketOf(c: Shared, i: Item): P.Packet {
    match i
    case Msg(s) => P.Packet(P.DATA, |EncodedMessage(c, s)|, EncodedMessage(c, s))
    case Control(typ, data) => P.Packet(typ, |data|, data)
  }

  predicate GoodItem(c: Shared, i: Item) {
    && P.GoodPacket(PacketOf(c, i))
    && match i
       case Msg(s) => Arrives(c, s)
       case Control(typ, _) => typ != P.DATA
  }

  function ItemBytes(c: Shared, i: Item): Bytes {
    match i
    case Msg(s) => if SendBytes(c, s).Ok? then SendBytes(c, s).value else []
    case Control(typ, data) => P.Frame(typ, data)
  }

  function Written(c: Shared, items: seq<Item>): Bytes {
    if items == [] then [] else ItemBytes(c, items[0]) + Written(c, items[1..])
  }

  function Packets(c: Shared, items: seq<Item>): seq<P.Packet> {
    seq(|items|, i requires 0 <= i < |items| => PacketOf(c, items[i]))
  }

  lemma {:induction false} WrittenIsFrames(c: Shared, items: seq<Item>)
    requires forall i | i in items :: GoodItem(c, i)
    ensures Written(c, items) == P.FrameAll(Packets(c, items))
  {
    if items != [] {
      assert items[0] in items && GoodItem(c, items[0]);
      assert Packets(c, items)[1..] == Packets(c, items[1..]);
      WrittenIsFrames(c, items[1..]);
    }
  }

  datatype Inbox = Inbox(messages: seq<Received>, err: Option<Error>)

  /** The client handles packet after packet, up to the first error; `spare(i)` lies behind the i-th. */
  function Handled(c: Shared, ps: seq<P.Packet>, spare: nat -> Bytes): Inbox
    decreases |ps|
  {
    if ps == [] then Inbox([], None)
    else
      var before := Handled(c, ps[..|ps| - 1], spare);
      if before.err.Some? then before
      else
        match Processed(c, ps[|ps| - 1], spare(|ps| - 1))
        case Err(e) => before.(err := Some(e))
        case Ok(None) => before
        case Ok(Some(r)) => before.(messages := before.messages + [r])
  }

  /** The messages among the items, as they should be received. */
  function AllExpected(items: seq<Item>): seq<Received>
    decreases |items|
  {
    if items == [] then []
    else
      AllExpected(items[..|items| - 1])
      + match items[|items| - 1]
        case Msg(s) => [Expected(s)]
        case Control(_, _) => []
  }

  lemma {:induction false} AllArrive(c: Shared, items: seq<Item>, spare: nat -> Bytes)
    requires c.Good() && forall i | i in items :: GoodItem(c, i)
    ensures Handled(c, Packets(c, items), spare) == Inbox(AllExpected(items), None)
    decreases |items|
  {
    if items != [] {
      var before, last := items[..|items| - 1], items[|items| - 1];
      assert Packets(c, items)[..|items| - 1] == Packets(c, before);
      AllArrive(c, before, spare);
      assert last in items && GoodItem(c, last);
      assert Packets(c, items)[|before|] == PacketOf(c, last);
      if last.Msg? {
        OneProcessed(c, last.send, spare(|before|));
      }
    }
  }

  lemma PacketsDelivered(c: Shared, items: seq<Item>, chunks: seq<Bytes>)
    requires (forall i | i in items :: GoodItem(c, i)) && P.Joined(chunks) == Written(c, items)
    ensures var o := P.Fed(chunks);
            && o.err == None
            && (!P.Lagging(o.state) ==> o.packets == Packets(c, items))
            && (P.Lagging(o.state) ==>
                  && items != [] && PacketOf(c, items[|items| - 1]).length < P.HEAD_LENGTH
                  && o.packets == Packets(c, items[..|items| - 1]))
  {
    var o, ps := P.Fed(chunks), Packets(c, items);
    WrittenIsFrames(c, items);
    forall p | p in ps ensures P.GoodPacket(p) {
      var i :| 0 <= i < |ps| && ps[i] == p;
      assert items[i] in items;
    }
    P.Delivered(ps, chunks);
    if P.Lagging(o.state) {
      var last :| ps == o.packets + [last] && 1 <= last.length < P.HEAD_LENGTH;
      assert ps[|ps| - 1] == last;
      assert o.packets == ps[..|ps| - 1] == Packets(c, items[..|items| - 1]);
    }
  }

  /**
   Whatever the server sends, in whatever pieces it reaches the client and whatever lies in its
   buffers: the client receives the messages with type, id and bytes as they were sent, in the
   order they were sent. Only the last packet can be missing, and only with a payload below four bytes.
   */
  lemma Pipeline(c: Shared, items: seq<Item>, chunks: seq<Bytes>, spare: nat -> Bytes)
    requires c.Good() && (forall i | i in items :: GoodItem(c, i))
    requires P.Joined(chunks) == Written(c, items)
    ensures var o := P.Fed(chunks);
            && o.err == None
            && (!P.Lagging(o.state) ==> Handled(c, o.packets, spare) == Inbox(AllExpected(items), None))
            && (P.Lagging(o.state) ==>
                  && items != [] && PacketOf(c, items[|items| - 1]).length < P.HEAD_LENGTH
                  && Handled(c, o.packets, spare) == Inbox(AllExpected(items[..|items| - 1]), None))
  {
    var o := P.Fed(chunks);
    PacketsDelivered(c, items, chunks);
    if P.Lagging(o.state) {
      AllArrive(c, items[..|items| - 1], spare);
    } else {
      AllArrive(c, items, spare);
    }
  }

  /** With a secret no message is ever late: an encrypted payload has at least one block. */
  lemma NothingLateWithSecret(c: Shared, items: seq<Item>, chunks: seq<Bytes>, spare: nat -> Bytes)
    requires c.Good() && c.secret != [] && (forall i | i in items :: GoodItem(c, i))
    requires P.Joined(chunks) == Written(c, items) && items != [] && items[|items| - 1].Msg?
    ensures Handled(c, P.Fed(chunks).packets, spare) == Inbox(AllExpected(items), None)
  {
    var last := items[|items| - 1].send;
    assert items[|items| - 1] in items;
    Pipeline(c, items, chunks, spare);
    C.EncryptDecrypt(c.des, last.data, c.secret);
    assert |EncodedMessage(c, last)| >= C.BLOCK_SIZE;
  }
}
