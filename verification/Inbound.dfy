/**
 What a server connection (gate/conn.go) makes of the bytes it reads: a handshake, its
 acknowledgement, then requests and notifications, up to the first error.
 */
module Inbound {
  import opened Prelude
  import C = Crypto
  import M = Message
  import O = Outbound
  import P = Packet

  datatype Error =
    | ReadFailed
    | DecodeFailed(packet: P.Error)
    | HandShakeAck
    | InvalidPacket
    | Rejected
    | MessageFailed(message: M.Error)
    | InvalidMessage
    | CryptoFailed(crypto: C.Error)
    | BrokenPipe
    | Crash

  datatype Request = Request(route: Bytes, payload: Bytes, reqId: nat)

  datatype Inbox = Inbox(requests: seq<Request>, err: Option<Error>)

  // ---------------------------------------------------------------- one packet

  function HandledMessage(c: O.Shared, m: M.Message): Result<Request, Error> {
    if m.typ != M.REQUEST && m.typ != M.NOTIFY then Err(InvalidMessage)
    else
      var reqId := if m.typ == M.REQUEST then m.id else 0;
      if c.secret == [] then Ok(Request(m.route, m.data, reqId))
      else
        match C.Decrypted(c.des, m.data, c.secret)
        case Ok(plain) => Ok(Request(m.route, plain, reqId))
        case Err(e) => Err(if e == C.Panic then BrokenPipe else CryptoFailed(e))
  }

  /** `spare` is what lies behind the payload in the buffer of the decoder. */
  function HandledPacket(c: O.Shared, p: P.Packet, spare: Bytes): Result<Option<Request>, Error> {
    if p.typ == P.DATA then
      match M.Decoded(c.tables, p.data, spare)
      case Err(e) => Err(if e == M.Panic then Crash else MessageFailed(e))
      case Ok(m) =>
        match HandledMessage(c, m)
        case Ok(r) => Ok(Some(r))
        case Err(e) => Err(e)
    else if p.typ == P.HEARTBEAT then Ok(None)
    else Err(InvalidPacket)
  }

  /**
   Every other outcome: packets of type 4 are ignored, those of types other than 3 refused, and of the
   messages those of types other than 0 and 1. A key of the wrong length or an input that is no
   whole number of blocks is reported; a panic of the unpadding is recovered, one of the decoder is not.
   */
  lemma HandledOtherwise(c: O.Shared, p: P.Packet, spare: Bytes)
    ensures p.typ == 4 ==> HandledPacket(c, p, spare) == Ok(None)
    ensures p.typ != 3 && p.typ != 4 ==> HandledPacket(c, p, spare) == Err(InvalidPacket)
    ensures p.typ == 3 ==>
              match M.Decoded(c.tables, p.data, spare)
              case Err(e) => HandledPacket(c, p, spare) == Err(if e == M.Panic then Crash else MessageFailed(e))
              case Ok(m) => MessageHandled(c, m, HandledPacket(c, p, spare))
  {
  }

  /** What becomes of a decoded message, with the types and lengths in numbers. */
  ghost predicate MessageHandled(c: O.Shared, m: M.Message, r: Result<Option<Request>, Error>) {
    if m.typ >= 2 then r == Err(InvalidMessage)
    else if c.secret != [] && |c.secret| != 8 then r == Err(CryptoFailed(C.KeySize))
    else if c.secret != [] && |m.data| % 8 != 0 then r == Err(CryptoFailed(C.NotFullBlocks))
    else if Plain(c, m.data) == Err(C.Panic) then r == Err(BrokenPipe)
    else r.Ok? && r.value.Some? && var q := r.value.value;
         && q.route == m.route && Plain(c, m.data) == Ok(q.payload)
         && q.reqId == if m.typ == 0 then m.id else 0
  }

  /**
   The payload that the server makes of the data of a message: without a secret the data, else
   what it decrypts to.
   */
  function Plain(c: O.Shared, data: Bytes): Result<Bytes, C.Error> {
    if c.secret == [] then Ok(data) else C.Decrypted(c.des, data, c.secret)
  }

  /**
   A request or notification is handed on with its route, its id and the plain payload exactly
   when these can be read.
   */
  lemma RequestArrives(c: O.Shared, m: M.Message, plain: Bytes, spare: Bytes)
    requires m.typ == M.REQUEST || m.typ == M.NOTIFY
    ensures var em := M.Encoded(c.tables, m).value;
            var request := Request(m.route, plain, if m.typ == M.REQUEST then m.id else 0);
            HandledPacket(c, P.Packet(P.DATA, |em|, em), spare) == Ok(Some(request))
            <==> M.RouteFits(c.tables, m) && Plain(c, m.data) == Ok(plain)
  {
    var m' := if m.typ == M.REQUEST then m else m.(id := 0);
    assert M.Encoded(c.tables, m) == M.Encoded(c.tables, m');
    M.RoundTrip(c.tables, m', spare);
    if !M.RouteFits(c.tables, m) {
      M.Misread(c.tables, m', spare);
    }
  }

  /** A client that encrypts with the secret of the session has its payload handed on. */
  lemma EncryptedIsPlain(c: O.Shared, data: Bytes)
    requires c.Good() && (c.secret == [] || |c.secret| == C.BLOCK_SIZE)
    ensures Plain(c, O.Payload(c, data)) == Ok(data)
  {
    if c.secret != [] {
      C.EncryptDecrypt(c.des, data, c.secret);
    }
  }

  // ---------------------------------------------------------------- packet after packet

  /** What one more packet changes. */
  function Added(box: Inbox, r: Result<Option<Request>, Error>): Inbox {
    match r
    case Err(e) => box.(err := Some(e))
    case Ok(None) => box
    case Ok(Some(request)) => box.(requests := box.requests + [request])
  }

  /** The packets from the one numbered `first`, up to the first error; `spare(i)` lies behind the i-th. */
  function Handled(c: O.Shared, ps: seq<P.Packet>, first: nat, spare: nat -> Bytes): Inbox
    decreases |ps|
  {
    if |ps| <= first then Inbox([], None)
    else
      var before := Handled(c, ps[..|ps| - 1], first, spare);
      if before.err.Some? then before else Added(before, HandledPacket(c, ps[|ps| - 1], spare(|ps| - 1)))
  }

  lemma HandledOne(c: O.Shared, ps: seq<P.Packet>, p: P.Packet, first: nat, spare: nat -> Bytes)
    requires first <= |ps| && Handled(c, ps, first, spare).err == None
    ensures Handled(c, ps + [p], first, spare) == Added(Handled(c, ps, first, spare), HandledPacket(c, p, spare(|ps|)))
  {
    assert (ps + [p])[..|ps|] == ps;
  }

  /** The next packet of a batch, behind those before it. */
  lemma NextOfBatch(before: seq<P.Packet>, ps: seq<P.Packet>, i: nat)
    requires i < |ps|
    ensures before + ps[..i] + [ps[i]] == before + ps[..i + 1] <= before + ps
  {
  }

  /** After an error nothing more is handled. */
  lemma {:induction false} HandledStops(c: O.Shared, ps: seq<P.Packet>, qs: seq<P.Packet>,
                                        first: nat, spare: nat -> Bytes)
    requires ps <= qs && first <= |ps| && Handled(c, ps, first, spare).err.Some?
    ensures Handled(c, qs, first, spare) == Handled(c, ps, first, spare)
    decreases |qs|
  {
    if |ps| < |qs| {
      HandledStops(c, ps, qs[..|qs| - 1], first, spare);
    } else {
      assert ps == qs;
    }
  }

  /** What a client puts behind its acknowledgement: requests and notifications with their data, and heartbeats. */
  datatype Item = Ask(typ: Byte, id: M.UInt64, route: Bytes, data: Bytes) | Beat(data: Bytes)

  function PacketOf(c: O.Shared, i: Item): P.Packet {
    match i
    case Ask(typ, id, route, data) =>
      var em := if typ <= M.PUSH then M.Encoded(c.tables, M.Message(typ, id, route, data)).value else [];
      P.Packet(P.DATA, |em|, em)
    case Beat(data) => P.Packet(P.HEARTBEAT, |data|, data)
  }

  predicate GoodItem(c: O.Shared, i: Item) {
    i.Ask? ==>
      && (i.typ == M.REQUEST || i.typ == M.NOTIFY)
      && M.RouteFits(c.tables, M.Message(i.typ, i.id, i.route, i.data)) && Plain(c, i.data).Ok?
  }

  /** What should be handed on for an item. */
  function ExpectedOf(c: O.Shared, i: Item): seq<Request> {
    match i
    case Ask(typ, id, route, data) =>
      if Plain(c, data).Ok? then [Request(route, Plain(c, data).value, if typ == M.REQUEST then id else 0)] else []
    case Beat(_) => []
  }

  function AllExpected(c: O.Shared, items: seq<Item>): seq<Request>
    decreases |items|
  {
    if items == [] then [] else AllExpected(c, items[..|items| - 1]) + ExpectedOf(c, items[|items| - 1])
  }

  function Packets(c: O.Shared, items: seq<Item>): seq<P.Packet> {
    seq(|items|, i requires 0 <= i < |items| => PacketOf(c, items[i]))
  }

  lemma OneHandled(c: O.Shared, i: Item, spare: Bytes)
    requires GoodItem(c, i)
    ensures HandledPacket(c, PacketOf(c, i), spare) == Ok(if i.Ask? then Some(ExpectedOf(c, i)[0]) else None)
  {
    if i.Ask? {
      RequestArrives(c, M.Message(i.typ, i.id, i.route, i.data), Plain(c, i.data).value, spare);
    }
  }

  lemma OneItemMore(c: O.Shared, ps: seq<P.Packet>, i: Item, first: nat, spare: nat -> Bytes, sofar: seq<Request>)
    requires GoodItem(c, i) && first <= |ps| && Handled(c, ps, first, spare) == Inbox(sofar, None)
    ensures Handled(c, ps + [PacketOf(c, i)], first, spare) == Inbox(sofar + ExpectedOf(c, i), None)
  {
    HandledOne(c, ps, PacketOf(c, i), first, spare);
    OneHandled(c, i, spare(|ps|));
  }

  lemma OnePacketMore(c: O.Shared, head: seq<P.Packet>, items: seq<Item>)
    requires items != []
    ensures head + Packets(c, items)
            == head + Packets(c, items[..|items| - 1]) + [PacketOf(c, items[|items| - 1])]
  {
  }

  /** Requests and notifications are handed on, each once, in order, as they were sent and decrypted. */
  lemma {:induction false} AllHandled(c: O.Shared, head: seq<P.Packet>, items: seq<Item>, spare: nat -> Bytes)
    requires forall i | i in items :: GoodItem(c, i)
    ensures Handled(c, head + Packets(c, items), |head|, spare) == Inbox(AllExpected(c, items), None)
    decreases |items|
  {
    if items == [] {
      assert head + Packets(c, items) == head;
    } else {
      var before, last := items[..|items| - 1], items[|items| - 1];
      AllHandled(c, head, before, spare);
      OnePacketMore(c, head, items);
      assert last in items;
      OneItemMore(c, head + Packets(c, before), last, |head|, spare, AllExpected(c, before));
    }
  }

  // ---------------------------------------------------------------- read after read

  /** Later reads add packets and keep errors. */
  lemma {:induction false} FedGrows(chunks: seq<Bytes>, i: nat, j: nat)
    requires i <= j <= |chunks|
    ensures P.Fed(chunks[..i]).packets <= P.Fed(chunks[..j]).packets
    ensures P.Fed(chunks[..i]).err.Some? ==> P.Fed(chunks[..j]) == P.Fed(chunks[..i])
    decreases j
  {
    if i < j {
      FedGrows(chunks, i, j - 1);
      assert chunks[..j][..j - 1] == chunks[..j - 1];
    }
  }

  lemma NoErrorBefore(chunks: seq<Bytes>, i: nat, j: nat)
    requires i <= j <= |chunks| && P.Fed(chunks[..j]).err == None
    ensures P.Fed(chunks[..i]).err == None
  {
    FedGrows(chunks, i, j);
  }

  lemma NeverFewer(chunks: seq<Bytes>, i: nat, j: nat)
    requires i <= j <= |chunks|
    ensures |P.Fed(chunks[..i]).packets| <= |P.Fed(chunks[..j]).packets|
  {
    FedGrows(chunks, i, j);
  }

  /** The read numbered `i` is the first that brings packets beyond the first `n`. */
  predicate Brings(chunks: seq<Bytes>, i: nat, n: nat) {
    && i < |chunks| && P.Fed(chunks[..i + 1]).err == None
    && |P.Fed(chunks[..i]).packets| == n < |P.Fed(chunks[..i + 1]).packets|
  }

  lemma BringsHere(chunks: seq<Bytes>, k: nat, before: seq<P.Packet>, more: seq<P.Packet>)
    requires k < |chunks| && P.Fed(chunks[..k]).packets == before && more != []
    requires P.Fed(chunks[..k + 1]).err == None && P.Fed(chunks[..k + 1]).packets == before + more
    ensures Brings(chunks, k, |before|)
  {
  }

  ghost predicate NeverBrings(chunks: seq<Bytes>, n: nat) {
    forall i: nat :: !Brings(chunks, i, n)
  }

  /** The callback that looks at a handshake: the secret of the session, or a refusal. */
  type Check = Bytes -> Option<Bytes>

  /** The first read that brings packets brings just one, a handshake that is accepted. */
  predicate HandshakeAt(chunks: seq<Bytes>, i: nat, check: Check) {
    && Brings(chunks, i, 0)
    && var ps := P.Fed(chunks[..i + 1]).packets; |ps| == 1 && ps[0].typ == P.HANDSHAKE && check(ps[0].data).Some?
  }

  /** The next packet after the handshake is its acknowledgement. */
  predicate AckAt(chunks: seq<Bytes>, j: nat) {
    Brings(chunks, j, 1) && P.Fed(chunks[..j + 1]).packets[1].typ == P.HANDSHAKE_ACK
  }

  /** The error that ends the reading when nothing else does: of the decoder, else of the socket. */
  function ReadEnd(chunks: seq<Bytes>): Error {
    match P.Fed(chunks).err
    case Some(e) => DecodeFailed(e)
    case None => ReadFailed
  }

  /** Why the handshake fails, with the packet type in numbers. */
  ghost predicate Refused(chunks: seq<Bytes>, check: Check, e: Error) {
    || (NeverBrings(chunks, 0) && e == ReadEnd(chunks))
    || exists i: nat :: Brings(chunks, i, 0) && RefusedBatch(P.Fed(chunks[..i + 1]).packets, check, e)
  }

  predicate RefusedBatch(ps: seq<P.Packet>, check: Check, e: Error) {
    if |ps| != 1 then e == HandShakeAck
    else if ps[0].typ != 1 then e == InvalidPacket
    else check(ps[0].data) == None && e == Rejected
  }

  /** Why the acknowledgement does. */
  ghost predicate Unacknowledged(chunks: seq<Bytes>, e: Error) {
    || (NeverBrings(chunks, 1) && e == ReadEnd(chunks))
    || exists i: nat :: Brings(chunks, i, 1) && P.Fed(chunks[..i + 1]).packets[1].typ != 2 && e == InvalidPacket
  }

  ghost predicate NeverShaken(chunks: seq<Bytes>, check: Check) {
    forall i: nat :: !HandshakeAt(chunks, i, check)
  }

  ghost predicate NeverAcked(chunks: seq<Bytes>) {
    forall j: nat :: !AckAt(chunks, j)
  }

  ghost predicate Opened(chunks: seq<Bytes>, check: Check) {
    !NeverShaken(chunks, check) && !NeverAcked(chunks)
  }

  /** Only one read can be the first that brings more; after a decoding error there is none. */
  lemma OnlyHere(chunks: seq<Bytes>, k: nat, n: nat)
    requires k < |chunks| && |P.Fed(chunks[..k]).packets| == n
    requires P.Fed(chunks[..k + 1]).err.Some? || |P.Fed(chunks[..k + 1]).packets| > n
    ensures forall i: nat | Brings(chunks, i, n) :: i == k && P.Fed(chunks[..k + 1]).err == None
  {
    forall i: nat | Brings(chunks, i, n) ensures i == k && P.Fed(chunks[..k + 1]).err == None {
      if i < k {
        NeverFewer(chunks, i + 1, k);
      } else if i > k {
        NoneLater(chunks, k, n, i);
      }
    }
  }

  lemma NoneLater(chunks: seq<Bytes>, k: nat, n: nat, i: nat)
    requires k < i < |chunks|
    requires P.Fed(chunks[..k + 1]).err.Some? || |P.Fed(chunks[..k + 1]).packets| > n
    ensures !Brings(chunks, i, n)
  {
    if P.Fed(chunks[..i + 1]).err == None {
      NoErrorBefore(chunks, k + 1, i + 1);
      NeverFewer(chunks, k + 1, i);
    }
  }

  lemma NoneAfterError(chunks: seq<Bytes>, k: nat, n: nat)
    requires k < |chunks| && |P.Fed(chunks[..k]).packets| == n && P.Fed(chunks[..k + 1]).err.Some?
    ensures NeverBrings(chunks, n)
  {
    OnlyHere(chunks, k, n);
  }

  lemma ErrorStays(chunks: seq<Bytes>, k: nat)
    requires k <= |chunks| && P.Fed(chunks[..k]).err.Some?
    ensures P.Fed(chunks) == P.Fed(chunks[..k])
  {
    assert chunks[..|chunks|] == chunks;
    FedGrows(chunks, k, |chunks|);
  }

  /** A first batch that is not one accepted handshake keeps the connection shut. */
  lemma NotShaken(chunks: seq<Bytes>, k: nat, check: Check)
    requires Brings(chunks, k, 0) && !HandshakeAt(chunks, k, check)
    ensures NeverShaken(chunks, check)
  {
    OnlyHere(chunks, k, 0);
  }

  /** And so does a next packet that is not the acknowledgement. */
  lemma NotAcked(chunks: seq<Bytes>, k: nat)
    requires Brings(chunks, k, 1) && !AckAt(chunks, k)
    ensures NeverAcked(chunks)
  {
    OnlyHere(chunks, k, 1);
  }

  lemma NoneBrings(chunks: seq<Bytes>, n: nat)
    requires |P.Fed(chunks).packets| <= n
    ensures NeverBrings(chunks, n)
  {
    assert chunks[..|chunks|] == chunks;
    forall i: nat ensures !Brings(chunks, i, n) {
      if i < |chunks| {
        FedGrows(chunks, i + 1, |chunks|);
      }
    }
  }

  /** Between two numbers of packets there is a read that brings more. */
  lemma {:induction false} SomeReadBrings(chunks: seq<Bytes>, lo: nat, hi: nat, n: nat) returns (i: nat)
    requires lo <= hi <= |chunks| && P.Fed(chunks[..hi]).err == None
    requires |P.Fed(chunks[..lo]).packets| == n < |P.Fed(chunks[..hi]).packets|
    ensures lo <= i < hi && Brings(chunks, i, n)
    decreases hi
  {
    var k := LastRead(chunks, lo, hi, n);
    if |P.Fed(chunks[..k]).packets| == n {
      i := k;
    } else {
      i := SomeReadBrings(chunks, lo, k, n);
    }
  }

  /** The last of some reads; what came before it brought no error and no fewer packets than at the start. */
  lemma LastRead(chunks: seq<Bytes>, lo: nat, hi: nat, n: nat) returns (k: nat)
    requires lo <= hi <= |chunks| && P.Fed(chunks[..hi]).err == None
    requires |P.Fed(chunks[..lo]).packets| == n < |P.Fed(chunks[..hi]).packets|
    ensures lo <= k && k + 1 == hi && P.Fed(chunks[..k]).err == None && |P.Fed(chunks[..k]).packets| >= n
  {
    assert lo < hi;
    k := hi - 1;
    NoErrorBefore(chunks, k, hi);
    NeverFewer(chunks, lo, k);
  }

  // ---------------------------------------------------------------- in order

  /** The packets of which `hs` was sent on its own, cut as `a`, and the rest cut as `b`. */
  ghost predicate Cut(a: seq<Bytes>, b: seq<Bytes>, hs: P.Packet, ack: P.Packet, ps: seq<P.Packet>) {
    && P.Joined(a) == P.FrameAll([hs]) && P.Joined(b) == P.FrameAll([ack] + ps)
    && P.GoodPacket(hs) && P.GoodPacket(ack) && (forall p | p in ps :: P.GoodPacket(p))
    && hs.typ == P.HANDSHAKE && ack.typ == P.HANDSHAKE_ACK && |hs.data| >= P.HEAD_LENGTH
  }

  lemma JoinedSnoc(a: seq<Bytes>, last: Bytes)
    ensures P.Joined(a + [last]) == P.Joined(a) + last
  {
    assert (a + [last])[..|a|] == a;
  }

  lemma OneMoreJoined(a: seq<Bytes>, b: seq<Bytes>, last: Bytes)
    requires P.Joined(a + b) == P.Joined(a) + P.Joined(b)
    ensures P.Joined(a + (b + [last])) == P.Joined(a) + P.Joined(b + [last])
  {
    JoinedSnoc(b, last);
    JoinedSnoc(a + b, last);
    assert a + (b + [last]) == (a + b) + [last];
  }

  lemma {:induction false} JoinedAppend(a: seq<Bytes>, b: seq<Bytes>)
    ensures P.Joined(a + b) == P.Joined(a) + P.Joined(b)
    decreases |b|
  {
    if b == [] {
      assert a + b == a;
    } else {
      var before, last := b[..|b| - 1], b[|b| - 1];
      assert b == before + [last];
      JoinedAppend(a, before);
      OneMoreJoined(a, before, last);
    }
  }

  lemma CutDelivers(a: seq<Bytes>, b: seq<Bytes>, hs: P.Packet, ack: P.Packet, ps: seq<P.Packet>)
    requires Cut(a, b, hs, ack, ps)
    ensures P.Fed(a).err == None && P.Fed(a).packets == [hs]
    ensures var o := P.Fed(a + b);
            && o.err == None
            && (!P.Lagging(o.state) ==> o.packets == [hs, ack] + ps)
            && (P.Lagging(o.state) ==> o.packets == ([hs, ack] + ps)[..1 + |ps|])
  {
    P.Delivered([hs], a);
    assert !P.Lagging(P.Fed(a).state);
    JoinedAppend(a, b);
    P.FramesAppend([hs], [ack] + ps);
    assert [hs] + ([ack] + ps) == [hs, ack] + ps;
    P.Delivered([hs, ack] + ps, a + b);
  }

  /**
   A client sends its handshake, and once that is answered the acknowledgement and its packets.
   However the network cuts the two parts, the connection opens as soon as a packet after the
   handshake is there, and what it hands on are the packets behind the acknowledgement, each once
   and in order, up to the first error; at most the last packet is still in the decoder.
   */
  lemma InOrder(a: seq<Bytes>, b: seq<Bytes>, hs: P.Packet, ack: P.Packet, ps: seq<P.Packet>, check: Check)
    requires Cut(a, b, hs, ack, ps) && check(hs.data).Some?
    ensures var o := P.Fed(a + b);
            && (Opened(a + b, check) <==> !P.Lagging(o.state) || ps != [])
            && (!P.Lagging(o.state) ==> o.packets == [hs, ack] + ps)
            && (P.Lagging(o.state) ==> o.packets == ([hs, ack] + ps)[..1 + |ps|])
  {
    CutDelivers(a, b, hs, ack, ps);
    if |P.Fed(a + b).packets| > 1 {
      Opens(a, b, hs, check);
    } else {
      StaysShut(a + b, check);
    }
  }

  lemma Opens(a: seq<Bytes>, b: seq<Bytes>, hs: P.Packet, check: Check)
    requires P.Fed(a).err == None && P.Fed(a).packets == [hs] && hs.typ == P.HANDSHAKE && check(hs.data).Some?
    requires P.Fed(a + b).err == None && |P.Fed(a + b).packets| > 1 && P.Fed(a + b).packets[1].typ == P.HANDSHAKE_ACK
    ensures Opened(a + b, check)
  {
    var chunks := a + b;
    assert chunks[..|a|] == a && chunks[..|chunks|] == chunks && chunks[..0] == [];
    var i := OpensHere(chunks, |a|, check);
    var j := AcksHere(chunks, |a|);
  }

  lemma OpensHere(chunks: seq<Bytes>, n: nat, check: Check) returns (i: nat)
    requires n <= |chunks| && P.Fed(chunks[..n]).err == None && |P.Fed(chunks[..n]).packets| == 1
    requires P.Fed(chunks[..n]).packets[0].typ == P.HANDSHAKE && check(P.Fed(chunks[..n]).packets[0].data).Some?
    ensures HandshakeAt(chunks, i, check)
  {
    assert chunks[..0] == [];
    i := SomeReadBrings(chunks, 0, n, 0);
    FedGrows(chunks, i + 1, n);
  }

  lemma AcksHere(chunks: seq<Bytes>, n: nat) returns (j: nat)
    requires n <= |chunks| && P.Fed(chunks).err == None && |P.Fed(chunks[..n]).packets| == 1
    requires |P.Fed(chunks).packets| > 1 && P.Fed(chunks).packets[1].typ == P.HANDSHAKE_ACK
    ensures AckAt(chunks, j)
  {
    assert chunks[..|chunks|] == chunks;
    j := SomeReadBrings(chunks, n, |chunks|, 1);
    FedGrows(chunks, j + 1, |chunks|);
  }

  lemma StaysShut(chunks: seq<Bytes>, check: Check)
    requires |P.Fed(chunks).packets| <= 1
    ensures !Opened(chunks, check)
  {
    NoneBrings(chunks, 1);
  }

  /** The items whose packets have come out of the decoder: all, or all but a last one that lags. */
  function Out(state: P.State, items: seq<Item>): seq<Item> {
    if P.Lagging(state) && items != [] then items[..|items| - 1] else items
  }

  lemma PacketsOut(a: seq<Bytes>, b: seq<Bytes>, hs: P.Packet, ack: P.Packet, c: O.Shared,
                   items: seq<Item>, check: Check)
    requires Cut(a, b, hs, ack, Packets(c, items)) && check(hs.data) == Some(c.secret)
    ensures var o := P.Fed(a + b);
            && (Opened(a + b, check) <==> !P.Lagging(o.state) || items != [])
            && (Opened(a + b, check) ==> o.packets == [hs, ack] + Packets(c, Out(o.state, items)))
            && (P.Lagging(o.state) && items != [] ==> PacketOf(c, items[|items| - 1]).length < P.HEAD_LENGTH)
  {
    InOrder(a, b, hs, ack, Packets(c, items), check);
    if P.Lagging(P.Fed(a + b).state) && items != [] {
      LaggingLast(a, b, hs, ack, Packets(c, items));
      AllButLast(c, hs, ack, items);
    }
  }

  /**
   From the client to the session: a handshake, and once it is answered the acknowledgement and
   any requests, notifications and heartbeats. However the network cuts the two parts and
   whatever lies in the buffers, the connection opens as soon as there is a packet to see, with
   the secret of the handshake, and hands on exactly what was sent, each once and in order. Only
   the last packet can be missing, and only with a payload below four bytes.
   */
  lemma Pipeline(a: seq<Bytes>, b: seq<Bytes>, hs: P.Packet, ack: P.Packet, c: O.Shared, items: seq<Item>,
                 check: Check, spare: nat -> Bytes)
    requires Cut(a, b, hs, ack, Packets(c, items)) && check(hs.data) == Some(c.secret)
    requires forall i | i in items :: GoodItem(c, i)
    ensures var o := P.Fed(a + b);
            && (Opened(a + b, check) <==> !P.Lagging(o.state) || items != [])
            && (Opened(a + b, check) ==>
                  && o.packets != [] && check(o.packets[0].data) == Some(c.secret)
                  && Handled(c, o.packets, 2, spare) == Inbox(AllExpected(c, Out(o.state, items)), None))
            && (P.Lagging(o.state) && items != [] ==> PacketOf(c, items[|items| - 1]).length < P.HEAD_LENGTH)
  {
    PacketsOut(a, b, hs, ack, c, items, check);
    if Opened(a + b, check) {
      Behind(c, [hs, ack], Out(P.Fed(a + b).state, items), P.Fed(a + b).packets, spare);
    }
  }

  lemma Behind(c: O.Shared, head: seq<P.Packet>, items: seq<Item>, ps: seq<P.Packet>, spare: nat -> Bytes)
    requires (forall i | i in items :: GoodItem(c, i)) && |head| == 2 && ps == head + Packets(c, items)
    ensures Handled(c, ps, 2, spare) == Inbox(AllExpected(c, items), None)
  {
    AllHandled(c, head, items, spare);
  }

  lemma AllButLast(c: O.Shared, hs: P.Packet, ack: P.Packet, items: seq<Item>)
    requires items != []
    ensures ([hs, ack] + Packets(c, items))[..1 + |items|] == [hs, ack] + Packets(c, items[..|items| - 1])
  {
  }

  lemma LaggingLast(a: seq<Bytes>, b: seq<Bytes>, hs: P.Packet, ack: P.Packet, ps: seq<P.Packet>)
    requires Cut(a, b, hs, ack, ps) && P.Lagging(P.Fed(a + b).state) && ps != []
    ensures ps[|ps| - 1].length < P.HEAD_LENGTH
  {
    JoinedAppend(a, b);
    P.FramesAppend([hs], [ack] + ps);
    assert [hs] + ([ack] + ps) == [hs, ack] + ps;
    P.Delivered([hs, ack] + ps, a + b);
    var last :| [hs, ack] + ps == P.Fed(a + b).packets + [last] && 1 <= last.length < P.HEAD_LENGTH;
    assert ([hs, ack] + ps)[|ps| + 1] == last;
  }
}
