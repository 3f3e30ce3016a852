/**
 Packet framing, gate/packet/codec.go: a packet on the wire is a type byte, three length bytes,
 most significant first, and the payload. The stream decoder is fed the bytes in whatever pieces
 the network delivers.
 */
module Packet {
  import opened Prelude

  const HEAD_LENGTH := 4
  const MAX_PACKET_SIZE := 64 * 1024

  const HANDSHAKE: Byte := 0x01
  const HANDSHAKE_ACK: Byte := 0x02
  const DATA: Byte := 0x03
  const HEARTBEAT: Byte := 0x04
  const TYPE_MAX: Byte := 0x0a

  datatype Error = WrongPacketType | PacketSizeExceed

  datatype Packet = Packet(typ: Byte, length: nat, data: Bytes)

  predicate GoodType(typ: Byte) {
    HANDSHAKE <= typ <= TYPE_MAX
  }

  // ---------------------------------------------------------------- lengths

  function IntToBytes(n: nat): Bytes {
    [(n / 0x1_0000) % 0x100, (n / 0x100) % 0x100, n % 0x100]
  }

  function BytesToInt(b: Bytes): nat {
    if b == [] then 0 else BytesToInt(b[..|b| - 1]) * 0x100 + b[|b| - 1]
  }

  lemma ThreeBytes(b: Bytes)
    requires |b| == 3
    ensures BytesToInt(b) == b[0] as int * 0x1_0000 + b[1] as int * 0x100 + b[2]
  {
    assert b[..2][..1] == b[..1];
    assert BytesToInt(b[..1]) == b[0] by {
      assert b[..1][..0] == [];
    }
  }

  /** The three length bytes carry a length exactly when it fits into 24 bits. */
  lemma LengthRoundTrip(n: nat)
    ensures BytesToInt(IntToBytes(n)) == n % 0x100_0000
    ensures BytesToInt(IntToBytes(n)) == n <==> n < 0x100_0000
  {
    var n1 := n / 0x100;
    var n2 := n1 / 0x100;
    Digits(n2 / 0x100, n2 % 0x100, n1 % 0x100, n % 0x100);
    ThreeBytes(IntToBytes(n));
  }

  lemma Digits(q: nat, a: nat, b: nat, c: nat)
    requires a < 0x100 && b < 0x100 && c < 0x100
    ensures var n := ((q * 0x100 + a) * 0x100 + b) * 0x100 + c;
            && n % 0x100 == c && (n / 0x100) % 0x100 == b && (n / 0x1_0000) % 0x100 == a
            && n % 0x100_0000 == a * 0x1_0000 + b * 0x100 + c
  {
    By256((q * 0x100 + a) * 0x100 + b, c);
    By256(q * 0x100 + a, b);
    By256(q, a);
    By65536(q * 0x100 + a, b * 0x100 + c);
    By16777216(q, a * 0x1_0000 + b * 0x100 + c);
  }

  lemma By256(k: nat, r: nat)
    requires r < 0x100
    ensures (k * 0x100 + r) / 0x100 == k && (k * 0x100 + r) % 0x100 == r
  {
  }

  lemma By65536(k: nat, r: nat)
    requires r < 0x1_0000
    ensures (k * 0x1_0000 + r) / 0x1_0000 == k
  {
  }

  lemma By16777216(k: nat, r: nat)
    requires r < 0x100_0000
    ensures (k * 0x100_0000 + r) % 0x100_0000 == r
  {
  }

  /** And they are the only three bytes that do. */
  lemma LengthUnique(b: Bytes)
    requires |b| == 3
    ensures IntToBytes(BytesToInt(b)) == b
  {
    ThreeBytes(b);
    var n := BytesToInt(b);
    assert n / 0x100 == b[0] as int * 0x100 + b[1];
    assert n / 0x1_0000 == b[0];
  }

  // ---------------------------------------------------------------- frames

  function Frame(typ: Byte, data: Bytes): Bytes {
    [typ] + IntToBytes(|data|) + data
  }

  /** The layout on the wire, in numbers: types 1 to 10, three length bytes with the most significant first. */
  lemma FrameLayout(typ: Byte, data: Bytes)
    requires |data| < 0x100_0000
    ensures GoodType(typ) <==> 1 <= typ <= 10
    ensures var f := Frame(typ, data);
            && |f| == 4 + |data| && f[0] == typ && f[4..] == data
            && f[1] as int * 65536 + f[2] as int * 256 + f[3] as int == |data|
  {
    LengthRoundTrip(|data|);
    ThreeBytes(IntToBytes(|data|));
  }

  predicate GoodPacket(p: Packet) {
    GoodType(p.typ) && p.length == |p.data| <= MAX_PACKET_SIZE
  }

  function FrameAll(ps: seq<Packet>): Bytes {
    if ps == [] then [] else Frame(ps[0].typ, ps[0].data) + FrameAll(ps[1..])
  }

  // ---------------------------------------------------------------- the stream, read at one go

  predicate GoodHeader(s: Bytes)
    requires |s| >= HEAD_LENGTH
  {
    GoodType(s[0]) && BytesToInt(s[1..4]) <= MAX_PACKET_SIZE
  }

  /** In numbers: the first two conditions that a packet must meet. */
  lemma HeaderLimits(s: Bytes)
    requires |s| >= 4
    ensures !(1 <= s[0] <= 10) ==> Fault(s) == Some(WrongPacketType)
    ensures 1 <= s[0] <= 10 ==>
              (GoodHeader(s) <==> s[1] as int * 65536 + s[2] as int * 256 + s[3] as int <= 65536)
    ensures 1 <= s[0] <= 10 && !GoodHeader(s) ==> Fault(s) == Some(PacketSizeExceed)
  {
    ThreeBytes(s[1..4]);
  }

  /** A whole packet stands at the front of the stream. */
  predicate Complete(s: Bytes) {
    |s| >= HEAD_LENGTH && GoodHeader(s) && |s| >= HEAD_LENGTH + BytesToInt(s[1..4])
  }

  function First(s: Bytes): Packet
    requires Complete(s)
  {
    var n := BytesToInt(s[1..4]);
    Packet(s[0], n, s[4..4 + n])
  }

  function After(s: Bytes): Bytes
    requires Complete(s)
  {
    s[4 + BytesToInt(s[1..4])..]
  }

  /** The packets that stand whole in the stream. */
  function Parse(s: Bytes): seq<Packet>
    decreases |s|
  {
    if Complete(s) then [First(s)] + Parse(After(s)) else []
  }

  /** What is wrong with the first illegal header that can be reached in the stream. */
  function Fault(s: Bytes): Option<Error>
    decreases |s|
  {
    if |s| < HEAD_LENGTH then None
    else if !GoodType(s[0]) then Some(WrongPacketType)
    else if BytesToInt(s[1..4]) > MAX_PACKET_SIZE then Some(PacketSizeExceed)
    else if Complete(s) then Fault(After(s)) else None
  }

  /** Every header that can be reached in the stream is a legal one. */
  predicate GoodStream(s: Bytes) {
    Fault(s) == None
  }

  lemma FrameComplete(p: Packet, rest: Bytes)
    requires GoodPacket(p)
    ensures var s := Frame(p.typ, p.data) + rest; Complete(s) && First(s) == p && After(s) == rest
  {
    var s := Frame(p.typ, p.data) + rest;
    LengthRoundTrip(|p.data|);
    assert s[1..4] == IntToBytes(|p.data|);
    assert s[4..4 + |p.data|] == p.data;
  }

  lemma CompleteFrame(s: Bytes)
    requires Complete(s)
    ensures GoodPacket(First(s)) && s == Frame(First(s).typ, First(s).data) + After(s)
  {
    LengthUnique(s[1..4]);
    assert s == [s[0]] + s[1..4] + s[4..4 + BytesToInt(s[1..4])] + After(s);
  }

  lemma ParseFirst(s: Bytes)
    requires Complete(s)
    ensures Parse(s) == [First(s)] + Parse(After(s)) && Fault(s) == Fault(After(s))
    ensures FrameAll(Parse(s)) == Frame(First(s).typ, First(s).data) + FrameAll(Parse(After(s)))
  {
    assert ([First(s)] + Parse(After(s)))[1..] == Parse(After(s));
  }

  lemma ParseFrame(p: Packet, rest: Bytes)
    requires GoodPacket(p)
    ensures Parse(Frame(p.typ, p.data) + rest) == [p] + Parse(rest)
    ensures Fault(Frame(p.typ, p.data) + rest) == Fault(rest)
  {
    FrameComplete(p, rest);
    ParseFirst(Frame(p.typ, p.data) + rest);
  }

  /** Packets that were framed one after the other are read back, whatever follows them. */
  lemma {:induction false} ParseFrames(ps: seq<Packet>, rest: Bytes)
    requires forall p | p in ps :: GoodPacket(p)
    ensures Parse(FrameAll(ps) + rest) == ps + Parse(rest)
    ensures Fault(FrameAll(ps) + rest) == Fault(rest)
  {
    if ps == [] {
      assert FrameAll(ps) + rest == rest;
    } else {
      ParseFrames(ps[1..], rest);
      ParseFrame(ps[0], FrameAll(ps[1..]) + rest);
      Regroup(Frame(ps[0].typ, ps[0].data), FrameAll(ps[1..]), rest);
      Regroup([ps[0]], ps[1..], Parse(rest));
      assert [ps[0]] + ps[1..] == ps;
    }
  }

  /** Bytes that follow change nothing about a fault. */
  lemma {:induction false} PrefixFault(a: Bytes, b: Bytes)
    ensures Fault(a) != None ==> Fault(a + b) == Fault(a)
    decreases |a|
  {
    if |a| >= HEAD_LENGTH {
      assert (a + b)[1..4] == a[1..4];
      if Complete(a) {
        assert After(a + b) == After(a) + b;
        PrefixFault(After(a), b);
      }
    }
  }

  // ---------------------------------------------------------------- one packet

  /** An encoded packet is read back exactly when its payload is within the limit, which the encoder does not check. */
  lemma EncodeDecode(typ: Byte, data: Bytes, rest: Bytes)
    requires GoodType(typ)
    ensures (Complete(Frame(typ, data) + rest) && First(Frame(typ, data) + rest).data == data)
            <==> |data| <= MAX_PACKET_SIZE
    ensures |data| <= MAX_PACKET_SIZE ==> Parse(Frame(typ, data) + rest) == [Packet(typ, |data|, data)] + Parse(rest)
  {
    if |data| <= MAX_PACKET_SIZE {
      FrameComplete(Packet(typ, |data|, data), rest);
    }
  }

  /** Its frame alone is one whole packet, and nothing more, under the same condition. */
  lemma WholeFrame(typ: Byte, data: Bytes)
    requires GoodType(typ)
    ensures Complete(Frame(typ, data)) && After(Frame(typ, data)) == [] <==> |data| <= MAX_PACKET_SIZE
    ensures |data| <= MAX_PACKET_SIZE ==> First(Frame(typ, data)) == Packet(typ, |data|, data)
  {
    assert Frame(typ, data) + [] == Frame(typ, data);
    if |data| <= MAX_PACKET_SIZE {
      FrameComplete(Packet(typ, |data|, data), []);
    }
  }

  // ---------------------------------------------------------------- the stream decoder

  /** `size` is -1, or the length in the header that was read last and whose payload is still due. */
  datatype State = State(buf: Bytes, size: int, typ: Byte)

  const NEW := State([], -1, 0)

  datatype Outcome = Outcome(packets: seq<Packet>, err: Option<Error>, state: State)

  function Forward(s: State): (State, Option<Error>)
    requires |s.buf| >= HEAD_LENGTH
  {
    var typ, size, rest := s.buf[0], BytesToInt(s.buf[1..4]), s.buf[4..];
    if !GoodType(typ) then (State(rest, s.size, typ), Some(WrongPacketType))
    else if size > MAX_PACKET_SIZE then (State(rest, size, typ), Some(PacketSizeExceed))
    else (State(rest, size, typ), None)
  }

  /** The loop of `Decode`; `got` are the packets so far. */
  function Drained(s: State, got: seq<Packet>): Outcome
    requires s.size >= 0
    decreases |s.buf|
  {
    if s.size > |s.buf| then Outcome(got, None, s)
    else
      var got' := got + [Packet(s.typ, s.size, s.buf[..s.size])];
      var rest := s.buf[s.size..];
      if |rest| < HEAD_LENGTH then Outcome(got', None, State(rest, -1, s.typ))
      else
        var (s', err) := Forward(State(rest, s.size, s.typ));
        if err.Some? then Outcome([], err, s') else Drained(s', got')
  }

  function Decoded(s: State, data: Bytes): Outcome {
    Scanned(s.(buf := s.buf + data))
  }

  /** `Decode` after the new bytes are in the buffer. */
  function Scanned(s: State): Outcome {
    if |s.buf| < HEAD_LENGTH then Outcome([], None, s)
    else if s.size < 0 then
      var (s', err) := Forward(s);
      if err.Some? then Outcome([], err, s') else Drained(s', [])
    else Drained(s, [])
  }

  /** The bytes that the decoder has taken in and not yet given out: the header that is due, and the buffer. */
  function Owed(s: State): Bytes {
    (if s.size < 0 then [] else [s.typ] + IntToBytes(s.size)) + s.buf
  }

  /** A header that was read stays due while its payload is incomplete, or while fewer than four bytes wait. */
  predicate Resting(s: State) {
    || (s.size == -1 && |s.buf| < HEAD_LENGTH)
    || (1 <= s.size <= MAX_PACKET_SIZE && GoodType(s.typ) && (|s.buf| < s.size || |s.buf| < HEAD_LENGTH))
  }

  /** The payload that is due is all there, but the decoder has not looked. */
  predicate Lagging(s: State) {
    0 <= s.size <= |s.buf|
  }

  lemma ForwardReads(s: State)
    requires |s.buf| >= HEAD_LENGTH
    ensures Forward(s).1 == None <==> GoodHeader(s.buf)
    ensures Forward(s).1 != None ==> Forward(s).1 == Fault(s.buf)
    ensures Forward(s).1 == None ==> Owed(Forward(s).0) == s.buf
    ensures Forward(s).1 == None ==> Forward(s).0.size <= MAX_PACKET_SIZE && GoodType(Forward(s).0.typ)
  {
    LengthUnique(s.buf[1..4]);
    assert s.buf == [s.buf[0]] + s.buf[1..4] + s.buf[4..];
  }

  lemma OwedHeader(s: State)
    requires 0 <= s.size <= MAX_PACKET_SIZE && GoodType(s.typ)
    ensures |Owed(s)| == HEAD_LENGTH + |s.buf| && GoodHeader(Owed(s)) && BytesToInt(Owed(s)[1..4]) == s.size
    ensures Complete(Owed(s)) <==> s.size <= |s.buf|
    ensures s.size <= |s.buf| ==> First(Owed(s)) == Packet(s.typ, s.size, s.buf[..s.size])
    ensures s.size <= |s.buf| ==> After(Owed(s)) == s.buf[s.size..]
  {
    LengthRoundTrip(s.size);
    assert Owed(s)[1..4] == IntToBytes(s.size);
  }

  /** What the loop makes of the bytes that are due. */
  ghost predicate Parsed(due: Bytes, got: seq<Packet>, o: Outcome) {
    && o.err == Fault(due)
    && (o.err == None ==> o.packets == got + Parse(due) && Resting(o.state) && !Lagging(o.state))
    && (o.err == None ==> due == FrameAll(Parse(due)) + Owed(o.state))
  }

  /** The loop reads on to the last whole packet, unless it meets an illegal header. */
  lemma {:induction false} DrainParses(s: State, got: seq<Packet>)
    requires 0 <= s.size <= MAX_PACKET_SIZE && GoodType(s.typ)
    ensures Parsed(Owed(s), got, Drained(s, got))
    decreases |s.buf|
  {
    OwedHeader(s);
    if s.size <= |s.buf| {
      var rest := State(s.buf[s.size..], s.size, s.typ);
      var got' := got + [Packet(s.typ, s.size, s.buf[..s.size])];
      if |rest.buf| < HEAD_LENGTH {
        DrainEnds(s, got);
      } else {
        ForwardReads(rest);
        if Forward(rest).1 == None {
          var s' := Forward(rest).0;
          DrainParses(s', got');
          assert Drained(s, got) == Drained(s', got');
          OnePacketMore(Owed(s), got, Drained(s', got'));
        }
      }
    }
  }

  lemma DrainEnds(s: State, got: seq<Packet>)
    requires 0 <= s.size <= MAX_PACKET_SIZE && GoodType(s.typ)
    requires s.size <= |s.buf| < s.size + HEAD_LENGTH
    ensures Parsed(Owed(s), got, Drained(s, got))
  {
    OwedHeader(s);
    CompleteFrame(Owed(s));
    assert FrameAll([First(Owed(s))]) == Frame(First(Owed(s)).typ, First(Owed(s)).data);
  }

  lemma OnePacketMore(due: Bytes, got: seq<Packet>, o: Outcome)
    requires Complete(due) && Parsed(After(due), got + [First(due)], o)
    ensures Parsed(due, got, o)
  {
    var p, rest := First(due), After(due);
    CompleteFrame(due);
    ParseFirst(due);
    if o.err == None {
      Regroup(Frame(p.typ, p.data), FrameAll(Parse(rest)), Owed(o.state));
      Regroup(got, [p], Parse(rest));
    }
  }

  lemma Regroup<T>(a: seq<T>, b: seq<T>, c: seq<T>)
    ensures a + (b + c) == (a + b) + c
  {
  }

  /** One call of `Decode`, from any state that calls leave behind. */
  lemma ScanParses(s: State)
    requires s.size == -1 || (1 <= s.size <= MAX_PACKET_SIZE && GoodType(s.typ))
    ensures var o := Scanned(s);
            && o.err == Fault(Owed(s))
            && (o.err == None ==>
                  && o.packets == (if |s.buf| < HEAD_LENGTH then [] else Parse(Owed(s)))
                  && Owed(s) == FrameAll(o.packets) + Owed(o.state) && Resting(o.state))
  {
    if |s.buf| < HEAD_LENGTH {
      ShortScan(s);
    } else if s.size < 0 {
      assert Owed(s) == s.buf;
      ForwardReads(s);
      if Forward(s).1 == None {
        assert Owed(Forward(s).0) == Owed(s);
        DrainParses(Forward(s).0, []);
      }
    } else {
      DrainParses(s, []);
    }
  }

  lemma ShortScan(s: State)
    requires s.size == -1 || (1 <= s.size <= MAX_PACKET_SIZE && GoodType(s.typ))
    requires |s.buf| < HEAD_LENGTH
    ensures GoodStream(Owed(s)) && Owed(s) == FrameAll([]) + Owed(s) && Resting(s)
  {
    if s.size >= 0 {
      OwedHeader(s);
    }
  }

  /** A call that fails gives nothing out, also not what it had found before the illegal header. */
  lemma FailureDrops(s: State, data: Bytes)
    ensures Decoded(s, data).err.Some? ==> Decoded(s, data).packets == []
  {
    var s' := s.(buf := s.buf + data);
    if |s'.buf| >= HEAD_LENGTH {
      if s.size >= 0 {
        DrainDrops(s', []);
      } else if Forward(s').1 == None {
        DrainDrops(Forward(s').0, []);
      }
    }
  }

  lemma {:induction false} DrainDrops(s: State, got: seq<Packet>)
    requires s.size >= 0
    ensures Drained(s, got).err.Some? ==> Drained(s, got).packets == []
    decreases |s.buf|
  {
    if s.size <= |s.buf| {
      var next := State(s.buf[s.size..], s.size, s.typ);
      if |next.buf| >= HEAD_LENGTH && Forward(next).1 == None {
        DrainDrops(Forward(next).0, got + [Packet(s.typ, s.size, s.buf[..s.size])]);
      }
    }
  }

  // ---------------------------------------------------------------- any chunking

  /** A fresh decoder fed the chunks one by one, up to the first error; the packets are collected. */
  function Fed(chunks: seq<Bytes>): Outcome
    decreases |chunks|
  {
    if chunks == [] then Outcome([], None, NEW)
    else
      FedMore(Fed(chunks[..|chunks| - 1]), chunks[|chunks| - 1])
  }

  function FedMore(o: Outcome, data: Bytes): Outcome {
    if o.err.Some? then o
    else
      var o' := Decoded(o.state, data);
      Outcome(o.packets + o'.packets, o'.err, o'.state)
  }

  function Joined(chunks: seq<Bytes>): Bytes
    decreases |chunks|
  {
    if chunks == [] then [] else Joined(chunks[..|chunks| - 1]) + chunks[|chunks| - 1]
  }

  lemma {:induction false} FramesAppend(ps: seq<Packet>, qs: seq<Packet>)
    ensures FrameAll(ps + qs) == FrameAll(ps) + FrameAll(qs)
  {
    if ps == [] {
      assert ps + qs == qs;
    } else {
      assert (ps + qs)[1..] == ps[1..] + qs;
      FramesAppend(ps[1..], qs);
    }
  }

  lemma {:induction false} ParsedAreGood(s: Bytes)
    ensures forall p | p in Parse(s) :: GoodPacket(p)
    decreases |s|
  {
    if Complete(s) {
      CompleteFrame(s);
      ParsedAreGood(After(s));
    }
  }

  /** What holds after every chunk that brought no error. */
  ghost predicate Conserved(o: Outcome, input: Bytes) {
    && Resting(o.state) && input == FrameAll(o.packets) + Owed(o.state)
    && forall p | p in o.packets :: GoodPacket(p)
  }

  lemma Buffered(o: Outcome, input: Bytes, data: Bytes)
    requires o.err == None && Conserved(o, input)
    ensures var s := o.state.(buf := o.state.buf + data);
            input + data == FrameAll(o.packets) + Owed(s) && Fault(input + data) == Fault(Owed(s))
    ensures var s := o.state.(buf := o.state.buf + data);
            Parse(input + data) == o.packets + Parse(Owed(s))
  {
    var s := o.state.(buf := o.state.buf + data);
    assert Owed(s) == Owed(o.state) + data;
    assert input + data == FrameAll(o.packets) + Owed(s);
    ParseFrames(o.packets, Owed(s));
  }

  lemma OneMoreChunk(o: Outcome, input: Bytes, data: Bytes)
    requires o.err == None && Conserved(o, input)
    ensures FedMore(o, data).err == Fault(input + data)
    ensures FedMore(o, data).err == None ==> Conserved(FedMore(o, data), input + data)
  {
    var s := o.state.(buf := o.state.buf + data);
    Buffered(o, input, data);
    ScanParses(s);
    if GoodStream(Owed(s)) {
      ConservedMore(o.packets, Scanned(s).packets, Owed(Scanned(s).state), Owed(s));
    }
  }

  lemma ConservedMore(ps: seq<Packet>, qs: seq<Packet>, left: Bytes, input: Bytes)
    requires input == FrameAll(qs) + left && (qs == [] || qs == Parse(input))
    ensures FrameAll(ps) + input == FrameAll(ps + qs) + left && forall p | p in qs :: GoodPacket(p)
  {
    FramesAppend(ps, qs);
    ParsedAreGood(input);
  }

  /**
   However the stream is cut: decoding fails exactly when the stream holds an illegal header, with the error of the
   first one, and up to then the input is the encoding of the packets given out, the header that is due, and the
   buffered bytes.
   */
  lemma {:induction false} Conservation(chunks: seq<Bytes>)
    ensures Fed(chunks).err == Fault(Joined(chunks))
    ensures Fed(chunks).err == None ==> Conserved(Fed(chunks), Joined(chunks))
    decreases |chunks|
  {
    if chunks != [] {
      var before, data := chunks[..|chunks| - 1], chunks[|chunks| - 1];
      Conservation(before);
      if Fed(before).err == None {
        OneMoreChunk(Fed(before), Joined(before), data);
      } else {
        PrefixFault(Joined(before), data);
      }
    }
  }

  lemma OwedParses(s: State)
    requires Resting(s)
    ensures Parse(Owed(s)) == if Lagging(s) then [Packet(s.typ, s.size, s.buf[..s.size])] else []
  {
    if s.size >= 0 {
      OwedHeader(s);
    }
  }

  /**
   However the stream is cut, the packets given out are the first ones that a reading at one go
   finds. One may be missing, exactly when its header was read, its payload is there and at most
   three bytes long, and fewer than four bytes are buffered.
   */
  lemma BoundedLag(chunks: seq<Bytes>)
    requires GoodStream(Joined(chunks))
    ensures var o := Fed(chunks);
            && Parse(Joined(chunks)) == o.packets + Parse(Owed(o.state))
            && |Parse(Owed(o.state))| == (if Lagging(o.state) then 1 else 0)
            && (Lagging(o.state) <==> 1 <= o.state.size <= |o.state.buf| < HEAD_LENGTH)
  {
    var o := Fed(chunks);
    Conservation(chunks);
    ParseFrames(o.packets, Owed(o.state));
    OwedParses(o.state);
  }

  /** A last call that finds four bytes in the buffer leaves nothing behind. */
  lemma CaughtUp(chunks: seq<Bytes>, data: Bytes)
    requires GoodStream(Joined(chunks + [data]))
    requires |Fed(chunks).state.buf| + |data| >= HEAD_LENGTH
    ensures Fed(chunks + [data]).err == None && Fed(chunks + [data]).packets == Parse(Joined(chunks + [data]))
  {
    assert (chunks + [data])[..|chunks|] == chunks;
    PrefixFault(Joined(chunks), data);
    Conservation(chunks);
    Buffered(Fed(chunks), Joined(chunks), data);
    ScanParses(Fed(chunks).state.(buf := Fed(chunks).state.buf + data));
  }

  /** Packets that were encoded one after the other, cut anywhere, come out in order, all but perhaps the last. */
  lemma Delivered(ps: seq<Packet>, chunks: seq<Bytes>)
    requires (forall p | p in ps :: GoodPacket(p)) && Joined(chunks) == FrameAll(ps)
    ensures var o := Fed(chunks);
            && o.err == None
            && (!Lagging(o.state) ==> o.packets == ps)
            && (Lagging(o.state) ==> exists last :: ps == o.packets + [last] && 1 <= last.length < HEAD_LENGTH)
  {
    var o := Fed(chunks);
    assert FrameAll(ps) == FrameAll(ps) + [];
    ParseFrames(ps, []);
    BoundedLag(chunks);
    Conservation(chunks);
    OwedParses(o.state);
    assert Parse([]) == [];
    assert ps == o.packets + Parse(Owed(o.state));
    if Lagging(o.state) {
      assert ps == o.packets + [Packet(o.state.typ, o.state.size, o.state.buf[..o.state.size])];
    }
  }

  lemma HeaderFed(typ: Byte, n: nat)
    requires GoodType(typ) && 1 <= n <= MAX_PACKET_SIZE
    ensures Fed([[typ] + IntToBytes(n)]) == Outcome([], None, State([], n, typ))
  {
    var header := [typ] + IntToBytes(n);
    var chunks := [header];
    assert chunks[..0] == [];
    LengthRoundTrip(n);
    assert header[1..4] == IntToBytes(n) && header[4..] == [] && NEW.buf + header == header;
  }

  /** The missing packet is real: cut behind the header, a payload of at most three bytes stays in the buffer. */
  lemma LagHappens(typ: Byte, data: Bytes)
    requires GoodType(typ) && 1 <= |data| < HEAD_LENGTH
    ensures var o := Fed([[typ] + IntToBytes(|data|), data]);
            o.err == None && o.packets == [] && Lagging(o.state)
    ensures Parse(Frame(typ, data)) == [Packet(typ, |data|, data)]
  {
    var header := [typ] + IntToBytes(|data|);
    var chunks := [header, data];
    assert chunks[..1] == [header];
    HeaderFed(typ, |data|);
    EncodeDecode(typ, data, []);
    assert Frame(typ, data) + [] == Frame(typ, data);
  }
}
