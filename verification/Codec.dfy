/** The code of gate/packet/codec.go as it runs: an encoder that fills a buffer, a decoder that keeps its state. */
module Codec {
  import opened Prelude
  import opened Packet

  method IntToByteArray(n: nat) returns (buf: array<Byte>)
    ensures fresh(buf) && buf[..] == IntToBytes(n)
  {
    buf := new Byte[3];
    buf[0] := (n / 0x1_0000) % 0x100;
    buf[1] := (n / 0x100) % 0x100;
    buf[2] := n % 0x100;
  }

  method ByteArrayToInt(b: Bytes) returns (result: nat)
    ensures result == BytesToInt(b)
  {
    result := 0;
    for i := 0 to |b|
      invariant result == BytesToInt(b[..i])
    {
      assert b[..i + 1][..i] == b[..i];
      result := result * 0x100 + b[i];
    }
    assert b[..|b|] == b;
  }

  method Encode(typ: Byte, data: Bytes) returns (r: Result<array<Byte>, Error>)
    ensures if 1 <= typ <= 10 then r.Ok? else r == Err(WrongPacketType)
    ensures r.Ok? ==> fresh(r.value) && r.value[..] == Frame(typ, data)
  {
    if !GoodType(typ) {
      return Err(WrongPacketType);
    }
    var buf := new Byte[|data| + HEAD_LENGTH];
    buf[0] := typ;
    var len := IntToByteArray(|data|);
    forall i | 0 <= i < 3 {
      buf[1 + i] := len[i];
    }
    forall i | 0 <= i < |data| {
      buf[HEAD_LENGTH + i] := data[i];
    }
    assert forall i | 0 <= i < 3 :: buf[1 + i] == len[..][i];
    assert buf[..] == Frame(typ, data);
    return Ok(buf);
  }

  class Decoder {
    var buf: Bytes
    var size: int
    var typ: Byte

    constructor ()
      ensures Value() == NEW
    {
      buf, size, typ := [], -1, 0;
    }

    function Value(): State
      reads this
    {
      State(buf, size, typ)
    }

    /** Reads a header off the buffer. */
    method ReadHeader() returns (err: Option<Error>)
      requires |buf| >= HEAD_LENGTH
      modifies this
      ensures (Value(), err) == Forward(old(Value()))
    {
      var header := buf[..HEAD_LENGTH];
      buf := buf[HEAD_LENGTH..];
      typ := header[0];
      if !GoodType(typ) {
        return Some(WrongPacketType);
      }
      assert header[1..] == old(buf)[1..4];
      size := ByteArrayToInt(header[1..]);
      if size > MAX_PACKET_SIZE {
        return Some(PacketSizeExceed);
      }
      return None;
    }

    /** The packets and the error of `Decoded`; with an error no packet is returned. */
    method Decode(data: Bytes) returns (packets: seq<Packet>, err: Option<Error>)
      requires size >= -1
      modifies this
      ensures Outcome(packets, err, Value()) == Decoded(old(Value()), data)
    {
      buf := buf + data;
      packets, err := [], None;
      if |buf| < HEAD_LENGTH {
        return;
      }
      if size < 0 {
        err := ReadHeader();
        if err.Some? {
          return;
        }
      }
      ghost var due := Value();
      while size <= |buf|
        invariant err == None && size >= 0 && Drained(Value(), packets) == Drained(due, [])
        decreases |buf|
      {
        var p := Packet(typ, size, buf[..size]);
        buf := buf[size..];
        packets := packets + [p];
        if |buf| < HEAD_LENGTH {
          size := -1;
          return;
        }
        err := ReadHeader();
        if err.Some? {
          packets := [];
          return;
        }
      }
    }
  }

  /** A decoder fed one chunk after the other, as the read loops do, until an error. */
  method DecodeAll(chunks: seq<Bytes>) returns (packets: seq<Packet>, err: Option<Error>)
    ensures err == Fault(Joined(chunks))
    ensures err == None ==> packets <= Parse(Joined(chunks)) && |Parse(Joined(chunks))| <= |packets| + 1
  {
    var d := new Decoder();
    packets, err := [], None;
    for i := 0 to |chunks|
      invariant err == None && d.size >= -1 && Outcome(packets, err, d.Value()) == Fed(chunks[..i])
    {
      assert chunks[..i + 1][..i] == chunks[..i];
      Conservation(chunks[..i]);
      Conservation(chunks[..i + 1]);
      var got;
      got, err := d.Decode(chunks[i]);
      if err.Some? {
        JoinedSplits(chunks, i + 1);
        PrefixFault(Joined(chunks[..i + 1]), Joined(chunks[i + 1..]));
        return [], err;
      }
      packets := packets + got;
    }
    assert chunks[..|chunks|] == chunks;
    Conservation(chunks);
    BoundedLag(chunks);
  }

  lemma {:induction false} JoinedSplits(chunks: seq<Bytes>, n: nat)
    requires n <= |chunks|
    ensures Joined(chunks) == Joined(chunks[..n]) + Joined(chunks[n..])
    decreases |chunks|
  {
    if n == |chunks| {
      assert chunks[..n] == chunks && Joined(chunks[n..]) == [];
    } else {
      var last := |chunks| - 1;
      JoinedSplits(chunks[..last], n);
      assert chunks[..last][..n] == chunks[..n] && chunks[..last][n..] == chunks[n..][..last - n];
    }
  }
}
