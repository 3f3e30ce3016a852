/**
 The message layer, gate/message/message.go: a flag byte with the message type, a variable length
 id for requests and responses, a route that is spelled out or replaced by a code, and the data.
 */
module Message {
  import opened Prelude

  const REQUEST: Byte := 0
  const NOTIFY: Byte := 1
  const RESPONSE: Byte := 2
  const PUSH: Byte := 3

  const TWO_64: nat := 0x1_0000_0000_0000_0000

  type UInt64 = x: int | 0 <= x < 0x1_0000_0000_0000_0000

  type Code = x: int | 0 <= x < 0x1_0000

  type Route = Bytes

  datatype Message = Message(typ: Byte, id: UInt64, route: Route, data: Bytes)

  datatype Error = WrongMessageType | InvalidMessage | RouteInfoNotFound | WrongMessage | Panic

  /** The two package tables. */
  datatype Tables = Tables(routes: map<Route, Code>, codes: map<Code, Route>)

  predicate HasId(typ: Byte) {
    typ == REQUEST || typ == RESPONSE
  }

  predicate Routable(typ: Byte) {
    typ == REQUEST || typ == NOTIFY || typ == PUSH
  }

  // ---------------------------------------------------------------- ids

  /** Groups of seven bits, the lowest first; every byte but the last has its top bit set. */
  function Varint(n: nat): Bytes {
    if n < 128 then [n] else [n % 128 + 128] + Varint(n / 128)
  }

  /** The length of the id at the front of `s`, or 0 if no byte ends it. */
  function VarintLength(s: Bytes): nat {
    if s == [] then 0
    else if s[0] < 128 then 1
    else if VarintLength(s[1..]) == 0 then 0 else 1 + VarintLength(s[1..])
  }

  /** What the groups add up to, up to the byte that ends the id or to the end of `s`. */
  function VarintSum(s: Bytes): nat {
    if s == [] then 0
    else if s[0] < 128 then s[0]
    else s[0] % 128 + 128 * VarintSum(s[1..])
  }

  lemma {:induction false} VarintRoundTrip(n: nat, rest: Bytes)
    ensures var s := Varint(n) + rest; VarintSum(s) == n && VarintLength(s) == |Varint(n)| > 0
  {
    if n >= 128 {
      VarintRoundTrip(n / 128, rest);
      assert (Varint(n) + rest)[1..] == Varint(n / 128) + rest;
    }
  }

  function Pow128(k: nat): (p: nat)
    ensures p > 0
  {
    if k == 0 then 1 else 128 * Pow128(k - 1)
  }

  /** The digit of n with weight 128^i. */
  function Digit(n: nat, i: nat): Byte {
    n / Pow128(i) % 128
  }

  /**
   The bytes are the base-128 digits of n, the lowest first and not one more than n needs; every
   byte but the last has its top bit set.
   */
  ghost predicate IsId(s: Bytes, n: nat) {
    && |s| > 0 && n < Pow128(|s|) && (|s| > 1 ==> Pow128(|s| - 1) <= n)
    && forall i | 0 <= i < |s| :: s[i] == Digit(n, i) + if i < |s| - 1 then 128 else 0
  }

  /** An id below 128^k and not below 128^(k-1) takes k bytes, which are its digits. */
  lemma {:induction false} VarintIsId(n: nat)
    ensures IsId(Varint(n), n)
  {
    if n < 128 {
      FirstDigit(n);
      assert Pow128(1) == 128 * Pow128(0);
    } else {
      VarintIsId(n / 128);
      OneDigitMore(n, Varint(n / 128));
    }
  }

  lemma OneDigitMore(n: nat, rest: Bytes)
    requires n >= 128 && IsId(rest, n / 128)
    ensures IsId([n % 128 + 128] + rest, n)
  {
    var s := [n % 128 + 128] + rest;
    OneMoreBounds(n, |rest|);
    forall i | 0 <= i < |s| ensures s[i] == Digit(n, i) + if i < |s| - 1 then 128 else 0 {
      if i == 0 {
        FirstDigit(n);
      } else {
        NextDigit(n, i);
        assert s[i] == rest[i - 1];
      }
    }
  }

  lemma OneMoreBounds(n: nat, k: nat)
    requires n >= 128 && k > 0 && n / 128 < Pow128(k) && (k > 1 ==> Pow128(k - 1) <= n / 128)
    ensures Pow128(k) <= n < Pow128(k + 1)
  {
    var p := Pow128(k - 1);
    assert Pow128(k) == 128 * p && Pow128(k + 1) == 128 * Pow128(k);
    assert k == 1 ==> p == 1;
  }

  lemma FirstDigit(n: nat)
    ensures Digit(n, 0) == n % 128
  {
    assert Pow128(0) == 1;
  }

  lemma NextDigit(n: nat, i: nat)
    requires i > 0
    ensures Digit(n, i) == Digit(n / 128, i - 1)
  {
    DivideTwice(n, Pow128(i - 1));
  }

  lemma DivideTwice(n: nat, p: nat)
    requires p > 0
    ensures n / 128 / p == n / (128 * p)
  {
    var q := n / 128;
    assert q == p * (q / p) + q % p;
    QuotientIs(n, 128 * p, q / p, 128 * (q % p) + n % 128);
  }

  /** The id ends with the first byte below 128; a group counts with the weight of its place. */
  lemma {:induction false} GroupsAddUp(s: Bytes, b: Byte, rest: Bytes)
    requires forall i | 0 <= i < |s| :: s[i] >= 128
    ensures VarintLength(s) == 0
    ensures b < 128 ==> VarintLength(s + [b] + rest) == |s| + 1
    ensures VarintSum(s + [b]) == VarintSum(s) + Pow128(|s|) * (b % 128)
    ensures b < 128 ==> VarintSum(s + [b] + rest) == VarintSum(s + [b])
  {
    if s == [] {
      assert [b][1..] == [];
      assert Pow128(0) == 1 && s + [b] == [b];
      assert ([b] + rest)[1..] == rest && s + [b] + rest == [b] + rest;
    } else {
      GroupsAddUp(s[1..], b, rest);
      assert (s + [b])[1..] == s[1..] + [b];
      assert (s + [b] + rest)[1..] == s[1..] + [b] + rest;
      MulMul(Pow128(|s| - 1), b % 128);
    }
  }

  lemma MulMul(p: nat, x: nat)
    ensures 128 * (p * x) == 128 * p * x
  {
  }

  // ---------------------------------------------------------------- encoding

  function Flag(t: Tables, m: Message): Byte
    requires m.typ <= PUSH
  {
    m.typ * 2 + if m.route in t.routes then 1 else 0
  }

  function IdPart(m: Message): Bytes {
    if HasId(m.typ) then Varint(m.id) else []
  }

  /** A route with a code is sent as the code; otherwise its length, cut to a byte, and the route. */
  function RoutePart(t: Tables, m: Message): Bytes {
    if !Routable(m.typ) then []
    else if m.route in t.routes then [t.routes[m.route] / 0x100, t.routes[m.route] % 0x100]
    else [|m.route| % 0x100] + m.route
  }

  function Encoded(t: Tables, m: Message): Result<Bytes, Error> {
    if m.typ > PUSH then Err(WrongMessageType)
    else Ok([Flag(t, m)] + IdPart(m) + RoutePart(t, m) + m.data)
  }

  /**
   The layout on the wire. Types 0 to 3 are sent: a byte with the type above the bit that says whether the route has
   a code; for types 0 and 2 the id in k bytes; for all types but 2 the code, high byte first, or one byte with
   the length of the route and the route; then the data.
   */
  ghost predicate IsWire(t: Tables, m: Message, s: Bytes, k: nat) {
    && |s| >= 1 + k && s[0] == 2 * m.typ + (if m.route in t.routes then 1 else 0)
    && (if m.typ == 0 || m.typ == 2 then IsId(s[1..1 + k], m.id) else k == 0)
    && if m.typ == 2 then s[1 + k..] == m.data
       else if m.route in t.routes then
         && |s| >= 3 + k
         && s[1 + k] as int * 256 + s[2 + k] == t.routes[m.route]
         && s[3 + k..] == m.data
       else
         && |s| == 2 + k + |m.route| + |m.data|
         && s[1 + k] == |m.route| % 256
         && s[2 + k..2 + k + |m.route|] == m.route
         && s[2 + k + |m.route|..] == m.data
  }

  ghost predicate HasLayout(t: Tables, m: Message, s: Bytes) {
    exists k: nat :: IsWire(t, m, s, k)
  }

  /** An encoded message has exactly this layout; only other types are refused. */
  lemma EncodedIsWire(t: Tables, m: Message)
    ensures m.typ > 3 <==> Encoded(t, m).Err?
    ensures m.typ > 3 ==> Encoded(t, m) == Err(WrongMessageType)
    ensures m.typ <= 3 ==> HasLayout(t, m, Encoded(t, m).value)
  {
    if m.typ <= 3 {
      VarintIsId(m.id);
      LayoutIsWire(t, m, [Flag(t, m)], IdPart(m), RoutePart(t, m));
      assert IsWire(t, m, Encoded(t, m).value, |IdPart(m)|);
    }
  }

  lemma LayoutIsWire(t: Tables, m: Message, flag: Bytes, id: Bytes, route: Bytes)
    requires m.typ <= 3 && flag == [Flag(t, m)] && route == RoutePart(t, m)
    requires if m.typ == 0 || m.typ == 2 then IsId(id, m.id) else id == []
    ensures IsWire(t, m, flag + id + route + m.data, |id|)
  {
    var s, k := flag + id + route + m.data, |id|;
    assert s[1..1 + k] == id;
    if m.typ == 2 {
      assert s[1 + k..] == m.data;
    } else if m.route in t.routes {
      assert s[3 + k..] == m.data;
    } else {
      assert s[2 + k..2 + k + |m.route|] == m.route;
      assert s[2 + k + |m.route|..] == m.data;
    }
  }

  // ---------------------------------------------------------------- decoding

  /** Where the id ends: an id that nothing ends leaves the offset behind the flag. */
  function IdEnd(typ: Byte, data: Bytes): nat
    requires |data| > 0
  {
    1 + if HasId(typ) then VarintLength(data[1..]) else 0
  }

  /** The route at an offset and where it ends; `spare` is what follows the message in its buffer. */
  function ReadRoute(t: Tables, compressed: bool, data: Bytes, spare: Bytes, offset: nat): Result<(Route, nat), Error>
    requires offset < |data|
  {
    if compressed then
      var all := data + spare;
      if offset + 2 > |all| then Err(Panic) else
      var code := all[offset] as int * 0x100 + all[offset + 1];
      if code in t.codes then Ok((t.codes[code], offset + 2)) else Err(RouteInfoNotFound)
    else
      var end := offset + 1 + data[offset];
      if end > |data| then Err(WrongMessage) else Ok((data[offset + 1..end], end))
  }

  function Decoded(t: Tables, data: Bytes, spare: Bytes): Result<Message, Error> {
    if |data| < 2 then Err(InvalidMessage) else
    var typ := (data[0] / 2) % 8;
    if typ > PUSH then Err(WrongMessageType) else
    var id := if HasId(typ) then VarintSum(data[1..]) % TWO_64 else 0;
    var offset := IdEnd(typ, data);
    if offset >= |data| then Err(WrongMessage)
    else if !Routable(typ) then Ok(Message(typ, id, [], data[offset..]))
    else
      match ReadRoute(t, data[0] % 2 == 1, data, spare, offset)
      case Err(e) => Err(e)
      case Ok((route, end)) => if end > |data| then Err(WrongMessage) else Ok(Message(typ, id, route, data[end..]))
  }

  /**
   When decoding succeeds and with which error it fails, for every input; `k` is where the id ends, or 1 if nothing
   ends it. A code whose second byte is missing is read from the buffer behind the message if there is one.
   */
  lemma DecodedFails(t: Tables, data: Bytes, spare: Bytes)
    ensures Decoded(t, data, spare) == Err(InvalidMessage) <==> |data| < 2
    ensures |data| >= 2 ==>
              var r, typ, coded := Decoded(t, data, spare), data[0] / 2 % 8, data[0] % 2 == 1;
              var k := 1 + if typ == 0 || typ == 2 then VarintLength(data[1..]) else 0;
              && (r == Err(WrongMessageType) <==> typ > 3)
              && (typ == 2 ==> (r.Ok? <==> k < |data|))
              && (typ != 2 && typ <= 3 && !coded ==> (r.Ok? <==> k < |data| && k + 1 + data[k] <= |data|))
              && ((typ == 2 || !coded) && typ <= 3 ==> r.Ok? || r == Err(WrongMessage))
              && (typ != 2 && typ <= 3 && coded ==>
                    && (r == Err(Panic) <==> k == |data| - 1 && spare == [])
                    && (k == |data| ==> r == Err(WrongMessage))
                    && (k < |data| - 1 ==>
                          if data[k] as int * 256 + data[k + 1] in t.codes then r.Ok? else r == Err(RouteInfoNotFound))
                    && (k == |data| - 1 && spare != [] ==>
                          if data[k] as int * 256 + spare[0] in t.codes then r == Err(WrongMessage)
                          else r == Err(RouteInfoNotFound)))
  {
    if |data| >= 2 {
      VarintLengthBound(data[1..]);
    }
  }

  lemma {:induction false} VarintLengthBound(s: Bytes)
    ensures VarintLength(s) <= |s|
  {
    if s != [] {
      VarintLengthBound(s[1..]);
    }
  }

  /** A decoded message is laid out in its bytes: type, id as the groups say, route or code, and the data at the end. */
  lemma DecodedIsLaidOut(t: Tables, data: Bytes, spare: Bytes)
    requires Decoded(t, data, spare).Ok?
    ensures var m, k := Decoded(t, data, spare).value, IdEnd(data[0] / 2 % 8, data);
            && m.typ == data[0] / 2 % 8 <= 3 && k < |data|
            && m.id == (if m.typ == 0 || m.typ == 2 then VarintSum(data[1..]) % TWO_64 else 0)
            && if m.typ == 2 then m.route == [] && m.data == data[k..]
               else if data[0] % 2 == 1 then
                 && k + 2 <= |data| && data[k] as int * 256 + data[k + 1] in t.codes
                 && m.route == t.codes[data[k] as int * 256 + data[k + 1]] && m.data == data[k + 2..]
               else
                 && |m.route| == data[k] && k + 1 + |m.route| <= |data|
                 && m.route == data[k + 1..k + 1 + |m.route|] && m.data == data[k + 1 + |m.route|..]
  {
  }

  // ---------------------------------------------------------------- round trip

  /** The route of `m` comes back: its code leads back to it, or it has none and its length fits into a byte. */
  predicate RouteFits(t: Tables, m: Message) {
    if m.route in t.routes
    then t.routes[m.route] in t.codes && t.codes[t.routes[m.route]] == m.route
    else |m.route| < 0x100
  }

  predicate Fits(t: Tables, m: Message) {
    if m.typ == RESPONSE then m.route == [] && m.data != []
    else RouteFits(t, m) && (m.typ == REQUEST || m.id == 0)
  }

  lemma RouteRoundTrip(t: Tables, m: Message, head: Bytes, spare: Bytes)
    requires Routable(m.typ)
    ensures var data := head + RoutePart(t, m) + m.data;
            |head| < |data| &&
            var r := ReadRoute(t, m.route in t.routes, data, spare, |head|);
            && (RouteFits(t, m) ==> r == Ok((m.route, |head| + |RoutePart(t, m)|)))
            && (!RouteFits(t, m) ==> r.Err? || r.value.0 != m.route)
  {
    var data := head + RoutePart(t, m) + m.data;
    if m.route in t.routes {
      var code := t.routes[m.route];
      assert data[|head|] == code / 0x100 && data[|head| + 1] == code % 0x100;
      assert (data + spare)[|head|] == code / 0x100 && (data + spare)[|head| + 1] == code % 0x100;
    } else {
      assert data[|head|] == |m.route| % 0x100;
      if |m.route| < 0x100 {
        assert data[|head| + 1..|head| + 1 + |m.route|] == m.route;
      }
    }
  }

  lemma FlagRead(t: Tables, m: Message)
    requires m.typ <= PUSH
    ensures (Flag(t, m) / 2) % 8 == m.typ && (Flag(t, m) % 2 == 1 <==> m.route in t.routes)
  {
  }

  lemma IdRoundTrip(t: Tables, m: Message, rest: Bytes)
    requires m.typ <= PUSH
    ensures var data := [Flag(t, m)] + IdPart(m) + rest;
            && IdEnd(m.typ, data) == 1 + |IdPart(m)|
            && (HasId(m.typ) ==> VarintSum(data[1..]) % TWO_64 == m.id)
  {
    if HasId(m.typ) {
      VarintRoundTrip(m.id, rest);
      assert ([Flag(t, m)] + IdPart(m) + rest)[1..] == Varint(m.id) + rest;
    }
  }

  /** A message of a known type decodes to itself, whatever follows it in the buffer, exactly when it fits. */
  lemma RoundTrip(t: Tables, m: Message, spare: Bytes)
    requires m.typ <= PUSH
    ensures Encoded(t, m).Ok? && (Decoded(t, Encoded(t, m).value, spare) == Ok(m) <==> Fits(t, m))
  {
    var head := [Flag(t, m)] + IdPart(m);
    var data := head + RoutePart(t, m) + m.data;
    FlagRead(t, m);
    IdRoundTrip(t, m, RoutePart(t, m) + m.data);
    assert data == [Flag(t, m)] + IdPart(m) + (RoutePart(t, m) + m.data);
    if Routable(m.typ) {
      RouteRoundTrip(t, m, head, spare);
      assert data[|head| + |RoutePart(t, m)|..] == m.data;
    } else {
      assert data[|head|..] == m.data;
    }
  }

  /** A message whose route does not fit is not read with that route. */
  lemma Misread(t: Tables, m: Message, spare: Bytes)
    requires m.typ <= PUSH && Routable(m.typ) && !RouteFits(t, m)
    ensures var r := Decoded(t, Encoded(t, m).value, spare); r.Ok? ==> r.value.route != m.route
  {
    var head := [Flag(t, m)] + IdPart(m);
    FlagRead(t, m);
    IdRoundTrip(t, m, RoutePart(t, m) + m.data);
    assert head + RoutePart(t, m) + m.data == [Flag(t, m)] + IdPart(m) + (RoutePart(t, m) + m.data);
    RouteRoundTrip(t, m, head, spare);
  }

  /** A message that decodes does so whatever follows it in the buffer. */
  lemma SpareUnread(t: Tables, data: Bytes, spare: Bytes, spare': Bytes)
    requires Decoded(t, data, spare).Ok?
    ensures Decoded(t, data, spare') == Decoded(t, data, spare)
  {
    var offset := IdEnd((data[0] / 2) % 8, data);
    if offset + 2 <= |data| {
      assert (data + spare)[offset..offset + 2] == data[offset..offset + 2] == (data + spare')[offset..offset + 2];
      assert forall s: Bytes | s == spare || s == spare' :: (data + s)[offset] == data[offset];
      assert forall s: Bytes | s == spare || s == spare' :: (data + s)[offset + 1] == data[offset + 1];
    }
  }

  // ---------------------------------------------------------------- the dictionary

  /** Every route that has a code comes back from it: then every route with a code fits. */
  ghost predicate Faithful(t: Tables) {
    forall r | r in t.routes :: t.routes[r] in t.codes && t.codes[t.routes[r]] == r
  }

  function Set(t: Tables, r: Route, c: Code): Tables {
    Tables(t.routes[r := c], t.codes[c := r])
  }

  /** Setting a code keeps the tables faithful exactly when no other route has that code. */
  lemma SetKeepsFaithful(t: Tables, r: Route, c: Code)
    requires Faithful(t)
    ensures Faithful(Set(t, r, c)) <==> forall r' | r' in t.routes && r' != r :: t.routes[r'] != c
  {
    if r' :| r' in t.routes && r' != r && t.routes[r'] == c {
      assert r' in Set(t, r, c).routes;
    }
  }

  function SetAll(t: Tables, entries: seq<(Route, Code)>): Tables
    decreases |entries|
  {
    if entries == [] then t
    else Set(SetAll(t, entries[..|entries| - 1]), entries[|entries| - 1].0, entries[|entries| - 1].1)
  }

  /** No two different routes are given one code, and none is given the code of a route set before. */
  ghost predicate NoClash(t: Tables, entries: seq<(Route, Code)>) {
    && (forall i, j | 0 <= i < j < |entries| :: entries[i].1 == entries[j].1 ==> entries[i].0 == entries[j].0)
    && (forall i, r | 0 <= i < |entries| && r in t.routes && t.routes[r] == entries[i].1 :: r == entries[i].0)
  }

  /** Of several entries for one route, or for one code, the last one wins. */
  lemma {:induction false} LastEntryWins(t: Tables, entries: seq<(Route, Code)>, i: nat)
    requires i < |entries|
    ensures var t', (r, c) := SetAll(t, entries), entries[i];
            && ((forall j | i < j < |entries| :: entries[j].0 != r) ==> r in t'.routes && t'.routes[r] == c)
            && ((forall j | i < j < |entries| :: entries[j].1 != c) ==> c in t'.codes && t'.codes[c] == r)
    decreases |entries|
  {
    if i < |entries| - 1 {
      LastEntryWins(t, entries[..|entries| - 1], i);
    }
  }

  /** What has no entry stays as it was. */
  lemma {:induction false} OtherEntriesStay(t: Tables, entries: seq<(Route, Code)>, r: Route, c: Code)
    ensures var t' := SetAll(t, entries);
            && ((forall i | 0 <= i < |entries| :: entries[i].0 != r) ==>
                  (r in t'.routes <==> r in t.routes) && (r in t.routes ==> t'.routes[r] == t.routes[r]))
            && ((forall i | 0 <= i < |entries| :: entries[i].1 != c) ==>
                  (c in t'.codes <==> c in t.codes) && (c in t.codes ==> t'.codes[c] == t.codes[c]))
    decreases |entries|
  {
    if entries != [] {
      OtherEntriesStay(t, entries[..|entries| - 1], r, c);
    }
  }

  lemma {:induction false} SetAllKeepsFaithful(t: Tables, entries: seq<(Route, Code)>)
    requires Faithful(t) && NoClash(t, entries)
    ensures Faithful(SetAll(t, entries))
    ensures forall r | r in SetAll(t, entries).routes :: (r in t.routes && t.routes[r] == SetAll(t, entries).routes[r])
                                                         || (r, SetAll(t, entries).routes[r]) in entries
    decreases |entries|
  {
    if entries != [] {
      var before, last := entries[..|entries| - 1], entries[|entries| - 1];
      SetAllKeepsFaithful(t, before);
      assert entries == before + [last];
      var t' := SetAll(t, before);
      forall r | r in t'.routes && t'.routes[r] == last.1 ensures r == last.0 {
        if (r, last.1) in before {
          var i :| 0 <= i < |before| && before[i] == (r, last.1);
          assert entries[i] == (r, last.1) && entries[|before|] == last;
        } else {
          assert entries[|before|] == last;
        }
      }
      SetKeepsFaithful(t', last.0, last.1);
    }
  }

  /**
   With a dictionary set without clashes, every message whose plain route is short and whose id
   has its place comes back.
   */
  lemma DictionaryRoundTrip(entries: seq<(Route, Code)>, m: Message, spare: Bytes)
    requires NoClash(Tables(map[], map[]), entries) && m.typ <= PUSH
    ensures var t := SetAll(Tables(map[], map[]), entries);
            Encoded(t, m).Ok? &&
            (Decoded(t, Encoded(t, m).value, spare) == Ok(m) <==>
              if m.typ == RESPONSE then m.route == [] && m.data != []
              else (m.route in t.routes || |m.route| < 0x100) && (m.typ == REQUEST || m.id == 0))
  {
    SetAllKeepsFaithful(Tables(map[], map[]), entries);
    RoundTrip(SetAll(Tables(map[], map[]), entries), m, spare);
  }
}
