/** The code of gate/message/message.go as it runs, with the two package tables as its state. */
module MessageCodec {
  import opened Prelude
  import opened Message

  lemma ModAdd(a: nat, b: nat)
    ensures (a % TWO_64 + b % TWO_64) % TWO_64 == (a + b) % TWO_64
  {
  }

  /** What is left of an id: `full` is the sum of the groups so far, `p` the weight of the next one. */
  ghost predicate Adds(full: nat, p: nat, s: Bytes, total: nat) {
    full + p * VarintSum(s) == total
  }

  lemma OneGroup(full: nat, p: nat, s: Bytes, total: nat)
    requires s != [] && Adds(full, p, s, total)
    ensures s[0] < 128 ==> full + p * (s[0] % 128) == total
    ensures s[0] >= 128 ==> Adds(full + p * (s[0] % 128), 128 * p, s[1..], total)
  {
    if s[0] >= 128 {
      Distribute(p, s[0] % 128, VarintSum(s[1..]));
    }
  }

  lemma Distribute(p: nat, x: nat, y: nat)
    ensures p * (x + 128 * y) == p * x + (128 * p) * y
  {
  }

  /** What the routes of a dictionary are set to, in the given order. */
  ghost function Entries(dict: map<Route, Code>, trim: Route -> Route, order: seq<Route>): seq<(Route, Code)> {
    seq(|order|, i requires 0 <= i < |order| => (trim(order[i]), if order[i] in dict then dict[order[i]] else 0))
  }

  /** The list names every route of the dictionary exactly once. */
  ghost predicate Orders(dict: map<Route, Code>, order: seq<Route>) {
    && (forall r :: r in order <==> r in dict)
    && (forall i, j | 0 <= i < j < |order| :: order[i] != order[j])
  }

  /** A route alone in its trimmed form gets its code there; the code of a single route leads to its trimmed form. */
  lemma DictionaryIsSet(t: Tables, dict: map<Route, Code>, trim: Route -> Route, order: seq<Route>, route: Route)
    requires Orders(dict, order) && route in dict
    ensures var t' := SetAll(t, Entries(dict, trim, order));
            && ((forall r | r in dict && r != route :: trim(r) != trim(route)) ==>
                  trim(route) in t'.routes && t'.routes[trim(route)] == dict[route])
            && ((forall r | r in dict && r != route :: dict[r] != dict[route]) ==>
                  dict[route] in t'.codes && t'.codes[dict[route]] == trim(route))
  {
    var i :| 0 <= i < |order| && order[i] == route;
    var entries := Entries(dict, trim, order);
    assert forall j | 0 <= j < |order| :: entries[j].0 == trim(order[j]) && entries[j].1 == dict[order[j]];
    assert forall j | i < j < |order| :: order[j] in dict && order[j] != route;
    LastEntryWins(t, entries, i);
  }

  class Codec {
    var routes: map<Route, Code>
    var codes: map<Code, Route>

    constructor ()
      ensures Value() == Tables(map[], map[])
    {
      routes, codes := map[], map[];
    }

    function Value(): Tables
      reads this
    {
      Tables(routes, codes)
    }

    /** The entries are set in some order, under their trimmed routes; `order` is the one that was taken. */
    method SetDictionary(dict: map<Route, Code>, trim: Route -> Route) returns (ghost order: seq<Route>)
      modifies this
      ensures Orders(dict, order)
      ensures forall route | route in dict && (forall r | r in dict && r != route :: trim(r) != trim(route)) ::
                trim(route) in routes && routes[trim(route)] == dict[route]
      ensures forall route | route in dict && (forall r | r in dict && r != route :: dict[r] != dict[route]) ::
                dict[route] in codes && codes[dict[route]] == trim(route)
      ensures Value() == SetAll(old(Value()), Entries(dict, trim, order))
    {
      order := [];
      ghost var entries: seq<(Route, Code)> := [];
      var todo := dict.Keys;
      while todo != {}
        invariant todo <= dict.Keys && forall i, j | 0 <= i < j < |order| :: order[i] != order[j]
        invariant forall r :: r in order <==> r in dict && r !in todo
        invariant |entries| == |order| && Value() == SetAll(old(Value()), entries)
        invariant entries == Entries(dict, trim, order)
        decreases todo
      {
        var route :| route in todo;
        todo := todo - {route};
        var r, code := trim(route), dict[route];
        routes := routes[r := code];
        codes := codes[code := r];
        order := order + [route];
        assert (entries + [(r, code)])[..|entries|] == entries;
        entries := entries + [(r, code)];
      }
      forall route | route in dict
        ensures (forall r | r in dict && r != route :: trim(r) != trim(route)) ==>
                  trim(route) in routes && routes[trim(route)] == dict[route]
        ensures (forall r | r in dict && r != route :: dict[r] != dict[route]) ==>
                  dict[route] in codes && codes[dict[route]] == trim(route)
      {
        DictionaryIsSet(old(Value()), dict, trim, order, route);
      }
    }

    /** The loop of `Encode` over the id. */
    method EncodeId(head: Bytes, id: UInt64) returns (buf: Bytes)
      ensures buf == head + Varint(id) && IsId(buf[|head|..], id)
    {
      VarintIsId(id);
      assert (head + Varint(id))[|head|..] == Varint(id);
      buf := head;
      var n: nat := id;
      while true
        invariant buf + Varint(n) == head + Varint(id)
        decreases n
      {
        var b := n % 128;
        n := n / 128;
        if n != 0 {
          buf := buf + [b + 128];
        } else {
          return buf + [b];
        }
      }
    }

    /** The end of `Encode`: the route or its code, and the data. */
    method EncodeRest(head: Bytes, m: Message) returns (buf: Bytes)
      requires m.typ <= PUSH
      ensures buf == head + RoutePart(Value(), m) + m.data
    {
      buf := head;
      if Routable(m.typ) {
        if m.route in routes {
          var code := routes[m.route];
          buf := buf + [code / 0x100 % 0x100];
          buf := buf + [code % 0x100];
        } else {
          buf := buf + [|m.route| % 0x100];
          buf := buf + m.route;
        }
      }
      assert buf == head + RoutePart(Value(), m);
      buf := buf + m.data;
    }

    method Encode(m: Message) returns (r: Result<Bytes, Error>)
      ensures r == Encoded(Value(), m)
      ensures if m.typ > 3 then r == Err(WrongMessageType) else r.Ok? && HasLayout(Value(), m, r.value)
    {
      if m.typ > PUSH {
        return Err(WrongMessageType);
      }
      var buf := [m.typ * 2 + if m.route in routes then 1 else 0];
      if HasId(m.typ) {
        buf := EncodeId(buf, m.id);
      }
      assert buf == [Flag(Value(), m)] + IdPart(m);
      buf := EncodeRest(buf, m);
      EncodedIsWire(Value(), m);
      return Ok(buf);
    }

    /** The loop of `Decode` over the id: what it reads and where it leaves the offset. */
    method DecodeId(data: Bytes) returns (id: UInt64, offset: nat)
      requires |data| > 0
      ensures id == VarintSum(data[1..]) % TWO_64 && offset == 1 + VarintLength(data[1..])
    {
      id, offset := 0, 1;
      ghost var full: nat := 0;
      var i, weight: nat := 1, 1;
      while i < |data|
        invariant 1 <= i <= |data| && id == full % TWO_64 && offset == 1
        invariant Adds(full, weight, data[i..], VarintSum(data[1..]))
        invariant VarintLength(data[1..]) == if VarintLength(data[i..]) == 0 then 0 else i - 1 + VarintLength(data[i..])
      {
        var b := data[i];
        assert data[i..][0] == b && data[i..][1..] == data[i + 1..];
        OneGroup(full, weight, data[i..], VarintSum(data[1..]));
        var group := weight * (b % 128);
        ModAdd(full, group);
        id := (id + group % TWO_64) % TWO_64;
        full := full + group;
        if b < 128 {
          offset := i + 1;
          return;
        }
        weight := 128 * weight;
        i := i + 1;
      }
      assert data[i..] == [];
    }

    method Decode(data: Bytes, spare: Bytes) returns (r: Result<Message, Error>)
      ensures r == Decoded(Value(), data, spare)
    {
      if |data| < 2 {
        return Err(InvalidMessage);
      }
      var flag := data[0];
      var typ := (flag / 2) % 8;
      if typ > PUSH {
        return Err(WrongMessageType);
      }
      var id, offset := 0, 1;
      if HasId(typ) {
        id, offset := DecodeId(data);
      }
      if offset >= |data| {
        return Err(WrongMessage);
      }
      var route: Route := [];
      if Routable(typ) {
        if flag % 2 == 1 {
          var all := data + spare;
          if offset + 2 > |all| {
            return Err(Panic);
          }
          var code := all[offset] as int * 0x100 + all[offset + 1];
          if code !in codes {
            return Err(RouteInfoNotFound);
          }
          route := codes[code];
          offset := offset + 2;
        } else {
          var rl := data[offset];
          offset := offset + 1;
          if offset + rl > |data| {
            return Err(WrongMessage);
          }
          route := data[offset..offset + rl];
          offset := offset + rl;
        }
      }
      if offset > |data| {
        return Err(WrongMessage);
      }
      return Ok(Message(typ, id, route, data[offset..]));
    }
  }
}
