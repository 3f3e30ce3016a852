/**
 The copy of all nodes' attributes that registry/peer.go keeps: a snapshot of the keys
 /peer/attribute/<node>/<attribute>, then their put and delete events in order.
 */
module Peers {
  import opened Prelude

  type FullName = string
  type Attribute = string

  const GRPC: Attribute := "grpc"

  /** The url a peer has while its address attribute is stored. */
  function UrlOf(name: FullName): string {
    "peer:///" + name
  }

  datatype AttributeKey = AttributeKey(peer: FullName, attribute: Attribute)

  type Attributes = map<AttributeKey, string>

  datatype Event = Put(key: AttributeKey, value: string) | Delete(key: AttributeKey)

  /** How an event changes the stored attributes. */
  function Stored(view: Attributes, e: Event): Attributes {
    match e
    case Put(k, v) => view[k := v]
    case Delete(k) => view - {k}
  }

  function View(snapshot: Attributes, events: seq<Event>): Attributes
    decreases |events|
  {
    if events == [] then snapshot else Stored(View(snapshot, events[..|events| - 1]), events[|events| - 1])
  }

  /** What one peer's record says, as a value. */
  datatype Record = Record(address: string, url: string, metadata: map<Attribute, string>)

  type Records = map<FullName, Record>

  function RecordOf(records: Records, name: FullName): Record {
    if name in records then records[name] else Record("", "", map[])
  }

  /** What a put of one attribute makes of the record of its peer. */
  function PutRecord(r: Record, k: AttributeKey, v: string): Record {
    if k.attribute != GRPC then r.(metadata := r.metadata[k.attribute := v])
    else if r.address == "" then r.(address := v, url := UrlOf(k.peer))
    else r.(address := v)
  }

  function AfterPut(records: Records, k: AttributeKey, v: string): Records {
    records[k.peer := PutRecord(RecordOf(records, k.peer), k, v)]
  }

  function AfterDelete(records: Records, k: AttributeKey): Records {
    if k.peer !in records then records
    else if k.attribute == GRPC then records[k.peer := records[k.peer].(address := "", url := "")]
    else records[k.peer := records[k.peer].(metadata := records[k.peer].metadata - {k.attribute})]
  }

  function After(records: Records, e: Event): Records {
    match e
    case Put(k, v) => AfterPut(records, k, v)
    case Delete(k) => AfterDelete(records, k)
  }

  function Replay(records: Records, events: seq<Event>): Records
    decreases |events|
  {
    if events == [] then records else After(Replay(records, events[..|events| - 1]), events[|events| - 1])
  }

  /** One record says exactly what is stored about its peer. */
  ghost predicate RecordAgrees(r: Record, name: FullName, view: Attributes) {
    && r.address == (if AttributeKey(name, GRPC) in view then view[AttributeKey(name, GRPC)] else "")
    && r.url == (if AttributeKey(name, GRPC) in view then "peer:///" + name else "")
    && (forall a :: a in r.metadata <==> a != GRPC && AttributeKey(name, a) in view)
    && (forall a | a in r.metadata :: r.metadata[a] == view[AttributeKey(name, a)])
  }

  /** A peer without a record is one about which nothing is stored. */
  ghost predicate Agrees(records: Records, view: Attributes) {
    forall name :: RecordAgrees(RecordOf(records, name), name, view)
  }

  lemma EventKeepsRecord(records: Records, view: Attributes, e: Event, name: FullName)
    requires RecordAgrees(RecordOf(records, name), name, view)
    ensures RecordAgrees(RecordOf(After(records, e), name), name, Stored(view, e))
  {
    var view' := Stored(view, e);
    if name != e.key.peer {
      assert RecordOf(After(records, e), name) == RecordOf(records, name);
      assert forall a :: AttributeKey(name, a) in view' <==> AttributeKey(name, a) in view;
    }
  }

  /** Each event keeps the records in agreement with what is stored, whatever it is about. */
  lemma EventKeepsAgreement(records: Records, view: Attributes, e: Event)
    requires Agrees(records, view)
    ensures Agrees(After(records, e), Stored(view, e))
  {
    forall name ensures RecordAgrees(RecordOf(After(records, e), name), name, Stored(view, e)) {
      EventKeepsRecord(records, view, e, name);
    }
  }

  /** Once a snapshot is in agreement, so is every later state of the copy with the store at that revision. */
  lemma {:induction false} CopyAgrees(records: Records, snapshot: Attributes, events: seq<Event>)
    requires Agrees(records, snapshot)
    ensures Agrees(Replay(records, events), View(snapshot, events))
    decreases |events|
  {
    if events != [] {
      var before, e := events[..|events| - 1], events[|events| - 1];
      CopyAgrees(records, snapshot, before);
      EventKeepsAgreement(Replay(records, before), View(snapshot, before), e);
    }
  }

  /** Url and address are empty together exactly when the stored address, if there is one, is not the empty string. */
  lemma UrlFollowsAddress(records: Records, view: Attributes, name: FullName)
    requires Agrees(records, view) && name in records
    ensures (records[name].url == "" <==> records[name].address == "") <==>
            (AttributeKey(name, GRPC) in view ==> view[AttributeKey(name, GRPC)] != "")
  {
    assert RecordAgrees(RecordOf(records, name), name, view);
  }

  /** An empty record that is entered first changes nothing. */
  lemma NewRecordSame(records: Records, k: AttributeKey, v: string)
    requires k.peer !in records
    ensures AfterPut(records[k.peer := Record("", "", map[])], k, v) == AfterPut(records, k, v)
  {
  }

  class Peer {
    const fullName: FullName
    var address: string
    var url: string
    var metadata: map<Attribute, string>

    constructor (fullName: FullName)
      ensures this.fullName == fullName && address == "" && url == "" && metadata == map[]
    {
      this.fullName := fullName;
      address, url, metadata := "", "", map[];
    }

    function Value(): Record
      reads this
    {
      Record(address, url, metadata)
    }
  }

  class PeerRegistry {
    const appFullName: FullName
    var peers: map<FullName, Peer>
    var selfPeer: Peer?

    ghost var records: Records  // what the peers say, as values

    ghost predicate Valid()
      reads this, peers.Values
    {
      && Recorded()
      && (selfPeer != null ==> appFullName in peers && selfPeer == peers[appFullName])
      && (appFullName in peers && peers[appFullName].address != "" ==> selfPeer != null)
    }

    ghost predicate Recorded()
      reads `peers, `records, peers.Values
    {
      && records.Keys == peers.Keys
      && forall name | name in peers :: peers[name].fullName == name && peers[name].Value() == records[name]
    }

    constructor (appFullName: FullName)
      ensures Valid() && peers == map[] && records == map[] && this.appFullName == appFullName
    {
      this.appFullName, peers, selfPeer, records := appFullName, map[], null, map[];
    }

    method OnKvPut(k: AttributeKey, v: string)
      requires Valid()
      modifies `peers, `records, `selfPeer, peers.Values
      ensures Valid() && fresh(peers.Values - old(peers.Values))
      ensures records == AfterPut(old(records), k, v)
      ensures selfPeer != null <==> old(selfPeer) != null || k == AttributeKey(appFullName, "grpc")
      ensures forall name | name in old(peers) :: name in peers && peers[name] == old(peers)[name]
    {
      if k.peer !in peers {
        NewRecordSame(records, k, v);
        var peer := NewPeer(k.peer);
      }
      PutAttribute(peers[k.peer], k, v);
    }

    /** A record that is new has an empty address, so it takes the same branches. */
    method PutAttribute(peer: Peer, k: AttributeKey, v: string)
      requires Valid() && k.peer in peers && peers[k.peer] == peer
      modifies `selfPeer, `records, peer
      ensures Valid()
      ensures records == AfterPut(old(records), k, v)
      ensures selfPeer != null <==> old(selfPeer) != null || k == AttributeKey(appFullName, GRPC)
    {
      if k.attribute == GRPC {
        PutAddress(peer, v);
      } else {
        SetMetadata(peer, peer.metadata[k.attribute := v]);
      }
    }

    method PutAddress(peer: Peer, v: string)
      requires Valid() && peer.fullName in peers && peers[peer.fullName] == peer
      modifies `selfPeer, `records, peer`address, peer`url
      ensures Valid()
      ensures records == AfterPut(old(records), AttributeKey(peer.fullName, GRPC), v)
      ensures selfPeer != null <==> old(selfPeer) != null || peer.fullName == appFullName
    {
      if peer.address == "" {
        SetAddress(peer, v, UrlOf(peer.fullName));
        if peer.fullName == appFullName {
          selfPeer := peer;
        }
      } else if v != peer.address {
        SetAddress(peer, v, peer.url);
      }
    }

    method SetAddress(peer: Peer, address: string, url: string)
      requires Recorded() && peer.fullName in peers && peers[peer.fullName] == peer
      modifies `records, peer`address, peer`url
      ensures Recorded() && peer.address == address && peer.url == url
      ensures records == old(records)[peer.fullName := old(records)[peer.fullName].(address := address, url := url)]
    {
      peer.address := address;
      peer.url := url;
      records := records[peer.fullName := records[peer.fullName].(address := address, url := url)];
    }

    method SetMetadata(peer: Peer, metadata: map<Attribute, string>)
      requires Recorded() && peer.fullName in peers && peers[peer.fullName] == peer
      modifies `records, peer`metadata
      ensures Recorded() && peer.metadata == metadata
      ensures records == old(records)[peer.fullName := old(records)[peer.fullName].(metadata := metadata)]
    {
      peer.metadata := metadata;
      records := records[peer.fullName := records[peer.fullName].(metadata := metadata)];
    }

    method NewPeer(name: FullName) returns (peer: Peer)
      requires Valid() && name !in peers
      modifies this`peers, this`records
      ensures Valid() && fresh(peer) && peers == old(peers)[name := peer] && fresh(peers.Values - old(peers.Values))
      ensures records == old(records)[name := Record("", "", map[])]
    {
      peer := new Peer(name);
      peers, records := peers[name := peer], records[name := Record("", "", map[])];
    }

    method OnKvDelete(k: AttributeKey)
      requires Valid()
      modifies this`records, peers.Values
      ensures Valid()
      ensures records == AfterDelete(old(records), k)
    {
      if k.peer in peers {
        DeleteAttribute(peers[k.peer], k);
      }
    }

    method DeleteAttribute(last: Peer, k: AttributeKey)
      requires Valid() && k.peer in peers && peers[k.peer] == last
      modifies `records, last
      ensures Valid()
      ensures records == AfterDelete(old(records), k)
    {
      if k.attribute == GRPC {
        SetAddress(last, "", "");
      } else if k.attribute in last.metadata {
        SetMetadata(last, last.metadata - {k.attribute});
      } else {
        assert last.metadata - {k.attribute} == last.metadata;
      }
    }

    /** The snapshot is taken in key by key, in whatever order the keys come. */
    method InitPeers(snapshot: Attributes)
      requires Valid() && peers == map[]
      modifies this
      ensures Valid() && Agrees(records, snapshot)
    {
      var todo := snapshot.Keys;
      ghost var done := map[];
      while todo != {}
        invariant Valid() && fresh(peers.Values) && Agrees(records, done)
        invariant todo <= snapshot.Keys && done.Keys == snapshot.Keys - todo
        invariant forall k | k in done :: done[k] == snapshot[k]
        decreases todo
      {
        var k :| k in todo;
        todo := todo - {k};
        EventKeepsAgreement(records, done, Put(k, snapshot[k]));
        done := done[k := snapshot[k]];
        OnKvPut(k, snapshot[k]);
      }
      assert done == snapshot;
    }

    method WatchPeers(events: seq<Event>)
      requires Valid()
      modifies this, peers.Values
      ensures Valid() && records == Replay(old(records), events)
    {
      for i := 0 to |events|
        invariant Valid() && fresh(peers.Values - old(peers.Values))
        invariant records == Replay(old(records), events[..i])
      {
        assert events[..i + 1][..i] == events[..i];
        match events[i]
        case Put(k, v) => OnKvPut(k, v);
        case Delete(k) => OnKvDelete(k);
      }
      assert events[..|events|] == events;
    }
  }
}
