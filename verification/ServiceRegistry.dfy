/**
 The service registry of one node (registry/service.go): its table of services, the services
 it has registered itself, and the word trie that indexes the table.
 */
module ServiceRegistry {
  import opened Prelude
  import opened Etcd
  import opened Services
  import opened TrieModel
  import Trie
  import W = Watch

  datatype Error = InvalidService | PeerNotFound | RpcFailed | ServiceLocked | Panic

  datatype Service = Service(peer: Node, isSelf: bool, createRevision: nat)

  /** `asApp` appends the application id, as for a service that each application has. */
  function NewServiceName(baseName: seq<Word>, asApp: Option<Word>): seq<Word> {
    if asApp.None? then baseName else baseName + [asApp.value]
  }

  /** Two applications get the same name only from the same base name and the same id, and never the base name. */
  lemma NewNamesDiffer(baseName: seq<Word>, id: Word, baseName': seq<Word>, id': Word)
    ensures NewServiceName(baseName, Some(id)) == NewServiceName(baseName', Some(id')) <==>
            baseName == baseName' && id == id'
    ensures NewServiceName(baseName, Some(id)) != NewServiceName(baseName, None) == baseName
    ensures NewServiceName(baseName, None) == NewServiceName(baseName', None) <==> baseName == baseName'
    ensures baseName < NewServiceName(baseName, Some(id))
  {
    var name, name' := NewServiceName(baseName, Some(id)), NewServiceName(baseName', Some(id'));
    if name == name' {
      assert name[..|name| - 1] == baseName && name'[..|name'| - 1] == baseName';
    }
  }

  /** The name is there afterwards, and of other names exactly those that were. */
  ghost predicate OnlyAdds(name: Name, before: set<Name>, after: set<Name>) {
    name in after && forall n | n != name :: n in after <==> n in before
  }

  /** Both keys of the registration of the name by a are new, and no key of another name changes. */
  ghost predicate MakesOwner(s: ServiceDb, s': ServiceDb, a: Node, name: Name) {
    && s'.Holds(ServiceKey(name), a) && s'.Holds(PeerServiceKey(a, name), a)
    && s'.revision == s.revision + 1
    && (forall n | n != name :: ServiceKey(n) in s'.kvs <==> ServiceKey(n) in s.kvs)
    && (forall b, n | n != name :: PeerServiceKey(b, n) in s'.kvs <==> PeerServiceKey(b, n) in s.kvs)
  }

  lemma RegisterWrites(s: ServiceDb, a: Node, name: Name)
    requires RegisterGuard(s, name)
    ensures MakesOwner(s, RegisterTxn(s, a, name), a, name)
  {
  }

  /** One or two words, none of them empty. */
  predicate ValidName(n: seq<Word>) {
    1 <= |n| <= 2 && "" !in n
  }

  function Owners(services: map<Name, Service>): map<Name, Node> {
    map n | n in services :: PeerIn(services, n)
  }

  function PeerIn(services: map<Name, Service>, n: Name): Node {
    if n in services then services[n].peer else Node("", 0)
  }

  /** `LoadOrStore`: an entry that is there stays. */
  function LoadOrStored(services: map<Name, Service>, n: Name, x: Service): map<Name, Service> {
    if n in services then services else services[n := x]
  }

  /** What a put event does to the owners in the table is what Watch.Cached says. */
  lemma StoredIsCached(services: map<Name, Service>, n: Name, x: Service)
    ensures Owners(LoadOrStored(services, n, x)) == W.Cached(Owners(services), W.Put(n, x.peer))
  {
    assert Owners(services[n := x]) == Owners(services)[n := x.peer];
  }

  /** And so for a delete event. */
  lemma RemovedIsCached(services: map<Name, Service>, n: Name)
    ensures Owners(services - {n}) == W.Cached(Owners(services), W.Delete(n))
  {
  }

  /** The stored paths are the names in the table, each under its own words. */
  ghost predicate Indexes(stored: map<seq<Word>, Path>, services: map<Name, Service>) {
    stored.Keys == services.Keys && forall n | n in services :: stored[n] == n
  }

  ghost function AsRead(e: Entry<Node>, a: Node): Service {
    Service(e.value, e.value == a, 0)
  }

  /** The table says what the store says; entries read back carry revision 0. */
  ghost predicate IsTableOf(services: map<Name, Service>, s: ServiceDb, a: Node) {
    && (forall n :: n in services <==> ServiceKey(n) in s.kvs)
    && (forall n | n in services :: services[n] == AsRead(s.kvs[ServiceKey(n)], a))
  }

  /** The node's own services are those entries of the table that it owns. */
  ghost predicate IsOwnPart(own: map<Name, Service>, services: map<Name, Service>) {
    && (forall n :: n in own <==> n in services && services[n].isSelf)
    && (forall n | n in own :: own[n] == services[n])
  }

  lemma OwnPartGrows(own: map<Name, Service>, services: map<Name, Service>, n: Name, x: Service)
    requires IsOwnPart(own, services) && n !in services
    ensures IsOwnPart(if x.isSelf then own[n := x] else own, services[n := x])
  {
  }

  /** A service key that can be read has a name of one or two words and a known owner. */
  predicate Readable(s: ServiceDb, peers: set<Node>, k: ServiceStoreKey)
    requires k in s.kvs
  {
    1 <= |k.name| <= 2 && s.kvs[k].value in peers
  }

  ghost predicate AllReadable(s: ServiceDb, peers: set<Node>) {
    forall k | k in s.kvs && k.ServiceKey? :: Readable(s, peers, k)
  }

  /** What the table is when all keys but those in `todo` have been read. */
  ghost predicate ReadSoFar(
    services: map<Name, Service>, s: ServiceDb, a: Node, peers: set<Node>, todo: set<ServiceStoreKey>)
  {
    && (forall k | k in todo :: k in s.kvs && k.ServiceKey?)
    && (forall k | k in s.kvs && k.ServiceKey? && k !in todo :: Readable(s, peers, k))
    && (forall n :: n in services <==> ServiceKey(n) in s.kvs && ServiceKey(n) !in todo)
    && (forall n | n in services :: services[n] == AsRead(s.kvs[ServiceKey(n)], a))
  }

  lemma OneRead(
    services: map<Name, Service>, s: ServiceDb, a: Node, peers: set<Node>, todo: set<ServiceStoreKey>,
    k: ServiceStoreKey)
    requires ReadSoFar(services, s, a, peers, todo + {k}) && k !in todo
    ensures k in s.kvs && k.ServiceKey? && k.name !in services
    ensures Readable(s, peers, k) ==>
              ReadSoFar(services[k.name := Service(s.kvs[k].value, s.kvs[k].value == a, 0)], s, a, peers, todo)
  {
    assert k in todo + {k} && k == ServiceKey(k.name);
  }

  /** The names in the table that a query asks for. */
  ghost function NamesFor(services: map<Name, Service>, q: Query): set<Name> {
    if q.Nothing? then {} else set n | n in services && q.words < n
  }

  /** The keys that a shutdown over `entries` takes away. */
  ghost function ShutdownKeys(s: ServiceDb, a: Node, entries: map<Name, Service>, sent: set<Name>)
    : set<ServiceStoreKey>
  {
    set k | k in s.kvs && k.name in entries && k.name in sent && k in PairOf(a, k.name)
         && ShutdownGuard(s, k.name, entries[k.name].createRevision)
  }

  class Registry {
    const self: Node
    const server: Server<ServiceStoreKey, Node>
    const prefixIndex: Trie.WordTrie
    var services: map<Name, Service>
    var selfServices: map<Name, Service>
    var peers: set<Node>  // nodes the peer registry knows, this one among them

    /** The index holds exactly the names in the table. */
    ghost predicate Valid()
      reads this, prefixIndex, prefixIndex.live
    {
      && prefixIndex.Valid() && self in peers
      && (forall n | n in services :: ValidName(n))
      && Indexes(Stored(prefixIndex.tree), services)
    }

    constructor (self: Node, server: Server<ServiceStoreKey, Node>)
      ensures Valid() && services == map[] && selfServices == map[]
      ensures this.self == self && this.server == server && fresh(prefixIndex) && fresh(prefixIndex.live)
    {
      this.self, this.server := self, server;
      prefixIndex := new Trie.WordTrie();
      services, selfServices, peers := map[], map[], {self};
    }

    // ---------------------------------------------------------------- the table and its index

    /** `services.LoadOrStore` and the index insertion that goes with it. */
    method AddToTable(name: Name, service: Service)
      requires Valid() && ValidName(name)
      modifies this`services, prefixIndex, prefixIndex.live
      ensures Valid() && fresh(prefixIndex.live - old(prefixIndex.live))
      ensures services == LoadOrStored(old(services), name, service)
    {
      if name !in services {
        services := services[name := service];
      }
      assert Strip(name) == name && "" !in name[1..];
      var err := prefixIndex.Add(name);
    }

    method RemoveFromTable(name: Name)
      requires Valid() && ValidName(name)
      modifies this`services, prefixIndex, prefixIndex.live
      ensures Valid() && prefixIndex.live <= old(prefixIndex.live)
      ensures services == old(services) - {name}
    {
      services := services - {name};
      assert Strip(name) == name;
      var err := prefixIndex.Delete(name);
    }

    // ---------------------------------------------------------------- watch events

    /** A put event: ignored when the name is known; `words` is what follows the prefix of the key. */
    method OnKvAdd(words: seq<Word>, owner: Node) returns (err: Option<Error>)
      requires Valid() && "" !in words
      modifies this`services, this`selfServices, prefixIndex, prefixIndex.live
      ensures Valid() && fresh(prefixIndex.live - old(prefixIndex.live))
      ensures err == if |words| != 1 && |words| != 2 then Some(InvalidService)
                     else if words !in old(services) && owner !in peers then Some(PeerNotFound)
                     else None
      ensures services == if err.None? then LoadOrStored(old(services), words, Service(owner, owner == self, 0))
                          else old(services)
      ensures selfServices == if err.None? && words !in old(services) && owner == self
                              then old(selfServices)[words := Service(self, true, 0)]
                              else old(selfServices)
    {
      if |words| != 1 && |words| != 2 {
        return Some(InvalidService);
      }
      if words in services {
        return None;
      }
      if owner !in peers {
        return Some(PeerNotFound);
      }
      var service := Service(owner, owner == self, 0);
      if service.isSelf {
        selfServices := selfServices[words := service];
      }
      AddToTable(words, service);
      return None;
    }

    /** A delete event. */
    method OnKvDelete(words: seq<Word>) returns (err: Option<Error>)
      requires Valid() && "" !in words
      modifies this`services, this`selfServices, prefixIndex, prefixIndex.live
      ensures Valid() && prefixIndex.live <= old(prefixIndex.live)
      ensures err == if |words| == 0 then Some(InvalidService) else None
      ensures services == old(services) - {words}
      ensures selfServices == if words in old(services) && old(services)[words].isSelf
                              then old(selfServices) - {words}
                              else old(selfServices)
    {
      if |words| == 0 {
        return Some(InvalidService);
      }
      if words in services {
        if services[words].isSelf {
          selfServices := selfServices - {words};
        }
        RemoveFromTable(words);
      }
      return None;
    }

    // ---------------------------------------------------------------- calls

    /** The known peer that owns a service, if any. */
    function OwnerOf(n: Name): Option<Node>
      reads this, server
    {
      if ServiceKey(n) in server.store.kvs && server.store.kvs[ServiceKey(n)].value in peers
      then Some(server.store.kvs[ServiceKey(n)].value)
      else None
    }

    method RegisterService(baseName: seq<Word>, asApp: Option<Word>, fate: Fate)
      returns (peer: Option<Node>, err: Option<Error>)
      requires Valid() && baseName != [] && "" !in baseName && asApp != Some("")
      modifies this`services, this`selfServices, prefixIndex, prefixIndex.live, server
      ensures Valid() && fresh(prefixIndex.live - old(prefixIndex.live))
      ensures var name, s := NewServiceName(baseName, asApp), old(server.store);
              var entry := Service(self, true, server.store.revision);
              var registered := |name| <= 2 && fate.Replied? && RegisterGuard(s, name);
              && server.store == (if |name| > 2 || fate.RequestLost? then s else RegisterTxn(s, self, name))
              && services == (if registered then LoadOrStored(old(services), name, entry) else old(services))
              && selfServices == (if registered then old(selfServices)[name := entry] else old(selfServices))
              && (|name| > 2 ==> peer == None && err == Some(InvalidService))
              && (|name| <= 2 && !fate.Replied? ==> peer == None && err == Some(RpcFailed))
              && (registered ==> peer == None && err == None)
              && (|name| <= 2 && fate.Replied? && !RegisterGuard(s, name) ==>
                    && err == Some(ServiceLocked)
                    && forall b :: peer == Some(b) <==> s.Holds(ServiceKey(name), b) && b in peers)
      ensures var name := if asApp == None then baseName else baseName + [asApp.value];
              && (|name| <= 2 && fate.Replied? && old(server.store).Sane() ==>
                    (err == None <==> ServiceKey(name) !in old(server.store).kvs))
              && (err == None ==>
                    && OnlyAdds(name, old(services).Keys, services.Keys)
                    && OnlyAdds(name, old(selfServices).Keys, selfServices.Keys)
                    && selfServices[name] == Service(self, true, server.store.revision)
                    && MakesOwner(old(server.store), server.store, self, name))
    {
      var name := NewServiceName(baseName, asApp);
      if |name| > 2 {
        return None, Some(InvalidService);
      }
      var succeeded;
      peer, err, succeeded := CommitRegistration(name, fate);
      if succeeded {
        RegisterWrites(old(server.store), self, name);
        EnterOwn(name, Service(self, true, server.store.revision));
      }
    }

    /** A successful registration enters the own services, the table and the index. */
    method EnterOwn(name: Name, service: Service)
      requires Valid() && ValidName(name)
      modifies this`services, this`selfServices, prefixIndex, prefixIndex.live
      ensures Valid() && fresh(prefixIndex.live - old(prefixIndex.live))
      ensures services == LoadOrStored(old(services), name, service)
      ensures selfServices == old(selfServices)[name := service]
    {
      selfServices := selfServices[name := service];
      AddToTable(name, service);
    }

    /** The transaction of `RegisterService` and what the caller learns of it. */
    method CommitRegistration(name: Name, fate: Fate)
      returns (peer: Option<Node>, err: Option<Error>, succeeded: bool)
      modifies server
      ensures var s := old(server.store);
              && server.store == (if fate.RequestLost? then s else RegisterTxn(s, self, name))
              && succeeded == (fate.Replied? && RegisterGuard(s, name))
              && (!fate.Replied? ==> peer == None && err == Some(RpcFailed))
              && (succeeded ==> peer == None && err == None)
              && (fate.Replied? && !succeeded ==>
                    && err == Some(ServiceLocked)
                    && forall b :: peer == Some(b) <==> s.Holds(ServiceKey(name), b) && b in peers)
    {
      if fate.RequestLost? {
        return None, Some(RpcFailed), false;
      }
      peer := OwnerOf(name);
      succeeded := server.store.CreateRevision(ServiceKey(name)) == 0;
      if succeeded {
        server.store := server.store.PutAll(map[ServiceKey(name) := self, PeerServiceKey(self, name) := self]);
      }
      if fate.ReplyLost? {
        return None, Some(RpcFailed), false;
      }
      if !succeeded {
        return peer, Some(ServiceLocked), false;
      }
      return None, None, true;
    }

    /** The refusal path logs the first pair of its range read, which is not there when nobody owns the service. */
    method UnregisterService(name: Name, fate: Fate) returns (peer: Option<Node>, err: Option<Error>)
      modifies server
      ensures server.store == if fate.RequestLost? then old(server.store)
                              else UnregisterTxn(old(server.store), self, name)
      ensures !fate.Replied? ==> peer == None && err == Some(RpcFailed)
      ensures fate.Replied? ==>
                var s := old(server.store);
                if UnregisterGuard(s, self, name) then peer == None && err == None
                else if ServiceKey(name) !in s.kvs then peer == None && err == Some(Panic)
                else
                  && err == Some(ServiceLocked)
                  && forall b :: peer == Some(b) <==> s.Holds(ServiceKey(name), b) && b in peers
      ensures fate.Replied? && old(server.store).Sane() ==>
                (err == None <==> old(server.store).Holds(ServiceKey(name), self))
    {
      if fate.RequestLost? {
        return None, Some(RpcFailed);
      }
      peer := OwnerOf(name);
      var s := server.store;
      var succeeded := s.Holds(ServiceKey(name), self) && s.CreateRevision(ServiceKey(name)) != 0;
      if succeeded {
        server.store := s.DeleteAll({PeerServiceKey(self, name), ServiceKey(name)});
      }
      if fate.ReplyLost? {
        return None, Some(RpcFailed);
      }
      if succeeded {
        return None, None;
      }
      if ServiceKey(name) !in s.kvs {
        return None, Some(Panic);
      }
      return peer, Some(ServiceLocked);
    }

    /** The shutdown, in whatever order the entries are visited: each is removed only at the revision it carries. */
    method UnregisterServices(fate: Name -> Fate)
      modifies server
      ensures server.store.kvs == old(server.store.kvs)
              - ShutdownKeys(old(server.store), self, selfServices, set n | n in selfServices && !fate(n).RequestLost?)
      ensures old(server.store).Sane() && Paired(old(server.store)) ==>
                forall k | k in old(server.store).kvs :: k !in server.store.kvs <==>
                  && k.name in selfServices && !fate(k.name).RequestLost?
                  && ServiceKey(k.name) in old(server.store).kvs
                  && old(server.store).kvs[ServiceKey(k.name)].createRevision == selfServices[k.name].createRevision
                  && (k == ServiceKey(k.name) || k == PeerServiceKey(self, k.name))
    {
      var todo := selfServices.Keys;
      ghost var s, done := server.store, {};
      while todo != {}
        invariant todo <= selfServices.Keys && done == selfServices.Keys - todo
        invariant server.store.kvs
                  == s.kvs - ShutdownKeys(s, self, selfServices, set n | n in done && !fate(n).RequestLost?)
        decreases todo
      {
        var n :| n in todo;
        todo, done := todo - {n}, done + {n};
        ghost var before := set m | m in done - {n} && !fate(m).RequestLost?;
        assert (set m | m in done && !fate(m).RequestLost?) == if fate(n).RequestLost? then before else before + {n};
        ShutdownKeysOfOne(s, self, selfServices, before, n);
        if !fate(n).RequestLost? && server.store.CreateRevision(ServiceKey(n)) == selfServices[n].createRevision {
          server.store := server.store.DeleteAll({ServiceKey(n), PeerServiceKey(self, n)});
        }
      }
      if s.Sane() && Paired(s) {
        ShutdownKeysAre(s, self, selfServices, set n | n in selfServices && !fate(n).RequestLost?);
      }
    }

    /**
     Start-up: first the names left over from an earlier process are cleaned away, then the
     table is read. `reachable` says whether the store answers throughout.
     */
    method InitServices(reachable: bool) returns (err: Option<Error>)
      requires Valid() && services == map[] && selfServices == map[]
      requires forall k | k in server.store.kvs :: "" !in k.name
      modifies this`services, this`selfServices, prefixIndex, prefixIndex.live, server
      ensures Valid() && fresh(prefixIndex.live - old(prefixIndex.live))
      ensures !reachable ==> err == Some(RpcFailed) && server.store == old(server.store)
      ensures reachable ==> server.store.kvs == old(server.store.kvs) - CleanupKeys(old(server.store), self)
      ensures reachable ==> (err == None <==> AllReadable(server.store, peers))
      ensures err == None ==> IsTableOf(services, server.store, self) && IsOwnPart(selfServices, services)
    {
      if !reachable {
        return Some(RpcFailed);
      }
      CleanUp();
      err := ReadTable();
    }

    method ReadTable() returns (err: Option<Error>)
      requires Valid() && services == map[] && selfServices == map[]
      requires forall k | k in server.store.kvs :: "" !in k.name
      modifies this`services, this`selfServices, prefixIndex, prefixIndex.live
      ensures Valid() && fresh(prefixIndex.live - old(prefixIndex.live))
      ensures err == None <==> AllReadable(server.store, peers)
      ensures err == None ==> IsTableOf(services, server.store, self) && IsOwnPart(selfServices, services)
    {
      var todo := set k | k in server.store.kvs && k.ServiceKey?;
      while todo != {}
        invariant Valid() && forall n | n in prefixIndex.live && n !in old(prefixIndex.live) :: fresh(n)
        invariant ReadSoFar(services, server.store, self, peers, todo) && IsOwnPart(selfServices, services)
        decreases todo
      {
        var k :| k in todo;
        err := ReadOne(k, todo);
        if err.Some? {
          return err;
        }
        todo := todo - {k};
      }
      return None;
    }

    /** One round of the loop over the service keys. */
    method ReadOne(k: ServiceStoreKey, ghost todo: set<ServiceStoreKey>) returns (err: Option<Error>)
      requires Valid() && k in todo && ReadSoFar(services, server.store, self, peers, todo) && "" !in k.name
      requires IsOwnPart(selfServices, services)
      modifies this`services, this`selfServices, prefixIndex, prefixIndex.live
      ensures Valid() && forall n | n in prefixIndex.live && n !in old(prefixIndex.live) :: fresh(n)
      ensures k in server.store.kvs && (err == None <==> Readable(server.store, peers, k))
      ensures err == None ==>
                ReadSoFar(services, server.store, self, peers, todo - {k}) && IsOwnPart(selfServices, services)
    {
      assert todo - {k} + {k} == todo;
      OneRead(services, server.store, self, peers, todo - {k}, k);
      var owner := server.store.kvs[k].value;
      OwnPartGrows(selfServices, services, k.name, Service(owner, owner == self, 0));
      err := OnKvAdd(k.name, owner);
    }

    method CleanUp()
      modifies server
      ensures server.store.kvs == old(server.store.kvs) - CleanupKeys(old(server.store), self)
    {
      var names := set k | k in server.store.kvs && k.PeerServiceKey? && k.node == self :: k.name;
      ghost var s, done := server.store, {};
      var todo := names;
      while todo != {}
        invariant todo <= names && done == names - todo
        invariant server.store.kvs == s.kvs - KeysOf(s, self, done)
        decreases todo
      {
        var n :| n in todo;
        todo, done := todo - {n}, done + {n};
        if server.store.CreateRevision(ServiceKey(n)) != 0 {
          server.store := server.store.DeleteAll({PeerServiceKey(self, n), ServiceKey(n)});
        }
      }
    }

    /**
     Where a service is. With `byIndex` (a catalog or prefix lookup) every name that strictly
     extends the query is answered once, in some order, up to `maxCount` when that is positive;
     `names` are the names found.
     */
    method WhereIsService(query: Path, byIndex: bool, maxCount: int) returns (peers: seq<Node>, names: seq<Path>)
      requires Valid()
      ensures !byIndex ==> names == (if query in services then [query] else [])
      ensures byIndex ==> multiset(names) == multiset(NamesFor(services, QueryOf(query)))
      ensures forall words | byIndex && Spells(query, words) ::
                multiset(names) == multiset(set n | n in services && words < n)
      ensures byIndex && |query| >= 2 && query[0] == "" && query[1] == "" ==>
                multiset(names) == multiset(services.Keys)
      ensures |peers| == if byIndex && 0 < maxCount < |names| then maxCount else |names|
      ensures forall i | 0 <= i < |peers| :: names[i] in services && peers[i] == services[names[i]].peer
    {
      peers := [];
      if !byIndex {
        if query in services {
          return [services[query].peer], [query];
        }
        return [], [];
      }
      QueryMeans(query);
      assert forall n | n in services :: [] < n;
      assert (set n | n in services && [] < n) == services.Keys;
      var arr := prefixIndex.Search(query);
      names := arr;
      AnswersAreNames(Stored(prefixIndex.tree), services, QueryOf(query), arr);
      peers := Multicast(arr, maxCount);
    }

    /** The loop of a lookup by index. */
    method Multicast(arr: seq<Path>, maxCount: int) returns (peers: seq<Node>)
      requires forall i | 0 <= i < |arr| :: arr[i] in services
      ensures |peers| == if 0 < maxCount < |arr| then maxCount else |arr|
      ensures forall i | 0 <= i < |peers| :: peers[i] == services[arr[i]].peer
    {
      peers := [];
      var multicastCount := maxCount;
      for i := 0 to |arr|
        invariant |peers| == i && (maxCount > 0 ==> multicastCount == maxCount - i > 0)
        invariant maxCount <= 0 ==> multicastCount <= 0
        invariant forall j | 0 <= j < i :: peers[j] == services[arr[j]].peer
      {
        if arr[i] in services {
          peers := peers + [services[arr[i]].peer];
          if multicastCount > 0 {
            multicastCount := multicastCount - 1;
            if multicastCount <= 0 {
              break;
            }
          }
        }
      }
    }
  }

  /** The keys that cleaning up some names takes away. */
  ghost function KeysOf(s: ServiceDb, a: Node, names: set<Name>): set<ServiceStoreKey> {
    set k | k in s.kvs && k.name in names && k in PairOf(a, k.name) && CleanupGuard(s, k.name)
  }

  /** What a start-up cleans away. */
  ghost function CleanupKeys(s: ServiceDb, a: Node): set<ServiceStoreKey> {
    set k | k in s.kvs && PeerServiceKey(a, k.name) in s.kvs && k in PairOf(a, k.name) && CleanupGuard(s, k.name)
  }

  /** In a paired store these are both keys of exactly the names whose service key has the revision of the entry. */
  lemma ShutdownKeysAre(s: ServiceDb, a: Node, entries: map<Name, Service>, sent: set<Name>)
    requires s.Sane() && Paired(s)
    ensures forall k | k in s.kvs :: k in ShutdownKeys(s, a, entries, sent) <==>
              && k.name in entries && k.name in sent && ServiceKey(k.name) in s.kvs
              && s.kvs[ServiceKey(k.name)].createRevision == entries[k.name].createRevision
              && (k == ServiceKey(k.name) || k == PeerServiceKey(a, k.name))
  {
    assert forall n | PeerServiceKey(a, n) in s.kvs :: s.Holds(ServiceKey(n), a);
  }

  lemma ShutdownKeysOfOne(s: ServiceDb, a: Node, entries: map<Name, Service>, sent: set<Name>, n: Name)
    requires n in entries
    ensures ShutdownKeys(s, a, entries, sent + {n}) ==
            ShutdownKeys(s, a, entries, sent)
            + if ShutdownGuard(s, n, entries[n].createRevision) then PairOf(a, n) * s.kvs.Keys else {}
  {
  }

  /** An index that agrees with the table answers with the names in the table. */
  lemma AnswersAreNames(stored: map<seq<Word>, Path>, services: map<Name, Service>, q: Query, matches: seq<Path>)
    requires Indexes(stored, services) && Answers(stored, q, matches)
    ensures multiset(matches) == multiset(NamesFor(services, q))
    ensures forall i | 0 <= i < |matches| :: matches[i] in services
  {
    if q.Extensions? {
      var a := set p | p in stored && q.words < p :: stored[p];
      forall n ensures n in a <==> n in NamesFor(services, q) {
        if n in NamesFor(services, q) {
          assert n in stored && stored[n] == n;
        }
      }
      assert a == NamesFor(services, q);
    }
    forall i | 0 <= i < |matches| ensures matches[i] in services {
      assert matches[i] in multiset(matches);
      assert matches[i] in multiset(NamesFor(services, q));
      assert matches[i] in NamesFor(services, q);
    }
  }

  /** The key is one of a registration of the node. */
  ghost predicate IsOwn(s: ServiceDb, a: Node, k: ServiceStoreKey)
    requires k in s.kvs
  {
    if k.ServiceKey? then s.kvs[k].value == a else k.node == a
  }

  /** A node's own entries in a paired store are exactly what its start-up removes. */
  lemma CleanupIsOwn(s: ServiceDb, a: Node)
    requires s.Sane() && Paired(s)
    ensures forall k | k in s.kvs :: k in CleanupKeys(s, a) <==> IsOwn(s, a, k)
  {
    forall k | k in s.kvs ensures k in CleanupKeys(s, a) <==> IsOwn(s, a, k) {
      assert s.Holds(ServiceKey(k.name), a) <==> PeerServiceKey(a, k.name) in s.kvs;
      assert k.PeerServiceKey? ==> s.Holds(ServiceKey(k.name), k.node);
    }
  }
}
