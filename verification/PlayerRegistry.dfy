/**
 The calls of registry/player.go on one node: each updates the node's `localPlayers` and
 commits transactions of the protocol in Players.dfy to the shared store.
 */
module PlayerRegistry {
  import opened Prelude
  import opened Etcd
  import opened Players

  datatype Error = RpcFailed | UserLocked | UserNotFound | PeerNotFound | InvalidValue

  /** The keys that a shutdown sweep over `users` takes away: whole locks of node a, and nothing else. */
  ghost function SweptKeys(s: Db, a: Node, users: set<UserId>): set<Key> {
    set k | k in s.kvs && k.user in users && SweepGuard(s, a, k.user) && k in OwnKeys(a, k.user)
  }

  /** They are the keys of exactly those users whose local key of the node is there. */
  lemma SweptKeysAre(s: Db, a: Node, users: set<UserId>)
    requires s.Sane()
    ensures forall k | k in s.kvs :: k in SweptKeys(s, a, users) <==>
              && k.user in users && LocalKey(a, k.user) in s.kvs
              && (k == LocalKey(a, k.user) || k == PeerKey(a.appType, k.user) || k == UserKey(k.user))
  {
  }

  lemma SweptKeysOfOne(s: Db, a: Node, users: set<UserId>, u: UserId)
    ensures SweptKeys(s, a, users + {u}) ==
            SweptKeys(s, a, users) + if SweepGuard(s, a, u) then OwnKeys(a, u) * s.kvs.Keys else {}
  {
  }

  /** The node's local keys all hold login times. */
  ghost predicate AllTimes(s: Db, a: Node) {
    forall u | LocalKey(a, u) in s.kvs :: s.kvs[LocalKey(a, u)].value.LoginTime?
  }

  ghost function ReadBack(e: Entry<Value>): LocalPlayer {
    LocalPlayer(if e.value.LoginTime? then e.value.time else 0, e.createRevision)
  }

  /** What the entries are when the local keys of all users but those in `todo` have been read. */
  ghost predicate ReadSoFar(
    s: Db, a: Node, before: map<UserId, LocalPlayer>, todo: set<UserId>, players: map<UserId, LocalPlayer>)
  {
    && (forall u | u in todo :: LocalKey(a, u) in s.kvs)
    && (forall u | LocalKey(a, u) in s.kvs && u !in todo :: s.kvs[LocalKey(a, u)].value.LoginTime?)
    && (forall u :: u in players <==> u in before || (LocalKey(a, u) in s.kvs && u !in todo))
    && (forall u | u in players ::
          players[u] == if u in before then before[u] else ReadBack(s.kvs[LocalKey(a, u)]))
  }

  lemma OneRead(
    s: Db, a: Node, before: map<UserId, LocalPlayer>, todo: set<UserId>, players: map<UserId, LocalPlayer>, u: UserId)
    requires ReadSoFar(s, a, before, todo + {u}, players) && u !in todo
    ensures LocalKey(a, u) in s.kvs
    ensures s.kvs[LocalKey(a, u)].value.LoginTime? ==>
              ReadSoFar(s, a, before, todo,
                        if u in players then players else players[u := ReadBack(s.kvs[LocalKey(a, u)])])
  {
    assert u in todo + {u};
  }

  lemma AllRead(s: Db, a: Node, before: map<UserId, LocalPlayer>, players: map<UserId, LocalPlayer>)
    requires ReadSoFar(s, a, before, {}, players)
    ensures AllTimes(s, a) && players == SnapshotOf(s, a) + before
  {
    SnapshotKeys(s, a);
  }

  lemma SnapshotKeys(s: Db, a: Node)
    ensures forall u :: u in SnapshotOf(s, a) <==>
              LocalKey(a, u) in s.kvs && s.kvs[LocalKey(a, u)].value.LoginTime?
  {
  }

  class Registry {
    const self: Node
    const server: Server<Key, Value>
    var localPlayers: map<UserId, LocalPlayer>
    var peers: set<Node>  // nodes the peer registry knows

    constructor (self: Node, server: Server<Key, Value>)
      ensures this.self == self && this.server == server && localPlayers == map[] && peers == {}
    {
      this.self, this.server := self, server;
      localPlayers, peers := map[], {};
    }

    /** The known peer that a key names, if any. */
    function PeerAt(k: Key): Option<Node>
      reads this, server
    {
      if k in server.store.kvs && server.store.kvs[k].value.Owner? && server.store.kvs[k].value.node in peers then
        Some(server.store.kvs[k].value.node)
      else
        None
    }

    method LockLocalUser(user: UserId, now: int, fate: Fate) returns (peer: Option<Node>, err: Option<Error>)
      modifies this`localPlayers, server
      ensures server.store == if fate.RequestLost? then old(server.store)
                              else LockTxn(old(server.store), self, user, now)
      ensures localPlayers ==
              if fate.Replied? && LockGuard(old(server.store), self, user)
              then old(localPlayers)[user := LocalPlayer(now, server.store.revision)]
              else old(localPlayers)
      ensures !fate.Replied? ==> err == Some(RpcFailed) && peer == None
      ensures fate.Replied? ==>
                if LockGuard(old(server.store), self, user) then err == None && peer == None
                else
                  && err == Some(UserLocked)
                  && forall b :: peer == Some(b) <==>
                       old(server.store).Holds(PeerKey(self.appType, user), Owner(b)) && b in peers
      ensures fate.Replied? && Good(old(server.store)) ==>
                (err == None <==>
                 forall b: Node | b.appType == self.appType :: LocalKey(b, user) !in old(server.store).kvs)
    {
      var s := server.store;
      if fate.RequestLost? {
        return None, Some(RpcFailed);
      }
      var succeeded := s.CreateRevision(PeerKey(self.appType, user)) == 0;
      if succeeded {
        server.store := s.PutAll(map[
          UserKey(user) := Owner(self),
          LocalKey(self, user) := LoginTime(now),
          PeerKey(self.appType, user) := Owner(self)]);
      }
      if fate.ReplyLost? {
        return None, Some(RpcFailed);
      }
      if succeeded {
        localPlayers := localPlayers[user := LocalPlayer(now, server.store.revision)];
        return None, None;
      }
      peer := PeerAt(PeerKey(self.appType, user));
      return peer, Some(UserLocked);
    }

    method UnlockLocalUser(user: UserId, fate: Fate) returns (peer: Option<Node>, err: Option<Error>)
      modifies this`localPlayers, server
      ensures user !in old(localPlayers) ==>
                && server.store == old(server.store) && localPlayers == old(localPlayers)
                && peer == None && err == Some(UserNotFound)
      ensures user in old(localPlayers) ==>
                var p := old(localPlayers)[user];
                var freed := UnlockGuard(old(server.store), user, p);
                && server.store == (if fate.RequestLost? then old(server.store)
                                    else UnlockTxn(old(server.store), self, user, p))
                && localPlayers == (if fate.Replied? && freed then old(localPlayers) - {user} else old(localPlayers))
                && (!fate.Replied? ==> peer == None && err == Some(RpcFailed))
                && (fate.Replied? && freed ==> peer == None && err == None)
                && (fate.Replied? && !freed ==>
                      && err == Some(UserLocked)
                      && forall b :: peer == Some(b) <==>
                           old(server.store).Holds(PeerKey(self.appType, user), Owner(b)) && b in peers)
    {
      if user !in localPlayers {
        return None, Some(UserNotFound);
      }
      if fate.RequestLost? {
        return None, Some(RpcFailed);
      }
      var s := server.store;
      var succeeded := s.CreateRevision(UserKey(user)) == localPlayers[user].createRevision;
      if succeeded {
        server.store := s.DeleteAll({LocalKey(self, user), PeerKey(self.appType, user), UserKey(user)});
      }
      if fate.ReplyLost? {
        return None, Some(RpcFailed);
      }
      if succeeded {
        localPlayers := localPlayers - {user};
        return None, None;
      }
      peer := PeerAt(PeerKey(self.appType, user));
      return peer, Some(UserLocked);
    }

    /**
     The shutdown sweep, in whatever order the local entries are visited and whichever calls
     get through: it removes exactly this node's own locks and keeps the local entries.
     */
    method UnregisterLocalPlayers(fate: UserId -> Fate)
      modifies server
      ensures server.store.kvs == old(server.store.kvs)
              - SweptKeys(old(server.store), self, set u | u in localPlayers && !fate(u).RequestLost?)
      ensures old(server.store).Sane() ==>
                forall k | k in old(server.store).kvs :: k !in server.store.kvs <==>
                  && k.user in localPlayers && !fate(k.user).RequestLost?
                  && LocalKey(self, k.user) in old(server.store).kvs
                  && (k == LocalKey(self, k.user) || k == PeerKey(self.appType, k.user) || k == UserKey(k.user))
    {
      var todo := localPlayers.Keys;
      ghost var s0, done := server.store, {};
      while todo != {}
        invariant todo <= localPlayers.Keys && done == localPlayers.Keys - todo
        invariant server.store.kvs == s0.kvs - SweptKeys(s0, self, set u | u in done && !fate(u).RequestLost?)
        decreases todo
      {
        var u :| u in todo;
        todo, done := todo - {u}, done + {u};
        ghost var before := set v | v in done - {u} && !fate(v).RequestLost?;
        assert (set v | v in done && !fate(v).RequestLost?) == if fate(u).RequestLost? then before else before + {u};
        SweptKeysOfOne(s0, self, before, u);
        if !fate(u).RequestLost? && server.store.CreateRevision(LocalKey(self, u)) != 0 {
          server.store := server.store.DeleteAll({LocalKey(self, u), PeerKey(self.appType, u), UserKey(u)});
        }
      }
      if s0.Sane() {
        SweptKeysAre(s0, self, set u | u in localPlayers && !fate(u).RequestLost?);
      }
    }

    /** One key read back: it must hold a login time, and an entry that is there stays. */
    method OnLocalKvAdd(user: UserId) returns (err: Option<Error>)
      requires LocalKey(self, user) in server.store.kvs
      modifies this`localPlayers
      ensures err == if server.store.kvs[LocalKey(self, user)].value.LoginTime? then None else Some(InvalidValue)
      ensures localPlayers ==
              if err.None? && user !in old(localPlayers)
              then old(localPlayers)[user := ReadBack(server.store.kvs[LocalKey(self, user)])]
              else old(localPlayers)
    {
      var entry := server.store.kvs[LocalKey(self, user)];
      if !entry.value.LoginTime? {
        return Some(InvalidValue);
      }
      if user !in localPlayers {
        localPlayers := localPlayers[user := LocalPlayer(entry.value.time, entry.createRevision)];
      }
      return None;
    }

    /** `recoverSelfPeerPlayers`: one range read, then one insertion per key read, existing entries winning. */
    method RecoverSelfPeerPlayers(readOk: bool) returns (err: Option<Error>)
      modifies this`localPlayers
      ensures !readOk ==> err == Some(RpcFailed) && localPlayers == old(localPlayers)
      ensures readOk && AllTimes(server.store, self) ==>
                err == None && localPlayers == SnapshotOf(server.store, self) + old(localPlayers)
      ensures readOk && !AllTimes(server.store, self) ==> err == Some(InvalidValue)
    {
      if !readOk {
        return Some(RpcFailed);
      }
      var todo := set k | k in server.store.kvs && k.LocalKey? && k.node == self :: k.user;
      while todo != {}
        invariant ReadSoFar(server.store, self, old(localPlayers), todo, localPlayers)
        decreases todo
      {
        var u :| u in todo;
        todo := todo - {u};
        OneRead(server.store, self, old(localPlayers), todo, localPlayers, u);
        err := OnLocalKvAdd(u);
        if err.Some? {
          return err;
        }
      }
      AllRead(server.store, self, old(localPlayers), localPlayers);
      return None;
    }

    /** A local entry answers at once; otherwise the user key names the node. */
    method WhereIsUser(user: UserId, readOk: bool) returns (r: Result<Node, Error>)
      ensures user in localPlayers ==> r == Ok(self)
      ensures user !in localPlayers && !readOk ==> r == Err(RpcFailed)
      ensures user !in localPlayers && readOk ==>
                && (r == Err(UserNotFound) <==> UserKey(user) !in server.store.kvs)
                && (r.Ok? || r == Err(UserNotFound) || r == Err(PeerNotFound))
                && (forall a :: r == Ok(a) <==> server.store.Holds(UserKey(user), Owner(a)) && a in peers)
    {
      if user in localPlayers {
        return Ok(self);
      }
      if !readOk {
        return Err(RpcFailed);
      }
      if UserKey(user) !in server.store.kvs {
        return Err(UserNotFound);
      }
      var peer := PeerAt(UserKey(user));
      return if peer.None? then Err(PeerNotFound) else Ok(peer.value);
    }
  }

  /**
   A lock call whose reply arrives and an unlock call right after it leave no trace, unless
   another type holds the user.
   */
  lemma LockThenUnlock(s: Db, a: Node, u: UserId, now: int)
    requires Good(s) && LockGuard(s, a, u)
    ensures var s' := LockTxn(s, a, u, now);
            var p := LocalPlayer(now, s'.revision);
            UnlockTxn(s', a, u, p).kvs == s.kvs <==> UserKey(u) !in s.kvs
  {
    LockRevisionUsable(s, a, u, now);
    assert LocalKey(a, u) !in s.kvs;
    var s' := LockTxn(s, a, u, now);
    if UserKey(u) in s.kvs {
      assert LocalKey(a, u) in UnlockTxn(s', a, u, LocalPlayer(now, s'.revision)).kvs;
    } else {
      assert UnlockTxn(s', a, u, LocalPlayer(now, s'.revision)).kvs == s.kvs;
    }
  }
}
