/**
 The user-lock protocol of registry/player.go. Three keys record that a node
 holds a user; a lock, an unlock and a shutdown sweep are transactions guarded
 by create revisions.
 */
module Players {
  import opened Prelude
  import opened Etcd

  type UserId = string

  datatype Key =
    | UserKey(user: UserId)                    // /user/<user>
    | PeerKey(appType: string, user: UserId)   // /peer_type/user/<type>/<user>
    | LocalKey(node: Node, user: UserId)       // /peer/user/<node>/<user>

  datatype Value = Owner(node: Node) | LoginTime(time: int)

  type Db = Store<Key, Value>

  datatype LocalPlayer = LocalPlayer(loginTime: int, createRevision: nat)

  function OwnKeys(a: Node, u: UserId): set<Key> {
    {LocalKey(a, u), PeerKey(a.appType, u), UserKey(u)}
  }

  // ---------------------------------------------------------------- transactions

  predicate LockGuard(s: Db, a: Node, u: UserId) {
    s.CreateRevision(PeerKey(a.appType, u)) == 0
  }

  function LockTxn(s: Db, a: Node, u: UserId, now: int): Db {
    if LockGuard(s, a, u) then
      s.PutAll(map[UserKey(u) := Owner(a), LocalKey(a, u) := LoginTime(now), PeerKey(a.appType, u) := Owner(a)])
    else
      s
  }

  predicate UnlockGuard(s: Db, u: UserId, p: LocalPlayer) {
    s.CreateRevision(UserKey(u)) == p.createRevision
  }

  function UnlockTxn(s: Db, a: Node, u: UserId, p: LocalPlayer): Db {
    if UnlockGuard(s, u, p) then s.DeleteAll(OwnKeys(a, u)) else s
  }

  predicate SweepGuard(s: Db, a: Node, u: UserId) {
    s.CreateRevision(LocalKey(a, u)) != 0
  }

  function SweepTxn(s: Db, a: Node, u: UserId): Db {
    if SweepGuard(s, a, u) then s.DeleteAll(OwnKeys(a, u)) else s
  }

  /** What a restarting node reads back: its local keys, as player records. */
  function SnapshotOf(s: Db, a: Node): map<UserId, LocalPlayer> {
    map k | k in s.kvs && k.LocalKey? && k.node == a && s.kvs[k].value.LoginTime?
      :: k.user := LocalPlayer(s.kvs[k].value.time, s.kvs[k].createRevision)
  }

  // ---------------------------------------------------------------- store invariant

  /** The peer-type key and the holder's local key exist together, with one create revision. */
  ghost predicate Paired(s: Db) {
    && (forall a, u | LocalKey(a, u) in s.kvs ::
          && s.Holds(PeerKey(a.appType, u), Owner(a))
          && s.CreateRevision(PeerKey(a.appType, u)) == s.CreateRevision(LocalKey(a, u))
          && s.kvs[LocalKey(a, u)].value.LoginTime?)
    && (forall t, u | PeerKey(t, u) in s.kvs ::
          && s.kvs[PeerKey(t, u)].value.Owner?
          && s.kvs[PeerKey(t, u)].value.node.appType == t
          && LocalKey(s.kvs[PeerKey(t, u)].value.node, u) in s.kvs)
  }

  ghost predicate Good(s: Db) {
    s.Sane() && Paired(s)
  }

  /**
   A revision known to a node is harmless: as long as the user key still carries it,
   nobody has taken the lock away from that node.
   */
  ghost predicate TicketOk(s: Db, a: Node, u: UserId, p: LocalPlayer) {
    && 1 <= p.createRevision <= s.revision
    && (s.CreateRevision(UserKey(u)) == p.createRevision ==>
          && s.Holds(PeerKey(a.appType, u), Owner(a))
          && s.CreateRevision(PeerKey(a.appType, u)) == p.createRevision)
    && (s.CreateRevision(LocalKey(a, u)) == p.createRevision ==>
          s.Holds(LocalKey(a, u), LoginTime(p.loginTime)))
  }

  lemma LockKeepsGood(s: Db, a: Node, u: UserId, now: int)
    requires Good(s)
    ensures Good(LockTxn(s, a, u, now))
    ensures LockGuard(s, a, u) ==> TicketOk(LockTxn(s, a, u, now), a, u, LocalPlayer(now, s.revision + 1))
  {
  }

  /** An unlock that holds an honest ticket removes a whole lock or nothing. */
  lemma UnlockKeepsGood(s: Db, a: Node, u: UserId, p: LocalPlayer)
    requires Good(s) && TicketOk(s, a, u, p)
    ensures Good(UnlockTxn(s, a, u, p))
  {
  }

  lemma SweepKeepsGood(s: Db, a: Node, u: UserId)
    requires Good(s)
    ensures Good(SweepTxn(s, a, u))
  {
  }

  /** The two stores agree on every key but the three that record a's lock of u. */
  ghost predicate SameElsewhere(s: Db, s': Db, a: Node, u: UserId) {
    forall k | k != LocalKey(a, u) && k != PeerKey(a.appType, u) && k != UserKey(u) ::
      && (k in s'.kvs <==> k in s.kvs)
      && (k in s.kvs ==> s'.kvs[k] == s.kvs[k])
  }

  /**
   A lock is granted exactly when no node of the caller's type has a local key of that user, whatever else
   anybody holds; it then makes the caller the holder in all three keys. A refused lock changes nothing.
   */
  lemma LockOutcome(s: Db, a: Node, u: UserId, now: int)
    requires Good(s)
    ensures LockGuard(s, a, u) <==> forall b: Node | b.appType == a.appType :: LocalKey(b, u) !in s.kvs
    ensures var s' := LockTxn(s, a, u, now);
            if LockGuard(s, a, u) then
              && SameElsewhere(s, s', a, u) && s'.revision == s.revision + 1
              && s'.Holds(UserKey(u), Owner(a)) && s'.Holds(PeerKey(a.appType, u), Owner(a))
              && s'.Holds(LocalKey(a, u), LoginTime(now))
              && s'.CreateRevision(LocalKey(a, u)) == s.revision + 1
            else
              s' == s
  {
  }

  /**
   An unlock with an honest entry is carried out exactly when the three keys exist and carry its revision, whatever
   else anybody holds; it then removes all three. A refused unlock changes nothing.
   */
  lemma UnlockOutcome(s: Db, a: Node, u: UserId, p: LocalPlayer)
    requires Good(s) && TicketOk(s, a, u, p)
    ensures UnlockGuard(s, u, p) <==>
            && UserKey(u) in s.kvs && s.kvs[UserKey(u)].createRevision == p.createRevision
            && LocalKey(a, u) in s.kvs && s.kvs[LocalKey(a, u)].createRevision == p.createRevision
            && PeerKey(a.appType, u) in s.kvs && s.kvs[PeerKey(a.appType, u)].createRevision == p.createRevision
    ensures var s' := UnlockTxn(s, a, u, p);
            if UnlockGuard(s, u, p) then
              && SameElsewhere(s, s', a, u) && s'.revision == s.revision + 1
              && UserKey(u) !in s'.kvs && PeerKey(a.appType, u) !in s'.kvs && LocalKey(a, u) !in s'.kvs
            else
              s' == s
  {
  }

  /** A sweep removes the whole lock of a node that has its local key, whatever its revision, and nothing otherwise. */
  lemma SweepOutcome(s: Db, a: Node, u: UserId)
    requires Good(s)
    ensures SweepGuard(s, a, u) <==> LocalKey(a, u) in s.kvs
    ensures var s' := SweepTxn(s, a, u);
            if LocalKey(a, u) in s.kvs then
              && SameElsewhere(s, s', a, u) && s'.revision == s.revision + 1
              && UserKey(u) !in s'.kvs && PeerKey(a.appType, u) !in s'.kvs && LocalKey(a, u) !in s'.kvs
            else
              s' == s
  {
  }

  /** Somebody else's transaction cannot spoil a ticket. */
  lemma TicketsSurvive(s: Db, s': Db, a: Node, u: UserId, p: LocalPlayer, b: Node, v: UserId, q: LocalPlayer, now: int)
    requires Good(s) && TicketOk(s, a, u, p)
    requires s' == LockTxn(s, b, v, now) || s' == SweepTxn(s, b, v)
          || (s' == UnlockTxn(s, b, v, q) && TicketOk(s, b, v, q))
    ensures TicketOk(s', a, u, p)
  {
  }

  // ---------------------------------------------------------------- the system

  datatype Message =
    | LockReply(node: Node, user: UserId, player: LocalPlayer)
    | UnlockRequest(node: Node, user: UserId, player: LocalPlayer)
    | UnlockReply(node: Node, user: UserId)
    | SweepRequest(node: Node, user: UserId)
    | Snapshot(node: Node, players: map<UserId, LocalPlayer>)
  {
    predicate IsRequest() { UnlockRequest? || SweepRequest? }
  }

  /**
   The store, every node's `localPlayers`, and the messages on their way. A message may be
   delivered late, several times, or never; only a crash removes the replies to the dead node.
   */
  datatype World = World(store: Db, local: map<Node, map<UserId, LocalPlayer>>, wire: set<Message>)
  {
    function Local(a: Node): map<UserId, LocalPlayer> {
      if a in local then local[a] else map[]
    }

    function SetLocal(a: Node, players: map<UserId, LocalPlayer>): World {
      this.(local := local[a := players])
    }

    function Send(m: Message): World {
      this.(wire := wire + {m})
    }
  }

  const INITIAL := World(Store(map[], 0), map[], {})

  datatype Step =
    | LockCommits(node: Node, user: UserId, now: int)
    | LockReturns(node: Node, user: UserId, player: LocalPlayer)
    | UnlockStarts(node: Node, user: UserId)
    | UnlockCommits(node: Node, user: UserId, player: LocalPlayer)
    | UnlockReturns(node: Node, user: UserId)
    | SweepStarts(node: Node, user: UserId)
    | SweepCommits(node: Node, user: UserId)
    | Crash(node: Node)
    | RecoverReads(node: Node)
    | RecoverReturns(node: Node, players: map<UserId, LocalPlayer>)

  /** One step; a step whose message is not on the wire does nothing. */
  function Next(w: World, step: Step): World {
    match step
    case LockCommits(a, u, now) =>
      var w' := w.(store := LockTxn(w.store, a, u, now));
      if LockGuard(w.store, a, u) then w'.Send(LockReply(a, u, LocalPlayer(now, w'.store.revision))) else w'
    case LockReturns(a, u, p) =>
      if LockReply(a, u, p) in w.wire then w.SetLocal(a, w.Local(a)[u := p]) else w
    case UnlockStarts(a, u) =>
      if u in w.Local(a) then w.Send(UnlockRequest(a, u, w.Local(a)[u])) else w
    case UnlockCommits(a, u, p) =>
      if UnlockRequest(a, u, p) in w.wire then
        var w' := w.(store := UnlockTxn(w.store, a, u, p));
        if UnlockGuard(w.store, u, p) then w'.Send(UnlockReply(a, u)) else w'
      else
        w
    case UnlockReturns(a, u) =>
      if UnlockReply(a, u) in w.wire then w.SetLocal(a, w.Local(a) - {u}) else w
    case SweepStarts(a, u) =>
      if u in w.Local(a) then w.Send(SweepRequest(a, u)) else w
    case SweepCommits(a, u) =>
      if SweepRequest(a, u) in w.wire then w.(store := SweepTxn(w.store, a, u)) else w
    case Crash(a) =>
      w.SetLocal(a, map[]).(wire := set m | m in w.wire && (m.node != a || m.IsRequest()))
    case RecoverReads(a) =>
      w.Send(Snapshot(a, SnapshotOf(w.store, a)))
    case RecoverReturns(a, players) =>
      if Snapshot(a, players) in w.wire then w.SetLocal(a, players + w.Local(a)) else w
  }

  function Run(w: World, steps: seq<Step>): World
    decreases |steps|
  {
    if steps == [] then w else Next(Run(w, steps[..|steps| - 1]), steps[|steps| - 1])
  }

  ghost predicate TicketsOk(s: Db, a: Node, players: map<UserId, LocalPlayer>) {
    forall u | u in players :: TicketOk(s, a, u, players[u])
  }

  ghost predicate MessageOk(s: Db, m: Message) {
    match m
    case LockReply(a, u, p) => TicketOk(s, a, u, p)
    case UnlockRequest(a, u, p) => TicketOk(s, a, u, p)
    case Snapshot(a, players) => TicketsOk(s, a, players)
    case _ => true
  }

  ghost predicate Inv(w: World) {
    && Good(w.store)
    && (forall a | a in w.local :: TicketsOk(w.store, a, w.local[a]))
    && (forall m | m in w.wire :: MessageOk(w.store, m))
  }

  /** A transaction of any node keeps everything that nodes and messages know honest. */
  lemma CommitKeepsInv(w: World, s': Db, b: Node, v: UserId, q: LocalPlayer, now: int)
    requires Inv(w) && Good(s')
    requires s' == LockTxn(w.store, b, v, now) || s' == SweepTxn(w.store, b, v)
          || (s' == UnlockTxn(w.store, b, v, q) && TicketOk(w.store, b, v, q))
    ensures Inv(w.(store := s'))
  {
    forall a, u | a in w.local && u in w.local[a] ensures TicketOk(s', a, u, w.local[a][u]) {
      TicketsSurvive(w.store, s', a, u, w.local[a][u], b, v, q, now);
    }
    forall m | m in w.wire ensures MessageOk(s', m) {
      match m
      case LockReply(a, u, p) => TicketsSurvive(w.store, s', a, u, p, b, v, q, now);
      case UnlockRequest(a, u, p) => TicketsSurvive(w.store, s', a, u, p, b, v, q, now);
      case Snapshot(a, players) =>
        forall u | u in players ensures TicketOk(s', a, u, players[u]) {
          TicketsSurvive(w.store, s', a, u, players[u], b, v, q, now);
        }
      case _ =>
    }
  }

  lemma SnapshotIsHonest(s: Db, a: Node)
    requires Good(s)
    ensures TicketsOk(s, a, SnapshotOf(s, a))
    ensures SnapshotOf(s, a).Keys == set k | k in s.kvs && k.LocalKey? && k.node == a :: k.user
  {
  }

  lemma CommitStepKeepsInv(w: World, step: Step)
    requires Inv(w) && (step.LockCommits? || step.UnlockCommits? || step.SweepCommits?)
    ensures Inv(Next(w, step))
  {
    match step
    case LockCommits(a, u, now) =>
      LockKeepsGood(w.store, a, u, now);
      CommitKeepsInv(w, LockTxn(w.store, a, u, now), a, u, LocalPlayer(0, 0), now);
    case UnlockCommits(a, u, p) =>
      if UnlockRequest(a, u, p) in w.wire {
        assert MessageOk(w.store, UnlockRequest(a, u, p));
        UnlockKeepsGood(w.store, a, u, p);
        CommitKeepsInv(w, UnlockTxn(w.store, a, u, p), a, u, p, 0);
      }
    case SweepCommits(a, u) =>
      SweepKeepsGood(w.store, a, u);
      CommitKeepsInv(w, SweepTxn(w.store, a, u), a, u, LocalPlayer(0, 0), 0);
  }

  lemma LocalStepKeepsInv(w: World, step: Step)
    requires Inv(w) && !(step.LockCommits? || step.UnlockCommits? || step.SweepCommits?)
    ensures Inv(Next(w, step))
  {
    match step
    case LockReturns(a, u, p) =>
      assert LockReply(a, u, p) in w.wire ==> MessageOk(w.store, LockReply(a, u, p));
    case RecoverReads(a) =>
      SnapshotIsHonest(w.store, a);
    case RecoverReturns(a, players) =>
      assert Snapshot(a, players) in w.wire ==> MessageOk(w.store, Snapshot(a, players));
    case _ =>
  }

  lemma StepKeepsInv(w: World, step: Step)
    requires Inv(w)
    ensures Inv(Next(w, step))
  {
    if step.LockCommits? || step.UnlockCommits? || step.SweepCommits? {
      CommitStepKeepsInv(w, step);
    } else {
      LocalStepKeepsInv(w, step);
    }
  }

  lemma {:induction false} RunKeepsInv(steps: seq<Step>)
    ensures Inv(Run(INITIAL, steps))
  {
    if steps != [] {
      RunKeepsInv(steps[..|steps| - 1]);
      StepKeepsInv(Run(INITIAL, steps[..|steps| - 1]), steps[|steps| - 1]);
    }
  }

  // ---------------------------------------------------------------- main results

  /** Whoever the peer-type key names is exactly whoever has the local key: one holder per type. */
  lemma ExclusionPerType(steps: seq<Step>, a: Node, u: UserId)
    ensures var s := Run(INITIAL, steps).store;
            && (s.Holds(PeerKey(a.appType, u), Owner(a)) <==> LocalKey(a, u) in s.kvs)
            && (forall b: Node | b.appType == a.appType && LocalKey(a, u) in s.kvs && LocalKey(b, u) in s.kvs :: a == b)
  {
    RunKeepsInv(steps);
  }

  /** b's lock of u is the same in both stores; its user key too if a is of b's type. */
  ghost predicate Spared(s: Db, s': Db, a: Node, b: Node, u: UserId) {
    && (forall k | k in {LocalKey(b, u), PeerKey(b.appType, u)} :: k in s.kvs && k in s'.kvs && s'.kvs[k] == s.kvs[k])
    && (a.appType == b.appType ==>
          && (UserKey(u) in s.kvs <==> UserKey(u) in s'.kvs)
          && (UserKey(u) in s.kvs ==> s'.kvs[UserKey(u)] == s.kvs[UserKey(u)]))
  }

  /**
   Fencing: while b holds u, no step of another node touches b's lock, whatever that node
   still believes. Its user key too is safe from every node of b's own type.
   */
  lemma Fencing(steps: seq<Step>, step: Step, b: Node, u: UserId)
    requires step.node != b
    ensures var s := Run(INITIAL, steps).store;
            var s' := Next(Run(INITIAL, steps), step).store;
            s.Holds(PeerKey(b.appType, u), Owner(b)) ==> Spared(s, s', step.node, b, u)
  {
    RunKeepsInv(steps);
    if Run(INITIAL, steps).store.Holds(PeerKey(b.appType, u), Owner(b)) {
      StepSpares(Run(INITIAL, steps), step, b, u);
    }
  }

  lemma StepSpares(w: World, step: Step, b: Node, u: UserId)
    requires Inv(w) && step.node != b && w.store.Holds(PeerKey(b.appType, u), Owner(b))
    ensures Spared(w.store, Next(w, step).store, step.node, b, u)
  {
    if step.UnlockCommits? && UnlockRequest(step.node, step.user, step.player) in w.wire {
      assert MessageOk(w.store, UnlockRequest(step.node, step.user, step.player));
      UnlockSparesOthers(w.store, step.node, step.user, step.player, b, u);
    } else if step.LockCommits? || step.SweepCommits? {
      CommitSparesOthers(w.store, step.node, step.user, 0, b, u);
      if step.LockCommits? {
        CommitSparesOthers(w.store, step.node, step.user, step.now, b, u);
      }
    }
  }

  lemma UnlockSparesOthers(s: Db, a: Node, v: UserId, p: LocalPlayer, b: Node, u: UserId)
    requires Good(s) && TicketOk(s, a, v, p) && a != b && s.Holds(PeerKey(b.appType, u), Owner(b))
    ensures Spared(s, UnlockTxn(s, a, v, p), a, b, u)
  {
  }

  lemma CommitSparesOthers(s: Db, a: Node, v: UserId, now: int, b: Node, u: UserId)
    requires Good(s) && a != b && s.Holds(PeerKey(b.appType, u), Owner(b))
    ensures Spared(s, LockTxn(s, a, v, now), a, b, u) && Spared(s, SweepTxn(s, a, v), a, b, u)
  {
  }

  // ---------------------------------------------------------------- one type: three keys agree

  /** For user u the three keys of type t say the same and no other type is involved. */
  ghost predicate Agreed(s: Db, t: string, u: UserId) {
    && (forall t' | PeerKey(t', u) in s.kvs :: t' == t)
    && (UserKey(u) in s.kvs <==> PeerKey(t, u) in s.kvs)
    && (UserKey(u) in s.kvs ==> s.kvs[UserKey(u)] == s.kvs[PeerKey(t, u)])
  }

  ghost predicate OnlyTypeLocks(steps: seq<Step>, t: string, u: UserId) {
    forall i | 0 <= i < |steps| && steps[i].LockCommits? && steps[i].user == u :: steps[i].node.appType == t
  }

  lemma StepKeepsAgreed(w: World, step: Step, t: string, u: UserId)
    requires Inv(w) && Agreed(w.store, t, u)
    requires step.LockCommits? && step.user == u ==> step.node.appType == t
    ensures Agreed(Next(w, step).store, t, u)
  {
    if step.UnlockCommits? && UnlockRequest(step.node, step.user, step.player) in w.wire {
      assert MessageOk(w.store, UnlockRequest(step.node, step.user, step.player));
    }
  }

  lemma {:induction false} RunKeepsAgreed(steps: seq<Step>, t: string, u: UserId)
    requires OnlyTypeLocks(steps, t, u)
    ensures Agreed(Run(INITIAL, steps).store, t, u)
  {
    if steps != [] {
      var before := steps[..|steps| - 1];
      RunKeepsAgreed(before, t, u);
      RunKeepsInv(before);
      StepKeepsAgreed(Run(INITIAL, before), steps[|steps| - 1], t, u);
    }
  }

  /**
   When nodes of one type only lock u, `/user/u` names a iff the peer-type key names a iff
   a has its local key, and the three carry one create revision.
   */
  lemma ThreeKeysAgree(steps: seq<Step>, a: Node, u: UserId)
    requires OnlyTypeLocks(steps, a.appType, u)
    ensures var s := Run(INITIAL, steps).store;
            && (s.Holds(UserKey(u), Owner(a)) <==> s.Holds(PeerKey(a.appType, u), Owner(a)))
            && (s.Holds(PeerKey(a.appType, u), Owner(a)) <==> LocalKey(a, u) in s.kvs)
            && (s.Holds(UserKey(u), Owner(a)) ==>
                  && s.CreateRevision(UserKey(u)) == s.CreateRevision(LocalKey(a, u))
                  && s.CreateRevision(PeerKey(a.appType, u)) == s.CreateRevision(LocalKey(a, u)))
  {
    RunKeepsAgreed(steps, a.appType, u);
    RunKeepsInv(steps);
  }

  /** The revision a lock returns can be used to unlock exactly when no other type held the user. */
  lemma LockRevisionUsable(s: Db, a: Node, u: UserId, now: int)
    requires Good(s) && LockGuard(s, a, u)
    ensures var s' := LockTxn(s, a, u, now);
            UnlockGuard(s', u, LocalPlayer(now, s'.revision)) <==> UserKey(u) !in s.kvs
  {
    LockWrites(s, a, u, now);
  }

  /**
   With two types the user key changes hands under the first holder, at the old create revision:
   in every state where nobody holds the user, one lock of each type leaves two holders.
   */
  lemma TwoTypesDisagree(w: World, a: Node, b: Node, u: UserId, now: int, later: int)
    requires a.appType != b.appType && LockGuard(w.store, a, u) && LockGuard(w.store, b, u)
    requires UserKey(u) !in w.store.kvs && w.store.Sane()
    ensures var s := Next(Next(w, LockCommits(a, u, now)), LockCommits(b, u, later)).store;
            && LocalKey(a, u) in s.kvs && LocalKey(b, u) in s.kvs
            && s.Holds(UserKey(u), Owner(b))
            && s.CreateRevision(UserKey(u)) == s.CreateRevision(PeerKey(a.appType, u)) == w.store.revision + 1
            && s.CreateRevision(PeerKey(b.appType, u)) == w.store.revision + 2
  {
    LockWrites(w.store, a, u, now);
    LockWrites(LockTxn(w.store, a, u, now), b, u, later);
  }

  lemma LockWrites(s: Db, a: Node, u: UserId, now: int)
    requires LockGuard(s, a, u)
    ensures var s' := LockTxn(s, a, u, now);
            && s'.revision == s.revision + 1 && s'.Holds(UserKey(u), Owner(a)) && LocalKey(a, u) in s'.kvs
            && (UserKey(u) in s.kvs ==> s'.CreateRevision(UserKey(u)) == s.CreateRevision(UserKey(u)))
            && (UserKey(u) !in s.kvs ==> s'.CreateRevision(UserKey(u)) == s.revision + 1)
            && (PeerKey(a.appType, u) !in s.kvs ==> s'.CreateRevision(PeerKey(a.appType, u)) == s.revision + 1)
            && forall k | k !in OwnKeys(a, u) :: (k in s'.kvs <==> k in s.kvs) && (k in s.kvs ==> s'.kvs[k] == s.kvs[k])
  {
  }

  /** The step is a transaction on u whose request is there and whose guard holds. */
  predicate CommitsOn(w: World, step: Step, u: UserId) {
    match step
    case LockCommits(a, v, _) => v == u && LockGuard(w.store, a, u)
    case UnlockCommits(a, v, p) => v == u && UnlockRequest(a, u, p) in w.wire && UnlockGuard(w.store, u, p)
    case SweepCommits(a, v) => v == u && SweepRequest(a, u) in w.wire && SweepGuard(w.store, a, u)
    case _ => false
  }

  /** A holder loses the user key to another node exactly when a transaction of another type on that user commits. */
  lemma UserKeyChanges(steps: seq<Step>, step: Step, a: Node, u: UserId)
    requires step.node != a
    requires var s := Run(INITIAL, steps).store; LocalKey(a, u) in s.kvs && s.Holds(UserKey(u), Owner(a))
    ensures var w := Run(INITIAL, steps);
            var s' := Next(w, step).store;
            (UserKey(u) in s'.kvs && s'.kvs[UserKey(u)] == w.store.kvs[UserKey(u)])
            <==> !(step.node.appType != a.appType && CommitsOn(w, step, u))
  {
    RunKeepsInv(steps);
    StepSpares(Run(INITIAL, steps), step, a, u);
  }
}
