/**
 The service-ownership protocol of registry/service.go. One key names the owner of a service
 and a second one lists the service under its owner; every change is one transaction.
 */
module Services {
  import opened Etcd
  import opened Prelude

  type Name = seq<string>  // the one or two words of a service name

  datatype ServiceStoreKey =
    | ServiceKey(name: Name)                    // /service/<name>
    | PeerServiceKey(node: Node, name: Name)    // /peer/service/<node>/<name>

  type ServiceDb = Store<ServiceStoreKey, Node>

  function PairOf(a: Node, n: Name): set<ServiceStoreKey> {
    {ServiceKey(n), PeerServiceKey(a, n)}
  }

  /** Which node owns each service. */
  function ServiceView(s: ServiceDb): map<Name, Node> {
    map n | n in (set k | k in s.kvs && k.ServiceKey? :: k.name) :: OwnerIn(s, n)
  }

  function OwnerIn(s: ServiceDb, n: Name): Node {
    if ServiceKey(n) in s.kvs then s.kvs[ServiceKey(n)].value else Node("", 0)
  }

  // ---------------------------------------------------------------- transactions

  predicate RegisterGuard(s: ServiceDb, n: Name) {
    s.CreateRevision(ServiceKey(n)) == 0
  }

  function RegisterTxn(s: ServiceDb, a: Node, n: Name): ServiceDb {
    if RegisterGuard(s, n) then s.PutAll(map[ServiceKey(n) := a, PeerServiceKey(a, n) := a]) else s
  }

  predicate UnregisterGuard(s: ServiceDb, a: Node, n: Name) {
    s.Holds(ServiceKey(n), a) && s.CreateRevision(ServiceKey(n)) != 0
  }

  function UnregisterTxn(s: ServiceDb, a: Node, n: Name): ServiceDb {
    if UnregisterGuard(s, a, n) then s.DeleteAll(PairOf(a, n)) else s
  }

  predicate ShutdownGuard(s: ServiceDb, n: Name, revision: nat) {
    s.CreateRevision(ServiceKey(n)) == revision
  }

  function ShutdownTxn(s: ServiceDb, a: Node, n: Name, revision: nat): ServiceDb {
    if ShutdownGuard(s, n, revision) then s.DeleteAll(PairOf(a, n)) else s
  }

  predicate CleanupGuard(s: ServiceDb, n: Name) {
    s.CreateRevision(ServiceKey(n)) != 0
  }

  /** The cleanup of a restarting node; its guard does not ask who owns the service. */
  function CleanupTxn(s: ServiceDb, a: Node, n: Name): ServiceDb {
    if CleanupGuard(s, n) then s.DeleteAll(PairOf(a, n)) else s
  }

  function OwnNames(s: ServiceDb, a: Node): set<Name> {
    set k | k in s.kvs && k.PeerServiceKey? && k.node == a :: k.name
  }

  // ---------------------------------------------------------------- the system

  datatype Phase = Down | Starting(todo: set<Name>) | Running

  datatype Reply = Reply(node: Node, name: Name, revision: nat)

  /** One live process per node at most; its transactions end with it. */
  datatype World = World(store: ServiceDb, phase: map<Node, Phase>, replies: set<Reply>)
  {
    function PhaseOf(a: Node): Phase {
      if a in phase then phase[a] else Down
    }
  }

  const NOTHING := World(Store(map[], 0), map[], {})

  datatype Step =
    | StartReads(node: Node)
    | StartCleans(node: Node, name: Name)
    | StartEnds(node: Node)
    | Registers(node: Node, name: Name)
    | Unregisters(node: Node, name: Name)
    | ShutsDown(node: Node, name: Name, revision: nat)
    | Crash(node: Node)

  /**
   One step. A shutdown may use any revision the node was ever told, and 0, which is what an
   entry carries that the watch has rebuilt.
   */
  function Next(w: World, step: Step): World {
    match step
    case StartReads(a) =>
      if w.PhaseOf(a).Down? then w.(phase := w.phase[a := Starting(OwnNames(w.store, a))]) else w
    case StartCleans(a, n) =>
      if w.PhaseOf(a).Starting? && n in w.PhaseOf(a).todo then
        w.(store := CleanupTxn(w.store, a, n), phase := w.phase[a := Starting(w.PhaseOf(a).todo - {n})])
      else
        w
    case StartEnds(a) =>
      if w.PhaseOf(a) == Starting({}) then w.(phase := w.phase[a := Running]) else w
    case Registers(a, n) =>
      if w.PhaseOf(a).Running? && RegisterGuard(w.store, n) then
        w.(store := RegisterTxn(w.store, a, n), replies := w.replies + {Reply(a, n, w.store.revision + 1)})
      else
        w
    case Unregisters(a, n) =>
      if w.PhaseOf(a).Running? then w.(store := UnregisterTxn(w.store, a, n)) else w
    case ShutsDown(a, n, revision) =>
      if w.PhaseOf(a).Running? && (revision == 0 || Reply(a, n, revision) in w.replies) then
        w.(store := ShutdownTxn(w.store, a, n, revision))
      else
        w
    case Crash(a) =>
      w.(phase := w.phase[a := Down], replies := set r | r in w.replies && r.node != a)
  }

  function Run(w: World, steps: seq<Step>): World
    decreases |steps|
  {
    if steps == [] then w else Next(Run(w, steps[..|steps| - 1]), steps[|steps| - 1])
  }

  ghost predicate Paired(s: ServiceDb) {
    forall a, n :: s.Holds(ServiceKey(n), a) <==> PeerServiceKey(a, n) in s.kvs
  }

  ghost predicate ReplyOk(s: ServiceDb, r: Reply) {
    && 1 <= r.revision <= s.revision
    && (s.CreateRevision(ServiceKey(r.name)) == r.revision ==> s.Holds(ServiceKey(r.name), r.node))
  }

  ghost predicate Inv(w: World) {
    && w.store.Sane() && Paired(w.store)
    && (forall r | r in w.replies :: ReplyOk(w.store, r))
    && (forall a | w.PhaseOf(a).Starting? :: forall n :: n in w.PhaseOf(a).todo <==> w.store.Holds(ServiceKey(n), a))
  }

  /** A commit of node a keeps the invariant if it keeps the pairing, spoils no reply, and leaves other owners alone. */
  lemma CommitKeepsInv(w: World, s': ServiceDb, a: Node)
    requires Inv(w) && !w.PhaseOf(a).Starting?
    requires s'.Sane() && Paired(s') && forall r | r in w.replies :: ReplyOk(s', r)
    requires forall b, n | b != a :: s'.Holds(ServiceKey(n), b) <==> w.store.Holds(ServiceKey(n), b)
    ensures Inv(w.(store := s'))
  {
    CommitLeavesStarting(w, w.(store := s'), a);
  }

  lemma CommitLeavesStarting(w: World, w': World, a: Node)
    requires Inv(w) && !w.PhaseOf(a).Starting? && w'.phase == w.phase
    requires forall b, n | b != a :: w'.store.Holds(ServiceKey(n), b) <==> w.store.Holds(ServiceKey(n), b)
    ensures forall b | w'.PhaseOf(b).Starting? ::
              forall n :: n in w'.PhaseOf(b).todo <==> w'.store.Holds(ServiceKey(n), b)
  {
    forall b, n | w'.PhaseOf(b).Starting? ensures n in w'.PhaseOf(b).todo <==> w'.store.Holds(ServiceKey(n), b) {
      assert w'.PhaseOf(b) == w.PhaseOf(b) && b != a;
      assert n in w.PhaseOf(b).todo <==> w.store.Holds(ServiceKey(n), b);
    }
  }

  /** The two stores agree on every key but the two that record a's registration of n. */
  ghost predicate SameElsewhere(s: ServiceDb, s': ServiceDb, a: Node, n: Name) {
    forall k | k != ServiceKey(n) && k != PeerServiceKey(a, n) ::
      && (k in s'.kvs <==> k in s.kvs)
      && (k in s.kvs ==> s'.kvs[k] == s.kvs[k])
  }

  ghost predicate PairGone(s: ServiceDb, s': ServiceDb, a: Node, n: Name) {
    && SameElsewhere(s, s', a, n) && s'.revision == s.revision + 1
    && ServiceKey(n) !in s'.kvs && PeerServiceKey(a, n) !in s'.kvs
  }

  /** A registration is granted exactly when nobody lists the service, whatever else there is; it makes a the owner. */
  lemma RegisterOutcome(s: ServiceDb, a: Node, n: Name)
    requires s.Sane() && Paired(s)
    ensures RegisterGuard(s, n) <==> forall b: Node :: PeerServiceKey(b, n) !in s.kvs
    ensures var s' := RegisterTxn(s, a, n);
            if ServiceKey(n) !in s.kvs then
              && SameElsewhere(s, s', a, n) && s'.revision == s.revision + 1
              && s'.Holds(ServiceKey(n), a) && s'.CreateRevision(ServiceKey(n)) == s.revision + 1
              && s'.Holds(PeerServiceKey(a, n), a) && s'.CreateRevision(PeerServiceKey(a, n)) == s.revision + 1
            else
              s' == s
  {
    if ServiceKey(n) in s.kvs {
      assert s.Holds(ServiceKey(n), s.kvs[ServiceKey(n)].value);
    }
    assert forall b: Node | PeerServiceKey(b, n) in s.kvs :: s.Holds(ServiceKey(n), b);
  }

  /** Each removal is carried out under its own condition, takes away both keys, and otherwise changes nothing. */
  lemma RemovalOutcome(s: ServiceDb, a: Node, n: Name, revision: nat)
    requires s.Sane() && Paired(s)
    ensures var s' := UnregisterTxn(s, a, n);
            if PeerServiceKey(a, n) in s.kvs then PairGone(s, s', a, n) else s' == s
    ensures var s' := ShutdownTxn(s, a, n, revision);
            if ServiceKey(n) in s.kvs && s.kvs[ServiceKey(n)].createRevision == revision
            then PairGone(s, s', a, n)
            else s' == s
    ensures var s' := CleanupTxn(s, a, n);
            if exists b: Node :: PeerServiceKey(b, n) in s.kvs then PairGone(s, s', a, n) else s' == s
  {
    assert s.Holds(ServiceKey(n), a) <==> PeerServiceKey(a, n) in s.kvs;
    if ServiceKey(n) in s.kvs {
      assert s.Holds(ServiceKey(n), s.kvs[ServiceKey(n)].value);
    }
    assert forall b: Node | PeerServiceKey(b, n) in s.kvs :: s.Holds(ServiceKey(n), b);
  }

  lemma RegisterKeepsInv(w: World, a: Node, n: Name)
    requires Inv(w)
    ensures Inv(Next(w, Registers(a, n)))
  {
    if w.PhaseOf(a).Running? && RegisterGuard(w.store, n) {
      CommitKeepsInv(w, RegisterTxn(w.store, a, n), a);
      CommitLeavesStarting(w, Next(w, Registers(a, n)), a);
    }
  }

  lemma UnregisterKeepsInv(w: World, a: Node, n: Name)
    requires Inv(w)
    ensures Inv(Next(w, Unregisters(a, n)))
  {
    if w.PhaseOf(a).Running? {
      CommitKeepsInv(w, UnregisterTxn(w.store, a, n), a);
    }
  }

  lemma ShutdownKeepsInv(w: World, a: Node, n: Name, revision: nat)
    requires Inv(w)
    ensures Inv(Next(w, ShutsDown(a, n, revision)))
  {
    if w.PhaseOf(a).Running? && (revision == 0 || Reply(a, n, revision) in w.replies) {
      CommitKeepsInv(w, ShutdownTxn(w.store, a, n, revision), a);
    }
  }

  lemma CleanupKeepsInv(w: World, a: Node, n: Name)
    requires Inv(w)
    ensures Inv(Next(w, StartCleans(a, n)))
  {
    var w' := Next(w, StartCleans(a, n));
    if w.PhaseOf(a).Starting? && n in w.PhaseOf(a).todo {
      assert w.store.Holds(ServiceKey(n), a);
      assert Paired(w'.store);
      forall b, m | w'.PhaseOf(b).Starting? ensures m in w'.PhaseOf(b).todo <==> w'.store.Holds(ServiceKey(m), b) {
        assert m in w.PhaseOf(b).todo <==> w.store.Holds(ServiceKey(m), b);
      }
    }
  }

  lemma StartReadsKeepsInv(w: World, a: Node)
    requires Inv(w)
    ensures Inv(Next(w, StartReads(a)))
  {
    assert forall n :: n in OwnNames(w.store, a) <==> PeerServiceKey(a, n) in w.store.kvs;
    var w' := Next(w, StartReads(a));
    forall b, n | w'.PhaseOf(b).Starting? ensures n in w'.PhaseOf(b).todo <==> w'.store.Holds(ServiceKey(n), b) {
      assert w.PhaseOf(b).Starting? ==> (n in w.PhaseOf(b).todo <==> w.store.Holds(ServiceKey(n), b));
    }
  }

  lemma StepKeepsInv(w: World, step: Step)
    requires Inv(w)
    ensures Inv(Next(w, step))
  {
    match step
    case StartReads(a) => StartReadsKeepsInv(w, a);
    case StartCleans(a, n) => CleanupKeepsInv(w, a, n);
    case Registers(a, n) => RegisterKeepsInv(w, a, n);
    case Unregisters(a, n) => UnregisterKeepsInv(w, a, n);
    case ShutsDown(a, n, revision) => ShutdownKeepsInv(w, a, n, revision);
    case StartEnds(a) =>
      assert forall b | b != a :: Next(w, step).PhaseOf(b) == w.PhaseOf(b);
    case Crash(a) =>
      assert forall b | b != a :: Next(w, step).PhaseOf(b) == w.PhaseOf(b);
  }

  lemma {:induction false} RunKeepsInv(steps: seq<Step>)
    ensures Inv(Run(NOTHING, steps))
  {
    if steps != [] {
      RunKeepsInv(steps[..|steps| - 1]);
      StepKeepsInv(Run(NOTHING, steps[..|steps| - 1]), steps[|steps| - 1]);
    }
  }

  // ---------------------------------------------------------------- main results

  /** A service names its owner exactly when the owner lists it, after any run. */
  lemma OwnershipPaired(steps: seq<Step>, a: Node, n: Name)
    ensures var s := Run(NOTHING, steps).store; s.Holds(ServiceKey(n), a) <==> PeerServiceKey(a, n) in s.kvs
  {
    RunKeepsInv(steps);
  }

  /** No step of a node touches a registration of another node. */
  lemma NeverTouchesOthers(steps: seq<Step>, step: Step, b: Node, n: Name)
    requires step.node != b && Run(NOTHING, steps).store.Holds(ServiceKey(n), b)
    ensures var s, s' := Run(NOTHING, steps).store, Next(Run(NOTHING, steps), step).store;
            forall k | k in PairOf(b, n) :: k in s.kvs && k in s'.kvs && s'.kvs[k] == s.kvs[k]
  {
    RunKeepsInv(steps);
  }

  /** A node that has finished starting owns nothing left over from an earlier process. */
  lemma StartLeavesNothing(steps: seq<Step>, a: Node)
    requires Run(NOTHING, steps).PhaseOf(a) == Starting({})
    ensures OwnNames(Run(NOTHING, steps).store, a) == {}
  {
    RunKeepsInv(steps);
    var s := Run(NOTHING, steps).store;
    assert forall k | k in s.kvs && k.PeerServiceKey? && k.node == a :: s.Holds(ServiceKey(k.name), a);
  }

  /** Cleaning up a name keeps the pairing exactly when nobody else owns it: what one live process per node is for. */
  lemma CleanupKeepsPairing(s: ServiceDb, a: Node, n: Name)
    requires s.Sane() && Paired(s)
    ensures Paired(CleanupTxn(s, a, n)) <==> (ServiceKey(n) in s.kvs ==> s.kvs[ServiceKey(n)].value == a)
  {
    var s' := CleanupTxn(s, a, n);
    if ServiceKey(n) in s.kvs && s.kvs[ServiceKey(n)].value != a {
      var b := s.kvs[ServiceKey(n)].value;
      assert s.Holds(ServiceKey(n), b);
      assert PeerServiceKey(b, n) in s'.kvs && !s'.Holds(ServiceKey(n), b);
    }
  }

  /** A shutdown with the revision a registration returned undoes that registration; rebuilt entries undo nothing. */
  lemma ShutdownUndoesRegister(s: ServiceDb, a: Node, n: Name)
    requires s.Sane() && Paired(s) && RegisterGuard(s, n)
    ensures var s' := RegisterTxn(s, a, n);
            && ShutdownTxn(s', a, n, s'.revision).kvs == s.kvs
            && ShutdownTxn(s', a, n, 0) == s'
  {
    var s' := RegisterTxn(s, a, n);
    assert ServiceKey(n) !in s.kvs && PeerServiceKey(a, n) !in s.kvs;
    assert ShutdownTxn(s', a, n, s'.revision).kvs == s.kvs;
  }
}
