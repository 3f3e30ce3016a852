/**
 What a node of registry/player.go knows after a crash, when one type of nodes locks users:
 `recoverSelfPeerPlayers` reads its local keys back while requests of the dead process may
 still be on their way, and other nodes go on.
 */
module Recovery {
  import opened Prelude
  import opened Etcd
  import opened Players

  ghost predicate OneType(steps: seq<Step>, t: string) {
    forall i | 0 <= i < |steps| && steps[i].LockCommits? :: steps[i].node.appType == t
  }

  ghost predicate ByOthers(steps: seq<Step>, a: Node) {
    forall i | 0 <= i < |steps| :: steps[i].node != a
  }

  /** A world in which only nodes of one type have locked users. */
  ghost predicate OneTypeWorld(w: World, t: string) {
    Inv(w) && forall u :: Agreed(w.store, t, u)
  }

  lemma StepKeepsOneType(w: World, step: Step, t: string)
    requires OneTypeWorld(w, t) && (step.LockCommits? ==> step.node.appType == t)
    ensures OneTypeWorld(Next(w, step), t)
  {
    StepKeepsInv(w, step);
    forall u ensures Agreed(Next(w, step).store, t, u) {
      StepKeepsAgreed(w, step, t, u);
    }
  }

  lemma {:induction false} RunKeepsOneType(w: World, steps: seq<Step>, t: string)
    requires OneTypeWorld(w, t) && OneType(steps, t)
    ensures OneTypeWorld(Run(w, steps), t)
    decreases |steps|
  {
    if steps != [] {
      RunKeepsOneType(w, steps[..|steps| - 1], t);
      StepKeepsOneType(Run(w, steps[..|steps| - 1]), steps[|steps| - 1], t);
    }
  }

  /** The entries are the users whose user key names a, each with its login time and a revision that unlocks. */
  ghost predicate HeldExactly(s: Db, a: Node, players: map<UserId, LocalPlayer>) {
    && (forall u :: u in players <==> s.Holds(UserKey(u), Owner(a)))
    && (forall u | u in players ::
          UnlockGuard(s, u, players[u]) && s.Holds(LocalKey(a, u), LoginTime(players[u].loginTime)))
  }

  lemma HeldExactlyOnce(s: Db, a: Node, players: map<UserId, LocalPlayer>, others: map<UserId, LocalPlayer>)
    requires HeldExactly(s, a, players) && HeldExactly(s, a, others)
    ensures players == others
  {
    assert forall u :: u in players <==> u in others;
    assert forall u | u in players :: players[u] == others[u];
  }

  /** In a world of one type, being named by the user key and having a local key are the same. */
  lemma HeldIsLocal(w: World, a: Node, u: UserId)
    requires OneTypeWorld(w, a.appType)
    ensures w.store.Holds(UserKey(u), Owner(a)) <==> LocalKey(a, u) in w.store.kvs
    ensures w.store.Holds(UserKey(u), Owner(a)) ==>
              && w.store.Holds(PeerKey(a.appType, u), Owner(a))
              && w.store.CreateRevision(UserKey(u)) == w.store.CreateRevision(LocalKey(a, u))
  {
    assert Agreed(w.store, a.appType, u);
  }

  /** A snapshot is exact. */
  lemma SnapshotIsExact(w: World, a: Node)
    requires OneTypeWorld(w, a.appType)
    ensures HeldExactly(w.store, a, SnapshotOf(w.store, a))
  {
    forall u
      ensures u in SnapshotOf(w.store, a) <==> w.store.Holds(UserKey(u), Owner(a))
      ensures u in SnapshotOf(w.store, a) ==>
                && UnlockGuard(w.store, u, SnapshotOf(w.store, a)[u])
                && w.store.Holds(LocalKey(a, u), LoginTime(SnapshotOf(w.store, a)[u].loginTime))
    {
      HeldIsLocal(w, a, u);
      assert u in SnapshotOf(w.store, a) <==> LocalKey(a, u) in w.store.kvs;
    }
  }

  /** The step is not a transaction that commits: no request, or a guard that fails. */
  predicate Refused(w: World, step: Step) {
    match step
    case LockCommits(_, u, _) => !CommitsOn(w, step, u)
    case UnlockCommits(_, u, _) => !CommitsOn(w, step, u)
    case SweepCommits(_, u) => !CommitsOn(w, step, u)
    case _ => true
  }

  /** The step tells its node nothing new, and takes nothing from it. */
  predicate Unheard(w: World, step: Step) {
    match step
    case LockReturns(a, u, p) => LockReply(a, u, p) in w.wire ==> u in w.Local(a) && w.Local(a)[u] == p
    case UnlockReturns(a, u) => UnlockReply(a, u) in w.wire ==> u !in w.Local(a)
    case Crash(a) => w.Local(a) == map[]
    case RecoverReturns(a, players) => Snapshot(a, players) in w.wire ==> players.Keys <= w.Local(a).Keys
    case _ => true
  }

  /** Steps of other nodes keep what a node holds. */
  lemma OthersKeepExact(w: World, step: Step, a: Node, players: map<UserId, LocalPlayer>)
    requires OneTypeWorld(w, a.appType) && (step.LockCommits? ==> step.node.appType == a.appType)
    requires step.node != a && HeldExactly(w.store, a, players)
    ensures HeldExactly(Next(w, step).store, a, players)
  {
    StepKeepsOneType(w, step, a.appType);
    forall u ensures OthersKeepUser(w.store, Next(w, step).store, a, u) {
      OtherStepKeepsUser(w, step, a, u);
    }
    SameHeld(w.store, Next(w, step).store, a, players);
  }

  lemma SameHeld(s: Db, s': Db, a: Node, players: map<UserId, LocalPlayer>)
    requires HeldExactly(s, a, players) && forall u :: OthersKeepUser(s, s', a, u)
    ensures HeldExactly(s', a, players)
  {
    forall u
      ensures u in players <==> s'.Holds(UserKey(u), Owner(a))
      ensures u in players ==>
                UnlockGuard(s', u, players[u]) && s'.Holds(LocalKey(a, u), LoginTime(players[u].loginTime))
    {
      assert OthersKeepUser(s, s', a, u);
    }
  }

  ghost predicate OthersKeepUser(s: Db, s': Db, a: Node, u: UserId) {
    && (s'.Holds(UserKey(u), Owner(a)) <==> s.Holds(UserKey(u), Owner(a)))
    && (s.Holds(UserKey(u), Owner(a)) ==>
          && s'.kvs[UserKey(u)] == s.kvs[UserKey(u)]
          && LocalKey(a, u) in s.kvs && LocalKey(a, u) in s'.kvs && s'.kvs[LocalKey(a, u)] == s.kvs[LocalKey(a, u)])
  }

  lemma OtherStepKeepsUser(w: World, step: Step, a: Node, u: UserId)
    requires OneTypeWorld(w, a.appType) && OneTypeWorld(Next(w, step), a.appType) && step.node != a
    requires step.LockCommits? ==> step.node.appType == a.appType
    ensures OthersKeepUser(w.store, Next(w, step).store, a, u)
  {
    HeldIsLocal(w, a, u);
    HeldIsLocal(Next(w, step), a, u);
    if w.store.Holds(UserKey(u), Owner(a)) {
      UserKeySurvives(w, step, a, u);
      StepSpares(w, step, a, u);
    }
  }

  lemma UserKeySurvives(w: World, step: Step, a: Node, u: UserId)
    requires OneTypeWorld(w, a.appType) && step.node != a && w.store.Holds(UserKey(u), Owner(a))
    requires step.LockCommits? ==> step.node.appType == a.appType
    ensures var s' := Next(w, step).store; UserKey(u) in s'.kvs && s'.kvs[UserKey(u)] == w.store.kvs[UserKey(u)]
  {
    HeldIsLocal(w, a, u);
    assert Agreed(w.store, a.appType, u);
    if step.UnlockCommits? && UnlockRequest(step.node, step.user, step.player) in w.wire {
      assert MessageOk(w.store, UnlockRequest(step.node, step.user, step.player));
    }
  }

  /** A step of the node itself keeps a snapshot exact exactly when it commits nothing. */
  lemma OwnStepKeepsExact(w: World, step: Step, players: map<UserId, LocalPlayer>)
    requires OneTypeWorld(w, step.node.appType) && HeldExactly(w.store, step.node, players)
    ensures HeldExactly(Next(w, step).store, step.node, players) <==> Refused(w, step)
  {
    if !Refused(w, step) {
      OwnCommitShows(w, step);
      var a, u := step.node, step.user;
      assert u in players <==> w.store.Holds(UserKey(u), Owner(a));
    }
  }

  lemma OwnCommitShows(w: World, step: Step)
    requires OneTypeWorld(w, step.node.appType) && !Refused(w, step)
    ensures var a, u := step.node, step.user;
            w.store.Holds(UserKey(u), Owner(a)) <==> !Next(w, step).store.Holds(UserKey(u), Owner(a))
  {
    HeldIsLocal(w, step.node, step.user);
    if step.UnlockCommits? {
      assert MessageOk(w.store, UnlockRequest(step.node, step.user, step.player));
    }
  }

  /**
   Once the entries of a node are exact, a step of that node keeps them so exactly when it
   commits nothing and tells the node nothing new.
   */
  lemma OwnStepKeepsEntries(w: World, step: Step)
    requires OneTypeWorld(w, step.node.appType) && HeldExactly(w.store, step.node, w.Local(step.node))
    ensures var w', a := Next(w, step), step.node;
            HeldExactly(w'.store, a, w'.Local(a)) <==> Refused(w, step) && Unheard(w, step)
  {
    var w', a := Next(w, step), step.node;
    OwnStepKeepsExact(w, step, w.Local(a));
    OneSideOnly(w, step);
    if w'.store == w.store && HeldExactly(w'.store, a, w'.Local(a)) {
      HeldExactlyOnce(w.store, a, w.Local(a), w'.Local(a));
    }
  }

  /** No step changes both the store and its node's entries. */
  lemma OneSideOnly(w: World, step: Step)
    ensures var w', a := Next(w, step), step.node;
            && (w'.store == w.store || w'.Local(a) == w.Local(a))
            && (w'.Local(a) == w.Local(a) <==> Unheard(w, step))
            && (step.LockCommits? || step.UnlockCommits? || step.SweepCommits? ==> Unheard(w, step))
            && (!(step.LockCommits? || step.UnlockCommits? || step.SweepCommits?) ==>
                  w'.store == w.store && Refused(w, step))
  {
    if step.RecoverReturns? && Snapshot(step.node, step.players) in w.wire {
      assert step.players.Keys <= w.Local(step.node).Keys ==> step.players + w.Local(step.node) == w.Local(step.node);
      assert Next(w, step).Local(step.node).Keys == step.players.Keys + w.Local(step.node).Keys;
    }
  }

  // ---------------------------------------------------------------- runs after a restart

  /** The snapshot is exact at every point of the run. */
  ghost predicate SnapshotStays(w: World, steps: seq<Step>, a: Node, players: map<UserId, LocalPlayer>)
    decreases |steps|
  {
    HeldExactly(Run(w, steps).store, a, players) && (steps != [] ==> SnapshotStays(w, steps[..|steps| - 1], a, players))
  }

  /** The entries of the node are exact at every point of the run. */
  ghost predicate EntriesStay(w: World, steps: seq<Step>, a: Node)
    decreases |steps|
  {
    && HeldExactly(Run(w, steps).store, a, Run(w, steps).Local(a))
    && (steps != [] ==> EntriesStay(w, steps[..|steps| - 1], a))
  }

  /** No request of the node itself commits, whichever of its processes sent it. */
  predicate AllRefused(w: World, steps: seq<Step>, a: Node)
    decreases |steps|
  {
    steps != [] ==>
      var before, x := steps[..|steps| - 1], steps[|steps| - 1];
      AllRefused(w, before, a) && (x.node == a ==> Refused(Run(w, before), x))
  }

  /** No reply, and no crash, changes what the node knows. */
  predicate AllUnheard(w: World, steps: seq<Step>, a: Node)
    decreases |steps|
  {
    steps != [] ==>
      var before, x := steps[..|steps| - 1], steps[|steps| - 1];
      AllUnheard(w, before, a) && (x.node == a ==> Unheard(Run(w, before), x))
  }

  /** A snapshot that was exact stays exact exactly as long as no request of its own node commits. */
  lemma {:induction false} SnapshotStaysExact(w: World, steps: seq<Step>, a: Node, players: map<UserId, LocalPlayer>)
    requires OneTypeWorld(w, a.appType) && OneType(steps, a.appType) && HeldExactly(w.store, a, players)
    ensures SnapshotStays(w, steps, a, players) <==> AllRefused(w, steps, a)
    decreases |steps|
  {
    if steps != [] {
      var n := |steps| - 1;
      var w', x := Run(w, steps[..n]), steps[n];
      SnapshotStaysExact(w, steps[..n], a, players);
      if SnapshotStays(w, steps[..n], a, players) {
        RunKeepsOneType(w, steps[..n], a.appType);
        if x.node == a {
          OwnStepKeepsExact(w', x, players);
        } else {
          OthersKeepExact(w', x, a, players);
        }
      }
    }
  }

  lemma EntriesStep(w: World, step: Step, a: Node)
    requires OneTypeWorld(w, a.appType) && (step.LockCommits? ==> step.node.appType == a.appType)
    requires HeldExactly(w.store, a, w.Local(a))
    ensures HeldExactly(Next(w, step).store, a, Next(w, step).Local(a))
            <==> (step.node == a ==> Refused(w, step) && Unheard(w, step))
  {
    if step.node == a {
      OwnStepKeepsEntries(w, step);
    } else {
      OthersKeepExact(w, step, a, w.Local(a));
      OtherStepKeepsNode(w, step, a);
    }
  }

  lemma LastEntriesStep(w: World, before: seq<Step>, step: Step, a: Node)
    requires OneTypeWorld(w, a.appType) && OneType(before, a.appType) && EntriesStay(w, before, a)
    requires step.LockCommits? ==> step.node.appType == a.appType
    ensures var w' := Run(w, before);
            HeldExactly(Next(w', step).store, a, Next(w', step).Local(a))
            <==> (step.node == a ==> Refused(w', step) && Unheard(w', step))
  {
    RunKeepsOneType(w, before, a.appType);
    EntriesStep(Run(w, before), step, a);
  }

  /**
   Entries that were exact stay exact exactly as long as no request of the node commits and
   no reply tells it anything new; what other nodes do never matters.
   */
  lemma {:induction false} EntriesStayExact(w: World, steps: seq<Step>, a: Node)
    requires OneTypeWorld(w, a.appType) && OneType(steps, a.appType) && HeldExactly(w.store, a, w.Local(a))
    ensures EntriesStay(w, steps, a) <==> AllRefused(w, steps, a) && AllUnheard(w, steps, a)
    decreases |steps|
  {
    if steps != [] {
      var n := |steps| - 1;
      var x := steps[n];
      EntriesStayExact(w, steps[..n], a);
      if EntriesStay(w, steps[..n], a) {
        LastEntriesStep(w, steps[..n], x, a);
      }
    }
  }

  lemma RunSnoc(w: World, steps: seq<Step>, x: Step)
    ensures Run(w, steps + [x]) == Next(Run(w, steps), x)
  {
    assert (steps + [x])[..|steps|] == steps;
  }

  lemma OtherStepKeepsNode(w: World, x: Step, a: Node)
    requires x.node != a
    ensures Next(w, x).Local(a) == w.Local(a)
    ensures forall m: Message | m.node == a :: m in Next(w, x).wire <==> m in w.wire
  {
  }

  /** A run of other nodes leaves alone what a node holds, what it knows, and every message of its own. */
  lemma {:induction false} OthersLeaveAlone(w: World, others: seq<Step>, a: Node, players: map<UserId, LocalPlayer>)
    requires OneTypeWorld(w, a.appType) && OneType(others, a.appType) && ByOthers(others, a)
    requires HeldExactly(w.store, a, players)
    ensures var w' := Run(w, others);
            && HeldExactly(w'.store, a, players) && w'.Local(a) == w.Local(a)
            && forall m: Message | m.node == a :: m in w'.wire <==> m in w.wire
    decreases |others|
  {
    if others != [] {
      var n := |others| - 1;
      OthersLeaveAlone(w, others[..n], a, players);
      RunKeepsOneType(w, others[..n], a.appType);
      OthersKeepExact(Run(w, others[..n]), others[n], a, players);
      OtherStepKeepsNode(Run(w, others[..n]), others[n], a);
    }
  }

  // ---------------------------------------------------------------- between the read and its return

  /** The node has read its keys back; nothing else that could change its entries is on its way to it. */
  ghost predicate Mail(w: World, a: Node, players: map<UserId, LocalPlayer>) {
    && (w.Local(a) == map[] || w.Local(a) == players) && Snapshot(a, players) in w.wire
    && forall m | m in w.wire && m.node == a :: m.IsRequest() || m == Snapshot(a, players)
  }

  ghost predicate Waiting(w: World, a: Node, players: map<UserId, LocalPlayer>) {
    HeldExactly(w.store, a, players) && Mail(w, a, players)
  }

  lemma CrashThenRead(w: World, a: Node)
    requires OneTypeWorld(w, a.appType)
    ensures var w' := Next(Next(w, Crash(a)), RecoverReads(a));
            OneTypeWorld(w', a.appType) && w'.store == w.store && Waiting(w', a, SnapshotOf(w.store, a))
  {
    StepKeepsOneType(w, Crash(a), a.appType);
    StepKeepsOneType(Next(w, Crash(a)), RecoverReads(a), a.appType);
    SnapshotIsExact(w, a);
    CrashThenReadMail(w, a);
  }

  lemma CrashThenReadMail(w: World, a: Node)
    ensures var w' := Next(Next(w, Crash(a)), RecoverReads(a));
            w'.store == w.store && Mail(w', a, SnapshotOf(w.store, a))
  {
  }

  lemma StepKeepsWaiting(w: World, step: Step, a: Node, players: map<UserId, LocalPlayer>)
    requires OneTypeWorld(w, a.appType) && Waiting(w, a, players) && step != Crash(a)
    requires step.LockCommits? ==> step.node.appType == a.appType
    requires step.node == a ==> Refused(w, step)
    ensures Waiting(Next(w, step), a, players)
  {
    if step.node != a {
      OthersKeepExact(w, step, a, players);
      OtherStepKeepsNode(w, step, a);
    } else {
      OwnStepKeepsExact(w, step, players);
      SnapshotIsExact(w, a);
      HeldExactlyOnce(w.store, a, players, SnapshotOf(w.store, a));
      OwnStepKeepsMail(w, step, players);
    }
  }

  lemma OwnStepKeepsMail(w: World, step: Step, players: map<UserId, LocalPlayer>)
    requires Mail(w, step.node, players) && players == SnapshotOf(w.store, step.node)
    requires !step.Crash? && Refused(w, step)
    ensures Mail(Next(w, step), step.node, players)
  {
    match step
    case LockReturns(a, u, p) => assert LockReply(a, u, p) !in w.wire;
    case UnlockReturns(a, u) => assert UnlockReply(a, u) !in w.wire;
    case RecoverReturns(a, ps) => ReturnKeepsMail(w, a, ps, players);
    case RecoverReads(a) => SendKeepsMail(w, a, Snapshot(a, players), players);
    case UnlockStarts(a, u) =>
      if u in w.Local(a) {
        SendKeepsMail(w, a, UnlockRequest(a, u, w.Local(a)[u]), players);
      }
    case SweepStarts(a, u) => SendKeepsMail(w, a, SweepRequest(a, u), players);
    case LockCommits(_, _, _) =>
    case UnlockCommits(_, _, _) =>
    case SweepCommits(_, _) =>
  }

  lemma SendKeepsMail(w: World, a: Node, m: Message, players: map<UserId, LocalPlayer>)
    requires Mail(w, a, players) && (m.IsRequest() || m == Snapshot(a, players))
    ensures Mail(w.Send(m), a, players)
  {
  }

  lemma ReturnKeepsMail(w: World, a: Node, ps: map<UserId, LocalPlayer>, players: map<UserId, LocalPlayer>)
    requires Mail(w, a, players)
    ensures Mail(Next(w, RecoverReturns(a, ps)), a, players)
  {
    assert Snapshot(a, ps) in w.wire ==> ps == players;
    assert players + map[] == players && players + players == players;
  }

  lemma {:induction false} RunKeepsWaiting(w: World, steps: seq<Step>, a: Node, players: map<UserId, LocalPlayer>)
    requires OneTypeWorld(w, a.appType) && OneType(steps, a.appType) && Waiting(w, a, players)
    requires Crash(a) !in steps && AllRefused(w, steps, a)
    ensures OneTypeWorld(Run(w, steps), a.appType) && Waiting(Run(w, steps), a, players)
    decreases |steps|
  {
    if steps != [] {
      var n := |steps| - 1;
      RunKeepsWaiting(w, steps[..n], a, players);
      StepKeepsWaiting(Run(w, steps[..n]), steps[n], a, players);
      StepKeepsOneType(Run(w, steps[..n]), steps[n], a.appType);
    }
  }

  lemma RecoveryReturns(w: World, a: Node, players: map<UserId, LocalPlayer>)
    requires Waiting(w, a, players)
    ensures var w' := Next(w, RecoverReturns(a, players)); w'.store == w.store && w'.Local(a) == players
  {
    assert players + map[] == players && players + players == players;
  }

  // ---------------------------------------------------------------- the recovery

  /** After a crash the node reads its keys back. */
  function Restarted(w: World, a: Node): World {
    Next(Next(w, Crash(a)), RecoverReads(a))
  }

  /** And after `during` the read returns. */
  function Recovered(w: World, during: seq<Step>, a: Node): World {
    Next(Run(Restarted(w, a), during), RecoverReturns(a, SnapshotOf(w.store, a)))
  }

  /**
   A node may crash after any run. What it reads back are exactly the users it holds; that
   stays so until the read returns, whatever happens, exactly when no request of the node
   itself, left over or new, commits meanwhile. Then these are its entries, and they stay
   exact, whatever happens, exactly as long as no request of the node commits and no reply
   tells it anything new.
   */
  lemma RestartRecovers(before: seq<Step>, during: seq<Step>, afterwards: seq<Step>, a: Node)
    requires OneType(before, a.appType) && OneType(during, a.appType) && OneType(afterwards, a.appType)
    ensures var w := Run(INITIAL, before);
            var w1, players := Restarted(w, a), SnapshotOf(w.store, a);
            && HeldExactly(w.store, a, players)
            && (SnapshotStays(w1, during, a, players) <==> AllRefused(w1, during, a))
            && (AllRefused(w1, during, a) && Crash(a) !in during ==>
                  var w2 := Recovered(w, during, a);
                  && w2.Local(a) == players && HeldExactly(w2.store, a, players)
                  && (EntriesStay(w2, afterwards, a) <==>
                        AllRefused(w2, afterwards, a) && AllUnheard(w2, afterwards, a)))
  {
    var w, t := Run(INITIAL, before), a.appType;
    var w1, players := Restarted(w, a), SnapshotOf(w.store, a);
    RunKeepsOneType(INITIAL, before, t);
    SnapshotIsExact(w, a);
    CrashThenRead(w, a);
    SnapshotStaysExact(w1, during, a, players);
    if AllRefused(w1, during, a) && Crash(a) !in during {
      RunKeepsWaiting(w1, during, a, players);
      RecoveryReturns(Run(w1, during), a, players);
      StepKeepsOneType(Run(w1, during), RecoverReturns(a, players), t);
      EntriesStayExact(Recovered(w, during, a), afterwards, a);
    }
  }

  /** The step takes a lock of u from its node, or changes what the node knows about u. */
  predicate Concerns(step: Step, a: Node, u: UserId) {
    step.node == a &&
    match step
    case Crash(_) => true
    case UnlockCommits(_, v, _) => v == u
    case SweepCommits(_, v) => v == u
    case LockReturns(_, v, _) => v == u
    case UnlockReturns(_, v) => v == u
    case _ => false
  }

  /** The entry is there and an unlock with it succeeds. */
  predicate Usable(w: World, a: Node, u: UserId, p: LocalPlayer) {
    u in w.Local(a) && w.Local(a)[u] == p && UnlockGuard(w.store, u, p) && w.store.Holds(UserKey(u), Owner(a))
  }

  lemma StepKeepsUsable(w: World, step: Step, a: Node, u: UserId, p: LocalPlayer)
    requires OneTypeWorld(w, a.appType) && (step.LockCommits? ==> step.node.appType == a.appType)
    requires Usable(w, a, u, p) && !Concerns(step, a, u)
    ensures Usable(Next(w, step), a, u, p)
  {
    HeldIsLocal(w, a, u);
    if step.node != a {
      UserKeySurvives(w, step, a, u);
      OtherStepKeepsNode(w, step, a);
    }
  }

  /**
   A user that was recovered, or locked, stays so with an entry that unlocks, in every run in
   which the node does not crash, nothing of it commits that gives the user up, and no reply
   about the user arrives; its calls about other users do not matter.
   */
  lemma {:induction false} EntryStays(w: World, steps: seq<Step>, a: Node, u: UserId, p: LocalPlayer)
    requires OneTypeWorld(w, a.appType) && OneType(steps, a.appType) && Usable(w, a, u, p)
    requires forall x | x in steps :: !Concerns(x, a, u)
    ensures Usable(Run(w, steps), a, u, p)
    decreases |steps|
  {
    if steps != [] {
      var n := |steps| - 1;
      EntryStays(w, steps[..n], a, u, p);
      RunKeepsOneType(w, steps[..n], a.appType);
      StepKeepsUsable(Run(w, steps[..n]), steps[n], a, u, p);
    }
  }

  /** So each user of a recovery can be unlocked at any later time. */
  lemma RecoveredEntryStays(before: seq<Step>, during: seq<Step>, afterwards: seq<Step>, a: Node, u: UserId)
    requires OneType(before, a.appType) && OneType(during, a.appType) && OneType(afterwards, a.appType)
    requires Crash(a) !in during && AllRefused(Restarted(Run(INITIAL, before), a), during, a)
    requires Run(INITIAL, before).store.Holds(UserKey(u), Owner(a))
    requires forall x | x in afterwards :: !Concerns(x, a, u)
    ensures var w := Run(INITIAL, before);
            var players := SnapshotOf(w.store, a);
            u in players && Usable(Run(Recovered(w, during, a), afterwards), a, u, players[u])
  {
    var w, players := Run(INITIAL, before), SnapshotOf(Run(INITIAL, before).store, a);
    RestartRecovers(before, during, [], a);
    RecoveredIsOneType(before, during, a);
    assert u in players && Usable(Recovered(w, during, a), a, u, players[u]);
    EntryStays(Recovered(w, during, a), afterwards, a, u, players[u]);
  }

  lemma RecoveredIsOneType(before: seq<Step>, during: seq<Step>, a: Node)
    requires OneType(before, a.appType) && OneType(during, a.appType)
    ensures OneTypeWorld(Recovered(Run(INITIAL, before), during, a), a.appType)
  {
    var w, t := Run(INITIAL, before), a.appType;
    RunKeepsOneType(INITIAL, before, t);
    CrashThenRead(w, a);
    RunKeepsOneType(Restarted(w, a), during, t);
    StepKeepsOneType(Run(Restarted(w, a), during), RecoverReturns(a, SnapshotOf(w.store, a)), t);
  }

  /** A whole lock call of the node, from its commit to its reply, leaves exact entries exact. */
  lemma LockCallKeepsExact(w: World, a: Node, u: UserId, now: int)
    requires OneTypeWorld(w, a.appType) && HeldExactly(w.store, a, w.Local(a)) && LockGuard(w.store, a, u)
    ensures var w1 := Next(w, LockCommits(a, u, now));
            var w2 := Next(w1, LockReturns(a, u, LocalPlayer(now, w1.store.revision)));
            w2.Local(a).Keys == w.Local(a).Keys + {u} && HeldExactly(w2.store, a, w2.Local(a))
  {
    var s' := LockTxn(w.store, a, u, now);
    LockWrites(w.store, a, u, now);
    assert Agreed(w.store, a.appType, u);
    forall v | v != u ensures OthersKeepUser(w.store, s', a, v) {
      HeldIsLocal(w, a, v);
    }
    OneMoreHeld(w.store, s', a, w.Local(a), u, LocalPlayer(now, s'.revision));
  }

  lemma OneMoreHeld(s: Db, s': Db, a: Node, players: map<UserId, LocalPlayer>, u: UserId, p: LocalPlayer)
    requires HeldExactly(s, a, players) && forall v | v != u :: OthersKeepUser(s, s', a, v)
    requires s'.Holds(UserKey(u), Owner(a)) && UnlockGuard(s', u, p) && s'.Holds(LocalKey(a, u), LoginTime(p.loginTime))
    ensures HeldExactly(s', a, players[u := p])
  {
    forall v | v != u
      ensures v in players <==> s'.Holds(UserKey(v), Owner(a))
      ensures v in players ==>
                UnlockGuard(s', v, players[v]) && s'.Holds(LocalKey(a, v), LoginTime(players[v].loginTime))
    {
      assert OthersKeepUser(s, s', a, v);
    }
  }

  /** And so does a whole unlock call. */
  lemma UnlockCallKeepsExact(w: World, a: Node, u: UserId)
    requires OneTypeWorld(w, a.appType) && HeldExactly(w.store, a, w.Local(a)) && u in w.Local(a)
    ensures var w1 := Next(Next(w, UnlockStarts(a, u)), UnlockCommits(a, u, w.Local(a)[u]));
            var w2 := Next(w1, UnlockReturns(a, u));
            w2.Local(a) == w.Local(a) - {u} && HeldExactly(w2.store, a, w2.Local(a))
  {
    var s' := UnlockTxn(w.store, a, u, w.Local(a)[u]);
    forall v | v != u ensures OthersKeepUser(w.store, s', a, v) {
      HeldIsLocal(w, a, v);
    }
    OneLessHeld(w.store, s', a, w.Local(a), u);
  }

  lemma OneLessHeld(s: Db, s': Db, a: Node, players: map<UserId, LocalPlayer>, u: UserId)
    requires HeldExactly(s, a, players) && (forall v | v != u :: OthersKeepUser(s, s', a, v))
    requires UserKey(u) !in s'.kvs
    ensures HeldExactly(s', a, players - {u})
  {
    forall v | v != u
      ensures v in players <==> s'.Holds(UserKey(v), Owner(a))
      ensures v in players ==>
                UnlockGuard(s', v, players[v]) && s'.Holds(LocalKey(a, v), LoginTime(players[v].loginTime))
    {
      assert OthersKeepUser(s, s', a, v);
    }
  }

  /** Every entry that is still good before a crash comes back unchanged, for any mix of types. */
  lemma RecoveryRestoresEntry(steps: seq<Step>, a: Node, u: UserId)
    requires var w := Run(INITIAL, steps); u in w.Local(a) && UnlockGuard(w.store, u, w.Local(a)[u])
    ensures var w := Run(INITIAL, steps); u in SnapshotOf(w.store, a) && SnapshotOf(w.store, a)[u] == w.Local(a)[u]
  {
    RunKeepsInv(steps);
    var w := Run(INITIAL, steps);
    assert TicketOk(w.store, a, u, w.Local(a)[u]);
    assert LocalKey(a, u) in w.store.kvs;
  }

  /**
   Each request of the dead process that still commits after the recovery spoils it: an unlock
   or a sweep leaves the entry of a user that is not held any more, a lock a held user without one.
   */
  lemma StaleRequestUndoesRecovery(w: World, step: Step)
    requires OneTypeWorld(w, step.node.appType) && !Refused(w, step)
    ensures var a, u := step.node, step.user;
            var w' := Next(Recovered(w, [], a), step);
            && !HeldExactly(w'.store, a, w'.Local(a))
            && (u in w'.Local(a) <==> !w'.store.Holds(UserKey(u), Owner(a)))
  {
    var a, u := step.node, step.user;
    var w2 := Recovered(w, [], a);
    RecoveredAtOnce(w, a);
    assert !Refused(w2, step);
    OwnCommitShows(w2, step);
    OneSideOnly(w2, step);
    assert u in w2.Local(a) <==> w2.store.Holds(UserKey(u), Owner(a));
  }

  /** A recovery with nothing in between: the store and the requests are as before, the entries exact. */
  lemma RecoveredAtOnce(w: World, a: Node)
    requires OneTypeWorld(w, a.appType)
    ensures var w2 := Recovered(w, [], a);
            && OneTypeWorld(w2, a.appType) && w2.store == w.store && HeldExactly(w2.store, a, w2.Local(a))
            && forall m | m in w.wire && m.IsRequest() :: m in w2.wire
  {
    CrashThenRead(w, a);
    RecoveryReturns(Restarted(w, a), a, SnapshotOf(w.store, a));
    StepKeepsOneType(Restarted(w, a), RecoverReturns(a, SnapshotOf(w.store, a)), a.appType);
  }

  /** Such a request is on the wire after a lock, its reply, and the start of a sweep. */
  lemma StaleSweepReachable(a: Node, u: UserId)
    ensures var w := Run(INITIAL, [LockCommits(a, u, 10), LockReturns(a, u, LocalPlayer(10, 1)), SweepStarts(a, u)]);
            SweepRequest(a, u) in w.wire && LocalKey(a, u) in w.store.kvs
  {
    var x1, x2, x3 := LockCommits(a, u, 10), LockReturns(a, u, LocalPlayer(10, 1)), SweepStarts(a, u);
    var s1 := [x1];
    var s2 := s1 + [x2];
    RunSnoc(INITIAL, [], x1);
    assert [] + s1 == s1;
    RunSnoc(INITIAL, s1, x2);
    RunSnoc(INITIAL, s2, x3);
    assert s2 + [x3] == [x1, x2, x3];
  }
}
