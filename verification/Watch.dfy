/**
 The local copy of the service table that registry/service.go keeps from its own calls and
 from a watch: a put event is ignored when the name is present, a delete event removes it.
 */
module Watch {
  import opened Prelude
  import S = Services

  type Name = S.Name

  datatype Event = Put(name: Name, owner: Node) | Delete(name: Name)

  /** How an event changes the table in the store. */
  function Stored(view: map<Name, Node>, e: Event): map<Name, Node> {
    match e
    case Put(n, o) => view[n := o]
    case Delete(n) => view - {n}
  }

  /** How the local copy takes an event. */
  function Cached(cache: map<Name, Node>, e: Event): map<Name, Node> {
    match e
    case Put(n, o) => LoadOrStore(cache, n, o)
    case Delete(n) => cache - {n}
  }

  function LoadOrStore(cache: map<Name, Node>, n: Name, o: Node): map<Name, Node> {
    if n in cache then cache else cache[n := o]
  }

  /** A name is put only when it is absent and deleted only when it is present. */
  predicate Legal(view: map<Name, Node>, e: Event) {
    e.Put? <==> e.name !in view
  }

  function View(log: seq<Event>): map<Name, Node>
    decreases |log|
  {
    if log == [] then map[] else Stored(View(log[..|log| - 1]), log[|log| - 1])
  }

  function Replay(cache: map<Name, Node>, events: seq<Event>): map<Name, Node>
    decreases |events|
  {
    if events == [] then cache else Cached(Replay(cache, events[..|events| - 1]), events[|events| - 1])
  }

  ghost predicate LegalLog(log: seq<Event>) {
    forall i | 0 <= i < |log| :: Legal(View(log[..i]), log[i])
  }

  lemma LegalSnoc(log: seq<Event>, e: Event)
    requires LegalLog(log) && Legal(View(log), e)
    ensures LegalLog(log + [e]) && View(log + [e]) == Stored(View(log), e) == Cached(View(log), e)
  {
    forall i | 0 <= i < |log + [e]| ensures Legal(View((log + [e])[..i]), (log + [e])[i]) {
      assert (log + [e])[..i] == log[..i];
      assert log[..|log|] == log;
    }
    assert (log + [e])[..|log|] == log;
  }

  // ---------------------------------------------------------------- the protocol produces legal events

  predicate IsTransaction(step: S.Step) {
    step.Registers? || step.Unregisters? || step.ShutsDown? || step.StartCleans?
  }

  /** The event that a step of the protocol causes, if it changes the table at all. */
  function EventOf(s: S.ServiceDb, step: S.Step): Event
    requires IsTransaction(step)
  {
    if S.ServiceKey(step.name) in s.kvs then Delete(step.name) else Put(step.name, step.node)
  }

  /**
   Whatever a node does changes the service table by at most one legal event: a put of itself,
   or a delete of something it owns.
   */
  lemma StepsAreLegalEvents(steps: seq<S.Step>, step: S.Step)
    ensures var w := S.Run(S.NOTHING, steps);
            var view, view' := S.ServiceView(w.store), S.ServiceView(S.Next(w, step).store);
            view' == view || exists e :: Legal(view, e) && view' == Stored(view, e) &&
                               (if e.Put? then e.owner == step.node else view[e.name] == step.node)
  {
    S.RunKeepsInv(steps);
    StepIsLegalEvent(S.Run(S.NOTHING, steps), step);
  }

  lemma StepIsLegalEvent(w: S.World, step: S.Step)
    requires S.Inv(w)
    ensures var view, view' := S.ServiceView(w.store), S.ServiceView(S.Next(w, step).store);
            view' == view || exists e :: Legal(view, e) && view' == Stored(view, e) &&
                               (if e.Put? then e.owner == step.node else view[e.name] == step.node)
  {
    var s, s' := w.store, S.Next(w, step).store;
    var view, view' := S.ServiceView(s), S.ServiceView(s');
    ViewKeys(s);
    ViewKeys(s');
    if IsTransaction(step) {
      if s'.kvs != s.kvs {
        ChangeIsTheEvent(w, step);
        TableTakesEvent(s, s', step);
      }
    }
  }

  /** No other service key differs. */
  ghost predicate OthersSame(s: S.ServiceDb, s': S.ServiceDb, n: S.ServiceStoreKey) {
    forall k: S.ServiceStoreKey | k.ServiceKey? && k != n ::
      (k in s'.kvs <==> k in s.kvs) && (k in s.kvs ==> s'.kvs[k] == s.kvs[k])
  }

  lemma TableTakesEvent(s: S.ServiceDb, s': S.ServiceDb, step: S.Step)
    requires IsTransaction(step)
    requires var n := S.ServiceKey(step.name);
            && OthersSame(s, s', n)
            && (if n in s.kvs then s.kvs[n].value == step.node && n !in s'.kvs else s'.Holds(n, step.node))
    ensures var e := EventOf(s, step);
            && Legal(S.ServiceView(s), e) && S.ServiceView(s') == Stored(S.ServiceView(s), e)
            && (if e.Put? then e.owner == step.node else S.ServiceView(s)[e.name] == step.node)
  {
    ViewKeys(s);
    ViewKeys(s');
    var view := Stored(S.ServiceView(s), EventOf(s, step));
    forall n ensures (n in S.ServiceView(s') <==> n in view) && (n in view ==> S.ServiceView(s')[n] == view[n]) {
      assert n in S.ServiceView(s) <==> S.ServiceKey(n) in s.kvs;
    }
  }

  lemma ViewKeys(s: S.ServiceDb)
    ensures forall n :: n in S.ServiceView(s) <==> S.ServiceKey(n) in s.kvs
    ensures forall n | n in S.ServiceView(s) :: S.ServiceView(s)[n] == s.kvs[S.ServiceKey(n)].value
  {
  }

  lemma ChangeIsTheEvent(w: S.World, step: S.Step)
    requires S.Inv(w) && IsTransaction(step)
    requires S.Next(w, step).store.kvs != w.store.kvs
    ensures var s, s', n := w.store, S.Next(w, step).store, S.ServiceKey(step.name);
            && OthersSame(s, s', n)
            && (if n in s.kvs then s.kvs[n].value == step.node && n !in s'.kvs else s'.Holds(n, step.node))
  {
  }

  predicate ChangesTable(w: S.World, step: S.Step) {
    IsTransaction(step) && S.ServiceView(S.Next(w, step).store) != S.ServiceView(w.store)
  }

  /** The events of a run of the protocol. */
  function LogOf(steps: seq<S.Step>): seq<Event>
    decreases |steps|
  {
    if steps == [] then [] else
    var before, x := steps[..|steps| - 1], steps[|steps| - 1];
    var w := S.Run(S.NOTHING, before);
    LogOf(before) + if ChangesTable(w, x) then [EventOf(w.store, x)] else []
  }

  /** One step of the protocol, and the log that goes with it. */
  lemma StepLogs(w: S.World, step: S.Step, log: seq<Event>)
    requires S.Inv(w) && LegalLog(log) && View(log) == S.ServiceView(w.store)
    ensures !ChangesTable(w, step) ==> S.ServiceView(S.Next(w, step).store) == View(log)
    ensures ChangesTable(w, step) ==>
              var e := EventOf(w.store, step);
              && LegalLog(log + [e]) && View(log + [e]) == S.ServiceView(S.Next(w, step).store) == Cached(View(log), e)
              && (e.Delete? ==> View(log)[e.name] == step.node && !step.Registers?)
              && (e.Put? ==> e.owner == step.node && step.Registers?)
              && Legal(View(log), e)
  {
    if ChangesTable(w, step) {
      ChangeIsTheEvent(w, step);
      TableTakesEvent(w.store, S.Next(w, step).store, step);
      LegalSnoc(log, EventOf(w.store, step));
      EventKinds(w, step);
    }
  }

  lemma EventKinds(w: S.World, step: S.Step)
    requires S.Inv(w) && ChangesTable(w, step)
    ensures EventOf(w.store, step).Put? <==> step.Registers?
  {
    if !step.Registers? && S.ServiceKey(step.name) !in w.store.kvs {
      ViewKeys(w.store);
      ViewKeys(S.Next(w, step).store);
      assert false;
    }
  }

  /** The events of a run are legal, and the table is what they add up to. */
  lemma {:induction false} LogIsTable(steps: seq<S.Step>)
    ensures LegalLog(LogOf(steps)) && View(LogOf(steps)) == S.ServiceView(S.Run(S.NOTHING, steps).store)
    decreases |steps|
  {
    if steps != [] {
      var before := steps[..|steps| - 1];
      LogIsTable(before);
      S.RunKeepsInv(before);
      StepLogs(S.Run(S.NOTHING, before), steps[|steps| - 1], LogOf(before));
      assert LogOf(before) + [] == LogOf(before);
    }
  }

  // ---------------------------------------------------------------- one node

  /**
   The whole system, the log of its service table, how far this node has read it, its local
   copy, and the places in the log of its own registrations that have committed and not returned.
   */
  datatype Watcher = Watcher(self: Node, db: S.World, log: seq<Event>, cursor: nat,
                             cache: map<Name, Node>, pending: set<nat>)

  datatype Step =
    | Protocol(step: S.Step)
    | RegisterReturns(place: nat)
    | RegisterFails(place: nat)
    | EventArrives

  /** One step: of any node in the protocol, or what reaches this node: a reply, its loss, an event. */
  function Next(w: Watcher, step: Step): Watcher {
    match step
    case Protocol(x) => Committed(w, x)
    case RegisterReturns(i) =>
      if i in w.pending && i < |w.log| then
        w.(cache := LoadOrStore(w.cache, w.log[i].name, w.self), pending := w.pending - {i})
      else
        w
    case RegisterFails(i) => w.(pending := w.pending - {i})
    case EventArrives =>
      if w.cursor < |w.log| then w.(cache := Cached(w.cache, w.log[w.cursor]), cursor := w.cursor + 1) else w
  }

  function Committed(w: Watcher, x: S.Step): Watcher {
    var w' := w.(db := S.Next(w.db, x));
    if !ChangesTable(w.db, x) then w' else
    w'.(log := w.log + [EventOf(w.db.store, x)],
        pending := if x.Registers? && x.node == w.self then w.pending + {|w.log|} else w.pending)
  }

  function Run(w: Watcher, steps: seq<Step>): Watcher
    decreases |steps|
  {
    if steps == [] then w else Next(Run(w, steps[..|steps| - 1]), steps[|steps| - 1])
  }

  /** The table is read after some run of the protocol, and the watch starts right after it. */
  function Started(self: Node, history: seq<S.Step>): Watcher {
    var db := S.Run(S.NOTHING, history);
    Watcher(self, db, LogOf(history), |LogOf(history)|, S.ServiceView(db.store), {})
  }

  ghost predicate Inv(w: Watcher) {
    && S.Inv(w.db) && LegalLog(w.log) && View(w.log) == S.ServiceView(w.db.store) && w.cursor <= |w.log|
    && forall i | i in w.pending :: i < |w.log| && w.log[i] == Put(w.log[i].name, w.self)
  }

  /** The events still to be read complete the copy. */
  ghost predicate OnTrack(w: Watcher) {
    w.cursor <= |w.log| && Replay(w.cache, w.log[w.cursor..]) == S.ServiceView(w.db.store)
  }

  ghost predicate Untouched(events: seq<Event>, n: Name) {
    forall i | 0 <= i < |events| :: events[i].name != n
  }

  /** The event at place i put n there, and nothing has happened to n since. */
  ghost predicate Stands(log: seq<Event>, i: nat, n: Name, o: Node) {
    i < |log| && log[i] == Put(n, o) && Untouched(log[i + 1..], n)
  }

  lemma {:induction false} ReplayCons(cache: map<Name, Node>, e: Event, events: seq<Event>)
    ensures Replay(cache, [e] + events) == Replay(Cached(cache, e), events)
    decreases |events|
  {
    if events == [] {
      assert ([e] + events)[..0] == [];
    } else {
      ReplayCons(cache, e, events[..|events| - 1]);
      assert ([e] + events)[..|events|] == [e] + events[..|events| - 1];
    }
  }

  /** Names that no event mentions keep their entry. */
  lemma {:induction false} ReplayUntouched(cache: map<Name, Node>, events: seq<Event>, n: Name)
    requires Untouched(events, n)
    ensures (n in Replay(cache, events) <==> n in cache) && (n in cache ==> Replay(cache, events)[n] == cache[n])
    decreases |events|
  {
    if events != [] {
      ReplayUntouched(cache, events[..|events| - 1], n);
    }
  }

  // ---------------------------------------------------------------- when a late entry does no harm

  /** The events wipe out whether n was present with owner o, or absent, before them. */
  ghost predicate Forgets(events: seq<Event>, n: Name, o: Node) {
    || (exists i :: 0 <= i < |events| && events[i] == Delete(n))
    || (exists i :: 0 <= i < |events| && events[i] == Put(n, o) && Untouched(events[..i], n))
  }

  /**
   Storing a registration in the copy changes what the copy will become exactly when the name
   was absent and the events still to come do not forget it.
   */
  lemma StoreIsHarmless(cache: map<Name, Node>, events: seq<Event>, n: Name, o: Node)
    ensures Replay(LoadOrStore(cache, n, o), events) == Replay(cache, events) <==> n in cache || Forgets(events, n, o)
  {
    if n !in cache {
      ReplayOfTwo(cache, events, n, o);
    }
  }

  lemma {:induction false} ReplayOfTwo(cache: map<Name, Node>, events: seq<Event>, n: Name, o: Node)
    requires n !in cache
    ensures var a, b := Replay(cache, events), Replay(cache[n := o], events);
            && (a == b <==> Forgets(events, n, o))
            && a - {n} == b - {n}
            && (a != b ==> n in b && b[n] == o)
            && (n !in a && a != b ==> Untouched(events, n))
            && (Untouched(events, n) ==> n !in a && a != b)
    decreases |events|
  {
    if events != [] {
      var k := |events| - 1;
      var before, e := events[..k], events[k];
      ReplayOfTwo(cache, before, n, o);
      assert events == before + [e];
      ForgetsSnoc(before, e, n, o);
      var a, b := Replay(cache, before), Replay(cache[n := o], before);
      assert Replay(cache, events) == Cached(a, e) && Replay(cache[n := o], events) == Cached(b, e);
      CachedOfTwo(a, b, e, n);
      assert Untouched(events, n) <==> Untouched(before, n) && e.name != n;
    }
  }

  /** Two copies that differ at most at n, after one event. */
  lemma CachedOfTwo(a: map<Name, Node>, b: map<Name, Node>, e: Event, n: Name)
    requires a - {n} == b - {n}
    ensures var a', b' := Cached(a, e), Cached(b, e);
            && a' - {n} == b' - {n}
            && (e.name != n ==>
                  && (n in a' <==> n in a) && (n in b' <==> n in b)
                  && (n in a ==> a'[n] == a[n]) && (n in b ==> b'[n] == b[n])
                  && (a' == b' <==> a == b))
            && (e == Delete(n) ==> a' == b' && n !in a')
            && (e.Put? && e.name == n && n in b ==>
                  && b' == b && (n in a ==> a' == a)
                  && (n !in a ==> n in a' && (a' == b' <==> e.owner == b[n])))
  {
    var a', b' := Cached(a, e), Cached(b, e);
    forall m | m != n
      ensures (m in a <==> m in b) && (m in a ==> a[m] == b[m])
      ensures (m in a' <==> m in b') && (m in a' ==> a'[m] == b'[m])
    {
      assert m in a <==> m in a - {n};
      assert m in b <==> m in b - {n};
      assert m in a ==> a[m] == (a - {n})[m] && b[m] == (b - {n})[m];
    }
    assert a' - {n} == b' - {n};
    if e.name != n && a' == b' {
      assert (n in a <==> n in a') && (n in b <==> n in b');
      assert a == b;
    }
    if e.Put? && e.name == n && n in b && n !in a && e.owner == b[n] {
      assert a' == b';
    }
    if e == Delete(n) {
      assert a' == a - {n} && b' == b - {n};
    }
  }

  lemma ForgetsSnoc(before: seq<Event>, e: Event, n: Name, o: Node)
    ensures Forgets(before + [e], n, o)
            <==> Forgets(before, n, o) || e == Delete(n) || (e == Put(n, o) && Untouched(before, n))
  {
    var all := before + [e];
    if Forgets(before, n, o) {
      if i :| 0 <= i < |before| && before[i] == Delete(n) {
        assert all[i] == Delete(n);
      } else {
        var i :| 0 <= i < |before| && before[i] == Put(n, o) && Untouched(before[..i], n);
        assert all[i] == Put(n, o) && all[..i] == before[..i];
      }
    }
    if e == Delete(n) || (e == Put(n, o) && Untouched(before, n)) {
      assert all[|before|] == e && all[..|before|] == before;
    }
    if Forgets(all, n, o) {
      if i :| 0 <= i < |all| && all[i] == Delete(n) {
        assert i < |before| ==> before[i] == Delete(n);
      } else {
        var i :| 0 <= i < |all| && all[i] == Put(n, o) && Untouched(all[..i], n);
        if i < |before| {
          assert before[i] == Put(n, o) && before[..i] == all[..i];
        } else {
          assert all[..i] == before;
        }
      }
    }
  }

  /** A put that nothing has followed still stands. */
  lemma {:induction false} HeldWhilePending(log: seq<Event>, i: nat, n: Name, o: Node)
    requires Stands(log, i, n, o)
    ensures n in View(log) && View(log)[n] == o
    decreases |log|
  {
    var k := |log| - 1;
    if i < k {
      assert log[..k][i + 1..] == log[i + 1..][..k - i - 1];
      assert log[k] == log[i + 1..][k - i - 1];
      HeldWhilePending(log[..k], i, n, o);
    }
  }

  lemma {:induction false} StaysUntilDeleted(log: seq<Event>, j: nat, i: nat, n: Name)
    requires j <= i <= |log| && n in View(log[..j]) && Delete(n) !in log[j..i]
    ensures n in View(log[..i])
    decreases i
  {
    if j < i {
      assert log[j..i - 1] == log[j..i][..i - 1 - j];
      StaysUntilDeleted(log, j, i - 1, n);
      assert log[..i][..i - 1] == log[..i - 1];
      assert log[i - 1] == log[j..i][i - 1 - j];
    }
  }

  /** Events on a name before a put of it include a delete of it. */
  lemma DeletedBeforePut(log: seq<Event>, c: nat, i: nat, n: Name)
    requires LegalLog(log) && c <= i < |log| && log[i].Put? && log[i].name == n
    requires !Untouched(log[c..i], n)
    ensures Delete(n) in log[c..i]
  {
    var k :| 0 <= k < i - c && log[c..i][k].name == n;
    var j := c + k;
    assert log[j] == log[c..i][k];
    if log[j].Put? && Delete(n) !in log[c..i] {
      assert log[..j + 1][..j] == log[..j];
      assert n in View(log[..j + 1]);
      assert forall e | e in log[j + 1..i] :: e in log[c..i];
      StaysUntilDeleted(log, j + 1, i, n);
      assert false;
    }
  }

  lemma StandsAfter(log: seq<Event>, i: nat, o: Node, e: Event)
    requires i < |log| && Stands(log, i, log[i].name, o) && e.name != log[i].name
    ensures Stands(log + [e], i, (log + [e])[i].name, o)
  {
    assert (log + [e])[i + 1..] == log[i + 1..] + [e];
  }

  lemma StandsLast(log: seq<Event>, e: Event)
    ensures e.Put? ==> Stands(log + [e], |log|, e.name, e.owner)
  {
    assert (log + [e])[|log| + 1..] == [];
  }

  lemma ReplayAfter(cache: map<Name, Node>, log: seq<Event>, cursor: nat, e: Event)
    requires cursor <= |log|
    ensures Replay(cache, (log + [e])[cursor..]) == Cached(Replay(cache, log[cursor..]), e)
  {
    assert (log + [e])[cursor..] == log[cursor..] + [e];
    assert (log[cursor..] + [e])[..|log| - cursor] == log[cursor..];
  }

  lemma CommitKeepsInv(w: Watcher, x: S.Step)
    requires Inv(w)
    ensures Inv(Committed(w, x)) && Committed(w, x).self == w.self
  {
    StepLogs(w.db, x, w.log);
    S.StepKeepsInv(w.db, x);
    CommitKeepsPending(w, x);
  }

  lemma CommitKeepsPending(w: Watcher, x: S.Step)
    requires S.Inv(w.db) && forall i | i in w.pending :: i < |w.log| && w.log[i] == Put(w.log[i].name, w.self)
    ensures var w' := Committed(w, x);
            forall i | i in w'.pending :: i < |w'.log| && w'.log[i] == Put(w'.log[i].name, w.self)
  {
    if ChangesTable(w.db, x) {
      EventKinds(w.db, x);
    }
  }

  lemma StepKeepsInv(w: Watcher, step: Step)
    requires Inv(w)
    ensures Inv(Next(w, step)) && Next(w, step).self == w.self
  {
    if step.Protocol? {
      CommitKeepsInv(w, step.step);
    }
  }

  // ---------------------------------------------------------------- when the copy stays on track

  /** A registration that returns finds its name in the copy, or the events still to be read forget it. */
  ghost predicate Harmless(w: Watcher, step: Step) {
    step.RegisterReturns? && step.place in w.pending && step.place < |w.log| && w.cursor <= |w.log| ==>
      var n := w.log[step.place].name;
      n in w.cache || Forgets(w.log[w.cursor..], n, w.self)
  }

  /** What any node commits changes the table and lengthens what is still to be read alike. */
  lemma CommitKeepsTrack(w: Watcher, x: S.Step)
    requires Inv(w) && OnTrack(w)
    ensures OnTrack(Committed(w, x))
  {
    StepLogs(w.db, x, w.log);
    if ChangesTable(w.db, x) {
      ReplayAfter(w.cache, w.log, w.cursor, EventOf(w.db.store, x));
    }
  }

  lemma ReturnKeepsTrack(w: Watcher, i: nat)
    requires Inv(w) && OnTrack(w) && i in w.pending
    ensures OnTrack(Next(w, RegisterReturns(i))) <==> Harmless(w, RegisterReturns(i))
  {
    StoreIsHarmless(w.cache, w.log[w.cursor..], w.log[i].name, w.self);
  }

  lemma ArrivalKeepsTrack(w: Watcher)
    requires Inv(w) && OnTrack(w) && w.cursor < |w.log|
    ensures OnTrack(Next(w, EventArrives))
  {
    ReplayNext(w.cache, w.log, w.cursor);
  }

  lemma ReplayNext(cache: map<Name, Node>, log: seq<Event>, cursor: nat)
    requires cursor < |log|
    ensures Replay(cache, log[cursor..]) == Replay(Cached(cache, log[cursor]), log[cursor + 1..])
  {
    ReplayCons(cache, log[cursor], log[cursor + 1..]);
    assert log[cursor..] == [log[cursor]] + log[cursor + 1..];
  }

  /** A copy on track stays so in every step but one: a registration that returns and is not harmless. */
  lemma StepKeepsTrack(w: Watcher, step: Step)
    requires Inv(w) && OnTrack(w)
    ensures OnTrack(Next(w, step)) <==> Harmless(w, step)
  {
    match step
    case Protocol(x) => CommitKeepsTrack(w, x);
    case RegisterReturns(i) =>
      if i in w.pending {
        ReturnKeepsTrack(w, i);
      }
    case RegisterFails(_) =>
    case EventArrives =>
      if w.cursor < |w.log| {
        ArrivalKeepsTrack(w);
      }
  }

  ghost predicate TrackKept(w: Watcher, steps: seq<Step>)
    decreases |steps|
  {
    OnTrack(Run(w, steps)) && (steps != [] ==> TrackKept(w, steps[..|steps| - 1]))
  }

  ghost predicate AllHarmless(w: Watcher, steps: seq<Step>)
    decreases |steps|
  {
    steps != [] ==>
      AllHarmless(w, steps[..|steps| - 1]) && Harmless(Run(w, steps[..|steps| - 1]), steps[|steps| - 1])
  }

  lemma {:induction false} RunKeepsTrack(w: Watcher, steps: seq<Step>)
    requires Inv(w) && OnTrack(w)
    ensures Inv(Run(w, steps)) && Run(w, steps).self == w.self && (TrackKept(w, steps) <==> AllHarmless(w, steps))
    decreases |steps|
  {
    if steps != [] {
      var before := steps[..|steps| - 1];
      RunKeepsTrack(w, before);
      StepKeepsInv(Run(w, before), steps[|steps| - 1]);
      if TrackKept(w, before) {
        StepKeepsTrack(Run(w, before), steps[|steps| - 1]);
      }
    }
  }

  lemma StartsOnTrack(self: Node, history: seq<S.Step>)
    ensures Inv(Started(self, history)) && OnTrack(Started(self, history))
  {
    LogIsTable(history);
    S.RunKeepsInv(history);
    assert LogOf(history)[|LogOf(history)|..] == [];
  }

  /**
   For every interleaving of all nodes' calls, replies and watch events: the events still to be
   read complete the copy at every point exactly when each registration of the node returns
   harmlessly. Then, with everything read, the copy is the table in the store.
   */
  lemma Converges(self: Node, history: seq<S.Step>, steps: seq<Step>)
    ensures var w0, w := Started(self, history), Run(Started(self, history), steps);
            && (TrackKept(w0, steps) <==> AllHarmless(w0, steps))
            && (AllHarmless(w0, steps) && w.cursor == |w.log| ==> w.cache == S.ServiceView(w.db.store))
  {
    StartsOnTrack(self, history);
    RunKeepsTrack(Started(self, history), steps);
    var w := Run(Started(self, history), steps);
    assert w.cursor == |w.log| ==> w.log[w.cursor..] == [];
  }

  // ---------------------------------------------------------------- when returns are harmless

  lemma StandsForgets(log: seq<Event>, cursor: nat, i: nat, n: Name, o: Node)
    requires LegalLog(log) && cursor <= i && Stands(log, i, n, o)
    ensures Forgets(log[cursor..], n, o)
  {
    var events, k := log[cursor..], i - cursor;
    assert events[k] == Put(n, o) && events[..k] == log[cursor..i];
    if !Untouched(events[..k], n) {
      DeletedBeforePut(log, cursor, i, n);
      var j :| 0 <= j < k && log[cursor..i][j] == Delete(n);
      assert events[j] == Delete(n);
    }
  }

  /** A registration that still stands returns harmlessly. */
  lemma ReturnIsHarmless(w: Watcher, i: nat)
    requires Inv(w) && OnTrack(w) && i in w.pending && Stands(w.log, i, w.log[i].name, w.self)
    ensures Harmless(w, RegisterReturns(i))
  {
    var n, events := w.log[i].name, w.log[w.cursor..];
    if w.cursor <= i {
      StandsForgets(w.log, w.cursor, i, n, w.self);
    } else {
      assert events == w.log[i + 1..][w.cursor - i - 1..];
      HeldWhilePending(w.log, i, n, w.self);
      ReplayUntouched(w.cache, events, n);
    }
  }

  ghost predicate AllStand(w: Watcher) {
    forall i | i in w.pending :: i < |w.log| && Stands(w.log, i, w.log[i].name, w.self)
  }

  /** The node gives no name up while a registration of that name has not returned. */
  predicate Careful(w: Watcher, step: Step) {
    step.Protocol? && step.step.node == w.self && IsTransaction(step.step) && !step.step.Registers? ==>
      forall i | i in w.pending && i < |w.log| :: w.log[i].name != step.step.name
  }

  predicate AllCareful(w: Watcher, steps: seq<Step>)
    decreases |steps|
  {
    steps != [] ==>
      AllCareful(w, steps[..|steps| - 1]) && Careful(Run(w, steps[..|steps| - 1]), steps[|steps| - 1])
  }

  lemma StepKeepsStanding(w: Watcher, step: Step)
    requires Inv(w) && AllStand(w) && Careful(w, step)
    ensures AllStand(Next(w, step))
  {
    if step.Protocol? && ChangesTable(w.db, step.step) {
      CommitKeepsStanding(w, step.step);
    }
  }

  lemma CommitKeepsStanding(w: Watcher, x: S.Step)
    requires Inv(w) && AllStand(w) && Careful(w, Protocol(x)) && ChangesTable(w.db, x)
    ensures AllStand(Committed(w, x))
  {
    var w' := Committed(w, x);
    forall i | i in w'.pending ensures i < |w'.log| && Stands(w'.log, i, w'.log[i].name, w.self) {
      if i in w.pending {
        PendingIsOther(w, i, x);
        StandsAfter(w.log, i, w.self, EventOf(w.db.store, x));
      } else {
        EventKinds(w.db, x);
        StandsLast(w.log, EventOf(w.db.store, x));
      }
    }
  }

  lemma PendingIsOther(w: Watcher, i: nat, x: S.Step)
    requires Inv(w) && AllStand(w) && Careful(w, Protocol(x)) && i in w.pending && ChangesTable(w.db, x)
    ensures EventOf(w.db.store, x).name != w.log[i].name
  {
    StepLogs(w.db, x, w.log);
    HeldWhilePending(w.log, i, w.log[i].name, w.self);
  }

  /** A node that is careful stays on track, whatever the other nodes do and however late replies and events are. */
  lemma {:induction false} CarefulConverges(self: Node, history: seq<S.Step>, steps: seq<Step>)
    requires AllCareful(Started(self, history), steps)
    ensures AllHarmless(Started(self, history), steps) && AllStand(Run(Started(self, history), steps))
    decreases |steps|
  {
    if steps != [] {
      var before, x, w0 := steps[..|steps| - 1], steps[|steps| - 1], Started(self, history);
      CarefulConverges(self, history, before);
      StartsOnTrack(self, history);
      RunKeepsTrack(w0, before);
      StepKeepsStanding(Run(w0, before), x);
      if x.RegisterReturns? && x.place in Run(w0, before).pending {
        ReturnIsHarmless(Run(w0, before), x.place);
      }
    }
  }

  // ---------------------------------------------------------------- when one is not

  /**
   A registration that returns when everything was read and the name is gone again leaves an
   entry that is not in the table; it goes exactly with events that forget it.
   */
  lemma LateReturnIsStale(w: Watcher, i: nat, later: seq<Event>)
    requires Inv(w) && OnTrack(w) && i in w.pending && w.cursor == |w.log|
    requires w.log[i].name !in S.ServiceView(w.db.store)
    ensures var n, stale, view := w.log[i].name, Next(w, RegisterReturns(i)).cache, S.ServiceView(w.db.store);
            && n in stale && stale != view
            && (Replay(stale, later) == Replay(view, later) <==> Forgets(later, n, w.self))
  {
    assert w.log[w.cursor..] == [];
    StoreIsHarmless(w.cache, later, w.log[i].name, w.self);
  }

  /** A node in step with the table registers a name and gives it up again, and reads both events. */
  function CameAndWent(w: Watcher, n: Name): Watcher {
    var w2 := Next(Next(w, Protocol(S.Registers(w.self, n))), EventArrives);
    Next(Next(w2, Protocol(S.Unregisters(w.self, n))), EventArrives)
  }

  /** When the first call returns only then, its entry is stale. */
  lemma LateReturnHappens(w: Watcher, n: Name)
    requires Inv(w) && OnTrack(w) && w.cursor == |w.log| && w.db.PhaseOf(w.self).Running?
    requires n !in S.ServiceView(w.db.store)
    ensures var w', i := CameAndWent(w, n), |w.log|;
            && Inv(w') && OnTrack(w') && i in w'.pending && w'.cursor == |w'.log| && w'.log[i].name == n
            && S.ServiceView(w'.db.store) == S.ServiceView(w.db.store)
            && Next(w', RegisterReturns(i)).cache == S.ServiceView(w.db.store)[n := w.self]
  {
    Comes(w, n);
    var w2 := Next(Next(w, Protocol(S.Registers(w.self, n))), EventArrives);
    Goes(w2, n);
    assert w.log[w.cursor..] == [];
    assert S.ServiceView(w.db.store)[n := w.self] - {n} == S.ServiceView(w.db.store);
  }

  /** One event is left to read, and it is read. */
  lemma LastArrives(w: Watcher)
    requires Inv(w) && OnTrack(w) && w.cursor + 1 == |w.log|
    ensures var w' := Next(w, EventArrives);
            && Inv(w') && OnTrack(w') && w' == w.(cache := S.ServiceView(w.db.store), cursor := |w.log|)
  {
    StepKeepsInv(w, EventArrives);
    StepKeepsTrack(w, EventArrives);
    var w' := Next(w, EventArrives);
    assert w'.log[w'.cursor..] == [];
  }

  lemma CommitAndArrive(w: Watcher, x: S.Step)
    requires Inv(w) && OnTrack(w) && w.cursor == |w.log| && ChangesTable(w.db, x)
    ensures var w1, e := Committed(w, x), EventOf(w.db.store, x);
            var w2 := Next(w1, EventArrives);
            && Inv(w2) && OnTrack(w2) && S.ServiceView(w1.db.store) == Stored(S.ServiceView(w.db.store), e)
            && w2 == w1.(cache := S.ServiceView(w1.db.store), cursor := |w.log| + 1)
  {
    StepLogs(w.db, x, w.log);
    StepKeepsInv(w, Protocol(x));
    StepKeepsTrack(w, Protocol(x));
    LastArrives(Committed(w, x));
  }

  lemma RegisterPuts(w: S.World, a: Node, n: Name)
    requires w.PhaseOf(a).Running? && n !in S.ServiceView(w.store)
    ensures var x := S.Registers(a, n);
            ChangesTable(w, x) && EventOf(w.store, x) == Put(n, a) && S.Next(w, x).PhaseOf(a).Running?
  {
    ViewKeys(w.store);
    ViewKeys(S.Next(w, S.Registers(a, n)).store);
    assert n in S.ServiceView(S.Next(w, S.Registers(a, n)).store);
  }

  lemma Comes(w: Watcher, n: Name)
    requires Inv(w) && OnTrack(w) && w.cursor == |w.log| && w.db.PhaseOf(w.self).Running?
    requires n !in S.ServiceView(w.db.store)
    ensures var w2 := Next(Next(w, Protocol(S.Registers(w.self, n))), EventArrives);
            && Inv(w2) && OnTrack(w2) && w2.self == w.self
            && w2.cursor == |w2.log| && w2.log == w.log + [Put(n, w.self)]
            && |w.log| in w2.pending && w2.db.PhaseOf(w.self).Running?
            && S.ServiceView(w2.db.store) == S.ServiceView(w.db.store)[n := w.self]
  {
    RegisterPuts(w.db, w.self, n);
    CommitAndArrive(w, S.Registers(w.self, n));
  }

  lemma Goes(w: Watcher, n: Name)
    requires Inv(w) && OnTrack(w) && w.cursor == |w.log| && w.db.PhaseOf(w.self).Running?
    requires n in S.ServiceView(w.db.store) && S.ServiceView(w.db.store)[n] == w.self
    ensures var w2 := Next(Next(w, Protocol(S.Unregisters(w.self, n))), EventArrives);
            && Inv(w2) && OnTrack(w2) && w2.self == w.self && w2.cursor == |w2.log| && w2.log == w.log + [Delete(n)]
            && w2.pending == w.pending && S.ServiceView(w2.db.store) == S.ServiceView(w.db.store) - {n}
            && w2.cache == S.ServiceView(w2.db.store)
  {
    var x := S.Unregisters(w.self, n);
    ViewKeys(w.db.store);
    ViewKeys(S.Next(w.db, x).store);
    assert n !in S.ServiceView(S.Next(w.db, x).store);
    CommitAndArrive(w, x);
  }

  /** Such a node is one that has just started. */
  lemma LateReturnReachable(self: Node)
    ensures var w := Started(self, [S.StartReads(self), S.StartEnds(self)]);
            && Inv(w) && OnTrack(w) && w.cursor == |w.log| && w.db.PhaseOf(self).Running?
            && S.ServiceView(w.db.store) == map[]
  {
    var history := [S.StartReads(self), S.StartEnds(self)];
    assert history[..1] == [S.StartReads(self)] && history[..1][..0] == [];
    assert S.Run(S.NOTHING, history[..1]) == S.Next(S.NOTHING, history[0]);
    StartsOnTrack(self, history);
  }
}
