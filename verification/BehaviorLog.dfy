/**
 The batched log queue of gen/gen_behavior/gen_behavior.go: `Log` appends an insert, `Sync` takes
 a batch, sends it as an unordered bulk write, and puts the whole batch back when that fails.
 */
module BehaviorLog {

  datatype Entry = Entry(id: nat, text: string)

  predicate HasId(docs: seq<Entry>, id: nat) {
    exists e | e in docs :: e.id == id
  }

  ghost predicate IdsDiffer(s: seq<Entry>) {
    forall i, j | 0 <= i < j < |s| :: s[i].id != s[j].id
  }

  // ---------------------------------------------------------------- one sync

  /** How many entries a sync takes off a queue of length `n`; a step of 0 means all. */
  function BatchSize(n: nat, step: nat): nat {
    if step != 0 && step <= n then step else n
  }

  /** The collection after an unordered bulk insert; `lands` are the inserts that the store carries out. */
  function Inserted(docs: seq<Entry>, models: seq<Entry>, lands: set<Entry>): seq<Entry>
    decreases |models|
  {
    if models == [] then docs else
    var before, e := Inserted(docs, models[..|models| - 1], lands), models[|models| - 1];
    if e in lands && !HasId(before, e.id) then before + [e] else before
  }

  /** An insert that is not carried out, or that meets its id, makes the whole bulk write report an error. */
  predicate Failed(docs: seq<Entry>, models: seq<Entry>, lands: set<Entry>)
    decreases |models|
  {
    models != [] &&
    var before, e := models[..|models| - 1], models[|models| - 1];
    Failed(docs, before, lands) || e !in lands || HasId(Inserted(docs, before, lands), e.id)
  }

  lemma {:induction false} InsertedIs(docs: seq<Entry>, models: seq<Entry>, lands: set<Entry>)
    requires IdsDiffer(docs) && IdsDiffer(models)
    ensures var docs' := Inserted(docs, models, lands);
            && IdsDiffer(docs') && docs <= docs'
            && (forall e :: e in docs' <==> e in docs || (e in models && e in lands && !HasId(docs, e.id)))
    decreases |models|
  {
    if models != [] {
      var before, e := models[..|models| - 1], models[|models| - 1];
      InsertedIs(docs, before, lands);
      assert forall x :: x in models <==> x in before || x == e by {
        assert models == before + [e];
      }
      StillNew(docs, before, lands, e);
    }
  }

  lemma StillNew(docs: seq<Entry>, before: seq<Entry>, lands: set<Entry>, e: Entry)
    requires IdsDiffer(docs) && IdsDiffer(before + [e])
    requires forall x :: x in Inserted(docs, before, lands)
                         <==> x in docs || (x in before && x in lands && !HasId(docs, x.id))
    ensures HasId(Inserted(docs, before, lands), e.id) <==> HasId(docs, e.id)
  {
    forall x | x in before ensures x.id != e.id {
      var i :| 0 <= i < |before| && before[i] == x;
      assert (before + [e])[i].id != (before + [e])[|before|].id;
    }
  }

  lemma {:induction false} FailedIs(docs: seq<Entry>, models: seq<Entry>, lands: set<Entry>)
    requires IdsDiffer(docs) && IdsDiffer(models)
    ensures Failed(docs, models, lands) <==> exists e :: e in models && (e !in lands || HasId(docs, e.id))
    ensures !Failed(docs, models, lands) ==> Inserted(docs, models, lands) == docs + models
    decreases |models|
  {
    if models != [] {
      var before, e := models[..|models| - 1], models[|models| - 1];
      FailedIs(docs, before, lands);
      InsertedIs(docs, before, lands);
      assert models == before + [e];
      StillNew(docs, before, lands, e);
      assert Failed(docs, models, lands) <==> Failed(docs, before, lands) || e !in lands || HasId(docs, e.id);
    }
  }

  // ---------------------------------------------------------------- the protocol

  /** `out` holds the batches of the syncs in flight; `logged` is everything that was ever logged. */
  datatype World = World(queue: seq<Entry>, out: map<nat, seq<Entry>>, written: seq<Entry>, logged: seq<Entry>)
  {
    ghost predicate InFlight(e: Entry) {
      exists who :: who in out && e in out[who]
    }
  }

  const START := World([], map[], [], [])

  /**
   A `Log`; the first locked part of a `Sync`; and its bulk write, of which `lands` is carried
   out, with what follows.
   */
  datatype Step = Log(entry: Entry) | Take(who: nat, step: nat) | Finish(who: nat, lands: set<Entry>, replied: bool)

  /** A bulk write reports an error when the store does, and when its reply is lost. */
  predicate Errs(w: World, who: nat, lands: set<Entry>, replied: bool)
    requires who in w.out
  {
    !replied || Failed(w.written, w.out[who], lands)
  }

  predicate Possible(w: World, s: Step) {
    match s
    case Log(e) => !HasId(w.logged, e.id)
    case Take(who, _) => who !in w.out
    case Finish(who, _, _) => who in w.out
  }

  function Next(w: World, s: Step): World {
    if !Possible(w, s) then w else
    match s
    case Log(e) => w.(queue := w.queue + [e], logged := w.logged + [e])
    case Take(who, step) =>
      var n := BatchSize(|w.queue|, step);
      w.(queue := w.queue[n..], out := w.out[who := w.queue[..n]])
    case Finish(who, lands, replied) =>
      var batch := w.out[who];
      w.(out := w.out - {who}, written := Inserted(w.written, batch, lands),
         queue := if Errs(w, who, lands, replied) then w.queue + batch else w.queue)
  }

  function Run(w: World, steps: seq<Step>): World
    decreases |steps|
  {
    if steps == [] then w else Next(Run(w, steps[..|steps| - 1]), steps[|steps| - 1])
  }

  /** Nothing is logged twice, and nothing waits twice: an entry is in the queue or in one batch, once. */
  ghost predicate Single(w: World) {
    && IdsDiffer(w.logged) && IdsDiffer(w.queue) && IdsDiffer(w.written)
    && (forall who | who in w.out :: IdsDiffer(w.out[who]))
    && (forall who, e | who in w.out && e in w.out[who] :: e !in w.queue)
    && (forall a, b, e | a in w.out && b in w.out && a != b && e in w.out[a] :: e !in w.out[b])
  }

  /** Nothing is lost and nothing appears from nowhere. */
  ghost predicate Kept(w: World) {
    forall e :: e in w.logged <==> e in w.queue || w.InFlight(e) || e in w.written
  }

  ghost predicate Inv(w: World) {
    Single(w) && Kept(w)
  }

  /** Written and still waiting to be written. */
  ghost predicate Stuck(w: World, e: Entry) {
    e in w.written && (e in w.queue || w.InFlight(e))
  }

  lemma LogKeepsInv(w: World, e: Entry)
    requires Inv(w) && !HasId(w.logged, e.id)
    ensures Inv(Next(w, Log(e)))
    ensures forall x :: Stuck(Next(w, Log(e)), x) <==> Stuck(w, x)
  {
    var w' := Next(w, Log(e));
    assert e !in w.logged;
    assert forall x :: x in w'.queue <==> x in w.queue || x == e;
    assert forall x :: x in w'.logged <==> x in w.logged || x == e;
    assert forall x :: w'.InFlight(x) <==> w.InFlight(x);
    assert forall x | x in w.queue :: x in w.logged;
  }

  lemma TakeKeepsInv(w: World, who: nat, step: nat)
    requires Inv(w) && who !in w.out
    ensures Inv(Next(w, Take(who, step)))
    ensures forall x :: Stuck(Next(w, Take(who, step)), x) <==> Stuck(w, x)
  {
    var n, w' := BatchSize(|w.queue|, step), Next(w, Take(who, step));
    assert w.queue == w'.out[who] + w'.queue;
    SplitDiffers(w'.out[who], w'.queue);
    assert forall a | a in w.out :: a in w'.out && w'.out[a] == w.out[a];
    forall x ensures w'.InFlight(x) <==> w.InFlight(x) || x in w'.out[who] {
      if x in w'.out[who] {
        assert who in w'.out;
      }
    }
  }

  lemma SplitDiffers(a: seq<Entry>, b: seq<Entry>)
    requires IdsDiffer(a + b)
    ensures IdsDiffer(a) && IdsDiffer(b) && (forall x | x in a :: x !in b)
    ensures forall x :: x in a + b <==> x in a || x in b
  {
    assert forall i | 0 <= i < |a| :: (a + b)[i] == a[i];
    assert forall i | 0 <= i < |b| :: (a + b)[|a| + i] == b[i];
  }

  lemma FinishKeepsInv(w: World, who: nat, lands: set<Entry>, replied: bool)
    requires Inv(w) && who in w.out
    ensures Inv(Next(w, Finish(who, lands, replied)))
    ensures var w' := Next(w, Finish(who, lands, replied));
            forall x :: Stuck(w', x) <==> Stuck(w, x) || (x in w.out[who] && x in lands && Errs(w, who, lands, replied))
  {
    var batch, w' := w.out[who], Next(w, Finish(who, lands, replied));
    InsertedIs(w.written, batch, lands);
    FailedIs(w.written, batch, lands);
    SameIdSameEntry(w);
    forall x ensures w.InFlight(x) <==> w'.InFlight(x) || x in batch {
      if a :| a in w.out && x in w.out[a] && a != who {
        assert a in w'.out && x in w'.out[a];
      }
    }
    assert forall x | x in batch :: !w'.InFlight(x) && x in w.logged;
    JoinDiffers(w.queue, batch, w.logged);
  }

  /** Two lists of logged entries without one in common have no id in common either. */
  lemma JoinDiffers(a: seq<Entry>, b: seq<Entry>, logged: seq<Entry>)
    requires IdsDiffer(a) && IdsDiffer(b) && IdsDiffer(logged)
    requires (forall x | x in a :: x in logged) && (forall x | x in b :: x in logged && x !in a)
    ensures IdsDiffer(a + b) && forall x :: x in a + b <==> x in a || x in b
  {
    forall x, y | x in a && y in b ensures x.id != y.id {
      assert x in logged && y in logged;
    }
  }

  /** Entries that were logged are told apart by their ids. */
  lemma SameIdSameEntry(w: World)
    requires Inv(w)
    ensures forall x, y | x in w.logged && y in w.logged :: x.id == y.id ==> x == y
    ensures forall x | x in w.logged :: HasId(w.written, x.id) <==> x in w.written
  {
    assert forall x | x in w.written :: x in w.logged;
  }

  /** The step is a bulk write that reports an error although some or all of its inserts are carried out. */
  predicate ErrsAfterWriting(w: World, s: Step) {
    s.Finish? && s.who in w.out && Errs(w, s.who, s.lands, s.replied) && exists e | e in w.out[s.who] :: e in s.lands
  }

  lemma StepKeepsInv(w: World, s: Step)
    requires Inv(w)
    ensures Inv(Next(w, s))
    ensures forall x :: Stuck(Next(w, s), x)
                        <==> Stuck(w, x) || (ErrsAfterWriting(w, s) && x in w.out[s.who] && x in s.lands)
  {
    if Possible(w, s) {
      match s
      case Log(e) => LogKeepsInv(w, e);
      case Take(who, step) => TakeKeepsInv(w, who, step);
      case Finish(who, lands, replied) => FinishKeepsInv(w, who, lands, replied);
    }
  }

  /**
   In every run each logged entry is in the queue, in one batch or in the collection, and waits
   at most once. And what is both written and waiting stays so for ever: every further bulk write
   with it meets its id and fails, and the batch goes back into the queue.
   */
  lemma {:induction false} RunKeepsInv(w: World, steps: seq<Step>)
    requires Inv(w)
    ensures Inv(Run(w, steps)) && forall e | Stuck(w, e) :: Stuck(Run(w, steps), e)
    decreases |steps|
  {
    if steps != [] {
      RunKeepsInv(w, steps[..|steps| - 1]);
      StepKeepsInv(Run(w, steps[..|steps| - 1]), steps[|steps| - 1]);
    }
  }

  /** Every logged entry is at one place only. */
  ghost predicate OnePlace(w: World) {
    forall e :: !Stuck(w, e)
  }

  lemma OnePlaceStep(w: World, s: Step)
    requires Inv(w)
    ensures OnePlace(Next(w, s)) <==> OnePlace(w) && !ErrsAfterWriting(w, s)
  {
    StepKeepsInv(w, s);
    if ErrsAfterWriting(w, s) {
      var e :| e in w.out[s.who] && e in s.lands;
      assert Stuck(Next(w, s), e);
    }
  }

  /** No bulk write of the run reports an error after it was carried out, wholly or in part. */
  ghost predicate Whole(w: World, steps: seq<Step>) {
    forall i | 0 <= i < |steps| :: !ErrsAfterWriting(Run(w, steps[..i]), steps[i])
  }

  lemma WholeSnoc(w: World, steps: seq<Step>)
    requires steps != []
    ensures var before := steps[..|steps| - 1];
            Whole(w, steps) <==> Whole(w, before) && !ErrsAfterWriting(Run(w, before), steps[|steps| - 1])
  {
    var before := steps[..|steps| - 1];
    assert forall i | 0 <= i < |before| :: before[..i] == steps[..i] && before[i] == steps[i];
  }

  /**
   Every logged entry ends a run at exactly one place, queued, in flight or written, exactly when
   no bulk write of the run reported an error after it was carried out, wholly or in part.
   */
  lemma {:induction false} ExactlyOnce(steps: seq<Step>)
    ensures Whole(START, steps) <==> OnePlace(Run(START, steps))
    decreases |steps|
  {
    if steps != [] {
      var before, s := steps[..|steps| - 1], steps[|steps| - 1];
      ExactlyOnce(before);
      RunKeepsInv(START, before);
      WholeSnoc(START, steps);
      OnePlaceStep(Run(START, before), s);
    }
  }

  // ---------------------------------------------------------------- order

  /** One sync at a time, and no bulk write fails. */
  ghost predicate Smooth(w: World, s: Step) {
    match s
    case Log(_) => true
    case Take(who, _) => who == 0
    case Finish(who, lands, replied) => who == 0 && replied && (0 in w.out ==> forall e | e in w.out[0] :: e in lands)
  }

  function InLine(w: World): seq<Entry> {
    w.written + (if 0 in w.out then w.out[0] else []) + w.queue
  }

  /** As long as syncs succeed one after the other, entries are written in the order they were logged. */
  lemma {:induction false} OrderKept(steps: seq<Step>)
    requires forall i | 0 <= i < |steps| :: Smooth(Run(START, steps[..i]), steps[i])
    ensures var w := Run(START, steps); InLine(w) == w.logged && w.out.Keys <= {0}
    decreases |steps|
  {
    if steps != [] {
      var before, s := steps[..|steps| - 1], steps[|steps| - 1];
      assert forall i | 0 <= i < |before| :: before[..i] == steps[..i] && before[i] == steps[i];
      OrderKept(before);
      RunKeepsInv(START, before);
      OrderStep(Run(START, before), s);
    }
  }

  lemma OrderStep(w: World, s: Step)
    requires Inv(w) && InLine(w) == w.logged && w.out.Keys <= {0} && Smooth(w, s)
    ensures var w' := Next(w, s); InLine(w') == w'.logged && w'.out.Keys <= {0}
  {
    if Possible(w, s) {
      match s
      case Log(e) =>
        assert InLine(w) + [e] == w.written + (if 0 in w.out then w.out[0] else []) + (w.queue + [e]);
      case Take(_, step) =>
        var n := BatchSize(|w.queue|, step);
        assert w.queue == w.queue[..n] + w.queue[n..];
      case Finish(_, lands, _) =>
        FinishInOrder(w, lands);
    }
  }

  lemma FinishInOrder(w: World, lands: set<Entry>)
    requires Inv(w) && InLine(w) == w.logged && 0 in w.out && forall e | e in w.out[0] :: e in lands
    ensures var w' := Next(w, Finish(0, lands, true));
            w'.written == w.written + w.out[0] && w'.queue == w.queue && w'.logged == w.logged
  {
    FlightIsNew(w);
    FailedIs(w.written, w.out[0], lands);
  }

  lemma FlightIsNew(w: World)
    requires Inv(w) && InLine(w) == w.logged && 0 in w.out
    ensures forall e | e in w.out[0] :: !HasId(w.written, e.id)
  {
    forall x, e | x in w.written && e in w.out[0] ensures x.id != e.id {
      var i :| 0 <= i < |w.written| && w.written[i] == x;
      var j :| 0 <= j < |w.out[0]| && w.out[0][j] == e;
      assert w.logged[i] == x && w.logged[|w.written| + j] == e;
    }
  }

  // ---------------------------------------------------------------- draining

  /** `k` syncs one after the other that are carried out and answered, with nothing logged in between. */
  function Syncs(w: World, step: nat, lands: set<Entry>, k: nat): World {
    if k == 0 then w else Next(Next(Syncs(w, step, lands, k - 1), Take(0, step)), Finish(0, lands, true))
  }

  /** Nothing is in flight, and what is queued is not written yet and can be. */
  ghost predicate Idle(w: World, lands: set<Entry>) {
    Inv(w) && w.out == map[] && OnePlace(w) && forall e | e in w.queue :: e in lands
  }

  /** One sync moves a batch from the front of the queue to the end of the collection. */
  lemma OneSync(w: World, step: nat, lands: set<Entry>)
    requires Idle(w, lands)
    ensures var w', n := Next(Next(w, Take(0, step)), Finish(0, lands, true)), BatchSize(|w.queue|, step);
            && Idle(w', lands) && w'.logged == w.logged
            && w'.queue == w.queue[n..] && w'.written == w.written + w.queue[..n]
  {
    var w1, n := Next(w, Take(0, step)), BatchSize(|w.queue|, step);
    var batch := w.queue[..n];
    TakeKeepsInv(w, 0, step);
    FinishKeepsInv(w1, 0, lands, true);
    forall e | e in batch ensures e in lands && !HasId(w.written, e.id) {
      assert e in w.queue && !Stuck(w, e);
      assert e in w.logged;
      SameIdSameEntry(w);
    }
    FailedIs(w.written, batch, lands);
    assert !Errs(w1, 0, lands, true);
    assert Next(w1, Finish(0, lands, true)).out == map[];
  }

  /** How many of `len` entries `k` batches cover. */
  function Covered(len: nat, step: nat, k: nat): nat {
    if k * step <= len then k * step else len
  }

  lemma CoveredNext(len: nat, step: nat, k: nat)
    requires k > 0
    ensures Covered(len, step, k) == NextCovered(len, Covered(len, step, k - 1), step)
  {
    assert k * step == (k - 1) * step + step;
  }

  function NextCovered(len: nat, m: nat, step: nat): nat {
    if m + step <= len then m + step else len
  }

  /** The first `n` entries have left the queue for the collection. */
  ghost predicate Drained(w: World, w': World, lands: set<Entry>, n: nat) {
    && n <= |w.queue| && Idle(w', lands) && w'.logged == w.logged
    && w'.queue == w.queue[n..] && w'.written == w.written + w.queue[..n]
  }

  lemma OneSyncMore(w: World, w': World, lands: set<Entry>, n: nat, step: nat)
    requires step > 0 && Drained(w, w', lands, n)
    ensures Drained(w, Next(Next(w', Take(0, step)), Finish(0, lands, true)), lands, NextCovered(|w.queue|, n, step))
  {
    OneSync(w', step, lands);
    BatchAfter(w.written, w.queue, n, step);
  }

  /**
   Syncs with a positive step write the queue in its order, one batch after the other, and the
   queue is empty after `k` of them exactly when `k` batches cover it.
   */
  lemma {:induction false} Drains(w: World, step: nat, lands: set<Entry>, k: nat)
    requires step > 0 && Idle(w, lands)
    ensures Drained(w, Syncs(w, step, lands, k), lands, Covered(|w.queue|, step, k))
    ensures Syncs(w, step, lands, k).queue == [] <==> |w.queue| <= k * step
  {
    if k == 0 {
      assert w.queue[0..] == w.queue && w.written + w.queue[..0] == w.written;
    } else {
      Drains(w, step, lands, k - 1);
      OneSyncMore(w, Syncs(w, step, lands, k - 1), lands, Covered(|w.queue|, step, k - 1), step);
      CoveredNext(|w.queue|, step, k);
    }
  }

  /** The next batch after the first `m` entries. */
  lemma BatchAfter(written: seq<Entry>, queue: seq<Entry>, m: nat, step: nat)
    requires step > 0 && m <= |queue|
    ensures var n := if m + step <= |queue| then m + step else |queue|;
            var batch := BatchSize(|queue[m..]|, step);
            && queue[m..][batch..] == queue[n..]
            && written + queue[..m] + queue[m..][..batch] == written + queue[..n]
  {
  }

  /** A step of 0 writes everything in one sync. */
  lemma DrainsAtOnce(w: World, lands: set<Entry>)
    requires Idle(w, lands)
    ensures var w' := Syncs(w, 0, lands, 1); w'.queue == [] && w'.written == w.written + w.queue
  {
    OneSync(w, 0, lands);
    assert Syncs(w, 0, lands, 0) == w;
  }

  // ---------------------------------------------------------------- the generated code

  datatype Outcome = Wrote(n: nat) | WriteError | Panic

  class Collection {
    var docs: seq<Entry>

    constructor ()
      ensures docs == []
    {
      docs := [];
    }

    /** `lands` are the inserts that are carried out; without a reply the call reports an error. */
    method BulkWrite(models: seq<Entry>, lands: set<Entry>, replied: bool) returns (err: bool)
      modifies this
      ensures docs == Inserted(old(docs), models, lands) && err == (!replied || Failed(old(docs), models, lands))
    {
      var failed := false;
      for i := 0 to |models|
        invariant docs == Inserted(old(docs), models[..i], lands) && failed == Failed(old(docs), models[..i], lands)
      {
        assert models[..i + 1][..i] == models[..i];
        if models[i] in lands && !HasId(docs, models[i].id) {
          docs := docs + [models[i]];
        } else {
          failed := true;
        }
      }
      assert models[..|models|] == models;
      return !replied || failed;
    }
  }

  /**
   The answer of a sync, and what it leaves. Entries leave the front of the queue, `step` of them or all. It reports
   an error exactly when it gets no reply, or one of them is not carried out or meets its id; they are then back
   at the end of the queue, and of them those are written that are carried out and new. Otherwise it reports
   their number, and they are at the end of the collection.
   */
  ghost predicate Synced(
    queue: seq<Entry>, docs: seq<Entry>, step: nat, lands: set<Entry>, replied: bool,
    r: Outcome, queue': seq<Entry>, docs': seq<Entry>)
  {
    var n := if 0 < step <= |queue| then step else |queue|;
    if !replied || exists i :: 0 <= i < n && (queue[i] !in lands || exists d :: d in docs && d.id == queue[i].id) then
      && r == WriteError && queue' == queue[n..] + queue[..n] && docs <= docs'
      && forall e :: e in docs' <==>
           e in docs || (e in queue[..n] && e in lands && forall d | d in docs :: d.id != e.id)
    else
      r == Wrote(n) && queue' == queue[n..] && docs' == docs + queue[..n]
  }

  lemma SyncOutcome(
    rest: seq<Entry>, batch: seq<Entry>, docs: seq<Entry>, step: nat, lands: set<Entry>, replied: bool)
    requires batch != [] && IdsDiffer(batch + rest) && IdsDiffer(docs) && |batch| == BatchSize(|batch + rest|, step)
    ensures var failed := !replied || Failed(docs, batch, lands);
            Synced(batch + rest, docs, step, lands, replied,
                   if failed then WriteError else Wrote(|batch|), if failed then rest + batch else rest,
                   Inserted(docs, batch, lands))
  {
    SplitDiffers(batch, rest);
    InsertedIs(docs, batch, lands);
    FailedAt(docs, batch, lands);
    assert (batch + rest)[..|batch|] == batch && (batch + rest)[|batch|..] == rest;
  }

  lemma FailedAt(docs: seq<Entry>, batch: seq<Entry>, lands: set<Entry>)
    requires IdsDiffer(docs) && IdsDiffer(batch)
    ensures Failed(docs, batch, lands) <==>
            exists i :: 0 <= i < |batch| && (batch[i] !in lands || exists d :: d in docs && d.id == batch[i].id)
    ensures !Failed(docs, batch, lands) ==> Inserted(docs, batch, lands) == docs + batch
  {
    FailedIs(docs, batch, lands);
    assert forall e :: HasId(docs, e) <==> exists d :: d in docs && d.id == e;
  }

  class Dao {
    var models: seq<Entry>
    var nextId: nat

    constructor ()
      ensures models == [] && nextId == 0
    {
      models, nextId := [], 0;
    }

    method Log(text: string) returns (e: Entry)
      modifies this
      ensures e == Entry(old(nextId), text) && nextId == old(nextId) + 1
      ensures models == old(models) + [e]
    {
      e := Entry(nextId, text);
      nextId := nextId + 1;
      models := models + [e];
    }

    /** The first locked part of a sync. A negative step is a slice bound out of range. */
    method Take(step: int) returns (batch: seq<Entry>, panic: bool)
      modifies this`models
      ensures panic <==> step < 0
      ensures panic ==> models == old(models) && batch == []
      ensures !panic ==> batch == old(models)[..BatchSize(|old(models)|, step)]
      ensures !panic ==> models == old(models)[BatchSize(|old(models)|, step)..]
    {
      batch, panic := [], false;
      if step != 0 && step <= |models| {
        if step < 0 {
          return batch, true;
        }
        batch := models[..step];
        models := models[step..];
      } else {
        batch := models;
        models := [];
      }
    }

    /** The bulk write of a sync and what follows it. */
    method Finish(coll: Collection, batch: seq<Entry>, lands: set<Entry>, replied: bool) returns (r: Outcome)
      modifies this`models, coll
      ensures coll.docs == Inserted(old(coll.docs), batch, lands)
      ensures !replied || Failed(old(coll.docs), batch, lands) ==> r == WriteError && models == old(models) + batch
      ensures replied && !Failed(old(coll.docs), batch, lands) ==> r == Wrote(|batch|) && models == old(models)
    {
      var err := coll.BulkWrite(batch, lands, replied);
      if err {
        models := models + batch;
        return WriteError;
      }
      return Wrote(|batch|);
    }

    /** A sync with nothing logged meanwhile: one `Take` and one `Finish` of the protocol. */
    method Sync(coll: Collection, step: int, lands: set<Entry>, replied: bool) returns (r: Outcome)
      modifies this`models, coll
      ensures old(models) == [] ==> r == Wrote(0) && models == [] && coll.docs == old(coll.docs)
      ensures old(models) != [] && step < 0 ==> r == Panic && models == old(models) && coll.docs == old(coll.docs)
      ensures old(models) != [] && step >= 0 ==>
                var w := World(old(models), map[], old(coll.docs), []);
                var w' := Next(Next(w, Step.Take(0, step)), Step.Finish(0, lands, replied));
                models == w'.queue && coll.docs == w'.written
      ensures old(models) != [] && step >= 0 && IdsDiffer(old(models)) && IdsDiffer(old(coll.docs)) ==>
                Synced(old(models), old(coll.docs), step, lands, replied, r, models, coll.docs)
    {
      if |models| <= 0 {
        return Wrote(0);
      }
      var batch, panic := Take(step);
      if panic {
        return Panic;
      }
      assert old(models) == batch + models;
      if IdsDiffer(old(models)) && IdsDiffer(coll.docs) {
        SyncOutcome(models, batch, coll.docs, step, lands, replied);
      }
      r := Finish(coll, batch, lands, replied);
    }
  }
}
