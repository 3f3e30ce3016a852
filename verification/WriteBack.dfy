/**
 The write-back cache of gen/gen_model/gen_model.go (the `userarr` template), as a value: the
 documents of one primary key, what is tracked as added, dirty or deleted, and the collection
 that an unordered bulk write brings up to date.
 */
module WriteBack {

  type Id = nat
  type Key = string

  datatype DocData = DocData(id: Id, pk: Key, sk: Key, payload: int)

  type Db = map<Id, DocData>

  // ---------------------------------------------------------------- bulk writes

  datatype Op = DeleteOne(target: Id) | InsertOne(doc: DocData) | ReplaceOne(doc: DocData)
  {
    function Id(): Id {
      if DeleteOne? then target else doc.id
    }
  }

  /** One write; an insert of an id that exists fails and changes nothing. */
  function Apply(db: Db, op: Op): Db {
    match op
    case DeleteOne(id) => db - {id}
    case InsertOne(d) => if d.id in db then db else db[d.id := d]
    case ReplaceOne(d) => if d.id in db then db[d.id := d] else db
  }

  predicate Fails(db: Db, op: Op) {
    op.InsertOne? && op.doc.id in db
  }

  function ApplyAll(db: Db, ops: seq<Op>): Db
    decreases |ops|
  {
    if ops == [] then db else Apply(ApplyAll(db, ops[..|ops| - 1]), ops[|ops| - 1])
  }

  ghost predicate NoneFails(db: Db, ops: seq<Op>) {
    forall i | 0 <= i < |ops| :: !Fails(ApplyAll(db, ops[..i]), ops[i])
  }

  ghost predicate DistinctIds(ops: seq<Op>) {
    forall i, j | 0 <= i < j < |ops| :: ops[i].Id() != ops[j].Id()
  }

  /** Both databases hold the same under an id. */
  ghost predicate SameAt(a: Db, b: Db, id: Id) {
    (id in a <==> id in b) && (id in a ==> a[id] == b[id])
  }

  /** With one write per id, each id ends as its own write leaves it. */
  lemma {:induction false} ApplyAllAt(db: Db, ops: seq<Op>, id: Id)
    requires DistinctIds(ops)
    ensures forall op | op in ops && op.Id() == id :: SameAt(ApplyAll(db, ops), Apply(db, op), id)
    ensures (forall op | op in ops :: op.Id() != id) ==> SameAt(ApplyAll(db, ops), db, id)
    decreases |ops|
  {
    if ops != [] {
      var before, last := ops[..|ops| - 1], ops[|ops| - 1];
      ApplyAllAt(db, before, id);
      assert ops == before + [last];
      forall op | op in ops && op.Id() == id ensures SameAt(ApplyAll(db, ops), Apply(db, op), id) {
        if op == last {
          assert forall other | other in before :: other.Id() != id;
        } else {
          assert last.Id() != id;
        }
      }
    }
  }

  /** Writes to different ids can be made in any order. */
  lemma AnyOrder(db: Db, ops: seq<Op>, ops': seq<Op>)
    requires DistinctIds(ops) && DistinctIds(ops') && multiset(ops) == multiset(ops')
    ensures ApplyAll(db, ops) == ApplyAll(db, ops')
  {
    assert forall op :: op in ops <==> op in multiset(ops);
    assert forall op :: op in ops' <==> op in multiset(ops');
    forall id ensures SameAt(ApplyAll(db, ops), ApplyAll(db, ops'), id) {
      ApplyAllAt(db, ops, id);
      ApplyAllAt(db, ops', id);
      if op :| op in ops && op.Id() == id {
        assert op in ops';
      }
    }
    SameEverywhere(ApplyAll(db, ops), ApplyAll(db, ops'));
  }

  lemma SameEverywhere(a: Db, b: Db)
    requires forall id :: SameAt(a, b, id)
    ensures a == b
  {
    assert forall id :: id in a ==> SameAt(a, b, id);
    assert forall id :: id in b ==> SameAt(a, b, id);
  }

  // ---------------------------------------------------------------- the cache

  /** A document object: its data and its flag. */
  datatype Cell = Cell(data: DocData, dirty: bool)

  /** `docs` holds every document object that was ever attached, the deleted ones too. */
  datatype Cache = Cache(pk: Key, docs: map<Id, Cell>, dict: map<Key, Id>, add: set<Id>, dirty: set<Id>, del: set<Id>)
  {
    predicate Live(id: Id) {
      id in dict.Values
    }
  }

  /** A setter: the write is always made, the tracking only when the flag was down. */
  function Touched(c: Cache, id: Id, payload: int): Cache
    requires id in c.docs
  {
    var cell := c.docs[id];
    var c' := c.(docs := c.docs[id := Cell(cell.data.(payload := payload), true)]);
    if cell.dirty || id in c.add || id in c.dirty || id in c.del then c' else c'.(dirty := c.dirty + {id})
  }

  function Added(c: Cache, sk: Key, id: Id): Cache {
    if sk in c.dict then c
    else Entered(c, DocData(id, c.pk, sk, 0)).(add := c.add + {id})
  }

  function Deleted(c: Cache, sk: Key): Cache {
    if sk !in c.dict || c.dict[sk] in c.del then c
    else
      var id := c.dict[sk];
      c.(dict := c.dict - {sk}, dirty := c.dirty - {id}, add := c.add - {id}, del := c.del + {id})
  }

  function Cleared(c: Cache): Cache {
    c.(dict := map[], add := {}, dirty := {}, del := c.del + c.dict.Values)
  }

  /** The flags of the given documents down. */
  function FlagsDown(c: Cache, ids: set<Id>): Cache {
    c.(docs := map id | id in c.docs :: FlagDownIn(c, ids, id))
  }

  function FlagDownIn(c: Cache, ids: set<Id>, id: Id): Cell {
    if id !in c.docs then Cell(DocData(0, "", "", 0), false)
    else if id in ids then c.docs[id].(dirty := false)
    else c.docs[id]
  }

  lemma FlagDownIs(c: Cache, id: Id)
    requires id in c.docs
    ensures FlagsDown(c, {id}) == c.(docs := c.docs[id := c.docs[id].(dirty := false)])
  {
  }

  lemma OneFlagDown(c: Cache, ids: set<Id>, id: Id)
    ensures forall add, dirty ::
              FlagsDown(FlagsDown(c, ids).(add := add, dirty := dirty), {id})
              == FlagsDown(c, ids + {id}).(add := add, dirty := dirty)
  {
  }

  /** After the models of a save are built: flags down, nothing added or dirty, `del` kept. */
  function Flushed(c: Cache): Cache {
    FlagsDown(c, c.add + c.dirty).(add := {}, dirty := {})
  }

  lemma SettleBoth(c: Cache)
    ensures FlagsDown(FlagsDown(c, c.add).(add := {}), c.dirty).(dirty := {}) == Flushed(c)
  {
  }

  /** The writes that a save sends: one per deleted, added and dirty document. */
  ghost predicate IsModel(c: Cache, op: Op) {
    match op
    case DeleteOne(id) => id in c.del
    case InsertOne(d) => d.id in c.add && d.id in c.docs && d == c.docs[d.id].data
    case ReplaceOne(d) => d.id in c.dirty && d.id in c.docs && d == c.docs[d.id].data
  }

  ghost predicate NoRepeats<T>(s: seq<T>) {
    forall i, j | 0 <= i < j < |s| :: s[i] != s[j]
  }

  lemma AppendNew<T>(s: seq<T>, x: T)
    requires NoRepeats(s) && x !in s
    ensures NoRepeats(s + [x]) && forall y :: y in s + [x] <==> y in s || y == x
  {
    forall i | 0 <= i < |s| ensures s[i] != x {
      assert s[i] in s;
    }
  }

  /** The write list of a save, in some order. */
  ghost predicate IsFlush(c: Cache, ops: seq<Op>) {
    (forall op :: op in ops <==> IsModel(c, op)) && NoRepeats(ops)
  }

  /** `Load` from what the query returned, in the order it came: the last document of a key wins. */
  function Loaded(pk: Key, results: seq<DocData>): Cache
    decreases |results|
  {
    if results == [] then Cache(pk, map[], map[], {}, {}, {})
    else
      var c, d := Loaded(pk, results[..|results| - 1]), results[|results| - 1];
      Entered(c, d)
  }

  function Entered(c: Cache, d: DocData): Cache {
    c.(docs := c.docs[d.id := Cell(d, false)], dict := c.dict[d.sk := d.id])
  }

  // ---------------------------------------------------------------- invariant

  /** What holds of the cache by itself. */
  ghost predicate Wired(c: Cache) {
    && (forall id | id in c.docs ::
          c.docs[id].data.id == id && c.docs[id].data.pk == c.pk && (c.Live(id) || id in c.del))
    && (forall sk | sk in c.dict :: c.dict[sk] in c.docs && c.docs[c.dict[sk]].data.sk == sk)
    && (forall id | id in c.add || id in c.dirty :: c.Live(id))
    && (forall id | id in c.del :: id in c.docs && !c.Live(id))
    && c.add !! c.dirty
    && (forall id | c.Live(id) && c.docs[id].dirty :: id in c.add || id in c.dirty)
  }

  /** The trackers say exactly how the cache and the collection differ. */
  ghost predicate Tracked(c: Cache, db: Db)
    requires Wired(c)
  {
    && (forall id | id in db :: db[id].id == id && (db[id].pk == c.pk <==> id in c.docs))
    && (forall id | c.Live(id) :: id in c.add <==> id !in db)
    && (forall id | c.Live(id) && id !in c.add && id !in c.dirty :: db[id] == c.docs[id].data)
  }

  ghost predicate Inv(c: Cache, db: Db) {
    Wired(c) && Tracked(c, db)
  }

  /** The documents stored under the primary key are exactly the cached ones. */
  ghost predicate Agree(c: Cache, db: Db) {
    && (forall id :: (id in db && db[id].pk == c.pk) <==> c.Live(id))
    && (forall id | c.Live(id) :: id in c.docs && db[id] == c.docs[id].data)
  }

  lemma TouchKeepsInv(c: Cache, db: Db, id: Id, payload: int)
    requires Inv(c, db) && id in c.docs
    ensures Inv(Touched(c, id, payload), db)
  {
    TouchKeepsWired(c, id, payload);
    TouchKeepsTracked(c, db, id, payload);
  }

  lemma TouchKeepsWired(c: Cache, id: Id, payload: int)
    requires Wired(c) && id in c.docs
    ensures var c' := Touched(c, id, payload);
            Wired(c') && c'.docs.Keys == c.docs.Keys && forall x :: c'.Live(x) <==> c.Live(x)
  {
    assert c.docs[id].data.id == id;
  }

  lemma TouchKeepsTracked(c: Cache, db: Db, id: Id, payload: int)
    requires Inv(c, db) && id in c.docs && Wired(Touched(c, id, payload))
    requires Touched(c, id, payload).docs.Keys == c.docs.Keys
    requires forall x :: Touched(c, id, payload).Live(x) <==> c.Live(x)
    ensures Tracked(Touched(c, id, payload), db)
  {
  }

  lemma AddKeepsInv(c: Cache, db: Db, sk: Key, id: Id)
    requires Inv(c, db) && id !in c.docs && id !in db
    ensures Inv(Added(c, sk, id), db)
  {
    if sk !in c.dict {
      var c' := Added(c, sk, id);
      assert sk in c'.dict && c'.dict[sk] == id;
      forall x ensures c'.Live(x) <==> c.Live(x) || x == id {
        if c.Live(x) {
          var k :| k in c.dict && c.dict[k] == x;
          assert k in c'.dict && c'.dict[k] == x;
        }
      }
    }
  }

  lemma DeleteKeepsInv(c: Cache, db: Db, sk: Key)
    requires Inv(c, db)
    ensures Inv(Deleted(c, sk), db)
  {
    if sk in c.dict && c.dict[sk] !in c.del {
      var c' := Deleted(c, sk);
      forall x ensures c'.Live(x) <==> c.Live(x) && x != c.dict[sk] {
        if c.Live(x) && x != c.dict[sk] {
          var k :| k in c.dict && c.dict[k] == x;
          assert k in c'.dict && c'.dict[k] == x;
        }
      }
    }
  }

  lemma ClearKeepsInv(c: Cache, db: Db)
    requires Inv(c, db)
    ensures Inv(Cleared(c), db)
  {
  }

  lemma FlushIdsDistinct(c: Cache, ops: seq<Op>)
    requires Wired(c) && IsFlush(c, ops)
    ensures DistinctIds(ops)
  {
    forall i, j | 0 <= i < j < |ops| ensures ops[i].Id() != ops[j].Id() {
      assert IsModel(c, ops[i]) && IsModel(c, ops[j]);
    }
  }

  /** No write of a save can fail, in whatever order they are made. */
  lemma FlushNeverFails(c: Cache, db: Db, ops: seq<Op>)
    requires Inv(c, db) && IsFlush(c, ops)
    ensures NoneFails(db, ops)
  {
    FlushIdsDistinct(c, ops);
    forall i | 0 <= i < |ops| ensures !Fails(ApplyAll(db, ops[..i]), ops[i]) {
      assert IsModel(c, ops[i]);
      ApplyAllAt(db, ops[..i], ops[i].Id());
    }
  }

  /** What a save has to do to one id. */
  ghost predicate SavedAt(c: Cache, db: Db, db': Db, id: Id) {
    && (c.Live(id) ==> id in c.docs && id in db' && db'[id] == c.docs[id].data)
    && (id in c.del ==> id !in db')
    && (id !in c.docs ==> SameAt(db', db, id))
  }

  lemma FlushSaves(c: Cache, db: Db, ops: seq<Op>, id: Id)
    requires Inv(c, db) && IsFlush(c, ops)
    ensures SavedAt(c, db, ApplyAll(db, ops), id)
  {
    FlushIdsDistinct(c, ops);
    ApplyAllAt(db, ops, id);
    assert IsModel(c, DeleteOne(id)) ==> DeleteOne(id) in ops;
    if id in c.docs {
      var d := c.docs[id].data;
      assert IsModel(c, InsertOne(d)) ==> InsertOne(d) in ops;
      assert IsModel(c, ReplaceOne(d)) ==> ReplaceOne(d) in ops;
    }
    assert forall op | op in ops :: IsModel(c, op);
  }

  lemma SavedAgrees(c: Cache, db: Db, db': Db)
    requires Inv(c, db) && forall id :: SavedAt(c, db, db', id)
    ensures Agree(Flushed(c), db') && Inv(Flushed(c), db')
  {
    var c' := Flushed(c);
    FlushedIs(c);
    forall id
      ensures (id in db' && db'[id].pk == c.pk) <==> c.Live(id)
      ensures id in db' ==> db'[id].id == id && (db'[id].pk == c.pk <==> id in c.docs)
      ensures c.Live(id) ==> id in c.docs && id in db' && db'[id] == c'.docs[id].data
    {
      assert SavedAt(c, db, db', id);
    }
  }

  lemma FlushedIs(c: Cache)
    requires Wired(c)
    ensures var c' := Flushed(c);
            && Wired(c') && c'.docs.Keys == c.docs.Keys && c'.add == c'.dirty == {}
            && (forall id :: c'.Live(id) <==> c.Live(id))
            && (forall id | id in c.docs :: c'.docs[id].data == c.docs[id].data)
  {
    assert forall id :: Flushed(c).Live(id) <==> c.Live(id);
  }

  /** A save leaves the collection equal to the cache for its key, and everything else alone. */
  lemma SaveAgrees(c: Cache, db: Db, ops: seq<Op>)
    requires Inv(c, db) && IsFlush(c, ops)
    ensures var db' := ApplyAll(db, ops);
            && Agree(Flushed(c), db') && Inv(Flushed(c), db')
            && (forall id | id in db && db[id].pk != c.pk :: SameAt(db', db, id))
  {
    forall id ensures SavedAt(c, db, ApplyAll(db, ops), id) {
      FlushSaves(c, db, ops, id);
    }
    SavedAgrees(c, db, ApplyAll(db, ops));
    forall id | id in db && db[id].pk != c.pk ensures SameAt(ApplyAll(db, ops), db, id) {
      assert SavedAt(c, db, ApplyAll(db, ops), id);
    }
  }

  /** What a save means for the object that makes it. */
  lemma SaveMeans(c: Cache, db: Db, ops: seq<Op>)
    requires IsFlush(c, ops)
    ensures Inv(c, db) ==> var db' := ApplyAll(db, ops);
                           NoneFails(db, ops) && Agree(Flushed(c), db') && Inv(Flushed(c), db')
  {
    if Inv(c, db) {
      FlushNeverFails(c, db, ops);
      SaveAgrees(c, db, ops);
    }
  }

  // ---------------------------------------------------------------- runs

  datatype World = World(cache: Cache, db: Db)

  datatype Step =
    | Add(sk: Key, id: Id)
    | Set(id: Id, payload: int)
    | Delete(sk: Key)
    | Clear
    | Save(ops: seq<Op>)

  /**
   An `Add` draws an id that was never used; a setter may be called on any document object that
   was ever attached, also on a deleted one; a save sends its writes in some order.
   */
  ghost predicate Possible(w: World, step: Step) {
    match step
    case Add(_, id) => id !in w.cache.docs && id !in w.db
    case Set(id, _) => id in w.cache.docs
    case Save(ops) => IsFlush(w.cache, ops)
    case _ => true
  }

  ghost function Next(w: World, step: Step): World {
    if !Possible(w, step) then w else
    match step
    case Add(sk, id) => w.(cache := Added(w.cache, sk, id))
    case Set(id, payload) => w.(cache := Touched(w.cache, id, payload))
    case Delete(sk) => w.(cache := Deleted(w.cache, sk))
    case Clear => w.(cache := Cleared(w.cache))
    case Save(ops) => World(Flushed(w.cache), ApplyAll(w.db, ops))
  }

  ghost function Run(w: World, steps: seq<Step>): World
    decreases |steps|
  {
    if steps == [] then w else Next(Run(w, steps[..|steps| - 1]), steps[|steps| - 1])
  }

  lemma StepKeepsInv(w: World, step: Step)
    requires Inv(w.cache, w.db)
    ensures Inv(Next(w, step).cache, Next(w, step).db) && Next(w, step).cache.pk == w.cache.pk
  {
    if Possible(w, step) {
      match step
      case Add(sk, id) => AddKeepsInv(w.cache, w.db, sk, id);
      case Set(id, payload) => TouchKeepsInv(w.cache, w.db, id, payload);
      case Delete(sk) => DeleteKeepsInv(w.cache, w.db, sk);
      case Clear => ClearKeepsInv(w.cache, w.db);
      case Save(ops) => SaveAgrees(w.cache, w.db, ops);
    }
  }

  lemma {:induction false} RunKeepsInv(w: World, steps: seq<Step>)
    requires Inv(w.cache, w.db)
    ensures Inv(Run(w, steps).cache, Run(w, steps).db) && Run(w, steps).cache.pk == w.cache.pk
    decreases |steps|
  {
    if steps != [] {
      RunKeepsInv(w, steps[..|steps| - 1]);
      StepKeepsInv(Run(w, steps[..|steps| - 1]), steps[|steps| - 1]);
    }
  }

  // ---------------------------------------------------------------- loading

  /** The results of the query are the documents of the key, each once. */
  ghost predicate IsQueryResult(db: Db, pk: Key, results: seq<DocData>) {
    (forall d :: d in results <==> d.id in db && db[d.id] == d && d.pk == pk) && NoRepeats(results)
  }

  ghost predicate KeysUnique(results: seq<DocData>) {
    forall i, j | 0 <= i < j < |results| :: results[i].sk != results[j].sk
  }

  ghost predicate LoadedOk(c: Cache, results: seq<DocData>) {
    && c.add == {} && c.dirty == {} && c.del == {}
    && (forall d | d in results :: d.id in c.docs && c.docs[d.id] == Cell(d, false) && d.sk in c.dict)
    && (forall id | id in c.docs :: c.docs[id].data in results && c.docs[id].data.id == id)
    && (forall sk | sk in c.dict :: c.dict[sk] in c.docs && c.docs[c.dict[sk]].data.sk == sk)
  }

  lemma {:induction false} LoadedShape(pk: Key, results: seq<DocData>)
    requires forall i, j | 0 <= i < j < |results| :: results[i].id != results[j].id
    ensures Loaded(pk, results).pk == pk && LoadedOk(Loaded(pk, results), results)
    decreases |results|
  {
    if results != [] {
      var before, d := results[..|results| - 1], results[|results| - 1];
      LoadedShape(pk, before);
      assert results == before + [d];
      LastIsNew(before, d);
      OneMoreLoaded(Loaded(pk, before), before, d);
      assert Loaded(pk, results) == Entered(Loaded(pk, before), d);
    }
  }

  lemma NextLoaded(pk: Key, results: seq<DocData>, i: nat)
    requires i < |results| && forall i, j | 0 <= i < j < |results| :: results[i].id != results[j].id
    ensures results[i].id !in Loaded(pk, results[..i]).docs
    ensures Loaded(pk, results[..i + 1]) == Entered(Loaded(pk, results[..i]), results[i])
  {
    LoadedShape(pk, results[..i]);
    assert results[..i + 1][..i] == results[..i];
  }

  lemma LastIsNew(before: seq<DocData>, d: DocData)
    requires forall i, j | 0 <= i < j < |before + [d]| :: (before + [d])[i].id != (before + [d])[j].id
    ensures forall e | e in before :: e.id != d.id
  {
    forall e | e in before ensures e.id != d.id {
      var i :| 0 <= i < |before| && before[i] == e;
      assert (before + [d])[i] == e && (before + [d])[|before|] == d;
    }
  }

  lemma OneMoreLoaded(c: Cache, before: seq<DocData>, d: DocData)
    requires LoadedOk(c, before) && forall e | e in before :: e.id != d.id
    ensures LoadedOk(Entered(c, d), before + [d])
  {
    var c' := Entered(c, d);
    assert forall e :: e in before + [d] <==> e in before || e == d;
    assert d.id !in c.docs;
    assert forall id :: id in c'.docs <==> id in c.docs || id == d.id;
  }

  lemma ResultIdsDiffer(db: Db, pk: Key, results: seq<DocData>)
    requires IsQueryResult(db, pk, results)
    ensures forall i, j | 0 <= i < j < |results| :: results[i].id != results[j].id
  {
    forall i, j | 0 <= i < j < |results| ensures results[i].id != results[j].id {
      assert results[i] in results && results[j] in results;
    }
  }

  lemma UniqueLoadAgrees(db: Db, pk: Key, results: seq<DocData>, c: Cache)
    requires (forall id | id in db :: db[id].id == id) && IsQueryResult(db, pk, results)
    requires c.pk == pk && LoadedOk(c, results) && KeysUnique(results)
    ensures Inv(c, db) && Agree(c, db)
  {
    forall id | id in c.docs ensures c.Live(id) {
      var d := c.docs[id].data;
      var e := c.docs[c.dict[d.sk]].data;
      assert d in results && e in results && e.sk == d.sk;
      assert e == d;
    }
    forall id | id in db ensures db[id].pk == pk <==> id in c.docs {
      assert db[id] in results <==> db[id].pk == pk;
    }
    forall id | c.Live(id) ensures id in c.docs && id in db && db[id] == c.docs[id].data {
      assert c.docs[id].data in results;
    }
  }

  lemma DuplicateLoadDiffers(results: seq<DocData>, c: Cache)
    requires forall i, j | 0 <= i < j < |results| :: results[i].id != results[j].id
    requires LoadedOk(c, results) && !KeysUnique(results)
    ensures !Wired(c)
  {
    var i, j :| 0 <= i < j < |results| && results[i].sk == results[j].sk;
    var a, b := results[i], results[j];
    assert a in results && b in results && a.id != b.id;
    forall sk | sk in c.dict && (c.dict[sk] == a.id || c.dict[sk] == b.id) ensures sk == a.sk {
      assert c.docs[c.dict[sk]].data.sk == sk;
    }
    assert !c.Live(a.id) || !c.Live(b.id);
  }

  /** A load starts the cache in agreement with the collection exactly when no secondary key is stored twice. */
  lemma LoadAgrees(db: Db, pk: Key, results: seq<DocData>)
    requires (forall id | id in db :: db[id].id == id) && IsQueryResult(db, pk, results)
    ensures Inv(Loaded(pk, results), db) <==> KeysUnique(results)
    ensures KeysUnique(results) ==> Agree(Loaded(pk, results), db)
  {
    ResultIdsDiffer(db, pk, results);
    LoadedShape(pk, results);
    if KeysUnique(results) {
      UniqueLoadAgrees(db, pk, results, Loaded(pk, results));
    } else {
      DuplicateLoadDiffers(results, Loaded(pk, results));
    }
  }

  // ---------------------------------------------------------------- what the caller sees

  /** The caller sees a plain dictionary: the cached document of each secondary key. */
  type Dictionary = map<Key, DocData>

  ghost predicate Shows(c: Cache, view: Dictionary) {
    && (forall sk :: sk in view <==> sk in c.dict)
    && (forall sk | sk in view :: c.dict[sk] in c.docs && view[sk] == c.docs[c.dict[sk]].data)
  }

  /** What the query found, the last document of a key winning. */
  function ByKey(results: seq<DocData>): Dictionary
    decreases |results|
  {
    if results == [] then map[] else
    var d := results[|results| - 1];
    ByKey(results[..|results| - 1])[d.sk := d]
  }

  function WithPayload(view: Dictionary, id: Id, payload: int): Dictionary {
    map sk | sk in view :: PayloadSet(view, id, payload, sk)
  }

  function PayloadSet(view: Dictionary, id: Id, payload: int, sk: Key): DocData {
    if sk !in view then DocData(0, "", "", 0)
    else if view[sk].id == id then view[sk].(payload := payload)
    else view[sk]
  }

  /** What a step asks for, said of the dictionary alone. */
  function Asked(view: Dictionary, pk: Key, step: Step): Dictionary {
    match step
    case Add(sk, id) => if sk in view then view else view[sk := DocData(id, pk, sk, 0)]
    case Set(id, payload) => WithPayload(view, id, payload)
    case Delete(sk) => view - {sk}
    case Clear => map[]
    case Save(_) => view
  }

  ghost function AllAsked(w: World, view: Dictionary, steps: seq<Step>): Dictionary
    decreases |steps|
  {
    if steps == [] then view else
    var before, last := steps[..|steps| - 1], steps[|steps| - 1];
    var asked := AllAsked(w, view, before);
    if Possible(Run(w, before), last) then Asked(asked, w.cache.pk, last) else asked
  }

  lemma StepShows(w: World, view: Dictionary, step: Step)
    requires Inv(w.cache, w.db) && Possible(w, step) && Shows(w.cache, view)
    ensures Shows(Next(w, step).cache, Asked(view, w.cache.pk, step))
  {
    match step
    case Add(sk, id) =>
    case Set(id, payload) => TouchShows(w.cache, view, id, payload);
    case Delete(sk) =>
    case Clear =>
    case Save(ops) => FlushedIs(w.cache);
  }

  lemma TouchShows(c: Cache, view: Dictionary, id: Id, payload: int)
    requires Wired(c) && id in c.docs && Shows(c, view)
    ensures Shows(Touched(c, id, payload), WithPayload(view, id, payload))
  {
    assert forall sk | sk in view :: view[sk].id == c.dict[sk];
  }

  /** In every run of adds, setters, deletes, clears and saves the cache is the plain dictionary of what was asked. */
  lemma {:induction false} RunIsDictionary(w: World, view: Dictionary, steps: seq<Step>)
    requires Inv(w.cache, w.db) && Shows(w.cache, view)
    ensures Shows(Run(w, steps).cache, AllAsked(w, view, steps))
    decreases |steps|
  {
    if steps != [] {
      var before, last := steps[..|steps| - 1], steps[|steps| - 1];
      RunIsDictionary(w, view, before);
      RunKeepsInv(w, before);
      if Possible(Run(w, before), last) {
        StepShows(Run(w, before), AllAsked(w, view, before), last);
      }
    }
  }

  lemma {:induction false} LoadShows(pk: Key, results: seq<DocData>)
    requires forall i, j | 0 <= i < j < |results| :: results[i].id != results[j].id
    ensures Shows(Loaded(pk, results), ByKey(results))
    decreases |results|
  {
    if results != [] {
      var before, d := results[..|results| - 1], results[|results| - 1];
      LoadShows(pk, before);
      NextLoaded(pk, results, |before|);
      assert results[..|results|] == results;
      EnterShows(Loaded(pk, before), ByKey(before), d);
    }
  }

  lemma EnterShows(c: Cache, view: Dictionary, d: DocData)
    requires Shows(c, view) && d.id !in c.docs
    ensures Shows(Entered(c, d), view[d.sk := d])
  {
  }

  /** The stored documents of the key are the entries of the dictionary. */
  ghost predicate Stores(db: Db, pk: Key, view: Dictionary) {
    forall d: DocData :: (d.id in db && db[d.id] == d && d.pk == pk) <==> exists sk :: sk in view && view[sk] == d
  }

  lemma AgreeStores(c: Cache, db: Db, view: Dictionary)
    requires Inv(c, db) && Agree(c, db) && Shows(c, view)
    ensures Stores(db, c.pk, view)
  {
    forall d: DocData
      ensures (d.id in db && db[d.id] == d && d.pk == c.pk) <==> exists sk :: sk in view && view[sk] == d
    {
      if d.id in db && db[d.id] == d && d.pk == c.pk {
        assert c.Live(d.id);
        var sk :| sk in c.dict && c.dict[sk] == d.id;
        assert sk in view && view[sk] == d;
      }
      if sk :| sk in view && view[sk] == d {
        assert c.Live(d.id);
      }
    }
  }

  /** After any run from a load with unique keys, one more save stores exactly what was asked for. */
  lemma SavedIsAsked(db: Db, pk: Key, results: seq<DocData>, steps: seq<Step>, ops: seq<Op>)
    requires (forall id | id in db :: db[id].id == id) && IsQueryResult(db, pk, results) && KeysUnique(results)
    requires IsFlush(Run(World(Loaded(pk, results), db), steps).cache, ops)
    ensures var w := World(Loaded(pk, results), db);
            Stores(Next(Run(w, steps), Save(ops)).db, pk, AllAsked(w, ByKey(results), steps))
  {
    var w := World(Loaded(pk, results), db);
    ResultIdsDiffer(db, pk, results);
    LoadedShape(pk, results);
    LoadAgrees(db, pk, results);
    LoadShows(pk, results);
    RunIsDictionary(w, ByKey(results), steps);
    RunKeepsInv(w, steps);
    var w1, view := Run(w, steps), AllAsked(w, ByKey(results), steps);
    SaveAgrees(w1.cache, w1.db, ops);
    StepShows(w1, view, Save(ops));
    AgreeStores(Flushed(w1.cache), ApplyAll(w1.db, ops), view);
  }

  // ---------------------------------------------------------------- main result

  /**
   From a load with unique secondary keys, after any run of adds, setters, deletes, clears and
   saves, one more save, in any order of its writes, leaves the stored documents of the key
   equal to the cached ones, fails nowhere, and touches no document of another key.
   */
  lemma EverySaveAgrees(db: Db, pk: Key, results: seq<DocData>, steps: seq<Step>, ops: seq<Op>)
    requires (forall id | id in db :: db[id].id == id) && IsQueryResult(db, pk, results) && KeysUnique(results)
    requires IsFlush(Run(World(Loaded(pk, results), db), steps).cache, ops)
    ensures var w := Run(World(Loaded(pk, results), db), steps);
            var w' := Next(w, Save(ops));
            && w'.cache.pk == pk && Agree(w'.cache, w'.db) && NoneFails(w.db, ops)
            && (forall sk :: sk in w'.cache.dict <==> sk in w.cache.dict)
            && (forall id | id in w.db && w.db[id].pk != pk :: SameAt(w'.db, w.db, id))
            && (forall ops' | IsFlush(w.cache, ops') :: ApplyAll(w.db, ops') == w'.db)
  {
    LoadAgrees(db, pk, results);
    var w0 := World(Loaded(pk, results), db);
    ResultIdsDiffer(db, pk, results);
    LoadedShape(pk, results);
    RunKeepsInv(w0, steps);
    var w := Run(w0, steps);
    SaveAgrees(w.cache, w.db, ops);
    FlushNeverFails(w.cache, w.db, ops);
    forall ops' | IsFlush(w.cache, ops') ensures ApplyAll(w.db, ops') == ApplyAll(w.db, ops) {
      FlushesArePermutations(w.cache, ops, ops');
      AnyOrder(w.db, ops', ops);
    }
  }

  lemma {:induction false} CountOnce(ops: seq<Op>, op: Op)
    requires NoRepeats(ops)
    ensures multiset(ops)[op] == if op in ops then 1 else 0
    decreases |ops|
  {
    if ops != [] {
      var before, last := ops[..|ops| - 1], ops[|ops| - 1];
      CountOnce(before, op);
      assert ops == before + [last];
      assert last !in before;
    }
  }

  lemma FlushesArePermutations(c: Cache, ops: seq<Op>, ops': seq<Op>)
    requires Wired(c) && IsFlush(c, ops) && IsFlush(c, ops')
    ensures DistinctIds(ops) && DistinctIds(ops') && multiset(ops) == multiset(ops')
  {
    FlushIdsDistinct(c, ops);
    FlushIdsDistinct(c, ops');
    forall op ensures multiset(ops)[op] == multiset(ops')[op] {
      CountOnce(ops, op);
      CountOnce(ops', op);
      assert op in ops <==> op in ops';
    }
  }

  lemma {:induction false} CountTwice(ops: seq<Op>, i: nat, j: nat)
    requires i < j < |ops| && ops[i] == ops[j]
    ensures multiset(ops)[ops[i]] >= 2
  {
    assert ops == ops[..j] + [ops[j]] + ops[j + 1..];
    assert ops[i] in ops[..j];
  }

  lemma ReorderedFlush(c: Cache, ops: seq<Op>, ops': seq<Op>)
    requires IsFlush(c, ops) && multiset(ops) == multiset(ops')
    ensures IsFlush(c, ops')
  {
    assert forall op :: op in ops' <==> op in multiset(ops');
    assert forall op :: op in ops <==> op in multiset(ops);
    forall i, j | 0 <= i < j < |ops'| ensures ops'[i] != ops'[j] {
      if ops'[i] == ops'[j] {
        CountTwice(ops', i, j);
        CountOnce(ops, ops'[i]);
        assert false;
      }
    }
  }

  /**
   A save lowers the flags and empties the trackers before it writes. When the write then fails
   altogether, nothing is lost exactly when nothing was added and no dirty document had changed.
   */
  lemma FailedSaveLoses(c: Cache, db: Db)
    requires Inv(c, db)
    ensures Inv(Flushed(c), db) <==> c.add == {} && forall id | id in c.dirty :: db[id] == c.docs[id].data
  {
    var c' := Flushed(c);
    FlushedIs(c);
    if Inv(c', db) {
      forall id | id in c.add || id in c.dirty ensures id !in c.add && db[id] == c.docs[id].data {
        assert c.Live(id) && c'.Live(id);
      }
    }
  }
}
