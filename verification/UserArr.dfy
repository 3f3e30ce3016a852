/**
 The code that the `userarr` template of gen/gen_model/gen_model.go generates for one schema
 (primary key, secondary key, id, one payload field), as objects that are changed in place.
 */
module UserArr {
  import opened Prelude
  import opened WriteBack

  datatype Error = KeyConflict | DataNotFound | WriteFailed

  /** The source of document ids: each one is new. */
  class ObjectIds {
    var next: nat

    constructor ()
      ensures next == 0
    {
      next := 0;
    }

    method NewObjectId() returns (id: Id)
      modifies this
      ensures id == old(next) && next == old(next) + 1
    {
      id := next;
      next := next + 1;
    }
  }

  /** A collection of the document store, with its unordered bulk write. */
  class Collection {
    var docs: Db

    constructor ()
      ensures docs == map[]
    {
      docs := map[];
    }

    /**
     Makes the writes in whatever order; `order` is the one that was taken. A request that is lost
     writes nothing; that and a lost reply report an error.
     */
    method BulkWrite(models: seq<Op>, fate: Fate) returns (failed: bool, ghost order: seq<Op>)
      modifies this
      ensures multiset(order) == multiset(models)
      ensures docs == if fate.RequestLost? then old(docs) else ApplyAll(old(docs), order)
      ensures !failed <==> fate.Replied? && NoneFails(old(docs), order)
    {
      if fate.RequestLost? {
        return true, models;
      }
      var todo := multiset(models);
      failed, order := false, [];
      ghost var docs0 := docs;
      while todo != multiset{}
        invariant Written(models, todo, order, docs0, docs, failed)
        decreases |todo|
      {
        var op :| op in todo;
        OneMoreWrite(models, todo, order, docs0, docs, failed, op);
        todo := todo - multiset{op};
        failed := failed || Fails(docs, op);
        docs := Apply(docs, op);
        order := order + [op];
      }
      failed := failed || fate.ReplyLost?;
    }
  }

  /** The writes of `order` are made, those of `todo` are not. */
  ghost predicate Written(models: seq<Op>, todo: multiset<Op>, order: seq<Op>, docs0: Db, docs: Db, failed: bool) {
    && multiset(order) + todo == multiset(models)
    && docs == ApplyAll(docs0, order) && (!failed <==> NoneFails(docs0, order))
  }

  lemma OneMoreWrite(models: seq<Op>, todo: multiset<Op>, order: seq<Op>, docs0: Db, docs: Db, failed: bool, op: Op)
    requires Written(models, todo, order, docs0, docs, failed) && op in todo
    ensures Written(models, todo - multiset{op}, order + [op], docs0, Apply(docs, op), failed || Fails(docs, op))
  {
    WriteSnoc(docs0, order, op);
  }

  lemma WriteSnoc(db: Db, order: seq<Op>, op: Op)
    ensures ApplyAll(db, order + [op]) == Apply(ApplyAll(db, order), op)
    ensures NoneFails(db, order + [op]) <==> NoneFails(db, order) && !Fails(ApplyAll(db, order), op)
  {
    var longer := order + [op];
    assert longer[..|order|] == order && longer[|order|] == op;
    assert forall i | 0 <= i < |order| :: longer[..i] == order[..i] && longer[i] == order[i];
  }

  /** The dictionary and the three trackers lead to the objects of the documents that the cache says. */
  ghost predicate TablesFit(objects: map<Id, Document>, dict: map<Key, Document>, add: map<Id, Document>,
                            dirty: map<Id, Document>, del: map<Id, Document>, c: Cache)
  {
    && dict.Keys == c.dict.Keys
    && (forall sk | sk in dict :: c.dict[sk] in objects && dict[sk] == objects[c.dict[sk]])
    && Tracks(objects, add, c.add) && Tracks(objects, dirty, c.dirty) && Tracks(objects, del, c.del)
  }

  ghost predicate Tracks(objects: map<Id, Document>, tracker: map<Id, Document>, ids: set<Id>) {
    tracker.Keys == ids && forall id | id in ids :: id in objects && tracker[id] == objects[id]
  }

  lemma DeleteFits(objects: map<Id, Document>, dict: map<Key, Document>, add: map<Id, Document>,
                   dirty: map<Id, Document>, del: map<Id, Document>, c: Cache, sk: Key, id: Id)
    requires TablesFit(objects, dict, add, dirty, del, c) && sk in dict && id == c.dict[sk] && id !in c.del
    ensures TablesFit(objects, dict - {sk}, add - {id}, dirty - {id}, del[id := dict[sk]], Deleted(c, sk))
    ensures Deleted(c, sk).docs == c.docs && Deleted(c, sk).pk == c.pk
  {
  }

  lemma TouchFits(objects: map<Id, Document>, dict: map<Key, Document>, add: map<Id, Document>,
                  dirty: map<Id, Document>, del: map<Id, Document>, c: Cache, id: Id, v: int)
    requires TablesFit(objects, dict, add, dirty, del, c) && id in objects && id in c.docs
    ensures var tracked := c.docs[id].dirty || id in add || id in dirty || id in del;
            TablesFit(objects, dict, add, if tracked then dirty else dirty[id := objects[id]], del, Touched(c, id, v))
    ensures Touched(c, id, v).docs == c.docs[id := Cell(c.docs[id].data.(payload := v), true)]
    ensures Touched(c, id, v).pk == c.pk
  {
  }

  lemma EnterFits(objects: map<Id, Document>, dict: map<Key, Document>, add: map<Id, Document>,
                  dirty: map<Id, Document>, del: map<Id, Document>, c: Cache, doc: Document)
    requires TablesFit(objects, dict, add, dirty, del, c) && doc.data0.id !in objects
    ensures TablesFit(objects[doc.data0.id := doc], dict[doc.data0.sk := doc], add, dirty, del, Entered(c, doc.data0))
  {
  }

  lemma UntrackedFit(objects: map<Id, Document>, dict: map<Key, Document>, add: map<Id, Document>,
                     dirty: map<Id, Document>, del: map<Id, Document>, c: Cache, docs: map<Id, Cell>, id: Id)
    requires TablesFit(objects, dict, add, dirty, del, c)
    ensures TablesFit(objects, dict, add - {id}, dirty, del, c.(docs := docs, add := c.add - {id}))
    ensures TablesFit(objects, dict, add, dirty - {id}, del, c.(docs := docs, dirty := c.dirty - {id}))
  {
  }

  lemma ClearFits(objects: map<Id, Document>, dict: map<Key, Document>, add: map<Id, Document>,
                  dirty: map<Id, Document>, del: map<Id, Document>, del': map<Id, Document>, c: Cache)
    requires TablesFit(objects, dict, add, dirty, del, c)
    requires MarkedDeleted(objects, del, del', dict.Keys, c)
    ensures TablesFit(objects, map[], map[], map[], del', Cleared(c))
  {
    assert del'.Keys == c.del + c.dict.Values;
  }

  /** `del'` is `del` with the objects of the given keys. */
  ghost predicate MarkedDeleted(objects: map<Id, Document>, del: map<Id, Document>, del': map<Id, Document>,
                                keys: set<Key>, c: Cache)
  {
    && (forall id :: id in del' <==> id in del || exists sk :: sk in keys && sk in c.dict && c.dict[sk] == id)
    && (forall id | id in del' :: id in objects && del'[id] == objects[id])
  }

  class Document {
    const data0: DocData  // id and keys, which no setter changes
    var payload: int
    var dirty: bool
    const arr: Arr

    constructor (data0: DocData, arr: Arr)
      ensures this.data0 == data0 && this.arr == arr && payload == data0.payload && !dirty
    {
      this.data0, this.arr, payload, dirty := data0, arr, data0.payload, false;
    }

    function Data(): DocData
      reads this
    {
      data0.(payload := payload)
    }

    /** The setter of the payload field. */
    method SetPayload(v: int)
      requires arr.Valid() && data0.id in arr.objects && arr.objects[data0.id] == this
      modifies this`payload, this`dirty, arr`dirty, arr`cache
      ensures arr.Valid() && arr.cache == Touched(old(arr.cache), data0.id, v)
      ensures payload == v && dirty
    {
      TouchFits(arr.objects, arr.dict, arr.add, arr.dirty, arr.del, arr.cache, data0.id, v);
      payload := v;
      if !dirty {
        dirty := true;
        arr.SetDirty(this);
      }
      arr.cache := Touched(old(arr.cache), data0.id, v);
    }
  }

  class Arr {
    const pk: Key
    var dict: map<Key, Document>
    var add: map<Id, Document>
    var dirty: map<Id, Document>
    var del: map<Id, Document>
    ghost var cache: Cache                   // the value this array represents
    ghost var objects: map<Id, Document>     // every document object that was attached

    ghost predicate Valid()
      reads this, objects.Values
    {
      cache.pk == pk && HoldsDocs() && HoldsTables()
    }

    /** The attached objects are the documents of the cache. */
    ghost predicate HoldsDocs()
      reads `cache, `objects, objects.Values
    {
      objects.Keys == cache.docs.Keys && forall id | id in objects :: Holds(id)
    }

    ghost predicate Holds(id: Id)
      reads `cache, `objects, objects.Values
    {
      && id in objects && id in cache.docs
      && objects[id].data0.id == id && objects[id].arr == this
      && cache.docs[id] == Cell(objects[id].Data(), objects[id].dirty)
    }

    ghost predicate HoldsTables()
      reads this
    {
      TablesFit(objects, dict, add, dirty, del, cache)
    }

    constructor (pk: Key)
      ensures Valid() && this.pk == pk && objects == map[] && cache == Cache(pk, map[], map[], {}, {}, {})
    {
      this.pk, dict, add, dirty, del := pk, map[], map[], map[], map[];
      objects, cache := map[], Cache(pk, map[], map[], {}, {}, {});
    }

    method SetDirty(doc: Document)
      modifies this`dirty
      ensures dirty == if doc.data0.id in add || doc.data0.id in old(dirty) || doc.data0.id in del
                       then old(dirty) else old(dirty)[doc.data0.id := doc]
    {
      if doc.data0.id in add || doc.data0.id in dirty || doc.data0.id in del {
        return;
      }
      dirty := dirty[doc.data0.id := doc];
    }

    method Add(sk: Key, ids: ObjectIds) returns (r: Result<Document, Error>)
      requires Valid() && forall id | id in objects :: id < ids.next
      modifies this, ids
      ensures Valid() && ids.next == old(ids.next) + 1 && forall id | id in objects :: id < ids.next
      ensures cache == Added(old(cache), sk, old(ids.next))
      ensures if sk in old(cache.dict) then r == Err(KeyConflict)
              else
                && r.Ok? && fresh(r.value) && objects == old(objects)[old(ids.next) := r.value]
                && r.value.Data() == DocData(old(ids.next), pk, sk, 0) && !r.value.dirty
    {
      var id := ids.NewObjectId();
      var doc := new Document(DocData(id, pk, sk, 0), this);
      if sk in dict {
        return Err(KeyConflict);
      }
      Attach(sk, doc);
      return Ok(doc);
    }

    /** Enters a document into the dictionary, as `Add` and every round of `Load` do. */
    method Enter(doc: Document)
      requires Valid() && doc.data0.id !in objects
      requires doc.arr == this && !doc.dirty && doc.payload == doc.data0.payload
      modifies `dict, `objects, `cache
      ensures Valid() && objects == old(objects)[doc.data0.id := doc]
      ensures cache == Entered(old(cache), doc.data0)
    {
      EnterFits(objects, dict, add, dirty, del, cache, doc);
      dict := dict[doc.data0.sk := doc];
      objects, cache := objects[doc.data0.id := doc], Entered(cache, doc.data0);
    }

    /** Enters a new document into the dictionary and among the added ones. */
    method Attach(sk: Key, doc: Document)
      requires Valid() && sk !in dict && doc.data0.id !in objects
      requires doc.data0 == DocData(doc.data0.id, pk, sk, 0) && doc.payload == 0 && !doc.dirty && doc.arr == this
      modifies `dict, `add, `objects, `cache
      ensures Valid() && objects == old(objects)[doc.data0.id := doc]
      ensures cache == Added(old(cache), sk, doc.data0.id)
    {
      Enter(doc);
      add := add[doc.data0.id := doc];
      cache := cache.(add := cache.add + {doc.data0.id});
    }

    method Delete(sk: Key) returns (err: Option<Error>)
      requires Valid()
      modifies `dict, `add, `dirty, `del, `cache
      ensures Valid()
      ensures cache == Deleted(old(cache), sk)
      ensures err == if sk in old(cache.dict) then None else Some(DataNotFound)
    {
      if sk !in dict {
        return Some(DataNotFound);
      }
      if dict[sk].data0.id !in del {
        Drop(sk, dict[sk]);
      }
      return None;
    }

    /** Takes a document out of the dictionary and the trackers, and tracks it as deleted. */
    method Drop(sk: Key, doc: Document)
      requires Valid() && sk in dict && dict[sk] == doc && doc.data0.id !in del
      modifies `dict, `add, `dirty, `del, `cache
      ensures Valid() && cache == Deleted(old(cache), sk)
    {
      var id := doc.data0.id;
      assert Holds(cache.dict[sk]);
      DeleteFits(objects, dict, add, dirty, del, cache, sk, id);
      dict := dict - {sk};
      dirty := dirty - {id};
      add := add - {id};
      del := del[id := doc];
      cache := Deleted(cache, sk);
    }

    method Clear()
      requires Valid()
      modifies `dict, `add, `dirty, `del, `cache
      ensures Valid()
      ensures cache == Cleared(old(cache)) && dict == map[] && add == map[] && dirty == map[]
    {
      MarkAllDeleted();
      ClearFits(objects, dict, add, dirty, old(del), del, cache);
      add, dirty, dict := map[], map[], map[];
      cache := Cleared(cache);
    }

    /** The first loop of `Clear`. */
    method MarkAllDeleted()
      requires Valid()
      modifies `del
      ensures MarkedDeleted(objects, old(del), del, dict.Keys, cache)
    {
      ghost var del0 := del;
      var todo := dict.Keys;
      while todo != {}
        invariant todo <= dict.Keys
        invariant MarkedDeleted(objects, del0, del, dict.Keys - todo, cache)
        decreases todo
      {
        var sk :| sk in todo;
        todo := todo - {sk};
        del := del[dict[sk].data0.id := dict[sk]];
      }
      assert dict.Keys - todo == dict.Keys;
    }

    /** The loop of `Save` over the added documents. */
    method SettleAdd()
      requires Valid()
      modifies `add, `cache, objects.Values
      ensures Valid() && add == map[] && cache == FlagsDown(old(cache), old(cache.add)).(add := {})
    {
      ghost var c0 := cache;
      var ids := add.Keys;
      while ids != {}
        invariant Valid() && add.Keys == ids <= c0.add
        invariant cache == FlagsDown(c0, c0.add - ids).(add := ids)
        decreases ids
      {
        var id :| id in ids;
        SettleNextAdd(id, c0);
        ids := ids - {id};
      }
      assert c0.add - ids == c0.add;
    }

    method SettleNextAdd(id: Id, ghost c0: Cache)
      requires Valid() && id in add && add.Keys <= c0.add && cache == FlagsDown(c0, c0.add - add.Keys).(add := add.Keys)
      modifies `add, `cache, objects.Values
      ensures Valid() && add.Keys == old(add.Keys) - {id} && cache == FlagsDown(c0, c0.add - add.Keys).(add := add.Keys)
    {
      OneFlagDown(c0, c0.add - add.Keys, id);
      SettleOneAdd(id);
      assert c0.add - add.Keys == c0.add - old(add.Keys) + {id};
    }

    method SettleOneAdd(id: Id)
      requires Valid() && id in add
      modifies `add, `cache, objects.Values
      ensures Valid() && id in old(cache.docs)
      ensures cache == FlagsDown(old(cache), {id}).(add := old(cache.add) - {id})
    {
      assert Holds(id);
      FlagDownIs(cache, id);
      ghost var docs := cache.docs[id := cache.docs[id].(dirty := false)];
      UntrackedFit(objects, dict, add, dirty, del, cache, docs, id);
      add[id].dirty := false;
      add := add - {id};
      cache := cache.(docs := docs, add := cache.add - {id});
    }

    /** The loop of `Save` over the dirty documents. */
    method SettleDirty()
      requires Valid()
      modifies `dirty, `cache, objects.Values
      ensures Valid() && dirty == map[] && cache == FlagsDown(old(cache), old(cache.dirty)).(dirty := {})
    {
      ghost var c0 := cache;
      var ids := dirty.Keys;
      while ids != {}
        invariant Valid() && dirty.Keys == ids <= c0.dirty
        invariant cache == FlagsDown(c0, c0.dirty - ids).(dirty := ids)
        decreases ids
      {
        var id :| id in ids;
        SettleNextDirty(id, c0);
        ids := ids - {id};
      }
      assert c0.dirty - ids == c0.dirty;
    }

    method SettleNextDirty(id: Id, ghost c0: Cache)
      requires Valid() && id in dirty && dirty.Keys <= c0.dirty
      requires cache == FlagsDown(c0, c0.dirty - dirty.Keys).(dirty := dirty.Keys)
      modifies `dirty, `cache, objects.Values
      ensures Valid() && dirty.Keys == old(dirty.Keys) - {id}
      ensures cache == FlagsDown(c0, c0.dirty - dirty.Keys).(dirty := dirty.Keys)
    {
      OneFlagDown(c0, c0.dirty - dirty.Keys, id);
      SettleOneDirty(id);
      assert c0.dirty - dirty.Keys == c0.dirty - old(dirty.Keys) + {id};
    }

    method SettleOneDirty(id: Id)
      requires Valid() && id in dirty
      modifies `dirty, `cache, objects.Values
      ensures Valid() && id in old(cache.docs)
      ensures cache == FlagsDown(old(cache), {id}).(dirty := old(cache.dirty) - {id})
    {
      assert Holds(id);
      FlagDownIs(cache, id);
      ghost var docs := cache.docs[id := cache.docs[id].(dirty := false)];
      UntrackedFit(objects, dict, add, dirty, del, cache, docs, id);
      dirty[id].dirty := false;
      dirty := dirty - {id};
      cache := cache.(docs := docs, dirty := cache.dirty - {id});
    }

    /** The writes of `Save` for the deleted documents. */
    method Deletes() returns (models: seq<Op>)
      requires Valid()
      ensures forall op :: op in models <==> op.DeleteOne? && IsModel(cache, op)
      ensures NoRepeats(models)
    {
      models := [];
      var ids := del.Keys;
      while ids != {}
        invariant ids <= del.Keys && NoRepeats(models)
        invariant forall op :: op in models <==> op.DeleteOne? && IsModel(cache, op) && op.Id() !in ids
        decreases ids
      {
        var id :| id in ids;
        var op := DeleteOne(id);
        AppendNew(models, op);
        models := models + [op];
        ids := ids - {id};
      }
    }

    /** The writes of `Save` for the added documents. */
    method Inserts() returns (models: seq<Op>)
      requires Valid()
      ensures forall op :: op in models <==> op.InsertOne? && IsModel(cache, op)
      ensures NoRepeats(models)
    {
      models := [];
      var ids := add.Keys;
      while ids != {}
        invariant ids <= add.Keys && NoRepeats(models)
        invariant forall op :: op in models <==> op.InsertOne? && IsModel(cache, op) && op.Id() !in ids
        decreases ids
      {
        var id :| id in ids;
        assert Holds(id);
        var op := InsertOne(add[id].Data());
        AppendNew(models, op);
        models := models + [op];
        ids := ids - {id};
      }
    }

    /** The writes of `Save` for the dirty documents. */
    method Replaces() returns (models: seq<Op>)
      requires Valid()
      ensures forall op :: op in models <==> op.ReplaceOne? && IsModel(cache, op)
      ensures NoRepeats(models)
    {
      models := [];
      var ids := dirty.Keys;
      while ids != {}
        invariant ids <= dirty.Keys && NoRepeats(models)
        invariant forall op :: op in models <==> op.ReplaceOne? && IsModel(cache, op) && op.Id() !in ids
        decreases ids
      {
        var id :| id in ids;
        assert Holds(id);
        var op := ReplaceOne(dirty[id].Data());
        AppendNew(models, op);
        models := models + [op];
        ids := ids - {id};
      }
    }

    /** The writes that `Save` sends. */
    method Models() returns (models: seq<Op>)
      requires Valid()
      ensures IsFlush(cache, models)
    {
      var deletes := Deletes();
      var inserts := Inserts();
      var updates := Replaces();
      AllModels(cache, deletes, inserts, updates);
      return deletes + inserts + updates;
    }

    /** The part of `Save` that empties the trackers. */
    method Settle()
      requires Valid()
      modifies `add, `dirty, `cache, objects.Values
      ensures Valid() && cache == Flushed(old(cache))
    {
      SettleBoth(cache);
      SettleAdd();
      SettleDirty();
      ForgetDeleted();
    }

    /** The last of the clearing loops of `Save`, which finds nothing to do. */
    method ForgetDeleted()
      requires Valid() && dirty == map[]
      modifies `dirty
      ensures Valid()
    {
      dirty := dirty - del.Keys;
    }

    method Get(sk: Key) returns (r: Option<Document>)
      requires Valid()
      ensures r == if sk in cache.dict then Some(objects[cache.dict[sk]]) else None
    {
      return if sk in dict then Some(dict[sk]) else None;
    }
  }

  /** `Save`: `ops` are the writes in the order they take effect, unless the request is lost. */
  method Save(coll: Collection, arr: Arr, fate: Fate) returns (err: Option<Error>, ghost ops: seq<Op>)
    requires arr.Valid()
    modifies coll, arr`add, arr`dirty, arr`cache, arr.objects.Values
    ensures arr.Valid() && arr.cache == Flushed(old(arr.cache)) && IsFlush(old(arr.cache), ops)
    ensures coll.docs == if fate.RequestLost? then old(coll.docs) else ApplyAll(old(coll.docs), ops)
    ensures err == if ops == [] || (fate.Replied? && NoneFails(old(coll.docs), ops)) then None else Some(WriteFailed)
    ensures Inv(old(arr.cache), old(coll.docs)) && !fate.RequestLost? ==>
              && (err == None <==> ops == [] || fate.Replied?)
              && Agree(arr.cache, coll.docs) && Inv(arr.cache, coll.docs)
  {
    ghost var c, db := arr.cache, coll.docs;
    var models := arr.Models();
    arr.Settle();
    err, ops := None, [];
    if |models| > 0 {
      var failed;
      failed, ops := coll.BulkWrite(models, fate);
      err := if failed then Some(WriteFailed) else None;
      assert |multiset(ops)| == |multiset(models)|;
    }
    ReorderedFlush(c, models, ops);
    SaveMeans(c, db, ops);
  }

  lemma AllModels(c: Cache, deletes: seq<Op>, inserts: seq<Op>, updates: seq<Op>)
    requires NoRepeats(deletes) && NoRepeats(inserts) && NoRepeats(updates)
    requires forall op :: op in deletes <==> op.DeleteOne? && IsModel(c, op)
    requires forall op :: op in inserts <==> op.InsertOne? && IsModel(c, op)
    requires forall op :: op in updates <==> op.ReplaceOne? && IsModel(c, op)
    ensures IsFlush(c, deletes + inserts + updates)
  {
    forall i | 0 <= i < |deletes| ensures deletes[i].DeleteOne? {
      assert deletes[i] in deletes;
    }
    forall i | 0 <= i < |inserts| ensures inserts[i].InsertOne? {
      assert inserts[i] in inserts;
    }
    forall i | 0 <= i < |updates| ensures updates[i].ReplaceOne? {
      assert updates[i] in updates;
    }
  }

  /** `Load`, given what the query found. */
  method Load(pk: Key, found: Result<seq<DocData>, Error>) returns (r: Result<Arr, Error>)
    requires found.Ok? ==> forall i, j | 0 <= i < j < |found.value| :: found.value[i].id != found.value[j].id
    ensures found.Err? ==> r == Err(found.error)
    ensures found.Ok? ==> r.Ok? && fresh(r.value) && fresh(r.value.objects.Values)
                          && r.value.Valid() && r.value.cache == Loaded(pk, found.value)
  {
    if found.Err? {
      return Err(found.error);
    }
    var results := found.value;
    var arr := new Arr(pk);
    for i := 0 to |results|
      invariant arr.Valid() && arr.cache == Loaded(pk, results[..i]) && fresh(arr.objects.Values)
    {
      var v := new Document(results[i], arr);
      NextLoaded(pk, results, i);
      arr.Enter(v);
    }
    assert results[..|results|] == results;
    return Ok(arr);
  }
}
