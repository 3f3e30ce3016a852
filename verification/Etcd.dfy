/**
 The key-value store that all registries share: values carry the revision at
 which their key was created, and a transaction is one atomic step that takes
 one revision.
 */
module Etcd {

  datatype Entry<V> = Entry(value: V, createRevision: nat)

  datatype Store<K(==), V(==)> = Store(kvs: map<K, Entry<V>>, revision: nat)
  {
    /** The create revision of a key, 0 when the key is absent. */
    function CreateRevision(k: K): nat {
      if k in kvs then kvs[k].createRevision else 0
    }

    predicate Holds(k: K, v: V) {
      k in kvs && kvs[k].value == v
    }

    /** Writes all pairs in one transaction; a key that exists keeps its create revision. */
    function PutAll(puts: map<K, V>): Store<K, V> {
      Store(
        kvs + map k | k in puts :: Entry(puts[k], if k in kvs then kvs[k].createRevision else revision + 1),
        revision + 1)
    }

    /** Deletes keys in one transaction; deleting nothing takes no revision. */
    function DeleteAll(dels: set<K>): Store<K, V> {
      Store(kvs - dels, if kvs.Keys !! dels then revision else revision + 1)
    }

    /** Every key was created at a positive revision that the store has reached. */
    ghost predicate Sane() {
      forall k | k in kvs :: 1 <= kvs[k].createRevision <= revision
    }
  }

  /** The server process, reached by every node. */
  class Server<K(==), V(==)> {
    var store: Store<K, V>

    constructor ()
      ensures store == Store(map[], 0)
    {
      store := Store(map[], 0);
    }
  }
}
