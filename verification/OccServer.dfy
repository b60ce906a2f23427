/** The optimistic transaction server as it is written: caches updated in place under one mutex. */
module OccServer {
  import opened Sets
  import opened Transactions
  import Model = OccModel

  class KvCache {
    var value: map<int, string>
    var writeSet: set<int>
    var valid: bool

    constructor ()
      ensures View() == Model.Cache(map[], {}, true)
    {
      value, writeSet, valid := map[], {}, true;
    }

    ghost function View(): Model.Cache
      reads this
    {
      Model.Cache(value, writeSet, valid)
    }
  }

  class YdbServerOcc {
    var kvStore: map<int, KvCache>
    var transIdCnt: int
    var ec: Store

    /** No two transactions share a cache object. */
    ghost predicate Valid()
      reads this
    {
      forall i, j | i in kvStore && j in kvStore && i != j :: kvStore[i] != kvStore[j]
    }

    ghost function View(): Model.Server
      reads this, kvStore.Values
    {
      Model.Server(transIdCnt, map id | id in kvStore :: kvStore[id].View(), ec)
    }

    constructor (store: Store)
      ensures Valid() && View() == Model.Initial(store)
    {
      kvStore, transIdCnt, ec := map[], 0, store;
    }

    method TransactionBegin() returns (resp: Response)
      requires Valid()
      modifies this
      ensures Valid() && fresh(kvStore.Values - old(kvStore.Values))
      ensures (View(), resp) == Model.Step(old(View()), Begin)
    {
      var outId := transIdCnt;
      transIdCnt := transIdCnt + 1;
      var cache := new KvCache();
      kvStore := kvStore[outId := cache];
      resp := Started(outId);
      assert View().caches == old(View()).caches[outId := Model.Cache(map[], {}, true)];
    }

    method TransactionCommit(id: int) returns (resp: Response)
      requires Valid()
      modifies this, kvStore.Values
      ensures Valid() && kvStore.Values <= old(kvStore.Values)
      ensures (View(), resp) == Model.Step(old(View()), Commit(id))
    {
      if id !in kvStore {
        return TransIdInv;
      }
      var cache := kvStore[id];
      if cache.valid {
        CommitCache(id);
        resp := Ok;
      } else {
        kvStore := kvStore - {id};
        resp := Aborted;
        assert View().caches == old(View()).caches - {id};
      }
    }

    /** A commit whose reads are still current. */
    method CommitCache(id: int)
      requires Valid() && id in kvStore && kvStore[id].valid
      modifies this`kvStore, this`ec, kvStore.Values
      ensures kvStore == old(kvStore) - {id} && View() == Model.DoCommit(old(View()), id).0
    {
      var cache := kvStore[id];
      InvalidateOthers(id);
      PutWrites(cache);
      kvStore := kvStore - {id};
      ghost var caches := Model.DoCommit(old(View()), id).0.caches;
      forall i | i in kvStore ensures i in caches && View().caches[i] == caches[i] {
        assert kvStore[i].View() == Model.Invalidate(old(kvStore[i].View()), old(cache.writeSet));
      }
      assert View().caches == caches;
    }

    /** Mark every other transaction that touched a slot written by `id`. */
    method InvalidateOthers(id: int)
      requires Valid() && id in kvStore
      modifies kvStore.Values
      ensures forall i | i in kvStore :: kvStore[i].View() ==
                if i == id then old(kvStore[i].View())
                else Model.Invalidate(old(kvStore[i].View()), old(kvStore[id].writeSet))
    {
      var cache := kvStore[id];
      var done, todo := {}, cache.writeSet;
      while todo != {}
        invariant done + todo == cache.writeSet == old(cache.writeSet)
        invariant forall i | i in kvStore :: kvStore[i].View() ==
                    if i == id then old(kvStore[i].View()) else Model.Invalidate(old(kvStore[i].View()), done)
      {
        NonEmpty(todo);
        var writeValue :| writeValue in todo;
        InvalidateSlot(id, writeValue);
        done, todo := done + {writeValue}, todo - {writeValue};
      }
    }

    method InvalidateSlot(id: int, writeValue: int)
      requires Valid() && id in kvStore
      modifies kvStore.Values
      ensures forall i | i in kvStore :: kvStore[i].View() ==
                if i == id then old(kvStore[i].View()) else Model.Invalidate(old(kvStore[i].View()), {writeValue})
    {
      var todo := kvStore.Keys;
      while todo != {}
        invariant todo <= kvStore.Keys
        invariant forall i | i in kvStore :: kvStore[i].View() ==
                    if i == id || i in todo then old(kvStore[i].View())
                    else Model.Invalidate(old(kvStore[i].View()), {writeValue})
      {
        NonEmpty(todo);
        var i :| i in todo;
        todo := todo - {i};
        if i != id {
          var tmp := kvStore[i];
          if writeValue in tmp.value {
            tmp.valid := false;
          }
        }
      }
    }

    method PutWrites(cache: KvCache)
      modifies this`ec
      ensures ec == old(ec) + Flushed(cache.value, cache.writeSet)
    {
      var done, todo := {}, cache.value.Keys;
      while todo != {}
        invariant done + todo == cache.value.Keys && done !! todo
        invariant ec == old(ec) + map slot | slot in done && slot in cache.writeSet :: cache.value[slot]
      {
        NonEmpty(todo);
        var slot :| slot in todo;
        if slot in cache.writeSet {
          ec := ec[slot := cache.value[slot]];
        }
        done, todo := done + {slot}, todo - {slot};
      }
      assert done == cache.value.Keys;
    }

    method TransactionAbort(id: int) returns (resp: Response)
      requires Valid()
      modifies this
      ensures Valid() && kvStore.Values <= old(kvStore.Values)
      ensures (View(), resp) == Model.Step(old(View()), Abort(id))
    {
      if id !in kvStore {
        return TransIdInv;
      }
      kvStore := kvStore - {id};
      resp := Ok;
      assert View().caches == old(View()).caches - {id};
    }

    method Get(id: int, key: Key) returns (resp: Response)
      requires Valid()
      modifies kvStore.Values
      ensures (View(), resp) == Model.Step(old(View()), Request.Get(id, key))
    {
      var slot := SDBMHash(key);
      if id !in kvStore {
        return TransIdInv;
      }
      var cache := kvStore[id];
      if slot !in cache.value {
        var outValue := Lookup(ec, slot);
        cache.value := cache.value[slot := outValue];
        resp := Value(outValue);
        assert kvStore[id].View() == old(kvStore[id].View()).(value := old(cache.value)[slot := outValue]);
        assert forall i | i in kvStore && i != id :: kvStore[i].View() == old(kvStore[i].View());
        assert View().caches == old(View()).caches[id := cache.View()];
      } else {
        resp := Value(cache.value[slot]);
      }
    }

    method Set(id: int, key: Key, value: string) returns (resp: Response)
      requires Valid()
      modifies kvStore.Values
      ensures (View(), resp) == Model.Step(old(View()), Request.Set(id, key, value))
    {
      var slot := SDBMHash(key);
      if id !in kvStore {
        return TransIdInv;
      }
      var cache := kvStore[id];
      cache.value := cache.value[slot := value];
      cache.writeSet := cache.writeSet + {slot};
      resp := Ok;
      assert kvStore[id].View() == Model.BufferWrite(old(kvStore[id].View()), slot, value);
      assert forall i | i in kvStore && i != id :: kvStore[i].View() == old(kvStore[i].View());
      assert View().caches == old(View()).caches[id := cache.View()];
    }

    method Del(id: int, key: Key) returns (resp: Response)
      requires Valid()
      modifies kvStore.Values
      ensures (View(), resp) == Model.Step(old(View()), Request.Del(id, key))
    {
      resp := Set(id, key, "");
    }
  }
}
