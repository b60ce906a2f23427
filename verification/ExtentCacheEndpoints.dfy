/**
 The extent server and its clients as they update their tables, calling each other: a client calls the
 server, which may call the writer for its data (and the writer calls the server's put) and tells the
 other clients that their copies are stale. Each method is tied to the model's function for its extent,
 and leaves every other extent alone.
 */
module ExtentCacheEndpoints {
  import opened Options
  import opened ExtentCacheModel
  import Sets

  /** What the inode manager keeps for one extent. */
  datatype File = File(alive: bool, content: string, fileType: nat)

  datatype ClientInfo = ClientInfo(clients: set<int>, writer: Option<int>)

  type Cache = map<int, Item>

  const ROOT := 1

  const ROOT_ITEM := Item(true, true, false, "", T_DIR, 0)

  /** All the tables at once: the server's files and client books, and every client's cache. */
  datatype Tables = Tables(files: map<int, File>, books: map<int, ClientInfo>, caches: map<int, Cache>)

  function ItemsOf(caches: map<int, Cache>, e: int): map<int, Item> {
    map c | c in caches && e in caches[c] :: caches[c][e]
  }

  /** One extent, as the model sees it. */
  function ViewOf(t: Tables, e: int): Extent {
    if e in t.files && e in t.books then
      Extent(t.files[e].alive, t.files[e].content, t.files[e].fileType, t.books[e].clients, t.books[e].writer, ItemsOf(t.caches, e))
    else
      NEVER.(items := ItemsOf(t.caches, e))
  }

  function CachesWithout(caches: map<int, Cache>, e: int): map<int, Cache> {
    map c | c in caches :: caches[c] - {e}
  }

  /** The tables without extent e. */
  function Without(t: Tables, e: int): Tables {
    Tables(t.files - {e}, t.books - {e}, CachesWithout(t.caches, e))
  }

  function CacheAfter(cache: Cache, e: int): Cache {
    if e in cache then cache[e := Refreshed(cache[e])] else cache
  }

  function Told(caches: map<int, Cache>, e: int, who: set<int>): map<int, Cache> {
    map d | d in caches :: if d in who then CacheAfter(caches[d], e) else caches[d]
  }

  /** The writer once the clients in done have been told. */
  function WriterAfter(info: ClientInfo, done: set<int>, c: int): Option<int> {
    if info.writer.Some? && info.writer.value in done && info.writer.value != c then None else info.writer
  }

  lemma StartView(t: Tables)
    requires t.files == map[ROOT := File(true, "", T_DIR)] && t.books == map[ROOT := ClientInfo({}, None)]
    requires forall c | c in t.caches :: t.caches[c] == map[ROOT := ROOT_ITEM]
    ensures ViewOf(t, ROOT) == Root(t.caches.Keys)
    ensures forall e | e != ROOT :: ViewOf(t, e) == NEVER
  {
    forall c | c in t.caches ensures c in ItemsOf(t.caches, ROOT) {
    }
    assert ItemsOf(t.caches, ROOT).Keys == t.caches.Keys;
    forall c | c in t.caches ensures c in Root(t.caches.Keys).items && ItemsOf(t.caches, ROOT)[c] == ROOT_ITEM {
    }
    assert ItemsOf(t.caches, ROOT) == Root(t.caches.Keys).items;
    forall e | e != ROOT ensures ViewOf(t, e) == NEVER {
      forall c | c in t.caches ensures c !in ItemsOf(t.caches, e) {
      }
      assert ItemsOf(t.caches, e) == map[];
    }
  }

  lemma SameElsewhere(caches: map<int, Cache>, caches': map<int, Cache>, e: int)
    requires caches.Keys == caches'.Keys
    requires forall c | c in caches :: caches[c] - {e} == caches'[c] - {e}
    ensures CachesWithout(caches, e) == CachesWithout(caches', e)
  {
    forall c | c in caches ensures CachesWithout(caches, e)[c] == CachesWithout(caches', e)[c] {
    }
    assert CachesWithout(caches, e).Keys == CachesWithout(caches', e).Keys;
  }

  lemma ToldOneMore(caches: map<int, Cache>, e: int, who: set<int>, d: int)
    requires d in caches && d !in who
    ensures Told(caches, e, who)[d := CacheAfter(caches[d], e)] == Told(caches, e, who + {d})
  {
  }

  lemma TakenOut(told: set<int>, it: int, c: int)
    ensures told + {it} - {c} == if it == c then told - {c} else told - {c} + {it}
  {
  }

  lemma RefreshedView(t: Tables, e: int, c: int)
    requires e in t.files && e in t.books
    ensures var u := t.(books := t.books[e := t.books[e].(writer := WriterAfter(t.books[e], t.books[e].clients, c))],
                        caches := Told(t.caches, e, t.books[e].clients - {c}));
            ViewOf(u, e) == RefreshClients(ViewOf(t, e), c) && Without(u, e) == Without(t, e)
  {
    var u := t.(books := t.books[e := t.books[e].(writer := WriterAfter(t.books[e], t.books[e].clients, c))],
                caches := Told(t.caches, e, t.books[e].clients - {c}));
    SameElsewhere(t.caches, u.caches, e);
    forall c | c in t.caches ensures c in ItemsOf(u.caches, e) <==> c in ItemsOf(t.caches, e) {
    }
    assert ItemsOf(u.caches, e).Keys == ItemsOf(t.caches, e).Keys;
    assert ViewOf(u, e).items == RefreshClients(ViewOf(t, e), c).items;
  }

  /** The server's file and book of one extent change. */
  lemma BookSet(t: Tables, e: int, file: File, book: ClientInfo)
    requires e in t.files && e in t.books
    ensures var u := t.(files := t.files[e := file], books := t.books[e := book]);
            && ViewOf(u, e) == Extent(file.alive, file.content, file.fileType, book.clients, book.writer, ViewOf(t, e).items)
            && Without(u, e) == Without(t, e)
  {
    var u := t.(files := t.files[e := file], books := t.books[e := book]);
    assert u.files - {e} == t.files - {e} && u.books - {e} == t.books - {e};
  }

  lemma ItemSet(t: Tables, c: int, e: int, item: Item)
    requires c in t.caches
    ensures var u := t.(caches := t.caches[c := t.caches[c][e := item]]);
            ViewOf(u, e) == WithItem(ViewOf(t, e), c, item) && Without(u, e) == Without(t, e)
  {
    var u := t.(caches := t.caches[c := t.caches[c][e := item]]);
    SameElsewhere(t.caches, u.caches, e);
    forall d | d in t.caches ensures d in ItemsOf(u.caches, e) <==> d == c || d in ItemsOf(t.caches, e) {
    }
    assert ItemsOf(u.caches, e) == ItemsOf(t.caches, e)[c := item];
  }

  lemma ItemErased(t: Tables, c: int, e: int)
    requires c in t.caches
    ensures var u := t.(caches := t.caches[c := t.caches[c] - {e}]);
            ViewOf(u, e) == ViewOf(t, e).(items := ViewOf(t, e).items - {c}) && Without(u, e) == Without(t, e)
  {
    var u := t.(caches := t.caches[c := t.caches[c] - {e}]);
    SameElsewhere(t.caches, u.caches, e);
    forall d | d in t.caches ensures d in ItemsOf(u.caches, e) <==> d != c && d in ItemsOf(t.caches, e) {
    }
    assert ItemsOf(u.caches, e) == ItemsOf(t.caches, e) - {c};
  }

  class ExtentServer {
    const peers: map<int, ExtentClient>
    var files: map<int, File>
    var clientMap: map<int, ClientInfo>

    constructor (peers: map<int, ExtentClient>)
      requires forall c | c in peers :: peers[c].id == c && peers[c].fileCache == map[ROOT := ROOT_ITEM]
      ensures Valid() && this.peers == peers
      ensures View(ROOT) == Root(peers.Keys)
      ensures forall e | e != ROOT :: View(e) == NEVER
    {
      this.peers := peers;
      files := map[ROOT := File(true, "", T_DIR)];
      clientMap := map[ROOT := ClientInfo({}, None)];
      new;
      StartView(All());
    }

    predicate Named() {
      forall c | c in peers :: peers[c].id == c
    }

    /** Clients are found by their own names, and only known clients are noted. */
    ghost predicate Valid()
      reads this, peers.Values
    {
      && Named()
      && files.Keys == clientMap.Keys
      && forall e | e in clientMap :: NamesPeers(clientMap[e])
    }

    predicate NamesPeers(info: ClientInfo) {
      info.clients <= peers.Keys && (info.writer.Some? ==> info.writer.value in peers)
    }

    ghost function Caches(): map<int, Cache>
      reads peers.Values
    {
      map c | c in peers :: peers[c].fileCache
    }

    ghost function All(): Tables
      reads this, peers.Values
    {
      Tables(files, clientMap, Caches())
    }

    ghost function View(e: int): Extent
      reads this, peers.Values
    {
      ViewOf(All(), e)
    }

    /** Everything kept about the other extents, here and at the clients. */
    ghost function Others(e: int): Tables
      reads this, peers.Values
    {
      Without(All(), e)
    }

    method RefreshClient(eid: int, c: int)
      requires Valid() && eid in files
      modifies this`clientMap, peers.Values
      ensures Valid()
      ensures View(eid) == RefreshClients(old(View(eid)), c) && Others(eid) == old(Others(eid)) && eid in files
    {
      TellOthers(eid, c);
      RefreshedView(old(All()), eid, c);
    }

    method TellOthers(eid: int, c: int)
      requires Named() && eid in clientMap && NamesPeers(clientMap[eid])
      modifies this`clientMap, peers.Values
      ensures var info := old(clientMap)[eid];
              && clientMap == old(clientMap)[eid := info.(writer := WriterAfter(info, info.clients, c))]
              && Caches() == Told(old(Caches()), eid, info.clients - {c})
    {
      ghost var info, caches := clientMap[eid], Caches();
      var todo := clientMap[eid].clients;
      ghost var told: set<int> := {};
      while todo != {}
        invariant todo + told == info.clients && todo !! told
        invariant clientMap == old(clientMap)[eid := info.(writer := WriterAfter(info, told, c))]
        invariant Caches() == Told(caches, eid, told - {c})
      {
        Sets.NonEmpty(todo);
        var it :| it in todo;
        if it != c {
          if clientMap[eid].writer == Some(it) {
            clientMap := clientMap[eid := clientMap[eid].(writer := None)];
          }
          ToldOneMore(caches, eid, told - {c}, it);
          TellOne(it, eid);
        }
        TakenOut(told, it, c);
        todo, told := todo - {it}, told + {it};
      }
    }

    /** The refresh call to one client. */
    method TellOne(it: int, eid: int)
      requires Named() && it in peers
      modifies peers.Values
      ensures Caches() == old(Caches())[it := CacheAfter(old(Caches())[it], eid)]
    {
      peers[it].RefreshHandler(eid);
      forall d | d in peers && d != it ensures Caches()[d] == old(Caches())[d] {
        assert peers[d].id != peers[it].id;
      }
      forall d | d in peers ensures d in Caches() && d in old(Caches()) {
      }
    }

    method Create(c: int, fileType: nat, eid: int)
      requires Valid() && c in peers && (eid in files ==> !files[eid].alive)
      modifies this`files, this`clientMap
      ensures Valid()
      ensures View(eid) == Extent(true, "", fileType, {c}, None, old(View(eid)).items) && Others(eid) == old(Others(eid)) && eid in files
    {
      files := files[eid := File(true, "", fileType)];
      clientMap := clientMap[eid := ClientInfo({c}, None)];
    }

    method Put(c: int, eid: int, buf: string)
      requires Valid() && c in peers && eid in files
      modifies this`files, this`clientMap, peers.Values
      ensures Valid()
      ensures View(eid) == ServerPut(old(View(eid)), c, buf) && Others(eid) == old(Others(eid)) && eid in files
    {
      ghost var file, book := files[eid].(content := buf), ClientInfo(clientMap[eid].clients + {c}, Some(c));
      files := files[eid := files[eid].(content := buf)];
      clientMap := clientMap[eid := ClientInfo(clientMap[eid].clients + {c}, Some(c))];
      BookSet(old(All()), eid, file, book);
      forall e | e in clientMap ensures NamesPeers(clientMap[e]) {
        assert e == eid || clientMap[e] == old(clientMap)[e];
      }
      assert All() == old(All()).(files := files, books := clientMap);
      RefreshClient(eid, c);
    }

    method RequireClient(eid: int)
      requires Valid() && eid in files && View(eid).writer.Some? && View(eid).writer.value in View(eid).items
      modifies this`files, this`clientMap, peers.Values
      ensures Valid()
      ensures View(eid) == RequireWriter(old(View(eid))) && Others(eid) == old(Others(eid)) && eid in files
    {
      var w := clientMap[eid].writer.value;
      peers[w].RequireHandler(this, eid);
    }

    /** The start of get and getattr: have the writer send what it has. */
    method Fetch(eid: int)
      requires Valid() && eid in files
      requires View(eid).writer.Some? ==> View(eid).writer.value in View(eid).items
      modifies this`files, this`clientMap, peers.Values
      ensures Valid()
      ensures View(eid) == Fetched(old(View(eid))) && Others(eid) == old(Others(eid)) && eid in files
    {
      if clientMap[eid].writer.Some? {
        RequireClient(eid);
      }
    }

    method Get(c: int, eid: int) returns (buf: string)
      requires Valid() && c in peers && eid in files
      requires View(eid).writer.Some? ==> View(eid).writer.value in View(eid).items
      modifies this`files, this`clientMap, peers.Values
      ensures Valid()
      ensures View(eid) == ServerRead(old(View(eid)), c) && Others(eid) == old(Others(eid)) && eid in files
      ensures buf == View(eid).content
    {
      Fetch(eid);
      buf := files[eid].content;
      NoteReader(c, eid);
    }

    method GetAttr(c: int, eid: int) returns (attr: Attr)
      requires Valid() && c in peers && eid in files
      requires View(eid).writer.Some? ==> View(eid).writer.value in View(eid).items
      modifies this`files, this`clientMap, peers.Values
      ensures Valid()
      ensures View(eid) == ServerRead(old(View(eid)), c) && Others(eid) == old(Others(eid)) && eid in files
      ensures attr == Attr(View(eid).fileType, |View(eid).content|)
    {
      Fetch(eid);
      attr := Attr(files[eid].fileType, |files[eid].content|);
      NoteReader(c, eid);
    }

    /** The end of get and getattr: note the reader, and end the writing. */
    method NoteReader(c: int, eid: int)
      requires Valid() && c in peers && eid in files
      modifies this`clientMap, peers.Values
      ensures Valid()
      ensures View(eid) == Noted(old(View(eid)), c)
      ensures View(eid).content == old(View(eid)).content && View(eid).fileType == old(View(eid)).fileType
      ensures Others(eid) == old(Others(eid)) && eid in files
    {
      clientMap := clientMap[eid := clientMap[eid].(clients := clientMap[eid].clients + {c})];
      if clientMap[eid].writer.Some? {
        RefreshClient(eid, c);
      }
    }

    method Remove(c: int, eid: int)
      requires Valid() && c in peers && eid in files
      modifies this`files, this`clientMap, peers.Values
      ensures Valid()
      ensures View(eid) == RefreshClients(old(View(eid)).(alive := false, clients := old(View(eid)).clients + {c}), c)
      ensures Others(eid) == old(Others(eid)) && eid in files
    {
      files := files[eid := files[eid].(alive := false)];
      clientMap := clientMap[eid := clientMap[eid].(clients := clientMap[eid].clients + {c})];
      assert View(eid) == old(View(eid)).(alive := false, clients := old(View(eid)).clients + {c});
      assert Others(eid) == old(Others(eid));
      RefreshClient(eid, c);
    }
  }

  class ExtentClient {
    const id: int
    var fileCache: Cache

    constructor (id: int)
      ensures this.id == id && fileCache == map[ROOT := ROOT_ITEM]
    {
      this.id := id;
      fileCache := map[ROOT := ROOT_ITEM];
    }

    /** The server calls this client by its name. */
    ghost predicate Bound(cl: ExtentServer)
      reads this, cl, cl.peers.Values
    {
      cl.Valid() && id in cl.peers && cl.peers[id] == this
    }

    /** Changing this client's cache changes nobody else's. */
    twostate lemma OthersKept(cl: ExtentServer)
      requires old(Bound(cl)) && Bound(cl)
      requires forall d | d in cl.peers && d != id :: cl.peers[d].fileCache == old(cl.peers[d].fileCache)
      ensures cl.Caches() == old(cl.Caches())[id := fileCache]
    {
      forall d | d in cl.peers
        ensures d in cl.Caches() && d in old(cl.Caches()) && cl.Caches()[d] == if d == id then fileCache else old(cl.Caches())[d]
      {
      }
    }

    method RefreshHandler(eid: int)
      modifies this
      ensures fileCache == CacheAfter(old(fileCache), eid)
    {
      if eid in fileCache {
        fileCache := fileCache[eid := Refreshed(fileCache[eid])];
      }
    }

    /** Set one entry of the cache; the view of that extent changes by this client's item alone. */
    method SetItem(cl: ExtentServer, eid: int, item: Item)
      requires Bound(cl)
      modifies this
      ensures Bound(cl)
      ensures cl.View(eid) == WithItem(old(cl.View(eid)), id, item) && cl.Others(eid) == old(cl.Others(eid))
    {
      fileCache := fileCache[eid := item];
      forall d | d in cl.peers && d != id ensures cl.peers[d] != this {
        assert cl.peers[d].id != id;
      }
      OthersKept(cl);
      ItemSet(old(cl.All()), id, eid, item);
    }

    method EraseItem(cl: ExtentServer, eid: int)
      requires Bound(cl)
      modifies this
      ensures Bound(cl)
      ensures cl.View(eid) == old(cl.View(eid)).(items := old(cl.View(eid)).items - {id}) && cl.Others(eid) == old(cl.Others(eid))
    {
      fileCache := fileCache - {eid};
      forall d | d in cl.peers && d != id ensures cl.peers[d] != this {
        assert cl.peers[d].id != id;
      }
      OthersKept(cl);
      ItemErased(old(cl.All()), id, eid);
    }

    method RequireHandler(cl: ExtentServer, eid: int)
      requires Bound(cl) && eid in cl.files
      requires cl.View(eid).writer == Some(id) && id in cl.View(eid).items
      modifies cl`files, cl`clientMap, cl.peers.Values
      ensures Bound(cl)
      ensures cl.View(eid) == RequireWriter(old(cl.View(eid))) && cl.Others(eid) == old(cl.Others(eid))
    {
      cl.Put(id, eid, fileCache[eid].buf);
      assert id in cl.View(eid).items;
      if eid in fileCache {
        SetItem(cl, eid, fileCache[eid].(bufDirty := false, attrDirty := false));
      }
    }

    method Create(cl: ExtentServer, fileType: nat, eid: int)
      requires Bound(cl) && Allowed(cl.View(eid), OpCreate(id, fileType))
      modifies cl`files, cl`clientMap, cl.peers.Values
      ensures Bound(cl)
      ensures cl.View(eid) == ExtentCacheModel.Create(old(cl.View(eid)), id, fileType) && cl.Others(eid) == old(cl.Others(eid))
    {
      cl.Create(id, fileType, eid);
      SetItem(cl, eid, Item(false, false, false, "", fileType, 0));
    }

    method Get(cl: ExtentServer, eid: int) returns (buf: string)
      requires Bound(cl) && Allowed(cl.View(eid), OpGet(id)) && WriterHasItem(cl.View(eid))
      modifies cl`files, cl`clientMap, cl.peers.Values
      ensures Bound(cl)
      ensures (cl.View(eid), buf) == ExtentCacheModel.Get(old(cl.View(eid)), id) && cl.Others(eid) == old(cl.Others(eid))
    {
      if eid !in fileCache {
        buf := cl.Get(id, eid);
        SetItem(cl, eid, Item(false, true, false, buf, 0, |buf|));
      } else if fileCache[eid].bufDirty {
        buf := cl.Get(id, eid);
        assert id in cl.View(eid).items;
        SetItem(cl, eid, fileCache[eid].(buf := buf, attrSize := |buf|, bufDirty := false));
      } else {
        buf := fileCache[eid].buf;
      }
    }

    method GetAttr(cl: ExtentServer, eid: int) returns (attr: Attr)
      requires Bound(cl) && Allowed(cl.View(eid), OpGetAttr(id)) && WriterHasItem(cl.View(eid))
      modifies cl`files, cl`clientMap, cl.peers.Values
      ensures Bound(cl)
      ensures (cl.View(eid), attr) == ExtentCacheModel.GetAttr(old(cl.View(eid)), id) && cl.Others(eid) == old(cl.Others(eid))
    {
      if eid !in fileCache {
        attr := cl.GetAttr(id, eid);
        SetItem(cl, eid, Item(true, false, false, "", attr.attrType, attr.size));
      } else if fileCache[eid].attrDirty {
        attr := cl.GetAttr(id, eid);
        assert id in cl.View(eid).items;
        SetItem(cl, eid, fileCache[eid].(attrType := attr.attrType, attrSize := attr.size, attrDirty := false));
      } else {
        attr := Attr(fileCache[eid].attrType, fileCache[eid].attrSize);
      }
    }

    method Put(cl: ExtentServer, eid: int, buf: string)
      requires Bound(cl) && Allowed(cl.View(eid), OpPut(id, buf))
      modifies cl`files, cl`clientMap, cl.peers.Values
      ensures Bound(cl)
      ensures cl.View(eid) == ExtentCacheModel.Put(old(cl.View(eid)), id, buf) && cl.Others(eid) == old(cl.Others(eid))
    {
      if !fileCache[eid].keepWriting {
        cl.Put(id, eid, buf);
        assert id in cl.View(eid).items;
      }
      if eid in fileCache {
        SetItem(cl, eid, fileCache[eid].(keepWriting := true, buf := buf, attrSize := |buf|, bufDirty := false, attrDirty := false));
      }
    }

    method Remove(cl: ExtentServer, eid: int)
      requires Bound(cl) && Allowed(cl.View(eid), OpRemove(id))
      modifies cl`files, cl`clientMap, cl.peers.Values
      ensures Bound(cl)
      ensures cl.View(eid) == ExtentCacheModel.Remove(old(cl.View(eid)), id) && cl.Others(eid) == old(cl.Others(eid))
    {
      cl.Remove(id, eid);
      EraseItem(cl, eid);
    }
  }
}
