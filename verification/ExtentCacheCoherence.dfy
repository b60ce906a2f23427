/** The extent cache behaves like one plain file, whoever reads and whoever wrote. */
module ExtentCacheCoherence {
  import opened Options
  import opened ExtentCacheModel

  predicate Stale(item: Item) {
    item.bufDirty && item.attrDirty && !item.keepWriting
  }

  /** The item holds v, in content and length. */
  predicate Holds(item: Item, v: string) {
    !item.bufDirty && !item.attrDirty && item.buf == v && item.attrSize == |v|
  }

  /** Whatever is clean in the item agrees with v. */
  predicate Agrees(item: Item, v: string) {
    !item.keepWriting && (!item.bufDirty ==> item.buf == v) && (!item.attrDirty ==> item.attrSize == |v|)
  }

  /**
   Either there is a registered writer, which holds the value while everybody else is stale; or there is
   none, the server holds the value, and every clean copy agrees with it.
   */
  ghost predicate Coherent(x: Extent, v: string) {
    if x.writer.Some? then
      && x.writer.value in x.items
      && x.writer.value in x.clients
      && x.items[x.writer.value].keepWriting
      && Holds(x.items[x.writer.value], v)
      && forall d | d in x.items && d != x.writer.value :: Stale(x.items[d])
    else
      && x.content == v
      && forall d | d in x.items :: Agrees(x.items[d], v)
  }

  ghost predicate Inv(x: Extent, v: string) {
    && (forall d | d in x.items && d !in x.clients :: Stale(x.items[d]))
    && (if x.alive then Coherent(x, v) else forall d | d in x.items :: Stale(x.items[d]))
  }

  // ---- The server's part ----------------------------------------------------------------------------------

  /** Everybody but c is stale, and c is as it was: the server's copy decides. */
  ghost predicate OnlyReader(x: Extent, y: Extent, c: int, v: string) {
    && y.alive && y.fileType == x.fileType && y.content == v && y.writer.None?
    && y.items.Keys == x.items.Keys && c in y.clients
    && (forall d | d in y.items && d != c :: Agrees(y.items[d], v) && (d in y.clients || Stale(y.items[d])))
    && (c in y.items ==> Agrees(y.items[c], v) && y.items[c].attrType == x.items[c].attrType)
    && (forall d | d in y.items :: y.items[d].attrType == x.items[d].attrType)
  }

  lemma RequireFetches(x: Extent, v: string)
    requires Inv(x, v) && x.alive && x.writer.Some?
    ensures var y := RequireWriter(x);
            && y.alive && y.fileType == x.fileType && y.content == v && y.writer == x.writer && y.clients == x.clients
            && y.items.Keys == x.items.Keys
            && Holds(y.items[x.writer.value], v)
            && (forall d | d in y.items && d != x.writer.value :: Stale(y.items[d]))
            && (forall d | d in y.items :: y.items[d].attrType == x.items[d].attrType)
  {
    assert x.clients + {x.writer.value} == x.clients;
  }

  lemma ReadMakesReader(x: Extent, v: string, c: int)
    requires Inv(x, v) && x.alive && x.writer != Some(c)
    ensures OnlyReader(x, ServerRead(x, c), c, v)
  {
    if x.writer.Some? {
      RequireFetches(x, v);
    }
  }

  lemma PutMakesWriter(x: Extent, v: string, c: int, buf: string)
    requires Inv(x, v) && x.alive && c in x.items && x.writer != Some(c)
    ensures var y := ServerPut(x, c, buf);
            && y.alive && y.fileType == x.fileType && y.writer == Some(c) && c in y.clients && y.items.Keys == x.items.Keys
            && (forall d | d in y.items && d != c :: Stale(y.items[d]))
            && (forall d | d in y.items :: y.items[d].attrType == x.items[d].attrType)
  {
  }

  // ---- The client's operations --------------------------------------------------------------------------------

  lemma GetKeeps(x: Extent, v: string, c: int)
    requires Inv(x, v) && x.alive
    ensures Inv(Get(x, c).0, v) && Get(x, c).0.alive && Get(x, c).1 == v
  {
    if c !in x.items || x.items[c].bufDirty {
      ReadMakesReader(x, v, c);
    }
  }

  lemma GetAttrKeeps(x: Extent, v: string, c: int)
    requires Inv(x, v) && x.alive
    ensures Inv(GetAttr(x, c).0, v) && GetAttr(x, c).0.alive && GetAttr(x, c).1.size == |v|
  {
    if c !in x.items || x.items[c].attrDirty {
      ReadMakesReader(x, v, c);
    }
  }

  lemma PutKeeps(x: Extent, v: string, c: int, buf: string)
    requires Inv(x, v) && x.alive && c in x.items
    ensures Inv(Put(x, c, buf), buf) && Put(x, c, buf).alive
  {
    if !x.items[c].keepWriting {
      PutMakesWriter(x, v, c, buf);
    }
  }

  lemma AfterKeeps(x: Extent, ops: seq<Op>, op: Op)
    requires Inv(x, Contents(ops)) && Allowed(x, op)
    ensures WriterHasItem(x) && Inv(After(x, op), Contents(ops + [op]))
  {
    assert (ops + [op])[..|ops|] == ops;
    var v := Contents(ops);
    match op
    case OpCreate(c, fileType) =>
    case OpGet(c) => GetKeeps(x, v, c);
    case OpGetAttr(c) => GetAttrKeeps(x, v, c);
    case OpPut(c, buf) => PutKeeps(x, v, c, buf);
    case OpRemove(c) =>
  }

  /** How an extent starts: it was never created, or it is the root directory. */
  ghost predicate Fresh(start: Extent) {
    start == NEVER || exists clients :: start == Root(clients)
  }

  lemma {:induction false} RunKeeps(start: Extent, ops: seq<Op>)
    requires Fresh(start) && Run(start, ops).Some?
    ensures Inv(Run(start, ops).value, Contents(ops))
  {
    if ops != [] {
      var before, op := ops[..|ops| - 1], ops[|ops| - 1];
      RunKeeps(start, before);
      assert before + [op] == ops;
      AfterKeeps(Run(start, before).value, before, op);
    }
  }

  // ---- The theorems -----------------------------------------------------------------------------------------------

  /** Whoever asks gets the last put by anybody, and its length; the server never asks a writer that has nothing. */
  lemma ReadsLastPut(start: Extent, ops: seq<Op>, c: int)
    requires Fresh(start) && Run(start, ops).Some? && Run(start, ops).value.alive
    ensures var x := Run(start, ops).value;
            && WriterHasItem(x)
            && Get(x, c).1 == Contents(ops)
            && GetAttr(x, c).1.size == |Contents(ops)|
  {
    RunKeeps(start, ops);
    GetKeeps(Run(start, ops).value, Contents(ops), c);
    GetAttrKeeps(Run(start, ops).value, Contents(ops), c);
  }

  /** One clean writer and stale others, or no writer and only copies that agree with the server. */
  lemma AlwaysCoherent(start: Extent, ops: seq<Op>)
    requires Fresh(start) && Run(start, ops).Some? && Run(start, ops).value.alive
    ensures Coherent(Run(start, ops).value, Contents(ops))
  {
    RunKeeps(start, ops);
  }

  /** Every allowed operation can be carried out: a run never stops for lack of the writer's item. */
  lemma AllowedRunsOn(start: Extent, ops: seq<Op>, op: Op)
    requires Fresh(start) && Run(start, ops).Some? && Allowed(Run(start, ops).value, op)
    ensures Run(start, ops + [op]).Some?
  {
    RunKeeps(start, ops);
    assert (ops + [op])[..|ops|] == ops;
    AfterKeeps(Run(start, ops).value, ops, op);
  }

  // ---- The cached type ---------------------------------------------------------------------------------------------

  /** Who is the writer, by the operations alone: the last to put, until somebody else reads. */
  function WriterSince(ops: seq<Op>): Option<int> {
    if ops == [] then None
    else
      var before := WriterSince(ops[..|ops| - 1]);
      match ops[|ops| - 1]
      case OpPut(c, _) => Some(c)
      case OpGet(c) => if before == Some(c) then before else None
      case OpGetAttr(c) => if before == Some(c) then before else None
      case _ => None
  }

  /** The client created the extent, or asked for its attributes when not its writer, in its present life. */
  predicate AskedType(start: Extent, ops: seq<Op>, c: int) {
    if ops == [] then c in start.items
    else
      var before := ops[..|ops| - 1];
      match ops[|ops| - 1]
      case OpCreate(d, _) => c == d
      case OpGetAttr(d) => AskedType(start, before, c) || (c == d && WriterSince(before) != Some(c))
      case OpRemove(_) => false
      case _ => AskedType(start, before, c)
  }

  /**
   The type the client was last told, by the operations alone: the one it created the extent with, or the
   one it asked for when not its writer. It outlives the extent; a removal by the client itself forgets it.
   */
  function ToldType(start: Extent, ops: seq<Op>, c: int): nat {
    if ops == [] then CachedType(start, c)
    else
      var before := ops[..|ops| - 1];
      match ops[|ops| - 1]
      case OpCreate(d, fileType) => if c == d then fileType else ToldType(start, before, c)
      case OpGetAttr(d) =>
        if c == d && WriterSince(before) != Some(c) then TypeSince(before, start.fileType) else ToldType(start, before, c)
      case OpRemove(d) => if c == d then 0 else ToldType(start, before, c)
      case _ => ToldType(start, before, c)
  }

  /** The type in the client's item. */
  function CachedType(x: Extent, c: int): nat {
    if c in x.items then x.items[c].attrType else 0
  }

  predicate CleanType(x: Extent, c: int) {
    c in x.items && !x.items[c].attrDirty
  }

  /** What a read does to the books: only the reader can still be the writer, and the type stays. */
  ghost predicate ReadBooks(x: Extent, y: Extent, c: int) {
    && y.alive && y.fileType == x.fileType
    && y.writer == (if x.writer == Some(c) then x.writer else None)
  }

  /** A clean type at somebody else than the writer was clean, and at somebody else than the writer, before. */
  ghost predicate NoNewClean(x: Extent, y: Extent, c: int) {
    CleanType(y, c) && y.writer != Some(c) ==> CleanType(x, c) && x.writer != Some(c)
  }

  lemma GetTypes(x: Extent, v: string, d: int, c: int)
    requires Inv(x, v) && x.alive
    ensures var y := Get(x, d).0;
            ReadBooks(x, y, d) && CachedType(y, c) == CachedType(x, c) && NoNewClean(x, y, c)
  {
    if d !in x.items || x.items[d].bufDirty {
      ReadMakesReader(x, v, d);
    }
  }

  lemma GetAttrTypes(x: Extent, v: string, d: int, c: int)
    requires Inv(x, v) && x.alive
    ensures var y := GetAttr(x, d).0;
            && ReadBooks(x, y, d)
            && CachedType(y, c) == (if c == d && !CleanType(x, c) then x.fileType else CachedType(x, c))
            && (c == d || NoNewClean(x, y, c))
  {
    if !CleanType(x, d) {
      ReadMakesReader(x, v, d);
    }
  }

  lemma PutTypes(x: Extent, v: string, d: int, buf: string, c: int)
    requires Inv(x, v) && x.alive && d in x.items
    ensures var y := Put(x, d, buf);
            && y.alive && y.fileType == x.fileType && y.writer == Some(d)
            && CachedType(y, c) == CachedType(x, c) && NoNewClean(x, y, c)
  {
    if !x.items[d].keepWriting {
      PutMakesWriter(x, v, d, buf);
    }
  }

  /** Every item holds the type its client was told, and a clean one but the writer's holds the right one. */
  predicate TypeOk(start: Extent, ops: seq<Op>, x: Extent, c: int) {
    && CachedType(x, c) == ToldType(start, ops, c)
    && (CleanType(x, c) ==> ToldType(start, ops, c) == x.fileType || x.writer == Some(c))
  }

  ghost predicate TypeInv(start: Extent, ops: seq<Op>, x: Extent) {
    && (x.alive ==> x.fileType == TypeSince(ops, start.fileType) && x.writer == WriterSince(ops))
    && forall c {:trigger TypeOk(start, ops, x, c)} :: TypeOk(start, ops, x, c)
  }

  lemma TypeKept(start: Extent, ops: seq<Op>, op: Op, x: Extent, c: int)
    requires Inv(x, Contents(ops)) && TypeInv(start, ops, x) && Allowed(x, op) && WriterHasItem(x)
    ensures TypeOk(start, ops + [op], After(x, op), c)
  {
    var v := Contents(ops);
    assert (ops + [op])[..|ops|] == ops;
    assert TypeOk(start, ops, x, c);
    match op
    case OpCreate(d, fileType) =>
    case OpGet(d) => GetTypes(x, v, d, c);
    case OpGetAttr(d) => GetAttrTypes(x, v, d, c);
    case OpPut(d, buf) => PutTypes(x, v, d, buf, c);
    case OpRemove(d) =>
  }

  lemma AfterType(start: Extent, ops: seq<Op>, op: Op, x: Extent)
    requires Inv(x, Contents(ops)) && TypeInv(start, ops, x) && Allowed(x, op) && WriterHasItem(x)
    ensures TypeInv(start, ops + [op], After(x, op))
  {
    forall c ensures TypeOk(start, ops + [op], After(x, op), c) {
      TypeKept(start, ops, op, x, c);
    }
    BooksKept(start, ops, op, x);
  }

  lemma BooksKept(start: Extent, ops: seq<Op>, op: Op, x: Extent)
    requires Inv(x, Contents(ops)) && TypeInv(start, ops, x) && Allowed(x, op) && WriterHasItem(x)
    ensures var y := After(x, op);
            y.alive ==> y.fileType == TypeSince(ops + [op], start.fileType) && y.writer == WriterSince(ops + [op])
  {
    var v := Contents(ops);
    assert (ops + [op])[..|ops|] == ops;
    match op
    case OpCreate(d, fileType) =>
    case OpGet(d) => GetTypes(x, v, d, d);
    case OpGetAttr(d) => GetAttrTypes(x, v, d, d);
    case OpPut(d, buf) => PutTypes(x, v, d, buf, d);
    case OpRemove(d) =>
  }

  lemma {:induction false} RunType(start: Extent, ops: seq<Op>)
    requires Fresh(start) && Run(start, ops).Some?
    ensures Inv(Run(start, ops).value, Contents(ops)) && TypeInv(start, ops, Run(start, ops).value)
  {
    RunKeeps(start, ops);
    if ops == [] {
      forall c ensures TypeOk(start, ops, start, c) {
      }
    } else {
      var before, op := ops[..|ops| - 1], ops[|ops| - 1];
      RunType(start, before);
      assert before + [op] == ops;
      AfterType(start, before, op, Run(start, before).value);
    }
  }

  /** The writer gets the type it was last told, everybody else the type of the extent. */
  lemma TypeAnswered(start: Extent, ops: seq<Op>, c: int)
    requires Fresh(start) && Run(start, ops).Some? && Run(start, ops).value.alive
    ensures var x := Run(start, ops).value;
            && WriterHasItem(x)
            && x.writer == WriterSince(ops)
            && GetAttr(x, c).1.attrType ==
               if WriterSince(ops) == Some(c) then ToldType(start, ops, c) else TypeSince(ops, start.fileType)
  {
    RunType(start, ops);
    var x := Run(start, ops).value;
    assert TypeOk(start, ops, x, c);
    if !CleanType(x, c) {
      ReadMakesReader(x, Contents(ops), c);
    }
  }

  /**
   In every run, with any removals and creations, the type a client gets is right exactly if the type it
   was last told is the present one, or the client is not the writer.
   */
  lemma TypeIsRightExactly(start: Extent, ops: seq<Op>, c: int)
    requires Fresh(start) && Run(start, ops).Some? && Run(start, ops).value.alive
    ensures WriterHasItem(Run(start, ops).value)
    ensures GetAttr(Run(start, ops).value, c).1.attrType == TypeSince(ops, start.fileType) <==>
              (ToldType(start, ops, c) == TypeSince(ops, start.fileType) || WriterSince(ops) != Some(c))
  {
    TypeAnswered(start, ops, c);
  }

  /** Who asked in this life of the extent was told its type. */
  lemma {:induction false} AskedIsTold(start: Extent, ops: seq<Op>, c: int)
    requires Fresh(start) && AskedType(start, ops, c)
    ensures ToldType(start, ops, c) == TypeSince(ops, start.fileType)
  {
    if ops != [] {
      var before := ops[..|ops| - 1];
      if AskedType(start, before, c) {
        AskedIsTold(start, before, c);
      }
    }
  }

  /** The type is right if the client created the extent or asked for its type in this life, or is not the writer. */
  lemma TypeIsRightIfAsked(start: Extent, ops: seq<Op>, c: int)
    requires Fresh(start) && Run(start, ops).Some? && Run(start, ops).value.alive
    requires AskedType(start, ops, c) || WriterSince(ops) != Some(c)
    ensures WriterHasItem(Run(start, ops).value)
    ensures GetAttr(Run(start, ops).value, c).1.attrType == TypeSince(ops, start.fileType)
  {
    if AskedType(start, ops, c) {
      AskedIsTold(start, ops, c);
    }
    TypeAnswered(start, ops, c);
  }

  /** Reading and then writing an uncached file leaves its writer with type zero. */
  lemma GetThenPutLosesType(c: int, d: int, fileType: nat, buf: string)
    requires c != d && fileType != 0
    ensures var x := After(NEVER, OpCreate(c, fileType));
            var y := After(x, OpGet(d));
            Allowed(y, OpPut(d, buf)) && WriterHasItem(y) &&
            var z := After(y, OpPut(d, buf));
            WriterHasItem(z) && GetAttr(z, d).1 == Attr(0, |buf|)
  {
  }
}
