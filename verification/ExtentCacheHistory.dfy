/**
 What the extent cache has stored, from the operations alone: whether the extent exists, who has an item,
 and whose content and attributes are clean, so that a client asks the server exactly when it has to.
 */
module ExtentCacheHistory {
  import opened Options
  import opened ExtentCacheModel
  import opened ExtentCacheCoherence

  /** Which half of an item is meant. */
  datatype Half = Content | Attributes

  function Front(ops: seq<Op>): seq<Op>
    requires ops != []
  {
    ops[..|ops| - 1]
  }

  function Last(ops: seq<Op>): Op
    requires ops != []
  {
    ops[|ops| - 1]
  }

  /** The last creation or removal decides. */
  predicate AliveSince(start: Extent, ops: seq<Op>) {
    if ops == [] then start.alive
    else
      match Last(ops)
      case OpCreate(_, _) => true
      case OpRemove(_) => false
      case _ => AliveSince(start, Front(ops))
  }

  /** Who created or read has an item until its own removal. */
  predicate HasItem(start: Extent, ops: seq<Op>, c: int) {
    if ops == [] then c in start.items
    else
      match Last(ops)
      case OpRemove(d) => c != d && HasItem(start, Front(ops), c)
      case OpPut(_, _) => HasItem(start, Front(ops), c)
      case OpCreate(d, _) => c == d || HasItem(start, Front(ops), c)
      case OpGet(d) => c == d || HasItem(start, Front(ops), c)
      case OpGetAttr(d) => c == d || HasItem(start, Front(ops), c)
  }

  /**
   Clean is what the client created, put or read itself, until somebody else puts, anybody removes, or
   somebody else reads while the client is the writer.
   */
  predicate CleanSince(ops: seq<Op>, c: int, half: Half)
    decreases |ops|, 0
  {
    if ops == [] then false
    else
      var before := Front(ops);
      match Last(ops)
      case OpCreate(d, _) => c == d
      case OpPut(d, _) => c == d
      case OpRemove(_) => false
      case OpGet(d) => if c == d then half == Content || CleanSince(before, c, half) else StillClean(before, c, half)
      case OpGetAttr(d) => if c == d then half == Attributes || CleanSince(before, c, half) else StillClean(before, c, half)
  }

  predicate StillClean(ops: seq<Op>, c: int, half: Half)
    decreases |ops|, 1
  {
    CleanSince(ops, c, half) && WriterSince(ops) != Some(c)
  }

  predicate Clean(x: Extent, c: int, half: Half) {
    c in x.items && !(if half == Content then x.items[c].bufDirty else x.items[c].attrDirty)
  }

  // ---- Every operation follows its description -----------------------------------------------------------------

  predicate Follows(start: Extent, ops: seq<Op>, x: Extent, c: int) {
    && (c in x.items <==> HasItem(start, ops, c))
    && (x.alive ==> (Clean(x, c, Content) <==> CleanSince(ops, c, Content)))
    && (x.alive ==> (Clean(x, c, Attributes) <==> CleanSince(ops, c, Attributes)))
  }

  /** What a read by d leaves of c's item. */
  ghost predicate ReadFor(x: Extent, y: Extent, d: int, c: int, half: Half) {
    && (c in y.items <==> c == d || c in x.items)
    && (Clean(y, c, Content) <==>
        if c == d then half == Content || Clean(x, c, Content) else Clean(x, c, Content) && x.writer != Some(c))
    && (Clean(y, c, Attributes) <==>
        if c == d then half == Attributes || Clean(x, c, Attributes) else Clean(x, c, Attributes) && x.writer != Some(c))
  }

  lemma GetFor(x: Extent, v: string, d: int, c: int)
    requires Inv(x, v) && x.alive
    ensures ReadFor(x, Get(x, d).0, d, c, Content)
  {
    if d !in x.items || x.items[d].bufDirty {
      ReadMakesReader(x, v, d);
    }
  }

  lemma GetAttrFor(x: Extent, v: string, d: int, c: int)
    requires Inv(x, v) && x.alive
    ensures ReadFor(x, GetAttr(x, d).0, d, c, Attributes)
  {
    if d !in x.items || x.items[d].attrDirty {
      ReadMakesReader(x, v, d);
    }
  }

  lemma PutFor(x: Extent, v: string, d: int, buf: string, c: int, half: Half)
    requires Inv(x, v) && x.alive && d in x.items
    ensures var y := Put(x, d, buf); y.alive && (c in y.items <==> c in x.items) && (Clean(y, c, half) <==> c == d)
  {
    if !x.items[d].keepWriting {
      PutMakesWriter(x, v, d, buf);
    }
  }

  lemma StepFollows(start: Extent, ops: seq<Op>, x: Extent, c: int)
    requires ops != [] && Inv(x, Contents(Front(ops))) && Allowed(x, Last(ops)) && WriterHasItem(x)
    requires Follows(start, Front(ops), x, c) && (x.alive ==> x.writer == WriterSince(Front(ops)))
    ensures Follows(start, ops, After(x, Last(ops)), c)
  {
    var v := Contents(Front(ops));
    match Last(ops)
    case OpCreate(d, fileType) =>
    case OpGet(d) => GetFor(x, v, d, c);
    case OpGetAttr(d) => GetAttrFor(x, v, d, c);
    case OpPut(d, buf) =>
      PutFor(x, v, d, buf, c, Content);
      PutFor(x, v, d, buf, c, Attributes);
    case OpRemove(d) =>
  }

  lemma StepAlive(start: Extent, ops: seq<Op>, x: Extent)
    requires ops != [] && Inv(x, Contents(Front(ops))) && Allowed(x, Last(ops)) && WriterHasItem(x)
    requires x.alive <==> AliveSince(start, Front(ops))
    ensures After(x, Last(ops)).alive <==> AliveSince(start, ops)
  {
    var v := Contents(Front(ops));
    match Last(ops)
    case OpCreate(d, fileType) =>
    case OpGet(d) => GetKeeps(x, v, d);
    case OpGetAttr(d) => GetAttrKeeps(x, v, d);
    case OpPut(d, buf) => PutKeeps(x, v, d, buf);
    case OpRemove(d) =>
  }

  // ---- The theorems ----------------------------------------------------------------------------------------------

  /** In every run: whether the extent exists, who has an item, and which halves of the items are clean. */
  lemma {:induction false} StoredExactly(start: Extent, ops: seq<Op>, c: int)
    requires Fresh(start) && Run(start, ops).Some?
    ensures var x := Run(start, ops).value;
            && (x.alive <==> AliveSince(start, ops))
            && (c in x.items <==> HasItem(start, ops, c))
            && (x.alive ==> forall half :: Clean(x, c, half) <==> CleanSince(ops, c, half))
  {
    if ops != [] {
      StoredExactly(start, Front(ops), c);
      RunType(start, Front(ops));
      var x := Run(start, Front(ops)).value;
      assert Follows(start, Front(ops), x, c);
      StepFollows(start, ops, x, c);
      StepAlive(start, ops, x);
      assert Follows(start, ops, Run(start, ops).value, c);
    }
    var x := Run(start, ops).value;
    forall half ensures x.alive ==> (Clean(x, c, half) <==> CleanSince(ops, c, half)) {
      assert half == Content || half == Attributes;
    }
  }

  /** Which operations can come next: a creation if there is no extent, a put by a client with an item, a read. */
  lemma AllowedExactly(start: Extent, ops: seq<Op>, op: Op)
    requires Fresh(start) && Run(start, ops).Some?
    ensures Run(start, ops + [op]).Some? <==>
      (if op.OpCreate? then !AliveSince(start, ops) && op.fileType != 0
       else AliveSince(start, ops) && (op.OpPut? ==> HasItem(start, ops, op.c)))
  {
    StoredExactly(start, ops, op.c);
    RunKeeps(start, ops);
    assert (ops + [op])[..|ops|] == ops;
    if Allowed(Run(start, ops).value, op) {
      AllowedRunsOn(start, ops, op);
    }
  }

  /** A read of what is clean changes nothing anywhere; a put by the writer changes nothing but its own item. */
  lemma StaysLocal(start: Extent, ops: seq<Op>, c: int, buf: string)
    requires Fresh(start) && Run(start, ops).Some? && AliveSince(start, ops)
    ensures var x := Run(start, ops).value;
            && WriterHasItem(x)
            && (CleanSince(ops, c, Content) ==> Get(x, c).0 == x)
            && (CleanSince(ops, c, Attributes) ==> GetAttr(x, c).0 == x)
            && (WriterSince(ops) == Some(c) ==>
                c in x.items && var y := Put(x, c, buf); c in y.items && y == x.(items := x.items[c := y.items[c]]))
  {
    StoredExactly(start, ops, c);
    RunType(start, ops);
  }

  /** A put by anybody but the writer is at the server at once, and everybody else's item is stale. */
  lemma FirstPutIsSent(start: Extent, ops: seq<Op>, c: int, buf: string)
    requires Fresh(start) && Run(start, ops).Some? && AliveSince(start, ops)
    requires HasItem(start, ops, c) && WriterSince(ops) != Some(c)
    ensures var x := Run(start, ops).value;
            && c in x.items
            && Put(x, c, buf).content == buf && Put(x, c, buf).writer == Some(c)
            && forall d | d in Put(x, c, buf).items && d != c :: Stale(Put(x, c, buf).items[d])
  {
    StoredExactly(start, ops, c);
    RunType(start, ops);
    var x := Run(start, ops).value;
    assert !x.items[c].keepWriting;
    PutMakesWriter(x, Contents(ops), c, buf);
  }
}
