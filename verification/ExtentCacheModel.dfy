/**
 The write-back extent cache for one extent whose operations are serialised: the server's copy and its
 books, every client's cached item, and the calls between them; and its refinement of a plain value.
 */
module ExtentCacheModel {
  import opened Options

  /** A client's cached item; times are left out. */
  datatype Item = Item(bufDirty: bool, attrDirty: bool, keepWriting: bool, buf: string, attrType: nat, attrSize: nat)

  datatype Attr = Attr(attrType: nat, size: nat)

  /** The server's file and its client book, and the clients that have an item. */
  datatype Extent = Extent(
    alive: bool,
    content: string,
    fileType: nat,
    clients: set<int>,
    writer: Option<int>,
    items: map<int, Item>)

  // ---- The server -----------------------------------------------------------------------------------

  function Refreshed(item: Item): Item {
    item.(bufDirty := true, attrDirty := true, keepWriting := false)
  }

  /** Tell every other known client that its copy is stale; a writer among them is no longer the writer. */
  function RefreshClients(x: Extent, c: int): Extent {
    x.(writer := if x.writer.Some? && x.writer.value in x.clients && x.writer.value != c then None else x.writer,
       items := map d | d in x.items :: if d in x.clients && d != c then Refreshed(x.items[d]) else x.items[d])
  }

  function ServerPut(x: Extent, c: int, buf: string): Extent {
    RefreshClients(x.(content := buf, clients := x.clients + {c}, writer := Some(c)), c)
  }

  /** The writer sends what it has written. */
  function RequireWriter(x: Extent): Extent
    requires x.writer.Some? && x.writer.value in x.items
  {
    var w := x.writer.value;
    var y := ServerPut(x, w, x.items[w].buf);
    if w in y.items then y.(items := y.items[w := y.items[w].(bufDirty := false, attrDirty := false)]) else y
  }

  function Fetched(x: Extent): Extent
    requires x.writer.Some? ==> x.writer.value in x.items
  {
    if x.writer.Some? then RequireWriter(x) else x
  }

  /** Note a reader, and end the writing. */
  function Noted(x: Extent, c: int): Extent {
    var y := x.(clients := x.clients + {c});
    if y.writer.Some? then RefreshClients(y, c) else y
  }

  /** The server's part of get and getattr: fetch from the writer, note the reader, end the writing. */
  function ServerRead(x: Extent, c: int): Extent
    requires x.writer.Some? ==> x.writer.value in x.items
  {
    Noted(Fetched(x), c)
  }

  // ---- The client -------------------------------------------------------------------------------------

  function WithItem(x: Extent, c: int, item: Item): Extent {
    x.(items := x.items[c := item])
  }

  function Get(x: Extent, c: int): (Extent, string)
    requires x.writer.Some? ==> x.writer.value in x.items
  {
    if c !in x.items then
      var y := ServerRead(x, c);
      (WithItem(y, c, Item(false, true, false, y.content, 0, |y.content|)), y.content)
    else if x.items[c].bufDirty then
      var y := ServerRead(x, c);
      if c in y.items then (WithItem(y, c, y.items[c].(buf := y.content, attrSize := |y.content|, bufDirty := false)), y.content)
      else (y, y.content)
    else (x, x.items[c].buf)
  }

  function GetAttr(x: Extent, c: int): (Extent, Attr)
    requires x.writer.Some? ==> x.writer.value in x.items
  {
    if c !in x.items then
      var y := ServerRead(x, c);
      (WithItem(y, c, Item(true, false, false, "", y.fileType, |y.content|)), Attr(y.fileType, |y.content|))
    else if x.items[c].attrDirty then
      var y := ServerRead(x, c);
      var attr := Attr(y.fileType, |y.content|);
      if c in y.items then (WithItem(y, c, y.items[c].(attrType := attr.attrType, attrSize := attr.size, attrDirty := false)), attr)
      else (y, attr)
    else (x, Attr(x.items[c].attrType, x.items[c].attrSize))
  }

  /** The first put after a refresh goes to the server; later ones stay here. */
  function Put(x: Extent, c: int, buf: string): Extent
    requires c in x.items
  {
    var y := if x.items[c].keepWriting then x else ServerPut(x, c, buf);
    if c in y.items then
      WithItem(y, c, y.items[c].(keepWriting := true, buf := buf, attrSize := |buf|, bufDirty := false, attrDirty := false))
    else y
  }

  function Create(x: Extent, c: int, fileType: nat): Extent {
    Extent(true, "", fileType, {c}, None, x.items[c := Item(false, false, false, "", fileType, 0)])
  }

  function Remove(x: Extent, c: int): Extent {
    var y := RefreshClients(x.(alive := false, clients := x.clients + {c}), c);
    y.(items := y.items - {c})
  }

  // ---- Runs -----------------------------------------------------------------------------------------------

  datatype Op =
    | OpCreate(c: int, fileType: nat)
    | OpGet(c: int)
    | OpGetAttr(c: int)
    | OpPut(c: int, buf: string)
    | OpRemove(c: int)

  /** Only existing extents are used, and only cached ones are put: what the file system layer does. */
  predicate Allowed(x: Extent, op: Op) {
    match op
    case OpCreate(_, fileType) => !x.alive && fileType != 0
    case OpPut(c, _) => x.alive && c in x.items
    case _ => x.alive
  }

  /** A writer that is registered has an item to send. */
  predicate WriterHasItem(x: Extent) {
    x.alive && x.writer.Some? ==> x.writer.value in x.items
  }

  function After(x: Extent, op: Op): Extent
    requires Allowed(x, op) && WriterHasItem(x)
  {
    match op
    case OpCreate(c, fileType) => Create(x, c, fileType)
    case OpGet(c) => Get(x, c).0
    case OpGetAttr(c) => GetAttr(x, c).0
    case OpPut(c, buf) => Put(x, c, buf)
    case OpRemove(c) => Remove(x, c)
  }

  const T_DIR: nat := 1

  const NEVER := Extent(false, "", 0, {}, None, map[])

  /** The root directory exists from the start, with a stale item at every client. */
  function Root(clients: set<int>): Extent {
    Extent(true, "", T_DIR, {}, None, map c | c in clients :: Item(true, true, false, "", T_DIR, 0))
  }

  function Run(start: Extent, ops: seq<Op>): Option<Extent> {
    if ops == [] then Some(start)
    else
      var x := Run(start, ops[..|ops| - 1]);
      if x.Some? && Allowed(x.value, ops[|ops| - 1]) && WriterHasItem(x.value) then Some(After(x.value, ops[|ops| - 1])) else None
  }

  /** What a plain file would hold: the last put, empty since its creation. */
  function Contents(ops: seq<Op>): string {
    if ops == [] then ""
    else
      match ops[|ops| - 1]
      case OpCreate(_, _) => ""
      case OpPut(_, buf) => buf
      case _ => Contents(ops[..|ops| - 1])
  }

  function TypeSince(ops: seq<Op>, start: nat): nat {
    if ops == [] then start
    else if ops[|ops| - 1].OpCreate? then ops[|ops| - 1].fileType
    else TypeSince(ops[..|ops| - 1], start)
  }
}
