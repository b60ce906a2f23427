/**
 What both transaction servers promise, stated without either of them: requests, responses,
 the operations a transaction performed, and serial execution in commit order.
 */
module Transactions {

  /** A key is a C string; `char` is signed on the platform the servers are built for. */
  newtype CChar = x: int | -128 <= x < 128
  type Key = seq<CChar>

  /** The extent store over slots. Every extent is created empty. */
  type Store = map<int, string>

  function Lookup(store: Store, slot: int): string {
    if slot in store then store[slot] else ""
  }

  datatype Request =
    | Begin
    | Get(id: int, key: Key)
    | Set(id: int, key: Key, value: string)
    | Del(id: int, key: Key)
    | Commit(id: int)
    | Abort(id: int)

  datatype Response = Started(id: int) | Value(value: string) | Ok | Aborted | TransIdInv

  datatype Event = Event(req: Request, resp: Response)

  // ---- The hash that maps keys to slots ----------------------------------------------

  const WORD := 0x1_0000_0000

  /** One round of the hash, in unsigned 32-bit arithmetic. */
  function HashRound(hash: int, c: CChar): int {
    (c as int + hash * 64 + hash * 65536 - hash) % WORD
  }

  function CLength(key: Key): (n: nat)
    ensures n <= |key|
    ensures n < |key| ==> key[n] == 0
    ensures forall i | 0 <= i < n :: key[i] != 0
  {
    if key == [] || key[0] == 0 then 0 else 1 + CLength(key[1..])
  }

  function HashOf(bytes: Key): int {
    if bytes == [] then 0 else HashRound(HashOf(bytes[..|bytes| - 1]), bytes[|bytes| - 1])
  }

  /** The slot of a key: the low ten bits of the hash of the bytes before the first NUL, plus two. */
  function SlotOf(key: Key): (slot: int)
    ensures 2 <= slot <= 1025
  {
    HashOf(key[..CLength(key)]) % 1024 + 2
  }

  method SDBMHash(key: Key) returns (slot: int)
    ensures slot == SlotOf(key)
  {
    var hash, i := 0, 0;
    while i < |key| && key[i] != 0
      invariant 0 <= i <= CLength(key)
      invariant hash == HashOf(key[..i])
    {
      assert key[..i + 1][..i] == key[..i];
      hash := HashRound(hash, key[i]);
      i := i + 1;
    }
    slot := hash % 1024 + 2;
  }

  /** Folding the key into ten bits, one byte at a time. */
  function Fold10(bytes: Key): int {
    if bytes == [] then 0 else (bytes[|bytes| - 1] as int + 63 * Fold10(bytes[..|bytes| - 1])) % 1024
  }

  /** Every shift by sixteen is lost: a slot is a ten-bit polynomial hash with multiplier 63. */
  lemma {:induction false} SlotIsTenBitPolynomial(key: Key)
    ensures SlotOf(key) == Fold10(key[..CLength(key)]) + 2
  {
    HashModulo(key[..CLength(key)]);
  }

  lemma {:induction false} HashModulo(bytes: Key)
    ensures HashOf(bytes) % 1024 == Fold10(bytes)
  {
    if bytes != [] {
      var before := bytes[..|bytes| - 1];
      var h, c := HashOf(before), bytes[|bytes| - 1] as int;
      HashModulo(before);
      assert h == 1024 * (h / 1024) + Fold10(before);
      var q := h / 1024;
      assert c + h * 64 + h * 65536 - h == c + 63 * Fold10(before) + 1024 * (63 * q + 64 * h);
      ModuloMultiple(c + 63 * Fold10(before), 63 * q + 64 * h);
      NestedModulo(c + h * 64 + h * 65536 - h);
    }
  }

  lemma ModuloMultiple(x: int, k: int)
    ensures (x + 1024 * k) % 1024 == x % 1024
  {
  }

  lemma NestedModulo(x: int)
    ensures x % WORD % 1024 == x % 1024
  {
    var k := x / WORD;
    assert x % WORD == x - WORD * k == x + 1024 * (-4194304 * k);
    ModuloMultiple(x, -4194304 * k);
  }

  // ---- What a transaction did ---------------------------------------------------------

  /** A read with the value it returned, or a write. */
  datatype Op = Read(slot: int, value: string) | Write(slot: int, value: string)

  function OpOf(e: Event, id: int): seq<Op> {
    match e
    case Event(Get(i, key), Value(v)) => if i == id then [Read(SlotOf(key), v)] else []
    case Event(Set(i, key, v), Ok) => if i == id then [Write(SlotOf(key), v)] else []
    case Event(Del(i, key), Ok) => if i == id then [Write(SlotOf(key), "")] else []
    case _ => []
  }

  /** The operations that transaction `id` performed, in order, with the answers it got. */
  function OpsOf(trace: seq<Event>, id: int): seq<Op> {
    if trace == [] then [] else OpsOf(trace[..|trace| - 1], id) + OpOf(trace[|trace| - 1], id)
  }

  function Touched(ops: seq<Op>): set<int> {
    set op | op in ops :: op.slot
  }

  /** The last value written to each slot that was written. */
  function Writes(ops: seq<Op>): (w: Store)
    ensures w.Keys <= Touched(ops)
  {
    if ops == [] then map[]
    else
      var w, op := Writes(ops[..|ops| - 1]), ops[|ops| - 1];
      if op.Write? then w[op.slot := op.value] else w
  }

  /** Run alone from `store`, with its own writes buffered, the transaction would read these values. */
  predicate Legal(store: Store, ops: seq<Op>) {
    ops == [] ||
    var before, op := ops[..|ops| - 1], ops[|ops| - 1];
    && Legal(store, before)
    && (op.Read? ==> op.value == Lookup(store + Writes(before), op.slot))
  }

  /** The last value read from or written to each slot touched. */
  function Seen(ops: seq<Op>): (seen: map<int, string>)
    ensures seen.Keys == Touched(ops)
  {
    if ops == [] then map[]
    else
      var before, op := ops[..|ops| - 1], ops[|ops| - 1];
      assert ops == before + [op];
      Seen(before)[op.slot := op.value]
  }

  /** A slot touched before reads as it did then. */
  predicate Stable(ops: seq<Op>) {
    ops == [] ||
    var before, op := ops[..|ops| - 1], ops[|ops| - 1];
    Stable(before) && (op.Read? && op.slot in Seen(before) ==> op.value == Seen(before)[op.slot])
  }

  // ---- Which transactions there are -------------------------------------------------------

  /** The answer tells the client that its transaction is over. */
  predicate Ends(e: Event) {
    match e
    case Event(Begin, _) => false
    case Event(Commit(_), Ok) => true
    case Event(Abort(_), Ok) => true
    case Event(_, resp) => resp.Aborted?
  }

  predicate Starts(e: Event) {
    e.req.Begin? && e.resp.Started?
  }

  /** The transactions that were begun and are not over, by what their clients were told. */
  function Active(trace: seq<Event>): set<int> {
    if trace == [] then {}
    else
      var before, e := Active(trace[..|trace| - 1]), trace[|trace| - 1];
      if Starts(e) then before + {e.resp.id} else if Ends(e) then before - {e.req.id} else before
  }

  /** How often begin was called. */
  function Begins(trace: seq<Event>): nat {
    if trace == [] then 0 else Begins(trace[..|trace| - 1]) + if trace[|trace| - 1].req.Begin? then 1 else 0
  }

  /** No begin has answered this number yet. */
  predicate NewNumber(trace: seq<Event>, id: int) {
    forall e | e in trace && Starts(e) :: e.resp.id != id
  }

  lemma ActiveExtend(trace: seq<Event>, e: Event)
    ensures Active(trace + [e]) ==
              if Starts(e) then Active(trace) + {e.resp.id} else if Ends(e) then Active(trace) - {e.req.id} else Active(trace)
    ensures Begins(trace + [e]) == Begins(trace) + if e.req.Begin? then 1 else 0
    ensures forall id :: NewNumber(trace + [e], id) <==> NewNumber(trace, id) && !(Starts(e) && e.resp.id == id)
  {
    assert (trace + [e])[..|trace|] == trace;
    forall id ensures NewNumber(trace + [e], id) <==> NewNumber(trace, id) && !(Starts(e) && e.resp.id == id) {
      assert e in trace + [e];
      assert forall f | f in trace :: f in trace + [e];
    }
  }

  // ---- Serial execution in commit order -------------------------------------------------

  predicate Commits(e: Event) {
    e.req.Commit? && e.resp.Ok?
  }

  /** The operations of each committed transaction, in commit order. */
  function Committed(trace: seq<Event>): seq<seq<Op>> {
    if trace == [] then []
    else
      var before, e := trace[..|trace| - 1], trace[|trace| - 1];
      Committed(before) + if Commits(e) then [OpsOf(before, e.req.id)] else []
  }

  /** The store after the given transactions ran one after the other. */
  function Replay(init: Store, txns: seq<seq<Op>>): Store {
    if txns == [] then init else Replay(init, txns[..|txns| - 1]) + Writes(txns[|txns| - 1])
  }

  /** Each transaction read exactly what it would have read in that serial execution. */
  predicate SerialReads(init: Store, txns: seq<seq<Op>>) {
    txns == [] ||
    var before := txns[..|txns| - 1];
    SerialReads(init, before) && Legal(Replay(init, before), txns[|txns| - 1])
  }

  /** The committed transactions and the store are those of a serial run in commit order. */
  ghost predicate Serializable(init: Store, trace: seq<Event>, store: Store) {
    && SerialReads(init, Committed(trace))
    && store == Replay(init, Committed(trace))
  }

  // ---- Lemmas used by both servers --------------------------------------------------------

  lemma {:induction false} LegalFrame(a: Store, b: Store, ops: seq<Op>)
    requires Legal(a, ops)
    requires forall slot | slot in Touched(ops) :: Lookup(a, slot) == Lookup(b, slot)
    ensures Legal(b, ops)
  {
    if ops != [] {
      var before, op := ops[..|ops| - 1], ops[|ops| - 1];
      assert op in ops;
      forall slot | slot in Touched(before) ensures slot in Touched(ops) {
        var o :| o in before && o.slot == slot;
        assert o in ops;
      }
      LegalFrame(a, b, before);
    }
  }

  lemma OneMoreOp(ops: seq<Op>, op: Op)
    ensures Writes(ops + [op]) == if op.Write? then Writes(ops)[op.slot := op.value] else Writes(ops)
    ensures Touched(ops + [op]) == Touched(ops) + {op.slot}
    ensures Seen(ops + [op]) == Seen(ops)[op.slot := op.value]
    ensures Stable(ops + [op]) <==>
              Stable(ops) && (op.Read? && op.slot in Seen(ops) ==> op.value == Seen(ops)[op.slot])
    ensures forall store :: Legal(store, ops + [op]) <==>
                              Legal(store, ops) && (op.Read? ==> op.value == Lookup(store + Writes(ops), op.slot))
  {
    assert (ops + [op])[..|ops|] == ops;
    forall slot ensures slot in Touched(ops + [op]) <==> slot in Touched(ops) || slot == op.slot {
      if slot in Touched(ops) {
        var o :| o in ops && o.slot == slot;
        assert o in ops + [op];
      }
      assert op in ops + [op];
    }
  }

  // ---- Buffering a transaction's reads and writes ----------------------------------------

  /** The buffered values that a commit puts into the store. */
  function Flushed(value: map<int, string>, writeSet: set<int>): Store {
    map slot | slot in value && slot in writeSet :: value[slot]
  }

  /** The buffer holds what the transaction last saw in each slot, and which slots it wrote. */
  ghost predicate Buffers(ops: seq<Op>, value: map<int, string>, writeSet: set<int>) {
    && Stable(ops)
    && value == Seen(ops)
    && writeSet == Writes(ops).Keys
    && Flushed(value, writeSet) == Writes(ops)
  }

  /** What the transaction read is what the store still holds. */
  ghost predicate UpToDate(store: Store, ops: seq<Op>, value: map<int, string>, writeSet: set<int>) {
    && Legal(store, ops)
    && forall slot | slot in value && slot !in writeSet :: value[slot] == Lookup(store, slot)
  }

  lemma BuffersRead(ops: seq<Op>, value: map<int, string>, writeSet: set<int>, slot: int, v: string)
    requires Buffers(ops, value, writeSet)
    requires slot in value ==> v == value[slot]
    ensures Buffers(ops + [Read(slot, v)], value[slot := v], writeSet)
  {
    OneMoreOp(ops, Read(slot, v));
    if slot in writeSet {
      assert slot in Flushed(value, writeSet);
    }
    assert Flushed(value[slot := v], writeSet) == Flushed(value, writeSet);
  }

  lemma UpToDateRead(store: Store, ops: seq<Op>, value: map<int, string>, writeSet: set<int>, slot: int, v: string)
    requires Buffers(ops, value, writeSet) && UpToDate(store, ops, value, writeSet)
    requires v == if slot in value then value[slot] else Lookup(store, slot)
    ensures UpToDate(store, ops + [Read(slot, v)], value[slot := v], writeSet)
  {
    OneMoreOp(ops, Read(slot, v));
    if slot in writeSet {
      assert slot in Flushed(value, writeSet);
    } else {
      assert slot !in Writes(ops);
    }
  }

  lemma BuffersWrite(ops: seq<Op>, value: map<int, string>, writeSet: set<int>, slot: int, v: string)
    requires Buffers(ops, value, writeSet)
    ensures Buffers(ops + [Write(slot, v)], value[slot := v], writeSet + {slot})
  {
    OneMoreOp(ops, Write(slot, v));
    assert Flushed(value[slot := v], writeSet + {slot}) == Flushed(value, writeSet)[slot := v];
  }

  lemma UpToDateWrite(store: Store, ops: seq<Op>, value: map<int, string>, writeSet: set<int>, slot: int, v: string)
    requires UpToDate(store, ops, value, writeSet)
    ensures UpToDate(store, ops + [Write(slot, v)], value[slot := v], writeSet + {slot})
  {
    OneMoreOp(ops, Write(slot, v));
  }

  /** Another transaction's commit to slots that were not touched changes nothing. */
  lemma UpToDateFrame(store: Store, written: Store, ops: seq<Op>, value: map<int, string>, writeSet: set<int>)
    requires Buffers(ops, value, writeSet) && UpToDate(store, ops, value, writeSet)
    requires written.Keys !! value.Keys
    ensures UpToDate(store + written, ops, value, writeSet)
  {
    forall slot | slot in Touched(ops) ensures Lookup(store, slot) == Lookup(store + written, slot) {
      assert slot in value.Keys;
    }
    LegalFrame(store, store + written, ops);
  }

  lemma OneMoreEvent(trace: seq<Event>, e: Event, id: int)
    ensures OpsOf(trace + [e], id) == OpsOf(trace, id) + OpOf(e, id)
    ensures OpOf(e, id) == [] ==> OpsOf(trace + [e], id) == OpsOf(trace, id)
    ensures Committed(trace + [e]) == Committed(trace) + if Commits(e) then [OpsOf(trace, e.req.id)] else []
    ensures !Commits(e) ==> Committed(trace + [e]) == Committed(trace)
  {
    assert (trace + [e])[..|trace|] == trace;
  }

  lemma SerialExtend(init: Store, trace: seq<Event>, store: Store, e: Event)
    requires Serializable(init, trace, store)
    requires Commits(e) ==> Legal(store, OpsOf(trace, e.req.id))
    ensures Serializable(init, trace + [e], if Commits(e) then store + Writes(OpsOf(trace, e.req.id)) else store)
  {
    OneMoreEvent(trace, e, 0);
    if Commits(e) {
      var txns := Committed(trace);
      assert (txns + [OpsOf(trace, e.req.id)])[..|txns|] == txns;
    }
  }

  /**
   In a stable transaction a read returns what the last operation on the slot read or wrote:
   reads are repeatable and see the transaction's own writes.
   */
  lemma {:induction false} StableReads(ops: seq<Op>, i: nat, j: nat)
    requires Stable(ops) && i < j < |ops|
    requires ops[j].Read? && ops[j].slot == ops[i].slot
    requires forall k | i < k < j && ops[k].Write? :: ops[k].slot != ops[i].slot
    ensures ops[j].value == ops[i].value
  {
    if j + 1 < |ops| {
      StableReads(ops[..|ops| - 1], i, j);
    } else {
      SeenKept(ops[..j], i);
    }
  }

  lemma {:induction false} SeenKept(ops: seq<Op>, i: nat)
    requires Stable(ops) && i < |ops|
    requires forall k | i < k < |ops| && ops[k].Write? :: ops[k].slot != ops[i].slot
    ensures ops[i].slot in Seen(ops) && Seen(ops)[ops[i].slot] == ops[i].value
  {
    if i + 1 < |ops| {
      SeenKept(ops[..|ops| - 1], i);
    }
  }
}
