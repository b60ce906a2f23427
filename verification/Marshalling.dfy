/**
 The wire format of the RPC library: numbers high byte first, strings, vectors and maps behind their
 sizes; what unmarshalling reads back; and the headers in front.
 */
module Marshalling {

  type byte = x: int | 0 <= x < 256

  /** What can be marshalled: integers are given by their size in bytes and whether they are signed. */
  datatype Type = Bool | Num(width: nat, signed: bool) | Str | Vec(elem: Type) | Dict(key: Type, value: Type)

  datatype Val = VBool(b: bool) | VNum(n: int) | VStr(s: seq<byte>) | VVec(vs: seq<Val>) | VDict(es: seq<(Val, Val)>)

  const UINT_LIMIT: nat := 0x1_0000_0000

  function Pow256(w: nat): (p: nat)
    ensures p >= 1
  {
    if w == 0 then 1 else 256 * Pow256(w - 1)
  }

  // ---- Numbers ------------------------------------------------------------------------------------------

  /** w bytes, the high one first. */
  function BigEndian(n: nat, w: nat): (bs: seq<byte>)
    ensures |bs| == w
    decreases w, n
  {
    if w == 0 then [] else BigEndian(n / 256, w - 1) + [n % 256]
  }

  function FromBytes(bs: seq<byte>): nat {
    if bs == [] then 0
    else
      var high: nat, low: nat := FromBytes(bs[..|bs| - 1]), bs[|bs| - 1];
      256 * high + low
  }

  predicate NumFits(n: int, w: nat, signed: bool) {
    if signed then -(2 * n) <= Pow256(w) && 2 * n < Pow256(w) else 0 <= n < Pow256(w)
  }

  /** The bits of a number taken as an unsigned one of the same size, and back. */
  function ToBits(n: int, w: nat, signed: bool): (m: nat)
    requires NumFits(n, w, signed)
    ensures m < Pow256(w)
  {
    if n < 0 then n + Pow256(w) else n
  }

  function FromBits(m: nat, w: nat, signed: bool): int {
    if signed && 2 * m >= Pow256(w) then m - Pow256(w) else m
  }

  lemma {:induction false} BytesRoundTrip(n: nat, w: nat)
    requires n < Pow256(w)
    ensures FromBytes(BigEndian(n, w)) == n
  {
    if w > 0 {
      BytesRoundTrip(n / 256, w - 1);
      assert BigEndian(n, w)[..w - 1] == BigEndian(n / 256, w - 1);
    }
  }

  lemma NumRoundTrip(n: int, w: nat, signed: bool)
    requires NumFits(n, w, signed)
    ensures FromBits(FromBytes(BigEndian(ToBits(n, w, signed), w)), w, signed) == n
  {
    BytesRoundTrip(ToBits(n, w, signed), w);
  }

  // ---- Values -------------------------------------------------------------------------------------------------

  /** The order of keys in a map: numbers by value, strings by bytes. */
  predicate StrLess(s: seq<byte>, t: seq<byte>) {
    if s == [] then t != []
    else t != [] && (s[0] < t[0] || (s[0] == t[0] && StrLess(s[1..], t[1..])))
  }

  predicate Less(a: Val, b: Val) {
    match (a, b)
    case (VBool(x), VBool(y)) => !x && y
    case (VNum(x), VNum(y)) => x < y
    case (VStr(x), VStr(y)) => StrLess(x, y)
    case _ => false
  }

  predicate LessAt(es: seq<(Val, Val)>, i: nat)
    requires 0 < i < |es|
  {
    Less(es[i - 1].0, es[i].0)
  }

  predicate Increasing(es: seq<(Val, Val)>) {
    forall i {:trigger LessAt(es, i)} | 0 < i < |es| :: LessAt(es, i)
  }

  /** The value is one of the type, and its sizes can be written. Keys are numbers or strings. */
  predicate Fits(t: Type, v: Val)
    decreases v, 0
  {
    match (t, v)
    case (Bool, VBool(_)) => true
    case (Num(w, signed), VNum(n)) => NumFits(n, w, signed)
    case (Str, VStr(s)) => |s| < UINT_LIMIT
    case (Vec(elem), VVec(vs)) => |vs| < UINT_LIMIT && AllFit(elem, vs)
    case (Dict(key, value), VDict(es)) =>
      |es| < UINT_LIMIT && Increasing(es) && !key.Vec? && !key.Dict? && PairsFit(key, value, es)
    case _ => false
  }

  predicate AllFit(t: Type, vs: seq<Val>)
    decreases vs, 1
  {
    forall i | 0 <= i < |vs| :: Fits(t, vs[i])
  }

  predicate PairFits(key: Type, value: Type, e: (Val, Val))
    decreases e, 1
  {
    Fits(key, e.0) && Fits(value, e.1)
  }

  predicate PairsFit(key: Type, value: Type, es: seq<(Val, Val)>)
    decreases es, 1
  {
    forall i {:trigger PairFits(key, value, es[i])} | 0 <= i < |es| :: PairFits(key, value, es[i])
  }

  lemma UintFits(n: nat)
    requires n < UINT_LIMIT
    ensures NumFits(n, 4, false)
  {
    assert Pow256(2) == 65536;
    assert Pow256(4) == UINT_LIMIT;
  }

  function Size(n: nat): seq<byte> {
    BigEndian(n, 4)
  }

  function Encode(t: Type, v: Val): seq<byte>
    requires Fits(t, v)
    decreases v, 0
  {
    match (t, v)
    case (Bool, VBool(b)) => [if b then 1 else 0]
    case (Num(w, signed), VNum(n)) => BigEndian(ToBits(n, w, signed), w)
    case (Str, VStr(s)) => Size(|s|) + s
    case (Vec(elem), VVec(vs)) => Size(|vs|) + EncodeAll(elem, vs)
    case (Dict(key, value), VDict(es)) => Size(|es|) + EncodePairs(key, value, es)
  }

  function EncodeAll(t: Type, vs: seq<Val>): seq<byte>
    requires AllFit(t, vs)
    decreases vs, 1
  {
    if vs == [] then [] else EncodeAll(t, vs[..|vs| - 1]) + Encode(t, vs[|vs| - 1])
  }

  function EncodePairs(key: Type, value: Type, es: seq<(Val, Val)>): seq<byte>
    requires PairsFit(key, value, es)
    decreases es, 1
  {
    if es == [] then []
    else
      EncodePairs(key, value, es[..|es| - 1]) + EncodePair(key, value, es[|es| - 1])
  }

  function EncodePair(key: Type, value: Type, e: (Val, Val)): seq<byte>
    requires PairFits(key, value, e)
    decreases e, 1
  {
    Encode(key, e.0) + Encode(value, e.1)
  }

  lemma EncodeAllStep(t: Type, vs: seq<Val>, i: nat)
    requires AllFit(t, vs) && i < |vs|
    ensures AllFit(t, vs[..i]) && AllFit(t, vs[..i + 1]) && Fits(t, vs[i])
    ensures EncodeAll(t, vs[..i + 1]) == EncodeAll(t, vs[..i]) + Encode(t, vs[i])
  {
    assert vs[..i + 1][..i] == vs[..i];
  }

  lemma EncodePairsStep(key: Type, value: Type, es: seq<(Val, Val)>, i: nat)
    requires PairsFit(key, value, es) && i < |es|
    ensures PairsFit(key, value, es[..i]) && PairsFit(key, value, es[..i + 1]) && PairFits(key, value, es[i])
    ensures EncodePairs(key, value, es[..i + 1]) == EncodePairs(key, value, es[..i]) + EncodePair(key, value, es[i])
  {
    assert es[..i + 1][..i] == es[..i];
  }

  // ---- Reading ----------------------------------------------------------------------------------------------------

  /** Where reading has got to, and whether it has never run out of bytes. */
  datatype At = At(pos: nat, ok: bool)

  function ReadByte(buf: seq<byte>, at: At): (byte, At) {
    if at.pos >= |buf| then (0, At(at.pos, false)) else (buf[at.pos], At(at.pos + 1, at.ok))
  }

  function ReadUnsigned(buf: seq<byte>, at: At, w: nat): (nat, At)
    decreases w, buf
  {
    if w == 0 then (0, at)
    else
      var (high, mid) := ReadUnsigned(buf, at, w - 1);
      var (low, end) := ReadByte(buf, mid);
      (256 * high + low, end)
  }

  /** n bytes from some position on. */
  function Part(buf: seq<byte>, pos: nat, n: nat): seq<byte>
    requires pos + n <= |buf|
    decreases n, buf
  {
    if n == 0 then [] else Part(buf, pos, n - 1) + [buf[pos + n - 1]]
  }

  lemma {:induction false} PartIsSlice(buf: seq<byte>, pos: nat, n: nat)
    requires pos + n <= |buf|
    ensures Part(buf, pos, n) == buf[pos..pos + n]
  {
    if n > 0 {
      PartIsSlice(buf, pos, n - 1);
    }
  }

  function ReadBytes(buf: seq<byte>, at: At, n: nat): (seq<byte>, At) {
    if at.pos + n > |buf| then ([], At(at.pos, false)) else (Part(buf, at.pos, n), At(at.pos + n, at.ok))
  }

  /** Set a key in a map that is kept in order. */
  function Insert(es: seq<(Val, Val)>, k: Val, v: Val): seq<(Val, Val)> {
    if es == [] || Less(es[|es| - 1].0, k) then es + [(k, v)]
    else if es[|es| - 1].0 == k then es[..|es| - 1] + [(k, v)]
    else Insert(es[..|es| - 1], k, v) + [es[|es| - 1]]
  }

  function Read(t: Type, buf: seq<byte>, at: At): (Val, At)
    decreases t, 0
  {
    match t
    case Bool => var (b, end) := ReadByte(buf, at); (VBool(b != 0), end)
    case Num(w, signed) => var (m, end) := ReadUnsigned(buf, at, w); (VNum(FromBits(m, w, signed)), end)
    case Str =>
      var (n, mid) := ReadUnsigned(buf, at, 4);
      if mid.ok then var (s, end) := ReadBytes(buf, mid, n); (VStr(s), end) else (VStr([]), mid)
    case Vec(elem) =>
      var (n, mid) := ReadUnsigned(buf, at, 4);
      var (vs, end) := ReadAll(elem, buf, mid, n);
      (VVec(vs), end)
    case Dict(key, value) =>
      var (n, mid) := ReadUnsigned(buf, at, 4);
      var (es, end) := ReadPairs(key, value, buf, mid, n);
      (VDict(es), end)
  }

  function ReadAll(t: Type, buf: seq<byte>, at: At, n: nat): (seq<Val>, At)
    decreases t, 1, n
  {
    if n == 0 then ([], at)
    else
      var (vs, mid) := ReadAll(t, buf, at, n - 1);
      var (v, end) := Read(t, buf, mid);
      (vs + [v], end)
  }

  function ReadPairs(key: Type, value: Type, buf: seq<byte>, at: At, n: nat): (seq<(Val, Val)>, At)
    decreases Dict(key, value), 0, n
  {
    if n == 0 then ([], at)
    else
      var (es, mid) := ReadPairs(key, value, buf, at, n - 1);
      var (k, next) := Read(key, buf, mid);
      var (v, end) := Read(value, buf, next);
      (Insert(es, k, v), end)
  }

  // ---- Reading gives back what was written -----------------------------------------------------------------------

  predicate Has(buf: seq<byte>, pos: nat, bs: seq<byte>) {
    pos + |bs| <= |buf| && forall i | 0 <= i < |bs| :: buf[pos + i] == bs[i]
  }

  lemma HasBoth(buf: seq<byte>, pos: nat, a: seq<byte>, b: seq<byte>)
    requires Has(buf, pos, a + b)
    ensures Has(buf, pos, a) && Has(buf, pos + |a|, b)
  {
    var ab := a + b;
    forall i | 0 <= i < |a| ensures buf[pos + i] == a[i] {
      assert ab[i] == a[i];
    }
    forall i | 0 <= i < |b| ensures buf[pos + |a| + i] == b[i] {
      assert ab[|a| + i] == b[i];
    }
  }

  lemma {:induction false} UnsignedReadBack(buf: seq<byte>, pos: nat, n: nat, w: nat)
    requires n < Pow256(w) && Has(buf, pos, BigEndian(n, w))
    ensures ReadUnsigned(buf, At(pos, true), w) == (n, At(pos + w, true))
  {
    if w > 0 {
      HasBoth(buf, pos, BigEndian(n / 256, w - 1), [n % 256]);
      UnsignedReadBack(buf, pos, n / 256, w - 1);
      var low: seq<byte> := [n % 256];
      assert buf[pos + (w - 1) + 0] == low[0];
    }
  }

  lemma SizeReadBack(buf: seq<byte>, pos: nat, n: nat, rest: seq<byte>)
    requires n < UINT_LIMIT && Has(buf, pos, Size(n) + rest)
    ensures ReadUnsigned(buf, At(pos, true), 4) == (n, At(pos + 4, true)) && Has(buf, pos + 4, rest)
  {
    UintFits(n);
    HasBoth(buf, pos, Size(n), rest);
    UnsignedReadBack(buf, pos, n, 4);
  }

  lemma BytesReadBack(buf: seq<byte>, pos: nat, s: seq<byte>)
    requires Has(buf, pos, s)
    ensures ReadBytes(buf, At(pos, true), |s|) == (s, At(pos + |s|, true))
  {
    PartIsSlice(buf, pos, |s|);
    var part := buf[pos..pos + |s|];
    assert forall i | 0 <= i < |s| :: part[i] == buf[pos + i] == s[i];
    assert part == s;
  }

  lemma {:induction false} ReadBack(t: Type, v: Val, buf: seq<byte>, pos: nat)
    requires Fits(t, v) && Has(buf, pos, Encode(t, v))
    ensures Read(t, buf, At(pos, true)) == (v, At(pos + |Encode(t, v)|, true))
    decreases v, 2
  {
    match t
    case Bool =>
      assert buf[pos + 0] == Encode(t, v)[0];
    case Num(w, signed) =>
      UnsignedReadBack(buf, pos, ToBits(v.n, w, signed), w);
    case Str =>
      StrReadBack(v.s, buf, pos);
    case Vec(elem) =>
      VecReadBack(elem, v, Encode(t, v), buf, pos);
    case Dict(key, value) =>
      DictReadBack(key, value, v, Encode(t, v), buf, pos);
  }

  lemma StrReadBack(s: seq<byte>, buf: seq<byte>, pos: nat)
    requires Fits(Str, VStr(s)) && Has(buf, pos, Encode(Str, VStr(s)))
    ensures Read(Str, buf, At(pos, true)) == (VStr(s), At(pos + |Encode(Str, VStr(s))|, true))
  {
    SizeReadBack(buf, pos, |s|, s);
    BytesReadBack(buf, pos + 4, s);
  }

  /** A vector's bytes are its size and those of its elements. */
  lemma VecSplit(elem: Type, vs: seq<Val>, buf: seq<byte>, pos: nat)
    requires Fits(Vec(elem), VVec(vs)) && Has(buf, pos, Encode(Vec(elem), VVec(vs)))
    ensures AllFit(elem, vs) && ReadUnsigned(buf, At(pos, true), 4) == (|vs|, At(pos + 4, true))
    ensures Has(buf, pos + 4, EncodeAll(elem, vs)) && |Encode(Vec(elem), VVec(vs))| == 4 + |EncodeAll(elem, vs)|
  {
    SizeReadBack(buf, pos, |vs|, EncodeAll(elem, vs));
  }

  lemma VecJoin(elem: Type, vs: seq<Val>, buf: seq<byte>, pos: nat, end: At)
    requires ReadUnsigned(buf, At(pos, true), 4) == (|vs|, At(pos + 4, true))
    requires ReadAll(elem, buf, At(pos + 4, true), |vs|) == (vs, end)
    ensures Read(Vec(elem), buf, At(pos, true)) == (VVec(vs), end)
  {
  }

  lemma {:induction false} VecReadBack(elem: Type, v: Val, bs: seq<byte>, buf: seq<byte>, pos: nat)
    requires v.VVec? && Fits(Vec(elem), v) && bs == Encode(Vec(elem), v) && Has(buf, pos, bs)
    ensures Read(Vec(elem), buf, At(pos, true)) == (v, At(pos + |bs|, true))
    decreases v, 1
  {
    VecSplit(elem, v.vs, buf, pos);
    ReadBackAll(elem, v.vs, EncodeAll(elem, v.vs), buf, pos + 4);
    VecJoin(elem, v.vs, buf, pos, At(pos + |bs|, true));
  }

  /** The front of a vector, and where its bytes end. */
  lemma AllFront(t: Type, vs: seq<Val>, bs: seq<byte>, buf: seq<byte>, pos: nat)
    returns (front: seq<Val>, a: seq<byte>, b: seq<byte>)
    requires vs != [] && AllFit(t, vs) && bs == EncodeAll(t, vs) && Has(buf, pos, bs)
    ensures front == vs[..|vs| - 1] && AllFit(t, front) && a == EncodeAll(t, front) && Has(buf, pos, a)
    ensures Fits(t, vs[|vs| - 1]) && b == Encode(t, vs[|vs| - 1]) && Has(buf, pos + |a|, b)
    ensures |bs| == |a| + |b|
  {
    front := vs[..|vs| - 1];
    a, b := EncodeAll(t, front), Encode(t, vs[|vs| - 1]);
    HasBoth(buf, pos, a, b);
  }

  lemma AllJoin(t: Type, vs: seq<Val>, buf: seq<byte>, at: At, mid: At, end: At)
    requires vs != [] && ReadAll(t, buf, at, |vs| - 1) == (vs[..|vs| - 1], mid)
    requires Read(t, buf, mid) == (vs[|vs| - 1], end)
    ensures ReadAll(t, buf, at, |vs|) == (vs, end)
  {
    assert vs == vs[..|vs| - 1] + [vs[|vs| - 1]];
  }

  lemma {:induction false} ReadBackAll(t: Type, vs: seq<Val>, bs: seq<byte>, buf: seq<byte>, pos: nat)
    requires AllFit(t, vs) && bs == EncodeAll(t, vs) && Has(buf, pos, bs)
    ensures ReadAll(t, buf, At(pos, true), |vs|) == (vs, At(pos + |bs|, true))
    decreases vs, 1
  {
    if vs != [] {
      var front, a, b := AllFront(t, vs, bs, buf, pos);
      ReadBackAll(t, front, a, buf, pos);
      ReadBack(t, vs[|vs| - 1], buf, pos + |a|);
      AllJoin(t, vs, buf, At(pos, true), At(pos + |a|, true), At(pos + |bs|, true));
    }
  }

  /** A map's bytes are its size and those of its entries. */
  lemma DictSplit(key: Type, value: Type, es: seq<(Val, Val)>, buf: seq<byte>, pos: nat)
    requires Fits(Dict(key, value), VDict(es)) && Has(buf, pos, Encode(Dict(key, value), VDict(es)))
    ensures PairsFit(key, value, es) && ReadUnsigned(buf, At(pos, true), 4) == (|es|, At(pos + 4, true))
    ensures Has(buf, pos + 4, EncodePairs(key, value, es))
    ensures |Encode(Dict(key, value), VDict(es))| == 4 + |EncodePairs(key, value, es)|
  {
    SizeReadBack(buf, pos, |es|, EncodePairs(key, value, es));
  }

  lemma DictJoin(key: Type, value: Type, es: seq<(Val, Val)>, buf: seq<byte>, pos: nat, end: At)
    requires ReadUnsigned(buf, At(pos, true), 4) == (|es|, At(pos + 4, true))
    requires ReadPairs(key, value, buf, At(pos + 4, true), |es|) == (es, end)
    ensures Read(Dict(key, value), buf, At(pos, true)) == (VDict(es), end)
  {
  }

  lemma {:induction false} DictReadBack(key: Type, value: Type, v: Val, bs: seq<byte>, buf: seq<byte>, pos: nat)
    requires v.VDict? && Fits(Dict(key, value), v) && bs == Encode(Dict(key, value), v) && Has(buf, pos, bs)
    ensures Read(Dict(key, value), buf, At(pos, true)) == (v, At(pos + |bs|, true))
    decreases v, 1
  {
    DictSplit(key, value, v.es, buf, pos);
    PairsRead(key, value, v.es);
    ReadBackPairs(key, value, v.es, EncodePairs(key, value, v.es), buf, pos + 4);
    DictJoin(key, value, v.es, buf, pos, At(pos + |bs|, true));
  }

  predicate PairReadAt(key: Type, value: Type, e: (Val, Val), buf: seq<byte>, pos: nat)
    requires PairFits(key, value, e)
  {
    var mid := pos + |Encode(key, e.0)|;
    && Read(key, buf, At(pos, true)) == (e.0, At(mid, true))
    && Read(value, buf, At(mid, true)) == (e.1, At(pos + |EncodePair(key, value, e)|, true))
  }

  /** A map's entry is read back wherever its bytes stand. */
  ghost predicate PairReads(key: Type, value: Type, e: (Val, Val)) {
    PairFits(key, value, e) &&
    forall buf, pos: nat {:trigger PairReadAt(key, value, e, buf, pos)} ::
      Has(buf, pos, EncodePair(key, value, e)) ==> PairReadAt(key, value, e, buf, pos)
  }

  lemma {:induction false} PairsRead(key: Type, value: Type, es: seq<(Val, Val)>)
    requires PairsFit(key, value, es)
    ensures forall i {:trigger PairReads(key, value, es[i])} | 0 <= i < |es| :: PairReads(key, value, es[i])
    decreases es, 1
  {
    forall i | 0 <= i < |es| ensures PairReads(key, value, es[i]) {
      forall buf, pos: nat | Has(buf, pos, EncodePair(key, value, es[i])) ensures PairReadAt(key, value, es[i], buf, pos) {
        ReadBackPair(key, value, es[i], buf, pos);
      }
    }
  }

  lemma InsertLast(es: seq<(Val, Val)>)
    requires es != [] && Increasing(es)
    ensures Insert(es[..|es| - 1], es[|es| - 1].0, es[|es| - 1].1) == es
  {
    if |es| > 1 {
      assert LessAt(es, |es| - 1);
    }
    assert es == es[..|es| - 1] + [es[|es| - 1]];
  }

  lemma PairsJoin(key: Type, value: Type, es: seq<(Val, Val)>, buf: seq<byte>, at: At, mid: At, next: At, end: At)
    requires es != [] && ReadPairs(key, value, buf, at, |es| - 1) == (es[..|es| - 1], mid) && Increasing(es)
    requires Read(key, buf, mid) == (es[|es| - 1].0, next) && Read(value, buf, next) == (es[|es| - 1].1, end)
    ensures ReadPairs(key, value, buf, at, |es|) == (es, end)
  {
    InsertLast(es);
  }

  lemma ReadBackLast(key: Type, value: Type, es: seq<(Val, Val)>, b: seq<byte>, buf: seq<byte>, at: At, mid: nat)
    requires es != [] && PairReads(key, value, es[|es| - 1]) && Increasing(es)
    requires b == EncodePair(key, value, es[|es| - 1]) && Has(buf, mid, b)
    requires ReadPairs(key, value, buf, at, |es| - 1) == (es[..|es| - 1], At(mid, true))
    ensures ReadPairs(key, value, buf, at, |es|) == (es, At(mid + |b|, true))
  {
    var e := es[|es| - 1];
    assert PairReadAt(key, value, e, buf, mid);
    PairsJoin(key, value, es, buf, at, At(mid, true), At(mid + |Encode(key, e.0)|, true), At(mid + |b|, true));
  }

  /** The front of a map's entries, and where its bytes end. */
  lemma PairsFront(key: Type, value: Type, es: seq<(Val, Val)>, bs: seq<byte>, buf: seq<byte>, pos: nat)
    returns (front: seq<(Val, Val)>, a: seq<byte>, b: seq<byte>)
    requires es != [] && PairsFit(key, value, es) && Increasing(es) && bs == EncodePairs(key, value, es) && Has(buf, pos, bs)
    ensures front == es[..|es| - 1] && PairsFit(key, value, front) && Increasing(front)
    ensures a == EncodePairs(key, value, front) && Has(buf, pos, a)
    ensures PairFits(key, value, es[|es| - 1]) && b == EncodePair(key, value, es[|es| - 1]) && Has(buf, pos + |a|, b)
    ensures |bs| == |a| + |b|
  {
    front := es[..|es| - 1];
    forall i | 0 < i < |front| ensures LessAt(front, i) {
      assert LessAt(es, i);
    }
    a, b := EncodePairs(key, value, front), EncodePair(key, value, es[|es| - 1]);
    HasBoth(buf, pos, a, b);
  }

  lemma {:induction false} ReadBackPairs(key: Type, value: Type, es: seq<(Val, Val)>, bs: seq<byte>, buf: seq<byte>, pos: nat)
    requires PairsFit(key, value, es) && Increasing(es) && bs == EncodePairs(key, value, es) && Has(buf, pos, bs)
    requires forall i {:trigger PairReads(key, value, es[i])} | 0 <= i < |es| :: PairReads(key, value, es[i])
    ensures ReadPairs(key, value, buf, At(pos, true), |es|) == (es, At(pos + |bs|, true))
    decreases |es|
  {
    if es != [] {
      var front, a, b := PairsFront(key, value, es, bs, buf, pos);
      ReadBackPairs(key, value, front, a, buf, pos);
      ReadBackLast(key, value, es, b, buf, At(pos, true), pos + |a|);
    }
  }

  lemma {:induction false} ReadBackPair(key: Type, value: Type, e: (Val, Val), buf: seq<byte>, pos: nat)
    requires PairFits(key, value, e) && Has(buf, pos, EncodePair(key, value, e))
    ensures PairReadAt(key, value, e, buf, pos)
    decreases e, 1
  {
    HasBoth(buf, pos, Encode(key, e.0), Encode(value, e.1));
    ReadBack(key, e.0, buf, pos);
    ReadBack(value, e.1, buf, pos + |Encode(key, e.0)|);
  }

  // ---- Cut off messages are refused ---------------------------------------------------------------------------------

  /** Once the bytes have run out, they have run out. */
  lemma {:induction false} UnsignedStaysBad(buf: seq<byte>, at: At, w: nat)
    ensures ReadUnsigned(buf, at, w).1.ok ==> at.ok
  {
    if w > 0 {
      UnsignedStaysBad(buf, at, w - 1);
    }
  }

  lemma {:induction false} StaysBad(t: Type, buf: seq<byte>, at: At)
    ensures Read(t, buf, at).1.ok ==> at.ok
    decreases t, 0
  {
    match t
    case Bool =>
    case Num(w, _) => UnsignedStaysBad(buf, at, w);
    case Str => UnsignedStaysBad(buf, at, 4);
    case Vec(elem) =>
      UnsignedStaysBad(buf, at, 4);
      var (n, mid) := ReadUnsigned(buf, at, 4);
      AllStaysBad(elem, buf, mid, n);
    case Dict(key, value) =>
      UnsignedStaysBad(buf, at, 4);
      var (n, mid) := ReadUnsigned(buf, at, 4);
      PairsStaysBad(key, value, buf, mid, n);
  }

  lemma {:induction false} AllStaysBad(t: Type, buf: seq<byte>, at: At, n: nat)
    ensures ReadAll(t, buf, at, n).1.ok ==> at.ok
    decreases t, 1, n
  {
    if n > 0 {
      AllStaysBad(t, buf, at, n - 1);
      StaysBad(t, buf, ReadAll(t, buf, at, n - 1).1);
    }
  }

  lemma {:induction false} PairsStaysBad(key: Type, value: Type, buf: seq<byte>, at: At, n: nat)
    ensures ReadPairs(key, value, buf, at, n).1.ok ==> at.ok
    decreases Dict(key, value), 0, n
  {
    if n > 0 {
      PairsStaysBad(key, value, buf, at, n - 1);
      var mid := ReadPairs(key, value, buf, at, n - 1).1;
      StaysBad(key, buf, mid);
      StaysBad(value, buf, Read(key, buf, mid).1);
    }
  }

  /** What is read from the front of a buffer without running out is what the whole buffer gives. */
  lemma {:induction false} UnsignedOfFront(buf: seq<byte>, k: nat, at: At, w: nat)
    requires k <= |buf| && ReadUnsigned(buf[..k], at, w).1.ok
    ensures ReadUnsigned(buf, at, w) == ReadUnsigned(buf[..k], at, w)
  {
    if w > 0 {
      UnsignedOfFront(buf, k, at, w - 1);
    }
  }

  lemma BytesOfFront(buf: seq<byte>, k: nat, at: At, n: nat)
    requires k <= |buf|
    ensures ReadBytes(buf[..k], at, n).1.ok ==> ReadBytes(buf, at, n) == ReadBytes(buf[..k], at, n)
  {
    if at.pos + n <= k {
      PartIsSlice(buf, at.pos, n);
      PartIsSlice(buf[..k], at.pos, n);
      assert buf[..k][at.pos..at.pos + n] == buf[at.pos..at.pos + n];
    }
  }

  lemma {:induction false} ReadOfFront(t: Type, buf: seq<byte>, k: nat, at: At)
    requires k <= |buf| && Read(t, buf[..k], at).1.ok
    ensures Read(t, buf, at) == Read(t, buf[..k], at)
    decreases t, 0
  {
    match t
    case Bool =>
    case Num(w, _) => UnsignedOfFront(buf, k, at, w);
    case Str =>
      UnsignedOfFront(buf, k, at, 4);
      var (n, mid) := ReadUnsigned(buf, at, 4);
      BytesOfFront(buf, k, mid, n);
    case Vec(elem) =>
      var (n, mid) := ReadUnsigned(buf[..k], at, 4);
      AllStaysBad(elem, buf[..k], mid, n);
      UnsignedOfFront(buf, k, at, 4);
      AllOfFront(elem, buf, k, mid, n);
    case Dict(key, value) =>
      var (n, mid) := ReadUnsigned(buf[..k], at, 4);
      PairsStaysBad(key, value, buf[..k], mid, n);
      UnsignedOfFront(buf, k, at, 4);
      PairsOfFront(key, value, buf, k, mid, n);
  }

  lemma {:induction false} AllOfFront(t: Type, buf: seq<byte>, k: nat, at: At, n: nat)
    requires k <= |buf| && ReadAll(t, buf[..k], at, n).1.ok
    ensures ReadAll(t, buf, at, n) == ReadAll(t, buf[..k], at, n)
    decreases t, 1, n
  {
    if n > 0 {
      var mid := ReadAll(t, buf[..k], at, n - 1).1;
      StaysBad(t, buf[..k], mid);
      AllOfFront(t, buf, k, at, n - 1);
      ReadOfFront(t, buf, k, mid);
    }
  }

  lemma {:induction false} PairsOfFront(key: Type, value: Type, buf: seq<byte>, k: nat, at: At, n: nat)
    requires k <= |buf| && ReadPairs(key, value, buf[..k], at, n).1.ok
    ensures ReadPairs(key, value, buf, at, n) == ReadPairs(key, value, buf[..k], at, n)
    decreases Dict(key, value), 0, n
  {
    if n > 0 {
      var mid := ReadPairs(key, value, buf[..k], at, n - 1).1;
      var next := Read(key, buf[..k], mid).1;
      StaysBad(value, buf[..k], next);
      StaysBad(key, buf[..k], mid);
      PairsOfFront(key, value, buf, k, at, n - 1);
      ReadOfFront(key, buf, k, mid);
      ReadOfFront(value, buf, k, next);
    }
  }

  // ---- Messages -----------------------------------------------------------------------------------------------------

  const REQ_HEADER_SZ: nat := 20
  const REPLY_HEADER_SZ: nat := 8
  /** The size of the message, four bytes, is filled in by the channel. */
  const SZ: nat := 4
  const RPC_HEADER_SZ: nat := (if REQ_HEADER_SZ > REPLY_HEADER_SZ then REQ_HEADER_SZ else REPLY_HEADER_SZ) + SZ

  datatype Arg = Arg(t: Type, v: Val)

  predicate ArgsFit(args: seq<Arg>) {
    forall i | 0 <= i < |args| :: Fits(args[i].t, args[i].v)
  }

  function EncodeArgs(args: seq<Arg>): seq<byte>
    requires ArgsFit(args)
  {
    if args == [] then []
    else
      var a := args[|args| - 1];
      EncodeArgs(args[..|args| - 1]) + Encode(a.t, a.v)
  }

  function Types(args: seq<Arg>): seq<Type> {
    seq(|args|, i requires 0 <= i < |args| => args[i].t)
  }

  function ReadArgs(ts: seq<Type>, buf: seq<byte>, at: At): (seq<Arg>, At) {
    if ts == [] then ([], at)
    else
      var (args, mid) := ReadArgs(ts[..|ts| - 1], buf, at);
      var (v, end) := Read(ts[|ts| - 1], buf, mid);
      (args + [Arg(ts[|ts| - 1], v)], end)
  }

  predicate OkDone(buf: seq<byte>, at: At) {
    at.ok && at.pos == |buf|
  }

  /** The front of the arguments, and where its bytes end. */
  lemma ArgsFront(args: seq<Arg>, bs: seq<byte>, buf: seq<byte>, pos: nat)
    returns (front: seq<Arg>, a: seq<byte>, b: seq<byte>)
    requires args != [] && ArgsFit(args) && bs == EncodeArgs(args) && Has(buf, pos, bs)
    ensures front == args[..|args| - 1] && ArgsFit(front) && a == EncodeArgs(front) && Has(buf, pos, a)
    ensures var last := args[|args| - 1];
            Fits(last.t, last.v) && b == Encode(last.t, last.v) && Has(buf, pos + |a|, b)
    ensures |bs| == |a| + |b|
  {
    front := args[..|args| - 1];
    a, b := EncodeArgs(front), Encode(args[|args| - 1].t, args[|args| - 1].v);
    HasBoth(buf, pos, a, b);
  }

  lemma ArgsJoin(args: seq<Arg>, buf: seq<byte>, at: At, mid: At, end: At)
    requires args != [] && ReadArgs(Types(args[..|args| - 1]), buf, at) == (args[..|args| - 1], mid)
    requires Read(args[|args| - 1].t, buf, mid) == (args[|args| - 1].v, end)
    ensures ReadArgs(Types(args), buf, at) == (args, end)
  {
    assert Types(args)[..|args| - 1] == Types(args[..|args| - 1]);
    assert args == args[..|args| - 1] + [args[|args| - 1]];
  }

  lemma LastReadBack(args: seq<Arg>, b: seq<byte>, buf: seq<byte>, at: At, mid: nat)
    requires args != [] && ReadArgs(Types(args[..|args| - 1]), buf, at) == (args[..|args| - 1], At(mid, true))
    requires var last := args[|args| - 1]; Fits(last.t, last.v) && b == Encode(last.t, last.v) && Has(buf, mid, b)
    ensures ReadArgs(Types(args), buf, at) == (args, At(mid + |b|, true))
  {
    ReadBack(args[|args| - 1].t, args[|args| - 1].v, buf, mid);
    ArgsJoin(args, buf, at, At(mid, true), At(mid + |b|, true));
  }

  lemma {:induction false} ArgsReadBack(args: seq<Arg>, bs: seq<byte>, buf: seq<byte>, pos: nat)
    requires ArgsFit(args) && bs == EncodeArgs(args) && Has(buf, pos, bs)
    ensures ReadArgs(Types(args), buf, At(pos, true)) == (args, At(pos + |bs|, true))
    decreases |args|
  {
    if args != [] {
      var front, a, b := ArgsFront(args, bs, buf, pos);
      ArgsReadBack(front, a, buf, pos);
      LastReadBack(args, b, buf, At(pos, true), pos + |a|);
    }
  }

  lemma {:induction false} ArgsOfFront(ts: seq<Type>, buf: seq<byte>, k: nat, at: At)
    requires k <= |buf| && ReadArgs(ts, buf[..k], at).1.ok
    ensures ReadArgs(ts, buf, at) == ReadArgs(ts, buf[..k], at)
  {
    if ts != [] {
      var mid := ReadArgs(ts[..|ts| - 1], buf[..k], at).1;
      StaysBad(ts[|ts| - 1], buf[..k], mid);
      ArgsOfFront(ts[..|ts| - 1], buf, k, at);
      ReadOfFront(ts[|ts| - 1], buf, k, mid);
    }
  }

  /**
   A message is read back as it was written; a message cut off anywhere is not ok, and one with more
   bytes behind it is not done.
   */
  lemma MessageRoundTrip(args: seq<Arg>, header: seq<byte>, more: seq<byte>, k: nat)
    requires ArgsFit(args) && |header| == RPC_HEADER_SZ && RPC_HEADER_SZ <= k
    requires k <= RPC_HEADER_SZ + |EncodeArgs(args)| + |more|
    ensures var buf := (header + EncodeArgs(args) + more)[..k];
            var (read, end) := ReadArgs(Types(args), buf, At(RPC_HEADER_SZ, true));
            && (k >= RPC_HEADER_SZ + |EncodeArgs(args)| ==> read == args && end.ok)
            && (OkDone(buf, end) <==> k == RPC_HEADER_SZ + |EncodeArgs(args)|)
  {
    var bs := EncodeArgs(args);
    var whole := header + bs + more;
    var buf := whole[..k];
    assert Has(whole, RPC_HEADER_SZ, bs);
    ArgsReadBack(args, bs, whole, RPC_HEADER_SZ);
    if k >= RPC_HEADER_SZ + |bs| {
      assert Has(buf, RPC_HEADER_SZ, bs);
      ArgsReadBack(args, bs, buf, RPC_HEADER_SZ);
    } else {
      var end := ReadArgs(Types(args), buf, At(RPC_HEADER_SZ, true)).1;
      if end.ok {
        ArgsOfFront(Types(args), whole, k, At(RPC_HEADER_SZ, true));
      }
    }
  }

  // ---- Headers ---------------------------------------------------------------------------------------------------------

  datatype ReqHeader = ReqHeader(xid: int, proc: int, cltNonce: nat, srvNonce: nat, xidRep: int)

  datatype ReplyHeader = ReplyHeader(xid: int, ret: int)

  predicate ReqFits(h: ReqHeader) {
    NumFits(h.xid, 4, true) && NumFits(h.proc, 4, true) && NumFits(h.xidRep, 4, true)
    && NumFits(h.cltNonce, 4, false) && NumFits(h.srvNonce, 4, false)
  }

  predicate ReplyFits(h: ReplyHeader) {
    NumFits(h.xid, 4, true) && NumFits(h.ret, 4, true)
  }

  function IntBytes(n: int): (bs: seq<byte>)
    requires NumFits(n, 4, true)
    ensures |bs| == 4
  {
    BigEndian(ToBits(n, 4, true), 4)
  }

  function ReqBytes(h: ReqHeader): (bs: seq<byte>)
    requires ReqFits(h)
    ensures |bs| == REQ_HEADER_SZ
  {
    IntBytes(h.xid) + IntBytes(h.proc) + Size(h.cltNonce) + Size(h.srvNonce) + IntBytes(h.xidRep)
  }

  function ReplyBytes(h: ReplyHeader): (bs: seq<byte>)
    requires ReplyFits(h)
    ensures |bs| == REPLY_HEADER_SZ
  {
    IntBytes(h.xid) + IntBytes(h.ret)
  }

  /** What a number at some position is read as. */
  function IntAt(buf: seq<byte>, at: At): (int, At) {
    var (m, end) := ReadUnsigned(buf, at, 4);
    (FromBits(m, 4, true), end)
  }

  function ReadReqHeader(buf: seq<byte>, ok: bool): (ReqHeader, At) {
    var (xid, a) := IntAt(buf, At(SZ, ok));
    var (proc, b) := IntAt(buf, a);
    var (clt, c) := ReadUnsigned(buf, b, 4);
    var (srv, d) := ReadUnsigned(buf, c, 4);
    var (rep, e) := IntAt(buf, d);
    (ReqHeader(xid, proc, clt, srv, rep), At(RPC_HEADER_SZ, e.ok))
  }

  function ReadReplyHeader(buf: seq<byte>, ok: bool): (ReplyHeader, At) {
    var (xid, a) := IntAt(buf, At(SZ, ok));
    var (ret, b) := IntAt(buf, a);
    (ReplyHeader(xid, ret), At(RPC_HEADER_SZ, b.ok))
  }

  lemma IntReadBack(buf: seq<byte>, pos: nat, n: int)
    requires NumFits(n, 4, true) && Has(buf, pos, IntBytes(n))
    ensures IntAt(buf, At(pos, true)) == (n, At(pos + 4, true))
  {
    UnsignedReadBack(buf, pos, ToBits(n, 4, true), 4);
  }

  /** The header comes back, and reading goes on right behind it. */
  lemma ReqHeaderRoundTrip(h: ReqHeader, buf: seq<byte>)
    requires ReqFits(h) && Has(buf, SZ, ReqBytes(h))
    ensures ReadReqHeader(buf, true) == (h, At(RPC_HEADER_SZ, true))
  {
    var a, b, c, d, e := IntBytes(h.xid), IntBytes(h.proc), Size(h.cltNonce), Size(h.srvNonce), IntBytes(h.xidRep);
    HasBoth(buf, SZ, a + b + c + d, e);
    HasBoth(buf, SZ, a + b + c, d);
    HasBoth(buf, SZ, a + b, c);
    HasBoth(buf, SZ, a, b);
    IntReadBack(buf, SZ, h.xid);
    IntReadBack(buf, SZ + 4, h.proc);
    UnsignedReadBack(buf, SZ + 8, h.cltNonce, 4);
    UnsignedReadBack(buf, SZ + 12, h.srvNonce, 4);
    IntReadBack(buf, SZ + 16, h.xidRep);
  }

  lemma ReplyHeaderRoundTrip(h: ReplyHeader, buf: seq<byte>)
    requires ReplyFits(h) && Has(buf, SZ, ReplyBytes(h))
    ensures ReadReplyHeader(buf, true) == (h, At(RPC_HEADER_SZ, true))
  {
    HasBoth(buf, SZ, IntBytes(h.xid), IntBytes(h.ret));
    IntReadBack(buf, SZ, h.xid);
    IntReadBack(buf, SZ + 4, h.ret);
  }
}
