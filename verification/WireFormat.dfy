/** Where every byte of a message stands, and what it is: the format by its positions, without the writer. */
module WireFormat {
  import opened Marshalling

  /** Byte i of a number of w bytes: division rounds down, so a negative number is in two's complement. */
  predicate ByteAt(buf: seq<byte>, pos: nat, n: int, w: nat, i: nat)
    requires pos + w <= |buf| && i < w
  {
    buf[pos + i] == n / Pow256(w - 1 - i) % 256
  }

  /** The bytes of a number, the high one first. */
  predicate NumberAt(buf: seq<byte>, pos: nat, n: int, w: nat) {
    pos + w <= |buf| && forall i {:trigger ByteAt(buf, pos, n, w, i)} | 0 <= i < w :: ByteAt(buf, pos, n, w, i)
  }

  // ---- Arithmetic ---------------------------------------------------------------------------------------------

  lemma Regroup(q: int, b: nat, y: nat, a: nat)
    ensures (q * b + y) * a == q * (a * b) + y * a
  {
    assert (q * b) * a == q * (b * a);
  }

  lemma Remainder(y: nat, b: nat, x: nat, a: nat)
    requires y < b && x < a
    ensures 0 <= y * a + x < a * b
  {
    assert y * a <= (b - 1) * a;
  }

  lemma DivDiv(n: int, a: nat, b: nat)
    requires a > 0 && b > 0
    ensures a * b > 0 && n / a / b == n / (a * b)
  {
    var m, x := n / a, n % a;
    var q, y := m / b, m % b;
    Regroup(q, b, y, a);
    Remainder(y, b, x, a);
    Quotient(n, a * b, q, y * a + x);
  }

  lemma Quotient(n: int, d: int, q: int, r: int)
    requires 0 <= r < d && n == q * d + r
    ensures n / d == q
  {
    var q', r' := n / d, n % d;
    assert n == q' * d + r' && 0 <= r' < d;
    assert q' <= q - 1 ==> q' * d <= (q - 1) * d;
    assert q' >= q + 1 ==> q' * d >= (q + 1) * d;
  }

  lemma AddMultiple(n: int, d: nat, k: int)
    requires d > 0
    ensures (n + k * d) / d == n / d + k && (n + k * d) % d == n % d
  {
    assert n + k * d == (n / d + k) * d + n % d;
    Quotient(n + k * d, d, n / d + k, n % d);
  }

  lemma {:induction false} PowSplit(a: nat, b: nat)
    ensures Pow256(a + b) == Pow256(a) * Pow256(b)
  {
    if a > 0 {
      PowSplit(a - 1, b);
      assert 256 * (Pow256(a - 1) * Pow256(b)) == (256 * Pow256(a - 1)) * Pow256(b);
    }
  }

  // ---- Numbers -------------------------------------------------------------------------------------------------

  lemma {:induction false} ByteOf(n: nat, w: nat, i: nat)
    requires i < w
    ensures BigEndian(n, w)[i] == n / Pow256(w - 1 - i) % 256
    decreases w
  {
    if i < w - 1 {
      ByteOf(n / 256, w - 1, i);
      DivDiv(n, 256, Pow256(w - 2 - i));
    } else {
      assert Pow256(0) == 1;
    }
  }

  /** Taking a negative number as an unsigned one changes none of its bytes. */
  lemma SameBytes(n: int, w: nat, i: nat)
    requires i < w
    ensures (n + Pow256(w)) / Pow256(w - 1 - i) % 256 == n / Pow256(w - 1 - i) % 256
  {
    var d, k := Pow256(w - 1 - i), Pow256(i);
    PowSplit(w - 1 - i, i + 1);
    assert Pow256(w) == (256 * k) * d;
    AddMultiple(n, d, 256 * k);
    AddMultiple(n / d, 256, k);
  }

  lemma NumberIsAt(n: int, w: nat, signed: bool, buf: seq<byte>, pos: nat)
    requires NumFits(n, w, signed) && Has(buf, pos, BigEndian(ToBits(n, w, signed), w))
    ensures NumberAt(buf, pos, n, w)
  {
    var m := ToBits(n, w, signed);
    forall i | 0 <= i < w ensures ByteAt(buf, pos, n, w, i) {
      assert buf[pos + i] == BigEndian(m, w)[i];
      ByteOf(m, w, i);
      if n < 0 {
        SameBytes(n, w, i);
      }
    }
  }

  /** A number of w bytes, as such and in a buffer: byte i is the number shifted right by the bytes behind it. */
  lemma NumberLayout(n: int, w: nat, signed: bool)
    requires Fits(Num(w, signed), VNum(n))
    ensures |Encode(Num(w, signed), VNum(n))| == w && NumberAt(Encode(Num(w, signed), VNum(n)), 0, n, w)
  {
    NumberIsAt(n, w, signed, Encode(Num(w, signed), VNum(n)), 0);
  }

  lemma SizeIsAt(n: nat, rest: seq<byte>)
    requires n < UINT_LIMIT
    ensures NumberAt(Size(n) + rest, 0, n, 4)
  {
    UintFits(n);
    HasBoth(Size(n) + rest, 0, Size(n), rest);
    NumberIsAt(n, 4, false, Size(n) + rest, 0);
  }

  // ---- Strings, vectors and maps -------------------------------------------------------------------------------

  /** A string is its length in four bytes and its bytes; a truth value is one byte. */
  lemma StringLayout(s: seq<byte>, b: bool)
    requires |s| < UINT_LIMIT
    ensures var bs := Encode(Str, VStr(s)); |bs| == 4 + |s| && NumberAt(bs, 0, |s|, 4) && bs[4..] == s
    ensures Encode(Bool, VBool(b)) == [if b then 1 else 0]
  {
    SizeIsAt(|s|, s);
    assert (Size(|s|) + s)[4..] == s;
  }

  lemma {:induction false} ElementAt(t: Type, vs: seq<Val>, i: nat)
    requires AllFit(t, vs) && i < |vs|
    ensures AllFit(t, vs[..i]) && Fits(t, vs[i])
    ensures Has(EncodeAll(t, vs), |EncodeAll(t, vs[..i])|, Encode(t, vs[i]))
    decreases |vs|
  {
    var front := vs[..|vs| - 1];
    if i < |vs| - 1 {
      ElementAt(t, front, i);
      assert front[..i] == vs[..i] && front[i] == vs[i];
    }
  }

  /** A vector is its size in four bytes and its elements, in order, without anything between them. */
  lemma VectorLayout(t: Type, vs: seq<Val>, i: nat)
    requires Fits(Vec(t), VVec(vs)) && i < |vs|
    ensures AllFit(t, vs[..i]) && Fits(t, vs[i])
    ensures var bs := Encode(Vec(t), VVec(vs));
            && |bs| == 4 + |EncodeAll(t, vs)|
            && NumberAt(bs, 0, |vs|, 4)
            && Has(bs, 4 + |EncodeAll(t, vs[..i])|, Encode(t, vs[i]))
  {
    SizeIsAt(|vs|, EncodeAll(t, vs));
    ElementAt(t, vs, i);
    Behind(Size(|vs|), EncodeAll(t, vs), |EncodeAll(t, vs[..i])|, Encode(t, vs[i]));
  }

  lemma Behind(front: seq<byte>, buf: seq<byte>, pos: nat, bs: seq<byte>)
    requires Has(buf, pos, bs)
    ensures Has(front + buf, |front| + pos, bs)
  {
    forall i | 0 <= i < |bs| ensures (front + buf)[|front| + pos + i] == bs[i] {
      assert (front + buf)[|front| + (pos + i)] == buf[pos + i];
    }
  }

  lemma {:induction false} EntryAt(key: Type, value: Type, es: seq<(Val, Val)>, i: nat)
    requires PairsFit(key, value, es) && i < |es|
    ensures PairsFit(key, value, es[..i]) && PairFits(key, value, es[i])
    ensures Has(EncodePairs(key, value, es), |EncodePairs(key, value, es[..i])|, EncodePair(key, value, es[i]))
    decreases |es|
  {
    var front := es[..|es| - 1];
    if i < |es| - 1 {
      EntryAt(key, value, front, i);
      assert front[..i] == es[..i] && front[i] == es[i];
    }
  }

  lemma MapBytes(key: Type, value: Type, es: seq<(Val, Val)>, i: nat)
    requires Fits(Dict(key, value), VDict(es)) && i < |es|
    ensures PairsFit(key, value, es[..i]) && PairFits(key, value, es[i])
    ensures var bs := Encode(Dict(key, value), VDict(es));
            && |bs| == 4 + |EncodePairs(key, value, es)|
            && NumberAt(bs, 0, |es|, 4)
            && Has(bs, 4 + |EncodePairs(key, value, es[..i])|, EncodePair(key, value, es[i]))
  {
    SizeIsAt(|es|, EncodePairs(key, value, es));
    EntryAt(key, value, es, i);
    Behind(Size(|es|), EncodePairs(key, value, es), |EncodePairs(key, value, es[..i])|, EncodePair(key, value, es[i]));
  }

  lemma KeyFirst(key: Type, value: Type, e: (Val, Val), bs: seq<byte>, pos: nat)
    requires PairFits(key, value, e) && Has(bs, pos, EncodePair(key, value, e))
    ensures Has(bs, pos, Encode(key, e.0)) && Has(bs, pos + |Encode(key, e.0)|, Encode(value, e.1))
  {
    HasBoth(bs, pos, Encode(key, e.0), Encode(value, e.1));
  }

  /** A map is its size in four bytes and its entries in the order of their keys, each key before its value. */
  lemma MapLayout(key: Type, value: Type, es: seq<(Val, Val)>, i: nat)
    requires Fits(Dict(key, value), VDict(es)) && i < |es|
    ensures PairsFit(key, value, es[..i]) && PairFits(key, value, es[i])
    ensures var bs, pos := Encode(Dict(key, value), VDict(es)), 4 + |EncodePairs(key, value, es[..i])|;
            && |bs| == 4 + |EncodePairs(key, value, es)|
            && NumberAt(bs, 0, |es|, 4)
            && Has(bs, pos, Encode(key, es[i].0))
            && Has(bs, pos + |Encode(key, es[i].0)|, Encode(value, es[i].1))
    ensures i > 0 ==> Less(es[i - 1].0, es[i].0)
  {
    MapBytes(key, value, es, i);
    KeyFirst(key, value, es[i], Encode(Dict(key, value), VDict(es)), 4 + |EncodePairs(key, value, es[..i])|);
    assert i > 0 ==> LessAt(es, i);
  }

  // ---- Headers ---------------------------------------------------------------------------------------------------

  lemma IntIsAt(n: int, buf: seq<byte>, pos: nat)
    requires NumFits(n, 4, true) && Has(buf, pos, IntBytes(n))
    ensures NumberAt(buf, pos, n, 4)
  {
    NumberIsAt(n, 4, true, buf, pos);
  }

  /** Behind the four bytes for the size: xid, procedure, the two nonces, and the stamp. */
  lemma RequestLayout(h: ReqHeader, buf: seq<byte>)
    requires ReqFits(h) && Has(buf, SZ, ReqBytes(h))
    ensures NumberAt(buf, 4, h.xid, 4) && NumberAt(buf, 8, h.proc, 4) && NumberAt(buf, 12, h.cltNonce, 4)
    ensures NumberAt(buf, 16, h.srvNonce, 4) && NumberAt(buf, 20, h.xidRep, 4)
  {
    var a, b, c, d, e := IntBytes(h.xid), IntBytes(h.proc), Size(h.cltNonce), Size(h.srvNonce), IntBytes(h.xidRep);
    HasBoth(buf, SZ, a + b + c + d, e);
    HasBoth(buf, SZ, a + b + c, d);
    HasBoth(buf, SZ, a + b, c);
    HasBoth(buf, SZ, a, b);
    IntIsAt(h.xid, buf, 4);
    IntIsAt(h.proc, buf, 8);
    NumberIsAt(h.cltNonce, 4, false, buf, 12);
    NumberIsAt(h.srvNonce, 4, false, buf, 16);
    IntIsAt(h.xidRep, buf, 20);
  }

  lemma ReplyLayout(h: ReplyHeader, buf: seq<byte>)
    requires ReplyFits(h) && Has(buf, SZ, ReplyBytes(h))
    ensures NumberAt(buf, 4, h.xid, 4) && NumberAt(buf, 8, h.ret, 4)
  {
    HasBoth(buf, SZ, IntBytes(h.xid), IntBytes(h.ret));
    IntIsAt(h.xid, buf, 4);
    IntIsAt(h.ret, buf, 8);
  }
}
