/** The buffers that marshalling writes into, growing as it goes, and that unmarshalling reads from. */
module MarshallBuffers {
  import opened Marshalling

  const DEFAULT_RPC_SZ: nat := 1024

  class Marshall {
    var buf: array<byte>
    var capa: nat
    var ind: nat

    constructor ()
      ensures Valid() && fresh(buf) && Content() == []
    {
      buf := new byte[DEFAULT_RPC_SZ];
      capa := DEFAULT_RPC_SZ;
      ind := RPC_HEADER_SZ;
    }

    /** The buffer is as large as it is said to be, and there is always room up to the position. */
    predicate Room()
      reads this
    {
      buf.Length == capa && capa >= DEFAULT_RPC_SZ && ind <= capa
    }

    predicate Valid()
      reads this
    {
      Room() && RPC_HEADER_SZ <= ind
    }

    /** What has been written behind the header. */
    function Content(): seq<byte>
      requires Valid()
      reads this, buf
    {
      buf[RPC_HEADER_SZ..ind]
    }

    /** Move to a larger buffer, keeping everything. */
    method Grow(size: nat)
      requires Room() && size >= capa
      modifies this`buf, this`capa
      ensures Room() && capa == size && fresh(buf) && buf[..old(capa)] == old(buf[..])
    {
      var larger := new byte[size];
      var i := 0;
      while i < capa
        invariant capa == old(capa) && buf == old(buf) && i <= capa && larger[..i] == buf[..i]
      {
        larger[i] := buf[i];
        i := i + 1;
      }
      buf, capa := larger, size;
    }

    /** Write one byte; what lies behind it stays. */
    method RawByte(x: byte)
      requires Room()
      modifies this, buf
      ensures Room() && ind == old(ind) + 1 && (buf == old(buf) || fresh(buf))
      ensures buf[..ind] == old(buf[..ind]) + [x]
      ensures capa >= old(capa) && (old(ind) < old(capa) ==> buf[ind..old(capa)] == old(buf[ind + 1..]))
    {
      if ind >= capa {
        Grow(2 * capa);
      }
      buf[ind] := x;
      ind := ind + 1;
    }

    method RawBytes(p: seq<byte>)
      requires Room()
      modifies this, buf
      ensures Room() && ind == old(ind) + |p| && (buf == old(buf) || fresh(buf))
      ensures buf[..ind] == old(buf[..ind]) + p
    {
      var n := |p|;
      if ind + n > capa {
        Grow(if capa > n then 2 * capa else capa + n);
      }
      ghost var before := buf[..ind];
      var i := 0;
      while i < n
        invariant Room() && ind == old(ind) && ind + n <= capa && (buf == old(buf) || fresh(buf))
        invariant i <= n && buf[..ind + i] == before + p[..i]
      {
        buf[ind + i] := p[i];
        i := i + 1;
      }
      ind := ind + n;
      assert p[..i] == p;
    }

    /** A number of w bytes, the high one first. */
    method PutUnsigned(m: nat, w: nat)
      requires Room()
      modifies this, buf
      ensures Room() && ind == old(ind) + w && (buf == old(buf) || fresh(buf))
      ensures buf[..ind] == old(buf[..ind]) + BigEndian(m, w)
      ensures capa >= old(capa) && (old(ind) + w <= old(capa) ==> buf[ind..old(capa)] == old(buf[ind + w..]))
    {
      ghost var before := buf[..];
      if w > 0 {
        PutUnsigned(m / 256, w - 1);
        ghost var between, capa1 := buf[..], capa;
        RawByte(m % 256);
        if old(ind) + w <= old(capa) {
          Tail(before, between, buf[..], ind - 1, ind, capa1);
        }
      } else {
        assert buf[ind..old(capa)] == before[ind..];
      }
    }

    // ---- Values, as the overloaded operators write them -------------------------------------------------------

    method Put(t: Type, v: Val)
      requires Valid() && Fits(t, v)
      modifies this, buf
      ensures Valid() && (buf == old(buf) || fresh(buf))
      ensures Content() == old(Content()) + Encode(t, v)
      decreases v, 0
    {
      match (t, v)
      case (Bool, VBool(b)) => PutByte(if b then 1 else 0);
      case (Num(w, signed), VNum(n)) => PutNumber(ToBits(n, w, signed), w);
      case (Str, VStr(s)) => PutString(s);
      case (Vec(elem), VVec(vs)) => PutVector(elem, vs);
      case (Dict(key, value), VDict(es)) => PutMap(key, value, es);
    }

    method PutString(s: seq<byte>)
      requires Valid()
      modifies this, buf
      ensures Valid() && (buf == old(buf) || fresh(buf)) && Content() == old(Content()) + (Size(|s|) + s)
    {
      PutNumber(|s|, 4);
      PutRaw(s);
    }

    method PutVector(elem: Type, vs: seq<Val>)
      requires Valid() && AllFit(elem, vs)
      modifies this, buf
      ensures Valid() && (buf == old(buf) || fresh(buf))
      ensures Content() == old(Content()) + (Size(|vs|) + EncodeAll(elem, vs))
      decreases vs, 2
    {
      ghost var before := Content();
      PutNumber(|vs|, 4);
      PutAll(elem, vs);
      Behind(before, Size(|vs|), EncodeAll(elem, vs));
    }

    method PutMap(key: Type, value: Type, es: seq<(Val, Val)>)
      requires Valid() && PairsFit(key, value, es)
      modifies this, buf
      ensures Valid() && (buf == old(buf) || fresh(buf))
      ensures Content() == old(Content()) + (Size(|es|) + EncodePairs(key, value, es))
      decreases es, 2
    {
      ghost var before := Content();
      PutNumber(|es|, 4);
      PutPairs(key, value, es);
      Behind(before, Size(|es|), EncodePairs(key, value, es));
    }

    method PutByte(b: byte)
      requires Valid()
      modifies this, buf
      ensures Valid() && (buf == old(buf) || fresh(buf)) && Content() == old(Content()) + [b]
    {
      ghost var before := buf[..ind];
      RawByte(b);
      assert buf[..ind] == before + [b];
    }

    method PutNumber(m: nat, w: nat)
      requires Valid()
      modifies this, buf
      ensures Valid() && (buf == old(buf) || fresh(buf)) && Content() == old(Content()) + BigEndian(m, w)
    {
      ghost var before := buf[..ind];
      PutUnsigned(m, w);
      assert buf[..ind] == before + BigEndian(m, w);
    }

    method PutRaw(s: seq<byte>)
      requires Valid()
      modifies this, buf
      ensures Valid() && (buf == old(buf) || fresh(buf)) && Content() == old(Content()) + s
    {
      ghost var before := buf[..ind];
      RawBytes(s);
      assert buf[..ind] == before + s;
    }

    method PutAll(t: Type, vs: seq<Val>)
      requires Valid() && AllFit(t, vs)
      modifies this, buf
      ensures Valid() && (buf == old(buf) || fresh(buf))
      ensures Content() == old(Content()) + EncodeAll(t, vs)
      decreases vs, 1
    {
      ghost var before, bs := Content(), [];
      var i := 0;
      while i < |vs|
        invariant i <= |vs| && Valid() && (buf == old(buf) || fresh(buf))
        invariant AllFit(t, vs[..i]) && bs == EncodeAll(t, vs[..i]) && Content() == before + bs
      {
        EncodeAllStep(t, vs, i);
        Put(t, vs[i]);
        Behind(before, bs, Encode(t, vs[i]));
        bs := bs + Encode(t, vs[i]);
        i := i + 1;
      }
      assert vs[..i] == vs;
    }

    method PutPairs(key: Type, value: Type, es: seq<(Val, Val)>)
      requires Valid() && PairsFit(key, value, es)
      modifies this, buf
      ensures Valid() && (buf == old(buf) || fresh(buf))
      ensures Content() == old(Content()) + EncodePairs(key, value, es)
      decreases es, 1
    {
      ghost var before, bs := Content(), [];
      var i := 0;
      while i < |es|
        invariant i <= |es| && Valid() && (buf == old(buf) || fresh(buf))
        invariant PairsFit(key, value, es[..i]) && bs == EncodePairs(key, value, es[..i]) && Content() == before + bs
      {
        EncodePairsStep(key, value, es, i);
        PutPair(key, value, es[i]);
        Behind(before, bs, EncodePair(key, value, es[i]));
        bs := bs + EncodePair(key, value, es[i]);
        i := i + 1;
      }
      assert es[..i] == es;
    }

    method PutPair(key: Type, value: Type, e: (Val, Val))
      requires Valid() && PairFits(key, value, e)
      modifies this, buf
      ensures Valid() && (buf == old(buf) || fresh(buf))
      ensures Content() == old(Content()) + EncodePair(key, value, e)
      decreases e, 1
    {
      ghost var before, a, b := Content(), Encode(key, e.0), Encode(value, e.1);
      Put(key, e.0);
      Put(value, e.1);
      assert (before + a) + b == before + (a + b);
    }

    // ---- Headers ------------------------------------------------------------------------------------------------------

    /** Fill in the header; the body stays as it is. */
    method PackReqHeader(h: ReqHeader)
      requires Valid() && ReqFits(h)
      modifies this, buf
      ensures Valid() && (buf == old(buf) || fresh(buf))
      ensures Content() == old(Content()) && ind == old(ind)
      ensures buf[SZ..RPC_HEADER_SZ] == ReqBytes(h)
    {
      var saved := ind;
      ghost var before := buf[..];
      ind := SZ;
      PackReqFields(h, before, before[..SZ]);
      Filled(before, ReqBytes(h), buf[..], saved);
      ind := saved;
    }

    method PackReqFields(h: ReqHeader, ghost before: seq<byte>, ghost front: seq<byte>)
      requires ReqFits(h) && |before| >= DEFAULT_RPC_SZ && |front| == SZ && Over(before, front)
      modifies this, buf
      ensures Over(before, front + ReqBytes(h)) && (buf == old(buf) || fresh(buf))
    {
      ghost var header := IntBytes(h.xid);
      PackUnder(ToBits(h.xid, 4, true), before, front);
      header := PackNext(ToBits(h.proc, 4, true), before, front, header);
      header := PackNext(h.cltNonce, before, front, header);
      header := PackNext(h.srvNonce, before, front, header);
      header := PackNext(ToBits(h.xidRep, 4, true), before, front, header);
    }

    /** The header of a reply. */
    method PackReplyHeader(h: ReplyHeader)
      requires Valid() && ReplyFits(h)
      modifies this, buf
      ensures Valid() && (buf == old(buf) || fresh(buf))
      ensures Content() == old(Content()) && ind == old(ind)
      ensures buf[SZ..SZ + REPLY_HEADER_SZ] == ReplyBytes(h)
    {
      var saved := ind;
      ghost var before, header := buf[..], IntBytes(h.xid);
      ghost var front := before[..SZ];
      ind := SZ;
      PackUnder(ToBits(h.xid, 4, true), before, front);
      header := PackNext(ToBits(h.ret, 4, true), before, front, header);
      Filled(before, header, buf[..], saved);
      ind := saved;
    }

    /** What has been written so far lies over the old bytes, and nothing else has changed. */
    ghost predicate Over(before: seq<byte>, bs: seq<byte>)
      requires |bs| <= |before|
      reads this, buf
    {
      Room() && capa >= |before| && ind == |bs| && buf[..ind] == bs && buf[ind..|before|] == before[ind..]
    }

    method PackUnder(m: nat, ghost before: seq<byte>, ghost bs: seq<byte>)
      requires |before| >= DEFAULT_RPC_SZ && |bs| + 4 <= RPC_HEADER_SZ && Over(before, bs)
      modifies this, buf
      ensures Over(before, bs + BigEndian(m, 4)) && (buf == old(buf) || fresh(buf))
    {
      ghost var between, capa1 := buf[..], capa;
      PutUnsigned(m, 4);
      Tail(before, between, buf[..], |bs|, ind, capa1);
    }

    /** The next number of the header. */
    method PackNext(m: nat, ghost before: seq<byte>, ghost front: seq<byte>, ghost header: seq<byte>)
      returns (ghost longer: seq<byte>)
      requires |before| >= DEFAULT_RPC_SZ && |front| == SZ && |header| + 4 <= REQ_HEADER_SZ && Over(before, front + header)
      modifies this, buf
      ensures longer == header + BigEndian(m, 4)
      ensures Over(before, front + longer) && (buf == old(buf) || fresh(buf))
    {
      longer := header + BigEndian(m, 4);
      PackUnder(m, before, front + header);
      Behind(front, header, BigEndian(m, 4));
    }
  }

  class Unmarshall {
    const buf: array<byte>
    const sz: nat
    var ind: nat
    var good: bool

    constructor (buf: array<byte>, sz: nat)
      requires sz <= buf.Length
      ensures this.buf == buf && this.sz == sz && Valid() && Where() == At(0, true)
    {
      this.buf, this.sz := buf, sz;
      ind, good := 0, true;
    }

    predicate Valid()
      reads this
    {
      sz <= buf.Length
    }

    function Where(): At
      reads this
    {
      At(ind, good)
    }

    ghost function Bytes(): seq<byte>
      requires Valid()
      reads this, buf
    {
      buf[..sz]
    }

    /** No byte has been missed, and none is left. */
    method IsOkDone() returns (r: bool)
      requires Valid()
      ensures r == OkDone(Bytes(), Where())
    {
      r := good && ind == sz;
    }

    method RawByte() returns (c: byte)
      requires Valid()
      modifies this
      ensures (c, Where()) == ReadByte(Bytes(), old(Where()))
    {
      c := 0;
      if ind >= sz {
        good := false;
      } else {
        c := buf[ind];
        ind := ind + 1;
      }
    }

    method RawBytes(n: nat) returns (s: seq<byte>)
      requires Valid()
      modifies this
      ensures (s, Where()) == ReadBytes(Bytes(), old(Where()), n)
    {
      s := [];
      if ind + n > sz {
        good := false;
      } else {
        PartIsSlice(Bytes(), ind, n);
        s := buf[ind..ind + n];
        assert s == Bytes()[ind..ind + n];
        ind := ind + n;
      }
    }

    method GetUnsigned(w: nat) returns (m: nat)
      requires Valid()
      modifies this
      ensures (m, Where()) == ReadUnsigned(Bytes(), old(Where()), w)
    {
      m := 0;
      var i := 0;
      while i < w
        invariant i <= w && (m, Where()) == ReadUnsigned(Bytes(), old(Where()), i)
      {
        var low := RawByte();
        m := 256 * m + low;
        i := i + 1;
      }
    }

    /** Read a value of some type, as the overloaded operators do. */
    method Get(t: Type) returns (v: Val)
      requires Valid()
      modifies this
      ensures (v, Where()) == Read(t, Bytes(), old(Where()))
      decreases t, 1
    {
      match t
      case Bool =>
        var b := RawByte();
        v := VBool(b != 0);
      case Num(w, signed) =>
        var m := GetUnsigned(w);
        v := VNum(FromBits(m, w, signed));
      case Str =>
        var n := GetUnsigned(4);
        var s: seq<byte> := [];
        if good {
          s := RawBytes(n);
        }
        v := VStr(s);
      case Vec(elem) =>
        var n := GetUnsigned(4);
        var vs := GetAll(elem, n);
        v := VVec(vs);
      case Dict(key, value) =>
        var n := GetUnsigned(4);
        var es := GetPairs(key, value, n);
        v := VDict(es);
    }

    method GetAll(t: Type, n: nat) returns (vs: seq<Val>)
      requires Valid()
      modifies this
      ensures (vs, Where()) == ReadAll(t, Bytes(), old(Where()), n)
      decreases t, 2
    {
      vs := [];
      var i := 0;
      while i < n
        invariant i <= n && (vs, Where()) == ReadAll(t, Bytes(), old(Where()), i)
      {
        var z := Get(t);
        vs := vs + [z];
        i := i + 1;
      }
    }

    method GetPairs(key: Type, value: Type, n: nat) returns (es: seq<(Val, Val)>)
      requires Valid()
      modifies this
      ensures (es, Where()) == ReadPairs(key, value, Bytes(), old(Where()), n)
      decreases Dict(key, value), 0
    {
      es := [];
      var i := 0;
      while i < n
        invariant i <= n && (es, Where()) == ReadPairs(key, value, Bytes(), old(Where()), i)
      {
        var a := Get(key);
        var b := Get(value);
        es := Insert(es, a, b);
        i := i + 1;
      }
    }

    method Unpack() returns (x: int)
      requires Valid()
      modifies this
      ensures (x, Where()) == IntAt(Bytes(), old(Where()))
    {
      var m := GetUnsigned(4);
      x := FromBits(m, 4, true);
    }

    method UnpackReqHeader() returns (h: ReqHeader)
      requires Valid()
      modifies this
      ensures (h, Where()) == ReadReqHeader(Bytes(), old(good))
    {
      ind := SZ;
      var xid := Unpack();
      var proc := Unpack();
      var clt := GetUnsigned(4);
      var srv := GetUnsigned(4);
      var rep := Unpack();
      h := ReqHeader(xid, proc, clt, srv, rep);
      ind := RPC_HEADER_SZ;
    }

    method UnpackReplyHeader() returns (h: ReplyHeader)
      requires Valid()
      modifies this
      ensures (h, Where()) == ReadReplyHeader(Bytes(), old(good))
    {
      ind := SZ;
      var xid := Unpack();
      var ret := Unpack();
      h := ReplyHeader(xid, ret);
      ind := RPC_HEADER_SZ;
    }
  }

  // ---- A call and its reply: written by one side, read by the other ----------------------------------------------

  /** Marshall the arguments, then put the header in front. */
  method Request(h: ReqHeader, args: seq<Arg>) returns (b: array<byte>, s: nat)
    requires ReqFits(h) && ArgsFit(args)
    ensures fresh(b) && s <= b.Length && s == RPC_HEADER_SZ + |EncodeArgs(args)|
    ensures b[SZ..RPC_HEADER_SZ] == ReqBytes(h) && b[RPC_HEADER_SZ..s] == EncodeArgs(args)
  {
    var m := new Marshall();
    var i := 0;
    while i < |args|
      invariant i <= |args| && m.Valid() && fresh(m) && fresh(m.buf)
      invariant ArgsFit(args[..i]) && m.Content() == EncodeArgs(args[..i])
    {
      assert args[..i + 1][..i] == args[..i] && args[..i + 1][i] == args[i];
      m.Put(args[i].t, args[i].v);
      i := i + 1;
    }
    assert args[..i] == args;
    m.PackReqHeader(h);
    b, s := m.buf, m.ind;
  }

  /** Take the header off, then the arguments. */
  method Accept(b: array<byte>, s: nat, ts: seq<Type>) returns (h: ReqHeader, args: seq<Arg>, done: bool)
    requires s <= b.Length
    ensures var (h', at) := ReadReqHeader(b[..s], true);
            var (args', end) := ReadArgs(ts, b[..s], at);
            h == h' && args == args' && done == OkDone(b[..s], end)
  {
    var u := new Unmarshall(b, s);
    h := u.UnpackReqHeader();
    args := [];
    var i := 0;
    while i < |ts|
      invariant i <= |ts| && fresh(u) && u.Valid() && u.buf == b && u.sz == s
      invariant (args, u.Where()) == ReadArgs(ts[..i], b[..s], ReadReqHeader(b[..s], true).1)
    {
      assert ts[..i + 1][..i] == ts[..i] && ts[..i + 1][i] == ts[i];
      var v := u.Get(ts[i]);
      args := args + [Arg(ts[i], v)];
      i := i + 1;
    }
    assert ts[..i] == ts;
    done := u.IsOkDone();
  }

  /** What one side sends is what the other side gets, and it is done. */
  method SendAndAccept(h: ReqHeader, args: seq<Arg>) returns (h': ReqHeader, args': seq<Arg>, done: bool)
    requires ReqFits(h) && ArgsFit(args)
    ensures h' == h && args' == args && done
  {
    var b, s := Request(h, args);
    ghost var header, body := b[..RPC_HEADER_SZ], EncodeArgs(args);
    TwoParts(b[..s], RPC_HEADER_SZ, header, body);
    MessageRoundTrip(args, header, [], s);
    assert Has(b[..s], SZ, ReqBytes(h)) by {
      assert b[..s][SZ..RPC_HEADER_SZ] == ReqBytes(h);
      assert forall i | 0 <= i < REQ_HEADER_SZ :: b[..s][SZ + i] == b[SZ..RPC_HEADER_SZ][i];
    }
    ReqHeaderRoundTrip(h, b[..s]);
    h', args', done := Accept(b, s, Types(args));
  }

  lemma TwoParts(bs: seq<byte>, n: nat, header: seq<byte>, body: seq<byte>)
    requires n <= |bs| && bs[..n] == header && bs[n..] == body
    ensures bs == (header + body + [])[..|bs|]
  {
  }

  lemma Behind(a: seq<byte>, b: seq<byte>, c: seq<byte>)
    ensures (a + b) + c == a + (b + c)
  {
  }

  /** What lies behind two writes in a row is what was there. */
  lemma Tail(before: seq<byte>, between: seq<byte>, after: seq<byte>, i: nat, j: nat, capa: nat)
    requires i <= j <= |before| <= capa <= |after| && capa == |between|
    requires between[i..|before|] == before[i..] && after[j..capa] == between[j..]
    ensures after[j..|before|] == before[j..]
  {
    var x, y := after[j..|before|], before[j..];
    forall k | 0 <= k < |x| ensures x[k] == y[k] {
      assert x[k] == after[j..capa][k] == between[j..][k] == between[j + k];
      assert between[j + k] == between[i..|before|][j - i + k] == before[i..][j - i + k] == y[k];
    }
  }

  /** The body is the same under a new header. */
  lemma Filled(before: seq<byte>, bs: seq<byte>, after: seq<byte>, ind: nat)
    requires |bs| <= REQ_HEADER_SZ && RPC_HEADER_SZ <= ind <= |before| <= |after|
    requires after[..SZ + |bs|] == before[..SZ] + bs && after[SZ + |bs|..|before|] == before[SZ + |bs|..]
    ensures after[SZ..SZ + |bs|] == bs && after[RPC_HEADER_SZ..ind] == before[RPC_HEADER_SZ..ind]
  {
    var n := SZ + |bs|;
    var header := after[SZ..n];
    forall k | 0 <= k < |bs| ensures header[k] == bs[k] {
      assert header[k] == after[..n][SZ + k] == (before[..SZ] + bs)[SZ + k];
    }
    var x, y := after[RPC_HEADER_SZ..ind], before[RPC_HEADER_SZ..ind];
    forall k | 0 <= k < |x| ensures x[k] == y[k] {
      var i := RPC_HEADER_SZ + k;
      assert after[i] == after[n..|before|][i - n];
      assert before[i] == before[n..][i - n];
      assert x[k] == after[i] && y[k] == before[i];
    }
  }
}
