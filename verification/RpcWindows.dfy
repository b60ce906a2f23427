/**
 The two windows behind at-most-once RPC: the client's list of finished calls, whose front is the
 contiguous prefix it stamps on requests, and the server's sorted list of remembered replies.
 */
module RpcWindows {
  import opened Options

  // ---- The client's window --------------------------------------------------------------------

  predicate Sorted(w: seq<nat>) {
    forall i, j | 0 <= i <= j < |w| :: w[i] <= w[j]
  }

  /** The window says that call `xid` is over: it is in the contiguous prefix, or listed. */
  predicate Over(w: seq<nat>, xid: nat)
    requires w != []
  {
    xid <= w[0] || xid in w
  }

  /** Sorted, and the front cannot be extended: it ends the longest contiguous prefix. */
  predicate PrefixWindow(w: seq<nat>) {
    w != [] && Sorted(w) && w[0] + 1 !in w
  }

  /** Where to insert: before the first larger entry, at the end if there is none. */
  function InsertAt(w: seq<nat>, xid: nat): (i: nat)
    ensures i <= |w| && (forall k | 0 <= k < i :: w[k] <= xid) && (i < |w| ==> w[i] > xid)
  {
    if w == [] || w[0] > xid then 0 else 1 + InsertAt(w[1..], xid)
  }

  /** Advance an iterator from entry `i`, dropping the front while the entry continues it. */
  function Compress(w: seq<nat>, i: nat): seq<nat>
    requires i <= |w|
    decreases 2 * |w| - i
  {
    if i == |w| then w
    else if w[0] + 1 == w[i] then Compress(w[1..], i - 1)
    else Compress(w, i + 1)
  }

  function Inserted(w: seq<nat>, xid: nat): seq<nat> {
    w[..InsertAt(w, xid)] + [xid] + w[InsertAt(w, xid)..]
  }

  function Report(w: seq<nat>, xid: nat): seq<nat>
    requires w != []
  {
    if xid <= w[0] then w else Compress(Inserted(w, xid), 1)
  }

  lemma {:induction false} CompressKeeps(w: seq<nat>, i: nat)
    requires w != [] && i <= |w| && Sorted(w)
    requires forall j | 0 <= j < i :: w[j] != w[0] + 1
    ensures PrefixWindow(Compress(w, i))
    ensures w[0] <= Compress(w, i)[0]
    ensures forall x: nat :: Over(Compress(w, i), x) <==> Over(w, x)
    decreases 2 * |w| - i
  {
    if i < |w| {
      if w[0] + 1 == w[i] {
        var rest := w[1..];
        forall j | 0 <= j < i ensures w[j] == w[0] {
          assert w[0] <= w[j] <= w[i];
        }
        assert Sorted(rest);
        forall x: nat ensures Over(rest, x) <==> Over(w, x) {
          if x in w && x > w[0] {
            var k :| 0 <= k < |w| && w[k] == x;
            assert rest[k - 1] == x;
          }
        }
        CompressKeeps(rest, i - 1);
      } else {
        CompressKeeps(w, i + 1);
      }
    }
  }

  /** Reporting a call as over adds exactly that call, and keeps the front the longest prefix. */
  lemma ReportAdds(w: seq<nat>, xid: nat)
    requires PrefixWindow(w)
    ensures PrefixWindow(Report(w, xid))
    ensures w[0] <= Report(w, xid)[0]
    ensures forall x: nat :: Over(Report(w, xid), x) <==> Over(w, x) || x == xid
  {
    if xid > w[0] {
      var i, w' := InsertAt(w, xid), Inserted(w, xid);
      assert i > 0 && w'[0] == w[0];
      forall x: nat ensures x in w' <==> x in w || x == xid {
        assert w == w[..i] + w[i..];
        assert x in w' <==> x in w[..i] || x == xid || x in w[i..];
      }
      CompressKeeps(w', 1);
    }
  }

  /** The window after the given calls were reported, in that order and possibly more than once. */
  function Reports(xids: seq<nat>): seq<nat> {
    if xids == [] then [0]
    else
      var w := Reports(xids[..|xids| - 1]);
      if w == [] then w else Report(w, xids[|xids| - 1])
  }

  /**
   The front is the largest n such that 1..n were all reported; the entries above it are exactly
   the reported calls above it, however often and in whatever order they were reported.
   */
  lemma {:induction false} FrontIsContiguousPrefix(xids: seq<nat>)
    ensures PrefixWindow(Reports(xids))
    ensures forall x: nat | x > 0 :: Over(Reports(xids), x) <==> x in xids
    ensures var n := Reports(xids)[0];
            && (forall x: nat | 1 <= x <= n :: x in xids)
            && n + 1 !in xids
            && (forall x: nat | x > n :: x in Reports(xids) <==> x in xids)
  {
    if xids != [] {
      var before, last := xids[..|xids| - 1], xids[|xids| - 1];
      assert xids == before + [last];
      FrontIsContiguousPrefix(before);
      ReportAdds(Reports(before), last);
    }
    var w := Reports(xids);
    forall x: nat | x > 0 ensures Over(w, x) <==> x in xids {
    }
    assert !Over(w, w[0] + 1);
    forall x: nat | 1 <= x <= w[0] ensures x in xids {
      assert Over(w, x);
    }
    forall x: nat | x > w[0] ensures x in w <==> x in xids {
      assert Over(w, x) <==> x in w;
    }
  }

  // ---- The server's window -----------------------------------------------------------------------

  /** A remembered request; `reply` is there once the handler returned. */
  datatype Entry = Entry(xid: nat, reply: Option<string>)

  datatype Status = New | InProgress | Done(reply: string) | Forgotten

  predicate Increasing(w: seq<Entry>) {
    forall i, j | 0 <= i < j < |w| :: w[i].xid < w[j].xid
  }

  predicate Remembers(w: seq<Entry>, xid: nat) {
    exists i :: 0 <= i < |w| && w[i].xid == xid
  }

  function IndexOf(w: seq<Entry>, xid: nat): (i: nat)
    ensures i <= |w| && (forall k | 0 <= k < i :: w[k].xid != xid) && (i < |w| ==> w[i].xid == xid)
  {
    if w == [] || w[0].xid == xid then 0 else 1 + IndexOf(w[1..], xid)
  }

  function EntryAt(w: seq<Entry>, xid: nat): (i: nat)
    ensures i <= |w| && (forall k | 0 <= k < i :: w[k].xid <= xid) && (i < |w| ==> w[i].xid > xid)
  {
    if w == [] || w[0].xid > xid then 0 else 1 + EntryAt(w[1..], xid)
  }

  /** The first entry that the client has not acknowledged. */
  function FirstKept(w: seq<Entry>, rep: nat): (i: nat)
    ensures i <= |w| && (forall k | 0 <= k < i :: w[k].xid < rep) && (i < |w| ==> w[i].xid >= rep)
  {
    if w == [] || w[0].xid >= rep then 0 else 1 + FirstKept(w[1..], rep)
  }

  function Remember(w: seq<Entry>, xid: nat): seq<Entry> {
    w[..EntryAt(w, xid)] + [Entry(xid, None)] + w[EntryAt(w, xid)..]
  }

  /** Look up a request; a new one is remembered and acknowledged ones are dropped. */
  function Check(w: seq<Entry>, xid: nat, rep: nat): (seq<Entry>, Status) {
    var i := IndexOf(w, xid);
    if i < |w| then (w, if w[i].reply.Some? then Done(w[i].reply.value) else InProgress)
    else if w != [] && w[0].xid > xid then (w, Forgotten)
    else
      var w' := Remember(w, xid);
      (w'[FirstKept(w', rep)..], New)
  }

  function AddReply(w: seq<Entry>, xid: nat, reply: string): seq<Entry> {
    var i := IndexOf(w, xid);
    if i < |w| then w[i := Entry(xid, Some(reply))] else w
  }

  /** The server can never again take the request for a new one, nor finds its reply. */
  predicate Expired(w: seq<Entry>, xid: nat) {
    w != [] && w[0].xid > xid
  }

  lemma RememberKeeps(w: seq<Entry>, xid: nat)
    requires Increasing(w) && !Remembers(w, xid) && !Expired(w, xid)
    ensures Increasing(Remember(w, xid))
    ensures forall e :: e in Remember(w, xid) <==> e in w || e == Entry(xid, None)
    ensures w != [] ==> Remember(w, xid)[0] == w[0]
  {
    var i, w' := EntryAt(w, xid), Remember(w, xid);
    assert w == w[..i] + w[i..];
    forall e ensures e in w' <==> e in w || e == Entry(xid, None) {
      assert e in w' <==> e in w[..i] || e == Entry(xid, None) || e in w[i..];
    }
    forall k | 0 <= k < |w| ensures w[k].xid != xid {
    }
  }

  lemma KeptIff(m: seq<Entry>, rep: nat, e: Entry)
    requires Increasing(m)
    ensures e in m[FirstKept(m, rep)..] <==> e in m && e.xid >= rep
  {
    var k := FirstKept(m, rep);
    var w' := m[k..];
    if e in m && e.xid >= rep {
      var i :| 0 <= i < |m| && m[i] == e;
      assert i >= k && w'[i - k] == e;
    }
    if e in w' {
      var i :| 0 <= i < |w'| && w'[i] == e;
      assert m[k + i] == e && m[k].xid >= rep;
      assert i > 0 ==> m[k].xid < m[k + i].xid;
    }
  }

  /** What is kept of a window: the entries that are not acknowledged, and nothing expired comes back. */
  lemma KeptSuffix(m: seq<Entry>, rep: nat)
    requires Increasing(m)
    ensures var kept := m[FirstKept(m, rep)..];
            && Increasing(kept) && (kept != [] ==> m[0].xid <= kept[0].xid && kept[0].xid >= rep)
            && forall e :: e in kept <==> e in m && e.xid >= rep
  {
    var k := FirstKept(m, rep);
    forall e ensures e in m[k..] <==> e in m && e.xid >= rep {
      KeptIff(m, rep, e);
    }
    if k > 0 && k < |m| {
      assert m[0].xid < m[k].xid;
    }
  }

  /**
   A new request that acknowledges only earlier ones stays in the window; what it pushes out was
   acknowledged and is expired from then on.
   */
  lemma CheckNew(w: seq<Entry>, xid: nat, rep: nat)
    requires Increasing(w) && rep < xid && Check(w, xid, rep).1.New?
    ensures var w' := Check(w, xid, rep).0;
            && Increasing(w') && w' != [] && w'[0].xid >= rep
            && Entry(xid, None) in w'
            && (forall e :: e in w' <==> (e in w || e == Entry(xid, None)) && e.xid >= rep)
            && (forall x | Expired(w, x) :: Expired(w', x))
  {
    CheckOld(w, xid, rep);
    RememberKeeps(w, xid);
    KeptSuffix(Remember(w, xid), rep);
    assert Entry(xid, None) in Check(w, xid, rep).0;
    if w != [] {
      assert Remember(w, xid)[0] == w[0];
    }
  }

  lemma CheckOld(w: seq<Entry>, xid: nat, rep: nat)
    ensures !Check(w, xid, rep).1.New? ==> Check(w, xid, rep).0 == w
    ensures Check(w, xid, rep).1.New? ==> !Remembers(w, xid) && !Expired(w, xid)
    ensures Check(w, xid, rep).1.Forgotten? <==> !Remembers(w, xid) && Expired(w, xid)
    ensures forall b :: Check(w, xid, rep).1 == Done(b) ==> Entry(xid, Some(b)) in w
    ensures Check(w, xid, rep).1.InProgress? ==> Entry(xid, None) in w
  {
    var i := IndexOf(w, xid);
    if i < |w| {
      assert w[i] in w && w[i] == Entry(xid, w[i].reply);
    } else {
      assert !Remembers(w, xid);
    }
  }

  lemma AddReplyKeeps(w: seq<Entry>, xid: nat, reply: string)
    requires Increasing(w)
    ensures Increasing(AddReply(w, xid, reply)) && |AddReply(w, xid, reply)| == |w|
    ensures forall i | 0 <= i < |w| :: AddReply(w, xid, reply)[i] == if w[i].xid == xid then Entry(xid, Some(reply)) else w[i]
  {
  }
}
