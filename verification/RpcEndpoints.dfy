/** The RPC client and server as they are written: lists and maps updated in place under their mutexes. */
module RpcEndpoints {
  import opened Options
  import opened RpcWindows
  import opened RpcProtocol

  class Rpcc {
    var xid: nat
    var xidRepWindow: seq<nat>
    var calls: map<nat, CallState>
    var bindDone: bool

    constructor ()
      ensures xid == INITIAL.nextXid && xidRepWindow == INITIAL.xidRep && calls == INITIAL.calls && bindDone == INITIAL.bound
    {
      xid, xidRepWindow, calls, bindDone := 1, [0], map[], false;
    }

    /** This client's part of the link. */
    ghost predicate Is(l: Link)
      reads this
    {
      l.nextXid == xid && l.xidRep == xidRepWindow && l.calls == calls && l.bound == bindDone
    }

    /** The start of a call, up to the first transmission; refused before bind, and binding twice is refused. */
    method CallStart(args: string, bind: bool, ghost l: Link) returns (accepted: bool, call: Call)
      requires Is(l) && xidRepWindow != []
      modifies this
      ensures accepted <==> Enabled(l, StartCall(args, bind))
      ensures !accepted ==> Is(l)
      ensures accepted ==> Is(AfterStart(l, args, bind)) && AfterStart(l, args, bind).sent == l.sent[l.nextXid := call]
    {
      call := Call(args, xidRepWindow[0], bind);
      if bind == bindDone {
        return false, call;
      }
      calls := calls[xid := Waiting];
      xid := xid + 1;
      accepted := true;
    }

    /** A reply arrives; it is accepted by the call if that is still waiting. */
    method GotPdu(replyXid: nat, reply: Reply, ghost l: Link)
      requires Is(l) && PrefixWindow(xidRepWindow)
      modifies this
      ensures Is(AfterReply(l, replyXid, reply))
    {
      UpdateXidRep(replyXid);
      if replyXid in calls {
        if calls[replyXid].Waiting? {
          calls := calls[replyXid := Answered(reply)];
        }
      }
    }

    /** The caller wakes up, answered or at its deadline. */
    method CallFinish(callXid: nat, ghost l: Link) returns (outcome: Outcome)
      requires Is(l) && PrefixWindow(xidRepWindow) && callXid in calls
      modifies this
      ensures Is(AfterFinish(l, callXid)) && AfterFinish(l, callXid).returned == l.returned[callXid := outcome]
    {
      var call := calls[callXid];
      calls := calls - {callXid};
      UpdateXidRep(callXid);
      outcome := if call.Answered? then Returned(call.reply) else TimedOut;
    }

    /** Insert the call into the sorted list, then drop the front while the list continues it. */
    method UpdateXidRep(over: nat)
      requires PrefixWindow(xidRepWindow)
      modifies this`xidRepWindow
      ensures xidRepWindow == Report(old(xidRepWindow), over) && PrefixWindow(xidRepWindow)
      ensures forall x: nat :: Over(xidRepWindow, x) <==> Over(old(xidRepWindow), x) || x == over
    {
      ReportAdds(xidRepWindow, over);
      if over <= xidRepWindow[0] {
        return;
      }
      var i := Insertion(xidRepWindow, over);
      xidRepWindow := xidRepWindow[..i] + [over] + xidRepWindow[i..];
      var it := 1;
      while it < |xidRepWindow|
        invariant 0 <= it <= |xidRepWindow|
        invariant Compress(xidRepWindow, it) == Report(old(xidRepWindow), over)
        decreases 2 * |xidRepWindow| - it
      {
        ghost var before := 2 * |xidRepWindow| - it;
        while xidRepWindow[0] + 1 == xidRepWindow[it]
          invariant 0 <= it < |xidRepWindow|
          invariant Compress(xidRepWindow, it) == Report(old(xidRepWindow), over)
          invariant 2 * |xidRepWindow| - it <= before
          decreases |xidRepWindow|
        {
          xidRepWindow := xidRepWindow[1..];
          it := it - 1;
        }
        it := it + 1;
      }
    }
  }

  /** The position before the first larger entry. */
  method Insertion(w: seq<nat>, xid: nat) returns (i: nat)
    ensures i == InsertAt(w, xid)
  {
    i := 0;
    while i < |w| && !(w[i] > xid)
      invariant i <= |w| && InsertAt(w, xid) == i + InsertAt(w[i..], xid)
    {
      assert w[i..][1..] == w[i + 1..];
      i := i + 1;
    }
  }

  class Rpcs {
    var replyWindow: map<nat, seq<Entry>>

    constructor ()
      ensures replyWindow == map[]
    {
      replyWindow := map[];
    }

    function WindowOf(nonce: nat): seq<Entry>
      reads this
    {
      if nonce in replyWindow then replyWindow[nonce] else []
    }

    /** A request that arrives: it is handed to the handler, answered at once, or neither. */
    method Dispatch(nonce: nat, xid: nat, call: Call, ghost l: Link) returns (run: Option<Execution>, reply: Option<Reply>)
      requires nonce != 0 ==> WindowOf(nonce) == l.window && xid in l.sent && l.sent[xid] == call
      modifies this
      ensures nonce == 0 ==> run == Some(Execution(xid, call.args, None)) && reply.None? && replyWindow == old(replyWindow)
      ensures nonce != 0 ==>
                var l' := AfterRequest(l, xid);
                && WindowOf(nonce) == l'.window
                && l'.runs == l.runs + (if run.Some? then [run.value] else [])
                && l'.replies == l.replies + (if reply.Some? then multiset{(xid, reply.value)} else multiset{})
      ensures forall other | other != nonce :: WindowOf(other) == old(WindowOf(other))
    {
      run, reply := None, None;
      var status := Classify(nonce, xid, call.rep);
      match status {
        case New => run := Some(Execution(xid, call.args, None));
        case InProgress =>
        case Done(b) => reply := Some(Result(b));
        case Forgotten => reply := Some(AtMostOnceFailure);
      }
    }

    /** The rest of it when the handler has returned: its reply is kept, if that is asked for, and sent. */
    method HandlerReturned(nonce: nat, xid: nat, bytes: string) returns (reply: Reply)
      requires nonce != 0 ==> nonce in replyWindow
      modifies this
      ensures reply == Result(bytes)
      ensures nonce != 0 ==> WindowOf(nonce) == RpcWindows.AddReply(old(WindowOf(nonce)), xid, bytes)
      ensures forall other | other != nonce || nonce == 0 :: WindowOf(other) == old(WindowOf(other))
    {
      if nonce > 0 {
        AddReply(nonce, xid, bytes);
      }
      reply := Result(bytes);
    }

    /** What to do with a request; a client with nonce zero does not ask for at-most-once. */
    method Classify(nonce: nat, xid: nat, rep: nat) returns (status: Status)
      modifies this
      ensures nonce == 0 ==> status == New && replyWindow == old(replyWindow)
      ensures nonce != 0 ==> (WindowOf(nonce), status) == Check(old(WindowOf(nonce)), xid, rep)
      ensures forall other | other != nonce :: WindowOf(other) == old(WindowOf(other))
    {
      if nonce != 0 {
        if nonce !in replyWindow {
          replyWindow := replyWindow[nonce := []];
        }
        status := CheckDuplicateAndUpdate(nonce, xid, rep);
      } else {
        status := New;
      }
    }

    method CheckDuplicateAndUpdate(nonce: nat, xid: nat, rep: nat) returns (status: Status)
      requires nonce in replyWindow
      modifies this
      ensures (WindowOf(nonce), status) == Check(old(WindowOf(nonce)), xid, rep)
      ensures forall other | other != nonce :: WindowOf(other) == old(WindowOf(other))
    {
      var w := replyWindow[nonce];
      var it := Search(w, xid);
      if it < |w| {
        return if w[it].reply.Some? then Done(w[it].reply.value) else InProgress;
      }
      if |w| > 0 && w[0].xid > xid {
        return Forgotten;
      }
      it := Place(w, xid);
      w := w[..it] + [Entry(xid, None)] + w[it..];
      it := FirstToKeep(w, rep);
      replyWindow := replyWindow[nonce := w[it..]];
      status := New;
    }

    /** Where a call is remembered; the end of the window if it is not. */
    method Search(w: seq<Entry>, xid: nat) returns (it: nat)
      ensures it == IndexOf(w, xid)
    {
      it := 0;
      while it < |w| && w[it].xid != xid
        invariant it <= |w| && IndexOf(w, xid) == it + IndexOf(w[it..], xid)
      {
        assert w[it..][1..] == w[it + 1..];
        it := it + 1;
      }
    }

    /** Where a new call goes: before the first later one. */
    method Place(w: seq<Entry>, xid: nat) returns (it: nat)
      ensures it == EntryAt(w, xid)
    {
      it := 0;
      while it < |w| && !(w[it].xid > xid)
        invariant it <= |w| && EntryAt(w, xid) == it + EntryAt(w[it..], xid)
      {
        assert w[it..][1..] == w[it + 1..];
        it := it + 1;
      }
    }

    /** What the client has not yet acknowledged starts here. */
    method FirstToKeep(w: seq<Entry>, rep: nat) returns (it: nat)
      ensures it == FirstKept(w, rep)
    {
      it := 0;
      while it < |w| && !(w[it].xid >= rep)
        invariant it <= |w| && FirstKept(w, rep) == it + FirstKept(w[it..], rep)
      {
        assert w[it..][1..] == w[it + 1..];
        it := it + 1;
      }
    }

    method AddReply(nonce: nat, xid: nat, bytes: string)
      requires nonce in replyWindow
      modifies this
      ensures WindowOf(nonce) == RpcWindows.AddReply(old(WindowOf(nonce)), xid, bytes)
      ensures forall other | other != nonce :: WindowOf(other) == old(WindowOf(other))
    {
      var w := replyWindow[nonce];
      var it := Search(w, xid);
      if it < |w| {
        replyWindow := replyWindow[nonce := w[it := Entry(xid, Some(bytes))]];
      }
    }
  }
}
