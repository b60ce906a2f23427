/**
 What the RPC client and server are, by the actions alone: what was sent is what callers asked for, a call returns
 the first reply that was delivered to it, and a request or a handler's return puts exactly its reply on the wire.
 */
module RpcHistory {
  import opened Options
  import opened RpcWindows
  import opened RpcProtocol

  // ---- The client, by the actions ---------------------------------------------------------------------------

  /** The calls reported as over, in order: a reply arrived, or the caller woke up. */
  function Reported(actions: seq<Action>): seq<nat> {
    if actions == [] then []
    else
      var before := Reported(actions[..|actions| - 1]);
      match actions[|actions| - 1]
      case DeliverReply(xid, _) => before + [xid]
      case FinishCall(xid) => before + [xid]
      case _ => before
  }

  /** The front of the client's window: the end of the contiguous prefix of reported calls. */
  function Prefix(actions: seq<Action>): nat {
    var w := Reports(Reported(actions));
    if w == [] then 0 else w[0]
  }

  /** What the callers asked for, in order, each with the prefix at that time. */
  function Asked(actions: seq<Action>): seq<Call> {
    if actions == [] then []
    else
      var before := actions[..|actions| - 1];
      match actions[|actions| - 1]
      case StartCall(args, bind) => Asked(before) + [Call(args, Prefix(before), bind)]
      case _ => Asked(before)
  }

  /** The first reply that was delivered to a call. */
  function FirstReply(actions: seq<Action>, xid: nat): Option<Reply> {
    if actions == [] then None
    else
      var before := FirstReply(actions[..|actions| - 1], xid);
      match actions[|actions| - 1]
      case DeliverReply(x, reply) => if before.None? && x == xid then Some(reply) else before
      case _ => before
  }

  /** How a call ended: with the first reply that had been delivered when the caller woke up, or without any. */
  function Ended(actions: seq<Action>, xid: nat): Option<Outcome> {
    if actions == [] then None
    else
      var before := actions[..|actions| - 1];
      if Ended(before, xid).Some? || actions[|actions| - 1] != FinishCall(xid) then Ended(before, xid)
      else if FirstReply(before, xid).Some? then Some(Returned(FirstReply(before, xid).value))
      else Some(TimedOut)
  }

  predicate BoundBy(actions: seq<Action>) {
    exists a :: a in actions && a.MarkBound?
  }

  /** One call, as the client keeps it. */
  predicate CallIs(l: Link, actions: seq<Action>, xid: nat) {
    var asked := 1 <= xid <= |Asked(actions)|;
    && (xid in l.sent <==> asked)
    && (asked ==> l.sent[xid] == Asked(actions)[xid - 1])
    && (xid in l.calls <==> asked && Ended(actions, xid).None?)
    && (xid in l.calls ==>
          l.calls[xid] == if FirstReply(actions, xid).Some? then Answered(FirstReply(actions, xid).value) else Waiting)
    && (xid in l.returned <==> Ended(actions, xid).Some?)
    && (xid in l.returned ==> l.returned[xid] == Ended(actions, xid).value)
    && (!asked ==> FirstReply(actions, xid).None?)
  }

  ghost predicate ClientIs(l: Link, actions: seq<Action>) {
    && l.nextXid == |Asked(actions)| + 1
    && l.xidRep == Reports(Reported(actions))
    && (l.bound <==> BoundBy(actions))
    && forall xid: nat {:trigger CallIs(l, actions, xid)} :: CallIs(l, actions, xid)
  }

  function Front(actions: seq<Action>): seq<Action>
    requires actions != []
  {
    actions[..|actions| - 1]
  }

  function Last(actions: seq<Action>): Action
    requires actions != []
  {
    actions[|actions| - 1]
  }

  lemma BoundMore(actions: seq<Action>)
    requires actions != []
    ensures BoundBy(actions) <==> BoundBy(Front(actions)) || Last(actions).MarkBound?
  {
    assert Last(actions) in actions;
    forall a | a in Front(actions) ensures a in actions {
    }
    if a :| a in actions && a.MarkBound? {
      assert a in Front(actions) || a == Last(actions);
    }
  }

  lemma ReportMore(xids: seq<nat>, xid: nat)
    requires Reports(xids) != []
    ensures Reports(xids + [xid]) == Report(Reports(xids), xid)
  {
    assert (xids + [xid])[..|xids|] == xids;
  }

  lemma StartStays(l: Link, actions: seq<Action>, xid: nat)
    requires actions != [] && Last(actions).StartCall? && ClientInv(l) && ClientIs(l, Front(actions))
    ensures CallIs(AfterStart(l, Last(actions).args, Last(actions).bind), actions, xid)
  {
    assert CallIs(l, Front(actions), xid);
  }

  lemma ReplyStays(l: Link, actions: seq<Action>, xid: nat)
    requires actions != [] && Last(actions).DeliverReply? && Last(actions).xid in l.sent
    requires ClientInv(l) && ClientIs(l, Front(actions))
    ensures CallIs(AfterReply(l, Last(actions).xid, Last(actions).reply), actions, xid)
  {
    assert CallIs(l, Front(actions), xid);
  }

  lemma FinishStays(l: Link, actions: seq<Action>, xid: nat)
    requires actions != [] && Last(actions).FinishCall? && Last(actions).xid in l.calls
    requires ClientInv(l) && ClientIs(l, Front(actions))
    ensures CallIs(AfterFinish(l, Last(actions).xid), actions, xid)
  {
    assert CallIs(l, Front(actions), xid);
  }

  /** The client is the same, but for the end of binding. */
  predicate SameClient(l: Link, l': Link) {
    l'.sent == l.sent && l'.calls == l.calls && l'.returned == l.returned && l'.nextXid == l.nextXid && l'.xidRep == l.xidRep
  }

  lemma RequestKeepsClient(l: Link, xid: nat)
    requires xid in l.sent
    ensures SameClient(l, AfterRequest(l, xid)) && AfterRequest(l, xid).bound == l.bound
  {
  }

  lemma OtherStays(l: Link, l': Link, actions: seq<Action>, xid: nat)
    requires actions != [] && !Last(actions).StartCall? && !Last(actions).DeliverReply? && !Last(actions).FinishCall?
    requires CallIs(l, Front(actions), xid) && SameClient(l, l')
    ensures CallIs(l', actions, xid)
  {
  }

  lemma CallStays(l: Link, actions: seq<Action>, xid: nat)
    requires actions != [] && Enabled(l, Last(actions)) && Inv(l) && ClientIs(l, Front(actions))
    ensures CallIs(After(l, Last(actions)), actions, xid)
  {
    match Last(actions)
    case StartCall(args, bind) => StartStays(l, actions, xid);
    case DeliverReply(x, reply) =>
      assert Genuine(l, (x, reply).0, (x, reply).1);
      ReplyStays(l, actions, xid);
    case FinishCall(x) => FinishStays(l, actions, xid);
    case DeliverRequest(x) =>
      assert CallIs(l, Front(actions), xid);
      RequestKeepsClient(l, x);
      OtherStays(l, AfterRequest(l, x), actions, xid);
    case _ =>
      assert CallIs(l, Front(actions), xid);
      OtherStays(l, After(l, Last(actions)), actions, xid);
  }

  lemma CountersStay(l: Link, actions: seq<Action>)
    requires actions != [] && Enabled(l, Last(actions)) && ClientIs(l, Front(actions))
    ensures var l' := After(l, Last(actions));
            && l'.nextXid == |Asked(actions)| + 1
            && l'.xidRep == Reports(Reported(actions))
            && (l'.bound <==> BoundBy(actions))
  {
    BoundMore(actions);
    match Last(actions)
    case DeliverReply(x, _) => ReportMore(Reported(Front(actions)), x);
    case FinishCall(x) => ReportMore(Reported(Front(actions)), x);
    case DeliverRequest(x) => RequestKeepsClient(l, x);
    case _ =>
  }

  /** Everything the client keeps follows from the actions. */
  lemma {:induction false} ClientFollows(actions: seq<Action>)
    requires Run(actions).Some?
    ensures Inv(Run(actions).value) && ClientIs(Run(actions).value, actions)
  {
    RunInv(actions);
    if actions == [] {
      forall xid: nat ensures CallIs(INITIAL, [], xid) {
      }
    } else {
      ClientFollows(Front(actions));
      var l := Run(Front(actions)).value;
      forall xid: nat ensures CallIs(After(l, Last(actions)), actions, xid) {
        CallStays(l, actions, xid);
      }
      CountersStay(l, actions);
    }
  }

  /** What is on the wire for a call is what its caller asked for, stamped with the prefix of that time. */
  lemma SentAsAsked(actions: seq<Action>, xid: nat)
    requires Run(actions).Some?
    ensures var l := Run(actions).value;
            && (xid in l.sent <==> 1 <= xid <= |Asked(actions)|)
            && (xid in l.sent ==> l.sent[xid] == Asked(actions)[xid - 1])
  {
    ClientFollows(actions);
    assert CallIs(Run(actions).value, actions, xid);
  }

  /** A call has returned exactly if its caller woke up, with the first reply delivered before that, if any. */
  lemma ReturnsFirstReply(actions: seq<Action>, xid: nat)
    requires Run(actions).Some?
    ensures var l := Run(actions).value;
            (xid in l.returned <==> Ended(actions, xid).Some?) && (xid in l.returned ==> Some(l.returned[xid]) == Ended(actions, xid))
  {
    ClientFollows(actions);
    assert CallIs(Run(actions).value, actions, xid);
  }

  /** A reply that is delivered to a waiting call is what the call returns when its caller wakes up. */
  lemma DeliveredIsReturned(actions: seq<Action>, xid: nat, reply: Reply)
    requires Run(actions).Some? && Enabled(Run(actions).value, DeliverReply(xid, reply))
    requires xid in Run(actions).value.calls && Run(actions).value.calls[xid].Waiting?
    ensures var l := After(Run(actions).value, DeliverReply(xid, reply));
            Enabled(l, FinishCall(xid)) && xid in After(l, FinishCall(xid)).returned &&
            After(l, FinishCall(xid)).returned[xid] == Returned(reply)
  {
    RunInv(actions);
    ReportAdds(Run(actions).value.xidRep, xid);
  }

  /** Once bound everybody may call, and before that only bind; binding ends when a bind has returned a result. */
  lemma WhoMayCall(actions: seq<Action>, args: string, bind: bool, xid: nat)
    requires Run(actions).Some?
    ensures var l := Run(actions).value;
            && (Enabled(l, StartCall(args, bind)) <==> (bind <==> !BoundBy(actions)))
            && (Enabled(l, MarkBound(xid)) <==>
                  1 <= xid <= |Asked(actions)| && Asked(actions)[xid - 1].bind &&
                  exists b :: Ended(actions, xid) == Some(Returned(Result(b))))
            && (Enabled(l, FinishCall(xid)) <==> 1 <= xid <= |Asked(actions)| && Ended(actions, xid).None?)
            && (Enabled(l, DeliverRequest(xid)) <==> 1 <= xid <= |Asked(actions)|)
  {
    ClientFollows(actions);
    var l := Run(actions).value;
    assert CallIs(l, actions, xid);
    if xid in l.returned && l.returned[xid].Returned? && l.returned[xid].reply.Result? {
      assert Ended(actions, xid) == Some(Returned(Result(l.returned[xid].reply.bytes)));
    }
  }

  // ---- The server ------------------------------------------------------------------------------------------------

  /** What the run's handler returned. */
  function ResultOf(actions: seq<Action>, run: nat): Option<string> {
    if actions == [] then None
    else
      var before := ResultOf(actions[..|actions| - 1], run);
      match actions[|actions| - 1]
      case HandlerReturns(k, bytes) => if before.None? && k == run then Some(bytes) else before
      case _ => before
  }

  predicate RunIs(l: Link, actions: seq<Action>, run: nat) {
    (run < |l.runs| ==> l.runs[run].result == ResultOf(actions, run)) && (run >= |l.runs| ==> ResultOf(actions, run).None?)
  }

  lemma RunStays(l: Link, actions: seq<Action>, run: nat)
    requires actions != [] && Enabled(l, Last(actions)) && RunIs(l, Front(actions), run)
    ensures RunIs(After(l, Last(actions)), actions, run)
  {
  }

  lemma {:induction false} RunFollows(actions: seq<Action>, run: nat)
    requires Run(actions).Some?
    ensures RunIs(Run(actions).value, actions, run)
  {
    if actions != [] {
      RunFollows(Front(actions), run);
      RunStays(Run(Front(actions)).value, actions, run);
    }
  }

  /** The request finds nothing it could be a repetition of: the server never heard of it, and need not fear it did. */
  predicate TakenAsNew(l: Link, xid: nat) {
    !Ran(l, xid) && !(l.runs != [] && forall i | 0 <= i < |l.runs| && l.runs[i].xid < xid :: Acknowledged(l, l.runs[i].xid))
  }

  /** The server's part of a step: which runs there are, and what is put on the wire. */
  predicate Serves(l: Link, l': Link, runs: seq<Execution>, sent: multiset<(nat, Reply)>) {
    l'.runs == l.runs + runs && l'.replies == l.replies + sent
  }

  /**
   A request that arrives is run once, with what its caller asked for; a repetition is answered with the stored
   reply, or not at all while the handler runs; and it is refused once it may have been forgotten.
   */
  lemma RequestExactly(actions: seq<Action>, xid: nat)
    requires Run(actions).Some? && Enabled(Run(actions).value, DeliverRequest(xid))
    ensures 1 <= xid <= |Asked(actions)|
    ensures var l := Run(actions).value;
            var l' := After(l, DeliverRequest(xid));
            if TakenAsNew(l, xid) then Serves(l, l', [Execution(xid, Asked(actions)[xid - 1].args, None)], multiset{})
            else if !Ran(l, xid) || Acknowledged(l, xid) then Serves(l, l', [], multiset{(xid, AtMostOnceFailure)})
            else
              exists i :: 0 <= i < |l.runs| && l.runs[i].xid == xid &&
                Serves(l, l', [], if l.runs[i].result.Some? then multiset{(xid, Result(l.runs[i].result.value))} else multiset{})
  {
    RunExact(actions);
    SentAsAsked(actions, xid);
    var l := Run(actions).value;
    CheckOld(l.window, xid, l.sent[xid].rep);
    if !Ran(l, xid) {
      ForgottenExactly(actions, xid);
    } else {
      RepeatedRequest(l, xid);
    }
  }

  /** A run that no request acknowledged is in the window, with its result; any other is not remembered. */
  lemma RunInWindow(l: Link, i: nat)
    requires Inv(l) && WindowExact(l) && i < |l.runs|
    ensures var xid := l.runs[i].xid;
            if Acknowledged(l, xid) then !Remembers(l.window, xid) && Expired(l.window, xid)
            else IndexOf(l.window, xid) < |l.window| && l.window[IndexOf(l.window, xid)] == Entry(xid, l.runs[i].result)
  {
    var xid, e := l.runs[i].xid, Entry(l.runs[i].xid, l.runs[i].result);
    assert Ran(l, xid);
    RanIsKnown(l, xid);
    assert KeptOrAcknowledged(l, i);
    if Remembers(l.window, xid) {
      var k := IndexOf(l.window, xid);
      assert l.window[k] in l.window && Backed(l, l.window[k]) && AtLeastStamps(l, l.window[k]);
      assert l.window[k] == e;
    } else {
      assert e !in l.window;
    }
  }

  lemma RepeatedRequest(l: Link, xid: nat)
    requires Inv(l) && WindowExact(l) && xid in l.sent && Ran(l, xid)
    ensures var l' := AfterRequest(l, xid);
            if Acknowledged(l, xid) then Serves(l, l', [], multiset{(xid, AtMostOnceFailure)})
            else
              exists i :: 0 <= i < |l.runs| && l.runs[i].xid == xid &&
                Serves(l, l', [], if l.runs[i].result.Some? then multiset{(xid, Result(l.runs[i].result.value))} else multiset{})
  {
    var i :| 0 <= i < |l.runs| && l.runs[i].xid == xid;
    RunInWindow(l, i);
    RepeatServed(l, xid, l.runs[i].result);
  }

  lemma RepeatServed(l: Link, xid: nat, result: Option<string>)
    requires xid in l.sent
    requires if Acknowledged(l, xid) then !Remembers(l.window, xid) && Expired(l.window, xid)
             else IndexOf(l.window, xid) < |l.window| && l.window[IndexOf(l.window, xid)] == Entry(xid, result)
    ensures Serves(l, AfterRequest(l, xid), [],
                   if Acknowledged(l, xid) then multiset{(xid, AtMostOnceFailure)}
                   else if result.Some? then multiset{(xid, Result(result.value))} else multiset{})
  {
    CheckOld(l.window, xid, l.sent[xid].rep);
    assert l.runs + [] == l.runs;
  }

  /** A handler that returns puts its reply on the wire, once. */
  lemma HandlerExactly(l: Link, run: nat, bytes: string)
    requires Enabled(l, HandlerReturns(run, bytes))
    ensures var l' := After(l, HandlerReturns(run, bytes));
            && l'.replies == l.replies + multiset{(l.runs[run].xid, Result(bytes))}
            && l'.runs == l.runs[run := Execution(l.runs[run].xid, l.runs[run].args, Some(bytes))]
  {
  }

  // ---- From the caller to the handler and back ------------------------------------------------------------------------

  /**
   A call that returned a result returned what the handler produced in its one run with the arguments that its
   caller asked with; a call that returned the at-most-once failure never ran.
   */
  lemma ReturnedWhatItsRunProduced(actions: seq<Action>, xid: nat)
    requires Run(actions).Some? && Ended(actions, xid).Some? && Ended(actions, xid).value.Returned?
    ensures 1 <= xid <= |Asked(actions)|
    ensures var l := Run(actions).value;
            match Ended(actions, xid).value.reply
            case Result(b) =>
              exists i :: 0 <= i < |l.runs| && l.runs[i] == Execution(xid, Asked(actions)[xid - 1].args, Some(b)) &&
                          ResultOf(actions, i) == Some(b) && forall j | 0 <= j < |l.runs| && l.runs[j].xid == xid :: j == i
            case AtMostOnceFailure => !Ran(l, xid)
  {
    RunInv(actions);
    ReturnsFirstReply(actions, xid);
    SentAsAsked(actions, xid);
    ReturnedRan(actions, xid);
    var l, reply := Run(actions).value, Ended(actions, xid).value.reply;
    assert l.returned[xid] == Returned(reply);
    if reply.Result? {
      var i :| 0 <= i < |l.runs| && l.runs[i] == Execution(xid, l.sent[xid].args, Some(reply.bytes)) &&
               forall j | 0 <= j < |l.runs| && l.runs[j].xid == xid :: j == i;
      RunFollows(actions, i);
      assert RunIs(l, actions, i);
      assert l.runs[i] == Execution(xid, Asked(actions)[xid - 1].args, Some(reply.bytes)) && ResultOf(actions, i) == Some(reply.bytes);
    }
  }

  // ---- Every call can still return ---------------------------------------------------------------------------------------

  /** The call waits, and this reply to it is on the wire. */
  predicate CanBeAnswered(actions: seq<Action>, xid: nat, reply: Reply) {
    && Run(actions).Some?
    && xid in Run(actions).value.calls && Run(actions).value.calls[xid].Waiting?
    && (xid, reply) in Run(actions).value.replies
  }

  lemma AnswerAndWake(actions: seq<Action>, xid: nat, reply: Reply) returns (all: seq<Action>)
    requires CanBeAnswered(actions, xid, reply)
    ensures Run(all).Some? && actions <= all && Ended(all, xid) == Some(Returned(reply))
  {
    var more := actions + [DeliverReply(xid, reply)];
    RunInv(actions);
    OneMore(actions, DeliverReply(xid, reply));
    DeliveredIsReturned(actions, xid, reply);
    OneMore(more, FinishCall(xid));
    all := more + [FinishCall(xid)];
    ReturnsFirstReply(all, xid);
  }

  lemma HandleAndAnswer(actions: seq<Action>, run: nat, xid: nat, bytes: string) returns (all: seq<Action>)
    requires Run(actions).Some? && Enabled(Run(actions).value, HandlerReturns(run, bytes))
    requires var l := Run(actions).value; l.runs[run].xid == xid && xid in l.calls && l.calls[xid].Waiting?
    ensures Run(all).Some? && actions <= all && Ended(all, xid) == Some(Returned(Result(bytes)))
  {
    OneMore(actions, HandlerReturns(run, bytes));
    all := AnswerAndWake(actions + [HandlerReturns(run, bytes)], xid, Result(bytes));
  }

  /** What a request that arrives brings about: a run that may return, or a reply; unless the handler is running. */
  lemma DeliverAndAnswer(actions: seq<Action>, xid: nat, bytes: string) returns (all: seq<Action>)
    requires Run(actions).Some? && Enabled(Run(actions).value, DeliverRequest(xid))
    requires var l := Run(actions).value;
             && xid in l.calls && l.calls[xid].Waiting?
             && forall i | 0 <= i < |l.runs| && l.runs[i].xid == xid :: l.runs[i].result.Some?
    ensures Run(all).Some? && actions <= all && Ended(all, xid).Some? && Ended(all, xid).value.Returned?
    ensures TakenAsNew(Run(actions).value, xid) ==> Ended(all, xid) == Some(Returned(Result(bytes)))
  {
    var l := Run(actions).value;
    var more, l' := actions + [DeliverRequest(xid)], After(l, DeliverRequest(xid));
    OneMore(actions, DeliverRequest(xid));
    RequestExactly(actions, xid);
    RequestKeepsClient(l, xid);
    if TakenAsNew(l, xid) {
      assert l'.runs[|l.runs|] == Execution(xid, Asked(actions)[xid - 1].args, None);
      all := HandleAndAnswer(more, |l.runs|, xid, bytes);
    } else if !Ran(l, xid) || Acknowledged(l, xid) {
      all := AnswerAndWake(more, xid, AtMostOnceFailure);
    } else {
      var i :| 0 <= i < |l.runs| && l.runs[i].xid == xid &&
               Serves(l, l', [], if l.runs[i].result.Some? then multiset{(xid, Result(l.runs[i].result.value))} else multiset{});
      all := AnswerAndWake(more, xid, Result(l.runs[i].result.value));
    }
  }

  /**
   However the network behaved so far, a waiting call can still return without a timeout; and if its request can be
   taken as new, it can return whatever the handler makes of it.
   */
  lemma CallCanReturn(actions: seq<Action>, xid: nat, bytes: string) returns (all: seq<Action>)
    requires Run(actions).Some? && xid in Run(actions).value.calls && Run(actions).value.calls[xid].Waiting?
    ensures Run(all).Some? && actions <= all && Ended(all, xid).Some? && Ended(all, xid).value.Returned?
    ensures TakenAsNew(Run(actions).value, xid) ==> Ended(all, xid) == Some(Returned(Result(bytes)))
  {
    RunInv(actions);
    var l := Run(actions).value;
    if i :| 0 <= i < |l.runs| && l.runs[i].xid == xid && l.runs[i].result.None? {
      all := HandleAndAnswer(actions, i, xid, bytes);
    } else {
      all := DeliverAndAnswer(actions, xid, bytes);
    }
  }
}
