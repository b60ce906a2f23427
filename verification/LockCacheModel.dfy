/**
 The caching lock protocol for one lock: what each client knows of the lock, the server's queue, and
 every thread's place in it, including how far the calls it waits for have got. Each action is one
 section under one mutex, or the arrival of one message; all interleavings are runs.
 */
module LockCacheModel {

  datatype Status = NONE | FREE | LOCKED | ACQUIRING | RELEASING

  /** A release call: on its way, waiting for the retry it sent to the next client, or answered. */
  datatype ReleaseCall = ReleaseSent | Retrying(next: int) | ReleaseAnswered

  /**
   An acquire call: on its way, waiting for the revoke it sent to the previous client, for the release
   that the previous client's revoke handler is doing, or answered with OK or RETRY.
   */
  datatype AcquireCall =
    | AcquireSent
    | Revoking(previous: int)
    | RevokeReleasing(previous: int, call: ReleaseCall)
    | AcquireAnswered(ok: bool)

  /** Where a thread is; `RetryWait` and `FreeWait` are the two waiting loops of acquire. */
  datatype Pc =
    | Outside
    | FreeWait
    | Acquiring(acquire: AcquireCall)
    | RetryWait
    | Holding
    | Releasing(release: ReleaseCall)

  /** The thread is past the point where it took the lock's state for itself. */
  predicate Engaged(pc: Pc) {
    !pc.Outside? && !pc.FreeWait?
  }

  // ---- The client's sections ----------------------------------------------------------------------

  /** Take the lock if it is free, fetch it if the client does not have it, otherwise wait. */
  function TakeOrWait(status: Status): (Status, Pc) {
    match status
    case NONE => (ACQUIRING, Acquiring(AcquireSent))
    case FREE => (LOCKED, Holding)
    case _ => (status, FreeWait)
  }

  /** The loop after a RETRY answer. */
  function RetryLoop(status: Status): (Status, Pc) {
    match status
    case NONE => (ACQUIRING, Acquiring(AcquireSent))
    case FREE => (LOCKED, Holding)
    case LOCKED => (LOCKED, Holding)
    case _ => (status, RetryWait)
  }

  function AfterAnswer(status: Status, ok: bool): (Status, Pc) {
    if ok then (LOCKED, Holding) else RetryLoop(status)
  }

  function StartRelease(flag: bool): (Status, Pc) {
    if flag then (RELEASING, Releasing(ReleaseSent)) else (FREE, Outside)
  }

  /** The revoke handler: release at once if the lock is free, otherwise remember. */
  function HandleRevoke(status: Status, flag: bool): (Status, bool) {
    if status == FREE then (RELEASING, flag) else (status, true)
  }

  function HandleRetry(status: Status): Status {
    if status == ACQUIRING then LOCKED else status
  }

  // ---- The server's sections ------------------------------------------------------------------------

  function ServerAcquire(queue: seq<int>, client: int): (seq<int>, AcquireCall) {
    (queue + [client], if queue == [] then AcquireAnswered(true) else Revoking(queue[|queue| - 1]))
  }

  function ServerRelease(queue: seq<int>): (seq<int>, ReleaseCall)
    requires queue != []
  {
    (queue[1..], if |queue| == 1 then ReleaseAnswered else Retrying(queue[1]))
  }

  // ---- The system ------------------------------------------------------------------------------------

  datatype Thread = Thread(client: int, pc: Pc)

  datatype System = System(queue: seq<int>, status: map<int, Status>, flag: map<int, bool>, threads: map<int, Thread>)

  /** A client that never asked for the lock does not have it. */
  function StatusOf(s: System, c: int): Status {
    if c in s.status then s.status[c] else NONE
  }

  function FlagOf(s: System, c: int): bool {
    c in s.flag && s.flag[c]
  }

  datatype Action =
    | EnterAcquire(t: int)
    | WakeFree(t: int)
    | WakeRetry(t: int)
    | EnterRelease(t: int)
    | ServeAcquire(t: int)
    | ArriveRevoke(t: int)
    | ServeRelease(t: int)
    | ArriveRetry(t: int)
    | ReturnRelease(t: int)
    | ReturnAcquire(t: int)

  /** The release call a thread waits for, whether its own or the one its revoke caused. */
  function ReleaseOf(pc: Pc): (call: seq<ReleaseCall>)
    ensures |call| <= 1
  {
    match pc
    case Releasing(call) => [call]
    case Acquiring(RevokeReleasing(_, call)) => [call]
    case _ => []
  }

  function WithRelease(pc: Pc, call: ReleaseCall): Pc
    requires ReleaseOf(pc) != []
  {
    match pc
    case Releasing(_) => Releasing(call)
    case Acquiring(RevokeReleasing(p, _)) => Acquiring(RevokeReleasing(p, call))
  }

  function PcOf(s: System, t: int): Pc {
    if t in s.threads then s.threads[t].pc else Outside
  }

  predicate Enabled(s: System, a: Action) {
    a.t in s.threads &&
    var pc := PcOf(s, a.t);
    match a
    case EnterAcquire(_) => pc.Outside?
    case WakeFree(_) => pc.FreeWait?
    case WakeRetry(_) => pc.RetryWait?
    case EnterRelease(_) => pc.Holding?
    case ServeAcquire(_) => pc == Acquiring(AcquireSent)
    case ArriveRevoke(_) => pc.Acquiring? && pc.acquire.Revoking?
    case ServeRelease(_) => ReleaseOf(pc) == [ReleaseSent]
    case ArriveRetry(_) => ReleaseOf(pc) != [] && ReleaseOf(pc)[0].Retrying?
    case ReturnRelease(_) => ReleaseOf(pc) == [ReleaseAnswered]
    case ReturnAcquire(_) => pc.Acquiring? && pc.acquire.AcquireAnswered?
  }

  function Moved(s: System, t: int, pc: Pc): System
    requires t in s.threads
  {
    s.(threads := s.threads[t := s.threads[t].(pc := pc)])
  }

  function MovedWith(s: System, t: int, next: (Status, Pc)): System
    requires t in s.threads
  {
    Moved(s, t, next.1).(status := s.status[s.threads[t].client := next.0])
  }

  /** The server pops its queue without looking whether it is empty. */
  predicate SafeToServe(s: System, a: Action) {
    a.ServeRelease? ==> s.queue != []
  }

  function Next(s: System, a: Action): System
    requires Enabled(s, a) && SafeToServe(s, a)
  {
    var t := a.t;
    var c, pc := s.threads[t].client, s.threads[t].pc;
    match a
    case EnterAcquire(_) => MovedWith(s, t, TakeOrWait(StatusOf(s, c)))
    case WakeFree(_) => MovedWith(s, t, TakeOrWait(StatusOf(s, c)))
    case WakeRetry(_) => MovedWith(s, t, RetryLoop(StatusOf(s, c)))
    case EnterRelease(_) => MovedWith(s, t, StartRelease(FlagOf(s, c)))
    case ServeAcquire(_) =>
      var (queue, call) := ServerAcquire(s.queue, c);
      Moved(s, t, Acquiring(call)).(queue := queue)
    case ArriveRevoke(_) =>
      var p := pc.acquire.previous;
      var (status, flag) := HandleRevoke(StatusOf(s, p), FlagOf(s, p));
      Moved(s, t, Acquiring(if StatusOf(s, p) == FREE then RevokeReleasing(p, ReleaseSent) else AcquireAnswered(false))).(
        status := s.status[p := status], flag := s.flag[p := flag])
    case ServeRelease(_) =>
      var (queue, call) := ServerRelease(s.queue);
      Moved(s, t, WithRelease(pc, call)).(queue := queue)
    case ArriveRetry(_) =>
      var f := ReleaseOf(pc)[0].next;
      Moved(s, t, WithRelease(pc, ReleaseAnswered)).(status := s.status[f := HandleRetry(StatusOf(s, f))])
    case ReturnRelease(_) =>
      if pc.Releasing? then Moved(s, t, Outside).(status := s.status[c := NONE], flag := s.flag[c := false])
      else Moved(s, t, Acquiring(AcquireAnswered(true))).(status := s.status[pc.acquire.previous := NONE])
    case ReturnAcquire(_) => MovedWith(s, t, AfterAnswer(StatusOf(s, c), pc.acquire.ok))
  }

  /** All threads outside, and no client has heard of the lock. */
  predicate Initial(s: System) {
    s.queue == [] && s.status == map[] && s.flag == map[] && forall t | t in s.threads :: s.threads[t].pc == Outside
  }

  ghost predicate Reached(init: System, actions: seq<Action>, s: System) {
    if actions == [] then Initial(init) && s == init
    else
      var before, a := actions[..|actions| - 1], actions[|actions| - 1];
      exists r :: Reached(init, before, r) && Enabled(r, a) && SafeToServe(r, a) && s == Next(r, a)
  }

  /** The state a list of actions leads to; actions that cannot happen are skipped. */
  function StateAfter(init: System, actions: seq<Action>): System {
    if actions == [] then init
    else
      var r, a := StateAfter(init, actions[..|actions| - 1]), actions[|actions| - 1];
      if Enabled(r, a) && SafeToServe(r, a) then Next(r, a) else r
  }
}
