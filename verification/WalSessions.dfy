/**
 Sessions one after another: each starts with empty memory on the disk and the log that the recovery before
 it left, and ends in a crash and a recovery. When the disk holds what the committed actions of all
 sessions wrote.
 */
module WalSessions {
  import opened Options
  import opened WalModel
  import opened WalRecovery

  /** The records a session wrote, and those that the recovery after it appended. */
  datatype Finished = Finished(session: Log, tail: Log)

  type History = seq<Finished>

  function Before(h: History): History
    requires h != []
  {
    h[..|h| - 1]
  }

  function Latest(h: History): Finished
    requires h != []
  {
    h[|h| - 1]
  }

  /** The log file. */
  function LogOf(h: History): Log {
    if h == [] then [] else LogOf(Before(h)) + Latest(h).session + Latest(h).tail
  }

  /** The disk after the last recovery, which reads the whole log file. */
  function DiskAfter(mode: Mode, h: History): Db {
    if h == [] then map[]
    else
      var s := Latest(h).session;
      Recovered(mode, OnDisk(mode, DiskAfter(mode, Before(h)), s), LogOf(Before(h)) + s)
  }

  /** What the committed actions of all sessions wrote. */
  function Due(h: History): Db {
    Replay(map[], LogOf(h), CommittedIn(LogOf(h)))
  }

  /** A session on some log file: its memory knows nothing of it, and its action numbers are new. */
  predicate SessionOn(log: Log, session: Log) {
    Legal(session) && Begun(session) !! Begun(log)
  }

  predicate Possible(mode: Mode, h: History) {
    h == [] ||
    (Possible(mode, Before(h)) && SessionOn(LogOf(Before(h)), Latest(h).session)
     && Closing(mode, LogOf(Before(h)) + Latest(h).session, Latest(h).tail))
  }

  predicate AllDistinct(h: History) {
    forall f | f in h :: DistinctBalances(f.session)
  }

  // ---- Logs put together -----------------------------------------------------------------------------------

  lemma Joined(a: Log, b: Log)
    ensures Begun(a + b) == Begun(a) + Begun(b) && Resolved(a + b) == Resolved(a) + Resolved(b)
    ensures Ended(a + b) == Ended(a) + Ended(b) && CommittedIn(a + b) == CommittedIn(a) + CommittedIn(b)
    ensures Resolved(a) <= Begun(a) && Ended(a) <= Begun(a) && CommittedIn(a) <= Resolved(a)
  {
  }

  lemma {:induction false} ReplayJoined(db: Db, a: Log, b: Log, who: set<nat>)
    ensures Replay(db, a + b, who) == Replay(Replay(db, a, who), b, who)
  {
    if b == [] {
      assert a + b == a;
    } else {
      assert Front(a + b) == a + Front(b) && Last(a + b) == Last(b);
      ReplayJoined(db, a, Front(b), who);
    }
  }

  lemma {:induction false} UndoneJoined(db: Db, a: Log, b: Log, who: set<nat>)
    ensures Undone(db, a + b, who) == Undone(Undone(db, b, who), a, who)
    decreases |b|
  {
    if b == [] {
      assert a + b == a;
    } else {
      var r := Last(b);
      assert Front(a + b) == a + Front(b) && Last(a + b) == r;
      UndoneJoined(if r.Update? && r.tid in who then UndoOne(db, r) else db, a, Front(b), who);
    }
  }

  lemma {:induction false} UndoRunsJoined(db: Db, a: Log, b: Log, who: set<nat>)
    requires UndoRuns(db, b, who) && Begun(a) !! who
    ensures UndoRuns(db, a + b, who)
    decreases |a| + |b|
  {
    if b != [] {
      var r := Last(b);
      assert Front(a + b) == a + Front(b) && Last(a + b) == r;
      UndoRunsJoined(if r.Update? && r.tid in who then UndoOne(db, r) else db, a, Front(b), who);
    } else if a != [] {
      assert a + b == a && a[..|a| - 1] + [] == Front(a);
      assert Last(a) in a;
      assert forall r | r in Front(a) :: r in a;
      UndoRunsJoined(db, Front(a), [], who);
    }
  }

  /** Nothing is replayed or undone for actions that are not in the log. */
  lemma {:induction false} NoneOf(db: Db, log: Log, who: set<nat>)
    requires Begun(log) !! who
    ensures Replay(db, log, who) == db && Undone(db, log, who) == db
  {
    if log != [] {
      assert Last(log) in log;
      assert forall r | r in Front(log) :: r in log;
      NoneOf(db, Front(log), who);
    }
  }

  lemma OrderedJoined(a: Log, b: Log)
    requires Ordered(a) && Ordered(b) && Begun(a) !! Begun(b)
    ensures Ordered(a + b)
  {
    Joined(a, b);
    var log := a + b;
    forall i, j | 0 <= i < j < |log| ensures InOrder(log[i], log[j]) {
      if j < |a| {
        assert InOrder(a[i], a[j]);
      } else if i >= |a| {
        assert InOrder(b[i - |a|], b[j - |a|]);
      } else {
        assert a[i].tid in Begun(a) && b[j - |a|].tid in Begun(b);
      }
    }
  }

  // ---- A session on the log of the ones before -----------------------------------------------------------------

  /** Recovery looks at the last session only: the others are settled. */
  lemma RecoveredAlone(mode: Mode, db: Db, log: Log, session: Log)
    requires Settled(mode, log) && SessionOn(log, session)
    ensures Recovered(mode, db, log + session) == Recovered(mode, db, session)
    ensures mode == Undo ==> Losers(log + session) == Losers(session)
  {
    Joined(log, session);
    Joined(session, []);
    if mode == Undo {
      forall t | t in Begun(log) ensures t in Resolved(log) + Ended(log) {
        assert t !in Losers(log);
      }
      assert Losers(log + session) == Losers(session);
      UndoneJoined(db, log, session, Losers(session));
      NoneOf(Undone(db, session, Losers(session)), log, Losers(session));
    } else {
      var who := CommittedIn(session) - Ended(session);
      assert CommittedIn(log + session) - Ended(log + session) == who;
      ReplayJoined(db, log, session, who);
      NoneOf(db, log, who);
    }
  }

  /** What is due after a session: what was due before, and what its committed actions wrote. */
  lemma DueAfter(mode: Mode, log: Log, session: Log, tail: Log)
    requires SessionOn(log, session) && Closing(mode, log + session, tail)
    ensures var whole := log + session + tail;
            Replay(map[], whole, CommittedIn(whole)) == Replay(Replay(map[], log, CommittedIn(log)), session, CommittedIn(session))
  {
    var whole := log + session + tail;
    var who := CommittedIn(whole);
    Joined(log, session);
    Joined(session, []);
    Joined(log + session, tail);
    assert CommittedIn(tail) == {};
    assert who == CommittedIn(log) + CommittedIn(session);
    ReplayJoined(map[], log + session, tail, who);
    NoUpdates(Replay(map[], log + session, who), tail, who);
    ReplayJoined(map[], log, session, who);
    assert forall r | r in log :: r.tid in Begun(log);
    assert forall r | r in session :: r.tid in Begun(session);
    ReplaySame(map[], log, who, CommittedIn(log));
    ReplaySame(Replay(map[], log, who), session, who, CommittedIn(session));
  }

  lemma {:induction false} NoUpdates(db: Db, log: Log, who: set<nat>)
    requires forall r | r in log :: !r.Update?
    ensures Replay(db, log, who) == db
  {
    if log != [] {
      assert Last(log) in log;
      NoUpdates(db, Front(log), who);
    }
  }

  lemma {:induction false} PossibleLog(mode: Mode, h: History)
    requires Possible(mode, h)
    ensures Settled(mode, LogOf(h)) && Ordered(LogOf(h))
  {
    if h != [] {
      var log, f := LogOf(Before(h)), Latest(h);
      PossibleLog(mode, Before(h));
      LegalOrdered(f.session);
      OrderedJoined(log, f.session);
      ClosingSettles(mode, log + f.session, f.tail);
      ClosedOrdered(mode, log + f.session, f.tail);
    }
  }

  /** What recovery appends comes last for each action. */
  lemma ClosedOrdered(mode: Mode, log: Log, tail: Log)
    requires Ordered(log) && Closing(mode, log, tail)
    ensures Ordered(log + tail)
  {
    var whole := log + tail;
    Joined(log, tail);
    forall r | r in tail && r.End? ensures r.tid in Resolved(log) {
      assert r.tid in Begun(tail);
    }
    forall i, j | 0 <= i < j < |whole| ensures InOrder(whole[i], whole[j]) {
      if j < |log| {
        assert InOrder(log[i], log[j]);
      } else if i < |log| {
        ClosedPair(mode, log, tail, log[i], tail[j - |log|]);
      } else {
        assert tail[i - |log|].tid != tail[j - |log|].tid;
      }
    }
  }

  lemma ClosedPair(mode: Mode, log: Log, tail: Log, r: Record, s: Record)
    requires Closing(mode, log, tail) && r in log && s in tail
    ensures InOrder(r, s)
  {
    assert s.tid in Begun(tail);
  }

  // ---- One account -----------------------------------------------------------------------------------------------

  /**
   In the last session that touched the account nobody updated it after a loser did, and no loser created it
   although a committed action of an earlier session had set it; with redo logging, in the last session that
   committed to it, its last committed update is not flushed before an earlier one.
   */
  predicate SoundAt(mode: Mode, h: History, x: string) {
    h == [] ||
    var session := Latest(h).session;
    if mode == Undo then
      if Touches(session, x) then
        LosersLastAt(session, x) && !(LoserCreates(session, x) && LastCommit(LogOf(Before(h)), x) >= 0)
      else SoundAt(mode, Before(h), x)
    else
      if LastCommit(session, x) >= 0 then LastEndsLastAt(session, x) else SoundAt(mode, Before(h), x)
  }

  lemma {:induction false} AccountExactly(mode: Mode, h: History, x: string)
    requires Possible(mode, h)
    ensures SoundAt(mode, h, x) ==> SameValue(DiskAfter(mode, h), Due(h), x)
    ensures AllDistinct(h) && SameValue(DiskAfter(mode, h), Due(h), x) ==> SoundAt(mode, h, x)
  {
    if h != [] {
      var before, f := Before(h), Latest(h);
      var db, e0 := DiskAfter(mode, before), Due(before);
      AccountExactly(mode, before, x);
      PossibleLog(mode, before);
      RecoveredAlone(mode, OnDisk(mode, db, f.session), LogOf(before), f.session);
      DueAfter(mode, LogOf(before), f.session, f.tail);
      ReplayValue(map[], LogOf(before), CommittedIn(LogOf(before)), x);
      if mode == Undo {
        LastSession(db, e0, f.session, x);
      } else {
        LastRedoSession(db, e0, f.session, x);
      }
    }
  }

  lemma LastSession(db: Db, e0: Db, log: Log, x: string)
    requires Legal(log)
    ensures UndoRight(db, e0, log, x) ==> SameValue(AfterUndo(db, log), Replay(e0, log, CommittedIn(log)), x)
    ensures DistinctBalances(log) && SameValue(AfterUndo(db, log), Replay(e0, log, CommittedIn(log)), x) ==> UndoRight(db, e0, log, x)
  {
    if UndoRight(db, e0, log, x) {
      UndoRightAt(db, e0, log, x);
    } else if DistinctBalances(log) {
      UndoWrongAt(db, e0, log, x);
    }
  }

  lemma LastRedoSession(db: Db, e0: Db, log: Log, x: string)
    requires Legal(log)
    ensures RedoRight(db, e0, log, x) ==> SameValue(AfterRedo(db, log), Replay(e0, log, CommittedIn(log)), x)
    ensures DistinctBalances(log) && SameValue(AfterRedo(db, log), Replay(e0, log, CommittedIn(log)), x) ==> RedoRight(db, e0, log, x)
  {
    if RedoRight(db, e0, log, x) {
      RedoRightAt(db, e0, log, x);
    } else if DistinctBalances(log) {
      RedoWrongAt(db, e0, log, x);
    }
  }

  // ---- All sessions -------------------------------------------------------------------------------------------------

  ghost predicate Sound(mode: Mode, h: History) {
    forall x :: SoundAt(mode, h, x)
  }

  lemma {:induction false} SessionsRecover(mode: Mode, h: History)
    requires Possible(mode, h) && Sound(mode, h)
    ensures DiskAfter(mode, h) == Replay(map[], LogOf(h), CommittedIn(LogOf(h)))
  {
    forall x ensures SameValue(DiskAfter(mode, h), Due(h), x) {
      AccountExactly(mode, h, x);
    }
    SameDb(DiskAfter(mode, h), Due(h));
  }

  /**
   After any sessions, crashes and recoveries the disk holds what the committed actions of all sessions wrote
   exactly if every account is sound.
   */
  lemma {:induction false} SessionsRecoverExactly(mode: Mode, h: History)
    requires Possible(mode, h) && AllDistinct(h)
    ensures DiskAfter(mode, h) == Replay(map[], LogOf(h), CommittedIn(LogOf(h))) <==> Sound(mode, h)
  {
    if Sound(mode, h) {
      SessionsRecover(mode, h);
    } else {
      var x :| !SoundAt(mode, h, x);
      AccountExactly(mode, h, x);
    }
  }

  /** A session that a caller can check as it goes, looking at the disk before creating an account. */
  ghost predicate Careful(mode: Mode, db: Db, session: Log) {
    if mode == Undo then LosersLast(session) && CreatesNew(db, session) else LastEndsLast(session)
  }

  ghost predicate AllCareful(mode: Mode, h: History) {
    h == [] || (AllCareful(mode, Before(h)) && Careful(mode, DiskAfter(mode, Before(h)), Latest(h).session))
  }

  /** Every recovery so far left the disk right. */
  predicate AllRight(mode: Mode, h: History) {
    h == [] || (AllRight(mode, Before(h)) && DiskAfter(mode, h) == Due(h))
  }

  lemma {:induction false} RightNow(mode: Mode, h: History)
    requires AllRight(mode, h)
    ensures DiskAfter(mode, h) == Due(h)
  {
  }

  /** All recoveries leave the disk right exactly if all sessions were careful on the disk they found. */
  lemma {:induction false} AllRightExactly(mode: Mode, h: History)
    requires Possible(mode, h) && AllDistinct(h)
    ensures AllRight(mode, h) <==> AllCareful(mode, h)
  {
    if h != [] {
      var before, f := Before(h), Latest(h);
      AllRightExactly(mode, before);
      if AllRight(mode, before) {
        RightNow(mode, before);
        PossibleLog(mode, before);
        RecoveredAlone(mode, OnDisk(mode, Due(before), f.session), LogOf(before), f.session);
        DueAfter(mode, LogOf(before), f.session, f.tail);
        assert f in h;
        if mode == Undo {
          UndoRecoversExactly(Due(before), f.session);
        } else {
          RedoRecoversExactly(Due(before), f.session);
        }
      }
    }
  }

  /** Every session's actions do not overlap on an account, and no loser created one that an earlier session committed. */
  ghost predicate AllExclusive(mode: Mode, h: History) {
    h == [] ||
    (AllExclusive(mode, Before(h)) && Exclusive(mode, Latest(h).session)
     && (mode == Undo ==> forall x {:trigger LoserCreates(Latest(h).session, x)} ::
           LoserCreates(Latest(h).session, x) ==> LastCommit(LogOf(Before(h)), x) < 0))
  }

  lemma {:induction false} ExclusiveIsSound(mode: Mode, h: History, x: string)
    requires Possible(mode, h) && AllExclusive(mode, h)
    ensures SoundAt(mode, h, x)
  {
    if h != [] {
      ExclusiveIsSound(mode, Before(h), x);
      if mode == Undo {
        ExclusiveLosersLast(Latest(h).session);
      } else {
        ExclusiveLastEndsLast(Latest(h).session);
      }
    }
  }

  lemma {:induction false} ExclusiveSessionsRecover(mode: Mode, h: History)
    requires Possible(mode, h) && AllExclusive(mode, h)
    ensures DiskAfter(mode, h) == Replay(map[], LogOf(h), CommittedIn(LogOf(h)))
  {
    forall x ensures SoundAt(mode, h, x) {
      ExclusiveIsSound(mode, h, x);
    }
    SessionsRecover(mode, h);
  }

  // ---- An account created again after a restart ------------------------------------------------------------------------

  /** A session that creates an account and ends, and one that creates it again, since memory does not know it, and crashes. */
  function CreatedAgain(x: string): History {
    [Finished(Setting([], 1, x, 10) + [End(1)], []),
     Finished([Start(2)] + [Update(2, x, 20, None)], [Outcome(2, Aborted)])]
  }

  lemma FirstCommit(x: string)
    ensures var a := Setting([], 1, x, 10);
            Legal(a) && Begun(a) == {1} && Resolved(a) == {1} && Ended(a) == {} && Current(a) == map[x := 10]
  {
    var a := Setting([], 1, x, 10);
    assert Begun([]) == Resolved([]) == Ended([]) == {};
    SettingIsLegal([], 1, x, 10);
    assert [] + a == a && Current([]) == map[];
  }

  lemma FirstSession(x: string)
    ensures var s := Setting([], 1, x, 10) + [End(1)];
            && Legal(s) && Begun(s) == {1} && CommittedIn(s) == {1} && Losers(s) == {} && Current(s) == map[x := 10]
  {
    var a := Setting([], 1, x, 10);
    FirstCommit(x);
    Appended(a, End(1));
    assert (a + [End(1)])[2] == Outcome(1, Committed);
    LegalOrdered(a + [End(1)]);
  }

  lemma SecondDisk(x: string)
    ensures OnDisk(Undo, map[x := 10], [Start(2)] + [Update(2, x, 20, None)]) == map[x := 20]
  {
    var s, db: Db := [Start(2)] + [Update(2, x, 20, None)], map[x := 10];
    NoUpdates(db, [Start(2)], Begun(s));
    assert s[1].tid in Begun(s);
    assert Front(s) == [Start(2)] && Replay(db, s, Begun(s)) == db[x := 20];
  }

  lemma SecondSession(x: string)
    ensures var s := [Start(2)] + [Update(2, x, 20, None)];
            && Legal(s) && Begun(s) == {2} && CommittedIn(s) == {} && Losers(s) == {2}
            && LoserCreates(s, x) && DistinctBalances(s) && OnDisk(Undo, map[x := 10], s) == map[x := 20]
  {
    Appended([], Start(2));
    assert [] + [Start(2)] == [Start(2)];
    var update := Update(2, x, 20, None);
    Appended([Start(2)], update);
    var s := [Start(2)] + [update];
    LegalOrdered(s);
    assert s[1] in s && Creates(s[1], Losers(s), x);
    SecondDisk(x);
  }

  /** The disk is right after the first session. */
  lemma FirstRecovery(x: string)
    ensures var h := CreatedAgain(x)[..1];
            Possible(Undo, h) && DiskAfter(Undo, h) == map[x := 10] && LogOf(h) == Setting([], 1, x, 10) + [End(1)]
    ensures Due(CreatedAgain(x)[..1]) == map[x := 10]
  {
    var s := Setting([], 1, x, 10) + [End(1)];
    FirstSession(x);
    OneSession(Undo, s, []);
    assert CreatedAgain(x)[..1] == [Finished(s, [])] && s + [] == s;
    NobodyUndone(Current(s), s);
    assert OnDisk(Undo, map[], s) == Current(s);
  }

  lemma OneSession(mode: Mode, session: Log, tail: Log)
    requires Legal(session) && Closing(mode, session, tail)
    ensures var h := [Finished(session, tail)];
            && Possible(mode, h) && LogOf(h) == session + tail
            && DiskAfter(mode, h) == Recovered(mode, OnDisk(mode, map[], session), session)
  {
    var h := [Finished(session, tail)];
    assert Before(h) == [] && Latest(h) == h[0];
    assert [] + session == session;
    assert SessionOn([], session);
  }

  lemma SecondUndone(x: string)
    ensures Undone(map[x := 20], [Start(2)] + [Update(2, x, 20, None)], {2}) == map[]
  {
    var s, first: Log, db: Db := [Start(2)] + [Update(2, x, 20, None)], [Start(2)], map[x := 20];
    assert Front(s) == first && Last(s) == Update(2, x, 20, None) && Front(first) == [];
    assert db - {x} == map[];
  }

  /** The second session deletes what it finds. */
  lemma SecondRecovery(log: Log, x: string)
    requires Settled(Undo, log) && Begun(log) == {1}
    ensures var s := [Start(2)] + [Update(2, x, 20, None)];
            && SessionOn(log, s) && Closing(Undo, log + s, [Outcome(2, Aborted)])
            && Recovered(Undo, map[x := 20], log + s) == map[]
            && Replay(map[x := 10], s, CommittedIn(s)) == map[x := 10]
  {
    var s := [Start(2)] + [Update(2, x, 20, None)];
    SecondSession(x);
    RecoveredAlone(Undo, map[x := 20], log, s);
    assert Begun([Outcome(2, Aborted)]) == {2};
    NobodyUndone(map[x := 10], s);
    SecondUndone(x);
  }

  /** The program gets there, and undoing the second session deletes the account that the first one committed. */
  lemma RestartLosesAccount(x: string)
    ensures var h := CreatedAgain(x);
            && Possible(Undo, h) && OnDisk(Undo, DiskAfter(Undo, h[..1]), h[1].session) == map[x := 20]
            && DiskAfter(Undo, h) == map[] && Due(h) == map[x := 10]
  {
    var h := CreatedAgain(x);
    var log := LogOf(h[..1]);
    FirstSession(x);
    SecondSession(x);
    FirstRecovery(x);
    PossibleLog(Undo, h[..1]);
    SecondRecovery(log, x);
    assert Before(h) == h[..1] && Latest(h) == h[1];
    DueAfter(Undo, log, h[1].session, h[1].tail);
  }
}
