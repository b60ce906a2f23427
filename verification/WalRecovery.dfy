/** Recovery leaves on disk what the committed actions wrote, and exactly when it does. */
module WalRecovery {
  import opened Options
  import opened WalModel

  // ---- The last and the first update of an account ---------------------------------------------------------

  predicate Hits(r: Record, who: set<nat>, x: string) {
    r.Update? && r.tid in who && r.name == x
  }

  function LastAt(log: Log, who: set<nat>, x: string): (k: int)
    ensures -1 <= k < |log| && (k >= 0 ==> Hits(log[k], who, x))
    ensures forall i | k < i < |log| :: !Hits(log[i], who, x)
  {
    if log == [] then -1
    else if Hits(Last(log), who, x) then |log| - 1
    else LastAt(Front(log), who, x)
  }

  function FirstAt(log: Log, who: set<nat>, x: string): (k: nat)
    ensures k <= |log| && (k < |log| ==> Hits(log[k], who, x))
    ensures forall i | 0 <= i < k :: !Hits(log[i], who, x)
  {
    if log == [] then 0
    else
      var k := FirstAt(Front(log), who, x);
      if k < |log| - 1 || Hits(Last(log), who, x) then k else |log|
  }

  lemma {:induction false} ReplayValue(db: Db, log: Log, who: set<nat>, x: string)
    ensures var k := LastAt(log, who, x);
            Lookup(Replay(db, log, who), x) == if k >= 0 then Some(log[k].redo) else Lookup(db, x)
  {
    if log != [] {
      ReplayValue(db, Front(log), who, x);
    }
  }

  lemma {:induction false} UndoneValue(db: Db, log: Log, who: set<nat>, x: string)
    ensures var k := FirstAt(log, who, x);
            Lookup(Undone(db, log, who), x) == if k < |log| then log[k].undo else Lookup(db, x)
    decreases |log|
  {
    if log != [] {
      var r := Last(log);
      UndoneValue(if r.Update? && r.tid in who then UndoOne(db, r) else db, Front(log), who, x);
    }
  }

  // ---- One more record ----------------------------------------------------------------------------------------

  lemma {:induction false} ReplaySame(db: Db, log: Log, who: set<nat>, who': set<nat>)
    requires forall r | r in log :: r.tid in who <==> r.tid in who'
    ensures Replay(db, log, who) == Replay(db, log, who')
  {
    if log != [] {
      ReplaySame(db, Front(log), who, who');
    }
  }

  lemma Appended(log: Log, r: Record)
    ensures Front(log + [r]) == log && Last(log + [r]) == r
    ensures Begun(log + [r]) == Begun(log) + {r.tid}
    ensures Resolved(log + [r]) == Resolved(log) + (if r.Outcome? then {r.tid} else {})
    ensures Ended(log + [r]) == Ended(log) + (if r.End? then {r.tid} else {})
    ensures Current(log + [r]) == if r.Update? then Current(log)[r.name := r.redo] else Current(log)
    ensures Legal(log + [r]) <==> Legal(log) && Permitted(log, r)
  {
    assert Front(log + [r]) == log;
    assert forall s | s in log :: s.tid in Begun(log);
    ReplaySame(map[], log, Begun(log + [r]), Begun(log));
  }

  // ---- What every session's log is like ----------------------------------------------------------------------

  lemma {:induction false} LegalUpdates(log: Log, p: nat)
    requires Legal(log) && p < |log| && log[p].Update?
    ensures log[p].undo == Lookup(Current(log[..p]), log[p].name)
  {
    if p < |log| - 1 {
      LegalUpdates(Front(log), p);
      assert Front(log)[..p] == log[..p];
    }
  }

  lemma {:induction false} LegalOrdered(log: Log)
    requires Legal(log)
    ensures Ordered(log) && Resolved(log) == CommittedIn(log)
  {
    if log != [] {
      var before, r := Front(log), Last(log);
      LegalOrdered(before);
      assert log == before + [r];
      forall i, j | 0 <= i < j < |log| ensures InOrder(log[i], log[j]) {
        if j < |before| {
          assert InOrder(before[i], before[j]);
        } else {
          assert before[i] in before;
        }
      }
      assert Ended(log) == Ended(before) + if r.End? then {r.tid} else {};
      assert Resolved(log) == Resolved(before) + if r.Outcome? then {r.tid} else {};
    }
  }

  /** In a session's log the updates are those of committed actions and those of losers. */
  lemma UpdaterIs(log: Log, i: nat)
    requires Legal(log) && i < |log|
    ensures log[i].tid in Losers(log) <==> log[i].tid !in CommittedIn(log)
  {
    LegalOrdered(log);
    assert log[i] in log;
  }

  lemma {:induction false} SameHits(log: Log, who: set<nat>, who': set<nat>, x: string)
    requires forall i | 0 <= i < |log| :: Hits(log[i], who, x) <==> Hits(log[i], who', x)
    ensures LastAt(log, who, x) == LastAt(log, who', x)
  {
    if log != [] {
      SameHits(Front(log), who, who', x);
    }
  }

  // ---- Undo recovery -------------------------------------------------------------------------------------------

  predicate SameValue(db: Db, db': Db, x: string) {
    Lookup(db, x) == Lookup(db', x)
  }

  lemma SameDb(db: Db, db': Db)
    requires forall x :: SameValue(db, db', x)
    ensures db == db'
  {
    forall x | x in db ensures x in db' && db[x] == db'[x] {
      assert SameValue(db, db', x);
    }
    forall x | x in db' ensures x in db {
      assert SameValue(db, db', x);
    }
    assert db.Keys == db'.Keys;
  }

  /** The disk after a session on some disk, a crash and an undo recovery. */
  function AfterUndo(db: Db, log: Log): Db {
    Recovered(Undo, OnDisk(Undo, db, log), log)
  }

  function LastCommit(log: Log, x: string): (c: int)
    ensures -1 <= c < |log| && (c >= 0 ==> Hits(log[c], CommittedIn(log), x))
  {
    LastAt(log, CommittedIn(log), x)
  }

  /** What an account is left with: what memory had before the first loser touched it. */
  lemma AfterUndoValue(db: Db, log: Log, x: string)
    requires Legal(log)
    ensures var p := FirstAt(log, Losers(log), x);
            var k := LastAt(log[..p], CommittedIn(log), x);
            Lookup(AfterUndo(db, log), x) == if k >= 0 then Some(log[k].redo) else if p < |log| then None else Lookup(db, x)
    ensures var p := FirstAt(log, Losers(log), x);
            p < |log| ==> log[p].undo == Lookup(AfterUndo(db, log), x)
  {
    var p := FirstAt(log, Losers(log), x);
    UndoneValue(OnDisk(Undo, db, log), log, Losers(log), x);
    var before := if p < |log| then map[] else db;
    if p < |log| {
      LegalUpdates(log, p);
    } else {
      assert log[..p] == log;
    }
    ReplayValue(before, log[..p], Begun(log[..p]), x);
    forall i | 0 <= i < p ensures Hits(log[..p][i], Begun(log[..p]), x) <==> Hits(log[..p][i], CommittedIn(log), x) {
      UpdaterIs(log, i);
      assert log[i] in log[..p];
      assert !Hits(log[i], Losers(log), x);
    }
    SameHits(log[..p], Begun(log[..p]), CommittedIn(log), x);
  }

  /** The last hit of a prefix is the last hit of the whole if there is none after it. */
  lemma LastInPrefix(log: Log, p: nat, who: set<nat>, x: string)
    requires p <= |log| && forall i | p <= i < |log| :: !Hits(log[i], who, x)
    ensures LastAt(log[..p], who, x) == LastAt(log, who, x)
  {
    var k, k' := LastAt(log, who, x), LastAt(log[..p], who, x);
    if k >= 0 {
      assert Hits(log[..p][k], who, x);
    }
    if k' >= 0 {
      assert Hits(log[k'], who, x);
    }
  }

  predicate Touches(log: Log, x: string) {
    exists r | r in log :: r.Update? && r.name == x
  }

  /**
   When a session and its undo recovery leave an account with what the committed actions wrote, if it was
   due to hold what e0 says and held what db says: nobody updated it after a loser, and no loser created
   it although it was due to exist; an untouched account must have been right before.
   */
  predicate UndoRight(db: Db, e0: Db, log: Log, x: string) {
    if Touches(log, x) then LosersLastAt(log, x) && !(LoserCreates(log, x) && x in e0) else SameValue(db, e0, x)
  }

  /** With the losers' updates last, the committed ones are all before the first of them. */
  lemma CommitsBeforeLosers(log: Log, x: string)
    requires Legal(log) && LosersLastAt(log, x)
    ensures LastAt(log[..FirstAt(log, Losers(log), x)], CommittedIn(log), x) == LastCommit(log, x)
  {
    var p, who := FirstAt(log, Losers(log), x), CommittedIn(log);
    forall i | p <= i < |log| ensures !Hits(log[i], who, x) {
      UpdaterIs(log, i);
      assert Hits(log[i], who, x) ==> i != p && SameAccount(log[p], log[i]);
    }
    LastInPrefix(log, p, who, x);
  }

  /** A loser that updates the account first has created it. */
  lemma FirstLoserCreates(db: Db, log: Log, x: string)
    requires Legal(log)
    ensures var p := FirstAt(log, Losers(log), x);
            p < |log| && LastAt(log[..p], CommittedIn(log), x) < 0 ==> LoserCreates(log, x)
  {
    AfterUndoValue(db, log, x);
    var p := FirstAt(log, Losers(log), x);
    if p < |log| && LastAt(log[..p], CommittedIn(log), x) < 0 {
      assert log[p] in log && Creates(log[p], Losers(log), x);
    }
  }

  /** If a committed update came before the first loser's, no loser created the account. */
  lemma LoserDoesNotCreate(log: Log, x: string, k: nat)
    requires Legal(log) && k < FirstAt(log, Losers(log), x) && Hits(log[k], CommittedIn(log), x)
    ensures !LoserCreates(log, x)
  {
    forall r | r in log ensures !Creates(r, Losers(log), x) {
      if Creates(r, Losers(log), x) {
        var i :| 0 <= i < |log| && log[i] == r;
        assert Hits(log[i], Losers(log), x);
        LegalUpdates(log, i);
        ReplayValue(map[], log[..i], Begun(log[..i]), x);
        assert log[k] in log[..i];
        assert Hits(log[..i][k], Begun(log[..i]), x);
      }
    }
  }

  lemma TouchedBy(log: Log, x: string)
    requires Legal(log)
    ensures Touches(log, x) <==> FirstAt(log, Losers(log), x) < |log| || LastCommit(log, x) >= 0
  {
    if Touches(log, x) {
      var r :| r in log && r.Update? && r.name == x;
      var i :| 0 <= i < |log| && log[i] == r;
      UpdaterIs(log, i);
      assert Hits(log[i], Losers(log), x) || Hits(log[i], CommittedIn(log), x);
    }
  }

  lemma UndoRightAt(db: Db, e0: Db, log: Log, x: string)
    requires Legal(log) && UndoRight(db, e0, log, x)
    ensures SameValue(AfterUndo(db, log), Replay(e0, log, CommittedIn(log)), x)
  {
    var p := FirstAt(log, Losers(log), x);
    AfterUndoValue(db, log, x);
    ReplayValue(e0, log, CommittedIn(log), x);
    TouchedBy(log, x);
    FirstLoserCreates(db, log, x);
    if Touches(log, x) {
      CommitsBeforeLosers(log, x);
    } else {
      assert log[..p] == log;
    }
  }

  lemma UndoWrongAt(db: Db, e0: Db, log: Log, x: string)
    requires Legal(log) && DistinctBalances(log) && !UndoRight(db, e0, log, x)
    ensures !SameValue(AfterUndo(db, log), Replay(e0, log, CommittedIn(log)), x)
  {
    var p, c := FirstAt(log, Losers(log), x), LastCommit(log, x);
    var k := LastAt(log[..p], CommittedIn(log), x);
    AfterUndoValue(db, log, x);
    ReplayValue(e0, log, CommittedIn(log), x);
    TouchedBy(log, x);
    if !Touches(log, x) {
      assert log[..p] == log;
    } else if !LosersLastAt(log, x) {
      var i, j :| 0 <= i < j < |log| && SameAccount(log[i], log[j]) && log[i].name == x
                  && log[i].tid in Losers(log) && log[j].tid !in Losers(log);
      UpdaterIs(log, j);
      assert Hits(log[i], Losers(log), x) && Hits(log[j], CommittedIn(log), x);
      assert p <= i && j <= c;
      assert k >= 0 ==> SameAccount(log[k], log[c]);
    } else {
      CommitsBeforeLosers(log, x);
      if k >= 0 {
        LoserDoesNotCreate(log, x, k);
      }
      CreatedByLoser(log, x);
    }
  }

  lemma CreatedByLoser(log: Log, x: string)
    requires LoserCreates(log, x)
    ensures FirstAt(log, Losers(log), x) < |log|
  {
    var r :| r in log && Creates(r, Losers(log), x);
    var i :| 0 <= i < |log| && log[i] == r;
    assert Hits(log[i], Losers(log), x);
  }

  /**
   One session on a disk that was right: it is right again after undo recovery if nobody updates an account
   after a loser did, and no loser creates an account that is on disk.
   */
  lemma UndoRecovers(db: Db, log: Log)
    requires Legal(log) && LosersLast(log) && CreatesNew(db, log)
    ensures Recovered(Undo, OnDisk(Undo, db, log), log) == Replay(db, log, CommittedIn(log))
  {
    forall x ensures SameValue(AfterUndo(db, log), Replay(db, log, CommittedIn(log)), x) {
      UndoRightAt(db, db, log, x);
    }
    SameDb(AfterUndo(db, log), Replay(db, log, CommittedIn(log)));
  }

  /** And that is the exact condition, whatever the balances are, as long as they can be told apart. */
  lemma UndoRecoversExactly(db: Db, log: Log)
    requires Legal(log) && DistinctBalances(log)
    ensures Recovered(Undo, OnDisk(Undo, db, log), log) == Replay(db, log, CommittedIn(log)) <==>
              LosersLast(log) && CreatesNew(db, log)
  {
    if LosersLast(log) && CreatesNew(db, log) {
      UndoRecovers(db, log);
    } else {
      var x :| !(LosersLastAt(log, x) && (LoserCreates(log, x) ==> x !in db));
      WrongIsTouched(log, x);
      UndoWrongAt(db, db, log, x);
    }
  }

  lemma WrongIsTouched(log: Log, x: string)
    requires !LosersLastAt(log, x) || LoserCreates(log, x)
    ensures Touches(log, x)
  {
    if LoserCreates(log, x) {
      var r :| r in log && Creates(r, Losers(log), x);
    } else {
      var i, j :| 0 <= i < j < |log| && SameAccount(log[i], log[j]) && log[i].name == x;
      assert log[i] in log;
    }
  }

  /** An account that memory does not know is on disk in a session exactly if it was there when the session started. */
  lemma CreateSeesDisk(db: Db, log: Log, x: string)
    requires x !in Current(log)
    ensures x in OnDisk(Undo, db, log) <==> x in db
  {
    ReplayValue(map[], log, Begun(log), x);
    ReplayValue(db, log, Begun(log), x);
  }

  /** Actions that release an account at their outcome, and do not overlap on it, keep the losers last. */
  lemma ExclusiveLosersLast(log: Log)
    requires Legal(log) && Exclusive(Undo, log)
    ensures LosersLast(log)
  {
    forall i, j | 0 <= i < j < |log| && SameAccount(log[i], log[j]) && log[i].tid in Losers(log)
      ensures log[j].tid in Losers(log)
    {
      forall k | i < k < j ensures !Releases(Undo, log[k], log[i].tid) {
        assert log[k] in log;
      }
    }
  }

  lemma ExclusiveUndoRecovers(db: Db, log: Log)
    requires Legal(log) && Exclusive(Undo, log) && CreatesNew(db, log)
    ensures Recovered(Undo, OnDisk(Undo, db, log), log) == Replay(db, log, CommittedIn(log))
  {
    ExclusiveLosersLast(log);
    UndoRecovers(db, log);
  }

  // ---- Redo recovery -------------------------------------------------------------------------------------------

  /** Where an account was last flushed: the last end of an action that had updated it. */
  function FlushAt(log: Log, x: string): (e: int)
    ensures -1 <= e < |log|
    ensures e >= 0 ==> log[e].End? && LastAt(log[..e], {log[e].tid}, x) >= 0
    ensures forall i | e < i < |log| && log[i].End? :: LastAt(log[..i], {log[i].tid}, x) < 0
  {
    if log == [] then -1
    else
      var r := Last(log);
      if r.End? && LastAt(Front(log), {r.tid}, x) >= 0 then |log| - 1
      else
        var e := FlushAt(Front(log), x);
        assert forall i | 0 <= i < |log| - 1 :: Front(log)[..i] == log[..i];
        e
  }

  function Flushed(log: Log, x: string): Option<int> {
    var e := FlushAt(log, x);
    if e >= 0 then Some(log[LastAt(log[..e], {log[e].tid}, x)].redo) else None
  }

  lemma {:induction false} DiskValue(db: Db, log: Log, x: string)
    ensures Lookup(OnDisk(Redo, db, log), x) == if FlushAt(log, x) >= 0 then Flushed(log, x) else Lookup(db, x)
  {
    if log != [] {
      var before, r := Front(log), Last(log);
      DiskValue(db, before, x);
      var e := FlushAt(before, x);
      if e >= 0 {
        assert before[..e] == log[..e];
      }
      if r.End? {
        ReplayValue(OnDisk(Redo, db, before), before, {r.tid}, x);
      }
    }
  }

  function Redone(log: Log): set<nat> {
    CommittedIn(log) - Ended(log)
  }

  function AfterRedo(db: Db, log: Log): Db {
    Recovered(Redo, OnDisk(Redo, db, log), log)
  }

  lemma AfterRedoValue(db: Db, log: Log, x: string)
    ensures var k := LastAt(log, Redone(log), x);
            Lookup(AfterRedo(db, log), x) ==
              if k >= 0 then Some(log[k].redo) else if FlushAt(log, x) >= 0 then Flushed(log, x) else Lookup(db, x)
  {
    ReplayValue(OnDisk(Redo, db, log), log, Redone(log), x);
    DiskValue(db, log, x);
  }

  /** Whatever was flushed, was flushed for a committed action, and is one of its updates. */
  lemma FlushedIsCommitted(log: Log, x: string)
    requires Legal(log)
    ensures var e := FlushAt(log, x);
            e >= 0 ==> (log[e].tid in Ended(log) && log[e].tid in CommittedIn(log) &&
                        Hits(log[LastAt(log[..e], {log[e].tid}, x)], CommittedIn(log), x))
  {
    LegalOrdered(log);
    var e := FlushAt(log, x);
    if e >= 0 {
      assert log[e] in log;
    }
  }

  /** The end of an action comes after its updates. */
  lemma EndOf(log: Log, i: nat) returns (k: nat)
    requires Legal(log) && i < |log| && log[i].Update? && log[i].tid in Ended(log)
    ensures i < k < |log| && log[k] == End(log[i].tid)
  {
    LegalOrdered(log);
    var r :| r in log && r.End? && r.tid == log[i].tid;
    k :| 0 <= k < |log| && log[k] == r;
    assert k < i ==> InOrder(log[k], log[i]);
  }

  lemma EndsOnce(log: Log, k: nat, l: nat)
    requires Legal(log) && k < |log| && l < |log| && log[k].End? && log[k] == log[l]
    ensures k == l
  {
    LegalOrdered(log);
    assert k < l ==> InOrder(log[k], log[l]);
    assert l < k ==> InOrder(log[l], log[k]);
  }

  /** The last committed update is by an action that has not ended: it is redone last. */
  lemma RedoRightIfUnended(log: Log, x: string)
    requires Legal(log)
    requires var c := LastAt(log, CommittedIn(log), x); c >= 0 && log[c].tid !in Ended(log)
    ensures LastAt(log, Redone(log), x) == LastAt(log, CommittedIn(log), x)
  {
    var c, k := LastAt(log, CommittedIn(log), x), LastAt(log, Redone(log), x);
    assert Hits(log[c], Redone(log), x);
    assert Hits(log[k], CommittedIn(log), x);
  }

  lemma LastIs(log: Log, x: string)
    ensures var c := LastAt(log, CommittedIn(log), x); c >= 0 ==> LastCommitted(log, c)
  {
    var c := LastAt(log, CommittedIn(log), x);
    if c >= 0 {
      forall i | c < i < |log| && SameAccount(log[c], log[i]) ensures log[i].tid !in CommittedIn(log) {
        assert !Hits(log[i], CommittedIn(log), x);
      }
    }
  }

  /** It is by an action that ended, and everybody else had ended before: nothing is redone. */
  lemma NothingRedone(log: Log, x: string)
    requires Legal(log) && LastEndsLastAt(log, x)
    requires var c := LastAt(log, CommittedIn(log), x); c >= 0 && log[c].tid in Ended(log)
    ensures LastAt(log, Redone(log), x) < 0
  {
    var c, k := LastAt(log, CommittedIn(log), x), LastAt(log, Redone(log), x);
    LastIs(log, x);
    var eb := EndOf(log, c);
    forall i | 0 <= i < c && Hits(log[i], CommittedIn(log), x) ensures log[i].tid in Ended(log) {
      if log[i].tid != log[c].tid {
        assert SameAccount(log[i], log[c]);
        assert End(log[i].tid) in log[..eb];
      }
    }
    assert k >= 0 ==> Hits(log[k], CommittedIn(log), x);
  }

  /** And its end was the last one to flush the account. */
  lemma LastFlush(log: Log, x: string)
    requires Legal(log) && LastEndsLastAt(log, x)
    requires var c := LastAt(log, CommittedIn(log), x); c >= 0 && log[c].tid in Ended(log)
    ensures var e := FlushAt(log, x); e >= 0 && LastAt(log[..e], {log[e].tid}, x) == LastAt(log, CommittedIn(log), x)
  {
    var c, e := LastAt(log, CommittedIn(log), x), FlushAt(log, x);
    var b := log[c].tid;
    LastIs(log, x);
    var eb := EndOf(log, c);
    assert Hits(log[..eb][c], {b}, x);
    assert LastAt(log[..eb], {b}, x) >= c;
    FlushedIsCommitted(log, x);
    var i := LastAt(log[..e], {log[e].tid}, x);
    assert i <= c;
    forall l | 0 <= l < |log| && log[l] == log[e] ensures l == e {
      EndsOnce(log, l, e);
    }
    assert SameAccount(log[i], log[c]);
  }

  /** The same for redo: if a committed action touched the account, its last one ends last; if not, it was right before. */
  predicate RedoRight(db: Db, e0: Db, log: Log, x: string) {
    if LastCommit(log, x) >= 0 then LastEndsLastAt(log, x) else SameValue(db, e0, x)
  }

  /** An account that no committed action touched is left alone. */
  lemma RedoUntouched(db: Db, log: Log, x: string)
    requires Legal(log) && LastCommit(log, x) < 0
    ensures Lookup(AfterRedo(db, log), x) == Lookup(db, x)
  {
    AfterRedoValue(db, log, x);
    FlushedIsCommitted(log, x);
    var k := LastAt(log, Redone(log), x);
    assert k >= 0 ==> Hits(log[k], CommittedIn(log), x);
  }

  lemma RedoRightAt(db: Db, e0: Db, log: Log, x: string)
    requires Legal(log) && RedoRight(db, e0, log, x)
    ensures SameValue(AfterRedo(db, log), Replay(e0, log, CommittedIn(log)), x)
  {
    var c := LastCommit(log, x);
    ReplayValue(e0, log, CommittedIn(log), x);
    if c < 0 {
      RedoUntouched(db, log, x);
    } else if log[c].tid !in Ended(log) {
      AfterRedoValue(db, log, x);
      RedoRightIfUnended(log, x);
    } else {
      AfterRedoValue(db, log, x);
      NothingRedone(log, x);
      LastFlush(log, x);
    }
  }

  lemma RedoWrongAt(db: Db, e0: Db, log: Log, x: string)
    requires Legal(log) && DistinctBalances(log) && !RedoRight(db, e0, log, x)
    ensures !SameValue(AfterRedo(db, log), Replay(e0, log, CommittedIn(log)), x)
  {
    ReplayValue(e0, log, CommittedIn(log), x);
    if LastCommit(log, x) < 0 {
      RedoUntouched(db, log, x);
    } else {
      var i, j :| 0 <= i < j < |log| && SameAccount(log[i], log[j]) && log[i].name == x && log[i].tid != log[j].tid
                  && log[i].tid in CommittedIn(log) && LastCommitted(log, j) && !EndsBefore(log, log[i].tid, log[j].tid);
      RedoWrong(db, e0, log, i, j);
    }
  }

  lemma RedoWrong(db: Db, e0: Db, log: Log, i: nat, j: nat)
    requires Legal(log) && DistinctBalances(log)
    requires i < j < |log| && SameAccount(log[i], log[j]) && log[i].tid != log[j].tid
    requires log[i].tid in CommittedIn(log) && LastCommitted(log, j) && !EndsBefore(log, log[i].tid, log[j].tid)
    ensures !SameValue(AfterRedo(db, log), Replay(e0, log, CommittedIn(log)), log[i].name)
  {
    var x, a, b := log[i].name, log[i].tid, log[j].tid;
    var c, k := LastAt(log, CommittedIn(log), x), LastAt(log, Redone(log), x);
    AfterRedoValue(db, log, x);
    ReplayValue(e0, log, CommittedIn(log), x);
    assert Hits(log[j], CommittedIn(log), x);
    assert SameAccount(log[j], log[c]);
    assert c == j;
    var eb :| 0 <= eb < |log| && log[eb] == End(b) && End(a) !in log[..eb];
    assert log[eb] in log;
    if k >= 0 {
      assert Hits(log[k], CommittedIn(log), x);
      assert SameAccount(log[k], log[j]);
    } else {
      var m := FlushedByAnother(log, i, j, eb);
      assert FlushAt(log, x) >= 0;
    }
  }

  /** An account is flushed when an action that updated it ends, if not again later. */
  lemma FlushedAtEnd(log: Log, i: nat) returns (k: nat)
    requires Legal(log) && i < |log| && log[i].Update? && log[i].tid in Ended(log)
    ensures k < |log| && log[k] == End(log[i].tid) && FlushAt(log, log[i].name) >= k
  {
    k := EndOf(log, i);
    assert Hits(log[..k][i], {log[i].tid}, log[i].name);
    assert LastAt(log[..k], {log[i].tid}, log[i].name) >= 0;
  }

  lemma FlushedByAnother(log: Log, i: nat, j: nat, eb: nat) returns (m: nat)
    requires Legal(log)
    requires i < j < |log| && SameAccount(log[i], log[j]) && log[i].tid != log[j].tid
    requires log[i].tid in CommittedIn(log) && LastCommitted(log, j)
    requires eb < |log| && log[eb] == End(log[j].tid) && End(log[i].tid) !in log[..eb]
    requires LastAt(log, Redone(log), log[i].name) < 0
    ensures m < j && SameAccount(log[m], log[j]) && Flushed(log, log[i].name) == Some(log[m].redo)
  {
    var x := log[i].name;
    assert !Hits(log[i], Redone(log), x);
    var ea := FlushedAtEnd(log, i);
    forall l | 0 <= l < eb ensures log[l] != End(log[i].tid) {
      assert log[l] in log[..eb];
    }
    var e := FlushAt(log, x);
    assert ea != eb && ea >= eb;
    m := FlushedBy(log, x, j, eb);
  }

  /** What is flushed after the end of the last committed updater is an earlier update, by somebody else. */
  lemma FlushedBy(log: Log, x: string, j: nat, eb: nat) returns (m: nat)
    requires Legal(log) && j < |log| && log[j].Update? && log[j].name == x && LastCommitted(log, j)
    requires eb < |log| && log[eb] == End(log[j].tid) && FlushAt(log, x) > eb
    ensures m < j && SameAccount(log[m], log[j]) && Flushed(log, x) == Some(log[m].redo)
  {
    var e := FlushAt(log, x);
    FlushedIsCommitted(log, x);
    if log[e] == log[eb] {
      EndsOnce(log, e, eb);
    }
    m := LastAt(log[..e], {log[e].tid}, x);
    assert log[m].tid != log[j].tid && log[m].tid in CommittedIn(log);
    assert SameAccount(log[j], log[m]);
    assert !(m > j);
  }

  /**
   One session on a disk that was right: it is right again after redo recovery if no account's last committed
   update is flushed before an earlier one.
   */
  lemma RedoRecovers(db: Db, log: Log)
    requires Legal(log) && LastEndsLast(log)
    ensures Recovered(Redo, OnDisk(Redo, db, log), log) == Replay(db, log, CommittedIn(log))
  {
    forall x ensures SameValue(AfterRedo(db, log), Replay(db, log, CommittedIn(log)), x) {
      RedoRightAt(db, db, log, x);
    }
    SameDb(AfterRedo(db, log), Replay(db, log, CommittedIn(log)));
  }

  /** And that is the exact condition. */
  lemma RedoRecoversExactly(db: Db, log: Log)
    requires Legal(log) && DistinctBalances(log)
    ensures Recovered(Redo, OnDisk(Redo, db, log), log) == Replay(db, log, CommittedIn(log)) <==> LastEndsLast(log)
  {
    if LastEndsLast(log) {
      RedoRecovers(db, log);
    } else {
      var x :| !LastEndsLastAt(log, x);
      WrongIsCommitted(log, x);
      RedoWrongAt(db, db, log, x);
    }
  }

  lemma WrongIsCommitted(log: Log, x: string)
    requires !LastEndsLastAt(log, x)
    ensures LastCommit(log, x) >= 0
  {
    var i, j :| 0 <= i < j < |log| && SameAccount(log[i], log[j]) && log[i].name == x && log[i].tid != log[j].tid
                && log[i].tid in CommittedIn(log) && LastCommitted(log, j) && !EndsBefore(log, log[i].tid, log[j].tid);
    assert Hits(log[j], CommittedIn(log), x);
  }

  /** Actions that keep an account until their end, and do not overlap on it, end in order. */
  lemma ExclusiveLastEndsLast(log: Log)
    requires Legal(log) && Exclusive(Redo, log)
    ensures LastEndsLast(log)
  {
    LegalOrdered(log);
    forall i, j | 0 <= i < j < |log| && SameAccount(log[i], log[j]) && log[i].tid != log[j].tid
      ensures EndsBefore(log, log[i].tid, log[j].tid)
    {
      var k :| i < k < j && Releases(Redo, log[k], log[i].tid);
      forall e | 0 <= e < |log| && log[e] == End(log[j].tid) ensures End(log[i].tid) in log[..e] {
        assert InOrder(log[j], log[e]) && (e < j ==> InOrder(log[e], log[j]));
        assert log[..e][k] == End(log[i].tid);
      }
    }
  }

  lemma ExclusiveRedoRecovers(db: Db, log: Log)
    requires Legal(log) && Exclusive(Redo, log)
    ensures Recovered(Redo, OnDisk(Redo, db, log), log) == Replay(db, log, CommittedIn(log))
  {
    ExclusiveLastEndsLast(log);
    RedoRecovers(db, log);
  }

  // ---- Keeping an account until the outcome is not enough for redo ----------------------------------------------

  /** One action that sets one account, and commits. */
  function Setting(log: Log, t: nat, x: string, v: int): Log {
    [Start(t), Update(t, x, v, Lookup(Current(log), x)), Outcome(t, Committed)]
  }

  lemma SettingIsLegal(log: Log, t: nat, x: string, v: int)
    requires Legal(log) && t !in Begun(log)
    ensures var log' := log + Setting(log, t, x, v);
            && Legal(log') && Current(log') == Current(log)[x := v]
            && Begun(log') == Begun(log) + {t} && Resolved(log') == Resolved(log) + {t} && Ended(log') == Ended(log)
  {
    assert t !in Resolved(log);
    var a := log + [Start(t)];
    Appended(log, Start(t));
    var update := Update(t, x, v, Lookup(Current(log), x));
    var b := a + [update];
    Appended(a, update);
    var c := b + [Outcome(t, Committed)];
    Appended(b, Outcome(t, Committed));
    assert log + Setting(log, t, x, v) == c;
  }

  /** The first action has committed but not ended when the second updates the same account, commits and ends. */
  function LateEnd(x: string): Log {
    [Start(1), Update(1, x, 10, None), Outcome(1, Committed)]
    + [Start(2), Update(2, x, 20, Some(10)), Outcome(2, Committed)]
    + [End(2)]
  }

  lemma LateEndIsLegal(x: string)
    ensures Legal(LateEnd(x))
  {
    var first := Setting([], 1, x, 10);
    assert [] + first == first;
    SettingIsLegal([], 1, x, 10);
    assert first == [Start(1), Update(1, x, 10, None), Outcome(1, Committed)];
    var second := Setting(first, 2, x, 20);
    assert second == [Start(2), Update(2, x, 20, Some(10)), Outcome(2, Committed)];
    SettingIsLegal(first, 2, x, 20);
    Appended(first + second, End(2));
  }

  /** The first action's balance is written over the second's. */
  lemma LateEndGoesWrong(x: string)
    ensures Legal(LateEnd(x)) && Exclusive(Undo, LateEnd(x))
    ensures Recovered(Redo, OnDisk(Redo, map[], LateEnd(x)), LateEnd(x)) != Replay(map[], LateEnd(x), CommittedIn(LateEnd(x)))
  {
    var log := LateEnd(x);
    LateEndIsLegal(x);
    assert Releases(Undo, log[2], 1);
    assert log[2] in log && log[5] in log && log[6] in log;
    assert SameAccount(log[1], log[4]);
    assert End(1) !in log[..6] && log[6] == End(2);
    assert LastCommitted(log, 4);
    RedoWrong(map[], map[], log, 1, 4);
  }

  // ---- Recovering again ---------------------------------------------------------------------------------------------

  /** What recovery appends to the log: losers are noted as aborted, or winners as ended. */
  predicate Closing(mode: Mode, log: Log, tail: Log) {
    && OneEach(tail)
    && if mode == Undo then (forall r | r in tail :: r == Outcome(r.tid, Aborted)) && Begun(tail) == Losers(log)
       else (forall r | r in tail :: r == End(r.tid)) && Begun(tail) == Winners(log)
  }

  predicate OneEach(tail: Log) {
    forall i, j | 0 <= i < j < |tail| :: tail[i].tid != tail[j].tid
  }

  /** Nobody is left to undo or to redo. */
  predicate Settled(mode: Mode, log: Log) {
    if mode == Undo then Losers(log) == {} else CommittedIn(log) <= Ended(log)
  }

  lemma {:induction false} NobodyUndone(db: Db, log: Log)
    ensures Undone(db, log, {}) == db && Replay(db, log, {}) == db
  {
    if log != [] {
      NobodyUndone(db, Front(log));
    }
  }

  lemma ClosingSettles(mode: Mode, log: Log, tail: Log)
    requires Closing(mode, log, tail)
    ensures Settled(mode, log + tail)
  {
    if mode == Undo {
      forall r | r in log + tail ensures r.tid in Resolved(log + tail) + Ended(log + tail) {
        if r in tail || r.tid in Losers(log) {
          assert r.tid in Begun(tail);
          assert Outcome(r.tid, Aborted) in log + tail;
        } else {
          var s :| s in log && s.tid == r.tid && (s.Outcome? || s.End?);
          assert s in log + tail;
        }
      }
    } else {
      forall t | t in CommittedIn(log + tail) ensures t in Ended(log + tail) {
        var r :| r in log + tail && r.Outcome? && r.status == Committed && r.tid == t;
        assert r in log && t in Resolved(log);
        if t in Ended(log) {
          var s :| s in log && s.End? && s.tid == t;
          assert s in log + tail;
        } else {
          assert t in Begun(tail);
          assert End(t) in log + tail;
        }
      }
    }
  }

  /** After a recovery nobody is left to undo or redo: another one changes nothing. */
  lemma RecoverTwice(mode: Mode, db: Db, log: Log, tail: Log)
    requires Closing(mode, log, tail)
    ensures Recovered(mode, db, log + tail) == db
  {
    ClosingSettles(mode, log, tail);
    assert mode == Redo ==> CommittedIn(log + tail) - Ended(log + tail) == {};
    NobodyUndone(db, log + tail);
  }

  // ---- Undoing never misses an account ---------------------------------------------------------------------------------

  /** Every account that is to be deleted is there. */
  predicate UndoRuns(db: Db, log: Log, losers: set<nat>)
    decreases |log|
  {
    log == [] ||
    var r := Last(log);
    if r.Update? && r.tid in losers then
      (r.undo.None? ==> r.name in db) && UndoRuns(UndoOne(db, r), Front(log), losers)
    else
      UndoRuns(db, Front(log), losers)
  }

  lemma {:induction false} UndoNeverFails(db: Db, log: Log, losers: set<nat>)
    requires Legal(log) && Current(log).Keys <= db.Keys
    ensures UndoRuns(db, log, losers)
    decreases |log|
  {
    if log != [] {
      var r := Last(log);
      Appended(Front(log), r);
      assert log == Front(log) + [r];
      UndoNeverFails(if r.Update? && r.tid in losers then UndoOne(db, r) else db, Front(log), losers);
    }
  }
}
