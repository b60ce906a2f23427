/** The log writers and the recovery as they update the tables, the disk and the log. */
module WalSystem {
  import opened Options
  import opened Sets
  import opened WalModel
  import opened WalRecovery
  import opened WalSessions

  datatype Stat = COMMITING | ENDING | DONE

  datatype Write = Write(tid: nat, name: string, value: int, delete: bool)

  datatype Command =
    | Begin(tid: nat)
    | CreateAccount(tid: nat, name: string, value: int)
    | WriteAccount(tid: nat, name: string, value: int)
    | Debit(tid: nat, name: string, value: int)
    | Credit(tid: nat, name: string, value: int)
    | Commit(tid: nat)
    | Finish(tid: nat)

  /** The command is carried out; anything else is refused. The program does not check that a begun action is new. */
  predicate IsValid(log: Log, cmd: Command) {
    match cmd
    case Begin(t) => true
    case CreateAccount(t, name, _) => Pending(log, t) && name !in Current(log)
    case WriteAccount(t, name, _) => Pending(log, t) && name in Current(log)
    case Debit(t, name, _) => Pending(log, t) && name in Current(log)
    case Credit(t, name, _) => Pending(log, t) && name in Current(log)
    case Commit(t) => Pending(log, t)
    case Finish(t) => t in Resolved(log) && t !in Ended(log)
  }

  function RecordOf(db: Db, cmd: Command): Record
    requires cmd.Debit? || cmd.Credit? ==> cmd.name in db
  {
    match cmd
    case Begin(t) => Start(t)
    case CreateAccount(t, name, v) => Update(t, name, v, None)
    case WriteAccount(t, name, v) => Update(t, name, v, Lookup(db, name))
    case Debit(t, name, v) => Update(t, name, db[name] - v, Lookup(db, name))
    case Credit(t, name, v) => Update(t, name, db[name] + v, Lookup(db, name))
    case Commit(t) => Outcome(t, Committed)
    case Finish(t) => End(t)
  }

  /** What an accepted command does to the balances in memory, and the record that it leaves. */
  predicate Effect(cmd: Command, before: Db, after: Db, r: Record) {
    match cmd
    case Begin(t) => after == before && r == Start(t)
    case CreateAccount(t, name, v) => after == before[name := v] && r == Update(t, name, v, None)
    case WriteAccount(t, name, v) => Changes(t, name, v, before, after, r)
    case Debit(t, name, v) => name in before && Changes(t, name, before[name] - v, before, after, r)
    case Credit(t, name, v) => name in before && Changes(t, name, before[name] + v, before, after, r)
    case Commit(t) => after == before && r == Outcome(t, Committed)
    case Finish(t) => after == before && r == End(t)
  }

  /** The account has a new balance, every other one is as it was, and the record has the new and the old balance. */
  predicate Changes(t: nat, name: string, balance: int, before: Db, after: Db, r: Record) {
    && name in before && name in after && after[name] == balance
    && after.Keys == before.Keys && (forall other | other in before && other != name :: after[other] == before[other])
    && r == Update(t, name, balance, Some(before[name]))
  }

  lemma EffectOf(session: Log, cmd: Command)
    requires IsValid(session, cmd)
    ensures var r := RecordOf(Current(session), cmd);
            Effect(cmd, Current(session), Current(session + [r]), r) && Last(session + [r]) == r
  {
    Appended(session, RecordOf(Current(session), cmd));
  }

  /** The queue of writes that wait for their actions to end. */
  function Writes(log: Log): seq<Write> {
    if log == [] then []
    else
      var r := Last(log);
      Writes(Front(log)) + if r.Update? then [Write(r.tid, r.name, r.redo, false)] else []
  }

  function WritesOn(db: Db, ws: seq<Write>, t: nat): Db {
    if ws == [] then db
    else
      var d, w := WritesOn(db, ws[..|ws| - 1], t), ws[|ws| - 1];
      if w.tid != t then d else if w.delete then d - {w.name} else d[w.name := w.value]
  }

  lemma {:induction false} WritesReplay(db: Db, log: Log, t: nat)
    ensures WritesOn(db, Writes(log), t) == Replay(db, log, {t})
    ensures forall w | w in Writes(log) :: !w.delete
  {
    if log != [] {
      WritesReplay(db, Front(log), t);
      var r, ws := Last(log), Writes(Front(log));
      if r.Update? {
        var w := Write(r.tid, r.name, r.redo, false);
        assert Writes(log) == ws + [w];
        assert (ws + [w])[..|ws|] == ws;
      } else {
        assert Writes(log) == ws;
      }
    }
  }

  lemma NoDeletes(log: Log)
    ensures forall w | w in Writes(log) :: !w.delete
  {
    WritesReplay(map[], log, 0);
  }

  function StatOf(log: Log, t: nat): Stat {
    if t in Ended(log) then DONE else if t in Resolved(log) then ENDING else COMMITING
  }

  /** The state of every action of a session. */
  function Stats(session: Log): map<nat, Stat> {
    map t | t in Begun(session) :: StatOf(session, t)
  }

  /** The log file, the states of actions, memory, the disk and the queue. */
  datatype Tables = Tables(log: Log, tidStat: map<nat, Stat>, currentDb: Db, onDiskDb: Db, queue: seq<Write>)

  /**
   What they are in a session on a log file and a disk: the log file goes on, the disk has what the session put
   there, and memory, states and queue know the session only.
   */
  function TablesOf(mode: Mode, base: Log, disk: Db, session: Log): Tables {
    Tables(base + session, Stats(session), Current(session),
           OnDisk(mode, disk, session), if mode == Redo then Writes(session) else [])
  }

  /** How one record of a command changes them. */
  function Advance(mode: Mode, t: Tables, r: Record): Tables {
    Tables(t.log + [r],
           if r.Update? then t.tidStat else t.tidStat[r.tid := NewStat(r)],
           if r.Update? then t.currentDb[r.name := r.redo] else t.currentDb,
           if mode == Undo then (if r.Update? then t.onDiskDb[r.name := r.redo] else t.onDiskDb)
           else if r.End? then WritesOn(t.onDiskDb, t.queue, r.tid) else t.onDiskDb,
           if mode == Redo && r.Update? then t.queue + [Write(r.tid, r.name, r.redo, false)] else t.queue)
  }

  lemma Continues(base: Log, session: Log, r: Record)
    requires SessionOn(base, session) && Permitted(session, r) && (r.Start? ==> r.tid !in Begun(base + session))
    ensures SessionOn(base, session + [r]) && base + session + [r] == base + (session + [r])
  {
    Appended(session, r);
    Joined(base, session);
    LegalOrdered(session);
    assert base + session + [r] == base + (session + [r]);
  }

  function NewStat(r: Record): Stat {
    if r.End? then DONE else if r.Outcome? then ENDING else COMMITING
  }

  lemma StatAfter(session: Log, r: Record, t: nat)
    requires Legal(session) && Permitted(session, r) && t in Begun(session) + {r.tid}
    ensures StatOf(session + [r], t) == if t != r.tid then StatOf(session, t) else NewStat(r)
  {
    Appended(session, r);
    LegalOrdered(session);
  }

  lemma StatsAfter(session: Log, r: Record)
    requires Legal(session) && Permitted(session, r)
    ensures Stats(session + [r]) == if r.Update? then Stats(session) else Stats(session)[r.tid := NewStat(r)]
  {
    Appended(session, r);
    if r.Update? {
      StillCommiting(session, r.tid);
    }
    var stats := if r.Update? then Stats(session) else Stats(session)[r.tid := NewStat(r)];
    forall t ensures t in Stats(session + [r]) <==> t in stats {
    }
    forall t | t in stats ensures Stats(session + [r])[t] == stats[t] {
      StatAfter(session, r, t);
    }
  }

  lemma StillCommiting(session: Log, t: nat)
    requires Legal(session) && Pending(session, t)
    ensures t in Begun(session) && StatOf(session, t) == COMMITING
  {
    LegalOrdered(session);
  }

  /** What one more record of a session does to the disk. */
  lemma DiskAfterRecord(mode: Mode, disk: Db, session: Log, r: Record)
    ensures OnDisk(mode, disk, session + [r]) ==
              var d := OnDisk(mode, disk, session);
              if mode == Undo then (if r.Update? then d[r.name := r.redo] else d)
              else if r.End? then WritesOn(d, Writes(session), r.tid)
              else d
  {
    Appended(session, r);
    assert forall s | s in session :: s.tid in Begun(session);
    ReplaySame(disk, session, Begun(session + [r]), Begun(session));
    WritesReplay(OnDisk(mode, disk, session), session, r.tid);
  }

  /** Whatever the command, memory, states, disk and queue follow the log. */
  lemma OneMoreRecord(mode: Mode, base: Log, disk: Db, session: Log, r: Record)
    requires SessionOn(base, session) && Permitted(session, r) && (r.Start? ==> r.tid !in Begun(base + session))
    ensures SessionOn(base, session + [r])
    ensures TablesOf(mode, base, disk, session + [r]) == Advance(mode, TablesOf(mode, base, disk, session), r)
  {
    Continues(base, session, r);
    TablesAfter(mode, base, disk, session, r);
  }

  lemma TablesAfter(mode: Mode, base: Log, disk: Db, session: Log, r: Record)
    requires Legal(session) && Permitted(session, r) && base + session + [r] == base + (session + [r])
    ensures TablesOf(mode, base, disk, session + [r]) == Advance(mode, TablesOf(mode, base, disk, session), r)
  {
    MemoryAfter(mode, base, disk, session, r);
    StatsField(mode, base, disk, session, r);
    DiskField(mode, base, disk, session, r);
  }

  lemma MemoryAfter(mode: Mode, base: Log, disk: Db, session: Log, r: Record)
    ensures var t, u := TablesOf(mode, base, disk, session + [r]), Advance(mode, TablesOf(mode, base, disk, session), r);
            t.currentDb == u.currentDb && t.queue == u.queue
  {
    Appended(session, r);
  }

  lemma StatsField(mode: Mode, base: Log, disk: Db, session: Log, r: Record)
    requires Legal(session) && Permitted(session, r)
    ensures TablesOf(mode, base, disk, session + [r]).tidStat == Advance(mode, TablesOf(mode, base, disk, session), r).tidStat
  {
    StatsAfter(session, r);
  }

  lemma DiskField(mode: Mode, base: Log, disk: Db, session: Log, r: Record)
    ensures TablesOf(mode, base, disk, session + [r]).onDiskDb == Advance(mode, TablesOf(mode, base, disk, session), r).onDiskDb
  {
    DiskAfterRecord(mode, disk, session, r);
  }

  lemma FreshSession(mode: Mode, log: Log, disk: Db)
    ensures SessionOn(log, []) && TablesOf(mode, log, disk, []) == Tables(log, map[], map[], disk, [])
  {
    assert log + [] == log;
  }

  class Bank {
    const mode: Mode
    var log: Log
    var tidStat: map<nat, Stat>
    var currentDb: Db
    var onDiskDb: Db
    var pendingWrites: seq<Write>
    var winners: map<nat, Status>
    var losers: set<nat>
    var done: set<nat>

    /** The sessions before this one, the log and the disk they left, and what this one has logged. */
    ghost var history: History
    ghost var base: Log
    ghost var disk: Db
    ghost var session: Log

    constructor (mode: Mode)
      ensures Valid() && history == [] && session == [] && log == [] && this.mode == mode
    {
      this.mode := mode;
      log, tidStat, currentDb, onDiskDb, pendingWrites := [], map[], map[], map[], [];
      winners, losers, done := map[], {}, {};
      history, base, disk, session := [], [], map[], [];
      FreshSession(mode, [], map[]);
    }

    ghost predicate Based()
      reads `history, `base, `disk
    {
      Possible(mode, history) && base == LogOf(history) && disk == DiskAfter(mode, history)
    }

    function All(): Tables
      reads this
    {
      Tables(log, tidStat, currentDb, onDiskDb, pendingWrites)
    }

    ghost predicate Going()
      reads this
    {
      SessionOn(base, session) && All() == TablesOf(mode, base, disk, session)
    }

    ghost predicate Valid()
      reads this
    {
      Based() && Going()
    }

    /** One more record. */
    twostate predicate Logged(r: Record)
      reads this
    {
      session == old(session) + [r] && log == old(log) + [r]
    }

    // ---- Commands -----------------------------------------------------------------------------------------

    method IsValidCommand(cmd: Command) returns (ok: bool)
      requires Going()
      ensures ok == IsValid(session, cmd)
    {
      LegalOrdered(session);
      var t := cmd.tid;
      var pending := t in tidStat && tidStat[t] == COMMITING;
      match cmd
      case Begin(_) => ok := true;
      case CreateAccount(_, name, _) => ok := pending && name !in currentDb;
      case WriteAccount(_, name, _) => ok := pending && name in currentDb;
      case Debit(_, name, _) => ok := pending && name in currentDb;
      case Credit(_, name, _) => ok := pending && name in currentDb;
      case Commit(_) => ok := pending;
      case Finish(_) => ok := t in tidStat && tidStat[t] == ENDING;
    }

    /** Valid commands are logged and carried out, others change nothing. */
    method Execute(cmd: Command) returns (ok: bool)
      requires Going()
      requires cmd.Begin? ==> cmd.tid !in Begun(log)
      modifies `log, `tidStat, `currentDb, `onDiskDb, `pendingWrites, `session
      ensures Going()
      ensures ok == IsValid(old(session), cmd)
      ensures ok ==> Logged(RecordOf(Current(old(session)), cmd))
      ensures ok ==> Effect(cmd, old(currentDb), currentDb, Last(log))
      ensures !ok ==> session == old(session) && log == old(log)
      ensures !ok ==> unchanged(`tidStat, `currentDb, `onDiskDb, `pendingWrites)
    {
      ok := IsValidCommand(cmd);
      if ok {
        DoCommand(cmd);
        EffectOf(old(session), cmd);
      }
    }

    method DoCommand(cmd: Command)
      requires Going() && IsValid(session, cmd)
      requires cmd.Begin? ==> cmd.tid !in Begun(log)
      modifies `log, `tidStat, `currentDb, `onDiskDb, `pendingWrites, `session
      ensures Going() && Logged(RecordOf(old(currentDb), cmd))
    {
      if cmd.CreateAccount? || cmd.WriteAccount? || cmd.Debit? || cmd.Credit? {
        DoUpdate(cmd);
      } else {
        match cmd
        case Begin(t) => HandleBegin(t);
        case Commit(t) => HandleCommit(t);
        case Finish(t) => HandleEnd(t);
      }
    }

    method DoUpdate(cmd: Command)
      requires Going() && IsValid(session, cmd)
      requires cmd.CreateAccount? || cmd.WriteAccount? || cmd.Debit? || cmd.Credit?
      modifies `log, `tidStat, `currentDb, `onDiskDb, `pendingWrites, `session
      ensures Going() && Logged(RecordOf(old(currentDb), cmd))
    {
      if cmd.CreateAccount? {
        assert RecordOf(currentDb, cmd) == Update(cmd.tid, cmd.name, cmd.value, None);
        HandleInit(cmd.tid, cmd.name, cmd.value);
      } else {
        var v := if cmd.WriteAccount? then cmd.value
                 else if cmd.Debit? then currentDb[cmd.name] - cmd.value
                 else currentDb[cmd.name] + cmd.value;
        assert RecordOf(currentDb, cmd) == Update(cmd.tid, cmd.name, v, Some(currentDb[cmd.name]));
        HandleWrite(cmd.tid, cmd.name, v);
      }
    }

    method HandleBegin(t: nat)
      requires Going() && t !in Begun(log)
      modifies `log, `tidStat, `currentDb, `onDiskDb, `pendingWrites, `session
      ensures Going() && Logged(Start(t))
    {
      OneMoreRecord(mode, base, disk, session, Start(t));
      log, session := log + [Start(t)], session + [Start(t)];
      tidStat := tidStat[t := COMMITING];
    }

    method HandleInit(t: nat, name: string, v: int)
      requires Going() && Pending(session, t) && name !in currentDb
      modifies `log, `tidStat, `currentDb, `onDiskDb, `pendingWrites, `session
      ensures Going() && Logged(Update(t, name, v, None))
    {
      HandleUpdate(t, name, v, None);
    }

    /** Writing, debiting and crediting differ in the new balance only. */
    method HandleWrite(t: nat, name: string, v: int)
      requires Going() && Pending(session, t) && name in currentDb
      modifies `log, `tidStat, `currentDb, `onDiskDb, `pendingWrites, `session
      ensures Going() && Logged(Update(t, name, v, Some(old(currentDb)[name])))
    {
      var oldValue := currentDb[name];
      HandleUpdate(t, name, v, Some(oldValue));
    }

    /** What all updates do: the record, memory, and the disk or the queue. */
    method HandleUpdate(t: nat, name: string, v: int, undo: Option<int>)
      requires Going() && Permitted(session, Update(t, name, v, undo))
      modifies `log, `tidStat, `currentDb, `onDiskDb, `pendingWrites, `session
      ensures Going() && Logged(Update(t, name, v, undo))
    {
      var r := Update(t, name, v, undo);
      OneMoreRecord(mode, base, disk, session, r);
      log, session := log + [r], session + [r];
      currentDb := currentDb[name := v];
      WriteToDisk(t, name, v, false);
    }

    method HandleCommit(t: nat)
      requires Going() && Pending(session, t)
      modifies `log, `tidStat, `currentDb, `onDiskDb, `pendingWrites, `session
      ensures Going() && Logged(Outcome(t, Committed))
    {
      OneMoreRecord(mode, base, disk, session, Outcome(t, Committed));
      log, session := log + [Outcome(t, Committed)], session + [Outcome(t, Committed)];
      tidStat := tidStat[t := ENDING];
    }

    method HandleEnd(t: nat)
      requires Going() && t in Resolved(session) && t !in Ended(session)
      modifies `log, `tidStat, `currentDb, `onDiskDb, `pendingWrites, `session
      ensures Going() && Logged(End(t))
    {
      OneMoreRecord(mode, base, disk, session, End(t));
      NoDeletes(session);
      FlushUpdates(t);
      log, session := log + [End(t)], session + [End(t)];
      tidStat := tidStat[t := DONE];
      assert All() == Advance(mode, old(All()), End(t));
    }

    // ---- The disk -------------------------------------------------------------------------------------------

    method WriteToDisk(t: nat, name: string, value: int, delete: bool)
      requires delete && mode == Undo ==> name in onDiskDb
      modifies this`onDiskDb, this`pendingWrites
      ensures if mode == Undo then
                pendingWrites == old(pendingWrites) && onDiskDb == if delete then old(onDiskDb) - {name} else old(onDiskDb)[name := value]
              else
                onDiskDb == old(onDiskDb) && pendingWrites == old(pendingWrites) + [Write(t, name, value, delete)]
    {
      if mode == Undo {
        ForcedWriteToDisk(name, value, delete);
      } else {
        pendingWrites := pendingWrites + [Write(t, name, value, delete)];
      }
    }

    method ForcedWriteToDisk(name: string, value: int, delete: bool)
      requires delete ==> name in onDiskDb
      modifies this`onDiskDb
      ensures onDiskDb == if delete then old(onDiskDb) - {name} else old(onDiskDb)[name := value]
    {
      if delete {
        onDiskDb := onDiskDb - {name};
      } else {
        onDiskDb := onDiskDb[name := value];
      }
    }

    /** The queued writes of one action, oldest first. */
    method FlushUpdates(t: nat)
      requires forall w | w in pendingWrites :: !w.delete
      modifies this`onDiskDb
      ensures onDiskDb == WritesOn(old(onDiskDb), pendingWrites, t)
    {
      var i := 0;
      while i < |pendingWrites|
        invariant i <= |pendingWrites|
        invariant onDiskDb == WritesOn(old(onDiskDb), pendingWrites[..i], t)
      {
        var w := pendingWrites[i];
        assert pendingWrites[..i + 1][..i] == pendingWrites[..i];
        if w.tid == t {
          ForcedWriteToDisk(w.name, w.value, w.delete);
        }
        i := i + 1;
      }
      assert pendingWrites[..i] == pendingWrites;
    }

    // ---- Recovery --------------------------------------------------------------------------------------------

    method UndoUpdate(name: string, oldValue: Option<int>)
      requires oldValue.None? ==> name in onDiskDb
      modifies this`onDiskDb
      ensures onDiskDb == if oldValue.Some? then old(onDiskDb)[name := oldValue.value] else old(onDiskDb) - {name}
    {
      if oldValue.Some? {
        onDiskDb := onDiskDb[name := oldValue.value];
      } else {
        onDiskDb := onDiskDb - {name};
      }
    }

    /** One entry of the log, read backwards: sort its action, and undo it if it is a loser's update. */
    method RollBackEntry(i: nat)
      requires Ordered(log) && i < |log| && Sorted(log[i + 1..], winners, losers, done)
      requires mode == Undo ==> UndoRuns(onDiskDb, log[..i + 1], Losers(log))
      modifies this`onDiskDb, this`winners, this`losers, this`done
      ensures Sorted(log[i..], winners, losers, done)
      ensures mode == Undo ==> UndoRuns(onDiskDb, log[..i], Losers(log))
      ensures mode == Undo ==> Undone(onDiskDb, log[..i], Losers(log)) == Undone(old(onDiskDb), log[..i + 1], Losers(log))
      ensures mode == Redo ==> onDiskDb == old(onDiskDb)
    {
      var entry := log[i];
      SortOneMore(log, i, winners, losers, done);
      if entry.Update? {
        LoserSeen(log, i);
      }
      assert Front(log[..i + 1]) == log[..i] && Last(log[..i + 1]) == entry;
      var tid := entry.tid;
      if entry.End? {
        done := done + {tid};
      }
      if entry.Outcome? && tid !in done {
        if tid !in losers {
          winners := winners[tid := entry.status];
        }
      }
      if tid !in winners && tid !in done {
        if tid !in losers {
          losers := losers + {tid};
        }
        if entry.Update? {
          if mode != Redo {
            UndoUpdate(entry.name, entry.undo);
          }
        }
      }
    }

    /** Read the log backwards, sort the actions into winners, losers and done, and undo the losers' updates. */
    method RollBack()
      requires Ordered(log)
      requires mode == Undo ==> UndoRuns(onDiskDb, log, Losers(log))
      modifies this`onDiskDb, this`winners, this`losers, this`done
      ensures winners.Keys == Winners(log) && losers == Losers(log) && done == Ended(log)
      ensures forall t | t in winners :: winners[t] == Committed <==> t in CommittedIn(log)
      ensures onDiskDb == if mode == Undo then Undone(old(onDiskDb), log, Losers(log)) else old(onDiskDb)
    {
      winners, losers, done := map[], {}, {};
      NoneSorted(log);
      var i := |log|;
      while i > 0
        invariant 0 <= i <= |log|
        invariant Sorted(log[i..], winners, losers, done)
        invariant mode == Undo ==> UndoRuns(onDiskDb, log[..i], Losers(log))
        invariant mode == Undo ==> Undone(onDiskDb, log[..i], Losers(log)) == Undone(old(onDiskDb), log, Losers(log))
        invariant mode == Redo ==> onDiskDb == old(onDiskDb)
      {
        i := i - 1;
        RollBackEntry(i);
      }
      AllSorted(log, i, winners, losers, done);
    }

    /** Write the winners' updates again, in log order, and log that they have ended. */
    method ForwardScan() returns (ghost tail: Log)
      requires winners.Keys == Winners(log)
      requires forall t | t in winners :: winners[t] == Committed <==> t in CommittedIn(log)
      modifies this`onDiskDb, this`log
      ensures onDiskDb == Replay(old(onDiskDb), old(log), CommittedIn(old(log)) - Ended(old(log)))
      ensures log == old(log) + tail && Ends(tail, Winners(old(log)))
    {
      var i := 0;
      while i < |log|
        invariant i <= |log|
        invariant onDiskDb == Replay(old(onDiskDb), log[..i], CommittedIn(log) - Ended(log))
        invariant log == old(log)
      {
        var entry := log[i];
        assert Front(log[..i + 1]) == log[..i] && Last(log[..i + 1]) == entry;
        if entry.Update? && entry.tid in winners && winners[entry.tid] == Committed {
          onDiskDb := onDiskDb[entry.name := entry.redo];
        }
        i := i + 1;
      }
      assert log[..i] == log;
      tail := LogEnds();
    }

    method LogEnds() returns (ghost tail: Log)
      modifies this`log
      ensures log == old(log) + tail && Ends(tail, winners.Keys)
    {
      var todo := winners.Keys;
      tail := [];
      while todo != {}
        invariant todo <= winners.Keys
        invariant log == old(log) + tail && Ends(tail, winners.Keys - todo)
      {
        var t := Pick(todo);
        Appended(tail, End(t));
        assert winners.Keys - (todo - {t}) == winners.Keys - todo + {t};
        log := log + [End(t)];
        tail := tail + [End(t)];
        todo := todo - {t};
      }
      assert winners.Keys - todo == winners.Keys;
    }

    method LogAborts() returns (ghost tail: Log)
      modifies this`log
      ensures log == old(log) + tail && Aborts(tail, losers)
    {
      var todo := losers;
      tail := [];
      while todo != {}
        invariant todo <= losers
        invariant log == old(log) + tail && Aborts(tail, losers - todo)
      {
        var t := Pick(todo);
        Appended(tail, Outcome(t, Aborted));
        assert losers - (todo - {t}) == losers - todo + {t};
        log := log + [Outcome(t, Aborted)];
        tail := tail + [Outcome(t, Aborted)];
        todo := todo - {t};
      }
      assert losers - todo == losers;
    }

    /** Read the disk, roll back, and scan forward or note the losers. Memory stays empty: the copy goes to a local name. */
    method Recover(db: Db) returns (ghost tail: Log)
      requires Ordered(log)
      requires mode == Undo ==> UndoRuns(db, log, Losers(log))
      modifies this`onDiskDb, this`log, this`winners, this`losers, this`done
      ensures onDiskDb == Recovered(mode, db, old(log))
      ensures log == old(log) + tail && Closing(mode, old(log), tail)
    {
      onDiskDb := db;
      RollBack();
      if mode != Undo {
        tail := ForwardScan();
      } else {
        tail := LogAborts();
      }
    }

    /**
     A crash loses memory and queue, and the next start recovers, which uses neither of them: a new session
     on the log file and the disk that recovery leaves. The disk then holds what the committed actions of all
     sessions wrote, if every account is sound.
     */
    method CrashAndRecover() returns (ghost f: Finished)
      requires Valid()
      modifies this
      ensures Valid() && session == [] && history == old(history) + [f] && f.session == old(session)
      ensures log == base && onDiskDb == DiskAfter(mode, history)
      ensures Sound(mode, history) ==> onDiskDb == Replay(map[], log, CommittedIn(log))
    {
      f := Restart(history, session);
      NewSession(history + [f]);
    }

    /** The program starts on the log file and the disk that are there, with nothing in memory. */
    method NewSession(ghost h: History)
      requires Possible(mode, h) && log == LogOf(h) && onDiskDb == DiskAfter(mode, h)
      modifies `history, `base, `disk, `session, `tidStat, `currentDb, `pendingWrites
      ensures Valid() && history == h && session == [] && base == log && disk == onDiskDb
    {
      FreshSession(mode, log, onDiskDb);
      history, base, disk, session := h, log, onDiskDb, [];
      tidStat, currentDb, pendingWrites := map[], map[], [];
    }

    /** Recovery leaves the log file and the disk of one more finished session. */
    method Restart(ghost h: History, ghost s: Log) returns (ghost f: Finished)
      requires Possible(mode, h) && SessionOn(LogOf(h), s)
      requires log == LogOf(h) + s && onDiskDb == OnDisk(mode, DiskAfter(mode, h), s)
      modifies this`onDiskDb, this`log, this`winners, this`losers, this`done
      ensures f.session == s && Possible(mode, h + [f]) && log == LogOf(h + [f]) && onDiskDb == DiskAfter(mode, h + [f])
      ensures Sound(mode, h + [f]) ==> onDiskDb == Replay(map[], log, CommittedIn(log))
    {
      var db := onDiskDb;
      RecoveryRuns(mode, h, s, db);
      ghost var tail := Recover(db);
      f := Finished(s, tail);
      OneMoreSession(mode, h, f);
      SoundDisk(mode, h + [f]);
    }
  }

  lemma {:induction false} SoundDisk(mode: Mode, h: History)
    requires Possible(mode, h)
    ensures Sound(mode, h) ==> DiskAfter(mode, h) == Replay(map[], LogOf(h), CommittedIn(LogOf(h)))
  {
    if Sound(mode, h) {
      SessionsRecover(mode, h);
    }
  }

  /** Recovery can be carried out after any session. */
  lemma {:induction false} RecoveryRuns(mode: Mode, h: History, session: Log, db: Db)
    requires Possible(mode, h) && SessionOn(LogOf(h), session) && db == OnDisk(mode, DiskAfter(mode, h), session)
    ensures Ordered(LogOf(h) + session)
    ensures mode == Undo ==> UndoRuns(db, LogOf(h) + session, Losers(LogOf(h) + session))
  {
    PossibleLog(mode, h);
    LegalOrdered(session);
    OrderedJoined(LogOf(h), session);
    RecoveredAlone(mode, db, LogOf(h), session);
    if mode == Undo {
      forall x | x in Current(session) ensures x in db {
        ReplayValue(map[], session, Begun(session), x);
        ReplayValue(DiskAfter(mode, h), session, Begun(session), x);
      }
      UndoNeverFails(db, session, Losers(session));
      UndoRunsJoined(db, LogOf(h), session, Losers(session));
    }
  }

  lemma {:induction false} OneMoreSession(mode: Mode, h: History, f: Finished)
    requires Possible(mode, h) && SessionOn(LogOf(h), f.session) && Closing(mode, LogOf(h) + f.session, f.tail)
    ensures Possible(mode, h + [f]) && Before(h + [f]) == h && Latest(h + [f]) == f
    ensures LogOf(h + [f]) == LogOf(h) + f.session + f.tail && SessionOn(LogOf(h + [f]), [])
    ensures DiskAfter(mode, h + [f]) == Recovered(mode, OnDisk(mode, DiskAfter(mode, h), f.session), LogOf(h) + f.session)
  {
    assert Before(h + [f]) == h;
  }

  lemma SettingRuns(t: nat, x: string, v: int)
    ensures IsValid([Start(t)], CreateAccount(t, x, v)) && Current([Start(t)]) == map[]
    ensures IsValid([Start(t)] + [Update(t, x, v, None)], Commit(t))
    ensures IsValid(Setting([], t, x, v), Finish(t))
    ensures Setting([], t, x, v) == [Start(t)] + [Update(t, x, v, None)] + [Outcome(t, Committed)]
  {
    Appended([], Start(t));
    assert [] + [Start(t)] == [Start(t)];
    Appended([Start(t)], Update(t, x, v, None));
    Appended([Start(t)] + [Update(t, x, v, None)], Outcome(t, Committed));
  }

  /** One action that creates an account, at the start of a session. */
  method CreateOnly(bank: Bank, t: nat, x: string, v: int)
    requires bank.Going() && bank.session == [] && t !in Begun(bank.log)
    modifies bank`log, bank`tidStat, bank`currentDb, bank`onDiskDb, bank`pendingWrites, bank`session
    ensures bank.Going() && bank.session == [Start(t)] + [Update(t, x, v, None)]
  {
    SettingRuns(t, x, v);
    var ok := bank.Execute(Begin(t));
    ok := bank.Execute(CreateAccount(t, x, v));
  }

  /** And then commits and ends. */
  method CreateAndEnd(bank: Bank, t: nat, x: string, v: int)
    requires bank.Going() && bank.session == [] && t !in Begun(bank.log)
    modifies bank`log, bank`tidStat, bank`currentDb, bank`onDiskDb, bank`pendingWrites, bank`session
    ensures bank.Going() && bank.session == Setting([], t, x, v) + [End(t)]
  {
    SettingRuns(t, x, v);
    CreateOnly(bank, t, x, v);
    var ok := bank.Execute(Commit(t));
    ok := bank.Execute(Finish(t));
  }

  /** What recovery appended after the last session, if that had one loser or none. */
  lemma {:induction false} SessionTail(h: History, t: nat)
    requires h != [] && Possible(Undo, h)
    ensures Losers(Latest(h).session) == {} ==> Latest(h).tail == []
    ensures Losers(Latest(h).session) == {t} ==> Latest(h).tail == [Outcome(t, Aborted)]
  {
    var log, f := LogOf(Before(h)), Latest(h);
    PossibleLog(Undo, Before(h));
    RecoveredAlone(Undo, map[], log, f.session);
    if f.tail != [] {
      assert f.tail[0].tid in Begun(f.tail);
    }
    if |f.tail| > 1 {
      assert f.tail[1].tid in Begun(f.tail) && f.tail[0].tid != f.tail[1].tid;
    }
  }

  lemma {:induction false} FirstHistory(h: History, x: string)
    requires |h| == 1 && Possible(Undo, h) && h[0].session == Setting([], 1, x, 10) + [End(1)]
    ensures h == CreatedAgain(x)[..1]
  {
    FirstSession(x);
    SessionTail(h, 0);
    assert h[0] == CreatedAgain(x)[0];
  }

  lemma {:induction false} SecondHistory(h: History, x: string)
    requires |h| == 2 && Possible(Undo, h) && Before(h) == CreatedAgain(x)[..1]
    requires Latest(h).session == [Start(2)] + [Update(2, x, 20, None)]
    ensures h == CreatedAgain(x)
  {
    SecondSession(x);
    SessionTail(h, 2);
    assert h[0] == Before(h)[0] == CreatedAgain(x)[0];
    assert h[1] == CreatedAgain(x)[1];
  }

  /** The account is created, the action commits and ends, and the bank crashes. */
  method FirstCrash(bank: Bank, x: string)
    requires bank.mode == Undo && bank.Valid() && bank.history == [] && bank.log == [] && bank.session == []
    modifies bank
    ensures bank.Valid() && bank.session == [] && bank.history == CreatedAgain(x)[..1]
  {
    CreateAndEnd(bank, 1, x, 10);
    ghost var f := bank.CrashAndRecover();
    FirstHistory(bank.history, x);
  }

  /** After the restart the account is created again, and the bank crashes before the action commits. */
  method SecondCrash(bank: Bank, x: string)
    requires bank.mode == Undo && bank.Valid() && bank.session == [] && bank.history == CreatedAgain(x)[..1]
    modifies bank
    ensures bank.history == CreatedAgain(x) && bank.onDiskDb == DiskAfter(Undo, bank.history)
  {
    FirstLog(x);
    assert bank.log == bank.base;
    CreateOnly(bank, 2, x, 20);
    ghost var f := bank.CrashAndRecover();
    SecondHistory(bank.history, x);
  }

  lemma FirstLog(x: string)
    ensures 2 !in Begun(LogOf(CreatedAgain(x)[..1]))
  {
    FirstSession(x);
    FirstRecovery(x);
  }

  /** The commands and crashes that lose an account: it is created again after a restart. */
  method CreateAgain(x: string) returns (bank: Bank)
    ensures fresh(bank) && bank.onDiskDb == map[] && Due(bank.history) == map[x := 10]
  {
    bank := new Bank(Undo);
    FirstCrash(bank, x);
    SecondCrash(bank, x);
    RestartLosesAccount(x);
  }

  predicate Ends(tail: Log, who: set<nat>) {
    OneEach(tail) && (forall r | r in tail :: r == End(r.tid)) && Begun(tail) == who
  }

  predicate Aborts(tail: Log, who: set<nat>) {
    OneEach(tail) && (forall r | r in tail :: r == Outcome(r.tid, Aborted)) && Begun(tail) == who
  }

  method Pick(s: set<nat>) returns (t: nat)
    requires s != {}
    ensures t in s
  {
    t :| t in s;
  }

  // ---- Sorting the actions from the end of the log ----------------------------------------------------------------

  predicate Sorted(suffix: Log, winners: map<nat, Status>, losers: set<nat>, done: set<nat>) {
    && done == Ended(suffix) && losers == Losers(suffix) && winners.Keys == Winners(suffix)
    && forall t | t in winners :: winners[t] == Committed <==> t in CommittedIn(suffix)
  }

  lemma NoneSorted(log: Log)
    ensures log[..|log|] == log && Sorted(log[|log|..], map[], {}, {})
  {
  }

  lemma AllSorted(log: Log, i: nat, winners: map<nat, Status>, losers: set<nat>, done: set<nat>)
    requires i == 0 && Sorted(log[i..], winners, losers, done)
    ensures log[..i] == [] && winners.Keys == Winners(log) && losers == Losers(log) && done == Ended(log)
    ensures forall t | t in winners :: winners[t] == Committed <==> t in CommittedIn(log)
  {
    assert log[i..] == log;
  }

  lemma Prepended(r: Record, rest: Log)
    ensures Begun([r] + rest) == {r.tid} + Begun(rest)
    ensures Resolved([r] + rest) == (if r.Outcome? then {r.tid} else {}) + Resolved(rest)
    ensures Ended([r] + rest) == (if r.End? then {r.tid} else {}) + Ended(rest)
    ensures CommittedIn([r] + rest) == (if r.Outcome? && r.status == Committed then {r.tid} else {}) + CommittedIn(rest)
  {
  }

  /** In an ordered log, what follows an entry of an action is what may follow. */
  lemma WhatFollows(log: Log, i: nat)
    requires Ordered(log) && i < |log|
    ensures log[i..] == [log[i]] + log[i + 1..]
    ensures log[i].End? ==> log[i].tid !in Begun(log[i + 1..])
    ensures log[i].Outcome? ==> log[i].tid !in Resolved(log[i + 1..]) && log[i].tid !in Losers(log[i + 1..])
  {
    var r, rest := log[i], log[i + 1..];
    forall s | s in rest ensures InOrder(r, s) {
      var k :| 0 <= k < |rest| && rest[k] == s;
      assert InOrder(log[i], log[i + 1 + k]);
    }
    if r.Outcome? && r.tid in Begun(rest) {
      var s :| s in rest && s.tid == r.tid;
      assert InOrder(r, s);
      assert s.End? && r.tid in Ended(rest);
    }
  }

  /** What one more entry of an ordered log changes. */
  lemma SortOneMore(log: Log, i: nat, winners: map<nat, Status>, losers: set<nat>, done: set<nat>)
    requires Ordered(log) && i < |log| && Sorted(log[i + 1..], winners, losers, done)
    ensures var r := log[i];
            var done' := if r.End? then done + {r.tid} else done;
            var winners' := if r.Outcome? && r.tid !in done' && r.tid !in losers then winners[r.tid := r.status] else winners;
            var losers' := if r.tid !in winners' && r.tid !in done' then losers + {r.tid} else losers;
            Sorted(log[i..], winners', losers', done')
  {
    Prepended(log[i], log[i + 1..]);
    WhatFollows(log, i);
  }

  /** A loser is known as such as soon as one of its updates is seen. */
  lemma LoserSeen(log: Log, i: nat)
    requires Ordered(log) && i < |log| && log[i].Update?
    ensures log[i].tid in Losers(log) <==> log[i].tid !in Resolved(log[i + 1..]) + Ended(log[i + 1..])
  {
    var t, rest := log[i].tid, log[i + 1..];
    assert log[i] in log;
    forall r | r in rest ensures r in log {
    }
    forall r | r in log && (r.Outcome? || r.End?) && r.tid == t ensures r in rest {
      var k :| 0 <= k < |log| && log[k] == r;
      assert k < i ==> InOrder(log[k], log[i]);
      assert rest[k - i - 1] == r;
    }
  }
}
