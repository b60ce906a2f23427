/**
 The write-ahead log of a small bank: what each command logs, what is on disk when the machine crashes,
 and what recovery makes of the disk and the log. Accounts are named by strings, actions by numbers.
 */
module WalModel {
  import opened Options

  datatype Mode = Redo | Undo

  datatype Status = Committed | Aborted

  datatype Record =
    | Start(tid: nat)
    | Update(tid: nat, name: string, redo: int, undo: Option<int>)
    | Outcome(tid: nat, status: Status)
    | End(tid: nat)

  type Log = seq<Record>

  type Db = map<string, int>

  function Front(log: Log): Log
    requires log != []
  {
    log[..|log| - 1]
  }

  function Last(log: Log): Record
    requires log != []
  {
    log[|log| - 1]
  }

  // ---- Who is who in a log ---------------------------------------------------------------------------

  function Begun(log: Log): set<nat> {
    set r | r in log :: r.tid
  }

  function Resolved(log: Log): set<nat> {
    set r | r in log && r.Outcome? :: r.tid
  }

  function CommittedIn(log: Log): set<nat> {
    set r | r in log && r.Outcome? && r.status == Committed :: r.tid
  }

  function Ended(log: Log): set<nat> {
    set r | r in log && r.End? :: r.tid
  }

  function Winners(log: Log): set<nat> {
    Resolved(log) - Ended(log)
  }

  function Losers(log: Log): set<nat> {
    Begun(log) - Resolved(log) - Ended(log)
  }

  // ---- Replaying and undoing ----------------------------------------------------------------------------

  /** The updates of some actions, in log order. */
  function Replay(db: Db, log: Log, who: set<nat>): Db {
    if log == [] then db
    else
      var d, r := Replay(db, Front(log), who), Last(log);
      if r.Update? && r.tid in who then d[r.name := r.redo] else d
  }

  /** Everything the log says, whoever did it. */
  function Current(log: Log): Db {
    Replay(map[], log, Begun(log))
  }

  /**
   What a session's log has put on the disk it found. With undo logging every update is there at once; with
   redo logging an action's updates get there when it ends.
   */
  function OnDisk(mode: Mode, db: Db, log: Log): Db {
    if mode == Undo then Replay(db, log, Begun(log))
    else if log == [] then db
    else
      var d, r := OnDisk(mode, db, Front(log)), Last(log);
      if r.End? then Replay(d, Front(log), {r.tid}) else d
  }

  function UndoOne(db: Db, r: Record): Db
    requires r.Update?
  {
    if r.undo.Some? then db[r.name := r.undo.value] else db - {r.name}
  }

  /** The updates of the losers taken back, last first. */
  function Undone(db: Db, log: Log, losers: set<nat>): Db
    decreases |log|
  {
    if log == [] then db
    else
      var r := Last(log);
      Undone(if r.Update? && r.tid in losers then UndoOne(db, r) else db, Front(log), losers)
  }

  function Recovered(mode: Mode, db: Db, log: Log): Db {
    if mode == Undo then Undone(db, log, Losers(log))
    else Replay(db, log, CommittedIn(log) - Ended(log))
  }

  // ---- What one session can write -----------------------------------------------------

  function Lookup(db: Db, x: string): Option<int> {
    if x in db then Some(db[x]) else None
  }

  predicate Pending(log: Log, t: nat) {
    t in Begun(log) && t !in Resolved(log)
  }

  /** Memory starts empty, action numbers are not used twice, and nothing is aborted. */
  predicate Permitted(log: Log, r: Record) {
    match r
    case Start(t) => t !in Begun(log)
    case Update(t, name, _, undo) => Pending(log, t) && undo == Lookup(Current(log), name)
    case Outcome(t, status) => Pending(log, t) && status == Committed
    case End(t) => t in Resolved(log) && t !in Ended(log)
  }

  predicate Legal(log: Log) {
    log == [] || (Legal(Front(log)) && Permitted(Front(log), Last(log)))
  }

  function Rank(r: Record): nat {
    match r
    case Start(_) => 0
    case Update(_, _, _, _) => 1
    case Outcome(_, _) => 2
    case End(_) => 3
  }

  predicate InOrder(r: Record, s: Record) {
    r.tid == s.tid ==> Rank(r) < Rank(s) || (r.Update? && s.Update?)
  }

  /** An action starts, updates, resolves, ends. */
  predicate Ordered(log: Log) {
    && (forall i, j {:trigger InOrder(log[i], log[j])} | 0 <= i < j < |log| :: InOrder(log[i], log[j]))
    && Ended(log) <= Resolved(log)
  }

  // ---- Disciplines ------------------------------------------------------------------------------------------

  predicate SameAccount(r: Record, s: Record) {
    r.Update? && s.Update? && r.name == s.name
  }

  /** Nobody else updates the account after a loser did. */
  predicate LosersLastAt(log: Log, x: string) {
    forall i, j {:trigger SameAccount(log[i], log[j])} | 0 <= i < j < |log| ::
      SameAccount(log[i], log[j]) && log[i].name == x && log[i].tid in Losers(log) ==> log[j].tid in Losers(log)
  }

  ghost predicate LosersLast(log: Log) {
    forall x :: LosersLastAt(log, x)
  }

  predicate Creates(r: Record, who: set<nat>, x: string) {
    r.Update? && r.tid in who && r.name == x && r.undo.None?
  }

  /** A loser created the account: it was not in memory. */
  predicate LoserCreates(log: Log, x: string) {
    exists r | r in log :: Creates(r, Losers(log), x)
  }

  /** No loser created an account that was on disk already. */
  ghost predicate CreatesNew(db: Db, log: Log) {
    forall x {:trigger LoserCreates(log, x)} :: LoserCreates(log, x) ==> x !in db
  }

  /** If b ends, a has ended before. */
  predicate EndsBefore(log: Log, a: nat, b: nat) {
    forall k | 0 <= k < |log| && log[k] == End(b) :: End(a) in log[..k]
  }

  /** Index j is the last update of its account by a committed action. */
  predicate LastCommitted(log: Log, j: nat)
    requires j < |log|
  {
    && log[j].tid in CommittedIn(log)
    && forall i {:trigger SameAccount(log[j], log[i])} | j < i < |log| :: SameAccount(log[j], log[i]) ==> log[i].tid !in CommittedIn(log)
  }

  /** The action whose update of the account should stay does not end before the others that updated it. */
  predicate LastEndsLastAt(log: Log, x: string) {
    forall i, j {:trigger SameAccount(log[i], log[j])} | 0 <= i < j < |log| ::
      (SameAccount(log[i], log[j]) && log[i].name == x && log[i].tid != log[j].tid
       && log[i].tid in CommittedIn(log) && LastCommitted(log, j)) ==>
        EndsBefore(log, log[i].tid, log[j].tid)
  }

  ghost predicate LastEndsLast(log: Log) {
    forall x :: LastEndsLastAt(log, x)
  }

  /** What releases an account: the outcome if updates are undone, the end if they are redone. */
  predicate Releases(mode: Mode, r: Record, t: nat) {
    r.tid == t && if mode == Undo then r.Outcome? else r.End?
  }

  /** Actions that update the same account do not overlap: the first has released it before the second updates it. */
  predicate Exclusive(mode: Mode, log: Log) {
    forall i, j {:trigger SameAccount(log[i], log[j])} | 0 <= i < j < |log| ::
      SameAccount(log[i], log[j]) && log[i].tid != log[j].tid ==> exists k | i < k < j :: Releases(mode, log[k], log[i].tid)
  }

  /** No account is given the same balance twice. */
  predicate DistinctBalances(log: Log) {
    forall i, j {:trigger SameAccount(log[i], log[j])} | 0 <= i < j < |log| ::
      SameAccount(log[i], log[j]) ==> log[i].redo != log[j].redo
  }
}
