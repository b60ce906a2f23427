/** A session of the bank by the commands that were accepted: which ones are, and what the balances are. */
module WalCommands {
  import opened Options
  import opened WalModel
  import opened WalRecovery
  import opened WalSessions
  import opened WalSystem

  /** What the session's log is after some commands; each of them is carried out if it is valid, or refused. */
  function SessionLog(cmds: seq<Command>): Log {
    if cmds == [] then []
    else
      var log, cmd := SessionLog(cmds[..|cmds| - 1]), cmds[|cmds| - 1];
      if IsValid(log, cmd) then log + [RecordOf(Current(log), cmd)] else log
  }

  function Accepted(cmds: seq<Command>): seq<Command> {
    if cmds == [] then []
    else
      var before, cmd := cmds[..|cmds| - 1], cmds[|cmds| - 1];
      if IsValid(SessionLog(before), cmd) then Accepted(before) + [cmd] else Accepted(before)
  }

  // ---- What is to be expected, by the accepted commands ---------------------------------------------------

  predicate Running(accepted: seq<Command>, t: nat) {
    Begin(t) in accepted && Commit(t) !in accepted
  }

  predicate Known(accepted: seq<Command>, name: string) {
    exists c :: c in accepted && c.CreateAccount? && c.name == name
  }

  /** The value set last, and the credits less the debits since. */
  function Balance(accepted: seq<Command>, name: string): int {
    if accepted == [] then 0
    else
      var before := Balance(accepted[..|accepted| - 1], name);
      match accepted[|accepted| - 1]
      case CreateAccount(_, x, v) => if x == name then v else before
      case WriteAccount(_, x, v) => if x == name then v else before
      case Debit(_, x, v) => if x == name then before - v else before
      case Credit(_, x, v) => if x == name then before + v else before
      case _ => before
  }

  /** An account is created once, then written, by a running action; an action commits once, then ends once. */
  predicate MayGo(accepted: seq<Command>, cmd: Command) {
    match cmd
    case Begin(_) => true
    case CreateAccount(t, name, _) => Running(accepted, t) && !Known(accepted, name)
    case Commit(t) => Running(accepted, t)
    case Finish(t) => Commit(t) in accepted && Finish(t) !in accepted
    case _ => Running(accepted, cmd.tid) && Known(accepted, cmd.name)
  }

  // ---- And so it is --------------------------------------------------------------------------------------------

  /** One action, and one account, in the log and by the accepted commands. */
  predicate ActionIs(log: Log, accepted: seq<Command>, t: nat) {
    && (t in Begun(log) <==> Begin(t) in accepted)
    && (t in Resolved(log) <==> Commit(t) in accepted)
    && (t in Ended(log) <==> Finish(t) in accepted)
  }

  predicate AccountIs(log: Log, accepted: seq<Command>, name: string) {
    && (name in Current(log) <==> Known(accepted, name))
    && (name in Current(log) ==> Current(log)[name] == Balance(accepted, name))
  }

  lemma OneMoreCommand(accepted: seq<Command>, cmd: Command, name: string)
    ensures Known(accepted + [cmd], name) <==> Known(accepted, name) || (cmd.CreateAccount? && cmd.name == name)
    ensures forall c :: c in accepted + [cmd] <==> c in accepted || c == cmd
    ensures Balance(accepted + [cmd], name) ==
              match cmd
              case CreateAccount(_, x, v) => if x == name then v else Balance(accepted, name)
              case WriteAccount(_, x, v) => if x == name then v else Balance(accepted, name)
              case Debit(_, x, v) => Balance(accepted, name) - if x == name then v else 0
              case Credit(_, x, v) => Balance(accepted, name) + if x == name then v else 0
              case _ => Balance(accepted, name)
  {
    assert (accepted + [cmd])[..|accepted|] == accepted;
    assert cmd in accepted + [cmd];
    assert forall c | c in accepted :: c in accepted + [cmd];
  }

  lemma ActionStays(log: Log, accepted: seq<Command>, cmd: Command, t: nat)
    requires IsValid(log, cmd) && ActionIs(log, accepted, t) && ActionIs(log, accepted, cmd.tid)
    ensures ActionIs(log + [RecordOf(Current(log), cmd)], accepted + [cmd], t)
  {
    Appended(log, RecordOf(Current(log), cmd));
    OneMoreCommand(accepted, cmd, "");
  }

  lemma AccountStays(log: Log, accepted: seq<Command>, cmd: Command, name: string)
    requires IsValid(log, cmd) && AccountIs(log, accepted, name)
    ensures AccountIs(log + [RecordOf(Current(log), cmd)], accepted + [cmd], name)
  {
    Appended(log, RecordOf(Current(log), cmd));
    OneMoreCommand(accepted, cmd, name);
  }

  lemma {:induction false} ActionFollows(cmds: seq<Command>, t: nat)
    ensures ActionIs(SessionLog(cmds), Accepted(cmds), t)
  {
    if cmds != [] {
      var before, cmd := cmds[..|cmds| - 1], cmds[|cmds| - 1];
      ActionFollows(before, t);
      ActionFollows(before, cmd.tid);
      if IsValid(SessionLog(before), cmd) {
        ActionStays(SessionLog(before), Accepted(before), cmd, t);
      }
    }
  }

  lemma {:induction false} AccountFollows(cmds: seq<Command>, name: string)
    ensures AccountIs(SessionLog(cmds), Accepted(cmds), name)
  {
    if cmds != [] {
      var before, cmd := cmds[..|cmds| - 1], cmds[|cmds| - 1];
      AccountFollows(before, name);
      if IsValid(SessionLog(before), cmd) {
        AccountStays(SessionLog(before), Accepted(before), cmd, name);
      }
    }
  }

  /** Which commands are accepted follows from those accepted before. */
  lemma AcceptedExactly(cmds: seq<Command>, cmd: Command)
    ensures IsValid(SessionLog(cmds), cmd) <==> MayGo(Accepted(cmds), cmd)
  {
    ActionFollows(cmds, cmd.tid);
    if !cmd.Begin? && !cmd.Commit? && !cmd.Finish? {
      AccountFollows(cmds, cmd.name);
    }
  }

  /** Memory has every account that was created, with the value set last and the credits less the debits since. */
  lemma BalancesExactly(cmds: seq<Command>, name: string)
    ensures var db := Current(SessionLog(cmds));
            && (name in db <==> Known(Accepted(cmds), name))
            && (name in db ==> db[name] == Balance(Accepted(cmds), name))
  {
    AccountFollows(cmds, name);
  }

  // ---- The program's loop over its commands -------------------------------------------------------------------------

  /** Every action is begun with a number of its own. */
  predicate OwnNumbers(log: Log, cmds: seq<Command>) {
    && (forall i | 0 <= i < |cmds| && cmds[i].Begin? :: cmds[i].tid !in Begun(log))
    && (forall i, j | 0 <= i < j < |cmds| && cmds[i].Begin? && cmds[j].Begin? :: cmds[i].tid != cmds[j].tid)
  }

  lemma {:induction false} AcceptedIsAsked(cmds: seq<Command>)
    ensures forall c | c in Accepted(cmds) :: c in cmds
  {
    if cmds != [] {
      AcceptedIsAsked(cmds[..|cmds| - 1]);
    }
  }

  lemma NextIsNew(log: Log, cmds: seq<Command>, i: nat)
    requires OwnNumbers(log, cmds) && i < |cmds| && cmds[i].Begin?
    ensures cmds[i].tid !in Begun(log + SessionLog(cmds[..i]))
  {
    var t := cmds[i].tid;
    ActionFollows(cmds[..i], t);
    AcceptedIsAsked(cmds[..i]);
    assert Begin(t) !in cmds[..i];
    Joined(log, SessionLog(cmds[..i]));
  }

  /** A session: the commands are read and carried out one by one. */
  method RunSession(bank: Bank, cmds: seq<Command>)
    requires bank.Going() && bank.session == [] && OwnNumbers(bank.base, cmds)
    modifies bank`log, bank`tidStat, bank`currentDb, bank`onDiskDb, bank`pendingWrites, bank`session
    ensures bank.Going() && bank.session == SessionLog(cmds)
    ensures forall name :: AccountIs(bank.session, Accepted(cmds), name)
    ensures bank.currentDb == Current(bank.session)
  {
    var i := 0;
    while i < |cmds|
      invariant i <= |cmds| && bank.Going() && bank.session == SessionLog(cmds[..i])
    {
      if cmds[i].Begin? {
        NextIsNew(bank.base, cmds, i);
      }
      assert cmds[..i + 1][..i] == cmds[..i];
      var ok := bank.Execute(cmds[i]);
      i := i + 1;
    }
    assert cmds[..i] == cmds;
    forall name ensures AccountIs(bank.session, Accepted(cmds), name) {
      AccountFollows(cmds, name);
    }
  }
}
