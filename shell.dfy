/**
 The built-in dispatcher (`command`) and one iteration of the shell loop in `main`: what reaches
 the job table, and when a new record is appended.
 */
module Shell {
  import opened Jobs
  import opened Table

  datatype Option<T> = None | Some(value: T)

  /** The built-in a command name selects; the match is exact and case-sensitive. */
  datatype Builtin = Quit | Cd | Procs | External

  function Classify(name: string): (b: Builtin)
    ensures b == Quit <==> name == "quit"
    ensures b == Cd <==> name == "cd"
    ensures b == Procs <==> name == "procs"
  {
    if name == "quit" then Quit
    else if name == "cd" then Cd
    else if name == "procs" then Procs
    else External
  }

  /** What the environment sees of a dispatch, besides the table. */
  datatype Effect =
    | NoEffect
    | ChangeDirectory(path: string)  // chdir(path); a failure is only reported
    | Listing(rows: seq<Row>)        // the rows printed by the `procs` listing

  /** `command` either ends the shell with `exit(code)` or returns `rc` with an effect. */
  datatype Reply = Exited(code: int) | Returned(rc: int, effect: Effect)

  /** The requirements of `command` on its input: arguments[0] is always read, arguments[1] is
      read by `cd`, and `procs` queries every record once and prints every record's name. */
  ghost predicate CanDispatch(table: ProcessTable, cmd: CmdLine, ws: seq<WaitResult>)
    reads table
  {
    && |cmd.arguments| > 0
    && (cmd.arguments[0] == "cd" ==> |cmd.arguments| > 1)
    && (cmd.arguments[0] == "procs" ==> |ws| == |table.procs| && AllNamed(table.procs))
  }

  /** command: dispatch a parsed command line against the built-ins. `ws` holds the wait report
      for each record, used only by `procs`. */
  method Command(table: ProcessTable, cmd: CmdLine, ws: seq<WaitResult>) returns (reply: Reply)
    requires CanDispatch(table, cmd, ws)
    modifies table
    ensures reply.Returned? && reply.rc == 0 <==> Classify(cmd.arguments[0]) == External
    ensures reply.Returned? ==> reply.rc == 0 || reply.rc == 1
    ensures Classify(cmd.arguments[0]) == Quit ==> reply == Exited(0) && table.procs == old(table.procs)
    ensures Classify(cmd.arguments[0]) == Cd ==>
      reply == Returned(1, ChangeDirectory(cmd.arguments[1])) && table.procs == old(table.procs)
    ensures Classify(cmd.arguments[0]) == Procs ==>
      && AllNamed(Reconciled(old(table.procs), ws))
      && reply == Returned(1, Listing(Printed(Reconciled(old(table.procs), ws))))
      && table.procs == Pruned(Reconciled(old(table.procs), ws))
    ensures Classify(cmd.arguments[0]) == External ==>
      reply == Returned(0, NoEffect) && table.procs == old(table.procs)
    ensures old(table.Valid()) ==> table.Valid()
  {
    match Classify(cmd.arguments[0]) {
      case Quit =>
        reply := Exited(0);
      case Cd =>
        reply := Returned(1, ChangeDirectory(cmd.arguments[1]));
      case Procs =>
        ReconciledShape(table.procs, ws);
        table.UpdateProcessList(ws);
        var rows := table.PrintProcessList();
        reply := Returned(1, Listing(rows));
      case External =>
        reply := Returned(0, NoEffect);
    }
  }

  /** One iteration of main's loop after the line is read: `parsed` is what the parser returned
      for it, `ws` the wait reports `procs` would see and `launched` the pid `execute` returns.
      A missing parse skips the cycle; otherwise the line is dispatched and, only when `command`
      returned 0, recorded as a new RUNNING process. */
  method Step(table: ProcessTable, parsed: Option<CmdLine>, ws: seq<WaitResult>, launched: int)
    returns (reply: Option<Reply>)
    requires parsed.Some? ==> CanDispatch(table, parsed.value, ws)
    modifies table
    ensures parsed.None? ==> reply.None? && table.procs == old(table.procs)
    ensures parsed.Some? ==> reply.Some?
    ensures parsed.Some? && Classify(parsed.value.arguments[0]) == External ==>
      reply == Some(Returned(0, NoEffect))
      && table.procs == old(table.procs) + [Process(parsed.value, launched, RUNNING)]
    ensures parsed.Some? && Classify(parsed.value.arguments[0]) == Quit ==>
      reply == Some(Exited(0)) && table.procs == old(table.procs)
    ensures parsed.Some? && Classify(parsed.value.arguments[0]) == Cd ==>
      reply == Some(Returned(1, ChangeDirectory(parsed.value.arguments[1])))
      && table.procs == old(table.procs)
    ensures parsed.Some? && Classify(parsed.value.arguments[0]) == Procs ==>
      && AllNamed(Reconciled(old(table.procs), ws))
      && reply == Some(Returned(1, Listing(Printed(Reconciled(old(table.procs), ws)))))
      && table.procs == Pruned(Reconciled(old(table.procs), ws))
    ensures parsed.Some? && Classify(parsed.value.arguments[0]) != External ==>
      |table.procs| <= |old(table.procs)|
    ensures old(table.Valid()) ==> table.Valid()
  {
    if parsed.None? {
      return None;
    }
    var rc := Command(table, parsed.value, ws);
    reply := Some(rc);
    if rc.Returned? && rc.rc == 0 {
      table.AddProcess(parsed.value, launched);
    }
    if Classify(parsed.value.arguments[0]) == Procs {
      ReconciledShape(old(table.procs), ws);
      PrunedSpec(Reconciled(old(table.procs), ws));
    }
  }
}
