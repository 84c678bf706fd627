/**
 The job table of the shell, as values: the process record, the status codes, the outcome of a
 non-blocking wait, and the specification functions that say what each table operation computes,
 with the lemmas that state what those operations promise.
 */
module Jobs {

  /** Status codes stored in a process record. */
  const TERMINATED: int := -1
  const SUSPENDED: int := 0
  const RUNNING: int := 1

  predicate ValidStatus(s: int) {
    s == TERMINATED || s == SUSPENDED || s == RUNNING
  }

  /** A parsed command line: the argument vector (arguments[0] names the program) and the
      blocking flag. The parser that builds it is not part of this model. */
  datatype CmdLine = CmdLine(arguments: seq<string>, blocking: bool)

  /** One record of the job table. Its `next` link is its position in the table's sequence. */
  datatype Process = Process(cmd: CmdLine, pid: int, status: int)

  /** One row printed by the `procs` listing: pid, the command's name and the status code. */
  datatype Row = Row(pid: int, name: string, status: int)

  /** What the non-blocking `waitpid(pid, &status, WNOHANG)` reports for one record:
      -1 (Error), 0 (NoChange), or the pid itself with a decoded state change. */
  datatype ChildState = Stopped | Continued | OtherChange
  datatype WaitResult = Error | NoChange | Changed(state: ChildState)

  predicate Named(p: Process) {
    |p.cmd.arguments| > 0
  }

  predicate AllNamed(ps: seq<Process>) {
    forall i :: 0 <= i < |ps| ==> Named(ps[i])
  }

  predicate AllValid(ps: seq<Process>) {
    forall i :: 0 <= i < |ps| ==> ValidStatus(ps[i].status)
  }

  predicate AllTerminated(ps: seq<Process>) {
    forall i :: 0 <= i < |ps| ==> ps[i].status == TERMINATED
  }

  predicate DistinctPids(ps: seq<Process>) {
    forall i, j :: 0 <= i < j < |ps| ==> ps[i].pid != ps[j].pid
  }

  function RowOf(p: Process): Row
    requires Named(p)
  {
    Row(p.pid, p.cmd.arguments[0], p.status)
  }

  // ---------------------------------------------------------------------------------------------
  // updateProcessStatus

  /** The list from some record onward after `updateProcessStatus(list, pid, s)`. */
  function SetStatus(ps: seq<Process>, pid: int, s: int): seq<Process>
  {
    if ps == [] then []
    else [if ps[0].pid == pid then ps[0].(status := s) else ps[0]] + SetStatus(ps[1..], pid, s)
  }

  /** Exactly the records whose pid matches get the new status; nothing else changes. */
  lemma {:induction false} SetStatusSpec(ps: seq<Process>, pid: int, s: int)
    ensures |SetStatus(ps, pid, s)| == |ps|
    ensures forall i :: 0 <= i < |ps| ==>
      SetStatus(ps, pid, s)[i] == if ps[i].pid == pid then ps[i].(status := s) else ps[i]
  {
    if ps != [] {
      SetStatusSpec(ps[1..], pid, s);
      forall i | 1 <= i < |ps|
        ensures SetStatus(ps, pid, s)[i] == SetStatus(ps[1..], pid, s)[i - 1]
      {
      }
    }
  }

  /** The table after updating from position `from` onward, as the dispatcher's walk does when it
      calls the update on the record it is visiting: the records before `from` are untouched. */
  lemma UpdateFromSpec(ps: seq<Process>, from: nat, pid: int, s: int)
    requires from <= |ps|
    ensures |ps[..from] + SetStatus(ps[from..], pid, s)| == |ps|
    ensures forall i :: 0 <= i < |ps| ==>
      (ps[..from] + SetStatus(ps[from..], pid, s))[i]
        == if from <= i && ps[i].pid == pid then ps[i].(status := s) else ps[i]
  {
    SetStatusSpec(ps[from..], pid, s);
    forall i | from <= i < |ps|
      ensures (ps[..from] + SetStatus(ps[from..], pid, s))[i] == SetStatus(ps[from..], pid, s)[i - from]
    {
    }
  }

  /** Updating twice with the same pid and status is the same as updating once. */
  lemma {:induction false} SetStatusIdempotent(ps: seq<Process>, pid: int, s: int)
    ensures SetStatus(SetStatus(ps, pid, s), pid, s) == SetStatus(ps, pid, s)
  {
    SetStatusSpec(ps, pid, s);
    SetStatusSpec(SetStatus(ps, pid, s), pid, s);
  }

  /** An update for a pid that no record carries changes nothing. */
  lemma {:induction false} SetStatusNoMatch(ps: seq<Process>, pid: int, s: int)
    requires forall i :: 0 <= i < |ps| ==> ps[i].pid != pid
    ensures SetStatus(ps, pid, s) == ps
  {
    SetStatusSpec(ps, pid, s);
  }

  /** Setting a valid status code keeps every status code valid. */
  lemma {:induction false} SetStatusValid(ps: seq<Process>, pid: int, s: int)
    requires AllValid(ps) && ValidStatus(s)
    ensures AllValid(SetStatus(ps, pid, s))
  {
    SetStatusSpec(ps, pid, s);
  }

  // ---------------------------------------------------------------------------------------------
  // updateProcessList

  /** The status a record ends with when its query reported something. A "continued" report ends
      at TERMINATED: the walk first sets RUNNING and then, since the state is not "stopped",
      overwrites it with TERMINATED. */
  function Reported(w: WaitResult): (s: int)
    requires !w.NoChange?
    ensures ValidStatus(s)
    ensures s == SUSPENDED <==> w == Changed(Stopped)
    ensures w != Changed(Stopped) ==> s == TERMINATED
  {
    if w == Changed(Stopped) then SUSPENDED else TERMINATED
  }

  /** Reference definition of the reconciled status: the status of record i once the first n
      records have been visited. The report of the last visited record at or before i that has the
      same pid and reported something decides it; without one the old status stays. */
  function StatusAfter(ps: seq<Process>, ws: seq<WaitResult>, i: nat, n: nat): int
    requires |ws| == |ps| && i < |ps| && n <= |ps|
    decreases n
  {
    if n == 0 then ps[i].status
    else if n - 1 <= i && ps[n - 1].pid == ps[i].pid && !ws[n - 1].NoChange? then Reported(ws[n - 1])
    else StatusAfter(ps, ws, i, n - 1)
  }

  /** The table after `updateProcessList`, given one wait report per record. */
  function Reconciled(ps: seq<Process>, ws: seq<WaitResult>): seq<Process>
    requires |ws| == |ps|
  {
    seq(|ps|, i requires 0 <= i < |ps| => ps[i].(status := StatusAfter(ps, ws, i, |ps|)))
  }

  lemma {:induction false} StatusAfterLast(ps: seq<Process>, ws: seq<WaitResult>, i: nat, j: nat, n: nat)
    requires |ws| == |ps| && j <= i < |ps| && j < n <= |ps|
    requires ps[j].pid == ps[i].pid && !ws[j].NoChange?
    requires forall k :: j < k <= i && ps[k].pid == ps[i].pid ==> ws[k].NoChange?
    ensures StatusAfter(ps, ws, i, n) == Reported(ws[j])
    decreases n
  {
    if n - 1 != j {
      StatusAfterLast(ps, ws, i, j, n - 1);
    }
  }

  lemma {:induction false} StatusAfterNone(ps: seq<Process>, ws: seq<WaitResult>, i: nat, n: nat)
    requires |ws| == |ps| && i < |ps| && n <= |ps|
    requires forall k :: 0 <= k <= i && ps[k].pid == ps[i].pid ==> ws[k].NoChange?
    ensures StatusAfter(ps, ws, i, n) == ps[i].status
    decreases n
  {
    if n > 0 {
      StatusAfterNone(ps, ws, i, n - 1);
    }
  }

  lemma {:induction false} StatusAfterValid(ps: seq<Process>, ws: seq<WaitResult>, i: nat, n: nat)
    requires |ws| == |ps| && i < |ps| && n <= |ps|
    requires ValidStatus(ps[i].status)
    ensures ValidStatus(StatusAfter(ps, ws, i, n))
    decreases n
  {
    if n > 0 {
      StatusAfterValid(ps, ws, i, n - 1);
    }
  }

  /** Reconciling keeps the record count, the order, the pids and the commands. */
  lemma ReconciledShape(ps: seq<Process>, ws: seq<WaitResult>)
    requires |ws| == |ps|
    ensures |Reconciled(ps, ws)| == |ps|
    ensures forall i :: 0 <= i < |ps| ==>
      Reconciled(ps, ws)[i].pid == ps[i].pid && Reconciled(ps, ws)[i].cmd == ps[i].cmd
    ensures AllNamed(ps) ==> AllNamed(Reconciled(ps, ws))
  {
  }

  /** A record whose own query reported something ends with the status that report maps to:
      Error and every state change other than "stopped" give TERMINATED, "stopped" gives
      SUSPENDED. This holds whatever the other records share its pid. */
  lemma ReconciledReported(ps: seq<Process>, ws: seq<WaitResult>, i: nat)
    requires |ws| == |ps| && i < |ps|
    requires !ws[i].NoChange?
    ensures Reconciled(ps, ws)[i].status == Reported(ws[i])
    ensures ws[i] == Error ==> Reconciled(ps, ws)[i].status == TERMINATED
    ensures ws[i] == Changed(Stopped) ==> Reconciled(ps, ws)[i].status == SUSPENDED
    ensures ws[i] == Changed(Continued) ==> Reconciled(ps, ws)[i].status == TERMINATED
  {
    StatusAfterLast(ps, ws, i, i, |ps|);
  }

  /** Since each update starts at the visited record, an earlier record with the same pid that
      reported something also decides the status of a later one, unless a report in between
      (of the same pid) overrides it. */
  lemma ReconciledByEarlier(ps: seq<Process>, ws: seq<WaitResult>, i: nat, j: nat)
    requires |ws| == |ps| && j <= i < |ps|
    requires ps[j].pid == ps[i].pid && !ws[j].NoChange?
    requires forall k :: j < k <= i && ps[k].pid == ps[i].pid ==> ws[k].NoChange?
    ensures Reconciled(ps, ws)[i].status == Reported(ws[j])
  {
    StatusAfterLast(ps, ws, i, j, |ps|);
  }

  /** A record that no report of its pid reached (at or before it) keeps its status. */
  lemma ReconciledUnreported(ps: seq<Process>, ws: seq<WaitResult>, i: nat)
    requires |ws| == |ps| && i < |ps|
    requires forall k :: 0 <= k <= i && ps[k].pid == ps[i].pid ==> ws[k].NoChange?
    ensures Reconciled(ps, ws)[i] == ps[i]
  {
    StatusAfterNone(ps, ws, i, |ps|);
  }

  /** With distinct pids every record is reconciled by its own report alone. */
  lemma ReconciledDistinct(ps: seq<Process>, ws: seq<WaitResult>)
    requires |ws| == |ps| && DistinctPids(ps)
    ensures forall i :: 0 <= i < |ps| ==>
      Reconciled(ps, ws)[i].status == if ws[i].NoChange? then ps[i].status else Reported(ws[i])
  {
    forall i | 0 <= i < |ps|
      ensures Reconciled(ps, ws)[i].status == if ws[i].NoChange? then ps[i].status else Reported(ws[i])
    {
      if ws[i].NoChange? {
        ReconciledUnreported(ps, ws, i);
      } else {
        ReconciledReported(ps, ws, i);
      }
    }
  }

  /** When every query reports "no change", reconciling changes nothing, however often. */
  lemma ReconciledQuiet(ps: seq<Process>, ws: seq<WaitResult>)
    requires |ws| == |ps|
    requires forall k :: 0 <= k < |ws| ==> ws[k] == NoChange
    ensures Reconciled(ps, ws) == ps
  {
    forall i | 0 <= i < |ps|
      ensures Reconciled(ps, ws)[i] == ps[i]
    {
      ReconciledUnreported(ps, ws, i);
    }
  }

  /** Reconciling keeps every status code within {-1, 0, 1}. */
  lemma ReconciledValid(ps: seq<Process>, ws: seq<WaitResult>)
    requires |ws| == |ps| && AllValid(ps)
    ensures AllValid(Reconciled(ps, ws))
  {
    forall i | 0 <= i < |ps|
      ensures ValidStatus(Reconciled(ps, ws)[i].status)
    {
      StatusAfterValid(ps, ws, i, |ps|);
    }
  }

  // ---------------------------------------------------------------------------------------------
  // printProcessList

  /** The records that stay linked after the walk: those whose status is not TERMINATED. */
  function Surviving(ps: seq<Process>): seq<Process>
  {
    if ps == [] then []
    else (if ps[0].status == TERMINATED then [] else [ps[0]]) + Surviving(ps[1..])
  }

  /** The caller's table after `printProcessList`: the head stays whatever its status, and after
      it only the records that are not TERMINATED, in their order. */
  function Pruned(ps: seq<Process>): seq<Process>
  {
    if ps == [] then [] else [ps[0]] + Surviving(ps[1..])
  }

  function RowsOf(ps: seq<Process>): seq<Row>
    requires AllNamed(ps)
  {
    if ps == [] then [] else [RowOf(ps[0])] + RowsOf(ps[1..])
  }

  /** The rows `printProcessList` prints: every record after the head in list order, then the head
      only when it and every later record are TERMINATED. */
  function Printed(ps: seq<Process>): seq<Row>
    requires AllNamed(ps)
  {
    if ps == [] then []
    else RowsOf(ps[1..]) + (if ps[0].status == TERMINATED && AllTerminated(ps[1..]) then [RowOf(ps[0])] else [])
  }

  /** Surviving keeps exactly the records that are not TERMINATED, each as often as it occurs. */
  lemma {:induction false} SurvivingSpec(ps: seq<Process>)
    ensures |Surviving(ps)| <= |ps|
    ensures forall i :: 0 <= i < |Surviving(ps)| ==> Surviving(ps)[i].status != TERMINATED
    ensures forall p :: multiset(Surviving(ps))[p] == if p.status == TERMINATED then 0 else multiset(ps)[p]
  {
    if ps != [] {
      SurvivingSpec(ps[1..]);
      assert ps == [ps[0]] + ps[1..];
    }
  }

  /** No record survives exactly when all are TERMINATED. */
  lemma {:induction false} SurvivingEmpty(ps: seq<Process>)
    ensures Surviving(ps) == [] <==> AllTerminated(ps)
  {
    if ps != [] {
      SurvivingEmpty(ps[1..]);
      assert AllTerminated(ps) <==> ps[0].status == TERMINATED && AllTerminated(ps[1..]);
    }
  }

  /** A sequence without TERMINATED records survives unchanged. */
  lemma {:induction false} SurvivingAll(ps: seq<Process>)
    requires forall i :: 0 <= i < |ps| ==> ps[i].status != TERMINATED
    ensures Surviving(ps) == ps
  {
    if ps != [] {
      SurvivingAll(ps[1..]);
    }
  }

  lemma {:induction false} SurvivingAppend(ps: seq<Process>, p: Process)
    ensures Surviving(ps + [p]) == Surviving(ps) + (if p.status == TERMINATED then [] else [p])
  {
    var tail := if p.status == TERMINATED then [] else [p];
    if ps == [] {
      assert [p][1..] == [];
      assert Surviving([p]) == tail + Surviving([]);
    } else {
      var head := if ps[0].status == TERMINATED then [] else [ps[0]];
      assert (ps + [p])[0] == ps[0];
      assert (ps + [p])[1..] == ps[1..] + [p];
      SurvivingAppend(ps[1..], p);
      calc {
        Surviving(ps + [p]);
        head + Surviving(ps[1..] + [p]);
        head + (Surviving(ps[1..]) + tail);
        (head + Surviving(ps[1..])) + tail;
        Surviving(ps) + tail;
      }
    }
  }

  /** Filtering distributes over concatenation, so the kept records stay in their list order. */
  lemma {:induction false} SurvivingConcat(xs: seq<Process>, ys: seq<Process>)
    ensures Surviving(xs + ys) == Surviving(xs) + Surviving(ys)
  {
    if xs != [] {
      var head := if xs[0].status == TERMINATED then [] else [xs[0]];
      assert (xs + ys)[0] == xs[0];
      assert (xs + ys)[1..] == xs[1..] + ys;
      SurvivingConcat(xs[1..], ys);
      calc {
        Surviving(xs + ys);
        head + Surviving(xs[1..] + ys);
        head + (Surviving(xs[1..]) + Surviving(ys));
        (head + Surviving(xs[1..])) + Surviving(ys);
        Surviving(xs) + Surviving(ys);
      }
    } else {
      assert xs + ys == ys;
    }
  }

  lemma {:induction false} RowsOfSpec(ps: seq<Process>)
    requires AllNamed(ps)
    ensures |RowsOf(ps)| == |ps|
    ensures forall i :: 0 <= i < |ps| ==> RowsOf(ps)[i] == RowOf(ps[i])
  {
    if ps != [] {
      RowsOfSpec(ps[1..]);
    }
  }

  lemma {:induction false} RowsOfAppend(ps: seq<Process>, p: Process)
    requires AllNamed(ps) && Named(p)
    ensures AllNamed(ps + [p])
    ensures RowsOf(ps + [p]) == RowsOf(ps) + [RowOf(p)]
  {
    if ps != [] {
      assert (ps + [p])[1..] == ps[1..] + [p];
      RowsOfAppend(ps[1..], p);
    }
  }

  /** One step of the print-and-prune walk, visiting the record at position `walked`. */
  lemma PruneWalkStep(orig: seq<Process>, walked: nat)
    requires AllNamed(orig) && 1 <= walked < |orig|
    ensures orig[walked..] == [orig[walked]] + orig[walked + 1..]
    ensures Surviving(orig[1..walked + 1])
      == Surviving(orig[1..walked]) + (if orig[walked].status == TERMINATED then [] else [orig[walked]])
    ensures RowsOf(orig[1..walked + 1]) == RowsOf(orig[1..walked]) + [RowOf(orig[walked])]
  {
    assert orig[1..walked + 1] == orig[1..walked] + [orig[walked]];
    SurvivingAppend(orig[1..walked], orig[walked]);
    RowsOfAppend(orig[1..walked], orig[walked]);
  }

  /** The end of the walk: the trailing record is TERMINATED exactly when it is the head, the head
      is TERMINATED and no later record was kept. */
  lemma PruneWalkDone(orig: seq<Process>, kept: seq<Process>)
    requires |orig| >= 1 && kept == Surviving(orig[1..])
    ensures ([orig[0]] + kept)[|kept|].status == TERMINATED
      <==> orig[0].status == TERMINATED && AllTerminated(orig[1..])
    ensures AllTerminated(orig[1..]) ==> kept == []
  {
    SurvivingSpec(orig[1..]);
    SurvivingEmpty(orig[1..]);
    if kept != [] {
      assert ([orig[0]] + kept)[|kept|] == kept[|kept| - 1];
    }
  }

  /** The head is never unlinked; no record after it is TERMINATED; the records after it are
      exactly the non-terminated records after the old head, each as often as before. */
  lemma PrunedSpec(ps: seq<Process>)
    ensures ps == [] ==> Pruned(ps) == []
    ensures ps != [] ==> 1 <= |Pruned(ps)| <= |ps| && Pruned(ps)[0] == ps[0]
    ensures forall i :: 1 <= i < |Pruned(ps)| ==> Pruned(ps)[i].status != TERMINATED
    ensures ps != [] ==> forall p ::
      multiset(Pruned(ps)[1..])[p] == if p.status == TERMINATED then 0 else multiset(ps[1..])[p]
  {
    if ps != [] {
      SurvivingSpec(ps[1..]);
      assert Pruned(ps)[1..] == Surviving(ps[1..]);
    }
  }

  /** Pruning keeps valid status codes and named commands. */
  lemma PrunedKeeps(ps: seq<Process>)
    ensures AllValid(ps) ==> AllValid(Pruned(ps))
    ensures AllNamed(ps) ==> AllNamed(Pruned(ps))
  {
    if ps != [] {
      SurvivingSpec(ps[1..]);
      forall i | 1 <= i < |Pruned(ps)|
        ensures Pruned(ps)[i] in ps
      {
        var p := Pruned(ps)[i];
        assert p in multiset(Surviving(ps[1..]));
        assert p in ps[1..];
      }
    }
  }

  /** A second walk right after the first prunes nothing more. */
  lemma PrunedIdempotent(ps: seq<Process>)
    ensures Pruned(Pruned(ps)) == Pruned(ps)
  {
    if ps != [] {
      SurvivingSpec(ps[1..]);
      SurvivingAll(Surviving(ps[1..]));
      assert Pruned(ps)[1..] == Surviving(ps[1..]);
    }
  }

  /** Every record after the head is printed once, in list order; the head is printed, as the last
      row, exactly when it and every later record are TERMINATED. */
  lemma PrintedSpec(ps: seq<Process>)
    requires AllNamed(ps)
    ensures ps == [] ==> Printed(ps) == []
    ensures ps != [] ==> |Printed(ps)| == |ps| - 1 + (if ps[0].status == TERMINATED && AllTerminated(ps[1..]) then 1 else 0)
    ensures forall i :: 0 <= i < |ps| - 1 ==> Printed(ps)[i] == RowOf(ps[i + 1])
    ensures ps != [] && ps[0].status == TERMINATED && AllTerminated(ps[1..]) ==> Printed(ps)[|ps| - 1] == RowOf(ps[0])
  {
    if ps != [] {
      RowsOfSpec(ps[1..]);
    }
  }

  /** A record after the head that one listing reported as TERMINATED is not reported again by a
      listing right after it, with no reconcile in between: the only TERMINATED row that second
      listing can print is the head's. */
  lemma ReprintedOnlyHead(ps: seq<Process>)
    requires AllNamed(ps)
    ensures AllNamed(Pruned(ps))
    ensures forall k :: 0 <= k < |Printed(Pruned(ps))| && Printed(Pruned(ps))[k].status == TERMINATED ==>
      Printed(Pruned(ps))[k] == RowOf(ps[0])
  {
    PrunedKeeps(ps);
    if ps != [] {
      var q := Pruned(ps);
      PrunedSpec(ps);
      PrintedSpec(q);
      forall k | 0 <= k < |q| - 1
        ensures Printed(q)[k].status != TERMINATED
      {
        assert Printed(q)[k] == RowOf(q[k + 1]);
      }
    }
  }

  /** The next `procs` after a listing: the records it prints after the head are, in order, the
      ones the first listing left linked, none of which it had printed as TERMINATED, each with the
      status the reconcile in between gave it; a last row, if any, is the head's. So a record the
      first listing unlinked is never printed again. */
  lemma NextListingAfterReconcile(ps: seq<Process>, ws: seq<WaitResult>)
    requires AllNamed(ps) && ps != [] && |ws| == |Pruned(ps)|
    ensures AllNamed(Pruned(ps)) && |Reconciled(Pruned(ps), ws)| == |Pruned(ps)|
    ensures AllNamed(Reconciled(Pruned(ps), ws))
    ensures |Pruned(ps)| - 1 <= |Printed(Reconciled(Pruned(ps), ws))| <= |Pruned(ps)|
    ensures forall k :: 0 <= k < |Pruned(ps)| - 1 ==>
      && Pruned(ps)[k + 1].status != TERMINATED
      && Printed(Reconciled(Pruned(ps), ws))[k] ==
         Row(Pruned(ps)[k + 1].pid, Pruned(ps)[k + 1].cmd.arguments[0], Reconciled(Pruned(ps), ws)[k + 1].status)
    ensures |Printed(Reconciled(Pruned(ps), ws))| == |Pruned(ps)| ==>
      Printed(Reconciled(Pruned(ps), ws))[|Pruned(ps)| - 1].pid == ps[0].pid
  {
    var q := Pruned(ps);
    PrunedSpec(ps);
    PrunedKeeps(ps);
    ReconciledShape(q, ws);
    var r := Reconciled(q, ws);
    PrintedSpec(r);
    forall k | 0 <= k < |q| - 1
      ensures Printed(r)[k] == Row(q[k + 1].pid, q[k + 1].cmd.arguments[0], r[k + 1].status)
    {
      assert Printed(r)[k] == RowOf(r[k + 1]);
    }
  }

  /** A table holding one record whose query reports its end: the listing prints that record once
      as TERMINATED, and the record stays in the caller's table, since only the head copy held by
      the dispatcher moves past it. */
  lemma SoleTerminatedRecordStays(p: Process, w: WaitResult)
    requires Named(p) && !w.NoChange? && w != Changed(Stopped)
    ensures AllNamed(Reconciled([p], [w]))
    ensures Printed(Reconciled([p], [w])) == [RowOf(p.(status := TERMINATED))]
    ensures Pruned(Reconciled([p], [w])) == [p.(status := TERMINATED)]
  {
    ReconciledReported([p], [w], 0);
    ReconciledShape([p], [w]);
    assert Reconciled([p], [w]) == [p.(status := TERMINATED)];
  }

  /** A table of one record that is not TERMINATED: the listing prints no row, since the walk has
      no record after the head and the head check fires only for TERMINATED. */
  lemma SoleLiveRecordUnlisted(p: Process)
    requires Named(p) && p.status != TERMINATED
    ensures Printed([p]) == []
    ensures Pruned([p]) == [p]
  {
    assert [p][1..] == [];
  }
}
