/**
 The job table as the shell keeps it: one object whose record list the operations walk and
 update in place. The list is a sequence; a record's `next` link is the record after it.
 */
module Table {
  import opened Jobs

  class ProcessTable {
    var procs: seq<Process>

    /** Every status code is one of the three constants and every command has a name. */
    ghost predicate Valid()
      reads this
    {
      AllValid(procs) && AllNamed(procs)
    }

    /** The empty table main starts with. */
    constructor ()
      ensures procs == [] && Valid()
    {
      procs := [];
    }

    /** addProcess: walk to the tail and link a new RUNNING record after it. */
    method AddProcess(cmd: CmdLine, pid: int)
      modifies this
      ensures procs == old(procs) + [Process(cmd, pid, RUNNING)]
      ensures old(Valid()) && |cmd.arguments| > 0 ==> Valid()
    {
      var added := Process(cmd, pid, RUNNING);
      if procs == [] {
        procs := [added];
      } else {
        var tmp := 0;
        while tmp + 1 < |procs|
          invariant tmp < |procs|
        {
          tmp := tmp + 1;
        }
        procs := procs[..tmp + 1] + [added];
      }
    }

    /** updateProcessStatus, called on the record at position `from`: every record from there on
        whose pid matches gets the new status. `from == |procs|` is the empty list. */
    method UpdateProcessStatus(from: nat, pid: int, status: int)
      requires from <= |procs|
      modifies this
      ensures procs == old(procs)[..from] + SetStatus(old(procs)[from..], pid, status)
      ensures old(Valid()) && ValidStatus(status) ==> Valid()
    {
      var tmp := from;
      while tmp < |procs|
        invariant from <= tmp <= |procs| == |old(procs)|
        invariant forall j :: 0 <= j < |procs| ==>
          procs[j] == if from <= j < tmp && old(procs)[j].pid == pid then old(procs)[j].(status := status) else old(procs)[j]
      {
        if procs[tmp].pid == pid {
          procs := procs[tmp := procs[tmp].(status := status)];
        }
        tmp := tmp + 1;
      }
      UpdateFromSpec(old(procs), from, pid, status);
    }

    /** updateProcessList: query each record once, in list order (`ws[i]` is what the query
        reports for the i-th record), and update from that record onward by its pid. */
    method UpdateProcessList(ws: seq<WaitResult>)
      requires |ws| == |procs|
      modifies this
      ensures procs == Reconciled(old(procs), ws)
      ensures old(Valid()) ==> Valid()
    {
      var tmp := 0;
      while tmp < |procs|
        invariant tmp <= |procs| == |old(procs)|
        invariant forall j :: 0 <= j < |procs| ==>
          procs[j] == old(procs)[j].(status := StatusAfter(old(procs), ws, j, tmp))
      {
        var pid := procs[tmp].pid;
        ghost var before := procs;
        match ws[tmp] {
          case Error =>
            UpdateProcessStatus(tmp, pid, TERMINATED);
            UpdateFromSpec(before, tmp, pid, TERMINATED);
          case NoChange =>
          case Changed(state) =>
            if state == Continued {
              UpdateProcessStatus(tmp, pid, RUNNING);
              UpdateFromSpec(before, tmp, pid, RUNNING);
            }
            ghost var middle := procs;
            if state == Stopped {
              UpdateProcessStatus(tmp, pid, SUSPENDED);
              UpdateFromSpec(middle, tmp, pid, SUSPENDED);
            } else {
              UpdateProcessStatus(tmp, pid, TERMINATED);
              UpdateFromSpec(middle, tmp, pid, TERMINATED);
            }
        }
        tmp := tmp + 1;
      }
      ReconciledShape(old(procs), ws);
      if old(Valid()) {
        ReconciledValid(old(procs), ws);
      }
    }

    /** printProcessList: print every record after the head and unlink the TERMINATED ones, then
        print the head if the walk's trailing pointer is still on it and it is TERMINATED. The
        trailing pointer is the dispatcher's own copy of the head pointer, so moving it leaves the
        caller's head in place. Returns the printed rows. */
    method PrintProcessList() returns (rows: seq<Row>)
      requires AllNamed(procs)
      modifies this
      ensures procs == Pruned(old(procs))
      ensures rows == Printed(old(procs))
      ensures old(Valid()) ==> Valid()
    {
      rows := [];
      if procs == [] {
        return;
      }
      ghost var orig := procs;
      ghost var walked := 1;  // records of the original list visited so far, head included
      ghost var kept: seq<Process> := [];  // records after the head that stay linked so far
      var prev := 0;          // position of the record `*prev` points at; `tmp` is the one after it
      while prev + 1 < |procs|
        invariant 1 <= walked <= |orig|
        invariant kept == Surviving(orig[1..walked]) && prev == |kept|
        invariant procs == [orig[0]] + kept + orig[walked..]
        invariant rows == RowsOf(orig[1..walked])
        decreases |procs| - prev
      {
        var tmp := procs[prev + 1];
        PruneWalkStep(orig, walked);
        assert tmp == orig[walked];
        rows := rows + [RowOf(tmp)];
        if tmp.status == TERMINATED {
          assert procs[..prev + 1] == [orig[0]] + kept;
          assert procs[prev + 2..] == orig[walked + 1..];
          procs := procs[..prev + 1] + procs[prev + 2..];
        } else {
          prev := prev + 1;
          kept := kept + [tmp];
        }
        walked := walked + 1;
      }
      assert orig[1..walked] == orig[1..];
      assert procs == Pruned(orig);
      PruneWalkDone(orig, kept);
      PrunedKeeps(orig);
      assert procs[prev] == ([orig[0]] + kept)[|kept|];
      if procs[prev].status == TERMINATED {
        rows := rows + [RowOf(procs[prev])];
      }
    }
  }
}
