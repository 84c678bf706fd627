# Job table of a minimal command shell, in Dafny

This project models the job-tracking core of a small interactive shell written in C (`Shell.c`).
The shell runs external commands and keeps one record per launched process in a singly linked
list. Each record holds the parsed command, the pid and a status code: `-1` terminated, `0`
suspended, `1` running. The model covers four list operations and the built-in dispatcher:

- `addProcess` appends a running record at the tail.
- `updateProcessStatus` sets the status of every record with a given pid, from some record onward.
- `updateProcessList` reconciles each record against a non-blocking `waitpid`.
- `printProcessList` prints every record after the head and unlinks the terminated ones among
  them. It prints the head only when the head and all later records have status `-1`.
- `command` recognises `quit`, `cd` and `procs`. `main` records a new process only when `command`
  returns 0.

Layout:

- `jobs.dfy`, module `Jobs`: the record, the status codes and the wait reports, as values. It also
  holds the specification functions of the operations (`SetStatus`, `Reconciled`, `Pruned`,
  `Printed`) and the lemmas about them.
- `table.dfy`, module `Table`: class `ProcessTable`. Its field `procs: seq<Process>` is the linked
  list, and the order of the sequence is the order of the `next` links. Each C function is a method
  whose loop follows the C pointer walk. Each method is proved equal to its specification function.
- `shell.dfy`, module `Shell`: `command` as `Command`, and one iteration of `main`'s loop as `Step`.

How the code behaves, as modelled:

- **Reconcile.** Every update starts at the record being visited, not at the head. So a report
  also reaches later records that share the pid, and never reaches earlier ones. A "continued"
  report ends at `-1`: the code sets `1` and then overwrites it, because the following
  `if`/`else` treats "not stopped" as terminated.
- **Print and prune.** The walk's trailing pointer `*prev` is the dispatcher's own copy of the head
  pointer. That copy moves to the last record kept. The final head check therefore fires only when
  every record after the head was pruned. Moving that copy never changes `main`'s head.
- **The head is never removed.** A terminated head stays in the table. It is printed, as the last
  row, only when every other record is also terminated. When some later record survives, a
  terminated head is not printed at all.
- **A head that is not terminated is never listed.** A running or suspended head gets no row. A
  table with one running record therefore prints nothing (`SoleLiveRecordUnlisted`).
- **A table of one ended process never empties.** Its record is printed once with `-1` and stays
  in the table (`SoleTerminatedRecordStays`). It is printed again by every later `procs` as long as
  every later record is also terminated.

`waitpid`, `fork`/`execvp`, `chdir` and `exit` are not executed; they become inputs or outputs:

- The wait reports are a sequence `ws` with one `WaitResult` per record, in list order: `Error`
  (returned -1), `NoChange` (returned 0) or `Changed(Stopped | Continued | OtherChange)`.
- The pid that `execute` returns is the parameter `launched` of `Step`.
- `cd` is reported as the effect `ChangeDirectory(path)`. `quit` is the reply `Exited(0)`, which
  stands for "does not return". The `procs` output is a sequence of `(pid, argv0, status)` rows.

## Model

| member | source | states |
|---|---|---|
| `Table.ProcessTable.constructor` | Shell.c:156 | main starts with an empty table |
| `Table.ProcessTable.AddProcess` | Shell.c:24-45 | the new table is the old one with a record (cmd, pid, RUNNING) added last; earlier records, their order and the empty-table case are covered by that one equation; valid statuses stay valid |
| `Table.ProcessTable.UpdateProcessStatus` | Shell.c:56-64 | records before the start position are untouched; from there on the list becomes `SetStatus` of it, so only matching pids change |
| `Table.ProcessTable.UpdateProcessList` | Shell.c:66-88 | the walk, with each call to the update starting at the visited record, yields exactly `Reconciled(old table, reports)`; valid statuses stay valid |
| `Table.ProcessTable.PrintProcessList` | Shell.c:90-114 | the caller's table becomes `Pruned(old)` and the printed rows are `Printed(old)`; the empty table prints nothing and stays empty |
| `Jobs.SetStatusSpec` | Shell.c:56-64 | same length; every record whose pid matches gets the new status, every other record and every other field is unchanged |
| `Jobs.UpdateFromSpec` | Shell.c:73-83 | an update called on the record at position `from` changes exactly the records at or after `from` with that pid |
| `Jobs.SetStatusIdempotent` | Shell.c:56-64 | applying the same update twice equals applying it once |
| `Jobs.SetStatusNoMatch` | Shell.c:56-64 | an update for a pid that no record carries changes nothing |
| `Jobs.SetStatusValid` | Shell.c:13-15 | setting one of the three status codes keeps all status codes within {-1, 0, 1} |
| `Jobs.Reported` | Shell.c:75-84 | a reported state change gives SUSPENDED exactly for "stopped" and TERMINATED otherwise, "continued" included; the code is always valid |
| `Jobs.ReconciledShape` | Shell.c:66-88 | reconciling keeps the record count, the order, the pids and the commands |
| `Jobs.ReconciledReported` | Shell.c:71-85 | a record whose own query reports something ends with that report's status: Error gives -1, stopped gives 0, continued and any other change give -1, whatever pids other records share |
| `Jobs.ReconciledByEarlier` | Shell.c:73-83 | an earlier record with the same pid whose query reported something decides a later record's status, unless a report in between overrides it |
| `Jobs.ReconciledUnreported` | Shell.c:70-87 | a record that no report of its pid reached, at or before its position, is unchanged |
| `Jobs.ReconciledDistinct` | Shell.c:66-88 | with distinct pids, each record's status is its old status on NoChange and its own report's status otherwise |
| `Jobs.ReconciledQuiet` | Shell.c:70-87 | when every query reports no change, reconciling leaves the table as it was, however often it is repeated |
| `Jobs.ReconciledValid` | Shell.c:66-88 | reconciling keeps every status code within {-1, 0, 1} |
| `Jobs.SurvivingSpec` | Shell.c:97-108 | the records kept after the head are none of them TERMINATED, and every non-terminated record occurs in them exactly as often as before |
| `Jobs.SurvivingConcat` | Shell.c:97-108 | filtering the list in two parts gives the two filtered parts joined, so the kept records keep their list order |
| `Jobs.PrunedSpec` | Shell.c:90-114 | the empty table stays empty; the head stays first; no record after it is TERMINATED; the records after it are the old non-terminated ones with the same count |
| `Jobs.PrunedKeeps` | Shell.c:97-108 | pruning keeps valid status codes and named commands |
| `Jobs.PrunedIdempotent` | Shell.c:97-108 | a second prune right after the first removes nothing |
| `Jobs.PrintedSpec` | Shell.c:97-113 | every record after the head is printed once, in list order, as (pid, argv0, status); the head is printed, last, exactly when it and every later record are TERMINATED |
| `Jobs.ReprintedOnlyHead` | Shell.c:97-113 | a record after the head reported as TERMINATED by one listing is not reported again by a listing right after it, with no reconcile in between; the only TERMINATED row that listing can print is the head's |
| `Jobs.NextListingAfterReconcile` | Shell.c:66-113 | the next `procs` (a reconcile, then a listing) prints after the head, in order, exactly the records the previous listing left linked, none of which it had printed as TERMINATED, each with its reconciled status; any further row is the head's, so an unlinked record is never printed again |
| `Jobs.SoleLiveRecordUnlisted` | Shell.c:94-113 | a table of one record that is not TERMINATED prints no row and is left as it was |
| `Jobs.SoleTerminatedRecordStays` | Shell.c:110-113 | a single record whose process ended is printed once with -1 and stays in the caller's table |
| `Shell.Classify` | Shell.c:132-146 | the name selects quit, cd or procs exactly when it equals that string, and otherwise no built-in |
| `Shell.Command` | Shell.c:131-147 | returns 0 exactly when arguments[0] is none of quit, cd, procs, and then the table is unchanged; quit exits with 0; cd returns 1 with a change to arguments[1] and requires that argument; procs returns 1, reconciles, then prints and prunes |
| `Shell.Step` | Shell.c:163-180 | an unparsed line skips the cycle with no reply; a record (cmd, launched pid, RUNNING) is appended exactly for a line that is no built-in, whose reply is 0; quit replies `Exited(0)` and cd replies 1 with a change to arguments[1], both leaving the table; procs replies 1 with the rows of `Printed(Reconciled(...))` and leaves `Pruned(Reconciled(...))` |

## Left out

- `execute` (`fork`, `execvp`, `perror`, `_exit`, the blocking `waitpid`): process creation is OS
  interaction. The pid it returns is an input of `Shell.Step`.
- The real `waitpid` with `WNOHANG` and the `WIFSTOPPED` / `WIFCONTINUED` decoding: replaced by
  the `WaitResult` reports, one per visited record.
- `chdir` and its error message, `exit(0)`, `getcwd`, the prompt, `fgets` and the debug `printf`
  in `main`: I/O and environment side effects. `cd` and `quit` appear only as the reply of
  `Shell.Command`.
- `parseCmdLines` and `freeCmdLines`: `LineParser.h` is not part of this model. A parsed command
  is a value with an `arguments` sequence and a `blocking` flag, and a failed parse is `None`.
- `freeProcessList`, `malloc` and `free`: memory management has nothing to check in a sequence
  model. The records `printProcessList` unlinks without freeing are a leak, not behaviour.
- The `-d` flag parsing in `main`: it only switches on the debug print.
- A record whose pid is `-1`: `fork` returns `-1` when it fails, `execute` returns that value and
  `main` records it. For such a record `waitpid(-1, ...)` waits for any child. When it returns `-1`,
  the comparison with the record's pid also succeeds. The code then decodes a `status` word that
  `waitpid` never wrote. The model gives a report of `Error` the status `-1` and does not model
  that read of an unwritten value. A report for another child, or reaping that child's status
  away from its own record, is not modelled either.
- Pids are unbounded integers. The C `pid_t` width plays no part in any comparison here.
- Aliasing of record nodes between `main` and `command` is not modelled as separate pointers. The
  table is one sequence shared by both. Only the head pointer that `command` receives by value is
  modelled, as the part of the walk that cannot reach the caller.
