/**
 * The job-list bookkeeping of tsh.c's signal handlers. The SIGCHLD
 * handler polls waitpid once per slot and, for each child that changed
 * state, reports it and updates the job list; the SIGINT and SIGTSTP
 * handlers pass the signal on to the process group of the foreground job.
 * What waitpid reports and the kill requests sent are values: the kernel
 * is not part of the model.
 */
module Handlers {
  import opened Wrappers
  import opened Jobs
  import opened JobTable
  import Sio

  const SIGINT: int := 2
  const SIGTSTP: int := 20

  // ---------------------------------------------------------------------
  // SIGCHLD

  /** How a child changed state, as the WIFSTOPPED, WIFSIGNALED and
      WIFEXITED macros classify the status waitpid stores. */
  datatype Status = Stopped(sig: int) | Signaled(sig: int) | Exited(code: int)

  /** One waitpid result: the pid it returned (0 when no child changed
      state, negative on error) and the status it stored. */
  datatype Poll = Poll(pid: int, status: Status)

  /** The line the handler writes for a stopped or killed child, with the
      job id, the pid and the signal in decimal. */
  function Report(jid: int, pid: int, what: string, sig: int): (r: string)
    ensures var head := "Job [" + Sio.DecimalString(jid) + "]";
            |head| < |r| && r[..|head|] == head && r[|r| - 1] == '\n'
  {
    "Job [" + Sio.DecimalString(jid) + "] (" + Sio.DecimalString(pid) + ") " + what
    + " by signal " + Sio.DecimalString(sig) + "\n"
  }

  /** The handler can process p: a stopped child must be in the job list,
      since the handler sets the state through the pointer getjobpid
      returns without checking it for NULL. */
  predicate Reapable(t: Table, p: Poll)
  {
    p.pid > 0 && p.status.Stopped? ==> GetJobPid(t.slots, p.pid).Some?
  }

  /** The job list after one poll and the text written for it. */
  datatype Reaped = Reaped(table: Table, out: string)

  /** One poll of the SIGCHLD handler: a stopped child goes to ST and is
      reported; a child killed by a signal is reported with the job id it
      had and deleted; a child that exited is deleted silently. */
  function Reap(t: Table, p: Poll): (r: Reaped)
    requires Reapable(t, p)
    ensures p.pid <= 0 ==> r == Reaped(t, "")
    ensures |r.table.slots| == |t.slots|
    ensures forall k :: 0 <= k < |t.slots| && t.slots[k].pid != p.pid ==> r.table.slots[k] == t.slots[k]
    ensures r.out != "" ==> p.pid > 0 && !p.status.Exited?
  {
    if p.pid <= 0 then Reaped(t, "")
    else match p.status
      case Stopped(sig) =>
        Reaped(StopJob(t, p.pid), Report(Pid2Jid(t.slots, p.pid), p.pid, "stopped", sig))
      case Signaled(sig) =>
        Reaped(DeleteJob(t, p.pid).table, Report(Pid2Jid(t.slots, p.pid), p.pid, "terminated", sig))
      case Exited(_) =>
        Reaped(DeleteJob(t, p.pid).table, "")
  }

  /** Every poll of the sequence can be processed in turn. */
  predicate ReapableAll(t: Table, ps: seq<Poll>)
    decreases |ps|, 0
  {
    ps == [] ||
    (ReapableAll(t, ps[..|ps| - 1]) && Reapable(ReapAll(t, ps[..|ps| - 1]).table, ps[|ps| - 1]))
  }

  /** The polls processed one after the other; the texts are written in
      the same order. */
  function ReapAll(t: Table, ps: seq<Poll>): (r: Reaped)
    requires ReapableAll(t, ps)
    ensures |r.table.slots| == |t.slots|
    ensures forall k :: 0 <= k < |t.slots| && (forall j :: 0 <= j < |ps| ==> ps[j].pid != t.slots[k].pid) ==>
              r.table.slots[k] == t.slots[k]
    decreases |ps|, 1
  {
    if ps == [] then Reaped(t, "")
    else
      var r := ReapAll(t, ps[..|ps| - 1]);
      var q := Reap(r.table, ps[|ps| - 1]);
      Reaped(q.table, r.out + q.out)
  }

  lemma {:induction false} ReapableAllPrefix(t: Table, ps: seq<Poll>, k: nat)
    requires ReapableAll(t, ps)
    requires k <= |ps|
    ensures ReapableAll(t, ps[..k])
    decreases |ps|
  {
    if k < |ps| {
      ReapableAllPrefix(t, ps[..|ps| - 1], k);
      assert ps[..|ps| - 1][..k] == ps[..k];
    } else {
      assert ps[..k] == ps;
    }
  }

  /** Processing one more poll of the sequence. */
  lemma ReapAllStep(t: Table, ps: seq<Poll>, i: nat)
    requires i < |ps|
    requires ReapableAll(t, ps[..i + 1])
    ensures ReapableAll(t, ps[..i])
    ensures Reapable(ReapAll(t, ps[..i]).table, ps[i])
    ensures ReapAll(t, ps[..i + 1])
            == var r := ReapAll(t, ps[..i]);
               var q := Reap(r.table, ps[i]);
               Reaped(q.table, r.out + q.out)
  {
    assert ps[..i + 1][..i] == ps[..i];
  }

  /** One poll keeps the job-list invariant. */
  lemma ReapKeepsConsistent(t: Table, p: Poll)
    requires Consistent(t)
    requires Reapable(t, p)
    ensures Consistent(Reap(t, p).table)
  {
    if p.pid > 0 {
      match p.status
      case Stopped(_) => StopJobKeepsConsistent(t, p.pid);
      case Signaled(_) => DeleteJobKeepsConsistent(t, p.pid);
      case Exited(_) => DeleteJobKeepsConsistent(t, p.pid);
    }
  }

  /** A whole run of the handler keeps the job-list invariant. */
  lemma {:induction false} ReapAllKeepsConsistent(t: Table, ps: seq<Poll>)
    requires Consistent(t)
    requires ReapableAll(t, ps)
    ensures Consistent(ReapAll(t, ps).table)
    decreases |ps|
  {
    if ps != [] {
      var r := ReapAll(t, ps[..|ps| - 1]);
      ReapAllKeepsConsistent(t, ps[..|ps| - 1]);
      ReapKeepsConsistent(r.table, ps[|ps| - 1]);
    }
  }

  /** What one poll does to the job of that pid, with pids distinct: a
      stop keeps the job in its slot with its job id and sets it to ST and
      reports it under that job id; a kill reports it under the job id it
      had and removes it; an exit removes it and writes nothing. */
  lemma ReapEffect(t: Table, p: Poll)
    requires Consistent(t) && DistinctPids(t.slots)
    requires Reapable(t, p)
    requires p.pid > 0
    ensures p.status.Stopped? ==>
              && GetJobPid(Reap(t, p).table.slots, p.pid) == GetJobPid(t.slots, p.pid)
              && var i := GetJobPid(t.slots, p.pid).value;
                 && Reap(t, p).table.slots[i] == t.slots[i].(state := St)
                 && Reap(t, p).out == Report(t.slots[i].jid, p.pid, "stopped", p.status.sig)
    ensures p.status.Signaled? ==>
              && GetJobPid(Reap(t, p).table.slots, p.pid).None?
              && Reap(t, p).out == Report(Pid2Jid(t.slots, p.pid), p.pid, "terminated", p.status.sig)
              && (GetJobPid(t.slots, p.pid).Some? ==>
                    Pid2Jid(t.slots, p.pid) == t.slots[GetJobPid(t.slots, p.pid).value].jid)
    ensures p.status.Exited? ==>
              GetJobPid(Reap(t, p).table.slots, p.pid).None? && Reap(t, p).out == ""
  {
    match p.status
    case Stopped(_) =>
      var i := GetJobPid(t.slots, p.pid).value;
      var s := Reap(t, p).table.slots;
      assert s == t.slots[i := t.slots[i].(state := St)];
      assert s[i].pid == p.pid;
    case Signaled(_) => DeleteRemovesPid(t, p.pid);
    case Exited(_) => DeleteRemovesPid(t, p.pid);
  }

  /**
   * When the foreground job's child stops, is killed or exits, no job with
   * its pid is in the foreground any more: the condition the shell's
   * waitfg loop waits for.
   */
  lemma ReapReleasesForeground(t: Table, p: Poll)
    requires Consistent(t) && DistinctPids(t.slots)
    requires Reapable(t, p)
    requires p.pid > 0 && p.pid == FgPid(t.slots)
    ensures FgPid(Reap(t, p).table.slots) != p.pid
  {
    var s := Reap(t, p).table.slots;
    var f := FirstForeground(t.slots).value;
    assert t.slots[f].pid == p.pid;
    assert GetJobPid(t.slots, p.pid) == Some(f);
    assert s == t.slots[f := if p.status.Stopped? then t.slots[f].(state := St) else Cleared];
    ReapKeepsConsistent(t, p);
    assert NoForeground(s);
  }

  /** One poll of the handler on the job list itself: sigchld_handler's
      loop body for one slot. */
  method ReapChild(jl: JobList, p: Poll) returns (out: string)
    requires jl.Valid()
    requires Reapable(jl.State(), p)
    modifies jl, jl.jobs
    ensures jl.jobs == old(jl.jobs) && jl.Valid()
    ensures Reaped(jl.State(), out) == Reap(old(jl.State()), p)
  {
    out := "";
    if p.pid > 0 {
      match p.status {
        case Stopped(sig) =>
          var jid := jl.Pid2Jid(p.pid);
          out := Report(jid, p.pid, "stopped", sig);
          var slot := jl.GetJobPid(p.pid);
          var i := slot.value;
          jl.jobs[i] := jl.jobs[i].(state := St);
        case Signaled(sig) =>
          var jid := jl.Pid2Jid(p.pid);
          out := Report(jid, p.pid, "terminated", sig);
          var deleted := jl.DeleteJob(p.pid);
        case Exited(_) =>
          var deleted := jl.DeleteJob(p.pid);
      }
    }
  }

  /** sigchld_handler: one waitpid per slot of the job list, each result
      processed in turn; ps holds what those calls returned. */
  method SigchldHandler(jl: JobList, ps: seq<Poll>) returns (out: string)
    requires jl.Valid()
    requires |ps| == MAXJOBS
    requires ReapableAll(jl.State(), ps)
    modifies jl, jl.jobs
    ensures jl.jobs == old(jl.jobs) && jl.Valid()
    ensures Reaped(jl.State(), out) == ReapAll(old(jl.State()), ps)
  {
    ghost var t := jl.State();
    out := "";
    var i := 0;
    while i < MAXJOBS
      invariant 0 <= i <= MAXJOBS
      invariant jl.jobs == old(jl.jobs) && jl.Valid()
      invariant ReapableAll(t, ps[..i])
      invariant Reaped(jl.State(), out) == ReapAll(t, ps[..i])
    {
      ReapableAllPrefix(t, ps, i + 1);
      ReapAllStep(t, ps, i);
      var o := ReapChild(jl, ps[i]);
      out := out + o;
      i := i + 1;
    }
    assert ps[..i] == ps;
  }

  // ---------------------------------------------------------------------
  // SIGINT and SIGTSTP

  /** A kill request: the signal sig sent to the process group pgid
      (kill with a negative pid). */
  datatype Kill = Kill(pgid: int, sig: int)

  /** What the SIGINT and SIGTSTP handlers send: sig to the group of the
      first foreground job, nothing when no job is in the foreground. */
  function RelayTarget(s: seq<Job>, sig: int): (r: Option<Kill>)
    ensures r.None? <==> NoForeground(s)
    ensures r.Some? ==> r.value == Kill(-FgPid(s), sig)
  {
    match FirstForeground(s)
    case None => None
    case Some(i) => Some(Kill(-s[i].pid, sig))
  }

  /**
   * In a consistent job list the handlers signal the group -fgpid when
   * there is a foreground job and nothing otherwise; the group is a real
   * one (never 0, which would be the shell's own group), and with pids
   * distinct no other job is signalled.
   */
  lemma RelayTargetsForeground(t: Table, sig: int)
    requires Consistent(t)
    ensures RelayTarget(t.slots, sig).None? <==> FgPid(t.slots) == 0
    ensures FgPid(t.slots) != 0 ==> RelayTarget(t.slots, sig) == Some(Kill(-FgPid(t.slots), sig))
    ensures RelayTarget(t.slots, sig).Some? ==> RelayTarget(t.slots, sig).value.pgid <= -1
    ensures DistinctPids(t.slots) && RelayTarget(t.slots, sig).Some? ==>
              forall i :: 0 <= i < |t.slots| && t.slots[i].state != Fg ==>
                RelayTarget(t.slots, sig).value.pgid != -t.slots[i].pid
  {
    FgPidOfConsistent(t);
    match FirstForeground(t.slots)
    case None =>
    case Some(f) =>
      assert SlotOk(t.slots[f]);
  }

  /** The loop both handlers run: the first slot in state FG gets sig. */
  method RelayToForeground(jl: JobList, sig: int) returns (k: Option<Kill>)
    ensures k == RelayTarget(jl.jobs[..], sig)
  {
    var i := 0;
    while i < jl.jobs.Length
      invariant 0 <= i <= jl.jobs.Length
      invariant forall j :: 0 <= j < i ==> jl.jobs[j].state != Fg
    {
      if jl.jobs[i].state == Fg {
        return Some(Kill(-jl.jobs[i].pid, sig));
      }
      i := i + 1;
    }
    return None;
  }

  /** sigint_handler: ctrl-c goes to the foreground job's group. */
  method SigintHandler(jl: JobList) returns (k: Option<Kill>)
    ensures k == RelayTarget(jl.jobs[..], SIGINT)
  {
    k := RelayToForeground(jl, SIGINT);
  }

  /** sigtstp_handler: ctrl-z goes to the foreground job's group. */
  method SigtstpHandler(jl: JobList) returns (k: Option<Kill>)
    ensures k == RelayTarget(jl.jobs[..], SIGTSTP)
  {
    k := RelayToForeground(jl, SIGTSTP);
  }
}
