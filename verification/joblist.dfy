/**
 * The job list of tsh.c as the program keeps it: a fixed array of MAXJOBS
 * job slots and the nextjid counter, updated in place by the job-list
 * routines. Every routine is proved against its specification in Jobs.
 */
module JobTable {
  import opened Wrappers
  import opened Jobs
  import Sio

  class JobList {
    /** The global array job_list. */
    var jobs: array<Job>
    /** The global counter nextjid: the job id the next addjob hands out. */
    var nextjid: int

    ghost predicate Valid()
      reads this
    {
      jobs.Length == MAXJOBS
    }

    /** The table the array and the counter currently hold. */
    function State(): Table
      reads this, jobs
    {
      Table(jobs[..], nextjid)
    }

    /** The job list as the program starts with it: static storage, so
        every slot is clear, and nextjid initialised to 1. */
    constructor ()
      ensures Valid() && fresh(jobs)
      ensures State() == Initial()
    {
      jobs := new Job[MAXJOBS](_ => Cleared);
      nextjid := 1;
    }

    /** clearjob: resets slot i to pid 0, jid 0, state UNDEF and an empty
        command line. */
    method ClearJob(i: nat)
      requires i < jobs.Length
      modifies jobs
      ensures jobs[..] == old(jobs[..])[i := Cleared]
    {
      jobs[i] := Cleared;
    }

    /** initjobs: clears every slot; nextjid is left alone. */
    method InitJobs()
      requires Valid()
      modifies jobs
      ensures jobs[..] == Initial().slots
    {
      var i := 0;
      while i < MAXJOBS
        invariant 0 <= i <= MAXJOBS
        invariant forall k :: 0 <= k < i ==> jobs[k] == Cleared
      {
        ClearJob(i);
        i := i + 1;
      }
    }

    /** maxjid: the largest job id in any slot, 0 when there is none. */
    method MaxJid() returns (m: int)
      ensures m == Jobs.MaxJid(jobs[..])
    {
      m := 0;
      var i := 0;
      while i < jobs.Length
        invariant 0 <= i <= jobs.Length
        invariant m == Jobs.MaxJid(jobs[..i])
      {
        assert jobs[..i + 1][..i] == jobs[..i];
        if jobs[i].jid > m {
          m := jobs[i].jid;
        }
        i := i + 1;
      }
      assert jobs[..i] == jobs[..];
    }

    /** fgpid: the pid of the first slot in state FG, 0 when there is none. */
    method FgPid() returns (pid: int)
      ensures pid == Jobs.FgPid(jobs[..])
    {
      var i := 0;
      while i < jobs.Length
        invariant 0 <= i <= jobs.Length
        invariant forall k :: 0 <= k < i ==> jobs[k].state != Fg
      {
        if jobs[i].state == Fg {
          return jobs[i].pid;
        }
        i := i + 1;
      }
      return 0;
    }

    /** getjobpid: the index of the first slot holding pid (the C routine
        returns its address), none for pid < 1 or an unknown pid. */
    method GetJobPid(pid: int) returns (r: Option<nat>)
      ensures r == Jobs.GetJobPid(jobs[..], pid)
    {
      if pid < 1 {
        return None;
      }
      var i := 0;
      while i < jobs.Length
        invariant 0 <= i <= jobs.Length
        invariant forall k :: 0 <= k < i ==> jobs[k].pid != pid
      {
        if jobs[i].pid == pid {
          return Some(i);
        }
        i := i + 1;
      }
      return None;
    }

    /** getjobjid: the index of the first slot holding jid, none for
        jid < 1 or an unknown jid. */
    method GetJobJid(jid: int) returns (r: Option<nat>)
      ensures r == Jobs.GetJobJid(jobs[..], jid)
    {
      if jid < 1 {
        return None;
      }
      var i := 0;
      while i < jobs.Length
        invariant 0 <= i <= jobs.Length
        invariant forall k :: 0 <= k < i ==> jobs[k].jid != jid
      {
        if jobs[i].jid == jid {
          return Some(i);
        }
        i := i + 1;
      }
      return None;
    }

    /** pid2jid: the job id of the first slot holding pid, 0 for pid < 1
        or an unknown pid. */
    method Pid2Jid(pid: int) returns (jid: int)
      ensures jid == Jobs.Pid2Jid(jobs[..], pid)
    {
      if pid < 1 {
        return 0;
      }
      var i := 0;
      while i < jobs.Length
        invariant 0 <= i <= jobs.Length
        invariant forall k :: 0 <= k < i ==> jobs[k].pid != pid
      {
        if jobs[i].pid == pid {
          return jobs[i].jid;
        }
        i := i + 1;
      }
      return 0;
    }

    /** listjobs: the text printed for every used slot in slot order. */
    method ListJobs() returns (out: string)
      ensures out == Jobs.ListJobs(jobs[..])
    {
      out := "";
      var i := 0;
      while i < jobs.Length
        invariant 0 <= i <= jobs.Length
        invariant out == Concat(Lines(jobs[..])[..i])
      {
        var line := SlotLine(i, jobs[i]);
        ConcatLast(Lines(jobs[..]), i);
        out := out + line;
        i := i + 1;
      }
      assert Lines(jobs[..])[..i] == Lines(jobs[..]);
    }

    /**
     * addjob: refuses pid < 1, fills the first free slot with the job and
     * the current nextjid, advances nextjid (back to 1 past MAXJOBS), or
     * reports a full table. Callers may add a foreground job only while no
     * other job is in the foreground.
     */
    method AddJob(pid: int, state: JobState, cmdline: string) returns (ok: bool, out: string)
      requires Valid()
      requires state == Fg ==> NoForeground(jobs[..])
      modifies this, jobs
      ensures jobs == old(jobs) && Valid()
      ensures Added(State(), ok, out) == Jobs.AddJob(old(State()), pid, state, cmdline)
      ensures old(Consistent(State())) && state != Undef ==> Consistent(State())
    {
      ghost var t := State();
      if pid < 1 {
        return false, "";
      }
      var i := 0;
      while i < jobs.Length
        invariant 0 <= i <= jobs.Length
        invariant forall k :: 0 <= k < i ==> jobs[k].pid != 0
        invariant State() == t
      {
        if jobs[i].pid == 0 {
          jobs[i] := Job(pid, nextjid, state, cmdline);
          nextjid := nextjid + 1;
          if nextjid > MAXJOBS {
            nextjid := 1;
          }
          assert FirstFree(t.slots) == Some(i);
          AddJobKeepsConsistentIf(t, pid, state, cmdline);
          return true, "";
        }
        i := i + 1;
      }
      AddJobKeepsConsistentIf(t, pid, state, cmdline);
      return false, TooManyJobs;
    }

    /** deletejob: clears the first slot holding pid and resets nextjid to
        one past the largest job id left; refuses pid < 1 or an unknown
        pid. */
    method DeleteJob(pid: int) returns (ok: bool)
      requires Valid()
      modifies this, jobs
      ensures jobs == old(jobs) && Valid()
      ensures Deleted(State(), ok) == Jobs.DeleteJob(old(State()), pid)
      ensures old(Consistent(State())) ==> Consistent(State())
    {
      ghost var t := State();
      if Consistent(t) {
        DeleteJobKeepsConsistent(t, pid);
      }
      if pid < 1 {
        return false;
      }
      var i := 0;
      while i < jobs.Length
        invariant 0 <= i <= jobs.Length
        invariant forall k :: 0 <= k < i ==> jobs[k].pid != pid
        invariant State() == t
      {
        if jobs[i].pid == pid {
          assert Jobs.GetJobPid(t.slots, pid) == Some(i);
          ClearJob(i);
          var m := MaxJid();
          nextjid := m + 1;
          return true;
        }
        i := i + 1;
      }
      return false;
    }
  }

  /** addjob keeps the invariant for a real state, whether or not it
      succeeds. */
  lemma AddJobKeepsConsistentIf(t: Table, pid: int, state: JobState, cmdline: string)
    requires state == Fg ==> NoForeground(t.slots)
    ensures Consistent(t) && state != Undef ==> Consistent(Jobs.AddJob(t, pid, state, cmdline).table)
  {
    if Consistent(t) && state != Undef {
      AddJobKeepsConsistent(t, pid, state, cmdline);
    }
  }
}
