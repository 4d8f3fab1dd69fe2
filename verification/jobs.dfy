/**
 * The job list of tsh.c as values: one record per slot, the table of
 * MAXJOBS slots with the nextjid counter, and every job-list routine
 * (clearjob, initjobs, maxjid, addjob, deletejob, the lookups, listjobs)
 * specified as a function of the slot sequence.
 */
module Jobs {
  import opened Wrappers
  import Sio

  const MAXJOBS: nat := 16

  /** Job states UNDEF, FG, BG and ST. */
  datatype JobState = Undef | Fg | Bg | St

  /** The numbers the C code stores for the states. */
  function StateCode(s: JobState): int
  {
    match s
    case Undef => 0
    case Fg => 1
    case Bg => 2
    case St => 3
  }

  /** struct job_t: process id, job id, state and command line. */
  datatype Job = Job(pid: int, jid: int, state: JobState, cmdline: string)

  /** A slot as clearjob leaves it. */
  const Cleared: Job := Job(0, 0, Undef, "")

  /** The global job list together with the global nextjid counter. */
  datatype Table = Table(slots: seq<Job>, nextjid: int)

  /** The table once initjobs has run at start-up: every slot clear and
      nextjid at its initial value 1. */
  function Initial(): (t: Table)
    ensures |t.slots| == MAXJOBS && t.nextjid == 1
    ensures forall k :: 0 <= k < |t.slots| ==> t.slots[k] == Cleared
  {
    Table(seq(MAXJOBS, _ => Cleared), 1)
  }

  // ---------------------------------------------------------------------
  // Slot scans

  /** The index of the first slot satisfying p: the shape of every scan of
      the job list, which stops at the first hit. */
  function FirstSlot(s: seq<Job>, p: Job -> bool): (r: Option<nat>)
    ensures r.Some? ==> r.value < |s| && p(s[r.value])
    ensures r.Some? ==> forall k :: 0 <= k < r.value ==> !p(s[k])
    ensures r.None? <==> forall k :: 0 <= k < |s| ==> !p(s[k])
  {
    if |s| == 0 then None
    else if p(s[0]) then Some(0)
    else match FirstSlot(s[1..], p)
      case None => None
      case Some(i) => Some(i + 1)
  }

  /** A scan result is determined by where the first hit is. */
  lemma FirstSlotAt(s: seq<Job>, p: Job -> bool, i: nat)
    requires i < |s| && p(s[i])
    requires forall k :: 0 <= k < i ==> !p(s[k])
    ensures FirstSlot(s, p) == Some(i)
  {
  }

  /** No slot of the table is in the foreground. */
  predicate NoForeground(s: seq<Job>)
  {
    forall k :: 0 <= k < |s| ==> s[k].state != Fg
  }

  /** maxjid: the largest job id in the table, 0 when every jid is 0. */
  function MaxJid(s: seq<Job>): (m: int)
    ensures m >= 0
    ensures forall k :: 0 <= k < |s| ==> s[k].jid <= m
    ensures m == 0 || exists k :: 0 <= k < |s| && s[k].jid == m
  {
    if |s| == 0 then 0
    else
      var m := MaxJid(s[..|s| - 1]);
      if s[|s| - 1].jid > m then s[|s| - 1].jid else m
  }

  /** The first free slot (pid 0), where addjob puts a new job. */
  function FirstFree(s: seq<Job>): (r: Option<nat>)
    ensures r.Some? ==> r.value < |s| && s[r.value].pid == 0
    ensures r.Some? ==> forall k :: 0 <= k < r.value ==> s[k].pid != 0
    ensures r.None? <==> forall k :: 0 <= k < |s| ==> s[k].pid != 0
  {
    FirstSlot(s, (j: Job) => j.pid == 0)
  }

  /** getjobpid: the first slot holding pid; none for pid < 1. */
  function GetJobPid(s: seq<Job>, pid: int): (r: Option<nat>)
    ensures r.Some? <==> pid >= 1 && exists k :: 0 <= k < |s| && s[k].pid == pid
    ensures r.Some? ==> r.value < |s| && s[r.value].pid == pid
    ensures r.Some? ==> forall k :: 0 <= k < r.value ==> s[k].pid != pid
  {
    if pid < 1 then None else FirstSlot(s, (j: Job) => j.pid == pid)
  }

  /** getjobjid: the first slot holding jid; none for jid < 1. */
  function GetJobJid(s: seq<Job>, jid: int): (r: Option<nat>)
    ensures r.Some? <==> jid >= 1 && exists k :: 0 <= k < |s| && s[k].jid == jid
    ensures r.Some? ==> r.value < |s| && s[r.value].jid == jid
    ensures r.Some? ==> forall k :: 0 <= k < r.value ==> s[k].jid != jid
  {
    if jid < 1 then None else FirstSlot(s, (j: Job) => j.jid == jid)
  }

  /** pid2jid: the job id of the first slot holding pid, 0 when there is
      none or pid < 1. */
  function Pid2Jid(s: seq<Job>, pid: int): (r: int)
    ensures pid < 1 || (forall k :: 0 <= k < |s| ==> s[k].pid != pid) ==> r == 0
    ensures forall i :: (0 <= i < |s| && pid >= 1 && s[i].pid == pid &&
                         forall k :: 0 <= k < i ==> s[k].pid != pid) ==> r == s[i].jid
  {
    match GetJobPid(s, pid)
    case None => 0
    case Some(i) => s[i].jid
  }

  /** The first slot in the foreground, which the signal relays target. */
  function FirstForeground(s: seq<Job>): (r: Option<nat>)
    ensures r.Some? ==> r.value < |s| && s[r.value].state == Fg
    ensures r.Some? ==> forall k :: 0 <= k < r.value ==> s[k].state != Fg
    ensures r.None? <==> NoForeground(s)
  {
    FirstSlot(s, (j: Job) => j.state == Fg)
  }

  /** fgpid: the pid of the first foreground slot, 0 when there is none. */
  function FgPid(s: seq<Job>): (r: int)
    ensures NoForeground(s) ==> r == 0
    ensures forall i :: (0 <= i < |s| && s[i].state == Fg &&
                         forall k :: 0 <= k < i ==> s[k].state != Fg) ==> r == s[i].pid
  {
    match FirstForeground(s)
    case None => 0
    case Some(i) => s[i].pid
  }

  // ---------------------------------------------------------------------
  // Table updates

  const TooManyJobs: string := "Tried to create too many jobs\n"

  /** What addjob leaves behind: the table, its 1/0 result, and what it
      printed. */
  datatype Added = Added(table: Table, ok: bool, out: string)

  /**
   * addjob: refuses pid < 1 silently and a full table with a message;
   * otherwise fills the first free slot with the job, gives it the current
   * nextjid and advances the counter, wrapping it to 1 past MAXJOBS.
   */
  function AddJob(t: Table, pid: int, state: JobState, cmdline: string): (r: Added)
    ensures r.ok <==> pid >= 1 && exists k :: 0 <= k < |t.slots| && t.slots[k].pid == 0
    ensures !r.ok ==> r.table == t
    ensures r.out == if pid >= 1 && !r.ok then TooManyJobs else ""
    ensures r.ok ==> exists i :: 0 <= i < |t.slots| && t.slots[i].pid == 0 &&
                                 (forall k :: 0 <= k < i ==> t.slots[k].pid != 0) &&
                                 r.table.slots == t.slots[i := Job(pid, t.nextjid, state, cmdline)]
    ensures r.ok ==> r.table.nextjid == if t.nextjid + 1 > MAXJOBS then 1 else t.nextjid + 1
  {
    if pid < 1 then Added(t, false, "")
    else match FirstFree(t.slots)
      case None => Added(t, false, TooManyJobs)
      case Some(i) =>
        var next := t.nextjid + 1;
        Added(Table(t.slots[i := Job(pid, t.nextjid, state, cmdline)],
                    if next > MAXJOBS then 1 else next),
              true, "")
  }

  /** What deletejob leaves behind: the table and its 1/0 result. */
  datatype Deleted = Deleted(table: Table, ok: bool)

  /**
   * deletejob: refuses pid < 1 or an unknown pid and changes nothing;
   * otherwise clears the first slot holding pid and resets nextjid to one
   * more than the largest job id left.
   */
  function DeleteJob(t: Table, pid: int): (r: Deleted)
    ensures r.ok <==> pid >= 1 && exists k :: 0 <= k < |t.slots| && t.slots[k].pid == pid
    ensures !r.ok ==> r.table == t
    ensures r.ok ==> exists i :: 0 <= i < |t.slots| && t.slots[i].pid == pid &&
                                 (forall k :: 0 <= k < i ==> t.slots[k].pid != pid) &&
                                 r.table.slots == t.slots[i := Cleared]
    ensures r.ok ==> r.table.nextjid == MaxJid(r.table.slots) + 1
  {
    match GetJobPid(t.slots, pid)
    case None => Deleted(t, false)
    case Some(i) =>
      var s := t.slots[i := Cleared];
      Deleted(Table(s, MaxJid(s) + 1), true)
  }

  /** The update the SIGCHLD handler makes for a stopped child: the first
      slot holding pid goes to state ST; nothing else changes. */
  function StopJob(t: Table, pid: int): (r: Table)
    requires GetJobPid(t.slots, pid).Some?
    ensures |r.slots| == |t.slots| && r.nextjid == t.nextjid
    ensures forall k :: 0 <= k < |t.slots| ==>
              r.slots[k] == if t.slots[k].pid == pid && (forall j :: 0 <= j < k ==> t.slots[j].pid != pid)
                            then t.slots[k].(state := St) else t.slots[k]
  {
    var i := GetJobPid(t.slots, pid).value;
    Table(t.slots[i := t.slots[i].(state := St)], t.nextjid)
  }

  // ---------------------------------------------------------------------
  // The invariant

  /** The per-slot invariant: a slot is free (pid 0) exactly when its
      state is UNDEF, a free slot is all clear (so its jid is 0), and a
      used slot has a positive pid and a positive jid. */
  predicate SlotOk(j: Job)
  {
    && (j.pid == 0 <==> j.state == Undef)
    && (j.pid == 0 ==> j == Cleared)
    && (j.pid != 0 ==> j.pid >= 1 && j.jid >= 1)
  }

  /** At most one job is in the FG state. */
  predicate AtMostOneForeground(s: seq<Job>)
  {
    forall i, k :: 0 <= i < |s| && 0 <= k < |s| && s[i].state == Fg && s[k].state == Fg ==> i == k
  }

  predicate Consistent(t: Table)
  {
    && t.nextjid >= 1
    && (forall k :: 0 <= k < |t.slots| ==> SlotOk(t.slots[k]))
    && AtMostOneForeground(t.slots)
  }

  lemma InitialConsistent()
    ensures Consistent(Initial())
  {
  }

  /** addjob keeps the invariant when it is given a real state and, for a
      foreground job, no other job is in the foreground. */
  lemma AddJobKeepsConsistent(t: Table, pid: int, state: JobState, cmdline: string)
    requires Consistent(t)
    requires state != Undef
    requires state == Fg ==> NoForeground(t.slots)
    ensures Consistent(AddJob(t, pid, state, cmdline).table)
  {
    var r := AddJob(t, pid, state, cmdline);
    if r.ok {
      var i := FirstFree(t.slots).value;
      assert r.table.slots == t.slots[i := Job(pid, t.nextjid, state, cmdline)];
    }
  }

  lemma DeleteJobKeepsConsistent(t: Table, pid: int)
    requires Consistent(t)
    ensures Consistent(DeleteJob(t, pid).table)
  {
  }

  lemma StopJobKeepsConsistent(t: Table, pid: int)
    requires Consistent(t)
    requires GetJobPid(t.slots, pid).Some?
    ensures Consistent(StopJob(t, pid))
  {
    var i := GetJobPid(t.slots, pid).value;
    assert StopJob(t, pid).slots == t.slots[i := t.slots[i].(state := St)];
  }

  /** In a consistent table fgpid is 0 exactly when no job is in the
      foreground, and otherwise it is the pid of the one foreground job. */
  lemma FgPidOfConsistent(t: Table)
    requires Consistent(t)
    ensures FgPid(t.slots) == 0 <==> NoForeground(t.slots)
    ensures forall i :: 0 <= i < |t.slots| && t.slots[i].state == Fg ==> FgPid(t.slots) == t.slots[i].pid
  {
    match FirstForeground(t.slots)
    case None =>
    case Some(f) =>
      assert SlotOk(t.slots[f]);
  }

  /** No two used slots hold the same pid (the kernel never hands out the
      pid of a live child twice). */
  predicate DistinctPids(s: seq<Job>)
  {
    forall i, k :: 0 <= i < |s| && 0 <= k < |s| && s[i].pid != 0 && s[i].pid == s[k].pid ==> i == k
  }

  /** After a successful addjob of a pid not yet in the table, pid2jid of
      that pid is the job id the add handed out (the value eval prints in
      its "[jid] (pid) cmdline" line). */
  lemma AddThenPid2Jid(t: Table, pid: int, state: JobState, cmdline: string)
    requires forall k :: 0 <= k < |t.slots| ==> t.slots[k].pid != pid
    requires AddJob(t, pid, state, cmdline).ok
    ensures GetJobPid(AddJob(t, pid, state, cmdline).table.slots, pid) == FirstFree(t.slots)
    ensures Pid2Jid(AddJob(t, pid, state, cmdline).table.slots, pid) == t.nextjid
  {
    var i := FirstFree(t.slots).value;
    var s := AddJob(t, pid, state, cmdline).table.slots;
    assert s == t.slots[i := Job(pid, t.nextjid, state, cmdline)];
    assert s[i].pid == pid;
  }

  /** Deleting a job that was just added restores every slot, and leaves
      nextjid one past the largest job id already there. */
  lemma AddThenDelete(t: Table, pid: int, state: JobState, cmdline: string)
    requires Consistent(t)
    requires forall k :: 0 <= k < |t.slots| ==> t.slots[k].pid != pid
    requires AddJob(t, pid, state, cmdline).ok
    ensures DeleteJob(AddJob(t, pid, state, cmdline).table, pid).ok
    ensures DeleteJob(AddJob(t, pid, state, cmdline).table, pid).table == Table(t.slots, MaxJid(t.slots) + 1)
  {
    var i := FirstFree(t.slots).value;
    var s := AddJob(t, pid, state, cmdline).table.slots;
    AddThenPid2Jid(t, pid, state, cmdline);
    assert SlotOk(t.slots[i]);
    assert s[i := Cleared] == t.slots;
  }

  /** Once deletejob has removed a pid that occurred once, no slot holds
      it any more. */
  lemma DeleteRemovesPid(t: Table, pid: int)
    requires DistinctPids(t.slots)
    ensures GetJobPid(DeleteJob(t, pid).table.slots, pid).None?
  {
    var r := DeleteJob(t, pid);
    if r.ok {
      var i := GetJobPid(t.slots, pid).value;
      assert r.table.slots == t.slots[i := Cleared];
    }
  }

  // ---------------------------------------------------------------------
  // listjobs

  /** The word listjobs prints for a state; for a used slot in state UNDEF
      it prints an internal-error notice naming the slot index. */
  function StateWord(i: int, s: JobState): (r: string)
    ensures |r| > 0 && r[|r| - 1] == ' '
  {
    match s
    case Bg => "Running "
    case Fg => "Foreground "
    case St => "Stopped "
    case Undef => "listjobs: Internal error: job[" + Sio.DecimalString(i) + "].state="
                  + Sio.DecimalString(StateCode(s)) + " "
  }

  /** The listing text of slot i holding job j: "[jid] (pid) <word>
      cmdline", or nothing for a free slot. */
  function SlotLine(i: int, j: Job): (r: string)
    ensures r == "" <==> j.pid == 0
    ensures j.pid != 0 ==> r[0] == '['
  {
    if j.pid == 0 then ""
    else "[" + Sio.DecimalString(j.jid) + "] (" + Sio.DecimalString(j.pid) + ") "
         + StateWord(i, j.state) + j.cmdline
  }

  /** The listing tells the three running states apart. */
  lemma StateWordsDistinct(i: int, a: JobState, b: JobState)
    requires a != Undef && b != Undef && a != b
    ensures StateWord(i, a) != StateWord(i, b)
  {
    assert StateWord(i, a)[0] != StateWord(i, b)[0];
  }

  /** The line of every slot, in slot order. */
  function Lines(s: seq<Job>): (r: seq<string>)
    ensures |r| == |s|
    ensures forall k :: 0 <= k < |s| ==> r[k] == SlotLine(k, s[k])
  {
    seq(|s|, k requires 0 <= k < |s| => SlotLine(k, s[k]))
  }

  /** The texts of a sequence of lines, one after the other. */
  function Concat(xs: seq<string>): string
  {
    if xs == [] then "" else Concat(xs[..|xs| - 1]) + xs[|xs| - 1]
  }

  lemma {:induction false} ConcatSplit(xs: seq<string>, ys: seq<string>)
    ensures Concat(xs + ys) == Concat(xs) + Concat(ys)
    decreases |ys|
  {
    if ys == [] {
      assert xs + ys == xs;
    } else {
      var zs, y := ys[..|ys| - 1], ys[|ys| - 1];
      assert Concat(xs + ys) == Concat(xs + zs) + y by {
        assert (xs + ys)[..|xs + ys| - 1] == xs + zs;
      }
      assert Concat(ys) == Concat(zs) + y;
      ConcatSplit(xs, zs);
    }
  }

  lemma ConcatSplitAt(xs: seq<string>, k: nat)
    requires k <= |xs|
    ensures Concat(xs) == Concat(xs[..k]) + Concat(xs[k..])
  {
    var front, back := xs[..k], xs[k..];
    assert front + back == xs;
    ConcatSplit(front, back);
  }

  lemma ConcatLast(xs: seq<string>, i: nat)
    requires i < |xs|
    ensures Concat(xs[..i + 1]) == Concat(xs[..i]) + xs[i]
  {
    assert xs[..i + 1][..i] == xs[..i];
  }

  /** The text of xs is the text before line i, line i, and the text
      after it. */
  lemma ConcatAround(xs: seq<string>, i: nat)
    requires i < |xs|
    ensures Concat(xs) == Concat(xs[..i]) + xs[i] + Concat(xs[i + 1..])
  {
    ConcatSplitAt(xs, i + 1);
    ConcatLast(xs, i);
  }

  /** Every slot is free. */
  predicate AllFree(s: seq<Job>)
  {
    forall k :: 0 <= k < |s| ==> s[k].pid == 0
  }

  /** listjobs: the text printed for the whole table, which is nothing
      exactly when every slot is free. */
  function ListJobs(s: seq<Job>): (r: string)
    ensures r == "" <==> AllFree(s)
  {
    ConcatEmpty(Lines(s));
    Concat(Lines(s))
  }

  /** The lines together are empty exactly when each of them is. */
  lemma {:induction false} ConcatEmpty(xs: seq<string>)
    ensures Concat(xs) == "" <==> forall k :: 0 <= k < |xs| ==> xs[k] == ""
    decreases |xs|
  {
    if xs != [] {
      var ys := xs[..|xs| - 1];
      ConcatEmpty(ys);
      assert forall k :: 0 <= k < |ys| ==> ys[k] == xs[k];
    }
  }

  /** Changing slot i changes only line i of the listing: the lines before
      and after it stay as they were, in slot order. */
  lemma ListJobsUpdate(s: seq<Job>, i: nat, j: Job)
    requires i < |s|
    ensures Lines(s[i := j]) == Lines(s)[i := SlotLine(i, j)]
    ensures ListJobs(s) == Concat(Lines(s)[..i]) + SlotLine(i, s[i]) + Concat(Lines(s)[i + 1..])
    ensures ListJobs(s[i := j]) == Concat(Lines(s)[..i]) + SlotLine(i, j) + Concat(Lines(s)[i + 1..])
  {
    var xs := Lines(s);
    var ys := Lines(s[i := j]);
    assert ys == xs[i := SlotLine(i, j)];
    assert ys[..i] == xs[..i] && ys[i + 1..] == xs[i + 1..];
    ConcatAround(xs, i);
    ConcatAround(ys, i);
  }

  /** The slot deletejob clears is the first one holding pid. */
  lemma DeleteJobSlots(t: Table, pid: int)
    requires DeleteJob(t, pid).ok
    ensures GetJobPid(t.slots, pid).Some?
    ensures DeleteJob(t, pid).table.slots == t.slots[GetJobPid(t.slots, pid).value := Cleared]
  {
  }

  /** The slot addjob fills is the first free one. */
  lemma AddJobSlots(t: Table, pid: int, state: JobState, cmdline: string)
    requires AddJob(t, pid, state, cmdline).ok
    ensures FirstFree(t.slots).Some?
    ensures AddJob(t, pid, state, cmdline).table.slots
            == t.slots[FirstFree(t.slots).value := Job(pid, t.nextjid, state, cmdline)]
  {
  }

  /** deletejob removes exactly the deleted job's line from the listing. */
  lemma DeleteJobListing(t: Table, pid: int)
    requires DeleteJob(t, pid).ok
    ensures GetJobPid(t.slots, pid).Some?
    ensures var i := GetJobPid(t.slots, pid).value;
            var xs := Lines(t.slots);
            && Lines(DeleteJob(t, pid).table.slots) == xs[i := ""]
            && ListJobs(t.slots) == Concat(xs[..i]) + SlotLine(i, t.slots[i]) + Concat(xs[i + 1..])
            && ListJobs(DeleteJob(t, pid).table.slots) == Concat(xs[..i]) + Concat(xs[i + 1..])
  {
    DeleteJobSlots(t, pid);
    var i := GetJobPid(t.slots, pid).value;
    var xs := Lines(t.slots);
    ListJobsUpdate(t.slots, i, Cleared);
    assert SlotLine(i, Cleared) == "";
    assert Lines(t.slots[i := Cleared]) == xs[i := ""];
    assert Concat(xs[..i]) + "" == Concat(xs[..i]);
  }

  /** A successful addjob puts the new job's line at its slot's place in
      the listing, where the free slot had none. */
  lemma AddJobListing(t: Table, pid: int, state: JobState, cmdline: string)
    requires AddJob(t, pid, state, cmdline).ok
    ensures FirstFree(t.slots).Some?
    ensures var i := FirstFree(t.slots).value;
            var xs := Lines(t.slots);
            && xs[i] == ""
            && Lines(AddJob(t, pid, state, cmdline).table.slots)
               == xs[i := "[" + Sio.DecimalString(t.nextjid) + "] (" + Sio.DecimalString(pid) + ") "
                          + StateWord(i, state) + cmdline]
            && ListJobs(t.slots) == Concat(xs[..i]) + Concat(xs[i + 1..])
            && ListJobs(AddJob(t, pid, state, cmdline).table.slots)
               == Concat(xs[..i])
                  + ("[" + Sio.DecimalString(t.nextjid) + "] (" + Sio.DecimalString(pid) + ") "
                     + StateWord(i, state) + cmdline)
                  + Concat(xs[i + 1..])
  {
    AddJobSlots(t, pid, state, cmdline);
    var i := FirstFree(t.slots).value;
    var xs := Lines(t.slots);
    ListJobsUpdate(t.slots, i, Job(pid, t.nextjid, state, cmdline));
    assert xs[i] == "";
    assert Concat(xs[..i]) + "" == Concat(xs[..i]);
  }
}
