/**
 * Runs of job-list operations: the shell adds a job for every command it
 * starts, and the SIGCHLD handler, or a caller, removes or stops jobs.
 * The invariant of Jobs holds after any run that starts from a table
 * where it holds; job ids, on the other hand, are not unique.
 */
module History {
  import opened Wrappers
  import opened Jobs
  import opened Handlers

  /** One change to the job list: addjob, deletejob, or the handling of
      one waitpid result by the SIGCHLD handler. */
  datatype Op =
    | Add(pid: int, state: JobState, cmdline: string)
    | Delete(pid: int)
    | Child(poll: Poll)

  /** The conditions under which the shell performs op: a job is added
      with a real state, and in the foreground only while no other job is
      there; the handler meets only stopped children it knows. */
  predicate Allowed(t: Table, op: Op)
  {
    match op
    case Add(_, state, _) => state != Undef && (state == Fg ==> NoForeground(t.slots))
    case Delete(_) => true
    case Child(p) => Reapable(t, p)
  }

  function Apply(t: Table, op: Op): Table
    requires Allowed(t, op)
  {
    match op
    case Add(pid, state, cmdline) => AddJob(t, pid, state, cmdline).table
    case Delete(pid) => DeleteJob(t, pid).table
    case Child(p) => Reap(t, p).table
  }

  /** Every operation of the run is allowed where it happens. */
  predicate AllowedRun(t: Table, ops: seq<Op>)
    decreases |ops|, 0
  {
    ops == [] ||
    (AllowedRun(t, ops[..|ops| - 1]) && Allowed(Run(t, ops[..|ops| - 1]), ops[|ops| - 1]))
  }

  /** The table after the operations, applied in order. */
  function Run(t: Table, ops: seq<Op>): Table
    requires AllowedRun(t, ops)
    decreases |ops|, 1
  {
    if ops == [] then t else Apply(Run(t, ops[..|ops| - 1]), ops[|ops| - 1])
  }

  lemma ApplyKeepsConsistent(t: Table, op: Op)
    requires Consistent(t) && Allowed(t, op)
    ensures Consistent(Apply(t, op))
  {
    match op
    case Add(pid, state, cmdline) => AddJobKeepsConsistent(t, pid, state, cmdline);
    case Delete(pid) => DeleteJobKeepsConsistent(t, pid);
    case Child(p) => ReapKeepsConsistent(t, p);
  }

  /** The invariant holds after every allowed run: each slot is free and
      clear or holds a job with positive pid and jid, and at most one job
      is in the foreground. */
  lemma {:induction false} RunKeepsConsistent(t: Table, ops: seq<Op>)
    requires Consistent(t) && AllowedRun(t, ops)
    ensures Consistent(Run(t, ops))
    decreases |ops|
  {
    if ops != [] {
      RunKeepsConsistent(t, ops[..|ops| - 1]);
      ApplyKeepsConsistent(Run(t, ops[..|ops| - 1]), ops[|ops| - 1]);
    }
  }

  // ---------------------------------------------------------------------
  // Job ids are not unique

  /** Background jobs with pids 1 to k, added to an empty list. */
  function Adds(k: nat): (ops: seq<Op>)
    ensures |ops| == k
  {
    if k == 0 then [] else Adds(k - 1) + [Add(k, Bg, "")]
  }

  /** The list after Adds(k): slot i holds pid i + 1 with job id i + 1. */
  function FilledTable(k: nat): Table
  {
    Table(seq(MAXJOBS, i => if i < k then Job(i + 1, i + 1, Bg, "") else Cleared), k + 1)
  }

  /** Adding the k-th job fills slot k - 1 and advances the counter. */
  lemma AddFills(k: nat)
    requires 1 <= k < MAXJOBS
    ensures AddJob(FilledTable(k - 1), k, Bg, "").table == FilledTable(k)
  {
    var s := FilledTable(k - 1).slots;
    FirstSlotAt(s, (j: Job) => j.pid == 0, k - 1);
    assert FirstFree(s) == Some(k - 1);
    assert s[k - 1 := Job(k, k, Bg, "")] == FilledTable(k).slots;
  }

  lemma {:induction false} Filled(k: nat)
    requires k < MAXJOBS
    ensures AllowedRun(Initial(), Adds(k)) && Run(Initial(), Adds(k)) == FilledTable(k)
  {
    if k == 0 {
      assert Initial().slots == FilledTable(0).slots;
    } else {
      Filled(k - 1);
      assert Adds(k)[..k - 1] == Adds(k - 1);
      AddFills(k);
    }
  }

  /** The list after Adds(15) and the deletion of pid 2: slot 1 is free
      and, as the largest job id left is 15, the counter is at 16. */
  function AfterDelete(): Table
  {
    Table(FilledTable(15).slots[1 := Cleared], 16)
  }

  /** Then pid 16 takes slot 1 with job id 16 and the counter wraps. */
  function AfterWrap(): Table
  {
    Table(FilledTable(15).slots[1 := Job(16, 16, Bg, "")], 1)
  }

  /** Then pid 17 takes slot 15 with job id 1. */
  function AfterReuse(): Table
  {
    Table(AfterWrap().slots[15 := Job(17, 1, Bg, "")], 2)
  }

  lemma DeleteSecond()
    ensures Allowed(FilledTable(15), Delete(2)) && Apply(FilledTable(15), Delete(2)) == AfterDelete()
  {
    var s := FilledTable(15).slots;
    assert GetJobPid(s, 2) == Some(1);
    assert s[14] == Job(15, 15, Bg, "");
    var s' := s[1 := Cleared];
    assert s'[14].jid == 15;
    assert MaxJid(s') == 15;
  }

  lemma AddWraps()
    ensures Allowed(AfterDelete(), Add(16, Bg, "")) && Apply(AfterDelete(), Add(16, Bg, "")) == AfterWrap()
  {
    var s := AfterDelete().slots;
    FirstSlotAt(s, (j: Job) => j.pid == 0, 1);
    assert s[1 := Job(16, 16, Bg, "")] == AfterWrap().slots;
  }

  lemma AddReuses()
    ensures Allowed(AfterWrap(), Add(17, Bg, "")) && Apply(AfterWrap(), Add(17, Bg, "")) == AfterReuse()
  {
    var s := AfterWrap().slots;
    forall k | 0 <= k < 15
      ensures s[k].pid != 0
    {
      assert s[k].pid == k + 1 || s[k].pid == 16;
    }
    FirstSlotAt(s, (j: Job) => j.pid == 0, 15);
    assert FirstFree(s) == Some(15);
  }

  /** A run extended by one allowed operation. */
  lemma RunSnoc(t: Table, ops: seq<Op>, op: Op, before: Table, after: Table)
    requires AllowedRun(t, ops) && Run(t, ops) == before
    requires Allowed(before, op) && Apply(before, op) == after
    ensures AllowedRun(t, ops + [op]) && Run(t, ops + [op]) == after
  {
    assert (ops + [op])[..|ops|] == ops;
  }

  /** A run extended by three allowed operations. */
  lemma RunThree(t: Table, pre: seq<Op>, a: Op, b: Op, c: Op, t0: Table, t1: Table, t2: Table, t3: Table)
    requires AllowedRun(t, pre) && Run(t, pre) == t0
    requires Allowed(t0, a) && Apply(t0, a) == t1
    requires Allowed(t1, b) && Apply(t1, b) == t2
    requires Allowed(t2, c) && Apply(t2, c) == t3
    ensures AllowedRun(t, pre + [a, b, c]) && Run(t, pre + [a, b, c]) == t3
  {
    RunSnoc(t, pre, a, t0, t1);
    RunSnoc(t, pre + [a], b, t1, t2);
    RunSnoc(t, pre + [a] + [b], c, t2, t3);
    assert pre + [a] + [b] + [c] == pre + [a, b, c];
  }

  /** Two jobs in the list have the same job id. */
  predicate SharedJid(t: Table)
  {
    exists i, k :: 0 <= i < k < |t.slots| && t.slots[i].pid != 0 && t.slots[k].pid != 0 &&
                   t.slots[i].jid == t.slots[k].jid
  }

  /** Slots 0 and 15 of the last table share job id 1. */
  lemma ReusedSlots()
    ensures SharedJid(AfterReuse())
  {
    var s := AfterReuse().slots;
    assert s[0] == Job(1, 1, Bg, "") && s[15] == Job(17, 1, Bg, "");
  }

  /** Fifteen background jobs, the deletion of the second, and two more
      background jobs. */
  function ReuseOps(): seq<Op>
  {
    Adds(15) + [Delete(2), Add(16, Bg, ""), Add(17, Bg, "")]
  }

  /**
   * Two jobs can hold the same job id. From an empty list: add fifteen
   * background jobs (job ids 1 to 15), delete the second, add two more.
   * The first of these takes job id 16 and wraps the counter to 1, so
   * the second takes job id 1, which the first job still holds, although
   * every step is allowed and the invariant holds throughout.
   */
  lemma JidReused()
    ensures AllowedRun(Initial(), ReuseOps())
    ensures Consistent(Run(Initial(), ReuseOps()))
    ensures SharedJid(Run(Initial(), ReuseOps()))
  {
    var pre := Adds(15);
    Filled(15);
    DeleteSecond();
    AddWraps();
    AddReuses();
    RunThree(Initial(), pre, Delete(2), Add(16, Bg, ""), Add(17, Bg, ""),
             FilledTable(15), AfterDelete(), AfterWrap(), AfterReuse());
    InitialConsistent();
    RunKeepsConsistent(Initial(), ReuseOps());
    ReusedSlots();
  }
}
