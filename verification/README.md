# tsh job-control core in Dafny

This project models the core of `tsh.c`, a tiny Unix shell with job
control, and proves properties of it. The modelled parts are:

- **The job list.** It has sixteen slots. Each slot holds a pid, a job id,
  a state (UNDEF, FG, BG or ST) and a command line. The global counter
  `nextjid` hands out job ids. The routines `clearjob`, `initjobs`,
  `maxjid`, `addjob`, `deletejob`, `fgpid`, `getjobpid`, `getjobjid`,
  `pid2jid` and `listjobs` are modelled twice:
  - as functions over the slot sequence (module `Jobs`, file `jobs.dfy`);
  - as a class that owns an array of slots and the counter and updates
    them in place, the way the C code does (`JobTable.JobList`, file
    `joblist.dfy`). Every method is proved against the function that
    specifies it.
- **The signal handlers' bookkeeping** (`handlers.dfy`).
  - The SIGCHLD handler takes one `waitpid` result per slot as input and
    acts on it. For a stopped child it reports the child and sets its job
    to ST. For a child killed by a signal it reports the child and deletes
    its job. For a child that exited it deletes its job silently.
  - The SIGINT and SIGTSTP handlers pass the signal to the process group
    of the first foreground job. The model returns that kill request as a
    value.
- **`sio_itos`** (`sio.dfy`). This is the signal-safe formatter the
  handler's messages go through. It writes the digits backwards into a
  12-byte buffer and then reverses them in place.
- **`parseline` and `builtin_cmd`** (`parse.dfy`).
  - `parseline` copies the line and turns its last character (normally the newline) into a space.
    It then repeatedly skips spaces and cuts out one argument: up to the
    next quote after an opening quote, up to the next space otherwise. A
    last argument that starts with `&` marks a background job.
  - `builtin_cmd` recognises `quit`, `fg`, `bg` and `jobs`.
- **Runs of operations** (`history.dfy`). This file covers sequences of
  additions, deletions and SIGCHLD events. The job-list invariant holds
  after every run. A witness run shows that job ids are not unique.

The job-list invariant is called `Consistent` in the Dafny code. It
states three things:

- `nextjid` is positive.
- Every slot is either clear (pid 0, job id 0, state UNDEF, empty command
  line) or holds a job with a positive pid, a positive job id and a state
  other than UNDEF.
- At most one job is in the foreground.

The comment above `parseline` (tsh.c:251-257) says only that text
between single quotes forms one argument and that the result tells
whether the user asked for a background job. What counts as such a
request is settled by the code alone:

- **Background flag.** The code tests only the first character of the
  last argument (tsh.c:299). So `sleep 1 &x` is a background request
  whose argument `&x` is dropped, and so is a quoted `'&'`
  (`Parse.ParseAmpWord`).
- **Blank line.** A line with no arguments returns 1 (tsh.c:295-296),
  so it also counts as a background request
  (`Parse.BlankLineIsBackground`).

The slot value `clearjob` stores (pid 0, job id 0, state UNDEF, empty
command line) is the constant `Jobs.Cleared`.

## Model

| member | source | states |
|---|---|---|
| Sio.DecimalStringShape | tsh.c:666-699 | The text for n starts with '-' exactly when n is negative. The rest is decimal digits, with no leading zero unless n is 0. |
| Sio.DecimalRoundTrip | tsh.c:666-699 | Reading the formatted text back as a signed decimal numeral gives n. |
| Sio.DecimalInjective | tsh.c:666-699 | Different numbers are formatted as different texts. |
| Sio.DecimalStringFits | tsh.c:671 | Every C int is at most 11 characters, so it fits the 12-byte static buffer together with its NUL. |
| Sio.PutDigitsReversed | tsh.c:681-686 | The first loop stores the digits of n from the given index on, least significant first. It returns the index after the last digit and leaves the buffer before the start alone. |
| Sio.ReverseRange | tsh.c:689-696 | The swapping loop leaves position k of the range holding what was at its mirror position, and changes nothing outside the range. |
| Sio.DecimalString | tsh.c:666-699 | The text sio_itos produces is never empty. DecimalStringShape and DecimalRoundTrip characterise it. |
| Sio.Terminate | tsh.c:687 | The NUL is stored at i. The sign, the digits before i and everything after i are left as they were. |
| Sio.PutMagnitude | tsh.c:681-696 | The digit loop, the NUL and the swap loop together leave the digits of n, most significant first, from the start index on, followed by NUL. The sign before the start index is untouched. |
| Sio.SioItos | tsh.c:666-699 | For INT_MIN < n <= INT_MAX, the returned buffer holds exactly the decimal text of n followed by NUL, within 12 bytes. For 0 that is the literal "0". |
| Jobs.Initial | tsh.c:44-54 | The job list at start-up has sixteen clear slots, and nextjid is 1. |
| Jobs.InitialConsistent | tsh.c:467-472 | The start-up job list satisfies the invariant. |
| Jobs.MaxJid | tsh.c:475-482 | maxjid is at least every slot's job id, and is either 0 or the job id of some slot. |
| Jobs.GetJobPid | tsh.c:537-546 | getjobpid finds a slot exactly when pid >= 1 and some slot holds pid. The slot it finds holds pid, and no earlier slot does. |
| Jobs.GetJobJid | tsh.c:549-558 | getjobjid finds a slot exactly when jid >= 1 and some slot holds jid. The slot it finds is the first one holding jid. |
| Jobs.Pid2Jid | tsh.c:561-571 | pid2jid is 0 for pid < 1 or an unknown pid. Otherwise it is the job id of the first slot holding pid. |
| Jobs.FgPid | tsh.c:527-534 | fgpid is 0 when no slot is in FG. Otherwise it is the pid of the first FG slot. |
| Jobs.AddJob | tsh.c:485-507 | addjob succeeds exactly when pid >= 1 and a free slot exists. On failure nothing changes, and only the full-table case prints the message. On success the first free slot gets the job with the old nextjid, and only that slot changes. nextjid advances by one, or goes back to 1 past 16. |
| Jobs.DeleteJob | tsh.c:510-524 | deletejob succeeds exactly when pid >= 1 and some slot holds pid. On failure nothing changes. On success the first such slot is cleared, only that slot changes, and nextjid becomes maxjid + 1 of the new list. |
| Jobs.StopJob | tsh.c:378-379 | The SIGCHLD handler's stop update sets the first slot holding pid to ST. No other slot and not the counter change. |
| Jobs.AddJobKeepsConsistent | tsh.c:485-507 | addjob keeps the invariant when it is given a real state, and an FG job only while no job is in FG (the rule at tsh.c:37). |
| Jobs.DeleteJobKeepsConsistent | tsh.c:510-524 | deletejob keeps the invariant. |
| Jobs.StopJobKeepsConsistent | tsh.c:378-379 | Stopping a job keeps the invariant. |
| Jobs.FgPidOfConsistent | tsh.c:527-534 | In a consistent list, fgpid is 0 exactly when no job is in FG. Otherwise it is the pid of the one FG job. |
| Jobs.AddThenPid2Jid | tsh.c:485-507 | After a successful add of a new pid, getjobpid finds the slot the add filled, and pid2jid gives the job id the add handed out. eval prints that job id (tsh.c:238). |
| Jobs.AddThenDelete | tsh.c:510-524 | Deleting a job that was just added restores every slot. nextjid is then one past the largest job id already there. |
| Jobs.DeleteRemovesPid | tsh.c:510-524 | With distinct pids, no slot holds pid after deletejob. |
| Jobs.StateWord | tsh.c:580-593 | The word printed for a state is never empty and ends with a space. |
| Jobs.StateWordsDistinct | tsh.c:580-593 | The words for FG, BG and ST differ, so the listing tells the three states apart. |
| Jobs.SlotLine | tsh.c:578-595 | A slot prints nothing exactly when it is free. A used slot's line starts with '['. |
| Jobs.ListJobs | tsh.c:574-597 | listjobs prints nothing exactly when every slot is free. |
| Jobs.ListJobsUpdate | tsh.c:574-597 | Changing one slot changes only that slot's line of the listing. |
| Jobs.DeleteJobListing | tsh.c:574-597 | deletejob removes exactly the deleted job's line from the listing. |
| Jobs.AddJobListing | tsh.c:574-597 | A successful addjob puts "[jid] (pid) state-word cmdline" at the filled slot's place in the listing, where that slot had printed nothing before; the new listing is the old lines around that one. |
| JobTable.JobList.constructor | tsh.c:44-54 | The array and the counter start as the start-up job list. |
| JobTable.JobList.ClearJob | tsh.c:459-464 | clearjob replaces slot i with the clear slot and changes nothing else. |
| JobTable.JobList.InitJobs | tsh.c:467-472 | initjobs leaves every slot clear. |
| JobTable.JobList.MaxJid | tsh.c:475-482 | The maxjid loop returns maxjid of the array's contents. |
| JobTable.JobList.FgPid | tsh.c:527-534 | The fgpid loop returns fgpid of the array's contents. |
| JobTable.JobList.GetJobPid | tsh.c:537-546 | The getjobpid loop returns the slot that getjobpid specifies. |
| JobTable.JobList.GetJobJid | tsh.c:549-558 | The getjobjid loop returns the slot that getjobjid specifies. |
| JobTable.JobList.Pid2Jid | tsh.c:561-571 | The pid2jid loop returns pid2jid of the array's contents. |
| JobTable.JobList.ListJobs | tsh.c:574-597 | The listjobs loop appends each slot's line (job id, pid, state word, command line; nothing for a free slot) in slot order, giving the whole listing text. |
| JobTable.JobList.AddJob | tsh.c:485-507 | The in-place addjob leaves the array, the counter and its result and output as Jobs.AddJob specifies, and it keeps the invariant. |
| JobTable.JobList.DeleteJob | tsh.c:510-524 | The in-place deletejob leaves the array, the counter and its result as Jobs.DeleteJob specifies, and it keeps the invariant. |
| Handlers.Report | tsh.c:369-390 | The message for a stopped or killed child starts with "Job [", then the job id in decimal and "]", and ends with a newline. |
| Handlers.Reap | tsh.c:365-396 | One poll: a pid <= 0 changes nothing and prints nothing. Every slot holding a different pid is left as it was. Only a stop or a kill prints anything. |
| Handlers.ReapAll | tsh.c:361-398 | A run of the handler leaves untouched every slot whose pid none of the polls returned. |
| Handlers.ReapKeepsConsistent | tsh.c:365-396 | Handling one waitpid result keeps the job-list invariant. |
| Handlers.ReapAllKeepsConsistent | tsh.c:361-398 | A whole run of the SIGCHLD handler keeps the invariant. |
| Handlers.ReapEffect | tsh.c:365-396 | With distinct pids, three cases. A stop keeps the job in its slot with its job id, sets it to ST, and reports "Job [jid] (pid) stopped by signal N". A kill removes the job and reports the job id it had before the deletion. An exit removes the job and prints nothing. |
| Handlers.ReapReleasesForeground | tsh.c:365-396 | When the foreground job's child stops, is killed or exits, fgpid no longer returns its pid. That is the condition waitfg's loop waits for (tsh.c:338). |
| Handlers.ReapChild | tsh.c:365-397 | The loop body on the in-place job list makes the same update and writes the same text as the specification of one poll. |
| Handlers.SigchldHandler | tsh.c:354-402 | One poll per slot, processed in order: the in-place list and the text written match the specification of the whole run. |
| Handlers.RelayTarget | tsh.c:416-421 | No signal is sent exactly when no slot is in FG. Otherwise sig goes to process group -fgpid. |
| Handlers.RelayTargetsForeground | tsh.c:416-421 | In a consistent list, no signal is sent when fgpid is 0. Otherwise the signal goes to process group -fgpid, which is never 0 or positive. With distinct pids, no job outside FG is targeted. |
| Handlers.RelayToForeground | tsh.c:416-421 | The handlers' loop sends sig to the group of the first FG slot, or nothing. |
| Handlers.SigintHandler | tsh.c:409-425 | ctrl-c is passed to the foreground job's group. |
| Handlers.SigtstpHandler | tsh.c:432-448 | ctrl-z is passed to the foreground job's group. |
| Parse.SkipSpaces | tsh.c:267-268 | The space-skipping loop stops between its start and the end of the buffer. |
| Parse.SkipSpacesStops | tsh.c:267-268 | The space-skipping loop passes only spaces and stops at the end of the text or at a non-space. |
| Parse.IndexOf | tsh.c:274 | strchr, when it finds something, finds a position from the start of the search on, inside the buffer. |
| Parse.IndexOfFinds | tsh.c:274 | strchr finds the first occurrence of the character from that point on, and finds nothing exactly when it does not occur. |
| Parse.NextToken | tsh.c:272-291 | The next argument, when there is one, starts no earlier than the position searched from, and its delimiter lies inside the buffer. |
| Parse.Tokens | tsh.c:279-292 | Every argument from a position on, in order. This is a definition; TokensFit and ArgsAreWellFormed state its properties. |
| Parse.PlainSpan | tsh.c:275-276 | An argument that does not open with a quote starts at the first non-space. It is non-empty, holds no space and ends at a space. |
| Parse.QuotedSpan | tsh.c:272-274 | An argument that opens with a quote starts just after it, holds no quote and ends at the next quote. |
| Parse.ArgsAreWellFormed | tsh.c:270-292 | On any line, the arguments are the texts of arguments tagged quoted or plain, and each is well formed. An unquoted one is non-empty, has no space and does not start with a quote. A quoted one has no quote inside. |
| Parse.TokensFit | tsh.c:279-292 | Every argument takes up at least two characters, so a buffer of n characters yields at most n/2 arguments. |
| Parse.ParseResult | tsh.c:293-302 | argv is the line's arguments, less the last exactly when that one starts with '&'. The flag is set exactly when that argument was dropped or there are no arguments. |
| Parse.Buffer | tsh.c:265-266 | The working copy is the line with its last character replaced by a space. |
| Parse.BlankLineIsBackground | tsh.c:295-296 | A line of spaces has no arguments and is reported as a background request. |
| Parse.TokensOfSpaced | tsh.c:270-292 | Arguments typed one space apart are read back as their texts, in order. This holds for plain words and for quoted texts with spaces inside. |
| Parse.ParseTyped | tsh.c:258-303 | parseline returns the typed arguments. The background flag is set exactly when a separate "&" was typed last, and that "&" is then not an argument. |
| Parse.ParseAmpWord | tsh.c:299-301 | Any last argument that starts with '&', quoted or not, sets the background flag and is dropped. |
| Parse.ArgvOverflow | tsh.c:279-280 | Some line that fits the 1024-byte buffer has at least 128 arguments, more than argv can hold with its NULL terminator. |
| Parse.SkipSpacesAt | tsh.c:283-284 | The skip loop on the NUL-terminated buffer stops where the specification does. |
| Parse.StrChr | tsh.c:286-291 | The delimiter search on the buffer returns what the specification of strchr does. |
| Parse.NextTokenAt | tsh.c:283-291 | One skip-and-search step on the buffer finds the span of the next argument, as specified. |
| Parse.CopyLine | tsh.c:265-266 | The static copy holds the line with its newline turned into a space, followed by a NUL. |
| Parse.CutArg | tsh.c:280-282 | The NUL is stored at the delimiter, so the buffer holds the argument's text followed by NUL (what the argv pointer reads); the cells before the delimiter are unchanged and the rest of the line stays in the buffer. |
| Parse.SplitArgs | tsh.c:279-292 | The argument loop fills argv with every argument in order and leaves the entries above argc alone. |
| Parse.ParseLine | tsh.c:258-303 | argv holds the parsed arguments in order. The entries from there up to the number of tokens are NULL, which covers a dropped '&' word. Entries beyond that are untouched. The returned flag is the specified background flag. |
| Parse.BuiltinCmd | tsh.c:309-316 | For a non-empty argv, which eval ensures at tsh.c:196-198, builtin_cmd answers yes exactly for "quit", "fg", "bg" and "jobs". |
| History.RunKeepsConsistent | tsh.c:30-38 | Every allowed run of additions, deletions and SIGCHLD events that starts from a consistent list keeps the invariant, including "at most one job in FG". |
| History.Filled | tsh.c:491-502 | Adding background jobs with pids 1..k to the empty list puts pid i+1 with job id i+1 in slot i, and leaves nextjid at k+1. |
| History.JidReused | tsh.c:494-497 | An allowed run from the empty list ends with two live jobs that share a job id. The invariant still holds. Job ids are not unique. |

## Left out

- Process creation and program loading (`eval`'s fork and execve, `setpgid`) are not modelled. Only the job-list updates that `eval` makes are covered.
- Signal masks, `errno` saving and `sigquit_handler` are not modelled. The handlers run as if uninterrupted.
- The `waitfg` sleep loop is not modelled. Only its exit condition is stated (Handlers.ReapReleasesForeground).
- `main`, option parsing, `usage` and the error helpers are not modelled.
- `do_bgfg` is not modelled. It quits, lists the jobs, or prints a placeholder text; `fg` and `bg` are not implemented in the source.
- `waitpid` and `kill` are kernel calls. The model takes what `waitpid` returned as input (`Poll`) and returns the `kill` request as output (`Kill`).
- Writing to the terminal (`printf`, `sio_write_string`) is modelled as the text produced, not as I/O.
- The `verbose` trace line of `addjob` is not modelled. `verbose` is 0 and nothing sets it in the core.
- Jobs.AddJob / Jobs.DeleteJob: `nextjid` and the job ids are unbounded integers. In the C they are `int`s (tsh.c:44, tsh.c:50), and job ids are not bounded by MAXJOBS: each later deletejob/addjob pair can raise maxjid by one, so after about 2^31 such pairs `nextjid++` (tsh.c:495) or `maxjid(job_list) + 1` (tsh.c:519) overflows, which is undefined behaviour. The model does not capture that overflow, and the claim that nextjid stays at least 1 (History.RunKeepsConsistent) holds only for the unbounded integers.
- Jobs.AddJob: the command line is stored whole. `strcpy` into the 1024-byte field is not bounded, and `parseline` already requires lines shorter than that.
- JobTable.JobList.AddJob: requires that an FG job is added only while no job is in FG. The source states this rule at tsh.c:37, and `eval` keeps it by waiting for the foreground job.
- Handlers.Reap: requires that a stopped child is in the job list (`Reapable`). The C handler dereferences the pointer `getjobpid` returns without checking it for NULL.
- Handlers.ReapChild and the messages: they use the decimal text `Sio.DecimalString`. `Sio.SioItos` is proved equal to it for every int except INT_MIN, where negation overflows in C.
- Sio.SioItos: requires num > INT_MIN, since `num *= -1` overflows for INT_MIN. The static buffer is a fresh array in the model, so aliasing between successive calls is not modelled.
- Parse.ParseLine: requires fewer than 128 arguments, because argv has only 128 entries and the loop does not check the bound (Parse.ArgvOverflow exhibits such a line). It also requires a non-empty line without NUL, because `strlen(buf) - 1` and `strcpy` need that. argv is returned as a fresh array of texts, so its pointers into the static buffer, which the next call overwrites, are not modelled.
- Parse.ParseTyped: it covers lines typed as well-formed arguments one space apart. Lines with other spacing are covered by `Parse.ParseResult` together with `Parse.ArgsAreWellFormed`, which tags every argument of any line as plain or quoted and proves its shape; the round trip from typed arguments to text is proved only for the one-space layout.
