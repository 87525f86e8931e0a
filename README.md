# doit: a model of the shell's job table, command tokenizer and millisecond timer

`doit` is a small interactive shell. It runs each command as a child process
and reports the resources that command used. A command line ending in a
separate `&` runs in the background. The shell keeps up to ten background
jobs in a table of three parallel arrays:

- `taskpids` holds the worker pid, and 0 marks a free slot.
- `middlepids` holds the pid of the intermediary process that hosts the worker.
- `tasknames` holds the program name.

This project models the three parts of `doit.cpp` that can be stated without
the operating system:

- **Elapsed** (`elapsed.dfy`) models `mselapsed`. Each `timeval` is turned
  into the stamp `tv_sec * 1000 + tv_usec / 1000`, using C's truncating
  division, and the stamps are subtracted. The lemmas prove the algebra of
  this difference and that it is never negative for ordered, normalised
  readings. They also prove it is within one millisecond of the true
  elapsed time. The narrowing of the result to a 32-bit `int` is modelled
  separately.
- **Tokenizer** (`tokenizer.dfy`) models how a line becomes a command:
  - `strndup` cuts the line to 128 bytes, modelled as 128 `char`s.
  - `strtok` splits it on single spaces and drops empty pieces (`Words`).
  - The loop fills `args[1..]` and recognises a trailing `&` (`Tokenize`).
  - `Parse` is the specification of that loop. `Words` recovers the words of
    any line that separates them by runs of spaces (`WordsOfSpaced`).
- **JobSpec** (`jobspec.dfy`) is the table as a value `seq<Slot>`. It holds
  the specification functions of the five scans: reap, lowest free slot,
  record, `jobs` listing, and the `exit` waits. The lemmas state what each
  scan yields.
- **Jobs** (`jobtable.dfy`) is the table as the source keeps it. The class
  `JobTable` owns three arrays of length 10. Its methods run the source's
  loops in place, and each is proved against the JobSpec function for its
  scan.
- **Shell** (`shell.dfy`) models one pass of the read-eval loop:
  1. An empty line is skipped before anything else.
  2. Otherwise the table is reaped.
  3. The first word selects `exit`, `jobs`, `cd`, a background launch or a
     foreground run.

The operating system appears only through its answers, as inputs:

- `finished: int -> bool` is the answer of `waitpid(pid, NULL, WNOHANG)`.
  A non-zero status means the intermediary has ended.
- `middle` is the pid `fork` returns for the intermediary.
- `worker` is the pid read back from the pipe.

An `exit` is modelled as the sequence of events it produces. For each job
it produces a "Waiting for" notice and then a blocking wait.

`exit` does not clear the table. It waits on each job's intermediary and
then calls `exit(0)` (doit.cpp:162-170), so `WaitAllOnExit` leaves the table
as it is.

## Model

| member | source | states |
|---|---|---|
| `Elapsed.CDiv` | doit.cpp:42 | `tv_usec / 1000` truncates toward zero: the remainder has the sign of the dividend and is smaller than the divisor |
| `Elapsed.Millis` | doit.cpp:42 | the stamp `tv_sec * 1000 + tv_usec / 1000` of a normalised reading lies in the reading's second, and 1000 times it is within one millisecond below the reading in microseconds |
| `Elapsed.MsElapsed` | doit.cpp:40-43 | the exact `long` difference of the two stamps. For normalised readings it is strictly within 1000 ms of the difference of the whole seconds |
| `Elapsed.MsElapsedReturned` | doit.cpp:40-43 | the `int` that `mselapsed` returns lies in [-2^31, 2^31) and is congruent to the exact difference modulo 2^32 |
| `Elapsed.ElapsedSelf` | doit.cpp:40-43 | `mselapsed(t, t) == 0` |
| `Elapsed.ElapsedAntisymmetric` | doit.cpp:40-43 | `mselapsed(a, b) == -mselapsed(b, a)` |
| `Elapsed.ElapsedAdditive` | doit.cpp:40-43 | `mselapsed(a, b) + mselapsed(b, c) == mselapsed(a, c)` |
| `Elapsed.ElapsedNonNegative` | doit.cpp:40-43 | for normalised readings (0 <= usec < 1,000,000) where `end` is not earlier than `start`, the elapsed milliseconds are >= 0, as the CPU and wall-clock lines of the report need (doit.cpp:83-85) |
| `Elapsed.ElapsedWithinOneMs` | doit.cpp:40-43 | for normalised readings, 1000 times the result is strictly within 1000 of the true elapsed microseconds: truncating each stamp loses less than one millisecond overall |
| `Elapsed.Int32` | doit.cpp:40 | narrowing to `int` lands in [-2^31, 2^31) and keeps the value modulo 2^32 |
| `Elapsed.ReturnedIsExactInRange` | doit.cpp:40-43 | when the exact difference fits in 32 bits, the `int` that `mselapsed` returns equals it |
| `Elapsed.ReturnedWrapsAboveRange` | doit.cpp:40-43 | a difference of 2^31 up to 2^32 ms is returned 2^32 too low, as a negative number |
| `Tokenizer.Truncate` | doit.cpp:115 | the buffer is the prefix of the line of length 128, or the whole line when it is shorter |
| `Tokenizer.Words` | doit.cpp:117-121 | every piece `strtok` hands out is non-empty and contains no space |
| `Tokenizer.Parse` | doit.cpp:115-140 | the empty line yields no command. Otherwise the argument list is a non-empty prefix of the words and starts with the first word. Background is on iff the last word is `&`, and exactly that word is then dropped |
| `Tokenizer.Tokenize` | doit.cpp:115-140 | the `args`-filling loop, with its index `i` and `backgrnd` flag, computes exactly `Parse(line)` |
| `Tokenizer.WordsAfterSpaces` | doit.cpp:117-121 | spaces before a token produce no piece: `strtok` skips them |
| `Tokenizer.WordsOfSpaced` | doit.cpp:117-121 | `strtok` drops empty pieces: words separated by runs of one or more spaces, with any number of spaces before and after, split back to exactly those words in order |
| `Tokenizer.SpacedExample` | doit.cpp:117-121 | `"  ab   c "` splits into `["ab", "c"]` |
| `Tokenizer.WordsOfJoin` | doit.cpp:117-121 | splitting undoes joining: words without spaces, joined by single spaces, come back unchanged |
| `Tokenizer.ParseForeground` | doit.cpp:115-140 | a line typed as words not ending in `&` (at most 30 words, at most 128 characters) parses as those words, foreground |
| `Tokenizer.ParseBackground` | doit.cpp:124-130 | a line typed as words followed by ` &` parses as those words, background, with the `&` removed |
| `JobSpec.FirstFree` | doit.cpp:193-201 | the scan returns the lowest index whose worker pid is 0. It returns -1 exactly when every slot's worker pid is non-zero |
| `JobSpec.FullExactlyAtCapacity` | doit.cpp:193-201 | on a well-formed table the sentinel -1 comes exactly when ten jobs are live |
| `JobSpec.FullTableSentinel` | doit.cpp:193-205 | on a full table the scan yields -1, which is not a valid index into the ten-element arrays |
| `JobSpec.Recorded` | doit.cpp:204-214 | recording writes the intermediary pid, the worker pid and the name at the chosen slot, and leaves every other slot unchanged |
| `JobSpec.LaunchAddsOneJob` | doit.cpp:193-214 | recording into the lowest free slot keeps every slot wholly free or wholly populated, and adds exactly one live job |
| `JobSpec.ReapSlot` | doit.cpp:146-154 | one slot after the non-blocking wait is either unchanged or cleared to (0, 0, ""). A free slot is never touched, and a slot left populated had an intermediary still running |
| `JobSpec.Reaped` | doit.cpp:144-156 | the reap pass keeps the ten slots, leaves every free slot as it was, and every slot populated afterwards is unchanged |
| `JobSpec.ReapEffect` | doit.cpp:144-156 | reaping clears a slot to (0, 0, "") exactly when it was populated and its intermediary has ended. Every other slot is unchanged, and every slot populated afterwards was populated and unchanged before |
| `JobSpec.ReapKeepsWellFormed` | doit.cpp:144-156 | reaping keeps every slot wholly free or wholly populated |
| `JobSpec.ReapIdempotent` | doit.cpp:144-156 | a second pass with the same answers changes nothing |
| `JobSpec.ReapLiveCount` | doit.cpp:144-156 | reaping never increases the number of live jobs |
| `JobSpec.ReapThenReuse` | doit.cpp:144-201 | after a reap frees slot k while all lower slots still run, the next launch goes to slot k (lowest index first) |
| `JobSpec.JobLines` | doit.cpp:174-180 | `jobs` prints one line per live job |
| `JobSpec.JobLinesSound` | doit.cpp:174-180 | every line of `jobs` is numbered i+1 for a populated slot i and shows that slot's worker pid and name |
| `JobSpec.JobLinesComplete` | doit.cpp:174-180 | every populated slot appears in `jobs` |
| `JobSpec.JobLinesAscending` | doit.cpp:174-180 | the lines of `jobs` are in ascending slot order |
| `JobSpec.JobsWithGap` | doit.cpp:174-180 | with jobs in slots 0 and 2 and slot 1 free, `jobs` prints exactly two lines, numbered 1 and 3 |
| `JobSpec.ExitEvents` | doit.cpp:162-170 | `exit` produces two events, a notice and a wait, per live job |
| `JobSpec.ExitFollowsJobs` | doit.cpp:162-170 | `exit` visits the jobs `jobs` would list, in the same order. For the k-th job it announces the worker pid and name, then waits on that slot's intermediary pid |
| `Jobs.JobTable.constructor` | doit.cpp:34-36 | the zero-initialised global arrays: ten free slots |
| `Jobs.JobTable.Reap` | doit.cpp:144-156 | the in-place loop leaves the arrays equal to `Reaped` of the old table and keeps the table well formed |
| `Jobs.JobTable.FindFree` | doit.cpp:193-201 | the `for (i = 0; i < 11; i++)` loop with `bkgcnt` returns `FirstFree` of the table |
| `Jobs.JobTable.Record` | doit.cpp:204-214 | the three array writes leave the table equal to `Recorded` of the old one |
| `Jobs.JobTable.Launch` | doit.cpp:190-216 | the launch goes to `FirstFree` of the old table. When that is -1 the launch is rejected and the table is unchanged; otherwise the table becomes `Recorded` at that slot |
| `Jobs.JobTable.ListJobs` | doit.cpp:174-180 | the `jobs` loop returns exactly `JobLines` of the table and changes nothing |
| `Jobs.JobTable.WaitAllOnExit` | doit.cpp:162-170 | the `exit` loop produces exactly `ExitEvents` of the table and does not clear it |
| `Shell.Cycle` | doit.cpp:107-222 | an empty line changes nothing. Otherwise the table is reaped first, and the first word then selects `exit`, `jobs`, `cd`, a foreground run, or a background launch, which is numbered slot+1 or rejected when full |
| `Shell.StartedAddsOneJob` | doit.cpp:144-214 | a background launch that finds room after the reap keeps the table well formed and adds exactly one job to those the reap left |

## Findings

| source | as written | input that shows it | evidently intended | confidence | as-written member | corrected member |
|---|---|---|---|---|---|---|
| doit.cpp:193-205 | when all ten slots hold live jobs, the scan sets `bkgcnt = -1`. The launch then writes `middlepids[-1]`, `taskpids[-1]` and `tasknames[-1]`, outside the arrays. The intermediary then runs `runit` with `bkgnum == 0`, so it never writes the pid and the shell blocks in `read` | ten running `sleep 100 &` jobs, then an eleventh `sleep 1 &` | reject the launch and leave the table unchanged | high; not executed | `JobSpec.FullTableSentinel` | `Jobs.JobTable.Launch` |

## Left out

- Process creation is not modelled: the `fork`/`execvp`/`waitpid` calls in `runit` (doit.cpp:59-71, 91), the pipe that relays the worker pid (doit.cpp:70, 203, 212-213), and the intermediary's "Completed" notice (doit.cpp:72). The model takes the pids they produce as inputs. No launch is modelled before its fork and read have returned.
- The resource report is not modelled: `getrusage`, `gettimeofday` and the `cout` lines of doit.cpp:54-57 and 73-90. These are operating-system reads and output formatting. The report's times come from `mselapsed`, which is modelled.
- `cd` is modelled only as the outcome `ChangeDirectory`. Its `chdir`, `get_current_dir_name` and `strerror` calls (doit.cpp:182-187) are thin operating-system wrappers.
- The `argc` dispatch in `main` (doit.cpp:226-238) and the `==>` prompt (doit.cpp:113) are left out.
- The unsynchronised sharing of standard output between the shell and background intermediaries is left out. It is inherent concurrency and cannot be stated as a sequential model.
- A fork failure, which ends the shell with `exit(-1)` (doit.cpp:205), is left out.
- The end-of-file case at doit.cpp:213 is left out. If the intermediary dies before writing, `read` leaves `taskpids[slot]` at 0 while `middlepids` and `tasknames` are set.
- Jobs.JobTable.Record: requires both pids to be positive, as `fork` guarantees in the parent. Because of this, the end-of-file case above cannot arise in the model.
- Tokenizer.Tokenize: requires `Tokenizable(line)`. This excludes inputs on which the source crashes or runs past its argument slots: a non-empty line made only of spaces (`strcpy` from a NULL token, doit.cpp:117-118), a lone `&` (`args[1]` becomes NULL), and more than 30 words (no NULL terminator is written).
- The `char**` buffer handling is not modelled: the reused `args` buffers, the 1-byte `malloc` overflow (doit.cpp:137) and the pointer nulling (doit.cpp:130). Words are modelled as `seq<string>`.
- Tokenizer.Truncate: `strndup` counts bytes and stops at an embedded NUL. The model treats each `char` as one byte and the line as containing no NUL, so a line with multi-byte UTF-8 text is cut at a different place than the source cuts it.
- Elapsed.ElapsedAntisymmetric, ElapsedAdditive, ElapsedNonNegative and ElapsedWithinOneMs are stated of the exact difference. The `int` that `mselapsed` returns is related to it only through `ReturnedIsExactInRange` and `ReturnedWrapsAboveRange`. An overflow of `tv_sec * 1000` in a `long` is not modelled.
- Jobs.JobTable.Reap: the answer of `waitpid(…, WNOHANG)` is a fixed function of the pid. The model does not capture that each query itself reaps the process, or the order of the queries.
