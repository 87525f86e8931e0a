/**
 * One pass of the shell's read-eval loop, from the line read to the built-in
 * or launch it leads to, with the operating system reduced to its answers:
 * which intermediaries have ended, and the pids a background launch's
 * `fork` and pipe hand back.
 */
module Shell {
  import opened Tokenizer
  import opened JobSpec
  import opened Jobs

  /** What one line leads to. */
  datatype Outcome =
    | Skipped                                   // the empty line: nothing else happens
    | Exited(events: seq<ExitEvent>)            // `exit`: notices and waits, then the process ends
    | Listed(lines: seq<JobLine>)               // `jobs`
    | ChangeDirectory(argv: seq<string>)        // `cd`, handed to the operating system
    | Foreground(argv: seq<string>)             // run and waited for in place
    | Started(number: int, pid: int, name: string)  // the "[n] pid Started name" notice
    | Rejected(name: string)                    // no free slot for a background command

  /**
   * One cycle. An empty line is skipped before anything else; otherwise the
   * table is reaped first, then the first word selects `exit`, `jobs`, `cd`
   * or a program, which is launched in the background when the line ended in
   * `&` and run in the foreground otherwise. `middle` and `worker` are the
   * pids a background launch would obtain from `fork` and from the pipe.
   */
  method Cycle(table: JobTable, line: string, finished: int -> bool, middle: int, worker: int)
    returns (out: Outcome)
    requires table.Valid() && Tokenizable(line)
    requires middle > 0 && worker > 0
    modifies table.taskpids, table.middlepids, table.tasknames
    ensures table.Valid()
    ensures Parse(line).None? ==> out == Skipped && table.View() == old(table.View())
    ensures Parse(line).Some? ==>
              var cmd := Parse(line).value;
              var name := cmd.argv[0];
              var reaped := Reaped(old(table.View()), finished);
              var slot := FirstFree(reaped);
              if name == "exit" then out == Exited(ExitEvents(reaped)) && table.View() == reaped
              else if name == "jobs" then out == Listed(JobLines(reaped)) && table.View() == reaped
              else if name == "cd" then out == ChangeDirectory(cmd.argv) && table.View() == reaped
              else if !cmd.background then out == Foreground(cmd.argv) && table.View() == reaped
              else if slot == -1 then out == Rejected(name) && table.View() == reaped
              else out == Started(slot + 1, worker, name) &&
                   table.View() == Recorded(reaped, slot, worker, middle, name)
  {
    var parsed := Tokenize(line);
    if parsed.None? {
      return Skipped;
    }
    var cmd := parsed.value;
    var name := cmd.argv[0];
    table.Reap(finished);
    if name == "exit" {
      var events := table.WaitAllOnExit();
      out := Exited(events);
    } else if name == "jobs" {
      var lines := table.ListJobs();
      out := Listed(lines);
    } else if name == "cd" {
      out := ChangeDirectory(cmd.argv);
    } else if cmd.background {
      var slot := table.Launch(worker, middle, name);
      if slot == -1 {
        out := Rejected(name);
      } else {
        out := Started(slot + 1, worker, name);
      }
    } else {
      out := Foreground(cmd.argv);
    }
  }

  /**
   * A background launch that finds room after the reap keeps the table well
   * formed and adds exactly one job to those the reap left.
   */
  lemma StartedAddsOneJob(t: seq<Slot>, finished: int -> bool, worker: int, middle: int, name: string)
    requires WellFormed(t) && worker > 0 && middle > 0
    requires FirstFree(Reaped(t, finished)) != -1
    ensures var reaped := Reaped(t, finished);
            var u := Recorded(reaped, FirstFree(reaped), worker, middle, name);
            WellFormed(u) && LiveCount(u) <= LiveCount(t) + 1 && LiveCount(u) == LiveCount(reaped) + 1
  {
    var reaped := Reaped(t, finished);
    ReapKeepsWellFormed(t, finished);
    ReapLiveCount(t, finished);
    LaunchAddsOneJob(reaped, worker, middle, name);
  }
}
