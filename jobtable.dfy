/**
 * The shell's job table as it is kept: three parallel arrays of ten entries,
 * `taskpids`, `middlepids` and `tasknames`, updated in place by loops that
 * walk the slots in index order. Each method is specified by the
 * corresponding function of JobSpec on the table's value.
 */
module Jobs {
  import opened JobSpec

  /** The slots the three parallel sequences describe. */
  function Zip(pids: seq<int>, middles: seq<int>, names: seq<string>): seq<Slot>
    requires |pids| == |middles| == |names|
  {
    seq(|pids|, i requires 0 <= i < |pids| => Slot(pids[i], middles[i], names[i]))
  }

  class JobTable {
    var taskpids: array<int>
    var middlepids: array<int>
    var tasknames: array<string>

    ghost predicate Shaped()
      reads this
    {
      taskpids.Length == Capacity && middlepids.Length == Capacity &&
      tasknames.Length == Capacity && taskpids != middlepids
    }

    /** The table's value: slot i is `(taskpids[i], middlepids[i], tasknames[i])`. */
    ghost function View(): seq<Slot>
      reads this, taskpids, middlepids, tasknames
      requires Shaped()
    {
      Zip(taskpids[..], middlepids[..], tasknames[..])
    }

    ghost predicate Valid()
      reads this, taskpids, middlepids, tasknames
    {
      Shaped() && WellFormed(View())
    }

    /** The zero-initialised globals: every slot free. */
    constructor ()
      ensures Valid() && fresh(taskpids) && fresh(middlepids) && fresh(tasknames)
      ensures View() == seq(Capacity, _ => Free)
    {
      taskpids := new int[Capacity](_ => 0);
      middlepids := new int[Capacity](_ => 0);
      tasknames := new string[Capacity](_ => "");
    }

    /**
     * The reap pass run after every non-empty line: each populated slot whose
     * intermediary `waitpid(…, WNOHANG)` reports ended is cleared.
     */
    method Reap(finished: int -> bool)
      requires Valid()
      modifies taskpids, middlepids, tasknames
      ensures Valid()
      ensures View() == Reaped(old(View()), finished)
    {
      ghost var before := View();
      for i := 0 to Capacity
        invariant Shaped()
        invariant forall k :: 0 <= k < i ==> View()[k] == ReapSlot(before[k], finished)
        invariant forall k :: i <= k < Capacity ==> View()[k] == before[k]
      {
        if taskpids[i] != 0 {
          if finished(middlepids[i]) {
            taskpids[i] := 0;
            middlepids[i] := 0;
            tasknames[i] := "";
          }
        }
      }
      assert View() == Reaped(before, finished);
    }

    /**
     * The search for the next background slot: the lowest free index, or -1
     * when the scan runs off the end of the table.
     */
    method FindFree() returns (slot: int)
      requires Valid()
      ensures slot == FirstFree(View())
    {
      slot := 1;
      for i := 0 to Capacity + 1
        invariant forall k :: 0 <= k < i && k < Capacity ==> taskpids[k] != 0
        invariant i == Capacity + 1 ==> slot == -1
      {
        if i == Capacity {
          slot := -1;
        } else if taskpids[i] == 0 {
          slot := i;
          break;
        }
      }
      FirstFreeIsUnique(View(), slot);
    }

    /** Recording a launch: `middlepids`, `taskpids` and `tasknames` are written at `slot` and nowhere else. */
    method Record(slot: int, worker: int, middle: int, name: string)
      requires Valid()
      requires 0 <= slot < Capacity && worker > 0 && middle > 0
      modifies taskpids, middlepids, tasknames
      ensures Valid()
      ensures View() == Recorded(old(View()), slot, worker, middle, name)
    {
      middlepids[slot] := middle;
      taskpids[slot] := worker;
      tasknames[slot] := name;
      assert View() == Recorded(old(View()), slot, worker, middle, name);
    }

    /**
     * A background launch into the lowest free slot. Where the scan yields the
     * sentinel -1 the launch is rejected and the table left as it is.
     */
    method Launch(worker: int, middle: int, name: string) returns (slot: int)
      requires Valid()
      requires worker > 0 && middle > 0
      modifies taskpids, middlepids, tasknames
      ensures Valid()
      ensures slot == FirstFree(old(View()))
      ensures slot == -1 ==> View() == old(View())
      ensures slot != -1 ==> View() == Recorded(old(View()), slot, worker, middle, name)
    {
      slot := FindFree();
      if slot == -1 {
        return;
      }
      Record(slot, worker, middle, name);
    }

    /** The `jobs` built-in: one line per populated slot, in slot order. */
    method ListJobs() returns (lines: seq<JobLine>)
      requires Valid()
      ensures lines == JobLines(View())
    {
      lines := [];
      for i := 0 to Capacity
        invariant lines == JobLines(View()[..i])
      {
        assert View()[..i + 1][..i] == View()[..i];
        if taskpids[i] != 0 {
          lines := lines + [JobLine(i + 1, taskpids[i], tasknames[i])];
        }
      }
      assert View()[..Capacity] == View();
    }

    /**
     * The `exit` built-in before the process ends: for each populated slot, a
     * "Waiting for" notice and then a blocking wait on its intermediary. The
     * table itself is left as it is.
     */
    method WaitAllOnExit() returns (events: seq<ExitEvent>)
      requires Valid()
      ensures events == ExitEvents(View())
    {
      events := [];
      for i := 0 to Capacity
        invariant events == ExitEvents(View()[..i])
      {
        assert View()[..i + 1][..i] == View()[..i];
        if taskpids[i] != 0 {
          events := events + [Waiting(taskpids[i], tasknames[i]), WaitFor(middlepids[i])];
        }
      }
      assert View()[..Capacity] == View();
    }
  }

  /** The three clauses of FirstFree's contract pin its value down. */
  lemma FirstFreeIsUnique(t: seq<Slot>, r: int)
    requires -1 <= r < |t|
    requires r == -1 ==> forall i :: 0 <= i < |t| ==> Populated(t[i])
    requires 0 <= r ==> !Populated(t[r]) && forall i :: 0 <= i < r ==> Populated(t[i])
    ensures r == FirstFree(t)
  {
  }
}
