/**
 * The background job table as a value: ten slots, each free or holding the
 * worker pid shown to the user, the intermediary pid the shell waits on, and
 * the program name. Everything the shell does to the table is a linear scan
 * over the slots in index order; this module states what each scan yields.
 */
module JobSpec {

  const Capacity := 10

  /** One slot: `taskpids[i]`, `middlepids[i]` and `tasknames[i]`. A worker pid of 0 marks it free. */
  datatype Slot = Slot(worker: int, middle: int, name: string)

  const Free := Slot(0, 0, "")

  predicate Populated(s: Slot) {
    s.worker != 0
  }

  /** A slot is wholly free or wholly populated with the pids `fork` handed out. */
  predicate SlotOk(s: Slot) {
    s == Free || (s.worker > 0 && s.middle > 0)
  }

  predicate WellFormed(t: seq<Slot>) {
    |t| == Capacity && forall i :: 0 <= i < |t| ==> SlotOk(t[i])
  }

  /** The number of populated slots. */
  function LiveCount(t: seq<Slot>): (n: nat)
    ensures n <= |t|
  {
    if t == [] then 0
    else LiveCount(t[..|t| - 1]) + (if Populated(t[|t| - 1]) then 1 else 0)
  }

  lemma {:induction false} LiveCountFull(t: seq<Slot>)
    ensures LiveCount(t) == |t| <==> forall i :: 0 <= i < |t| ==> Populated(t[i])
  {
    if t != [] {
      var p := t[..|t| - 1];
      LiveCountFull(p);
      assert forall i :: 0 <= i < |p| ==> p[i] == t[i];
    }
  }

  /** Writing one slot changes the count by what that slot held and now holds. */
  lemma {:induction false} LiveCountUpdate(t: seq<Slot>, k: int, s: Slot)
    requires 0 <= k < |t|
    ensures LiveCount(t[k := s]) ==
            LiveCount(t) - (if Populated(t[k]) then 1 else 0) + (if Populated(s) then 1 else 0)
  {
    var u := t[k := s];
    var last := |t| - 1;
    if k == last {
      assert u[..last] == t[..last];
    } else {
      LiveCountUpdate(t[..last], k, s);
      assert u[..last] == t[..last][k := s];
    }
  }

  // ----- allocation -----------------------------------------------------------

  /**
   * The slot a background launch goes to: the lowest free index, or the
   * sentinel -1 when every slot is populated.
   */
  function FirstFree(t: seq<Slot>): (r: int)
    ensures -1 <= r < |t|
    ensures r == -1 <==> forall i :: 0 <= i < |t| ==> Populated(t[i])
    ensures 0 <= r ==> !Populated(t[r]) && forall i :: 0 <= i < r ==> Populated(t[i])
  {
    if t == [] then -1
    else if !Populated(t[0]) then 0
    else
      var r := FirstFree(t[1..]);
      if r == -1 then -1 else r + 1
  }

  /** The sentinel comes exactly when the table holds `Capacity` live jobs. */
  lemma FullExactlyAtCapacity(t: seq<Slot>)
    requires WellFormed(t)
    ensures FirstFree(t) == -1 <==> LiveCount(t) == Capacity
  {
    LiveCountFull(t);
  }

  /**
   * A full table yields the sentinel -1, which the launch code then uses as
   * an index into its ten-element arrays.
   */
  lemma FullTableSentinel()
    ensures var full := seq(Capacity, i => Slot(100 + i, 200 + i, "sleep"));
            WellFormed(full) && FirstFree(full) == -1 && !(0 <= FirstFree(full) < Capacity)
  {
  }

  /** Recording a launch: the chosen slot gets the relayed worker pid, the intermediary pid and the name. */
  function Recorded(t: seq<Slot>, slot: int, worker: int, middle: int, name: string): (u: seq<Slot>)
    requires 0 <= slot < |t|
    ensures |u| == |t| && u[slot] == Slot(worker, middle, name)
    ensures forall i :: 0 <= i < |t| && i != slot ==> u[i] == t[i]
  {
    t[slot := Slot(worker, middle, name)]
  }

  /**
   * A launch into the lowest free slot keeps the table well formed and adds
   * exactly one live job.
   */
  lemma LaunchAddsOneJob(t: seq<Slot>, worker: int, middle: int, name: string)
    requires WellFormed(t) && worker > 0 && middle > 0
    requires FirstFree(t) != -1
    ensures var u := Recorded(t, FirstFree(t), worker, middle, name);
            WellFormed(u) && LiveCount(u) == LiveCount(t) + 1
  {
    LiveCountUpdate(t, FirstFree(t), Slot(worker, middle, name));
  }

  // ----- reaping --------------------------------------------------------------

  /** One slot after the non-blocking wait: cleared if it was populated and its intermediary has ended. */
  function ReapSlot(s: Slot, finished: int -> bool): (r: Slot)
    ensures r == s || r == Free
    ensures Populated(r) ==> r == s && !finished(s.middle)
    ensures !Populated(s) ==> r == s
  {
    if Populated(s) && finished(s.middle) then Free else s
  }

  /** The table after one reap pass; `finished(p)` is whether `waitpid(p, NULL, WNOHANG)` reports non-zero. */
  function Reaped(t: seq<Slot>, finished: int -> bool): (r: seq<Slot>)
    ensures |r| == |t|
    ensures forall i :: 0 <= i < |t| && !Populated(t[i]) ==> r[i] == t[i]
    ensures forall i :: 0 <= i < |t| && Populated(r[i]) ==> r[i] == t[i]
  {
    seq(|t|, i requires 0 <= i < |t| => ReapSlot(t[i], finished))
  }

  /**
   * Reaping clears exactly the populated slots whose intermediary has ended,
   * leaves every other slot as it was, and never populates a slot.
   */
  lemma ReapEffect(t: seq<Slot>, finished: int -> bool)
    ensures forall i :: 0 <= i < |t| ==>
              Reaped(t, finished)[i] == (if Populated(t[i]) && finished(t[i].middle) then Free else t[i])
    ensures forall i :: 0 <= i < |t| && Populated(Reaped(t, finished)[i]) ==>
              Reaped(t, finished)[i] == t[i] && !finished(t[i].middle)
  {
  }

  lemma ReapKeepsWellFormed(t: seq<Slot>, finished: int -> bool)
    requires WellFormed(t)
    ensures WellFormed(Reaped(t, finished))
  {
  }

  /** A second pass with the same answers changes nothing. */
  lemma ReapIdempotent(t: seq<Slot>, finished: int -> bool)
    ensures Reaped(Reaped(t, finished), finished) == Reaped(t, finished)
  {
  }

  /** Reaping never adds a live job. */
  lemma {:induction false} ReapLiveCount(t: seq<Slot>, finished: int -> bool)
    ensures LiveCount(Reaped(t, finished)) <= LiveCount(t)
  {
    if t != [] {
      var last := |t| - 1;
      ReapLiveCount(t[..last], finished);
      assert Reaped(t, finished)[..last] == Reaped(t[..last], finished);
    }
  }

  /**
   * Slot reuse: when the job in slot k has ended and every lower slot holds a
   * job still running, the next launch after a reap goes to slot k.
   */
  lemma ReapThenReuse(t: seq<Slot>, finished: int -> bool, k: int)
    requires 0 <= k < |t|
    requires Populated(t[k]) && finished(t[k].middle)
    requires forall i :: 0 <= i < k ==> Populated(t[i]) && !finished(t[i].middle)
    ensures FirstFree(Reaped(t, finished)) == k
  {
  }

  // ----- the `jobs` listing ---------------------------------------------------

  /** One line of `jobs`: `[number] pid name`. */
  datatype JobLine = JobLine(number: int, pid: int, name: string)

  /** The `jobs` listing: one line per populated slot, in slot order, labelled with the slot index plus one. */
  function JobLines(t: seq<Slot>): (r: seq<JobLine>)
    ensures |r| == LiveCount(t)
  {
    if t == [] then []
    else
      var i := |t| - 1;
      JobLines(t[..i]) + (if Populated(t[i]) then [JobLine(i + 1, t[i].worker, t[i].name)] else [])
  }

  /** The line slot i adds to the listing, if any. */
  function LineOf(t: seq<Slot>, i: int): seq<JobLine>
    requires 0 <= i < |t|
  {
    if Populated(t[i]) then [JobLine(i + 1, t[i].worker, t[i].name)] else []
  }

  lemma JobLinesUnfold(t: seq<Slot>)
    requires t != []
    ensures JobLines(t) == JobLines(t[..|t| - 1]) + LineOf(t, |t| - 1)
  {
  }

  /** Every line shows a populated slot's worker pid and name, numbered slot+1. */
  lemma {:induction false} JobLinesSound(t: seq<Slot>)
    ensures forall k :: 0 <= k < |JobLines(t)| ==>
              var l := JobLines(t)[k];
              1 <= l.number <= |t| && Populated(t[l.number - 1]) &&
              l.pid == t[l.number - 1].worker && l.name == t[l.number - 1].name
  {
    if t != [] {
      var i := |t| - 1;
      var p := t[..i];
      JobLinesSound(p);
      JobLinesUnfold(t);
      var head := JobLines(p);
      forall k | 0 <= k < |JobLines(t)|
        ensures var l := JobLines(t)[k];
                1 <= l.number <= |t| && Populated(t[l.number - 1]) &&
                l.pid == t[l.number - 1].worker && l.name == t[l.number - 1].name
      {
        if k < |head| {
          assert JobLines(t)[k] == head[k];
          assert p[head[k].number - 1] == t[head[k].number - 1];
        }
      }
    }
  }

  /** Every populated slot has its line. */
  lemma {:induction false} JobLinesComplete(t: seq<Slot>)
    ensures forall i :: 0 <= i < |t| && Populated(t[i]) ==>
              exists k :: 0 <= k < |JobLines(t)| && JobLines(t)[k].number == i + 1
  {
    if t != [] {
      var i := |t| - 1;
      var p := t[..i];
      JobLinesComplete(p);
      JobLinesUnfold(t);
      var head := JobLines(p);
      forall m | 0 <= m < |t| && Populated(t[m])
        ensures exists k :: 0 <= k < |JobLines(t)| && JobLines(t)[k].number == m + 1
      {
        if m < i {
          assert Populated(p[m]);
          var k :| 0 <= k < |head| && head[k].number == m + 1;
          assert JobLines(t)[k] == head[k];
        } else {
          assert JobLines(t)[|head|].number == m + 1;
        }
      }
    }
  }

  /** The listing is in slot order: the numbers strictly ascend. */
  lemma {:induction false} JobLinesAscending(t: seq<Slot>)
    ensures forall j, k :: 0 <= j < k < |JobLines(t)| ==> JobLines(t)[j].number < JobLines(t)[k].number
  {
    if t != [] {
      var i := |t| - 1;
      var p := t[..i];
      JobLinesAscending(p);
      JobLinesSound(p);
      JobLinesUnfold(t);
      var head := JobLines(p);
      forall j, k | 0 <= j < k < |JobLines(t)|
        ensures JobLines(t)[j].number < JobLines(t)[k].number
      {
        assert JobLines(t)[j] == head[j];
        if k < |head| {
          assert JobLines(t)[k] == head[k];
        } else {
          assert JobLines(t)[k].number == i + 1;
        }
      }
    }
  }

  /** Free slots past the last job add nothing to the listing. */
  lemma {:induction false} JobLinesFreeTail(t: seq<Slot>, k: int)
    requires 0 <= k <= |t|
    requires forall i :: k <= i < |t| ==> !Populated(t[i])
    ensures JobLines(t) == JobLines(t[..k])
    decreases |t|
  {
    if |t| > k {
      JobLinesFreeTail(t[..|t| - 1], k);
      assert t[..|t| - 1][..k] == t[..k];
    } else {
      assert t[..k] == t;
    }
  }

  /** Jobs in slots 0 and 2, slot 1 free: `jobs` prints exactly two lines, numbered 1 and 3. */
  lemma JobsWithGap(a: Slot, b: Slot)
    requires Populated(a) && Populated(b)
    ensures var t := [a, Free, b] + seq(Capacity - 3, _ => Free);
            JobLines(t) == [JobLine(1, a.worker, a.name), JobLine(3, b.worker, b.name)]
  {
    var t := [a, Free, b] + seq(Capacity - 3, _ => Free);
    JobLinesFreeTail(t, 3);
    assert t[..3] == [a, Free, b];
    assert [a, Free, b][..2] == [a, Free];
    assert [a, Free][..1] == [a];
    assert [a][..0] == [];
    assert JobLines([a]) == [JobLine(1, a.worker, a.name)];
    assert JobLines([a, Free]) == [JobLine(1, a.worker, a.name)];
    assert JobLines([a, Free, b]) == [JobLine(1, a.worker, a.name), JobLine(3, b.worker, b.name)];
  }

  // ----- `exit` ---------------------------------------------------------------

  /** What `exit` does per populated slot: a notice, then a blocking wait on the intermediary. */
  datatype ExitEvent = Waiting(pid: int, name: string) | WaitFor(middle: int)

  /** The events of `exit`, in slot order. */
  function ExitEvents(t: seq<Slot>): (r: seq<ExitEvent>)
    ensures |r| == 2 * LiveCount(t)
  {
    if t == [] then []
    else
      var i := |t| - 1;
      ExitEvents(t[..i]) +
      (if Populated(t[i]) then [Waiting(t[i].worker, t[i].name), WaitFor(t[i].middle)] else [])
  }

  function EventsOf(t: seq<Slot>, i: int): seq<ExitEvent>
    requires 0 <= i < |t|
  {
    if Populated(t[i]) then [Waiting(t[i].worker, t[i].name), WaitFor(t[i].middle)] else []
  }

  lemma ExitEventsUnfold(t: seq<Slot>)
    requires t != []
    ensures ExitEvents(t) == ExitEvents(t[..|t| - 1]) + EventsOf(t, |t| - 1)
  {
  }

  /**
   * `exit` walks the jobs `jobs` would list, in the same order: for the k-th
   * listed job it first announces that job's worker pid and name, then waits
   * on the intermediary of that job's slot.
   */
  lemma {:induction false} ExitFollowsJobs(t: seq<Slot>)
    ensures |ExitEvents(t)| == 2 * |JobLines(t)|
    ensures forall k :: 0 <= k < |JobLines(t)| ==>
              var l := JobLines(t)[k];
              1 <= l.number <= |t| &&
              ExitEvents(t)[2 * k] == Waiting(l.pid, l.name) &&
              ExitEvents(t)[2 * k + 1] == WaitFor(t[l.number - 1].middle)
  {
    if t != [] {
      var i := |t| - 1;
      var p := t[..i];
      ExitFollowsJobs(p);
      JobLinesUnfold(t);
      ExitEventsUnfold(t);
      var lines, events := JobLines(p), ExitEvents(p);
      forall k | 0 <= k < |JobLines(t)|
        ensures var l := JobLines(t)[k];
                1 <= l.number <= |t| &&
                ExitEvents(t)[2 * k] == Waiting(l.pid, l.name) &&
                ExitEvents(t)[2 * k + 1] == WaitFor(t[l.number - 1].middle)
      {
        if k < |lines| {
          assert JobLines(t)[k] == lines[k];
          assert ExitEvents(t)[2 * k] == events[2 * k];
          assert ExitEvents(t)[2 * k + 1] == events[2 * k + 1];
          assert p[lines[k].number - 1] == t[lines[k].number - 1];
        } else {
          assert JobLines(t)[k] == JobLine(i + 1, t[i].worker, t[i].name);
          assert ExitEvents(t)[2 * k] == Waiting(t[i].worker, t[i].name);
          assert ExitEvents(t)[2 * k + 1] == WaitFor(t[i].middle);
        }
      }
    }
  }
}
