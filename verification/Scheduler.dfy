/** The round-robin scheduler of src/scheduler.c: a table of 64 slots with holes,
    scanned from the running task's slot on.  A task is named by its slot, which
    is its pid. */
module Scheduler {
  import opened Common

  datatype TaskState = Ready | Blocked | Sleeping | Terminated | Unknown

  datatype Task = Task(pid: nat, state: TaskState, wake: nat)

  /** TASKS, nr_tasks and current->pid. */
  datatype Sched = Sched(tasks: seq<Option<Task>>, nr: nat, current: nat)

  /** Slot 0 holds the always-ready init task; every task's pid is its slot, which
      lies below nr. */
  predicate Ok(s: Sched) {
    && |s.tasks| == 64 && 1 <= s.nr && s.current < 64
    && s.tasks[0].Some? && s.tasks[0].value.state == Ready
    && forall i :: 0 <= i < 64 && s.tasks[i].Some? ==> i < s.nr && s.tasks[i].value.pid == i
  }

  const INITIAL := Sched([Some(Task(0, Ready, 0))] + seq(63, _ => None), 1, 0)

  // ---------------------------------------------------------------- the clock

  /** `(int) (wake_ticks - nTicks) > 0` */
  predicate Asleep(wake: nat, now: nat) { 0 < (wake - now) % 0x1_0000_0000 < 0x8000_0000 }

  /** The wrap-around test is right from the start of a sleep until 2^31 ticks after its end. */
  lemma AsleepExact(start: nat, ticks: nat, elapsed: nat)
    requires start < 0x1_0000_0000 && ticks < 0x8000_0000 && elapsed <= ticks + 0x8000_0000
    ensures Asleep((start + ticks) % 0x1_0000_0000, (start + elapsed) % 0x1_0000_0000) <==> elapsed < ticks
  {
    var d := ticks - elapsed;
    ModDifference(start + ticks, start + elapsed);
  }

  lemma ModDifference(a: int, b: int)
    ensures (a % 0x1_0000_0000 - b % 0x1_0000_0000) % 0x1_0000_0000 == (a - b) % 0x1_0000_0000
  {
    var m := 0x1_0000_0000;
    assert a - b == (a / m - b / m) * m + (a % m - b % m);
  }

  /** A sleep is noticed at all exactly when it is shorter than 2^31 ticks. */
  lemma AsleepAtStart(start: nat, ticks: nat)
    requires start < 0x1_0000_0000 && 0 < ticks < 0x1_0000_0000
    ensures Asleep((start + ticks) % 0x1_0000_0000, start) <==> ticks < 0x8000_0000
  {
    ModDifference(start + ticks, start);
  }

  function Sum(xs: seq<nat>): nat { if xs == [] then 0 else Sum(xs[..|xs| - 1]) + xs[|xs| - 1] }

  lemma SumSnoc(xs: seq<nat>, x: nat)
    ensures Sum(xs + [x]) == Sum(xs) + x
  {
    assert (xs + [x])[..|xs + [x]| - 1] == xs;
  }

  /** `nSeconds * 1000000` in 32 bits, exact for the chunks task_sleep uses. */
  function Micros(seconds: nat): (r: nat)
    ensures seconds <= 1800 ==> r == seconds * 1000000 < 0x8000_0000
  {
    seconds * 1000000 % 0x1_0000_0000
  }

  /** task_sleep: the microsecond sleeps it asks for add up to the whole time, none
      overflows 32 bits, and each is short enough for the clock test. */
  method TaskSleep(seconds: nat) returns (sleeps: seq<nat>)
    requires seconds < 0x1_0000_0000
    ensures Sum(sleeps) == seconds * 1000000
    ensures forall x :: x in sleeps ==> x < 0x8000_0000
  {
    var left := seconds;
    sleeps := [];
    while left > 1800
      invariant Sum(sleeps) + left * 1000000 == seconds * 1000000
      invariant forall x :: x in sleeps ==> x < 0x8000_0000
    {
      SumSnoc(sleeps, Micros(1800));
      sleeps := sleeps + [Micros(1800)];
      left := left - 1800;
    }
    SumSnoc(sleeps, Micros(left));
    sleeps := sleeps + [Micros(left)];
  }

  // ---------------------------------------------------------------- table operations

  /** The first free slot from i on; 64 if there is none. */
  function FreeSlot(tasks: seq<Option<Task>>, i: nat): (r: nat)
    requires |tasks| == 64 && i <= 64
    ensures i <= r <= 64 && (r < 64 ==> tasks[r].None?)
    ensures forall j :: i <= j < r ==> tasks[j].Some?
    decreases 64 - i
  {
    if i == 64 || tasks[i].None? then i else FreeSlot(tasks, i + 1)
  }

  /** add_task; the result slot is 0 when the table is full. */
  function Add(s: Sched, state: TaskState): (Sched, nat)
    requires |s.tasks| == 64
  {
    var i := FreeSlot(s.tasks, 1);
    if i == 64 then (s, 0)
    else (s.(tasks := s.tasks[i := Some(Task(i, state, 0))], nr := s.nr + 1), i)
  }

  /** remove_task of a task of the table. */
  function Remove(s: Sched, pid: nat): Sched
    requires pid < |s.tasks|
  {
    if pid == 0 || s.tasks[pid].None? || pid >= s.nr then s
    else s.(tasks := s.tasks[pid := None], nr := if pid == s.nr - 1 then s.nr - 1 else s.nr)
  }

  function SetState(s: Sched, pid: nat, state: TaskState): Sched
    requires pid < |s.tasks| && s.tasks[pid].Some?
  {
    s.(tasks := s.tasks[pid := Some(s.tasks[pid].value.(state := state))])
  }

  lemma AddOk(s: Sched, state: TaskState)
    requires Ok(s)
    ensures Ok(Add(s, state).0)
    ensures Add(s, state).1 > 0 ==> s.tasks[Add(s, state).1].None?
  {
    var i := FreeSlot(s.tasks, 1);
    if i < 64 {
      assert i > 1 ==> s.tasks[i - 1].Some?;
    }
  }

  /** A task goes to the lowest free slot behind the init task's, with that slot as its
      pid; adding fails exactly when there is none, and then changes nothing. */
  lemma AddExact(s: Sched, state: TaskState)
    requires Ok(s)
    ensures var (s', pid) := Add(s, state);
            && (pid == 0 <==> forall i :: 1 <= i < 64 ==> s.tasks[i].Some?)
            && (pid == 0 ==> s' == s)
            && (pid != 0 ==>
                  && pid < 64 && s.tasks[pid].None? && (forall i :: 1 <= i < pid ==> s.tasks[i].Some?)
                  && |s'.tasks| == 64 && s'.nr == s.nr + 1 && s'.current == s.current
                  && s'.tasks[pid].Some? && s'.tasks[pid].value.pid == pid && s'.tasks[pid].value.state == state
                  && forall i :: 0 <= i < 64 && i != pid ==> s'.tasks[i] == s.tasks[i])
  {
    var i := FreeSlot(s.tasks, 1);
    if i < 64 {
      assert s.tasks[i].None?;
    }
  }

  /** Removing empties one slot, never the init task's, and lowers nr exactly at the top. */
  lemma RemoveExact(s: Sched, pid: nat)
    requires Ok(s) && pid < 64 && s.tasks[pid].Some?
    ensures var s' := Remove(s, pid);
            && |s'.tasks| == 64 && s'.current == s.current
            && (forall i :: 0 <= i < 64 ==> (s'.tasks[i] == s.tasks[i] || (i == pid && s'.tasks[i].None?)))
            && (s'.tasks[pid].None? <==> pid != 0)
            && s'.nr == s.nr - (if pid != 0 && pid + 1 == s.nr then 1 else 0)
  {
  }

  lemma RemoveOk(s: Sched, pid: nat)
    requires Ok(s) && pid < 64
    ensures Ok(Remove(s, pid))
  {
  }

  lemma SetStateOk(s: Sched, pid: nat, state: TaskState)
    requires Ok(s) && 0 < pid < 64 && s.tasks[pid].Some?
    ensures Ok(SetState(s, pid, state))
  {
  }

  /** Reusing a hole counts a task twice: each round of removing the task in slot 1
      and adding another, below an occupied slot 2, lifts nr by one. */
  lemma {:induction false} CountDrifts(s: Sched, rounds: nat)
    requires Ok(s) && s.tasks[1].Some? && s.tasks[2].Some?
    ensures var t := Churn(s, rounds);
            Ok(t) && t.nr == s.nr + rounds && t.tasks[1].Some? && t.tasks[2].Some?
            && forall i :: 2 <= i < 64 ==> t.tasks[i] == s.tasks[i]
  {
    if rounds > 0 {
      CountDrifts(s, rounds - 1);
      OneRound(Churn(s, rounds - 1));
    }
  }

  lemma OneRound(s: Sched)
    requires Ok(s) && s.tasks[1].Some? && s.tasks[2].Some?
    ensures var t := Add(Remove(s, 1), Ready).0;
            Ok(t) && t.nr == s.nr + 1 && t.tasks[1].Some? && forall i :: 2 <= i < 64 ==> t.tasks[i] == s.tasks[i]
  {
    RemoveOk(s, 1);
    AddOk(Remove(s, 1), Ready);
    assert FreeSlot(Remove(s, 1).tasks, 1) == 1;
  }

  function Churn(s: Sched, rounds: nat): Sched
    requires |s.tasks| == 64
    ensures |Churn(s, rounds).tasks| == 64
  {
    if rounds == 0 then s else Add(Remove(Churn(s, rounds - 1), 1), Ready).0
  }

  // ---------------------------------------------------------------- the scan

  function Advance(n: nat, nr: nat): nat { if n + 1 >= nr then 0 else n + 1 }

  /** What get_next_task does at slot n: stop there, perhaps waking the task, or go
      on, perhaps having removed a terminated one. */
  function Visit(s: Sched, n: nat, now: nat): (Sched, bool)
    requires n < |s.tasks|
  {
    if s.tasks[n].None? then (s, false)
    else
      match s.tasks[n].value.state
      case Ready => (s, true)
      case Sleeping => if Asleep(s.tasks[n].value.wake, now) then (s, false) else (SetState(s, n, Ready), true)
      case Terminated => (Remove(s, n), false)
      case _ => (s, false)
  }

  /** How get_next_task's loop ends: at a runnable task, after NR_TASKS turns, or with a
      read of TASKS behind its last slot. */
  datatype Outcome = Found(slot: nat) | NoTask | Outside

  /** The remaining i turns of the loop, the last slot looked at being n. */
  function Scan(s: Sched, n: nat, i: nat, now: nat): (Sched, Outcome)
    requires |s.tasks| == 64
    decreases i
  {
    if i == 0 then (s, NoTask)
    else
      var n' := Advance(n, s.nr);
      if n' >= 64 then (s, Outside)
      else
        var (s', found) := Visit(s, n', now);
        if found then (s', Found(n')) else Scan(s', n', i - 1, now)
  }

  /** get_next_task; a pid is always below NR_TASKS, so its first test changes nothing. */
  function GetNext(s: Sched, now: nat): (Sched, Outcome)
    requires |s.tasks| == 64
  {
    Scan(s, s.current, 64, now)
  }

  /** How many slots the scan moves from c to reach t. */
  function Distance(c: nat, t: nat, nr: nat): nat
    requires t < nr
  {
    if c >= nr then t + 1 else if c < t then t - c else nr - c + t
  }

  lemma AdvanceCloser(c: nat, t: nat, nr: nat, nr': nat)
    requires t < nr' <= nr && Advance(c, nr) != t
    ensures Distance(Advance(c, nr), t, nr') < Distance(c, t, nr)
  {
  }

  lemma VisitOk(s: Sched, n: nat, now: nat)
    requires Ok(s) && n < 64
    ensures Ok(Visit(s, n, now).0) && Visit(s, n, now).0.nr <= s.nr
    ensures Visit(s, n, now).0.current == s.current
    ensures Visit(s, n, now).1 ==> Visit(s, n, now).0.tasks[n].Some? && Visit(s, n, now).0.tasks[n].value.state == Ready
    ensures forall t :: 0 <= t < 64 && IsReady(s, t) ==> IsReady(Visit(s, n, now).0, t)
  {
  }

  predicate IsReady(s: Sched, t: nat)
    requires |s.tasks| == 64
  {
    t < 64 && s.tasks[t].Some? && s.tasks[t].value.state == Ready
  }

  /** With a ready task t in the table the scan ends at a ready slot no further than t. */
  lemma {:induction false} ScanReaches(s: Sched, n: nat, i: nat, now: nat, t: nat)
    requires Ok(s) && s.nr <= 64 && IsReady(s, t) && Distance(n, t, s.nr) <= i
    ensures var (s', m) := Scan(s, n, i, now);
            && Ok(s') && m.Found? && IsReady(s', m.slot) && IsReady(s', t) && s'.nr <= s.nr && s'.current == s.current
            && (m.slot == t || Distance(m.slot, t, s'.nr) < Distance(n, t, s.nr))
    decreases i
  {
    var n' := Advance(n, s.nr);
    VisitOk(s, n', now);
    var (s', found) := Visit(s, n', now);
    if n' != t {
      AdvanceCloser(n, t, s.nr, s'.nr);
      if !found {
        ScanReaches(s', n', i - 1, now, t);
      }
    }
  }

  /** get_next_task never comes back empty-handed, because the init task is ready. */
  lemma NextExists(s: Sched, now: nat)
    requires Ok(s) && s.nr <= 64
    ensures var (s', m) := GetNext(s, now); m.Found? && Ok(s') && IsReady(s', m.slot)
  {
    ScanReaches(s, s.current, 64, now, 0);
  }

  /** The scan stops at this slot. */
  predicate Runnable(s: Sched, j: nat, now: nat)
    requires j < |s.tasks|
  {
    s.tasks[j].Some? && (s.tasks[j].value.state == Ready ||
                         (s.tasks[j].value.state == Sleeping && !Asleep(s.tasks[j].value.wake, now)))
  }

  /** With nr above 64 the scan never turns back: from slot c it runs into the first
      runnable task behind c, or out of the table. */
  lemma {:induction false} ScanAbove(s: Sched, c: nat, i: nat, now: nat)
    requires Ok(s) && s.nr > 64 && c < 64 && i >= 64 - c
    ensures var (s', m) := Scan(s, c, i, now);
            && Ok(s') && s'.nr == s.nr && s'.current == s.current
            && (m == Outside <==> forall j :: c < j < 64 ==> !Runnable(s, j, now))
            && (m != Outside ==> m.Found? && c < m.slot < 64 && IsReady(s', m.slot))
    decreases i
  {
    if c < 63 {
      VisitOk(s, c + 1, now);
      var (s', found) := Visit(s, c + 1, now);
      assert found == Runnable(s, c + 1, now);
      if !found {
        ScanAbove(s', c + 1, i - 1, now);
        assert forall j :: c + 1 < j < 64 ==> Runnable(s', j, now) == Runnable(s, j, now);
      }
    }
  }

  predicate IsTerminated(s: Sched, j: nat)
    requires j < |s.tasks|
  {
    s.tasks[j].Some? && s.tasks[j].value.state == Terminated
  }

  /** m is the first runnable slot above n, or the init task's if there is none. */
  predicate Picks(s: Sched, n: nat, now: nat, m: nat)
    requires |s.tasks| == 64
  {
    if m > n then m < 64 && Runnable(s, m, now) && forall j :: n < j < m ==> !Runnable(s, j, now)
    else m == 0 && forall j :: n < j < 64 ==> !Runnable(s, j, now)
  }

  /** Slot j lies between n and the slot picked. */
  predicate Passed(n: nat, m: nat, j: nat) { n < j < 64 && (m == 0 || j < m) }

  /** What a search from n that picks m leaves: the task picked is ready, the terminated
      tasks passed are gone, and every other slot is as it was. */
  predicate Swept(s: Sched, n: nat, m: nat, s': Sched)
    requires |s.tasks| == 64 && m < 64 && s.tasks[m].Some?
  {
    && |s'.tasks| == 64 && s'.current == s.current
    && s'.tasks[m] == Some(s.tasks[m].value.(state := Ready))
    && (forall j :: 0 <= j < 64 && j != m ==>
          s'.tasks[j] == if Passed(n, m, j) && IsTerminated(s, j) then None else s.tasks[j])
    && s'.nr == s.nr - (if 1 <= s.nr <= 64 && Passed(n, m, s.nr - 1) && IsTerminated(s, s.nr - 1) then 1 else 0)
  }

  /** What a search from slot n comes to. */
  predicate ScanGives(s: Sched, n: nat, now: nat, s': Sched, m: Outcome)
    requires |s.tasks| == 64
  {
    && (m == Outside <==> s.nr > 64 && forall j :: n < j < 64 ==> !Runnable(s, j, now))
    && (m != Outside ==> m.Found? && m.slot < 64 && s.tasks[m.slot].Some?
                         && Picks(s, n, now, m.slot) && Swept(s, n, m.slot, s'))
  }

  /** The search from slot n with enough turns left. */
  lemma {:induction false} ScanUp(s: Sched, n: nat, i: nat, now: nat)
    requires Ok(s) && n < 64 && i >= 64 - n
    ensures ScanGives(s, n, now, Scan(s, n, i, now).0, Scan(s, n, i, now).1)
    decreases i
  {
    if n + 1 >= s.nr {
      PickedInit(s, n, now);
    } else if n < 63 {
      var (t, found) := Visit(s, n + 1, now);
      VisitOk(s, n + 1, now);
      VisitedSlot(s, n + 1, now);
      if found {
        PickedHere(s, n, now, t);
      } else {
        ScanUp(t, n + 1, i - 1, now);
        var (s', m) := Scan(t, n + 1, i - 1, now);
        ScanGivesOn(s, n, now, t, s', m);
      }
    }
  }

  lemma ScanGivesOn(s: Sched, n: nat, now: nat, t: Sched, s': Sched, m: Outcome)
    requires Ok(s) && Ok(t) && n < 63 && n + 1 < s.nr && t.current == s.current && !Runnable(s, n + 1, now)
    requires forall j :: 0 <= j < 64 && j != n + 1 ==> t.tasks[j] == s.tasks[j]
    requires t.tasks[n + 1] == if IsTerminated(s, n + 1) then None else s.tasks[n + 1]
    requires t.nr == s.nr - (if IsTerminated(s, n + 1) && n + 2 == s.nr then 1 else 0)
    requires ScanGives(t, n + 1, now, s', m)
    ensures ScanGives(s, n, now, s', m)
  {
    NoneAbove(s, n, now, t);
    if m != Outside {
      SweptOn(s, n, now, t, m.slot, s');
    }
  }

  lemma PickedHere(s: Sched, n: nat, now: nat, t: Sched)
    requires Ok(s) && n < 63 && Runnable(s, n + 1, now)
    requires |t.tasks| == 64 && t.current == s.current && t.nr == s.nr
    requires t.tasks[n + 1] == Some(s.tasks[n + 1].value.(state := Ready))
    requires forall j :: 0 <= j < 64 && j != n + 1 ==> t.tasks[j] == s.tasks[j]
    ensures Picks(s, n, now, n + 1) && Swept(s, n, n + 1, t)
  {
  }

  lemma PickedInit(s: Sched, n: nat, now: nat)
    requires Ok(s) && n < 64 && n + 1 >= s.nr
    ensures Picks(s, n, now, 0) && Swept(s, n, 0, s)
  {
  }

  lemma NoneAbove(s: Sched, n: nat, now: nat, t: Sched)
    requires |s.tasks| == |t.tasks| == 64 && n < 63 && !Runnable(s, n + 1, now)
    requires forall j :: 0 <= j < 64 && j != n + 1 ==> t.tasks[j] == s.tasks[j]
    ensures (forall j :: n < j < 64 ==> !Runnable(s, j, now)) <==> (forall j :: n + 1 < j < 64 ==> !Runnable(t, j, now))
  {
    forall j | n + 1 < j < 64 ensures Runnable(t, j, now) == Runnable(s, j, now) {}
  }

  /** One slot: the search stops there exactly when it is runnable. */
  lemma VisitedSlot(s: Sched, k: nat, now: nat)
    requires Ok(s) && 0 < k < 64
    ensures var (t, found) := Visit(s, k, now);
            && (found <==> Runnable(s, k, now)) && |t.tasks| == 64 && t.current == s.current
            && (forall j :: 0 <= j < 64 && j != k ==> t.tasks[j] == s.tasks[j])
            && (found ==> t.nr == s.nr && t.tasks[k] == Some(s.tasks[k].value.(state := Ready)))
            && (!found ==> t.tasks[k] == if IsTerminated(s, k) then None else s.tasks[k])
            && (!found ==> t.nr == s.nr - (if IsTerminated(s, k) && k + 1 == s.nr then 1 else 0))
  {
  }

  lemma SweptOn(s: Sched, n: nat, now: nat, t: Sched, m: nat, s': Sched)
    requires Ok(s) && Ok(t) && n < 63 && t.current == s.current && !Runnable(s, n + 1, now)
    requires forall j :: 0 <= j < 64 && j != n + 1 ==> t.tasks[j] == s.tasks[j]
    requires t.tasks[n + 1] == if IsTerminated(s, n + 1) then None else s.tasks[n + 1]
    requires t.nr == s.nr - (if IsTerminated(s, n + 1) && n + 2 == s.nr then 1 else 0)
    requires m < 64 && t.tasks[m].Some? && Picks(t, n + 1, now, m) && Swept(t, n + 1, m, s')
    ensures s.tasks[m].Some? && Picks(s, n, now, m) && Swept(s, n, m, s')
  {
    assert m != n + 1;
    forall j | n < j < 64 && j != n + 1 ensures Runnable(t, j, now) == Runnable(s, j, now) {}
  }

  /** get_next_task, on the table: the first runnable task above the current one, or the
      init task; the task found is ready, terminated tasks passed on the way are removed,
      and nothing else changes. */
  lemma GetNextExact(s: Sched, now: nat)
    requires Ok(s) && Inside(s, now)
    ensures var (s', m) := GetNext(s, now);
            && m.Found? && m.slot < 64 && s.tasks[m.slot].Some?
            && Picks(s, s.current, now, m.slot) && Swept(s, s.current, m.slot, s')
  {
    ScanUp(s, s.current, 64, now);
  }

  /** _schedule: the same, and the task found is the current one. */
  lemma ScheduleExact(s: Sched, now: nat)
    requires Ok(s) && Inside(s, now)
    ensures var s' := Schedule(s, now);
            && s'.current < 64 && s.tasks[s'.current].Some?
            && Picks(s, s.current, now, s'.current) && Swept(s, s.current, s'.current, s'.(current := s.current))
  {
    GetNextExact(s, now);
  }

  /** get_next_task reads behind the table exactly when nr has drifted above 64 and no
      task behind the current one is runnable; otherwise it finds a task that is ready. */
  lemma ScanStaysInside(s: Sched, now: nat)
    requires Ok(s)
    ensures var (s', m) := GetNext(s, now);
            && (m == Outside <==> s.nr > 64 && forall j :: s.current < j < 64 ==> !Runnable(s, j, now))
            && Ok(s') && s'.current == s.current
            && (m != Outside ==> m.Found? && IsReady(s', m.slot))
  {
    if s.nr <= 64 {
      NextExists(s, now);
      ScanReaches(s, s.current, 64, now, 0);
    } else {
      ScanAbove(s, s.current, 64, now);
    }
  }

  /** Three tasks, of which one has been replaced 62 times while the last one runs: the
      next call of get_next_task leaves the table. */
  lemma DriftWitness(s: Sched, now: nat)
    requires s == Sched([Some(Task(0, Ready, 0)), Some(Task(1, Ready, 0)), Some(Task(2, Ready, 0))] + seq(61, _ => None), 3, 2)
    ensures Ok(s) && Ok(Churn(s, 62)) && GetNext(Churn(s, 62), now).1 == Outside
  {
    CountDrifts(s, 62);
    ChurnLeavesCurrent(s, 62);
    var t := Churn(s, 62);
    assert forall j :: 2 < j < 64 ==> t.tasks[j] == s.tasks[j] == None;
    ScanStaysInside(t, now);
  }

  lemma {:induction false} ChurnLeavesCurrent(s: Sched, rounds: nat)
    requires |s.tasks| == 64
    ensures Churn(s, rounds).current == s.current
  {
    if rounds > 0 {
      ChurnLeavesCurrent(s, rounds - 1);
    }
  }

  // ---------------------------------------------------------------- bounded waiting

  /** The scan stays inside the table. */
  predicate Inside(s: Sched, now: nat)
    requires |s.tasks| == 64
  {
    s.nr <= 64 || (s.current < 64 && exists j :: s.current < j < 64 && Runnable(s, j, now))
  }

  /** _schedule: the next task runs. */
  function Schedule(s: Sched, now: nat): Sched
    requires |s.tasks| == 64 && Inside(s, now)
  {
    var (s', m) := GetNext(s, now);
    if m.Found? then s'.(current := m.slot) else s'
  }

  lemma ScheduleOk(s: Sched, now: nat)
    requires Ok(s) && Inside(s, now)
    ensures var (s', m) := GetNext(s, now);
            m.Found? && Ok(s') && IsReady(s', m.slot) && Ok(Schedule(s, now))
  {
    ScanStaysInside(s, now);
  }

  /** A call of _schedule: the table it finds, and the time. */
  datatype Call = Call(before: Sched, now: nat)

  /** Successive calls between which the other tasks change as they like, except
      that nr does not grow; t stays ready. */
  ghost predicate Waiting(calls: seq<Call>, t: nat) {
    && (forall k :: 0 <= k < |calls| ==>
          Ok(calls[k].before) && calls[k].before.nr <= 64 && IsReady(calls[k].before, t))
    && (forall k :: 0 < k < |calls| ==>
          var after := Schedule(calls[k - 1].before, calls[k - 1].now);
          calls[k].before.current == after.current && calls[k].before.nr <= after.nr)
  }

  lemma ScheduleCloser(s: Sched, now: nat, t: nat)
    requires Ok(s) && s.nr <= 64 && IsReady(s, t)
    ensures var s' := Schedule(s, now);
            Ok(s') && s'.nr <= s.nr && IsReady(s', t)
            && (s'.current == t || Distance(s'.current, t, s'.nr) < Distance(s.current, t, s.nr))
  {
    ScanReaches(s, s.current, 64, now, t);
  }

  lemma DistanceShrinks(c: nat, t: nat, nr: nat, nr': nat)
    requires t < nr' <= nr
    ensures Distance(c, t, nr') <= Distance(c, t, nr)
  {
  }

  /** Bounded waiting: a task that stays ready runs within nr calls of _schedule,
      whatever the other tasks do. */
  lemma {:induction false} RunsWithin(calls: seq<Call>, t: nat)
    requires calls != [] && Waiting(calls, t)
    requires |calls| >= Distance(calls[0].before.current, t, calls[0].before.nr)
    ensures exists k :: 0 <= k < |calls| && k < Distance(calls[0].before.current, t, calls[0].before.nr)
              && Schedule(calls[k].before, calls[k].now).current == t
    decreases |calls|
  {
    var s, now := calls[0].before, calls[0].now;
    var s' := Schedule(s, now);
    ScheduleCloser(s, now, t);
    if s'.current != t {
      var rest := calls[1..];
      assert rest[0].before.current == s'.current && rest[0].before.nr <= s'.nr;
      DistanceShrinks(s'.current, t, s'.nr, rest[0].before.nr);
      forall k | 0 < k < |rest|
        ensures rest[k].before.current == Schedule(rest[k - 1].before, rest[k - 1].now).current
        ensures rest[k].before.nr <= Schedule(rest[k - 1].before, rest[k - 1].now).nr
      {
        assert rest[k] == calls[k + 1] && rest[k - 1] == calls[k + 1 - 1];
      }
      RunsWithin(rest, t);
      var k :| 0 <= k < |rest| && k < Distance(rest[0].before.current, t, rest[0].before.nr)
               && Schedule(rest[k].before, rest[k].now).current == t;
      assert calls[k + 1] == rest[k];
    }
  }

  // ---------------------------------------------------------------- runs

  datatype Event =
    | AddTask(state: TaskState)
    | RemoveTask(pid: nat)
    | Change(pid: nat, state: TaskState)   // block, wake, sleep: never the init task
    | Reschedule(now: nat)

  predicate Enabled(s: Sched, e: Event) {
    && |s.tasks| == 64
    && match e
       case AddTask(_) => true
       case RemoveTask(pid) => pid < 64
       case Change(pid, _) => 0 < pid < 64 && s.tasks[pid].Some?
       case Reschedule(now) => Inside(s, now)
  }

  function Apply(s: Sched, e: Event): Sched
    requires Enabled(s, e)
  {
    match e
    case AddTask(state) => Add(s, state).0
    case RemoveTask(pid) => Remove(s, pid)
    case Change(pid, state) => SetState(s, pid, state)
    case Reschedule(now) => Schedule(s, now)
  }

  predicate ValidRun(s: Sched, es: seq<Event>)
    decreases |es|
  {
    es == [] || (Enabled(s, es[0]) && ValidRun(Apply(s, es[0]), es[1..]))
  }

  function Run(s: Sched, es: seq<Event>): Sched
    requires ValidRun(s, es)
    decreases |es|
  {
    if es == [] then s else Run(Apply(s, es[0]), es[1..])
  }

  /** After any adds, removals, state changes and reschedules every occupied slot
      lies below nr and holds the task of its own pid, and slot 0 is ready. */
  lemma {:induction false} RunOk(s: Sched, es: seq<Event>)
    requires Ok(s) && ValidRun(s, es)
    ensures Ok(Run(s, es))
    decreases |es|
  {
    if es != [] {
      match es[0] {
        case AddTask(state) => AddOk(s, state);
        case RemoveTask(pid) => RemoveOk(s, pid);
        case Change(pid, state) => SetStateOk(s, pid, state);
        case Reschedule(now) => ScheduleOk(s, now);
      }
      RunOk(Apply(s, es[0]), es[1..]);
    }
  }

  // ---------------------------------------------------------------- the scheduler

  class RoundRobin {
    var tasks: seq<Option<Task>>
    var nr: nat
    var current: nat

    ghost function Value(): Sched
      reads this
    {
      Sched(tasks, nr, current)
    }

    constructor ()
      ensures Value() == INITIAL && Ok(Value())
    {
      tasks, nr, current := [Some(Task(0, Ready, 0))] + seq(63, _ => None), 1, 0;
    }

    /** add_task */
    method AddTask(state: TaskState) returns (pid: nat)
      requires Ok(Value())
      modifies this
      ensures Ok(Value()) && (Value(), pid) == Add(old(Value()), state)
    {
      AddOk(Value(), state);
      var i := 1;
      while i < 64 && tasks[i].Some?
        invariant 1 <= i <= 64 && FreeSlot(tasks, i) == FreeSlot(tasks, 1)
      {
        i := i + 1;
      }
      if i >= 64 {
        return 0;
      }
      tasks := tasks[i := Some(Task(i, state, 0))];
      nr := nr + 1;
      pid := i;
    }

    /** remove_task */
    method RemoveTask(pid: nat)
      requires Ok(Value()) && pid < 64 && tasks[pid].Some?
      modifies this`tasks, this`nr
      ensures Ok(Value()) && Value() == Remove(old(Value()), pid)
    {
      RemoveOk(Value(), pid);
      if pid == 0 {
        return;
      }
      var i := 0;
      while i < nr
        invariant 0 <= i <= pid && i <= nr && Value() == old(Value())
      {
        if tasks[i].Some? && tasks[i].value.pid == pid {
          tasks := tasks[i := None];
          if i == nr - 1 {
            nr := nr - 1;
          }
          return;
        }
        i := i + 1;
      }
    }

    /** The switch of get_next_task. */
    method VisitSlot(slot: nat, now: nat) returns (found: bool)
      requires Ok(Value()) && slot < 64
      modifies this`tasks, this`nr
      ensures Ok(Value()) && nr <= old(nr) && (Value(), found) == Visit(old(Value()), slot, now)
    {
      VisitOk(Value(), slot, now);
      if tasks[slot].None? {
        return false;
      }
      var task := tasks[slot].value;
      match task.state
      case Ready => return true;
      case Sleeping =>
        if Asleep(task.wake, now) {
          return false;
        }
        tasks := tasks[slot := Some(task.(state := Ready))];
        return true;
      case Terminated =>
        RemoveTask(slot);
        return false;
      case _ => return false;
    }

    /** get_next_task: at most one turn around the table. */
    method GetNextTask(now: nat) returns (n: nat)
      requires Ok(Value()) && GetNext(Value(), now).1 != Outside
      modifies this`tasks, this`nr
      ensures Ok(Value()) && n <= 64
      ensures (Value(), if n == 64 then NoTask else Found(n)) == GetNext(old(Value()), now)
    {
      var slot: nat, left := current, 64;
      while left > 0
        invariant 0 <= left <= 64 && Ok(Value())
        invariant Scan(Value(), slot, left, now) == GetNext(old(Value()), now)
      {
        slot := slot + 1;
        if slot >= nr {
          slot := 0;
        }
        left := left - 1;
        var found := VisitSlot(slot, now);
        if found {
          return slot;
        }
      }
      n := 64;
    }

    /** _schedule: its retry loop is never needed. */
    method Reschedule(now: nat)
      requires Ok(Value()) && Inside(Value(), now)
      modifies this
      ensures Ok(Value()) && Value() == Schedule(old(Value()), now)
    {
      ScheduleOk(Value(), now);
      var next := GetNextTask(now);
      if tasks[next].None? || current == next {
        return;
      }
      current := next;
    }

    /** task_us_sleep, up to its reschedule. */
    method StartSleep(us: nat, now: nat)
      requires Ok(Value()) && tasks[current].Some? && us < 0x1_0000_0000 && now < 0x1_0000_0000
      modifies this`tasks
      ensures Ok(Value())
      ensures us == 0 || current == 0 ==> Value() == old(Value())
      ensures us > 0 && current > 0 ==>
                tasks == old(tasks)[current := Some(Task(current, Sleeping, (now + us) % 0x1_0000_0000))]
    {
      if us > 0 {
        if current == 0 {
          return;
        }
        tasks := tasks[current := Some(tasks[current].value.(state := Sleeping, wake := (now + us) % 0x1_0000_0000))];
      }
    }
  }
}
