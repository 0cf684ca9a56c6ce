// The join of parallelize_indexed_loop in tools/z3-bench/z3-bench.cpp: one task
// per block releases a counting latch that the caller waits on.  Steps of the
// caller and of the tasks interleave freely; wait and notify_all on the counter
// are as in section 31.6 of ISO C++20 ([atomics.wait]): a notification has to
// unblock the caller only if the decrement before it came after the value that
// the caller saw when it blocked, and may leave it asleep otherwise.
module Latch {
  import opened IndexBlocks

  // A task is not yet detached, in the queue, inside the loop body, past the
  // body, between its decrement to left and its notification, or finished.
  datatype Task = Idle | Queued | Running | Releasing | Notifying(left: int) | Finished

  // The caller: launching tasks; testing a loaded count; about to compare inside
  // the atomic wait; blocked there; about to load again; returned.
  datatype Caller =
    | Launching(next: nat)
    | Test(cur: int)
    | Waiting(cur: int)
    | Blocked(cur: int)
    | Reload
    | Returned

  // begun records the block numbers handed to the loop body, in order.
  datatype State = State(cnt: int, caller: Caller, tasks: seq<Task>, begun: seq<nat>)

  datatype Event =
    | Launch
    | Load
    | Decide
    | Compare
    | Spurious
    | Begin(task: nat)
    | EndBody(task: nat)
    | Release(task: nat)
    | Notify(task: nat, wakes: bool)

  function Init(n: nat): State {
    State(n, Launching(0), seq(n, _ => Idle), [])
  }

  // The caller blocked on a value that is older than the one this task left.
  predicate Eligible(caller: Caller, t: Task) {
    caller.Blocked? && t.Notifying? && t.left < caller.cur
  }

  predicate Enabled(s: State, e: Event) {
    match e
    case Launch => s.caller.Launching? && s.caller.next < |s.tasks|
    case Load => (s.caller.Launching? && s.caller.next == |s.tasks|) || s.caller.Reload?
    case Decide => s.caller.Test?
    case Compare => s.caller.Waiting?
    case Spurious => s.caller.Blocked?
    case Begin(i) => i < |s.tasks| && s.tasks[i] == Queued
    case EndBody(i) => i < |s.tasks| && s.tasks[i] == Running
    case Release(i) => i < |s.tasks| && s.tasks[i] == Releasing
    case Notify(i, wakes) =>
      i < |s.tasks| && s.tasks[i].Notifying? && (Eligible(s.caller, s.tasks[i]) ==> wakes)
  }

  function Apply(s: State, e: Event): State
    requires Enabled(s, e)
  {
    match e
    case Launch => s.(caller := Launching(s.caller.next + 1), tasks := s.tasks[s.caller.next := Queued])
    case Load => s.(caller := Test(s.cnt))
    case Decide => s.(caller := if s.caller.cur == 0 then Returned else Waiting(s.caller.cur))
    case Compare => s.(caller := if s.cnt == s.caller.cur then Blocked(s.caller.cur) else Reload)
    case Spurious => s.(caller := Waiting(s.caller.cur))
    case Begin(i) => s.(tasks := s.tasks[i := Running], begun := s.begun + [i])
    case EndBody(i) => s.(tasks := s.tasks[i := Releasing])
    case Release(i) => s.(cnt := s.cnt - 1, tasks := s.tasks[i := Notifying(s.cnt - 1)])
    case Notify(i, wakes) => s.(caller := if wakes && s.caller.Blocked? then Waiting(s.caller.cur) else s.caller,
                                tasks := s.tasks[i := Finished])
  }

  ghost predicate IsRun(n: nat, events: seq<Event>)
    decreases |events|, 0
  {
    events == [] ||
    (IsRun(n, events[..|events| - 1]) && Enabled(After(n, events[..|events| - 1]), events[|events| - 1]))
  }

  ghost function After(n: nat, events: seq<Event>): State
    requires IsRun(n, events)
    decreases |events|, 1
  {
    if events == [] then Init(n)
    else Apply(After(n, events[..|events| - 1]), events[|events| - 1])
  }

  // ---------- Counting tasks ----------

  function Left(t: Task): nat {
    match t
    case Idle => 5 case Queued => 4 case Running => 3 case Releasing => 2 case Notifying(_) => 1 case Finished => 0
  }

  predicate Unreleased(t: Task) {
    Left(t) >= 2
  }

  function CountUnreleased(ts: seq<Task>): nat {
    if ts == [] then 0
    else CountUnreleased(ts[..|ts| - 1]) + (if Unreleased(ts[|ts| - 1]) then 1 else 0)
  }

  function TotalLeft(ts: seq<Task>): nat {
    if ts == [] then 0 else TotalLeft(ts[..|ts| - 1]) + Left(ts[|ts| - 1])
  }

  lemma {:induction false} UpdateCounts(ts: seq<Task>, i: nat, t: Task)
    requires i < |ts|
    ensures CountUnreleased(ts[i := t]) - (if Unreleased(t) then 1 else 0)
         == CountUnreleased(ts) - (if Unreleased(ts[i]) then 1 else 0)
    ensures TotalLeft(ts[i := t]) - Left(t) == TotalLeft(ts) - Left(ts[i])
  {
    var n := |ts| - 1;
    if i < n {
      assert ts[i := t][..n] == ts[..n][i := t];
      UpdateCounts(ts[..n], i, t);
    } else {
      assert ts[i := t][..n] == ts[..n];
    }
  }

  lemma {:induction false} InitCounts(n: nat)
    ensures CountUnreleased(Init(n).tasks) == n && TotalLeft(Init(n).tasks) == 5 * n
  {
    if n > 0 {
      assert Init(n).tasks[..n - 1] == Init(n - 1).tasks;
      InitCounts(n - 1);
    }
  }

  lemma {:induction false} SomeUnreleased(ts: seq<Task>) returns (i: nat)
    requires CountUnreleased(ts) > 0
    ensures i < |ts| && Unreleased(ts[i])
  {
    var n := |ts| - 1;
    if Unreleased(ts[n]) {
      i := n;
    } else {
      i := SomeUnreleased(ts[..n]);
    }
  }

  lemma {:induction false} NoneUnreleased(ts: seq<Task>)
    requires CountUnreleased(ts) == 0
    ensures forall i :: 0 <= i < |ts| ==> !Unreleased(ts[i])
  {
    if ts != [] {
      NoneUnreleased(ts[..|ts| - 1]);
    }
  }

  // ---------- The invariant ----------

  // Some task is about to issue a notification that must unblock the caller.
  ghost predicate WakeupDue(s: State) {
    exists i :: 0 <= i < |s.tasks| && Eligible(s.caller, s.tasks[i])
  }

  // What the caller knows about the counter; for a blocked caller whose value is
  // outdated, a notification that must unblock it is due.
  ghost predicate CallerOk(s: State) {
    match s.caller
    case Launching(k) =>
      k <= |s.tasks| && forall i :: 0 <= i < |s.tasks| ==> (s.tasks[i] == Idle <==> i >= k)
    case Test(c) => c >= s.cnt
    case Waiting(c) => c >= s.cnt && c > 0
    case Blocked(c) => c >= s.cnt && c > 0 && (s.cnt != c ==> WakeupDue(s))
    case Reload => true
    case Returned => s.cnt == 0
  }

  ghost predicate Inv(s: State) {
    && s.cnt == CountUnreleased(s.tasks)
    && CallerOk(s)
    && (!s.caller.Launching? ==> forall i :: 0 <= i < |s.tasks| ==> s.tasks[i] != Idle)
    && (forall i :: 0 <= i < |s.tasks| && s.tasks[i].Notifying? ==> s.tasks[i].left >= s.cnt)
    && BegunOk(s)
  }

  // The task that a step changes, and what it becomes.
  function Moved(s: State, e: Event): nat
    requires Enabled(s, e) && e != Load && e != Decide && e != Compare && e != Spurious
  {
    if e == Launch then s.caller.next else e.task
  }

  lemma TaskStep(s: State, e: Event)
    requires Enabled(s, e) && e != Load && e != Decide && e != Compare && e != Spurious
    ensures var i := Moved(s, e);
            && i < |s.tasks|
            && Apply(s, e).tasks == s.tasks[i := Apply(s, e).tasks[i]]
            && Left(Apply(s, e).tasks[i]) < 5
            && (s.caller.Launching? && CallerOk(s) ==> Left(Apply(s, e).tasks[i]) + 1 == Left(s.tasks[i]))
            && (e != Launch ==> Left(Apply(s, e).tasks[i]) + 1 == Left(s.tasks[i]))
            && CountUnreleased(Apply(s, e).tasks)
               == CountUnreleased(s.tasks) - (if Unreleased(s.tasks[i]) then 1 else 0)
                  + (if Unreleased(Apply(s, e).tasks[i]) then 1 else 0)
            && TotalLeft(Apply(s, e).tasks) == TotalLeft(s.tasks) - Left(s.tasks[i]) + Left(Apply(s, e).tasks[i])
  {
    UpdateCounts(s.tasks, Moved(s, e), Apply(s, e).tasks[Moved(s, e)]);
  }

  ghost predicate BegunOk(s: State) {
    && (forall i :: 0 <= i < |s.tasks| ==>
          multiset(s.begun)[i] == if Left(s.tasks[i]) >= 4 then 0 else 1)
    && (forall i :: i in s.begun ==> i < |s.tasks|)
  }

  lemma ApplyKeepsBegun(s: State, e: Event)
    requires CallerOk(s) && BegunOk(s) && Enabled(s, e)
    ensures BegunOk(Apply(s, e))
  {
  }

  lemma ApplyKeepsCaller(s: State, e: Event)
    requires Inv(s) && Enabled(s, e)
    ensures CallerOk(Apply(s, e))
  {
    match e
    case Launch =>
    case Load =>
    case Decide =>
    case Compare =>
    case Spurious =>
    case Begin(i) => KeepsWakeupDue(s, e);
    case EndBody(i) => KeepsWakeupDue(s, e);
    case Release(i) =>
      assert Apply(s, e).tasks[i] == Notifying(s.cnt - 1);
      if s.cnt == 0 {
        NoneUnreleased(s.tasks);
      }
    case Notify(i, wakes) => if Apply(s, e).caller == s.caller { KeepsWakeupDue(s, e); }
  }

  lemma ApplyKeepsInv(s: State, e: Event)
    requires Inv(s) && Enabled(s, e)
    ensures Inv(Apply(s, e)) && |Apply(s, e).tasks| == |s.tasks|
  {
    ApplyKeepsCaller(s, e);
    ApplyKeepsBegun(s, e);
    if e != Load && e != Decide && e != Compare && e != Spurious {
      TaskStep(s, e);
    }
  }

  // Steps of a task whose own notification need not wake the caller.
  lemma KeepsWakeupDue(s: State, e: Event)
    requires Enabled(s, e) && (e.Begin? || e.EndBody? || e.Notify?)
    requires Apply(s, e).caller == s.caller && !Eligible(s.caller, s.tasks[e.task])
    ensures WakeupDue(s) ==> WakeupDue(Apply(s, e))
  {
    if j :| 0 <= j < |s.tasks| && Eligible(s.caller, s.tasks[j]) {
      assert Eligible(s.caller, Apply(s, e).tasks[j]);
    }
  }

  lemma {:induction false} RunKeepsInv(n: nat, events: seq<Event>)
    requires IsRun(n, events)
    ensures Inv(After(n, events)) && |After(n, events).tasks| == n
    decreases |events|
  {
    if events == [] {
      InitCounts(n);
    } else {
      RunKeepsInv(n, events[..|events| - 1]);
      ApplyKeepsInv(After(n, events[..|events| - 1]), events[|events| - 1]);
    }
  }

  // In every interleaving the counter is the number of tasks that have not yet
  // released; a decrement never takes it below zero; and the caller returns only
  // when every task has released.
  lemma CounterCountsUnreleased(n: nat, events: seq<Event>)
    requires IsRun(n, events)
    ensures var s := After(n, events);
            && s.cnt == CountUnreleased(s.tasks)
            && (forall i :: Enabled(s, Release(i)) ==> s.cnt > 0)
            && |s.tasks| == n
            && (s.caller == Returned ==>
                  forall i :: 0 <= i < |s.tasks| ==> s.tasks[i].Notifying? || s.tasks[i] == Finished)
  {
    var s := After(n, events);
    RunKeepsInv(n, events);
    if s.cnt == 0 {
      NoneUnreleased(s.tasks);
    }
  }

  // ---------- No lost wakeup ----------

  lemma ProgressStep(s: State) returns (e: Event)
    requires Inv(s) && s.caller != Returned
    ensures Enabled(s, e) && e != Spurious
  {
    match s.caller
    case Launching(k) => e := if k < |s.tasks| then Launch else Load;
    case Test(_) => e := Decide;
    case Waiting(_) => e := Compare;
    case Reload => e := Load;
    case Blocked(c) =>
      if s.cnt != c {
        var i :| 0 <= i < |s.tasks| && Eligible(s.caller, s.tasks[i]);
        e := Notify(i, true);
      } else {
        var i := SomeUnreleased(s.tasks);
        e := match s.tasks[i]
          case Queued => Begin(i)
          case Running => EndBody(i)
          case _ => Release(i);
      }
  }

  // As long as the caller has not returned, some step other than a spurious
  // wakeup can be taken; and a task is about to issue a notification that must
  // unblock the caller exactly when it is blocked on an outdated count.
  lemma NoLostWakeup(n: nat, events: seq<Event>)
    requires IsRun(n, events)
    ensures var s := After(n, events);
            && (s.caller != Returned ==> exists e :: Enabled(s, e) && e != Spurious)
            && (s.caller.Blocked? ==> (s.cnt != s.caller.cur <==> WakeupDue(s)))
  {
    RunKeepsInv(n, events);
    var s := After(n, events);
    if s.caller != Returned {
      var e := ProgressStep(s);
    }
  }

  // Nobody waits for anybody but in the atomic wait: a task that is queued or under
  // way can always take its next step, and so can the caller unless it is blocked,
  // when it may wake up spuriously, or has returned.
  lemma EveryoneCanStep(s: State, i: nat)
    requires Inv(s)
    ensures i < |s.tasks| ==>
              match s.tasks[i]
              case Idle => s.caller.Launching? && s.caller.next <= i
              case Queued => Enabled(s, Begin(i))
              case Running => Enabled(s, EndBody(i))
              case Releasing => Enabled(s, Release(i))
              case Notifying(_) => Enabled(s, Notify(i, true))
              case Finished => true
    ensures match s.caller
            case Launching(k) => if k < |s.tasks| then Enabled(s, Launch) else Enabled(s, Load)
            case Test(_) => Enabled(s, Decide)
            case Waiting(_) => Enabled(s, Compare)
            case Blocked(c) => Enabled(s, Spurious) && Apply(s, Spurious) == s.(caller := Waiting(c))
            case Reload => Enabled(s, Load)
            case Returned => true
  {
  }

  // A notification may leave the caller asleep: the first of two tasks decrements
  // before the caller loads the count, and notifies after the caller has blocked.
  lemma StaleNotificationMaySleep()
    ensures IsRun(2, StaleRun())
    ensures After(2, StaleRun()) == State(1, Blocked(1), [Finished, Queued], [0])
  {
    var all := StaleRun();
    StaleRunReleases();
    NextOfRun(2, all, 5);
    NextOfRun(2, all, 6);
    NextOfRun(2, all, 7);
    NextOfRun(2, all, 8);
    assert all[..9] == all;
  }

  lemma StaleRunReleases()
    ensures IsRun(2, StaleRun()[..5])
    ensures After(2, StaleRun()[..5]) == State(1, Launching(2), [Notifying(1), Queued], [0])
  {
    var all := StaleRun();
    StaleRunLaunches();
    NextOfRun(2, all, 2);
    NextOfRun(2, all, 3);
    NextOfRun(2, all, 4);
  }

  lemma StaleRunLaunches()
    ensures IsRun(2, StaleRun()[..2])
    ensures After(2, StaleRun()[..2]) == State(2, Launching(2), [Queued, Queued], [])
  {
    var all := StaleRun();
    assert Init(2).tasks == [Idle, Idle];
    NextOfRun(2, all, 0);
    NextOfRun(2, all, 1);
  }

  function StaleRun(): seq<Event> {
    [Launch, Launch, Begin(0), EndBody(0), Release(0), Load, Decide, Compare, Notify(0, false)]
  }

  lemma NextOfRun(n: nat, events: seq<Event>, k: nat)
    requires k < |events| && IsRun(n, events[..k]) && Enabled(After(n, events[..k]), events[k])
    ensures IsRun(n, events[..k + 1])
    ensures After(n, events[..k + 1]) == Apply(After(n, events[..k]), events[k])
  {
    assert events[..k + 1][..k] == events[..k];
  }

  // ---------- Every run ends ----------

  function Rank(s: State): nat {
    match s.caller
    case Launching(_) => 3
    case Test(c) => if c == s.cnt then 2 else 5
    case Waiting(c) => if c == s.cnt then 1 else 4
    case Blocked(_) => 0
    case Reload => 3
    case Returned => 0
  }

  function Measure(s: State): nat {
    6 * TotalLeft(s.tasks) + Rank(s)
  }

  lemma StepDecreases(s: State, e: Event)
    requires Inv(s) && Enabled(s, e)
    ensures e != Spurious ==> Measure(Apply(s, e)) < Measure(s)
    ensures e == Spurious ==> Measure(Apply(s, e)) <= Measure(s) + 4
  {
    if e != Load && e != Decide && e != Compare && e != Spurious {
      TaskStep(s, e);
    }
  }

  function SpuriousCount(events: seq<Event>): nat {
    if events == [] then 0
    else SpuriousCount(events[..|events| - 1]) + (if events[|events| - 1] == Spurious then 1 else 0)
  }

  // A run of n tasks with k spurious wakeups has at most 30 n + 3 + 5 k steps.
  lemma {:induction false} RunsAreBounded(n: nat, events: seq<Event>)
    requires IsRun(n, events)
    ensures |events| + Measure(After(n, events)) <= 30 * n + 3 + 5 * SpuriousCount(events)
    decreases |events|
  {
    if events == [] {
      InitCounts(n);
    } else {
      var init := events[..|events| - 1];
      RunsAreBounded(n, init);
      RunKeepsInv(n, init);
      StepDecreases(After(n, init), events[|events| - 1]);
    }
  }

  // A run that cannot be continued without a spurious wakeup has returned from
  // wait, and all its tasks are finished.
  lemma MaximalRunReturns(n: nat, events: seq<Event>)
    requires IsRun(n, events)
    requires forall e :: Enabled(After(n, events), e) ==> e == Spurious
    ensures After(n, events).caller == Returned
    ensures |After(n, events).tasks| == n
    ensures forall i :: 0 <= i < |After(n, events).tasks| ==> After(n, events).tasks[i] == Finished
  {
    RunKeepsInv(n, events);
    var s := After(n, events);
    if s.caller != Returned {
      var e := ProgressStep(s);
    }
    CounterCountsUnreleased(n, events);
    forall i | 0 <= i < |s.tasks| ensures s.tasks[i] == Finished {
      assert !Enabled(s, Notify(i, true));
    }
  }

  // ---------- Every index exactly once ----------

  // How many of the begun blocks contain the index x.
  function Handed(d: Division, begun: seq<nat>, x: int): nat {
    if begun == [] then 0
    else
      var b := begun[|begun| - 1];
      Handed(d, begun[..|begun| - 1], x) + (if b < d.numBlocks && d.Start(b) <= x < d.End(b) then 1 else 0)
  }

  lemma {:induction false} HandedInBlock(d: Division, begun: seq<nat>, x: int, b: nat)
    requires d.Valid() && InBlock(d, x, b)
    ensures Handed(d, begun, x) == multiset(begun)[b]
  {
    if begun != [] {
      var last := begun[|begun| - 1];
      assert begun == begun[..|begun| - 1] + [last];
      HandedInBlock(d, begun[..|begun| - 1], x, b);
      BlocksPartition(d, x);
      assert InBlock(d, x, last) ==> last == b;
    }
  }

  lemma {:induction false} HandedNowhere(d: Division, begun: seq<nat>, x: int)
    requires forall b: nat :: !InBlock(d, x, b)
    ensures Handed(d, begun, x) == 0
  {
    if begun != [] {
      HandedNowhere(d, begun[..|begun| - 1], x);
      assert !InBlock(d, x, begun[|begun| - 1]);
    }
  }

  // When parallelize_indexed_loop returns, every index of the range has been
  // handed to the loop body exactly once, no other index at all, and every body
  // has finished.  Before that, no index has been handed out twice.
  lemma EveryIndexExactlyOnce(d: Division, events: seq<Event>, x: int)
    requires d.Valid() && IsRun(d.numBlocks, events)
    ensures var s := After(d.numBlocks, events);
            && Handed(d, s.begun, x) <= 1
            && (!(d.first <= x < d.afterLast) ==> Handed(d, s.begun, x) == 0)
            && (s.caller == Returned ==>
                  && (d.first <= x < d.afterLast ==> Handed(d, s.begun, x) == 1)
                  && |s.tasks| == d.numBlocks
                  && forall i :: 0 <= i < |s.tasks| ==> s.tasks[i].Notifying? || s.tasks[i] == Finished)
  {
    var s := After(d.numBlocks, events);
    RunKeepsInv(d.numBlocks, events);
    CounterCountsUnreleased(d.numBlocks, events);
    BlocksPartition(d, x);
    if d.first <= x < d.afterLast {
      var b: nat :| InBlock(d, x, b);
      HandedInBlock(d, s.begun, x, b);
    } else {
      HandedNowhere(d, s.begun, x);
    }
  }
}
