/**
 The SCBA scheduler: kernel/src/task.rs (per-task budget accounting) and kernel/src/scheduler.rs
 (round-robin switching). Counters are unbounded here; `Accounted` bounds each of them by the
 number of calls or by a budget, so that none reaches 2^64 before the calls do.
 */
module Scheduler {
  import opened Bytes

  datatype TaskState = Ready | Running

  // ---------------------------------------------------------------------------------------
  // Values: what the objects below hold
  // ---------------------------------------------------------------------------------------

  datatype Account = Account(budgetMax: u64, consumed: nat, fences: nat, throttled: nat, epoch: nat)

  datatype TaskView = TaskView(state: TaskState, rsp: nat, scba: Account)

  datatype View = View(tasks: seq<TaskView>, current: nat, totalFences: nat, totalSwitches: nat)

  /** The switch to perform: where the old stack pointer is saved, the new one, and whether to fence. */
  datatype Switch = Switch(oldTask: nat, newRsp: nat, needFence: bool)

  /** One more tick of the current epoch. */
  function Ticked(a: Account): Account { a.(consumed := a.consumed + 1) }

  predicate Exhausted(a: Account) { a.consumed >= a.budgetMax }

  function NewEpoch(a: Account): Account
  {
    a.(consumed := 0, fences := a.fences + 1, epoch := a.epoch + 1)
  }

  /** A tick, and a new epoch if it exhausted the budget. */
  function Charged(a: Account): Account
  {
    if Exhausted(Ticked(a)) then NewEpoch(Ticked(a)) else Ticked(a)
  }

  /** The next place in a ring of `n`. */
  function Next(i: nat, n: nat): (r: nat)
    requires i < n
    ensures r < n
  {
    if i + 1 == n then 0 else i + 1
  }

  /** The first ready task at or after `i` in ring order, within `left` steps. */
  function FirstReady(tasks: seq<TaskView>, i: nat, left: nat): (r: nat)
    requires i < |tasks|
    ensures r < |tasks|
    decreases left
  {
    if left == 0 || tasks[i].state == Ready then i else FirstReady(tasks, Next(i, |tasks|), left - 1)
  }

  /** The place `d` steps on from `i` in a ring of `n`. */
  function Along(i: nat, d: nat, n: nat): int { if i + d < n then i + d else i + d - n }

  /** The search stops at the first ready task it comes to, or at its last step. */
  lemma {:induction false} FirstInRing(tasks: seq<TaskView>, i: nat, left: nat) returns (d: nat)
    requires i < |tasks| && left < |tasks|
    ensures d <= left && FirstReady(tasks, i, left) == Along(i, d, |tasks|)
    ensures d < left ==> tasks[Along(i, d, |tasks|)].state == Ready
    ensures forall e :: 0 <= e < d ==> tasks[Along(i, e, |tasks|)].state != Ready
    decreases left
  {
    d := 0;
    if left > 0 && tasks[i].state != Ready {
      var n, next := |tasks|, Next(i, |tasks|);
      var d' := FirstInRing(tasks, next, left - 1);
      d := d' + 1;
      assert Along(i, d, n) == Along(next, d', n);
      forall e | 0 <= e < d
        ensures tasks[Along(i, e, n)].state != Ready
      {
        assert e == 0 || Along(i, e, n) == Along(next, e - 1, n);
      }
    }
  }

  /** The tasks with the current one charged and ready again. */
  function Yielded(v: View): (ts: seq<TaskView>)
    requires v.current < |v.tasks|
    ensures |ts| == |v.tasks|
  {
    var t := v.tasks[v.current];
    v.tasks[v.current := t.(state := Ready, scba := Charged(t.scba))]
  }

  predicate FenceDue(v: View)
    requires v.current < |v.tasks|
  {
    Exhausted(Ticked(v.tasks[v.current].scba))
  }

  /** What the current task's turn ends in, once `next` has been chosen. */
  function Chosen(v: View, ts: seq<TaskView>, next: nat): (View, Option<Switch>)
    requires v.current < |v.tasks| && |ts| == |v.tasks| && next < |ts|
  {
    var fences := v.totalFences + if FenceDue(v) then 1 else 0;
    if next == v.current then (View(ts, v.current, fences, v.totalSwitches), None)
    else (View(ts[next := ts[next].(state := Running)], next, fences, v.totalSwitches + 1),
          Some(Switch(v.current, ts[next].rsp, FenceDue(v))))
  }

  /** One call of `prepare_switch`: the new state, and the switch if there is one. */
  function Prepared(v: View): (r: (View, Option<Switch>))
    requires |v.tasks| >= 2 ==> v.current < |v.tasks|
    ensures |r.0.tasks| == |v.tasks| && (|v.tasks| >= 2 ==> r.0.current < |v.tasks|)
    ensures r.1.Some? ==> r.1.value.oldTask < |v.tasks|
  {
    if |v.tasks| < 2 then (v, None)
    else var ts := Yielded(v); Chosen(v, ts, FirstReady(ts, Next(v.current, |ts|), |ts| - 1))
  }

  /** The switch carried out: the stack pointer of the task switched away from is saved where the switch says. */
  function Performed(r: (View, Option<Switch>), saved: nat): (v: View)
    requires r.1.Some? ==> r.1.value.oldTask < |r.0.tasks|
    ensures |v.tasks| == |r.0.tasks| && v.current == r.0.current
  {
    match r.1
    case None => r.0
    case Some(s) => r.0.(tasks := r.0.tasks[s.oldTask := r.0.tasks[s.oldTask].(rsp := saved)])
  }

  // ---------------------------------------------------------------------------------------
  // Objects
  // ---------------------------------------------------------------------------------------

  class ScbaState {
    var budgetMax: u64
    var budgetConsumed: nat
    var fenceCount: nat
    var throttleCount: nat
    var epoch: nat

    ghost function Value(): Account
      reads this
    {
      Account(budgetMax, budgetConsumed, fenceCount, throttleCount, epoch)
    }

    constructor (budget: u64)
      ensures Value() == Account(budget, 0, 0, 0, 0)
    {
      budgetMax, budgetConsumed, fenceCount, throttleCount, epoch := budget, 0, 0, 0, 0;
    }

    method Tick() returns (exhausted: bool)
      modifies this
      ensures Value() == Ticked(old(Value())) && exhausted == Exhausted(Value())
      ensures budgetConsumed == old(budgetConsumed) + 1 && (exhausted <==> budgetConsumed >= budgetMax)
      ensures budgetMax == old(budgetMax) && fenceCount == old(fenceCount) && epoch == old(epoch)
    {
      budgetConsumed := budgetConsumed + 1;
      exhausted := budgetConsumed >= budgetMax;
    }

    method ResetEpoch()
      modifies this
      ensures Value() == NewEpoch(old(Value()))
      ensures budgetConsumed == 0 && fenceCount == old(fenceCount) + 1 && epoch == old(epoch) + 1
      ensures budgetMax == old(budgetMax) && throttleCount == old(throttleCount)
    {
      budgetConsumed := 0;
      fenceCount := fenceCount + 1;
      epoch := epoch + 1;
    }
  }

  class Task {
    const id: nat
    var state: TaskState
    var rsp: nat
    const scba: ScbaState

    ghost function Value(): TaskView
      reads this, scba
    {
      TaskView(state, rsp, scba.Value())
    }

    constructor WithBudget(id: nat, rsp: nat, budget: u64)
      ensures Value() == TaskView(Ready, rsp, Account(budget, 0, 0, 0, 0)) && fresh(scba)
    {
      this.id, this.state, this.rsp := id, Ready, rsp;
      this.scba := new ScbaState(budget);
    }

    constructor Idle(id: nat)
      ensures Value() == TaskView(Running, 0, Account(TWO_64 - 1, 0, 0, 0, 0)) && fresh(scba)
    {
      this.id, this.state, this.rsp := id, Running, 0;
      this.scba := new ScbaState(TWO_64 - 1);
    }
  }

  class Scheduler {
    var tasks: seq<Task>
    var current: nat
    var totalFences: nat
    var totalSwitches: nat

    /** No two entries share a task or its account. */
    ghost predicate Valid()
      reads this
    {
      && (forall i, j :: 0 <= i < j < |tasks| ==> tasks[i] != tasks[j] && tasks[i].scba != tasks[j].scba)
      && (current == 0 || current < |tasks|)
    }

    ghost function Accounts(): set<ScbaState>
      reads this
    {
      set t | t in tasks :: t.scba
    }

    ghost function Value(): View
      reads this, tasks, Accounts()
    {
      View(seq(|tasks|, i requires 0 <= i < |tasks| reads this, tasks, Accounts() => tasks[i].Value()),
           current, totalFences, totalSwitches)
    }

    constructor ()
      ensures Valid() && Value() == View([], 0, 0, 0)
    {
      tasks, current, totalFences, totalSwitches := [], 0, 0, 0;
    }

    method AddTask(task: Task)
      requires Valid() && task !in tasks && task.scba !in Accounts()
      modifies this`tasks
      ensures Valid() && tasks == old(tasks) + [task]
      ensures Value() == old(Value()).(tasks := old(Value()).tasks + [task.Value()])
    {
      tasks := tasks + [task];
    }

    /** Charge the running task; returns whether its budget is exhausted, with the new epoch begun. */
    method ChargeCurrent() returns (needFence: bool)
      requires Valid() && current < |tasks|
      modifies this`totalFences, tasks[current], tasks[current].scba
      ensures needFence == FenceDue(old(Value()))
      ensures tasks[current].state == Ready
      ensures Value() == old(Value()).(tasks := Yielded(old(Value())),
                                       totalFences := old(totalFences) + if needFence then 1 else 0)
    {
      var t := tasks[current];
      ghost var before := Value();
      needFence := t.scba.Tick();
      if needFence {
        t.scba.ResetEpoch();
        totalFences := totalFences + 1;
      }
      t.state := Ready;
      assert t.Value() == before.tasks[current].(state := Ready, scba := Charged(before.tasks[current].scba));
      forall i | 0 <= i < |tasks| && i != current
        ensures tasks[i].Value() == before.tasks[i]
      {
        assert tasks[i] != t && tasks[i].scba != t.scba;
      }
    }

    /** The scan for the next ready task, given up if it comes round to its start; it never does. */
    method FindReady() returns (found: Option<nat>)
      requires Valid() && |tasks| >= 2 && tasks[current].state == Ready
      ensures found == Some(FirstReady(Value().tasks, Next(current, |tasks|), |tasks| - 1))
      ensures tasks[found.value].state == Ready
    {
      found := None;
      ghost var ts := Value().tasks;
      var n := |tasks|;
      var next := (current + 1) % n;
      StepInRing(current, n);
      var start, wrapped := next, false;
      ghost var steps := 0;
      while !wrapped && tasks[next].state != Ready
        invariant steps < n && next == if current + 1 + steps < n then current + 1 + steps else current + 1 + steps - n
        invariant FirstReady(ts, next, n - 1 - steps) == FirstReady(ts, start, n - 1)
        invariant !wrapped
        decreases n - steps
      {
        assert ts[next].state == tasks[next].state;
        StepInRing(next, n);
        next := (next + 1) % n;
        steps := steps + 1;
        wrapped := next == start;
      }
      assert ts[next].state == tasks[next].state;
      assert FirstReady(ts, next, n - 1 - steps) == next;
      assert ts == Value().tasks;
      if !wrapped {
        found := Some(next);
      }
    }

    method HandOver(next: nat)
      requires Valid() && next < |tasks|
      modifies this`current, this`totalSwitches, tasks[next]
      ensures Valid()
      ensures var v := old(Value());
              Value() == View(v.tasks[next := v.tasks[next].(state := Running)],
                              next, v.totalFences, v.totalSwitches + 1)
    {
      ghost var v := Value();
      tasks[next].state := Running;
      current := next;
      totalSwitches := totalSwitches + 1;
      forall i | 0 <= i < |tasks| && i != next
        ensures tasks[i].Value() == v.tasks[i]
      {
        assert tasks[i] != tasks[next];
      }
    }

    method SwitchTo(next: nat, needFence: bool, ghost v: View) returns (r: Option<Switch>)
      requires Valid() && next < |tasks| && |v.tasks| == |tasks| && v.current == current < |tasks|
      requires Value() == View(Yielded(v), v.current, v.totalFences + if needFence then 1 else 0, v.totalSwitches)
      requires needFence == FenceDue(v)
      modifies this`current, this`totalSwitches, tasks[next]
      ensures Valid()
      ensures Value() == Chosen(v, Yielded(v), next).0 && r == Chosen(v, Yielded(v), next).1
    {
      r := None;
      if next != current {
        assert tasks[next].rsp == Value().tasks[next].rsp;
        r := Some(Switch(current, tasks[next].rsp, needFence));
        HandOver(next);
      }
    }

    method PrepareSwitch() returns (r: Option<Switch>)
      requires Valid()
      modifies this, tasks, Accounts()
      ensures Valid() && tasks == old(tasks)
      ensures Value() == Prepared(old(Value())).0 && r == Prepared(old(Value())).1
    {
      r := None;
      if |tasks| >= 2 {
        ghost var v := Value();
        var next, needFence := EndTurn();
        if next.Some? {
          r := SwitchTo(next.value, needFence, v);
        }
      }
    }

    /** Charge the running task and find the one to run next. */
    method EndTurn() returns (next: Option<nat>, needFence: bool)
      requires Valid() && |tasks| >= 2
      modifies this`totalFences, tasks[current], tasks[current].scba
      ensures var v := old(Value());
              && needFence == FenceDue(v)
              && next == Some(FirstReady(Yielded(v), Next(v.current, |v.tasks|), |v.tasks| - 1))
              && Value() == View(Yielded(v), v.current, v.totalFences + (if needFence then 1 else 0), v.totalSwitches)
    {
      ghost var v := Value();
      needFence := ChargeCurrent();
      next := FindReady();
      assert Value().tasks == Yielded(v);
    }

    /** What `context_switch` does to the task switched away from: its stack pointer is kept in the task. */
    method SavePointer(task: nat, rsp: nat)
      requires Valid() && task < |tasks|
      modifies tasks[task]
      ensures var v := old(Value()); Value() == v.(tasks := v.tasks[task := v.tasks[task].(rsp := rsp)])
    {
      ghost var v := Value();
      tasks[task].rsp := rsp;
      forall i | 0 <= i < |tasks| && i != task
        ensures tasks[i].Value() == v.tasks[i]
      {
        assert tasks[i] != tasks[task];
      }
    }

    /** The timer interrupt: prepare a switch and, if there is one, carry it out, saving the pointer reached. */
    method TimerTick(rsp: nat) returns (r: Option<Switch>)
      requires Valid()
      modifies this, tasks, Accounts()
      ensures Valid() && tasks == old(tasks)
      ensures r == Prepared(old(Value())).1 && Value() == Performed(Prepared(old(Value())), rsp)
    {
      r := PrepareSwitch();
      if r.Some? {
        SavePointer(r.value.oldTask, rsp);
      }
    }
  }

  /** One step on around a ring of `n`. */
  lemma StepInRing(i: nat, n: nat)
    requires i < n
    ensures (i + 1) % n == Next(i, n)
  {
    if i + 1 == n {
      ModOf(0, 1, n);
    } else {
      ModOf(i + 1, 0, n);
    }
  }

  lemma ModOf(r: nat, q: nat, n: nat)
    requires r < n
    ensures (r + q * n) % n == r
  {
    var x := r + q * n;
    assert x == x / n * n + x % n;
    NoMultiple(x / n - q, n, r - x % n);
  }

  /** The only multiple of `n` strictly between `-n` and `n` is 0. */
  lemma NoMultiple(d: int, n: nat, m: int)
    requires d * n == m && m < n && -m < n
    ensures m == 0
  {
    assert d >= 1 ==> d * n >= n;
    assert d <= -1 ==> -(d * n) >= n;
  }

  // ---------------------------------------------------------------------------------------
  // Whole runs
  // ---------------------------------------------------------------------------------------

  /** The state after as many timer ticks as pointers; each tick that switches saves its one. */
  function AfterTicks(v: View, saved: seq<nat>): (r: View)
    requires 2 <= |v.tasks| && v.current < |v.tasks|
    ensures |r.tasks| == |v.tasks| && r.current < |r.tasks|
  {
    if saved == [] then v
    else Performed(Prepared(AfterTicks(v, saved[..|saved| - 1])), saved[|saved| - 1])
  }

  /** Only the current task may be running. */
  predicate OthersReady(v: View)
  {
    && v.current < |v.tasks|
    && forall i :: 0 <= i < |v.tasks| && i != v.current ==> v.tasks[i].state == Ready
  }

  /** With all the others ready, the turn passes to the next task in the ring. */
  lemma PassesOn(v: View)
    requires OthersReady(v) && |v.tasks| >= 2
    ensures Prepared(v) == Chosen(v, Yielded(v), Next(v.current, |v.tasks|))
    ensures OthersReady(Prepared(v).0)
    ensures Prepared(v).1 == Some(Switch(v.current, v.tasks[Next(v.current, |v.tasks|)].rsp, FenceDue(v)))
  {
  }

  /** The number of ticks between two fences. */
  function Period(budget: u64): (m: nat)
    ensures m >= 1
  {
    if budget == 0 then 1 else budget
  }

  /** The account after `t` ticks. */
  function Settled(budget: u64, t: nat): Account
  {
    Account(budget, t % Period(budget), t / Period(budget), 0, t / Period(budget))
  }

  /** Dividing one more by `m`. */
  lemma StepDivision(t: nat, m: nat)
    requires m >= 1
    ensures (t + 1) / m == t / m + (if t % m + 1 == m then 1 else 0)
    ensures (t + 1) % m == if t % m + 1 == m then 0 else t % m + 1
  {
    var q, r := t / m, t % m;
    if r + 1 == m {
      Division(t + 1, m, q + 1, 0);
    } else {
      Division(t + 1, m, q, r + 1);
    }
  }

  lemma Division(x: nat, m: nat, q: nat, r: nat)
    requires r < m && x == q * m + r
    ensures x / m == q && x % m == r
  {
    ModOf(r, q, m);
    NoMultiple(x / m - q, m, r - x % m);
    assert x / m * m == q * m;
    SameQuotient(x / m, q, m);
  }

  lemma SameQuotient(a: nat, b: nat, m: nat)
    requires m >= 1 && a * m == b * m
    ensures a == b
  {
  }

  lemma ChargedSettled(budget: u64, t: nat)
    ensures Charged(Settled(budget, t)) == Settled(budget, t + 1)
    ensures Exhausted(Ticked(Settled(budget, t))) <==> (t + 1) % Period(budget) == 0
  {
    StepDivision(t, Period(budget));
  }

  /** How many of the first `k` turns fell to task `i` of `n`. */
  function Turns(i: nat, n: nat, k: nat): nat
    requires n >= 1
  {
    k / n + if i < k % n then 1 else 0
  }

  lemma TurnsStep(i: nat, n: nat, k: nat)
    requires i < n
    ensures Turns(i, n, k + 1) == Turns(i, n, k) + (if i == k % n then 1 else 0)
    ensures (k + 1) % n == Next(k % n, n)
  {
    StepDivision(k, n);
  }

  function SumFences(ts: seq<TaskView>): nat
  {
    if ts == [] then 0 else SumFences(ts[..|ts| - 1]) + ts[|ts| - 1].scba.fences
  }

  lemma {:induction false} SumUpdate(ts: seq<TaskView>, i: nat, t: TaskView)
    requires i < |ts|
    ensures SumFences(ts[i := t]) == SumFences(ts) - ts[i].scba.fences + t.scba.fences
  {
    var n := |ts| - 1;
    if i == n {
      assert ts[i := t][..n] == ts[..n];
    } else {
      SumUpdate(ts[..n], i, t);
      assert ts[i := t][..n] == ts[..n][i := t];
    }
  }

  lemma {:induction false} SumZero(ts: seq<TaskView>)
    requires forall i :: 0 <= i < |ts| ==> ts[i].scba.fences == 0
    ensures SumFences(ts) == 0
  {
    if ts != [] {
      SumZero(ts[..|ts| - 1]);
    }
  }

  /** A scheduler as it is before the first tick, with task 0 current. */
  predicate Fresh(v: View)
  {
    && |v.tasks| >= 2 && v.current == 0 && OthersReady(v) && v.totalFences == 0 && v.totalSwitches == 0
    && forall i :: 0 <= i < |v.tasks| ==> v.tasks[i].scba == Account(v.tasks[i].scba.budgetMax, 0, 0, 0, 0)
  }

  /** The stack pointers of the tasks. */
  function Pointers(v: View): (r: seq<nat>)
    ensures |r| == |v.tasks|
  {
    seq(|v.tasks|, i requires 0 <= i < |v.tasks| => v.tasks[i].rsp)
  }

  /** The pointers after each tick has overwritten the one of the task whose turn it ends. */
  function Overwritten(first: seq<nat>, saved: seq<nat>): (r: seq<nat>)
    requires first != []
    ensures |r| == |first|
  {
    if saved == [] then first
    else Overwritten(first, saved[..|saved| - 1])[(|saved| - 1) % |first| := saved[|saved| - 1]]
  }

  /**
   The books after `k` ticks: the turn is at task `k` modulo `n`, every tick switched, every task
   has been charged for exactly its turns, and the fences add up.
   */
  predicate Accounted(v0: View, v: View, k: nat)
    requires |v0.tasks| >= 2
  {
    var n := |v0.tasks|;
    && |v.tasks| == n && OthersReady(v)
    && v.current == k % n
    && v.totalSwitches == k
    && v.totalFences == SumFences(v.tasks)
    && forall i :: 0 <= i < n ==> v.tasks[i].scba == Settled(v0.tasks[i].scba.budgetMax, Turns(i, n, k))
  }

  /** A tick, spelled out: the next task in the ring runs, and the current one is charged and put away. */
  lemma TickIs(v: View, saved: nat)
    requires OthersReady(v) && |v.tasks| >= 2
    ensures var c, next := v.current, Next(v.current, |v.tasks|);
            var t := v.tasks[c];
            Performed(Prepared(v), saved) ==
            View(v.tasks[c := TaskView(Ready, saved, Charged(t.scba))][next := v.tasks[next].(state := Running)],
                 next, v.totalFences + (if FenceDue(v) then 1 else 0), v.totalSwitches + 1)
  {
    PassesOn(v);
  }

  lemma AccountedStep(v0: View, v: View, k: nat, saved: nat)
    requires |v0.tasks| >= 2 && Accounted(v0, v, k)
    ensures Accounted(v0, Performed(Prepared(v), saved), k + 1)
  {
    TickIs(v, saved);
    var n, c, v' := |v0.tasks|, v.current, Performed(Prepared(v), saved);
    var next := Next(c, n);
    var t := TaskView(Ready, saved, Charged(v.tasks[c].scba));
    ChargedSettled(v0.tasks[c].scba.budgetMax, Turns(c, n, k));
    TurnsStep(c, n, k);
    SumUpdate(v.tasks, c, t);
    SumUpdate(v.tasks[c := t], next, v.tasks[next].(state := Running));
    forall i | 0 <= i < n
      ensures v'.tasks[i].scba == Settled(v0.tasks[i].scba.budgetMax, Turns(i, n, k + 1))
    {
      TurnsStep(i, n, k);
    }
  }

  /** Ticks less than `n` apart fall to different tasks. */
  lemma OtherTurn(j: nat, k: nat, n: nat)
    requires j < k < j + n
    ensures j % n != k % n
  {
    if j % n == k % n {
      assert j == j / n * n + j % n && k == k / n * n + k % n;
      assert (k / n - j / n) * n == k - j;
      NoMultiple(k / n - j / n, n, k - j);
    }
  }

  /** A task that has had no turn still has its first pointer; the last `n` ticks' pointers are all there. */
  lemma {:induction false} OverwrittenIs(first: seq<nat>, saved: seq<nat>, j: nat)
    requires first != []
    ensures |saved| <= j < |first| ==> Overwritten(first, saved)[j] == first[j]
    ensures j < |saved| <= j + |first| ==> Overwritten(first, saved)[j % |first|] == saved[j]
  {
    if saved != [] {
      var n, k := |first|, |saved| - 1;
      OverwrittenIs(first, saved[..k], j);
      if k < j < n {
        ModOf(k, 0, n);
      } else if j < k < j + n {
        OtherTurn(j, k, n);
      }
    }
  }

  /** After any number of ticks, whatever pointers they save, the books balance. */
  lemma {:induction false} RunAccounted(v0: View, saved: seq<nat>)
    requires Fresh(v0)
    ensures Accounted(v0, AfterTicks(v0, saved), |saved|)
  {
    if saved == [] {
      FreshAccounted(v0);
    } else {
      var n := |saved| - 1;
      RunAccounted(v0, saved[..n]);
      AccountedStep(v0, AfterTicks(v0, saved[..n]), n, saved[n]);
    }
  }

  /**
   The account of a task after `k` ticks, of which `t` were its own: with `m` the budget, or 1 if that
   is 0, it has been fenced `t / m` times and has consumed `t % m` since.
   */
  lemma TaskAccount(v0: View, saved: seq<nat>, i: nat)
    requires Fresh(v0) && i < |v0.tasks|
    ensures var n, k, a := |v0.tasks|, |saved|, AfterTicks(v0, saved).tasks[i].scba;
            var t := k / n + if i < k % n then 1 else 0;
            var m := if v0.tasks[i].scba.budgetMax == 0 then 1 else v0.tasks[i].scba.budgetMax;
            && a.consumed == t % m && a.fences == t / m && a.epoch == t / m
            && a.throttled == 0 && a.budgetMax == v0.tasks[i].scba.budgetMax
  {
    RunAccounted(v0, saved);
  }

  /** And the pointer each tick saves is the one of the task whose turn it is. */
  lemma {:induction false} RunPointers(v0: View, saved: seq<nat>)
    requires Fresh(v0)
    ensures Pointers(AfterTicks(v0, saved)) == Overwritten(Pointers(v0), saved)
  {
    if saved != [] {
      var n := |saved| - 1;
      var v := AfterTicks(v0, saved[..n]);
      RunPointers(v0, saved[..n]);
      RunAccounted(v0, saved[..n]);
      PointersStep(v, saved[n]);
    }
  }

  lemma PointersStep(v: View, saved: nat)
    requires OthersReady(v) && |v.tasks| >= 2
    ensures Pointers(Performed(Prepared(v), saved)) == Pointers(v)[v.current := saved]
  {
    TickIs(v, saved);
  }

  lemma FreshAccounted(v0: View)
    requires Fresh(v0)
    ensures Accounted(v0, v0, 0)
  {
    SumZero(v0.tasks);
    Division(0, |v0.tasks|, 0, 0);
    forall i | 0 <= i < |v0.tasks|
      ensures v0.tasks[i].scba == Settled(v0.tasks[i].scba.budgetMax, Turns(i, |v0.tasks|, 0))
    {
      Division(0, Period(v0.tasks[i].scba.budgetMax), 0, 0);
    }
  }

  /**
   The switch that ends turn `k`: away from task `k` modulo `n`, onto the pointer saved `n - 1` ticks
   before, when the next task was last switched away from, or its first one if it never was; with a
   fence exactly when the turn fills a period of its task.
   */
  function TurnEnd(v0: View, saved: seq<nat>): Switch
    requires |v0.tasks| >= 2
  {
    var n, k := |v0.tasks|, |saved|;
    Switch(k % n,
           if k + 1 < n then v0.tasks[k + 1].rsp else saved[k + 1 - n],
           (Turns(k % n, n, k) + 1) % Period(v0.tasks[k % n].scba.budgetMax) == 0)
  }

  /** Every tick of every run switches, and that is its switch. */
  lemma EveryTickSwitches(v0: View, saved: seq<nat>)
    requires Fresh(v0)
    ensures Prepared(AfterTicks(v0, saved)).1 == Some(TurnEnd(v0, saved))
  {
    RunAccounted(v0, saved);
    RunPointers(v0, saved);
    SwitchFrom(v0, AfterTicks(v0, saved), saved);
  }

  /** The same without naming anything: `t` turns of the task are over, and `m` of them make a period. */
  lemma TickSwitch(v0: View, saved: seq<nat>)
    requires Fresh(v0)
    ensures var n, k, r := |v0.tasks|, |saved|, Prepared(AfterTicks(v0, saved)).1;
            var m := if v0.tasks[k % n].scba.budgetMax == 0 then 1 else v0.tasks[k % n].scba.budgetMax;
            && r.Some? && r.value.oldTask == k % n
            && r.value.newRsp == (if k + 1 < n then v0.tasks[k + 1].rsp else saved[k + 1 - n])
            && (r.value.needFence <==> (k / n + 1) % m == 0)
  {
    EveryTickSwitches(v0, saved);
    OwnTurns(|saved|, |v0.tasks|);
  }

  lemma OwnTurns(k: nat, n: nat)
    requires n >= 1
    ensures k % n < n && Turns(k % n, n, k) == k / n
  {
  }

  lemma SwitchFrom(v0: View, v: View, saved: seq<nat>)
    requires |v0.tasks| >= 2 && Accounted(v0, v, |saved|) && Pointers(v) == Overwritten(Pointers(v0), saved)
    ensures Prepared(v).1 == Some(TurnEnd(v0, saved))
  {
    PassesOn(v);
    FenceWhen(v0, v, |saved|);
    NextPointer(Pointers(v0), saved);
    assert Pointers(v)[Next(v.current, |v.tasks|)] == v.tasks[Next(v.current, |v.tasks|)].rsp;
  }

  lemma FenceWhen(v0: View, v: View, k: nat)
    requires |v0.tasks| >= 2 && Accounted(v0, v, k)
    ensures var n := |v0.tasks|;
            FenceDue(v) <==> (Turns(k % n, n, k) + 1) % Period(v0.tasks[k % n].scba.budgetMax) == 0
  {
    var i, n := v.current, |v0.tasks|;
    ChargedSettled(v0.tasks[i].scba.budgetMax, Turns(i, n, k));
  }

  lemma NextPointer(first: seq<nat>, saved: seq<nat>)
    requires |first| >= 2
    ensures var n, k := |first|, |saved|;
            Overwritten(first, saved)[Next(k % n, n)] == if k + 1 < n then first[k + 1] else saved[k + 1 - n]
  {
    var n, k := |first|, |saved|;
    StepDivision(k, n);
    if k + 1 < n {
      ModOf(k + 1, 0, n);
      OverwrittenIs(first, saved, k + 1);
    } else {
      SameTurn(k + 1 - n, n);
      OverwrittenIs(first, saved, k + 1 - n);
    }
  }

  lemma SameTurn(j: nat, n: nat)
    requires n >= 1
    ensures j % n == (j + n) % n
  {
    assert j == j / n * n + j % n;
    assert j + n == (j / n + 1) * n + j % n;
    Division(j + n, n, j / n + 1, j % n);
  }

  // ---------------------------------------------------------------------------------------
  // From boot on
  // ---------------------------------------------------------------------------------------

  /** What a task is created with. */
  datatype Start = Start(rsp: nat, budget: u64)

  function Created(t: Start): TaskView { TaskView(Ready, t.rsp, Account(t.budget, 0, 0, 0, 0)) }

  /** The idle task, running, and the others in the order they were added. */
  function BootView(ts: seq<Start>): (v: View)
    ensures |v.tasks| == |ts| + 1
  {
    var idle := TaskView(Running, 0, Account(TWO_64 - 1, 0, 0, 0, 0));
    View([idle] + seq(|ts|, i requires 0 <= i < |ts| => Created(ts[i])), 0, 0, 0)
  }

  lemma BootFresh(ts: seq<Start>)
    requires ts != []
    ensures Fresh(BootView(ts))
  {
  }

  lemma BootOneMore(ts: seq<Start>, n: nat)
    requires n < |ts|
    ensures BootView(ts[..n + 1]) == BootView(ts[..n]).(tasks := BootView(ts[..n]).tasks + [Created(ts[n])])
  {
    assert BootView(ts[..n + 1]).tasks == BootView(ts[..n]).tasks + [Created(ts[n])];
  }

  /** Create the idle task and the others and add them in turn. */
  method Boot(ts: seq<Start>) returns (s: Scheduler)
    ensures fresh(s) && forall t :: t in s.tasks ==> fresh(t) && fresh(t.scba)
    ensures s.Valid() && s.Value() == BootView(ts)
  {
    s := new Scheduler();
    var idle := new Task.Idle(0);
    s.AddTask(idle);
    assert s.Value().tasks == BootView(ts[..0]).tasks;
    for i := 0 to |ts|
      invariant fresh(s) && forall t :: t in s.tasks ==> fresh(t) && fresh(t.scba)
      invariant s.Valid() && s.Value() == BootView(ts[..i])
    {
      AddCreated(s, i + 1, ts[i]);
      BootOneMore(ts, i);
    }
    assert ts[..|ts|] == ts;
  }

  method AddCreated(s: Scheduler, id: nat, t: Start)
    requires s.Valid()
    modifies s`tasks
    ensures s.Valid() && s.Value() == old(s.Value()).(tasks := old(s.Value()).tasks + [Created(t)])
    ensures |s.tasks| == |old(s.tasks)| + 1 && s.tasks[..|old(s.tasks)|] == old(s.tasks)
    ensures fresh(s.tasks[|old(s.tasks)|]) && fresh(s.tasks[|old(s.tasks)|].scba)
  {
    var task := new Task.WithBudget(id, t.rsp, t.budget);
    s.AddTask(task);
  }

  /** The switches of a run, one for each tick. */
  function Switches(v0: View, saved: seq<nat>): (r: seq<Option<Switch>>)
    requires |v0.tasks| >= 2
    ensures |r| == |saved|
  {
    if saved == [] then []
    else Switches(v0, saved[..|saved| - 1]) + [Some(TurnEnd(v0, saved[..|saved| - 1]))]
  }

  lemma OneTickMore(v0: View, saved: seq<nat>, k: nat)
    requires Fresh(v0) && k < |saved|
    ensures var p := Prepared(AfterTicks(v0, saved[..k]));
            && Switches(v0, saved[..k + 1]) == Switches(v0, saved[..k]) + [p.1]
            && AfterTicks(v0, saved[..k + 1]) == Performed(p, saved[k])
  {
    assert saved[..k + 1][..k] == saved[..k];
    EveryTickSwitches(v0, saved[..k]);
  }

  /** One more tick of a run. */
  method TickOn(s: Scheduler, ghost v0: View, saved: seq<nat>, k: nat) returns (r: Option<Switch>)
    requires s.Valid() && Fresh(v0) && k < |saved| && s.Value() == AfterTicks(v0, saved[..k])
    modifies s, s.tasks, s.Accounts()
    ensures s.Valid() && s.tasks == old(s.tasks) && s.Value() == AfterTicks(v0, saved[..k + 1])
    ensures Switches(v0, saved[..k + 1]) == Switches(v0, saved[..k]) + [r]
  {
    OneTickMore(v0, saved, k);
    r := s.TimerTick(saved[k]);
  }

  /** Take timer ticks, one for each pointer. */
  method Drive(s: Scheduler, saved: seq<nat>) returns (switches: seq<Option<Switch>>)
    requires s.Valid() && Fresh(s.Value())
    modifies s, s.tasks, s.Accounts()
    ensures s.Valid() && s.Value() == AfterTicks(old(s.Value()), saved)
    ensures switches == Switches(old(s.Value()), saved)
  {
    ghost var v0 := s.Value();
    switches := [];
    for k := 0 to |saved|
      invariant s.tasks == old(s.tasks) && s.Valid() && s.Value() == AfterTicks(v0, saved[..k])
      invariant switches == Switches(v0, saved[..k])
    {
      var r := TickOn(s, v0, saved, k);
      switches := switches + [r];
    }
    assert saved[..|saved|] == saved;
  }

  /**
   Boot with at least one task besides the idle one and take any number of timer ticks: every tick
   returns its switch, the books balance, and the pointers are the ones saved.
   */
  method Execute(ts: seq<Start>, saved: seq<nat>) returns (s: Scheduler, switches: seq<Option<Switch>>)
    requires ts != []
    ensures fresh(s) && s.Valid()
    ensures Accounted(BootView(ts), s.Value(), |saved|)
    ensures Pointers(s.Value()) == Overwritten(Pointers(BootView(ts)), saved)
    ensures switches == Switches(BootView(ts), saved)
  {
    s := Boot(ts);
    BootFresh(ts);
    RunAccounted(BootView(ts), saved);
    RunPointers(BootView(ts), saved);
    switches := Drive(s, saved);
  }
}
