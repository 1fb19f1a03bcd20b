/** The two-queue task scheduler, with fractional priorities. */
module Scheduling {
  import opened Basics

  /** The least integer at or above x, but never negative. */
  function Ceil0(x: real): (n: nat)
    ensures x <= n as real && (n > 0 ==> n as real < x + 1.0)
  {
    if x <= 0.0 then 0 else -((-x).Floor)
  }

  /** The time k rounds give a task of priority p. */
  function Owed(p: real, k: nat): real {
    p * k as real
  }

  lemma Negative(p: real, k: nat)
    requires p < 0.0
    ensures Owed(p, k) <= 0.0
  {
  }

  lemma CeilMonotone(x: real, y: real)
    requires x <= y
    ensures Ceil0(x) <= Ceil0(y)
  {
  }

  /** One more round: what the task is owed grows, or stays nothing. */
  lemma OneMore(p: real, k: nat)
    ensures Owed(p, k + 1) == Owed(p, k) + p
    ensures Ceil0(Owed(p, k)) <= Ceil0(Owed(p, k + 1))
  {
    assert Owed(p, k + 1) == Owed(p, k) + p;
    if p < 0.0 { Negative(p, k); }
    hide Owed;
    if p >= 0.0 { CeilMonotone(Owed(p, k), Owed(p, k + 1)); }
  }

  /** A task that has used its time up has run as often as it was owed. */
  lemma AllUsed(owed: real, runs: nat)
    requires owed - runs as real <= 0.0 && runs <= Ceil0(owed)
    ensures runs == Ceil0(owed)
  {
  }

  class Task {
    const priority: real
    var slice: real
    /** How often the task has run, and how often it has been expired. */
    ghost var runs: nat
    ghost var expiries: nat

    constructor (priority: real)
      ensures this.priority == priority && slice == priority && runs == 0 && expiries == 0
    {
      this.priority, slice := priority, priority;
      runs, expiries := 0, 0;
    }

    /** The unused part of the time the task has been given so far, and no run beyond what that entitles it to. */
    ghost predicate Accounted()
      reads this
    {
      && slice == Owed(priority, expiries + 1) - runs as real
      && Ceil0(Owed(priority, expiries)) <= runs <= Ceil0(Owed(priority, expiries + 1))
    }

    /** The fairness law: expired k times, the task has run exactly as often as k priorities, rounded up. */
    ghost predicate Settled()
      reads this
    {
      Accounted() && runs == Ceil0(Owed(priority, expiries))
    }

    method Run()
      requires Accounted() && slice > 0.0
      modifies this
      ensures Accounted() && slice == old(slice) - 1.0
      ensures runs == old(runs) + 1 && expiries == old(expiries)
    {
      hide Owed;
      slice, runs := slice - 1.0, runs + 1;
    }

    method Expire()
      requires Accounted() && slice <= 0.0
      modifies this
      ensures Settled() && slice == old(slice) + priority
      ensures runs == old(runs) && expiries == old(expiries) + 1
    {
      OneMore(priority, expiries + 1);
      AllUsed(Owed(priority, expiries + 1), runs);
      hide Owed, Ceil0;
      slice, expiries := slice + priority, expiries + 1;
    }
  }

  /** The number of schedule calls after which these active tasks have all expired. */
  ghost function Work(ts: seq<Task>): nat
    reads ts
  {
    if ts == [] then 0 else Ceil0(ts[0].slice) + 1 + Work(ts[1..])
  }

  lemma {:induction false} WorkSplit(ts: seq<Task>, us: seq<Task>)
    ensures Work(ts + us) == Work(ts) + Work(us)
  {
    if ts == [] {
      assert ts + us == us;
    } else {
      WorkSplit(ts[1..], us);
      assert (ts + us)[1..] == ts[1..] + us;
    }
  }

  /** The last task of a, moved to the front of a or to the front of e. */
  lemma Move(a: seq<Task>, e: seq<Task>, rest: seq<Task>, t: Task)
    requires a == rest + [t] && Distinct(a + e)
    ensures Distinct([t] + rest + e) && Distinct(rest + ([t] + e)) && t !in rest && t !in e
    ensures multiset([t] + rest + e) == multiset(a + e) == multiset(rest + ([t] + e))
  {
    var n := |rest|;
    assert forall i | 0 <= i < n :: (a + e)[i] == rest[i];
    assert (a + e)[n] == t;
    assert forall i | 0 <= i < |e| :: (a + e)[n + 1 + i] == e[i];
  }

  /** After k expiries the runs exceed k times a priority by less than one: no task is ever a whole run ahead. */
  lemma WithinOneRun(t: Task)
    requires t.Settled() && t.priority >= 0.0
    ensures 0.0 <= t.runs as real - t.priority * t.expiries as real < 1.0
  {
    assert t.priority * t.expiries as real >= 0.0;
  }

  class Scheduler {
    var active: seq<Task>
    var expired: seq<Task>
    ghost const tasks: set<Task>
    /** How many times the lists have been swapped. */
    ghost var epoch: nat

    constructor (tasks: seq<Task>)
      requires Distinct(tasks)
      requires forall t | t in tasks :: t.slice == t.priority && t.runs == 0 && t.expiries == 0
      ensures Valid() && active == tasks && expired == [] && epoch == 0
    {
      active, expired, epoch := tasks, [], 0;
      this.tasks := set t | t in tasks;
    }

    /** Every task is in one list once; the expired ones are a whole epoch ahead and owed nothing. */
    ghost predicate Valid()
      reads this, tasks
    {
      && (forall t | t in active :: t in tasks) && (forall t | t in expired :: t in tasks)
      && Distinct(active + expired)
      && (forall t | t in active :: t.Accounted() && t.expiries == epoch)
      && (forall t | t in expired :: t.Settled() && t.expiries == epoch + 1)
    }

    /** Runs a task that has time left, and puts it back at the far end of the active list. */
    method RunTask(next: Task, ghost a: seq<Task>)
      requires a == active + [next] && Distinct(a + expired)
      requires forall t | t in a :: t.Accounted() && t.expiries == epoch
      requires forall t | t in expired :: t.Settled() && t.expiries == epoch + 1
      requires next.slice > 0.0
      requires (forall t | t in a :: t in tasks) && (forall t | t in expired :: t in tasks)
      modifies this`active, next
      ensures Valid() && active == [next] + old(active) && multiset(active + expired) == multiset(a + old(expired))
      ensures next.slice == old(next.slice) - 1.0 && next.runs == old(next.runs) + 1
      ensures Work(active) == old(Work(a)) - 1
    {
      hide Distinct, Owed, Task.Accounted, Task.Settled;
      ghost var rest := active;
      Move(a, expired, rest, next);
      WorkSplit(rest, [next]);
      next.Run();
      active := [next] + active;
      assert active[1..] == rest;
      assert active + expired == [next] + rest + expired;
    }

    /** Restores the time of a task that has used it up, and puts it on the expired list. */
    method ExpireTask(next: Task, ghost a: seq<Task>)
      requires a == active + [next] && Distinct(a + expired)
      requires forall t | t in a :: t.Accounted() && t.expiries == epoch
      requires forall t | t in expired :: t.Settled() && t.expiries == epoch + 1
      requires next.slice <= 0.0
      requires (forall t | t in a :: t in tasks) && (forall t | t in expired :: t in tasks)
      modifies this`expired, next
      ensures Valid() && active == old(active) && expired == [next] + old(expired)
      ensures multiset(active + expired) == multiset(a + old(expired))
      ensures next.slice == old(next.slice) + next.priority && next.runs == old(next.runs)
      ensures Work(active) == old(Work(a)) - 1
    {
      hide Distinct, Owed, Task.Accounted, Task.Settled;
      Move(a, expired, active, next);
      WorkSplit(active, [next]);
      next.Expire();
      expired := [next] + expired;
    }

    /** With nothing left to run, the lists are swapped and the next epoch begins. */
    method Swap()
      requires Valid() && active == []
      modifies this
      ensures Valid() && active == old(expired) && expired == [] && epoch == old(epoch) + 1
    {
      hide Owed, Ceil0;
      assert [] + expired == expired && expired + [] == expired;
      active, expired, epoch := expired, [], epoch + 1;
    }

    /** The last active task runs or expires; all others stay as they are. */
    method Turn()
      requires Valid() && active != []
      modifies this, tasks
      ensures Valid() && epoch == old(epoch)
      ensures multiset(active + expired) == multiset(old(active + expired))
      ensures var (a, e) := (old(active), old(expired));
              var t := a[|a| - 1];
              && (old(t.slice) > 0.0 ==>
                    && active == [t] + a[..|a| - 1] && expired == e
                    && t.slice == old(t.slice) - 1.0 && t.runs == old(t.runs) + 1)
              && (old(t.slice) <= 0.0 ==>
                    && active == a[..|a| - 1] && expired == [t] + e
                    && t.slice == old(t.slice) + t.priority && t.runs == old(t.runs))
              && forall u | u in a + e && u != t :: u.slice == old(u.slice) && u.runs == old(u.runs)
      ensures Work(active) == old(Work(active)) - 1
    {
      ghost var a, e := active, expired;
      var next := active[|active| - 1];
      active := active[..|active| - 1];
      assert a == active + [next];
      hide Distinct, Work, Owed, Ceil0, Task.Accounted, Task.Settled;
      if next.slice > 0.0 {
        RunTask(next, a);
      } else {
        ExpireTask(next, a);
      }
    }

    /** One call of the scheduler: the last active task has its turn, after a swap if there was none. */
    method Schedule()
      requires Valid() && active + expired != []
      modifies this, tasks
      ensures Valid()
      ensures multiset(active + expired) == multiset(old(active + expired))
      ensures epoch == if old(active) == [] then old(epoch) + 1 else old(epoch)
      ensures var (a, e) := if old(active) == [] then (old(expired), []) else (old(active), old(expired));
              var t := a[|a| - 1];
              && (old(t.slice) > 0.0 ==>
                    && active == [t] + a[..|a| - 1] && expired == e
                    && t.slice == old(t.slice) - 1.0 && t.runs == old(t.runs) + 1)
              && (old(t.slice) <= 0.0 ==>
                    && active == a[..|a| - 1] && expired == [t] + e
                    && t.slice == old(t.slice) + t.priority && t.runs == old(t.runs))
              && forall u | u in a + e && u != t :: u.slice == old(u.slice) && u.runs == old(u.runs)
      ensures old(active) != [] ==> Work(active) == old(Work(active)) - 1
    {
      hide *;
      if active == [] {
        assert [] + expired == expired && expired + [] == expired && active + expired == expired;
        Swap();
      }
      Turn();
    }

    /** Scheduling on until no task is active: the epoch ends after exactly its work, with every task expired once. */
    method FinishEpoch() returns (calls: nat)
      requires Valid()
      modifies this, tasks
      ensures Valid() && active == [] && epoch == old(epoch)
      ensures multiset(expired) == multiset(old(active) + old(expired))
      ensures calls == old(Work(active))
    {
      calls := 0;
      ghost var a, e, work := active, expired, Work(active);
      while active != []
        invariant Valid() && epoch == old(epoch) && multiset(active + expired) == multiset(a + e)
        invariant calls + Work(active) == work
        decreases Work(active)
      {
        hide Work, Valid;
        Schedule();
        calls := calls + 1;
      }
      assert active + expired == expired;
    }
  }
}
