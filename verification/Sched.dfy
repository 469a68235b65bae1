/** The round-robin scheduler: schedule and wakeup_proc over the circular process list. */
module Sched {
  import opened LinkedList
  import opened Lists

  datatype State = UNINIT | SLEEPING | RUNNABLE | ZOMBIE

  // ---- the choice, on positions: 0 is the list head, i > 0 the i-th process ----

  /** The steps from position c to p going round the list; the head itself is no stop. */
  function Distance(n: nat, c: nat, p: nat): (d: int)
    requires c <= n && 0 < p <= n
    ensures 0 < d <= n
  {
    if p > c then p - c else n + p - c
  }

  predicate On(runnable: seq<bool>, q: nat) {
    0 < q <= |runnable| && runnable[q - 1]
  }

  /** p is the first runnable process met when going round from c, c itself last. */
  ghost predicate FirstAfter(runnable: seq<bool>, c: nat, p: nat)
    requires c <= |runnable|
  {
    && On(runnable, p)
    && forall q :: On(runnable, q) ==> Distance(|runnable|, c, p) <= Distance(|runnable|, c, q)
  }

  ghost predicate NoneRunnable(runnable: seq<bool>) {
    forall q :: !On(runnable, q)
  }

  /** What schedule has to choose: the first runnable process after c, or idle (0) when there is none. */
  ghost predicate Choice(runnable: seq<bool>, c: nat, p: nat) {
    && c <= |runnable| && p <= |runnable|
    && (if p == 0 then NoneRunnable(runnable) else FirstAfter(runnable, c, p))
  }

  /** There is exactly one right choice. */
  lemma ChoiceUnique(runnable: seq<bool>, c: nat, p: nat, q: nat)
    requires Choice(runnable, c, p) && Choice(runnable, c, q)
    ensures p == q
  {
    assert p != 0 ==> On(runnable, p);
    assert q != 0 ==> On(runnable, q);
  }

  /** Choosing another process brings every process that is runnable nearer. */
  lemma Nearer(runnable: seq<bool>, c: nat, p: nat, me: nat)
    requires Choice(runnable, c, p) && On(runnable, me)
    ensures p != 0 && (p != me ==> Distance(|runnable|, p, me) < Distance(|runnable|, c, me))
  {}

  /** Which entries of the list are runnable. */
  function Runnable(order: seq<nat>, state: seq<State>): (r: seq<bool>)
    ensures |r| == |order|
  {
    seq(|order|, i requires 0 <= i < |order| => order[i] < |state| && state[order[i]] == RUNNABLE)
  }

  /** The process at a position; idle stands for the head. */
  function Who(order: seq<nat>, idle: nat, p: nat): nat
    requires p <= |order|
  {
    if p == 0 then idle else order[p - 1]
  }

  /** The process `nxt` is at the right choice p from c. */
  ghost predicate IsChoice(order: seq<nat>, idle: nat, state: seq<State>, c: nat, p: nat, nxt: nat) {
    c <= |order| && p <= |order| && Choice(Runnable(order, state), c, p) && nxt == Who(order, idle, p)
  }

  /** Successive calls, with the states before each; between calls every process may change state at will. */
  ghost predicate Trace(order: seq<nat>, idle: nat, states: seq<seq<State>>, picks: seq<nat>, served: seq<nat>) {
    && |states| == |served| == |picks| - 1 && picks[0] <= |order|
    && forall t :: 0 <= t < |states| ==> IsChoice(order, idle, states[t], picks[t], picks[t + 1], served[t])
  }

  predicate StaysRunnable(states: seq<seq<State>>, x: nat) {
    forall t :: 0 <= t < |states| ==> x < |states[t]| && states[t][x] == RUNNABLE
  }

  /** A process that is runnable at each of n calls in a row, on a list of n processes, is served by one of them. */
  lemma {:induction false} NoStarvation(order: seq<nat>, idle: nat, states: seq<seq<State>>, picks: seq<nat>,
                                        served: seq<nat>, me: nat, t: nat)
    requires Trace(order, idle, states, picks, served) && 0 < me <= |order|
    requires t < |states| && picks[t] <= |order| && t + Distance(|order|, picks[t], me) <= |states|
    requires StaysRunnable(states, order[me - 1])
    ensures order[me - 1] in served
    decreases |states| - t
  {
    assert IsChoice(order, idle, states[t], picks[t], picks[t + 1], served[t]);
    assert On(Runnable(order, states[t]), me);
    Nearer(Runnable(order, states[t]), picks[t], picks[t + 1], me);
    if picks[t + 1] == me {
      assert served[t] == order[me - 1];
    } else {
      NoStarvation(order, idle, states, picks, served, me, t + 1);
    }
  }

  // ---- the code ----

  /** A runnable process after a walk that met none before it is the right choice. */
  lemma FoundFirst(runnable: seq<bool>, c: nat, steps: nat, pos: nat)
    requires c <= |runnable| && 0 < steps <= |runnable| + 1 && On(runnable, pos)
    requires pos == if c + steps <= |runnable| then c + steps else c + steps - |runnable| - 1
    requires forall q: nat :: On(runnable, q) ==> !(c < q < c + steps) && c + steps - |runnable| - 1 <= q
    ensures Choice(runnable, c, pos)
  {}

  /** Processes are numbers below |state|, the list head is |state|; the links are those of list.h. */
  class Scheduler {
    const next: array<nat>
    const prev: array<nat>
    const state: array<State>
    const runs: array<nat>
    const needResched: array<bool>
    const idle: nat
    var current: nat
    ghost const order: seq<nat>

    /** idle is not on the list; the current process is idle or on it. */
    ghost predicate Valid()
      reads this`current, next, prev
    {
      && Ring(next[..], prev[..], state.Length, order) && runs.Length == needResched.Length == state.Length
      && idle < state.Length && idle !in order && (current == idle || current in order)
    }

    constructor (order: seq<nat>, next: array<nat>, prev: array<nat>, n: nat, idle: nat)
      requires Ring(next[..], prev[..], n, order) && idle < n && idle !in order
      ensures Valid() && this.order == order && this.next == next && this.prev == prev
      ensures state.Length == n && this.idle == idle && current == idle
      ensures fresh(state) && fresh(runs) && fresh(needResched)
    {
      this.order, this.next, this.prev, this.idle, this.current := order, next, prev, idle, idle;
      this.state, this.runs, this.needResched := new State[n](_ => UNINIT), new nat[n](_ => 0), new bool[n](_ => false);
    }

    /** wakeup_proc; its assertion is the precondition. */
    method WakeupProc(proc: nat)
      requires proc < state.Length && state[proc] != ZOMBIE && state[proc] != RUNNABLE
      modifies state
      ensures state[..] == old(state[..])[proc := RUNNABLE]
    {
      state[proc] := RUNNABLE;
    }

    /** The circular walk of schedule from `last`: the process it settles on. */
    method Search(last: nat, ghost c: nat) returns (nxt: nat)
      requires Valid() && c <= |order| && last == Node(order, state.Length, c)
      ensures exists p: nat :: IsChoice(order, idle, state[..], c, p, nxt)
    {
      ghost var runnable, k := Runnable(order, state[..]), |order|;
      ghost var steps, pos := 0, c;
      var le, found: int := last, -1;
      while true
        invariant steps <= k && pos == (if c + steps <= k then c + steps else c + steps - k - 1)
        invariant le == Node(order, state.Length, pos)
        invariant found == -1 || (0 <= found < state.Length && state[found] != RUNNABLE)
        invariant forall q: nat :: On(runnable, q) ==> !(c < q <= c + steps) && c + steps - k - 1 < q
        decreases k - steps
      {
        le := next[..][le];
        assert le == Node(order, state.Length, pos + 1);
        steps, pos := steps + 1, if pos == k then 0 else pos + 1;
        if le != state.Length {
          found := le;
          if state[found] == RUNNABLE { break; }
        }
        if le == last { break; }
      }
      if found == -1 || state[found] != RUNNABLE {
        nxt := idle;
        assert NoneRunnable(runnable);
        assert IsChoice(order, idle, state[..], c, 0, nxt);
      } else {
        nxt := found;
        assert On(runnable, pos);
        FoundFirst(runnable, c, steps, pos);
        assert IsChoice(order, idle, state[..], c, pos, nxt);
      }
    }

    /** schedule, from position c: the new current process is the right choice there. It has run once more, the
        old one no longer asks to be rescheduled, and nothing else changes. */
    method Schedule(ghost c: nat) returns (ghost p: nat)
      requires Valid() && c <= |order| && Who(order, idle, c) == current
      modifies this`current, runs, needResched
      ensures Valid() && IsChoice(order, idle, state[..], c, p, current)
      ensures runs[..] == old(runs[..])[current := old(runs[..])[current] + 1]
      ensures needResched[..] == old(needResched[..])[old(current) := false]
    {
      needResched[current] := false;
      var last := if current == idle then state.Length else current;
      var nxt := Search(last, c);
      p :| IsChoice(order, idle, state[..], c, p, nxt);
      runs[nxt] := runs[nxt] + 1;
      if nxt != current {
        current := nxt;
      }
    }

    /** A call of schedule after all states have changed. */
    method Tick(states: seq<State>, ghost c: nat) returns (ghost p: nat)
      requires Valid() && c <= |order| && Who(order, idle, c) == current && |states| == state.Length
      modifies this`current, state, runs, needResched
      ensures Valid() && IsChoice(order, idle, states, c, p, current)
    {
      forall i | 0 <= i < state.Length { state[i] := states[i]; }
      assert state[..] == states;
      p := Schedule(c);
    }

    /** Calls of schedule with arbitrary changes of all states before each. Every call serves the right choice from the
        one before; and a process that the changes leave runnable is served by one of the first n calls, n being the
        length of the list. */
    method Run(changes: seq<seq<State>>, me: nat) returns (served: seq<nat>, ghost picks: seq<nat>)
      requires Valid() && 0 < me <= |order| == |changes| && StaysRunnable(changes, order[me - 1])
      requires forall t :: 0 <= t < |changes| ==> |changes[t]| == state.Length
      modifies this`current, state, runs, needResched
      ensures Valid() && Trace(order, idle, changes, picks, served)
      ensures picks[0] <= |order| && Who(order, idle, picks[0]) == old(current)
      ensures order[me - 1] in served
    {
      hide IsChoice;
      hide Ring;
      ghost var c: nat := Place();
      picks, served := [c], [];
      for t := 0 to |changes|
        invariant Valid() && c <= |order| && Who(order, idle, c) == current
        invariant |served| == t == |picks| - 1 && picks[t] == c
        invariant picks[0] <= |order| && Who(order, idle, picks[0]) == old(current)
        invariant forall u :: 0 <= u < t ==> IsChoice(order, idle, changes[u], picks[u], picks[u + 1], served[u])
      {
        c := Tick(changes[t], c);
        ChoiceBound(order, idle, changes[t], picks[t], c, current);
        served, picks := served + [current], picks + [c];
      }
      NoStarvation(order, idle, changes, picks, served, me, 0);
    }

    /** Where the current process is. */
    lemma Place() returns (c: nat)
      requires Valid()
      ensures c <= |order| && Who(order, idle, c) == current
    {
      c := 0;
      if current != idle {
        var i :| 0 <= i < |order| && order[i] == current;
        c := i + 1;
      }
    }
  }

  lemma ChoiceBound(order: seq<nat>, idle: nat, state: seq<State>, c: nat, p: nat, nxt: nat)
    requires IsChoice(order, idle, state, c, p, nxt)
    ensures p <= |order| && nxt == Who(order, idle, p)
  {}
}
