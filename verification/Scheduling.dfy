/** Choosing the next task: round_robin_pick_next and the selection part of
    task_switch, over every run of switches, sleeps, wake-ups, kills, births and
    reaps. */
module Scheduling {
  import opened TaskRing

  const IDLE: nat := 2

  /** The place j steps behind place c in a ring of n. */
  function Place(c: nat, j: nat, n: nat): (r: nat)
    requires c < n && j <= n
    ensures r < n
  {
    if c + j < n then c + j else c + j - n
  }

  ghost predicate Known(order: seq<nat>, state: map<nat, TaskState>)
  {
    forall t :: t in order ==> t in state
  }

  /** How many steps from place c the walk goes, from step j on: to the first
      READY task, or once around. */
  ghost function Walk(order: seq<nat>, state: map<nat, TaskState>, c: nat, j: nat): (r: nat)
    requires c < |order| && 1 <= j <= |order| && Known(order, state)
    ensures j <= r <= |order|
    ensures r < |order| ==> state[order[Place(c, r, |order|)]] == READY
    ensures forall i :: j <= i < r ==> state[order[Place(c, i, |order|)]] != READY
    decreases |order| - j
  {
    if j == |order| || state[order[Place(c, j, |order|)]] == READY then j else Walk(order, state, c, j + 1)
  }

  /** Who is picked when the one at place c runs. */
  ghost function Picked(order: seq<nat>, state: map<nat, TaskState>, c: nat): nat
    requires c < |order| && Known(order, state)
  {
    order[Place(c, Walk(order, state, c, 1), |order|)]
  }

  /** round_robin_pick_next. */
  method PickNext(q: Tasks, current: nat, ghost c: nat) returns (next: nat)
    requires q.Valid() && c < |q.order| && q.order[c] == current
    ensures Known(q.order, q.state) && next == Picked(q.order, q.state, c)
  {
    hide Ring;
    ghost var n, j := |q.order|, 1;
    RingFacts(q.next, q.head, q.order, c);
    next := q.next[current];
    while q.state[next] != READY && next != current
      invariant 1 <= j <= n && next == q.order[Place(c, j, n)] && next in q.state && Walk(q.order, q.state, c, 1) == Walk(q.order, q.state, c, j)
      invariant Known(q.order, q.state)
      decreases n - j
    {
      RingFacts(q.next, q.head, q.order, Place(c, j, n));
      next := q.next[next];
      j := j + 1;
    }
    assert next == current ==> Place(c, j, n) == c;
  }

  // ----- Runs

  datatype Sys = Sys(order: seq<nat>, state: map<nat, TaskState>, current: nat)

  ghost function IndexOf(order: seq<nat>, t: nat): (k: nat)
    requires t in order
    ensures k < |order| && order[k] == t
  {
    var k :| 0 <= k < |order| && order[k] == t;
    k
  }

  /** The state after a switch: the outgoing task is READY if it was RUNNING, the
      picked one is RUNNING. */
  ghost function Switched(s: Sys): Sys
    requires s.current in s.order && Known(s.order, s.state)
  {
    var state := if s.state[s.current] == RUNNING then s.state[s.current := READY] else s.state;
    var t := Picked(s.order, state, IndexOf(s.order, s.current));
    s.(state := state[t := RUNNING], current := t)
  }

  /** task_switch, from the demotion of the outgoing task on. */
  method TaskSwitch(q: Tasks, current: nat) returns (now: nat)
    requires q.Valid() && current in q.order
    modifies q`state
    ensures q.Valid() && Known(q.order, old(q.state))
    ensures Sys(q.order, q.state, now) == Switched(Sys(q.order, old(q.state), current))
  {
    hide Ring, Picked;
    ghost var c := IndexOf(q.order, current);
    if q.state[current] == RUNNING {
      q.state := q.state[current := READY];
    }
    now := PickNext(q, current, c);
    PickedIn(q.order, q.state, c);
    if now == current {
      q.state := q.state[current := RUNNING];
      return;
    }
    q.state := q.state[now := RUNNING];
  }

  lemma PickedIn(order: seq<nat>, state: map<nat, TaskState>, c: nat)
    requires c < |order| && Known(order, state)
    ensures Picked(order, state, c) in order && Picked(order, state, c) in state
  {
  }

  datatype Step =
    | Switch
    | Sleep                        // the running task waits
    | Wake(task: nat)              // WAITING to READY
    | Die(task: nat, mother: nat)  // a kill or an exit; a waiting parent wakes
    | Born(task: nat, place: nat)
    | Reap(place: nat)

  ghost predicate Enabled(s: Sys, step: Step)
  {
    match step
    case Switch => true
    case Sleep => s.current != IDLE && s.current in s.state && s.state[s.current] == RUNNING
    case Wake(t) => t in s.order && t in s.state && s.state[t] == WAITING
    case Die(t, _) => t in s.order && t != IDLE
    case Born(t, k) => t !in s.order && k < |s.order|
    case Reap(k) => k < |s.order| && |s.order| > 1 && s.order[k] in s.state && s.state[s.order[k]] == ZOMBIE && s.order[k] != s.current
  }

  /** What every run keeps. */
  ghost predicate Inv(s: Sys)
  {
    && Distinct(s.order) && s.current in s.order && IDLE in s.order && Known(s.order, s.state)
    && (s.state[IDLE] == READY || s.state[IDLE] == RUNNING)
    && (forall t :: t in s.order && s.state[t] == RUNNING ==> t == s.current)
  }

  ghost function Do(s: Sys, step: Step): Sys
    requires Inv(s) && Enabled(s, step)
  {
    match step
    case Switch => Switched(s)
    case Sleep => s.(state := s.state[s.current := WAITING])
    case Wake(t) => s.(state := s.state[t := READY])
    case Die(t, m) =>
      var state := s.state[t := ZOMBIE];
      s.(state := if m in state && state[m] == WAITING then state[m := READY] else state)
    case Born(t, k) => s.(order := InsertAt(s.order, k, t), state := s.state[t := READY])
    case Reap(k) => s.(order := Without(s.order, k))
  }

  /** A death makes a zombie of one task and wakes its waiting parent; no other
      task changes. */
  lemma DeathWakesParent(s: Sys, t: nat, m: nat, u: nat)
    requires Inv(s) && Enabled(s, Die(t, m)) && u in s.order
    ensures var n := Do(s, Die(t, m)).state;
            u in n && n[u] == if u == t then ZOMBIE else if u == m && s.state[u] == WAITING then READY else s.state[u]
  {
  }

  lemma InvKept(s: Sys, step: Step)
    requires Inv(s) && Enabled(s, step)
    ensures Inv(Do(s, step))
  {
    match step
    case Switch => SwitchKept(s);
    case Born(t, k) =>
      InsertMembers(s.order, k, t);
      InsertDistinct(s.order, k, t);
      hide InsertAt, Distinct;
    case Reap(k) =>
      WithoutMembers(s.order, k);
      WithoutDistinct(s.order, k);
      hide Without, Distinct;
    case _ =>
  }

  /** A switch makes RUNNING only what was READY or RUNNING. */
  lemma SwitchKept(s: Sys)
    requires Inv(s)
    ensures Inv(Switched(s))
    ensures var t := Switched(s).current; s.state[t] == READY || s.state[t] == RUNNING
  {
    var c := IndexOf(s.order, s.current);
    var state := if s.state[s.current] == RUNNING then s.state[s.current := READY] else s.state;
    var n := |s.order|;
    var j := Walk(s.order, state, c, 1);
    if s.current != IDLE {
      IdleIsSeen(s.order, state, c);
    }
    assert s.order[Place(c, j, n)] in s.order;
  }

  /** The walk does not go once around while the idle task waits its turn. */
  lemma IdleIsSeen(order: seq<nat>, state: map<nat, TaskState>, c: nat)
    requires Distinct(order) && IDLE in order && c < |order| && order[c] != IDLE && Known(order, state) && state[IDLE] == READY
    ensures Walk(order, state, c, 1) < |order|
  {
    var i := IndexOf(order, IDLE);
    var j := if c < i then i - c else i + |order| - c;
    assert Place(c, j, |order|) == i;
  }

  ghost predicate Runs(s: Sys, steps: seq<Step>, s': Sys)
    requires Inv(s)
    decreases |steps|
  {
    if steps == [] then s' == s
    else Enabled(s, steps[0]) && (InvKept(s, steps[0]); Runs(Do(s, steps[0]), steps[1..], s'))
  }

  lemma {:induction false} RunInv(s: Sys, steps: seq<Step>, s': Sys)
    requires Inv(s) && Runs(s, steps, s')
    ensures Inv(s')
    decreases |steps|
  {
    hide Inv, Enabled, Do;
    if steps != [] {
      InvKept(s, steps[0]);
      RunInv(Do(s, steps[0]), steps[1..], s');
    }
  }

  /** Over every run: a switch never marks a WAITING or ZOMBIE task RUNNING, and
      changes no other task's state but the outgoing one's. */
  lemma NoResurrection(s: Sys, steps: seq<Step>, s': Sys, t: nat)
    requires Inv(s) && Runs(s, steps, s') && t in s'.order
    ensures Known(s'.order, s'.state) && s'.current in s'.order && t in s'.state && t in Switched(s').state
    ensures Switched(s').state[t] == RUNNING ==> s'.state[t] == READY || s'.state[t] == RUNNING
    ensures s'.state[t] == ZOMBIE || s'.state[t] == WAITING ==> Switched(s').state[t] == s'.state[t]
  {
    RunInv(s, steps, s');
    SwitchKept(s');
  }

  /** And the dead stay dead until they are reaped. */
  lemma {:induction false} DeadStayDead(s: Sys, steps: seq<Step>, s': Sys, t: nat)
    requires Inv(s) && Runs(s, steps, s') && t in s.order && s.state[t] == ZOMBIE && StaysIn(s, steps, t)
    ensures t in s'.order && t in s'.state && s'.state[t] == ZOMBIE
    decreases |steps|
  {
    if steps != [] {
      InvKept(s, steps[0]);
      DeadStep(s, steps[0], t);
      DeadStayDead(Do(s, steps[0]), steps[1..], s', t);
    }
  }

  ghost predicate StaysIn(s: Sys, steps: seq<Step>, t: nat)
    requires Inv(s)
    decreases |steps|
  {
    t in s.order && (steps != [] && Enabled(s, steps[0]) ==> (InvKept(s, steps[0]); StaysIn(Do(s, steps[0]), steps[1..], t)))
  }

  lemma DeadStep(s: Sys, step: Step, t: nat)
    requires Inv(s) && Enabled(s, step) && t in s.order && s.state[t] == ZOMBIE
    ensures t in Do(s, step).state && Do(s, step).state[t] == ZOMBIE
  {
    if step.Switch? {
      SwitchKept(s);
    }
  }

  // ----- Waiting is bounded

  /** Places from the running task to t, 1 to n. */
  ghost function Distance(s: Sys, t: nat): (r: nat)
    requires s.current in s.order && t in s.order
    ensures 1 <= r <= |s.order|
  {
    var c, i := IndexOf(s.order, s.current), IndexOf(s.order, t);
    if c < i then i - c else i + |s.order| - c
  }

  /** Each switch that does not pick a READY task comes closer to it. */
  lemma SwitchCloser(s: Sys, t: nat)
    requires Inv(s) && t in s.order && s.state[t] == READY && Switched(s).current != t && Switched(s).current in s.order
    ensures Distance(Switched(s), t) < Distance(s, t)
  {
    var n, c, i := |s.order|, IndexOf(s.order, s.current), IndexOf(s.order, t);
    var state := if s.state[s.current] == RUNNING then s.state[s.current := READY] else s.state;
    var j := Walk(s.order, state, c, 1);
    assert Place(c, Distance(s, t), n) == i && state[t] == READY;
    assert j <= Distance(s, t);
    var c' := IndexOf(s.order, Switched(s).current);
    assert c' == Place(c, j, n);
  }

  ghost predicate FixedRing(steps: seq<Step>)
  {
    forall k :: 0 <= k < |steps| ==> !steps[k].Born? && !steps[k].Reap?
  }

  function Switches(steps: seq<Step>): nat
  {
    if steps == [] then 0 else (if steps[0].Switch? then 1 else 0) + Switches(steps[1..])
  }

  /** t is READY in every state of the run, so it is never picked. */
  ghost predicate ReadyAllAlong(s: Sys, steps: seq<Step>, t: nat)
    requires Inv(s)
    decreases |steps|
  {
    && t in s.order && s.state[t] == READY
    && (steps != [] && Enabled(s, steps[0]) ==> (InvKept(s, steps[0]); ReadyAllAlong(Do(s, steps[0]), steps[1..], t)))
  }

  lemma {:induction false} WaitIsBounded(s: Sys, steps: seq<Step>, s': Sys, t: nat)
    requires Inv(s) && Runs(s, steps, s') && FixedRing(steps) && ReadyAllAlong(s, steps, t)
    ensures s'.current in s'.order && t in s'.order && Switches(steps) + Distance(s', t) <= Distance(s, t)
    decreases |steps|
  {
    hide Inv, Enabled, Distance;
    InvFacts(s);
    if steps != [] {
      var s1 := Do(s, steps[0]);
      InvKept(s, steps[0]);
      InvFacts(s1);
      if steps[0].Switch? {
        SwitchCloser(s, t);
      } else {
        SameDistance(s, steps[0], t);
      }
      WaitIsBounded(s1, steps[1..], s', t);
    }
  }

  lemma InvFacts(s: Sys)
    requires Inv(s)
    ensures s.current in s.order && Known(s.order, s.state)
    ensures Switched(s).current in s.order && Switched(s).order == s.order
    ensures forall t :: t in s.order && s.state[t] == RUNNING ==> t == s.current
  {
    SwitchKept(s);
  }

  lemma SameDistance(s: Sys, step: Step, t: nat)
    requires Inv(s) && Enabled(s, step) && !step.Switch? && !step.Born? && !step.Reap? && t in s.order && s.current in s.order
    ensures var s' := Do(s, step); s'.current in s'.order && t in s'.order && Distance(s', t) == Distance(s, t)
  {
  }

  /** In a fixed ring of n tasks, n switches cannot all pass a READY task by. */
  lemma RunsWithinN(s: Sys, steps: seq<Step>, s': Sys, t: nat)
    requires Inv(s) && Runs(s, steps, s') && FixedRing(steps) && Switches(steps) >= |s.order|
    ensures !ReadyAllAlong(s, steps, t)
  {
    if ReadyAllAlong(s, steps, t) {
      WaitIsBounded(s, steps, s', t);
      assert false;
    }
  }
}
