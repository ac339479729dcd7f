/** The ready queue of kernel/core/task.c: a circular list through next pointers
    that fork, spawn and kernel-task creation extend and reap_zombies shortens. */
module TaskRing {

  datatype TaskState = RUNNING | READY | WAITING | ZOMBIE

  ghost predicate Distinct(order: seq<nat>)
  {
    forall i, j :: 0 <= i < j < |order| ==> order[i] != order[j]
  }

  /** From head the next pointers run through order and back to head. */
  ghost predicate Ring(next: map<nat, nat>, head: nat, order: seq<nat>)
  {
    && order != [] && order[0] == head && Distinct(order)
    && (forall t :: t in next <==> t in order)
    && (forall k :: 0 <= k < |order| ==> Link(next, order, k))
  }

  ghost predicate Link(next: map<nat, nat>, order: seq<nat>, k: nat)
    requires k < |order|
  {
    order[k] in next && next[order[k]] == order[Succ(k, |order|)]
  }

  function Succ(k: nat, n: nat): (r: nat)
    requires k < n
    ensures r < n
  {
    if k + 1 == n then 0 else k + 1
  }

  // ----- Inserting

  function InsertAt(order: seq<nat>, k: nat, t: nat): seq<nat>
    requires k < |order|
  {
    order[..k + 1] + [t] + order[k + 1..]
  }

  lemma InsertAtIs(order: seq<nat>, k: nat, t: nat)
    requires k < |order|
    ensures var r := InsertAt(order, k, t);
            |r| == |order| + 1 && forall i :: 0 <= i < |r| ==> r[i] == if i <= k then order[i] else if i == k + 1 then t else order[i - 1]
  {
  }

  lemma InsertDistinct(order: seq<nat>, k: nat, t: nat)
    requires k < |order| && Distinct(order) && t !in order
    ensures Distinct(InsertAt(order, k, t))
  {
    InsertAtIs(order, k, t);
    hide InsertAt;
  }

  /** The two stores of fork and spawn put t right behind order[k]; with k the
      last place they are the two stores of kernel-task creation. */
  lemma Inserted(next: map<nat, nat>, head: nat, order: seq<nat>, k: nat, t: nat)
    requires Ring(next, head, order) && k < |order| && t !in order
    ensures order[k] in next && Ring(next[t := next[order[k]]][order[k] := t], head, InsertAt(order, k, t))
  {
    assert order[k] in order;
    var r, n := InsertAt(order, k, t), next[t := next[order[k]]][order[k] := t];
    InsertAtIs(order, k, t);
    InsertMembers(order, k, t);
    InsertDistinct(order, k, t);
    hide InsertAt, Distinct;
    forall i | 0 <= i < |r|
      ensures Link(n, r, i)
    {
      InsertLink(next, head, order, k, t, i);
    }
  }

  lemma InsertLink(next: map<nat, nat>, head: nat, order: seq<nat>, k: nat, t: nat, i: nat)
    requires Ring(next, head, order) && k < |order| && t !in order && i <= |order| && order[k] in next
    ensures var r, n := InsertAt(order, k, t), next[t := next[order[k]]][order[k] := t];
            |r| == |order| + 1 && Link(n, r, i)
  {
    InsertAtIs(order, k, t);
    hide InsertAt, Distinct;
    assert Link(next, order, k);
    if i < k {
      OldLink(next, head, order, k, t, i);
    } else if i > k + 1 {
      OldLink(next, head, order, k, t, i - 1);
    }
  }

  /** The links of the others survive the two stores. */
  lemma OldLink(next: map<nat, nat>, head: nat, order: seq<nat>, k: nat, t: nat, j: nat)
    requires Ring(next, head, order) && k < |order| && t !in order && j < |order| && j != k && order[k] in next
    ensures order[j] in next && next[t := next[order[k]]][order[k] := t][order[j]] == order[Succ(j, |order|)]
  {
    assert Link(next, order, j) && order[j] in order;
  }

  lemma InsertMembers(order: seq<nat>, k: nat, t: nat)
    requires k < |order|
    ensures forall x :: x in InsertAt(order, k, t) <==> x in order || x == t
  {
    assert order == order[..k + 1] + order[k + 1..];
    forall x
      ensures x in InsertAt(order, k, t) <==> x in order || x == t
    {
      assert x in order <==> x in order[..k + 1] || x in order[k + 1..];
    }
  }

  // ----- Removing

  function Without(order: seq<nat>, k: nat): seq<nat>
    requires k < |order|
  {
    order[..k] + order[k + 1..]
  }

  function Pred(k: nat, n: nat): (r: nat)
    requires k < n
    ensures r < n && Succ(r, n) == k
  {
    if k == 0 then n - 1 else k - 1
  }

  lemma WithoutIs(order: seq<nat>, k: nat)
    requires k < |order|
    ensures var r := Without(order, k);
            |r| == |order| - 1 && forall i :: 0 <= i < |r| ==> r[i] == if i < k then order[i] else order[i + 1]
  {
  }

  lemma WithoutDistinct(order: seq<nat>, k: nat)
    requires k < |order| && Distinct(order)
    ensures Distinct(Without(order, k))
  {
    WithoutIs(order, k);
    hide Without;
  }

  /** Bypassing order[k] and freeing it; the head moves on when it was the head. */
  lemma Removed(next: map<nat, nat>, head: nat, order: seq<nat>, k: nat)
    requires Ring(next, head, order) && k < |order| && |order| > 1
    ensures order[k] in next
    ensures var p := order[Pred(k, |order|)];
            Ring(next[p := next[order[k]]] - {order[k]}, if k == 0 then order[1] else head, Without(order, k))
  {
    var p, r := order[Pred(k, |order|)], Without(order, k);
    assert order[k] in order && p in order;
    var next' := next[p := next[order[k]]] - {order[k]};
    WithoutIs(order, k);
    WithoutMembers(order, k);
    WithoutDistinct(order, k);
    hide Without, Distinct, Link;
    forall i | 0 <= i < |r|
      ensures Link(next', r, i)
    {
      RemoveLink(next, head, order, k, i);
    }
  }

  lemma RemoveLink(next: map<nat, nat>, head: nat, order: seq<nat>, k: nat, i: nat)
    requires Ring(next, head, order) && k < |order| && i < |order| - 1 && order[k] in next
    ensures var p, r := order[Pred(k, |order|)], Without(order, k);
            var next' := next[p := next[order[k]]] - {order[k]};
            |r| == |order| - 1 && Link(next', r, i)
  {
    WithoutIs(order, k);
    hide Without;
    var n, j := |order|, if i < k then i else i + 1;
    assert order[j] in order && order[j] != order[k];
    assert Link(next, order, j) && Link(next, order, k);
    if j != Pred(k, n) {
      assert order[j] != order[Pred(k, n)];
    }
  }

  lemma WithoutMembers(order: seq<nat>, k: nat)
    requires k < |order| && Distinct(order)
    ensures forall x :: x in Without(order, k) <==> x in order && x != order[k]
  {
    var r := Without(order, k);
    forall x
      ensures x in r <==> x in order && x != order[k]
    {
      if x in order && x != order[k] {
        var j :| 0 <= j < |order| && order[j] == x;
        assert r[if j < k then j else j - 1] == x;
      }
      if x in r {
        var i :| 0 <= i < |r| && r[i] == x;
        assert x == order[if i < k then i else i + 1];
      }
    }
  }

  lemma RingFacts(next: map<nat, nat>, head: nat, order: seq<nat>, k: nat)
    requires Ring(next, head, order) && k < |order|
    ensures order[0] == head && Distinct(order) && order[k] in next && next[order[k]] == order[Succ(k, |order|)] && (order[k] == head <==> k == 0)
    ensures order[Pred(k, |order|)] in next && (|order| > 1 ==> order[Pred(k, |order|)] != order[k])
  {
    assert Link(next, order, k) && Link(next, order, Pred(k, |order|));
  }

  // ----- One pass of reaping

  /** The tasks that stay, in their order. */
  ghost function Kept(order: seq<nat>, dead: set<nat>): (r: seq<nat>)
    ensures forall x :: x in r <==> x in order && x !in dead
  {
    if order == [] then [] else
    var rest := Kept(order[1..], dead);
    assert forall x :: x in order <==> x == order[0] || x in order[1..];
    if order[0] in dead then rest else [order[0]] + rest
  }

  lemma {:induction false} KeptSplit(a: seq<nat>, b: seq<nat>, dead: set<nat>)
    ensures Kept(a + b, dead) == Kept(a, dead) + Kept(b, dead)
    decreases |a|
  {
    if a == [] {
      assert a + b == b;
    } else {
      assert (a + b)[1..] == a[1..] + b;
      KeptSplit(a[1..], b, dead);
    }
  }

  lemma UnlinkFacts(next: map<nat, nat>, head: nat, order: seq<nat>, k: nat)
    requires Ring(next, head, order) && k < |order| && |order| > 1
    ensures order[k] in next && next[order[k]] == order[Succ(k, |order|)] && (order[k] == head <==> k == 0) && Succ(0, |order|) == 1
    ensures order[Pred(k, |order|)] != order[k] && Without(order, k) != []
    ensures forall x :: x in Without(order, k) <==> x in order && x != order[k]
  {
    assert Link(next, order, k);
    WithoutMembers(order, k);
    WithoutIs(order, k);
  }

  class Tasks {
    var next: map<nat, nat>
    var head: nat
    var state: map<nat, TaskState>
    var parent: map<nat, nat>
    ghost var order: seq<nat>

    ghost predicate Valid()
      reads this
    {
      order != [] && Ring(next, head, order) && (forall t :: t in order ==> t in state && t in parent)
    }

    constructor (first: nat)
      ensures Valid() && order == [first] && state == map[first := READY] && AllParented()
    {
      next, head, state, parent, order := map[first := first], first, map[first := READY], map[first := first], [first];
    }

    /** fork and spawn: the new task goes behind the one that makes it. */
    method AddBehind(t: nat, maker: nat, ghost k: nat)
      requires Valid() && t !in order && k < |order| && order[k] == maker
      modifies this
      ensures Valid() && order == InsertAt(old(order), k, t) && head == old(head)
      ensures state == old(state)[t := READY] && parent == old(parent)[t := maker]
      ensures old(AllParented()) ==> AllParented()
    {
      hide Ring, InsertAt;
      Inserted(next, head, order, k, t);
      InsertMembers(order, k, t);
      next := next[t := next[maker]];
      next := next[maker := t];
      order := InsertAt(order, k, t);
      state, parent := state[t := READY], parent[t := maker];
    }

    /** Kernel tasks go to the end: walk to the last task, then link. */
    method Append(t: nat, maker: nat)
      requires Valid() && t !in order
      modifies this
      ensures Valid() && order == old(order) + [t] && head == old(head)
      ensures state == old(state)[t := READY] && parent == old(parent)[t := maker]
    {
      hide Ring;
      var tail := LastTask();
      ghost var k := |order| - 1;
      RingFacts(next, head, order, k);
      Inserted(next, head, order, k, t);
      InsertMembers(order, k, t);
      assert InsertAt(order, k, t) == order + [t];
      next := next[t := head];
      next := next[tail := t];
      order := InsertAt(order, k, t);
      state, parent := state[t := READY], parent[t := maker];
    }

    method LastTask() returns (tail: nat)
      requires Valid()
      ensures tail == order[|order| - 1]
    {
      hide Ring;
      tail := head;
      ghost var k := 0;
      RingFacts(next, head, order, 0);
      while next[tail] != head
        invariant 0 <= k < |order| && tail == order[k] && tail in next && next[tail] == order[Succ(k, |order|)]
        decreases |order| - k
      {
        tail, k := next[tail], k + 1;
        RingFacts(next, head, order, k);
      }
      assert Succ(k, |order|) == 0;
    }

    /** Taking order[k], whose predecessor is prev, out of the ring. */
    method Unlink(task: nat, prev: nat, ghost k: nat)
      requires Valid() && |order| > 1 && k < |order| && task == order[k] && prev == order[Pred(k, |order|)]
      modifies this
      ensures Valid() && order == Without(old(order), k) && head == (if k == 0 then old(order)[1] else old(head))
      ensures state == old(state) - {task} && parent == old(parent) - {task}
      ensures prev in next && next[prev] == old(order)[Succ(k, |old(order)|)]
    {
      hide Ring, Without, Distinct, Succ, Pred;
      UnlinkFacts(next, head, order, k);
      Removed(next, head, order, k);
      var after := next[task];
      next := next[prev := after];
      if task == head {
        head := after;
      }
      next := next - {task};
      state, parent := state - {task}, parent - {task};
      order := Without(order, k);
    }

    /** Zombies the running task may reap: its children, or any for 1 and 2. */
    predicate Reapable(t: nat, current: nat)
      reads this
      requires t in state && t in parent
    {
      state[t] == ZOMBIE && (parent[t] == current || current == 1 || current == 2)
    }

    ghost function Dead(current: nat): set<nat>
      reads this
      requires Valid()
    {
      set t | t in order && Reapable(t, current)
    }

    /** The tasks one call of reap_zombies removes. */
    ghost function Gone(current: nat): set<nat>
      reads this
      requires Valid()
    {
      if head !in Dead(current) then Dead(current) else if |order| == 1 then {} else {head}
    }

    /** Every task's parent, which a dying task signals and wakes, is still a task. */
    ghost predicate AllParented()
      reads this
      requires Valid()
    {
      forall t :: t in order ==> parent[t] in order
    }

    /** No task that stays has a parent that goes. */
    ghost predicate ParentsStay(current: nat)
      reads this
      requires Valid()
    {
      forall t :: t in order && t !in Gone(current) ==> parent[t] !in Gone(current)
    }

    /** The loop of reap_zombies behind a head that stays. */
    method ReapBehind(current: nat)
      requires Valid() && !Reapable(head, current)
      modifies this
      ensures Valid() && order == Kept(old(order), old(Dead(current))) && head == old(head)
      ensures Restricted(old(state), state, order) && Restricted(old(parent), parent, order)
      ensures forall t :: t in old(order) ==>
                (t !in order <==> old(state)[t] == ZOMBIE && (old(parent)[t] == current || current == 1 || current == 2))
    {
      hide Ring, Without, Kept, Pass;
      ghost var was, dead, m := order, Dead(current), 1;
      ghost var k := 1;
      var prev := head;
      RingFacts(next, head, order, 0);
      PassStart(order, dead);
      var task := next[head];
      while task != head
        invariant Valid() && head == was[0] && Pass(was, dead, order, k, m) && 0 < k <= |order| && 0 < m <= |was|
        invariant Restricted(old(state), state, order) && Restricted(old(parent), parent, order) && (forall t :: t in order ==> t in was)
        invariant prev == order[k - 1] && task == (if k < |order| then order[k] else head)
        decreases |was| - m
      {
        PassFacts(was, dead, order, k, m);
        RingFacts(next, head, order, k);
        if Reapable(task, current) {
          ghost var o := order;
          WithoutMembers(o, k);
          WithoutIs(o, k);
          Unlink(task, prev, k);
          PassDrop(was, dead, o, k, m);
          RingFacts(next, head, order, 0);
          task := next[prev];
        } else {
          PassKeep(was, dead, order, k, m);
          prev := task;
          task := next[task];
          k := k + 1;
        }
        m := m + 1;
      }
      RingFacts(next, head, order, 0);
      PassDone(was, dead, order, k, m, head);
    }

    /** reap_zombies. A pass that starts at a task it may not reap removes all
        it may and keeps the order; reaping the head ends the pass. Children keep
        the parent they had, so the parents are all tasks afterwards exactly
        when none that goes leaves a child behind. */
    method ReapZombies(current: nat)
      requires Valid()
      modifies this
      ensures Valid()
      ensures old(head) !in old(Dead(current)) ==> order == Kept(old(order), old(Dead(current))) && head == old(head)
      ensures old(head) in old(Dead(current)) ==> order == if |old(order)| == 1 then old(order) else old(order)[1..]
      ensures Restricted(old(state), state, order) && Restricted(old(parent), parent, order)
      ensures forall t :: t in order <==> t in old(order) && t !in old(Gone(current))
      ensures old(AllParented()) ==> (AllParented() <==> old(ParentsStay(current)))
      ensures forall t :: t in order ==> t in old(order)
      ensures forall t :: t in old(order) && t !in order ==>
                old(state)[t] == ZOMBIE && (old(parent)[t] == current || current == 1 || current == 2)
      ensures old(state)[old(head)] != ZOMBIE ==>
                forall t :: t in old(order) && old(state)[t] == ZOMBIE && (old(parent)[t] == current || current == 1 || current == 2) ==> t !in order
      ensures |old(order)| > 1 && old(state)[old(head)] == ZOMBIE && (old(parent)[old(head)] == current || current == 1 || current == 2) ==>
                old(head) !in order && forall t :: t in old(order) && t != old(head) ==> t in order
    {
      hide Ring, Without, Kept;
      var prev := LastTask();
      RingFacts(next, head, order, 0);
      if Reapable(head, current) {
        if next[head] != head {
          ghost var o := order;
          WithoutMembers(o, 0);
          WithoutIs(o, 0);
          Unlink(head, prev, 0);
          assert order == o[1..];
        }
      } else {
        ReapBehind(current);
      }
    }
  }

  /** A task whose parent is reaped before it: its own death would signal and
      wake a task that is no more. */
  method ParentGoesFirst(one: nat, two: nat, three: nat) returns (q: Tasks)
    requires one == 1 && one != two && two != three && three != one
    ensures q.Valid() && three in q.order && two !in q.order && three in q.parent && q.parent[three] == two && !q.AllParented()
  {
    hide Ring, Kept, InsertAt;
    q := new Tasks(one);
    InsertMembers([one], 0, two);
    q.AddBehind(two, one, 0);
    Second(one, two);
    InsertMembers(q.order, 1, three);
    q.AddBehind(three, two, 1);
    Third(one, two, three);
    q.state := q.state[two := ZOMBIE];
    assert !q.Reapable(one, 1);
    q.ReapZombies(1);
  }

  lemma Second(a: nat, b: nat)
    ensures InsertAt([a], 0, b) == [a, b]
  {
  }

  lemma Third(a: nat, b: nat, c: nat)
    ensures InsertAt([a, b], 1, c) == [a, b, c]
  {
  }

  /** The tasks in order have in m' what they had in m. */
  ghost predicate Restricted<T(!new)>(m: map<nat, T>, m': map<nat, T>, order: seq<nat>)
  {
    forall t :: t in order ==> t in m && t in m' && m'[t] == m[t]
  }

  /** The first m of was have been looked at, the first k of order remain of
      them; the first stays. */
  ghost predicate Pass(was: seq<nat>, dead: set<nat>, order: seq<nat>, k: nat, m: nat)
  {
    0 < k <= |order| && 0 < m <= |was| && was[0] !in dead && order[..k] == Kept(was[..m], dead) && order[k..] == was[m..]
  }

  lemma PassStart(was: seq<nat>, dead: set<nat>)
    requires was != [] && was[0] !in dead
    ensures Pass(was, dead, was, 1, 1)
  {
    assert was[..1] == [was[0]] && [was[0]][1..] == [];
  }

  lemma PassFacts(was: seq<nat>, dead: set<nat>, order: seq<nat>, k: nat, m: nat)
    requires Pass(was, dead, order, k, m) && k < |order|
    ensures m < |was| && order[k] == was[m]
  {
    assert order[k] == order[k..][0];
  }

  lemma PassKeep(was: seq<nat>, dead: set<nat>, order: seq<nat>, k: nat, m: nat)
    requires Pass(was, dead, order, k, m) && k < |order| && m < |was| && was[m] !in dead
    ensures Pass(was, dead, order, k + 1, m + 1)
  {
    hide Kept;
    PassFacts(was, dead, order, k, m);
    KeptNext(was, dead, m);
    assert order[..k + 1] == order[..k] + [order[k]];
    assert order[k + 1..] == order[k..][1..] && was[m + 1..] == was[m..][1..];
  }

  lemma PassDrop(was: seq<nat>, dead: set<nat>, order: seq<nat>, k: nat, m: nat)
    requires Pass(was, dead, order, k, m) && k < |order| && m < |was| && was[m] in dead
    ensures Pass(was, dead, Without(order, k), k, m + 1)
  {
    hide Kept;
    KeptNext(was, dead, m);
    assert order[k + 1..] == order[k..][1..] && was[m + 1..] == was[m..][1..];
  }

  lemma PassDone(was: seq<nat>, dead: set<nat>, order: seq<nat>, k: nat, m: nat, head: nat)
    requires Pass(was, dead, order, k, m) && Distinct(order) && order[0] == head && (if k < |order| then order[k] else head) == head
    ensures order == Kept(was, dead)
  {
    hide Kept;
    assert k == |order|;
    assert order[..k] == order && was[..m] == was;
  }

  lemma KeptNext(order: seq<nat>, dead: set<nat>, m: nat)
    requires m < |order|
    ensures Kept(order[..m + 1], dead) == if order[m] in dead then Kept(order[..m], dead) else Kept(order[..m], dead) + [order[m]]
  {
    assert order[..m + 1] == order[..m] + [order[m]];
    KeptSplit(order[..m], [order[m]], dead);
    assert [order[m]][1..] == [];
  }
}
