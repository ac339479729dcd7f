/** The sleep and wake-up handshake of pipe_read, pipe_write and
    pipe_remove_writer, any number of readers against everybody else, step by
    step. The pipe remembers one waiting task only. */
module PipeWakeup {

  /** Where a reader stands in pipe_read. */
  datatype Reading =
    | Outside
    | Checking   // lock held, at the loop condition
    | Named      // lock held, waiting_task set
    | Marked     // lock held, own state set to WAITING
    | Asleep     // lock released, halted; any interrupt ends it, whatever its state
    | Back       // lock held again, waiting_task not yet cleared
    | Leaving    // lock held, bytes copied or end of file seen

  /** Where the current holder of the lock on the other side stands. */
  datatype Other = Away | Entered | Wrote | Removed | Finished

  datatype Run = Running | Ready | Waiting

  datatype Reader = Reader(reading: Reading, run: Run)

  /** waiting is the reader that waiting_task names, -1 for none. */
  datatype State = State(readers: seq<Reader>, other: Other, waiting: int, len: nat, writers: nat)

  datatype Step =
    // reader i
    | Lock(i: nat) | MustWait(i: nat) | SetWaiting(i: nat) | Sleep(i: nat) | Relock(i: nat) | ClearWaiting(i: nat)
    | Copy(i: nat, n: nat) | EndOfFile(i: nat) | Leave(i: nat)
    // a writer, or someone adding or dropping a write end
    | OtherLock | WriteBytes(n: nat) | DropWriter | AddWriter | Wake | OtherUnlock
    // the scheduler, and wake-ups that have nothing to do with the pipe
    | Dispatch(i: nat) | Preempt(i: nat) | Stray(i: nat)

  predicate Holds(r: Reading)
  {
    r != Outside && r != Asleep
  }

  predicate LockFree(s: State)
  {
    s.other == Away && forall i :: 0 <= i < |s.readers| ==> !Holds(s.readers[i].reading)
  }

  predicate At(s: State, i: nat, r: Reading)
  {
    i < |s.readers| && s.readers[i].reading == r
  }

  predicate Is(s: State, i: nat, r: Run)
  {
    i < |s.readers| && s.readers[i].run == r
  }

  predicate Enabled(s: State, step: Step)
  {
    match step
    case Lock(i) => At(s, i, Outside) && !Is(s, i, Waiting) && LockFree(s)
    case MustWait(i) => At(s, i, Checking) && s.len == 0 && s.writers > 0
    case SetWaiting(i) => At(s, i, Named)
    case Sleep(i) => At(s, i, Marked)
    case Relock(i) => At(s, i, Asleep) && LockFree(s)
    case ClearWaiting(i) => At(s, i, Back)
    case Copy(i, n) => At(s, i, Checking) && 0 < s.len && n <= s.len
    case EndOfFile(i) => At(s, i, Checking) && s.len == 0 && s.writers == 0
    case Leave(i) => At(s, i, Leaving)
    case OtherLock => LockFree(s)
    case WriteBytes(_) => s.other == Entered
    case DropWriter => s.other == Entered
    case AddWriter => s.other == Entered
    case Wake => s.other == Wrote || (s.other == Removed && s.writers == 0)
    case OtherUnlock => s.other == Finished || s.other == Entered || (s.other == Removed && s.writers > 0)
    case Dispatch(i) => Is(s, i, Ready)
    case Preempt(i) => Is(s, i, Running)
    case Stray(i) => Is(s, i, Waiting)
  }

  function Go(s: State, i: nat, r: Reading): State
    requires i < |s.readers|
  {
    s.(readers := s.readers[i := s.readers[i].(reading := r)])
  }

  function Turn(s: State, i: nat, r: Run): State
    requires i < |s.readers|
  {
    s.(readers := s.readers[i := s.readers[i].(run := r)])
  }

  function Do(s: State, step: Step): State
    requires Enabled(s, step)
  {
    match step
    case Lock(i) => Go(s, i, Checking)
    case MustWait(i) => Go(s, i, Named).(waiting := i)
    case SetWaiting(i) => Turn(Go(s, i, Marked), i, Waiting)
    case Sleep(i) => Go(s, i, Asleep)
    case Relock(i) => Go(s, i, Back)
    case ClearWaiting(i) => Go(s, i, Checking).(waiting := -1)
    case Copy(i, n) => Go(s, i, Leaving).(len := s.len - n)
    case EndOfFile(i) => Go(s, i, Leaving)
    case Leave(i) => Go(s, i, Outside)
    case OtherLock => s.(other := Entered)
    case WriteBytes(n) => s.(other := Wrote, len := s.len + n)
    case DropWriter => s.(other := Removed, writers := if s.writers > 0 then s.writers - 1 else 0)
    case AddWriter => s.(other := Finished, writers := s.writers + 1)
    case Wake => (if s.waiting >= 0 && Is(s, s.waiting, Waiting) then Turn(s, s.waiting, Ready) else s).(other := Finished)
    case OtherUnlock => s.(other := Away)
    case Dispatch(i) => Turn(s, i, Running)
    case Preempt(i) => Turn(s, i, Ready)
    case Stray(i) => Turn(s, i, Ready)
  }

  ghost predicate Runs(s: State, steps: seq<Step>, s': State)
    decreases |steps|
  {
    if steps == [] then s' == s
    else Enabled(s, steps[0]) && Runs(Do(s, steps[0]), steps[1..], s')
  }

  predicate InWait(r: Reading)
  {
    r in {Named, Marked, Asleep, Back}
  }

  /** At most one reader is between naming itself and clearing the name. */
  predicate Alone(s: State)
  {
    forall i, j :: 0 <= i < j < |s.readers| ==> !(InWait(s.readers[i].reading) && InWait(s.readers[j].reading))
  }

  /** So it is all along the run. */
  ghost predicate AloneAlong(s: State, steps: seq<Step>)
    decreases |steps|
  {
    Alone(s) && (steps != [] && Enabled(s, steps[0]) ==> AloneAlong(Do(s, steps[0]), steps[1..]))
  }

  /** Nothing to read and someone left to write. */
  predicate Dry(s: State)
  {
    s.len == 0 && s.writers > 0
  }

  /** A reader sleeps on though there is something for it. */
  predicate Lost(s: State)
  {
    LockFree(s) && !Dry(s) && exists i: nat :: i < |s.readers| && Is(s, i, Waiting)
  }

  ghost predicate ReaderOk(s: State, i: nat)
    requires i < |s.readers|
  {
    var r := s.readers[i];
    && (s.waiting == i <==> InWait(r.reading))
    && (Holds(r.reading) ==> s.other == Away)
    && (r.run == Waiting ==> r.reading == Checking || InWait(r.reading))
    && (r.reading == Named || r.reading == Marked ==> Dry(s))
    && (Holds(r.reading) && r.run == Waiting ==> Dry(s))
    && (r.reading == Asleep && r.run == Waiting ==> Dry(s) || s.other == Wrote || (s.other == Removed && s.writers == 0))
  }

  ghost predicate OneHolder(s: State)
  {
    forall i, j :: 0 <= i < j < |s.readers| ==> !(Holds(s.readers[i].reading) && Holds(s.readers[j].reading))
  }

  ghost predicate Inv(s: State)
  {
    OneHolder(s) && -1 <= s.waiting < |s.readers| && forall i :: 0 <= i < |s.readers| ==> ReaderOk(s, i)
  }

  lemma HolderKept(s: State, step: Step)
    requires OneHolder(s) && Enabled(s, step)
    ensures OneHolder(Do(s, step))
  {
  }

  /** Every step keeps the handshake as long as readers wait one at a time. */
  lemma InvKept(s: State, step: Step)
    requires Inv(s) && Enabled(s, step) && Alone(Do(s, step))
    ensures Inv(Do(s, step))
  {
    var s' := Do(s, step);
    HolderKept(s, step);
    forall i | 0 <= i < |s'.readers|
      ensures ReaderOk(s', i)
    {
      OneKept(s, step, i);
    }
  }

  lemma NotBoth(s: State, i: nat, j: nat)
    requires Alone(s) && i < |s.readers| && j < |s.readers| && i != j
    ensures !(InWait(s.readers[i].reading) && InWait(s.readers[j].reading))
  {
    var a, b := if i < j then i else j, if i < j then j else i;
    assert !(InWait(s.readers[a].reading) && InWait(s.readers[b].reading));
  }

  lemma OneKept(s: State, step: Step, i: nat)
    requires Inv(s) && Enabled(s, step) && Alone(Do(s, step)) && i < |s.readers|
    ensures |Do(s, step).readers| == |s.readers| && ReaderOk(Do(s, step), i)
  {
    assert ReaderOk(s, i);
    match step {
      case MustWait(j) => if i != j { NotBoth(Do(s, step), i, j); }
      case Copy(j, n) => assert ReaderOk(s, j);
      case EndOfFile(j) => assert ReaderOk(s, j);
      case ClearWaiting(j) => assert ReaderOk(s, j);
      case _ =>
    }
  }

  predicate Init(s: State)
  {
    && s.other == Away && s.waiting == -1
    && forall i :: 0 <= i < |s.readers| ==> s.readers[i].reading == Outside && s.readers[i].run != Waiting
  }

  lemma {:induction false} RunInv(s: State, steps: seq<Step>, s': State)
    requires Inv(s) && Runs(s, steps, s') && AloneAlong(s, steps)
    ensures Inv(s')
    decreases |steps|
  {
    if steps != [] {
      InvKept(s, steps[0]);
      RunInv(Do(s, steps[0]), steps[1..], s');
    }
  }

  /** Over every run on which readers wait one at a time: whenever the lock is
      free, a reader that sleeps is the one that will be woken, and has nothing
      to wake up for yet. */
  lemma NoLostWakeup(s: State, steps: seq<Step>, s': State, i: nat)
    requires Init(s) && Runs(s, steps, s') && AloneAlong(s, steps) && LockFree(s') && Is(s', i, Waiting)
    ensures s'.waiting == i && s'.len == 0 && s'.writers > 0
  {
    RunInv(s, steps, s');
    assert ReaderOk(s', i);
  }

  /** A reader whose halt ends while it is still marked WAITING finds nothing to
      do and goes back to wait: it never leaves the pipe, or anything, asleep. */
  lemma NeverLeavesWaiting(s: State, steps: seq<Step>, s': State, i: nat)
    requires Init(s) && Runs(s, steps, s') && AloneAlong(s, steps)
    ensures At(s', i, Outside) || At(s', i, Leaving) ==> !Is(s', i, Waiting)
    ensures At(s', i, Checking) && Is(s', i, Waiting) ==> Enabled(s', MustWait(i))
  {
    RunInv(s, steps, s');
    if i < |s'.readers| {
      assert ReaderOk(s', i);
    }
  }

  /** Once a write that left bytes, or the drop of the last write end, has given
      back the lock, no reader sleeps. */
  lemma WokenAfterWrite(s: State, steps: seq<Step>, s': State, i: nat)
    requires Init(s) && Runs(s, steps, s') && AloneAlong(s, steps) && Enabled(s', OtherUnlock) && (s'.len > 0 || s'.writers == 0) && i < |s'.readers|
    ensures !Is(Do(s', OtherUnlock), i, Waiting)
  {
    RunInv(s, steps, s');
    assert ReaderOk(s', i);
  }

  // ----- Two readers

  lemma {:induction false} RunsThen(s: State, a: seq<Step>, m: State, b: seq<Step>, s': State)
    requires Runs(s, a, m) && Runs(m, b, s')
    ensures Runs(s, a + b, s')
    decreases |a|
  {
    if a == [] {
      assert a + b == b;
    } else {
      RunsThen(Do(s, a[0]), a[1..], m, b, s');
      assert (a + b)[0] == a[0] && (a + b)[1..] == a[1..] + b;
    }
  }

  lemma OneStep(s: State, step: Step)
    requires Enabled(s, step)
    ensures Runs(s, [step], Do(s, step))
  {
    assert [step][1..] == [];
  }

  /** Reader i goes to sleep on an empty pipe. */
  lemma FallsAsleep(s: State, i: nat) returns (steps: seq<Step>, s': State)
    requires LockFree(s) && Dry(s) && At(s, i, Outside) && !Is(s, i, Waiting)
    ensures Runs(s, steps, s') && s' == s.(readers := s.readers[i := Reader(Asleep, Waiting)], waiting := i) && LockFree(s')
  {
    var s1 := Do(s, Lock(i));
    var s2 := Do(s1, MustWait(i));
    var s3 := Do(s2, SetWaiting(i));
    s' := Do(s3, Sleep(i));
    OneStep(s, Lock(i));
    OneStep(s1, MustWait(i));
    OneStep(s2, SetWaiting(i));
    OneStep(s3, Sleep(i));
    RunsThen(s, [Lock(i)], s1, [MustWait(i)], s2);
    RunsThen(s, [Lock(i)] + [MustWait(i)], s2, [SetWaiting(i)], s3);
    steps := [Lock(i)] + [MustWait(i)] + [SetWaiting(i)] + [Sleep(i)];
    RunsThen(s, [Lock(i)] + [MustWait(i)] + [SetWaiting(i)], s3, [Sleep(i)], s');
    assert s'.readers == s.readers[i := Reader(Asleep, Waiting)];
  }

  /** One write to an empty pipe: it loses a wake-up exactly when some reader
      sleeps that the pipe does not name. */
  lemma WriteLosesIff(s: State) returns (steps: seq<Step>, s': State)
    requires LockFree(s) && Dry(s)
    ensures Runs(s, steps, s')
    ensures Lost(s') <==> exists i: nat :: i < |s.readers| && Is(s, i, Waiting) && s.waiting != i
  {
    var s1 := Do(s, OtherLock);
    var s2 := Do(s1, WriteBytes(1));
    var s3 := Do(s2, Wake);
    s' := Do(s3, OtherUnlock);
    OneStep(s, OtherLock);
    OneStep(s1, WriteBytes(1));
    OneStep(s2, Wake);
    OneStep(s3, OtherUnlock);
    RunsThen(s, [OtherLock], s1, [WriteBytes(1)], s2);
    RunsThen(s, [OtherLock] + [WriteBytes(1)], s2, [Wake], s3);
    steps := [OtherLock] + [WriteBytes(1)] + [Wake] + [OtherUnlock];
    RunsThen(s, [OtherLock] + [WriteBytes(1)] + [Wake], s3, [OtherUnlock], s');
    assert forall i :: 0 <= i < |s.readers| ==> (Is(s', i, Waiting) <==> Is(s, i, Waiting) && s.waiting != i);
    assert forall i :: 0 <= i < |s.readers| ==> s'.readers[i].reading == s.readers[i].reading;
  }

  /** Two readers that block on the same pipe: the second takes the name, one
      write wakes it, and the first sleeps on with a byte there. */
  lemma SecondReaderLoses(s: State) returns (steps: seq<Step>, s': State)
    requires Init(s) && Dry(s) && |s.readers| >= 2
    ensures Runs(s, steps, s') && Lost(s')
  {
    var a, s1 := FallsAsleep(s, 0);
    var b, s2 := FallsAsleep(s1, 1);
    RunsThen(s, a, s1, b, s2);
    assert Is(s2, 0, Waiting) && s2.waiting == 1;
    var c;
    c, s' := WriteLosesIff(s2);
    RunsThen(s, a + b, s2, c, s');
    steps := a + b + c;
  }

  lemma {:induction false} FewAreAlone(s: State, steps: seq<Step>)
    requires |s.readers| <= 1
    ensures AloneAlong(s, steps)
    decreases |steps|
  {
    if steps != [] && Enabled(s, steps[0]) {
      FewAreAlone(Do(s, steps[0]), steps[1..]);
    }
  }

  ghost predicate NeverLoses(s: State)
  {
    forall steps, s' :: Runs(s, steps, s') ==> !Lost(s')
  }

  /** The exact condition: no run from an empty pipe loses a wake-up if and only
      if at most one task reads it. */
  lemma SafeIffOneReader(s: State)
    requires Init(s) && Dry(s)
    ensures NeverLoses(s) <==> |s.readers| <= 1
  {
    hide Lost, Init, Dry;
    if |s.readers| <= 1 {
      forall steps, s' | Runs(s, steps, s')
        ensures !Lost(s')
      {
        OneReaderIsSafe(s, steps, s');
      }
    } else {
      var steps, s' := SecondReaderLoses(s);
      assert Runs(s, steps, s') && Lost(s');
    }
  }

  lemma OneReaderIsSafe(s: State, steps: seq<Step>, s': State)
    requires Init(s) && |s.readers| <= 1 && Runs(s, steps, s')
    ensures !Lost(s')
  {
    FewAreAlone(s, steps);
    hide Runs, Init, AloneAlong, Dry;
    forall i: nat | i < |s'.readers| && Is(s', i, Waiting) && LockFree(s')
      ensures s'.len == 0 && s'.writers > 0
    {
      NoLostWakeup(s, steps, s', i);
    }
    assert !Lost(s') by { DryIs(s'); }
  }

  lemma DryIs(s: State)
    ensures Dry(s) <==> s.len == 0 && s.writers > 0
  {
  }
}
