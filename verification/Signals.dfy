/** Signals of kernel/core/task.c and syscall_dispatch.c: delivery, dispatch to a
    user handler by a frame on the user stack, and return from the handler. */
module Signals {
  import opened Bytes

  const SIGINT: nat := 2
  const SIGKILL: nat := 9
  const SIGTERM: nat := 15
  const SIGCHLD: nat := 17

  /** mov eax, 50; int 0x80 */
  const TRAMPOLINE: seq<byte> := [0xB8, 50, 0, 0, 0, 0xCD, 0x80]

  // ----- The frame on the user stack

  function AlignDown(v: nat, n: nat): (r: nat)
    requires n == 4 || n == 8
    ensures r <= v < r + n && r % n == 0
  {
    v - v % n
  }

  /** Lowest address of the frame pushed below sp. */
  function FrameSp(sp: nat, narrow: bool): (r: nat)
    requires 30 <= sp
    ensures r + (if narrow then 15 else 23) <= sp < r + 31
  {
    if narrow then AlignDown(sp - 7, 4) - 8 else AlignDown(sp - 7, 8) - 16
  }

  /** The stores of task_check_pending_signals: trampoline, signal number,
      return address. */
  function PushFrame(m: seq<byte>, sp: nat, sig: nat, narrow: bool): (r: seq<byte>)
    requires 30 <= sp <= |m| && sp < WORD64 && sig < WORD
    ensures |r| == |m|
  {
    var u := FrameSp(sp, narrow);
    var m1 := Put(m, sp - 7, TRAMPOLINE);
    if narrow then Put32(Put32(m1, u + 4, sig), u, sp - 7)
    else Put64(Put64(m1, u + 8, sig), u, sp - 7)
  }

  /** What the handler finds: its return address is the trampoline, whose bytes
      are intact, its argument is the signal; nothing above the old stack
      pointer or below the new one has changed. */
  lemma FrameIs(m: seq<byte>, sp: nat, sig: nat, narrow: bool)
    requires 30 <= sp <= |m| && sp < WORD64 && sig < WORD
    ensures var r, u := PushFrame(m, sp, sig, narrow), FrameSp(sp, narrow);
            && r[sp - 7..sp] == TRAMPOLINE && SameOutside(m, r, u, sp)
            && (if narrow then (sp < WORD ==> Get32(r, u) == sp - 7) && Get32(r, u + 4) == sig && u % 4 == 0
                else Get64(r, u) == sp - 7 && Get64(r, u + 8) == sig && u % 8 == 0)
  {
    hide Get32, Put32, Get64, Put64, Put, AlignDown, SameOutside;
    var u := FrameSp(sp, narrow);
    var m1 := Put(m, sp - 7, TRAMPOLINE);
    var r := PushFrame(m, sp, sig, narrow);
    if narrow {
      var m2 := Put32(m1, u + 4, sig);
      Word32Frame(m2, r, u + 4, u);
      FrameStores(m, m1, m2, r, u, u + 4, u + 8, sp);
    } else {
      var m2 := Put64(m1, u + 8, sig);
      Word64Frame(m2, r, u + 8, u);
      FrameStores(m, m1, m2, r, u, u + 8, u + 16, sp);
    }
    assert u % (if narrow then 4 else 8) == 0 by { Aligned(sp, narrow); }
  }

  lemma Aligned(sp: nat, narrow: bool)
    requires 30 <= sp
    ensures FrameSp(sp, narrow) % (if narrow then 4 else 8) == 0
  {
  }

  /** Three stores below sp: the upper one stays, and nothing else changes. */
  lemma FrameStores(m: seq<byte>, m1: seq<byte>, m2: seq<byte>, r: seq<byte>, u: nat, v: nat, w: nat, sp: nat)
    requires u <= v <= w && w + 7 <= sp <= |m| && SameOutside(m, m1, sp - 7, sp) && SameOutside(m1, m2, v, w) && SameOutside(m2, r, u, v)
    ensures SameOutside(m, r, u, sp) && r[sp - 7..sp] == m1[sp - 7..sp]
  {
  }

  lemma Word32Frame(m: seq<byte>, m': seq<byte>, p: nat, q: nat)
    requires SameOutside(m, m', q, q + 4) && q + 4 <= p && p + 4 <= |m|
    ensures Get32(m', p) == Get32(m, p)
  {
  }

  lemma Word64Frame(m: seq<byte>, m': seq<byte>, p: nat, q: nat)
    requires SameOutside(m, m', q, q + 8) && q + 8 <= p && p + 8 <= |m|
    ensures Get64(m', p) == Get64(m, p)
  {
  }

  // ----- One task's signal state

  datatype Context = Context(ip: nat, sp: nat)

  /** The signal fields of task_t and the user registers. main is where the
      program itself stands, apart from handlers. raised counts how often a pending
      bit went from clear to set, dispatched how often a handler was entered. */
  datatype State = State(pending: set<nat>, inSignal: bool, handler: nat, saved: Context, regs: Context, narrow: bool, dead: bool,
                         main: Context, raised: multiset<nat>, dispatched: multiset<nat>)

  /** A bit that is set already is not raised again: deliveries merge. */
  function Raise(s: State, sig: nat): multiset<nat>
  {
    if sig in s.pending then s.raised else s.raised + multiset{sig}
  }

  /** task_deliver_signal. */
  function Delivered(s: State, sig: nat): State
  {
    if sig == SIGKILL || ((sig == SIGTERM || sig == SIGINT) && s.handler == 0) then s.(dead := true)
    else if sig == SIGTERM || sig == SIGINT then s.(pending := s.pending + {sig}, raised := Raise(s, sig))
    else s
  }

  /** The signal a return to user mode dispatches, 0 for none. */
  function Due(s: State): nat
  {
    if s.inSignal || s.handler == 0 then 0
    else if SIGTERM in s.pending then SIGTERM
    else if SIGINT in s.pending then SIGINT
    else 0
  }

  /** task_check_pending_signals. */
  function Checked(s: State): State
    requires Due(s) != 0 ==> 30 <= s.regs.sp
  {
    var sig := Due(s);
    if sig == 0 then s else
    s.(pending := s.pending - {sig}, saved := s.regs, regs := Context(s.handler, FrameSp(s.regs.sp, s.narrow)), inSignal := true,
       dispatched := s.dispatched + multiset{sig})
  }

  /** The sigreturn system call, before the check that ends every call. */
  function Returned(s: State): State
  {
    if s.inSignal then s.(regs := s.saved, inSignal := false) else s
  }

  /** A signal that a handler has to see on the way back to user mode. */
  predicate Waits(s: State)
  {
    !s.inSignal && s.handler != 0 && (15 in s.pending || 2 in s.pending)
  }

  /** Execution goes on in the handler: with 15 before 2, that bit alone no longer
      pending, the interrupted registers saved, and on the stack the address of
      the seven bytes that call sigreturn, then the signal. */
  ghost predicate Enters(s: State, m: seq<byte>, s': State, m': seq<byte>)
  {
    var sig, top, sp := if 15 in s.pending then 15 else 2, s.regs.sp, s'.regs.sp;
    && s'.regs.ip == s.handler && s'.inSignal && s'.saved == s.regs
    && s'.pending == s.pending - {sig} && s'.dispatched == s.dispatched + multiset{sig}
    && s' == s.(pending := s'.pending, dispatched := s'.dispatched, saved := s'.saved, regs := s'.regs, inSignal := true)
    && 7 <= top <= |m| && sp + (if s.narrow then 8 else 16) <= top - 7 && SameOutside(m, m', sp, top)
    && m'[top - 7..top] == [0xB8, 50, 0, 0, 0, 0xCD, 0x80]
    && if s.narrow then sp % 4 == 0 && (top < WORD ==> Get32(m', sp) == top - 7) && Get32(m', sp + 4) == sig
       else sp % 8 == 0 && Get64(m', sp) == top - 7 && Get64(m', sp + 8) == sig
  }

  lemma FrameEntered(s: State, m: seq<byte>, sig: nat)
    requires Due(s) == sig != 0 && 30 <= s.regs.sp <= |m| && s.regs.sp < WORD64
    ensures Waits(s) && Enters(s, m, Checked(s), PushFrame(m, s.regs.sp, sig, s.narrow))
  {
    hide Get32, Put32, Get64, Put64, Put, AlignDown, SameOutside;
    FrameIs(m, s.regs.sp, sig, s.narrow);
  }

  class SignalTask {
    var state: State
    var mem: seq<byte>

    constructor (state0: State, mem0: seq<byte>)
      ensures state == state0 && mem == mem0
    {
      state, mem := state0, mem0;
    }

    /** task_check_pending_signals on the way back to user mode. */
    method CheckPending()
      requires Due(state) != 0 ==> 30 <= state.regs.sp <= |mem| && state.regs.sp < WORD64
      modifies this
      ensures state == Checked(old(state))
      ensures mem == if Due(old(state)) == 0 then old(mem) else PushFrame(old(mem), old(state).regs.sp, Due(old(state)), old(state).narrow)
      ensures if Waits(old(state)) then Enters(old(state), old(mem), state, mem) else state == old(state) && mem == old(mem)
    {
      if state.inSignal || state.handler == 0 {
        return;
      }
      var sig := 0;
      if SIGTERM in state.pending {
        sig := SIGTERM;
      } else if SIGINT in state.pending {
        sig := SIGINT;
      }
      if sig == 0 {
        return;
      }
      state := state.(pending := state.pending - {sig}, dispatched := state.dispatched + multiset{sig});
      state := state.(saved := state.regs);
      var u := BuildFrame(sig);
      state := state.(regs := Context(state.handler, u), inSignal := true);
      FrameEntered(old(state), old(mem), sig);
    }

    /** The frame below the saved stack pointer; the new stack pointer. */
    method BuildFrame(sig: nat) returns (u: nat)
      requires 30 <= state.saved.sp <= |mem| && state.saved.sp < WORD64 && sig < WORD
      modifies this`mem
      ensures u == FrameSp(state.saved.sp, state.narrow) && mem == PushFrame(old(mem), state.saved.sp, sig, state.narrow)
    {
      hide Put, Put32, Put64, AlignDown, Get32, Get64, SameOutside;
      u := state.saved.sp - 7;
      mem := Put(mem, u, TRAMPOLINE);
      var trampoline := u;
      if state.narrow {
        u := AlignDown(u, 4) - 4;
        mem := Put32(mem, u, sig);
        u := u - 4;
        mem := Put32(mem, u, trampoline);
      } else {
        u := AlignDown(u, 8) - 8;
        mem := Put64(mem, u, sig);
        u := u - 8;
        mem := Put64(mem, u, trampoline);
      }
    }

    /** task_deliver_signal. */
    method Deliver(sig: nat)
      modifies this`state
      ensures state == Delivered(old(state), sig)
      ensures sig == 9 ==> state == old(state).(dead := true)
      ensures sig == 15 || sig == 2 ==> (state.dead <==> old(state).dead || old(state).handler == 0)
      ensures (sig == 15 || sig == 2) && old(state).handler != 0 ==> state.pending == old(state).pending + {sig}
      ensures sig != 9 && sig != 15 && sig != 2 ==> state == old(state)
    {
      match sig
      case 9 => state := state.(dead := true);
      case 15 => Queue(sig);
      case 2 => Queue(sig);
      case _ =>
    }

    method Queue(sig: nat)
      modifies this`state
      ensures state == if old(state).handler == 0 then old(state).(dead := true)
                       else old(state).(pending := old(state).pending + {sig}, raised := Raise(old(state), sig))
    {
      if state.handler != 0 {
        state := state.(raised := Raise(state, sig));
        state := state.(pending := state.pending + {sig});
        return;
      }
      state := state.(dead := true);
    }
  }

  // ----- Runs

  datatype Step =
    | Send(sig: nat)
    | ChildDied                     // sets SIGCHLD directly
    | Run(context: Context)         // user code, in the program or in a handler
    | Call                          // any system call but the two below
    | SigAction(sig: nat, h: nat)
    | SigReturn

  ghost predicate Enabled(s: State, step: Step)
  {
    !s.dead && (step.Run? ==> 30 <= step.context.sp)
  }

  ghost predicate Inv(s: State)
  {
    && s.pending <= {SIGINT, SIGTERM, SIGCHLD} && 30 <= s.main.sp
    && (if s.inSignal then s.saved == s.main else s.regs == s.main)
    && Counts(s, SIGTERM) && Counts(s, SIGINT)
  }

  /** Every raised bit was dispatched exactly once, or is pending still. */
  ghost predicate Counts(s: State, sig: nat)
  {
    s.dispatched[sig] + (if sig in s.pending then 1 else 0) == s.raised[sig]
  }

  ghost function Do(s: State, step: Step): State
    requires Inv(s) && Enabled(s, step)
  {
    match step
    case Send(sig) => Delivered(s, sig)
    case ChildDied => s.(pending := s.pending + {SIGCHLD})
    case Run(c) => s.(regs := c, main := if s.inSignal then s.main else c)
    case Call => Checked(s)
    case SigAction(sig, h) => Checked(if sig == SIGKILL || sig == SIGCHLD then s else s.(handler := h % WORD))
    case SigReturn => Checked(Returned(s))
  }

  lemma InvKept(s: State, step: Step)
    requires Inv(s) && Enabled(s, step)
    ensures Inv(Do(s, step))
  {
    hide Checked, Delivered;
    match step {
      case Send(sig) => DeliveredKeeps(s, sig);
      case ChildDied =>
      case Run(c) =>
      case Call => CheckedKeeps(s);
      case SigAction(sig, h) => CheckedKeeps(if sig == SIGKILL || sig == SIGCHLD then s else s.(handler := h % WORD));
      case SigReturn => CheckedKeeps(Returned(s));
    }
  }

  lemma DeliveredKeeps(s: State, sig: nat)
    requires Inv(s)
    ensures Inv(Delivered(s, sig))
  {
  }

  lemma CheckedKeeps(s: State)
    requires Inv(s)
    ensures (Due(s) != 0 ==> 30 <= s.regs.sp) && Inv(Checked(s))
  {
    hide FrameSp;
  }

  ghost predicate Runs(s: State, steps: seq<Step>, s': State)
    requires Inv(s)
    decreases |steps|
  {
    if steps == [] then s' == s
    else Enabled(s, steps[0]) && (InvKept(s, steps[0]); Runs(Do(s, steps[0]), steps[1..], s'))
  }

  lemma {:induction false} RunInv(s: State, steps: seq<Step>, s': State)
    requires Inv(s) && Runs(s, steps, s')
    ensures Inv(s')
    decreases |steps|
  {
    hide Inv, Enabled, Do;
    if steps != [] {
      InvKept(s, steps[0]);
      RunInv(Do(s, steps[0]), steps[1..], s');
    }
  }

  /** Over every run, however many handlers came in between: sigreturn gives
      back the program's own instruction and stack pointer, and if another
      signal is dispatched at once, it is that pair that is saved again. */
  lemma ReturnResumesProgram(s: State, steps: seq<Step>, s': State)
    requires Inv(s) && Runs(s, steps, s') && !s'.dead && s'.inSignal
    ensures Returned(s').regs == s'.main
    ensures Inv(s') && var t := Do(s', SigReturn); t.main == s'.main && if t.inSignal then t.saved == s'.main else t.regs == s'.main
  {
    RunInv(s, steps, s');
    InvKept(s', SigReturn);
  }

  /** Handlers never nest: while one is active only its own return can lead to
      another dispatch. SIGKILL is never pending. Each raised bit is dispatched
      exactly once or pending still: none is lost, none is dispatched twice. */
  lemma HandlersNeverNest(s: State, steps: seq<Step>, s': State, step: Step)
    requires Inv(s) && Runs(s, steps, s') && Enabled(s', step)
    ensures Inv(s') && SIGKILL !in s'.pending
    ensures forall sig :: sig == SIGTERM || sig == SIGINT ==>
              s'.raised[sig] == s'.dispatched[sig] + (if sig in s'.pending then 1 else 0)
    ensures s'.inSignal && !step.SigReturn? ==> Do(s', step).dispatched == s'.dispatched && Do(s', step).saved == s'.saved
  {
    RunInv(s, steps, s');
  }

  /** Over every run, each dispatch enters the handler installed then, for 15 or
      2, and saves where the program stood. */
  lemma DispatchEntersHandler(s: State, steps: seq<Step>, s': State, step: Step)
    requires Inv(s) && Runs(s, steps, s') && Enabled(s', step)
    ensures Inv(s') && var t := Do(s', step);
            t.dispatched != s'.dispatched ==>
              && t.regs.ip == t.handler != 0 && t.inSignal && t.saved == s'.main
              && (t.dispatched == s'.dispatched + multiset{15} || (15 !in s'.pending && t.dispatched == s'.dispatched + multiset{2}))
  {
    RunInv(s, steps, s');
  }

  /** A killed task is dead whatever it handles; others die of 15 and 2 exactly
      without a handler. */
  lemma KilledOrHandled(s: State, sig: nat)
    requires Inv(s) && !s.dead
    ensures Do(s, Send(sig)).dead <==> sig == 9 || ((sig == 15 || sig == 2) && s.handler == 0)
    ensures !Do(s, Send(sig)).dead && (sig == 15 || sig == 2) ==> sig in Do(s, Send(sig)).pending
  {
  }

  /** sigaction installs a handler, in 32 bits, for all signals but 9 and 17;
      sigreturn with nothing to see goes back to the saved registers. */
  lemma CallsMean(s: State, sig: nat, h: nat)
    requires Inv(s) && !s.dead
    ensures Do(s, SigAction(sig, h)).handler == if sig == 9 || sig == 17 then s.handler else h % 0x1_0000_0000
    ensures s.inSignal && (s.handler == 0 || (15 !in s.pending && 2 !in s.pending)) ==>
              Do(s, SigReturn) == s.(regs := s.saved, inSignal := false)
    ensures !s.inSignal && !Waits(s) ==> Do(s, SigReturn) == s && Do(s, Call) == s
  {
  }
}
