/** The TLB shootdown protocol of kernel/arch/x86_64/smp/smp.c as interleaved
    steps of the CPUs: an initiator edits a page table, invalidates locally,
    takes the lock, publishes the request, interrupts everybody else and waits
    for their acknowledgements; the handler reads the request without the lock
    and skips the invalidation when it runs in another address space. */
module TlbShootdown {

  type Addr = nat
  type Root = nat  // a CR3 value

  const KERNEL_HALF: nat := 0xFFFF_8000_0000_0000
  const IDENTITY_END: nat := 0x800_0000  // the first 128 MB, shared by mmu_clone_user

  /** Where a CPU stands in mmu_invlpg and smp_tlb_shootdown after it has
      written the entry for addr in the tables of root. */
  datatype Phase =
    | Idle
    | Edited(root: Root, addr: Addr)     // entry written
    | Flushed(root: Root, addr: Addr)    // local invlpg done
    | Spinning(root: Root, addr: Addr)   // interrupts off, lock not yet taken
    | Locked(root: Root, addr: Addr)
    | AddrSet(root: Root, addr: Addr)
    | Cr3Set(root: Root, addr: Addr)
    | MaskSet(root: Root, addr: Addr)
    | Waiting(root: Root, addr: Addr)    // interrupts sent

  /** Where a CPU stands in smp_tlb_handler. */
  datatype Handler =
    | Out
    | HasAddr(addr: Addr)      // global addr read
    | Matches(addr: Addr)      // the filter let the request through
    | Ready                    // invalidated or skipped, about to acknowledge

  datatype Cpu = Cpu(cr3: Root, tlb: map<Addr, int>, phase: Phase, handler: Handler, ipi: bool)

  /** Leaf entries by (root, address); entries of the kernel half and of the
      identity map are the same for every root and are kept under root 0. */
  datatype State = State(cpus: seq<Cpu>, pt: map<(Root, Addr), int>, lock: int, addr: Addr, target: Root, mask: set<nat>, apReady: set<nat>)

  const FREE: int := -1

  predicate Kernel(a: Addr) { a >= KERNEL_HALF }

  predicate Low(a: Addr) { a < IDENTITY_END }

  function Key(r: Root, a: Addr): (Root, Addr)
  {
    if Kernel(a) || Low(a) then (0, a) else (r, a)
  }

  /** Two roots show the same entry of an address exactly when they are the same
      or the address lies in the kernel half or the first 128 MB. */
  lemma KeyMeans(r: Root, r': Root, a: Addr, a': Addr)
    ensures Key(r, a) == Key(r', a') <==> a == a' && (r == r' || a >= 0xFFFF_8000_0000_0000 || a < 0x800_0000)
  {
  }

  /** The entry the page tables hold now. */
  function Entry(s: State, r: Root, a: Addr): int
  {
    if Key(r, a) in s.pt then s.pt[Key(r, a)] else 0
  }

  // ----- The steps

  datatype Step =
    | Fill(cpu: nat, at: Addr)              // hardware walk caches an entry
    | Evict(cpu: nat, at: Addr)             // hardware drops an entry
    | LoadCr3(cpu: nat, root: Root)         // flushes the TLB
    | Edit(cpu: nat, root: Root, at: Addr, entry: int)
    | LocalInvlpg(cpu: nat)
    | DisableIrq(cpu: nat)                  // spin_lock_irqsave: cli, then spin
    | TakeLock(cpu: nat)
    | WriteAddr(cpu: nat)
    | WriteCr3(cpu: nat)
    | WriteMask(cpu: nat)
    | SendIpi(cpu: nat)
    | Unlock(cpu: nat)                      // pending_mask is zero
    | Enter(cpu: nat)                       // handler starts and reads addr
    | Filter(cpu: nat)                      // compares CR3 for user addresses
    | Invalidate(cpu: nat)
    | Ack(cpu: nat)

  function With(s: State, c: nat, cpu: Cpu): State
    requires c < |s.cpus|
  {
    s.(cpus := s.cpus[c := cpu])
  }

  /** The CPUs asked for an acknowledgement: the ready application processors
      and CPU 0, without the initiator. */
  function Others(s: State, c: nat): set<nat>
  {
    s.apReady + {0} - {c}
  }

  function Interrupted(cpus: seq<Cpu>, c: nat): seq<Cpu>
  {
    seq(|cpus|, k requires 0 <= k < |cpus| => if k == c then cpus[k] else cpus[k].(ipi := true))
  }

  /** Interrupts are off from spin_lock_irqsave to spin_unlock_irqrestore, and
      inside the handler. Elsewhere they may be on or off: a step may simply
      not happen yet. */
  predicate IrqOff(p: Cpu)
  {
    p.handler != Out || !(p.phase.Idle? || p.phase.Edited? || p.phase.Flushed?)
  }

  predicate Enabled(s: State, step: Step)
  {
    var c := step.cpu;
    c < |s.cpus| && var p := s.cpus[c];
    match step
    case Fill(_, _) => true
    case Evict(_, _) => true
    case LoadCr3(_, _) => p.phase.Idle? && p.handler.Out?
    case Edit(_, _, _, _) => p.phase.Idle? && p.handler.Out?
    case LocalInvlpg(_) => p.phase.Edited? && p.handler.Out?
    case DisableIrq(_) => p.phase.Flushed? && p.handler.Out?
    case TakeLock(_) => p.phase.Spinning? && s.lock == FREE
    case WriteAddr(_) => p.phase.Locked?
    case WriteCr3(_) => p.phase.AddrSet?
    case WriteMask(_) => p.phase.Cr3Set?
    case SendIpi(_) => p.phase.MaskSet?
    case Unlock(_) => p.phase.Waiting? && s.mask == {}
    case Enter(_) => p.ipi && !IrqOff(p)
    case Filter(_) => p.handler.HasAddr?
    case Invalidate(_) => p.handler.Matches?
    case Ack(_) => p.handler.Ready?
  }

  function Do(s: State, step: Step): State
    requires Enabled(s, step)
  {
    var c := step.cpu;
    var p := s.cpus[c];
    match step
    case Fill(_, a) => With(s, c, p.(tlb := p.tlb[a := Entry(s, p.cr3, a)]))
    case Evict(_, a) => With(s, c, p.(tlb := p.tlb - {a}))
    case LoadCr3(_, r) => With(s, c, p.(cr3 := r, tlb := map[]))
    case Edit(_, r, a, e) => With(s, c, p.(phase := Edited(r, a))).(pt := s.pt[Key(r, a) := e])
    case LocalInvlpg(_) => With(s, c, p.(phase := Flushed(p.phase.root, p.phase.addr), tlb := p.tlb - {p.phase.addr}))
    case DisableIrq(_) => With(s, c, p.(phase := Spinning(p.phase.root, p.phase.addr)))
    case TakeLock(_) => With(s, c, p.(phase := Locked(p.phase.root, p.phase.addr))).(lock := c)
    case WriteAddr(_) => With(s, c, p.(phase := AddrSet(p.phase.root, p.phase.addr))).(addr := p.phase.addr)
    case WriteCr3(_) => With(s, c, p.(phase := Cr3Set(p.phase.root, p.phase.addr))).(target := p.cr3)
    case WriteMask(_) => With(s, c, p.(phase := MaskSet(p.phase.root, p.phase.addr))).(mask := Others(s, c))
    case SendIpi(_) =>
      var s' := With(s, c, p.(phase := Waiting(p.phase.root, p.phase.addr)));
      s'.(cpus := Interrupted(s'.cpus, c))
    case Unlock(_) => With(s, c, p.(phase := Idle)).(lock := FREE)
    case Enter(_) => With(s, c, p.(ipi := false, handler := HasAddr(s.addr)))
    case Filter(_) =>
      With(s, c, p.(handler := if Kernel(p.handler.addr) || p.cr3 == s.target then Matches(p.handler.addr) else Ready))
    case Invalidate(_) => With(s, c, p.(handler := Ready, tlb := p.tlb - {p.handler.addr}))
    case Ack(_) => With(s, c, p.(handler := Out)).(mask := s.mask - {c})
  }

  /** The edits the protocol is made for: kernel-half addresses; above the
      identity map, the tables the editing CPU runs on and tables no CPU has
      loaded; and in the identity map, which every root shares but the handler
      takes for user space, anything as long as all CPUs run on one root. */
  predicate SafeEdit(s: State, step: Step)
    requires step.Edit? && step.cpu < |s.cpus|
  {
    || Kernel(step.at)
    || (if Low(step.at) then forall k :: 0 <= k < |s.cpus| ==> s.cpus[k].cr3 == s.cpus[step.cpu].cr3
        else step.root == s.cpus[step.cpu].cr3 || forall k :: 0 <= k < |s.cpus| ==> s.cpus[k].cr3 != step.root)
  }

  predicate Safe(s: State, step: Step)
  {
    step.Edit? && step.cpu < |s.cpus| ==> SafeEdit(s, step)
  }

  /** The steps lead from s to s'. */
  ghost predicate Runs(s: State, steps: seq<Step>, s': State)
    decreases |steps|
  {
    if steps == [] then s' == s
    else Enabled(s, steps[0]) && Runs(Do(s, steps[0]), steps[1..], s')
  }

  // ----- The invariant

  predicate Holding(p: Phase)
  {
    p.Locked? || p.AddrSet? || p.Cr3Set? || p.MaskSet? || p.Waiting?
  }

  ghost predicate AllReady(s: State)
  {
    0 < |s.cpus| && forall c: nat :: c in s.apReady + {0} <==> c < |s.cpus|
  }

  /** The lock is held by exactly the CPU that is between lock and unlock, and
      the published request is that CPU's. */
  ghost predicate LockOk(s: State)
  {
    && (s.lock == FREE || (0 <= s.lock < |s.cpus| && Holding(s.cpus[s.lock].phase)))
    && (forall c :: 0 <= c < |s.cpus| && Holding(s.cpus[c].phase) ==> s.lock == c)
    && (s.lock != FREE ==> var p := s.cpus[s.lock];
          && (p.phase.Locked? || s.addr == p.phase.addr)
          && (p.phase.Locked? || p.phase.AddrSet? || s.target == p.cr3))
  }

  ghost predicate Busy(p: Cpu)
  {
    p.ipi || p.handler != Out
  }

  /** Pending bits, interrupts and running handlers belong to the request being
      served, and to no one else. */
  ghost predicate MaskOk(s: State)
  {
    && (s.mask != {} ==> s.lock != FREE && 0 <= s.lock < |s.cpus| && (s.cpus[s.lock].phase.MaskSet? || s.cpus[s.lock].phase.Waiting?))
    && (forall c :: c in s.mask ==> c < |s.cpus| && c != s.lock)
    && (forall c :: 0 <= c < |s.cpus| && Busy(s.cpus[c]) ==> c in s.mask && s.cpus[s.lock].phase.Waiting?)
    && (s.lock != FREE && 0 <= s.lock < |s.cpus| && s.cpus[s.lock].phase.MaskSet? ==> s.mask == Others(s, s.lock))
    && (s.lock != FREE && 0 <= s.lock < |s.cpus| && s.cpus[s.lock].phase.Waiting? ==> forall c :: c in s.mask ==> Busy(s.cpus[c]))
  }

  /** A handler that has read the address has the one being served, and a
      handler past its filter is right to be there. */
  ghost predicate HandlersOk(s: State)
  {
    forall c :: 0 <= c < |s.cpus| ==> HandlerOk(s, s.cpus[c])
  }

  ghost predicate HandlerOk(s: State, p: Cpu)
  {
    && (p.ipi ==> p.handler == Out)
    && (p.handler.HasAddr? ==> p.handler.addr == s.addr)
    && (p.handler.Matches? ==> p.handler.addr == s.addr)
    && (p.handler != Out ==> p.phase.Idle? || p.phase.Edited? || p.phase.Flushed?)
  }

  /** CPU i still owes CPU c an invalidation of address a. */
  ghost predicate Owes(s: State, i: nat, c: nat, a: Addr)
    requires i < |s.cpus| && c < |s.cpus|
  {
    var p, q := s.cpus[i], s.cpus[c];
    && !p.phase.Idle? && p.phase.addr == a && (Kernel(a) || (p.cr3 == q.cr3 && (Low(a) || p.phase.root == p.cr3)))
    && if i == c then p.phase.Edited?
       else if p.phase.MaskSet? || p.phase.Waiting? then c in s.mask && !q.handler.Ready?
       else true
  }

  /** Every cached entry is current, or an invalidation is on its way. */
  ghost predicate Coherent(s: State)
  {
    forall c, a :: 0 <= c < |s.cpus| && a in s.cpus[c].tlb ==> CurrentOrOwed(s, c, a)
  }

  ghost predicate CurrentOrOwed(s: State, c: nat, a: Addr)
    requires c < |s.cpus| && a in s.cpus[c].tlb
  {
    s.cpus[c].tlb[a] == Entry(s, s.cpus[c].cr3, a) || exists i :: 0 <= i < |s.cpus| && Owes(s, i, c, a)
  }

  /** What the protocol keeps whatever is edited. */
  ghost predicate Orderly(s: State)
  {
    AllReady(s) && LockOk(s) && MaskOk(s) && HandlersOk(s)
  }

  ghost predicate Quiet(s: State)
  {
    forall c :: 0 <= c < |s.cpus| ==> s.cpus[c].phase.Idle? && s.cpus[c].handler.Out? && !s.cpus[c].ipi
  }

  ghost predicate AllCurrent(s: State)
  {
    forall c, a :: 0 <= c < |s.cpus| && a in s.cpus[c].tlb ==> s.cpus[c].tlb[a] == Entry(s, s.cpus[c].cr3, a)
  }

  ghost predicate Init(s: State)
  {
    AllReady(s) && s.lock == FREE && s.mask == {} && Quiet(s) && AllCurrent(s)
  }

  /** Any number of CPUs on any tables, before the first shootdown. */
  ghost function Boot(roots: seq<Root>, pt: map<(Root, Addr), int>): (s: State)
    requires 0 < |roots|
    ensures Init(s) && Orderly(s) && Coherent(s) && s.pt == pt
    ensures |s.cpus| == |roots| && forall c :: 0 <= c < |roots| ==> s.cpus[c].cr3 == roots[c]
  {
    State(seq(|roots|, c requires 0 <= c < |roots| => Cpu(roots[c], map[], Idle, Out, false)), pt, FREE, 0, 0, {},
          Below(|roots|))
  }

  ghost function Below(n: nat): (r: set<nat>)
    ensures forall c: nat :: c in r <==> c < n
  {
    if n == 0 then {} else Below(n - 1) + {n - 1}
  }

  lemma QuietIsInit(s: State)
    requires Orderly(s) && Quiet(s) && Coherent(s)
    ensures Init(s)
  {
    forall c, a | 0 <= c < |s.cpus| && a in s.cpus[c].tlb
      ensures s.cpus[c].tlb[a] == Entry(s, s.cpus[c].cr3, a)
    {
      assert CurrentOrOwed(s, c, a);
    }
  }

  /** The steps that leave phases, lock and request alone. */
  predicate OnlyTlbOrHandler(step: Step)
  {
    step.Fill? || step.Evict? || step.LoadCr3? || step.Enter? || step.Filter? || step.Invalidate? || step.Ack?
  }

  lemma LockKept(s: State, step: Step)
    requires Orderly(s) && Enabled(s, step)
    ensures LockOk(Do(s, step))
  {
    hide MaskOk, HandlersOk, Entry;
  }

  lemma MaskKeptByInitiator(s: State, step: Step)
    requires Orderly(s) && Enabled(s, step) && !OnlyTlbOrHandler(step)
    ensures MaskOk(Do(s, step))
  {
    hide HandlersOk;
  }

  lemma MaskKeptByHandler(s: State, step: Step)
    requires Orderly(s) && Enabled(s, step) && OnlyTlbOrHandler(step)
    ensures MaskOk(Do(s, step))
  {
    hide Entry;
  }

  lemma HandlersKept(s: State, step: Step)
    requires Orderly(s) && Enabled(s, step)
    ensures HandlersOk(Do(s, step))
  {
  }

  lemma OrderlyKept(s: State, step: Step)
    requires Orderly(s) && Enabled(s, step)
    ensures Orderly(Do(s, step))
  {
    LockKept(s, step);
    if OnlyTlbOrHandler(step) {
      MaskKeptByHandler(s, step);
    } else {
      MaskKeptByInitiator(s, step);
    }
    HandlersKept(s, step);
  }

  /** A debt outlives every step but the one that settles it. */
  lemma DebtKept(s: State, step: Step, i: nat, c: nat, a: Addr)
    requires Orderly(s) && Enabled(s, step) && i < |s.cpus| && c < |s.cpus| && Owes(s, i, c, a)
    requires |Do(s, step).cpus| == |s.cpus| && a in Do(s, step).cpus[c].tlb && !(step.Fill? && step.cpu == c && step.at == a)
    ensures Owes(Do(s, step), i, c, a)
  {
    hide Orderly, Owes, Do;
    if OnlyTlbOrHandler(step) {
      DebtKeptByHandler(s, step, i, c, a);
    } else {
      DebtKeptByInitiator(s, step, i, c, a);
    }
  }

  lemma DebtKeptByHandler(s: State, step: Step, i: nat, c: nat, a: Addr)
    requires Orderly(s) && Enabled(s, step) && i < |s.cpus| && c < |s.cpus| && Owes(s, i, c, a) && OnlyTlbOrHandler(step)
    requires |Do(s, step).cpus| == |s.cpus| && a in Do(s, step).cpus[c].tlb && !(step.Fill? && step.cpu == c && step.at == a)
    ensures Owes(Do(s, step), i, c, a)
  {
    hide Entry;
  }

  lemma DebtKeptByInitiator(s: State, step: Step, i: nat, c: nat, a: Addr)
    requires Orderly(s) && Enabled(s, step) && i < |s.cpus| && c < |s.cpus| && Owes(s, i, c, a) && !OnlyTlbOrHandler(step)
    requires |Do(s, step).cpus| == |s.cpus| && a in Do(s, step).cpus[c].tlb
    ensures Owes(Do(s, step), i, c, a)
  {
    hide Entry;
  }

  /** What one step does to one cached entry. */
  lemma EntryFrame(s: State, step: Step, c: nat, a: Addr)
    requires Enabled(s, step) && c < |s.cpus| && a in Do(s, step).cpus[c].tlb
    requires !(step.Fill? && step.cpu == c && step.at == a)
    ensures var s' := Do(s, step);
            && a in s.cpus[c].tlb && s'.cpus[c].tlb[a] == s.cpus[c].tlb[a] && s'.cpus[c].cr3 == s.cpus[c].cr3
            && (Entry(s', s.cpus[c].cr3, a) == Entry(s, s.cpus[c].cr3, a)
                || (step.Edit? && Key(step.root, step.at) == Key(s.cpus[c].cr3, a)))
  {
  }

  /** An edit the protocol covers owes every CPU that can see the entry. */
  lemma EditOwes(s: State, step: Step, c: nat, a: Addr)
    requires Enabled(s, step) && step.Edit? && SafeEdit(s, step) && c < |s.cpus|
    requires Key(step.root, step.at) == Key(s.cpus[c].cr3, a)
    ensures Owes(Do(s, step), step.cpu, c, a)
  {
  }

  lemma CoherentKept(s: State, step: Step)
    requires Orderly(s) && Coherent(s) && Enabled(s, step) && Safe(s, step)
    ensures Coherent(Do(s, step))
  {
    var s' := Do(s, step);
    assert |s'.cpus| == |s.cpus|;
    forall c, a | 0 <= c < |s'.cpus| && a in s'.cpus[c].tlb
      ensures CurrentOrOwed(s', c, a)
    {
      if step.Fill? && step.cpu == c && step.at == a {
        assert s'.cpus[c].tlb[a] == Entry(s', s'.cpus[c].cr3, a);
      } else {
        StillCurrentOrOwed(s, step, c, a);
      }
    }
  }

  lemma StillCurrentOrOwed(s: State, step: Step, c: nat, a: Addr)
    requires Orderly(s) && Coherent(s) && Enabled(s, step) && Safe(s, step)
    requires |Do(s, step).cpus| == |s.cpus| && c < |s.cpus| && a in Do(s, step).cpus[c].tlb
    requires !(step.Fill? && step.cpu == c && step.at == a)
    ensures CurrentOrOwed(Do(s, step), c, a)
  {
    hide Orderly, Do, Owes;
    EntryFrame(s, step, c, a);
    assert CurrentOrOwed(s, c, a);
    if step.Edit? && Key(step.root, step.at) == Key(s.cpus[c].cr3, a) {
      EditOwes(s, step, c, a);
    } else if i :| 0 <= i < |s.cpus| && Owes(s, i, c, a) {
      DebtKept(s, step, i, c, a);
    }
  }

  // ----- Runs

  ghost predicate AllSafe(s: State, steps: seq<Step>)
    decreases |steps|
  {
    steps == [] || (Safe(s, steps[0]) && (Enabled(s, steps[0]) ==> AllSafe(Do(s, steps[0]), steps[1..])))
  }

  lemma {:induction false} RunOrderly(s: State, steps: seq<Step>, s': State)
    requires Orderly(s) && Runs(s, steps, s')
    ensures Orderly(s')
    decreases |steps|
  {
    hide Orderly, Enabled, Do;
    if steps != [] {
      OrderlyKept(s, steps[0]);
      RunOrderly(Do(s, steps[0]), steps[1..], s');
    }
  }

  /** Over every run: whatever a TLB holds is current or owed an invalidation. */
  lemma {:induction false} EveryRunCoherent(s: State, steps: seq<Step>, s': State)
    requires Orderly(s) && Coherent(s) && Runs(s, steps, s') && AllSafe(s, steps)
    ensures Orderly(s') && Coherent(s')
    decreases |steps|
  {
    hide Orderly, Coherent, Enabled, Do, Safe;
    if steps != [] {
      OrderlyKept(s, steps[0]);
      CoherentKept(s, steps[0]);
      EveryRunCoherent(Do(s, steps[0]), steps[1..], s');
    }
  }

  /** When a shootdown returns, no CPU holds an outdated translation of its
      address, except for an edit of that same address some other CPU has not
      finished announcing. */
  lemma ReturnMeansFlushed(s: State, steps: seq<Step>, s': State, i: nat, c: nat)
    requires Init(s) && Runs(s, steps, s') && AllSafe(s, steps)
    requires i < |s'.cpus| && Enabled(s', Unlock(i)) && c < |s'.cpus|
    requires forall j :: 0 <= j < |s'.cpus| && j != i && !s'.cpus[j].phase.Idle? ==> s'.cpus[j].phase.addr != s'.cpus[i].phase.addr
    ensures var a := s'.cpus[i].phase.addr; var t := Do(s', Unlock(i));
            a in t.cpus[c].tlb ==> t.cpus[c].tlb[a] == Entry(t, t.cpus[c].cr3, a)
  {
    EveryRunCoherent(s, steps, s');
    var a, t := s'.cpus[i].phase.addr, Do(s', Unlock(i));
    CoherentKept(s', Unlock(i));
    if a in t.cpus[c].tlb {
      assert CurrentOrOwed(t, c, a);
    }
  }

  /** The claim in the handler's comment: while a handler runs, the request it
      reads is its initiator's, which still waits for this very handler. */
  lemma RequestIsStable(s: State, steps: seq<Step>, s': State, c: nat)
    requires Init(s) && Runs(s, steps, s') && c < |s'.cpus| && s'.cpus[c].handler != Out
    ensures 0 <= s'.lock < |s'.cpus| && s'.lock != c && c in s'.mask
    ensures var p := s'.cpus[s'.lock]; p.phase.Waiting? && s'.addr == p.phase.addr && s'.target == p.cr3
    ensures var h := s'.cpus[c].handler; h.HasAddr? || h.Matches? ==> h.addr == s'.addr
  {
    RunOrderly(s, steps, s');
    assert Busy(s'.cpus[c]);
  }

  // ----- Completion

  lemma {:induction false} RunsConcat(s: State, xs: seq<Step>, s1: State, ys: seq<Step>, s2: State)
    requires Runs(s, xs, s1) && Runs(s1, ys, s2)
    ensures Runs(s, xs + ys, s2)
    decreases |xs|
  {
    if xs == [] {
      assert xs + ys == ys;
    } else {
      RunsConcat(Do(s, xs[0]), xs[1..], s1, ys, s2);
      assert (xs + ys)[1..] == xs[1..] + ys;
    }
  }

  /** The handler of c has run to its end; only the invalidation it owed is
      visible, and not even that when the filter skipped it. */
  ghost predicate Served(s: State, c: nat, s': State)
    requires c < |s.cpus|
  {
    && |s'.cpus| == |s.cpus|
    && s' == s.(cpus := s'.cpus, mask := s.mask - {c})
    && (forall k :: 0 <= k < |s.cpus| && k != c ==> s'.cpus[k] == s.cpus[k])
    && KeepsUnmatched(s, s.cpus[c], s'.cpus[c])
  }

  ghost predicate KeepsUnmatched(s: State, p: Cpu, q: Cpu)
  {
    && q.cr3 == p.cr3 && q.phase == p.phase && q.handler.Out? && !q.ipi
    && (forall a :: a in q.tlb ==> a in p.tlb && q.tlb[a] == p.tlb[a])
    && (!Kernel(s.addr) && p.cr3 != s.target && (p.ipi || p.handler.HasAddr?) ==> q.tlb == p.tlb)
  }

  lemma Finish(s: State, c: nat) returns (steps: seq<Step>, s': State)
    requires Orderly(s) && c < |s.cpus| && s.cpus[c].handler != Out
    ensures Runs(s, steps, s') && Served(s, c, s') && NoEdit(steps)
  {
    assert HandlerOk(s, s.cpus[c]);
    hide Runs, Orderly;
    match s.cpus[c].handler
    case HasAddr(_) =>
      var s1 := Do(s, Filter(c));
      steps, s' := FinishFiltered(s1, c);
      RunsCons(s, Filter(c), steps, s');
      steps := [Filter(c)] + steps;
    case Matches(_) =>
      steps, s' := FinishFiltered(s, c);
    case Ready =>
      steps, s' := FinishFiltered(s, c);
  }

  lemma FinishFiltered(s: State, c: nat) returns (steps: seq<Step>, s': State)
    requires c < |s.cpus| && (s.cpus[c].handler.Matches? || s.cpus[c].handler.Ready?)
    ensures Runs(s, steps, s') && NoEdit(steps)
    ensures var p := s.cpus[c];
            s' == With(s, c, p.(handler := Out, tlb := if p.handler.Matches? then p.tlb - {p.handler.addr} else p.tlb)).(mask := s.mask - {c})
  {
    hide Runs;
    var s1 := if s.cpus[c].handler.Matches? then Do(s, Invalidate(c)) else s;
    s' := Do(s1, Ack(c));
    OneRun(s1, Ack(c));
    steps := [Ack(c)];
    if s.cpus[c].handler.Matches? {
      RunsCons(s, Invalidate(c), [Ack(c)], s');
      steps := [Invalidate(c), Ack(c)];
      assert steps == [Invalidate(c)] + [Ack(c)];
    }
  }

  predicate NoEdit(steps: seq<Step>)
  {
    forall k :: 0 <= k < |steps| ==> !steps[k].Edit?
  }

  /** A CPU that is asked and is not spinning on the lock can answer. */
  lemma Serve(s: State, c: nat) returns (steps: seq<Step>, s': State)
    requires Orderly(s) && c < |s.cpus| && Busy(s.cpus[c]) && !s.cpus[c].phase.Spinning?
    ensures Runs(s, steps, s') && Served(s, c, s') && NoEdit(steps) && Orderly(s')
  {
    if s.cpus[c].handler != Out {
      steps, s' := Finish(s, c);
    } else {
      assert c in s.mask && !Holding(s.cpus[c].phase);
      var s1 := Do(s, Enter(c));
      OrderlyKept(s, Enter(c));
      var rest;
      rest, s' := Finish(s1, c);
      steps := [Enter(c)] + rest;
      assert steps[1..] == rest;
    }
    RunOrderly(s, steps, s');
  }

  /** Every CPU in mask has been served. */
  ghost predicate Drained(s: State, s': State)
  {
    && |s'.cpus| == |s.cpus| && s' == s.(cpus := s'.cpus, mask := {})
    && (forall k :: 0 <= k < |s.cpus| && k !in s.mask ==> s'.cpus[k] == s.cpus[k])
    && (forall k :: 0 <= k < |s.cpus| && k in s.mask ==> KeepsUnmatched(s, s.cpus[k], s'.cpus[k]))
  }

  lemma {:induction false} Drain(s: State, i: nat) returns (steps: seq<Step>, s': State)
    requires Orderly(s) && i < |s.cpus| && s.cpus[i].phase.Waiting?
    requires forall j :: j in s.mask && j < |s.cpus| ==> !s.cpus[j].phase.Spinning?
    ensures Runs(s, steps, s') && NoEdit(steps) && Drained(s, s') && Orderly(s')
    decreases |s.mask|
  {
    hide Runs, KeepsUnmatched, Drained;
    if s.mask == {} {
      assert Drained(s, s) by { NothingDrained(s); }
      assert Runs(s, [], s) by { NoSteps(s); }
      return [], s;
    }
    var c :| c in s.mask;
    Asked(s, i, c);
    hide Orderly;
    var xs, s1 := Serve(s, c);
    assert i != c && s1.cpus[i] == s.cpus[i];
    assert s1.mask < s.mask;
    CardLess(s1.mask, s.mask);
    forall j | j in s1.mask && j < |s1.cpus|
      ensures !s1.cpus[j].phase.Spinning?
    {
      assert j != c && s1.cpus[j] == s.cpus[j];
    }
    var ys;
    ys, s' := Drain(s1, i);
    RunsConcat(s, xs, s1, ys, s');
    DrainedAfter(s, c, s1, s');
    steps := xs + ys;
  }

  lemma DrainedAfter(s: State, c: nat, s1: State, s': State)
    requires c in s.mask && c < |s.cpus| && Served(s, c, s1) && Drained(s1, s')
    ensures Drained(s, s')
  {
  }

  lemma NothingDrained(s: State)
    requires s.mask == {}
    ensures Drained(s, s)
  {
  }

  lemma NoSteps(s: State)
    ensures Runs(s, [], s)
  {
  }

  lemma Asked(s: State, i: nat, c: nat)
    requires Orderly(s) && i < |s.cpus| && s.cpus[i].phase.Waiting? && c in s.mask
    ensures c < |s.cpus| && Busy(s.cpus[c]) && i != c && i !in s.mask
  {
  }

  lemma CardLess(a: set<nat>, b: set<nat>)
    requires a < b
    ensures |a| < |b|
  {
    assert |b - a| + |a| == |b| by { assert b == a + (b - a); }
    var x :| x in b - a;
  }

  /** Two shootdowns in each other's way: i waits for j, and j spins for the
      lock with interrupts off. */
  ghost predicate CrossWait(s: State, i: nat, j: nat)
  {
    && i < |s.cpus| && j < |s.cpus|
    && s.cpus[i].phase.Waiting? && s.cpus[j].phase.Spinning? && j in s.mask
  }

  lemma CrossWaitKept(s: State, step: Step, i: nat, j: nat)
    requires Orderly(s) && CrossWait(s, i, j) && Enabled(s, step)
    ensures CrossWait(Do(s, step), i, j)
  {
  }

  lemma {:induction false} CrossWaitForever(s: State, steps: seq<Step>, s': State, i: nat, j: nat)
    requires Orderly(s) && CrossWait(s, i, j) && Runs(s, steps, s')
    ensures CrossWait(s', i, j)
    decreases |steps|
  {
    hide Orderly, CrossWait, Enabled, Do;
    if steps != [] {
      CrossWaitKept(s, steps[0], i, j);
      OrderlyKept(s, steps[0]);
      CrossWaitForever(Do(s, steps[0]), steps[1..], s', i, j);
    }
  }

  ghost predicate CanReturn(s: State, i: nat)
    requires i < |s.cpus|
  {
    exists steps, s' :: Runs(s, steps, s') && i < |s'.cpus| && s'.cpus[i].phase.Idle?
  }

  /** Without its timeout a shootdown returns exactly when no CPU it waits for
      is itself spinning for the lock. */
  lemma ReturnsIffNobodySpins(s: State, i: nat)
    requires Orderly(s) && i < |s.cpus| && s.cpus[i].phase.Waiting?
    ensures CanReturn(s, i) <==> forall j :: 0 <= j < |s.cpus| && j in s.mask ==> !s.cpus[j].phase.Spinning?
  {
    if j: nat :| j < |s.cpus| && j in s.mask && s.cpus[j].phase.Spinning? {
      forall steps, s' | Runs(s, steps, s') && i < |s'.cpus|
        ensures !s'.cpus[i].phase.Idle?
      {
        CrossWaitForever(s, steps, s', i, j);
      }
    } else {
      var steps, s1 := Drain(s, i);
      assert i !in s.mask;
      assert Runs(s1, [Unlock(i)], Do(s1, Unlock(i)));
      RunsConcat(s, steps, s1, [Unlock(i)], Do(s1, Unlock(i)));
    }
  }

  /** And two CPUs can always get into each other's way. */
  lemma OverlapCanBlock(s: State, i: nat, j: nat, a: Addr, b: Addr)
    requires Init(s) && i < |s.cpus| && j < |s.cpus| && i != j
    ensures exists steps, s' :: Runs(s, steps, s') && CrossWait(s', i, j)
  {
    hide Runs, Do, Enabled, AllCurrent;
    var xs, s1 := ToSpin(s, j, s.cpus[j].cr3, b, 0);
    var ys, s2 := ToSpin(s1, i, s.cpus[i].cr3, a, 0);
    assert s2.cpus[j].phase == Spinning(s.cpus[j].cr3, b);
    var zs, s3 := ToWait(s2, i);
    RunsConcat(s, xs, s1, ys, s2);
    RunsConcat(s, xs + ys, s2, zs, s3);
    assert CrossWait(s3, i, j);
  }

  /** An edit on an idle CPU up to the spin for the lock. */
  lemma ToSpin(s: State, c: nat, r: Root, a: Addr, e: int) returns (steps: seq<Step>, s': State)
    requires c < |s.cpus| && s.cpus[c].phase.Idle? && s.cpus[c].handler.Out?
    ensures steps == [Edit(c, r, a, e), LocalInvlpg(c), DisableIrq(c)] && Runs(s, steps, s')
    ensures s' == With(s, c, s.cpus[c].(phase := Spinning(r, a), tlb := s.cpus[c].tlb - {a})).(pt := s.pt[Key(r, a) := e])
  {
    steps := [Edit(c, r, a, e), LocalInvlpg(c), DisableIrq(c)];
    var s1 := Do(s, steps[0]);
    var s2 := Do(s1, steps[1]);
    s' := Do(s2, steps[2]);
    assert steps[1..] == [LocalInvlpg(c), DisableIrq(c)] && steps[1..][1..] == [DisableIrq(c)];
    assert Runs(s2, [DisableIrq(c)], s');
    assert Runs(s1, steps[1..], s');
  }

  /** From the spin to the wait, the lock being free. */
  lemma ToWait(s: State, c: nat) returns (steps: seq<Step>, s': State)
    requires c < |s.cpus| && s.cpus[c].phase.Spinning? && s.lock == FREE
    ensures NoEdit(steps) && Runs(s, steps, s')
    ensures var p := s.cpus[c]; var q := p.(phase := Waiting(p.phase.root, p.phase.addr));
            s' == State(Interrupted(s.cpus[c := q], c), s.pt, c, p.phase.addr, p.cr3, Others(s, c), s.apReady)
  {
    hide Runs, Do, Interrupted;
    var xs, s1 := ToPublished(s, c);
    var ys;
    ys, s' := ToSent(s1, c);
    RunsConcat(s, xs, s1, ys, s');
    steps := xs + ys;
    var p := s.cpus[c];
    var q := p.(phase := Waiting(p.phase.root, p.phase.addr));
    assert s1.cpus[c := q] == s.cpus[c := q];
  }

  lemma ToPublished(s: State, c: nat) returns (steps: seq<Step>, s': State)
    requires c < |s.cpus| && s.cpus[c].phase.Spinning? && s.lock == FREE
    ensures NoEdit(steps) && Runs(s, steps, s')
    ensures var p := s.cpus[c];
            s' == With(s, c, p.(phase := Cr3Set(p.phase.root, p.phase.addr))).(lock := c, addr := p.phase.addr, target := p.cr3)
  {
    hide Runs;
    var s1 := Do(s, TakeLock(c));
    var s2 := Do(s1, WriteAddr(c));
    s' := Do(s2, WriteCr3(c));
    OneRun(s2, WriteCr3(c));
    RunsCons(s1, WriteAddr(c), [WriteCr3(c)], s');
    RunsCons(s, TakeLock(c), [WriteAddr(c)] + [WriteCr3(c)], s');
    steps := [TakeLock(c)] + ([WriteAddr(c)] + [WriteCr3(c)]);
  }

  lemma ToSent(s: State, c: nat) returns (steps: seq<Step>, s': State)
    requires c < |s.cpus| && s.cpus[c].phase.Cr3Set?
    ensures NoEdit(steps) && Runs(s, steps, s')
    ensures var p := s.cpus[c]; var q := p.(phase := Waiting(p.phase.root, p.phase.addr));
            s' == s.(cpus := Interrupted(s.cpus[c := q], c), mask := Others(s, c))
  {
    hide Runs, Interrupted;
    var s1 := Do(s, WriteMask(c));
    s' := Do(s1, SendIpi(c));
    OneRun(s1, SendIpi(c));
    RunsCons(s, WriteMask(c), [SendIpi(c)], s');
    steps := [WriteMask(c)] + [SendIpi(c)];
    var p := s.cpus[c];
    var q := p.(phase := Waiting(p.phase.root, p.phase.addr));
    assert s1.cpus[c := q] == s.cpus[c := q];
  }

  lemma OneRun(s: State, step: Step)
    requires Enabled(s, step)
    ensures Runs(s, [step], Do(s, step))
  {
    assert [step][1..] == [];
  }

  lemma RunsCons(s: State, step: Step, rest: seq<Step>, s': State)
    requires Enabled(s, step) && Runs(Do(s, step), rest, s')
    ensures Runs(s, [step] + rest, s')
  {
    assert ([step] + rest)[1..] == rest;
  }

  // ----- Which edits the protocol covers

  predicate OnlyFills(steps: seq<Step>)
  {
    forall k :: 0 <= k < |steps| ==> steps[k].Fill?
  }

  /** However the TLBs were filled before, and whatever happens after the edit
      (no other edit), once all is quiet every TLB is current. */
  ghost predicate EditIsCovered(s: State, e: Step)
  {
    forall fills, s1, post, s2 ::
      OnlyFills(fills) && Runs(s, fills, s1) && Runs(s1, [e] + post, s2) && NoEdit(post) && Quiet(s2) ==> AllCurrent(s2)
  }

  lemma {:induction false} FillsKeepSafety(s: State, fills: seq<Step>, s1: State, e: Step)
    requires OnlyFills(fills) && Runs(s, fills, s1) && Orderly(s) && Coherent(s) && e.Edit? && e.cpu < |s.cpus|
    ensures |s1.cpus| == |s.cpus| && (SafeEdit(s1, e) <==> SafeEdit(s, e)) && Orderly(s1) && Coherent(s1)
    decreases |fills|
  {
    if fills != [] {
      var t := Do(s, fills[0]);
      OrderlyKept(s, fills[0]);
      CoherentKept(s, fills[0]);
      assert forall k :: 0 <= k < |s.cpus| ==> t.cpus[k].cr3 == s.cpus[k].cr3;
      FillsKeepSafety(t, fills[1..], s1, e);
    }
  }

  lemma {:induction false} NoEditIsSafe(s: State, steps: seq<Step>)
    requires NoEdit(steps)
    ensures AllSafe(s, steps)
    decreases |steps|
  {
    if steps != [] && Enabled(s, steps[0]) {
      assert !steps[0].Edit?;
      NoEditIsSafe(Do(s, steps[0]), steps[1..]);
    }
  }

  lemma SafeIsCovered(s: State, e: Step)
    requires Init(s) && e.Edit? && e.cpu < |s.cpus| && SafeEdit(s, e)
    ensures EditIsCovered(s, e)
  {
    hide Enabled, Do;
    forall fills, s1, post, s2 |
      OnlyFills(fills) && Runs(s, fills, s1) && Runs(s1, [e] + post, s2) && NoEdit(post) && Quiet(s2)
      ensures AllCurrent(s2)
    {
      FillsKeepSafety(s, fills, s1, e);
      assert ([e] + post)[1..] == post;
      NoEditIsSafe(Do(s1, e), post);
      assert AllSafe(s1, [e] + post);
      EveryRunCoherent(s1, [e] + post, s2);
      QuietIsInit(s2);
    }
  }

  /** The missed case: CPU k sees the edited entry and has it cached, the
      initiator runs on other tables; the filter lets k skip. */
  lemma ForeignEditGoesStale(s: State, e: Step, k: nat)
    requires Init(s) && e.Edit? && e.cpu < |s.cpus| && k < |s.cpus|
    requires !Kernel(e.at) && s.cpus[k].cr3 != s.cpus[e.cpu].cr3 && (Low(e.at) || s.cpus[k].cr3 == e.root)
    requires e.entry != Entry(s, e.root, e.at)
    ensures !EditIsCovered(s, e)
  {
    hide Runs, Do, Enabled, EditIsCovered, Orderly;
    var fill := Fill(k, e.at);
    var s1, xs, s3 := ToRequest(s, e, k);
    var zs, s4 := Drain(s3, e.cpu);
    RunsConcat(s1, [e] + xs, s3, zs, s4);
    var s5 := Unlocked(s4, e.cpu);
    RunsConcat(s1, [e] + xs + zs, s4, [Unlock(e.cpu)], s5);
    var post := xs + zs + [Unlock(e.cpu)];
    assert [e] + post == [e] + xs + zs + [Unlock(e.cpu)];
    assert KeepsUnmatched(s3, s3.cpus[k], s4.cpus[k]);
    assert s5.cpus[k].tlb[e.at] != Entry(s5, s5.cpus[k].cr3, e.at);
    assert Quiet(s5);
    Uncovered(s, e, fill, s1, post, s5);
  }

  /** CPU k caches the entry, then the edit goes as far as the wait. */
  lemma ToRequest(s: State, e: Step, k: nat) returns (s1: State, steps: seq<Step>, s3: State)
    requires Init(s) && e.Edit? && e.cpu < |s.cpus| && k < |s.cpus| && k != e.cpu
    ensures Runs(s, [Fill(k, e.at)], s1) && Runs(s1, [e] + steps, s3) && NoEdit(steps) && Orderly(s3)
    ensures |s3.cpus| == |s.cpus| && s3.cpus[e.cpu].phase.Waiting? && s3.cpus[e.cpu].handler.Out? && !s3.cpus[e.cpu].ipi
    ensures forall j :: 0 <= j < |s.cpus| && j != e.cpu ==> j in s3.mask && s3.cpus[j].phase.Idle?
    ensures s3.pt == s.pt[Key(e.root, e.at) := e.entry] && s3.addr == e.at && s3.target == s.cpus[e.cpu].cr3
    ensures s3.cpus[k].cr3 == s.cpus[k].cr3 && s3.cpus[k].ipi && e.at in s3.cpus[k].tlb
            && s3.cpus[k].tlb[e.at] == Entry(s, s.cpus[k].cr3, e.at)
  {
    hide Runs, Do, Enabled, Orderly, Entry;
    var fill := Fill(k, e.at);
    s1 := Filled(s, fill);
    var xs, s2 := ToSpin(s1, e.cpu, e.root, e.at, e.entry);
    var ys;
    ys, s3 := ToWait(s2, e.cpu);
    RunsConcat(s1, xs, s2, ys, s3);
    StartsOrderly(s, fill, s1);
    RunOrderly(s1, xs + ys, s3);
    steps := xs[1..] + ys;
    assert [e] + steps == xs + ys;
  }

  lemma Uncovered(s: State, e: Step, fill: Step, s1: State, post: seq<Step>, s2: State)
    requires fill.Fill? && Runs(s, [fill], s1) && Runs(s1, [e] + post, s2) && NoEdit(post) && Quiet(s2) && !AllCurrent(s2)
    ensures !EditIsCovered(s, e)
  {
    hide Runs, Quiet, AllCurrent;
    assert OnlyFills([fill]);
  }

  lemma Filled(s: State, fill: Step) returns (s1: State)
    requires fill.Fill? && fill.cpu < |s.cpus|
    ensures Runs(s, [fill], s1)
    ensures var p := s.cpus[fill.cpu]; s1 == With(s, fill.cpu, p.(tlb := p.tlb[fill.at := Entry(s, p.cr3, fill.at)]))
  {
    s1 := Do(s, fill);
    OneRun(s, fill);
  }

  lemma Unlocked(s: State, c: nat) returns (s1: State)
    requires c < |s.cpus| && s.cpus[c].phase.Waiting? && s.mask == {}
    ensures Runs(s, [Unlock(c)], s1) && s1 == With(s, c, s.cpus[c].(phase := Idle)).(lock := FREE)
  {
    s1 := Do(s, Unlock(c));
    OneRun(s, Unlock(c));
  }

  lemma StartsOrderly(s: State, fill: Step, s1: State)
    requires Init(s) && Runs(s, [fill], s1)
    ensures Orderly(s1)
  {
    RunOrderly(s, [fill], s1);
  }

  /** Mapping a page of the first 128 MB in tables that nobody runs on, as the
      loader does for a new program, misses every CPU on another root. */
  lemma LowEditGoesStale(s: State, e: Step, k: nat)
    requires Init(s) && e.Edit? && e.cpu < |s.cpus| && k < |s.cpus| && Low(e.at) && e.entry != Entry(s, e.root, e.at)
    requires s.cpus[k].cr3 != s.cpus[e.cpu].cr3 && forall j :: 0 <= j < |s.cpus| ==> s.cpus[j].cr3 != e.root
    ensures !EditIsCovered(s, e)
  {
    ForeignEditGoesStale(s, e, k);
  }

  /** Covered are exactly the edits of kernel addresses; above the identity map
      those of the editing CPU's own tables and of tables loaded nowhere; and
      in the identity map those made while all CPUs run on one root. */
  lemma CoveredIffSafe(s: State, e: Step)
    requires Init(s) && e.Edit? && e.cpu < |s.cpus| && e.entry != Entry(s, e.root, e.at)
    ensures EditIsCovered(s, e) <==> SafeEdit(s, e)
  {
    hide EditIsCovered, Entry;
    if SafeEdit(s, e) {
      SafeIsCovered(s, e);
    } else {
      var k: nat :| k < |s.cpus| && if Low(e.at) then s.cpus[k].cr3 != s.cpus[e.cpu].cr3 else s.cpus[k].cr3 == e.root;
      ForeignEditGoesStale(s, e, k);
    }
  }
}
