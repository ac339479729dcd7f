/** Processes over whole histories: spawn, fork, stores, exec and stack mappings,
    loader writes and exits, in any order, on the page tables with shared frames.
    A fork or spawn clones the page directory before it looks for a process
    number, so one that is refused leaves a directory nobody frees. */
module ProcessHistory {
  import Bytes
  import opened PageTree
  import opened PageViews
  import opened CowInvariant
  import opened AddressSpaces
  import opened Frames
  import opened Isolation

  const MAX_TASKS: nat := 128  // the last process number
  const MAX_CLONES: nat := 254  // so many clones cannot take a count past a byte

  // ----- Counts that cannot overflow

  lemma {:induction false} MappingsFew(m: Mem, dirs: set<nat>, f: nat)
    requires Once(m, dirs)
    ensures |Mappings(m, dirs, f)| <= |dirs|
    decreases dirs
  {
    hide Trans, Mappings;
    if dirs == {} {
      forall x: (nat, Path)
        ensures x !in Mappings(m, dirs, f)
      {
        InMappings(m, dirs, x.0, x.1, f);
      }
      assert Mappings(m, dirs, f) == {};
    } else {
      var d :| d in dirs;
      MappingsFew(m, dirs - {d}, f);
      MappingsSplit(m, dirs, d, f);
    }
  }

  lemma MappingsSplit(m: Mem, dirs: set<nat>, d: nat, f: nat)
    requires Once(m, dirs) && d in dirs
    ensures |Mappings(m, dirs, f)| <= |Mappings(m, dirs - {d}, f)| + 1
  {
    hide Trans, Mappings;
    var all, rest := Mappings(m, dirs, f), Mappings(m, dirs - {d}, f);
    forall x: (nat, Path)
      ensures x in rest <==> x in all && x.0 != d
    {
      InMappings(m, dirs, x.0, x.1, f);
      InMappings(m, dirs - {d}, x.0, x.1, f);
    }
    if x :| x in all && x.0 == d {
      forall y | y in all && y.0 == d
        ensures y == x
      {
        InMappings(m, dirs, x.0, x.1, f);
        InMappings(m, dirs, y.0, y.1, f);
        assert Shares(Trans(m, d, x.1), Trans(m, d, y.1));
      }
      assert all == rest + {x};
    } else {
      assert all == rest;
    }
  }

  lemma OnePageOf(m: Mem, dirs: set<nat>, d: nat, f: nat)
    requires Once(m, dirs) && d in dirs
    ensures |PagesOf(m, d, f)| <= 1
  {
    hide Trans, PagesOf;
    if q :| q in PagesOf(m, d, f) {
      forall p | p in PagesOf(m, d, f)
        ensures p == q
      {
        InPagesOf(m, d, f, p);
        InPagesOf(m, d, f, q);
        assert Shares(Trans(m, d, p), Trans(m, d, q));
      }
      assert PagesOf(m, d, f) == {q};
    } else {
      assert PagesOf(m, d, f) == {};
    }
  }

  /** With exact counts and at most 254 address spaces a fork has room. */
  lemma ForkHasRoom(m: Mem, dirs: set<nat>, refs: seq<nat>, src: nat)
    requires Exact(m, dirs, refs) && Once(m, dirs) && src in dirs && |dirs| <= 254
    ensures RoomToClone(m, src, refs)
  {
    hide Once, Mappings, PagesOf;
    forall f | 0 <= f < |refs|
      ensures refs[f] + |PagesOf(m, src, f)| <= 255
    {
      MappingsFew(m, dirs, f);
      OnePageOf(m, dirs, src, f);
    }
  }

  // ----- Processes

  datatype Ask =
    | Spawn
    | ForkOf(p: nat)
    | StoreBy(p: nat, virt: nat, value: byte)
    | MapFor(p: nat, virt: nat)
    | StackFor(p: nat, virt: nat, junk: seq<byte>)
    | WriteFor(p: nat, virt: nat, data: seq<byte>)
    | ExitOf(p: nat)

  /** A store faults on a page that is not there, not the user's, or not to be
      copied. */
  datatype Reply = Done | Refused | Faulted

  predicate Proper(a: Ask)
  {
    match a
    case Spawn => true
    case ForkOf(_) => true
    case StoreBy(_, virt, _) => UserPath(PathOf(virt))
    case MapFor(_, virt) => UserPath(PathOf(virt))
    case StackFor(_, virt, junk) => UserPath(PathOf(virt)) && |junk| == PAGE_SIZE
    case WriteFor(_, virt, data) => UserPath(PathOf(virt)) && virt % PAGE_SIZE + |data| <= PAGE_SIZE
    case ExitOf(_) => true
  }

  predicate Alive(procs: seq<int>, p: nat)
  {
    p < |procs| && procs[p] >= 0
  }

  /** A clone is entered into the table while there are process numbers left,
      and lost afterwards. */
  ghost predicate Cloned(mc: Machine, procs: seq<int>, d: int, r: Reply, ev: Option<Event>, procs': seq<int>)
  {
    && ev.Some? && ev.value.Forked? && ev.value.src == d
    && if mc.Full(procs) then r == Refused && procs' == procs else r == Done && procs' == procs + [ev.value.child]
  }

  /** One ask, from one state of the machine and the process table to the next:
      who is refused, and which event of the machine it is. */
  ghost predicate Answers(mc: Machine, s: State, procs: seq<int>, a: Ask, r: Reply, ev: Option<Event>, s': State, procs': seq<int>)
  {
    && (ev.Some? ==> Step(s, ev.value, s')) && (ev.None? ==> Spaces(s') == Spaces(s))
    && match a
       case Spawn => Cloned(mc, procs, mc.mmu.kernelDir, r, ev, procs')
       case ForkOf(p) =>
         if !Alive(procs, p) then r == Refused && ev == None && procs' == procs
         else Cloned(mc, procs, procs[p], r, ev, procs')
       case StoreBy(p, virt, b) =>
         && procs' == procs
         && if !Alive(procs, p) then r == Refused && ev == None
            else if !mc.mmu.Storable(Trans(s.view.mem, procs[p], PathOf(virt)), s.refs, s.view.used) then r == Faulted && ev == None
            else r == Done && ev == Some(Stored(procs[p], PathOf(virt), virt % PAGE_SIZE, b))
       case MapFor(p, virt) =>
         && procs' == procs
         && if !Alive(procs, p) || Trans(s.view.mem, procs[p], PathOf(virt)) != None then r == Refused && ev == None
            else r == Done && ev == Some(MappedZero(procs[p], PathOf(virt)))
       case StackFor(p, virt, junk) =>
         && procs' == procs
         && if !Alive(procs, p) then r == Refused && ev == None
            else if Trans(s.view.mem, procs[p], PathOf(virt)) != None then r == Done && ev == None
            else r == Done && ev.Some? && ev.value.Filled? && ev.value.dir == procs[p] && ev.value.page == PathOf(virt)
       case WriteFor(p, virt, data) =>
         && procs' == procs
         && if !Alive(procs, p) || !UserWritable(Trans(s.view.mem, procs[p], PathOf(virt))) then r == Refused && ev == None
            else r == Done && ev.Some? && Does(s.view.mem, Request.Write(procs[p], virt, data), ev.value)
       case ExitOf(p) =>
         if !Alive(procs, p) then r == Refused && ev == None && procs' == procs
         else r == Done && ev == Some(Exited(procs[p])) && procs' == procs[p := -1]
  }

  /** The table names no address space twice, and not the kernel's. */
  ghost predicate Tabled(procs: seq<int>, kernel: nat, dirs: set<nat>)
  {
    && kernel in dirs
    && (forall p :: 0 <= p < |procs| && procs[p] >= 0 ==> procs[p] in dirs && procs[p] != kernel)
    && (forall p, q :: 0 <= p < q < |procs| && procs[p] >= 0 ==> procs[p] != procs[q])
  }

  /** The address spaces that belong to no process. */
  ghost function Lost(procs: seq<int>, kernel: nat, dirs: set<nat>): set<nat>
  {
    set d | d in dirs && d != kernel && d !in procs
  }

  lemma {:induction false} TabledFew(procs: seq<int>, dirs: set<nat>)
    requires forall d :: d in dirs ==> d in procs
    ensures |dirs| <= |procs|
    decreases |procs|
  {
    if procs == [] {
      assert dirs == {};
    } else {
      var n := |procs| - 1;
      var rest := set d | d in dirs && d != procs[n];
      TabledFew(procs[..n], rest);
      if procs[n] >= 0 && procs[n] in dirs {
        assert dirs == rest + {procs[n]};
      } else {
        assert dirs == rest;
      }
    }
  }

  lemma FewSpaces(procs: seq<int>, kernel: nat, dirs: set<nat>)
    requires Tabled(procs, kernel, dirs)
    ensures |dirs| <= 1 + |procs| + |Lost(procs, kernel, dirs)|
  {
    var lost := Lost(procs, kernel, dirs);
    var kept := set d | d in dirs && d != kernel && d in procs;
    TabledFew(procs, kept);
    assert dirs == kept + lost + {kernel};
  }

  lemma TabledMore(procs: seq<int>, kernel: nat, dirs: set<nat>, child: nat)
    requires Tabled(procs, kernel, dirs) && child !in dirs
    ensures Tabled(procs + [child], kernel, dirs + {child}) && Lost(procs + [child], kernel, dirs + {child}) == Lost(procs, kernel, dirs)
    ensures Tabled(procs, kernel, dirs + {child}) && Lost(procs, kernel, dirs + {child}) == Lost(procs, kernel, dirs) + {child}
  {
    var now := procs + [child as int];
    assert now[|procs|] == child;
    assert Lost(now, kernel, dirs + {child}) == Lost(procs, kernel, dirs);
    assert Lost(procs, kernel, dirs + {child}) == Lost(procs, kernel, dirs) + {child};
  }

  lemma TabledLess(procs: seq<int>, kernel: nat, dirs: set<nat>, p: nat)
    requires Tabled(procs, kernel, dirs) && Alive(procs, p)
    ensures Tabled(procs[p := -1], kernel, dirs - {procs[p]})
    ensures Lost(procs[p := -1], kernel, dirs - {procs[p]}) == Lost(procs, kernel, dirs)
  {
    forall d: nat | d != procs[p]
      ensures d in procs[p := -1] <==> d in procs
    {
      if d in procs {
        var i :| 0 <= i < |procs| && procs[i] == d;
        assert procs[p := -1][i] == d;
      }
    }
    assert Lost(procs[p := -1], kernel, dirs - {procs[p]}) == Lost(procs, kernel, dirs);
  }

  lemma LostIsNot(procs: seq<int>, kernel: nat, dirs: set<nat>, child: nat)
    requires child !in dirs
    ensures child !in Lost(procs, kernel, dirs)
  {
  }

  lemma AliveIsKnown(procs: seq<int>, kernel: nat, dirs: set<nat>, p: nat)
    requires Tabled(procs, kernel, dirs) && Alive(procs, p)
    ensures procs[p] in dirs && procs[p] != kernel
  {
  }

  /** What an event that is no birth and no death does to the set of spaces. */
  lemma StepSpaces(s: State, ev: Event, s': State)
    requires Step(s, ev, s')
    ensures ev.Forked? ==> ev.child !in s.dirs && s'.dirs == s.dirs + {ev.child}
    ensures ev.Exited? ==> s'.dirs == s.dirs - {ev.dir}
    ensures !ev.Forked? && !ev.Exited? ==> s'.dirs == s.dirs
  {
    hide Sound, Exact, Content, Trans, OthersRead, CloneView, RoomToClone;
  }

  lemma SameSpaces(s: State, s': State)
    requires Spaces(s') == Spaces(s)
    ensures s'.dirs == s.dirs
  {
    assert Spaces(s').Keys == s'.dirs && Spaces(s).Keys == s.dirs;
  }

  /** The kernel directory, the processes made from it, and what each of them
      has asked for. */
  class Machine {
    const mmu: Mmu
    const first: nat  // the process number after those of the kernel's own tasks
    var procs: seq<int>  // the directory of each process ever made, -1 once it is gone
    var clones: nat  // directories ever cloned

    /** The page tables are sound, every count is exact, and no directory maps a
        frame twice; every clone went to a process or was lost. */
    ghost predicate Valid()
      reads this, mmu, mmu.pmm, mmu.pmm.bitmap, mmu.pmm.refs
    {
      && mmu.Valid() && ExactCounts(StateOf(mmu)) && Once(mmu.mem, mmu.dirs)
      && Tabled(procs, mmu.kernelDir, mmu.dirs)
      && |procs| + |Lost(procs, mmu.kernelDir, mmu.dirs)| == clones <= MAX_CLONES
    }

    /** next_pid > MAX_TASKS. */
    predicate Full(procs: seq<int>)
    {
      first + |procs| > MAX_TASKS
    }

    /** After boot: an empty kernel directory and the kernel's own tasks. */
    constructor (frames: FrameAllocator, kernelPml4: nat, first0: nat)
      requires frames.Valid() && kernelPml4 in frames.Used() && forall f :: 0 <= f < frames.total ==> frames.refs[f] == 0
      ensures fresh(mmu) && mmu.pmm == frames && mmu.kernelDir == kernelPml4 && first == first0 && procs == [] && clones == 0 && Valid()
    {
      hide Sound, Exact, Once, FrameAllocator.Used;
      mmu := new Mmu(frames, kernelPml4);
      first, procs, clones := first0, [], 0;
      new;
      OnceEmpty(mmu.mem, kernelPml4);
      assert Lost([], mmu.kernelDir, mmu.dirs) == {};
    }

    /** The leaf entry of an address. */
    method Entry(d: nat, virt: nat) returns (o: Option<Entry>)
      requires mmu.Valid() && d in mmu.dirs
      ensures o == Trans(mmu.mem, d, PathOf(virt))
    {
      hide Trans, LeafTable;
      var found, pt := mmu.GetEntry(d, virt);
      var q := PathOf(virt);
      if !found {
        NoLeaf(mmu.mem, d, q);
        return None;
      }
      LeafEntry(mmu.mem, d, q, pt);
      var e := mmu.mem[pt].entries[q[3]];
      o := if e.present then Some(e) else None;
    }

    /** spawn_process and sys_fork: the directory is cloned, then a process
        number is looked for. */
    method Born(d: nat) returns (r: Reply, ok: bool, ghost ev: Option<Event>)
      requires Valid() && d in mmu.dirs && clones < MAX_CLONES
      modifies this, mmu, mmu.pmm.bitmap, mmu.pmm.refs
      ensures ok ==> Valid() && ev.Some? && Step(old(StateOf(mmu)), ev.value, StateOf(mmu)) && clones == old(clones) + 1
      ensures ok ==> Cloned(this, old(procs), d, r, ev, procs)
      ensures ok ==> if first + |old(procs)| <= 128 then r == Done && |procs| == |old(procs)| + 1 else r == Refused && procs == old(procs)
      ensures !ok ==> !mmu.FrameLeft(mmu.pmm.Used())
    {
      hide Sound, Exact, Once, Tabled, Lost, RoomToClone, FrameAllocator.Used, Spaces, CloneDone;
      ghost var s := StateOf(mmu);
      FewSpaces(procs, mmu.kernelDir, mmu.dirs);
      ForkHasRoom(mmu.mem, mmu.dirs, mmu.pmm.refs[..], d);
      var child;
      child, ok := mmu.CloneUser(d);
      ev, r := Some(Forked(d, child)), Refused;
      if ok {
        assert Step(s, ev.value, StateOf(mmu));
        Afterwards(s, ev.value, StateOf(mmu));
        OnceForked(s.view, s.refs, mmu.Now(), mmu.pmm.refs[..], s.dirs, d, child);
        TabledMore(procs, mmu.kernelDir, s.dirs, child);
        LostIsNot(procs, mmu.kernelDir, s.dirs, child);
        if !Full(procs) {
          r, procs := Done, procs + [child as int];
        }
        clones := clones + 1;
      }
    }

    /** The asks of a live process about its own pages. */
    method Touch(d: nat, a: Ask) returns (r: Reply, ok: bool, ghost ev: Option<Event>)
      requires Valid() && Proper(a) && Touches(a) && Alive(procs, a.p) && procs[a.p] == d
      modifies mmu, mmu.pmm.bitmap, mmu.pmm.refs
      ensures ok ==> !(ev.Some? && ev.value.Forked?)
      ensures ok ==> Valid() && Answers(this, old(StateOf(mmu)), procs, a, r, ev, StateOf(mmu), procs)
      ensures !ok ==> !mmu.FrameLeft(mmu.pmm.Used())
    {
      hide Sound, Exact, Once, Tabled, RoomToClone, FrameAllocator.Used, Spaces, CloneDone, Trans, Content, Step, OthersRead;
      ghost var s := StateOf(mmu);
      AliveIsKnown(procs, mmu.kernelDir, mmu.dirs, a.p);
      var o := Entry(d, a.virt);
      if (a.MapFor? && o != None) || (a.WriteFor? && !UserWritable(o)) {
        return Refused, true, None;
      }
      var killed;
      ev, ok, killed := Perform(mmu, RequestOf(d, a));
      if ok {
        if ev.Some? {
          TouchIs(s, d, a, ev.value);
          Afterwards(s, ev.value, StateOf(mmu));
        } else {
          SameSpaces(s, StateOf(mmu));
        }
      }
      r := if killed then Faulted else Done;
    }

    /** A live process exits. */
    method Gone(p: nat) returns (ghost ev: Option<Event>)
      requires Valid() && Alive(procs, p)
      modifies this, mmu, mmu.pmm.bitmap, mmu.pmm.refs
      ensures clones == old(clones)
      ensures Valid() && procs == old(procs)[p := -1] && ev == Some(Exited(old(procs)[p])) && Step(old(StateOf(mmu)), ev.value, StateOf(mmu))
    {
      hide Sound, Exact, Once, Tabled, RoomToClone, FrameAllocator.Used, Spaces, CloneDone, Trans, Content, Step, OthersRead;
      ghost var s := StateOf(mmu);
      AliveIsKnown(procs, mmu.kernelDir, mmu.dirs, p);
      var ok, killed;
      ev, ok, killed := Perform(mmu, Request.Exit(procs[p]));
      Afterwards(s, ev.value, StateOf(mmu));
      TabledLess(procs, mmu.kernelDir, s.dirs, p);
      procs := procs[p := -1];
    }

    /** One ask. It is not served where the kernel runs out of memory, or after
        254 clones. */
    method ServeOne(a: Ask) returns (r: Reply, ok: bool, ghost ev: Option<Event>)
      requires Valid() && Proper(a)
      modifies this, mmu, mmu.pmm.bitmap, mmu.pmm.refs
      ensures ok ==> Valid() && Answers(this, old(StateOf(mmu)), old(procs), a, r, ev, StateOf(mmu), procs)
      ensures ok ==> clones == old(clones) + if ev.Some? && ev.value.Forked? then 1 else 0
      ensures !ok ==> !mmu.FrameLeft(mmu.pmm.Used()) || clones == 254
    {
      hide Sound, Exact, Once, RoomToClone, FrameAllocator.Used, Spaces, CloneDone, Trans, Content, Step, OthersRead, StateOf, Valid, Full;
      r, ok, ev := Refused, true, None;
      match a {
        case Spawn =>
          KernelIsKnown();
          if clones == MAX_CLONES { return Refused, false, None; }
          r, ok, ev := Born(mmu.kernelDir);
        case ForkOf(p) =>
          if p < |procs| && procs[p] >= 0 {
            ProcessIsKnown(p);
            if clones == MAX_CLONES { return Refused, false, None; }
            r, ok, ev := Born(procs[p]);
          }
        case ExitOf(p) =>
          if p < |procs| && procs[p] >= 0 {
            r := Done;
            ev := Gone(p);
          }
        case _ =>
          if a.p < |procs| && procs[a.p] >= 0 {
            r, ok, ev := Touch(procs[a.p], a);
          }
      }
    }

    lemma KernelIsKnown()
      requires Valid()
      ensures mmu.kernelDir in mmu.dirs && clones <= MAX_CLONES
    {
    }

    lemma ProcessIsKnown(p: nat)
      requires Valid() && Alive(procs, p)
      ensures procs[p] in mmu.dirs && clones <= MAX_CLONES
    {
    }

    /** Any list of asks, in order, until the kernel runs out of memory: each is
        answered as Answers says, every state on the way is sound with exact
        counts, and the address spaces are those of the machine that shares
        nothing. */
    method Serve(asks: seq<Ask>) returns (replies: seq<Reply>, ghost run: seq<State>, ghost tables: seq<seq<int>>, ghost evs: seq<Option<Event>>)
      requires Valid() && forall i :: 0 <= i < |asks| ==> Proper(asks[i])
      modifies this, mmu, mmu.pmm.bitmap, mmu.pmm.refs
      ensures |replies| <= |asks| && Told(this, asks[..|replies|], replies, run, tables, evs)
      ensures run[0] == old(StateOf(mmu)) && tables[0] == old(procs)
      ensures Spaces(run[|replies|]) == ApplyAll(old(Spaces(StateOf(mmu))), Happened(evs))
      ensures |replies| == |asks| ==> Valid() && run[|asks|] == StateOf(mmu) && tables[|asks|] == procs
      ensures |replies| < |asks| ==> !mmu.FrameLeft(mmu.pmm.Used()) || clones == 254
      ensures |replies| == |asks| ==> clones == old(clones) + ClonedBy(evs)
    {
      hide Sane, Proper, Answers, Valid, StateOf, Spaces, ApplyAll, Mmu.FrameLeft, FrameAllocator.Used;
      replies, run, tables, evs := [], [StateOf(mmu)], [procs], [];
      IsSane();
      NothingYet(Spaces(run[0]));
      var i := 0;
      while i < |asks|
        invariant i == |replies| <= |asks| && Valid() && Told(this, asks[..i], replies, run, tables, evs)
        invariant run[0] == old(StateOf(mmu)) && tables[0] == old(procs)
        invariant Spaces(run[i]) == ApplyAll(old(Spaces(StateOf(mmu))), Happened(evs))
        invariant run[i] == StateOf(mmu) && tables[i] == procs && clones == old(clones) + ClonedBy(evs)
      {
        var r, ok;
        ghost var ev;
        r, ok, ev := ServeOne(asks[i]);
        if !ok {
          return;
        }
        IsSane();
        ToldMore(this, asks[..i], replies, run, tables, evs, asks[i], r, ev, StateOf(mmu), procs);
        MoreHappened(Spaces(run[0]), evs, ev, run[i], StateOf(mmu), this, tables[i], asks[i], r, procs);
        replies, run, tables, evs := replies + [r], run + [StateOf(mmu)], tables + [procs], evs + [ev];
        assert asks[..i + 1] == asks[..i] + [asks[i]];
        i := i + 1;
      }
    }

    lemma IsSane()
      requires Valid()
      ensures Sane(this, StateOf(mmu), procs)
    {
      hide Sound, Exact, Once, Tabled, FrameAllocator.Used;
    }
  }

  /** What holds between any two asks. */
  ghost predicate Sane(mc: Machine, s: State, procs: seq<int>)
  {
    Sound(s.view, s.dirs, s.refs) && ExactCounts(s) && Once(s.view.mem, s.dirs) && Tabled(procs, mc.mmu.kernelDir, s.dirs)
  }

  /** A history: the asks served, the replies, and the states and process tables
      before, between and after them. */
  ghost predicate Told(mc: Machine, asks: seq<Ask>, replies: seq<Reply>, run: seq<State>, tables: seq<seq<int>>, evs: seq<Option<Event>>)
  {
    && |asks| == |replies| == |evs| && |run| == |tables| == |asks| + 1
    && (forall i :: 0 <= i < |run| ==> Sane(mc, run[i], tables[i]))
    && (forall i :: 0 <= i < |asks| ==> Answers(mc, run[i], tables[i], asks[i], replies[i], evs[i], run[i + 1], tables[i + 1]))
  }

  lemma ToldMore(mc: Machine, asks: seq<Ask>, replies: seq<Reply>, run: seq<State>, tables: seq<seq<int>>, evs: seq<Option<Event>>,
                 a: Ask, r: Reply, ev: Option<Event>, s: State, procs: seq<int>)
    requires Told(mc, asks, replies, run, tables, evs) && Sane(mc, s, procs)
    requires Answers(mc, run[|asks|], tables[|asks|], a, r, ev, s, procs)
    ensures Told(mc, asks + [a], replies + [r], run + [s], tables + [procs], evs + [ev])
  {
    hide Sane, Answers;
  }

  /** The asks that did something to the machine, as its events. */
  ghost function Happened(evs: seq<Option<Event>>): seq<Event>
  {
    if evs == [] then []
    else
      var n := |evs| - 1;
      if evs[n].Some? then Happened(evs[..n]) + [evs[n].value] else Happened(evs[..n])
  }

  ghost function ClonedBy(evs: seq<Option<Event>>): nat
  {
    if evs == [] then 0
    else
      var n := |evs| - 1;
      ClonedBy(evs[..n]) + if evs[n].Some? && evs[n].value.Forked? then 1 else 0
  }

  lemma NothingYet(spaces: map<nat, Space>)
    ensures ApplyAll(spaces, Happened([])) == spaces
  {
  }

  lemma MoreHappened(spaces: map<nat, Space>, evs: seq<Option<Event>>, ev: Option<Event>, s: State, s': State,
                     mc: Machine, procs: seq<int>, a: Ask, r: Reply, procs': seq<int>)
    requires Sane(mc, s, procs) && Answers(mc, s, procs, a, r, ev, s', procs')
    requires Spaces(s) == ApplyAll(spaces, Happened(evs))
    ensures Spaces(s') == ApplyAll(spaces, Happened(evs + [ev]))
  {
    hide Sound, Exact, Once, Tabled, Step, Spaces, Apply;
    assert (evs + [ev])[..|evs|] == evs;
    if ev.Some? {
      StepRefines(s, ev.value, s');
      var done, all := Happened(evs), Happened(evs + [ev]);
      assert all == done + [ev.value] && all[..|done|] == done;
    }
  }

  // ----- What a process sees

  /** The asks that may change what process p reads. */
  predicate By(a: Ask, p: nat)
  {
    match a
    case Spawn => false
    case ForkOf(_) => false
    case StoreBy(o, _, _) => o == p
    case MapFor(o, _) => o == p
    case StackFor(o, _, _) => o == p
    case WriteFor(o, _, _) => o == p
    case ExitOf(o) => o == p
  }

  /** The memory of a live process. */
  ghost function MemoryOf(s: State, procs: seq<int>, p: nat): Space
    requires Alive(procs, p)
  {
    SpaceOf(s.view.mem, procs[p])
  }

  lemma OneAskOfAnother(mc: Machine, s: State, procs: seq<int>, a: Ask, r: Reply, ev: Option<Event>, s': State, procs': seq<int>, p: nat)
    requires Sane(mc, s, procs) && Answers(mc, s, procs, a, r, ev, s', procs') && Alive(procs, p) && !By(a, p)
    ensures Alive(procs', p) && MemoryOf(s', procs', p) == MemoryOf(s, procs, p)
  {
    hide Sound, Exact, Once, Step, SpaceOf;
    var d := procs[p];
    assert d in Spaces(s);
    if ev.Some? {
      StepRefines(s, ev.value, s');
      StepSpaces(s, ev.value, s');
      assert !Isolation.Names(ev.value, d);
    }
    assert d in Spaces(s');
  }

  /** Main result: over any history, the memory of a process is what it was while
      no ask of its own came, whatever the others, its parent and its children
      asked for. */
  lemma {:induction false} OnlyItsOwnAsks(mc: Machine, asks: seq<Ask>, replies: seq<Reply>, run: seq<State>, tables: seq<seq<int>>, evs: seq<Option<Event>>, i: nat, j: nat, p: nat)
    requires Told(mc, asks, replies, run, tables, evs) && i <= j <= |asks| && Alive(tables[i], p)
    requires forall k :: i <= k < j ==> !By(asks[k], p)
    ensures Alive(tables[j], p) && MemoryOf(run[j], tables[j], p) == MemoryOf(run[i], tables[i], p)
    decreases j - i
  {
    hide Sane, Answers, MemoryOf;
    if i < j {
      OneAskOfAnother(mc, run[i], tables[i], asks[i], replies[i], evs[i], run[i + 1], tables[i + 1], p);
      OnlyItsOwnAsks(mc, asks, replies, run, tables, evs, i + 1, j, p);
    }
  }

  lemma ForkAsk(mc: Machine, s: State, procs: seq<int>, p: nat, r: Reply, ev: Option<Event>, s': State, procs': seq<int>)
    requires Sane(mc, s, procs) && Answers(mc, s, procs, ForkOf(p), r, ev, s', procs') && r == Done
    ensures Alive(procs, p) && Alive(procs', |procs|) && Alive(procs', p)
    ensures MemoryOf(s', procs', |procs|) == MemoryOf(s', procs', p) == MemoryOf(s, procs, p)
  {
    hide Sound, Exact, Once, Step, SpaceOf;
    StepRefines(s, ev.value, s');
    StepSpaces(s, ev.value, s');
    assert procs[p] in Spaces(s) && procs[p] in Spaces(s') && ev.value.child in Spaces(s');
  }

  /** Where the parent could write, both it and its child can go on writing
      after the fork, as long as a frame is left for the copy. */
  lemma ForkKeepsStores(mc: Machine, s: State, procs: seq<int>, p: nat, r: Reply, ev: Option<Event>, s': State, procs': seq<int>, q: Path)
    requires Sane(mc, s, procs) && Answers(mc, s, procs, ForkOf(p), r, ev, s', procs') && r == Done && UserPath(q)
    requires Alive(procs, p) && UserWritable(Trans(s.view.mem, procs[p], q)) && mc.mmu.FrameLeft(s'.view.used)
    ensures Alive(procs', p) && Alive(procs', |procs|)
    ensures mc.mmu.Storable(Trans(s'.view.mem, procs'[p], q), s'.refs, s'.view.used)
    ensures mc.mmu.Storable(Trans(s'.view.mem, procs'[|procs|], q), s'.refs, s'.view.used)
  {
    hide Sound, Exact, Once, Trans, Spaces, CloneView, RoomToClone, Content, Mmu.FrameLeft;
    CloneEntries(s.view.mem, s'.view.mem, s.dirs, procs[p], ev.value.child, q);
  }

  /** Main result: a child reads what its parent read at the fork until it asks
      for something itself, and so does the parent. */
  lemma ForkIsACopy(mc: Machine, asks: seq<Ask>, replies: seq<Reply>, run: seq<State>, tables: seq<seq<int>>, evs: seq<Option<Event>>, i: nat, j: nat, p: nat)
    requires Told(mc, asks, replies, run, tables, evs) && i < j <= |asks| && asks[i] == ForkOf(p) && replies[i] == Done
    ensures Alive(tables[i], p)
    ensures (forall k :: i < k < j ==> !By(asks[k], |tables[i]|)) ==>
              Alive(tables[j], |tables[i]|) && MemoryOf(run[j], tables[j], |tables[i]|) == MemoryOf(run[i], tables[i], p)
    ensures (forall k :: i < k < j ==> !By(asks[k], p)) ==>
              Alive(tables[j], p) && MemoryOf(run[j], tables[j], p) == MemoryOf(run[i], tables[i], p)
  {
    hide Sane, Answers, MemoryOf;
    ForkAsk(mc, run[i], tables[i], p, replies[i], evs[i], run[i + 1], tables[i + 1]);
    if forall k :: i < k < j ==> !By(asks[k], |tables[i]|) {
      OnlyItsOwnAsks(mc, asks, replies, run, tables, evs, i + 1, j, |tables[i]|);
    }
    if forall k :: i < k < j ==> !By(asks[k], p) {
      OnlyItsOwnAsks(mc, asks, replies, run, tables, evs, i + 1, j, p);
    }
  }

  lemma OnceEmpty(m: Mem, d: nat)
    requires m == map[d := EmptyTable()]
    ensures Once(m, {d})
  {
    forall q | IsPath(q)
      ensures Trans(m, d, q) == None
    {
      assert !m[d].entries[q[0]].present;
    }
    hide Trans;
  }

  lemma NoLeaf(m: Mem, d: nat, q: Path)
    requires IsPath(q) && LeafTable(m, d, q) == None
    ensures Trans(m, d, q) == None
  {
  }

  predicate Touches(a: Ask)
  {
    a.StoreBy? || a.MapFor? || a.StackFor? || a.WriteFor?
  }

  function RequestOf(d: nat, a: Ask): Request
    requires Touches(a)
  {
    match a
    case StoreBy(_, virt, b) => Request.Store(d, virt, b)
    case MapFor(_, virt) => Request.MapPage(d, virt)
    case StackFor(_, virt, junk) => Request.MapStack(d, virt, junk)
    case WriteFor(_, virt, data) => Request.Write(d, virt, data)
  }

  /** Such a request never maps over a page, births or ends nothing. */
  lemma TouchIs(s: State, d: nat, a: Ask, ev: Event)
    requires Touches(a) && Proper(a) && Does(s.view.mem, RequestOf(d, a), ev) && (a.MapFor? ==> Trans(s.view.mem, d, PathOf(a.virt)) == None)
    ensures !Overmaps(s, ev) && !ev.Forked? && !ev.Exited?
  {
    hide Trans, Content;
  }

  /** After a step that maps over nothing the counts are exact again. */
  lemma Afterwards(s: State, ev: Event, s': State)
    requires Sound(s.view, s.dirs, s.refs) && Step(s, ev, s') && ExactCounts(s) && !Overmaps(s, ev)
    ensures ExactCounts(s') && Sound(s'.view, s'.dirs, s'.refs)
    ensures ev.Forked? ==> ev.child !in s.dirs && s'.dirs == s.dirs + {ev.child}
    ensures ev.Exited? ==> s'.dirs == s.dirs - {ev.dir}
    ensures !ev.Forked? && !ev.Exited? ==> s'.dirs == s.dirs
  {
    hide Sound, Exact, Step, Trans;
    ExactIff(s, ev, s');
    StepRefines(s, ev, s');
    StepSpaces(s, ev, s');
  }

  // ----- Directories nobody frees

  predicate LeavesOne(r: Reply, ev: Option<Event>)
  {
    ev.Some? && ev.value.Forked? && r == Refused
  }

  ghost function LostAt(mc: Machine, s: State, procs: seq<int>): set<nat>
  {
    Lost(procs, mc.mmu.kernelDir, s.dirs)
  }

  lemma OneAskLoses(mc: Machine, s: State, procs: seq<int>, a: Ask, r: Reply, ev: Option<Event>, s': State, procs': seq<int>)
    requires Sane(mc, s, procs) && Answers(mc, s, procs, a, r, ev, s', procs')
    ensures LeavesOne(r, ev) ==> ev.value.child !in s.dirs && LostAt(mc, s', procs') == LostAt(mc, s, procs) + {ev.value.child}
    ensures !LeavesOne(r, ev) ==> LostAt(mc, s', procs') == LostAt(mc, s, procs)
    ensures LeavesOne(r, ev) <==> mc.first + |procs| > 128 && (a.Spawn? || (a.ForkOf? && Alive(procs, a.p)))
  {
    hide Sound, Exact, Once, Step, Spaces, Lost, Tabled;
    if ev.Some? {
      StepSpaces(s, ev.value, s');
      if ev.value.Forked? {
        TabledMore(procs, mc.mmu.kernelDir, s.dirs, ev.value.child);
      } else if ev.value.Exited? {
        TabledLess(procs, mc.mmu.kernelDir, s.dirs, a.p);
      }
    } else {
      SameSpaces(s, s');
    }
  }

  ghost function LeftBy(replies: seq<Reply>, evs: seq<Option<Event>>): nat
    requires |replies| == |evs|
  {
    if evs == [] then 0
    else
      var n := |evs| - 1;
      LeftBy(replies[..n], evs[..n]) + if LeavesOne(replies[n], evs[n]) then 1 else 0
  }

  /** Main result: over any history, the directories that belong to no process
      are as many more as forks and spawns were refused, and none of them is
      ever freed. */
  lemma {:induction false} LostForever(mc: Machine, asks: seq<Ask>, replies: seq<Reply>, run: seq<State>, tables: seq<seq<int>>, evs: seq<Option<Event>>)
    requires Told(mc, asks, replies, run, tables, evs)
    ensures var before, after := LostAt(mc, run[0], tables[0]), LostAt(mc, run[|asks|], tables[|asks|]);
            before <= after && |after| == |before| + LeftBy(replies, evs)
    decreases |asks|
  {
    hide Sane, Answers, Lost;
    if asks != [] {
      var n := |asks| - 1;
      LostForever(mc, asks[..n], replies[..n], run[..n + 1], tables[..n + 1], evs[..n]);
      OneAskLoses(mc, run[n], tables[n], asks[n], replies[n], evs[n], run[n + 1], tables[n + 1]);
      if LeavesOne(replies[n], evs[n]) {
        LostIsNot(tables[n], mc.mmu.kernelDir, run[n].dirs, evs[n].value.child);
      }
    }
  }

  // ----- Who gets a process number

  /** A spawn, or a fork of a live process. */
  predicate Birth(a: Ask, procs: seq<int>)
  {
    a.Spawn? || (a.ForkOf? && Alive(procs, a.p))
  }

  ghost function Births(asks: seq<Ask>, tables: seq<seq<int>>, n: nat): nat
    requires n <= |asks| && n <= |tables|
  {
    if n == 0 then 0 else Births(asks, tables, n - 1) + if Birth(asks[n - 1], tables[n - 1]) then 1 else 0
  }

  lemma OneAskNumbers(mc: Machine, s: State, procs: seq<int>, a: Ask, r: Reply, ev: Option<Event>, s': State, procs': seq<int>)
    requires Answers(mc, s, procs, a, r, ev, s', procs')
    ensures Birth(a, procs) ==> (r == Refused <==> mc.first + |procs| > 128) && (r == Done <==> mc.first + |procs| <= 128)
    ensures |procs'| == |procs| + if Birth(a, procs) && mc.first + |procs| <= 128 then 1 else 0
  {
    hide Step, Spaces, Trans;
  }

  /** Main result: over any history a spawn or a fork of a live process is
      refused exactly when the numbers up to 128 are given away, so that no
      larger one ever is. */
  lemma {:induction false} NumbersUpTo128(mc: Machine, asks: seq<Ask>, replies: seq<Reply>, run: seq<State>, tables: seq<seq<int>>, evs: seq<Option<Event>>, n: nat)
    requires Told(mc, asks, replies, run, tables, evs) && n <= |asks|
    ensures n < |asks| && Birth(asks[n], tables[n]) ==> (replies[n] == Refused <==> mc.first + |tables[n]| > 128)
    ensures mc.first + |tables[0]| <= 129 ==> mc.first + |tables[n]| <= 129
    decreases n
  {
    hide Sane, Answers, Birth;
    if n < |asks| {
      OneAskNumbers(mc, run[n], tables[n], asks[n], replies[n], evs[n], run[n + 1], tables[n + 1]);
    }
    if n > 0 {
      NumbersUpTo128(mc, asks, replies, run, tables, evs, n - 1);
      OneAskNumbers(mc, run[n - 1], tables[n - 1], asks[n - 1], replies[n - 1], evs[n - 1], run[n], tables[n]);
    }
  }

  /** From an empty table exactly the first 129 - first births are done. */
  lemma {:induction false} FirstBirthsDone(mc: Machine, asks: seq<Ask>, replies: seq<Reply>, run: seq<State>, tables: seq<seq<int>>, evs: seq<Option<Event>>, n: nat)
    requires Told(mc, asks, replies, run, tables, evs) && n <= |asks| && tables[0] == [] && mc.first <= 129
    ensures |tables[n]| == if Births(asks, tables, n) < 129 - mc.first then Births(asks, tables, n) else 129 - mc.first
    ensures n < |asks| && Birth(asks[n], tables[n]) ==> (replies[n] == Done <==> Births(asks, tables, n) < 129 - mc.first)
    decreases n
  {
    hide Sane, Answers, Birth;
    if n > 0 {
      FirstBirthsDone(mc, asks, replies, run, tables, evs, n - 1);
      OneAskNumbers(mc, run[n - 1], tables[n - 1], asks[n - 1], replies[n - 1], evs[n - 1], run[n], tables[n]);
    }
    if n < |asks| {
      OneAskNumbers(mc, run[n], tables[n], asks[n], replies[n], evs[n], run[n + 1], tables[n + 1]);
    }
  }

  // ----- What an ask does to the one who asks

  /** A byte stored, a page mapped and bytes written by the loader show up in the
      memory of their process. */
  lemma OwnAskShows(mc: Machine, s: State, procs: seq<int>, a: Ask, r: Reply, ev: Option<Event>, s': State, procs': seq<int>)
    requires Sane(mc, s, procs) && Answers(mc, s, procs, a, r, ev, s', procs') && Touches(a) && Proper(a) && r == Done && ev.Some?
    ensures Alive(procs', a.p)
    ensures var mem, q, off := MemoryOf(s', procs', a.p), PathOf(a.virt), a.virt % 4096;
            && q in mem
            && (a.StoreBy? ==> off < |mem[q]| && mem[q][off] == a.value)
            && (a.MapFor? ==> |mem[q]| == 4096 && forall i :: 0 <= i < 4096 ==> mem[q][i] == 0)
            && (a.WriteFor? ==> off + |a.data| <= |mem[q]| && mem[q][off..off + |a.data|] == a.data)
  {
    hide Sound, Exact, Once, Trans, PathOf, OthersRead;
    var q := PathOf(a.virt);
    assert Content(s'.view.mem, procs[a.p], q).Some?;
  }

  lemma OneExit(mc: Machine, s: State, procs: seq<int>, a: Ask, r: Reply, ev: Option<Event>, s': State, procs': seq<int>, p: nat)
    requires Answers(mc, s, procs, a, r, ev, s', procs') && p < |procs|
    ensures p < |procs'| && (Alive(procs', p) <==> Alive(procs, p) && a != ExitOf(p))
  {
    hide Step, Spaces, Trans;
  }

  /** Over any history, a process is gone from its exit on and not before. */
  lemma {:induction false} GoneFromItsExit(mc: Machine, asks: seq<Ask>, replies: seq<Reply>, run: seq<State>, tables: seq<seq<int>>, evs: seq<Option<Event>>, i: nat, j: nat, p: nat)
    requires Told(mc, asks, replies, run, tables, evs) && i <= j <= |asks| && Alive(tables[i], p)
    ensures p < |tables[j]| && (Alive(tables[j], p) <==> forall k :: i <= k < j ==> asks[k] != ExitOf(p))
    decreases j
  {
    hide Sane, Answers, Alive;
    if i < j {
      GoneFromItsExit(mc, asks, replies, run, tables, evs, i, j - 1, p);
      OneExit(mc, run[j - 1], tables[j - 1], asks[j - 1], replies[j - 1], evs[j - 1], run[j], tables[j], p);
    } else {
      KnownNumber(tables[i], p);
    }
  }

  lemma KnownNumber(procs: seq<int>, p: nat)
    requires Alive(procs, p)
    ensures p < |procs|
  {
  }
}
