/** Copy-on-write isolation over whole runs: however clones, stores, exec
    mappings and exits interleave, the address spaces behave like separate
    memories that are copied at fork. */
module Isolation {
  import Bytes
  import opened PageTree
  import opened PageViews
  import opened CowInvariant
  import opened AddressSpaces
  import opened Frames

  /** A private memory: the user pages a process can read. */
  type Space = imap<Path, seq<byte>>

  datatype Event =
    | Forked(src: nat, child: nat)
    | Stored(dir: nat, page: Path, offset: nat, value: byte)
    | MappedZero(dir: nat, page: Path)
    | Filled(dir: nat, page: Path, bytes: seq<byte>)
    | Exited(dir: nat)

  /** The simple machine: one memory per directory, nothing shared. */
  ghost function Apply(s: map<nat, Space>, ev: Event): map<nat, Space>
  {
    match ev
    case Forked(src, child) => if src in s then s[child := s[src]] else s
    case Stored(d, q, off, b) =>
      if d in s && q in s[d] && off < |s[d][q]| then
        var page: seq<byte> := s[d][q][off := b];
        s[d := s[d][q := page]]
      else s
    case MappedZero(d, q) => if d in s then s[d := s[d][q := ZeroPage().bytes]] else s
    case Filled(d, q, bytes) => if d in s then s[d := s[d][q := bytes]] else s
    case Exited(d) => s - {d}
  }

  ghost function ApplyAll(s: map<nat, Space>, evs: seq<Event>): map<nat, Space>
  {
    if evs == [] then s else Apply(ApplyAll(s, evs[..|evs| - 1]), evs[|evs| - 1])
  }

  /** The machine with shared frames, as a state of a run. */
  datatype State = State(view: View, dirs: set<nat>, refs: seq<nat>)

  /** What the address spaces hold, page by page. */
  ghost function Spaces(s: State): map<nat, Space>
  {
    map d | d in s.dirs :: SpaceOf(s.view.mem, d)
  }

  ghost function SpaceOf(m: Mem, d: nat): Space
  {
    imap q | UserPath(q) && Content(m, d, q).Some? :: Content(m, d, q).value
  }

  lemma SameSpace(m: Mem, d: nat, m': Mem, d': nat)
    requires forall q :: UserPath(q) ==> Content(m', d', q) == Content(m, d, q)
    ensures SpaceOf(m', d') == SpaceOf(m, d)
  {
  }

  lemma PageWritten(m: Mem, d: nat, m': Mem, q: Path, page: seq<byte>)
    requires UserPath(q) && Content(m', d, q) == Some(page)
    requires forall q' :: UserPath(q') && q' != q ==> Content(m', d, q') == Content(m, d, q')
    ensures SpaceOf(m', d) == SpaceOf(m, d)[q := page]
  {
  }

  ghost predicate Keeps(s: State, s': State, d: nat, q: Path)
  {
    s'.dirs == s.dirs && OthersRead(s.view.mem, s'.view.mem, s.dirs, d, q)
  }

  ghost predicate ExactCounts(s: State)
  {
    Exact(s.view.mem, s.dirs, s.refs)
  }

  /** One step of the shared machine, as promised by Mmu.CloneUser,
      Mmu.UserStore, Mmu.MapFresh, Mmu.MapStackPage, Mmu.WriteFrame and
      Mmu.FreeDirectory. A run forks only
      while the byte-sized reference counts have room. */
  ghost predicate Step(s: State, ev: Event, s': State)
  {
    match ev
    case Forked(src, child) =>
      && src in s.dirs && RoomToClone(s.view.mem, src, s.refs) && s'.dirs == s.dirs + {child}
      && CloneDone(s.view, s.refs, s'.view, s'.refs, s.dirs, src, child)
    case Stored(d, q, off, b) =>
      && d in s.dirs && UserPath(q) && Keeps(s, s', d, q) && off < PAGE_SIZE
      && Sound(s'.view, s'.dirs, s'.refs)
      && Content(s.view.mem, d, q).Some? && |Content(s.view.mem, d, q).value| == PAGE_SIZE
      && Content(s'.view.mem, d, q) == Some(Content(s.view.mem, d, q).value[off := b])
      && (ExactCounts(s) ==> ExactCounts(s'))
    case MappedZero(d, q) =>
      && d in s.dirs && UserPath(q) && Keeps(s, s', d, q)
      && Sound(s'.view, s'.dirs, s'.refs)
      && Content(s'.view.mem, d, q) == Some(ZeroPage().bytes)
      && (ExactCounts(s) ==> (ExactCounts(s') <==> Trans(s.view.mem, d, q) == None))
    case Filled(d, q, bytes) =>
      && d in s.dirs && UserPath(q) && Keeps(s, s', d, q)
      && Sound(s'.view, s'.dirs, s'.refs)
      && Content(s'.view.mem, d, q) == Some(bytes)
      && (ExactCounts(s) ==> ExactCounts(s'))
    case Exited(d) =>
      && s'.dirs == s.dirs - {d} && s'.view.mem == s.view.mem
      && Sound(s'.view, s'.dirs, s'.refs)
      && (ExactCounts(s) ==> ExactCounts(s'))
  }

  /** Each step does to the address spaces what it does to separate memories. */
  lemma StepRefines(s: State, ev: Event, s': State)
    requires Sound(s.view, s.dirs, s.refs) && Step(s, ev, s')
    ensures Sound(s'.view, s'.dirs, s'.refs)
    ensures Spaces(s') == Apply(Spaces(s), ev)
  {
    hide Sound;
    var m, m' := s.view.mem, s'.view.mem;
    match ev {
      case Forked(src, child) => ForkRefines(s, src, child, s');
      case Stored(d, q, off, b) =>
        var page: seq<byte> := Content(m, d, q).value[off := b];
        WriteRefines(s, d, q, page, s');
        assert SpaceOf(m, d)[q] == Content(m, d, q).value;
      case MappedZero(d, q) => WriteRefines(s, d, q, ZeroPage().bytes, s');
      case Filled(d, q, bytes) => WriteRefines(s, d, q, bytes, s');
      case Exited(d) =>
    }
  }

  lemma ForkRefines(s: State, src: nat, child: nat, s': State)
    requires src in s.dirs && s'.dirs == s.dirs + {child}
    requires CloneDone(s.view, s.refs, s'.view, s'.refs, s.dirs, src, child)
    ensures Spaces(s') == Spaces(s)[child := Spaces(s)[src]]
  {
    hide Sound, RoomToClone, Exact;
    SameSpace(s.view.mem, src, s'.view.mem, child);
    forall d | d in s.dirs ensures SpaceOf(s'.view.mem, d) == SpaceOf(s.view.mem, d) {
      SameSpace(s.view.mem, d, s'.view.mem, d);
    }
  }

  lemma WriteRefines(s: State, d: nat, q: Path, page: seq<byte>, s': State)
    requires d in s.dirs && UserPath(q) && Keeps(s, s', d, q) && Content(s'.view.mem, d, q) == Some(page)
    ensures Spaces(s') == Spaces(s)[d := SpaceOf(s.view.mem, d)[q := page]]
  {
    PageWritten(s.view.mem, d, s'.view.mem, q, page);
    forall d' | d' in s.dirs && d' != d ensures SpaceOf(s'.view.mem, d') == SpaceOf(s.view.mem, d') {
      SameSpace(s.view.mem, d', s'.view.mem, d');
    }
  }

  /** Main result: along every run the invariant holds and the address spaces
      are those of the machine that shares nothing. */
  lemma {:induction false} EveryRunIsPrivate(run: seq<State>, evs: seq<Event>)
    requires |run| == |evs| + 1 && Sound(run[0].view, run[0].dirs, run[0].refs)
    requires forall i :: 0 <= i < |evs| ==> Step(run[i], evs[i], run[i + 1])
    ensures Sound(run[|evs|].view, run[|evs|].dirs, run[|evs|].refs)
    ensures Spaces(run[|evs|]) == ApplyAll(Spaces(run[0]), evs)
    decreases |evs|
  {
    if evs != [] {
      var n := |evs| - 1;
      EveryRunIsPrivate(run[..n + 1], evs[..n]);
      StepRefines(run[n], evs[n], run[n + 1]);
    }
  }

  /** An exec that maps a page which is mapped already. */
  ghost predicate Overmaps(s: State, ev: Event)
  {
    ev.MappedZero? && IsPath(ev.page) && Trans(s.view.mem, ev.dir, ev.page) != None
  }

  /** One step loses an exact count exactly when it maps over a mapped page. */
  lemma ExactIff(s: State, ev: Event, s': State)
    requires ExactCounts(s) && Step(s, ev, s')
    ensures ExactCounts(s') <==> !Overmaps(s, ev)
  {
    hide Sound, Exact, CloneView, Content, Trans, OthersRead;
  }

  /** Along every run in which exec maps only unmapped pages, each reference
      count is the number of pages on its frame; so a frame that is counted is
      mapped somewhere, and none leaks. */
  lemma {:induction false} CountsStayExact(run: seq<State>, evs: seq<Event>)
    requires |run| == |evs| + 1 && ExactCounts(run[0])
    requires forall i :: 0 <= i < |evs| ==> Step(run[i], evs[i], run[i + 1]) && !Overmaps(run[i], evs[i])
    ensures ExactCounts(run[|evs|])
    ensures forall f :: 0 <= f < |run[|evs|].refs| && run[|evs|].refs[f] > 0 ==> IsMapped(run[|evs|], f)
    decreases |evs|
  {
    hide Step, ExactCounts, Overmaps, IsMapped;
    if evs != [] {
      var n := |evs| - 1;
      CountsStayExact(run[..n + 1], evs[..n]);
      ExactIff(run[n], evs[n], run[n + 1]);
    }
    forall f | 0 <= f < |run[|evs|].refs| && run[|evs|].refs[f] > 0
      ensures IsMapped(run[|evs|], f)
    {
      CountedIsMapped(run[|evs|], f);
    }
  }

  ghost predicate IsMapped(s: State, f: nat)
  {
    exists d, q :: d in s.dirs && Maps(s.view.mem, d, q, f)
  }

  lemma CountedIsMapped(s: State, f: nat)
    requires ExactCounts(s) && f < |s.refs| && s.refs[f] > 0
    ensures IsMapped(s, f)
  {
    hide Mappings;
    var x :| x in Mappings(s.view.mem, s.dirs, f);
    InMappings(s.view.mem, s.dirs, x.0, x.1, f);
  }

  predicate Names(ev: Event, d: nat)
  {
    match ev
    case Forked(_, child) => child == d
    case Stored(e, _, _, _) => e == d
    case MappedZero(e, _) => e == d
    case Filled(e, _, _) => e == d
    case Exited(e) => e == d
  }

  lemma {:induction false} ApplyOthers(s: map<nat, Space>, evs: seq<Event>, d: nat)
    requires d in s && forall i :: 0 <= i < |evs| ==> !Names(evs[i], d)
    ensures d in ApplyAll(s, evs) && ApplyAll(s, evs)[d] == s[d]
    decreases |evs|
  {
    if evs != [] {
      ApplyOthers(s, evs[..|evs| - 1], d);
      assert !Names(evs[|evs| - 1], d);
    }
  }

  /** What a directory reads is changed by its own events only: no store,
      mapping, fork or exit of another process is ever seen. */
  lemma OthersNeverSee(run: seq<State>, evs: seq<Event>, d: nat)
    requires |run| == |evs| + 1 && Sound(run[0].view, run[0].dirs, run[0].refs)
    requires forall i :: 0 <= i < |evs| ==> Step(run[i], evs[i], run[i + 1])
    requires d in run[0].dirs && forall i :: 0 <= i < |evs| ==> !Names(evs[i], d)
    ensures d in run[|evs|].dirs && Spaces(run[|evs|])[d] == Spaces(run[0])[d]
  {
    hide Sound, Step;
    EveryRunIsPrivate(run, evs);
    ApplyOthers(Spaces(run[0]), evs, d);
    assert d in Spaces(run[|evs|]);
  }

  lemma ForkFacts(s: State, src: nat, child: nat, s': State)
    requires Step(s, Forked(src, child), s')
    ensures src in s.dirs && child in s'.dirs && src in Spaces(s) && child in Spaces(s')
  {
    hide CloneDone, RoomToClone;
  }

  /** A child starts equal to its parent and keeps that content while only
      others act, the parent included. */
  lemma ChildKeepsForkImage(run: seq<State>, evs: seq<Event>, src: nat, child: nat)
    requires |run| == |evs| + 1 && evs != [] && Sound(run[0].view, run[0].dirs, run[0].refs)
    requires forall i :: 0 <= i < |evs| ==> Step(run[i], evs[i], run[i + 1])
    requires evs[0] == Forked(src, child) && forall i :: 1 <= i < |evs| ==> !Names(evs[i], child)
    ensures child in run[|evs|].dirs && src in run[0].dirs && Spaces(run[|evs|])[child] == Spaces(run[0])[src]
  {
    hide Sound, Step, Spaces;
    ForkFacts(run[0], src, child, run[1]);
    StepRefines(run[0], evs[0], run[1]);
    assert forall i :: 0 <= i < |evs| - 1 ==> Step(run[1..][i], evs[1..][i], run[1..][i + 1]);
    OthersNeverSee(run[1..], evs[1..], child);
  }

  datatype Request = Fork(src: nat) | Store(dir: nat, virt: nat, value: byte) | MapPage(dir: nat, virt: nat)
    | MapStack(dir: nat, virt: nat, junk: seq<byte>) | Write(dir: nat, virt: nat, data: seq<byte>) | Exit(dir: nat)

  ghost function StateOf(mmu: Mmu): State
    reads mmu, mmu.pmm, mmu.pmm.bitmap, mmu.pmm.refs
  {
    State(mmu.Now(), mmu.dirs, mmu.pmm.refs[..])
  }

  predicate UserRequest(r: Request)
  {
    match r
    case Fork(_) => true
    case Store(_, virt, _) => UserPath(PathOf(virt))
    case MapPage(_, virt) => UserPath(PathOf(virt))
    case MapStack(_, virt, junk) => UserPath(PathOf(virt)) && |junk| == PAGE_SIZE
    case Write(_, virt, data) => UserPath(PathOf(virt)) && virt % PAGE_SIZE + |data| <= PAGE_SIZE
    case Exit(_) => true
  }

  /** The event is the one the request asks for in memory m. */
  ghost predicate Does(m: Mem, r: Request, ev: Event)
  {
    match r
    case Fork(d) => ev.Forked? && ev.src == d
    case Store(d, virt, b) => ev == Stored(d, PathOf(virt), virt % PAGE_SIZE, b)
    case MapPage(d, virt) => ev == MappedZero(d, PathOf(virt))
    case MapStack(d, virt, junk) => ev.Filled? && ev.dir == d && ev.page == PathOf(virt) && exists f :: ev.bytes == Former(m, f, junk)
    case Write(d, virt, data) =>
      && UserPath(PathOf(virt)) && Content(m, d, PathOf(virt)).Some?
      && virt % PAGE_SIZE + |data| <= |Content(m, d, PathOf(virt)).value|
      && ev == Filled(d, PathOf(virt), Bytes.Put(Content(m, d, PathOf(virt)).value, virt % PAGE_SIZE, data))
    case Exit(d) => ev == Exited(d)
  }

  /** The operations of the page-table code are the steps of the runs above. A
      request that does nothing (a store that kills its process, a stack page
      that is there, an exit of the kernel directory) reports no event; ok is
      false where the kernel runs out of memory. */
  method Perform(mmu: Mmu, r: Request) returns (ghost ev: Option<Event>, ok: bool, killed: bool)
    requires mmu.Valid() && UserRequest(r)
    requires match r case Fork(d) => d in mmu.dirs case Store(d, _, _) => d in mmu.dirs case MapPage(d, _) => d in mmu.dirs
      case MapStack(d, _, _) => d in mmu.dirs case Write(d, virt, _) => d in mmu.dirs && UserWritable(Trans(mmu.mem, d, PathOf(virt))) case Exit(d) => d in mmu.dirs
    modifies mmu, mmu.pmm.bitmap, mmu.pmm.refs
    ensures ok && ev.None? && ExactCounts(old(StateOf(mmu))) ==> ExactCounts(StateOf(mmu))
    ensures ok && !r.Fork? ==> mmu.Valid()
    ensures ok && ev.None? ==> Spaces(StateOf(mmu)) == Spaces(old(StateOf(mmu)))
    ensures ok && ev.Some? && (r.Fork? ==> RoomToClone(old(mmu.mem), r.src, old(mmu.pmm.refs[..]))) ==>
      Step(old(StateOf(mmu)), ev.value, StateOf(mmu))
    ensures ok && ev.Some? ==> Does(old(mmu.mem), r, ev.value)
    ensures ok && !r.Store? ==> (ev.None? <==> (r.MapStack? && Trans(old(mmu.mem), r.dir, PathOf(r.virt)) != None) || r == Exit(mmu.kernelDir))
    ensures !ok ==> !mmu.FrameLeft(mmu.pmm.Used())
    ensures killed <==> r.Store? && ev.None?
    ensures r.Store? || r.Write? || r.Exit? ==> ok
    ensures r.Store? ==> (killed <==> !mmu.Storable(Trans(old(mmu.mem), r.dir, PathOf(r.virt)), old(mmu.pmm.refs[..]), old(mmu.pmm.Used())))
    ensures ok && Once(old(mmu.mem), old(mmu.dirs)) ==> Once(mmu.mem, mmu.dirs)
  {
    hide Sound, Exact, OthersRead, CloneDone, RoomToClone, Trans, Content, FrameAllocator.Used, Once, OthersSame, Mmu.FirstLeft, Mmu.Spare, Mmu.Storable, Missing;
    ghost var v0, refs0, dirs0 := mmu.Now(), mmu.pmm.refs[..], mmu.dirs;
    killed := false;
    match r {
      case Fork(src) =>
        var child;
        child, ok := mmu.CloneUser(src);
        ev := Some(Forked(src, child));
        if ok && Once(v0.mem, dirs0) {
          OnceForked(v0, refs0, mmu.Now(), mmu.pmm.refs[..], dirs0, src, child);
        }
      case Store(d, virt, b) =>
        var stored := mmu.UserStore(d, virt, b);
        ok := true;
        if stored {
          ev := Some(Stored(d, PathOf(virt), virt % PAGE_SIZE, b));
        } else {
          ev, killed := None, true;
          NothingRead(old(StateOf(mmu)), StateOf(mmu), d, PathOf(virt));
        }
      case MapPage(d, virt) =>
        ok := mmu.MapFresh(d, virt);
        ev := Some(MappedZero(d, PathOf(virt)));
        if ok && Once(v0.mem, dirs0) {
          FirstIsFree(mmu, v0.used, Trans(mmu.mem, d, PathOf(virt)).value.frame);
          OnceFresh(v0, refs0, mmu.mem, dirs0, d, PathOf(virt));
        }
      case MapStack(d, virt, junk) =>
        ghost var s0, o := StateOf(mmu), Trans(mmu.mem, d, PathOf(virt));
        var found;
        ok, found := mmu.MapStackPage(d, virt, junk);
        ev := Some(Filled(d, PathOf(virt), if ok then Former(s0.view.mem, Trans(mmu.mem, d, PathOf(virt)).value.frame, junk) else junk));
        if ok && Once(v0.mem, dirs0) {
          if o == None {
            OnceFresh(v0, refs0, mmu.mem, dirs0, d, PathOf(virt));
          } else {
            OnceMoved(v0.mem, mmu.mem, dirs0, d, PathOf(virt), o.value.frame);
          }
        }
        if ok && o != None {
          ev := None;
          NothingRead(s0, StateOf(mmu), d, PathOf(virt));
        }
      case Write(d, virt, data) =>
        ghost var page := Content(mmu.mem, d, PathOf(virt));
        mmu.WriteFrame(d, virt, data);
        ok := true;
        if Once(v0.mem, dirs0) {
          OnceSame(v0.mem, mmu.mem, dirs0);
        }
        ev := Some(Filled(d, PathOf(virt), Bytes.Put(page.value, virt % PAGE_SIZE, data)));
      case Exit(d) =>
        mmu.FreeDirectory(d);
        ok := true;
        if Once(v0.mem, dirs0) {
          OnceFewer(v0.mem, dirs0, mmu.dirs);
        }
        ev := if d == mmu.kernelDir then None else Some(Exited(d));
    }
  }

  lemma OnceForked(v0: View, refs0: seq<nat>, v: View, refs: seq<nat>, dirs: set<nat>, src: nat, child: nat)
    requires CloneDone(v0, refs0, v, refs, dirs, src, child) && Once(v0.mem, dirs) && src in dirs
    ensures Once(v.mem, dirs + {child})
  {
    hide Once;
    OnceCloned(v0.mem, v.mem, dirs, src, child);
  }

  lemma OnceFewer(m: Mem, dirs: set<nat>, less: set<nat>)
    requires Once(m, dirs) && less <= dirs
    ensures Once(m, less)
  {
    hide Trans;
  }

  lemma FirstIsFree(mmu: Mmu, used: set<nat>, f: nat)
    requires mmu.FirstLeft(used, f)
    ensures f !in used
  {
  }

  lemma NothingRead(s: State, s': State, d: nat, q: Path)
    requires d in s.dirs && UserPath(q) && Keeps(s, s', d, q) && Content(s'.view.mem, d, q) == Content(s.view.mem, d, q)
    ensures Spaces(s') == Spaces(s)
  {
    forall d' | d' in s.dirs ensures SpaceOf(s'.view.mem, d') == SpaceOf(s.view.mem, d') {
      SameSpace(s.view.mem, d', s'.view.mem, d');
    }
  }
}
