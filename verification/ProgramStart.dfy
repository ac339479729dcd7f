/** The address space that sys_execve of kernel/proc/exec.c builds for a 64-bit
    program: a clone of the kernel's directory, the segments of the file, and
    the stack with the arguments. */
module ProgramStart {
  import opened Bytes
  import PT = PageTree
  import opened PageViews
  import opened CowInvariant
  import opened AddressSpaces
  import opened UserMemory
  import opened ProgramImage
  import opened UserStack

  const STACK_TOP: nat := 0x7FFF_FFFF_F000
  const STACK_SIZE: nat := 0x8000
  const STACK_BASE: nat := STACK_TOP - STACK_SIZE

  /** The user half of directory d is empty. */
  ghost predicate NoUserPages(m: PT.Mem, d: nat)
  {
    forall q :: PT.UserPath(q) ==> PT.Trans(m, d, q) == PT.None
  }

  /** An empty directory can always be cloned. */
  lemma EmptyClones(m: PT.Mem, d: nat, refs: seq<nat>)
    requires NoUserPages(m, d) && forall f :: 0 <= f < |refs| ==> refs[f] < 256
    ensures RoomToClone(m, d, refs)
  {
    forall f | 0 <= f < |refs|
      ensures PagesOf(m, d, f) == {}
    {
    }
  }

  /** Its clone is empty too. */
  lemma EmptyChild(v0: PT.Mem, v: PT.Mem, dirs: set<nat>, src: nat, child: nat)
    requires CloneView(v0, v, dirs, src, child) && NoUserPages(v0, src)
    ensures NoUserPages(v, child)
  {
  }

  lemma EmptyBytes(m: PT.Mem, d: nat)
    requires NoUserPages(m, d)
    ensures forall a: nat :: EntryOf(Space(m, d), a) == PT.None && Byte(Space(m, d), a) == -1
  {
    hide PT.PathOf, PT.Trans;
    forall a: nat
      ensures EntryOf(Space(m, d), a) == PT.None && Byte(Space(m, d), a) == -1
    {
      if User(a) {
        UserAddress(a);
      }
    }
  }

  /** Every segment ends below the stack. */
  ghost predicate BelowStack(gs: seq<Segment>)
  {
    forall i :: 0 <= i < |gs| ==> gs[i].va + gs[i].memsz <= STACK_BASE
  }

  lemma StackUntouched(gs: seq<Segment>, a: nat)
    requires BelowStack(gs) && STACK_BASE <= a
    ensures Untouched(gs, |gs|, a / PAGE)
  {
    assert a / PAGE * PAGE >= STACK_BASE;
  }

  lemma StackRoom(s0: Space, s: Space, gs: seq<Segment>)
    requires MapsKept(s0, s, gs, |gs|) && BelowStack(gs) && forall a: nat :: EntryOf(s0, a) == PT.None
    ensures Room(s, STACK_BASE, STACK_TOP)
  {
    hide EntryOf, BelowStack, Untouched;
    forall a | STACK_BASE <= a < STACK_TOP
      ensures EntryOf(s, a) == PT.None
    {
      StackUntouched(gs, a);
    }
  }

  lemma EmptyUnmapped(s: Space, gs: seq<Segment>)
    requires PageDisjoint(gs) && forall a: nat :: EntryOf(s, a) == PT.None
    ensures Unmapped(s, gs)
  {
    hide EntryOf, LastPage, PageDisjoint;
  }

  /** The byte of a program at a below its stack: what its segments put there. */
  ghost predicate HoldsImage(s: Space, gs: seq<Segment>, image: seq<byte>)
    requires AllOk(gs, image)
  {
    forall a: nat :: a < STACK_BASE ==>
      if Untouched(gs, |gs|, a / PAGE) then Byte(s, a) == -1
      else exists j: nat :: j < |gs| && LastOn(gs, j, a / PAGE) && Byte(s, a) == Part(gs[j], image, a)
  }

  lemma {:induction false} FinalUntouched(s: Space, gs: seq<Segment>, image: seq<byte>, n: nat, a: nat)
    requires n <= |gs| && AllOk(gs, image) && Untouched(gs, n, a / PAGE)
    ensures Final(s, gs, image, n, a) == Byte(s, a)
  {
    hide Byte, Touches;
    if n > 0 {
      FinalUntouched(s, gs, image, n - 1, a);
    }
  }

  lemma ImageHeld(s0: Space, s1: Space, s: Space, gs: seq<Segment>, image: seq<byte>)
    requires AllOk(gs, image) && (forall a: nat :: Byte(s0, a) == -1) && (forall a: nat :: Byte(s1, a) == Final(s0, gs, image, |gs|, a))
    requires forall a: nat :: a < STACK_BASE ==> Byte(s, a) == Byte(s1, a)
    ensures HoldsImage(s, gs, image)
  {
    hide Byte, Touches, Final, Part, SegmentOk, LastOn;
    forall a: nat | a < STACK_BASE
      ensures if Untouched(gs, |gs|, a / PAGE) then Byte(s, a) == -1
              else exists j: nat :: j < |gs| && LastOn(gs, j, a / PAGE) && Byte(s, a) == Part(gs[j], image, a)
    {
      if Untouched(gs, |gs|, a / PAGE) {
        FinalUntouched(s0, gs, image, |gs|, a);
      } else {
        var i :| 0 <= i < |gs| && Touches(gs[i], a / PAGE);
        var j := SomeLast(gs, i, |gs|, a / PAGE);
        LastIsOne(gs, j, a / PAGE);
        FinalIsLast(s0, gs, image, |gs|, j, a);
      }
    }
  }

  lemma SegmentsStay(s1: Space, s: Space, gs: seq<Segment>, image: seq<byte>)
    requires AllOk(gs, image) && BelowStack(gs) && forall a: nat :: a < STACK_BASE ==> Byte(s, a) == Byte(s1, a)
    ensures (forall i :: 0 <= i < |gs| ==> Loaded(s, gs[i], image)) <==> (forall i :: 0 <= i < |gs| ==> Loaded(s1, gs[i], image))
  {
    hide Byte, Part;
    forall i | 0 <= i < |gs|
      ensures Loaded(s, gs[i], image) <==> Loaded(s1, gs[i], image)
    {
    }
  }

  /** Only directory d is new, and the others read what they read. */
  ghost predicate Beside(m: PT.Mem, m': PT.Mem, dirs: set<nat>)
  {
    forall d, q :: d in dirs && PT.UserPath(q) ==> Content(m', d, q) == Content(m, d, q)
  }

  lemma BesideMore(m: PT.Mem, m1: PT.Mem, m2: PT.Mem, dirs: set<nat>, d: nat)
    requires d !in dirs && Beside(m, m1, dirs) && OtherSpaces(m1, m2, dirs + {d}, d)
    ensures Beside(m, m2, dirs)
  {
    hide Content, PT.UserPath;
  }

  lemma CloneIsBeside(v0: View, refs0: seq<nat>, v: View, refs: seq<nat>, dirs: set<nat>, src: nat, child: nat)
    requires CloneDone(v0, refs0, v, refs, dirs, src, child) && NoUserPages(v0.mem, src) && forall f :: 0 <= f < |refs0| ==> refs0[f] < 256
    ensures child !in dirs && Beside(v0.mem, v.mem, dirs) && NoUserPages(v.mem, child) && Sound(v, dirs + {child}, refs)
    ensures Exact(v0.mem, dirs, refs0) ==> Exact(v.mem, dirs + {child}, refs)
  {
    hide Sound, Exact, Content, RoomToClone, CloneView, NoUserPages;
    EmptyClones(v0.mem, src, refs0);
    EmptyChild(v0.mem, v.mem, dirs, src, child);
  }

  lemma StackedFacts(m: PT.Mem, m': PT.Mem, dirs: set<nat>, d: nat)
    requires Stacked(m, m', dirs, d, STACK_BASE, STACK_TOP)
    ensures OtherSpaces(m, m', dirs, d) && forall a: nat :: a < STACK_BASE ==> Byte(Space(m', d), a) == Byte(Space(m, d), a)
  {
    hide Byte, EntryOf, OtherSpaces;
  }

  /** A new program: below the stack its memory is the file's segments and
      nothing else, at sp are its arguments, and no other process reads anything
      different. The segments are all intact exactly when none is damaged by a
      later one; the counts stay exact when no two share a page. It fails only
      when frames run out. */
  method Start(mmu: Mmu, gs: seq<Segment>, image: seq<byte>, args0: seq<seq<byte>>, junk: nat -> seq<byte>) returns (d: nat, sp: nat, ok: bool)
    requires mmu.Valid() && NoUserPages(mmu.mem, mmu.kernelDir) && AllOk(gs, image) && BelowStack(gs) && forall v :: |junk(v)| == PAGE
    requires var args := args0[..Min(|args0|, 64)]; Size(args, 0) + 15 + 8 * (|args| + 2) <= 0x8000
    modifies mmu, mmu.pmm.bitmap, mmu.pmm.refs
    ensures !ok ==> !mmu.FrameLeft(mmu.pmm.Used())
    ensures ok ==> mmu.Valid() && d !in old(mmu.dirs) && mmu.dirs == old(mmu.dirs) + {d} && Beside(old(mmu.mem), mmu.mem, old(mmu.dirs))
    ensures ok ==> HoldsImage(Space(mmu.mem, d), gs, image) && HoldsArgs(Space(mmu.mem, d), sp, args0[..Min(|args0|, 64)])
    ensures ok ==> 0x7FFF_FFFF_7000 <= sp <= 0x7FFF_FFFF_F000 && Writable(Space(mmu.mem, d), 0x7FFF_FFFF_7000, 0x7FFF_FFFF_F000)
    ensures ok ==> StackPlaced(sp, args0[..Min(|args0|, 64)], 0x7FFF_FFFF_F000)
    ensures ok ==> ((forall i :: 0 <= i < |gs| ==> Loaded(Space(mmu.mem, d), gs[i], image)) <==> Undamaged(gs, image))
    ensures ok && PageDisjoint(gs) && Exact(old(mmu.mem), old(mmu.dirs), old(mmu.pmm.refs[..])) ==> Exact(mmu.mem, mmu.dirs, mmu.pmm.refs[..])
  {
    hide Sound, Exact, CloneDone, NoUserPages, Beside, OtherSpaces, MapsKept, Unmapped, Room, Stacked, HoldsArgs, HoldsImage, Loaded, Undamaged, BelowStack,
      SegmentOk, Byte, EntryOf, Final, PageDisjoint, Writable, StackPlaced;
    ghost var v0, refs0, dirs0 := mmu.Now(), mmu.pmm.refs[..], mmu.dirs;
    d, ok := mmu.CloneUser(mmu.kernelDir);
    sp := 0;
    if !ok { return; }
    CloneIsBeside(v0, refs0, mmu.Now(), mmu.pmm.refs[..], dirs0, mmu.kernelDir, d);
    ghost var m1 := mmu.mem;
    EmptyBytes(m1, d);
    ok := LoadSegments(mmu, d, gs, image);
    if !ok { return; }
    ghost var m2 := mmu.mem;
    BesideMore(v0.mem, m1, m2, dirs0, d);
    StackRoom(Space(m1, d), Space(m2, d), gs);
    assert PageDisjoint(gs) ==> Unmapped(Space(m1, d), gs) by {
      if PageDisjoint(gs) { EmptyUnmapped(Space(m1, d), gs); }
    }
    sp, ok := BuildStack(mmu, d, args0, STACK_TOP, STACK_BASE, junk);
    if !ok { return; }
    StackedWritable(m2, mmu.mem, mmu.dirs, d, STACK_BASE, STACK_TOP);
    StackedFacts(m2, mmu.mem, mmu.dirs, d);
    BesideMore(v0.mem, m2, mmu.mem, dirs0, d);
    ImageHeld(Space(m1, d), Space(m2, d), Space(mmu.mem, d), gs, image);
    SegmentsStay(Space(m2, d), Space(mmu.mem, d), gs, image);
  }
}
