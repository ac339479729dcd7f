/** Loading a program: elf64_load_segments of kernel/fs/elf/elf_load.c, on the
    page tables of the new directory. */
module ProgramImage {
  import opened Bytes
  import PT = PageTree
  import opened CowInvariant
  import opened AddressSpaces
  import opened UserMemory

  /** A PT_LOAD program header. */
  datatype Segment = Segment(va: nat, memsz: nat, filesz: nat, offset: nat)

  ghost predicate SegmentOk(g: Segment, image: seq<byte>)
  {
    g.filesz <= g.memsz && g.offset + g.filesz <= |image| && USER_LO <= g.va && g.va + g.memsz <= USER_HI
  }

  /** The pages a segment touches. */
  ghost predicate Touches(g: Segment, p: nat)
  {
    g.va < (p + 1) * PAGE && p * PAGE < g.va + g.memsz
  }

  ghost predicate PageDisjoint(gs: seq<Segment>)
  {
    forall i, j, p: nat :: 0 <= i < j < |gs| ==> !(Touches(gs[i], p) && Touches(gs[j], p))
  }

  /** The byte a segment puts at an address of its pages: from the file, or 0. */
  ghost function Part(g: Segment, image: seq<byte>, a: nat): byte
    requires SegmentOk(g, image)
  {
    if g.va <= a < g.va + g.filesz then image[g.offset + a - g.va] else 0
  }

  ghost predicate AllOk(gs: seq<Segment>, image: seq<byte>)
  {
    forall i :: 0 <= i < |gs| ==> SegmentOk(gs[i], image)
  }

  /** The byte after the first n segments: that of the last segment on its page. */
  ghost function Final(s: Space, gs: seq<Segment>, image: seq<byte>, n: nat, a: nat): int
    requires n <= |gs| && AllOk(gs, image)
  {
    if n == 0 then Byte(s, a)
    else if Touches(gs[n - 1], a / PAGE) then Part(gs[n - 1], image, a)
    else Final(s, gs, image, n - 1, a)
  }

  /** The segment is in memory as its file bytes followed by zeros. */
  ghost predicate Loaded(s: Space, g: Segment, image: seq<byte>)
    requires SegmentOk(g, image)
  {
    forall a: nat :: g.va <= a < g.va + g.memsz ==> Byte(s, a) == Part(g, image, a)
  }

  /** The pages of the segment hold it and zeros, others what they held. */
  ghost predicate Placed(s: Space, s': Space, g: Segment, image: seq<byte>)
    requires SegmentOk(g, image)
  {
    forall a: nat :: Byte(s', a) == if Touches(g, a / PAGE) then Part(g, image, a) else Byte(s, a)
  }

  /** Pages that the segment does not touch keep their mapping. */
  ghost predicate MapKept(s: Space, s': Space, g: Segment)
  {
    forall a: nat :: !Touches(g, a / PAGE) ==> EntryOf(s', a) == EntryOf(s, a)
  }

  /** None of the first n segments touches page p. */
  ghost predicate Untouched(gs: seq<Segment>, n: nat, p: nat)
    requires n <= |gs|
  {
    forall i :: 0 <= i < n ==> !Touches(gs[i], p)
  }

  ghost predicate MapsKept(s: Space, s': Space, gs: seq<Segment>, n: nat)
    requires n <= |gs|
  {
    forall a: nat :: Untouched(gs, n, a / PAGE) ==> EntryOf(s', a) == EntryOf(s, a)
  }

  /** No page of a segment is mapped yet, and no two segments share one. */
  ghost predicate Unmapped(s: Space, gs: seq<Segment>)
  {
    PageDisjoint(gs) && forall i :: 0 <= i < |gs| ==> Bare(s, gs[i].va / PAGE, LastPage(gs[i].va, gs[i].memsz))
  }

  /** Segment j is the last one on its page p. */
  ghost predicate LastOn(gs: seq<Segment>, j: nat, p: nat)
  {
    j < |gs| && Touches(gs[j], p) && forall k :: j < k < |gs| ==> !Touches(gs[k], p)
  }

  /** Where a segment shares a page with later ones, the last of them writes
      the byte the segment wants. */
  ghost predicate Undamaged(gs: seq<Segment>, image: seq<byte>)
    requires AllOk(gs, image)
  {
    forall i, j, a: nat :: 0 <= i < j < |gs| && gs[i].va <= a < gs[i].va + gs[i].memsz && LastOn(gs, j, a / PAGE) ==>
      Part(gs[j], image, a) == Part(gs[i], image, a)
  }

  /** Pages lo to hi of the directory, each on a fresh zeroed frame. */
  ghost predicate Zeroed(s: Space, s': Space, lo: nat, hi: nat)
  {
    && s'.dir == s.dir
    && (forall a: nat :: Byte(s', a) == if lo <= a / PAGE < hi then 0 else Byte(s, a))
    && (forall a: nat :: if lo <= a / PAGE < hi then UserWritable(EntryOf(s', a)) else EntryOf(s', a) == EntryOf(s, a))
  }

  /** The page at v has been mapped to a zeroed frame. */
  ghost predicate FreshPage(m: PT.Mem, m': PT.Mem, dirs: set<nat>, d: nat, v: nat)
  {
    var q := PT.PathOf(v);
    && User(v) && PT.UserPath(q) && Content(m', d, q) == PT.Some(ZeroPage().bytes) && UserWritable(PT.Trans(m', d, q))
    && OthersRead(m, m', dirs, d, q) && OthersSame(m, m', dirs, d, q)
  }

  lemma MapZero(s0: Space, s: Space, s': Space, dirs: set<nat>, lo: nat, p: nat)
    requires Zeroed(s0, s, lo, p) && lo <= p && s'.dir == s.dir && s.dir in dirs && FreshPage(s.mem, s'.mem, dirs, s.dir, p * PAGE)
    ensures Zeroed(s0, s', lo, p + 1) && OtherSpaces(s.mem, s'.mem, dirs, s.dir)
  {
    hide PT.PathOf, Content, PT.Trans, PT.UserPath;
    forall a: nat
      ensures Byte(s', a) == if lo <= a / PAGE < p + 1 then 0 else Byte(s0, a)
      ensures if lo <= a / PAGE < p + 1 then UserWritable(EntryOf(s', a)) else EntryOf(s', a) == EntryOf(s0, a)
    {
      assert Byte(s, a) == if lo <= a / PAGE < p then 0 else Byte(s0, a);
      assert if lo <= a / PAGE < p then UserWritable(EntryOf(s, a)) else EntryOf(s, a) == EntryOf(s0, a);
      UserPages(p * PAGE, a);
      if User(a) {
        UserAddress(a);
        SamePage(p * PAGE, a);
      }
    }
  }

  /** Pages lo to hi are not mapped. */
  ghost predicate Bare(s: Space, lo: nat, hi: nat)
  {
    forall a: nat :: lo <= a / PAGE < hi ==> EntryOf(s, a) == PT.None
  }

  lemma StillBare(s0: Space, s: Space, lo: nat, p: nat, hi: nat)
    requires Zeroed(s0, s, lo, p) && lo <= p < hi && User(p * PAGE)
    ensures Bare(s0, lo, hi) ==> PT.Trans(s.mem, s.dir, PT.PathOf(p * PAGE)) == PT.None
  {
    hide PT.PathOf, PT.Trans, Byte;
    var a := p * PAGE;
    assert EntryOf(s, a) == EntryOf(s0, a);
  }

  /** The mapping loop of a segment; false when frames run out. */
  method MapPages(mmu: Mmu, d: nat, va: nat, size: nat) returns (ok: bool)
    requires mmu.Valid() && d in mmu.dirs && USER_LO <= va && va + size <= USER_HI
    modifies mmu`mem, mmu`own, mmu.pmm.bitmap, mmu.pmm.refs
    ensures mmu.pmm.Valid() && (!ok ==> !mmu.FrameLeft(mmu.pmm.Used()))
    ensures ok ==> mmu.Valid() && Zeroed(Space(old(mmu.mem), d), Space(mmu.mem, d), va / PAGE, LastPage(va, size))
    ensures ok ==> OtherSpaces(old(mmu.mem), mmu.mem, mmu.dirs, d)
    ensures ok && Bare(Space(old(mmu.mem), d), va / PAGE, LastPage(va, size)) && Exact(old(mmu.mem), mmu.dirs, old(mmu.pmm.refs[..])) ==>
              Exact(mmu.mem, mmu.dirs, mmu.pmm.refs[..])
  {
    hide Bare, Zeroed, Sound, Exact, Content, PT.PathOf, PT.Trans, OtherSpaces, Byte, OthersRead, OthersSame;
    ghost var m0, s0 := mmu.mem, Space(mmu.mem, d);
    var v := va - va % PAGE;
    ghost var p := va / PAGE;
    SameIsZeroed(s0, p);
    SameSpaces(m0, mmu.dirs, d);
    PageStart(va);
    LastPageIs(va, size, p);
    while v < va + size
      invariant v == p * PAGE && va / PAGE <= p <= LastPage(va, size) && mmu.Valid() && Zeroed(s0, Space(mmu.mem, d), va / PAGE, p)
      invariant (v < va + size <==> p < LastPage(va, size)) && USER_LO <= v && OtherSpaces(m0, mmu.mem, mmu.dirs, d)
      invariant Bare(s0, va / PAGE, LastPage(va, size)) && Exact(m0, mmu.dirs, old(mmu.pmm.refs[..])) ==> Exact(mmu.mem, mmu.dirs, mmu.pmm.refs[..])
    {
      ghost var m1 := mmu.mem;
      UserAddress(v);
      StillBare(s0, Space(m1, d), va / PAGE, p, LastPage(va, size));
      ok := mmu.MapFresh(d, v);
      if !ok {
        return;
      }
      MapZero(s0, Space(m1, d), Space(mmu.mem, d), mmu.dirs, va / PAGE, p);
      OthersTwice(m0, m1, mmu.mem, mmu.dirs, d);
      v, p := v + PAGE, p + 1;
      LastPageIs(va, size, p);
    }
    ok := true;
  }

  /** The page behind the last one that [va, va + size) touches. */
  function LastPage(va: nat, size: nat): (r: nat)
    ensures va / PAGE <= r
  {
    if size == 0 && va % PAGE == 0 then va / PAGE else (va + size + PAGE - 1) / PAGE
  }

  lemma LastPageIs(va: nat, size: nat, p: nat)
    ensures va / PAGE <= p ==> (p * PAGE < va + size <==> p < LastPage(va, size))
  {
  }

  lemma PageStart(va: nat)
    ensures va - va % PAGE == va / PAGE * PAGE && (USER_LO <= va ==> USER_LO <= va / PAGE * PAGE)
  {
  }

  lemma SameIsZeroed(s: Space, p: nat)
    ensures Zeroed(s, s, p, p)
  {
  }

  lemma ZeroedMaps(s: Space, s': Space, va: nat, size: nat)
    requires Zeroed(s, s', va / PAGE, LastPage(va, size)) && USER_LO <= va && va + size <= USER_HI
    ensures Writable(s', va, va + size)
  {
    hide Byte, EntryOf, LastPage;
    forall a | va <= a < va + size
      ensures UserWritable(EntryOf(s', a))
    {
      LastPageIs(va, size, a / PAGE);
    }
  }

  lemma TouchedPages(g: Segment, a: nat)
    ensures g.va <= a < g.va + g.memsz ==> Touches(g, a / PAGE)
    ensures Touches(g, a / PAGE) ==> g.va / PAGE <= a / PAGE < LastPage(g.va, g.memsz)
    ensures g.va / PAGE <= a / PAGE < LastPage(g.va, g.memsz) ==> Touches(g, a / PAGE)
  {
    LastPageIs(g.va, g.memsz, a / PAGE);
  }

  /** One segment: map, copy the file part, clear the rest. */
  method LoadSegment(mmu: Mmu, d: nat, g: Segment, image: seq<byte>) returns (ok: bool)
    requires mmu.Valid() && d in mmu.dirs && SegmentOk(g, image)
    modifies mmu`mem, mmu`own, mmu.pmm.bitmap, mmu.pmm.refs
    ensures mmu.pmm.Valid() && (!ok ==> !mmu.FrameLeft(mmu.pmm.Used()))
    ensures ok ==> mmu.Valid() && Placed(Space(old(mmu.mem), d), Space(mmu.mem, d), g, image) && OtherSpaces(old(mmu.mem), mmu.mem, mmu.dirs, d)
    ensures ok ==> MapKept(Space(old(mmu.mem), d), Space(mmu.mem, d), g)
    ensures ok && Bare(Space(old(mmu.mem), d), g.va / PAGE, LastPage(g.va, g.memsz)) && Exact(old(mmu.mem), mmu.dirs, old(mmu.pmm.refs[..])) ==>
              Exact(mmu.mem, mmu.dirs, mmu.pmm.refs[..])
  {
    hide Bare, MapKept, LastPage, Zeroed, Stored, Writable, Sound, Exact, Placed, OtherSpaces;
    ghost var m0 := mmu.mem;
    ok := MapPages(mmu, d, g.va, g.memsz);
    if !ok {
      return;
    }
    ghost var m1 := mmu.mem;
    ZeroedMaps(Space(m0, d), Space(m1, d), g.va, g.memsz);
    WritablePart(Space(m1, d), g.va, g.va + g.memsz, g.va, g.va + g.filesz);
    var file := image[g.offset..g.offset + g.filesz];
    CopyIn(mmu, d, g.va, file);
    ghost var m2 := mmu.mem;
    OthersTwice(m0, m1, m2, mmu.dirs, d);
    var rest := Zeros(g.memsz - g.filesz);
    if g.memsz > g.filesz {
      StillWritable(Space(m1, d), Space(m2, d), g.va, file, g.va, g.va + g.memsz, g.va + g.filesz, g.va + g.memsz);
      CopyIn(mmu, d, g.va + g.filesz, rest);
      OthersTwice(m0, m2, mmu.mem, mmu.dirs, d);
    } else {
      StoreNothing(Space(m2, d), g.va + g.filesz);
    }
    SegmentDone(Space(m0, d), Space(m1, d), Space(m2, d), Space(mmu.mem, d), g, image, file, rest);
  }

  lemma SegmentDone(s0: Space, s1: Space, s2: Space, s3: Space, g: Segment, image: seq<byte>, file: seq<byte>, rest: seq<byte>)
    requires SegmentOk(g, image) && Zeroed(s0, s1, g.va / PAGE, LastPage(g.va, g.memsz))
    requires file == image[g.offset..g.offset + g.filesz] && Stored(s1, s2, g.va, file)
    requires |rest| == g.memsz - g.filesz && (forall i :: 0 <= i < |rest| ==> rest[i] == 0) && Stored(s2, s3, g.va + g.filesz, rest)
    ensures Placed(s0, s3, g, image) && MapKept(s0, s3, g)
  {
    hide Byte, EntryOf, LastPage, Touches;
    forall a: nat
      ensures !Touches(g, a / PAGE) ==> EntryOf(s3, a) == EntryOf(s0, a)
      ensures Byte(s3, a) == if Touches(g, a / PAGE) then Part(g, image, a) else Byte(s0, a)
    {
      TouchedPages(g, a);
    }
  }

  /** elf64_load_segments over the loadable headers. It fails only when no
      frame is left; otherwise every byte of the directory is that of the last
      segment on its page, or as it was, and no other directory reads anything
      different. */
  method LoadSegments(mmu: Mmu, d: nat, gs: seq<Segment>, image: seq<byte>) returns (ok: bool)
    requires mmu.Valid() && d in mmu.dirs && AllOk(gs, image)
    modifies mmu`mem, mmu`own, mmu.pmm.bitmap, mmu.pmm.refs
    ensures mmu.pmm.Valid() && (!ok ==> !mmu.FrameLeft(mmu.pmm.Used()))
    ensures ok ==> mmu.Valid() && OtherSpaces(old(mmu.mem), mmu.mem, mmu.dirs, d)
    ensures ok ==> forall a: nat :: Byte(Space(mmu.mem, d), a) == Final(Space(old(mmu.mem), d), gs, image, |gs|, a)
    ensures ok ==> ((forall i :: 0 <= i < |gs| ==> Loaded(Space(mmu.mem, d), gs[i], image)) <==> Undamaged(gs, image))
    ensures ok ==> MapsKept(Space(old(mmu.mem), d), Space(mmu.mem, d), gs, |gs|)
    ensures ok && Unmapped(Space(old(mmu.mem), d), gs) && Exact(old(mmu.mem), mmu.dirs, old(mmu.pmm.refs[..])) ==>
              Exact(mmu.mem, mmu.dirs, mmu.pmm.refs[..])
  {
    hide Unmapped, Bare, MapKept, MapsKept, LastPage, Exact, EntryOf, Byte, Placed, Loaded, Undamaged, Sound, OtherSpaces;
    ghost var m0, s0 := mmu.mem, Space(mmu.mem, d);
    SameSpaces(m0, mmu.dirs, d);
    SameMaps(s0, gs);
    var i := 0;
    while i < |gs|
      invariant 0 <= i <= |gs| && mmu.Valid() && OtherSpaces(m0, mmu.mem, mmu.dirs, d)
      invariant forall a: nat :: Byte(Space(mmu.mem, d), a) == Final(s0, gs, image, i, a)
      invariant MapsKept(s0, Space(mmu.mem, d), gs, i)
      invariant Unmapped(s0, gs) && Exact(m0, mmu.dirs, old(mmu.pmm.refs[..])) ==> Exact(mmu.mem, mmu.dirs, mmu.pmm.refs[..])
    {
      ghost var m1 := mmu.mem;
      NextBare(s0, Space(m1, d), gs, i);
      ok := LoadSegment(mmu, d, gs[i], image);
      if !ok {
        return;
      }
      i := i + 1;
      PlacedNext(s0, Space(m1, d), Space(mmu.mem, d), gs, image, i);
      MapsMore(s0, Space(m1, d), Space(mmu.mem, d), gs, i);
      OthersTwice(m0, m1, mmu.mem, mmu.dirs, d);
    }
    ImageIff(s0, Space(mmu.mem, d), gs, image);
    ok := true;
  }

  lemma SameMaps(s: Space, gs: seq<Segment>)
    ensures MapsKept(s, s, gs, 0)
  {
  }

  lemma MapsMore(s0: Space, s: Space, s': Space, gs: seq<Segment>, n: nat)
    requires 0 < n <= |gs| && MapsKept(s0, s, gs, n - 1) && MapKept(s, s', gs[n - 1])
    ensures MapsKept(s0, s', gs, n)
  {
    hide Touches, EntryOf;
    forall a: nat | Untouched(gs, n, a / PAGE)
      ensures EntryOf(s', a) == EntryOf(s0, a)
    {
      assert Untouched(gs, n - 1, a / PAGE);
    }
  }

  /** A segment on pages of its own that were not mapped finds them so. */
  lemma NextBare(s0: Space, s: Space, gs: seq<Segment>, i: nat)
    requires i < |gs| && MapsKept(s0, s, gs, i)
    ensures Unmapped(s0, gs) ==> Bare(s, gs[i].va / PAGE, LastPage(gs[i].va, gs[i].memsz))
  {
    hide Touches, EntryOf, LastPage;
    if Unmapped(s0, gs) {
      forall a: nat | gs[i].va / PAGE <= a / PAGE < LastPage(gs[i].va, gs[i].memsz)
        ensures EntryOf(s, a) == PT.None
      {
        TouchedPages(gs[i], a);
        assert Bare(s0, gs[i].va / PAGE, LastPage(gs[i].va, gs[i].memsz));
        assert Untouched(gs, i, a / PAGE);
      }
    }
  }

  lemma PlacedNext(s0: Space, s: Space, s': Space, gs: seq<Segment>, image: seq<byte>, n: nat)
    requires AllOk(gs, image) && 0 < n <= |gs| && Placed(s, s', gs[n - 1], image)
    requires forall a: nat :: Byte(s, a) == Final(s0, gs, image, n - 1, a)
    ensures forall a: nat :: Byte(s', a) == Final(s0, gs, image, n, a)
  {
  }

  /** Below the last segment on a page, Final does not look. */
  lemma {:induction false} FinalIsLast(s: Space, gs: seq<Segment>, image: seq<byte>, n: nat, j: nat, a: nat)
    requires j < n <= |gs| && AllOk(gs, image) && LastOn(gs, j, a / PAGE)
    ensures Final(s, gs, image, n, a) == Part(gs[j], image, a)
    decreases n
  {
    if n - 1 > j {
      FinalIsLast(s, gs, image, n - 1, j, a);
    }
  }

  lemma {:induction false} SomeLast(gs: seq<Segment>, i: nat, n: nat, p: nat) returns (j: nat)
    requires i < n <= |gs| && Touches(gs[i], p) && forall k :: n <= k < |gs| ==> !Touches(gs[k], p)
    ensures i <= j && LastOn(gs, j, p)
    decreases n
  {
    if Touches(gs[n - 1], p) {
      j := n - 1;
    } else {
      j := SomeLast(gs, i, n - 1, p);
    }
  }

  /** All segments are in memory as the file says exactly when none is damaged
      on a page it shares with a later one. */
  lemma ImageIff(s0: Space, s: Space, gs: seq<Segment>, image: seq<byte>)
    requires AllOk(gs, image) && forall a: nat :: Byte(s, a) == Final(s0, gs, image, |gs|, a)
    ensures (forall i :: 0 <= i < |gs| ==> Loaded(s, gs[i], image)) <==> Undamaged(gs, image)
  {
    hide Byte, Touches, Part, Final, LastOn;
    if Undamaged(gs, image) {
      forall i, a: nat | 0 <= i < |gs| && gs[i].va <= a < gs[i].va + gs[i].memsz
        ensures Byte(s, a) == Part(gs[i], image, a)
      {
        TouchedPages(gs[i], a);
        var j := SomeLast(gs, i, |gs|, a / PAGE);
        LastIsOne(gs, j, a / PAGE);
        FinalIsLast(s0, gs, image, |gs|, j, a);
      }
    } else {
      var i, j, a: nat :| 0 <= i < j < |gs| && gs[i].va <= a < gs[i].va + gs[i].memsz && LastOn(gs, j, a / PAGE)
                          && Part(gs[j], image, a) != Part(gs[i], image, a);
      FinalIsLast(s0, gs, image, |gs|, j, a);
      assert !Loaded(s, gs[i], image);
    }
  }

  lemma LastIsOne(gs: seq<Segment>, j: nat, p: nat)
    requires LastOn(gs, j, p)
    ensures j < |gs|
  {
  }

  /** Segments on pages of their own are never damaged. */
  lemma DisjointIsFine(gs: seq<Segment>, image: seq<byte>)
    requires AllOk(gs, image) && PageDisjoint(gs)
    ensures Undamaged(gs, image)
  {
    hide Touches;
    forall i, j, a: nat | 0 <= i < j < |gs| && gs[i].va <= a < gs[i].va + gs[i].memsz && LastOn(gs, j, a / PAGE)
      ensures false
    {
      TouchedPages(gs[i], a);
    }
  }

  /** A byte that is not 0 is lost when a later segment begins behind it on the
      same page. */
  lemma SharedPageLoses(gs: seq<Segment>, image: seq<byte>, i: nat, j: nat, a: nat)
    requires AllOk(gs, image) && i < j && LastOn(gs, j, a / PAGE)
    requires gs[i].va <= a < gs[i].va + gs[i].filesz && Part(gs[i], image, a) != 0 && a < gs[j].va
    ensures !Undamaged(gs, image)
  {
    assert Part(gs[j], image, a) == 0;
  }
}
