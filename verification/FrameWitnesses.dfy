/** Runs from an empty machine into the cases that the page-table code gets
    wrong: a stack page on a frame that is not there, a reference count that
    passes 255, and a stack page that shows what another process wrote. */
module FrameWitnesses {
  import opened Bytes
  import PT = PageTree
  import opened Frames
  import opened PageViews
  import opened CowInvariant
  import opened AddressSpaces
  import opened UserMemory
  import PS = ProgramStart

  const PLACE: nat := 0x4000_0000

  lemma PlaceIsUser()
    ensures PT.UserPath(PT.PathOf(PLACE)) && User(PLACE)
  {
    UserAddress(PLACE);
  }

  /** In an empty directory all three tables are missing and nothing is mapped. */
  lemma EmptyDirectory(d: nat, q: PT.Path)
    requires PT.IsPath(q)
    ensures var m: PT.Mem := map[d := PT.EmptyTable()]; Missing(m, d, q) == 3 && PT.Trans(m, d, q) == PT.None
  {
  }

  /** Three free frames are enough for the tables and leave none for the page:
      the stack page ends up on the frame that the failed search names. */
  method StackOnNothing(junk: seq<byte>) returns (mmu: Mmu)
    requires |junk| == PAGE
    ensures fresh(mmu) && !mmu.Valid()
    ensures PT.Trans(mmu.mem, mmu.kernelDir, PT.PathOf(PLACE)) == PT.Some(PT.Entry(true, true, true, false, NO_FRAME))
  {
    hide PT.PathOf, PT.Trans, Missing, Sound;
    var frames := new FrameAllocator(32, 29);
    frames.SetFrame(0);
    mmu := new Mmu(frames, 0);
    PlaceIsUser();
    EmptyDirectory(0, PT.PathOf(PLACE));
    assert mmu.Spare(mmu.pmm.Used()) == {29, 30, 31};
    var ok, found := mmu.MapStackPage(0, PLACE, junk);
    OffMemory(mmu.Now(), mmu.dirs, mmu.pmm.refs[..], 0, PT.PathOf(PLACE));
  }

  /** A page on a frame beyond memory is not sound. */
  lemma OffMemory(v: View, dirs: set<nat>, refs: seq<nat>, d: nat, q: PT.Path)
    requires d in dirs && PT.UserPath(q) && PT.Trans(v.mem, d, q).Some? && PT.Trans(v.mem, d, q).value.frame >= |refs|
    ensures !Sound(v, dirs, refs)
  {
    hide PT.Trans;
    assert !LeafOk(v, PT.Trans(v.mem, d, q).value, |refs|);
  }

  // ----- A reference count that passes 255

  /** Every directory has page q, on frame f, and no other page. */
  ghost predicate OnePage(m: PT.Mem, dirs: set<nat>, q: PT.Path, f: nat)
  {
    forall d, p :: d in dirs && PT.UserPath(p) ==> OnlyThat(PT.Trans(m, d, p), p == q, f)
  }

  ghost predicate OnlyThat(o: PT.Option<PT.Entry>, here: bool, f: nat)
  {
    if here then o.Some? && o.value.frame == f else o == PT.None
  }

  lemma CloneKeepsOne(m: PT.Mem, m': PT.Mem, dirs: set<nat>, src: nat, child: nat, q: PT.Path, f: nat)
    requires OnePage(m, dirs, q, f) && src in dirs && child !in dirs && CloneView(m, m', dirs, src, child) && PT.UserPath(q)
    ensures OnePage(m', dirs + {child}, q, f) && |Mappings(m', dirs + {child}, f)| == |Mappings(m, dirs, f)| + 1
  {
    hide PT.Trans, Mappings, PagesOf;
    OnlyPageOf(m, dirs, src, q, f, f);
    CloneMaps(m, m', dirs, src, child, f);
    forall d, p | d in dirs + {child} && PT.UserPath(p)
      ensures OnlyThat(PT.Trans(m', d, p), p == q, f)
    {
      assert OnlyThat(PT.Trans(m, src, p), p == q, f);
    }
  }

  lemma OnlyPageOf(m: PT.Mem, dirs: set<nat>, d: nat, q: PT.Path, f: nat, g: nat)
    requires OnePage(m, dirs, q, f) && d in dirs && PT.UserPath(q)
    ensures PagesOf(m, d, g) == if g == f then {q} else {}
  {
    hide PT.Trans, PagesOf;
    forall p: PT.Path
      ensures p in PagesOf(m, d, g) <==> g == f && p == q
    {
      InPagesOf(m, d, g, p);
      assert PT.UserPath(p) ==> OnlyThat(PT.Trans(m, d, p), p == q, f);
    }
  }

  /** With exact counts such a directory can be cloned exactly while fewer than
      255 pages name the frame. */
  lemma RoomForOne(m: PT.Mem, dirs: set<nat>, d: nat, q: PT.Path, f: nat, refs: seq<nat>)
    requires OnePage(m, dirs, q, f) && d in dirs && PT.UserPath(q) && f < |refs| && Exact(m, dirs, refs)
    requires forall g :: 0 <= g < |refs| ==> refs[g] < 256
    ensures RoomToClone(m, d, refs) <==> |Mappings(m, dirs, f)| < 255
  {
    hide PT.Trans, PagesOf, Mappings;
    forall g: nat
      ensures PagesOf(m, d, g) == if g == f then {q} else {}
    {
      OnlyPageOf(m, dirs, d, q, f, g);
    }
  }

  /** One page mapped in an empty directory. */
  lemma FirstPage(m0: PT.Mem, m: PT.Mem, d: nat, q: PT.Path)
    requires m0 == map[d := PT.EmptyTable()] && PT.UserPath(q) && OthersSame(m0, m, {d}, d, q) && PT.Trans(m, d, q).Some?
    ensures var f := PT.Trans(m, d, q).value.frame; OnePage(m, {d}, q, f) && |Mappings(m, {d}, f)| == 1
  {
    var f := PT.Trans(m, d, q).value.frame;
    hide PT.Trans, Mappings;
    forall e, p | e in {d} && PT.UserPath(p)
      ensures OnlyThat(PT.Trans(m, e, p), p == q, f)
    {
      EmptyDirectory(d, p);
    }
    forall x: (nat, PT.Path)
      ensures x in Mappings(m, {d}, f) <==> x == (d, q)
    {
      InMappings(m, {d}, x.0, x.1, f);
      assert PT.UserPath(x.1) && x.0 == d ==> OnlyThat(PT.Trans(m, d, x.1), x.1 == q, f);
    }
    assert Mappings(m, {d}, f) == {(d, q)};
  }

  /** A process that maps one page and forks 255 times: the last fork takes the
      page's count past 255 and the invariant is gone, unless memory runs out
      before. */
  method CountPasses255(frames: FrameAllocator, pml4: nat) returns (mmu: Mmu, ok: bool)
    requires frames.Valid() && pml4 in frames.Used() && forall f :: 0 <= f < frames.total ==> frames.refs[f] == 0
    modifies frames.bitmap, frames.refs
    ensures if ok then !mmu.Valid() else !mmu.FrameLeft(mmu.pmm.Used())
  {
    hide PT.PathOf, PT.Trans, Missing, Sound, Exact, OnePage, Mappings, CloneView, RoomToClone, FrameAllocator.Used, OthersSame, OthersRead, Content;
    mmu := new Mmu(frames, pml4);
    ghost var q, m0 := PT.PathOf(PLACE), mmu.mem;
    PlaceIsUser();
    EmptyDirectory(pml4, q);
    ok := mmu.MapFresh(pml4, PLACE);
    if !ok { return; }
    FirstPage(m0, mmu.mem, pml4, q);
    ghost var f := PT.Trans(mmu.mem, pml4, q).value.frame;
    var n := 1;
    while n < 255
      invariant 1 <= n <= 255 && mmu.Valid() && mmu.pmm == frames && pml4 in mmu.dirs && Exact(mmu.mem, mmu.dirs, mmu.pmm.refs[..])
      invariant OnePage(mmu.mem, mmu.dirs, q, f) && |Mappings(mmu.mem, mmu.dirs, f)| == n && f < mmu.pmm.total
    {
      ghost var m1, dirs1 := mmu.mem, mmu.dirs;
      RoomForOne(m1, dirs1, pml4, q, f, mmu.pmm.refs[..]);
      var child;
      child, ok := mmu.CloneUser(pml4);
      if !ok { return; }
      CloneKeepsOne(m1, mmu.mem, dirs1, pml4, child, q, f);
      n := n + 1;
    }
    RoomForOne(mmu.mem, mmu.dirs, pml4, q, f, mmu.pmm.refs[..]);
    var child;
    child, ok := mmu.CloneUser(pml4);
  }

  // ----- A stack page that shows what another process wrote

  const BESIDE: nat := PLACE + PAGE

  /** Two pages side by side hang in the same tables. */
  lemma SideBySide()
    ensures PT.UserPath(PT.PathOf(BESIDE)) && User(BESIDE) && PT.PathOf(BESIDE) != PT.PathOf(PLACE)
    ensures PT.PathOf(BESIDE)[..3] == PT.PathOf(PLACE)[..3]
  {
    UserAddress(BESIDE);
    UserAddress(PLACE);
    assert PT.PathOf(PLACE) == [0, 1, 0, 0] && PT.PathOf(BESIDE) == [0, 1, 0, 1];
  }

  lemma SameTables(m: PT.Mem, d: nat, q: PT.Path, p: PT.Path)
    requires PT.IsPath(q) && PT.IsPath(p) && q[..3] == p[..3]
    ensures Missing(m, d, p) == Missing(m, d, q)
  {
    assert q[0] == q[..3][0] == p[0] && q[1] == q[..3][1] == p[1] && q[2] == q[..3][2] == p[2];
  }

  /** The frame of a page that was mapped once is free again when its directory
      goes, and is then the first one that is. */
  lemma FirstAgain(mmu: Mmu, used0: set<nat>, used: set<nat>, refs: seq<nat>, used': set<nat>, refs': seq<nat>, a: nat, f: nat)
    requires mmu.FirstLeft(used0, a) && used0 <= used && Released(used, refs, used', refs') && a < |refs|
    requires refs[a] == 1 && refs'[a] == 0 && (forall g :: 0 <= g < |refs| && g != a ==> refs'[g] == refs[g])
    requires mmu.FirstLeft(used', f)
    ensures f == a
  {
    assert a !in used' && forall g: nat :: mmu.pmm.kernelLimit <= g < a ==> g in used';
  }

  lemma OnlyMine(m0: PT.Mem, m: PT.Mem, dirs: set<nat>, d: nat, q: PT.Path)
    requires PS.NoUserPages(m0, d) && d in dirs && PT.UserPath(q) && OthersSame(m0, m, dirs, d, q) && PT.Trans(m, d, q).Some?
    ensures OnePage(m, {d}, q, PT.Trans(m, d, q).value.frame)
  {
    hide PT.Trans;
  }

  lemma StillNone(m0: PT.Mem, m: PT.Mem, dirs: set<nat>, d: nat, q: PT.Path, k: nat, p: PT.Path)
    requires OthersSame(m0, m, dirs, d, q) && k in dirs && PT.UserPath(p) && (k != d || p != q)
    ensures PT.Trans(m, k, p) == PT.Trans(m0, k, p)
  {
  }

  lemma MappedOnce(v0: View, m: PT.Mem, dirs: set<nat>, refs0: seq<nat>, refs: seq<nat>, d: nat, q: PT.Path)
    requires Sound(v0, dirs, refs0) && d in dirs && PT.UserPath(q) && OthersSame(v0.mem, m, dirs, d, q) && PT.Trans(m, d, q).Some?
    requires var a := PT.Trans(m, d, q).value.frame; a !in v0.used && a < |refs| && Exact(m, dirs, refs)
    ensures refs[PT.Trans(m, d, q).value.frame] == 1
  {
    var a := PT.Trans(m, d, q).value.frame;
    FreshUnmapped(v0, dirs, refs0, a);
    hide PT.Trans, Sound, Mappings;
    MappingsOne(v0.mem, m, dirs, d, q, a);
  }

  lemma NothingIn(k: nat)
    ensures PS.NoUserPages(map[k := PT.EmptyTable()], k)
  {
    forall p | PT.UserPath(p)
      ensures PT.Trans(map[k := PT.EmptyTable()], k, p) == PT.None
    {
      EmptyDirectory(k, p);
    }
  }

  lemma NoneAt(m: PT.Mem, d: nat, p: PT.Path)
    requires PS.NoUserPages(m, d) && PT.UserPath(p)
    ensures PT.Trans(m, d, p) == PT.None
  {
  }

  lemma StillEmpty(v0: View, refs0: seq<nat>, v: View, refs: seq<nat>, dirs: set<nat>, src: nat, child: nat)
    requires CloneDone(v0, refs0, v, refs, dirs, src, child) && PS.NoUserPages(v0.mem, src) && src in dirs
    ensures PS.NoUserPages(v.mem, src)
  {
    hide PT.Trans, Sound, Exact, RoomToClone;
  }

  lemma StillEmptyBeside(m0: PT.Mem, m: PT.Mem, dirs: set<nat>, k: nat, q: PT.Path, d: nat)
    requires PS.NoUserPages(m0, d) && OthersSame(m0, m, dirs, k, q) && d in dirs && d != k
    ensures PS.NoUserPages(m, d)
  {
    hide PT.Trans;
  }

  lemma FreshFrame(mmu: Mmu, used: set<nat>, a: nat)
    requires mmu.FirstLeft(used, a)
    ensures a !in used && a < mmu.pmm.total
  {
  }

  lemma WholePage(m: PT.Mem, d: nat, q: PT.Path, before: seq<byte>, page: seq<byte>)
    requires PT.UserPath(q) && |page| == |before| == PAGE && Content(m, d, q) == PT.Some(Put(before, 0, page))
    ensures var a := PT.Trans(m, d, q).value.frame; a in m && m[a] == PT.Data(page)
  {
    hide PT.Trans;
    assert Put(before, 0, page) == page;
  }

  lemma OneStill(m: PT.Mem, m': PT.Mem, dirs: set<nat>, d: nat, q: PT.Path, a: nat)
    requires OnePage(m, {d}, q, a) && d in dirs && forall e, p :: e in dirs && PT.IsPath(p) ==> PT.Trans(m', e, p) == PT.Trans(m, e, p)
    ensures OnePage(m', {d}, q, a)
  {
    hide PT.Trans;
  }

  lemma OnlyPageIs(m: PT.Mem, d: nat, q: PT.Path, a: nat)
    requires OnePage(m, {d}, q, a) && PT.UserPath(q)
    ensures forall g: nat :: |PagesOf(m, d, g)| == if g == a then 1 else 0
  {
    hide OnePage, PagesOf;
    forall g: nat
      ensures |PagesOf(m, d, g)| == if g == a then 1 else 0
    {
      OnlyPageOf(m, {d}, d, q, a, g);
    }
  }

  /** A process writes a page and exits; the next stack page that another one
      maps is on the same frame, and shows the bytes. */
  method OldBytesShow(frames: FrameAllocator, k: nat, secret: seq<byte>, junk: seq<byte>) returns (mmu: Mmu, ok: bool)
    requires frames.Valid() && k in frames.Used() && forall f :: 0 <= f < frames.total ==> frames.refs[f] == 0
    requires |secret| == PAGE && |junk| == PAGE
    modifies frames.bitmap, frames.refs
    ensures !ok ==> !mmu.FrameLeft(mmu.pmm.Used())
    ensures ok ==> mmu.Valid() && PT.UserPath(PT.PathOf(BESIDE)) && Content(mmu.mem, k, PT.PathOf(BESIDE)) == PT.Some(secret)
  {
    hide PT.PathOf, PT.Trans, Missing, Sound, Exact, RoomToClone, FrameAllocator.Used, OthersSame, OthersRead, CloneDone, PS.NoUserPages, Mmu.FirstLeft, Mmu.Spare,
      OnePage, Released, PagesOf, PS.Beside;
    mmu := new Mmu(frames, k);
    ghost var q, p := PT.PathOf(PLACE), PT.PathOf(BESIDE);
    PlaceIsUser();
    SideBySide();
    NothingIn(k);
    ghost var v0, refs0, dirs0 := mmu.Now(), mmu.pmm.refs[..], mmu.dirs;
    var d;
    d, ok := mmu.CloneUser(k);
    if !ok { return; }
    PS.CloneIsBeside(v0, refs0, mmu.Now(), mmu.pmm.refs[..], dirs0, k, d);
    StillEmpty(v0, refs0, mmu.Now(), mmu.pmm.refs[..], dirs0, k, d);
    ghost var m1 := mmu.mem;
    NoneAt(m1, k, p);
    NoneAt(m1, d, q);
    NoneAt(m1, k, q);
    ok := mmu.MapFresh(k, PLACE);
    if !ok { return; }
    ghost var v2, refs2 := mmu.Now(), mmu.pmm.refs[..];
    StillNone(m1, v2.mem, mmu.dirs, k, q, k, p);
    StillEmptyBeside(m1, v2.mem, mmu.dirs, k, q, d);
    NoneAt(v2.mem, d, q);
    ok := mmu.MapFresh(d, PLACE);
    if !ok { return; }
    ghost var m3, refs3 := mmu.mem, mmu.pmm.refs[..];
    ghost var a := PT.Trans(m3, d, q).value.frame;
    OnlyMine(v2.mem, m3, mmu.dirs, d, q);
    StillNone(v2.mem, m3, mmu.dirs, d, q, k, p);
    StillNone(v2.mem, m3, mmu.dirs, d, q, k, q);
    FreshFrame(mmu, v2.used, a);
    MappedOnce(v2, m3, mmu.dirs, refs2, refs3, d, q);
    mmu.WriteFrame(d, PLACE, secret);
    ghost var v4 := mmu.Now();
    WholePage(v4.mem, d, q, Content(m3, d, q).value, secret);
    OneStill(m3, v4.mem, mmu.dirs, d, q, a);
    mmu.FreeDirectory(d);
    ghost var used5, refs5 := mmu.pmm.Used(), mmu.pmm.refs[..];
    OnlyPageIs(v4.mem, d, q, a);
    TablesThere(mmu.Now(), mmu.pmm.refs[..], mmu.dirs, k, q);
    SameTables(mmu.mem, k, q, p);
    var found;
    ok, found := mmu.MapStackPage(k, BESIDE, junk);
    if ok {
      FirstAgain(mmu, v2.used, v4.used, refs3, used5, refs5, a, PT.Trans(mmu.mem, k, p).value.frame);
    }
  }
}
