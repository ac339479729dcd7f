/** Address spaces: the operations of kernel/arch/x86_64/mmu/mmu.c on the
    page-table forest, the copy-on-write clone and fault, and the frame
    accounting they keep (kernel/cpu/paging.c). */
module AddressSpaces {
  import Bytes
  import opened PageTree
  import opened Frames
  import opened PageViews
  import opened CowClone
  import opened CowInvariant

  /** One empty directory and no references. */
  lemma EmptySound(v: View, d: nat, refs: seq<nat>)
    requires v.mem == map[d := EmptyTable()] && v.own == map[d := Label(d, [])] && CoreView(v, refs)
    requires forall f :: 0 <= f < |refs| ==> refs[f] == 0
    ensures Sound(v, {d}, refs) && Exact(v.mem, {d}, refs)
  {
    forall q | UserPath(q)
      ensures Trans(v.mem, d, q) == None
    {
    }
    forall f: nat
      ensures Mappings(v.mem, {d}, f) == {}
    {
      forall x: (nat, Path)
        ensures x !in Mappings(v.mem, {d}, f)
      {
        InMappings(v.mem, {d}, x.0, x.1, f);
      }
    }
  }

  /** The writes of the leaf case of clone_table, in one. */
  lemma CowWrites(m: Mem, src: nat, dst: nat, i: nat)
    requires src != dst && IsTable(m, src) && IsTable(m, dst) && i < 512
    ensures var e := m[src].entries[i];
      SetEntry(SetEntry(m, dst, i, Cow(e)), src, i, Cow(e)) ==
      if e.user && e.writable then SetEntry(SetEntry(SetEntry(m, dst, i, e), src, i, Cow(e)), dst, i, Cow(e))
      else SetEntry(m, dst, i, e)
  {
    var e := m[src].entries[i];
    assert m[src].entries[i := e] == m[src].entries;
    assert m[dst].entries[i := e][i := Cow(e)] == m[dst].entries[i := Cow(e)];
  }

  /** What the frame search returns when it finds none. */
  const NO_FRAME: nat := 0xFFFF_FFFF

  /** What a frame holds when it is handed out and nothing clears it: what its
      last user left, or else junk. */
  function Former(m: Mem, f: nat, junk: seq<byte>): (r: seq<byte>)
    ensures |junk| == PAGE_SIZE ==> |r| == PAGE_SIZE
  {
    if f in m && m[f].Data? && |m[f].bytes| == PAGE_SIZE then m[f].bytes else junk
  }

  lemma FormerSame(m: Mem, m': Mem, own: Owners, f: nat, junk: seq<byte>)
    requires OnlyTables(m, m', own) && f !in own
    ensures Former(m', f, junk) == Former(m, f, junk)
  {
  }

  lemma SameSize<T>(a: set<T>, b: set<T>)
    requires a <= b && |a| == |b|
    ensures a == b
  {
    if a != b {
      var x :| x in b && x !in a;
      assert a <= b - {x};
      Fewer(a, b - {x});
    }
  }

  lemma {:induction false} Fewer<T>(a: set<T>, b: set<T>)
    requires a <= b
    ensures |a| <= |b|
    decreases a
  {
    if a != {} {
      var x :| x in a;
      Fewer(a - {x}, b - {x});
    }
  }

  predicate UserWritable(o: Option<Entry>)
  {
    o.Some? && o.value.user && o.value.writable
  }

  lemma PutOne(w: seq<byte>, i: nat, b: byte)
    requires i < |w|
    ensures Bytes.Put(w, i, [b]) == w[i := b]
  {
  }

  lemma LeafEntry(m: Mem, d: nat, q: Path, pt: nat)
    requires IsPath(q) && LeafTable(m, d, q) == Some(pt)
    ensures IsTable(m, pt) && Trans(m, d, q) == if m[pt].entries[q[3]].present then Some(m[pt].entries[q[3]]) else None
  {
  }

  lemma LeafKept(v: View, refs: seq<nat>, dirs: set<nat>, d: nat, q: Path, pt: nat, f: nat, p: Page)
    requires Sound(v, dirs, refs) && d in dirs && UserPath(q) && LeafTable(v.mem, d, q) == Some(pt) && f !in v.used && f < |refs|
    ensures LeafTable(v.mem[f := p], d, q) == Some(pt) && IsTable(v.mem[f := p], pt) && refs[f] == 0
  {
    hide LeavesOk, Exclusive, Counted, Forest, LeafTable;
    DataWriteLeaf(v, refs, f, p, d, q);
    LeafEntry(v.mem[f := p], d, q, pt);
  }

  lemma EntryFilled(v: View, refs0: seq<nat>, v': View, refs: seq<nat>, dirs: set<nat>, d: nat, q: Path, pt: nat, f: nat, p: Page)
    requires Sound(v, dirs, refs0) && d in dirs && UserPath(q) && LeafTable(v.mem[f := p], d, q) == Some(pt) && Trans(v.mem, d, q) == None
    requires f !in v.used && f < |refs0| && refs0[f] == 0 && p.Data? && |p.bytes| == PAGE_SIZE && refs == refs0[f := 1] && IsTable(v.mem[f := p], pt)
    requires v' == View(v.used + {f}, v.own, SetEntry(v.mem[f := p], pt, q[3], Entry(true, true, true, false, f)))
    ensures Sound(v', dirs, refs) && OthersRead(v.mem, v'.mem, dirs, d, q) && OthersSame(v.mem, v'.mem, dirs, d, q)
    ensures Trans(v'.mem, d, q) == Some(Entry(true, true, true, false, f)) && Content(v'.mem, d, q) == Some(p.bytes)
    ensures Exact(v.mem, dirs, refs0) ==> Exact(v'.mem, dirs, refs)
  {
    hide LeavesOk, Exclusive, Counted, Exact, Forest, Grows, OnlyPage, Content, Trans, LeafTable, OthersRead, OthersSame, SetEntry;
    var v1 := View(v.used + {f}, v.own, v.mem[f := p]);
    FrameFilled(v, refs0, v1, f);
    LeafSet(v1, refs0, d, q, pt, Entry(true, true, true, false, f));
    FreshMappedDone(v, refs0, v1, v', refs, dirs, d, q, f, p);
  }

  /** A mapped page has its tables. */
  lemma TablesThere(v: View, refs: seq<nat>, dirs: set<nat>, d: nat, q: Path)
    requires Sound(v, dirs, refs) && d in dirs && IsPath(q)
    ensures Trans(v.mem, d, q) != None ==> Missing(v.mem, d, q) == 0
  {
    MissingIs(v.mem, v.own, d, q);
  }

  lemma MoreMarks(v: View, v': View, refs: seq<nat>)
    requires CoreView(v, refs) && v'.mem == v.mem && v'.own == v.own && v.used <= v'.used
    ensures CoreView(v', refs) && Grows(v, v')
  {
  }

  lemma SameAgain(m0: Mem, m1: Mem, dirs: set<nat>, d: nat, q: Path)
    requires forall d', q' :: d' in dirs && UserPath(q') ==> Trans(m1, d', q') == Trans(m0, d', q') && Content(m1, d', q') == Content(m0, d', q')
    ensures OthersRead(m0, m1, dirs, d, q) && OthersSame(m0, m1, dirs, d, q)
  {
    hide Trans, Content;
  }

  lemma ReadAgain(m0: Mem, m1: Mem, m2: Mem, dirs: set<nat>, d: nat, q: Path)
    requires forall d', q' :: d' in dirs && UserPath(q') ==> Trans(m1, d', q') == Trans(m0, d', q') && Content(m1, d', q') == Content(m0, d', q')
    requires OthersRead(m1, m2, dirs, d, q) && OthersSame(m1, m2, dirs, d, q)
    ensures OthersRead(m0, m2, dirs, d, q) && OthersSame(m0, m2, dirs, d, q)
  {
    hide Trans, Content;
  }

  /** Where the copy of a child table goes. */
  lemma ChildPlace(v: View, refs: seq<nat>, job: Job, i: nat)
    requires CoreView(v, refs) && Cloning(v, job) && i < 512 && |job.path| < 3 && !SharedChild(job.path, i)
    ensures Indices(job.path + [i]) && !Shared(job.path + [i]) && RootLabel(v.own, job.to) && job.to != KERNEL
    ensures IsTable(v.mem, job.src) && job.dst in v.own && job.src != job.dst
  {
    assert TableOk(v.mem, v.own, job.src) && TableOk(v.mem, v.own, job.dst);
    ChildPathOk(v.own[job.dst], i);
  }

  lemma ChildStart(v: View, refs: seq<nat>, v': View, job: Job, i: nat, child: nat)
    requires CoreView(v, refs) && Cloning(v, job) && i < 512 && |job.path| < 3 && !SharedChild(job.path, i)
    requires v.mem[job.src].entries[i].present && child !in v.own && job.dst in v.own
    requires v'.own == v.own[child := Label(job.to, job.path + [i])] && v'.mem == v.mem[child := EmptyTable()]
    ensures Cloning(v', ChildJob(v.mem, job, i, child)) && job.dst in v'.own
  {
    assert TableOk(v.mem, v.own, job.src) && ChildOk(v.mem, v.own, job.src, i);
    assert TableOk(v.mem, v.own, v.mem[job.src].entries[i].frame);
  }

  lemma TableStays(v0: View, refs0: seq<nat>, v: View, refs: seq<nat>, job: Job, t: nat)
    requires Cloning(v0, job) && Cloned(v0, refs0, v, refs, job, 512) && CoreView(v, refs) && t in v0.own
    ensures IsTable(v.mem, t)
  {
    ClonedGrows(v0, refs0, v, refs, job, t);
    assert TableOk(v.mem, v.own, t);
  }

  class Mmu {
    const pmm: FrameAllocator
    const kernelDir: nat
    var mem: Mem
    ghost var own: Owners
    ghost var dirs: set<nat>

    ghost predicate Core()
      reads this, pmm, pmm.bitmap, pmm.refs
    {
      pmm.Valid() && CoreView(Now(), pmm.refs[..])
    }

    ghost function Now(): View
      reads this, pmm, pmm.bitmap
    {
      View(pmm.Used(), own, mem)
    }

    /** The whole invariant: alias-free forest, counted frames, and exclusive
        writable pages. */
    ghost predicate Valid()
      reads this, pmm, pmm.bitmap, pmm.refs
    {
      pmm.Valid() && kernelDir in dirs && Sound(Now(), dirs, pmm.refs[..])
    }

    /** pmm_first_free would find a frame. */
    ghost predicate FrameLeft(used: set<nat>)
    {
      exists f: nat :: pmm.kernelLimit <= f < pmm.Searched() && f !in used
    }

    /** The frames pmm_first_free can still hand out. */
    ghost function Spare(used: set<nat>): (s: set<nat>)
      ensures FrameLeft(used) <==> |s| > 0
    {
      var s := set f: nat | f < pmm.Searched() && pmm.kernelLimit <= f && f !in used;
      assert FrameLeft(used) <==> s != {} by {
        if FrameLeft(used) {
          var f: nat :| pmm.kernelLimit <= f < pmm.Searched() && f !in used;
          assert f in s;
        }
      }
      s
    }

    /** The frame pmm_first_free finds. */
    ghost predicate FirstLeft(used: set<nat>, f: nat)
    {
      pmm.kernelLimit <= f < pmm.Searched() && f !in used && forall g: nat :: pmm.kernelLimit <= g < f ==> g in used
    }

    /** The entry a user-mode store can go through: writable, or copy-on-write
        with no other page on its frame or a frame left for the copy. */
    ghost predicate Storable(o: Option<Entry>, refs: seq<nat>, used: set<nat>)
    {
      && o.Some? && o.value.user
      && (o.value.writable || (o.value.cow && ((o.value.frame < |refs| && refs[o.value.frame] <= 1) || FrameLeft(used))))
    }

    ghost predicate IsRoot(d: nat)
      reads this
    {
      d in own && own[d] == Label(d, [])
    }

    /** The address-space part of init_paging: one kernel directory with an
        empty PML4 in a reserved frame, no references yet. */
    constructor (frames: FrameAllocator, kernelPml4: nat)
      requires frames.Valid() && kernelPml4 in frames.Used()
      requires forall f :: 0 <= f < frames.total ==> frames.refs[f] == 0
      ensures pmm == frames && kernelDir == kernelPml4
      ensures Valid() && Exact(mem, dirs, pmm.refs[..]) && dirs == {kernelDir}
      ensures mem == map[kernelPml4 := EmptyTable()]
    {
      pmm := frames;
      kernelDir := kernelPml4;
      mem := map[kernelPml4 := EmptyTable()];
      own := map[kernelPml4 := Label(kernelPml4, [])];
      dirs := {kernelPml4};
      new;
      EmptySound(Now(), kernelPml4, pmm.refs[..]);
    }

    /** A free frame, marked used. */
    method TakeFrame() returns (f: nat, ok: bool)
      requires pmm.Valid()
      modifies pmm.bitmap
      ensures pmm.Valid() && old(pmm.Used()) <= pmm.Used()
      ensures ok <==> FrameLeft(old(pmm.Used()))
      ensures ok ==> FirstLeft(old(pmm.Used()), f) && f < pmm.total && f in pmm.Used()
      ensures !ok ==> !FrameLeft(pmm.Used())
      ensures |Spare(pmm.Used())| == |Spare(old(pmm.Used()))| - if ok then 1 else 0
    {
      ghost var used := pmm.Used();
      var frame := pmm.FirstFree();
      if frame == -1 {
        assert Spare(pmm.Used()) == Spare(used);
        return 0, false;
      }
      f, ok := frame, true;
      pmm.SetFrame(f);
      assert Spare(pmm.Used()) == Spare(used) - {f} && f in Spare(used);
    }

    /** alloc_table: a zeroed table in a frame that was free. ok is false where
        the source panics for lack of memory. */
    method AllocTable(ghost place: Label, ghost root: bool) returns (t: nat, ok: bool)
      requires Core()
      requires |place.path| <= 3 && Indices(place.path) && (place.dir != KERNEL ==> !Shared(place.path))
      requires root || place.dir == KERNEL || RootLabel(own, place.dir)
      requires root ==> place.path == []
      modifies this`mem, this`own, pmm.bitmap
      ensures Core() && Grows(old(Now()), Now())
      ensures old(pmm.Used()) <= pmm.Used() && (ok ==> t !in old(pmm.Used()) && t !in old(own) && t < pmm.total)
      ensures ok ==> own == old(own)[t := if root then Label(t, []) else place]
      ensures ok ==> mem == old(mem)[t := EmptyTable()]
      ensures !ok ==> mem == old(mem) && own == old(own)
      ensures ok <==> FrameLeft(old(pmm.Used()))
      ensures !ok ==> !FrameLeft(pmm.Used())
      ensures |Spare(pmm.Used())| == |Spare(old(pmm.Used()))| - if ok then 1 else 0
    {
      hide Spare, FrameAllocator.Used;
      ghost var v0 := Now();
      t, ok := TakeFrame();
      if !ok {
        MoreMarks(v0, Now(), pmm.refs[..]);
        return;
      }
      mem := mem[t := EmptyTable()];
      own := own[t := if root then Label(t, []) else place];
      TableAdded(v0, pmm.refs[..], Now(), t, if root then Label(t, []) else place);
    }

    // ----- The page tables as a finite map from pages to entries

    /** get_or_alloc_table: the child table of an inner table, made on demand.
        No page's translation changes. */
    method GetOrAllocTable(parent: nat, index: nat, user: bool) returns (child: nat, ok: bool)
      requires Core() && parent in own && |own[parent].path| < 3 && index < 512
      modifies this`mem, this`own, pmm.bitmap
      ensures Core() && Grows(old(Now()), Now())
      ensures ok ==> child in own && own[child] == ChildLabel(own[parent], index)
      ensures ok ==> Points(mem, parent, index, child)
      ensures ok ==> SameTrans(old(Now()), Now())
      ensures ok && user ==> mem[parent].entries[index].user
      ensures ok ==> KeptBut(old(mem), mem, old(own), parent)
      ensures !ok ==> !FrameLeft(pmm.Used())
      ensures ok <==> Leads(old(mem), parent, index) || |Spare(old(pmm.Used()))| > 0
      ensures ok ==> |Spare(pmm.Used())| == |Spare(old(pmm.Used()))| - (if Leads(old(mem), parent, index) then 0 else 1)
      ensures ok ==> ChildMade(old(mem), mem, parent, index, child) && OnlyTables(old(mem), mem, own)
    {
      hide FrameAllocator.Used, SameTrans, Grows, Spare, ChildMade, OnlyTables, KeptBut, FrameLeft;
      assert TableOk(mem, own, parent);
      ghost var v0 := Now();
      var e := mem[parent].entries[index];
      if !e.present {
        ChildPathOk(own[parent], index);
        child, ok := AllocTable(ChildLabel(own[parent], index), false);
        if !ok {
          return;
        }
        mem := SetEntry(mem, parent, index, Entry(true, true, true, false, child));
      } else {
        assert ChildOk(mem, own, parent, index);
        child := e.frame;
        ok := true;
        mem := SetEntry(mem, parent, index, e.(user := e.user || user));
      }
      InnerStep(v0, Now(), pmm.refs[..], parent, index, child);
      ChildIsMade(v0.mem, mem, v0.own, own, parent, index, child);
    }

    /** mmu_get_entry: the table and index of the leaf entry of an address. */
    method GetEntry(d: nat, virt: nat) returns (found: bool, table: nat)
      requires Core() && IsRoot(d)
      ensures found ==> LeafTable(mem, d, PathOf(virt)) == Some(table)
      ensures !found ==> LeafTable(mem, d, PathOf(virt)) == None
    {
      var q := PathOf(virt);
      LeafIsFrom(mem, d, q);
      assert TableOk(mem, own, d);
      if !mem[d].entries[q[0]].present {
        return false, 0;
      }
      var pdpt := mem[d].entries[q[0]].frame;
      assert ChildOk(mem, own, d, q[0]) && TableOk(mem, own, pdpt);
      if !mem[pdpt].entries[q[1]].present {
        return false, 0;
      }
      var pd := mem[pdpt].entries[q[1]].frame;
      assert ChildOk(mem, own, pdpt, q[1]) && TableOk(mem, own, pd);
      if !mem[pd].entries[q[2]].present {
        return false, 0;
      }
      var pt := mem[pd].entries[q[2]].frame;
      assert ChildOk(mem, own, pd, q[2]) && TableOk(mem, own, pt);
      return true, pt;
    }

    /** The three get_or_alloc_table calls of mmu_map_page. */
    method EnsureTables(d: nat, q: Path, user: bool) returns (pt: nat, ok: bool)
      requires Core() && IsRoot(d) && IsPath(q)
      modifies this`mem, this`own, pmm.bitmap
      ensures Core() && Grows(old(Now()), Now())
      ensures ok ==> SameTrans(old(Now()), Now())
      ensures ok ==> LeafTable(mem, d, q) == Some(pt)
      ensures !ok ==> !FrameLeft(pmm.Used())
      ensures ok <==> |Spare(old(pmm.Used()))| >= Missing(old(mem), d, q)
      ensures ok ==> |Spare(pmm.Used())| == |Spare(old(pmm.Used()))| - Missing(old(mem), d, q) && OnlyTables(old(mem), mem, own)
    {
      hide FrameAllocator.Used, FrameLeft, SameTrans, Grows, Points, LeafTable, Spare, Missing, Unmade, Leads, ChildMade, Forest, KeptBut, OnlyTables;
      ghost var v0 := Now();
      pt := 0;
      var pdpt, pd;
      pdpt, ok := GetOrAllocTable(d, q[0], user);
      MissingMost(v0.mem, d, q);
      if !ok { return; }
      ghost var v1 := Now();
      MissingFirst(v0.mem, v1.mem, v0.own, d, q, pdpt);
      LabelKept(v0, v1, d);
      UnmadeMost(v1.mem, pdpt, q[1], q[2]);
      pd, ok := GetOrAllocTable(pdpt, q[1], user);
      GrowsChain(v0, v1, Now());
      if !ok { return; }
      ghost var v2 := Now();
      MissingNext(v1.mem, v2.mem, v1.own, pdpt, q[1], q[2], pd);
      LabelKept(v1, v2, d);
      LabelKept(v1, v2, pdpt);
      PointsOn(v1.mem, mem, v1.own, pdpt, d, q[0], pdpt);
      SameTransChain(v0, v1, v2);
      pt, ok := GetOrAllocTable(pd, q[2], user);
      GrowsChain(v0, v2, Now());
      if !ok { return; }
      LabelKept(v2, Now(), pd);
      PointsOn(v2.mem, mem, v2.own, pd, d, q[0], pdpt);
      PointsOn(v2.mem, mem, v2.own, pd, pdpt, q[1], pd);
      SameTransChain(v0, v2, Now());
      TablesOnly(v0, v1, v2, Now());
      TableOf(Now(), pmm.refs[..], pt);
      PathReaches(mem, d, q, pdpt, pd, pt);
    }

    /** mmu_map_page: afterwards the page translates to exactly the given
        entry and every other page of every directory as before. */
    method MapPage(d: nat, virt: nat, e: Entry) returns (ok: bool)
      requires Core() && IsRoot(d)
      modifies this`mem, this`own, pmm.bitmap
      ensures Core() && Grows(old(Now()), Now())
      ensures ok ==> Trans(mem, d, PathOf(virt)) == Some(e.(present := true))
      ensures ok ==> OnlyPage(old(mem), mem, old(own), d, PathOf(virt))
      ensures !ok ==> !FrameLeft(pmm.Used())
      ensures ok <==> |Spare(old(pmm.Used()))| >= Missing(old(mem), d, PathOf(virt))
    {
      hide FrameAllocator.Used, SameTrans, OnlyPage, CoreView, Grows, Spare, Missing, OnlyTables;
      ghost var v0 := Now();
      var q := PathOf(virt);
      var pt;
      pt, ok := EnsureTables(d, q, e.user);
      if !ok { return; }
      ghost var v1 := Now();
      EnsuredRoot(v0, v1, d);
      mem := SetEntry(mem, pt, q[3], e.(present := true));
      LeafSet(v1, pmm.refs[..], d, q, pt, e.(present := true));
      OnlyPageChain(v0, v1, mem, d, q);
      GrowsChain(v0, v1, Now());
    }

    /** mmu_unmap_page: the page no longer translates; others are as before. */
    method UnmapPage(d: nat, virt: nat)
      requires Core() && IsRoot(d)
      modifies this`mem
      ensures Core() && Grows(old(Now()), Now())
      ensures Trans(mem, d, PathOf(virt)) == None
      ensures OnlyPage(old(mem), mem, own, d, PathOf(virt))
    {
      var q := PathOf(virt);
      var found, pt := GetEntry(d, virt);
      if !found { return; }
      ghost var v0 := Now();
      mem := SetEntry(mem, pt, q[3], ZERO_ENTRY);
      LeafSet(v0, pmm.refs[..], d, q, pt, ZERO_ENTRY);
    }

    // ----- Clone

    /** The loop of clone_table over 512 entries; mmu_clone_user runs the same
        loop with the kernel entries of the first levels shared, so one method
        over the path covers both. The copy dst is an empty table. */
    method FillClone(src: nat, dst: nat, path: Path, ghost job: Job) returns (ok: bool)
      requires Core() && Cloning(Now(), job) && job.src == src && job.dst == dst && job.path == path
      requires mem[dst] == EmptyTable()
      modifies this`mem, this`own, pmm.bitmap, pmm.refs
      ensures Core()
      ensures ok ==> Cloned(old(Now()), old(pmm.refs[..]), Now(), pmm.refs[..], job, 512)
      ensures !ok ==> !FrameLeft(pmm.Used())
      decreases 3 - |path|
    {
      hide Cloned, CoreView, Cloning, FrameAllocator.Used, Forest;
      ghost var v0, refs0 := Now(), pmm.refs[..];
      StartClone(v0, refs0, job);
      var i := 0;
      while i < 512
        invariant 0 <= i <= 512
        invariant pmm.Valid() && Cloned(v0, refs0, Now(), pmm.refs[..], job, i)
      {
        ghost var v1 := Now();
        ClonedTables(v0, refs0, v1, pmm.refs[..], job, i);
        var e := mem[src].entries[i];
        if !e.present {
          SkipStep(v0, refs0, v1, pmm.refs[..], job, i);
        } else if SharedChild(path, i) {
          mem := SetEntry(mem, dst, i, e);
          ShareStep(v0, refs0, v1, pmm.refs[..], job, i, Now());
        } else if |path| < 3 {
          ok := CloneChild(src, dst, path, i, v0, refs0, job);
          if !ok { return; }
        } else {
          ghost var refs1 := pmm.refs[..];
          CloneLeaf(src, dst, i);
          LeafStep(v0, refs0, v1, refs1, job, i, Now(), pmm.refs[..]);
        }
        i := i + 1;
      }
      ClonedTables(v0, refs0, Now(), pmm.refs[..], job, 512);
      ok := true;
    }

    /** The leaf-level case of clone_table: the entry is copied, turned
        copy-on-write in both tables when it is user-writable, and its frame
        gains a reference. */
    method CloneLeaf(src: nat, dst: nat, i: nat)
      requires pmm.Valid() && i < 512 && src != dst && IsTable(mem, src) && IsTable(mem, dst)
      modifies this`mem, pmm.bitmap, pmm.refs
      ensures pmm.Valid()
      ensures var e := old(mem[src].entries[i]);
              && mem == SetEntry(SetEntry(old(mem), dst, i, Cow(e)), src, i, Cow(e))
              && pmm.refs[..] == (if e.frame < pmm.total then old(pmm.refs[..])[e.frame := (old(pmm.refs[..])[e.frame] + 1) % 256] else old(pmm.refs[..]))
              && pmm.Used() == old(pmm.Used()) + (if e.frame < pmm.total && old(pmm.refs[..])[e.frame] == 0 then {e.frame} else {})
    {
      var e := mem[src].entries[i];
      mem := SetEntry(mem, dst, i, e);
      if e.user && e.writable {
        mem := SetEntry(mem, src, i, e.(writable := false, cow := true));
        mem := SetEntry(mem, dst, i, e.(writable := false, cow := true));
      }
      CowWrites(old(mem), src, dst, i);
      pmm.AddRef(e.frame);
    }

    /** The inner-level case of clone_table: clone the child, then link it. */
    method CloneChild(src: nat, dst: nat, path: Path, i: nat, ghost v0: View, ghost refs0: seq<nat>, ghost job: Job) returns (ok: bool)
      requires Core() && i < 512 && |path| < 3 && !SharedChild(path, i)
      requires Cloning(v0, job) && Cloned(v0, refs0, Now(), pmm.refs[..], job, i)
      requires job.src == src && job.dst == dst && job.path == path
      requires mem[src].entries[i].present
      modifies this`mem, this`own, pmm.bitmap, pmm.refs
      ensures Core()
      ensures ok ==> Cloned(v0, refs0, Now(), pmm.refs[..], job, i + 1)
      ensures !ok ==> !FrameLeft(pmm.Used())
      decreases 3 - |path|, 0
    {
      hide FrameAllocator.Used, Cloning, Cloned, CoreView, Grows, FrameLeft;
      ClonedTables(v0, refs0, Now(), pmm.refs[..], job, i);
      ghost var v1, refs1 := Now(), pmm.refs[..];
      var e := mem[src].entries[i];
      ChildPlace(v1, refs1, job, i);
      var child;
      child, ok := AllocTable(Label(job.to, path + [i]), false);
      if !ok { return; }
      ghost var v2 := Now();
      ghost var sub := ChildJob(v1.mem, job, i, child);
      ChildStart(v1, refs1, v2, job, i, child);
      ok := FillClone(e.frame, child, path + [i], sub);
      if !ok { return; }
      ghost var v3 := Now();
      ClonedTables(v2, refs1, v3, pmm.refs[..], sub, 512);
      TableStays(v2, refs1, v3, pmm.refs[..], sub, dst);
      mem := SetEntry(mem, dst, i, e.(frame := child));
      LinkStep(v0, refs0, v1, refs1, v2, v3, pmm.refs[..], Now(), job, i, sub);
    }

    /** mmu_clone_user: parent and child read the same pages, all turned
        copy-on-write; nobody else notices; and the invariant survives exactly
        when no byte-sized reference count overflows. */
    method CloneUser(src: nat) returns (child: nat, ok: bool)
      requires Valid() && src in dirs
      modifies this, pmm.bitmap, pmm.refs
      ensures pmm.Valid() && kernelDir in dirs
      ensures ok ==> dirs == old(dirs) + {child}
      ensures ok ==> CloneDone(old(Now()), old(pmm.refs[..]), Now(), pmm.refs[..], old(dirs), src, child)
      ensures !ok ==> !FrameLeft(pmm.Used())
    {
      hide FrameAllocator.Used, Exclusive, Counted, LeavesOk, CloneDone, Cloned, Grows;
      ghost var v0, refs0 := Now(), pmm.refs[..];
      child, ok := AllocTable(Label(0, []), true);
      if !ok { return; }
      ghost var va := Now();
      assert TableOk(mem, own, src);
      ok := FillClone(src, child, [], RootJob(src, child));
      if !ok { return; }
      CloneAll(v0, refs0, va, Now(), pmm.refs[..], dirs, src, child);
      dirs := dirs + {child};
    }

    // ----- New pages, faults and writes

    /** Takes a free frame, fills it and maps it at virt for the user; the
        frame is not counted yet. */
    method MapFilled(d: nat, virt: nat, p: Page) returns (frame: nat, ok: bool, ghost v1: View)
      requires Core() && IsRoot(d)
      modifies this`mem, this`own, pmm.bitmap
      ensures Core()
      ensures ok ==> frame !in old(pmm.Used()) && frame < pmm.total && frame in v1.used
      ensures ok ==> old(pmm.Used()) <= v1.used && v1.own == old(own) && v1.mem == old(mem)[frame := p]
      ensures ok ==> Grows(v1, Now()) && Trans(mem, d, PathOf(virt)) == Some(Entry(true, true, true, false, frame))
      ensures ok ==> OnlyPage(v1.mem, mem, v1.own, d, PathOf(virt)) && FirstLeft(old(pmm.Used()), frame) && frame in pmm.Used()
      ensures !ok ==> !FrameLeft(pmm.Used())
      ensures ok <==> |Spare(old(pmm.Used()))| > Missing(old(mem), d, PathOf(virt))
    {
      hide Missing, Spare, FrameAllocator.Used;
      ghost var v0 := Now();
      v1 := v0;
      frame, ok := TakeFrame();
      if !ok {
        MoreMarks(v0, Now(), pmm.refs[..]);
        return;
      }
      mem := mem[frame := p];
      v1 := Now();
      MissingData(v0.mem, v0.own, frame, p, d, PathOf(virt));
      FrameFilled(v0, pmm.refs[..], v1, frame);
      ok := MapPage(d, virt, Entry(true, true, true, false, frame));
    }

    /** One page of elf64_load_segments: a zeroed fresh frame, mapped
        user-writable and counted. The counts stay exact exactly when the page
        was not mapped before; an overwritten mapping keeps its count. */
    method MapFresh(d: nat, virt: nat) returns (ok: bool)
      requires Valid() && d in dirs && UserPath(PathOf(virt))
      modifies this`mem, this`own, pmm.bitmap, pmm.refs
      ensures pmm.Valid()
      ensures ok ==> Valid()
      ensures ok ==> Content(mem, d, PathOf(virt)) == Some(ZeroPage().bytes)
      ensures ok ==> OthersRead(old(mem), mem, dirs, d, PathOf(virt)) && OthersSame(old(mem), mem, dirs, d, PathOf(virt))
      ensures ok ==> UserWritable(Trans(mem, d, PathOf(virt)))
      ensures ok && Exact(old(mem), dirs, old(pmm.refs[..])) ==>
                (Exact(mem, dirs, pmm.refs[..]) <==> Trans(old(mem), d, PathOf(virt)) == None)
      ensures !ok ==> !FrameLeft(pmm.Used())
      ensures ok <==> |Spare(old(pmm.Used()))| > Missing(old(mem), d, PathOf(virt))
      ensures ok ==> FirstLeft(old(pmm.Used()), Trans(mem, d, PathOf(virt)).value.frame) && old(pmm.Used()) <= pmm.Used()
    {
      hide LeavesOk, Exclusive, Counted, Exact, OthersRead, OthersSame, OnlyPage, Forest, Grows, FrameAllocator.Used, Spare, Missing, FirstLeft;
      ghost var v0, refs0 := Now(), pmm.refs[..];
      var frame;
      ghost var v1;
      frame, ok, v1 := MapFilled(d, virt, ZeroPage());
      if !ok { return; }
      ghost var v2 := Now();
      pmm.AddRef(frame);
      assert Now() == v2;
      GrowsUsed(v1, v2);
      FreshMappedDone(v0, refs0, v1, v2, pmm.refs[..], dirs, d, PathOf(virt), frame, ZeroPage());
    }

    /** One page of the stack that build_user_stack maps: a page that is there
        already stays; otherwise the tables on the way are made and the page is
        put on the first free frame, with whatever that frame held. Without a
        free frame it is a null table (found is false) or a page on NO_FRAME. */
    method MapStackPage(d: nat, virt: nat, junk: seq<byte>) returns (ok: bool, found: bool)
      requires Valid() && d in dirs && UserPath(PathOf(virt)) && |junk| == PAGE_SIZE
      modifies this`mem, this`own, pmm.bitmap, pmm.refs
      ensures pmm.Valid()
      ensures ok ==> Valid() && OthersRead(old(mem), mem, dirs, d, PathOf(virt)) && OthersSame(old(mem), mem, dirs, d, PathOf(virt))
      ensures ok ==> if Trans(old(mem), d, PathOf(virt)) == None
                     then UserWritable(Trans(mem, d, PathOf(virt)))
                          && Content(mem, d, PathOf(virt)) == Some(Former(old(mem), Trans(mem, d, PathOf(virt)).value.frame, junk))
                     else Trans(mem, d, PathOf(virt)) == Trans(old(mem), d, PathOf(virt)) && Content(mem, d, PathOf(virt)) == Content(old(mem), d, PathOf(virt))
      ensures ok && Exact(old(mem), dirs, old(pmm.refs[..])) ==> Exact(mem, dirs, pmm.refs[..])
      ensures !ok ==> !FrameLeft(pmm.Used())
      ensures !ok && found ==> Trans(mem, d, PathOf(virt)) == Some(Entry(true, true, true, false, 0xFFFF_FFFF))
      ensures found <==> |Spare(old(pmm.Used()))| >= Missing(old(mem), d, PathOf(virt))
      ensures ok <==> Trans(old(mem), d, PathOf(virt)) != None || |Spare(old(pmm.Used()))| > Missing(old(mem), d, PathOf(virt))
      ensures ok && Trans(old(mem), d, PathOf(virt)) == None ==> Trans(mem, d, PathOf(virt)).value.frame !in old(pmm.Used())
      ensures ok && Trans(old(mem), d, PathOf(virt)) == None && Missing(old(mem), d, PathOf(virt)) == 0 ==>
                FirstLeft(old(pmm.Used()), Trans(mem, d, PathOf(virt)).value.frame)
    {
      hide LeavesOk, Exclusive, Counted, Exact, Forest, Grows, SameTrans, FrameAllocator.Used, Content, Trans, LeafTable, OthersRead, OthersSame, FrameLeft,
        Spare, Missing, OnlyTables, FirstLeft, Former;
      ghost var v0, refs0 := Now(), pmm.refs[..];
      var q := PathOf(virt);
      var pt;
      pt, ok := EnsureTables(d, q, true);
      found := ok;
      TablesThere(v0, refs0, dirs, d, q);
      if !ok { return; }
      GrowsUsed(v0, Now());
      SpareKept(v0.used, pmm.Used());
      TablesSound(v0, Now(), dirs, refs0);
      LeafEntry(mem, d, q, pt);
      if mem[pt].entries[q[3]].present {
        SameAgain(v0.mem, mem, dirs, d, q);
        return;
      }
      ghost var m1 := mem;
      ok := FillEntry(d, q, pt, junk);
      if ok {
        ReadAgain(v0.mem, m1, mem, dirs, d, q);
        FormerSame(v0.mem, m1, own, Trans(mem, d, q).value.frame, junk);
      }
    }

    /** Nothing was taken, so the same frame is the first one left. */
    lemma SpareKept(used: set<nat>, used': set<nat>)
      requires used <= used'
      ensures |Spare(used')| == |Spare(used)| ==> forall f: nat :: FirstLeft(used', f) ==> FirstLeft(used, f)
    {
      if |Spare(used')| == |Spare(used)| {
        assert Spare(used') <= Spare(used);
        SameSize(Spare(used'), Spare(used));
        forall f: nat | FirstLeft(used', f)
          ensures FirstLeft(used, f)
        {
          assert f in Spare(used');
          forall g: nat | pmm.kernelLimit <= g < f
            ensures g in used
          {
            assert g !in Spare(used');
          }
        }
      }
    }

    /** The empty leaf entry of a page gets the first free frame. When there is
        none the search answers with a 32-bit -1, which the test against a
        64-bit -1 lets pass: the page is mapped to a frame that is not there. */
    method FillEntry(d: nat, q: Path, pt: nat, junk: seq<byte>) returns (ok: bool)
      requires Valid() && d in dirs && UserPath(q) && |junk| == PAGE_SIZE && LeafTable(mem, d, q) == Some(pt) && Trans(mem, d, q) == None
      modifies this`mem, pmm.bitmap, pmm.refs
      ensures pmm.Valid()
      ensures ok ==> Valid() && OthersRead(old(mem), mem, dirs, d, q) && OthersSame(old(mem), mem, dirs, d, q)
      ensures ok <==> FrameLeft(old(pmm.Used()))
      ensures ok ==> UserWritable(Trans(mem, d, q))
      ensures ok ==> var f := Trans(mem, d, q).value.frame;
                     FirstLeft(old(pmm.Used()), f) && f !in old(pmm.Used()) && f !in own && Content(mem, d, q) == Some(Former(old(mem), f, junk))
      ensures ok && Exact(old(mem), dirs, old(pmm.refs[..])) ==> Exact(mem, dirs, pmm.refs[..])
      ensures !ok ==> !FrameLeft(pmm.Used()) && Trans(mem, d, q) == Some(Entry(true, true, true, false, 0xFFFF_FFFF))
    {
      hide LeavesOk, Exclusive, Counted, Exact, Forest, Grows, OnlyPage, FrameAllocator.Used, Content, Trans, LeafTable, OthersRead, OthersSame;
      ghost var v1, refs0 := Now(), pmm.refs[..];
      var f := pmm.FirstFree();
      if f == -1 {
        LeafSet(v1, refs0, d, q, pt, Entry(true, true, true, false, NO_FRAME));
        mem := SetEntry(mem, pt, q[3], Entry(true, true, true, false, NO_FRAME));
        pmm.AddRef(NO_FRAME);
        return false;
      }
      MoreUsed(v1, dirs, refs0, pmm.Used());
      ghost var v2 := Now();
      var bytes := Former(mem, f, junk);
      LeafKept(v2, refs0, dirs, d, q, pt, f, Data(bytes));
      mem := mem[f := Data(bytes)];
      mem := SetEntry(mem, pt, q[3], Entry(true, true, true, false, f));
      pmm.AddRef(f);
      EntryFilled(v2, refs0, Now(), pmm.refs[..], dirs, d, q, pt, f, Data(bytes));
      ok := true;
    }

    /** The shared-frame branch of the fault: the entry's page is copied into
        the first free frame, and the old frame loses a reference. */
    method CopyFrame(pt: nat, i: nat) returns (f: nat, ok: bool)
      requires pmm.Valid() && IsTable(mem, pt) && i < 512
      requires var g := mem[pt].entries[i].frame; g < pmm.total && g in pmm.Used() && g in mem && pmm.refs[g] > 1
      requires forall f :: 0 <= f < pmm.total && pmm.refs[f] > 0 ==> f in pmm.Used()
      requires pt in pmm.Used()
      modifies this`mem, pmm.bitmap, pmm.refs
      ensures pmm.Valid() && old(pmm.Used()) <= pmm.Used()
      ensures ok <==> FrameLeft(old(pmm.Used()))
      ensures !ok ==> mem == old(mem) && pmm.refs[..] == old(pmm.refs[..])
      ensures ok ==> f !in old(pmm.Used()) && f < pmm.total && f in pmm.Used()
      ensures ok ==> var e := old(mem)[pt].entries[i];
                     && mem == SetEntry(old(mem), pt, i, e.(frame := f, cow := false, writable := true))[f := old(mem)[e.frame]]
                     && pmm.refs[..] == old(pmm.refs[..])[e.frame := old(pmm.refs[..])[e.frame] - 1][f := 1]
    {
      hide FrameAllocator.Used;
      var e := mem[pt].entries[i];
      var frame := pmm.FirstFree();
      if frame == -1 {
        return 0, false;
      }
      f := frame;
      mem := mem[f := mem[e.frame]];
      pmm.RemoveRef(e.frame);
      mem := SetEntry(mem, pt, i, e.(frame := f, cow := false, writable := true));
      pmm.AddRef(f);
      ok := true;
    }

    /** The copy-on-write part of page_fault, for a write that hit a present,
        unwritable page. When it returns true the page is user-writable and
        nobody, the faulting process included, reads anything different; it
        returns false for a page that is not copy-on-write, or when a shared
        page has to be copied and no frame is free. */
    method PageFault(d: nat, virt: nat) returns (handled: bool)
      requires Valid() && d in dirs && UserPath(PathOf(virt))
      requires Trans(mem, d, PathOf(virt)).Some?
      modifies this`mem, pmm.bitmap, pmm.refs
      ensures Valid()
      ensures forall d', q' :: d' in dirs && UserPath(q') ==> Content(mem, d', q') == Content(old(mem), d', q')
      ensures Exact(old(mem), dirs, old(pmm.refs[..])) ==> Exact(mem, dirs, pmm.refs[..])
      ensures handled ==> var o := Trans(mem, d, PathOf(virt)); o.Some? && o.value.user && o.value.writable
      ensures !handled ==> mem == old(mem)
      ensures Once(old(mem), dirs) ==> Once(mem, dirs)
      ensures var e := Trans(old(mem), d, PathOf(virt)).value;
              handled <==> e.cow && e.user && (old(pmm.refs[..])[e.frame] <= 1 || FrameLeft(old(pmm.Used())))
    {
      hide LeavesOk, Exclusive, Counted, Exact, Forest, Grows, Content, Trans, FrameAllocator.Used, Once;
      ghost var v0, refs0 := Now(), pmm.refs[..];
      var q := PathOf(virt);
      var found, pt := GetEntry(d, virt);
      assert found;
      var e := mem[pt].entries[q[3]];
      FrameCounted(v0, refs0, dirs, d, q);
      if !e.cow || !e.user {
        return false;
      }
      var n := pmm.GetRef(e.frame);
      if n > 1 {
        var f, ok := CopyFrame(pt, q[3]);
        if !ok {
          MoreUsed(v0, dirs, refs0, pmm.Used());
          return false;
        }
        CopyDone(v0, refs0, Now(), pmm.refs[..], dirs, d, q, pt, e, f);
      } else {
        mem := SetEntry(mem, pt, q[3], e.(cow := false, writable := true));
        UnshareDone(v0, refs0, Now(), dirs, d, q, pt, e);
      }
      handled := true;
    }

    /** A user-mode store. The hardware lets it through on a user-writable page
        and raises the fault otherwise; a page that is not mapped, not the
        user's, or whose fault is not handled ends the process. Over all
        address spaces a store changes the one byte it names, or nothing. */
    method UserStore(d: nat, virt: nat, b: byte) returns (stored: bool)
      requires Valid() && d in dirs && UserPath(PathOf(virt))
      modifies this`mem, pmm.bitmap, pmm.refs
      ensures Valid()
      ensures Exact(old(mem), dirs, old(pmm.refs[..])) ==> Exact(mem, dirs, pmm.refs[..])
      ensures OthersRead(old(mem), mem, dirs, d, PathOf(virt))
      ensures stored ==> var o := Content(old(mem), d, PathOf(virt));
                         && o.Some? && |o.value| == PAGE_SIZE
                         && Content(mem, d, PathOf(virt)) == Some(o.value[virt % PAGE_SIZE := b])
      ensures !stored ==> Content(mem, d, PathOf(virt)) == Content(old(mem), d, PathOf(virt))
      ensures stored <==> Storable(Trans(old(mem), d, PathOf(virt)), old(pmm.refs[..]), old(pmm.Used()))
      ensures Once(old(mem), dirs) ==> Once(mem, dirs)
    {
      hide LeavesOk, Exclusive, Counted, Exact, Forest, FrameAllocator.Used, Once;
      var q := PathOf(virt);
      var found, pt := GetEntry(d, virt);
      if !found || !mem[pt].entries[q[3]].present || !mem[pt].entries[q[3]].user {
        return false;
      }
      FrameCounted(Now(), pmm.refs[..], dirs, d, q);
      if !mem[pt].entries[q[3]].writable {
        var handled := PageFault(d, virt);
        if !handled {
          return false;
        }
      }
      stored := StoreByte(d, virt, b);
    }

    /** A store into one page by way of the physical map, as the loaders do it:
        the frame of a user-writable page is written directly. */
    method WriteFrame(d: nat, virt: nat, data: seq<byte>)
      requires Valid() && d in dirs && UserPath(PathOf(virt)) && virt % PAGE_SIZE + |data| <= PAGE_SIZE
      requires UserWritable(Trans(mem, d, PathOf(virt)))
      modifies this`mem
      ensures Valid()
      ensures Exact(old(mem), dirs, pmm.refs[..]) ==> Exact(mem, dirs, pmm.refs[..])
      ensures OthersRead(old(mem), mem, dirs, d, PathOf(virt))
      ensures forall d', q' :: d' in dirs && IsPath(q') ==> Trans(mem, d', q') == Trans(old(mem), d', q')
      ensures var o := Content(old(mem), d, PathOf(virt));
              && o.Some? && |o.value| == PAGE_SIZE
              && Content(mem, d, PathOf(virt)) == Some(Bytes.Put(o.value, virt % PAGE_SIZE, data))
    {
      hide LeavesOk, Exclusive, Counted, Exact, Forest, Grows, OthersRead;
      ghost var v0 := Now();
      var q := PathOf(virt);
      var found, pt := GetEntry(d, virt);
      FrameCounted(v0, pmm.refs[..], dirs, d, q);
      var e := mem[pt].entries[q[3]];
      var bytes := Bytes.Put(mem[e.frame].bytes, virt % PAGE_SIZE, data);
      mem := mem[e.frame := Data(bytes)];
      StoreDone(v0, pmm.refs[..], Now(), dirs, d, q, e, bytes);
    }

    /** The store once the page is user-writable. */
    method StoreByte(d: nat, virt: nat, b: byte) returns (stored: bool)
      requires Valid() && d in dirs && UserPath(PathOf(virt))
      requires UserWritable(Trans(mem, d, PathOf(virt)))
      modifies this`mem
      ensures Valid() && stored
      ensures Exact(old(mem), dirs, pmm.refs[..]) ==> Exact(mem, dirs, pmm.refs[..])
      ensures Once(old(mem), dirs) ==> Once(mem, dirs)
      ensures OthersRead(old(mem), mem, dirs, d, PathOf(virt))
      ensures var o := Content(old(mem), d, PathOf(virt));
              && o.Some? && |o.value| == PAGE_SIZE
              && Content(mem, d, PathOf(virt)) == Some(o.value[virt % PAGE_SIZE := b])
    {
      hide LeavesOk, Exclusive, Counted, Exact, Forest, Grows, OthersRead, Content, Trans, Once;
      WriteFrame(d, virt, [b]);
      if Once(old(mem), dirs) {
        OnceSame(old(mem), mem, dirs);
      }
      PutOne(Content(old(mem), d, PathOf(virt)).value, virt % PAGE_SIZE, b);
      stored := true;
    }

    // ----- Free

    /** free_table, and the three hand-unrolled levels of free_page_directory:
        every private leaf below the table gives its reference back. The table
        frames themselves have no references, so free_page_table leaves them
        marked used. */
    method FreeTable(t: nat, path: Path)
      requires pmm.Valid() && Forest(mem, own) && t in own && own[t].path == path
      requires |path| <= 3 && Covered(mem, own, t, path, pmm.refs[..])
      modifies pmm.bitmap, pmm.refs
      ensures pmm.Valid()
      ensures Subtracted(mem, t, path, 512, old(pmm.refs[..]), pmm.refs[..])
      ensures Released(old(pmm.Used()), old(pmm.refs[..]), pmm.Used(), pmm.refs[..])
      decreases 3 - |path|
    {
      hide FrameAllocator.Used;
      ghost var used0, refs0 := pmm.Used(), pmm.refs[..];
      assert TableOk(mem, own, t);
      var i := 0;
      while i < 512
        invariant 0 <= i <= 512
        invariant pmm.Valid()
        invariant Subtracted(mem, t, path, i, refs0, pmm.refs[..])
        invariant Released(used0, refs0, pmm.Used(), pmm.refs[..])
      {
        ghost var used1, refs1 := pmm.Used(), pmm.refs[..];
        var e := mem[t].entries[i];
        if !e.present || SharedChild(path, i) {
          FreeNothing(mem, t, path, i, refs0, refs1);
        } else if |path| < 3 {
          assert ChildOk(mem, own, t, i);
          FreeChild(mem, own, t, path, i, refs0, refs1);
          FreeTable(e.frame, path + [i]);
          ReleasedChain(used0, refs0, used1, refs1, pmm.Used(), pmm.refs[..]);
        } else {
          FreeLeaf(mem, own, t, path, i, refs0, refs1);
          pmm.RemoveRef(e.frame);
          ReleasedChain(used0, refs0, used1, refs1, pmm.Used(), pmm.refs[..]);
        }
        i := i + 1;
      }
      pmm.RemoveRef(t);
    }

    /** free_page_directory: freeing undoes exactly the directory's references;
        every other address space reads on as before. */
    method FreeDirectory(d: nat)
      requires Valid() && d in dirs
      modifies this`own, this`dirs, pmm.bitmap, pmm.refs
      ensures Valid()
      ensures dirs == if d == kernelDir then old(dirs) else old(dirs) - {d}
      ensures d == kernelDir ==> pmm.refs[..] == old(pmm.refs[..])
      ensures d != kernelDir ==> forall f :: 0 <= f < pmm.total ==> pmm.refs[f] == old(pmm.refs[f]) - |PagesOf(mem, d, f)|
      ensures Exact(mem, old(dirs), old(pmm.refs[..])) ==> Exact(mem, dirs, pmm.refs[..])
      ensures d != kernelDir ==> Released(old(pmm.Used()), old(pmm.refs[..]), pmm.Used(), pmm.refs[..])
    {
      hide FrameAllocator.Used, LeavesOk, Exclusive, Counted, Exact, Forest, Covered, Released;
      if d == kernelDir {
        return;
      }
      ghost var v0, refs0 := Now(), pmm.refs[..];
      DirectoryCovered(v0, refs0, dirs, d);
      FreeTable(d, []);
      own := map t | t in own && own[t].dir != d :: own[t];
      FreeDone(v0, refs0, Now(), pmm.refs[..], dirs, d);
      dirs := dirs - {d};
    }
  }
}
