/** The invariant that makes sharing invisible: what every directory may rely
    on about frames, reference counts and writable pages, and how the three
    kinds of change (one page, one new directory, one directory less) keep it. */
module CowInvariant {
  import opened PageTree
  import opened PageViews
  import opened CowClone

  predicate IsData(m: Mem, f: nat)
  {
    f in m && m[f].Data? && |m[f].bytes| == PAGE_SIZE
  }

  function ZeroPage(): (p: Page)
    ensures p.Data? && |p.bytes| == PAGE_SIZE
  {
    Data(seq(PAGE_SIZE, _ => 0))
  }

  /** All (directory, page) pairs mapped to frame f. */
  ghost function Mappings(m: Mem, dirs: set<nat>, f: nat): (s: set<(nat, Path)>)
  {
    set d, q | d in dirs && q in AllPaths() && Maps(m, d, q, f) :: (d, q)
  }

  ghost predicate Maps(m: Mem, d: nat, q: Path, f: nat)
  {
    UserPath(q) && Names(Trans(m, d, q), f)
  }

  lemma InMappings(m: Mem, dirs: set<nat>, d: nat, q: Path, f: nat)
    ensures (d, q) in Mappings(m, dirs, f) <==> d in dirs && Maps(m, d, q, f)
  {
    AllPathsHasAll(q);
  }

  /** The user page q of directory d, as the process reads it. */
  ghost function Content(m: Mem, d: nat, q: Path): (o: Option<seq<byte>>)
    requires UserPath(q)
  {
    match Trans(m, d, q)
    case None => None
    case Some(e) => if e.user && IsData(m, e.frame) then Some(m[e.frame].bytes) else None
  }

  /** Frames of user pages hold data, are not tables, and have a count. */
  ghost predicate LeavesOk(v: View, dirs: set<nat>, total: nat)
  {
    forall d, q :: d in dirs && UserPath(q) && Trans(v.mem, d, q).Some? ==> LeafOk(v, Trans(v.mem, d, q).value, total)
  }

  ghost predicate LeafOk(v: View, e: Entry, total: nat)
  {
    e.frame < total && e.frame in v.used && e.frame !in v.own && IsData(v.mem, e.frame)
  }

  /** A frame mapped user-writable has exactly one mapping. */
  ghost predicate Exclusive(m: Mem, dirs: set<nat>)
  {
    forall d, q, d', q' :: d in dirs && UserPath(q) && d' in dirs && UserPath(q') && WritesTo(Trans(m, d, q), Trans(m, d', q')) ==>
      d == d' && q == q'
  }

  ghost predicate WritesTo(a: Option<Entry>, b: Option<Entry>)
  {
    a.Some? && b.Some? && a.value.user && a.value.writable && a.value.frame == b.value.frame
  }

  /** No reference count is below the number of mappings of its frame. */
  ghost predicate Counted(m: Mem, dirs: set<nat>, refs: seq<nat>)
  {
    forall f :: 0 <= f < |refs| ==> |Mappings(m, dirs, f)| <= refs[f]
  }

  /** Every reference count is the number of mappings of its frame. */
  ghost predicate Exact(m: Mem, dirs: set<nat>, refs: seq<nat>)
  {
    forall f :: 0 <= f < |refs| ==> refs[f] == |Mappings(m, dirs, f)|
  }

  ghost predicate Sound(v: View, dirs: set<nat>, refs: seq<nat>)
  {
    && CoreView(v, refs)
    && (forall d :: d in dirs ==> d in v.own && v.own[d] == Label(d, []))
    && (forall t :: t in v.own && t < |refs| ==> refs[t] == 0)
    && LeavesOk(v, dirs, |refs|)
    && Exclusive(v.mem, dirs)
    && Counted(v.mem, dirs, refs)
  }

  // ----- One page changes

  /** Every page of every directory but (d, q) translates alike. */
  ghost predicate OthersSame(m: Mem, m': Mem, dirs: set<nat>, d: nat, q: Path)
  {
    forall d', q' :: d' in dirs && UserPath(q') && (d' != d || q' != q) ==> Trans(m', d', q') == Trans(m, d', q')
  }

  function One(b: bool): nat { if b then 1 else 0 }

  lemma MappingsOne(m: Mem, m': Mem, dirs: set<nat>, d: nat, q: Path, f: nat)
    requires d in dirs && UserPath(q) && OthersSame(m, m', dirs, d, q)
    ensures |Mappings(m', dirs, f)| + One(Maps(m, d, q, f)) == |Mappings(m, dirs, f)| + One(Maps(m', d, q, f))
  {
    var a, b := Mappings(m, dirs, f), Mappings(m', dirs, f);
    forall x | x != (d, q) ensures x in a <==> x in b {
      InMappings(m, dirs, x.0, x.1, f);
      InMappings(m', dirs, x.0, x.1, f);
    }
    SplitCard(a, b, (d, q));
    InMappings(m, dirs, d, q, f);
    InMappings(m', dirs, d, q, f);
  }

  lemma SplitCard<T(!new)>(a: set<T>, b: set<T>, x: T)
    requires forall y :: y != x ==> (y in a <==> y in b)
    ensures |b| + One(x in a) == |a| + One(x in b)
  {
    var c := a - {x};
    assert c == b - {x};
    assert a == if x in a then c + {x} else c;
    assert b == if x in b then c + {x} else c;
  }

  /** Two pages mapped to one frame count twice. */
  lemma TwoMappings(m: Mem, dirs: set<nat>, d: nat, q: Path, d': nat, q': Path, f: nat)
    requires d in dirs && d' in dirs && Maps(m, d, q, f) && Maps(m, d', q', f) && (d, q) != (d', q')
    ensures |Mappings(m, dirs, f)| >= 2
  {
    var a := Mappings(m, dirs, f);
    InMappings(m, dirs, d, q, f);
    InMappings(m, dirs, d', q', f);
    assert {(d, q), (d', q')} <= a;
    CardSubset({(d, q), (d', q')}, a);
  }

  lemma OneMapping(m: Mem, dirs: set<nat>, d: nat, q: Path, f: nat)
    requires d in dirs && Maps(m, d, q, f)
    ensures |Mappings(m, dirs, f)| >= 1
  {
    InMappings(m, dirs, d, q, f);
    CardSubset({(d, q)}, Mappings(m, dirs, f));
  }

  lemma {:induction false} CardSubset<T>(a: set<T>, b: set<T>)
    requires a <= b
    ensures |a| <= |b|
    decreases a
  {
    if a != {} {
      var x :| x in a;
      CardSubset(a - {x}, b - {x});
    }
  }

  // ----- One new directory

  lemma {:induction false} PairCard(d: nat, s: set<Path>)
    ensures |set q | q in s :: (d, q)| == |s|
    decreases s
  {
    if s == {} {
      assert (set q | q in s :: (d, q)) == {};
    } else {
      var x :| x in s;
      PairCard(d, s - {x});
      assert (set q | q in s :: (d, q)) == (set q | q in s - {x} :: (d, q)) + {(d, x)};
    }
  }

  /** The pages of one directory that are mapped to frame f. */
  ghost function PagesOf(m: Mem, d: nat, f: nat): (s: set<Path>)
  {
    PagesNaming(m, d, [], 512, f)
  }

  lemma InPagesOf(m: Mem, d: nat, f: nat, q: Path)
    ensures q in PagesOf(m, d, f) <==> Maps(m, d, q, f)
  {
    AllPathsHasAll(q);
    if |q| == 4 {
      assert q[0..] == q;
    }
  }

  lemma MappingsAdd(m: Mem, m': Mem, dirs: set<nat>, child: nat, src: nat, f: nat)
    requires child !in dirs
    requires forall d, q :: d in dirs && UserPath(q) ==> Maps(m', d, q, f) == Maps(m, d, q, f)
    requires forall q :: UserPath(q) ==> Maps(m', child, q, f) == Maps(m, src, q, f)
    ensures |Mappings(m', dirs + {child}, f)| == |Mappings(m, dirs, f)| + |PagesOf(m, src, f)|
  {
    hide PagesOf, Mappings, Trans;
    var extra := set q | q in PagesOf(m, src, f) :: (child, q);
    PairCard(child, PagesOf(m, src, f));
    assert Mappings(m', dirs + {child}, f) == Mappings(m, dirs, f) + extra by {
      forall x: (nat, Path) ensures x in Mappings(m', dirs + {child}, f) <==> x in Mappings(m, dirs, f) + extra {
        InMappings(m', dirs + {child}, x.0, x.1, f);
        InMappings(m, dirs, x.0, x.1, f);
        InPagesOf(m, src, f, x.1);
      }
    }
    assert Mappings(m, dirs, f) !! extra by {
      forall x | x in extra ensures x !in Mappings(m, dirs, f) {
        InMappings(m, dirs, x.0, x.1, f);
      }
    }
  }

  lemma MappingsDrop(m: Mem, dirs: set<nat>, d: nat, f: nat)
    requires d in dirs
    ensures |Mappings(m, dirs - {d}, f)| + |PagesOf(m, d, f)| == |Mappings(m, dirs, f)|
  {
    MappingsAdd(m, m, dirs - {d}, d, d, f);
    assert dirs - {d} + {d} == dirs;
  }

  // ----- Clone: from v0, with the empty root table added (va), to v

  ghost predicate ClonedFrom(v0: View, refs0: seq<nat>, va: View, v: View, refs: seq<nat>, dirs: set<nat>, src: nat, child: nat)
  {
    && Sound(v0, dirs, refs0) && src in dirs && child !in v0.own && child !in v0.used
    && va.own == v0.own[child := Label(child, [])] && va.mem == v0.mem[child := EmptyTable()]
    && Grows(v0, va) && CoreView(va, refs0)
    && Cloning(va, RootJob(src, child)) && Cloned(va, refs0, v, refs, RootJob(src, child), 512)
  }

  function RootJob(src: nat, child: nat): Job
  {
    Job(src, child, src, child, [])
  }

  /** Adding an unlinked table changes no walk. */
  lemma RootAdded(v0: View, refs0: seq<nat>, va: View, child: nat, d: nat, q: Path)
    requires CoreView(v0, refs0) && d in v0.own && v0.own[d] == Label(d, []) && IsPath(q)
    requires child !in v0.own && va.mem == v0.mem[child := EmptyTable()]
    ensures Trans(va.mem, d, q) == Trans(v0.mem, d, q)
  {
    assert SameUnder(v0.mem, va.mem, v0.own, d, []) by {
      forall s | s in v0.own ensures s in v0.mem && s in va.mem && va.mem[s] == v0.mem[s] {
        assert TableOk(v0.mem, v0.own, s);
      }
    }
    TransFrame(v0.mem, va.mem, v0.own, d, q);
  }

  /** A third directory translates every page as before. */
  lemma CloneOthers(v0: View, refs0: seq<nat>, va: View, v: View, refs: seq<nat>, dirs: set<nat>, src: nat, child: nat, d: nat, q: Path)
    requires ClonedFrom(v0, refs0, va, v, refs, dirs, src, child)
    requires d in dirs && d != src && IsPath(q)
    ensures Trans(v.mem, d, q) == Trans(v0.mem, d, q)
  {
    RootAdded(v0, refs0, va, child, d, q);
    var job := RootJob(src, child);
    assert SameUnder(va.mem, v.mem, va.own, d, []) by {
      forall s | s in va.own && Under(va.own, s, d, []) ensures s in va.mem && s in v.mem && v.mem[s] == va.mem[s] {
        assert s != child && !Touched(va.own[s], job, 512);
        assert Kept(va.mem, v.mem, s);
      }
    }
    TransFrame(va.mem, v.mem, va.own, d, q);
  }

  /** Parent and child translate every user page to what the parent had, with
      user-writable pages turned copy-on-write. */
  lemma CloneBoth(v0: View, refs0: seq<nat>, va: View, v: View, refs: seq<nat>, dirs: set<nat>, src: nat, child: nat, q: Path)
    requires ClonedFrom(v0, refs0, va, v, refs, dirs, src, child)
    requires UserPath(q)
    ensures Trans(v.mem, child, q) == CowOption(Trans(v0.mem, src, q))
    ensures Trans(v.mem, src, q) == CowOption(Trans(v0.mem, src, q))
  {
    RootAdded(v0, refs0, va, child, src, q);
    WholeImage(va.mem, v.mem, RootJob(src, child));
    assert [] + q == q;
    CowImageTrans(va.mem, src, v.mem, child, [], q);
    CowImageTrans(va.mem, src, v.mem, src, [], q);
  }

  lemma CloneTrans(v0: View, refs0: seq<nat>, va: View, v: View, refs: seq<nat>, dirs: set<nat>, src: nat, child: nat)
    requires ClonedFrom(v0, refs0, va, v, refs, dirs, src, child)
    ensures CloneView(v0.mem, v.mem, dirs, src, child)
  {
    forall d, q | d in dirs + {child} && UserPath(q)
      ensures Trans(v.mem, d, q) == if d == src || d == child then CowOption(Trans(v0.mem, src, q)) else Trans(v0.mem, d, q)
    {
      if d == src || d == child {
        CloneBoth(v0, refs0, va, v, refs, dirs, src, child, q);
      } else {
        CloneOthers(v0, refs0, va, v, refs, dirs, src, child, d, q);
      }
    }
  }

  /** What clone does to every user page of every directory. */
  ghost predicate CloneView(m: Mem, m': Mem, dirs: set<nat>, src: nat, child: nat)
  {
    forall d, q :: d in dirs + {child} && UserPath(q) ==>
      Trans(m', d, q) == if d == src || d == child then CowOption(Trans(m, src, q)) else Trans(m, d, q)
  }

  /** A page that could be written turns copy-on-write on both sides, with its
      frame; any other page stays, and shows the same entry on both. */
  lemma CloneEntries(m: Mem, m': Mem, dirs: set<nat>, src: nat, child: nat, q: Path)
    requires CloneView(m, m', dirs, src, child) && src in dirs && UserPath(q)
    ensures Trans(m', child, q) == Trans(m', src, q)
    ensures var o, n := Trans(m, src, q), Trans(m', src, q);
            if o.Some? && o.value.user && o.value.writable then n == Some(Entry(o.value.present, false, true, true, o.value.frame)) else n == o
  {
    hide Trans;
  }

  /** The child's pages name the parent's frames; no other page changes frame. */
  lemma CloneMaps(m: Mem, m': Mem, dirs: set<nat>, src: nat, child: nat, f: nat)
    requires CloneView(m, m', dirs, src, child) && src in dirs && child !in dirs
    ensures |Mappings(m', dirs + {child}, f)| == |Mappings(m, dirs, f)| + |PagesOf(m, src, f)|
  {
    forall d, q | d in dirs && UserPath(q) ensures Maps(m', d, q, f) == Maps(m, d, q, f) {
    }
    MappingsAdd(m, m', dirs, child, src, f);
  }

  /** The reference counts, bytes that wrap, after a clone. */
  ghost predicate RefsCloned(m: Mem, src: nat, refs0: seq<nat>, refs: seq<nat>)
  {
    |refs| == |refs0| && forall f :: 0 <= f < |refs0| ==> refs[f] == (refs0[f] + |PagesOf(m, src, f)|) % 256
  }

  lemma CloneRefs(v0: View, refs0: seq<nat>, va: View, refs: seq<nat>, dirs: set<nat>, src: nat, child: nat)
    requires CoreView(v0, refs0) && src in v0.own && v0.own[src] == Label(src, [])
    requires child !in v0.own && va.mem == v0.mem[child := EmptyTable()]
    requires Added(va.mem, refs0, refs, RootJob(src, child), 512)
    ensures RefsCloned(v0.mem, src, refs0, refs)
  {
    forall f | 0 <= f < |refs0| ensures refs[f] == (refs0[f] + |PagesOf(v0.mem, src, f)|) % 256 {
      CountIsCard(va.mem, src, [], 512, f);
      SamePagesOf(v0, refs0, va, dirs, src, child, f);
    }
  }

  lemma SamePagesOf(v0: View, refs0: seq<nat>, va: View, dirs: set<nat>, src: nat, child: nat, f: nat)
    requires CoreView(v0, refs0) && src in v0.own && v0.own[src] == Label(src, [])
    requires child !in v0.own && va.mem == v0.mem[child := EmptyTable()]
    ensures PagesOf(va.mem, src, f) == PagesOf(v0.mem, src, f)
  {
    forall q | q in AllPaths() ensures q in PagesOf(va.mem, src, f) <==> q in PagesOf(v0.mem, src, f) {
      AllPathsHasAll(q);
      InPagesOf(va.mem, src, f, q);
      InPagesOf(v0.mem, src, f, q);
      RootAdded(v0, refs0, va, child, src, q);
    }
  }

  /** The byte-sized counts have room for the clone's references. */
  ghost predicate RoomToClone(m: Mem, src: nat, refs: seq<nat>)
  {
    forall f :: 0 <= f < |refs| ==> refs[f] + |PagesOf(m, src, f)| <= 255
  }

  lemma CowLeaves(v0: View, v: View, dirs: set<nat>, total: nat, src: nat, child: nat)
    requires LeavesOk(v0, dirs, total) && src in dirs && Grows(v0, v)
    requires CloneView(v0.mem, v.mem, dirs, src, child)
    ensures LeavesOk(v, dirs + {child}, total)
  {
    forall d, q | d in dirs + {child} && UserPath(q) && Trans(v.mem, d, q).Some? ensures LeafOk(v, Trans(v.mem, d, q).value, total) {
      var d0 := if d == child then src else d;
      assert LeafOk(v0, Trans(v0.mem, d0, q).value, total);
    }
  }

  lemma CowExclusive(m: Mem, m': Mem, dirs: set<nat>, src: nat, child: nat)
    requires Exclusive(m, dirs) && src in dirs && child !in dirs
    requires CloneView(m, m', dirs, src, child)
    ensures Exclusive(m', dirs + {child})
  {
    forall d, q, d', q' | d in dirs + {child} && UserPath(q) && d' in dirs + {child} && UserPath(q') && WritesTo(Trans(m', d, q), Trans(m', d', q'))
      ensures d == d' && q == q'
    {
      assert d != src && d != child;
      var e' := if d' == child then src else d';
      assert WritesTo(Trans(m, d, q), Trans(m, e', q'));
    }
  }

  /** Cloning keeps the invariant exactly when no reference count wraps. */
  lemma CloneSound(v0: View, refs0: seq<nat>, v: View, refs: seq<nat>, dirs: set<nat>, src: nat, child: nat)
    requires Sound(v0, dirs, refs0) && src in dirs && child !in dirs
    requires CloneView(v0.mem, v.mem, dirs, src, child) && Grows(v0, v) && CoreView(v, refs)
    requires RefsCloned(v0.mem, src, refs0, refs)
    requires child in v.own && v.own[child] == Label(child, [])
    requires forall f :: 0 <= f < |refs0| ==> refs0[f] < 256
    ensures Sound(v, dirs + {child}, refs) <==> RoomToClone(v0.mem, src, refs0)
    ensures RoomToClone(v0.mem, src, refs0) && Exact(v0.mem, dirs, refs0) ==> Exact(v.mem, dirs + {child}, refs)
  {
    hide LeavesOk, Exclusive, Counted, Exact, RoomToClone, CloneView, CoreView;
    CowLeaves(v0, v, dirs, |refs0|, src, child);
    CowExclusive(v0.mem, v.mem, dirs, src, child);
    CloneCounted(v0, refs0, v, refs, dirs, src, child);
    CloneTablesUnref(v0, refs0, v, refs, dirs, src);
  }

  lemma CloneFacts(v0: View, refs0: seq<nat>, va: View, v: View, refs: seq<nat>, dirs: set<nat>, src: nat, child: nat)
    requires ClonedFrom(v0, refs0, va, v, refs, dirs, src, child)
    ensures CloneView(v0.mem, v.mem, dirs, src, child) && Grows(v0, v) && CoreView(v, refs)
    ensures RefsCloned(v0.mem, src, refs0, refs)
    ensures child in v.own && v.own[child] == Label(child, [])
  {
    CloneTrans(v0, refs0, va, v, refs, dirs, src, child);
    GrowsChain(v0, va, v);
    CloneRefs(v0, refs0, va, refs, dirs, src, child);
  }

  lemma CloneCounted(v0: View, refs0: seq<nat>, v: View, refs: seq<nat>, dirs: set<nat>, src: nat, child: nat)
    requires CloneView(v0.mem, v.mem, dirs, src, child) && src in dirs && child !in dirs && Counted(v0.mem, dirs, refs0)
    requires RefsCloned(v0.mem, src, refs0, refs)
    requires forall f :: 0 <= f < |refs0| ==> refs0[f] < 256
    ensures Counted(v.mem, dirs + {child}, refs) <==> RoomToClone(v0.mem, src, refs0)
    ensures RoomToClone(v0.mem, src, refs0) && Exact(v0.mem, dirs, refs0) ==> Exact(v.mem, dirs + {child}, refs)
  {
    hide Mappings, PagesOf, CloneView;
    forall f | 0 <= f < |refs0|
      ensures |Mappings(v.mem, dirs + {child}, f)| == |Mappings(v0.mem, dirs, f)| + |PagesOf(v0.mem, src, f)|
      ensures |Mappings(v.mem, dirs + {child}, f)| <= refs[f] <==> refs0[f] + |PagesOf(v0.mem, src, f)| <= 255
    {
      CloneMaps(v0.mem, v.mem, dirs, src, child, f);
      Wrap(refs0[f], |PagesOf(v0.mem, src, f)|, |Mappings(v0.mem, dirs, f)|);
    }
  }

  lemma CloneTablesUnref(v0: View, refs0: seq<nat>, v: View, refs: seq<nat>, dirs: set<nat>, src: nat)
    requires Sound(v0, dirs, refs0) && src in dirs && Grows(v0, v)
    requires RefsCloned(v0.mem, src, refs0, refs)
    ensures forall t :: t in v.own && t < |refs| ==> refs[t] == 0
  {
    forall t | t in v.own && t < |refs| ensures refs[t] == 0 {
      TablesUnnamed(v0, dirs, refs0, src, t);
    }
  }

  lemma Wrap(r: nat, c: nat, n: nat)
    requires n <= r < 256
    ensures n + c <= (r + c) % 256 <==> r + c <= 255
  {
  }

  lemma NamedFrameInUse(v: View, dirs: set<nat>, refs: seq<nat>, d: nat, f: nat, q: Path)
    requires LeavesOk(v, dirs, |refs|) && d in dirs && q in PagesOf(v.mem, d, f)
    ensures f !in v.own && f in v.used
  {
    InPagesOf(v.mem, d, f, q);
    assert LeafOk(v, Trans(v.mem, d, q).value, |refs|);
  }

  /** No page of a directory names a table or an unused frame. */
  lemma TablesUnnamed(v: View, dirs: set<nat>, refs: seq<nat>, d: nat, f: nat)
    requires Sound(v, dirs, refs) && d in dirs && (f in v.own || f !in v.used)
    ensures |PagesOf(v.mem, d, f)| == 0
  {
    if PagesOf(v.mem, d, f) != {} {
      var q :| q in PagesOf(v.mem, d, f);
      NamedFrameInUse(v, dirs, refs, d, f, q);
      assert false;
    }
  }

  /** Equal translations of kept data read alike. */
  lemma SameContent(v: View, v': View, dirs: set<nat>, total: nat, d: nat, d': nat, q: Path)
    requires LeavesOk(v, dirs, total) && d in dirs && UserPath(q) && Grows(v, v')
    requires Trans(v'.mem, d', q) == Trans(v.mem, d, q) || Trans(v'.mem, d', q) == CowOption(Trans(v.mem, d, q))
    ensures Content(v'.mem, d', q) == Content(v.mem, d, q)
  {
    if Trans(v.mem, d, q).Some? {
      assert LeafOk(v, Trans(v.mem, d, q).value, total);
    }
  }

  // ----- Kernel pages under clone

  /** Shared pages only depend on shared tables and on inner tables. */
  lemma {:induction false} SharedTransKept(m: Mem, m': Mem, own: Owners, t: nat, r: Path)
    requires Forest(m, own) && t in own && Indices(r) && |r| >= 1 && |own[t].path| + |r| == 4 && Shared(own[t].path + r)
    requires forall s :: s in own && (own[s].dir == KERNEL || (own[s].dir == own[t].dir && |own[s].path| < 3)) ==> Kept(m, m', s)
    ensures Trans(m', t, r) == Trans(m, t, r)
    decreases |r|
  {
    assert TableOk(m, own, t);
    if own[t].dir == KERNEL {
      TransFrame(m, m', own, t, r) by {
        assert forall s :: s in own && Under(own, s, KERNEL, own[t].path) ==> Kept(m, m', s);
      }
    } else {
      assert |r| > 1;
      if m[t].entries[r[0]].present {
        assert ChildOk(m, own, t, r[0]);
        assert own[t].path + [r[0]] + r[1..] == own[t].path + r;
        SharedTransKept(m, m', own, m[t].entries[r[0]].frame, r[1..]);
      }
    }
  }

  lemma {:induction false} SharedTransCopied(m: Mem, m': Mem, own: Owners, s: nat, t: nat, r: Path)
    requires Forest(m, own) && s in own && own[s].dir != KERNEL && Indices(r) && |r| >= 1 && |own[s].path| + |r| == 4
    requires Shared(own[s].path + r) && CowImage(m, s, m', t, own[s].path)
    requires forall x :: x in own && own[x].dir == KERNEL ==> Kept(m, m', x)
    ensures Trans(m', t, r) == Trans(m, s, r)
    decreases |r|
  {
    assert TableOk(m, own, s);
    var path := own[s].path;
    assert CowEntry(m, s, m', t, path, r[0]);
    assert path + [r[0]] + r[1..] == path + r;
    assert |r| > 1;
    if m[s].entries[r[0]].present {
      assert ChildOk(m, own, s, r[0]);
      var c := m[s].entries[r[0]].frame;
      if SharedChild(path, r[0]) {
        assert SameUnder(m, m', own, KERNEL, own[c].path) by {
          assert forall x :: x in own && Under(own, x, KERNEL, own[c].path) ==> Kept(m, m', x);
        }
        TransFrame(m, m', own, c, r[1..]);
      } else {
        SharedTransCopied(m, m', own, c, m'[t].entries[r[0]].frame, r[1..]);
      }
    }
  }

  /** Cloning leaves every kernel page as it was and gives it to the child. */
  lemma CloneKernel(v0: View, refs0: seq<nat>, va: View, v: View, refs: seq<nat>, dirs: set<nat>, src: nat, child: nat, q: Path)
    requires ClonedFrom(v0, refs0, va, v, refs, dirs, src, child) && IsPath(q) && Shared(q)
    ensures Trans(v.mem, child, q) == Trans(v0.mem, src, q) && Trans(v.mem, src, q) == Trans(v0.mem, src, q)
  {
    hide Exclusive, Counted, LeavesOk, Added, Grows, Images;
    RootAdded(v0, refs0, va, child, src, q);
    var job := RootJob(src, child);
    forall s | s in va.own && (va.own[s].dir == KERNEL || (va.own[s].dir == src && |va.own[s].path| < 3)) ensures Kept(va.mem, v.mem, s) {
      assert s != child && !Touched(va.own[s], job, 512);
    }
    WholeImage(va.mem, v.mem, job);
    assert [] + q == q;
    SharedTransKept(va.mem, v.mem, va.own, src, q);
    SharedTransCopied(va.mem, v.mem, va.own, src, child, q);
  }

  // ----- A page moves to a fresh frame: exec mapping and copy-on-write fault

  /** Page q of d now maps the frame f, which no one used. */
  ghost predicate MovedToFresh(v: View, v': View, dirs: set<nat>, refs: seq<nat>, refs': seq<nat>, d: nat, q: Path, f: nat)
  {
    && d in dirs && UserPath(q) && OthersSame(v.mem, v'.mem, dirs, d, q)
    && f !in v.used && f in v'.used && f !in v'.own && f < |refs| && |refs'| == |refs|
    && IsData(v'.mem, f) && refs'[f] == 1
    && Trans(v'.mem, d, q) == Some(Entry(true, true, true, false, f))
  }

  lemma FreshSound(v: View, v': View, dirs: set<nat>, refs: seq<nat>, refs': seq<nat>, d: nat, q: Path, f: nat)
    requires Sound(v, dirs, refs) && CoreView(v', refs') && Grows(v, v') && MovedToFresh(v, v', dirs, refs, refs', d, q, f)
    requires forall g :: 0 <= g < |refs| && g != f ==> refs[g] - One(Maps(v.mem, d, q, g)) <= refs'[g]
    requires forall t :: t in v'.own && t < |refs'| ==> refs'[t] == 0
    ensures Sound(v', dirs, refs')
  {
    FreshLeaves(v, v', dirs, refs, refs', d, q, f);
    forall g | 0 <= g < |refs'| ensures |Mappings(v'.mem, dirs, g)| <= refs'[g] {
      MappingsOne(v.mem, v'.mem, dirs, d, q, g);
      if g == f {
        FreshUnmapped(v, dirs, refs, f);
      }
    }
  }

  lemma FreshUnmapped(v: View, dirs: set<nat>, refs: seq<nat>, f: nat)
    requires Sound(v, dirs, refs) && f !in v.used
    ensures Mappings(v.mem, dirs, f) == {}
    ensures forall d, q :: d in dirs && UserPath(q) ==> !Maps(v.mem, d, q, f)
  {
    forall d, q | d in dirs && UserPath(q) ensures !Maps(v.mem, d, q, f) {
      if Trans(v.mem, d, q).Some? {
        assert LeafOk(v, Trans(v.mem, d, q).value, |refs|);
      }
    }
    forall x | x in Mappings(v.mem, dirs, f) ensures Maps(v.mem, x.0, x.1, f) {
      InMappings(v.mem, dirs, x.0, x.1, f);
    }
  }

  lemma FreshLeaves(v: View, v': View, dirs: set<nat>, refs: seq<nat>, refs': seq<nat>, d: nat, q: Path, f: nat)
    requires Sound(v, dirs, refs) && Grows(v, v') && MovedToFresh(v, v', dirs, refs, refs', d, q, f)
    ensures LeavesOk(v', dirs, |refs'|) && Exclusive(v'.mem, dirs)
  {
    FreshUnmapped(v, dirs, refs, f);
    forall d', q' | d' in dirs && UserPath(q') && Trans(v'.mem, d', q').Some? ensures LeafOk(v', Trans(v'.mem, d', q').value, |refs'|) {
      if d' != d || q' != q {
        assert LeafOk(v, Trans(v.mem, d', q').value, |refs|);
      }
    }
    forall a, p, a', p' | a in dirs && UserPath(p) && a' in dirs && UserPath(p') && WritesTo(Trans(v'.mem, a, p), Trans(v'.mem, a', p'))
      ensures a == a' && p == p'
    {
      assert !Maps(v.mem, a, p, f) && !Maps(v.mem, a', p', f);
      if (a, p) != (d, q) && (a', p') != (d, q) {
        assert WritesTo(Trans(v.mem, a, p), Trans(v.mem, a', p'));
      }
    }
  }

  /** The counts stay exact unless a mapping was overwritten uncounted. */
  lemma FreshExact(v: View, v': View, dirs: set<nat>, refs: seq<nat>, refs': seq<nat>, d: nat, q: Path, f: nat)
    requires Sound(v, dirs, refs) && MovedToFresh(v, v', dirs, refs, refs', d, q, f) && Exact(v.mem, dirs, refs)
    ensures Exact(v'.mem, dirs, refs') <==>
            forall g :: 0 <= g < |refs| && g != f ==> refs'[g] == refs[g] - One(Maps(v.mem, d, q, g))
  {
    FreshUnmapped(v, dirs, refs, f);
    forall g | 0 <= g < |refs|
      ensures |Mappings(v'.mem, dirs, g)| == if g == f then 1 else refs[g] - One(Maps(v.mem, d, q, g))
    {
      MappingsOne(v.mem, v'.mem, dirs, d, q, g);
    }
  }

  // ----- A page becomes writable where it is: the last sharer's fault

  lemma UnshareSound(v: View, v': View, dirs: set<nat>, refs: seq<nat>, d: nat, q: Path, e: Entry)
    requires Sound(v, dirs, refs) && CoreView(v', refs) && Grows(v, v') && v'.own == v.own
    requires d in dirs && UserPath(q) && OthersSame(v.mem, v'.mem, dirs, d, q)
    requires Trans(v.mem, d, q) == Some(e) && Trans(v'.mem, d, q) == Some(e.(cow := false, writable := true))
    requires e.frame < |refs| ==> refs[e.frame] <= 1
    ensures Sound(v', dirs, refs)
    ensures Exact(v.mem, dirs, refs) ==> Exact(v'.mem, dirs, refs)
  {
    assert LeafOk(v, e, |refs|);
    forall g | 0 <= g < |refs| ensures |Mappings(v'.mem, dirs, g)| == |Mappings(v.mem, dirs, g)| {
      MappingsOne(v.mem, v'.mem, dirs, d, q, g);
    }
    forall d', q' | d' in dirs && UserPath(q') && Trans(v'.mem, d', q').Some? ensures LeafOk(v', Trans(v'.mem, d', q').value, |refs|) {
      assert LeafOk(v, Trans(v.mem, d', q').value, |refs|);
    }
    forall d', q' | d' in dirs && UserPath(q') && Maps(v.mem, d', q', e.frame) ensures d' == d && q' == q {
      if (d', q') != (d, q) {
        TwoMappings(v.mem, dirs, d, q, d', q', e.frame);
        assert false;
      }
    }
    UnshareExclusive(v.mem, v'.mem, dirs, d, q, e);
  }

  lemma UnshareExclusive(m: Mem, m': Mem, dirs: set<nat>, d: nat, q: Path, e: Entry)
    requires Exclusive(m, dirs) && d in dirs && UserPath(q) && OthersSame(m, m', dirs, d, q)
    requires Trans(m, d, q) == Some(e) && Trans(m', d, q) == Some(e.(cow := false, writable := true))
    requires forall d', q' :: d' in dirs && UserPath(q') && Maps(m, d', q', e.frame) ==> d' == d && q' == q
    ensures Exclusive(m', dirs)
  {
    forall a, p, a', p' | a in dirs && UserPath(p) && a' in dirs && UserPath(p') && WritesTo(Trans(m', a, p), Trans(m', a', p'))
      ensures a == a' && p == p'
    {
      assert Maps(m, d, q, e.frame);
      assert Maps(m, a, p, e.frame) <==> (a, p) == (d, q);
      assert Maps(m, a', p', e.frame) <==> (a', p') == (d, q);
      if (a, p) != (d, q) && (a', p') != (d, q) {
        assert WritesTo(Trans(m, a, p), Trans(m, a', p'));
      }
    }
  }

  /** Everything a clone promises, from one state to the next. */
  ghost predicate CloneDone(v0: View, refs0: seq<nat>, v: View, refs: seq<nat>, dirs: set<nat>, src: nat, child: nat)
  {
    && child !in dirs
    && CloneView(v0.mem, v.mem, dirs, src, child)
    && (forall d, q :: d in dirs && UserPath(q) ==> Content(v.mem, d, q) == Content(v0.mem, d, q))
    && (forall q :: UserPath(q) ==> Content(v.mem, child, q) == Content(v0.mem, src, q))
    && (forall q :: IsPath(q) && Shared(q) ==> Trans(v.mem, child, q) == Trans(v.mem, src, q) == Trans(v0.mem, src, q))
    && (Sound(v, dirs + {child}, refs) <==> RoomToClone(v0.mem, src, refs0))
    && (RoomToClone(v0.mem, src, refs0) && Exact(v0.mem, dirs, refs0) ==> Exact(v.mem, dirs + {child}, refs))
  }

  lemma CloneAll(v0: View, refs0: seq<nat>, va: View, v: View, refs: seq<nat>, dirs: set<nat>, src: nat, child: nat)
    requires ClonedFrom(v0, refs0, va, v, refs, dirs, src, child)
    requires forall f :: 0 <= f < |refs0| ==> refs0[f] < 256
    ensures CloneDone(v0, refs0, v, refs, dirs, src, child)
  {
    CloneFacts(v0, refs0, va, v, refs, dirs, src, child);
    CloneSound(v0, refs0, v, refs, dirs, src, child);
    forall q | IsPath(q) && Shared(q) ensures Trans(v.mem, child, q) == Trans(v.mem, src, q) == Trans(v0.mem, src, q) {
      CloneKernel(v0, refs0, va, v, refs, dirs, src, child, q);
    }
    CloneContents(v0, v, |refs0|, dirs, src, child);
  }

  lemma CloneContents(v0: View, v: View, total: nat, dirs: set<nat>, src: nat, child: nat)
    requires LeavesOk(v0, dirs, total) && src in dirs && child !in dirs && Grows(v0, v) && CloneView(v0.mem, v.mem, dirs, src, child)
    ensures forall d, q :: d in dirs && UserPath(q) ==> Content(v.mem, d, q) == Content(v0.mem, d, q)
    ensures forall q :: UserPath(q) ==> Content(v.mem, child, q) == Content(v0.mem, src, q)
  {
    forall d, q | d in dirs && UserPath(q) ensures Content(v.mem, d, q) == Content(v0.mem, d, q) {
      assert d in dirs + {child};
      SameContent(v0, v, dirs, total, d, d, q);
    }
    forall q | UserPath(q) ensures Content(v.mem, child, q) == Content(v0.mem, src, q) {
      assert child in dirs + {child};
      SameContent(v0, v, dirs, total, src, child, q);
    }
  }

  /** Writing a frame that is not a table changes no translation. */
  lemma DataWriteTrans(v: View, refs: seq<nat>, f: nat, p: Page, d: nat, q: Path)
    requires CoreView(v, refs) && f !in v.own && d in v.own && v.own[d] == Label(d, []) && IsPath(q)
    ensures Trans(v.mem[f := p], d, q) == Trans(v.mem, d, q)
  {
    var m' := v.mem[f := p];
    assert SameUnder(v.mem, m', v.own, d, []) by {
      forall s | s in v.own ensures s in v.mem && s in m' && m'[s] == v.mem[s] {
        assert TableOk(v.mem, v.own, s);
      }
    }
    TransFrame(v.mem, m', v.own, d, q);
  }

  lemma DataWriteLeaf(v: View, refs: seq<nat>, f: nat, p: Page, d: nat, q: Path)
    requires CoreView(v, refs) && f !in v.own && d in v.own && v.own[d] == Label(d, []) && IsPath(q)
    ensures LeafTable(v.mem[f := p], d, q) == LeafTable(v.mem, d, q)
  {
    var m, m' := v.mem, v.mem[f := p];
    LeafIsFrom(m, d, q);
    LeafIsFrom(m', d, q);
    assert TableOk(m, v.own, d);
    if m[d].entries[q[0]].present {
      var pdpt := m[d].entries[q[0]].frame;
      assert ChildOk(m, v.own, d, q[0]) && TableOk(m, v.own, pdpt);
      if m[pdpt].entries[q[1]].present {
        var pd := m[pdpt].entries[q[1]].frame;
        assert ChildOk(m, v.own, pdpt, q[1]) && TableOk(m, v.own, pd);
        if m[pd].entries[q[2]].present {
          assert ChildOk(m, v.own, pd, q[2]) && TableOk(m, v.own, m[pd].entries[q[2]].frame);
        }
      }
    }
  }

  /** The steps of mapping page q of d to the fresh frame f: it is marked and
      filled (v1), mapped (v2), and counted (refs). */
  ghost predicate FreshMapped(v0: View, refs0: seq<nat>, v1: View, v2: View, refs: seq<nat>, dirs: set<nat>, d: nat, q: Path, f: nat, p: Page)
  {
    && Sound(v0, dirs, refs0) && d in dirs && UserPath(q)
    && f !in v0.used && f < |refs0| && p.Data? && |p.bytes| == PAGE_SIZE
    && v0.used + {f} <= v1.used && v1.own == v0.own && v1.mem == v0.mem[f := p]
    && CoreView(v2, refs0) && Grows(v1, v2)
    && Trans(v2.mem, d, q) == Some(Entry(true, true, true, false, f))
    && OnlyPage(v1.mem, v2.mem, v1.own, d, q)
    && refs == refs0[f := (refs0[f] + 1) % 256]
  }

  lemma FreshMappedMoved(v0: View, refs0: seq<nat>, v1: View, v2: View, refs: seq<nat>, dirs: set<nat>, d: nat, q: Path, f: nat, p: Page)
    requires FreshMapped(v0, refs0, v1, v2, refs, dirs, d, q, f, p)
    ensures MovedToFresh(v0, v2, dirs, refs0, refs, d, q, f) && Grows(v0, v2) && CoreView(v2, refs)
    ensures f in v2.mem && v2.mem[f] == p
    ensures forall t :: t in v2.own && t < |refs| ==> refs[t] == 0
  {
    hide Exclusive, Counted, LeavesOk, Forest, Trans;
    assert Grows(v0, v1);
    GrowsChain(v0, v1, v2);
    forall d', q' | d' in dirs && UserPath(q') && (d' != d || q' != q) ensures Trans(v2.mem, d', q') == Trans(v0.mem, d', q') {
      assert !MaySee(d, q, d', q');
      DataWriteTrans(v0, refs0, f, p, d', q');
    }
    assert refs0[f] == 0;
  }

  lemma FreshMappedDone(v0: View, refs0: seq<nat>, v1: View, v2: View, refs: seq<nat>, dirs: set<nat>, d: nat, q: Path, f: nat, p: Page)
    requires FreshMapped(v0, refs0, v1, v2, refs, dirs, d, q, f, p)
    ensures Sound(v2, dirs, refs)
    ensures Content(v2.mem, d, q) == Some(p.bytes) && OthersRead(v0.mem, v2.mem, dirs, d, q) && OthersSame(v0.mem, v2.mem, dirs, d, q)
    ensures Exact(v0.mem, dirs, refs0) ==> (Exact(v2.mem, dirs, refs) <==> Trans(v0.mem, d, q) == None)
  {
    hide Exclusive, Counted, Forest, Grows, Mappings, OnlyPage, OthersRead, Trans, Exact;
    FreshMappedMoved(v0, refs0, v1, v2, refs, dirs, d, q, f, p);
    FreshSound(v0, v2, dirs, refs0, refs, d, q, f);
    MovedRead(v0, v2, dirs, |refs0|, d, q);
    if Exact(v0.mem, dirs, refs0) {
      FreshExact(v0, v2, dirs, refs0, refs, d, q, f);
      FreshUnmapped(v0, dirs, refs0, f);
      if Trans(v0.mem, d, q).Some? {
        var g := Trans(v0.mem, d, q).value.frame;
        assert LeafOk(v0, Trans(v0.mem, d, q).value, |refs0|);
        assert Maps(v0.mem, d, q, g) && g != f;
      }
    }
  }

  /** New tables on the way to a page change nothing that anybody reads. */
  lemma TablesSound(v: View, v': View, dirs: set<nat>, refs: seq<nat>)
    requires Sound(v, dirs, refs) && CoreView(v', refs) && Grows(v, v') && SameTrans(v, v')
    ensures Sound(v', dirs, refs) && (Exact(v.mem, dirs, refs) ==> Exact(v'.mem, dirs, refs))
    ensures forall d, q :: d in dirs && UserPath(q) ==> Trans(v'.mem, d, q) == Trans(v.mem, d, q) && Content(v'.mem, d, q) == Content(v.mem, d, q)
  {
    hide Trans, Content;
    forall d, q | d in dirs && UserPath(q)
      ensures Trans(v'.mem, d, q) == Trans(v.mem, d, q) && Content(v'.mem, d, q) == Content(v.mem, d, q)
    {
      assert v.own[d] == Label(d, []);
      SameContent(v, v', dirs, |refs|, d, d, q);
    }
    forall d, q | d in dirs && UserPath(q) && Trans(v'.mem, d, q).Some?
      ensures LeafOk(v', Trans(v'.mem, d, q).value, |refs|)
    {
      assert LeafOk(v, Trans(v.mem, d, q).value, |refs|);
    }
    forall f: nat
      ensures Mappings(v'.mem, dirs, f) == Mappings(v.mem, dirs, f)
    {
      forall x: (nat, Path) ensures x in Mappings(v'.mem, dirs, f) <==> x in Mappings(v.mem, dirs, f) {
        InMappings(v'.mem, dirs, x.0, x.1, f);
        InMappings(v.mem, dirs, x.0, x.1, f);
      }
    }
  }

  /** Every page but (d, q) reads alike. */
  ghost predicate OthersRead(m: Mem, m': Mem, dirs: set<nat>, d: nat, q: Path)
  {
    forall d', q' :: d' in dirs && UserPath(q') && (d' != d || q' != q) ==> Content(m', d', q') == Content(m, d', q')
  }

  lemma MovedRead(v: View, v': View, dirs: set<nat>, total: nat, d: nat, q: Path)
    requires LeavesOk(v, dirs, total) && Grows(v, v') && OthersSame(v.mem, v'.mem, dirs, d, q)
    ensures OthersRead(v.mem, v'.mem, dirs, d, q)
  {
    forall d', q' | d' in dirs && UserPath(q') && (d' != d || q' != q) ensures Content(v'.mem, d', q') == Content(v.mem, d', q') {
      SameContent(v, v', dirs, total, d', d', q');
    }
  }

  // ----- No directory maps a frame twice

  ghost predicate Shares(a: Option<Entry>, b: Option<Entry>)
  {
    a.Some? && b.Some? && a.value.frame == b.value.frame
  }

  /** No directory has two pages on one frame. */
  ghost predicate Once(m: Mem, dirs: set<nat>)
  {
    forall d, q, q' :: d in dirs && UserPath(q) && UserPath(q') && Shares(Trans(m, d, q), Trans(m, d, q')) ==> q == q'
  }

  /** A page that moves to a frame nobody mapped, or stays on its own. */
  lemma OnceMoved(m: Mem, m': Mem, dirs: set<nat>, d: nat, q: Path, f: nat)
    requires Once(m, dirs) && d in dirs && UserPath(q) && OthersSame(m, m', dirs, d, q) && Trans(m', d, q).Some? && Trans(m', d, q).value.frame == f
    requires Maps(m, d, q, f) || forall p :: UserPath(p) ==> !Maps(m, d, p, f)
    ensures Once(m', dirs)
  {
    hide Trans;
    forall e, p, p' | e in dirs && UserPath(p) && UserPath(p') && p != p'
      ensures !Shares(Trans(m', e, p), Trans(m', e, p'))
    {
      assert !Shares(Trans(m, e, p), Trans(m, e, p'));
      if e == d && (p == q || p' == q) {
        var o := if p == q then p' else p;
        assert !Maps(m, d, o, f) by {
          assert !Shares(Trans(m, d, q), Trans(m, d, o));
        }
      }
    }
  }

  lemma OnceFresh(v: View, refs: seq<nat>, m': Mem, dirs: set<nat>, d: nat, q: Path)
    requires Sound(v, dirs, refs) && Once(v.mem, dirs) && d in dirs && UserPath(q) && OthersSame(v.mem, m', dirs, d, q)
    requires Trans(m', d, q).Some? && Trans(m', d, q).value.frame !in v.used
    ensures Once(m', dirs)
  {
    var f := Trans(m', d, q).value.frame;
    FreshUnmapped(v, dirs, refs, f);
    OnceMoved(v.mem, m', dirs, d, q, f);
  }

  lemma OnceSame(m: Mem, m': Mem, dirs: set<nat>)
    requires Once(m, dirs) && forall d, q :: d in dirs && IsPath(q) ==> Trans(m', d, q) == Trans(m, d, q)
    ensures Once(m', dirs)
  {
    hide Trans;
  }

  lemma OnceCloned(m: Mem, m': Mem, dirs: set<nat>, src: nat, child: nat)
    requires Once(m, dirs) && src in dirs && child !in dirs && CloneView(m, m', dirs, src, child)
    ensures Once(m', dirs + {child})
  {
    hide Trans;
    forall d, p, p' | d in dirs + {child} && UserPath(p) && UserPath(p') && Shares(Trans(m', d, p), Trans(m', d, p'))
      ensures p == p'
    {
      var e := if d == child then src else d;
      assert Shares(Trans(m, e, p), Trans(m, e, p'));
    }
  }

  // ----- The copy-on-write fault and the write behind it

  /** The fault gives page q of d a private copy in the free frame f. */
  ghost predicate CopiedTo(v: View, refs: seq<nat>, v': View, refs': seq<nat>, dirs: set<nat>, d: nat, q: Path, pt: nat, e: Entry, f: nat)
  {
    && Sound(v, dirs, refs) && d in dirs && UserPath(q)
    && LeafTable(v.mem, d, q) == Some(pt) && v.mem[pt].entries[q[3]] == e && e.present && e.user
    && f !in v.used && f < |refs| && e.frame in v.mem && e.frame < |refs| && refs[e.frame] > 1
    && v'.own == v.own && v.used + {f} <= v'.used
    && v'.mem == SetEntry(v.mem, pt, q[3], Entry(true, true, true, false, f))[f := v.mem[e.frame]]
    && refs' == refs[e.frame := refs[e.frame] - 1][f := 1]
  }

  lemma CopyMoved(v: View, refs: seq<nat>, v': View, refs': seq<nat>, dirs: set<nat>, d: nat, q: Path, pt: nat, e: Entry, f: nat)
    requires CopiedTo(v, refs, v', refs', dirs, d, q, pt, e, f)
    ensures MovedToFresh(v, v', dirs, refs, refs', d, q, f) && Grows(v, v') && CoreView(v', refs')
    ensures v'.mem[f] == v.mem[e.frame] && Trans(v.mem, d, q) == Some(e)
  {
    hide Exclusive, Counted, Forest, Trans, LeafTable;
    var e' := Entry(true, true, true, false, f);
    var v1 := v.(mem := SetEntry(v.mem, pt, q[3], e'));
    LeafSet(v, refs, d, q, pt, e');
    FrameFilled(v1, refs, v', f);
    DataWriteTrans(v1, refs, f, v.mem[e.frame], d, q);
    forall d', q' | d' in dirs && UserPath(q') && (d' != d || q' != q) ensures Trans(v'.mem, d', q') == Trans(v.mem, d', q') {
      LeafWriteSeen(v.mem, v.own, d, q, pt, e', d', q');
      DataWriteTrans(v1, refs, f, v.mem[e.frame], d', q');
    }
    assert LeafOk(v, Trans(v.mem, d, q).value, |refs|);
    assert Grows(v, v');
  }

  lemma CopyDone(v: View, refs: seq<nat>, v': View, refs': seq<nat>, dirs: set<nat>, d: nat, q: Path, pt: nat, e: Entry, f: nat)
    requires CopiedTo(v, refs, v', refs', dirs, d, q, pt, e, f)
    ensures Sound(v', dirs, refs') && (Exact(v.mem, dirs, refs) ==> Exact(v'.mem, dirs, refs'))
    ensures forall d', q' :: d' in dirs && UserPath(q') ==> Content(v'.mem, d', q') == Content(v.mem, d', q')
    ensures Trans(v'.mem, d, q) == Some(Entry(true, true, true, false, f)) && (Once(v.mem, dirs) ==> Once(v'.mem, dirs))
  {
    hide Counted, Exclusive, SetEntry, LeafTable, Trans, CoreView, Exact, Once;
    CopyMoved(v, refs, v', refs', dirs, d, q, pt, e, f);
    assert LeafOk(v, e, |refs|);
    forall g | 0 <= g < |refs| ensures One(Maps(v.mem, d, q, g)) == One(g == e.frame) {
    }
    FreshSound(v, v', dirs, refs, refs', d, q, f);
    MovedRead(v, v', dirs, |refs|, d, q);
    if Exact(v.mem, dirs, refs) {
      FreshExact(v, v', dirs, refs, refs', d, q, f);
    }
    if Once(v.mem, dirs) {
      OnceFresh(v, refs, v'.mem, dirs, d, q);
    }
  }

  /** The fault of the last sharer: the page becomes writable in place. */
  lemma UnshareDone(v: View, refs: seq<nat>, v': View, dirs: set<nat>, d: nat, q: Path, pt: nat, e: Entry)
    requires Sound(v, dirs, refs) && d in dirs && UserPath(q)
    requires LeafTable(v.mem, d, q) == Some(pt) && v.mem[pt].entries[q[3]] == e && e.present && e.user
    requires e.frame < |refs| ==> refs[e.frame] <= 1
    requires v' == v.(mem := SetEntry(v.mem, pt, q[3], e.(cow := false, writable := true)))
    ensures Sound(v', dirs, refs) && (Exact(v.mem, dirs, refs) ==> Exact(v'.mem, dirs, refs))
    ensures forall d', q' :: d' in dirs && UserPath(q') ==> Content(v'.mem, d', q') == Content(v.mem, d', q')
    ensures Trans(v'.mem, d, q) == Some(e.(cow := false, writable := true)) && (Once(v.mem, dirs) ==> Once(v'.mem, dirs))
  {
    hide Exclusive, Counted, Exact, CoreView, Grows, Trans, LeafTable, Once;
    LeafSet(v, refs, d, q, pt, e.(cow := false, writable := true));
    forall d', q' | d' in dirs && UserPath(q') && (d' != d || q' != q) ensures Trans(v'.mem, d', q') == Trans(v.mem, d', q') {
      assert !MaySee(d, q, d', q');
    }
    UnshareSound(v, v', dirs, refs, d, q, e);
    if Once(v.mem, dirs) {
      OnceMoved(v.mem, v'.mem, dirs, d, q, e.frame);
    }
    MovedRead(v, v', dirs, |refs|, d, q);
    assert LeafOk(v, e, |refs|);
  }

  /** A store through a user-writable page is seen by that page alone. */
  lemma StoreDone(v: View, refs: seq<nat>, v': View, dirs: set<nat>, d: nat, q: Path, e: Entry, bytes: seq<byte>)
    requires Sound(v, dirs, refs) && d in dirs && UserPath(q)
    requires Trans(v.mem, d, q) == Some(e) && e.user && e.writable && |bytes| == PAGE_SIZE
    requires v' == v.(mem := v.mem[e.frame := Data(bytes)])
    ensures Sound(v', dirs, refs) && (Exact(v.mem, dirs, refs) ==> Exact(v'.mem, dirs, refs))
    ensures Content(v'.mem, d, q) == Some(bytes) && OthersRead(v.mem, v'.mem, dirs, d, q)
    ensures forall d', q' :: d' in dirs && IsPath(q') ==> Trans(v'.mem, d', q') == Trans(v.mem, d', q')
  {
    assert LeafOk(v, e, |refs|);
    forall d', q' | d' in dirs && IsPath(q') ensures Trans(v'.mem, d', q') == Trans(v.mem, d', q') {
      DataWriteTrans(v, refs, e.frame, Data(bytes), d', q');
    }
    StoreCore(v, refs, e.frame, Data(bytes));
    StoreLeaves(v, v', dirs, refs, e.frame);
    forall f | 0 <= f < |refs| ensures Mappings(v'.mem, dirs, f) == Mappings(v.mem, dirs, f) {
      forall x: (nat, Path) ensures x in Mappings(v'.mem, dirs, f) <==> x in Mappings(v.mem, dirs, f) {
        InMappings(v'.mem, dirs, x.0, x.1, f);
        InMappings(v.mem, dirs, x.0, x.1, f);
      }
    }
    forall d', q' | d' in dirs && UserPath(q') && (d' != d || q' != q) ensures Content(v'.mem, d', q') == Content(v.mem, d', q') {
      if Trans(v.mem, d', q').Some? {
        assert !WritesTo(Trans(v.mem, d, q), Trans(v.mem, d', q'));
      }
    }
  }

  lemma StoreCore(v: View, refs: seq<nat>, f: nat, p: Page)
    requires CoreView(v, refs) && f !in v.own
    ensures CoreView(v.(mem := v.mem[f := p]), refs)
  {
    var m' := v.mem[f := p];
    forall s | s in v.own ensures TableOk(m', v.own, s) {
      assert TableOk(v.mem, v.own, s);
      if |v.own[s].path| < 3 {
        forall j | 0 <= j < 512 && m'[s].entries[j].present ensures ChildOk(m', v.own, s, j) {
          assert ChildOk(v.mem, v.own, s, j);
        }
      }
    }
  }

  lemma StoreLeaves(v: View, v': View, dirs: set<nat>, refs: seq<nat>, f: nat)
    requires LeavesOk(v, dirs, |refs|) && Exclusive(v.mem, dirs) && v'.own == v.own && v'.used == v.used
    requires f in v'.mem && IsData(v'.mem, f) && v'.mem == v.mem[f := v'.mem[f]]
    requires forall d', q' :: d' in dirs && IsPath(q') ==> Trans(v'.mem, d', q') == Trans(v.mem, d', q')
    ensures LeavesOk(v', dirs, |refs|) && Exclusive(v'.mem, dirs)
  {
    forall d, q | d in dirs && UserPath(q) && Trans(v'.mem, d, q).Some? ensures LeafOk(v', Trans(v'.mem, d, q).value, |refs|) {
      assert LeafOk(v, Trans(v.mem, d, q).value, |refs|);
    }
  }

  // ----- Freeing a directory

  /** Exactly the frames whose count has gone to zero are no longer used. */
  ghost predicate Released(used: set<nat>, refs: seq<nat>, used': set<nat>, refs': seq<nat>)
  {
    && |refs'| == |refs| && (forall f :: 0 <= f < |refs| ==> refs'[f] <= refs[f])
    && forall f: nat :: f in used' <==> f in used && !(f < |refs| && refs[f] > 0 && refs'[f] == 0)
  }

  lemma ReleasedChain(u0: set<nat>, r0: seq<nat>, u1: set<nat>, r1: seq<nat>, u2: set<nat>, r2: seq<nat>)
    requires Released(u0, r0, u1, r1) && Released(u1, r1, u2, r2)
    ensures Released(u0, r0, u2, r2)
  {
  }

  /** The counts after the first n entries of a table have been freed. */
  ghost predicate Subtracted(m: Mem, t: nat, path: Path, n: nat, refs: seq<nat>, refs': seq<nat>)
    requires |path| <= 3 && n <= 512
  {
    |refs'| == |refs| && forall f :: 0 <= f < |refs| ==> refs'[f] == refs[f] - Count(m, t, path, n, f)
  }

  /** The counts cover the private leaves below t, and no leaf is a table. */
  ghost predicate Covered(m: Mem, own: Owners, t: nat, path: Path, refs: seq<nat>)
    requires |path| <= 3
  {
    && (forall f :: 0 <= f < |refs| ==> Count(m, t, path, 512, f) <= refs[f])
    && (forall s :: s in own ==> Count(m, t, path, 512, s) == 0)
    && (forall s :: s in own && s < |refs| ==> refs[s] == 0)
  }

  lemma {:induction false} CountGrows(m: Mem, t: nat, path: Path, i: nat, n: nat, f: nat)
    requires |path| <= 3 && i <= n <= 512
    ensures Count(m, t, path, i, f) <= Count(m, t, path, n, f)
    decreases n
  {
    if i < n {
      CountGrows(m, t, path, i, n - 1, f);
    }
  }

  /** Entry i is free of private leaves. */
  lemma FreeNothing(m: Mem, t: nat, path: Path, i: nat, refs: seq<nat>, refs': seq<nat>)
    requires |path| <= 3 && i < 512 && IsTable(m, t) && Subtracted(m, t, path, i, refs, refs')
    requires !m[t].entries[i].present || SharedChild(path, i)
    ensures Subtracted(m, t, path, i + 1, refs, refs')
  {
    forall f | 0 <= f < |refs| ensures refs'[f] == refs[f] - Count(m, t, path, i + 1, f) {
      assert CountEntry(m, t, path, i, f) == 0;
    }
  }

  /** A leaf's frame loses one reference, which it has. */
  lemma FreeLeaf(m: Mem, own: Owners, t: nat, path: Path, i: nat, refs: seq<nat>, refs': seq<nat>)
    requires |path| == 3 && i < 512 && IsTable(m, t) && m[t].entries[i].present
    requires Covered(m, own, t, path, refs) && Subtracted(m, t, path, i, refs, refs')
    ensures var g := m[t].entries[i].frame;
      && (g < |refs| ==> refs'[g] > 0)
      && Subtracted(m, t, path, i + 1, refs, if g < |refs| then refs'[g := refs'[g] - 1] else refs')
  {
    var g := m[t].entries[i].frame;
    forall f | 0 <= f < |refs|
      ensures Count(m, t, path, i + 1, f) == Count(m, t, path, i, f) + One(f == g) <= Count(m, t, path, 512, f)
    {
      assert CountEntry(m, t, path, i, f) == One(f == g);
      CountGrows(m, t, path, i + 1, 512, f);
    }
  }

  /** The child of entry i is covered before it is freed, and freeing it frees
      the entry. */
  lemma FreeChild(m: Mem, own: Owners, t: nat, path: Path, i: nat, refs: seq<nat>, refs': seq<nat>)
    requires |path| < 3 && i < 512 && IsTable(m, t) && m[t].entries[i].present && !SharedChild(path, i)
    requires Covered(m, own, t, path, refs) && Subtracted(m, t, path, i, refs, refs')
    ensures Covered(m, own, m[t].entries[i].frame, path + [i], refs')
    ensures forall refs'' :: Subtracted(m, m[t].entries[i].frame, path + [i], 512, refs', refs'') ==> Subtracted(m, t, path, i + 1, refs, refs'')
  {
    var c := m[t].entries[i].frame;
    forall f: nat
      ensures Count(m, t, path, i + 1, f) == Count(m, t, path, i, f) + Count(m, c, path + [i], 512, f) <= Count(m, t, path, 512, f)
    {
      assert CountEntry(m, t, path, i, f) == Count(m, c, path + [i], 512, f);
      CountGrows(m, t, path, i + 1, 512, f);
    }
    forall s | s in own ensures Count(m, c, path + [i], 512, s) == 0 {
      assert Count(m, t, path, i + 1, s) <= Count(m, t, path, 512, s);
    }
  }

  /** The whole directory is covered by the invariant. */
  lemma DirectoryCovered(v: View, refs: seq<nat>, dirs: set<nat>, d: nat)
    requires Sound(v, dirs, refs) && d in dirs
    ensures Covered(v.mem, v.own, d, [], refs)
    ensures forall f: nat :: Count(v.mem, d, [], 512, f) == |PagesOf(v.mem, d, f)|
  {
    forall f: nat ensures Count(v.mem, d, [], 512, f) == |PagesOf(v.mem, d, f)| {
      CountIsCard(v.mem, d, [], 512, f);
    }
    forall f | 0 <= f < |refs| ensures Count(v.mem, d, [], 512, f) <= refs[f] {
      MappingsDrop(v.mem, dirs, d, f);
    }
    forall s | s in v.own ensures Count(v.mem, d, [], 512, s) == 0 {
      TablesUnnamed(v, dirs, refs, d, s);
    }
  }

  /** What freeing directory d leaves: its labels are gone, and every frame's
      count has lost the directory's pages; frames that reach zero are free. */
  ghost predicate FreedFrom(v: View, refs: seq<nat>, v': View, refs': seq<nat>, dirs: set<nat>, d: nat)
  {
    && Sound(v, dirs, refs) && d in dirs && |refs'| == |refs| && v'.mem == v.mem
    && v'.own == (map t | t in v.own && v.own[t].dir != d :: v.own[t])
    && (forall f :: 0 <= f < |refs| ==> refs'[f] == refs[f] - |PagesOf(v.mem, d, f)|)
    && Released(v.used, refs, v'.used, refs')
  }

  lemma FreeDone(v: View, refs: seq<nat>, v': View, refs': seq<nat>, dirs: set<nat>, d: nat)
    requires FreedFrom(v, refs, v', refs', dirs, d)
    ensures Sound(v', dirs - {d}, refs')
    ensures Exact(v.mem, dirs, refs) ==> Exact(v'.mem, dirs - {d}, refs')
  {
    FreeCore(v, refs, v', refs', dirs, d);
    forall f | 0 <= f < |refs| ensures |Mappings(v.mem, dirs - {d}, f)| + |PagesOf(v.mem, d, f)| == |Mappings(v.mem, dirs, f)| {
      MappingsDrop(v.mem, dirs, d, f);
    }
    forall d', q | d' in dirs - {d} && UserPath(q) && Trans(v'.mem, d', q).Some? ensures LeafOk(v', Trans(v'.mem, d', q).value, |refs'|) {
      var e := Trans(v.mem, d', q).value;
      assert LeafOk(v, e, |refs|);
      OneMapping(v.mem, dirs - {d}, d', q, e.frame);
    }
    forall t | t in v'.own && t < |refs'| ensures refs'[t] == 0 {
      TablesUnnamed(v, dirs, refs, d, t);
    }
    FewerExclusive(v.mem, dirs, d);
  }

  lemma FewerExclusive(m: Mem, dirs: set<nat>, d: nat)
    requires Exclusive(m, dirs)
    ensures Exclusive(m, dirs - {d})
  {
  }

  lemma FreeCore(v: View, refs: seq<nat>, v': View, refs': seq<nat>, dirs: set<nat>, d: nat)
    requires FreedFrom(v, refs, v', refs', dirs, d)
    ensures CoreView(v', refs')
    ensures forall d' :: d' in dirs - {d} ==> d' in v'.own && v'.own[d'] == Label(d', [])
  {
    forall t | t in v'.own ensures TableOk(v'.mem, v'.own, t) {
      assert TableOk(v.mem, v.own, t);
      if |v.own[t].path| < 3 {
        forall i | 0 <= i < 512 && v'.mem[t].entries[i].present ensures ChildOk(v'.mem, v'.own, t, i) {
          assert ChildOk(v.mem, v.own, t, i);
        }
      }
    }
    forall t | t in v'.own && v'.own[t].dir != KERNEL ensures RootLabel(v'.own, v'.own[t].dir) {
      assert RootLabel(v.own, v.own[t].dir);
    }
  }

  /** The frame of a mapped user page has a count and holds data. */
  lemma FrameCounted(v: View, refs: seq<nat>, dirs: set<nat>, d: nat, q: Path)
    requires Sound(v, dirs, refs) && d in dirs && UserPath(q) && Trans(v.mem, d, q).Some?
    ensures LeafTable(v.mem, d, q).Some?
    ensures var pt := LeafTable(v.mem, d, q).value; var e := v.mem[pt].entries[q[3]];
            && Trans(v.mem, d, q) == Some(e) && e.present && e.frame < |refs| && IsData(v.mem, e.frame)
            && e.frame in v.used && e.frame !in v.own && pt in v.own
  {
    assert LeafOk(v, Trans(v.mem, d, q).value, |refs|);
    RootLeafLabel(v.mem, v.own, d, q);
  }

  lemma MoreUsed(v: View, dirs: set<nat>, refs: seq<nat>, used: set<nat>)
    requires Sound(v, dirs, refs) && v.used <= used
    ensures Sound(v.(used := used), dirs, refs)
  {
    var v' := v.(used := used);
    forall d, q | d in dirs && UserPath(q) && Trans(v.mem, d, q).Some? ensures LeafOk(v', Trans(v.mem, d, q).value, |refs|) {
      assert LeafOk(v, Trans(v.mem, d, q).value, |refs|);
    }
  }
}
