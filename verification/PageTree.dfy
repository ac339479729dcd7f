/** The 4-level page-table tree of kernel/arch/x86_64/mmu/mmu.c as a value:
    physical memory holds page tables and data pages, and a directory is the
    frame number of its PML4. A page of an address space is named by its path,
    the four table indices of its virtual address. */
module PageTree {
  import Bytes

  datatype Option<+T> = None | Some(value: T)

  type byte = Bytes.byte

  /** A paging entry: the present, writable, user and copy-on-write bits and
      the frame number of its physical address. */
  datatype Entry = Entry(present: bool, writable: bool, user: bool, cow: bool, frame: nat)

  const ZERO_ENTRY := Entry(false, false, false, false, 0)

  datatype Page = Table(entries: seq<Entry>) | Data(bytes: seq<byte>)

  type Mem = map<nat, Page>
  type Path = seq<nat>

  predicate IsTable(m: Mem, t: nat)
  {
    t in m && m[t].Table? && |m[t].entries| == 512
  }

  predicate Indices(r: Path)
  {
    forall k :: 0 <= k < |r| ==> r[k] < 512
  }

  predicate IsPath(q: Path)
  {
    |q| == 4 && Indices(q)
  }

  /** Kernel mappings are shared by every directory: the high half (PML4
      entries from 256) and the first 128 MB (the first 64 tables of the first
      page directory). */
  predicate SharedChild(path: Path, i: nat)
  {
    (path == [] && i >= 256) || (path == [0, 0] && i < 64)
  }

  predicate Shared(path: Path)
  {
    (|path| >= 1 && path[0] >= 256) || (|path| >= 3 && path[0] == 0 && path[1] == 0 && path[2] < 64)
  }

  /** The paths that belong to a process: below the high half, above 128 MB. */
  predicate UserPath(q: Path)
  {
    IsPath(q) && !Shared(q)
  }

  /** What the hardware finds for the indices r below table t: the leaf entry,
      or nothing when some entry on the way is not present. */
  function Trans(m: Mem, t: nat, r: Path): (e: Option<Entry>)
    requires Indices(r) && |r| >= 1
    decreases |r|
  {
    if !IsTable(m, t) then None
    else
      var e := m[t].entries[r[0]];
      if !e.present then None
      else if |r| == 1 then Some(e)
      else Trans(m, e.frame, r[1..])
  }

  /** The table that holds the last entry of the walk along r from t. */
  function LeafTable(m: Mem, t: nat, r: Path): (l: Option<nat>)
    requires Indices(r) && |r| >= 1
    ensures l.Some? ==> IsTable(m, l.value)
    ensures l.None? ==> Trans(m, t, r) == None
    ensures l.Some? ==> var e := m[l.value].entries[r[|r| - 1]];
                        Trans(m, t, r) == if e.present then Some(e) else None
    decreases |r|
  {
    if !IsTable(m, t) then None
    else if |r| == 1 then Some(t)
    else
      var e := m[t].entries[r[0]];
      if !e.present then None else LeafTable(m, e.frame, r[1..])
  }

  // ----- Ownership labels: no table frame sits at two places of the forest

  /** The directory whose private part of the tree holds a table. */
  const KERNEL: int := -1

  /** Where a table frame sits: the directory it belongs to, or KERNEL for a
      shared table, and the indices that lead to it. */
  datatype Label = Label(dir: int, path: Path)

  function ChildLabel(l: Label, i: nat): Label
  {
    Label(if SharedChild(l.path, i) then KERNEL else l.dir, l.path + [i])
  }

  type Owners = map<nat, Label>

  /** Every labelled frame is a table, and every present entry of an inner
      table leads to a frame labelled with exactly that position. A frame has
      one label, so two different positions never share a table. */
  ghost predicate Forest(m: Mem, own: Owners)
  {
    forall t :: t in own ==> TableOk(m, own, t)
  }

  ghost predicate TableOk(m: Mem, own: Owners, t: nat)
    requires t in own
  {
    && IsTable(m, t)
    && |own[t].path| <= 3
    && Indices(own[t].path)
    && (own[t].dir != KERNEL ==> !Shared(own[t].path))
    && (|own[t].path| < 3 ==> forall i :: 0 <= i < 512 && m[t].entries[i].present ==> ChildOk(m, own, t, i))
  }

  ghost predicate ChildOk(m: Mem, own: Owners, t: nat, i: nat)
    requires t in own && IsTable(m, t) && i < 512
  {
    m[t].entries[i].frame in own && own[m[t].entries[i].frame] == ChildLabel(own[t], i)
  }

  /** Table s lies at or below position path in directory dir, or is a shared
      table there. */
  ghost predicate Under(own: Owners, s: nat, dir: int, path: Path)
    requires s in own
  {
    (own[s].dir == dir || own[s].dir == KERNEL) && path <= own[s].path
  }

  /** The tables below a position are the same in both memories. */
  ghost predicate SameUnder(m: Mem, m': Mem, own: Owners, dir: int, path: Path)
  {
    forall s :: s in own && Under(own, s, dir, path) ==> s in m && s in m' && m'[s] == m[s]
  }

  lemma SameUnderChild(m: Mem, m': Mem, own: Owners, t: nat, i: nat)
    requires Forest(m, own) && t in own && |own[t].path| < 3 && i < 512
    requires SameUnder(m, m', own, own[t].dir, own[t].path)
    requires m[t].entries[i].present
    ensures ChildOk(m, own, t, i)
    ensures SameUnder(m, m', own, own[m[t].entries[i].frame].dir, own[m[t].entries[i].frame].path)
  {
    assert TableOk(m, own, t);
    var c := m[t].entries[i].frame;
    assert ChildOk(m, own, t, i);
    forall s | s in own && Under(own, s, own[c].dir, own[c].path) ensures s in m && s in m' && m'[s] == m[s] {
      assert own[t].path <= own[c].path <= own[s].path;
      assert Under(own, s, own[t].dir, own[t].path);
    }
  }

  /** A walk only sees the tables below its start. */
  lemma {:induction false} TransFrame(m: Mem, m': Mem, own: Owners, t: nat, r: Path)
    requires Forest(m, own) && t in own
    requires Indices(r) && |r| >= 1 && |own[t].path| + |r| == 4
    requires SameUnder(m, m', own, own[t].dir, own[t].path)
    ensures Trans(m', t, r) == Trans(m, t, r)
    decreases |r|
  {
    assert TableOk(m, own, t);
    assert Under(own, t, own[t].dir, own[t].path);
    if m[t].entries[r[0]].present && |r| > 1 {
      SameUnderChild(m, m', own, t, r[0]);
      TransFrame(m, m', own, m[t].entries[r[0]].frame, r[1..]);
    }
  }

  /** The leaf table reached along r from t is labelled with that position. */
  lemma {:induction false} LeafTableLabel(m: Mem, own: Owners, t: nat, r: Path)
    requires Forest(m, own) && t in own
    requires Indices(r) && |r| >= 1 && |own[t].path| + |r| == 4
    requires LeafTable(m, t, r).Some?
    ensures var l := LeafTable(m, t, r).value;
            && l in own && own[l].path == own[t].path + r[..|r| - 1]
            && (own[l].dir == own[t].dir || own[l].dir == KERNEL)
            && (own[t].dir != KERNEL ==> (own[l].dir == KERNEL <==> Shared(own[t].path + r)))
    decreases |r|
  {
    assert TableOk(m, own, t);
    var l := LeafTable(m, t, r).value;
    if |r| == 1 {
      assert own[t].path + r[..0] == own[t].path;
      assert Shared(own[t].path + r) <==> Shared(own[t].path);
    } else {
      var c := m[t].entries[r[0]].frame;
      assert ChildOk(m, own, t, r[0]);
      LeafTableLabel(m, own, c, r[1..]);
      assert own[t].path + [r[0]] + r[1..] == own[t].path + r;
      assert own[t].path + [r[0]] + r[1..][..|r| - 2] == own[t].path + r[..|r| - 1];
      if own[t].dir != KERNEL && own[c].dir == KERNEL {
        KernelBelow(m, own, c, r[1..]);
        SharedBelow(own[t].path + [r[0]], r[1..]);
      }
    }
  }

  /** Below a shared table everything is shared. */
  lemma {:induction false} KernelBelow(m: Mem, own: Owners, t: nat, r: Path)
    requires Forest(m, own) && t in own && own[t].dir == KERNEL
    requires Indices(r) && |r| >= 1 && |own[t].path| + |r| == 4
    requires LeafTable(m, t, r).Some?
    ensures LeafTable(m, t, r).value in own && own[LeafTable(m, t, r).value].dir == KERNEL
    decreases |r|
  {
    assert TableOk(m, own, t);
    if |r| > 1 {
      assert ChildOk(m, own, t, r[0]);
      KernelBelow(m, own, m[t].entries[r[0]].frame, r[1..]);
    }
  }

  lemma SharedBelow(path: Path, r: Path)
    requires Shared(path)
    ensures Shared(path + r)
  {
    assert |path| >= 1 ==> (path + r)[0] == path[0];
    assert |path| >= 3 ==> (path + r)[1] == path[1] && (path + r)[2] == path[2];
  }

  // ----- One changed entry

  function SetEntry(m: Mem, t: nat, i: nat, e: Entry): Mem
    requires IsTable(m, t) && i < 512
  {
    m[t := Table(m[t].entries[i := e])]
  }

  /** Writing a leaf entry changes the walks that end in it and no other. */
  lemma {:induction false} LeafUpdate(m: Mem, own: Owners, l: nat, i: nat, e: Entry, t: nat, r: Path)
    requires Forest(m, own) && l in own && |own[l].path| == 3 && i < 512
    requires t in own && Indices(r) && |r| >= 1 && |own[t].path| + |r| == 4
    ensures IsTable(m, l) && LeafTable(SetEntry(m, l, i, e), t, r) == LeafTable(m, t, r)
    ensures Trans(SetEntry(m, l, i, e), t, r) ==
            if LeafTable(m, t, r) == Some(l) && r[|r| - 1] == i then (if e.present then Some(e) else None)
            else Trans(m, t, r)
    decreases |r|
  {
    assert TableOk(m, own, l) && TableOk(m, own, t);
    if |r| > 1 && m[t].entries[r[0]].present {
      assert ChildOk(m, own, t, r[0]);
      LeafUpdate(m, own, l, i, e, m[t].entries[r[0]].frame, r[1..]);
    }
  }

  lemma LeafUpdateForest(m: Mem, own: Owners, l: nat, i: nat, e: Entry)
    requires Forest(m, own) && l in own && |own[l].path| == 3 && i < 512
    ensures IsTable(m, l) && Forest(SetEntry(m, l, i, e), own)
  {
    assert TableOk(m, own, l);
    var m' := SetEntry(m, l, i, e);
    forall t | t in own ensures TableOk(m', own, t) {
      assert TableOk(m, own, t);
      if |own[t].path| < 3 {
        forall j | 0 <= j < 512 && m'[t].entries[j].present ensures ChildOk(m', own, t, j) {
          assert ChildOk(m, own, t, j);
        }
      }
    }
  }

  function EmptyTable(): (p: Page)
    ensures p.Table? && |p.entries| == 512
  {
    Table(seq(512, _ => ZERO_ENTRY))
  }

  /** An entry of an inner table is rewritten: an absent one now leads to the
      fresh empty table f, a present one keeps leading where it did. */
  ghost predicate InnerChange(m: Mem, m': Mem, own: Owners, t: nat, i: nat, f: nat)
  {
    && t in own && IsTable(m, t) && i < 512 && |own[t].path| < 3
    && IsTable(m', t) && m'[t].entries == m[t].entries[i := m'[t].entries[i]]
    && m'[t].entries[i].present && m'[t].entries[i].frame == f
    && if m[t].entries[i].present then
         f == m[t].entries[i].frame && m' == m[t := m'[t]]
       else
         f !in own && m' == m[f := EmptyTable()][t := m'[t]]
  }

  function InnerOwners(m: Mem, own: Owners, t: nat, i: nat, f: nat): Owners
    requires t in own && IsTable(m, t) && i < 512
  {
    if m[t].entries[i].present then own else own[f := ChildLabel(own[t], i)]
  }

  lemma {:induction false} InnerUpdate(m: Mem, m': Mem, own: Owners, t: nat, i: nat, f: nat, x: nat, r: Path)
    requires Forest(m, own) && InnerChange(m, m', own, t, i, f)
    requires x in own && Indices(r) && |r| >= 1 && |own[x].path| + |r| == 4
    ensures Trans(m', x, r) == Trans(m, x, r)
    decreases |r|
  {
    assert TableOk(m, own, t) && TableOk(m, own, x);
    if |r| > 1 && m[x].entries[r[0]].present {
      assert ChildOk(m, own, x, r[0]);
      InnerUpdate(m, m', own, t, i, f, m[x].entries[r[0]].frame, r[1..]);
    }
  }

  lemma InnerUpdateForest(m: Mem, m': Mem, own: Owners, t: nat, i: nat, f: nat)
    requires Forest(m, own) && InnerChange(m, m', own, t, i, f)
    ensures Forest(m', InnerOwners(m, own, t, i, f))
  {
    var own' := InnerOwners(m, own, t, i, f);
    assert TableOk(m, own, t);
    forall s | s in own' ensures TableOk(m', own', s) {
      if s in own {
        assert TableOk(m, own, s);
        if |own[s].path| < 3 {
          forall j | 0 <= j < 512 && m'[s].entries[j].present ensures ChildOk(m', own', s, j) {
            if m[s].entries[j].present {
              assert ChildOk(m, own, s, j);
            }
          }
        }
      } else {
        assert s == f && m'[f] == EmptyTable();
      }
    }
  }

  // ----- Copy-on-write images

  /** What cloning makes of a leaf entry, in the parent and in the child. */
  function Cow(e: Entry): Entry
  {
    if e.user && e.writable then e.(writable := false, cow := true) else e
  }

  function CowOption(o: Option<Entry>): Option<Entry>
  {
    match o
    case None => None
    case Some(e) => Some(Cow(e))
  }

  /** The subtree of t in m' is the copy-on-write image of the subtree of s in
      m: same shape, same frames, user-writable leaves turned copy-on-write,
      kernel entries shared. */
  ghost predicate CowImage(m: Mem, s: nat, m': Mem, t: nat, path: Path)
    requires |path| <= 3
    decreases 3 - |path|, 1
  {
    IsTable(m, s) && IsTable(m', t) && forall i :: 0 <= i < 512 ==> CowEntry(m, s, m', t, path, i)
  }

  ghost predicate CowEntry(m: Mem, s: nat, m': Mem, t: nat, path: Path, i: nat)
    requires |path| <= 3 && IsTable(m, s) && IsTable(m', t) && i < 512
    decreases 3 - |path|, 0
  {
    var a, b := m[s].entries[i], m'[t].entries[i];
    if !a.present then !b.present
    else if SharedChild(path, i) then b == a
    else if |path| == 3 then b == Cow(a)
    else b.present && CowImage(m, a.frame, m', b.frame, path + [i])
  }

  /** Image and original translate every private page alike, up to Cow. */
  lemma {:induction false} CowImageTrans(m: Mem, s: nat, m': Mem, t: nat, path: Path, r: Path)
    requires |path| <= 3 && CowImage(m, s, m', t, path)
    requires Indices(r) && |r| >= 1 && |path| + |r| == 4 && !Shared(path + r)
    ensures Trans(m', t, r) == CowOption(Trans(m, s, r))
    decreases |r|
  {
    assert CowEntry(m, s, m', t, path, r[0]);
    assert (path + r)[|path|] == r[0];
    assert path + [r[0]] + r[1..] == path + r;
    if SharedChild(path, r[0]) {
      assert Shared(path + r);
    } else if m[s].entries[r[0]].present && |r| > 1 {
      CowImageTrans(m, m[s].entries[r[0]].frame, m', m'[t].entries[r[0]].frame, path + [r[0]], r[1..]);
    }
  }

  /** An image stays one while its own tables stay the same. */
  lemma {:induction false} CowImageFrame(m: Mem, s: nat, m1: Mem, m2: Mem, own: Owners, t: nat)
    requires Forest(m1, own) && t in own && |own[t].path| <= 3
    requires SameUnder(m1, m2, own, own[t].dir, own[t].path)
    requires CowImage(m, s, m1, t, own[t].path)
    ensures CowImage(m, s, m2, t, own[t].path)
    decreases 3 - |own[t].path|
  {
    assert TableOk(m1, own, t);
    assert Under(own, t, own[t].dir, own[t].path);
    var path := own[t].path;
    forall i | 0 <= i < 512 ensures CowEntry(m, s, m2, t, path, i) {
      assert CowEntry(m, s, m1, t, path, i);
      if m[s].entries[i].present && !SharedChild(path, i) && |path| < 3 {
        SameUnderChild(m1, m2, own, t, i);
        CowImageFrame(m, m[s].entries[i].frame, m1, m2, own, m1[t].entries[i].frame);
      }
    }
  }

  lemma {:induction false} CowImageSource(m1: Mem, m2: Mem, own: Owners, s: nat, m': Mem, t: nat)
    requires Forest(m1, own) && s in own && |own[s].path| <= 3
    requires SameUnder(m1, m2, own, own[s].dir, own[s].path)
    requires CowImage(m1, s, m', t, own[s].path)
    ensures CowImage(m2, s, m', t, own[s].path)
    decreases 3 - |own[s].path|
  {
    assert TableOk(m1, own, s);
    assert Under(own, s, own[s].dir, own[s].path);
    var path := own[s].path;
    forall i | 0 <= i < 512 ensures CowEntry(m2, s, m', t, path, i) {
      assert CowEntry(m1, s, m', t, path, i);
      if m1[s].entries[i].present && !SharedChild(path, i) && |path| < 3 {
        SameUnderChild(m1, m2, own, s, i);
        CowImageSource(m1, m2, own, m1[s].entries[i].frame, m', m'[t].entries[i].frame);
      }
    }
  }

  /** One entry of an image survives changes elsewhere. */
  lemma CowEntryKeep(m: Mem, s: nat, m1: Mem, m2: Mem, own: Owners, t: nat, i: nat)
    requires Forest(m1, own) && t in own && |own[t].path| <= 3 && i < 512
    requires IsTable(m, s) && IsTable(m1, t) && IsTable(m2, t) && m2[t].entries[i] == m1[t].entries[i]
    requires |own[t].path| < 3 ==> SameUnder(m1, m2, own, own[t].dir, own[t].path + [i])
    requires CowEntry(m, s, m1, t, own[t].path, i)
    ensures CowEntry(m, s, m2, t, own[t].path, i)
  {
    var path := own[t].path;
    if m[s].entries[i].present && !SharedChild(path, i) && |path| < 3 {
      assert TableOk(m1, own, t) && ChildOk(m1, own, t, i);
      CowImageFrame(m, m[s].entries[i].frame, m1, m2, own, m1[t].entries[i].frame);
    }
  }

  // ----- Counting the pages that name a frame

  predicate Names(o: Option<Entry>, f: nat)
  {
    o.Some? && o.value.frame == f
  }

  /** How often the private leaves below table t name frame f, looking at its
      first n entries: the order in which clone and free walk the tree. */
  ghost function Count(m: Mem, t: nat, path: Path, n: nat, f: nat): nat
    requires |path| <= 3 && n <= 512
    decreases 3 - |path|, n
  {
    if n == 0 || !IsTable(m, t) then 0
    else Count(m, t, path, n - 1, f) + CountEntry(m, t, path, n - 1, f)
  }

  ghost function CountEntry(m: Mem, t: nat, path: Path, i: nat, f: nat): nat
    requires |path| <= 3 && i < 512 && IsTable(m, t)
    decreases 3 - |path|, i
  {
    var e := m[t].entries[i];
    if !e.present || SharedChild(path, i) then 0
    else if |path| == 3 then (if e.frame == f then 1 else 0)
    else Count(m, e.frame, path + [i], 512, f)
  }

  lemma {:induction false} CountFrame(m: Mem, m': Mem, own: Owners, t: nat, n: nat, f: nat)
    requires Forest(m, own) && t in own && |own[t].path| <= 3 && n <= 512
    requires SameUnder(m, m', own, own[t].dir, own[t].path)
    ensures Count(m', t, own[t].path, n, f) == Count(m, t, own[t].path, n, f)
    decreases 3 - |own[t].path|, n
  {
    assert TableOk(m, own, t);
    assert Under(own, t, own[t].dir, own[t].path);
    if n > 0 {
      CountFrame(m, m', own, t, n - 1, f);
      if m[t].entries[n - 1].present && |own[t].path| < 3 {
        SameUnderChild(m, m', own, t, n - 1);
        if !SharedChild(own[t].path, n - 1) {
          CountFrame(m, m', own, m[t].entries[n - 1].frame, 512, f);
        }
      }
    }
  }

  ghost function AllPaths(): (s: set<Path>)
  {
    set i: nat, j: nat, k: nat, l: nat | 0 <= i < 512 && 0 <= j < 512 && 0 <= k < 512 && 0 <= l < 512 :: [i, j, k, l]
  }

  lemma AllPathsHasAll(q: Path)
    ensures q in AllPaths() <==> IsPath(q)
  {
    if IsPath(q) {
      assert q == [q[0], q[1], q[2], q[3]];
    }
  }

  /** The private pages below position path, through the first n entries of
      table t, that are mapped to frame f. */
  ghost function PagesNaming(m: Mem, t: nat, path: Path, n: nat, f: nat): (s: set<Path>)
    requires |path| <= 3
  {
    set q | q in AllPaths() && Naming(m, t, path, n, f, q)
  }

  ghost predicate Naming(m: Mem, t: nat, path: Path, n: nat, f: nat, q: Path)
    requires |path| <= 3
  {
    UserPath(q) && path <= q && q[|path|] < n && Names(Trans(m, t, q[|path|..]), f)
  }

  /** The pages among them that go through entry n - 1. */
  ghost function PagesThrough(m: Mem, t: nat, path: Path, n: nat, f: nat): (s: set<Path>)
    requires |path| <= 3
  {
    set q | q in AllPaths() && Naming(m, t, path, n, f, q) && q[|path|] == n - 1
  }

  lemma PagesSplit(m: Mem, t: nat, path: Path, n: nat, f: nat)
    requires |path| <= 3 && 0 < n <= 512
    ensures PagesNaming(m, t, path, n, f) == PagesNaming(m, t, path, n - 1, f) + PagesThrough(m, t, path, n, f)
    ensures PagesNaming(m, t, path, n - 1, f) !! PagesThrough(m, t, path, n, f)
  {
    hide Trans, AllPaths, UserPath;
  }

  /** Walking the tree counts exactly the pages that translate to the frame. */
  lemma {:induction false} CountIsCard(m: Mem, t: nat, path: Path, n: nat, f: nat)
    requires |path| <= 3 && n <= 512 && Indices(path) && !Shared(path)
    ensures Count(m, t, path, n, f) == |PagesNaming(m, t, path, n, f)|
    decreases 3 - |path|, n
  {
    if n == 0 || !IsTable(m, t) {
      hide AllPaths;
      assert PagesNaming(m, t, path, n, f) == {};
    } else {
      hide PagesNaming, PagesThrough;
      CountIsCard(m, t, path, n - 1, f);
      PagesSplit(m, t, path, n, f);
      EntryIsCard(m, t, path, n, f, PagesThrough(m, t, path, n, f));
    }
  }

  lemma {:induction false} EntryIsCard(m: Mem, t: nat, path: Path, n: nat, f: nat, last: set<Path>)
    requires |path| <= 3 && 0 < n <= 512 && Indices(path) && !Shared(path) && IsTable(m, t)
    requires last == PagesThrough(m, t, path, n, f)
    ensures CountEntry(m, t, path, n - 1, f) == |last|
    decreases 3 - |path|, n - 1, 0
  {
    hide AllPaths;
    var e := m[t].entries[n - 1];
    if !e.present || SharedChild(path, n - 1) {
      assert last == {};
    } else if |path| == 3 {
      var q := path + [n - 1];
      AllPathsHasAll(q);
      assert q[3..] == [n - 1];
      assert last == if e.frame == f then {q} else {} by {
        forall p | p in last ensures p == q {
          AllPathsHasAll(p);
        }
      }
    } else {
      var path' := path + [n - 1];
      CountIsCard(m, e.frame, path', 512, f);
      assert last == PagesNaming(m, e.frame, path', 512, f) by {
        forall q | q in AllPaths() ensures q in last <==> q in PagesNaming(m, e.frame, path', 512, f) {
          AllPathsHasAll(q);
          if path <= q && q[|path|] == n - 1 {
            assert path' == q[..|path'|];
            assert q[|path|..][1..] == q[|path'|..];
          }
        }
      }
    }
  }

  // ----- Virtual addresses

  const PAGE_SIZE := 4096

  /** PML4_IDX, PDPT_IDX, PD_IDX and PT_IDX of a 64-bit virtual address. */
  function PathOf(v: nat): (q: Path)
    ensures IsPath(q)
  {
    [v / 0x80_0000_0000 % 512, v / 0x4000_0000 % 512, v / 0x20_0000 % 512, v / 0x1000 % 512]
  }

  /** Bits 63 to 48 repeat bit 47. */
  predicate Canonical(v: nat)
  {
    v < 0x8000_0000_0000 || 0xFFFF_8000_0000_0000 <= v < 0x1_0000_0000_0000_0000
  }

  /** The shared tables are those of the first 128 MB and of the kernel half. */
  lemma SharedAddresses(v: nat)
    requires Canonical(v)
    ensures Shared(PathOf(v)) <==> v < 0x800_0000 || v >= 0xFFFF_8000_0000_0000
  {
    var top := v / 0x80_0000_0000;
    if v < 0x8000_0000_0000 {
      assert top < 256;
      assert v < 0x800_0000 <==> top == 0 && v / 0x4000_0000 == 0 && v / 0x20_0000 < 64;
      assert top == 0 ==> v / 0x4000_0000 < 512;
      assert v / 0x4000_0000 == 0 ==> v / 0x20_0000 < 512;
    } else {
      assert 0x1FF_FF00 <= top < 0x200_0000;
    }
  }

  /** On canonical addresses the four indices name the page. */
  lemma PathNamesPage(v: nat, w: nat)
    requires Canonical(v) && Canonical(w)
    ensures PathOf(v) == PathOf(w) <==> v / PAGE_SIZE == w / PAGE_SIZE
  {
    PageFromPath(v);
    PageFromPath(w);
    if v / PAGE_SIZE == w / PAGE_SIZE {
      assert v / 0x20_0000 == v / 0x1000 / 512 && w / 0x20_0000 == w / 0x1000 / 512;
      assert v / 0x4000_0000 == v / 0x1000 / 0x4_0000 && w / 0x4000_0000 == w / 0x1000 / 0x4_0000;
      assert v / 0x80_0000_0000 == v / 0x1000 / 0x800_0000 && w / 0x80_0000_0000 == w / 0x1000 / 0x800_0000;
    }
  }

  lemma PageFromPath(v: nat)
    requires Canonical(v)
    ensures v / PAGE_SIZE ==
            ((PathOf(v)[0] * 512 + PathOf(v)[1]) * 512 + PathOf(v)[2]) * 512 + PathOf(v)[3]
            + if v < 0x8000_0000_0000 then 0 else 0xF_FFF0_0000_0000
    ensures v < 0x8000_0000_0000 <==> PathOf(v)[0] < 256
  {
    var p, q1, q2, q3 := v / 0x1000, v / 0x20_0000, v / 0x4000_0000, v / 0x80_0000_0000;
    Quotients(v);
    var top := if v < 0x8000_0000_0000 then 0 else 0xFFFF;
    assert 512 * top <= q3 < 512 * top + 512 && (top == 0 <==> q3 - 512 * top < 256);
    assert q3 == 512 * top + q3 % 512 && q2 == 512 * q3 + q2 % 512 && q1 == 512 * q2 + q1 % 512 && p == 512 * q1 + p % 512;
  }

  lemma Quotients(v: nat)
    ensures v / 0x20_0000 == v / 0x1000 / 512 && v / 0x4000_0000 == v / 0x20_0000 / 512 && v / 0x80_0000_0000 == v / 0x4000_0000 / 512
  {
  }
}
