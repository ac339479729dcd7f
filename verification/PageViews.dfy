/** Snapshots of the machine as the page-table code sees it, and what the
    single steps of that code do to them. */
module PageViews {
  import opened PageTree

  lemma ChildPathOk(l: Label, i: nat)
    requires |l.path| < 3 && Indices(l.path) && i < 512 && (l.dir != KERNEL ==> !Shared(l.path))
    ensures var c := ChildLabel(l, i);
            |c.path| <= 3 && Indices(c.path) && (c.dir != KERNEL ==> !Shared(c.path)) && (c.dir == KERNEL || c.dir == l.dir)
  {
  }

  /** What matters of the machine to the page tables: used frames, labels and
      memory. */
  datatype View = View(used: set<nat>, own: Owners, mem: Mem)

  ghost predicate RootLabel(own: Owners, d: int)
  {
    d in own && own[d] == Label(d, [])
  }

  /** The forest is alias-free, every private table belongs to a directory, and
      all tables and all frames with a reference are marked used. */
  ghost predicate CoreView(v: View, refs: seq<nat>)
  {
    && Forest(v.mem, v.own)
    && v.own.Keys <= v.used
    && (forall t :: t in v.own && v.own[t].dir != KERNEL ==> RootLabel(v.own, v.own[t].dir))
    && (forall f :: 0 <= f < |refs| && refs[f] > 0 ==> f in v.used)
  }

  /** What allocation and cloning never disturb: labels, marks, and the
      contents of used frames that are not tables. */
  ghost predicate Grows(a: View, b: View)
  {
    && a.used <= b.used
    && (forall t :: t in a.own ==> t in b.own && b.own[t] == a.own[t])
    && (forall t :: t in b.own && t !in a.own ==> t !in a.used)
    && (forall x :: x in a.used && x !in a.own && x in a.mem ==> x in b.mem && b.mem[x] == a.mem[x])
  }

  lemma GrowsUsed(a: View, b: View)
    requires Grows(a, b)
    ensures a.used <= b.used
  {
  }

  lemma GrowsChain(a: View, b: View, c: View)
    requires Grows(a, b) && Grows(b, c)
    ensures Grows(a, c)
  {
    forall x | x in a.used && x !in a.own && x in a.mem ensures x in c.mem && c.mem[x] == a.mem[x] {
      assert x !in b.own;
    }
  }

  /** Every walk that starts in a table of a ends in b as it did. */
  ghost predicate SameTrans(a: View, b: View)
  {
    forall x, r :: x in a.own && Indices(r) && |r| >= 1 && |a.own[x].path| + |r| == 4 ==>
      Trans(b.mem, x, r) == Trans(a.mem, x, r)
  }

  lemma SameTransChain(a: View, b: View, c: View)
    requires SameTrans(a, b) && SameTrans(b, c) && Grows(a, b)
    ensures SameTrans(a, c)
  {
  }

  /** Page q' of directory d' is the page q of directory d: for kernel pages
      the tables are shared, so every directory may see the change. */
  ghost predicate MaySee(d: nat, q: Path, d': nat, q': Path)
  {
    q' == q && (d' == d || Shared(q))
  }

  /** The walk of mmu_get_entry written out. */
  ghost function LeafFrom(m: Mem, d: nat, i: nat, j: nat, k: nat, l: nat): Option<nat>
    requires i < 512 && j < 512 && k < 512 && l < 512
  {
    if !IsTable(m, d) || !m[d].entries[i].present then None else
    var pdpt := m[d].entries[i].frame;
    if !IsTable(m, pdpt) || !m[pdpt].entries[j].present then None else
    var pd := m[pdpt].entries[j].frame;
    if !IsTable(m, pd) || !m[pd].entries[k].present then None else
    var pt := m[pd].entries[k].frame;
    if IsTable(m, pt) then Some(pt) else None
  }

  lemma LeafIsFrom(m: Mem, d: nat, q: Path)
    requires IsPath(q)
    ensures LeafTable(m, d, q) == LeafFrom(m, d, q[0], q[1], q[2], q[3])
  {
    if IsTable(m, d) && m[d].entries[q[0]].present {
      var pdpt, r1 := m[d].entries[q[0]].frame, q[1..];
      assert LeafTable(m, d, q) == LeafTable(m, pdpt, r1);
      if IsTable(m, pdpt) && m[pdpt].entries[q[1]].present {
        var pd, r2 := m[pdpt].entries[q[1]].frame, r1[1..];
        assert LeafTable(m, pdpt, r1) == LeafTable(m, pd, r2);
        if IsTable(m, pd) && m[pd].entries[q[2]].present {
          assert LeafTable(m, pd, r2) == LeafTable(m, m[pd].entries[q[2]].frame, r2[1..]);
        }
      }
    }
  }

  lemma RootLeafLabel(m: Mem, own: Owners, d: nat, q: Path)
    requires Forest(m, own) && d in own && own[d] == Label(d, []) && IsPath(q) && LeafTable(m, d, q).Some?
    ensures var l := LeafTable(m, d, q).value;
            l in own && own[l] == Label(if Shared(q) then KERNEL else d, q[..3])
  {
    LeafTableLabel(m, own, d, q);
    assert [] + q == q && [] + q[..3] == q[..3];
  }

  /** Of all pages of all directories only (d, q) may translate differently. */
  ghost predicate OnlyPage(m: Mem, m': Mem, own: Owners, d: nat, q: Path)
  {
    forall d', q' :: d' in own && own[d'] == Label(d', []) && IsPath(q') && !MaySee(d, q, d', q') ==>
      Trans(m', d', q') == Trans(m, d', q')
  }

  /** Writing the leaf entry of page q of d is seen by no other page. */
  lemma LeafWriteSeen(m: Mem, own: Owners, d: nat, q: Path, pt: nat, e: Entry, d': nat, q': Path)
    requires Forest(m, own) && d in own && own[d] == Label(d, []) && IsPath(q) && LeafTable(m, d, q) == Some(pt)
    requires d' in own && own[d'] == Label(d', []) && IsPath(q') && !MaySee(d, q, d', q')
    ensures Trans(SetEntry(m, pt, q[3], e), d', q') == Trans(m, d', q')
  {
    RootLeafLabel(m, own, d, q);
    LeafUpdate(m, own, pt, q[3], e, d', q');
    if LeafTable(m, d', q') == Some(pt) && q'[3] == q[3] {
      RootLeafLabel(m, own, d', q');
    }
  }

  /** Linking a child table, fresh or old, keeps the forest, and no page's
      translation changes. */
  lemma InnerStep(a: View, b: View, refs: seq<nat>, parent: nat, index: nat, child: nat)
    requires CoreView(a, refs) && InnerChange(a.mem, b.mem, a.own, parent, index, child)
    requires a.used <= b.used && b.own == InnerOwners(a.mem, a.own, parent, index, child)
    requires child in a.own || (child !in a.used && child in b.used)
    ensures CoreView(b, refs) && SameTrans(a, b) && Grows(a, b)
    ensures child in b.own && b.own[child] == ChildLabel(a.own[parent], index)
  {
    assert TableOk(a.mem, a.own, parent);
    if a.mem[parent].entries[index].present {
      assert ChildOk(a.mem, a.own, parent, index);
    }
    InnerUpdateForest(a.mem, b.mem, a.own, parent, index, child);
    forall x, r | x in a.own && Indices(r) && |r| >= 1 && |a.own[x].path| + |r| == 4
      ensures Trans(b.mem, x, r) == Trans(a.mem, x, r)
    {
      InnerUpdate(a.mem, b.mem, a.own, parent, index, child, x, r);
    }
  }

  lemma ChildIsMade(m: Mem, m': Mem, own: Owners, own': Owners, parent: nat, index: nat, child: nat)
    requires Forest(m, own) && parent in own && |own[parent].path| < 3 && index < 512 && IsTable(m, parent) && own.Keys <= own'.Keys && child in own'
    requires InnerChange(m, m', own, parent, index, child)
    ensures KeptBut(m, m', own, parent) && OnlyTables(m, m', own') && ChildMade(m, m', parent, index, child)
  {
    assert TableOk(m, own, parent);
    forall t | t in own && t != parent
      ensures t in m' && t in m && m'[t] == m[t]
    {
      assert TableOk(m, own, t);
    }
  }

  /** An inner entry may be rewritten to any child labelled for that place. */
  lemma EntryForest(v: View, refs: seq<nat>, t: nat, i: nat, e: Entry)
    requires CoreView(v, refs) && t in v.own && |v.own[t].path| < 3 && i < 512 && IsTable(v.mem, t)
    requires e.present ==> e.frame in v.own && v.own[e.frame] == ChildLabel(v.own[t], i)
    ensures CoreView(v.(mem := SetEntry(v.mem, t, i, e)), refs)
  {
    var m' := SetEntry(v.mem, t, i, e);
    forall s | s in v.own ensures TableOk(m', v.own, s) {
      assert TableOk(v.mem, v.own, s);
      if |v.own[s].path| < 3 {
        forall j | 0 <= j < 512 && m'[s].entries[j].present ensures ChildOk(m', v.own, s, j) {
          if s != t || j != i {
            assert ChildOk(v.mem, v.own, s, j);
          }
        }
      }
    }
  }

  /** Filling a frame no one uses disturbs nothing. */
  lemma FrameFilled(v0: View, refs: seq<nat>, v1: View, f: nat)
    requires CoreView(v0, refs) && f !in v0.used && v0.used <= v1.used && v1.own == v0.own
    requires f in v1.mem && v1.mem == v0.mem[f := v1.mem[f]]
    ensures CoreView(v1, refs) && Grows(v0, v1)
  {
    forall s | s in v1.own ensures TableOk(v1.mem, v1.own, s) {
      assert TableOk(v0.mem, v0.own, s);
      if |v1.own[s].path| < 3 {
        forall j | 0 <= j < 512 && v1.mem[s].entries[j].present ensures ChildOk(v1.mem, v1.own, s, j) {
          assert ChildOk(v0.mem, v0.own, s, j);
        }
      }
    }
  }

  /** A zeroed table in a frame no one used joins the forest unlinked. */
  lemma TableAdded(v0: View, refs: seq<nat>, v1: View, t: nat, place: Label)
    requires CoreView(v0, refs) && t !in v0.used && v0.used + {t} <= v1.used
    requires |place.path| <= 3 && Indices(place.path) && (place.dir != KERNEL ==> !Shared(place.path))
    requires place.dir == KERNEL || RootLabel(v0.own, place.dir) || place == Label(t, [])
    requires v1.own == v0.own[t := place] && v1.mem == v0.mem[t := EmptyTable()]
    ensures CoreView(v1, refs) && Grows(v0, v1)
  {
    forall s | s in v1.own ensures TableOk(v1.mem, v1.own, s) {
      if s != t {
        assert TableOk(v0.mem, v0.own, s);
        if |v1.own[s].path| < 3 {
          forall i | 0 <= i < 512 && v1.mem[s].entries[i].present ensures ChildOk(v1.mem, v1.own, s, i) {
            assert ChildOk(v0.mem, v0.own, s, i);
          }
        }
      }
    }
    forall s | s in v1.own && v1.own[s].dir != KERNEL ensures RootLabel(v1.own, v1.own[s].dir) {
      if s != t {
        assert RootLabel(v0.own, v0.own[s].dir);
      }
    }
  }

  /** The leaf entry of page q of d is written: that page now translates to the
      entry, and no other page changes. */
  lemma LeafSet(v: View, refs: seq<nat>, d: nat, q: Path, pt: nat, e: Entry)
    requires CoreView(v, refs) && RootLabel(v.own, d) && IsPath(q) && LeafTable(v.mem, d, q) == Some(pt)
    ensures var v' := v.(mem := SetEntry(v.mem, pt, q[3], e));
            && CoreView(v', refs) && Grows(v, v') && OnlyPage(v.mem, v'.mem, v.own, d, q)
            && Trans(v'.mem, d, q) == if e.present then Some(e) else None
  {
    RootLeafLabel(v.mem, v.own, d, q);
    LeafUpdateForest(v.mem, v.own, pt, q[3], e);
    LeafUpdate(v.mem, v.own, pt, q[3], e, d, q);
    forall d', q' | d' in v.own && v.own[d'] == Label(d', []) && IsPath(q') && !MaySee(d, q, d', q')
      ensures Trans(SetEntry(v.mem, pt, q[3], e), d', q') == Trans(v.mem, d', q')
    {
      LeafWriteSeen(v.mem, v.own, d, q, pt, e, d', q');
    }
  }

  /** Entry i of table t leads to c. */
  ghost predicate Points(m: Mem, t: nat, i: nat, c: nat)
  {
    IsTable(m, t) && i < 512 && m[t].entries[i].present && m[t].entries[i].frame == c
  }

  /** How many tables on the way to page q are still to be made. */
  ghost function Missing(m: Mem, d: nat, q: Path): (n: nat)
    requires IsPath(q)
    ensures n <= 3
  {
    if !Leads(m, d, q[0]) then 3 else Unmade(m, m[d].entries[q[0]].frame, q[1], q[2])
  }

  ghost function Unmade(m: Mem, t: nat, i: nat, j: nat): (n: nat)
    ensures n <= 2
  {
    if !Leads(m, t, i) then 2 else if !Leads(m, m[t].entries[i].frame, j) then 1 else 0
  }

  ghost predicate KeptBut(m: Mem, m': Mem, own: Owners, t: nat)
  {
    forall s :: s in own && s != t ==> s in m && s in m' && m'[s] == m[s]
  }

  /** The tables missing from the root are the one just made and those missing
      from there. */
  lemma MissingFirst(m: Mem, m': Mem, own: Owners, d: nat, q: Path, c: nat)
    requires Forest(m, own) && RootLabel(own, d) && IsPath(q) && KeptBut(m, m', own, d) && ChildMade(m, m', d, q[0], c)
    ensures Missing(m, d, q) == (if Leads(m, d, q[0]) then 0 else 1) + Unmade(m', c, q[1], q[2])
  {
    if Leads(m, d, q[0]) {
      UnmadeKept(m, m', own, d, q[0], q[1], q[2]);
    }
  }

  lemma UnmadeKept(m: Mem, m': Mem, own: Owners, t: nat, i: nat, j: nat, k: nat)
    requires Forest(m, own) && t in own && |own[t].path| == 0 && KeptBut(m, m', own, t) && Leads(m, t, i)
    ensures Unmade(m', m[t].entries[i].frame, j, k) == Unmade(m, m[t].entries[i].frame, j, k)
  {
    var c := m[t].entries[i].frame;
    assert TableOk(m, own, t) && ChildOk(m, own, t, i) && TableOk(m, own, c) && c != t;
    if Leads(m, c, j) {
      var s := m[c].entries[j].frame;
      assert ChildOk(m, own, c, j) && TableOk(m, own, s) && s != t;
    }
  }

  lemma MissingNext(m: Mem, m': Mem, own: Owners, t: nat, i: nat, j: nat, c: nat)
    requires Forest(m, own) && t in own && |own[t].path| == 1 && KeptBut(m, m', own, t) && ChildMade(m, m', t, i, c)
    ensures Unmade(m, t, i, j) == (if Leads(m, t, i) then 0 else 1) + (if Leads(m', c, j) then 0 else 1)
  {
    if Leads(m, t, i) {
      assert TableOk(m, own, t) && ChildOk(m, own, t, i) && TableOk(m, own, c) && c != t;
    }
  }

  lemma MissingMost(m: Mem, d: nat, q: Path)
    requires IsPath(q)
    ensures !Leads(m, d, q[0]) ==> Missing(m, d, q) == 3
  {
  }

  lemma UnmadeMost(m: Mem, t: nat, i: nat, j: nat)
    ensures !Leads(m, t, i) ==> Unmade(m, t, i, j) == 2
  {
  }

  /** Frames that are no table keep what they hold. */
  ghost predicate OnlyTables(m: Mem, m': Mem, own: Owners)
  {
    forall f :: f !in own ==> (f in m' <==> f in m) && (f in m ==> m'[f] == m[f])
  }

  lemma OnlyTablesTwice(m: Mem, m1: Mem, m2: Mem, own1: Owners, own2: Owners)
    requires OnlyTables(m, m1, own1) && OnlyTables(m1, m2, own2) && own1.Keys <= own2.Keys
    ensures OnlyTables(m, m2, own2)
  {
  }

  lemma TablesOnly(a: View, b: View, c: View, d: View)
    requires Grows(a, b) && Grows(b, c) && Grows(c, d)
    requires OnlyTables(a.mem, b.mem, b.own) && OnlyTables(b.mem, c.mem, c.own) && OnlyTables(c.mem, d.mem, d.own)
    ensures OnlyTables(a.mem, d.mem, d.own)
  {
    hide OnlyTables;
    assert b.own.Keys <= c.own.Keys && c.own.Keys <= d.own.Keys;
    OnlyTablesTwice(a.mem, b.mem, c.mem, b.own, c.own);
    OnlyTablesTwice(a.mem, c.mem, d.mem, c.own, d.own);
  }

  lemma MissingData(m: Mem, own: Owners, f: nat, p: Page, d: nat, q: Path)
    requires Forest(m, own) && RootLabel(own, d) && IsPath(q) && f !in own
    ensures Missing(m[f := p], d, q) == Missing(m, d, q)
  {
    assert TableOk(m, own, d);
    if Leads(m, d, q[0]) {
      var pdpt := m[d].entries[q[0]].frame;
      assert ChildOk(m, own, d, q[0]) && TableOk(m, own, pdpt);
      if Leads(m, pdpt, q[1]) {
        assert ChildOk(m, own, pdpt, q[1]) && TableOk(m, own, m[pdpt].entries[q[1]].frame);
      }
    }
  }

  /** Entry i of table t leads somewhere. */
  ghost predicate Leads(m: Mem, t: nat, i: nat)
  {
    IsTable(m, t) && i < 512 && m[t].entries[i].present
  }

  /** What one get_or_alloc_table did to the tables: an entry that was there
      leads where it led, a new one to an empty table. */
  ghost predicate ChildMade(m: Mem, m': Mem, t: nat, i: nat, c: nat)
  {
    Points(m', t, i, c) && if Leads(m, t, i) then m[t].entries[i].frame == c else IsTable(m', c) && forall j :: !Leads(m', c, j)
  }

  lemma MissingIs(m: Mem, own: Owners, d: nat, q: Path)
    requires Forest(m, own) && RootLabel(own, d) && IsPath(q)
    ensures LeafTable(m, d, q).Some? <==> Missing(m, d, q) == 0
  {
    LeafIsFrom(m, d, q);
    assert TableOk(m, own, d);
    if Leads(m, d, q[0]) {
      var pdpt := m[d].entries[q[0]].frame;
      assert ChildOk(m, own, d, q[0]) && TableOk(m, own, pdpt);
      if Leads(m, pdpt, q[1]) {
        var pd := m[pdpt].entries[q[1]].frame;
        assert ChildOk(m, own, pdpt, q[1]) && TableOk(m, own, pd);
        if Leads(m, pd, q[2]) {
          assert ChildOk(m, own, pd, q[2]) && TableOk(m, own, m[pd].entries[q[2]].frame);
        }
      }
    }
  }

  lemma PointsOn(m: Mem, m': Mem, own: Owners, p: nat, t: nat, i: nat, c: nat)
    requires Points(m, t, i, c) && KeptBut(m, m', own, p) && t in own && t != p
    ensures Points(m', t, i, c)
  {
  }

  lemma PathReaches(m: Mem, d: nat, q: Path, pdpt: nat, pd: nat, pt: nat)
    requires IsPath(q) && Points(m, d, q[0], pdpt) && Points(m, pdpt, q[1], pd) && Points(m, pd, q[2], pt) && IsTable(m, pt)
    ensures LeafTable(m, d, q) == Some(pt)
  {
    LeafIsFrom(m, d, q);
  }

  lemma LabelKept(a: View, b: View, t: nat)
    requires Grows(a, b) && t in a.own
    ensures t in b.own && b.own[t] == a.own[t]
  {
  }

  lemma TableOf(v: View, refs: seq<nat>, t: nat)
    requires CoreView(v, refs) && t in v.own
    ensures IsTable(v.mem, t)
  {
    assert TableOk(v.mem, v.own, t);
  }

  lemma EnsuredRoot(a: View, b: View, d: nat)
    requires Grows(a, b) && RootLabel(a.own, d)
    ensures RootLabel(b.own, d)
  {
  }

  lemma OnlyPageChain(a: View, b: View, m: Mem, d: nat, q: Path)
    requires SameTrans(a, b) && Grows(a, b) && OnlyPage(b.mem, m, b.own, d, q)
    ensures OnlyPage(a.mem, m, a.own, d, q)
  {
  }
}
