/** How far a copy-on-write clone has got, and what each step of the loop in
    clone_table and mmu_clone_user adds to it. */
module CowClone {
  import opened PageTree
  import opened PageViews

  /** One table being cloned into another at the same position: the source
      belongs to directory from, the copy to directory to. */
  datatype Job = Job(src: nat, dst: nat, from: int, to: int, path: Path)

  ghost predicate Cloning(v: View, job: Job)
  {
    && job.src in v.own && v.own[job.src] == Label(job.from, job.path)
    && job.dst in v.own && v.own[job.dst] == Label(job.to, job.path)
    && job.from != KERNEL && job.to != KERNEL && job.from != job.to && job.to in v.own
    && |job.path| <= 3 && IsTable(v.mem, job.src)
  }

  /** The source tables that the first i entries may have turned copy-on-write. */
  ghost predicate Touched(l: Label, job: Job, i: nat)
  {
    && l.dir == job.from && |l.path| == 3 && job.path <= l.path
    && (|job.path| < 3 ==> l.path[|job.path|] < i)
  }

  ghost predicate Kept(m: Mem, m': Mem, t: nat)
  {
    t in m && t in m' && m'[t] == m[t]
  }

  /** New tables belong to the copy, other tables are kept, and the entries
      from i on are still to be done. */
  ghost predicate Shape(v0: View, v: View, job: Job, i: nat)
    requires Cloning(v0, job)
  {
    && (forall t :: t in v.own && t !in v0.own ==> v.own[t].dir == job.to && job.path < v.own[t].path)
    && (forall t :: t in v0.own && t != job.dst && !Touched(v0.own[t], job, i) ==> Kept(v0.mem, v.mem, t))
    && IsTable(v.mem, job.src) && IsTable(v.mem, job.dst)
    && (forall j :: i <= j < 512 ==> v.mem[job.dst].entries[j] == ZERO_ENTRY && v.mem[job.src].entries[j] == v0.mem[job.src].entries[j])
  }

  ghost predicate ImageEntry(m0: Mem, m: Mem, job: Job, j: nat)
    requires |job.path| <= 3 && j < 512
  {
    && IsTable(m0, job.src) && IsTable(m, job.src) && IsTable(m, job.dst)
    && CowEntry(m0, job.src, m, job.dst, job.path, j)
    && CowEntry(m0, job.src, m, job.src, job.path, j)
  }

  ghost predicate Images(m0: Mem, m: Mem, job: Job, i: nat)
    requires |job.path| <= 3 && i <= 512
  {
    forall j :: 0 <= j < i ==> ImageEntry(m0, m, job, j)
  }

  /** The reference counts, bytes that wrap, after the first i entries. */
  ghost predicate Added(m0: Mem, refs0: seq<nat>, refs: seq<nat>, job: Job, i: nat)
    requires |job.path| <= 3 && i <= 512
  {
    && |refs| == |refs0|
    && forall f :: 0 <= f < |refs| ==> refs[f] == (refs0[f] + Count(m0, job.src, job.path, i, f)) % 256
  }

  /** State v is reached from v0 by cloning the first i entries of the job. */
  ghost predicate Cloned(v0: View, refs0: seq<nat>, v: View, refs: seq<nat>, job: Job, i: nat)
    requires Cloning(v0, job) && i <= 512
  {
    CoreView(v, refs) && Grows(v0, v) && Shape(v0, v, job, i) && Images(v0.mem, v.mem, job, i) && Added(v0.mem, refs0, refs, job, i)
  }

  lemma StartClone(v0: View, refs0: seq<nat>, job: Job)
    requires CoreView(v0, refs0) && Cloning(v0, job) && v0.mem[job.dst] == EmptyTable()
    requires forall f :: 0 <= f < |refs0| ==> refs0[f] < 256
    ensures Cloned(v0, refs0, v0, refs0, job, 0)
  {
    assert TableOk(v0.mem, v0.own, job.src) && TableOk(v0.mem, v0.own, job.dst);
    forall t | t in v0.own ensures Kept(v0.mem, v0.mem, t) {
      assert TableOk(v0.mem, v0.own, t);
    }
  }

  // ----- The parts of a step

  lemma AddedNothing(m0: Mem, refs0: seq<nat>, refs: seq<nat>, job: Job, i: nat)
    requires |job.path| <= 3 && i < 512 && Added(m0, refs0, refs, job, i)
    requires IsTable(m0, job.src) && (!m0[job.src].entries[i].present || SharedChild(job.path, i))
    ensures Added(m0, refs0, refs, job, i + 1)
  {
    forall f | 0 <= f < |refs| ensures refs[f] == (refs0[f] + Count(m0, job.src, job.path, i + 1, f)) % 256 {
      assert CountEntry(m0, job.src, job.path, i, f) == 0;
    }
  }

  lemma AddedLeaf(m0: Mem, refs0: seq<nat>, refs: seq<nat>, job: Job, i: nat, refs': seq<nat>)
    requires |job.path| == 3 && i < 512 && Added(m0, refs0, refs, job, i)
    requires IsTable(m0, job.src) && m0[job.src].entries[i].present
    requires var f := m0[job.src].entries[i].frame;
      refs' == if f < |refs| then refs[f := (refs[f] + 1) % 256] else refs
    ensures Added(m0, refs0, refs', job, i + 1)
  {
    forall f | 0 <= f < |refs'| ensures refs'[f] == (refs0[f] + Count(m0, job.src, job.path, i + 1, f)) % 256 {
      var n := Count(m0, job.src, job.path, i, f);
      assert Count(m0, job.src, job.path, i + 1, f) == n + CountEntry(m0, job.src, job.path, i, f);
      ModAdd(refs0[f] + n, 1);
    }
  }

  lemma AddedChild(m0: Mem, refs0: seq<nat>, refs: seq<nat>, job: Job, i: nat, refs': seq<nat>, sub: Job)
    requires |job.path| < 3 && i < 512 && Added(m0, refs0, refs, job, i)
    requires IsTable(m0, job.src) && m0[job.src].entries[i].present && !SharedChild(job.path, i)
    requires sub.src == m0[job.src].entries[i].frame && sub.path == job.path + [i]
    requires Added(m0, refs, refs', sub, 512)
    ensures Added(m0, refs0, refs', job, i + 1)
  {
    forall f | 0 <= f < |refs'| ensures refs'[f] == (refs0[f] + Count(m0, job.src, job.path, i + 1, f)) % 256 {
      var n, k := Count(m0, job.src, job.path, i, f), Count(m0, sub.src, sub.path, 512, f);
      assert Count(m0, job.src, job.path, i + 1, f) == n + CountEntry(m0, job.src, job.path, i, f) == n + k;
      ModAdd(refs0[f] + n, k);
    }
  }

  lemma ModAdd(a: nat, b: nat)
    ensures (a % 256 + b) % 256 == (a + b) % 256
  {
  }

  /** Entries of the copy and of the source rewritten: earlier images last. */
  lemma KeepImages(m0: Mem, v: View, m': Mem, job: Job, i: nat)
    requires Forest(v.mem, v.own) && |job.path| <= 3 && i < 512 && Images(m0, v.mem, job, i)
    requires job.src in v.own && v.own[job.src] == Label(job.from, job.path)
    requires job.dst in v.own && v.own[job.dst] == Label(job.to, job.path)
    requires IsTable(v.mem, job.src) && IsTable(v.mem, job.dst) && IsTable(m', job.src) && IsTable(m', job.dst)
    requires forall j :: 0 <= j < i ==> m'[job.src].entries[j] == v.mem[job.src].entries[j]
    requires forall j :: 0 <= j < i ==> m'[job.dst].entries[j] == v.mem[job.dst].entries[j]
    requires |job.path| < 3 ==>
      forall t :: t in v.own && t != job.dst && (Touched(v.own[t], job, i) || !Touched(v.own[t], job, i + 1)) ==> Kept(v.mem, m', t)
    ensures Images(m0, m', job, i)
  {
    forall j | 0 <= j < i ensures ImageEntry(m0, m', job, j) {
      assert ImageEntry(m0, v.mem, job, j);
      if |job.path| < 3 {
        forall s | s in v.own && (Under(v.own, s, job.to, job.path + [j]) || Under(v.own, s, job.from, job.path + [j]))
          ensures Kept(v.mem, m', s)
        {
          assert job.path + [j] <= v.own[s].path;
          assert v.own[s].path[|job.path|] == j;
          assert s != job.dst;
        }
        assert SameUnder(v.mem, m', v.own, job.to, job.path + [j]);
        assert SameUnder(v.mem, m', v.own, job.from, job.path + [j]);
      }
      CowEntryKeep(m0, job.src, v.mem, m', v.own, job.dst, j);
      CowEntryKeep(m0, job.src, v.mem, m', v.own, job.src, j);
    }
  }

  // ----- The steps

  /** An absent entry is skipped. */
  lemma SkipStep(v0: View, refs0: seq<nat>, v: View, refs: seq<nat>, job: Job, i: nat)
    requires Cloning(v0, job) && i < 512 && Cloned(v0, refs0, v, refs, job, i)
    requires !v.mem[job.src].entries[i].present
    ensures Cloned(v0, refs0, v, refs, job, i + 1)
  {
    assert ImageEntry(v0.mem, v.mem, job, i);
    AddedNothing(v0.mem, refs0, refs, job, i);
  }

  /** A kernel entry is shared as it stands. */
  lemma ShareStep(v0: View, refs0: seq<nat>, v: View, refs: seq<nat>, job: Job, i: nat, v': View)
    requires Cloning(v0, job) && i < 512 && Cloned(v0, refs0, v, refs, job, i)
    requires v.mem[job.src].entries[i].present && SharedChild(job.path, i)
    requires v' == v.(mem := SetEntry(v.mem, job.dst, i, v.mem[job.src].entries[i]))
    ensures Cloned(v0, refs0, v', refs, job, i + 1)
  {
    hide Added, Shape, Grows, Images;
    ClonedTables(v0, refs0, v, refs, job, i);
    var e := v.mem[job.src].entries[i];
    ShareShape(v0, v, job, i, e, v');
    ShareImages(v0.mem, v, job, i, e, v'.mem);
    AddedNothing(v0.mem, refs0, refs, job, i);
    assert TableOk(v.mem, v.own, job.src) && ChildOk(v.mem, v.own, job.src, i);
    EntryForest(v, refs, job.dst, i, e);
    GrowsLink(v, job.dst, i, e);
    GrowsChain(v0, v, v');
  }

  lemma ShareShape(v0: View, v: View, job: Job, i: nat, e: Entry, v': View)
    requires Cloning(v0, job) && i < 512 && Shape(v0, v, job, i) && job.src != job.dst && e == v.mem[job.src].entries[i]
    requires v' == v.(mem := SetEntry(v.mem, job.dst, i, e))
    ensures Shape(v0, v', job, i + 1) && v0.mem[job.src].entries[i] == e
  {
  }

  lemma ShareImages(m0: Mem, v: View, job: Job, i: nat, e: Entry, m': Mem)
    requires Forest(v.mem, v.own) && Cloning(v, job) && i < 512 && Images(m0, v.mem, job, i) && SharedChild(job.path, i)
    requires IsTable(m0, job.src) && IsTable(v.mem, job.dst) && job.src != job.dst
    requires m0[job.src].entries[i] == e && v.mem[job.src].entries[i] == e && e.present
    requires m' == SetEntry(v.mem, job.dst, i, e)
    ensures Images(m0, m', job, i + 1)
  {
    forall t | t in v.own && t != job.dst ensures Kept(v.mem, m', t) {
      assert TableOk(v.mem, v.own, t);
    }
    KeepImages(m0, v, m', job, i);
    assert ImageEntry(m0, m', job, i);
  }

  /** A leaf entry is copied, turned copy-on-write on both sides when it is
      user-writable, and its frame gains a reference. */
  lemma LeafStep(v0: View, refs0: seq<nat>, v: View, refs: seq<nat>, job: Job, i: nat, v': View, refs': seq<nat>)
    requires Cloning(v0, job) && i < 512 && Cloned(v0, refs0, v, refs, job, i)
    requires |job.path| == 3 && v.mem[job.src].entries[i].present
    requires var e := v.mem[job.src].entries[i];
      && v'.own == v.own
      && v'.mem == SetEntry(SetEntry(v.mem, job.dst, i, Cow(e)), job.src, i, Cow(e))
      && refs' == (if e.frame < |refs| then refs[e.frame := (refs[e.frame] + 1) % 256] else refs)
      && v'.used == v.used + (if e.frame < |refs| && refs[e.frame] == 0 then {e.frame} else {})
    ensures Cloned(v0, refs0, v', refs', job, i + 1)
  {
    var e := v.mem[job.src].entries[i];
    LeafStepShape(v0, v, job, i, Cow(e), v');
    LeafStepImages(v0.mem, v, job, i, v'.mem);
    AddedLeaf(v0.mem, refs0, refs, job, i, refs');
    LeafStepCore(v, refs, job, i, e, v', refs');
    GrowsChain(v0, v, v');
  }

  lemma LeafStepShape(v0: View, v: View, job: Job, i: nat, e: Entry, v': View)
    requires Cloning(v0, job) && i < 512 && |job.path| == 3 && Shape(v0, v, job, i)
    requires v'.own == v.own && v'.mem == SetEntry(SetEntry(v.mem, job.dst, i, e), job.src, i, e)
    ensures Shape(v0, v', job, i + 1)
  {
  }

  lemma LeafStepImages(m0: Mem, v: View, job: Job, i: nat, m': Mem)
    requires Forest(v.mem, v.own) && i < 512 && |job.path| == 3 && Images(m0, v.mem, job, i)
    requires job.src in v.own && v.own[job.src] == Label(job.from, job.path)
    requires job.dst in v.own && v.own[job.dst] == Label(job.to, job.path) && job.src != job.dst
    requires IsTable(m0, job.src) && IsTable(v.mem, job.src) && IsTable(v.mem, job.dst)
    requires v.mem[job.src].entries[i].present && m0[job.src].entries[i] == v.mem[job.src].entries[i]
    requires var e := Cow(v.mem[job.src].entries[i]);
      m' == SetEntry(SetEntry(v.mem, job.dst, i, e), job.src, i, e)
    ensures Images(m0, m', job, i + 1)
  {
    KeepImages(m0, v, m', job, i);
    assert ImageEntry(m0, m', job, i);
  }

  lemma LeafStepCore(v: View, refs: seq<nat>, job: Job, i: nat, e: Entry, v': View, refs': seq<nat>)
    requires CoreView(v, refs) && i < 512 && job.src in v.own && job.dst in v.own
    requires |v.own[job.src].path| == 3 && |v.own[job.dst].path| == 3
    requires IsTable(v.mem, job.src) && IsTable(v.mem, job.dst)
    requires v'.own == v.own
    requires v'.mem == SetEntry(SetEntry(v.mem, job.dst, i, Cow(e)), job.src, i, Cow(e))
    requires refs' == (if e.frame < |refs| then refs[e.frame := (refs[e.frame] + 1) % 256] else refs)
    requires v'.used == v.used + (if e.frame < |refs| && refs[e.frame] == 0 then {e.frame} else {})
    ensures CoreView(v', refs') && Grows(v, v')
  {
    LeafUpdateForest(v.mem, v.own, job.dst, i, Cow(e));
    LeafUpdateForest(SetEntry(v.mem, job.dst, i, Cow(e)), v.own, job.src, i, Cow(e));
  }

  ghost function ChildJob(m: Mem, job: Job, i: nat, child: nat): Job
    requires IsTable(m, job.src) && i < 512
  {
    Job(m[job.src].entries[i].frame, child, job.from, job.to, job.path + [i])
  }

  /** Filling the child of entry i leaves everything outside its subtree alone. */
  lemma ChildKept(v1: View, v2: View, v3: View, job: Job, i: nat, child: nat, t: nat)
    requires |job.path| < 3 && i < 512 && IsTable(v1.mem, job.src) && child !in v1.own
    requires v2.own == v1.own[child := Label(job.to, job.path + [i])] && v2.mem == v1.mem[child := EmptyTable()]
    requires Cloning(v2, ChildJob(v1.mem, job, i, child)) && Shape(v2, v3, ChildJob(v1.mem, job, i, child), 512)
    requires t in v1.own && IsTable(v1.mem, t)
    requires Touched(v1.own[t], job, i) || !Touched(v1.own[t], job, i + 1)
    ensures Kept(v1.mem, v3.mem, t)
  {
    if Touched(v1.own[t], ChildJob(v1.mem, job, i, child), 512) {
      PrefixStep(job.path, i, v1.own[t].path);
      assert false;
    }
    assert Kept(v2.mem, v3.mem, t);
  }

  lemma PrefixStep(path: Path, i: nat, longer: Path)
    requires path + [i] <= longer
    ensures path <= longer && |longer| > |path| && longer[|path|] == i
  {
    assert (path + [i])[|path|] == i;
  }

  /** The subtree of entry i is the source's own one until it is cloned. */
  lemma ChildUntouched(v0: View, v1: View, v2: View, job: Job, i: nat, child: nat)
    requires |job.path| < 3 && child !in v1.own && Cloning(v0, job) && Grows(v0, v1) && Shape(v0, v1, job, i)
    requires v2.own == v1.own[child := Label(job.to, job.path + [i])] && v2.mem == v1.mem[child := EmptyTable()]
    ensures SameUnder(v2.mem, v0.mem, v2.own, job.from, job.path + [i])
  {
    forall s | s in v2.own && Under(v2.own, s, job.from, job.path + [i])
      ensures s in v2.mem && s in v0.mem && v0.mem[s] == v2.mem[s]
    {
      PrefixStep(job.path, i, v2.own[s].path);
      assert s != job.dst && s != child;
      assert Kept(v0.mem, v1.mem, s);
    }
  }

  /** A filled table is the whole image of its source. */
  lemma WholeImage(m0: Mem, m: Mem, job: Job)
    requires |job.path| <= 3 && Images(m0, m, job, 512)
    ensures CowImage(m0, job.src, m, job.dst, job.path) && CowImage(m0, job.src, m, job.src, job.path)
  {
    assert ImageEntry(m0, m, job, 0);
    forall j | 0 <= j < 512
      ensures CowEntry(m0, job.src, m, job.dst, job.path, j) && CowEntry(m0, job.src, m, job.src, job.path, j)
    {
      assert ImageEntry(m0, m, job, j);
    }
  }

  /** Linking entry i of the copy to the filled child makes it an image. */
  lemma ChildImage(m0: Mem, v2: View, v3: View, job: Job, i: nat, sub: Job, m4: Mem, e: Entry)
    requires |job.path| < 3 && i < 512 && !SharedChild(job.path, i) && sub.path == job.path + [i] && sub.src == e.frame && e.present
    requires Forest(v2.mem, v2.own) && Forest(v3.mem, v3.own) && Images(v2.mem, v3.mem, sub, 512)
    requires sub.src in v2.own && v2.own[sub.src] == Label(job.from, sub.path)
    requires sub.src in v3.own && v3.own[sub.src] == Label(job.from, sub.path)
    requires sub.dst in v3.own && v3.own[sub.dst] == Label(job.to, sub.path)
    requires job.dst in v3.own && v3.own[job.dst].path == job.path
    requires IsTable(v3.mem, job.dst) && m4 == SetEntry(v3.mem, job.dst, i, e.(frame := sub.dst))
    requires IsTable(m0, job.src) && m0[job.src].entries[i] == e && job.src != job.dst
    requires IsTable(v3.mem, job.src) && v3.mem[job.src].entries[i] == e
    requires SameUnder(v2.mem, m0, v2.own, job.from, sub.path)
    ensures ImageEntry(m0, m4, job, i)
  {
    WholeImage(v2.mem, v3.mem, sub);
    CowImageSource(v2.mem, m0, v2.own, sub.src, v3.mem, sub.dst);
    CowImageSource(v2.mem, m0, v2.own, sub.src, v3.mem, sub.src);
    forall dir: int ensures SameUnder(v3.mem, m4, v3.own, dir, sub.path) {
      forall s | s in v3.own && Under(v3.own, s, dir, sub.path) ensures s in v3.mem && s in m4 && m4[s] == v3.mem[s] {
        assert TableOk(v3.mem, v3.own, s);
        assert s != job.dst;
      }
    }
    CowImageFrame(m0, sub.src, v3.mem, m4, v3.own, sub.dst);
    CowImageFrame(m0, sub.src, v3.mem, m4, v3.own, sub.src);
  }

  lemma ChildAdded(m0: Mem, refs0: seq<nat>, refs1: seq<nat>, v2: View, refs3: seq<nat>, job: Job, i: nat, sub: Job)
    requires |job.path| < 3 && i < 512 && Added(m0, refs0, refs1, job, i)
    requires IsTable(m0, job.src) && m0[job.src].entries[i].present && !SharedChild(job.path, i)
    requires sub.src == m0[job.src].entries[i].frame && sub.path == job.path + [i]
    requires Forest(v2.mem, v2.own) && sub.src in v2.own && v2.own[sub.src] == Label(job.from, sub.path)
    requires SameUnder(v2.mem, m0, v2.own, job.from, sub.path)
    requires Added(v2.mem, refs1, refs3, sub, 512)
    ensures Added(m0, refs0, refs3, job, i + 1)
  {
    forall f | 0 <= f < |refs3| ensures Count(m0, sub.src, sub.path, 512, f) == Count(v2.mem, sub.src, sub.path, 512, f) {
      CountFrame(v2.mem, m0, v2.own, sub.src, 512, f);
    }
    AddedChild(m0, refs0, refs1, job, i, refs3, sub);
  }

  lemma ChildShape(v0: View, v1: View, v2: View, v3: View, v4: View, job: Job, i: nat, sub: Job, e: Entry)
    requires Cloning(v0, job) && i < 512 && |job.path| < 3 && Shape(v0, v1, job, i) && Grows(v0, v1)
    requires sub.path == job.path + [i] && sub.to == job.to && sub.from == job.from && sub.dst !in v1.own
    requires v2.own == v1.own[sub.dst := Label(job.to, sub.path)]
    requires Cloning(v2, sub) && Shape(v2, v3, sub, 512) && Grows(v2, v3)
    requires forall t :: t in v1.own && (t == job.src || t == job.dst || Touched(v1.own[t], job, i) || !Touched(v1.own[t], job, i + 1)) ==>
      Kept(v1.mem, v3.mem, t)
    requires IsTable(v3.mem, job.dst) && v4 == v3.(mem := SetEntry(v3.mem, job.dst, i, e))
    ensures Shape(v0, v4, job, i + 1)
  {
    hide Cloning, Grows, Touched, Kept, IsTable;
    assert Kept(v1.mem, v3.mem, job.src) && Kept(v1.mem, v3.mem, job.dst) by {
      hide Shape;
      SourceOwned(v0, v1, job);
    }
    ChildEntries(v0, v1, v3, job, i, e);
    forall t | t in v4.own && t !in v0.own ensures v4.own[t].dir == job.to && job.path < v4.own[t].path {
      ChildLabels(v0, v1, v2, v3, job, i, sub, t);
    }
    forall t | t in v0.own && t != job.dst && !Touched(v0.own[t], job, i + 1) ensures Kept(v0.mem, v4.mem, t) {
      ChildKeeps(v0, v1, v3, job, i, e, t);
    }
  }

  lemma SourceOwned(v0: View, v1: View, job: Job)
    requires Cloning(v0, job) && Grows(v0, v1)
    ensures job.src in v1.own && job.dst in v1.own
  {
  }

  lemma ChildEntries(v0: View, v1: View, v3: View, job: Job, i: nat, e: Entry)
    requires Cloning(v0, job) && i < 512 && Shape(v0, v1, job, i)
    requires Kept(v1.mem, v3.mem, job.src) && Kept(v1.mem, v3.mem, job.dst)
    ensures IsTable(v3.mem, job.dst)
    ensures var m := SetEntry(v3.mem, job.dst, i, e);
            && IsTable(m, job.src) && IsTable(m, job.dst) && IsTable(v0.mem, job.src)
            && forall j :: i < j < 512 ==> m[job.dst].entries[j] == ZERO_ENTRY && m[job.src].entries[j] == v0.mem[job.src].entries[j]
  {
  }

  lemma ChildKeeps(v0: View, v1: View, v3: View, job: Job, i: nat, e: Entry, t: nat)
    requires Cloning(v0, job) && i < 512 && Shape(v0, v1, job, i) && Grows(v0, v1)
    requires t in v0.own && t != job.dst && !Touched(v0.own[t], job, i + 1) && IsTable(v3.mem, job.dst)
    requires forall t :: t in v1.own && !Touched(v1.own[t], job, i + 1) ==> Kept(v1.mem, v3.mem, t)
    ensures Kept(v0.mem, SetEntry(v3.mem, job.dst, i, e), t)
  {
    assert Kept(v0.mem, v1.mem, t) && Kept(v1.mem, v3.mem, t);
  }

  lemma ChildLabels(v0: View, v1: View, v2: View, v3: View, job: Job, i: nat, sub: Job, t: nat)
    requires Cloning(v0, job) && Shape(v0, v1, job, i) && Cloning(v2, sub) && Shape(v2, v3, sub, 512) && Grows(v2, v3)
    requires sub.path == job.path + [i] && sub.to == job.to && v2.own == v1.own[sub.dst := Label(job.to, sub.path)]
    requires t in v3.own && t !in v0.own && sub.dst !in v1.own
    ensures v3.own[t].dir == job.to && job.path < v3.own[t].path
  {
    if t in v1.own {
      assert v3.own[t] == v1.own[t];
    } else if t == sub.dst {
      assert v3.own[t] == Label(job.to, sub.path);
    } else {
      PrefixStep(job.path, i, v3.own[t].path);
    }
  }

  /** The child table of an inner entry is allocated (v2), filled (v3) and
      linked (v4). */
  lemma LinkStep(v0: View, refs0: seq<nat>, v1: View, refs1: seq<nat>, v2: View, v3: View, refs3: seq<nat>, v4: View, job: Job, i: nat, sub: Job)
    requires Cloning(v0, job) && i < 512 && Cloned(v0, refs0, v1, refs1, job, i)
    requires |job.path| < 3 && v1.mem[job.src].entries[i].present && !SharedChild(job.path, i)
    requires sub == ChildJob(v1.mem, job, i, sub.dst) && sub.dst !in v1.own
    requires v2.own == v1.own[sub.dst := Label(job.to, sub.path)] && v2.mem == v1.mem[sub.dst := EmptyTable()]
    requires Grows(v1, v2) && CoreView(v2, refs1) && Cloning(v2, sub) && Cloned(v2, refs1, v3, refs3, sub, 512)
    requires IsTable(v3.mem, job.dst)
    requires v4 == v3.(mem := SetEntry(v3.mem, job.dst, i, v1.mem[job.src].entries[i].(frame := sub.dst)))
    ensures Cloned(v0, refs0, v4, refs3, job, i + 1)
  {
    var e := v1.mem[job.src].entries[i];
    LinkKept(v1, v2, v3, job, i, sub);
    ChildUntouched(v0, v1, v2, job, i, sub.dst);
    ChildShape(v0, v1, v2, v3, v4, job, i, sub, e.(frame := sub.dst));
    LinkImages(v0.mem, v1, v2, v3, job, i, sub, v4.mem);
    ChildAdded(v0.mem, refs0, refs1, v2, refs3, job, i, sub);
    EntryForest(v3, refs3, job.dst, i, e.(frame := sub.dst));
    GrowsChain(v0, v1, v2);
    GrowsChain(v0, v2, v3);
    GrowsLink(v3, job.dst, i, e.(frame := sub.dst));
    GrowsChain(v0, v3, v4);
  }

  lemma GrowsLink(v: View, t: nat, i: nat, e: Entry)
    requires t in v.own && IsTable(v.mem, t) && i < 512
    ensures Grows(v, v.(mem := SetEntry(v.mem, t, i, e)))
  {
  }

  lemma LinkKept(v1: View, v2: View, v3: View, job: Job, i: nat, sub: Job)
    requires Forest(v1.mem, v1.own) && i < 512 && |job.path| < 3 && IsTable(v1.mem, job.src)
    requires job.src in v1.own && v1.own[job.src].path == job.path && job.dst in v1.own && v1.own[job.dst].path == job.path
    requires sub == ChildJob(v1.mem, job, i, sub.dst) && sub.dst !in v1.own
    requires v2.own == v1.own[sub.dst := Label(job.to, sub.path)] && v2.mem == v1.mem[sub.dst := EmptyTable()]
    requires Cloning(v2, sub) && Shape(v2, v3, sub, 512)
    ensures forall t :: t in v1.own && (t == job.src || t == job.dst || Touched(v1.own[t], job, i) || !Touched(v1.own[t], job, i + 1)) ==>
      Kept(v1.mem, v3.mem, t)
  {
    forall t | t in v1.own && (t == job.src || t == job.dst || Touched(v1.own[t], job, i) || !Touched(v1.own[t], job, i + 1))
      ensures Kept(v1.mem, v3.mem, t)
    {
      assert TableOk(v1.mem, v1.own, t);
      ChildKept(v1, v2, v3, job, i, sub.dst, t);
    }
  }

  lemma LinkImages(m0: Mem, v1: View, v2: View, v3: View, job: Job, i: nat, sub: Job, m4: Mem)
    requires Forest(v1.mem, v1.own) && Forest(v2.mem, v2.own) && Forest(v3.mem, v3.own)
    requires i < 512 && |job.path| < 3 && IsTable(v1.mem, job.src) && IsTable(v1.mem, job.dst) && Images(m0, v1.mem, job, i)
    requires job.src in v1.own && v1.own[job.src] == Label(job.from, job.path)
    requires job.dst in v1.own && v1.own[job.dst] == Label(job.to, job.path) && job.src != job.dst
    requires v1.mem[job.src].entries[i].present && !SharedChild(job.path, i)
    requires sub == ChildJob(v1.mem, job, i, sub.dst)
    requires Cloning(v2, sub) && Grows(v2, v3) && Images(v2.mem, v3.mem, sub, 512)
    requires job.dst in v3.own && v3.own[job.dst].path == job.path
    requires IsTable(m0, job.src) && m0[job.src].entries[i] == v1.mem[job.src].entries[i]
    requires SameUnder(v2.mem, m0, v2.own, job.from, sub.path)
    requires forall t :: t in v1.own && (t == job.src || t == job.dst || Touched(v1.own[t], job, i) || !Touched(v1.own[t], job, i + 1)) ==>
      Kept(v1.mem, v3.mem, t)
    requires IsTable(v3.mem, job.dst) && m4 == SetEntry(v3.mem, job.dst, i, v1.mem[job.src].entries[i].(frame := sub.dst))
    ensures Images(m0, m4, job, i + 1)
  {
    var e := v1.mem[job.src].entries[i];
    assert Kept(v1.mem, v3.mem, job.src) && Kept(v1.mem, v3.mem, job.dst);
    forall t | t in v1.own && t != job.dst && (Touched(v1.own[t], job, i) || !Touched(v1.own[t], job, i + 1)) ensures Kept(v1.mem, m4, t) {
      assert Kept(v1.mem, v3.mem, t);
    }
    KeepImages(m0, v1, m4, job, i);
    ChildImage(m0, v2, v3, job, i, sub, m4, e);
  }

  lemma ClonedTables(v0: View, refs0: seq<nat>, v: View, refs: seq<nat>, job: Job, i: nat)
    requires Cloning(v0, job) && i <= 512 && Cloned(v0, refs0, v, refs, job, i)
    ensures IsTable(v.mem, job.src) && IsTable(v.mem, job.dst) && job.src != job.dst && CoreView(v, refs) && |job.path| <= 3
    ensures Cloning(v, job)
  {
  }

  lemma ClonedGrows(v0: View, refs0: seq<nat>, v: View, refs: seq<nat>, job: Job, t: nat)
    requires Cloning(v0, job) && Cloned(v0, refs0, v, refs, job, 512) && t in v0.own
    ensures t in v.own && v.own[t] == v0.own[t]
  {
  }
}
