/** Who names whom: descriptor slots name open files, open files name nodes and
    pipes, and each keeps a count of those that name it. */
module DescriptorCounts {

  const MAX_FD: nat := 32
  const EMPTY: int := -1

  function Blank(): (r: seq<int>)
    ensures |r| == MAX_FD && forall i :: 0 <= i < MAX_FD ==> r[i] == EMPTY
  {
    seq(MAX_FD, _ => EMPTY)
  }

  /** fs_node_t, as far as closing it matters. */
  datatype Node = Pipe(id: nat) | Persistent | Transient(id: nat)

  /** file_t. */
  datatype File = File(node: Node, writer: bool, refcount: nat)

  /** The two counts of a pipe_t. */
  datatype Ends = Ends(readers: nat, writers: nat)

  /** All fd tables, and everything allocated that they lead to. */
  datatype State = State(tables: map<nat, seq<int>>, files: map<nat, File>, pipes: map<nat, Ends>, nodes: set<nat>)

  type Slot = (nat, nat)

  ghost predicate At(tables: map<nat, seq<int>>, t: nat, i: nat, f: int)
  {
    t in tables && i < |tables[t]| && tables[t][i] == f
  }

  /** The slots, over all tasks, that name file f. */
  ghost function Naming(tables: map<nat, seq<int>>, f: nat): set<Slot>
  {
    set t, i | t in tables && 0 <= i < |tables[t]| && At(tables, t, i, f) :: (t, i)
  }

  lemma NamingHas(tables: map<nat, seq<int>>, f: nat, t: nat, i: nat)
    ensures (t, i) in Naming(tables, f) <==> At(tables, t, i, f)
  {
  }

  ghost predicate OnEnd(files: map<nat, File>, f: int, p: nat, writer: bool)
  {
    f >= 0 && f in files && files[f].node == Pipe(p) && files[f].writer == writer
  }

  /** The slots that reach one end of pipe p. */
  ghost function EndSlots(s: State, p: nat, writer: bool): set<Slot>
  {
    set t, i | t in s.tables && 0 <= i < |s.tables[t]| && OnEnd(s.files, s.tables[t][i], p, writer) :: (t, i)
  }

  lemma EndHas(s: State, p: nat, writer: bool, t: nat, i: nat)
    ensures (t, i) in EndSlots(s, p, writer) <==> t in s.tables && i < |s.tables[t]| && OnEnd(s.files, s.tables[t][i], p, writer)
  {
  }

  ghost predicate TablesOk(s: State)
  {
    forall t :: t in s.tables ==>
      |s.tables[t]| == MAX_FD && forall i :: 0 <= i < MAX_FD ==> s.tables[t][i] == EMPTY || (s.tables[t][i] >= 0 && s.tables[t][i] in s.files)
  }

  ghost predicate FilesOk(s: State)
  {
    forall f :: f in s.files ==> s.files[f].refcount == |Naming(s.tables, f)| && s.files[f].refcount > 0
  }

  ghost predicate PipesOk(s: State)
  {
    forall p :: p in s.pipes ==>
      && s.pipes[p].readers == |EndSlots(s, p, false)| && s.pipes[p].writers == |EndSlots(s, p, true)|
      && s.pipes[p].readers + s.pipes[p].writers > 0
  }

  ghost predicate NodesOk(s: State)
  {
    && (forall f :: f in s.files && s.files[f].node.Pipe? ==> s.files[f].node.id in s.pipes)
    && (forall f :: f in s.files && s.files[f].node.Transient? ==> s.files[f].node.id in s.nodes)
    && (forall f, g :: f in s.files && g in s.files && s.files[f].node.Transient? && s.files[f].node == s.files[g].node ==> f == g)
    && (forall n :: n in s.nodes ==> exists f :: f in s.files && s.files[f].node == Transient(n))
  }

  /** Nothing that a slot reaches has been freed, every count is right, and
      nothing unreached is left over. */
  ghost predicate Conserved(s: State)
  {
    TablesOk(s) && FilesOk(s) && PipesOk(s) && NodesOk(s)
  }

  // ----- One slot more

  function SetSlot(tables: map<nat, seq<int>>, t: nat, i: nat, f: int): map<nat, seq<int>>
    requires t in tables && i < |tables[t]|
  {
    tables[t := tables[t][i := f]]
  }

  function Counted(pipes: map<nat, Ends>, file: File, d: int): map<nat, Ends>
    requires file.node.Pipe? ==> file.node.id in pipes && (d == -1 ==> if file.writer then pipes[file.node.id].writers > 0 else pipes[file.node.id].readers > 0)
    requires d == 1 || d == -1
  {
    if !file.node.Pipe? then pipes else
    var e := pipes[file.node.id];
    pipes[file.node.id := if file.writer then e.(writers := e.writers + d) else e.(readers := e.readers + d)]
  }

  /** The empty slot i of task t comes to name file f: refcount and pipe end
      count one more. */
  function Share(s: State, t: nat, i: nat, f: nat): State
    requires t in s.tables && i < |s.tables[t]| && f in s.files && (s.files[f].node.Pipe? ==> s.files[f].node.id in s.pipes)
  {
    var file := s.files[f];
    State(SetSlot(s.tables, t, i, f), s.files[f := file.(refcount := file.refcount + 1)], Counted(s.pipes, file, 1), s.nodes)
  }

  /** Files of s' are files of s, but for their counts. */
  ghost predicate SameFiles(s: State, s': State)
  {
    forall f :: f in s'.files ==> f in s.files && s'.files[f].node == s.files[f].node && s'.files[f].writer == s.files[f].writer
  }

  lemma NamingAdded(tables: map<nat, seq<int>>, t: nat, i: nat, f: nat, g: nat)
    requires t in tables && i < |tables[t]| && tables[t][i] == EMPTY
    ensures Naming(SetSlot(tables, t, i, f), g) == if g == f then Naming(tables, g) + {(t, i)} else Naming(tables, g)
    ensures (t, i) !in Naming(tables, g)
  {
    var tables' := SetSlot(tables, t, i, f);
    forall x: Slot
      ensures x in Naming(tables', g) <==> x in Naming(tables, g) || (g == f && x == (t, i))
    {
      assert x in Naming(tables', g) <==> At(tables', x.0, x.1, g);
      assert x in Naming(tables, g) <==> At(tables, x.0, x.1, g);
    }
  }

  lemma EndAdded(s: State, s': State, t: nat, i: nat, f: nat, p: nat, w: bool)
    requires t in s.tables && i < |s.tables[t]| && s.tables[t][i] == EMPTY && s'.tables == SetSlot(s.tables, t, i, f)
    requires SameFiles(s, s') && SameFiles(s', s)
    ensures |EndSlots(s', p, w)| == |EndSlots(s, p, w)| + if OnEnd(s.files, f, p, w) then 1 else 0
  {
    hide EndSlots;
    forall x: Slot
      ensures x in EndSlots(s', p, w) <==> x in EndSlots(s, p, w) || (x == (t, i) && OnEnd(s.files, f, p, w))
    {
      EndHas(s', p, w, x.0, x.1);
      EndHas(s, p, w, x.0, x.1);
      if x.0 in s.tables && x.1 < |s.tables[x.0]| && x != (t, i) {
        assert s'.tables[x.0][x.1] == s.tables[x.0][x.1];
      }
    }
    EndHas(s, p, w, t, i);
    assert EndSlots(s', p, w) == EndSlots(s, p, w) + if OnEnd(s.files, f, p, w) then {(t, i)} else {};
  }

  lemma ShareFiles(s: State, t: nat, i: nat, f: nat)
    requires Conserved(s) && t in s.tables && i < MAX_FD && s.tables[t][i] == EMPTY && f in s.files
    ensures FilesOk(Share(s, t, i, f)) && TablesOk(Share(s, t, i, f))
  {
    hide PipesOk;
    var s' := Share(s, t, i, f);
    forall g | g in s'.files
      ensures s'.files[g].refcount == |Naming(s'.tables, g)| && s'.files[g].refcount > 0
    {
      NamingAdded(s.tables, t, i, f, g);
    }
  }

  lemma SharePipes(s: State, t: nat, i: nat, f: nat)
    requires Conserved(s) && t in s.tables && i < MAX_FD && s.tables[t][i] == EMPTY && f in s.files
    ensures PipesOk(Share(s, t, i, f))
  {
    hide Conserved, Naming, EndSlots, SetSlot, SameFiles, OnEnd;
    ShareShape(s, t, i, f);
    var s' := Share(s, t, i, f);
    forall p | p in s'.pipes
      ensures s'.pipes[p].readers == |EndSlots(s', p, false)| && s'.pipes[p].writers == |EndSlots(s', p, true)|
      ensures s'.pipes[p].readers + s'.pipes[p].writers > 0
    {
      EndAdded(s, s', t, i, f, p, false);
      EndAdded(s, s', t, i, f, p, true);
      EndCounts(s, p);
      EndOf(s.files, f, p);
    }
  }

  lemma EndOf(files: map<nat, File>, f: nat, p: nat)
    requires f in files
    ensures forall w :: OnEnd(files, f, p, w) <==> files[f].node == Pipe(p) && files[f].writer == w
  {
  }

  lemma ShareShape(s: State, t: nat, i: nat, f: nat)
    requires Conserved(s) && t in s.tables && i < MAX_FD && s.tables[t][i] == EMPTY && f in s.files
    ensures |s.tables[t]| == MAX_FD && (s.files[f].node.Pipe? ==> s.files[f].node.id in s.pipes)
    ensures SameFiles(s, Share(s, t, i, f)) && SameFiles(Share(s, t, i, f), s)
  {
    hide Naming, EndSlots;
  }

  /** Naming a file once more keeps every count right. */
  lemma ShareKeeps(s: State, t: nat, i: nat, f: nat)
    requires Conserved(s) && t in s.tables && i < MAX_FD && s.tables[t][i] == EMPTY && f in s.files
    ensures Conserved(Share(s, t, i, f))
  {
    ShareFiles(s, t, i, f);
    SharePipes(s, t, i, f);
    ShareNodes(s, t, i, f);
  }

  lemma ShareNodes(s: State, t: nat, i: nat, f: nat)
    requires NodesOk(s) && t in s.tables && i < |s.tables[t]| && f in s.files
    ensures s.files[f].node.Pipe? ==> s.files[f].node.id in s.pipes
    ensures NodesOk(Share(s, t, i, f))
  {
    var s' := Share(s, t, i, f);
    assert forall g :: g in s'.files <==> g in s.files;
    assert forall g :: g in s.files ==> s'.files[g].node == s.files[g].node;
    forall n | n in s'.nodes
      ensures exists g :: g in s'.files && s'.files[g].node == Transient(n)
    {
      var g :| g in s.files && s.files[g].node == Transient(n);
      assert s'.files[g].node == Transient(n);
    }
  }

  // ----- One slot less

  lemma NamingRemoved(tables: map<nat, seq<int>>, t: nat, i: nat, g: nat)
    requires t in tables && i < |tables[t]|
    ensures Naming(SetSlot(tables, t, i, EMPTY), g) == Naming(tables, g) - {(t, i)}
    ensures (t, i) in Naming(tables, g) <==> tables[t][i] == g
  {
    var tables' := SetSlot(tables, t, i, EMPTY);
    forall x: Slot
      ensures x in Naming(tables', g) <==> x in Naming(tables, g) && x != (t, i)
    {
      assert x in Naming(tables', g) <==> At(tables', x.0, x.1, g);
      assert x in Naming(tables, g) <==> At(tables, x.0, x.1, g);
    }
    assert (t, i) in Naming(tables, g) <==> At(tables, t, i, g);
  }

  lemma EndRemoved(s: State, s': State, t: nat, i: nat, p: nat, w: bool)
    requires t in s.tables && i < |s.tables[t]| && s'.tables == SetSlot(s.tables, t, i, EMPTY) && SameFiles(s, s') && TablesOk(s')
    ensures EndSlots(s', p, w) == EndSlots(s, p, w) - {(t, i)}
    ensures (t, i) in EndSlots(s, p, w) <==> OnEnd(s.files, s.tables[t][i], p, w)
  {
    hide EndSlots;
    forall x: Slot
      ensures x in EndSlots(s', p, w) <==> x in EndSlots(s, p, w) && x != (t, i)
    {
      EndHas(s', p, w, x.0, x.1);
      EndHas(s, p, w, x.0, x.1);
      if x.0 in s.tables && x.1 < |s.tables[x.0]| && x != (t, i) {
        assert s'.tables[x.0][x.1] == s.tables[x.0][x.1];
      }
    }
    EndHas(s, p, w, t, i);
  }

  lemma EndsFewer(s: State, s': State, t: nat, i: nat, p: nat, w: bool)
    requires t in s.tables && i < |s.tables[t]| && s'.tables == SetSlot(s.tables, t, i, EMPTY) && SameFiles(s, s') && TablesOk(s')
    ensures |EndSlots(s', p, w)| == |EndSlots(s, p, w)| - if OnEnd(s.files, s.tables[t][i], p, w) then 1 else 0
  {
    hide EndSlots, TablesOk, SameFiles, OnEnd, SetSlot;
    EndRemoved(s, s', t, i, p, w);
  }

  /** What close does to the file, once its slot is empty: one name less, one
      pipe end less, and what nobody names any more is freed. */
  function Dropped(s: State, f: nat): State
    requires f in s.files && s.files[f].refcount > 0
    requires s.files[f].node.Pipe? ==> s.files[f].node.id in s.pipes
    requires s.files[f].node.Pipe? ==> var e := s.pipes[s.files[f].node.id]; if s.files[f].writer then e.writers > 0 else e.readers > 0
  {
    var file := s.files[f];
    var pipes := Counted(s.pipes, file, -1);
    if file.refcount > 1 then s.(files := s.files[f := file.(refcount := file.refcount - 1)], pipes := pipes)
    else State(s.tables, s.files - {f},
               if file.node.Pipe? && pipes[file.node.id] == Ends(0, 0) then pipes - {file.node.id} else pipes,
               if file.node.Transient? then s.nodes - {file.node.id} else s.nodes)
  }

  function Close(s: State, t: nat, i: nat): State
    requires t in s.tables && i < |s.tables[t]| && s.tables[t][i] >= 0 && var f := s.tables[t][i];
             && f in s.files && s.files[f].refcount > 0
             && (s.files[f].node.Pipe? ==>
                   s.files[f].node.id in s.pipes && var e := s.pipes[s.files[f].node.id]; if s.files[f].writer then e.writers > 0 else e.readers > 0)
  {
    Dropped(s.(tables := SetSlot(s.tables, t, i, EMPTY)), s.tables[t][i])
  }

  /** An occupied slot leads only to live things with positive counts. */
  lemma SlotIsLive(s: State, t: nat, i: nat)
    requires Conserved(s) && t in s.tables && i < MAX_FD && s.tables[t][i] != EMPTY
    ensures |s.tables[t]| == MAX_FD && s.tables[t][i] >= 0 && var f := s.tables[t][i];
            && f in s.files && s.files[f].refcount > 0
            && (s.files[f].node.Pipe? ==>
                  s.files[f].node.id in s.pipes && var e := s.pipes[s.files[f].node.id]; if s.files[f].writer then e.writers > 0 else e.readers > 0)
  {
    var f := s.tables[t][i];
    if s.files[f].node.Pipe? {
      var p, w := s.files[f].node.id, s.files[f].writer;
      assert OnEnd(s.files, s.tables[t][i], p, w);
      assert (t, i) in EndSlots(s, p, w);
    }
  }

  lemma CloseFiles(s: State, t: nat, i: nat, s': State)
    requires Conserved(s) && t in s.tables && i < |s.tables[t]| && s.tables[t][i] >= 0 && Close.requires(s, t, i) && s' == Close(s, t, i)
    ensures FilesOk(s') && TablesOk(s')
  {
    hide PipesOk, NodesOk, Naming, Counted;
    var f := s.tables[t][i];
    assert s'.tables == SetSlot(s.tables, t, i, EMPTY);
    NamingRemoved(s.tables, t, i, f);
    assert |Naming(s'.tables, f)| == s.files[f].refcount - 1;
    forall g | g in s'.files
      ensures s'.files[g].refcount == |Naming(s'.tables, g)| && s'.files[g].refcount > 0
    {
      NamingRemoved(s.tables, t, i, g);
    }
    forall u, j | u in s'.tables && 0 <= j < MAX_FD
      ensures |s'.tables[u]| == MAX_FD && (s'.tables[u][j] == EMPTY || (s'.tables[u][j] >= 0 && s'.tables[u][j] in s'.files))
    {
      NamingHas(s'.tables, f, u, j);
      assert Naming(s'.tables, f) == {} || f in s'.files;
    }
  }

  lemma ClosePipes(s: State, t: nat, i: nat, s': State)
    requires Conserved(s) && t in s.tables && i < |s.tables[t]| && s.tables[t][i] >= 0 && Close.requires(s, t, i) && s' == Close(s, t, i)
    requires TablesOk(s')
    ensures PipesOk(s')
  {
    hide Conserved, Naming, EndSlots, TablesOk, SetSlot, SameFiles, OnEnd;
    var f: nat := s.tables[t][i];
    var file := s.files[f];
    if file.node.Pipe? && file.refcount > 1 {
      CloseLeft(s, t, i, f);
    }
    CloseShape(s, t, i, s');
    forall p | p in s'.pipes
      ensures s'.pipes[p].readers == |EndSlots(s', p, false)| && s'.pipes[p].writers == |EndSlots(s', p, true)|
      ensures s'.pipes[p].readers + s'.pipes[p].writers > 0
    {
      EndsFewer(s, s', t, i, p, false);
      EndsFewer(s, s', t, i, p, true);
      EndCounts(s, p);
      EndOf(s.files, f, p);
    }
  }

  lemma CloseShape(s: State, t: nat, i: nat, s': State)
    requires t in s.tables && i < |s.tables[t]| && s.tables[t][i] >= 0 && Close.requires(s, t, i) && s' == Close(s, t, i)
    ensures s'.tables == SetSlot(s.tables, t, i, EMPTY) && SameFiles(s, s')
  {
  }

  lemma EndCounts(s: State, p: nat)
    requires Conserved(s) && p in s.pipes
    ensures s.pipes[p].readers == |EndSlots(s, p, false)| && s.pipes[p].writers == |EndSlots(s, p, true)|
    ensures s.pipes[p].readers + s.pipes[p].writers > 0
  {
  }

  /** A file named twice keeps its pipe end in use. */
  lemma CloseLeft(s: State, t: nat, i: nat, f: nat)
    requires Conserved(s) && t in s.tables && i < |s.tables[t]| && s.tables[t][i] == f && f in s.files
    requires s.files[f].node.Pipe? && s.files[f].refcount > 1
    ensures s.files[f].node.id in s.pipes
    ensures var e := s.pipes[s.files[f].node.id]; if s.files[f].writer then e.writers > 1 else e.readers > 1
  {
    hide Naming, EndSlots;
    var p, w := s.files[f].node.id, s.files[f].writer;
    forall x | x in Naming(s.tables, f)
      ensures x in EndSlots(s, p, w)
    {
      NamingHas(s.tables, f, x.0, x.1);
      EndHas(s, p, w, x.0, x.1);
    }
    Smaller(Naming(s.tables, f), EndSlots(s, p, w));
  }

  lemma Smaller(a: set<Slot>, b: set<Slot>)
    requires a <= b
    ensures |a| <= |b|
  {
    assert b == a + (b - a);
  }

  lemma CloseNodes(s: State, t: nat, i: nat, s': State)
    requires Conserved(s) && t in s.tables && i < |s.tables[t]| && s.tables[t][i] >= 0 && Close.requires(s, t, i) && s' == Close(s, t, i)
    ensures NodesOk(s')
  {
    hide Naming, EndSlots, TablesOk, FilesOk, PipesOk, SetSlot;
    var f := s.tables[t][i];
    assert forall g :: g in s'.files ==> g in s.files && s'.files[g].node == s.files[g].node;
    forall g | g in s'.files && s'.files[g].node.Pipe?
      ensures s'.files[g].node.id in s'.pipes
    {
      if s.files[f].node == s.files[g].node && s.files[f].refcount == 1 {
        PipeStillUsed(s, t, i, f, g);
      }
    }
    forall n | n in s'.nodes
      ensures exists g :: g in s'.files && s'.files[g].node == Transient(n)
    {
      var g :| g in s.files && s.files[g].node == Transient(n);
      assert g in s'.files;
    }
  }

  /** Another file on the same pipe keeps one of its ends in use. */
  lemma PipeStillUsed(s: State, t: nat, i: nat, f: nat, g: nat)
    requires Conserved(s) && t in s.tables && i < |s.tables[t]| && s.tables[t][i] == f && f in s.files && g in s.files && f != g
    requires s.files[f].node.Pipe? && s.files[g].node == s.files[f].node
    ensures s.files[f].node.id in s.pipes
    ensures var p := s.files[f].node.id; var e := s.pipes[p];
            if s.files[g].writer == s.files[f].writer then (if s.files[f].writer then e.writers > 1 else e.readers > 1)
            else if s.files[g].writer then e.writers > 0 else e.readers > 0
  {
    hide Naming, EndSlots;
    var p, w := s.files[g].node.id, s.files[g].writer;
    assert |Naming(s.tables, g)| > 0;
    var x :| x in Naming(s.tables, g);
    NamingHas(s.tables, g, x.0, x.1);
    EndHas(s, p, w, x.0, x.1);
    EndHas(s, p, w, t, i);
    assert x != (t, i);
    hide PipesOk, TablesOk, FilesOk, NodesOk;
    if s.files[f].writer == w {
      Smaller({x, (t, i)}, EndSlots(s, p, w));
    } else {
      Smaller({x}, EndSlots(s, p, w));
    }
    EndCount(s, p, w);
  }

  lemma EndCount(s: State, p: nat, w: bool)
    requires PipesOk(s) && p in s.pipes
    ensures |EndSlots(s, p, w)| == if w then s.pipes[p].writers else s.pipes[p].readers
  {
  }

  /** Closing a slot keeps every count right and frees exactly what it must. */
  lemma CloseKeeps(s: State, t: nat, i: nat)
    requires Conserved(s) && t in s.tables && i < MAX_FD && s.tables[t][i] != EMPTY
    ensures s.tables[t][i] >= 0 && Close.requires(s, t, i) && Conserved(Close(s, t, i))
  {
    SlotIsLive(s, t, i);
    var s' := Close(s, t, i);
    CloseFiles(s, t, i, s');
    ClosePipes(s, t, i, s');
    CloseNodes(s, t, i, s');
  }

  // ----- A new file

  function MoreEnds(pipes: map<nat, Ends>, node: Node, writer: bool): map<nat, Ends>
  {
    if !node.Pipe? then pipes else
    var e := if node.id in pipes then pipes[node.id] else Ends(0, 0);
    pipes[node.id := if writer then e.(writers := e.writers + 1) else e.(readers := e.readers + 1)]
  }

  /** The empty slot i of task t gets a file of its own. */
  function Opened(s: State, t: nat, i: nat, f: nat, node: Node, writer: bool): State
    requires t in s.tables && i < |s.tables[t]|
  {
    State(SetSlot(s.tables, t, i, f), s.files[f := File(node, writer, 1)], MoreEnds(s.pipes, node, writer),
          if node.Transient? then s.nodes + {node.id} else s.nodes)
  }

  lemma OpenFiles(s: State, t: nat, i: nat, f: nat, node: Node, writer: bool)
    requires Conserved(s) && t in s.tables && i < MAX_FD && s.tables[t][i] == EMPTY && f !in s.files
    ensures |s.tables[t]| == MAX_FD && FilesOk(Opened(s, t, i, f, node, writer)) && TablesOk(Opened(s, t, i, f, node, writer))
  {
    hide PipesOk, NodesOk, Naming;
    var s' := Opened(s, t, i, f, node, writer);
    Unnamed(s, f);
    forall g | g in s'.files
      ensures s'.files[g].refcount == |Naming(s'.tables, g)| && s'.files[g].refcount > 0
    {
      NamingAdded(s.tables, t, i, f, g);
    }
  }

  lemma Unnamed(s: State, f: nat)
    requires TablesOk(s) && f !in s.files
    ensures Naming(s.tables, f) == {}
  {
    hide Naming;
    forall x: Slot
      ensures x !in Naming(s.tables, f)
    {
      NamingHas(s.tables, f, x.0, x.1);
    }
  }

  /** Slots on an end, after slot (t, i) came to name the new file f. */
  lemma EndOpened(s: State, s': State, t: nat, i: nat, f: nat, p: nat, w: bool)
    requires TablesOk(s) && t in s.tables && i < MAX_FD && s.tables[t][i] == EMPTY && f !in s.files && s'.tables == SetSlot(s.tables, t, i, f)
    requires f in s'.files && s'.files == s.files[f := s'.files[f]]
    ensures |EndSlots(s', p, w)| == |EndSlots(s, p, w)| + if OnEnd(s'.files, f, p, w) then 1 else 0
  {
    hide EndSlots;
    forall x: Slot
      ensures x in EndSlots(s', p, w) <==> x in EndSlots(s, p, w) || (x == (t, i) && OnEnd(s'.files, f, p, w))
    {
      EndHas(s', p, w, x.0, x.1);
      EndHas(s, p, w, x.0, x.1);
      if x.0 in s.tables && x.1 < |s.tables[x.0]| && x != (t, i) {
        assert s'.tables[x.0][x.1] == s.tables[x.0][x.1];
      }
    }
    EndHas(s, p, w, t, i);
    assert EndSlots(s', p, w) == EndSlots(s, p, w) + if OnEnd(s'.files, f, p, w) then {(t, i)} else {};
  }

  lemma NoEnds(s: State, p: nat, w: bool)
    requires NodesOk(s) && p !in s.pipes
    ensures EndSlots(s, p, w) == {}
  {
    hide EndSlots;
    forall x: Slot
      ensures x !in EndSlots(s, p, w)
    {
      EndHas(s, p, w, x.0, x.1);
    }
  }

  lemma OpenPipes(s: State, t: nat, i: nat, f: nat, node: Node, writer: bool)
    requires Conserved(s) && t in s.tables && i < MAX_FD && s.tables[t][i] == EMPTY && f !in s.files && |s.tables[t]| == MAX_FD
    ensures PipesOk(Opened(s, t, i, f, node, writer))
  {
    hide Naming, EndSlots, SetSlot, OnEnd, FilesOk;
    var s' := Opened(s, t, i, f, node, writer);
    hide NodesOk, TablesOk, PipesOk;
    assert s'.files[f] == File(node, writer, 1);
    forall p | p in s'.pipes
      ensures s'.pipes[p].readers == |EndSlots(s', p, false)| && s'.pipes[p].writers == |EndSlots(s', p, true)|
      ensures s'.pipes[p].readers + s'.pipes[p].writers > 0
    {
      EndOpened(s, s', t, i, f, p, false);
      EndOpened(s, s', t, i, f, p, true);
      EndOf(s'.files, f, p);
      if p in s.pipes {
        EndCounts(s, p);
      } else {
        NoEnds(s, p, false);
        NoEnds(s, p, true);
      }
    }
    EndsToPipes(s');
  }

  lemma EndsToPipes(s: State)
    requires forall p :: p in s.pipes ==>
               && s.pipes[p].readers == |EndSlots(s, p, false)| && s.pipes[p].writers == |EndSlots(s, p, true)|
               && s.pipes[p].readers + s.pipes[p].writers > 0
    ensures PipesOk(s)
  {
  }

  /** Opening keeps every count right; a transient node must be new. */
  lemma OpenKeeps(s: State, t: nat, i: nat, f: nat, node: Node, writer: bool)
    requires Conserved(s) && t in s.tables && i < MAX_FD && s.tables[t][i] == EMPTY && f !in s.files
    requires node.Transient? ==> node.id !in s.nodes
    ensures |s.tables[t]| == MAX_FD && Conserved(Opened(s, t, i, f, node, writer))
  {
    OpenFiles(s, t, i, f, node, writer);
    OpenPipes(s, t, i, f, node, writer);
    OpenNodes(s, t, i, f, node, writer);
  }

  lemma OpenNodes(s: State, t: nat, i: nat, f: nat, node: Node, writer: bool)
    requires NodesOk(s) && t in s.tables && i < |s.tables[t]| && f !in s.files && (node.Transient? ==> node.id !in s.nodes)
    ensures NodesOk(Opened(s, t, i, f, node, writer))
  {
    var s' := Opened(s, t, i, f, node, writer);
    forall n | n in s'.nodes
      ensures exists g :: g in s'.files && s'.files[g].node == Transient(n)
    {
      if n in s.nodes {
        var g :| g in s.files && s.files[g].node == Transient(n);
        assert s'.files[g].node == Transient(n);
      } else {
        assert s'.files[f].node == Transient(n);
      }
    }
  }

  // ----- Leaks

  /** A file that counts a name it does not have is never freed. */
  lemma LeakedFile(s: State, f: nat)
    requires f in s.files && s.files[f].refcount != |Naming(s.tables, f)|
    ensures !Conserved(s)
  {
  }

  /** A new task with an empty table. */
  lemma EmptyTask(s: State, t: nat)
    requires Conserved(s) && t !in s.tables
    ensures Conserved(s.(tables := s.tables[t := Blank()]))
  {
    var s' := s.(tables := s.tables[t := Blank()]);
    forall f | f in s.files
      ensures Naming(s'.tables, f) == Naming(s.tables, f)
    {
      SameNaming(s.tables, t, f);
    }
    forall p, w
      ensures EndSlots(s', p, w) == EndSlots(s, p, w)
    {
      SameEnds(s, t, p, w);
    }
  }

  lemma SameNaming(tables: map<nat, seq<int>>, t: nat, f: nat)
    requires t !in tables
    ensures Naming(tables[t := Blank()], f) == Naming(tables, f)
  {
    var tables' := tables[t := Blank()];
    forall x: Slot
      ensures x in Naming(tables', f) <==> x in Naming(tables, f)
    {
      NamingHas(tables', f, x.0, x.1);
      NamingHas(tables, f, x.0, x.1);
    }
  }

  lemma SameEnds(s: State, t: nat, p: nat, w: bool)
    requires t !in s.tables
    ensures EndSlots(s.(tables := s.tables[t := Blank()]), p, w) == EndSlots(s, p, w)
  {
    var s' := s.(tables := s.tables[t := Blank()]);
    forall x: Slot
      ensures x in EndSlots(s', p, w) <==> x in EndSlots(s, p, w)
    {
      EndHas(s', p, w, x.0, x.1);
      EndHas(s, p, w, x.0, x.1);
    }
  }
}
