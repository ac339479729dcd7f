/** File descriptors: file_create, close, dup, dup2 and open of vfs_core.c, pipe of
    pipe.c, and the inheritance of descriptors in fork and spawn of task.c. */
module Descriptors {
  import opened DescriptorCounts

  const FIRST_USER_FD: nat := 3

  /** The empty slots that dup, open and pipe may use. */
  ghost predicate HasFree(table: seq<int>, from: nat)
  {
    exists i :: from <= i < |table| && table[i] == EMPTY
  }

  ghost predicate LowestFree(table: seq<int>, from: nat, i: int)
  {
    from <= i < |table| && table[i] == EMPTY && forall j :: from <= j < i ==> table[j] != EMPTY
  }

  ghost predicate HasTwoFree(table: seq<int>)
  {
    exists i, j :: FIRST_USER_FD <= i < j < |table| && table[i] == EMPTY && table[j] == EMPTY
  }

  /** The tables of all tasks, and the heap of files, pipes and nodes; ids are
      never reused, so freeing removes an id for good. */
  class FdTables {
    var tables: map<nat, seq<int>>
    var files: map<nat, File>
    var pipes: map<nat, Ends>
    var nodes: set<nat>
    var next: nat

    ghost function Now(): State
      reads this
    {
      State(tables, files, pipes, nodes)
    }

    ghost predicate Numbered()
      reads this
    {
      (forall f :: f in files ==> f < next) && (forall p :: p in pipes ==> p < next) && (forall n :: n in nodes ==> n < next)
    }

    ghost predicate Valid()
      reads this
    {
      Conserved(Now()) && Numbered()
    }

    constructor ()
      ensures Valid() && tables == map[]
    {
      tables, files, pipes, nodes, next := map[], map[], map[], {}, 0;
    }

    /** A new task's table is empty. */
    method AddTask(t: nat)
      requires Valid() && t !in tables
      modifies this`tables
      ensures Valid() && tables == old(tables)[t := Blank()]
    {
      hide Conserved, Blank;
      EmptyTask(Now(), t);
      tables := tables[t := Blank()];
    }

    /** file_create: a file that counts one name. */
    method FileCreate(node: Node, writer: bool) returns (f: nat)
      modifies this`files, this`next
      ensures f == old(next) && next == f + 1 && files == old(files)[f := File(node, writer, 1)]
    {
      f, next := next, next + 1;
      files := files[f := File(node, writer, 1)];
    }

    /** The lines dup, dup2, fork and spawn share: slot i names f as well. */
    method Inherit(t: nat, i: nat, f: nat)
      requires Valid() && t in tables && i < MAX_FD && tables[t][i] == EMPTY && f in files
      modifies this
      ensures Valid() && next == old(next) && tables == SetSlot(old(tables), t, i, f)
    {
      hide Conserved;
      ghost var s := Now();
      ShareShape(s, t, i, f);
      ShareKeeps(s, t, i, f);
      tables := SetSlot(tables, t, i, f);
      var file := files[f];
      files := files[f := file.(refcount := file.refcount + 1)];
      if file.node.Pipe? {
        var e := pipes[file.node.id];
        if file.writer {
          pipes := pipes[file.node.id := e.(writers := e.writers + 1)];
        } else {
          pipes := pipes[file.node.id := e.(readers := e.readers + 1)];
        }
      }
      assert Now() == Share(s, t, i, f);
    }

    method FindFree(t: nat, from: nat) returns (fd: int)
      requires t in tables && |tables[t]| == MAX_FD && from <= MAX_FD
      ensures if fd == -1 then !HasFree(tables[t], from) else LowestFree(tables[t], from, fd)
    {
      fd := from;
      while fd < MAX_FD
        invariant from <= fd <= MAX_FD && forall j :: from <= j < fd ==> tables[t][j] != EMPTY
      {
        if tables[t][fd] == EMPTY {
          return;
        }
        fd := fd + 1;
      }
      fd := -1;
    }

    /** dup. */
    method Dup(t: nat, oldFd: int) returns (fd: int)
      requires Valid() && t in tables
      modifies this
      ensures Valid()
      ensures fd == -1 ==> tables == old(tables)
                           && (!(0 <= oldFd < 32) || old(tables)[t][oldFd] == EMPTY || !HasFree(old(tables)[t], 3))
      ensures fd != -1 ==> 0 <= oldFd < 32 && old(tables)[t][oldFd] != EMPTY && LowestFree(old(tables)[t], 3, fd)
                           && tables == SetSlot(old(tables), t, fd, old(tables)[t][oldFd])
    {
      fd := -1;
      if oldFd < 0 || oldFd >= MAX_FD || tables[t][oldFd] == EMPTY {
        return;
      }
      fd := FindFree(t, FIRST_USER_FD);
      if fd != -1 {
        Inherit(t, fd, tables[t][oldFd]);
      }
    }

    /** The lines close and vfs_close_all_fds share, once the slot is empty. */
    method Drop(f: nat)
      requires f in files && files[f].refcount > 0 && Dropped.requires(Now(), f)
      modifies this`files, this`pipes, this`nodes
      ensures Now() == Dropped(old(Now()), f)
    {
      var file := files[f];
      files := files[f := file.(refcount := file.refcount - 1)];
      if file.node.Pipe? {
        var e := pipes[file.node.id];
        if file.writer {
          if e.writers > 0 {
            pipes := pipes[file.node.id := e.(writers := e.writers - 1)];
          }
        } else if e.readers > 0 {
          pipes := pipes[file.node.id := e.(readers := e.readers - 1)];
        }
      }
      if files[f].refcount == 0 {
        if !file.node.Persistent? {
          if file.node.Pipe? {
            if pipes[file.node.id].readers == 0 && pipes[file.node.id].writers == 0 {
              pipes := pipes - {file.node.id};
            }
          } else {
            nodes := nodes - {file.node.id};
          }
        }
        files := files - {f};
      }
    }

    /** close. */
    method CloseFd(t: nat, fd: int) returns (r: int)
      requires Valid() && t in tables
      modifies this
      ensures Valid() && next == old(next)
      ensures r == if 0 <= fd < 32 && old(tables)[t][fd] != EMPTY then 0 else -1
      ensures r == -1 ==> Now() == old(Now())
      ensures r == 0 ==> tables == SetSlot(old(tables), t, fd, EMPTY) && Freed(old(Now()), Now(), old(tables)[t][fd])
    {
      hide Conserved, Freed, Dropped, SetSlot;
      TableSize(Now(), t);
      if fd < 0 || fd >= MAX_FD || tables[t][fd] == EMPTY {
        return -1;
      }
      ghost var s := Now();
      SlotIsLive(s, t, fd);
      CloseKeeps(s, t, fd);
      CloseFrees(s, t, fd);
      var f := tables[t][fd];
      tables := SetSlot(tables, t, fd, EMPTY);
      Drop(f);
      FreedOnly(s, Now(), f);
      r := 0;
    }

    /** vfs_close_all_fds. */
    method CloseAll(t: nat)
      requires Valid() && t in tables
      modifies this
      ensures Valid() && next == old(next)
      ensures tables == old(tables)[t := Blank()]
    {
      hide Conserved, Freed, Copied, Blank;
      TableSize(Now(), t);
      ghost var was := tables;
      var i := 0;
      CopiedEnds(was[t], Blank());
      while i < MAX_FD
        invariant 0 <= i <= MAX_FD && Valid() && next == old(next)
        invariant tables == was[t := Copied(was[t], Blank(), i)]
      {
        CopiedNext(was[t], Blank(), i);
        if tables[t][i] != EMPTY {
          var r := CloseFd(t, i);
        }
        i := i + 1;
      }
    }

    /** The loop of fork and of spawn that copies the parent's table. */
    method InheritAll(t: nat, child: nat)
      requires Valid() && t in tables && child !in tables
      modifies this
      ensures Valid() && next == old(next) && tables == old(tables)[child := old(tables)[t]]
    {
      hide Conserved, Copied, Blank;
      TableSize(Now(), t);
      EmptyTask(Now(), child);
      ghost var was := tables;
      var blank := Blank();
      tables := tables[child := blank];
      var i := 0;
      CopiedEnds(blank, was[t]);
      while i < MAX_FD
        invariant 0 <= i <= MAX_FD && Valid() && next == old(next)
        invariant tables == was[child := Copied(blank, was[t], i)]
      {
        CopiedNext(blank, was[t], i);
        if tables[t][i] != EMPTY {
          SlotIsLive(Now(), t, i);
          Inherit(child, i, tables[t][i]);
        }
        i := i + 1;
      }
    }

    /** dup2. */
    method Dup2(t: nat, oldFd: int, newFd: int) returns (r: int)
      requires Valid() && t in tables
      modifies this
      ensures Valid()
      ensures r == if 0 <= oldFd < 32 && 0 <= newFd < 32 && old(tables)[t][oldFd] != EMPTY then newFd else -1
      ensures tables == if r == -1 then old(tables) else SetSlot(old(tables), t, newFd, old(tables)[t][oldFd])
    {
      hide Conserved, Freed;
      TableSize(Now(), t);
      if oldFd < 0 || oldFd >= MAX_FD || newFd < 0 || newFd >= MAX_FD || tables[t][oldFd] == EMPTY {
        return -1;
      }
      r := newFd;
      if oldFd == newFd {
        assert tables[t][newFd := tables[t][oldFd]] == tables[t];
        return;
      }
      var f := tables[t][oldFd];
      if tables[t][newFd] != EMPTY {
        var c := CloseFd(t, newFd);
      }
      SlotIsLive(Now(), t, oldFd);
      Inherit(t, newFd, f);
      assert tables[t] == old(tables)[t][newFd := f];
    }

    /** The end of open: a node and, if there is one, the lowest free slot. A
        transient node comes fresh from the path lookup. */
    method Open(t: nat, transient: bool, writer: bool) returns (fd: int, ghost f: nat)
      requires Valid() && t in tables
      modifies this
      ensures (fd == -1 <==> !HasFree(old(tables)[t], 3)) && (fd == -1 ==> tables == old(tables))
      ensures fd != -1 ==> LowestFree(old(tables)[t], 3, fd) && fd < 32
                           && f !in old(files) && tables == SetSlot(old(tables), t, fd, f)
      ensures Valid() <==> fd != -1 || !transient
    {
      hide Conserved;
      TableSize(Now(), t);
      ghost var s := Now();
      f := 0;
      var node := Persistent;
      if transient {
        node, nodes, next := Transient(next), nodes + {next}, next + 1;
      }
      fd := FindFree(t, FIRST_USER_FD);
      if fd != -1 {
        var file := FileCreate(node, writer);
        f := file;
        OpenKeeps(s, t, fd, f, node, writer);
        tables := SetSlot(tables, t, fd, file);
        assert Now() == Opened(s, t, fd, f, node, writer);
      } else if transient {
        LostNode(s, Now(), node.id);
      } else {
        assert Now() == s;
      }
    }

    /** pipe: pipe and files are made before the slots are looked for. */
    method MakePipe(t: nat) returns (ok: bool, rfd: int, wfd: int, ghost r: nat, ghost w: nat)
      requires Valid() && t in tables
      modifies this
      ensures ok <==> HasTwoFree(old(tables)[t])
      ensures ok ==> LowestFree(old(tables)[t], 3, rfd) && LowestFree(old(tables)[t], rfd + 1, wfd) && wfd < 32
      ensures ok ==> tables == SetSlot(SetSlot(old(tables), t, rfd, r), t, wfd, w)
      ensures ok ==> && r in files && w in files && r !in old(files) && w !in old(files)
                     && files[r].node.Pipe? && files[w].node == files[r].node && !files[r].writer && files[w].writer
                     && files[r].node.id !in old(pipes)
      ensures Valid() <==> ok
    {
      hide Conserved, HasTwoFree, LowestFree;
      TableSize(Now(), t);
      ghost var s := Now();
      var p;
      p, next := next, next + 1;
      pipes := pipes[p := Ends(1, 1)];
      var rf := FileCreate(Pipe(p), false);
      var wf := FileCreate(Pipe(p), true);
      r, w := rf, wf;
      rfd, wfd := FindTwo(t);
      ok := rfd != -1 && wfd != -1;
      if ok {
        TwoSlots(tables[t], rfd, wfd);
        tables := SetSlot(tables, t, rfd, rf);
        tables := SetSlot(tables, t, wfd, wf);
        PipeKeeps(s, t, rfd, wfd, rf, wf, p);
      } else {
        LostFile(s, Now(), rf);
      }
    }

    /** The search loop of pipe: the two lowest free slots. */
    method FindTwo(t: nat) returns (rfd: int, wfd: int)
      requires t in tables && |tables[t]| == MAX_FD
      ensures rfd != -1 && wfd != -1 <==> HasTwoFree(tables[t])
      ensures rfd != -1 && wfd != -1 ==> LowestFree(tables[t], 3, rfd) && LowestFree(tables[t], rfd + 1, wfd) && wfd < 32
    {
      rfd, wfd := -1, -1;
      var i := FIRST_USER_FD;
      while i < MAX_FD
        invariant FIRST_USER_FD <= i <= MAX_FD && wfd == -1
        invariant if rfd == -1 then forall j :: FIRST_USER_FD <= j < i ==> tables[t][j] != EMPTY
                  else rfd < i && LowestFree(tables[t], FIRST_USER_FD, rfd) && forall j :: rfd < j < i ==> tables[t][j] != EMPTY
      {
        if tables[t][i] == EMPTY {
          if rfd == -1 {
            rfd := i;
          } else {
            wfd := i;
            return;
          }
        }
        i := i + 1;
      }
    }

    /** The descriptors of a task that spawn creates: inherited, and the three
        standard ones installed when any of them is missing. */
    method SpawnTable(t: nat, child: nat)
      requires Valid() && t in tables && child !in tables
      modifies this
      ensures child in tables && |tables[child]| == 32 && |old(tables)[t]| == 32
      ensures tables[child][3..] == old(tables)[t][3..] && tables == old(tables)[child := tables[child]]
      ensures if AllThree(old(tables)[t]) then tables[child] == old(tables)[t] else AllThree(tables[child])
      ensures Valid() <==> AllThree(old(tables)[t]) || NoneOfThree(old(tables)[t])
    {
      hide Conserved;
      TableSize(Now(), t);
      InheritAll(t, child);
      var j := 0;
      while j < 3
        invariant 0 <= j <= 3 && Valid() && tables == old(tables)[child := old(tables)[t]]
        invariant forall k :: 0 <= k < j ==> tables[child][k] != EMPTY
      {
        if tables[child][j] == EMPTY {
          InitStandard(child);
          return;
        }
        j := j + 1;
      }
    }

    /** vfs_init_standard_fds: overwrites slots 0 to 2. */
    method InitStandard(t: nat)
      requires Valid() && t in tables
      modifies this
      ensures t in tables && tables == old(tables)[t := tables[t]] && |tables[t]| == 32 == |old(tables)[t]|
      ensures tables[t][3..] == old(tables)[t][3..] && AllThree(tables[t])
      ensures Valid() <==> NoneOfThree(old(tables)[t])
    {
      hide Conserved;
      TableSize(Now(), t);
      ghost var s := Now();
      var a := FileCreate(Persistent, false);
      tables := SetSlot(tables, t, 0, a);
      var b := FileCreate(Persistent, true);
      tables := SetSlot(tables, t, 1, b);
      var c := FileCreate(Persistent, true);
      tables := SetSlot(tables, t, 2, c);
      StandardSlots(s.tables, t, a, b, c);
      if NoneOfThree(s.tables[t]) {
        StandardKeeps(s, t, a, b, c);
      } else {
        Overwritten(s, Now(), t);
      }
    }
  }

  // ----- Histories

  datatype Request =
    | OpenNode(t: nat, transient: bool, writer: bool)
    | CloseOf(t: nat, fd: int)
    | Duplicate(t: nat, fd: int)
    | DuplicateTo(t: nat, fd: int, to: int)
    | PipeFor(t: nat)
    | ForkTo(t: nat, child: nat)
    | SpawnTo(t: nat, child: nat)
    | Exit(t: nat)

  /** The requests that lose something, by the table of the one that makes them. */
  ghost predicate Leaky(tables: map<nat, seq<int>>, q: Request)
  {
    && q.t in tables
    && match q
       case OpenNode(t, transient, _) => transient && !HasFree(tables[t], FIRST_USER_FD)
       case PipeFor(t) => !HasTwoFree(tables[t])
       case SpawnTo(t, child) => child !in tables && !AllThree(tables[t]) && !NoneOfThree(tables[t])
       case _ => false
  }

  /** What a request that leaks nothing does to the tables. */
  ghost predicate Moves(a: map<nat, seq<int>>, b: map<nat, seq<int>>, q: Request)
  {
    if q.t !in a || |a[q.t]| != MAX_FD then b == a else
    match q
    case OpenNode(t, _, _) =>
      if HasFree(a[t], FIRST_USER_FD) then exists fd, f :: LowestFree(a[t], FIRST_USER_FD, fd) && b == SetSlot(a, t, fd, f) else b == a
    case CloseOf(t, fd) => b == if 0 <= fd < MAX_FD && a[t][fd] != EMPTY then SetSlot(a, t, fd, EMPTY) else a
    case Duplicate(t, fd) =>
      if 0 <= fd < MAX_FD && a[t][fd] != EMPTY && HasFree(a[t], FIRST_USER_FD)
      then exists to :: LowestFree(a[t], FIRST_USER_FD, to) && b == SetSlot(a, t, to, a[t][fd])
      else b == a
    case DuplicateTo(t, fd, to) =>
      b == if 0 <= fd < MAX_FD && 0 <= to < MAX_FD && a[t][fd] != EMPTY then SetSlot(a, t, to, a[t][fd]) else a
    case PipeFor(t) =>
      exists i, j, r, w :: LowestFree(a[t], FIRST_USER_FD, i) && LowestFree(a[t], i + 1, j) && b == SetSlot(SetSlot(a, t, i, r), t, j, w)
    case ForkTo(t, child) => b == if child in a then a else a[child := a[t]]
    case SpawnTo(t, child) => if child in a then b == a else Spawned(a, b, t, child)
    case Exit(t) => b == a[t := Blank()]
  }

  ghost predicate Spawned(a: map<nat, seq<int>>, b: map<nat, seq<int>>, t: nat, child: nat)
    requires t in a && |a[t]| == MAX_FD
  {
    && child in b && b == a[child := b[child]] && |b[child]| == MAX_FD && b[child][3..] == a[t][3..]
    && (if AllThree(a[t]) then b[child] == a[t] else AllThree(b[child]))
  }

  lemma SomeOfThree(table: seq<int>, used: seq<bool>)
    requires |table| == MAX_FD && |used| == 3 && forall i :: 0 <= i < 3 ==> used[i] == (table[i] != EMPTY)
    ensures true in used && false in used <==> !AllThree(table) && !NoneOfThree(table)
  {
    assert used == [used[0], used[1], used[2]];
  }

  /** One system call; tasks that are not there make none. leak is whether it
      loses something for good. */
  method ServeOne(m: FdTables, q: Request) returns (leak: bool)
    requires m.Valid()
    modifies m
    ensures leak == Leaky(old(m.tables), q) && (m.Valid() <==> !leak)
    ensures !leak ==> Moves(old(m.tables), m.tables, q)
  {
    hide Conserved, Freed, HasTwoFree, Blank, SetSlot;
    leak := false;
    if q.t !in m.tables {
      return;
    }
    TableSize(m.Now(), q.t);
    match q {
      case OpenNode(t, transient, writer) =>
        var fd, f := m.Open(t, transient, writer);
        leak := transient && fd == -1;
      case CloseOf(t, fd) => var r := m.CloseFd(t, fd);
      case Duplicate(t, fd) => var to := m.Dup(t, fd);
      case DuplicateTo(t, fd, to) => var r := m.Dup2(t, fd, to);
      case PipeFor(t) =>
        var ok, rfd, wfd, r, w := m.MakePipe(t);
        leak := !ok;
      case ForkTo(t, child) => if child !in m.tables { m.InheritAll(t, child); }
      case SpawnTo(t, child) =>
        if child !in m.tables {
          var table := m.tables[t];
          var used := [table[0] != EMPTY, table[1] != EMPTY, table[2] != EMPTY];
          leak := true in used && false in used;
          SomeOfThree(table, used);
          m.SpawnTable(t, child);
        }
      case Exit(t) => m.CloseAll(t);
    }
  }

  /** Over every history of system calls by any number of tasks: all counts are
      those of the slots that exist, up to the first call that leaks and no
      further; seen are the tables before each call. */
  method Serve(m: FdTables, requests: seq<Request>) returns (done: nat, leak: bool, ghost seen: seq<map<nat, seq<int>>>)
    requires m.Valid()
    modifies m
    ensures done <= |requests| && |seen| == done + 1 && seen[0] == old(m.tables)
    ensures forall i :: 0 <= i < done ==> !Leaky(seen[i], requests[i]) && Moves(seen[i], seen[i + 1], requests[i])
    ensures if leak then done < |requests| && Leaky(seen[done], requests[done]) && !m.Valid()
            else done == |requests| && m.Valid() && m.tables == seen[done]
  {
    hide Conserved, Leaky, Moves;
    done, leak, seen := 0, false, [m.tables];
    while done < |requests|
      invariant done <= |requests| && !leak && |seen| == done + 1 && seen[0] == old(m.tables) && m.Valid() && m.tables == seen[done]
      invariant forall i :: 0 <= i < done ==> !Leaky(seen[i], requests[i]) && Moves(seen[i], seen[i + 1], requests[i])
    {
      leak := ServeOne(m, requests[done]);
      if leak {
        return;
      }
      seen := seen + [m.tables];
      done := done + 1;
    }
  }

  // ----- The failures happen

  /** Opening device files until no slot is left. */
  method FillTable(m: FdTables, t: nat)
    requires m.Valid() && t in m.tables && m.tables[t] == Blank()
    modifies m
    ensures m.Valid() && t in m.tables && !HasFree(m.tables[t], 3)
  {
    var i := FIRST_USER_FD;
    while i < MAX_FD
      invariant FIRST_USER_FD <= i <= MAX_FD && m.Valid() && t in m.tables && |m.tables[t]| == MAX_FD
      invariant forall j :: FIRST_USER_FD <= j < MAX_FD ==> (m.tables[t][j] == EMPTY <==> i <= j)
    {
      hide Conserved;
      assert m.tables[t][i] == EMPTY;
      var fd, f := m.Open(t, false, false);
      assert fd == i;
      i := i + 1;
    }
  }

  /** A pipe() on a full table leaks the pipe and both files, and an open() of a
      file loses its node. */
  method FullTableLeaks(transient: bool) returns (m: FdTables)
    ensures fresh(m) && !m.Valid()
  {
    m := new FdTables();
    m.AddTask(0);
    FillTable(m, 0);
    if transient {
      var fd, f := m.Open(0, true, false);
    } else {
      FullHasNoTwo(m.tables[0]);
      var ok, rfd, wfd, r, w := m.MakePipe(0);
    }
  }

  lemma BlankSlots()
    ensures NoneOfThree(Blank())
  {
  }

  lemma FullHasNoTwo(table: seq<int>)
    requires !HasFree(table, FIRST_USER_FD)
    ensures !HasTwoFree(table)
  {
  }

  /** A parent that closes one of its standard descriptors and spawns leaves
      files behind that no close can free. */
  method SpawnLeaks(closed: nat) returns (m: FdTables)
    requires closed < 3
    ensures fresh(m) && !m.Valid()
  {
    hide Conserved, Freed, Blank;
    m := new FdTables();
    m.AddTask(0);
    BlankSlots();
    m.InitStandard(0);
    var r := m.CloseFd(0, closed);
    m.SpawnTable(0, 1);
  }

  ghost predicate AllThree(table: seq<int>)
  {
    |table| == MAX_FD && table[0] != EMPTY && table[1] != EMPTY && table[2] != EMPTY
  }

  ghost predicate NoneOfThree(table: seq<int>)
  {
    |table| == MAX_FD && table[0] == EMPTY && table[1] == EMPTY && table[2] == EMPTY
  }

  lemma TwoSlots(table: seq<int>, i: int, j: int)
    requires LowestFree(table, FIRST_USER_FD, i) && LowestFree(table, i + 1, j)
    ensures 0 <= i < j < |table| && table[i] == EMPTY && table[j] == EMPTY
  {
  }

  lemma PipeKeeps(s: State, t: nat, i: nat, j: nat, r: nat, w: nat, p: nat)
    requires Conserved(s) && t in s.tables && i < j < MAX_FD == |s.tables[t]| && s.tables[t][i] == EMPTY && s.tables[t][j] == EMPTY
    requires p !in s.pipes && r !in s.files && w !in s.files && r != w
    ensures Conserved(s.(tables := SetSlot(SetSlot(s.tables, t, i, r), t, j, w), pipes := s.pipes[p := Ends(1, 1)],
                         files := s.files[r := File(Pipe(p), false, 1)][w := File(Pipe(p), true, 1)]))
  {
    hide Conserved;
    OpenKeeps(s, t, i, r, Pipe(p), false);
    var s1 := Opened(s, t, i, r, Pipe(p), false);
    OpenKeeps(s1, t, j, w, Pipe(p), true);
    assert Opened(s1, t, j, w, Pipe(p), true).pipes == s.pipes[p := Ends(1, 1)];
  }

  lemma StandardSlots(tables: map<nat, seq<int>>, t: nat, a: nat, b: nat, c: nat)
    requires t in tables && |tables[t]| == MAX_FD
    ensures var r := SetSlot(SetSlot(SetSlot(tables, t, 0, a), t, 1, b), t, 2, c);
            && t in r && r == tables[t := r[t]] && |r[t]| == MAX_FD && r[t][3..] == tables[t][3..]
            && r[t][0] == a && r[t][1] == b && r[t][2] == c
  {
    var r := SetSlot(SetSlot(SetSlot(tables, t, 0, a), t, 1, b), t, 2, c);
    assert r[t] == tables[t][0 := a][1 := b][2 := c];
  }

  lemma StandardKeeps(s: State, t: nat, a: nat, b: nat, c: nat)
    requires Conserved(s) && t in s.tables && NoneOfThree(s.tables[t]) && a !in s.files && b !in s.files && c !in s.files && a < b < c
    ensures Conserved(s.(tables := SetSlot(SetSlot(SetSlot(s.tables, t, 0, a), t, 1, b), t, 2, c),
                         files := s.files[a := File(Persistent, false, 1)][b := File(Persistent, true, 1)][c := File(Persistent, true, 1)]))
  {
    hide Conserved;
    OpenKeeps(s, t, 0, a, Persistent, false);
    var s1 := Opened(s, t, 0, a, Persistent, false);
    OpenKeeps(s1, t, 1, b, Persistent, true);
    var s2 := Opened(s1, t, 1, b, Persistent, true);
    OpenKeeps(s2, t, 2, c, Persistent, true);
  }

  /** A node no file uses. */
  lemma LostNode(s: State, s': State, n: nat)
    requires Conserved(s) && s' == s.(nodes := s.nodes + {n}) && n !in s.nodes
    ensures !Conserved(s')
  {
    hide Naming, EndSlots;
  }

  /** A file no slot names. */
  lemma LostFile(s: State, s': State, f: nat)
    requires Conserved(s) && f !in s.files && s'.tables == s.tables && f in s'.files && s'.files[f].refcount == 1
    ensures !Conserved(s')
  {
    Unnamed(s, f);
    LeakedFile(s', f);
  }

  /** Overwriting a slot without closing it loses a name of its file. */
  lemma Overwritten(s: State, s': State, t: nat)
    requires Conserved(s) && t in s.tables && |s.tables[t]| == MAX_FD && !NoneOfThree(s.tables[t])
    requires t in s'.tables && s'.tables == s.tables[t := s'.tables[t]] && |s'.tables[t]| == MAX_FD && s'.tables[t][3..] == s.tables[t][3..]
    requires s'.tables[t][0] !in s.files && s'.tables[t][1] !in s.files && s'.tables[t][2] !in s.files
    requires forall f :: f in s.files ==> f in s'.files && s'.files[f] == s.files[f]
    ensures !Conserved(s')
  {
    hide Conserved, Naming;
    var i: nat := if s.tables[t][0] != EMPTY then 0 else if s.tables[t][1] != EMPTY then 1 else 2;
    SlotIsLive(s, t, i);
    var f: nat := s.tables[t][i];
    FewerNames(s.tables, s'.tables, t, i, f);
    FileCount(s, f);
    LeakedFile(s', f);
  }

  lemma FewerNames(a: map<nat, seq<int>>, b: map<nat, seq<int>>, t: nat, i: nat, f: nat)
    requires t in a && t in b && b == a[t := b[t]] && |a[t]| == |b[t]| == MAX_FD && b[t][3..] == a[t][3..] && i < 3 && a[t][i] == f
    requires b[t][0] != f && b[t][1] != f && b[t][2] != f
    ensures |Naming(b, f)| < |Naming(a, f)|
  {
    hide Naming;
    forall x | x in Naming(b, f)
      ensures x in Naming(a, f) - {(t, i)}
    {
      NamingHas(b, f, x.0, x.1);
      NamingHas(a, f, x.0, x.1);
      assert At(b, x.0, x.1, f) && x.0 == t ==> x.1 >= 3 && b[t][x.1] == b[t][3..][x.1 - 3] == a[t][x.1];
    }
    NamingHas(a, f, t, i);
    Smaller(Naming(b, f), Naming(a, f) - {(t, i)});
  }

  /** table with its first i slots taken from other. */
  ghost function Copied(table: seq<int>, other: seq<int>, i: nat): (r: seq<int>)
    requires |table| == |other| == MAX_FD && i <= MAX_FD
    ensures |r| == 32
  {
    other[..i] + table[i..]
  }

  lemma CopiedNext(table: seq<int>, other: seq<int>, i: nat)
    requires |table| == |other| == MAX_FD && i < MAX_FD
    ensures Copied(table, other, i)[i] == table[i] && Copied(table, other, i + 1) == Copied(table, other, i)[i := other[i]]
    ensures other[i] == table[i] ==> Copied(table, other, i + 1) == Copied(table, other, i)
  {
  }

  lemma CopiedEnds(table: seq<int>, other: seq<int>)
    requires |table| == |other| == MAX_FD
    ensures Copied(table, other, 0) == table && Copied(table, other, 32) == other
  {
  }

  /** What a close of a slot on f frees: f when that was its only name, its pipe
      when that was the only slot on either end, its transient node with it. */
  ghost predicate Freed(s: State, s': State, f: int)
  {
    && f >= 0 && f in s.files
    && (forall g :: g in s.files && g != f ==> g in s'.files && s'.files[g] == s.files[g])
    && (forall g :: g in s'.files ==> g in s.files)
    && (f in s'.files <==> |Naming(s.tables, f)| > 1)
    && (forall p :: p in s'.pipes <==> p in s.pipes && !(s.files[f].node == Pipe(p) && |EndSlots(s, p, false) + EndSlots(s, p, true)| == 1))
    && (forall n :: n in s'.nodes <==> n in s.nodes && !(s.files[f].node == Transient(n) && f !in s'.files))
  }

  lemma CloseFrees(s: State, t: nat, i: nat)
    requires Conserved(s) && t in s.tables && i < MAX_FD && s.tables[t][i] != EMPTY && s.tables[t][i] >= 0 && Close.requires(s, t, i)
    ensures Freed(s, Close(s, t, i), s.tables[t][i])
  {
    hide Conserved, Naming, EndSlots, SetSlot;
    var f: nat := s.tables[t][i];
    FileCount(s, f);
    if s.files[f].node.Pipe? {
      var p := s.files[f].node.id;
      EndCounts(s, p);
      EndsApart(s, p);
      if s.files[f].refcount > 1 {
        TableSize(s, t);
        CloseLeft(s, t, i, f);
      }
    }
  }

  lemma FreedOnly(s: State, s': State, f: int)
    requires Freed(s, s', f)
    ensures s'.files.Keys <= s.files.Keys && s'.pipes.Keys <= s.pipes.Keys && s'.nodes <= s.nodes
  {
  }

  lemma FileCount(s: State, f: nat)
    requires Conserved(s) && f in s.files
    ensures s.files[f].refcount == |Naming(s.tables, f)| > 0
  {
  }

  lemma TableSize(s: State, t: nat)
    requires Conserved(s) && t in s.tables
    ensures |s.tables[t]| == 32
  {
  }

  lemma EndsApart(s: State, p: nat)
    ensures |EndSlots(s, p, false) + EndSlots(s, p, true)| == |EndSlots(s, p, false)| + |EndSlots(s, p, true)|
  {
    assert EndSlots(s, p, false) !! EndSlots(s, p, true);
  }
}
