/** The initial user stack: build_user_stack of kernel/proc/exec.c in its 64-bit
    layout, on the page tables of the new directory. The stack pages are mapped,
    then hold the argument strings above the argument vector. */
module UserStack {
  import opened Bytes
  import PT = PageTree
  import opened CowInvariant
  import opened AddressSpaces
  import opened UserMemory

  const MAX_ARGS: nat := 64

  function Bytes64(v: nat): (r: seq<byte>)
    ensures |r| == 8
  {
    Bytes32(v) + Bytes32(v / WORD)
  }

  /** The 64-bit word at a is v. */
  ghost predicate WordAt(s: Space, a: nat, v: nat)
  {
    forall x: nat :: a <= x < a + 8 ==> Byte(s, x) == Bytes64(v)[x - a]
  }

  /** The C string at a is str. */
  ghost predicate StringAt(s: Space, a: nat, str: seq<byte>)
  {
    forall x: nat :: a <= x <= a + |str| ==> Byte(s, x) == if x < a + |str| then str[x - a] else 0
  }

  /** Words can be read back. */
  lemma WordDecodes(v: nat)
    requires v < WORD64
    ensures Get64(Bytes64(v), 0) == v
  {
    Digits(v);
    Digits(v / WORD);
    Halves(v);
  }

  /** Bytes the strings from i on take, each with its terminator. */
  function Size(args: seq<seq<byte>>, i: nat): nat
    requires i <= |args|
    decreases |args| - i
  {
    if i == |args| then 0 else |args[i]| + 1 + Size(args, i + 1)
  }

  lemma {:induction false} SizeMono(args: seq<seq<byte>>, i: nat, j: nat)
    requires i <= j <= |args|
    ensures Size(args, j) <= Size(args, i)
    decreases j - i
  {
    if i < j {
      SizeMono(args, i + 1, j);
    }
  }

  lemma StringKept(s: Space, s': Space, va: nat, data: seq<byte>, a: nat, str: seq<byte>)
    requires Stored(s, s', va, data) && StringAt(s, a, str) && va + |data| <= a
    ensures StringAt(s', a, str)
  {
    hide Byte;
  }

  lemma WordKept(s: Space, s': Space, va: nat, data: seq<byte>, a: nat, v: nat)
    requires Stored(s, s', va, data) && WordAt(s, a, v) && va + |data| <= a
    ensures WordAt(s', a, v)
  {
    hide Byte;
  }

  lemma NewString(s: Space, s': Space, va: nat, str: seq<byte>)
    requires Stored(s, s', va, str + [0])
    ensures StringAt(s', va, str)
  {
    hide Byte;
  }

  lemma NewWord(s: Space, s': Space, va: nat, v: nat)
    requires Stored(s, s', va, Bytes64(v))
    ensures WordAt(s', va, v)
  {
    hide Byte;
  }

  /** The strings from i on are in place. */
  ghost predicate StringsFrom(s: Space, args: seq<seq<byte>>, top: nat, i: nat)
    requires i <= |args| && Size(args, i) <= top
  {
    forall j :: i <= j < |args| ==> Size(args, j) <= top && StringAt(s, top - Size(args, j), args[j])
  }

  /** The copy loop over the strings, last to first. */
  method PushStrings(mmu: Mmu, d: nat, args: seq<seq<byte>>, top: nat, ghost base: nat) returns (sp: nat, ptrs: seq<nat>)
    requires mmu.Valid() && d in mmu.dirs && Writable(Space(mmu.mem, d), base, top) && base + Size(args, 0) <= top
    modifies mmu`mem
    ensures mmu.Valid() && Wrote(old(mmu.mem), mmu.mem, mmu.dirs, d, base, top) && sp == top - Size(args, 0) && |ptrs| == |args|
    ensures forall j :: 0 <= j < |args| ==> Size(args, j) <= top && ptrs[j] == top - Size(args, j)
    ensures StringsFrom(Space(mmu.mem, d), args, top, 0)
    ensures Exact(old(mmu.mem), mmu.dirs, mmu.pmm.refs[..]) ==> Exact(mmu.mem, mmu.dirs, mmu.pmm.refs[..])
  {
    hide Wrote, Writable, Stored, Sound, Exact, OtherSpaces, StringAt;
    sp := top;
    ptrs := [];
    var i := |args|;
    ghost var m0 := mmu.mem;
    SizeMono(args, 0, i);
    WroteNothing(m0, mmu.dirs, d, base, top);
    while i > 0
      invariant 0 <= i <= |args| && mmu.Valid() && Wrote(m0, mmu.mem, mmu.dirs, d, base, top) && Size(args, i) <= Size(args, 0)
      invariant sp == top - Size(args, i) && |ptrs| == |args| - i
      invariant forall j :: i <= j < |args| ==> Size(args, j) <= top && ptrs[j - i] == top - Size(args, j)
      invariant StringsFrom(Space(mmu.mem, d), args, top, i)
      invariant Exact(m0, mmu.dirs, mmu.pmm.refs[..]) ==> Exact(mmu.mem, mmu.dirs, mmu.pmm.refs[..])
    {
      i := i - 1;
      SizeMono(args, 0, i);
      sp := sp - (|args[i]| + 1);
      ghost var m := mmu.mem;
      WroteWritable(m0, m, mmu.dirs, d, base, top, sp, sp + |args[i] + [0]|);
      CopyIn(mmu, d, sp, args[i] + [0]);
      WroteMore(m0, m, mmu.mem, mmu.dirs, d, base, top, sp, args[i] + [0]);
      NewString(Space(m, d), Space(mmu.mem, d), sp, args[i]);
      StringsMore(Space(m, d), Space(mmu.mem, d), args, top, i);
      ptrs := [sp] + ptrs;
    }
  }

  /** Only bytes of directory d between lo and hi have changed, and no mapping. */
  ghost predicate Wrote(m: PT.Mem, m': PT.Mem, dirs: set<nat>, d: nat, lo: nat, hi: nat)
  {
    && OtherSpaces(m, m', dirs, d)
    && forall a: nat :: EntryOf(Space(m', d), a) == EntryOf(Space(m, d), a) && (lo <= a < hi || Byte(Space(m', d), a) == Byte(Space(m, d), a))
  }

  lemma WroteNothing(m: PT.Mem, dirs: set<nat>, d: nat, lo: nat, hi: nat)
    ensures Wrote(m, m, dirs, d, lo, hi)
  {
    hide OtherSpaces;
    SameSpaces(m, dirs, d);
  }

  lemma WroteWritable(m: PT.Mem, m': PT.Mem, dirs: set<nat>, d: nat, lo: nat, hi: nat, lo': nat, hi': nat)
    requires Wrote(m, m', dirs, d, lo, hi) && Writable(Space(m, d), lo, hi) && lo <= lo' && hi' <= hi
    ensures Writable(Space(m', d), lo', hi')
  {
    hide EntryOf, Byte, OtherSpaces;
  }

  lemma WroteMore(m: PT.Mem, m1: PT.Mem, m2: PT.Mem, dirs: set<nat>, d: nat, lo: nat, hi: nat, va: nat, data: seq<byte>)
    requires Wrote(m, m1, dirs, d, lo, hi) && Stored(Space(m1, d), Space(m2, d), va, data) && OtherSpaces(m1, m2, dirs, d) && lo <= va && va + |data| <= hi
    ensures Wrote(m, m2, dirs, d, lo, hi)
  {
    hide EntryOf, Byte, OtherSpaces;
    OthersTwice(m, m1, m2, dirs, d);
  }

  lemma StringsMore(s: Space, s': Space, args: seq<seq<byte>>, top: nat, i: nat)
    requires i < |args| && Size(args, i) <= top && Size(args, i + 1) <= top && StringsFrom(s, args, top, i + 1)
    requires Stored(s, s', top - Size(args, i), args[i] + [0]) && StringAt(s', top - Size(args, i), args[i])
    ensures StringsFrom(s', args, top, i)
  {
    hide Byte, Stored, StringAt;
    forall j | i <= j < |args|
      ensures Size(args, j) <= top && StringAt(s', top - Size(args, j), args[j])
    {
      if i < j {
        SizeMono(args, i + 1, j);
        StringKept(s, s', top - Size(args, i), args[i] + [0], top - Size(args, j), args[j]);
      }
    }
  }

  /** The words of the argument vector from i on: pointers, then a null. */
  ghost predicate VectorFrom(s: Space, ptrs: seq<nat>, at: nat, i: nat)
    requires i <= |ptrs|
  {
    && WordAt(s, at + 8 * |ptrs|, 0)
    && forall j :: i <= j < |ptrs| ==> WordAt(s, at + 8 * j, ptrs[j])
  }

  lemma VectorKept(s: Space, s': Space, va: nat, data: seq<byte>, ptrs: seq<nat>, at: nat, i: nat)
    requires i <= |ptrs| && VectorFrom(s, ptrs, at, i) && Stored(s, s', va, data) && va + |data| <= at + 8 * i
    ensures VectorFrom(s', ptrs, at, i)
  {
    hide Byte, Stored, WordAt;
    WordKept(s, s', va, data, at + 8 * |ptrs|, 0);
    forall j | i <= j < |ptrs|
      ensures WordAt(s', at + 8 * j, ptrs[j])
    {
      WordKept(s, s', va, data, at + 8 * j, ptrs[j]);
    }
  }

  lemma StringsKept(s: Space, s': Space, va: nat, data: seq<byte>, args: seq<seq<byte>>, top: nat)
    requires Size(args, 0) <= top && StringsFrom(s, args, top, 0) && Stored(s, s', va, data) && va + |data| <= top - Size(args, 0)
    ensures StringsFrom(s', args, top, 0)
  {
    hide Byte, Stored, StringAt;
    forall j | 0 <= j < |args|
      ensures Size(args, j) <= top && StringAt(s', top - Size(args, j), args[j])
    {
      SizeMono(args, 0, j);
      StringKept(s, s', va, data, top - Size(args, j), args[j]);
    }
  }

  /** The null and the pointers, last to first, below sp0. */
  method PushVector(mmu: Mmu, d: nat, sp0: nat, ptrs: seq<nat>, ghost args: seq<seq<byte>>, ghost top: nat, ghost base: nat) returns (sp: nat)
    requires mmu.Valid() && d in mmu.dirs && Writable(Space(mmu.mem, d), base, top) && base + 8 * (|ptrs| + 1) <= sp0
    requires Size(args, 0) <= top && sp0 <= top - Size(args, 0) && StringsFrom(Space(mmu.mem, d), args, top, 0)
    modifies mmu`mem
    ensures mmu.Valid() && Wrote(old(mmu.mem), mmu.mem, mmu.dirs, d, base, top) && sp == sp0 - 8 * (|ptrs| + 1)
    ensures VectorFrom(Space(mmu.mem, d), ptrs, sp, 0) && StringsFrom(Space(mmu.mem, d), args, top, 0)
    ensures Exact(old(mmu.mem), mmu.dirs, mmu.pmm.refs[..]) ==> Exact(mmu.mem, mmu.dirs, mmu.pmm.refs[..])
  {
    hide Wrote, Writable, Stored, StringsFrom, VectorFrom, WordAt, Sound, Exact, OtherSpaces;
    ghost var m0, at := mmu.mem, sp0 - 8 * (|ptrs| + 1);
    WroteNothing(m0, mmu.dirs, d, base, top);
    sp := sp0 - 8;
    PushWord(mmu, d, sp, 0, args, top, base, m0);
    NoPointers(Space(mmu.mem, d), ptrs, at);
    var i := |ptrs|;
    while i > 0
      invariant 0 <= i <= |ptrs| && mmu.Valid() && Wrote(m0, mmu.mem, mmu.dirs, d, base, top) && sp == at + 8 * i
      invariant VectorFrom(Space(mmu.mem, d), ptrs, at, i) && StringsFrom(Space(mmu.mem, d), args, top, 0)
      invariant Exact(m0, mmu.dirs, mmu.pmm.refs[..]) ==> Exact(mmu.mem, mmu.dirs, mmu.pmm.refs[..])
    {
      i := i - 1;
      sp := sp - 8;
      ghost var m := mmu.mem;
      PushWord(mmu, d, sp, ptrs[i], args, top, base, m0);
      VectorKept(Space(m, d), Space(mmu.mem, d), sp, Bytes64(ptrs[i]), ptrs, at, i + 1);
      OnePointer(Space(mmu.mem, d), ptrs, at, i);
    }
  }

  /** One word below the strings. */
  method PushWord(mmu: Mmu, d: nat, sp: nat, v: nat, ghost args: seq<seq<byte>>, ghost top: nat, ghost base: nat, ghost m0: PT.Mem)
    requires mmu.Valid() && d in mmu.dirs && Writable(Space(m0, d), base, top) && base <= sp && Size(args, 0) <= top && sp + 8 <= top - Size(args, 0)
    requires Wrote(m0, mmu.mem, mmu.dirs, d, base, top) && StringsFrom(Space(mmu.mem, d), args, top, 0)
    modifies mmu`mem
    ensures mmu.Valid() && Wrote(m0, mmu.mem, mmu.dirs, d, base, top)
    ensures Stored(Space(old(mmu.mem), d), Space(mmu.mem, d), sp, Bytes64(v)) && WordAt(Space(mmu.mem, d), sp, v)
    ensures StringsFrom(Space(mmu.mem, d), args, top, 0)
    ensures Exact(old(mmu.mem), mmu.dirs, mmu.pmm.refs[..]) ==> Exact(mmu.mem, mmu.dirs, mmu.pmm.refs[..])
  {
    hide Wrote, Writable, Stored, StringsFrom, WordAt, Sound, Exact, OtherSpaces;
    ghost var m := mmu.mem;
    WroteWritable(m0, m, mmu.dirs, d, base, top, sp, sp + 8);
    CopyIn(mmu, d, sp, Bytes64(v));
    WroteMore(m0, m, mmu.mem, mmu.dirs, d, base, top, sp, Bytes64(v));
    NewWord(Space(m, d), Space(mmu.mem, d), sp, v);
    StringsKept(Space(m, d), Space(mmu.mem, d), sp, Bytes64(v), args, top);
  }

  lemma NoPointers(s: Space, ptrs: seq<nat>, at: nat)
    requires WordAt(s, at + 8 * |ptrs|, 0)
    ensures VectorFrom(s, ptrs, at, |ptrs|)
  {
  }

  lemma OnePointer(s: Space, ptrs: seq<nat>, at: nat, i: nat)
    requires i < |ptrs| && VectorFrom(s, ptrs, at, i + 1) && WordAt(s, at + 8 * i, ptrs[i])
    ensures VectorFrom(s, ptrs, at, i)
  {
  }

  /** What a program finds at its stack pointer: argc, that many pointers to the
      argument strings, a null pointer. */
  ghost predicate HoldsArgs(s: Space, sp: nat, args: seq<seq<byte>>)
  {
    && WordAt(s, sp, |args|) && WordAt(s, sp + 8 + 8 * |args|, 0)
    && forall i :: 0 <= i < |args| ==> ArgAt(s, sp + 8 + 8 * i, args[i])
  }

  /** The word at a is a pointer to the string str. */
  ghost predicate ArgAt(s: Space, a: nat, str: seq<byte>)
  {
    exists p: nat :: p < WORD64 && WordAt(s, a, p) && StringAt(s, p, str)
  }

  /** Each page from lo to hi can become a stack page: it is unmapped, or the
      user may write it. */
  ghost predicate Room(s: Space, lo: nat, hi: nat)
  {
    forall a :: lo <= a < hi ==> User(a) && (EntryOf(s, a) == PT.None || UserWritable(EntryOf(s, a)))
  }

  /** Nothing but the pages from lo to hi of directory d has changed, and of
      those the user may write the ones below done. */
  ghost predicate Stacked(m: PT.Mem, m': PT.Mem, dirs: set<nat>, d: nat, lo: nat, done: nat)
  {
    && OtherSpaces(m, m', dirs, d) && Writable(Space(m', d), lo, done)
    && forall a: nat :: lo <= a < done || (EntryOf(Space(m', d), a) == EntryOf(Space(m, d), a) && Byte(Space(m', d), a) == Byte(Space(m, d), a))
  }

  /** The page at v is on a frame, and all others are as they were. */
  ghost predicate PageReady(m: PT.Mem, m': PT.Mem, dirs: set<nat>, d: nat, v: nat)
  {
    var q := PT.PathOf(v);
    && OthersRead(m, m', dirs, d, q) && OthersSame(m, m', dirs, d, q)
    && if PT.Trans(m, d, q) == PT.None then UserWritable(PT.Trans(m', d, q)) else PT.Trans(m', d, q) == PT.Trans(m, d, q)
  }

  lemma StackMore(m0: PT.Mem, m: PT.Mem, m': PT.Mem, dirs: set<nat>, d: nat, lo: nat, hi: nat, v: nat)
    requires d in dirs && Room(Space(m0, d), lo, hi) && Stacked(m0, m, dirs, d, lo, v) && lo <= v && v + PAGE <= hi && v % PAGE == 0
    requires PT.IsPath(PT.PathOf(v)) && PageReady(m, m', dirs, d, v)
    ensures Stacked(m0, m', dirs, d, lo, v + PAGE)
  {
    hide PT.PathOf, Content, PT.Trans, PT.UserPath, OtherSpaces;
    PageRead(m, m', dirs, d, v);
    OthersTwice(m0, m, m', dirs, d);
    forall a: nat
      ensures if v <= a < v + PAGE then UserWritable(EntryOf(Space(m', d), a))
              else EntryOf(Space(m', d), a) == EntryOf(Space(m, d), a) && Byte(Space(m', d), a) == Byte(Space(m, d), a)
    {
      PageIs(v, a);
      assert User(v);
      UserPages(v, a);
      if User(a) {
        UserAddress(a);
        SamePage(v, a);
        assert EntryOf(Space(m, d), v) == EntryOf(Space(m0, d), v);
      }
    }
  }

  lemma PageRead(m: PT.Mem, m': PT.Mem, dirs: set<nat>, d: nat, v: nat)
    requires PageReady(m, m', dirs, d, v)
    ensures OtherSpaces(m, m', dirs, d)
  {
    hide Content, PT.PathOf, PT.UserPath, PT.Trans;
  }

  lemma PageIs(v: nat, a: nat)
    requires v % PAGE == 0
    ensures v <= a < v + PAGE <==> a / PAGE == v / PAGE
  {
  }

  /** The mapping loop: every page of the stack that is not there gets a frame.
      It stops early only when no frame is left. */
  method MapStack(mmu: Mmu, d: nat, lo: nat, hi: nat, junk: nat -> seq<byte>) returns (ok: bool)
    requires mmu.Valid() && d in mmu.dirs && lo <= hi && lo % PAGE == 0 && hi % PAGE == 0 && Room(Space(mmu.mem, d), lo, hi)
    requires forall v :: |junk(v)| == PAGE
    modifies mmu`mem, mmu`own, mmu.pmm.bitmap, mmu.pmm.refs
    ensures mmu.pmm.Valid() && (!ok ==> !mmu.FrameLeft(mmu.pmm.Used()))
    ensures ok ==> mmu.Valid() && Stacked(old(mmu.mem), mmu.mem, mmu.dirs, d, lo, hi)
    ensures ok && Exact(old(mmu.mem), mmu.dirs, old(mmu.pmm.refs[..])) ==> Exact(mmu.mem, mmu.dirs, mmu.pmm.refs[..])
  {
    hide Sound, Exact, Content, PT.PathOf, PT.Trans, OtherSpaces, Stacked, OthersRead, OthersSame;
    ghost var m0 := mmu.mem;
    var v := lo;
    NothingStacked(m0, mmu.dirs, d, lo);
    while v < hi
      invariant lo <= v <= hi && v % PAGE == 0 && mmu.Valid() && Stacked(m0, mmu.mem, mmu.dirs, d, lo, v)
      invariant Exact(m0, mmu.dirs, old(mmu.pmm.refs[..])) ==> Exact(mmu.mem, mmu.dirs, mmu.pmm.refs[..])
    {
      ghost var m := mmu.mem;
      UserAddress(v);
      var found;
      ok, found := mmu.MapStackPage(d, v, junk(v));
      if !ok {
        return;
      }
      NextPage(v, hi);
      StackMore(m0, m, mmu.mem, mmu.dirs, d, lo, hi, v);
      v := v + PAGE;
    }
    ok := true;
  }

  lemma NextPage(v: nat, hi: nat)
    requires v < hi && v % PAGE == 0 && hi % PAGE == 0
    ensures v + PAGE <= hi && (v + PAGE) % PAGE == 0
  {
  }

  lemma NothingStacked(m: PT.Mem, dirs: set<nat>, d: nat, lo: nat)
    ensures Stacked(m, m, dirs, d, lo, lo)
  {
    hide OtherSpaces;
    SameSpaces(m, dirs, d);
  }

  lemma StackedWritable(m: PT.Mem, m': PT.Mem, dirs: set<nat>, d: nat, lo: nat, hi: nat)
    requires Stacked(m, m', dirs, d, lo, hi)
    ensures Writable(Space(m', d), lo, hi)
  {
  }

  lemma StackedWrote(m: PT.Mem, m1: PT.Mem, m2: PT.Mem, dirs: set<nat>, d: nat, lo: nat, hi: nat)
    requires Stacked(m, m1, dirs, d, lo, hi) && Wrote(m1, m2, dirs, d, lo, hi)
    ensures Stacked(m, m2, dirs, d, lo, hi)
  {
    hide EntryOf, Byte, OtherSpaces;
    OthersTwice(m, m1, m2, dirs, d);
  }

  /** Mapping, strings, alignment, vector and argc; more than 64 arguments are
      cut. Outside the stack nothing has changed. */
  method BuildStack(mmu: Mmu, d: nat, args0: seq<seq<byte>>, top: nat, base: nat, junk: nat -> seq<byte>) returns (sp: nat, ok: bool)
    requires mmu.Valid() && d in mmu.dirs && base % PAGE == 0 && top % PAGE == 0 && WORD <= top <= USER_HI
    requires Room(Space(mmu.mem, d), base, top) && forall v :: |junk(v)| == PAGE
    requires var args := args0[..Min(|args0|, 64)]; base + Size(args, 0) + 15 + 8 * (|args| + 2) <= top
    modifies mmu`mem, mmu`own, mmu.pmm.bitmap, mmu.pmm.refs
    ensures mmu.pmm.Valid() && (!ok ==> !mmu.FrameLeft(mmu.pmm.Used()))
    ensures ok ==> mmu.Valid() && Stacked(old(mmu.mem), mmu.mem, mmu.dirs, d, base, top) && base <= sp <= top
    ensures ok ==> HoldsArgs(Space(mmu.mem, d), sp, args0[..Min(|args0|, 64)])
    ensures ok ==> StackPlaced(sp, args0[..Min(|args0|, 64)], top)
    ensures ok && Exact(old(mmu.mem), mmu.dirs, old(mmu.pmm.refs[..])) ==> Exact(mmu.mem, mmu.dirs, mmu.pmm.refs[..])
  {
    hide StackPlaced, Room, Stacked, HoldsArgs, Sound, Exact, OtherSpaces, Wrote, Writable;
    ghost var m0 := mmu.mem;
    var argc := Min(|args0|, MAX_ARGS);
    ok := MapStack(mmu, d, base, top, junk);
    if !ok {
      return 0, false;
    }
    ghost var m1 := mmu.mem;
    StackedWritable(m0, m1, mmu.dirs, d, base, top);
    sp := PushArgs(mmu, d, args0[..argc], top, base);
    StackedWrote(m0, m1, mmu.mem, mmu.dirs, d, base, top);
  }

  /** argc, the pointers and the null end on a 16-byte boundary, less than 16
      bytes below the strings; so sp is a multiple of 16 exactly for an even
      number of arguments. */
  ghost predicate StackPlaced(sp: nat, args: seq<seq<byte>>, top: nat)
  {
    var end := sp + 8 * (|args| + 2);
    && end % 16 == 0 && end <= top - Size(args, 0) < end + 16
    && sp % 16 == if |args| % 2 == 0 then 0 else 8
  }

  lemma StackPlacedIs(sp: nat, args: seq<seq<byte>>, top: nat, below: nat)
    requires below + Size(args, 0) == top && sp + 8 * (|args| + 2) == below - below % 16
    ensures StackPlaced(sp, args, top)
  {
    hide Size;
    Halves16(sp, |args|, below / 16);
  }

  lemma Halves16(sp: nat, n: nat, q: nat)
    requires sp + 8 * (n + 2) == 16 * q
    ensures sp % 16 == if n % 2 == 0 then 0 else 8
  {
    var h := n / 2;
    if n % 2 == 0 {
      Sixteens(sp, q - 1 - h, 0);
    } else {
      Sixteens(sp, q - 2 - h, 8);
    }
  }

  lemma Sixteens(a: nat, q: int, r: nat)
    requires a == 16 * q + r && r < 16
    ensures a % 16 == r
  {
  }

  /** What is written once the stack is mapped. */
  method PushArgs(mmu: Mmu, d: nat, args: seq<seq<byte>>, top: nat, ghost base: nat) returns (sp: nat)
    requires mmu.Valid() && d in mmu.dirs && Writable(Space(mmu.mem, d), base, top) && top <= USER_HI
    requires base + Size(args, 0) + 15 + 8 * (|args| + 2) <= top
    modifies mmu`mem
    ensures mmu.Valid() && Wrote(old(mmu.mem), mmu.mem, mmu.dirs, d, base, top) && base <= sp <= top && HoldsArgs(Space(mmu.mem, d), sp, args)
    ensures StackPlaced(sp, args, top)
    ensures Exact(old(mmu.mem), mmu.dirs, mmu.pmm.refs[..]) ==> Exact(mmu.mem, mmu.dirs, mmu.pmm.refs[..])
  {
    hide Wrote, Writable, Stored, StringsFrom, VectorFrom, WordAt, HoldsArgs, Sound, Exact, OtherSpaces, StackPlaced;
    ghost var m0 := mmu.mem;
    var ptrs;
    sp, ptrs := PushStrings(mmu, d, args, top, base);
    ghost var m1 := mmu.mem;
    ghost var below := sp;
    sp := sp - sp % 16;
    WroteWritable(m0, m1, mmu.dirs, d, base, top, base, top);
    sp := PushVector(mmu, d, sp, ptrs, args, top, base);
    ghost var m2, at := mmu.mem, sp;
    WroteTwice(m0, m1, m2, mmu.dirs, d, base, top);
    sp := sp - 8;
    PushWord(mmu, d, sp, |args|, args, top, base, m0);
    VectorKept(Space(m2, d), Space(mmu.mem, d), sp, Bytes64(|args|), ptrs, at, 0);
    ArgsFound(Space(mmu.mem, d), sp, args, ptrs, top);
    StackPlacedIs(sp, args, top, below);
  }

  lemma WroteTwice(m: PT.Mem, m1: PT.Mem, m2: PT.Mem, dirs: set<nat>, d: nat, lo: nat, hi: nat)
    requires Wrote(m, m1, dirs, d, lo, hi) && Wrote(m1, m2, dirs, d, lo, hi)
    ensures Wrote(m, m2, dirs, d, lo, hi)
  {
    hide EntryOf, Byte, OtherSpaces;
    OthersTwice(m, m1, m2, dirs, d);
  }

  lemma ArgsFound(s: Space, sp: nat, args: seq<seq<byte>>, ptrs: seq<nat>, top: nat)
    requires |ptrs| == |args| && Size(args, 0) <= top && StringsFrom(s, args, top, 0) && VectorFrom(s, ptrs, sp + 8, 0) && WordAt(s, sp, |args|)
    requires top < WORD64 && forall j :: 0 <= j < |args| ==> Size(args, j) <= top && ptrs[j] == top - Size(args, j)
    ensures HoldsArgs(s, sp, args)
  {
    hide WordAt, StringAt;
    forall i | 0 <= i < |args|
      ensures ArgAt(s, sp + 8 + 8 * i, args[i])
    {
      assert WordAt(s, sp + 8 + 8 * i, ptrs[i]) && StringAt(s, ptrs[i], args[i]);
    }
  }

  /** The layout determines the arguments: two argument lists without zero bytes
      in them that fit the same stack are the same. */
  lemma ArgsDecodeUniquely(s: Space, sp: nat, args: seq<seq<byte>>, other: seq<seq<byte>>)
    requires HoldsArgs(s, sp, args) && HoldsArgs(s, sp, other) && |args| < WORD64 && |other| < WORD64
    requires forall i :: 0 <= i < |args| ==> 0 !in args[i]
    requires forall i :: 0 <= i < |other| ==> 0 !in other[i]
    ensures args == other
  {
    hide WordAt, StringAt;
    WordUnique(s, sp, |args|, |other|);
    forall i | 0 <= i < |args|
      ensures args[i] == other[i]
    {
      assert ArgAt(s, sp + 8 + 8 * i, args[i]) && ArgAt(s, sp + 8 + 8 * i, other[i]);
      var p: nat :| p < WORD64 && WordAt(s, sp + 8 + 8 * i, p) && StringAt(s, p, args[i]);
      var q: nat :| q < WORD64 && WordAt(s, sp + 8 + 8 * i, q) && StringAt(s, q, other[i]);
      WordUnique(s, sp + 8 + 8 * i, p, q);
      StringUnique(s, p, args[i], other[i]);
    }
  }

  lemma WordUnique(s: Space, a: nat, v: nat, w: nat)
    requires WordAt(s, a, v) && WordAt(s, a, w) && v < WORD64 && w < WORD64
    ensures v == w
  {
    hide Byte, Bytes64;
    assert forall k :: 0 <= k < 8 ==> Bytes64(v)[k] == Byte(s, a + k) == Bytes64(w)[k];
    assert Bytes64(v) == Bytes64(w);
    WordDecodes(v);
    WordDecodes(w);
  }

  lemma StringUnique(s: Space, a: nat, x: seq<byte>, y: seq<byte>)
    requires StringAt(s, a, x) && StringAt(s, a, y) && 0 !in x && 0 !in y
    ensures x == y
  {
    hide Byte;
    var b, c := Byte(s, a + |x|), Byte(s, a + |y|);
    assert |x| == |y|;
    assert forall k :: 0 <= k < |x| ==> x[k] == Byte(s, a + k) == y[k];
  }
}
