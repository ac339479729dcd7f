/** A program's memory as its page tables show it: the bytes at the virtual
    addresses of one directory. Loaders write it page by page, through the walk
    of the tables and the physical map. */
module UserMemory {
  import opened Bytes
  import PT = PageTree
  import opened CowInvariant
  import opened AddressSpaces

  const PAGE: nat := PT.PAGE_SIZE

  /** The addresses whose tables belong to one directory: above the identity
      map of the first 128 MB, below the kernel half. */
  const USER_LO: nat := 0x800_0000
  const USER_HI: nat := 0x8000_0000_0000

  predicate User(a: nat) { USER_LO <= a < USER_HI }

  /** One directory of a memory. */
  datatype Space = Space(mem: PT.Mem, dir: nat)

  lemma UserAddress(a: nat)
    requires User(a)
    ensures PT.UserPath(PT.PathOf(a)) && PT.Canonical(a)
  {
    if a / 0x80_0000_0000 == 0 && a / 0x4000_0000 == 0 {
      assert a / 0x20_0000 < 512;
    }
  }

  lemma SamePage(a: nat, b: nat)
    requires User(a) && User(b)
    ensures PT.PathOf(a) == PT.PathOf(b) <==> a / PAGE == b / PAGE
  {
    hide PT.PathOf;
    PT.PathNamesPage(a, b);
  }

  /** The byte at virtual address a, -1 where the user can read nothing. */
  ghost function Byte(s: Space, a: nat): int
  {
    if !User(a) then -1 else
    UserAddress(a);
    var c := Content(s.mem, s.dir, PT.PathOf(a));
    if c.Some? && a % PAGE < |c.value| then c.value[a % PAGE] else -1
  }

  /** The leaf entry that maps virtual address a. */
  ghost function EntryOf(s: Space, a: nat): PT.Option<PT.Entry>
  {
    if !User(a) then PT.None else PT.Trans(s.mem, s.dir, PT.PathOf(a))
  }

  /** Every address from lo to hi is on a page the user may write. */
  ghost predicate Writable(s: Space, lo: nat, hi: nat)
  {
    forall a :: lo <= a < hi ==> User(a) && UserWritable(EntryOf(s, a))
  }

  /** What other directories read. */
  ghost predicate OtherSpaces(m: PT.Mem, m': PT.Mem, dirs: set<nat>, d: nat)
  {
    forall d', q :: d' in dirs && d' != d && PT.UserPath(q) ==> Content(m', d', q) == Content(m, d', q)
  }

  lemma OthersTwice(m: PT.Mem, m1: PT.Mem, m2: PT.Mem, dirs: set<nat>, d: nat)
    requires OtherSpaces(m, m1, dirs, d) && OtherSpaces(m1, m2, dirs, d)
    ensures OtherSpaces(m, m2, dirs, d)
  {
    hide Content;
  }

  /** data has been stored at va, and nothing else has changed, the mappings
      included. */
  ghost predicate Stored(s: Space, s': Space, va: nat, data: seq<byte>)
  {
    && s'.dir == s.dir && (forall a: nat :: EntryOf(s', a) == EntryOf(s, a))
    && forall a: nat :: Byte(s', a) == if va <= a < va + |data| then data[a - va] else Byte(s, a)
  }

  lemma StoreNothing(s: Space, va: nat)
    ensures Stored(s, s, va, [])
  {
  }

  /** A store within one page. */
  lemma StorePart(s: Space, s': Space, dirs: set<nat>, va: nat, b: seq<byte>, page: seq<byte>)
    requires s.dir in dirs && s'.dir == s.dir && User(va) && va % PAGE + |b| <= PAGE && |page| == PAGE && PT.UserPath(PT.PathOf(va))
    requires OthersRead(s.mem, s'.mem, dirs, s.dir, PT.PathOf(va))
    requires forall d, q :: d in dirs && PT.IsPath(q) ==> PT.Trans(s'.mem, d, q) == PT.Trans(s.mem, d, q)
    requires Content(s.mem, s.dir, PT.PathOf(va)) == PT.Some(page) && Content(s'.mem, s.dir, PT.PathOf(va)) == PT.Some(Put(page, va % PAGE, b))
    ensures Stored(s, s', va, b) && OtherSpaces(s.mem, s'.mem, dirs, s.dir)
  {
    hide PT.PathOf, Content, PT.Trans, PT.UserPath;
    forall a: nat
      ensures Byte(s', a) == if va <= a < va + |b| then b[a - va] else Byte(s, a)
    {
      Within(va, |b|, a);
      UserPages(va, a);
      if User(a) {
        UserAddress(a);
        SamePage(va, a);
      }
    }
  }

  lemma Within(va: nat, n: nat, a: nat)
    requires va % PAGE + n <= PAGE
    ensures va <= a < va + n <==> a / PAGE == va / PAGE && va % PAGE <= a % PAGE < va % PAGE + n
    ensures a / PAGE == va / PAGE ==> a - va == a % PAGE - va % PAGE
  {
    assert va == PAGE * (va / PAGE) + va % PAGE && a == PAGE * (a / PAGE) + a % PAGE;
    if va <= a < va + n {
      assert a < PAGE * (va / PAGE) + PAGE;
    }
  }

  lemma UserPages(a: nat, b: nat)
    ensures User(a) && a / PAGE == b / PAGE ==> User(b)
  {
    assert a == PAGE * (a / PAGE) + a % PAGE && b == PAGE * (b / PAGE) + b % PAGE;
  }

  lemma StoreMore(s: Space, s1: Space, s2: Space, va: nat, a: seq<byte>, b: seq<byte>)
    requires Stored(s, s1, va, a) && Stored(s1, s2, va + |a|, b)
    ensures Stored(s, s2, va, a + b)
  {
    hide Byte, EntryOf;
    forall x: nat
      ensures Byte(s2, x) == if va <= x < va + |a + b| then (a + b)[x - va] else Byte(s, x)
    {
      assert Byte(s2, x) == if va + |a| <= x < va + |a| + |b| then b[x - va - |a|] else Byte(s1, x);
    }
  }

  lemma StillWritable(s: Space, s': Space, va: nat, data: seq<byte>, lo: nat, hi: nat, lo': nat, hi': nat)
    requires Writable(s, lo, hi) && Stored(s, s', va, data) && lo <= lo' && hi' <= hi
    ensures Writable(s', lo', hi')
  {
    hide Byte, EntryOf;
  }

  lemma WritablePart(s: Space, lo: nat, hi: nat, lo': nat, hi': nat)
    requires Writable(s, lo, hi) && lo <= lo' && hi' <= hi
    ensures Writable(s, lo', hi')
  {
  }

  /** The chunked copy loop both loaders use: page by page through the table. */
  method CopyIn(mmu: Mmu, d: nat, va: nat, data: seq<byte>)
    requires mmu.Valid() && d in mmu.dirs && Writable(Space(mmu.mem, d), va, va + |data|)
    modifies mmu`mem
    ensures mmu.Valid() && Stored(Space(old(mmu.mem), d), Space(mmu.mem, d), va, data) && OtherSpaces(old(mmu.mem), mmu.mem, mmu.dirs, d)
    ensures Exact(old(mmu.mem), mmu.dirs, mmu.pmm.refs[..]) ==> Exact(mmu.mem, mmu.dirs, mmu.pmm.refs[..])
  {
    hide Stored, Sound, Exact, Content, PT.PathOf, PT.Trans, OtherSpaces, Byte, OthersRead;
    ghost var m0, s0 := mmu.mem, Space(mmu.mem, d);
    var n := 0;
    StoreNothing(s0, va);
    assert OtherSpaces(m0, m0, mmu.dirs, d) by { SameSpaces(m0, mmu.dirs, d); }
    assert data[..0] == [];
    while n < |data|
      invariant n <= |data| && mmu.Valid() && Stored(s0, Space(mmu.mem, d), va, data[..n]) && OtherSpaces(m0, mmu.mem, mmu.dirs, d)
      invariant Exact(m0, mmu.dirs, mmu.pmm.refs[..]) ==> Exact(mmu.mem, mmu.dirs, mmu.pmm.refs[..])
    {
      var at := va + n;
      var off := at % PAGE;
      var k := PAGE - off;
      if k > |data| - n {
        k := |data| - n;
      }
      ghost var m1 := mmu.mem;
      StillWritable(s0, Space(m1, d), va, data[..n], va, va + |data|, at, at + 1);
      UserAddress(at);
      mmu.WriteFrame(d, at, data[n..n + k]);
      StorePart(Space(m1, d), Space(mmu.mem, d), mmu.dirs, at, data[n..n + k], Content(m1, d, PT.PathOf(at)).value);
      StoreMore(s0, Space(m1, d), Space(mmu.mem, d), va, data[..n], data[n..n + k]);
      OthersTwice(m0, m1, mmu.mem, mmu.dirs, d);
      assert data[..n] + data[n..n + k] == data[..n + k];
      n := n + k;
    }
    assert data[..n] == data;
  }

  lemma SameSpaces(m: PT.Mem, dirs: set<nat>, d: nat)
    ensures OtherSpaces(m, m, dirs, d)
  {
  }
}
