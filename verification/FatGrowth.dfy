/** What growing a file by whole clusters keeps: the file's own bytes, its
    directory, every other chain. */
module FatGrowth {
  import opened Bytes
  import opened FatVolume
  import opened FatChains
  import opened FatData

  /** From disk d0 with file chain ch to disk d with file chain now; dir is the
      chain of the directory that lists the file. */
  ghost predicate Growing(g: Geometry, d0: Disk, d: Disk, ch: seq<nat>, now: seq<nat>, dir: seq<nat>)
  {
    && Formatted(g, d0) && Formatted(g, d) && Chain(Fat(g, d), dir) && Apart(now, dir)
    && OthersKept(g, d0, d, ch + dir) && FreeWasFree(Fat(g, d0), Fat(g, d)) && Grew(Fat(g, d0), ch, now)
  }

  /** Nothing is freed on the way. */
  ghost predicate FreeWasFree(fat0: seq<nat>, fat: seq<nat>)
  {
    |fat| == |fat0| && forall x :: 0 <= x < |fat| && fat[x] == 0 ==> fat0[x] == 0
  }

  /** Clusters come from the old chain or were free. */
  ghost predicate Grew(fat0: seq<nat>, ch: seq<nat>, now: seq<nat>)
  {
    forall x :: x in now ==> x in ch || (2 <= x < |fat0| && fat0[x] == 0)
  }

  lemma GrowingStart(g: Geometry, d: Disk, ch: seq<nat>, dir: seq<nat>)
    requires Formatted(g, d) && Chain(Fat(g, d), dir) && Apart(ch, dir)
    ensures Growing(g, d, d, ch, ch, dir)
  {
    hide Fat, Formatted, Chain, Whole;
    forall b | Chain(Fat(g, d), b) && Apart(b, ch + dir)
      ensures OnVolume(g, b) && Kept(g, d, d, b)
    {
      ChainOnVolume(g, d, b);
    }
  }

  /** A file that gets a zeroed cluster behind its first m keeps its bytes. */
  lemma LinkFile(g: Geometry, d: Disk, d': Disk, inode: nat, length: nat, ch: seq<nat>, m: nat, c: nat)
    requires FileOk(g, d, inode, length, ch) && 0 < m <= |ch| && length <= Start(g, m) && ch[m - 1] < Clusters(g)
    requires LinkedTo(g, d, d', ch[m - 1], c) && Fat(g, d)[c] == 0
    ensures OnVolume(g, ch) && Start(g, m) <= Start(g, |ch|)
    ensures FileOk(g, d', inode, length, ch[..m] + [c]) && OnVolume(g, ch[..m] + [c])
    ensures ZeroGrown(Whole(g, d, ch)[..Start(g, m)], Whole(g, d', ch[..m] + [c]))
  {
    hide Fat, Formatted, Chain, Whole, Start, ClusterSize, LinkedTo;
    var r := ch[..m] + [c];
    LinkedFacts(g, d, d', ch[m - 1], c);
    LinkedChain(g, d, d', ch, m, c);
    var w, w' := Whole(g, d, ch), Whole(g, d', r);
    var z :| AllZero(z) && |z| == ClusterSize(g) && w' == w[..Start(g, m)] + z;
    assert w'[..Start(g, m)] == w[..Start(g, m)] && w'[Start(g, m)..] == z;
  }

  /** w is p with zeros behind it. */
  ghost predicate ZeroGrown(p: seq<byte>, w: seq<byte>)
  {
    |p| <= |w| && w[..|p|] == p && AllZero(w[|p|..])
  }

  lemma ZeroGrownTwice(p: seq<byte>, a: seq<byte>, w: seq<byte>)
    requires ZeroGrown(p, a) && ZeroGrown(a, w)
    ensures ZeroGrown(p, w)
  {
    assert w[..|p|] == w[..|a|][..|p|];
    forall i | |p| <= i < |w|
      ensures w[i] == 0
    {
      if i < |a| {
        assert w[i] == w[..|a|][i] == a[|p|..][i - |p|];
      } else {
        assert w[i] == w[|a|..][i - |a|];
      }
    }
  }

  lemma LinkedFacts(g: Geometry, d: Disk, d': Disk, last: nat, c: nat)
    requires Formatted(g, d) && LinkedTo(g, d, d', last, c)
    ensures Formatted(g, d') && 2 <= c < Clusters(g) && last < Clusters(g) && Fat(g, d') == Fat(g, d)[c := LAST][last := c]
  {
  }

  lemma GrowLink(g: Geometry, d0: Disk, d: Disk, d': Disk, ch: seq<nat>, now: seq<nat>, dir: seq<nat>, m: nat, c: nat)
    requires Growing(g, d0, d, ch, now, dir) && Chain(Fat(g, d), now) && 0 < m <= |now| && now[m - 1] < Clusters(g)
    requires LinkedTo(g, d, d', now[m - 1], c) && Fat(g, d)[c] == 0
    ensures Growing(g, d0, d', ch, now[..m] + [c], dir) && OnVolume(g, dir) && Whole(g, d', dir) == Whole(g, d, dir)
  {
    hide Fat, Formatted, Chain, Whole, LinkedTo, OthersKept;
    var last := now[m - 1];
    LinkedFacts(g, d, d', last, c);
    FreeIsNowhere(Fat(g, d), dir, c);
    ClustersOk(g, d);
    assert last in now;
    LinkedKeeps(g, d, d', last, c, dir);
    OthersUnderLink(g, d, d', now + dir, last, c);
    OthersBoth(g, d0, d, d', ch + dir, now + dir);
  }

  lemma ClustersOk(g: Geometry, d: Disk)
    requires Formatted(g, d)
    ensures 2 <= Clusters(g) <= EOC && |Fat(g, d)| == Clusters(g)
  {
  }

  /** A write to the directory. */
  lemma GrowDirent(g: Geometry, d0: Disk, d: Disk, d': Disk, ch: seq<nat>, now: seq<nat>, dir: seq<nat>)
    requires Growing(g, d0, d, ch, now, dir) && OnlyChain(g, d, d', dir)
    ensures Growing(g, d0, d', ch, now, dir)
  {
    hide Fat, Formatted, Chain, Whole, OthersKept, ClusterBytes;
    OthersUnderWrite(g, d, d', dir);
    OthersBoth(g, d0, d, d', ch + dir, dir);
  }

  lemma DirentFile(g: Geometry, d: Disk, d': Disk, inode: nat, length: nat, now: seq<nat>, dir: seq<nat>)
    requires FileOk(g, d, inode, length, now) && OnlyChain(g, d, d', dir) && Apart(now, dir)
    ensures FileOk(g, d', inode, length, now) && Backing(g, d', inode, length, now) == Backing(g, d, inode, length, now)
  {
    hide Fat, Formatted, Chain, Whole, ClusterBytes, Start;
    ChainOnVolume(g, d, now);
    OnlyChainFrame(g, d, d', dir, now);
  }

  /** A write to the file's own clusters. */
  lemma GrowWrite(g: Geometry, d0: Disk, d: Disk, d': Disk, ch: seq<nat>, now: seq<nat>, dir: seq<nat>)
    requires Growing(g, d0, d, ch, now, dir) && OnlyChain(g, d, d', now)
    ensures Growing(g, d0, d', ch, now, dir) && OnVolume(g, dir) && Whole(g, d', dir) == Whole(g, d, dir)
  {
    hide Fat, Formatted, Chain, Whole, OthersKept, ClusterBytes;
    OthersUnderWrite(g, d, d', now);
    OthersBoth(g, d0, d, d', ch + dir, now);
    ChainOnVolume(g, d, dir);
    assert Apart(dir, now);
    OnlyChainFrame(g, d, d', now, dir);
  }

  /** The first cluster of an empty file. */
  lemma GrowFirst(g: Geometry, d0: Disk, d: Disk, d': Disk, dir: seq<nat>, c: nat)
    requires Growing(g, d0, d, [], [], dir) && 2 <= c < Clusters(g) && Fat(g, d)[c] == 0
    requires Formatted(g, d') && Fat(g, d') == Fat(g, d)[c := LAST] && SectorsKept(d, d', g.fatLba, g.dataLba)
    ensures Growing(g, d0, d', [], [c], dir) && Chain(Fat(g, d'), [c]) && OnVolume(g, dir) && Whole(g, d', dir) == Whole(g, d, dir)
  {
    hide Fat, Formatted, Whole, OthersKept, ClusterBytes, SectorsKept;
    ClustersOk(g, d);
    FreeIsNowhere(Fat(g, d), dir, c);
    FirstKeeps(g, d, d', c, dir);
    forall b | Chain(Fat(g, d), b) && Apart(b, dir)
      ensures OnVolume(g, b) && Kept(g, d, d', b)
    {
      FirstKeeps(g, d, d', c, b);
    }
    assert OthersKept(g, d, d', dir) by { OthersFrom(g, d, d', dir); }
    assert [] + dir == dir;
    OthersBoth(g, d0, d, d', [] + dir, dir);
  }

  lemma OthersFrom(g: Geometry, d: Disk, d': Disk, ch: seq<nat>)
    requires Formatted(g, d) && forall b :: Chain(Fat(g, d), b) && Apart(b, ch) ==> OnVolume(g, b) && Kept(g, d, d', b)
    ensures OthersKept(g, d, d', ch)
  {
  }

  lemma FirstKeeps(g: Geometry, d: Disk, d': Disk, c: nat, b: seq<nat>)
    requires Formatted(g, d) && Chain(Fat(g, d), b) && 2 <= c < Clusters(g) && Fat(g, d)[c] == 0
    requires Formatted(g, d') && Fat(g, d') == Fat(g, d)[c := LAST] && SectorsKept(d, d', g.fatLba, g.dataLba)
    ensures OnVolume(g, b) && Kept(g, d, d', b)
  {
    hide Fat, Formatted, ClusterBytes;
    ChainOnVolume(g, d, b);
    FreeIsNowhere(Fat(g, d), b, c);
    ChainFrame(Fat(g, d), Fat(g, d'), b);
    forall i | 0 <= i < |b|
      ensures ClusterBytes(g, d', b[i]) == ClusterBytes(g, d, b[i])
    {
      TableWriteData(g, d, d', b[i]);
    }
    WholeFrame(g, d, d', b);
  }

  /** Zeroing a file's only cluster. */
  lemma GrowZero(g: Geometry, d0: Disk, d: Disk, d': Disk, ch: seq<nat>, dir: seq<nat>, c: nat)
    requires Growing(g, d0, d, ch, [c], dir) && Chain(Fat(g, d), [c]) && 2 <= c < Clusters(g)
    requires OnlyCluster(g, d, d', c) && AllZero(ClusterBytes(g, d', c))
    ensures Growing(g, d0, d', ch, [c], dir) && FileOk(g, d', c, 0, [c]) && OnVolume(g, dir) && Whole(g, d', dir) == Whole(g, d, dir)
    ensures OnVolume(g, [c]) && AllZero(Whole(g, d', [c]))
  {
    hide Fat, Formatted, OthersKept, ClusterBytes, Chain;
    OnlyIsChain(g, d, d', c);
    OthersUnderWrite(g, d, d', [c]);
    OthersBoth(g, d0, d, d', ch + dir, [c]);
    ChainOnVolume(g, d, dir);
    assert c !in dir;
    OnlyChainFrame(g, d, d', [c], dir);
    ChainOnVolume(g, d, [c]);
    assert Whole(g, d', [c]) == ClusterBytes(g, d', c);
  }

  lemma OnlyIsChain(g: Geometry, d: Disk, d': Disk, c: nat)
    requires Formatted(g, d) && 2 <= c < Clusters(g) && OnlyCluster(g, d, d', c)
    ensures OnlyChain(g, d, d', [c])
  {
  }

  /** A longer length within the chain. */
  lemma Lengthen(g: Geometry, d: Disk, inode: nat, length: nat, length': nat, ch: seq<nat>)
    requires FileOk(g, d, inode, length, ch) && length <= length' <= Start(g, |ch|) && length' < WORD
    ensures FileOk(g, d, inode, length', ch)
  {
    hide Fat, Formatted, Chain, Whole, Start;
  }

  /** Clusters needed for n bytes. */
  function Needed(g: Geometry, n: nat): nat
    requires 0 < ClusterSize(g)
  {
    if n == 0 then 0 else Quotient(n + ClusterSize(g) - 1, ClusterSize(g))
  }

  /** It is the least number of clusters that hold n bytes. */
  lemma NeededMeans(g: Geometry, n: nat)
    requires 0 < ClusterSize(g)
    ensures n <= Needed(g, n) * ClusterSize(g) && (n > 0 ==> Needed(g, n) > 0 && (Needed(g, n) - 1) * ClusterSize(g) < n)
  {
    if n > 0 {
      QuotientIs(n + ClusterSize(g) - 1, ClusterSize(g));
    }
  }

  lemma QuotientIs(a: nat, b: nat)
    requires 0 < b
    ensures Quotient(a, b) * b <= a < Quotient(a, b) * b + b && (b <= a ==> Quotient(a, b) > 0)
    ensures (Quotient(a, b) - 1) * b == Quotient(a, b) * b - b
  {
  }

  function Quotient(a: nat, b: nat): nat
    requires 0 < b
  {
    a / b
  }

  lemma NoNeed(g: Geometry)
    requires 0 < ClusterSize(g)
    ensures Needed(g, 0) == 0
  {
  }

  /** The same in 32 bits. */
  function Needed32(g: Geometry, n: nat): nat
    requires 0 < ClusterSize(g)
  {
    if n == 0 then 0 else Quotient((n + ClusterSize(g) - 1) % WORD, ClusterSize(g))
  }

  lemma NeededIn32(g: Geometry, n: nat)
    requires 0 < ClusterSize(g) < WORD && n < WORD
    ensures Needed32(g, n) == if n + ClusterSize(g) - 1 < WORD then Needed(g, n) else 0
  {
    hide ClusterSize, Quotient;
    var v := n + ClusterSize(g) - 1;
    Wraps(v);
    if v >= WORD {
      SmallQuotient(v - WORD, ClusterSize(g));
    }
  }

  lemma Wraps(v: nat)
    requires v < 2 * WORD
    ensures v % WORD == if v < WORD then v else v - WORD
  {
  }

  lemma SmallQuotient(a: nat, b: nat)
    requires a < b
    ensures Quotient(a, b) == 0
  {
  }

  lemma NeededMono(g: Geometry, m: nat, n: nat)
    requires 0 < ClusterSize(g) && m <= n
    ensures Needed(g, m) <= Needed(g, n)
  {
    NeededFits(g, n, Needed(g, n));
    NeededFits(g, m, Needed(g, n));
  }

  lemma NeededFits(g: Geometry, n: nat, k: nat)
    requires 0 < ClusterSize(g)
    ensures n <= Start(g, Needed(g, n)) && (n <= Start(g, k) ==> Needed(g, n) <= k)
  {
    var cs := ClusterSize(g);
    if n > 0 {
      var q := (n + cs - 1) / cs;
      assert n + cs - 1 == q * cs + (n + cs - 1) % cs;
      if n <= Start(g, k) && k < q {
        StartMono(g, k + 1, q);
        StartNext(g, k);
      }
    }
  }

  // ----- What a file becomes

  /** The clusters that a length accounts for; a chain has its first one even
      when the length is 0. */
  function Counted(g: Geometry, length: nat, ch: seq<nat>): nat
    requires 0 < ClusterSize(g)
  {
    if ch == [] then 0 else if Needed(g, length) == 0 then 1 else Needed(g, length)
  }

  lemma CountedFits(g: Geometry, d: Disk, inode: nat, length: nat, ch: seq<nat>)
    requires FileOk(g, d, inode, length, ch)
    ensures 0 < ClusterSize(g) && OnVolume(g, ch)
    ensures Counted(g, length, ch) <= |ch| && length <= Start(g, Counted(g, length, ch)) <= Start(g, |ch|)
  {
    FileFacts(g, d, inode, length, ch);
    hide Fat, Formatted, Chain, Whole;
    NeededFits(g, length, |ch|);
    StartNext(g, 0);
    StartMono(g, Counted(g, length, ch), |ch|);
  }

  /** A file's contents and the slack behind them: the bytes of the clusters
      its length accounts for. */
  ghost function Backing(g: Geometry, d: Disk, inode: nat, length: nat, ch: seq<nat>): (r: seq<byte>)
    requires FileOk(g, d, inode, length, ch)
    ensures 0 < ClusterSize(g) && |r| == Start(g, Counted(g, length, ch))
    ensures length <= |r| && r[..length] == Contents(g, d, inode, length, ch)
  {
    CountedFits(g, d, inode, length, ch);
    Whole(g, d, ch)[..Start(g, Counted(g, length, ch))]
  }

  /** The bytes a write up to end builds on: those and, where the 32-bit
      rounding goes wrong, all the chain has. */
  ghost function Before(g: Geometry, d: Disk, inode: nat, length: nat, ch: seq<nat>, end: nat): (r: seq<byte>)
    requires FileOk(g, d, inode, length, ch)
    ensures length <= |r| && r[..length] == Contents(g, d, inode, length, ch)
  {
    FileFacts(g, d, inode, length, ch);
    if end > length && end + ClusterSize(g) > WORD then Whole(g, d, ch) else Backing(g, d, inode, length, ch)
  }

  /** A size the driver can grow a file to, or need not grow it for. */
  predicate Roomy(g: Geometry, size: nat, ch: seq<nat>)
  {
    size + ClusterSize(g) <= WORD || size <= Start(g, |ch|)
  }

  /** The clusters that growing a file to size takes, in 32-bit counts. */
  function Extra(g: Geometry, length: nat, size: nat): nat
    requires 0 < ClusterSize(g)
  {
    if size > length && Needed32(g, size) > Needed32(g, length) then Needed32(g, size) - Needed32(g, length) else 0
  }

  lemma TwoBytes(g: Geometry)
    requires 2 <= ClusterSize(g) < WORD - 1
    ensures Extra(g, 0, 2) == 1
  {
    hide ClusterSize;
    var c := ClusterSize(g);
    assert (2 + c - 1) % WORD == c + 1;
    assert Quotient(c + 1, c) == 1 by { JustOver(c); }
  }

  lemma JustOver(c: nat)
    requires 1 < c
    ensures (c + 1) / c == 1
  {
    assert c + 1 == 1 * c + 1;
  }

  /** How growth uses the free clusters: it fails exactly when there are fewer
      than it takes, and takes no others. Clusters that the chain had beyond its
      length are dropped from it, and lost, exactly when one is linked. */
  ghost predicate Room(g: Geometry, fat0: seq<nat>, fat: seq<nat>, length: nat, size: nat, ch: seq<nat>, now: seq<nat>, failed: bool)
  {
    && 0 < ClusterSize(g)
    && (failed <==> FreeIn(fat0) < Extra(g, length, size))
    && FreeIn(fat) == FreeIn(fat0) - Min(FreeIn(fat0), Extra(g, length, size))
    && (ch != [] ==> Behind(fat, ch, now, Counted(g, length, ch), FreeIn(fat0) > 0 && Extra(g, length, size) > 0))
  }

  lemma NoRoomNeeded(g: Geometry, fat: seq<nat>, length: nat, size: nat, ch: seq<nat>)
    requires 0 < ClusterSize(g) && (size <= length || Needed32(g, size) <= Needed32(g, length))
    ensures Room(g, fat, fat, length, size, ch, ch, false)
  {
    hide Needed32, FreeIn, ClusterSize;
  }

  lemma RoomTaken(g: Geometry, fat0: seq<nat>, fat: seq<nat>, length: nat, size: nat, ch: seq<nat>, now: seq<nat>, ok: bool)
    requires 0 < ClusterSize(g) && size > length && Needed32(g, size) > Needed32(g, length)
    requires var k := Needed32(g, size) - Needed32(g, length);
             (ok <==> FreeIn(fat0) >= k) && FreeIn(fat) == FreeIn(fat0) - Min(FreeIn(fat0), k)
    requires ch != [] ==> Behind(fat, ch, now, Counted(g, length, ch), FreeIn(fat0) > 0)
    ensures Room(g, fat0, fat, length, size, ch, now, !ok)
  {
    hide Needed32, FreeIn, ClusterSize, Counted, Behind;
  }

  /** The writes, by where they end, whose 32-bit sums are right or harmless. */
  predicate Fits32(g: Geometry, length: nat, ch: seq<nat>, end: nat)
  {
    end <= length || (end < WORD && Roomy(g, end, ch))
  }

  function Max(a: nat, b: nat): nat { if a < b then b else a }

  /** q is p with data at place at, and zeros where p ends. */
  ghost predicate Over(p: seq<byte>, q: seq<byte>, at: nat, data: seq<byte>)
  {
    && at + |data| <= |q|
    && forall i :: 0 <= i < |q| ==> q[i] == if at <= i < at + |data| then data[i - at] else if i < |p| then p[i] else 0
  }

  lemma OverGrown(p: seq<byte>, w: seq<byte>, n: nat)
    requires ZeroGrown(p, w) && |p| <= n <= |w|
    ensures Over(p, w[..n], 0, [])
  {
    forall i | 0 <= i < n
      ensures w[i] == if i < |p| then p[i] else 0
    {
      if i < |p| {
        assert w[i] == w[..|p|][i];
      } else {
        assert w[i] == w[|p|..][i - |p|];
      }
    }
  }

  lemma OverNothing(p: seq<byte>)
    ensures Over(p, p, 0, [])
  {
  }

  lemma NothingGrown(p: seq<byte>)
    ensures ZeroGrown(p, p)
  {
  }

  /** A file that keeps its length while clusters are linked. */
  lemma StillBacked(g: Geometry, d: Disk, inode: nat, length: nat, now: seq<nat>, m: nat, p: seq<byte>)
    requires FileOk(g, d, inode, length, now) && 0 < ClusterSize(g) && Counted(g, length, now) <= m <= |now| && OnVolume(g, now)
    requires Start(g, m) <= Start(g, |now|) && ZeroGrown(p, Whole(g, d, now)[..Start(g, m)]) && |p| <= Start(g, Counted(g, length, now))
    ensures Over(p, Backing(g, d, inode, length, now), 0, [])
  {
    FileFacts(g, d, inode, length, now);
    hide FileOk, Formatted, Fat, Chain, Whole, Start, ZeroGrown, Over, Counted;
    var n := Start(g, Counted(g, length, now));
    StartMono(g, Counted(g, length, now), m);
    OverGrown(p, Whole(g, d, now)[..Start(g, m)], n);
    assert Whole(g, d, now)[..Start(g, m)][..n] == Whole(g, d, now)[..n];
  }

  /** A file whose length goes up within the clusters it has. */
  lemma Longer(g: Geometry, d: Disk, inode: nat, length: nat, size: nat, now: seq<nat>, m: nat, p: seq<byte>)
    requires FileOk(g, d, inode, length, now) && length < size < WORD && 0 < ClusterSize(g) && OnVolume(g, now)
    requires Needed(g, size) <= m <= |now| && Start(g, m) <= Start(g, |now|) && ZeroGrown(p, Whole(g, d, now)[..Start(g, m)])
    requires |p| <= Start(g, Needed(g, size))
    ensures FileOk(g, d, inode, size, now) && Over(p, Backing(g, d, inode, size, now), 0, [])
  {
    hide Formatted, Fat, Chain, Whole, Start, ZeroGrown, Over, ClusterSize;
    NeededFits(g, size, m);
    StartMono(g, Needed(g, size), m);
    Lengthen(g, d, inode, length, size, now);
    NeededSome(g, size);
    StillBacked(g, d, inode, size, now, m, p);
  }

  lemma CountedGrows(g: Geometry, length: nat, ch: seq<nat>, now: seq<nat>)
    requires 0 < ClusterSize(g) && (now == [] ==> ch == [])
    ensures Start(g, Counted(g, length, ch)) <= Start(g, Counted(g, length, now))
  {
    StartMono(g, Counted(g, length, ch), Counted(g, length, now));
  }

  /** A size that needs no more clusters than the length is accounted for. */
  lemma StillCounted(g: Geometry, d: Disk, inode: nat, length: nat, size: nat, ch: seq<nat>)
    requires FileOk(g, d, inode, length, ch) && length < size && 0 < ClusterSize(g) && Needed(g, size) <= Needed(g, length)
    ensures Needed(g, size) <= Counted(g, length, ch)
  {
    NeededSome(g, size);
    StartNext(g, 0);
    if ch == [] {
      assert length == 0;
    }
  }

  lemma BeforeIs(g: Geometry, d: Disk, inode: nat, length: nat, ch: seq<nat>, end: nat)
    requires FileOk(g, d, inode, length, ch) && end <= length
    ensures Before(g, d, inode, length, ch, end) == Backing(g, d, inode, length, ch)
  {
  }

  lemma NeededSome(g: Geometry, n: nat)
    requires 0 < ClusterSize(g) && 0 < n
    ensures 0 < Needed(g, n)
  {
    NeededFits(g, n, 0);
    StartNext(g, 0);
  }

  /** The same where the rounding went wrong and the chain was long enough. */
  lemma LongerAnyway(g: Geometry, d: Disk, inode: nat, length: nat, size: nat, ch: seq<nat>)
    requires FileOk(g, d, inode, length, ch) && length < size < WORD && size <= Start(g, |ch|)
    ensures FileOk(g, d, inode, size, ch) && OnVolume(g, ch) && Over(Whole(g, d, ch), Backing(g, d, inode, size, ch), 0, [])
  {
    Lengthen(g, d, inode, length, size, ch);
    CountedFits(g, d, inode, size, ch);
  }

  lemma OverThen(p: seq<byte>, q: seq<byte>, r: seq<byte>, at: nat, data: seq<byte>)
    requires Over(p, q, 0, []) && Over(q, r, at, data) && |r| == |q|
    ensures Over(p, r, at, data)
  {
  }

  /** The slack bytes that a write at place at makes part of the file. */
  ghost predicate GapIsZero(p: seq<byte>, length: nat, at: nat)
  {
    forall i :: length <= i < at && i < |p| ==> p[i] == 0
  }

  /** The file is updated as a byte sequence exactly when the slack inside the
      gap was zero. */
  lemma OverContents(p: seq<byte>, length: nat, q: seq<byte>, length': nat, at: nat, data: seq<byte>)
    requires Over(p, q, at, data) && length <= |p| && length' <= |q| && length' == if at + |data| > length then at + |data| else length
    ensures Overwritten(p[..length], q[..length'], at, data) <==> GapIsZero(p, length, at)
  {
    var s, t := p[..length], q[..length'];
    if !GapIsZero(p, length, at) {
      var i :| length <= i < at && i < |p| && p[i] != 0;
      assert t[i] == p[i] && i >= |s|;
    }
  }

  /** Slack that was zero stays zero. */
  lemma OverSlack(p: seq<byte>, length: nat, q: seq<byte>, length': nat, at: nat, data: seq<byte>)
    requires Over(p, q, at, data) && length <= |p| && length' <= |q| && length' == if at + |data| > length then at + |data| else length
    ensures AllZero(p[length..]) ==> AllZero(q[length'..])
  {
    if AllZero(p[length..]) {
      forall i | length' <= i < |q|
        ensures q[i] == 0
      {
        assert i < |p| ==> p[i] == p[length..][i - length];
      }
    }
  }

  /** From the file before to the file after a write that was done, or failed
      with done false. */
  ghost predicate Updated(g: Geometry, d0: Disk, f0: File, d: Disk, f: File, offset: nat, data: seq<byte>, done: bool)
  {
    && FileOk(g, d0, f0.inode, f0.length, f0.chain) && FileOk(g, d, f.inode, f.length, f.chain)
    && Over(Before(g, d0, f0.inode, f0.length, f0.chain, offset + |data|), Backing(g, d, f.inode, f.length, f.chain),
            if done then offset else 0, if done then data else [])
  }

  datatype File = File(inode: nat, length: nat, chain: seq<nat>)

  ghost function Text(g: Geometry, d: Disk, f: File): seq<byte>
    requires FileOk(g, d, f.inode, f.length, f.chain)
  {
    Contents(g, d, f.inode, f.length, f.chain)
  }

  /** All bytes behind the length in the clusters it accounts for are zero. */
  ghost predicate ZeroSlack(g: Geometry, d: Disk, f: File)
  {
    FileOk(g, d, f.inode, f.length, f.chain) && AllZero(Backing(g, d, f.inode, f.length, f.chain)[f.length..])
  }

  /** The law of writing. The file is the old byte sequence overwritten at
      offset, with zeros in a gap, exactly when the slack bytes inside the gap
      were zero; they are when all slack was, and slack that was zero stays so. */
  lemma WriteLaw(g: Geometry, d0: Disk, f0: File, d: Disk, f: File, offset: nat, data: seq<byte>)
    requires Updated(g, d0, f0, d, f, offset, data, true) && f.length == Max(f0.length, offset + |data|)
    ensures Overwritten(Text(g, d0, f0), Text(g, d, f), offset, data)
            <==> GapIsZero(Before(g, d0, f0.inode, f0.length, f0.chain, offset + |data|), f0.length, offset)
    ensures ZeroSlack(g, d0, f0) && (offset + |data| + ClusterSize(g) <= WORD || offset + |data| <= f0.length) ==>
              ZeroSlack(g, d, f) && Overwritten(Text(g, d0, f0), Text(g, d, f), offset, data)
  {
    hide FileOk, Formatted, Fat, Chain, Whole, Start, Contents, Backing, Over, Overwritten;
    var p, q := Before(g, d0, f0.inode, f0.length, f0.chain, offset + |data|), Backing(g, d, f.inode, f.length, f.chain);
    OverContents(p, f0.length, q, f.length, offset, data);
    OverSlack(p, f0.length, q, f.length, offset, data);
    if AllZero(p[f0.length..]) {
      forall i | f0.length <= i < |p|
        ensures p[i] == 0
      {
        assert p[i] == p[f0.length..][i - f0.length];
      }
    }
  }

  /** A write that ran out of space leaves the file as it was. */
  lemma FailedWrite(g: Geometry, d0: Disk, f0: File, d: Disk, f: File, offset: nat, data: seq<byte>)
    requires Updated(g, d0, f0, d, f, offset, data, false) && f.length == f0.length
    ensures Text(g, d, f) == Text(g, d0, f0)
    ensures ZeroSlack(g, d0, f0) && (offset + |data| + ClusterSize(g) <= WORD || offset + |data| <= f0.length) ==> ZeroSlack(g, d, f)
  {
    hide FileOk, Formatted, Fat, Chain, Whole, Start, Contents, Backing;
    var p, q := Before(g, d0, f0.inode, f0.length, f0.chain, offset + |data|), Backing(g, d, f.inode, f.length, f.chain);
    assert p[..f0.length] == q[..f0.length];
    OverSlack(p, f0.length, q, f.length, 0, []);
  }

  /** The written bytes are there. */
  lemma ReadBack(g: Geometry, d0: Disk, f0: File, d: Disk, f: File, offset: nat, data: seq<byte>)
    requires Updated(g, d0, f0, d, f, offset, data, true)
    ensures OnVolume(g, f.chain) && offset + |data| <= |Whole(g, d, f.chain)| && Whole(g, d, f.chain)[offset..offset + |data|] == data
  {
    FileFacts(g, d, f.inode, f.length, f.chain);
    CountedFits(g, d, f.inode, f.length, f.chain);
    hide FileOk, Formatted, Fat, Chain, Whole, Start, Contents;
    var q := Backing(g, d, f.inode, f.length, f.chain);
    assert q[offset..offset + |data|] == data;
    assert Whole(g, d, f.chain)[offset..offset + |data|] == q[offset..offset + |data|];
  }

  // ----- All chains at once

  /** The chains of a volume after the chain ch of one file became now. */
  ghost function Replaced(chains: set<seq<nat>>, ch: seq<nat>, now: seq<nat>): set<seq<nat>>
  {
    if now == [] then chains else chains - {ch} + {now}
  }

  /** Whatever chains the volume has: if they are whole and apart before, they
      are afterwards, with now in the place of ch. */
  ghost predicate KeepsLive(fat0: seq<nat>, fat: seq<nat>, ch: seq<nat>, now: seq<nat>, dir: seq<nat>)
  {
    forall chains :: Live(fat0, chains) && dir in chains && ch != dir && (ch in chains || ch == []) ==> Live(fat, Replaced(chains, ch, now))
  }

  lemma GrownKeepsLive(g: Geometry, d0: Disk, d: Disk, ch: seq<nat>, now: seq<nat>, dir: seq<nat>)
    requires Growing(g, d0, d, ch, now, dir) && Chain(Fat(g, d), now) && (now == [] ==> ch == [])
    ensures KeepsLive(Fat(g, d0), Fat(g, d), ch, now, dir)
  {
    hide Formatted, Fat, Chain, Whole;
    forall chains | Live(Fat(g, d0), chains) && dir in chains && ch != dir && (ch in chains || ch == [])
      ensures Live(Fat(g, d), Replaced(chains, ch, now))
    {
      forall b | b in chains && b != ch
        ensures b != [] && Chain(Fat(g, d), b) && Apart(b, now) && Apart(now, b)
      {
        StaysApart(Fat(g, d0), ch, now, b);
        if b != dir {
          assert Apart(b, ch) && Apart(b, dir);
          assert Apart(b, ch + dir);
          assert Kept(g, d0, d, b);
        }
      }
    }
  }

  lemma StaysApart(fat0: seq<nat>, ch: seq<nat>, now: seq<nat>, b: seq<nat>)
    requires Chain(fat0, b) && Apart(ch, b) && Grew(fat0, ch, now)
    ensures Apart(now, b) && Apart(b, now)
  {
    forall x | x in now
      ensures x !in b
    {
      if x !in ch {
        FreeIsNowhere(fat0, b, x);
      }
    }
  }

  // ----- Writing within a chain

  /** data[..n] has been written to the chain from byte p on. */
  ghost predicate ChainWritten(g: Geometry, d0: Disk, d: Disk, ch: seq<nat>, p: nat, data: seq<byte>, n: nat)
  {
    && Formatted(g, d0) && Chain(Fat(g, d0), ch) && OnVolume(g, ch) && Distinct(ch) && OnlyChain(g, d0, d, ch)
    && n <= |data| && p + n <= |Whole(g, d0, ch)| && Whole(g, d, ch) == Put(Whole(g, d0, ch), p, data[..n])
  }

  lemma ChainWriteNothing(g: Geometry, d: Disk, ch: seq<nat>, p: nat, data: seq<byte>)
    requires Formatted(g, d) && Chain(Fat(g, d), ch) && p <= Start(g, |ch|)
    ensures ChainWritten(g, d, d, ch, p, data, 0)
  {
    hide Formatted, Fat, Chain, Whole, Distinct;
    ChainOnVolume(g, d, ch);
    assert Whole(g, d, ch) == Put(Whole(g, d, ch), p, data[..0]);
  }

  lemma ChainWriteMore(g: Geometry, d0: Disk, d: Disk, d': Disk, ch: seq<nat>, p: nat, data: seq<byte>, n: nat, q: nat, off: nat, k: nat)
    requires ChainWritten(g, d0, d, ch, p, data, n) && q < |ch| && p + n == Start(g, q) + off
    requires Written(g, d, d', ch[q], off, data[n..], k)
    ensures ChainWritten(g, d0, d', ch, p, data, n + k)
  {
    hide Formatted, Fat, Chain, Whole, Distinct, ClusterBytes, Start, ClusterSize;
    WholePut(g, d, d', ch, q, off, data[n..][..k]);
    assert data[..n] + data[n..][..k] == data[..n + k];
    PutMore(Whole(g, d0, ch), p, data[..n], data[n..][..k]);
    assert OnlyChain(g, d, d', ch);
    OnlyChainBoth(g, d0, d, d', ch);
  }

  lemma ChainWrittenFacts(g: Geometry, d0: Disk, d: Disk, ch: seq<nat>, p: nat, data: seq<byte>, n: nat)
    requires ChainWritten(g, d0, d, ch, p, data, n)
    ensures Formatted(g, d0) && Formatted(g, d) && Fat(g, d) == Fat(g, d0) && Chain(Fat(g, d), ch) && OnVolume(g, ch) && Clusters(g) <= EOC
    ensures OnlyChain(g, d0, d, ch)
  {
  }

  /** t is s with data at p, zeros filling a gap. */
  ghost predicate Overwritten(s: seq<byte>, t: seq<byte>, p: nat, data: seq<byte>)
  {
    && |t| == (if p + |data| > |s| then p + |data| else |s|)
    && forall i :: 0 <= i < |t| ==> t[i] == if p <= i < p + |data| then data[i - p] else if i < |s| then s[i] else 0
  }

  /** A whole write within the length is a write to the file's bytes. */
  lemma WriteBacking(g: Geometry, d: Disk, d': Disk, inode: nat, length: nat, ch: seq<nat>, p: nat, data: seq<byte>)
    requires FileOk(g, d, inode, length, ch) && ChainWritten(g, d, d', ch, p, data, |data|) && p + |data| <= length
    ensures FileOk(g, d', inode, length, ch)
    ensures Over(Backing(g, d, inode, length, ch), Backing(g, d', inode, length, ch), p, data)
  {
    hide Formatted, Fat, Chain, Whole, Distinct, Start, OnlyChain, Contents, Put, Over;
    ChainWrittenFacts(g, d, d', ch, p, data, |data|);
    assert data[..|data|] == data;
    CountedFits(g, d, inode, length, ch);
    OverPut(Whole(g, d, ch), Start(g, Counted(g, length, ch)), p, data);
  }

  lemma OverPut(w: seq<byte>, n: nat, p: nat, data: seq<byte>)
    requires p + |data| <= n <= |w|
    ensures Over(w[..n], Put(w, p, data)[..n], p, data)
  {
  }
}
