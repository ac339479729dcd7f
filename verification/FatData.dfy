/** The bytes of clusters and of chains of clusters. */
module FatData {
  import opened Bytes
  import opened FatVolume
  import opened FatChains

  /** The bytes of cluster c from byte off of its sector s on. */
  ghost function SectorsFrom(g: Geometry, d: Disk, c: nat, s: nat): (r: seq<byte>)
    requires Formatted(g, d) && 2 <= c < Clusters(g) && s <= g.spc
    ensures |r| == (g.spc - s) * SECTOR
    decreases g.spc - s
  {
    if s == g.spc then [] else
    LbaInDisk(g, d, c, s);
    d[Lba(g, c) + s] + SectorsFrom(g, d, c, s + 1)
  }

  ghost function ClusterBytes(g: Geometry, d: Disk, c: nat): (r: seq<byte>)
    requires Formatted(g, d) && 2 <= c < Clusters(g)
    ensures |r| == ClusterSize(g)
  {
    SectorsFrom(g, d, c, 0)
  }

  /** Only cluster c's bytes may differ. */
  ghost predicate OnlyCluster(g: Geometry, d: Disk, d': Disk, c: nat)
    requires Formatted(g, d) && 2 <= c < Clusters(g)
  {
    && Formatted(g, d') && Fat(g, d') == Fat(g, d)
    && forall x :: 2 <= x < Clusters(g) && x != c ==> ClusterBytes(g, d', x) == ClusterBytes(g, d, x)
  }

  lemma {:induction false} SectorsFrame(g: Geometry, d: Disk, d': Disk, c: nat, s: nat)
    requires Formatted(g, d) && Formatted(g, d') && 2 <= c < Clusters(g) && s <= g.spc && |d'| == |d|
    requires forall a :: Lba(g, c) + s <= a < Lba(g, c) + g.spc && a < |d| ==> d'[a] == d[a]
    ensures SectorsFrom(g, d', c, s) == SectorsFrom(g, d, c, s)
    decreases g.spc - s
  {
    if s < g.spc {
      LbaInDisk(g, d, c, s);
      SectorsFrame(g, d, d', c, s + 1);
    }
  }

  lemma FatFrame(g: Geometry, d: Disk, d': Disk)
    requires Formatted(g, d) && Formatted(g, d') && SectorsKept(d, d', g.dataLba, |d|)
    ensures Fat(g, d') == Fat(g, d)
  {
    TableInDisk(g, d);
    TableInDisk(g, d');
    forall c | 0 <= c < Clusters(g)
      ensures Entry(g, d', c) == Entry(g, d, c)
    {
      TableSectorIn(g, c);
    }
  }

  /** Writing sector s of cluster c. */
  lemma SectorWritten(g: Geometry, d: Disk, c: nat, s: nat, buf: seq<byte>)
    requires Formatted(g, d) && 2 <= c < Clusters(g) && s < g.spc && |buf| == SECTOR
    ensures Lba(g, c) + s < |d| && OnlyCluster(g, d, d[Lba(g, c) + s := buf], c)
    ensures ClusterBytes(g, d[Lba(g, c) + s := buf], c) == Put(ClusterBytes(g, d, c), s * SECTOR, buf)
  {
    hide SectorsFrom, Fat, Formatted, Lba, Put;
    SectorFits(g, d, c, s, buf);
    var d' := d[Lba(g, c) + s := buf];
    FatFrame(g, d, d');
    forall x | 2 <= x < Clusters(g) && x != c
      ensures ClusterBytes(g, d', x) == ClusterBytes(g, d, x)
    {
      OtherCluster(g, d, d', c, s, x);
    }
    SectorPut(g, d, c, s, buf, 0);
  }

  lemma SectorFits(g: Geometry, d: Disk, c: nat, s: nat, buf: seq<byte>)
    requires Formatted(g, d) && 2 <= c < Clusters(g) && s < g.spc && |buf| == SECTOR
    ensures g.dataLba <= Lba(g, c) + s < |d| && Formatted(g, d[Lba(g, c) + s := buf])
  {
    LbaInDisk(g, d, c, s);
    Multiply(0, c - 2, g.spc);
    assert Sized(d[Lba(g, c) + s := buf]);
  }

  lemma OtherCluster(g: Geometry, d: Disk, d': Disk, c: nat, s: nat, x: nat)
    requires Formatted(g, d) && Formatted(g, d') && 2 <= c < Clusters(g) && s < g.spc && 2 <= x < Clusters(g) && x != c
    requires |d'| == |d| && forall a :: 0 <= a < |d| && a != Lba(g, c) + s ==> d'[a] == d[a]
    ensures ClusterBytes(g, d', x) == ClusterBytes(g, d, x)
  {
    hide SectorsFrom, Formatted;
    if Lba(g, x) <= Lba(g, c) + s < Lba(g, x) + g.spc {
      LbaApart(g, x, Lba(g, c) + s - Lba(g, x), c, s);
    }
    SectorsFrame(g, d, d', x, 0);
  }

  lemma {:induction false} SectorPut(g: Geometry, d: Disk, c: nat, s: nat, buf: seq<byte>, t: nat)
    requires Formatted(g, d) && 2 <= c < Clusters(g) && t <= s < g.spc && |buf| == SECTOR
    requires Lba(g, c) + s < |d| && Formatted(g, d[Lba(g, c) + s := buf])
    ensures (s - t + 1) * SECTOR <= (g.spc - t) * SECTOR
    ensures SectorsFrom(g, d[Lba(g, c) + s := buf], c, t) == Put(SectorsFrom(g, d, c, t), (s - t) * SECTOR, buf)
    decreases s - t
  {
    hide SectorsFrom, Formatted, Put, Clusters, Lba;
    var d' := d[Lba(g, c) + s := buf];
    SectorsNext(g, d, c, t);
    SectorsNext(g, d', c, t);
    if t == s {
      SectorsFrame(g, d, d', c, s + 1);
      PutFront(d[Lba(g, c) + t], SectorsFrom(g, d, c, t + 1), buf);
    } else {
      SectorPut(g, d, c, s, buf, t + 1);
      PutBehind(d[Lba(g, c) + t], SectorsFrom(g, d, c, t + 1), (s - t - 1) * SECTOR, buf);
    }
  }

  lemma SectorsNext(g: Geometry, d: Disk, c: nat, t: nat)
    requires Formatted(g, d) && 2 <= c < Clusters(g) && t < g.spc
    ensures Lba(g, c) + t < |d| && |d[Lba(g, c) + t]| == SECTOR
    ensures SectorsFrom(g, d, c, t) == d[Lba(g, c) + t] + SectorsFrom(g, d, c, t + 1)
  {
    LbaInDisk(g, d, c, t);
  }

  lemma PutFront(x: seq<byte>, w: seq<byte>, b: seq<byte>)
    requires |b| == |x|
    ensures Put(x + w, 0, b) == b + w
  {
  }

  lemma PutBehind(x: seq<byte>, w: seq<byte>, p: nat, b: seq<byte>)
    requires p + |b| <= |w|
    ensures Put(x + w, |x| + p, b) == x + Put(w, p, b)
  {
  }

  lemma PutBefore(x: seq<byte>, w: seq<byte>, p: nat, b: seq<byte>)
    requires p + |b| <= |x|
    ensures Put(x + w, p, b) == Put(x, p, b) + w
  {
  }

  /** Sector s is its part of the cluster's bytes. */
  lemma {:induction false} SectorSlice(g: Geometry, d: Disk, c: nat, s: nat, t: nat)
    requires Formatted(g, d) && 2 <= c < Clusters(g) && t <= s < g.spc
    ensures Lba(g, c) + s < |d| && (s - t + 1) * SECTOR <= (g.spc - t) * SECTOR
    ensures SectorsFrom(g, d, c, t)[(s - t) * SECTOR..(s - t + 1) * SECTOR] == d[Lba(g, c) + s]
    decreases s - t
  {
    LbaInDisk(g, d, c, t);
    if t < s {
      SectorSlice(g, d, c, s, t + 1);
      assert SectorsFrom(g, d, c, t)[(s - t) * SECTOR..(s - t + 1) * SECTOR]
          == SectorsFrom(g, d, c, t + 1)[(s - t - 1) * SECTOR..(s - t) * SECTOR];
    }
  }

  lemma SectorIs(g: Geometry, d: Disk, c: nat, s: nat)
    requires Formatted(g, d) && 2 <= c < Clusters(g) && s < g.spc
    ensures Lba(g, c) + s < |d| && |d[Lba(g, c) + s]| == SECTOR && (s + 1) * SECTOR <= ClusterSize(g)
    ensures ClusterBytes(g, d, c)[s * SECTOR..(s + 1) * SECTOR] == d[Lba(g, c) + s]
  {
    SectorSlice(g, d, c, s, 0);
    LbaInDisk(g, d, c, s);
  }

  lemma OnlyClusterBoth(g: Geometry, d: Disk, d1: Disk, d2: Disk, c: nat)
    requires Formatted(g, d) && 2 <= c < Clusters(g) && OnlyCluster(g, d, d1, c) && OnlyCluster(g, d1, d2, c)
    ensures OnlyCluster(g, d, d2, c)
  {
  }

  /** Changing part of a sector changes that part of the cluster. */
  lemma PartWritten(g: Geometry, d: Disk, c: nat, s: nat, at: nat, b: seq<byte>, buf: seq<byte>)
    requires Formatted(g, d) && 2 <= c < Clusters(g) && s < g.spc && at + |b| <= SECTOR && |buf| == SECTOR
    requires Lba(g, c) + s < |d| && |d[Lba(g, c) + s]| == SECTOR && buf == Put(d[Lba(g, c) + s], at, b)
    ensures OnlyCluster(g, d, d[Lba(g, c) + s := buf], c) && s * SECTOR + at + |b| <= ClusterSize(g)
    ensures ClusterBytes(g, d[Lba(g, c) + s := buf], c) == Put(ClusterBytes(g, d, c), s * SECTOR + at, b)
  {
    SectorIs(g, d, c, s);
    SectorWritten(g, d, c, s, buf);
    hide ClusterBytes, Formatted;
    var w := ClusterBytes(g, d, c);
    forall i | 0 <= i < |w|
      ensures Put(w, s * SECTOR, buf)[i] == Put(w, s * SECTOR + at, b)[i]
    {
      if s * SECTOR <= i < (s + 1) * SECTOR {
        assert w[i] == w[s * SECTOR..(s + 1) * SECTOR][i - s * SECTOR];
      }
    }
  }

  lemma PutMore(w: seq<byte>, p: nat, a: seq<byte>, b: seq<byte>)
    requires p + |a| + |b| <= |w|
    ensures Put(Put(w, p, a), p + |a|, b) == Put(w, p, a + b)
  {
  }

  /** data[..n] has been written to cluster c from byte off on. */
  ghost predicate Written(g: Geometry, d0: Disk, d: Disk, c: nat, off: nat, data: seq<byte>, n: nat)
  {
    && Formatted(g, d0) && 2 <= c < Clusters(g) && n <= |data| && off + n <= ClusterSize(g)
    && OnlyCluster(g, d0, d, c) && ClusterBytes(g, d, c) == Put(ClusterBytes(g, d0, c), off, data[..n])
  }

  lemma WriteNothing(g: Geometry, d: Disk, c: nat, off: nat, data: seq<byte>)
    requires Formatted(g, d) && 2 <= c < Clusters(g) && off <= ClusterSize(g)
    ensures Written(g, d, d, c, off, data, 0)
  {
    hide ClusterBytes, Formatted;
    assert ClusterBytes(g, d, c) == Put(ClusterBytes(g, d, c), off, data[..0]);
  }

  lemma WriteMore(g: Geometry, d0: Disk, d: Disk, c: nat, off: nat, data: seq<byte>, n: nat, s: nat, at: nat, k: nat)
    requires Written(g, d0, d, c, off, data, n) && s < g.spc && at + k <= SECTOR && n + k <= |data| && off + n == s * SECTOR + at
    ensures Lba(g, c) + s < |d| && |d[Lba(g, c) + s]| == SECTOR
    ensures Written(g, d0, d[Lba(g, c) + s := Put(d[Lba(g, c) + s], at, data[n..n + k])], c, off, data, n + k)
  {
    SectorIs(g, d, c, s);
    hide ClusterBytes, Formatted;
    var b := data[n..n + k];
    PartWritten(g, d, c, s, at, b, Put(d[Lba(g, c) + s], at, b));
    assert data[..n] + b == data[..n + k];
    PutMore(ClusterBytes(g, d0, c), off, data[..n], b);
    OnlyClusterBoth(g, d0, d, d[Lba(g, c) + s := Put(d[Lba(g, c) + s], at, b)], c);
  }

  /** Table writes leave cluster bytes alone. */
  lemma TableWriteData(g: Geometry, d: Disk, d': Disk, c: nat)
    requires Formatted(g, d) && Formatted(g, d') && SectorsKept(d, d', g.fatLba, g.dataLba) && 2 <= c < Clusters(g)
    ensures ClusterBytes(g, d', c) == ClusterBytes(g, d, c)
  {
    Multiply(0, c - 2, g.spc);
    hide Formatted, SectorsFrom;
    SectorsFrame(g, d, d', c, 0);
  }

  // ----- Chains

  ghost predicate OnVolume(g: Geometry, ch: seq<nat>)
  {
    forall i :: 0 <= i < |ch| ==> 2 <= ch[i] < Clusters(g)
  }

  /** Where cluster q of a chain starts among the chain's bytes. */
  function Start(g: Geometry, q: nat): nat
  {
    q * ClusterSize(g)
  }

  lemma StartNext(g: Geometry, q: nat)
    ensures Start(g, q + 1) == Start(g, q) + ClusterSize(g) && Start(g, 0) == 0
  {
    Multiply(q, q, ClusterSize(g));
  }

  lemma StartMono(g: Geometry, a: nat, b: nat)
    requires a <= b
    ensures Start(g, a) <= Start(g, b)
  {
    Multiply(a, b, ClusterSize(g));
  }

  /** All bytes of a chain, cluster after cluster. */
  ghost function Whole(g: Geometry, d: Disk, ch: seq<nat>): (r: seq<byte>)
    requires Formatted(g, d) && OnVolume(g, ch)
    ensures |r| == Start(g, |ch|)
  {
    StartNext(g, 0);
    if ch == [] then [] else
    var n := |ch| - 1;
    StartNext(g, n);
    Whole(g, d, ch[..n]) + ClusterBytes(g, d, ch[n])
  }

  lemma {:induction false} WholeFrame(g: Geometry, d: Disk, d': Disk, ch: seq<nat>)
    requires Formatted(g, d) && Formatted(g, d') && OnVolume(g, ch)
    requires forall i :: 0 <= i < |ch| ==> ClusterBytes(g, d', ch[i]) == ClusterBytes(g, d, ch[i])
    ensures Whole(g, d', ch) == Whole(g, d, ch)
  {
    hide ClusterBytes, Formatted, Start;
    if ch != [] {
      WholeFrame(g, d, d', ch[..|ch| - 1]);
    }
  }

  /** The part of a chain's bytes that cluster q holds. */
  lemma {:induction false} WholeSlice(g: Geometry, d: Disk, ch: seq<nat>, q: nat)
    requires Formatted(g, d) && OnVolume(g, ch) && q < |ch|
    ensures Start(g, q) + ClusterSize(g) == Start(g, q + 1) <= Start(g, |ch|)
    ensures Whole(g, d, ch)[Start(g, q)..Start(g, q + 1)] == ClusterBytes(g, d, ch[q])
  {
    hide ClusterBytes, Formatted, Start, ClusterSize;
    var n := |ch| - 1;
    StartNext(g, q);
    StartNext(g, n);
    StartMono(g, q + 1, |ch|);
    if q < n {
      StartMono(g, q + 1, n);
      WholeSlice(g, d, ch[..n], q);
      assert Whole(g, d, ch)[Start(g, q)..Start(g, q + 1)] == Whole(g, d, ch[..n])[Start(g, q)..Start(g, q + 1)];
    }
  }

  lemma ShorterChain(g: Geometry, ch: seq<nat>)
    requires OnVolume(g, ch) && Distinct(ch) && ch != []
    ensures OnVolume(g, ch[..|ch| - 1]) && Distinct(ch[..|ch| - 1])
    ensures forall i :: 0 <= i < |ch| - 1 ==> ch[i] != ch[|ch| - 1]
  {
  }

  /** Writing bytes of cluster q writes those bytes of the chain. */
  lemma {:induction false} WholePut(g: Geometry, d: Disk, d': Disk, ch: seq<nat>, q: nat, off: nat, b: seq<byte>)
    requires Formatted(g, d) && OnVolume(g, ch) && Distinct(ch) && q < |ch| && off + |b| <= ClusterSize(g)
    requires OnlyCluster(g, d, d', ch[q]) && ClusterBytes(g, d', ch[q]) == Put(ClusterBytes(g, d, ch[q]), off, b)
    ensures Start(g, q) + off + |b| <= |Whole(g, d, ch)|
    ensures Whole(g, d', ch) == Put(Whole(g, d, ch), Start(g, q) + off, b)
  {
    hide ClusterBytes, Fat, Formatted, ClusterSize, Start, Distinct;
    var n := |ch| - 1;
    ShorterChain(g, ch);
    StartNext(g, q);
    StartNext(g, n);
    StartMono(g, q + 1, |ch|);
    var w, last := Whole(g, d, ch[..n]), ClusterBytes(g, d, ch[n]);
    if q < n {
      StartMono(g, q + 1, n);
      WholePut(g, d, d', ch[..n], q, off, b);
      PutBefore(w, last, Start(g, q) + off, b);
    } else {
      WholeFrame(g, d, d', ch[..n]);
      PutBehind(w, last, off, b);
    }
  }

  /** Only bytes of clusters on ch may differ. */
  ghost predicate OnlyChain(g: Geometry, d: Disk, d': Disk, ch: seq<nat>)
    requires Formatted(g, d)
  {
    && Formatted(g, d') && Fat(g, d') == Fat(g, d)
    && forall x :: 2 <= x < Clusters(g) && x !in ch ==> ClusterBytes(g, d', x) == ClusterBytes(g, d, x)
  }

  lemma OnlyChainBoth(g: Geometry, d: Disk, d1: Disk, d2: Disk, ch: seq<nat>)
    requires Formatted(g, d) && OnlyChain(g, d, d1, ch) && OnlyChain(g, d1, d2, ch)
    ensures OnlyChain(g, d, d2, ch)
  {
  }

  lemma OnlyChainFrame(g: Geometry, d: Disk, d': Disk, ch: seq<nat>, b: seq<nat>)
    requires Formatted(g, d) && OnlyChain(g, d, d', ch) && OnVolume(g, b) && Apart(b, ch)
    ensures Whole(g, d', b) == Whole(g, d, b)
  {
    WholeFrame(g, d, d', b);
  }

  /** Writing b into cluster q of a chain, by way of a sector. */
  lemma ChainPut(g: Geometry, d: Disk, ch: seq<nat>, q: nat, s: nat, at: nat, b: seq<byte>)
    requires Formatted(g, d) && OnVolume(g, ch) && Distinct(ch) && q < |ch| && s < g.spc && at + |b| <= SECTOR
    ensures Lba(g, ch[q]) + s < |d| && |d[Lba(g, ch[q]) + s]| == SECTOR
    ensures var d' := d[Lba(g, ch[q]) + s := Put(d[Lba(g, ch[q]) + s], at, b)];
            && OnlyChain(g, d, d', ch) && Start(g, q) + s * SECTOR + at + |b| <= |Whole(g, d, ch)|
            && Whole(g, d', ch) == Put(Whole(g, d, ch), Start(g, q) + s * SECTOR + at, b)
  {
    hide ClusterBytes, Formatted, Start, ClusterSize, Fat, Distinct, Lba, Whole;
    SectorIs(g, d, ch[q], s);
    var d' := d[Lba(g, ch[q]) + s := Put(d[Lba(g, ch[q]) + s], at, b)];
    PartWritten(g, d, ch[q], s, at, b, Put(d[Lba(g, ch[q]) + s], at, b));
    WholePut(g, d, d', ch, q, s * SECTOR + at, b);
  }

  /** Sector s of cluster q is its part of the chain's bytes. */
  lemma ChainSector(g: Geometry, d: Disk, ch: seq<nat>, q: nat, s: nat)
    requires Formatted(g, d) && OnVolume(g, ch) && q < |ch| && s < g.spc
    ensures Lba(g, ch[q]) + s < |d| && |d[Lba(g, ch[q]) + s]| == SECTOR
    ensures Start(g, q) + s * SECTOR + SECTOR <= |Whole(g, d, ch)|
    ensures Whole(g, d, ch)[Start(g, q) + s * SECTOR..Start(g, q) + s * SECTOR + SECTOR] == d[Lba(g, ch[q]) + s]
  {
    hide ClusterBytes, Formatted, Start, Fat, Lba, Whole;
    SectorIs(g, d, ch[q], s);
    WholeSlice(g, d, ch, q);
    SliceOfSlice(Whole(g, d, ch), Start(g, q), ClusterSize(g), s * SECTOR, SECTOR);
  }

  /** A chain that is still whole and still holds the same bytes. */
  ghost predicate Kept(g: Geometry, d: Disk, d': Disk, b: seq<nat>)
    requires Formatted(g, d) && OnVolume(g, b)
  {
    Formatted(g, d') && Chain(Fat(g, d'), b) && Whole(g, d', b) == Whole(g, d, b)
  }

  /** A free cluster c zeroed and linked behind cluster last. */
  ghost predicate LinkedTo(g: Geometry, d: Disk, d': Disk, last: nat, c: nat)
    requires Formatted(g, d)
  {
    && 2 <= c < Clusters(g) && last < Clusters(g)
    && Formatted(g, d') && Fat(g, d') == Fat(g, d)[c := LAST][last := c]
    && AllZero(ClusterBytes(g, d', c))
    && forall x :: 2 <= x < Clusters(g) && x != c ==> ClusterBytes(g, d', x) == ClusterBytes(g, d, x)
  }

  ghost predicate AllZero(b: seq<byte>)
  {
    forall i :: 0 <= i < |b| ==> b[i] == 0
  }

  lemma ChainOnVolume(g: Geometry, d: Disk, ch: seq<nat>)
    requires Formatted(g, d) && Chain(Fat(g, d), ch)
    ensures OnVolume(g, ch) && Distinct(ch) && Clusters(g) <= EOC && |Fat(g, d)| == Clusters(g)
  {
    ChainDistinct(Fat(g, d), ch);
  }

  lemma {:induction false} WholePrefix(g: Geometry, d: Disk, ch: seq<nat>, n: nat)
    requires Formatted(g, d) && OnVolume(g, ch) && n <= |ch|
    ensures OnVolume(g, ch[..n]) && Start(g, n) <= Start(g, |ch|) && Whole(g, d, ch[..n]) == Whole(g, d, ch)[..Start(g, n)]
  {
    hide ClusterBytes, Formatted, Start;
    StartMono(g, n, |ch|);
    if n == |ch| {
      assert ch[..n] == ch;
    } else {
      var k := |ch| - 1;
      StartMono(g, n, k);
      WholePrefix(g, d, ch[..k], n);
      assert ch[..k][..n] == ch[..n];
    }
  }

  /** The chain that was linked to: its first n clusters and the new one. */
  lemma LinkedChain(g: Geometry, d: Disk, d': Disk, ch: seq<nat>, n: nat, c: nat)
    requires Formatted(g, d) && Chain(Fat(g, d), ch) && 0 < n <= |ch| && ch[n - 1] < Clusters(g)
    requires LinkedTo(g, d, d', ch[n - 1], c) && Fat(g, d)[c] == 0
    ensures OnVolume(g, ch) && Start(g, n) <= Start(g, |ch|) && c !in ch
    ensures Chain(Fat(g, d'), ch[..n] + [c]) && OnVolume(g, ch[..n] + [c])
    ensures exists z :: AllZero(z) && |z| == ClusterSize(g) && Whole(g, d', ch[..n] + [c]) == Whole(g, d, ch)[..Start(g, n)] + z
  {
    hide ClusterBytes, Formatted, Start, Fat, Chain, ClusterSize;
    ChainOnVolume(g, d, ch);
    LinkedOk(Fat(g, d), ch, n, c);
    WholePrefix(g, d, ch, n);
    var r := ch[..n] + [c];
    assert r[..n] == ch[..n] && |r| - 1 == n;
    ChainOnVolume(g, d', r);
    WholeFrame(g, d, d', ch[..n]);
    assert Whole(g, d', r) == Whole(g, d, ch)[..Start(g, n)] + ClusterBytes(g, d', c);
  }

  /** Every chain that shares nothing with what was linked is kept. */
  lemma LinkedKeeps(g: Geometry, d: Disk, d': Disk, last: nat, c: nat, b: seq<nat>)
    requires Formatted(g, d) && LinkedTo(g, d, d', last, c) && Fat(g, d)[c] == 0 && Chain(Fat(g, d), b) && last !in b
    ensures OnVolume(g, b) && Kept(g, d, d', b)
  {
    hide ClusterBytes, Formatted, Fat, Chain, Distinct;
    ChainOnVolume(g, d, b);
    FreeIsNowhere(Fat(g, d), b, c);
    ChainFrame(Fat(g, d), Fat(g, d'), b);
    WholeFrame(g, d, d', b);
  }

  /** All chains of the old table that share no cluster with ch are kept. */
  ghost predicate OthersKept(g: Geometry, d: Disk, d': Disk, ch: seq<nat>)
    requires Formatted(g, d)
  {
    forall b :: Chain(Fat(g, d), b) && Apart(b, ch) ==> OnVolume(g, b) && Kept(g, d, d', b)
  }

  lemma OthersUnderLink(g: Geometry, d: Disk, d': Disk, ch: seq<nat>, last: nat, c: nat)
    requires Formatted(g, d) && LinkedTo(g, d, d', last, c) && Fat(g, d)[c] == 0 && last in ch
    ensures OthersKept(g, d, d', ch)
  {
    hide Formatted, Fat, Chain, LinkedTo, Kept;
    forall b | Chain(Fat(g, d), b) && Apart(b, ch)
      ensures OnVolume(g, b) && Kept(g, d, d', b)
    {
      LinkedKeeps(g, d, d', last, c, b);
    }
  }

  lemma OthersUnderWrite(g: Geometry, d: Disk, d': Disk, ch: seq<nat>)
    requires Formatted(g, d) && OnlyChain(g, d, d', ch)
    ensures OthersKept(g, d, d', ch)
  {
    hide Fat, ClusterBytes, Formatted, Chain;
    forall b | Chain(Fat(g, d), b) && Apart(b, ch)
      ensures OnVolume(g, b) && Kept(g, d, d', b)
    {
      ChainOnVolume(g, d, b);
      OnlyChainFrame(g, d, d', ch, b);
    }
  }

  /** Two steps, the second of which may also touch one cluster that was free. */
  lemma OthersBoth(g: Geometry, d: Disk, d1: Disk, d2: Disk, ch: seq<nat>, ch1: seq<nat>)
    requires Formatted(g, d) && Formatted(g, d1) && OthersKept(g, d, d1, ch) && OthersKept(g, d1, d2, ch1)
    requires forall x :: x in ch1 ==> x in ch || (2 <= x < Clusters(g) && Fat(g, d)[x] == 0)
    ensures OthersKept(g, d, d2, ch)
  {
    hide Formatted, Fat, Chain, Whole;
    forall b | Chain(Fat(g, d), b) && Apart(b, ch)
      ensures OnVolume(g, b) && Kept(g, d, d2, b)
    {
      assert Kept(g, d, d1, b);
      forall x | x in b
        ensures x !in ch1
      {
        if x in ch1 {
          FreeIsNowhere(Fat(g, d), b, x);
        }
      }
      assert Kept(g, d1, d2, b);
    }
  }

  // ----- Files

  /** A file's chain holds its length; what lies behind it in the last clusters
      may be anything. */
  ghost predicate FileOk(g: Geometry, d: Disk, inode: nat, length: nat, ch: seq<nat>)
  {
    && Formatted(g, d) && Chain(Fat(g, d), ch)
    && (if ch == [] then inode == 0 else inode == ch[0])
    && length <= Start(g, |ch|) && length < WORD
  }

  ghost function Contents(g: Geometry, d: Disk, inode: nat, length: nat, ch: seq<nat>): seq<byte>
    requires FileOk(g, d, inode, length, ch)
  {
    Whole(g, d, ch)[..length]
  }

  lemma FileFacts(g: Geometry, d: Disk, inode: nat, length: nat, ch: seq<nat>)
    requires FileOk(g, d, inode, length, ch)
    ensures Formatted(g, d) && Chain(Fat(g, d), ch) && OnVolume(g, ch) && Clusters(g) <= EOC && Distinct(ch)
    ensures SECTOR <= ClusterSize(g) < WORD && length <= Start(g, |ch|) && length < WORD && |Fat(g, d)| == Clusters(g)
    ensures if ch == [] then inode == 0 else inode == ch[0]
  {
    ChainDistinct(Fat(g, d), ch);
  }

  /** Position p of a chain lies in cluster p / size, at p % size. */
  lemma Locate(g: Geometry, p: nat, n: nat)
    requires 0 < ClusterSize(g) && p < Start(g, n)
    ensures p / ClusterSize(g) < n && p == Start(g, p / ClusterSize(g)) + p % ClusterSize(g)
  {
    var cs := ClusterSize(g);
    var q := p / cs;
    assert p == q * cs + p % cs;
    if n <= q {
      StartMono(g, n, q);
    }
  }

  /** Following a link of a chain. */
  lemma ChainStep(fat: seq<nat>, ch: seq<nat>, q: nat)
    requires Chain(fat, ch) && q < |ch|
    ensures 2 <= ch[q] < |fat| && if q + 1 < |ch| then fat[ch[q]] == ch[q + 1] && 2 <= ch[q + 1] < |fat| else fat[ch[q]] >= EOC
  {
  }

  /** The bytes read from cluster q continue the bytes read before. */
  lemma ReadMore(g: Geometry, d: Disk, ch: seq<nat>, q: nat, off: nat, p: nat, buf: seq<byte>, part: seq<byte>)
    requires Formatted(g, d) && OnVolume(g, ch) && q < |ch| && off + |part| <= ClusterSize(g)
    requires part == ClusterBytes(g, d, ch[q])[off..off + |part|]
    requires p + |buf| == Start(g, q) + off && p + |buf| <= Start(g, |ch|) && buf == Whole(g, d, ch)[p..p + |buf|]
    ensures p + |buf| + |part| <= Start(g, |ch|) && buf + part == Whole(g, d, ch)[p..p + |buf| + |part|]
  {
    hide ClusterBytes, Whole, Formatted, Start, ClusterSize;
    WholeSlice(g, d, ch, q);
    SliceJoin(Whole(g, d, ch), Start(g, q), ClusterSize(g), off, p, buf, part);
  }

  lemma SliceJoin(w: seq<byte>, a: nat, n: nat, off: nat, p: nat, buf: seq<byte>, part: seq<byte>)
    requires a + n <= |w| && off + |part| <= n && part == w[a..a + n][off..off + |part|]
    requires p + |buf| == a + off && buf == w[p..p + |buf|]
    ensures buf + part == w[p..p + |buf| + |part|]
  {
    SliceOfSlice(w, a, n, off, |part|);
  }
}
