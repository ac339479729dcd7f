/** The FAT32 driver of kernel/fs/fat32: table entries, cluster chains, file
    bytes and directory slots, all on one disk of 512-byte sectors. Block reads
    and writes succeed. */
module Fat32 {
  import opened Bytes
  import opened FatVolume
  import opened FatChains
  import opened FatData
  import Dir = FatDirectory
  import opened FatNames
  import opened FatGrowth

  /** fs_node_t of a file: first cluster (0 for none) and length. */
  class Node {
    var inode: nat
    var length: nat
    const parent: nat
    const name: seq<byte>

    constructor (inode0: nat, length0: nat, parent0: nat, name0: seq<byte>)
      ensures inode == inode0 && length == length0 && parent == parent0 && name == name0
    {
      inode := inode0;
      length := length0;
      parent := parent0;
      name := name0;
    }
  }

  class Fat32 {
    const g: Geometry
    var disk: Disk

    ghost predicate Valid()
      reads this
    {
      Formatted(g, disk)
    }

    ghost function Table(): seq<nat>
      reads this
      requires Valid()
    {
      Fat(g, disk)
    }

    constructor (g0: Geometry, disk0: Disk)
      requires Formatted(g0, disk0)
      ensures Valid() && g == g0 && disk == disk0
    {
      g := g0;
      disk := disk0;
    }

    /** fat32_get_next_cluster. */
    method NextCluster(c: nat) returns (r: nat)
      requires Valid() && c < Clusters(g)
      ensures r == Table()[c]
    {
      TableInDisk(g, disk);
      TableSectorIn(g, c);
      var buf := disk[g.fatLba + TableSector(c)];
      r := Get32(buf, TableOffset(c)) % NIBBLE;
    }

    /** fat32_set_cluster. */
    method SetCluster(c: nat, v: nat)
      requires Valid() && c < Clusters(g)
      modifies this`disk
      ensures Valid() && Table() == old(Table())[c := v % NIBBLE] && SectorsKept(old(disk), disk, g.fatLba, g.dataLba)
      ensures HasTable(g, disk) && HasTable(g, old(disk)) && Raw(g, disk, c) / NIBBLE == Raw(g, old(disk), c) / NIBBLE
    {
      hide Fat, Formatted, Get32, Put32, TableOffset, TableSector, SectorsKept, Raw;
      TableInDisk(g, disk);
      TableSectorIn(g, c);
      SetEntryOk(g, disk, c, v);
      var at, off := g.fatLba + TableSector(c), TableOffset(c);
      var was := Get32(disk[at], off);
      disk := disk[at := Put32(disk[at], off, was - was % NIBBLE + v % NIBBLE)];
    }

    /** fat32_find_free_cluster: the lowest entry from 2 on that is free, 0 when
        there is none, whether or not the disk has its cluster. */
    method FirstFreeEntry() returns (r: nat)
      requires HasTable(g, disk)
      ensures r == 0 ==> forall c :: 2 <= c < Clusters(g) ==> Entry(g, disk, c) != 0
      ensures r != 0 ==> 2 <= r < Clusters(g) && Entry(g, disk, r) == 0 && forall c :: 2 <= c < r ==> Entry(g, disk, c) != 0
    {
      hide Get32;
      var s := 0;
      while s < g.fatSectors
        invariant 0 <= s <= g.fatSectors && forall c :: 2 <= c < s * 128 ==> Entry(g, disk, c) != 0
      {
        var buf := disk[g.fatLba + s];
        var i := 0;
        while i < 128
          invariant 0 <= i <= 128 && forall c :: 2 <= c < s * 128 + i ==> Entry(g, disk, c) != 0
        {
          var c := s * 128 + i;
          assert TableSector(c) == s && TableOffset(c) == i * 4;
          assert Entry(g, disk, c) == Get32(buf, i * 4) % NIBBLE;
          if c >= 2 && Get32(buf, i * 4) % NIBBLE == 0 {
            return c;
          }
          i := i + 1;
        }
        s := s + 1;
      }
      r := 0;
    }

    /** The same on a volume whose disk has a cluster for every entry. */
    method FindFreeCluster() returns (r: nat)
      requires Valid()
      ensures r == 0 ==> NothingFree(Table())
      ensures r != 0 ==> 2 <= r < Clusters(g) && Table()[r] == 0 && forall c :: 2 <= c < r ==> Table()[c] != 0
    {
      TableInDisk(g, disk);
      r := FirstFreeEntry();
    }

    /** The freeing loop of fat32_unlink. */
    method FreeChain(first: nat)
      requires Valid() && StaysIn(Table(), first)
      modifies this`disk
      ensures Valid() && Table() == Freed(old(Table()), first) && SectorsKept(old(disk), disk, g.fatLba, g.dataLba)
    {
      ClustersBelow(g, disk);
      hide Formatted, Fat;
      var fc: nat := first;
      while fc != 0 && fc < EOC
        invariant Valid() && StaysIn(Table(), fc)
        invariant Freed(Table(), fc) == Freed(old(Table()), first) && SectorsKept(old(disk), disk, g.fatLba, g.dataLba)
        decreases Used(Table()), fc
      {
        UsedShrinks(Table(), fc);
        var next := NextCluster(fc);
        SetCluster(fc, 0);
        fc := next;
      }
    }

    /** The sector loop of fat32_vfs_read within one cluster. */
    method ReadCluster(c: nat, off: nat, want: nat) returns (buf: seq<byte>)
      requires Valid() && 2 <= c < Clusters(g) && off < ClusterSize(g)
      ensures |buf| == Min(want, ClusterSize(g) - off)
      ensures buf == ClusterBytes(g, disk, c)[off..off + |buf|]
    {
      hide Formatted, ClusterBytes;
      buf := [];
      var s: nat, at: nat := off / SECTOR, off % SECTOR;
      while s < g.spc && |buf| < want
        invariant s <= g.spc && at < SECTOR && |buf| <= want && off + |buf| <= ClusterSize(g)
        invariant |buf| < want ==> off + |buf| == s * SECTOR + at && (s < g.spc || at == 0)
        invariant buf == ClusterBytes(g, disk, c)[off..off + |buf|]
      {
        SectorIs(g, disk, c, s);
        var sector := disk[Lba(g, c) + s];
        var n := SECTOR - at;
        if n > want - |buf| {
          n := want - |buf|;
        }
        SliceMore(ClusterBytes(g, disk, c), off, buf, s * SECTOR, sector, at, n);
        buf := buf + sector[at..at + n];
        at := 0;
        s := s + 1;
      }
    }

    /** The sector loop of fat32_vfs_write within one cluster. */
    method WriteCluster(c: nat, off: nat, data: seq<byte>) returns (n: nat)
      requires Valid() && 2 <= c < Clusters(g) && off < ClusterSize(g)
      modifies this`disk
      ensures n == Min(|data|, ClusterSize(g) - off) && Written(g, old(disk), disk, c, off, data, n)
    {
      hide Written, Formatted;
      ghost var d0 := disk;
      WriteNothing(g, disk, c, off, data);
      n := 0;
      var s: nat, at: nat := off / SECTOR, off % SECTOR;
      while s < g.spc && n < |data|
        invariant s <= g.spc && at < SECTOR && n <= |data| && off + n <= ClusterSize(g)
        invariant n < |data| ==> off + n == s * SECTOR + at && (s < g.spc || at == 0)
        invariant Written(g, d0, disk, c, off, data, n)
      {
        var k := SECTOR - at;
        if k > |data| - n {
          k := |data| - n;
        }
        WriteMore(g, d0, disk, c, off, data, n, s, at, k);
        var sector: seq<byte> := Zeros(SECTOR);
        if at != 0 || |data| - n < SECTOR {
          sector := disk[Lba(g, c) + s];
        }
        assert Put(sector, at, data[n..n + k]) == Put(disk[Lba(g, c) + s], at, data[n..n + k]);
        disk := disk[Lba(g, c) + s := Put(sector, at, data[n..n + k])];
        n := n + k;
        at := 0;
        s := s + 1;
      }
    }

    /** Zero-filling a new cluster. */
    method ZeroCluster(c: nat)
      requires Valid() && 2 <= c < Clusters(g)
      modifies this`disk
      ensures OnlyCluster(g, old(disk), disk, c) && ClusterBytes(g, disk, c) == Zeros(ClusterSize(g))
    {
      hide Formatted, ClusterBytes, Fat;
      ghost var d0 := disk;
      var zero := Zeros(SECTOR);
      var s := 0;
      while s < g.spc
        invariant s <= g.spc && OnlyCluster(g, d0, disk, c)
        invariant ClusterBytes(g, disk, c)[..s * SECTOR] == Zeros(s * SECTOR)
      {
        SectorIs(g, disk, c, s);
        SectorWritten(g, disk, c, s, zero);
        OnlyClusterBoth(g, d0, disk, disk[Lba(g, c) + s := zero], c);
        disk := disk[Lba(g, c) + s := zero];
        s := s + 1;
      }
    }

    /** Following n links from the first cluster of a chain, if it has them. */
    method Skip(first: nat, n: nat, ghost ch: seq<nat>) returns (c: nat, ok: bool)
      requires Valid() && Chain(Table(), ch) && ch != [] && first == ch[0] && Clusters(g) <= EOC
      ensures ok <==> n < |ch|
      ensures ok ==> c == ch[n]
    {
      hide Formatted, Fat, Chain;
      c := first;
      var i := 0;
      ChainStep(Table(), ch, 0);
      while i < n
        invariant 0 <= i <= n && i < |ch| && c == ch[i] && c < Clusters(g)
      {
        ChainStep(Table(), ch, i);
        c := NextCluster(c);
        if c >= EOC || c < 2 {
          return c, false;
        }
        i := i + 1;
      }
      ok := true;
    }

    /** The cluster loop of fat32_vfs_read: size bytes from byte off of cluster
        q on, or as many as the chain has. */
    method ReadChain(first: nat, off0: nat, size: nat, ghost q0: nat, ghost ch: seq<nat>) returns (buf: seq<byte>)
      requires Valid() && Chain(Table(), ch) && OnVolume(g, ch) && Clusters(g) <= EOC && 0 < ClusterSize(g)
      requires q0 < |ch| && first == ch[q0] && off0 < ClusterSize(g)
      ensures Start(g, q0) + off0 <= |Whole(g, disk, ch)| && |buf| == Min(size, |Whole(g, disk, ch)| - Start(g, q0) - off0)
      ensures buf == Whole(g, disk, ch)[Start(g, q0) + off0..Start(g, q0) + off0 + |buf|]
    {
      hide Formatted, Fat, Chain, Whole, ClusterBytes, Start, ClusterSize;
      ghost var w, p, q := Whole(g, disk, ch), Start(g, q0) + off0, q0;
      var cluster: nat, off: nat := first, off0;
      StartNext(g, q);
      StartMono(g, q + 1, |ch|);
      buf := [];
      while |buf| < size && cluster < EOC
        invariant |buf| <= size && p + |buf| <= |w| && buf == w[p..p + |buf|] && off < ClusterSize(g)
        invariant q <= |ch| && if q < |ch| then cluster == ch[q] else cluster >= EOC
        invariant |buf| < size ==> p + |buf| == Start(g, q) + off && (q == |ch| ==> off == 0)
        decreases |ch| - q
      {
        var part := ReadCluster(cluster, off, size - |buf|);
        ReadMore(g, disk, ch, q, off, p, buf, part);
        ChainStep(Table(), ch, q);
        StartNext(g, q);
        buf := buf + part;
        off := 0;
        cluster := NextCluster(cluster);
        q := q + 1;
      }
    }

    /** fat32_vfs_read, with the sum of offset and size in 32 bits. */
    method ReadFile(node: Node, offset: nat, size0: nat, ghost ch: seq<nat>) returns (buf: seq<byte>)
      requires FileOk(g, disk, node.inode, node.length, ch)
      ensures offset >= node.length ==> buf == []
      ensures offset < node.length ==>
                var want := ReadSize(node.length, offset, size0);
                && offset <= |Whole(g, disk, ch)| && |buf| == Min(want, |Whole(g, disk, ch)| - offset)
                && buf == Whole(g, disk, ch)[offset..offset + |buf|]
    {
      hide FileOk, Formatted, Fat, Chain, Whole, ClusterBytes, Start, ClusterSize;
      FileFacts(g, disk, node.inode, node.length, ch);
      if offset >= node.length {
        return [];
      }
      var size := size0;
      if (offset + size0) % WORD > node.length {
        size := node.length - offset;
      }
      Locate(g, offset, |ch|);
      var skip := offset / ClusterSize(g);
      var cluster, ok := Skip(node.inode, skip, ch);
      buf := ReadChain(cluster, offset % ClusterSize(g), size, skip, ch);
    }

    // ----- Directories

    /** The sixteen slots of one sector: a hit, or the slot that ends the
        directory, or neither (16). */
    method ScanSector(buf: seq<byte>, target: seq<byte>, exact: bool) returns (i: nat, found: bool)
      requires |buf| == SECTOR && |target| == Dir.NAME
      ensures i <= 16 && Dir.Slots(buf) == 16 && (found ==> i < 16)
      ensures forall k :: 0 <= k < i ==> Dir.First(buf, k) != 0 && !Dir.Hit(buf, target, exact, k)
      ensures i < 16 ==> if found then Dir.First(buf, i) != 0 && Dir.Hit(buf, target, exact, i) else Dir.First(buf, i) == 0
    {
      hide Dir.Matches;
      i, found := 0, false;
      while i < 16
        invariant i <= 16 && forall k :: 0 <= k < i ==> Dir.First(buf, k) != 0 && !Dir.Hit(buf, target, exact, k)
      {
        if Dir.First(buf, i) == 0 {
          return;
        }
        if Dir.First(buf, i) != Dir.DELETED && Dir.Attr(buf, i) != Dir.LFN && Dir.Matches(Dir.NameAt(buf, i), target, exact) {
          return i, true;
        }
        i := i + 1;
      }
    }

    /** The search loop that find, update and unlink share: cluster, sector and
        slot of the first entry with this name. */
    method FindSlot(dir: nat, target: seq<byte>, exact: bool, ghost ch: seq<nat>)
      returns (found: bool, cluster: nat, s: nat, i: nat, ghost q: nat)
      requires Valid() && Chain(Table(), ch) && OnVolume(g, ch) && Clusters(g) <= EOC && ch != [] && |target| == Dir.NAME
      requires ch[0] == if dir == 0 then g.root else dir
      ensures found <==> Dir.Find(Whole(g, disk, ch), target, exact) >= 0
      ensures found ==> q < |ch| && cluster == ch[q] && s < g.spc && i < 16
      ensures found ==> Start(g, q) + s * SECTOR + i * Dir.SLOT == Dir.SLOT * Dir.Find(Whole(g, disk, ch), target, exact)
    {
      hide Formatted, Fat, Chain, Whole, ClusterBytes, Start, ClusterSize, Lba, Dir.Search, Dir.First, Dir.Hit;
      cluster := if dir == 0 then g.root else dir;
      q := 0;
      ghost var w := Whole(g, disk, ch);
      ghost var b := 0;
      StartNext(g, 0);
      while cluster < EOC
        invariant q <= |ch| && if q < |ch| then cluster == ch[q] else cluster >= EOC
        invariant Dir.SLOT * b == Start(g, q) && Dir.Find(w, target, exact) == Dir.Search(w, target, exact, b)
        decreases |ch| - q
      {
        s := 0;
        while s < g.spc
          invariant s <= g.spc && q < |ch| && cluster == ch[q]
          invariant Dir.SLOT * b == Start(g, q) + s * SECTOR && Dir.Find(w, target, exact) == Dir.Search(w, target, exact, b)
        {
          ChainSector(g, disk, ch, q, s);
          var buf := disk[Lba(g, cluster) + s];
          i, found := ScanSector(buf, target, exact);
          Dir.WindowSearch(w, b, buf, target, exact, i);
          if i < 16 {
            Dir.WindowSlot(w, b, buf, target, exact, i);
            SearchAt(w, target, exact, b + i);
            return;
          }
          b := b + 16;
          s := s + 1;
        }
        ChainStep(Table(), ch, q);
        SectorsEnd(g, q);
        cluster := NextCluster(cluster);
        q := q + 1;
      }
      SearchAt(w, target, exact, b);
      found, s, i := false, 0, 0;
    }

    /** fat32_update_dirent; NONE leaves a field alone. */
    method UpdateDirent(dir: nat, name: seq<byte>, size: nat, cluster: nat, ghost ch: seq<nat>) returns (ok: bool)
      requires Valid() && Chain(Table(), ch) && OnVolume(g, ch) && ch != [] && ch[0] == (if dir == 0 then g.root else dir)
      modifies this`disk
      ensures OnlyChain(g, old(disk), disk, ch)
      ensures ok <==> Dir.Find(Whole(g, old(disk), ch), Canon83(name), false) >= 0
      ensures Whole(g, disk, ch) == Relisted(Whole(g, old(disk), ch), name, size, cluster)
    {
      hide Formatted, Fat, Chain, Whole, Start, Lba, Dir.Find, Dir.UpdatedSlot, Canon83, OnlyChain, Put, Distinct;
      ChainOnVolume(g, disk, ch);
      var target := Canonicalize(name);
      OnlyChainSame(g, disk, ch);
      var c, s, i; ghost var q;
      ok, c, s, i, q := FindSlot(dir, target, false, ch);
      if ok {
        ChainSector(g, disk, ch, q, s);
        var buf := disk[Lba(g, c) + s];
        var slot := Dir.UpdatedSlot(buf[i * 32..i * 32 + 32], size, cluster);
        SlotInSector(Whole(g, disk, ch), Start(g, q) + s * SECTOR, buf, i, Dir.Find(Whole(g, disk, ch), target, false));
        ChainPut(g, disk, ch, q, s, i * 32, slot);
        disk := disk[Lba(g, c) + s := Put(buf, i * 32, slot)];
      }
    }

    /** Marking the free cluster c as an end, linking last to it, zeroing it. */
    method Link(last: nat, c: nat)
      requires Valid() && 2 <= c < Clusters(g) && last < Clusters(g)
      modifies this`disk
      ensures LinkedTo(g, old(disk), disk, last, c)
    {
      hide Formatted, Fat, ClusterBytes, SectorsKept, OnlyCluster, LinkedTo, Raw, HasTable, Clusters;
      ghost var d0 := disk;
      ClustersBelow(g, d0);
      SetCluster(c, LAST);
      ghost var d1 := disk;
      SetCluster(last, c);
      ghost var d2 := disk;
      ZeroCluster(c);
      LinkDone(g, d0, d1, d2, disk, last, c);
    }

    /** The first free or deleted slot of a directory; when all are in use, the
        last cluster of its chain. */
    method FindFreeSlot(dir: nat, ghost ch: seq<nat>) returns (found: bool, cluster: nat, s: nat, i: nat, ghost q: nat)
      requires Valid() && Chain(Table(), ch) && OnVolume(g, ch) && Clusters(g) <= EOC && ch != []
      requires ch[0] == if dir == 0 then g.root else dir
      ensures found <==> Dir.FreeSlot(Whole(g, disk, ch), 0) < Dir.Slots(Whole(g, disk, ch))
      ensures q < |ch| && cluster == ch[q] && (!found ==> q == |ch| - 1)
      ensures found ==> s < g.spc && i < 16
      ensures found ==> Start(g, q) + s * SECTOR + i * Dir.SLOT == Dir.SLOT * Dir.FreeSlot(Whole(g, disk, ch), 0)
    {
      hide Formatted, Fat, Chain, Whole, ClusterBytes, Start, ClusterSize, Lba, Dir.FreeSlot;
      cluster, i := if dir == 0 then g.root else dir, 0;
      q := 0;
      ghost var w := Whole(g, disk, ch);
      ghost var b := 0;
      StartNext(g, 0);
      while true
        invariant q < |ch| && cluster == ch[q]
        invariant Dir.SLOT * b == Start(g, q) && b <= Dir.Slots(w) && Dir.FreeSlot(w, 0) == Dir.FreeSlot(w, b)
        decreases |ch| - q
      {
        s := 0;
        while s < g.spc
          invariant s <= g.spc && Dir.SLOT * b == Start(g, q) + s * SECTOR && b <= Dir.Slots(w) && Dir.FreeSlot(w, 0) == Dir.FreeSlot(w, b)
        {
          ChainSector(g, disk, ch, q, s);
          var buf := disk[Lba(g, cluster) + s];
          i := ScanFree(buf);
          Dir.WindowFree(w, b, buf, i);
          if i < 16 {
            FreeAt(w, b, buf, i);
            return true, cluster, s, i, q;
          }
          b := b + 16;
          s := s + 1;
        }
        ChainStep(Table(), ch, q);
        SectorsEnd(g, q);
        var next := NextCluster(cluster);
        if next >= EOC {
          FreeNone(w, b);
          return false, cluster, s, i, q;
        }
        cluster, q := next, q + 1;
      }
    }

    method ScanFree(buf: seq<byte>) returns (i: nat)
      requires |buf| == SECTOR
      ensures i <= 16 && Dir.Slots(buf) == 16 && (i < 16 ==> Dir.First(buf, i) == 0 || Dir.First(buf, i) == Dir.DELETED)
      ensures forall k :: 0 <= k < i ==> Dir.First(buf, k) != 0 && Dir.First(buf, k) != Dir.DELETED
    {
      i := 0;
      while i < 16 && Dir.First(buf, i) != 0 && Dir.First(buf, i) != Dir.DELETED
        invariant i <= 16 && forall k :: 0 <= k < i ==> Dir.First(buf, k) != 0 && Dir.First(buf, k) != Dir.DELETED
      {
        i := i + 1;
      }
    }

    /** fat32_add_dirent. A full directory grows by one zeroed cluster; false
        means there is no free cluster for that. w0 is the directory before the
        slot is written. */
    method AddDirent(dir: nat, name: seq<byte>, first: nat, size: nat, attr: byte, ghost ch: seq<nat>)
      returns (ok: bool, ghost ch': seq<nat>, ghost w0: seq<byte>)
      requires Valid() && Chain(Table(), ch) && OnVolume(g, ch) && ch != [] && ch[0] == (if dir == 0 then g.root else dir)
      modifies this`disk
      ensures !ok ==> disk == old(disk) && NothingFree(Table())
      ensures !ok ==> Dir.FreeSlot(Whole(g, disk, ch), 0) == Dir.Slots(Whole(g, disk, ch))
      ensures ok ==> DirRoom(g, Whole(g, old(disk), ch), old(Table()), ch, ch', w0)
      ensures ok ==> Valid() && Chain(Table(), ch') && OnVolume(g, ch') && OthersKept(g, old(disk), disk, ch)
      ensures ok ==> Dir.FreeSlot(w0, 0) < Dir.Slots(w0)
                     && Whole(g, disk, ch') == Dir.SetSlot(w0, Dir.FreeSlot(w0, 0), Dir.NewSlot(Canon83(name), attr, first, size))
      ensures ok ==> forall exact :: Dir.AddLaw(Whole(g, old(disk), ch), Whole(g, disk, ch'), Canon83(name), attr, first, size, exact)
      ensures ok ==> KeepsDirs(old(Table()), Table(), ch, ch')
      ensures var full := Dir.FreeSlot(old(Whole(g, disk, ch)), 0) == Dir.Slots(old(Whole(g, disk, ch)));
              && (ok <==> !full || FreeIn(old(Table())) > 0)
              && FreeIn(Table0()) == FreeIn(old(Table())) - if ok && full then 1 else 0
    {
      hide Formatted, Fat, Chain, Whole, Start, Lba, Dir.FreeSlot, Dir.NewSlot, Canon83, OnlyChain, Put, Distinct, LinkedTo, OthersKept, DirRoom, FreeIn;
      hide Dir.AddLaw, KeepsDirs, NothingFree, Names83;
      ChainOnVolume(g, disk, ch);
      NoneLeft(Table());
      ghost var d0 := disk;
      var target := Canonicalize(name);
      var slot := Dir.NewSlot(target, attr, first, size);
      ch', w0 := ch, Whole(g, disk, ch);
      var c, s, i; ghost var q;
      ok, c, s, i, q := FindFreeSlot(dir, ch);
      if ok {
        NotGrown(g, disk, ch);
      } else {
        var new0 := FindFreeCluster();
        if new0 == 0 {
          return;
        }
        EndTaken(Table(), ch, new0);
        Link(c, new0);
        LinkedFacts(g, d0, disk, c, new0);
        ch' := ch + [new0];
        DirGrown(g, d0, disk, ch, new0);
        w0 := Whole(g, disk, ch');
        ok, c, s, i, q := true, new0, 0, 0, |ch|;
      }
      ghost var d1 := disk;
      ChainSector(g, disk, ch', q, s);
      var buf := disk[Lba(g, c) + s];
      SlotInSector(w0, Start(g, q) + s * SECTOR, buf, i, Dir.FreeSlot(w0, 0));
      ChainOnVolume(g, disk, ch');
      ChainPut(g, disk, ch', q, s, i * 32, slot);
      disk := disk[Lba(g, c) + s := Put(buf, i * 32, slot)];
      OnlyChainFacts(g, d1, disk, ch');
      OthersUnderWrite(g, d1, disk, ch');
      OthersBoth(g, d0, d1, disk, ch, ch');
      RoomLaw(g, Whole(g, d0, ch), Fat(g, d0), ch, ch', w0, target, attr, first, size);
      DirKeepsLive(g, d0, disk, ch, ch', Whole(g, d0, ch), w0);
    }

    /** fat32_unlink: the clusters the entry leads to are freed, then its slot is
        marked deleted. When they are the whole chain file, apart from the
        directory's, exactly that chain goes. */
    method Unlink(dir: nat, name: seq<byte>, ghost ch: seq<nat>, ghost file: seq<nat>) returns (ok: bool)
      requires Valid() && Chain(Table(), ch) && OnVolume(g, ch) && ch != [] && ch[0] == (if dir == 0 then g.root else dir)
      requires var w := Whole(g, disk, ch); var j := Dir.Find(w, Canon83(name), true); j >= 0 ==> StaysIn(Table(), Dir.ClusterAt(w, j))
      modifies this`disk
      ensures Valid() && (ok <==> Dir.Find(Whole(g, old(disk), ch), Canon83(name), true) >= 0)
      ensures !ok ==> disk == old(disk)
      ensures ok ==> var w := Whole(g, old(disk), ch); var j := Dir.Find(w, Canon83(name), true);
                && Table() == Freed(old(Table()), Dir.ClusterAt(w, j)) && Whole(g, disk, ch) == Dir.Deleted(w, j)
                && forall exact :: Dir.DeleteLaw(w, Whole(g, disk, ch), Canon83(name), exact)
      ensures ok && Chain(old(Table()), file) && Apart(file, ch)
              && Begins(file, Dir.ClusterAt(Whole(g, old(disk), ch), Dir.Find(Whole(g, old(disk), ch), Canon83(name), true))) ==>
                && Cleared(old(Table()), Table(), file) && Chain(Table(), ch)
                && OthersKept(g, old(disk), disk, file + ch) && DropsFile(old(Table()), Table(), file)
                && FreeIn(Table()) == FreeIn(old(Table())) + |file|
    {
      hide Formatted, Fat, Chain, Whole, Start, Lba, Dir.Find, Canon83, OnlyChain, Put, Distinct, OthersKept, Dir.DeleteLaw, StaysIn, Freed, DropsFile;
      ChainOnVolume(g, disk, ch);
      ghost var d0, w := disk, Whole(g, disk, ch);
      var target := Canonicalize(name);
      var c, s, i; ghost var q;
      ok, c, s, i, q := FindSlot(dir, target, true, ch);
      if ok {
        ghost var j := Dir.Find(w, target, true);
        ChainSector(g, disk, ch, q, s);
        var buf := disk[Lba(g, c) + s];
        SlotInSector(w, Start(g, q) + s * SECTOR, buf, i, j);
        var fc := Get16(buf, i * 32 + 20) * 0x1_0000 + Get16(buf, i * 32 + 26);
        ClusterInSector(w, j, buf, i, fc);
        FreeChain(fc);
        ghost var d1 := disk;
        WholeUnderTable(g, d0, d1, ch);
        ChainSector(g, disk, ch, q, s);
        ChainPut(g, disk, ch, q, s, i * 32, [Dir.DELETED]);
        disk := disk[Lba(g, c) + s := Put(buf, i * 32, [Dir.DELETED])];
        OnlyChainFacts(g, d1, disk, ch);
        DeletedPut(w, j);
        forall exact ensures Dir.DeleteLaw(w, Whole(g, disk, ch), target, exact) {
          Dir.DeletedLaw(w, target, exact);
        }
        if Chain(Fat(g, d0), file) && Apart(file, ch) && Begins(file, fc) {
          FreedFile(g, d0, d1, ch, file, fc);
          OthersUnderWrite(g, d1, disk, ch);
          OthersBoth(g, d0, d1, disk, file + ch, ch);
          ClearedLive(Fat(g, d0), Fat(g, disk), file);
          ClearedFrees(Fat(g, d0), Fat(g, disk), file);
        }
      }
    }

    // ----- Growing and writing files

    /** The first cluster of an empty file; false when none is free. */
    method FirstCluster(node: Node, ghost dir: seq<nat>) returns (ok: bool, last: nat)
      requires FileOk(g, disk, node.inode, node.length, []) && ListedIn(g, disk, node.parent, dir)
      modifies this`disk, node`inode
      ensures !ok ==> disk == old(disk) && node.inode == old(node.inode) && NothingFree(Table())
      ensures ok ==>
                && last == node.inode && FileOk(g, disk, node.inode, node.length, [last])
                && OnVolume(g, [last]) && AllZero(Whole(g, disk, [last]))
                && Growing(g, old(disk), disk, [], [last], dir) && OnVolume(g, dir)
                && Whole(g, disk, dir) == Relisted(Whole(g, old(disk), dir), node.name, Dir.NONE, last)
      ensures ok <==> FreeIn(old(Table0())) > 0
      ensures FreeIn(Table0()) == FreeIn(old(Table0())) - if ok then 1 else 0
    {
      hide Formatted, Fat, Chain, Whole, FileOk, Growing, OnlyChain, Canon83, Dir.Find, SectorsKept, ClusterBytes, Start, Relisted, ListedIn, OnlyCluster, Zeros, FreeIn;
      ghost var d0 := disk;
      FileFacts(g, disk, node.inode, node.length, []);
      ListedFacts(g, disk, node.parent, dir);
      GrowingStart(g, disk, [], dir);
      EmptyLength(g, disk, node.inode, node.length);
      NoneLeft(Table());
      last := FindFreeCluster();
      if last == 0 {
        return false, last;
      }
      OneMarked(Table(), last);
      SetCluster(last, LAST);
      ghost var d1 := disk;
      GrowFirst(g, d0, d0, d1, dir, last);
      GrowingFacts(g, d0, d1, [], [last], dir);
      node.inode := last;
      var listed := UpdateDirent(node.parent, node.name, Dir.NONE, last, dir);
      ghost var d2 := disk;
      GrowDirent(g, d0, d1, d2, [], [last], dir);
      OnlyChainFacts(g, d1, d2, dir);
      ZeroCluster(last);
      OnlyClusterFacts(g, d2, disk, last);
      GrowZero(g, d0, d2, disk, [], dir, last);
      ok := true;
    }

    /** Walking to the cluster that is to be linked to: the n-th, or the first
        one when n is 0. */
    method LastCluster(first: nat, n: nat, ghost ch: seq<nat>) returns (c: nat)
      requires Valid() && Chain(Table(), ch) && ch != [] && n <= |ch| && first == ch[0] && Clusters(g) <= EOC
      ensures c == ch[if n == 0 then 0 else n - 1]
    {
      hide Formatted, Fat, Chain;
      c := first;
      var i := 1;
      ChainStep(Table(), ch, 0);
      while i < n
        invariant 1 <= i && (if n == 0 then i == 1 else i <= n) && i <= |ch| && c == ch[i - 1] && c < Clusters(g)
      {
        ChainStep(Table(), ch, i - 1);
        var next := NextCluster(c);
        if next >= EOC {
          break;
        }
        c := next;
        i := i + 1;
      }
    }

    /** The loop that links one zeroed cluster after the other, k of them, behind
        the first m0 of the chain; the first m of now are those and the new ones. */
    method LinkMore(last0: nat, k: nat, ghost f: File, ghost d0: Disk, ghost ch: seq<nat>, ghost m0: nat, ghost dir: seq<nat>)
      returns (ok: bool, ghost now: seq<nat>, ghost m: nat)
      requires FileOk(g, disk, f.inode, f.length, f.chain) && Growing(g, d0, disk, ch, f.chain, dir) && OnVolume(g, dir)
      requires 0 < m0 <= |f.chain| && last0 == f.chain[m0 - 1] && f.length <= Start(g, m0) && OnVolume(g, f.chain) && Start(g, m0) <= Start(g, |f.chain|)
      modifies this`disk
      ensures FileOk(g, disk, f.inode, f.length, now) && Growing(g, d0, disk, ch, now, dir)
      ensures m0 <= m <= |now| && OnVolume(g, now) && Start(g, m) <= Start(g, |now|)
      ensures ZeroGrown(old(Whole(g, disk, f.chain))[..Start(g, m0)], Whole(g, disk, now)[..Start(g, m)])
      ensures Whole(g, disk, dir) == old(Whole(g, disk, dir))
      ensures if ok then m == m0 + k else NothingFree(Table())
      ensures ok <==> FreeIn(old(Table0())) >= k
      ensures FreeIn(Table0()) == FreeIn(old(Table0())) - (m - m0) && (!ok ==> FreeIn(Table0()) == 0)
      ensures Behind(Table0(), f.chain, now, m0, m > m0)
    {
      hide Formatted, Fat, Chain, Whole, FileOk, Growing, LinkedTo, Start, Distinct, ZeroGrown, FreeIn, Behind, Dropped;
      FileFacts(g, disk, f.inode, f.length, f.chain);
      now, m := f.chain, m0;
      NoneBehind(Table(), now, m);
      ghost var p := Whole(g, disk, now)[..Start(g, m)];
      assert ZeroGrown(p, p) by { NothingGrown(p); }
      var last, i := last0, 0;
      while i < k
        invariant 0 <= i <= k && m0 <= m <= |now| && m == m0 + i && last == now[m - 1] && f.length <= Start(g, m)
        invariant FileOk(g, disk, f.inode, f.length, now) && Growing(g, d0, disk, ch, now, dir)
        invariant Formatted(g, disk) && OnVolume(g, now) && Start(g, m) <= Start(g, |now|)
        invariant ZeroGrown(p, Whole(g, disk, now)[..Start(g, m)])
        invariant Whole(g, disk, dir) == old(Whole(g, disk, dir))
        invariant FreeIn(Table()) == FreeIn(old(Table0())) - i && Behind(Table(), f.chain, now, m0, m > m0)
      {
        FileFacts(g, disk, f.inode, f.length, now);
        NoneLeft(Table());
        var next := FindFreeCluster();
        if next == 0 {
          return false, now, m;
        }
        LinkTakes(Table(), f.chain, now, m0, m, next);
        ghost var d, was := disk, Whole(g, disk, now)[..Start(g, m)];
        Link(last, next);
        LinkFile(g, d, disk, f.inode, f.length, now, m, next);
        GrowLink(g, d0, d, disk, ch, now, dir, m, next);
        LinkedFacts(g, d, disk, last, next);
        now := now[..m] + [next];
        StartMono(g, m, m + 1);
        m := m + 1;
        ZeroGrownTwice(p, was, Whole(g, disk, now));
        assert Whole(g, disk, now)[..Start(g, m)] == Whole(g, disk, now);
        last := next;
        i := i + 1;
      }
      ok := true;
    }

    /** The first half of fat32_vfs_expand: more clusters for a file that has
        too few. */
    method GrowChain(node: Node, current: nat, needed: nat, ghost ch: seq<nat>, ghost dir: seq<nat>)
      returns (ok: bool, ghost now: seq<nat>, ghost m: nat)
      requires FileOk(g, disk, node.inode, node.length, ch) && ListedIn(g, disk, node.parent, dir) && Apart(ch, dir) && OnVolume(g, dir)
      requires 0 < ClusterSize(g) && current == Needed(g, node.length) < needed
      modifies this`disk, node`inode
      ensures FileOk(g, disk, node.inode, node.length, now) && Growing(g, old(disk), disk, ch, now, dir)
      ensures m <= |now| && OnVolume(g, now) && Start(g, m) <= Start(g, |now|) && Counted(g, node.length, now) <= m
      ensures ZeroGrown(old(Backing(g, disk, node.inode, node.length, ch)), Whole(g, disk, now)[..Start(g, m)])
      ensures if ok then needed <= m else NothingFree(Table())
      ensures ok <==> FreeIn(old(Table0())) >= needed - current
      ensures FreeIn(Table0()) == FreeIn(old(Table0())) - Min(FreeIn(old(Table0())), needed - current)
      ensures ch != [] ==> Behind(Table0(), ch, now, Counted(g, node.length, ch), FreeIn(old(Table0())) > 0)
      ensures now == [] ==> ch == []
      ensures (node.inode == old(node.inode) && Whole(g, disk, dir) == old(Whole(g, disk, dir)))
              || (node.inode < Clusters(g) && Whole(g, disk, dir) == Relisted(old(Whole(g, disk, dir)), node.name, Dir.NONE, node.inode))
    {
      hide Formatted, Fat, Chain, Whole, FileOk, Growing, Start, Contents, Relisted, ListedIn, Distinct, OnlyChain, ZeroGrown, Needed, FreeIn, Behind;
      ghost var d0 := disk;
      ghost var p := Backing(g, disk, node.inode, node.length, ch);
      FileFacts(g, disk, node.inode, node.length, ch);
      ListedFacts(g, disk, node.parent, dir);
      CountedFits(g, disk, node.inode, node.length, ch);
      var last, k := 0, needed - current;
      now, m := ch, Counted(g, node.length, ch);
      ghost var p0 := p;
      if node.inode == 0 {
        EmptyChain(g, disk, node.length, ch);
        EmptyLength(g, disk, node.inode, node.length);
        NoNeed(g);
        ok, last := FirstCluster(node, dir);
        if !ok {
          GrowingStart(g, disk, ch, dir);
          NothingGrown(p);
          return;
        }
        now, k, m := [last], needed - 1, 1;
        FileFacts(g, disk, node.inode, node.length, now);
        p0 := Whole(g, disk, now);
        FirstGrown(g, p, p0);
      } else {
        GrowingStart(g, disk, ch, dir);
        last := LastCluster(node.inode, current, ch);
        NothingGrown(p);
      }
      FileFacts(g, disk, node.inode, node.length, now);
      CountedFits(g, disk, node.inode, node.length, now);
      assert Whole(g, disk, now)[..Start(g, m)] == p0;
      ghost var m0 := m;
      ok, now, m := LinkMore(last, k, File(node.inode, node.length, now), d0, ch, m0, dir);
      FileFacts(g, disk, node.inode, node.length, now);
      ZeroGrownTwice(p, p0, Whole(g, disk, now)[..Start(g, m)]);
    }

    /** fat32_vfs_expand to a larger size: new clusters are zeroed and linked,
        then node and entry get the new length. Cluster counts are rounded in
        32 bits: a size within one cluster of 4 GiB counts as none, and the file
        is then longer than its chain unless that was long enough. */
    method ExpandFile(node: Node, size: nat, ghost ch: seq<nat>, ghost dir: seq<nat>) returns (r: Outcome, ghost now: seq<nat>)
      requires FileOk(g, disk, node.inode, node.length, ch) && ListedIn(g, disk, node.parent, dir) && Apart(ch, dir) && OnVolume(g, dir)
      requires node.length < size < WORD
      modifies this`disk, node`inode, node`length
      ensures Growing(g, old(disk), disk, ch, now, dir) && Valid() && Chain(Table(), now) && (now == [] ==> ch == []) && Begins(now, node.inode)
      ensures Roomy(g, size, ch) ==>
                Updated(g, old(disk), old(File(node.inode, node.length, ch)), disk, File(node.inode, node.length, now), size, [], false)
      ensures if r == NoSpace then NothingFree(Table()) && node.length == old(node.length) else node.length == size
      ensures !Roomy(g, size, ch) ==> r != NoSpace && now == ch && node.inode == old(node.inode)
      ensures Room(g, old(Table0()), Table0(), old(node.length), size, ch, now, r == NoSpace)
      ensures Relists(g, old(disk), disk, dir, node.name)
      ensures r == NoEntry <==> r != NoSpace && Dir.Find(old(Whole(g, disk, dir)), Canon83(node.name), false) < 0
      ensures old(ListsAs(g, disk, dir, node.name, node.inode, node.length)) && (r == NoSpace || size < Dir.NONE) ==>
                r != NoEntry && ListsAs(g, disk, dir, node.name, node.inode, node.length)
    {
      hide Formatted, Fat, Chain, Whole, FileOk, Growing, Start, Contents, Relisted, Distinct, ClusterSize, OnlyChain, Lists, ListedIn;
      hide Needed, Needed32, ZeroGrown, Dir.OnlyEntry, Dir.Find, Over, Counted, Canon83, FreeIn, Behind, Room;
      ghost var d0 := disk;
      ghost var inode0, length0 := node.inode, node.length;
      FileFacts(g, disk, node.inode, node.length, ch);
      ListedFacts(g, disk, node.parent, dir);
      ghost var w0, p := Whole(g, disk, dir), Backing(g, disk, node.inode, node.length, ch);
      now := ch;
      NeededIn32(g, node.length);
      NeededIn32(g, size);
      NeededMono(g, node.length, size);
      var current, needed := Needed32(g, node.length), Needed32(g, size);
      GrowingStart(g, disk, ch, dir);
      EntrySame(w0, node.name);
      ghost var m := Counted(g, node.length, ch);
      CountedFits(g, disk, node.inode, node.length, ch);
      NothingGrown(p);
      if needed > current {
        var ok;
        ok, now, m := GrowChain(node, current, needed, ch, dir);
        RoomTaken(g, Fat(g, d0), Table0(), length0, size, ch, now, ok);
        GrowingFacts(g, d0, disk, ch, now, dir);
        RelistFirst(w0, node.name, inode0, length0, node.inode);
        CountedGrows(g, length0, ch, now);
        if !ok {
          StillBacked(g, disk, node.inode, node.length, now, m, p);
          FileFacts(g, disk, node.inode, node.length, now);
          return NoSpace, now;
        }
      } else {
        NoRoomNeeded(g, Fat(g, d0), length0, size, ch);
        if size + ClusterSize(g) <= WORD {
          StillCounted(g, disk, node.inode, length0, size, ch);
        }
      }
      ghost var d1, w1 := disk, Whole(g, disk, dir);
      GrowingFacts(g, d0, disk, ch, now, dir);
      FileFacts(g, disk, node.inode, node.length, now);
      ListedStill(g, d0, d1, node.parent, dir);
      var ok := SetLength(node, size, now, dir);
      GrowDirent(g, d0, d1, disk, ch, now, dir);
      OnlyChainFacts(g, d1, disk, dir);
      EntryTwice(w0, w1, Whole(g, disk, dir), node.name);
      r := if ok then Done else NoEntry;
      if Roomy(g, size, ch) {
        if size + ClusterSize(g) <= WORD {
          NeededSome(g, size);
          BackingFits(g, length0, size, ch, p);
          Longer(g, d1, node.inode, length0, size, now, m, p);
        } else {
          LongerAnyway(g, d1, node.inode, length0, size, ch);
        }
        DirentFile(g, d1, disk, node.inode, size, now, dir);
      }
    }

    /** The end of fat32_vfs_expand. */
    method SetLength(node: Node, size: nat, ghost now: seq<nat>, ghost dir: seq<nat>) returns (ok: bool)
      requires ListedIn(g, disk, node.parent, dir) && OnVolume(g, dir) && size < WORD
      modifies this`disk, node`length
      ensures node.length == size && OnlyChain(g, old(disk), disk, dir) && Valid()
      ensures ok <==> Dir.Find(old(Whole(g, disk, dir)), Canon83(node.name), false) >= 0
      ensures Relists(g, old(disk), disk, dir, node.name)
      ensures old(ListsAs(g, disk, dir, node.name, node.inode, node.length)) && size < Dir.NONE ==>
                ok && ListsAs(g, disk, dir, node.name, node.inode, size)
    {
      hide Formatted, Fat, Chain, Whole, Start, Contents, Relisted, OnlyChain, Lists, Dir.OnlyEntry, Dir.Find, Canon83, ListedIn;
      ghost var d1, length0 := disk, node.length;
      ListedFacts(g, disk, node.parent, dir);
      node.length := size;
      ok := UpdateDirent(node.parent, node.name, size, Dir.NONE, dir);
      OnlyChainFacts(g, d1, disk, dir);
      RelistedOnly(Whole(g, d1, dir), node.name, size, Dir.NONE);
      if size < Dir.NONE {
        RelistLast(Whole(g, d1, dir), node.name, node.inode, length0, size);
      }
    }

    /** The cluster loop of fat32_vfs_write, from byte off of cluster q on. */
    method WriteChain(first: nat, off0: nat, data: seq<byte>, ghost q0: nat, ghost ch: seq<nat>) returns (n: nat)
      requires Valid() && Chain(Table(), ch) && q0 < |ch| && first == ch[q0] && off0 < ClusterSize(g)
      modifies this`disk
      ensures n <= |data| && (n == |data| || Start(g, q0) + off0 + n == Start(g, |ch|))
      ensures ChainWritten(g, old(disk), disk, ch, Start(g, q0) + off0, data, n)
    {
      hide Formatted, Fat, Chain, Whole, ClusterBytes, Start, ClusterSize, Written, ChainWritten;
      ghost var d0, p, q := disk, Start(g, q0) + off0, q0;
      var cluster: nat, off: nat := first, off0;
      StartNext(g, q);
      StartMono(g, q + 1, |ch|);
      ChainWriteNothing(g, disk, ch, p, data);
      ChainWrittenFacts(g, d0, disk, ch, p, data, 0);
      n := 0;
      while n < |data| && cluster < EOC
        invariant n <= |data| && p + n <= Start(g, |ch|) && off < ClusterSize(g) && ChainWritten(g, d0, disk, ch, p, data, n)
        invariant Formatted(g, disk) && Fat(g, disk) == Fat(g, d0)
        invariant q <= |ch| && if q < |ch| then cluster == ch[q] else cluster >= EOC
        invariant n < |data| ==> p + n == Start(g, q) + off && (q == |ch| ==> off == 0)
        decreases |ch| - q
      {
        ghost var d := disk;
        var k := WriteCluster(cluster, off, data[n..]);
        ChainWriteMore(g, d0, d, disk, ch, p, data, n, q, off, k);
        ChainWrittenFacts(g, d0, disk, ch, p, data, n + k);
        ChainStep(Table(), ch, q);
        StartNext(g, q);
        StartMono(g, q + 1, |ch|);
        n := n + k;
        off := 0;
        cluster := NextCluster(cluster);
        q := q + 1;
      }
    }

    /** The second half of fat32_vfs_write: as much of data as the chain has room
        for. */
    method WriteAt(inode: nat, offset: nat, data: seq<byte>, ghost ch: seq<nat>) returns (n: nat)
      requires Valid() && Chain(Table(), ch) && (if ch == [] then |data| == 0 else inode == ch[0])
      modifies this`disk
      ensures n == if offset < Start(g, |ch|) then Min(|data|, Start(g, |ch|) - offset) else 0
      ensures Attempted(g, old(disk), disk, ch, offset, data, n)
    {
      hide Formatted, Fat, Chain, Whole, Start, Distinct, ClusterSize, ChainWritten, OnlyChain;
      ghost var d0 := disk;
      ChainOnVolume(g, disk, ch);
      SizesOk(g, disk);
      n := 0;
      if offset <= Start(g, |ch|) {
        ChainWriteNothing(g, disk, ch, offset, data);
      }
      if |data| > 0 {
        var skip := offset / ClusterSize(g);
        var cluster, ok := Skip(inode, skip, ch);
        LocateIff(g, offset, |ch|);
        if !ok {
          return;
        }
        n := WriteChain(cluster, offset % ClusterSize(g), data, skip, ch);
        ChainWrittenEnds(g, d0, disk, ch, offset, data, n);
      }
    }

    /** fat32_vfs_write, with sums in 32 bits. When the file cannot grow nothing
        is written; then, or when the directory has lost the entry, 0 is
        returned. */
    method WriteFile(node: Node, offset: nat, data: seq<byte>, ghost ch: seq<nat>, ghost dir: seq<nat>)
      returns (n: nat, r: Outcome, ghost now: seq<nat>)
      requires FileOk(g, disk, node.inode, node.length, ch) && ListedIn(g, disk, node.parent, dir) && Apart(ch, dir) && OnVolume(g, dir)
      requires offset < WORD && |data| < WORD && (ch == [] ==> Fits32(g, node.length, ch, offset + |data|))
      modifies this`disk, node`inode, node`length
      ensures Growing(g, old(disk), disk, ch, now, dir) && KeepsLive(old(Table0()), Table0(), ch, now, dir) && (now == [] ==> ch == [])
      ensures r != Done ==> n == 0 && offset + |data| > old(node.length)
      ensures r == NoSpace ==> NothingFree(Table0()) && node.length == old(node.length)
      ensures Room(g, old(Table0()), Table0(), old(node.length), (offset + |data|) % WORD, ch, now, r == NoSpace)
      ensures r != NoSpace ==> node.length == Max(old(node.length), (offset + |data|) % WORD)
      ensures r == NoEntry <==> r != NoSpace && (offset + |data|) % WORD > old(node.length) && Dir.Find(old(Whole(g, disk, dir)), Canon83(node.name), false) < 0
      ensures old(Fits32(g, node.length, ch, offset + |data|)) ==>
                && (r == Done ==> n == |data| && node.length == Max(old(node.length), offset + |data|))
                && (r == NoEntry ==> node.length == offset + |data|)
                && Updated(g, old(disk), old(File(node.inode, node.length, ch)), disk, File(node.inode, node.length, now), offset, data, r == Done)
      ensures !old(Fits32(g, node.length, ch, offset + |data|)) ==>
                !(FileOk(g, disk, node.inode, node.length, now) && n == |data| && node.length == offset + |data|)
      ensures Relists(g, old(disk), disk, dir, node.name)
      ensures old(ListsAs(g, disk, dir, node.name, node.inode, node.length)) && offset + |data| < Dir.NONE ==>
                r != NoEntry && ListsAs(g, disk, dir, node.name, node.inode, node.length)
    {
      hide Formatted, Fat, Chain, Whole, FileOk, Growing, Start, Contents, Distinct, ClusterSize, Lists, ChainWritten, OnlyChain;
      hide Dir.OnlyEntry, Dir.Find, Over, Canon83, KeepsLive, ListedIn, Counted, Before, Backing, Room, NothingFree;
      FileFacts(g, disk, node.inode, node.length, ch);
      ListedFacts(g, disk, node.parent, dir);
      GrowingStart(g, disk, ch, dir);
      ghost var d0, w0, length0, inode0 := disk, Whole(g, disk, dir), node.length, node.inode;
      ghost var p := Before(g, disk, node.inode, node.length, ch, offset + |data|);
      n, r, now := 0, Done, ch;
      EntrySame(w0, node.name);
      OverNothing(p);
      if offset + |data| <= node.length {
        BeforeIs(g, disk, node.inode, node.length, ch, offset + |data|);
      }
      var end := (offset + |data|) % WORD;
      EndIs(offset + |data|);
      if end > node.length {
        r, now := ExpandFile(node, end, ch, dir);
      } else {
        NoRoomNeeded(g, Table(), node.length, end, ch);
      }
      ghost var d1 := disk;
      GrowingFacts(g, d0, d1, ch, now, dir);
      GrownKeepsLive(g, d0, d1, ch, now, dir);
      if r != Done {
        if !Fits32(g, length0, ch, offset + |data|) {
          NotWhole(g, disk, node.inode, node.length, now, offset + |data|);
        }
        return;
      }
      if now == [] {
        EmptyLength(g, disk, node.inode, node.length);
      }
      n := WriteAt(node.inode, offset, data, now);
      WroteAt(g, d0, d1, disk, ch, now, dir, offset, data, n);
      GrowingFacts(g, d0, disk, ch, now, dir);
      GrownKeepsLive(g, d0, disk, ch, now, dir);
      if Fits32(g, length0, ch, offset + |data|) {
        WroteFile(g, d1, disk, node.inode, node.length, now, offset, data, n, p);
      } else {
        NotWhole(g, disk, node.inode, node.length, now, offset + |data|);
      }
    }

    /** What was written is read back, whenever the clusters it takes are free
        and a file that grows is listed. */
    method WriteThenRead(node: Node, offset: nat, data: seq<byte>, ghost ch: seq<nat>, ghost dir: seq<nat>)
      returns (buf: seq<byte>, r: Outcome)
      requires FileOk(g, disk, node.inode, node.length, ch) && ListedIn(g, disk, node.parent, dir) && Apart(ch, dir) && OnVolume(g, dir)
      requires offset < WORD && |data| < WORD && Fits32(g, node.length, ch, offset + |data|)
      modifies this`disk, node`inode, node`length
      ensures r == Done ==> buf == data
      ensures var listed := Dir.Find(old(Whole(g, disk, dir)), Canon83(node.name), false) >= 0;
              r == Done <==> 0 < ClusterSize(g) && FreeIn(old(Table0())) >= Extra(g, old(node.length), offset + |data|) && (offset + |data| <= old(node.length) || listed)
    {
      hide Formatted, Fat, Chain, Whole, FileOk, Growing, Start, Updated, ListedIn, KeepsLive, Roomy, Relists, ListsAs, Extra, FreeIn, Canon83, Dir.Find;
      FileFacts(g, disk, node.inode, node.length, ch);
      EndIs(offset + |data|);
      ghost var d0, f0, now := disk, File(node.inode, node.length, ch), ch;
      buf := [];
      var n;
      n, r, now := WriteFile(node, offset, data, ch, dir);
      if r == Done {
        ghost var f := File(node.inode, node.length, now);
        ReadBack(g, d0, f0, disk, f, offset, data);
        UpdatedFacts(g, d0, f0, disk, f, offset, data, true);
        FileFacts(g, disk, node.inode, node.length, now);
        EndIs(offset + |data|);
        buf := ReadFile(node, offset, |data|, now);
      }
    }

    /** The wrapped sum is reached: two bytes written to an empty file, and a
        read of 2^32 - 1 bytes from its second byte on returns the rest of the
        cluster, not one byte. */
    method ReadTooMuch(node: Node, ghost dir: seq<nat>) returns (buf: seq<byte>)
      requires FileOk(g, disk, node.inode, node.length, []) && ListedIn(g, disk, node.parent, dir) && OnVolume(g, dir)
      requires Dir.Find(Whole(g, disk, dir), Canon83(node.name), false) >= 0 && FreeIn(Table0()) > 0
      modifies this`disk, node`inode, node`length
      ensures node.length == 2 && |buf| > node.length - 1
    {
      hide Formatted, Fat, Chain, Whole, FileOk, Growing, Start, Updated, ListedIn, KeepsLive, Relists, ListsAs, Extra, FreeIn, Canon83, Dir.Find, ClusterSize;
      EmptyLength(g, disk, node.inode, node.length);
      FileFacts(g, disk, node.inode, node.length, []);
      SmallCluster(g, disk);
      ghost var d0, f0, now := disk, File(node.inode, node.length, []), [];
      TwoBytes(g);
      var n, r;
      n, r, now := WriteFile(node, 0, [1, 2], [], dir);
      UpdatedFacts(g, d0, f0, disk, File(node.inode, node.length, now), 0, [1, 2], true);
      FileFacts(g, disk, node.inode, node.length, now);
      LongChain(g, |now|);
      EndIs(WORD);
      buf := ReadFile(node, 1, WORD - 1, now);
    }

    ghost function Table0(): seq<nat>
      reads this
    {
      if Valid() then Table() else []
    }

    /** A new cluster that lists itself and its parent, not yet entered
        anywhere; 0 when none is free. */
    method NewDirectory(parent: nat, ghost ch: seq<nat>) returns (c: nat)
      requires Valid() && Chain(Table(), ch) && ch != [] && parent < WORD
      modifies this`disk
      ensures c == 0 ==> disk == old(disk) && NothingFree(Table())
      ensures c != 0 ==>
                && 2 <= c < Clusters(g) && old(Table())[c] == 0 && Growing(g, old(disk), disk, [], [c], ch) && OnVolume(g, ch)
                && Table() == old(Table())[c := 0x0FFF_FFFF]
                && Whole(g, disk, ch) == Whole(g, old(disk), ch)
                && Chain(Table(), [c]) && OnVolume(g, [c]) && Whole(g, disk, [c]) == DotBytes(g, c, parent)
                && ListsItself(Whole(g, disk, [c]), c, parent)
    {
      hide Formatted, Fat, Chain, Whole, Growing, FileOk, OnlyChain, DotBytes, AllZero, ListsItself;
      ghost var d0 := disk;
      c := FreshCluster(ch);
      if c == 0 {
        return;
      }
      ghost var d2 := disk;
      FileFacts(g, d2, c, 0, [c]);
      SizesOk(g, d2);
      WriteDots(c, parent);
      GrowWrite(g, d0, d2, disk, [], [c], ch);
      OnlyChainFacts(g, d2, disk, [c]);
    }

    /** A free cluster, marked as an end and zeroed; 0 when none is free. */
    method FreshCluster(ghost ch: seq<nat>) returns (c: nat)
      requires Valid() && Chain(Table(), ch)
      modifies this`disk
      ensures c == 0 ==> disk == old(disk) && NothingFree(Table())
      ensures c != 0 ==>
                && 2 <= c < Clusters(g) && old(Table())[c] == 0 && Growing(g, old(disk), disk, [], [c], ch) && OnVolume(g, ch)
                && Whole(g, disk, ch) == Whole(g, old(disk), ch) && Valid() && Table() == old(Table())[c := 0x0FFF_FFFF]
                && FileOk(g, disk, c, 0, [c]) && OnVolume(g, [c]) && AllZero(Whole(g, disk, [c]))
    {
      hide Formatted, Fat, Chain, Whole, Growing, FileOk, OnlyCluster, SectorsKept, ClusterBytes;
      ghost var d0 := disk;
      ChainOnVolume(g, disk, ch);
      GrowingStart(g, disk, [], ch);
      c := FindFreeCluster();
      if c == 0 {
        return;
      }
      SetCluster(c, LAST);
      ghost var d1 := disk;
      GrowFirst(g, d0, d0, d1, ch, c);
      ZeroCluster(c);
      GrowZero(g, d0, d1, disk, [], ch, c);
      OnlyClusterFacts(g, d1, disk, c);
    }

    /** The '.' and '..' entries in the first sector of a zeroed cluster. */
    method WriteDots(c: nat, parent: nat)
      requires FileOk(g, disk, c, 0, [c]) && OnVolume(g, [c]) && 0 < g.spc && AllZero(Whole(g, disk, [c]))
      modifies this`disk
      ensures OnlyChain(g, old(disk), disk, [c]) && Formatted(g, disk) && Whole(g, disk, [c]) == DotBytes(g, c, parent)
      ensures parent < WORD ==> ListsItself(Whole(g, disk, [c]), c, parent)
    {
      hide Formatted, Fat, Chain, Whole, FileOk, OnlyChain, ClusterBytes, Lba, DotSlots, DotBytes, ListsItself;
      ghost var d2 := disk;
      FileFacts(g, d2, c, 0, [c]);
      var dots := DotSlots(c, parent) + Zeros(SECTOR - 64);
      ChainSector(g, disk, [c], 0, 0);
      ChainPut(g, disk, [c], 0, 0, 0, dots);
      DotsWritten(g, d2, c, parent, dots);
      var buf := disk[Lba(g, c)];
      assert Put(buf, 0, dots) == dots;
      disk := disk[Lba(g, c) := dots];
      OnlyChainFacts(g, d2, disk, [c]);
      if parent < WORD {
        DotsListed(g, disk, c, parent);
      }
    }

    /** fat32_mkdir. When the parent has no room for the entry, the cluster made
        for the new directory stays in use on no chain but its own. */
    method MakeDirectory(parent0: nat, name: seq<byte>, ghost ch: seq<nat>)
      returns (r: Made, c: nat, ghost ch': seq<nat>, ghost w0: seq<byte>)
      requires Valid() && Chain(Table(), ch) && OnVolume(g, ch) && ch != [] && ch[0] == (if parent0 == 0 then g.root else parent0)
      modifies this`disk
      ensures Valid() && OnVolume(g, ch) && OthersKept(g, old(disk), disk, ch)
      ensures r == Exists <==> Dir.Find(Whole(g, old(disk), ch), Canon83(name), false) >= 0
      ensures r == Exists || (r == Full && c == 0) ==> disk == old(disk)
      ensures r == Full ==> NothingFree(Table()) && Chain(Table(), ch) && Whole(g, disk, ch) == Whole(g, old(disk), ch)
      ensures r != Exists && c != 0 ==>
                && 2 <= c < Clusters(g) && old(Table())[c] == 0 && Chain(Table(), [c]) && OnVolume(g, [c])
                && c !in ch && (r == Created ==> c !in ch') && Whole(g, disk, [c]) == DotBytes(g, c, ch[0])
                && ListsItself(Whole(g, disk, [c]), c, ch[0])
      ensures r == Full && c != 0 ==> KeepsLive(old(Table()), Table(), [], [c], ch)
      ensures r == Created ==>
                && c != 0 && DirRoom(g, Whole(g, old(disk), ch), old(Table())[c := LAST], ch, ch', w0)
                && Chain(Table(), ch') && OnVolume(g, ch') && Dir.FreeSlot(w0, 0) < Dir.Slots(w0)
                && Whole(g, disk, ch') == Dir.SetSlot(w0, Dir.FreeSlot(w0, 0), Dir.NewSlot(Canon83(name), DIRECTORY, c, 0))
                && (forall exact :: Dir.AddLaw(Whole(g, old(disk), ch), Whole(g, disk, ch'), Canon83(name), DIRECTORY, c, 0, exact))
                && KeepsTwo(old(Table()), Table(), ch, ch', [c])
      ensures var w := old(Whole(g, disk, ch)); var absent := Dir.Find(w, Canon83(name), false) < 0;
              && (r == Full && c == 0 <==> absent && FreeIn(old(Table())) == 0)
              && (r == Full && c != 0 <==> absent && Dir.FreeSlot(w, 0) == Dir.Slots(w) && FreeIn(old(Table())) == 1)
              && FreeIn(Table()) == FreeIn(old(Table())) - match r
                 case Exists => 0
                 case Full => FreeIn(old(Table()))
                 case Created => if Dir.FreeSlot(w, 0) == Dir.Slots(w) then 2 else 1
    {
      hide Formatted, Fat, Chain, Whole, Growing, OthersKept, DirRoom, Canon83, Dir.NewSlot, Dir.Find, Dir.FreeSlot, DotBytes, Kept;
      hide Dir.AddLaw, KeepsLive, KeepsTwo, KeepsDirs, FreeIn, ListsItself, Names83;
      ghost var d0 := disk;
      NoneLeft(Table());
      c, ch', w0 := 0, ch, [];
      ChainOnVolume(g, disk, ch);
      NotGrown(g, disk, ch);
      var parent := if parent0 == 0 then g.root else parent0;
      var target := Canonicalize(name);
      var found, x, s, i; ghost var q;
      found, x, s, i, q := FindSlot(parent, target, false, ch);
      if found {
        return Exists, c, ch', w0;
      }
      c := NewDirectory(parent, ch);
      if c == 0 {
        return Full, c, ch', w0;
      }
      ghost var d1 := disk;
      OneMarked(Fat(g, d0), c);
      GrowingFacts(g, d0, d1, [], [c], ch);
      GrownKeepsLive(g, d0, d1, [], [c], ch);
      GrowingOthers(g, d0, d1, [c], ch);
      assert c in [c];
      var ok;
      ok, ch', w0 := AddDirent(parent, name, c, 0, DIRECTORY, ch);
      r := if ok then Created else Full;
      if ok {
        OthersBoth(g, d0, d1, disk, ch, ch);
        KeptChain(g, d1, disk, ch, [c]);
        TwoKept(Fat(g, d0), Fat(g, d1), Fat(g, disk), ch, ch', c);
        RoomApart(g, Whole(g, d1, ch), Fat(g, d1), ch, ch', w0, c);
      }
    }
  }

  datatype Made = Created | Exists | Full

  const DIRECTORY: byte := 0x10
  const DOT_NAME: seq<byte> := [46, 32, 32, 32, 32, 32, 32, 32, 32, 32, 32]
  const DOTS_NAME: seq<byte> := [46, 46, 32, 32, 32, 32, 32, 32, 32, 32, 32]

  function DotSlots(c: nat, parent: nat): (r: seq<byte>)
    ensures |r| == 64
  {
    Dir.NewSlot(DOT_NAME, DIRECTORY, c, 0) + Dir.NewSlot(DOTS_NAME, DIRECTORY, parent, 0)
  }

  ghost function DotBytes(g: Geometry, c: nat, parent: nat): seq<byte>
  {
    DotSlots(c, parent) + Zeros(if ClusterSize(g) < 64 then 0 else ClusterSize(g) - 64)
  }

  // ----- What a new directory holds

  /** The entry of a directory's bytes that a search for name ends at is a folder
      that starts at cluster c. */
  ghost predicate LeadsTo(w: seq<byte>, name: seq<byte>, c: nat, exact: bool)
    requires |name| == 11
  {
    var i := Dir.Find(w, name, exact);
    i >= 0 && Dir.NameAt(w, i) == name && Dir.Attr(w, i) == 0x10 && Dir.ClusterAt(w, i) == c && Dir.SizeAt(w, i) == 0
  }

  /** '.' leads to c, '..' to parent, and there is no other name. */
  ghost predicate ListsItself(w: seq<byte>, c: nat, parent: nat)
  {
    var dot, dots := [46, 32, 32, 32, 32, 32, 32, 32, 32, 32, 32], [46, 46, 32, 32, 32, 32, 32, 32, 32, 32, 32];
    forall exact ::
      && LeadsTo(w, dot, c, exact) && LeadsTo(w, dots, parent, exact)
      && forall k: seq<byte> :: |k| == 11 && k != dot && k != dots ==> Dir.Find(w, k, exact) < 0
  }

  lemma TwoSlots(w: seq<byte>, s0: seq<byte>, s1: seq<byte>, n: nat)
    requires |s0| == |s1| == Dir.SLOT && w == s0 + s1 + Zeros(n) && n % Dir.SLOT == 0
    ensures Dir.Slots(w) >= 2 && (Dir.Slots(w) > 2 ==> Dir.First(w, 2) == 0)
    ensures Dir.NameAt(w, 0) == s0[..Dir.NAME] && Dir.Attr(w, 0) == s0[11]
    ensures Dir.ClusterAt(w, 0) == Get16(s0, 20) * 0x1_0000 + Get16(s0, 26) && Dir.SizeAt(w, 0) == Get32(s0, 28)
    ensures Dir.NameAt(w, 1) == s1[..Dir.NAME] && Dir.Attr(w, 1) == s1[11]
    ensures Dir.ClusterAt(w, 1) == Get16(s1, 20) * 0x1_0000 + Get16(s1, 26) && Dir.SizeAt(w, 1) == Get32(s1, 28)
  {
    hide Dir.NameAt, Dir.Attr, Dir.ClusterAt, Dir.SizeAt, Get16, Get32;
    var z := Zeros(64 + n);
    var w1 := Dir.SetSlot(z, 0, s0);
    Dir.SlotIs(z, 0, s0);
    Dir.SlotIs(w1, 1, s1);
    Dir.SlotFrame(w1, 1, s1, 0);
    assert Dir.SetSlot(w1, 1, s1) == w;
  }

  lemma DotSlotsAre(w: seq<byte>, c: nat, parent: nat, n: nat)
    requires w == DotSlots(c, parent) + Zeros(n) && n % Dir.SLOT == 0 && c < WORD && parent < WORD
    ensures Dir.Slots(w) >= 2 && (Dir.Slots(w) > 2 ==> Dir.First(w, 2) == 0)
    ensures Dir.NameAt(w, 0) == DOT_NAME && Dir.Attr(w, 0) == 0x10 && Dir.ClusterAt(w, 0) == c && Dir.SizeAt(w, 0) == 0
    ensures Dir.NameAt(w, 1) == DOTS_NAME && Dir.Attr(w, 1) == 0x10 && Dir.ClusterAt(w, 1) == parent && Dir.SizeAt(w, 1) == 0
  {
    hide Dir.NameAt, Dir.Attr, Dir.ClusterAt, Dir.SizeAt, Dir.NewSlot, Get16, Get32;
    TwoSlots(w, Dir.NewSlot(DOT_NAME, DIRECTORY, c, 0), Dir.NewSlot(DOTS_NAME, DIRECTORY, parent, 0), n);
  }

  /** No other name looks like one of the two, whatever the case. */
  lemma NoCase(k: seq<byte>, name: seq<byte>, exact: bool)
    requires |k| == |name| && (forall i :: 0 <= i < |name| ==> name[i] == 46 || name[i] == 32) && Dir.Matches(name, k, exact)
    ensures k == name
  {
    assert forall i :: 0 <= i < |name| ==> k[i] == name[i];
  }

  /** A directory of two names without letters. */
  lemma TwoNames(w: seq<byte>, a: seq<byte>, b: seq<byte>, exact: bool)
    requires |a| == |b| == 11 && a[0] == 46 == b[0] && a[1] != b[1]
    requires forall j :: 0 <= j < 11 ==> a[j] == 46 || a[j] == 32
    requires forall j :: 0 <= j < 11 ==> b[j] == 46 || b[j] == 32
    requires Dir.Slots(w) >= 2 && (Dir.Slots(w) > 2 ==> Dir.First(w, 2) == 0)
    requires Dir.NameAt(w, 0) == a && Dir.Attr(w, 0) == 0x10 && Dir.NameAt(w, 1) == b && Dir.Attr(w, 1) == 0x10
    ensures Dir.Find(w, a, exact) == 0 && Dir.Find(w, b, exact) == 1
    ensures forall k: seq<byte> :: |k| == 11 && k != a && k != b ==> Dir.Find(w, k, exact) < 0
  {
    hide Dir.NameAt, Dir.Attr, Dir.Hit, Dir.Search;
    DotHit(w, a, exact, 0, a);
    DotHit(w, b, exact, 0, a);
    DotHit(w, b, exact, 1, b);
    Dir.SearchFinds(w, a, exact, 0, 0);
    Dir.SearchFinds(w, b, exact, 0, 1);
    forall k: seq<byte> | |k| == 11 && k != a && k != b
      ensures Dir.Find(w, k, exact) < 0
    {
      DotHit(w, k, exact, 0, a);
      DotHit(w, k, exact, 1, b);
      assert forall i :: 0 <= i < 2 ==> !Dir.Hit(w, k, exact, i);
      Dir.SearchMisses(w, k, exact, 0, 2);
    }
  }

  lemma DotsMean(g: Geometry, w: seq<byte>, c: nat, parent: nat)
    requires w == DotBytes(g, c, parent) && ClusterSize(g) % Dir.SLOT == 0 && 64 <= ClusterSize(g) && c < WORD && parent < WORD
    ensures ListsItself(w, c, parent)
  {
    hide DotSlots, Dir.NameAt, Dir.Attr, Dir.ClusterAt, Dir.SizeAt, Dir.Find;
    DotSlotsAre(w, c, parent, ClusterSize(g) - 64);
    forall exact
      ensures LeadsTo(w, DOT_NAME, c, exact) && LeadsTo(w, DOTS_NAME, parent, exact)
      ensures forall k: seq<byte> :: |k| == 11 && k != DOT_NAME && k != DOTS_NAME ==> Dir.Find(w, k, exact) < 0
    {
      TwoNames(w, DOT_NAME, DOTS_NAME, exact);
    }
  }

  lemma ClusterOfSlots(g: Geometry)
    requires 0 < g.spc
    ensures ClusterSize(g) % Dir.SLOT == 0 && 64 <= ClusterSize(g)
  {
  }

  lemma DotsListed(g: Geometry, d: Disk, c: nat, parent: nat)
    requires Formatted(g, d) && OnVolume(g, [c]) && Whole(g, d, [c]) == DotBytes(g, c, parent) && parent < WORD
    ensures ListsItself(Whole(g, d, [c]), c, parent)
  {
    hide Formatted, Whole, DotBytes, ListsItself, ClusterSize;
    SizesOk(g, d);
    ClusterOfSlots(g);
    assert [c][0] == c;
    DotsMean(g, Whole(g, d, [c]), c, parent);
  }

  lemma DotHit(w: seq<byte>, k: seq<byte>, exact: bool, i: nat, name: seq<byte>)
    requires |k| == 11 == |name| && i < Dir.Slots(w) && Dir.NameAt(w, i) == name && Dir.Attr(w, i) == 0x10 && name[0] == 46
    requires forall j :: 0 <= j < |name| ==> name[j] == 46 || name[j] == 32
    ensures Dir.Hit(w, k, exact, i) <==> k == name
  {
    hide Dir.NameAt, Dir.Attr;
    if Dir.Matches(name, k, exact) {
      NoCase(k, name, exact);
    }
  }

  lemma DotsWritten(g: Geometry, d: Disk, c: nat, parent: nat, dots: seq<byte>)
    requires FileOk(g, d, c, 0, [c]) && dots == DotSlots(c, parent) + Zeros(SECTOR - 64) && OnVolume(g, [c]) && AllZero(Whole(g, d, [c]))
    ensures SECTOR <= |Whole(g, d, [c])| && Put(Whole(g, d, [c]), 0, dots) == DotBytes(g, c, parent) && Start(g, 0) == 0
  {
    hide DotSlots;
    FileFacts(g, d, c, 0, [c]);
    StartNext(g, 0);
    hide Whole, Formatted, Fat, Chain;
  }

  lemma GrowingOthers(g: Geometry, d0: Disk, d: Disk, now: seq<nat>, dir: seq<nat>)
    requires Growing(g, d0, d, [], now, dir)
    ensures OthersKept(g, d0, d, dir)
  {
    hide OthersKept, Formatted, Fat, Chain;
    assert [] + dir == dir;
  }

  lemma KeptChain(g: Geometry, d: Disk, d': Disk, ch: seq<nat>, b: seq<nat>)
    requires Formatted(g, d) && OthersKept(g, d, d', ch) && Chain(Fat(g, d), b) && Apart(b, ch) && OnVolume(g, b)
    ensures Formatted(g, d') && Chain(Fat(g, d'), b) && Whole(g, d', b) == Whole(g, d, b)
  {
    hide Formatted, Fat, Chain, Whole;
    assert Kept(g, d, d', b);
  }

  /** chains with ch replaced by ch' and one more. */
  ghost predicate KeepsTwo(fat0: seq<nat>, fat: seq<nat>, ch: seq<nat>, ch': seq<nat>, more: seq<nat>)
  {
    forall chains :: Live(fat0, chains) && ch in chains ==> Live(fat, chains + {more} - {ch} + {ch'})
  }

  lemma TwoKept(fat0: seq<nat>, fat1: seq<nat>, fat2: seq<nat>, ch: seq<nat>, ch': seq<nat>, c: nat)
    requires KeepsLive(fat0, fat1, [], [c], ch) && KeepsDirs(fat1, fat2, ch, ch') && ch != []
    ensures KeepsTwo(fat0, fat2, ch, ch', [c])
  {
    hide Live;
    forall chains | Live(fat0, chains) && ch in chains
      ensures Live(fat2, chains + {[c]} - {ch} + {ch'})
    {
      NoEmptyChain(fat0, chains);
      assert Replaced(chains, [], [c]) == chains + {[c]};
      assert Live(fat1, chains + {[c]});
    }
  }

  lemma NoEmptyChain(fat: seq<nat>, chains: set<seq<nat>>)
    requires Live(fat, chains)
    ensures [] !in chains
  {
  }

  lemma RoomApart(g: Geometry, w: seq<byte>, fat: seq<nat>, ch: seq<nat>, ch': seq<nat>, w0: seq<byte>, c: nat)
    requires DirRoom(g, w, fat, ch, ch', w0) && c < |fat| && fat[c] != 0 && c !in ch
    ensures c !in ch'
  {
  }

  /** The directory's chain ch became ch'; the others stayed. */
  ghost predicate KeepsDirs(fat0: seq<nat>, fat: seq<nat>, ch: seq<nat>, ch': seq<nat>)
  {
    forall chains :: Live(fat0, chains) && ch in chains ==> Live(fat, chains - {ch} + {ch'})
  }

  lemma DirKeepsLive(g: Geometry, d0: Disk, d: Disk, ch: seq<nat>, ch': seq<nat>, w: seq<byte>, w0: seq<byte>)
    requires Formatted(g, d0) && Formatted(g, d) && OthersKept(g, d0, d, ch) && Chain(Fat(g, d), ch') && ch != []
    requires DirRoom(g, w, Fat(g, d0), ch, ch', w0)
    ensures KeepsDirs(Fat(g, d0), Fat(g, d), ch, ch')
  {
    hide Formatted, Fat, Chain, Whole;
    forall chains | Live(Fat(g, d0), chains) && ch in chains
      ensures Live(Fat(g, d), chains - {ch} + {ch'})
    {
      forall b | b in chains && b != ch
        ensures b != [] && Chain(Fat(g, d), b) && Apart(b, ch') && Apart(ch', b)
      {
        assert Apart(b, ch) && Apart(ch, b);
        assert Kept(g, d0, d, b);
        StaysApart(Fat(g, d0), ch, ch', b);
      }
    }
  }

  /** A name is added to the directory, with or without growth. */
  lemma RoomLaw(g: Geometry, w: seq<byte>, fat: seq<nat>, ch: seq<nat>, ch': seq<nat>, w0: seq<byte>,
                name: seq<byte>, attr: byte, first: nat, size: nat)
    requires DirRoom(g, w, fat, ch, ch', w0) && |name| == Dir.NAME && Dir.FreeSlot(w0, 0) < Dir.Slots(w0)
    ensures forall exact ::
              Dir.AddLaw(w, Dir.SetSlot(w0, Dir.FreeSlot(w0, 0), Dir.NewSlot(name, attr, first, size)), name, attr, first, size, exact)
  {
    hide DirRoom, Dir.AddLaw, Dir.FreeSlot, Dir.NewSlot, Dir.SetSlot;
    var z := RoomZeros(g, w, fat, ch, ch', w0);
    forall exact
      ensures Dir.AddLaw(w, Dir.SetSlot(w0, Dir.FreeSlot(w0, 0), Dir.NewSlot(name, attr, first, size)), name, attr, first, size, exact)
    {
      Dir.AddedLaw(w0, name, attr, first, size, exact);
      Dir.GrownLaw(w, z, Dir.SetSlot(w0, Dir.FreeSlot(w0, 0), Dir.NewSlot(name, attr, first, size)), name, attr, first, size, exact);
    }
  }

  lemma RoomZeros(g: Geometry, w: seq<byte>, fat: seq<nat>, ch: seq<nat>, ch': seq<nat>, w0: seq<byte>) returns (z: seq<byte>)
    requires DirRoom(g, w, fat, ch, ch', w0)
    ensures w0 == w + z && |z| % Dir.SLOT == 0 && forall i :: 0 <= i < |z| ==> z[i] == 0
  {
    z := if ch' == ch then [] else w0[|w|..];
    assert ClusterSize(g) % Dir.SLOT == 0 by { SectorSlots(g.spc); }
    assert w0 == w + z;
  }

  lemma SectorSlots(n: nat)
    ensures n * 512 % 32 == 0
  {
    assert n * 512 == n * 16 * 32;
  }

  // ----- Freeing a file

  /** The cluster an entry names for the chain of its file. */
  predicate Begins(file: seq<nat>, fc: nat)
  {
    if file == [] then fc == 0 else fc == file[0]
  }

  ghost predicate DropsFile(fat0: seq<nat>, fat: seq<nat>, file: seq<nat>)
  {
    forall chains :: Live(fat0, chains) && (file in chains || file == []) ==> Live(fat, chains - {file})
  }

  lemma ClearedLive(fat0: seq<nat>, fat: seq<nat>, file: seq<nat>)
    requires Cleared(fat0, fat, file)
    ensures DropsFile(fat0, fat, file)
  {
    forall chains | Live(fat0, chains) && (file in chains || file == [])
      ensures Live(fat, chains - {file})
    {
      if file in chains {
        ClearKeepsLive(fat0, fat, chains, file);
      } else {
        assert fat == fat0 && chains - {file} == chains;
      }
    }
  }

  lemma WholeUnderTable(g: Geometry, d: Disk, d': Disk, ch: seq<nat>)
    requires Formatted(g, d) && Formatted(g, d') && OnVolume(g, ch) && SectorsKept(d, d', g.fatLba, g.dataLba)
    ensures Whole(g, d', ch) == Whole(g, d, ch)
  {
    hide Formatted, ClusterBytes, SectorsKept;
    forall i | 0 <= i < |ch|
      ensures ClusterBytes(g, d', ch[i]) == ClusterBytes(g, d, ch[i])
    {
      TableWriteData(g, d, d', ch[i]);
    }
    WholeFrame(g, d, d', ch);
  }

  // ----- Writing

  lemma FirstGrown(g: Geometry, p: seq<byte>, w: seq<byte>)
    requires |p| == Start(g, 0) && AllZero(w)
    ensures ZeroGrown(p, w)
  {
    StartNext(g, 0);
  }

  lemma BackingFits(g: Geometry, length: nat, size: nat, ch: seq<nat>, p: seq<byte>)
    requires 0 < ClusterSize(g) && length < size && |p| == Start(g, Counted(g, length, ch))
    ensures |p| <= Start(g, Needed(g, size))
  {
    NeededMono(g, length, size);
    NeededSome(g, size);
    StartMono(g, Counted(g, length, ch), Needed(g, size));
  }

  lemma EndIs(v: nat)
    requires v < 2 * WORD
    ensures v % WORD == if v < WORD then v else v - WORD
  {
  }

  lemma SizesOk(g: Geometry, d: Disk)
    requires Formatted(g, d)
    ensures 0 < ClusterSize(g) < WORD && Clusters(g) <= EOC && 0 < g.spc
  {
  }

  lemma LocateIff(g: Geometry, p: nat, n: nat)
    requires 0 < ClusterSize(g)
    ensures p / ClusterSize(g) < n <==> p < Start(g, n)
    ensures p == Start(g, p / ClusterSize(g)) + p % ClusterSize(g) && p % ClusterSize(g) < ClusterSize(g)
  {
    var cs := ClusterSize(g);
    assert p == p / cs * cs + p % cs;
    if p < Start(g, n) {
      Locate(g, p, n);
    } else if p / cs < n {
      StartNext(g, p / cs);
      StartMono(g, p / cs + 1, n);
    }
  }

  lemma ChainWrittenEnds(g: Geometry, d0: Disk, d: Disk, ch: seq<nat>, p: nat, data: seq<byte>, n: nat)
    requires ChainWritten(g, d0, d, ch, p, data, n)
    ensures p + n <= Start(g, |ch|)
  {
  }

  /** What the write loop did, whether or not it got to write. */
  ghost predicate Attempted(g: Geometry, d: Disk, d': Disk, ch: seq<nat>, offset: nat, data: seq<byte>, n: nat)
  {
    if offset <= Start(g, |ch|) then ChainWritten(g, d, d', ch, offset, data, n) else d' == d
  }

  lemma WroteAt(g: Geometry, d0: Disk, d1: Disk, d: Disk, ch: seq<nat>, now: seq<nat>, dir: seq<nat>, offset: nat, data: seq<byte>, n: nat)
    requires Growing(g, d0, d1, ch, now, dir) && Chain(Fat(g, d1), now) && Attempted(g, d1, d, now, offset, data, n)
    ensures Growing(g, d0, d, ch, now, dir) && Fat(g, d) == Fat(g, d1) && Chain(Fat(g, d), now) && OnVolume(g, dir) && Whole(g, d, dir) == Whole(g, d1, dir)
  {
    hide Formatted, Fat, Chain, Whole, ChainWritten;
    GrowingFacts(g, d0, d1, ch, now, dir);
    if offset <= Start(g, |now|) {
      ChainWrittenFacts(g, d1, d, now, offset, data, n);
      GrowWrite(g, d0, d1, d, ch, now, dir);
    }
  }

  lemma WroteFile(g: Geometry, d1: Disk, d: Disk, inode: nat, length: nat, now: seq<nat>, offset: nat, data: seq<byte>, n: nat, p: seq<byte>)
    requires FileOk(g, d1, inode, length, now) && offset + |data| <= length && Attempted(g, d1, d, now, offset, data, n)
    requires n == (if offset < Start(g, |now|) then Min(|data|, Start(g, |now|) - offset) else 0)
    requires Over(p, Backing(g, d1, inode, length, now), 0, [])
    ensures n == |data| && FileOk(g, d, inode, length, now) && Over(p, Backing(g, d, inode, length, now), offset, data)
  {
    hide Formatted, Fat, Chain, Whole, ChainWritten, Over, Start, Backing;
    FileFacts(g, d1, inode, length, now);
    WriteBacking(g, d1, d, inode, length, now, offset, data);
    OverThen(p, Backing(g, d1, inode, length, now), Backing(g, d, inode, length, now), offset, data);
  }

  lemma UpdatedFacts(g: Geometry, d0: Disk, f0: File, d: Disk, f: File, offset: nat, data: seq<byte>, done: bool)
    requires Updated(g, d0, f0, d, f, offset, data, done)
    ensures FileOk(g, d, f.inode, f.length, f.chain)
  {
  }

  lemma SmallCluster(g: Geometry, d: Disk)
    requires Formatted(g, d)
    ensures ClusterSize(g) < 0x2_0000
  {
  }

  lemma LongChain(g: Geometry, n: nat)
    requires 0 < Start(g, n)
    ensures SECTOR <= Start(g, n)
  {
    StartMono(g, 1, n);
    StartNext(g, 0);
  }

  lemma NotWhole(g: Geometry, d: Disk, inode: nat, length: nat, now: seq<nat>, end: nat)
    requires end >= WORD || end > Start(g, |now|)
    ensures !(FileOk(g, d, inode, length, now) && length == end)
  {
  }

  datatype Outcome = Done | NoSpace | NoEntry

  /** Only the entry of this name may differ in the directory. */
  ghost predicate Relists(g: Geometry, d: Disk, d': Disk, dir: seq<nat>, name: seq<byte>)
  {
    && Formatted(g, d) && Formatted(g, d') && OnVolume(g, dir)
    && Dir.OnlyEntry(Whole(g, d, dir), Whole(g, d', dir), Dir.Find(Whole(g, d, dir), Canon83(name), false))
  }

  ghost predicate ListsAs(g: Geometry, d: Disk, dir: seq<nat>, name: seq<byte>, inode: nat, length: nat)
  {
    Formatted(g, d) && OnVolume(g, dir) && Lists(Whole(g, d, dir), name, inode, length)
  }

  /** The directory lists the file with its cluster and its length. */
  ghost predicate Lists(w: seq<byte>, name: seq<byte>, inode: nat, length: nat)
  {
    && Dir.ZeroTail(w)
    && var j := Dir.Find(w, Canon83(name), false);
    j >= 0 && Dir.ClusterAt(w, j) == inode && Dir.SizeAt(w, j) == length
  }

  /** The entry of a name, if it has one, is all that differs. */
  lemma RelistedOnly(w: seq<byte>, name: seq<byte>, size: nat, cluster: nat)
    requires cluster < WORD
    ensures Dir.OnlyEntry(w, Relisted(w, name, size, cluster), Dir.Find(w, Canon83(name), false))
  {
    hide Dir.Find, Canon83, Dir.UpdatedSlot, Dir.SetSlot;
    var j := Dir.Find(w, Canon83(name), false);
    EntrySame(w, name);
    if j >= 0 {
      hide Dir.OnlyEntry;
      Dir.UpdateIs(w, j, size, cluster);
    }
  }

  lemma EntrySame(w: seq<byte>, name: seq<byte>)
    ensures Dir.OnlyEntry(w, w, Dir.Find(w, Canon83(name), false))
  {
  }

  lemma EntryTwice(w0: seq<byte>, w1: seq<byte>, w2: seq<byte>, name: seq<byte>)
    requires Dir.OnlyEntry(w0, w1, Dir.Find(w0, Canon83(name), false)) && Dir.OnlyEntry(w1, w2, Dir.Find(w1, Canon83(name), false))
    ensures Dir.Find(w1, Canon83(name), false) == Dir.Find(w0, Canon83(name), false)
    ensures Dir.OnlyEntry(w0, w2, Dir.Find(w0, Canon83(name), false))
  {
    hide Dir.OnlyEntry, Dir.Find, Canon83;
    Dir.UpdateLaw(w0, w1, Dir.Find(w0, Canon83(name), false), Canon83(name), false);
    Dir.OnlyEntryTwice(w0, w1, w2, Dir.Find(w0, Canon83(name), false));
  }

  lemma RelistEntry(w: seq<byte>, name: seq<byte>, inode: nat, length: nat, size: nat, cluster: nat)
    requires Lists(w, name, inode, length) && cluster < WORD && size < WORD
    ensures Dir.Find(w, Canon83(name), false) >= 0
    ensures Lists(Relisted(w, name, size, cluster), name,
                  if cluster == Dir.NONE then inode else cluster, if size == Dir.NONE then length else size)
  {
    hide Dir.Find, Canon83, Dir.UpdatedSlot, Dir.ClusterAt, Dir.SizeAt, Dir.SetSlot, Dir.OnlyEntry;
    var j := Dir.Find(w, Canon83(name), false);
    Dir.UpdateIs(w, j, size, cluster);
    Dir.UpdateLaw(w, Relisted(w, name, size, cluster), j, Canon83(name), false);
  }

  lemma RelistFirst(w: seq<byte>, name: seq<byte>, inode: nat, length: nat, inode': nat)
    requires inode' < EOC
    ensures Lists(w, name, inode, length) ==> Lists(Relisted(w, name, Dir.NONE, inode'), name, inode', length)
    ensures Dir.OnlyEntry(w, Relisted(w, name, Dir.NONE, inode'), Dir.Find(w, Canon83(name), false))
  {
    hide Lists, Relisted, Dir.OnlyEntry, Dir.Find, Canon83;
    RelistedOnly(w, name, Dir.NONE, inode');
    if Lists(w, name, inode, length) {
      RelistEntry(w, name, inode, length, Dir.NONE, inode');
    }
  }

  lemma RelistLast(w: seq<byte>, name: seq<byte>, inode: nat, length: nat, size: nat)
    requires size < Dir.NONE
    ensures Lists(w, name, inode, length) ==>
              Dir.Find(w, Canon83(name), false) >= 0 && Lists(Relisted(w, name, size, Dir.NONE), name, inode, size)
  {
    hide Lists, Relisted;
    if Lists(w, name, inode, length) {
      RelistEntry(w, name, inode, length, size, Dir.NONE);
    }
  }

  lemma ListedStill(g: Geometry, d: Disk, d': Disk, parent: nat, dir: seq<nat>)
    requires ListedIn(g, d, parent, dir) && Formatted(g, d') && Chain(Fat(g, d'), dir)
    ensures ListedIn(g, d', parent, dir)
  {
  }

  lemma EmptyChain(g: Geometry, d: Disk, length: nat, ch: seq<nat>)
    requires FileOk(g, d, 0, length, ch)
    ensures ch == []
  {
  }

  /** The directory chain that lists a file: parent 0 is the root. */
  ghost predicate ListedIn(g: Geometry, d: Disk, parent: nat, dir: seq<nat>)
  {
    Formatted(g, d) && Chain(Fat(g, d), dir) && dir != [] && dir[0] == if parent == 0 then g.root else parent
  }

  lemma ListedFacts(g: Geometry, d: Disk, parent: nat, dir: seq<nat>)
    requires ListedIn(g, d, parent, dir)
    ensures Formatted(g, d) && Chain(Fat(g, d), dir) && OnVolume(g, dir) && dir != [] && dir[0] == (if parent == 0 then g.root else parent)
  {
    ChainOnVolume(g, d, dir);
  }

  lemma EmptyLength(g: Geometry, d: Disk, inode: nat, length: nat)
    requires FileOk(g, d, inode, length, [])
    ensures length == 0 && inode == 0
  {
    StartNext(g, 0);
  }

  lemma GrowingFacts(g: Geometry, d0: Disk, d: Disk, ch: seq<nat>, now: seq<nat>, dir: seq<nat>)
    requires Growing(g, d0, d, ch, now, dir)
    ensures Formatted(g, d0) && Formatted(g, d) && Chain(Fat(g, d), dir) && Apart(now, dir) && OnVolume(g, dir)
  {
    ChainOnVolume(g, d, dir);
  }

  /** The directory after an update of this name's entry, if it has one. */
  ghost function Relisted(w: seq<byte>, name: seq<byte>, size: nat, cluster: nat): seq<byte>
  {
    var j := Dir.Find(w, Canon83(name), false);
    if j < 0 then w else Dir.SetSlot(w, j, Dir.UpdatedSlot(Dir.SlotBytes(w, j), size, cluster))
  }

  lemma SliceConcat(w: seq<byte>, a: nat, b: nat, c: nat)
    requires a <= b <= c <= |w|
    ensures w[a..b] + w[b..c] == w[a..c]
  {
  }

  /** Bytes read so far, and n more from the sector they stop in. */
  lemma SliceMore(w: seq<byte>, off: nat, buf: seq<byte>, p: nat, sector: seq<byte>, at: nat, n: nat)
    requires p + SECTOR <= |w| && |sector| == SECTOR && sector == w[p..p + SECTOR] && at + n <= SECTOR
    requires off + |buf| == p + at && buf == w[off..off + |buf|]
    ensures buf + sector[at..at + n] == w[off..off + |buf| + n]
  {
    SliceOfSlice(w, p, SECTOR, at, n);
    SliceConcat(w, off, p + at, p + at + n);
  }

  lemma SearchAt(w: seq<byte>, target: seq<byte>, exact: bool, j: nat)
    requires |target| == Dir.NAME
    ensures j >= Dir.Slots(w) || Dir.First(w, j) == 0 ==> Dir.Search(w, target, exact, j) == -1
    ensures j < Dir.Slots(w) && Dir.First(w, j) != 0 && Dir.Hit(w, target, exact, j) ==> Dir.Search(w, target, exact, j) == j
  {
  }

  lemma OnlyClusterFacts(g: Geometry, d: Disk, d': Disk, c: nat)
    requires Formatted(g, d) && 2 <= c < Clusters(g) && OnlyCluster(g, d, d', c)
    ensures Formatted(g, d') && Fat(g, d') == Fat(g, d)
  {
  }

  lemma OnlyChainFacts(g: Geometry, d: Disk, d': Disk, ch: seq<nat>)
    requires Formatted(g, d) && OnlyChain(g, d, d', ch)
    ensures Formatted(g, d') && Fat(g, d') == Fat(g, d)
  {
  }

  lemma OnlyChainSame(g: Geometry, d: Disk, ch: seq<nat>)
    requires Formatted(g, d)
    ensures OnlyChain(g, d, d, ch)
  {
  }

  lemma SlotInSector(w: seq<byte>, p: nat, buf: seq<byte>, i: nat, j: int)
    requires p + SECTOR <= |w| && buf == w[p..p + SECTOR] && i < 16 && p + i * 32 == Dir.SLOT * j
    ensures 0 <= j < Dir.Slots(w) && Dir.SlotBytes(w, j) == buf[i * 32..i * 32 + 32]
  {
    SliceOfSlice(w, p, SECTOR, i * 32, 32);
  }

  lemma LinkDone(g: Geometry, d0: Disk, d1: Disk, d2: Disk, d3: Disk, last: nat, c: nat)
    requires Formatted(g, d0) && Formatted(g, d1) && Formatted(g, d2) && 2 <= c < Clusters(g) && last < Clusters(g)
    requires Fat(g, d1) == Fat(g, d0)[c := LAST] && Fat(g, d2) == Fat(g, d1)[last := c]
    requires SectorsKept(d0, d1, g.fatLba, g.dataLba) && SectorsKept(d1, d2, g.fatLba, g.dataLba)
    requires OnlyCluster(g, d2, d3, c) && AllZero(ClusterBytes(g, d3, c))
    ensures LinkedTo(g, d0, d3, last, c)
  {
    hide Formatted, Fat, ClusterBytes, SectorsKept;
    forall x | 2 <= x < Clusters(g) && x != c
      ensures ClusterBytes(g, d3, x) == ClusterBytes(g, d0, x)
    {
      TableWriteData(g, d0, d1, x);
      TableWriteData(g, d1, d2, x);
    }
  }

  lemma ClustersBelow(g: Geometry, d: Disk)
    requires Formatted(g, d)
    ensures Clusters(g) <= EOC
  {
  }

  lemma FreeAt(w: seq<byte>, b: nat, buf: seq<byte>, i: nat)
    requires Dir.Window(w, b, buf) && i < 16 && Dir.Slots(buf) == 16 && b + i < Dir.Slots(w)
    requires Dir.First(buf, i) == 0 || Dir.First(buf, i) == Dir.DELETED
    ensures Dir.FreeSlot(w, b + i) == b + i
  {
    assert Dir.First(w, b + i) == Dir.First(buf, i);
  }

  lemma FreeNone(w: seq<byte>, b: nat)
    requires b == Dir.Slots(w)
    ensures Dir.FreeSlot(w, b) == b
  {
  }

  /** The directory with room: w itself, or w and a zeroed cluster that was
      free when w had none. */
  ghost predicate DirRoom(g: Geometry, w: seq<byte>, fat: seq<nat>, ch: seq<nat>, ch': seq<nat>, w0: seq<byte>)
  {
    if ch' == ch then w0 == w else
    && |ch'| == |ch| + 1 && ch' == ch + [ch'[|ch|]] && 2 <= ch'[|ch|] < |fat| && fat[ch'[|ch|]] == 0
    && Dir.FreeSlot(w, 0) == Dir.Slots(w) && |w0| == |w| + ClusterSize(g) && w0[..|w|] == w && AllZero(w0[|w|..])
  }

  lemma NotGrown(g: Geometry, d: Disk, ch: seq<nat>)
    requires Formatted(g, d) && OnVolume(g, ch)
    ensures DirRoom(g, Whole(g, d, ch), Fat(g, d), ch, ch, Whole(g, d, ch)) && OthersKept(g, d, d, ch)
  {
    forall b | Chain(Fat(g, d), b) && Apart(b, ch)
      ensures OnVolume(g, b) && Kept(g, d, d, b)
    {
      ChainOnVolume(g, d, b);
    }
  }

  lemma DirGrown(g: Geometry, d: Disk, d': Disk, ch: seq<nat>, c: nat)
    requires Formatted(g, d) && Chain(Fat(g, d), ch) && OnVolume(g, ch) && ch != []
    requires LinkedTo(g, d, d', ch[|ch| - 1], c) && Fat(g, d)[c] == 0
    requires Dir.FreeSlot(Whole(g, d, ch), 0) == Dir.Slots(Whole(g, d, ch))
    ensures Formatted(g, d') && Chain(Fat(g, d'), ch + [c]) && OnVolume(g, ch + [c]) && OthersKept(g, d, d', ch)
    ensures var w0 := Whole(g, d', ch + [c]);
            && DirRoom(g, Whole(g, d, ch), Fat(g, d), ch, ch + [c], w0)
            && Dir.FreeSlot(w0, 0) < Dir.Slots(w0) && Dir.SLOT * Dir.FreeSlot(w0, 0) == Start(g, |ch|) && 0 < g.spc
  {
    var n, w, w0 := |ch|, Whole(g, d, ch), Whole(g, d', ch + [c]);
    assert ch[..n] == ch && 0 < g.spc;
    assert Start(g, n) % 512 == 0 && ClusterSize(g) % 512 == 0 by { StartSectors(g, n); }
    hide Formatted, Fat, Chain, Whole, Start, Dir.First, OthersKept;
    LinkedChain(g, d, d', ch, n, c);
    OthersUnderLink(g, d, d', ch, ch[n - 1], c);
    var z :| AllZero(z) && |z| == ClusterSize(g) && w0 == w[..Start(g, n)] + z;
    assert w0[..|w|] == w && w0[|w|..] == z;
    FreeBehind(w, z);
    assert w0 == w + z;
  }

  lemma StartSectors(g: Geometry, n: nat)
    ensures Start(g, n) % 512 == 0 && ClusterSize(g) % 512 == 0
  {
    assert Start(g, n) == (n * g.spc) * 512;
  }

  /** Behind a full directory the first free slot is the first zeroed one. */
  lemma FreeBehind(w: seq<byte>, z: seq<byte>)
    requires |w| % 512 == 0 && |z| % 512 == 0 && |z| > 0 && AllZero(z) && Dir.FreeSlot(w, 0) == Dir.Slots(w)
    ensures Dir.FreeSlot(w + z, 0) == Dir.Slots(w) < Dir.Slots(w + z) && Dir.SLOT * Dir.Slots(w) == |w|
  {
    hide Dir.First, Dir.Slots, Dir.FreeSlot;
    WholeSum(|w|, |z|);
    WholeSlots(w);
    WholeSlots(z);
    WholeSlots(w + z);
    Dir.GrownSlots(w, z);
    assert Dir.First(w + z, Dir.Slots(w)) == 0;
    forall i | 0 <= i < Dir.Slots(w)
      ensures Dir.First(w + z, i) == Dir.First(w, i)
    {
      assert Dir.SameSlot(w, w + z, i);
    }
  }

  lemma WholeSum(a: nat, b: nat)
    requires a % 512 == 0 && b % 512 == 0 && b > 0
    ensures (a + b) % 512 == 0 && b >= 512
  {
  }

  lemma WholeSlots(w: seq<byte>)
    requires |w| % 512 == 0
    ensures |w| % Dir.SLOT == 0 && Dir.SLOT * Dir.Slots(w) == |w|
  {
  }

  lemma ClusterInSector(w: seq<byte>, j: nat, buf: seq<byte>, i: nat, fc: nat)
    requires j < Dir.Slots(w) && i < 16 && |buf| == SECTOR && Dir.SlotBytes(w, j) == buf[i * 32..i * 32 + 32]
    requires fc == Get16(buf, i * 32 + 20) * 0x1_0000 + Get16(buf, i * 32 + 26)
    ensures fc == Dir.ClusterAt(w, j)
  {
    var t := buf[i * 32..i * 32 + 32];
    assert w[Dir.SLOT * j..Dir.SLOT * j + 32] == t;
    assert forall k :: 0 <= k < 32 ==> w[Dir.SLOT * j + k] == t[k] == buf[i * 32 + k];
  }

  /** Freeing a file's chain leaves every other chain and all data alone. */
  lemma FreedFile(g: Geometry, d: Disk, d': Disk, ch: seq<nat>, file: seq<nat>, fc: nat)
    requires Formatted(g, d) && Chain(Fat(g, d), ch) && Chain(Fat(g, d), file) && Apart(file, ch) && OnVolume(g, ch)
    requires Begins(file, fc)
    requires Formatted(g, d') && Fat(g, d') == Freed(Fat(g, d), fc) && SectorsKept(d, d', g.fatLba, g.dataLba)
    ensures Cleared(Fat(g, d), Fat(g, d'), file) && Chain(Fat(g, d'), ch) && Whole(g, d', ch) == Whole(g, d, ch)
    ensures OthersKept(g, d, d', file + ch)
  {
    ChainOnVolume(g, d, file);
    if file != [] {
      FreedFrom(Fat(g, d), Fat(g, d), file, 0);
      assert file[0..] == file;
    }
    hide Fat, Formatted, Freed, Whole, ClusterBytes;
    forall b | Chain(Fat(g, d), b) && Apart(b, file)
      ensures OnVolume(g, b) && Kept(g, d, d', b)
    {
      ChainOnVolume(g, d, b);
      ChainFrame(Fat(g, d), Fat(g, d'), b);
      forall i | 0 <= i < |b|
        ensures ClusterBytes(g, d', b[i]) == ClusterBytes(g, d, b[i])
      {
        TableWriteData(g, d, d', b[i]);
      }
      WholeFrame(g, d, d', b);
    }
    assert Apart(ch, file);
    assert Kept(g, d, d', ch);
  }

  lemma DeletedPut(w: seq<byte>, j: nat)
    requires j < Dir.Slots(w)
    ensures Put(w, Dir.SLOT * j, [Dir.DELETED]) == Dir.Deleted(w, j)
  {
  }

  lemma SectorsEnd(g: Geometry, q: nat)
    ensures Start(g, q) + g.spc * SECTOR == Start(g, q + 1)
  {
    StartNext(g, q);
  }

  /** How many bytes the driver sets out to read: cut off at the length, unless
      offset + size wraps around. */
  function ReadSize(length: nat, offset: nat, size: nat): nat
    requires offset <= length
  {
    if (offset + size) % WORD > length then length - offset else size
  }

  /** The read returns exactly what the file holds from offset on, up to size,
      unless the 32-bit sum wraps and the chain is longer than the file. */
  lemma ReadExactIff(length: nat, total: nat, offset: nat, size: nat)
    requires offset < length <= total <= WORD && size < WORD
    ensures Min(ReadSize(length, offset, size), total - offset) == Min(size, length - offset) <==> offset + size < WORD || length == total
  {
    if offset + size < WORD {
      SmallSum(offset + size);
    } else {
      assert (offset + size) % WORD == offset + size - WORD;
    }
  }

  lemma SmallSum(v: nat)
    requires v < WORD
    ensures v % WORD == v
  {
  }
}
