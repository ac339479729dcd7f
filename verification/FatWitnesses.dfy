/** One small disk on which the driver's failing cases are reached: a full
    directory, one free cluster, and a file whose last cluster is dirty behind
    the file's end. */
module FatWitnesses {
  import opened Bytes
  import opened FatVolume
  import opened FatChains
  import opened FatData
  import opened FatGrowth
  import opened FatNames
  import Dir = FatDirectory
  import opened Fat32

  const SMALL: Geometry := Geometry(0, 1, 1, 1, 2)
  const LETTER: byte := 65

  /** Every table entry ends a chain, but for entry 4, which is free. Clusters 2
      (the root directory) and 3 (a file) hold nothing but the letter A. */
  predicate Small(g: Geometry, d: Disk)
  {
    && g.fatLba == 0 && g.fatSectors == 1 && g.dataLba == 1 && g.spc == 1 && g.root == 2
    && |d| == 127 && Sized(d)
    && (forall i :: 0 <= i < |d[0]| ==> d[0][i] == if 16 <= i < 20 then 0 else 255)
    && (forall i :: 0 <= i < |d[1]| ==> d[1][i] == LETTER)
    && (forall i :: 0 <= i < |d[2]| ==> d[2][i] == LETTER)
  }

  method SmallDisk() returns (d: Disk)
    ensures Small(SMALL, d)
  {
    var letters: seq<byte> := seq(SECTOR, _ => LETTER);
    var table: seq<byte> := seq(SECTOR, i => if 16 <= i < 20 then 0 else 255);
    d := [table, letters, letters] + seq(124, _ => Zeros(SECTOR));
  }

  lemma SmallIsFormatted(g: Geometry, d: Disk)
    requires Small(g, d)
    ensures Formatted(g, d) && Clusters(g) == 128 && ClusterSize(g) == SECTOR
  {
  }

  lemma SmallEntry(g: Geometry, d: Disk, c: nat)
    requires Small(g, d) && c < 128
    ensures HasTable(g, d) && Entry(g, d, c) == if c == 4 then 0 else LAST
  {
    SmallIsFormatted(g, d);
    TableInDisk(g, d);
    hide Formatted;
    assert TableSector(c) == 0 && TableOffset(c) == 4 * c;
    assert Raw(g, d, c) == Number(d[0][4 * c], d[0][4 * c + 1], d[0][4 * c + 2], d[0][4 * c + 3]);
  }

  lemma SmallTable(g: Geometry, d: Disk)
    requires Small(g, d)
    ensures Formatted(g, d) && |Fat(g, d)| == 128
    ensures forall c :: 0 <= c < 128 ==> Fat(g, d)[c] == if c == 4 then 0 else LAST
  {
    SmallIsFormatted(g, d);
    hide Formatted, Entry;
    forall c | 0 <= c < 128
      ensures Fat(g, d)[c] == if c == 4 then 0 else LAST
    {
      SmallEntry(g, d, c);
    }
  }

  lemma OneIsFree(g: Geometry, d: Disk)
    requires Small(g, d)
    ensures Formatted(g, d) && FreeIn(Fat(g, d)) == 1
  {
    SmallTable(g, d);
    hide Fat;
    assert Unused(Fat(g, d)) == {4};
  }

  lemma OneClusterChain(g: Geometry, d: Disk, c: nat)
    requires Small(g, d) && (c == 2 || c == 3)
    ensures Formatted(g, d) && Chain(Fat(g, d), [c]) && OnVolume(g, [c])
    ensures var w := Whole(g, d, [c]); |w| == SECTOR && forall i :: 0 <= i < SECTOR ==> w[i] == LETTER
  {
    SmallTable(g, d);
    SmallIsFormatted(g, d);
    OneSector(g, d, c);
    WholeOne(g, d, c);
    hide Formatted, Fat, ClusterBytes, Whole;
  }

  lemma WholeOne(g: Geometry, d: Disk, c: nat)
    requires Formatted(g, d) && 2 <= c < Clusters(g)
    ensures OnVolume(g, [c]) && Whole(g, d, [c]) == ClusterBytes(g, d, c)
  {
    hide ClusterBytes, Formatted, Start, Clusters;
    assert [c][..0] == [];
    assert Whole(g, d, [c]) == Whole(g, d, []) + ClusterBytes(g, d, c);
  }

  lemma OneSector(g: Geometry, d: Disk, c: nat)
    requires Small(g, d) && (c == 2 || c == 3)
    ensures Formatted(g, d) && ClusterBytes(g, d, c) == d[c - 1]
  {
    SmallIsFormatted(g, d);
    hide Formatted, Clusters;
    assert SectorsFrom(g, d, c, 1) == [];
    assert SectorsFrom(g, d, c, 0) == d[Lba(g, c) + 0] + SectorsFrom(g, d, c, 1);
  }

  /** The root directory is full. It has an entry named by eleven A and none
      named NEW. */
  const THERE: seq<byte> := [65, 65, 65, 65, 65, 65, 65, 65, 46, 65, 65, 65]
  const NEW: seq<byte> := [78, 69, 87]

  lemma SmallDirectory(g: Geometry, d: Disk)
    requires Small(g, d)
    ensures Formatted(g, d) && OnVolume(g, [2])
    ensures var w := Whole(g, d, [2]);
            && Dir.FreeSlot(w, 0) == Dir.Slots(w) && Dir.Find(w, Canon83(NEW), false) < 0 && Dir.Find(w, Canon83(THERE), false) >= 0
  {
    OneClusterChain(g, d, 2);
    hide Formatted, Fat, Whole;
    var w := Whole(g, d, [2]);
    assert Dir.Slots(w) == 16;
    assert forall j :: 0 <= j < 16 ==> Dir.First(w, j) == LETTER;
    FullOfLetters(w);
    NewName();
    OldName();
  }

  lemma FullOfLetters(w: seq<byte>)
    requires |w| == SECTOR && forall i :: 0 <= i < SECTOR ==> w[i] == LETTER
    ensures Dir.FreeSlot(w, 0) == Dir.Slots(w)
    ensures forall target :: |target| == Dir.NAME && target[0] == 78 ==> Dir.Find(w, target, false) < 0
    ensures forall target :: |target| == Dir.NAME && (forall i :: 0 <= i < Dir.NAME ==> target[i] == LETTER) ==> Dir.Find(w, target, false) >= 0
  {
    assert Dir.Slots(w) == 16 && forall j :: 0 <= j < 16 ==> Dir.First(w, j) == LETTER;
    forall target | |target| == Dir.NAME && target[0] == 78
      ensures Dir.Find(w, target, false) < 0
    {
      var j := Dir.Find(w, target, false);
      assert j >= 0 ==> Dir.Upper(Dir.NameAt(w, j)[0]) == Dir.Upper(target[0]);
    }
    forall target | |target| == Dir.NAME && (forall i :: 0 <= i < Dir.NAME ==> target[i] == LETTER)
      ensures Dir.Find(w, target, false) >= 0
    {
      assert Dir.Hit(w, target, false, 0);
    }
  }

  lemma NewName()
    ensures Canon83(NEW)[0] == 78
  {
    DotIs(NEW, 3);
  }

  lemma OldName()
    ensures forall i :: 0 <= i < Dir.NAME ==> Canon83(THERE)[i] == LETTER
  {
    DotIs(THERE, 8);
  }

  /** mkdir in the full directory with one cluster left: the cluster is marked
      and the folder is nowhere. */
  method MkdirLoses() returns (vol: Fat32, c: nat)
    ensures fresh(vol) && vol.Valid() && c != 0 && FreeIn(vol.Table()) == 0
    ensures OnVolume(vol.g, [2]) && Dir.Find(Whole(vol.g, vol.disk, [2]), Canon83(NEW), false) < 0 && Chain(vol.Table(), [2]) && Chain(vol.Table(), [c]) && c != 2
  {
    hide Small, Formatted, Fat, Chain, Whole, Dir.Find, Dir.FreeSlot, Canon83, FreeIn;
    var d := SmallDisk();
    SmallIsFormatted(SMALL, d);
    OneIsFree(SMALL, d);
    OneClusterChain(SMALL, d, 2);
    SmallDirectory(SMALL, d);
    vol := new Fat32(SMALL, d);
    var r; ghost var ch, w;
    r, c, ch, w := vol.MakeDirectory(0, NEW, [2]);
  }

  /** A write that ends in the last cluster below 4 GiB: the length is set, but
      no cluster is taken, and the file is longer than its chain. */
  method NearFourGiB() returns (vol: Fat32, node: Node, n: nat)
    ensures fresh(vol) && fresh(node) && !FileOk(vol.g, vol.disk, node.inode, node.length, [3])
  {
    hide Small, Formatted, Fat, Chain, Whole, Dir.Find, Canon83, FreeIn, Growing, KeepsLive, Extra, Behind, Relists, ListsAs, Updated;
    var d := SmallDisk();
    SmallIsFormatted(SMALL, d);
    OneClusterChain(SMALL, d, 2);
    OneClusterChain(SMALL, d, 3);
    vol := new Fat32(SMALL, d);
    node := new Node(3, 1, 0, THERE);
    var r; ghost var now;
    NoExtraNear(SMALL);
    n, r, now := vol.WriteFile(node, WORD - 2, [1], [3], [2]);
  }

  lemma NoExtraNear(g: Geometry)
    requires ClusterSize(g) == SECTOR
    ensures Extra(g, 1, WORD - 1) == 0 && Start(g, 1) == SECTOR
  {
    hide ClusterSize;
    assert (WORD - 1 + SECTOR - 1) % WORD == SECTOR - 2;
  }

  /** A file of one A with more of them behind its end: written at byte 3, it
      shows two of them in the gap. */
  method GapShowsSlack() returns (vol: Fat32, node: Node, ghost now: seq<nat>)
    ensures fresh(vol) && fresh(node) && FileOk(vol.g, vol.disk, node.inode, node.length, now)
    ensures !Overwritten([LETTER], Contents(vol.g, vol.disk, node.inode, node.length, now), 3, [7])
  {
    hide Small, Formatted, Fat, Chain, Whole, Dir.Find, Canon83, FreeIn, Growing, KeepsLive, Extra, Behind, Relists, ListsAs, Updated, Contents, Before, GapIsZero, Overwritten;
    var d := SmallDisk();
    SmallIsFormatted(SMALL, d);
    OneClusterChain(SMALL, d, 2);
    OneClusterChain(SMALL, d, 3);
    SmallDirectory(SMALL, d);
    NoExtraShort(SMALL);
    vol := new Fat32(SMALL, d);
    node := new Node(3, 1, 0, THERE);
    var n, r;
    n, r, now := vol.WriteFile(node, 3, [7], [3], [2]);
    var f0, f := File(3, 1, [3]), File(node.inode, node.length, now);
    UpdatedFacts(SMALL, d, f0, vol.disk, f, 3, [7], true);
    WriteLaw(SMALL, d, f0, vol.disk, f, 3, [7]);
    DirtyGap(SMALL, d);
  }

  lemma NoExtraShort(g: Geometry)
    requires ClusterSize(g) == SECTOR
    ensures Extra(g, 1, 4) == 0 && Extra(g, 0, 2) == 1 && Start(g, 1) == SECTOR && Needed(g, 1) == 1
  {
    hide ClusterSize;
  }

  lemma DirtyGap(g: Geometry, d: Disk)
    requires Small(g, d)
    ensures FileOk(g, d, 3, 1, [3]) && Contents(g, d, 3, 1, [3]) == [LETTER] && !GapIsZero(Before(g, d, 3, 1, [3], 4), 1, 3)
  {
    SmallIsFormatted(g, d);
    OneClusterChain(g, d, 3);
    NoExtraShort(g);
    hide Small, Formatted, Fat, Whole, ClusterSize;
    var w := Whole(g, d, [3]);
    assert Before(g, d, 3, 1, [3], 4) == w[..SECTOR] && w[..SECTOR][1] == LETTER;
    assert w[..1] == [LETTER];
  }

  /** An empty file of the directory gets two bytes and is read too far. */
  method ReadsTooFar() returns (vol: Fat32, node: Node, buf: seq<byte>)
    ensures fresh(vol) && fresh(node) && node.length == 2 && |buf| > 1
  {
    hide Small, Formatted, Fat, Chain, Whole, Dir.Find, Canon83, FreeIn;
    var d := SmallDisk();
    SmallIsFormatted(SMALL, d);
    OneClusterChain(SMALL, d, 2);
    SmallDirectory(SMALL, d);
    OneIsFree(SMALL, d);
    NoFile(SMALL, d);
    vol := new Fat32(SMALL, d);
    node := new Node(0, 0, 0, THERE);
    buf := vol.ReadTooMuch(node, [2]);
  }

  lemma NoFile(g: Geometry, d: Disk)
    requires Formatted(g, d)
    ensures FileOk(g, d, 0, 0, [])
  {
  }
}
