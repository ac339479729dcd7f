/** A mounted FAT32 volume at the level of sectors: where an allocation-table
    entry and a cluster's bytes lie, and what writing one sector changes. */
module FatVolume {
  import opened Bytes

  type Disk = seq<seq<byte>>

  const SECTOR: nat := 512
  const EOC: nat := 0x0FFF_FFF8       // this and above end a chain
  const LAST: nat := 0x0FFF_FFFF      // what the driver writes at the end
  const NIBBLE: nat := 0x1000_0000    // the top four bits of an entry are not its value

  /** fat32_mount_t. */
  datatype Geometry = Geometry(fatLba: nat, fatSectors: nat, dataLba: nat, spc: nat, root: nat)

  /** Entries in the table; every one has its cluster on the disk. */
  function Clusters(g: Geometry): nat
  {
    g.fatSectors * 128
  }

  function ClusterSize(g: Geometry): nat
  {
    g.spc * SECTOR
  }

  ghost predicate Sane(g: Geometry)
  {
    0 < g.spc < 256 && 0 < g.fatSectors && g.fatLba + g.fatSectors <= g.dataLba && Clusters(g) <= 0x0FFF_FFF8 && 2 <= g.root < Clusters(g)
  }

  ghost predicate Formatted(g: Geometry, d: Disk)
  {
    && Sane(g) && g.dataLba + (Clusters(g) - 2) * g.spc <= |d|
    && Sized(d)
  }

  predicate Sized(d: Disk)
  {
    forall s :: 0 <= s < |d| ==> |d[s]| == SECTOR
  }

  predicate HasTable(g: Geometry, d: Disk)
  {
    g.fatLba + g.fatSectors <= |d| && Sized(d)
  }

  /** fat32_cluster_to_lba. */
  function Lba(g: Geometry, c: nat): nat
    requires 2 <= c
  {
    g.dataLba + (c - 2) * g.spc
  }

  lemma LbaInDisk(g: Geometry, d: Disk, c: nat, s: nat)
    requires Formatted(g, d) && 2 <= c < Clusters(g) && s < g.spc
    ensures g.fatLba + g.fatSectors <= Lba(g, c) + s < |d|
  {
    hide Clusters;
    Multiply(0, c - 2, g.spc);
    Multiply(c - 2, c - 2, g.spc);
    Multiply(c - 1, Clusters(g) - 2, g.spc);
  }

  /** Every entry of the table has its cluster on the disk exactly when the last
      one has: a free entry behind that is handed out like any other, and names
      sectors that are not there. */
  lemma OnDiskIff(g: Geometry, d: Disk)
    requires 0 < g.spc && 0 < g.fatSectors
    ensures (forall c :: 2 <= c < Clusters(g) ==> OnDisk(g, d, c)) <==> g.dataLba + (Clusters(g) - 2) * g.spc <= |d|
  {
    var last := Clusters(g) - 1;
    Multiply(last - 2, last - 1, g.spc);
    forall c | 2 <= c < Clusters(g) && OnDisk(g, d, last)
      ensures OnDisk(g, d, c)
    {
      Multiply(c - 2, last - 2, g.spc);
    }
    assert OnDisk(g, d, last) <==> g.dataLba + (Clusters(g) - 2) * g.spc <= |d|;
  }

  predicate OnDisk(g: Geometry, d: Disk, c: nat)
    requires 2 <= c
  {
    Lba(g, c) + g.spc <= |d|
  }

  lemma Multiply(a: nat, b: nat, m: nat)
    requires a <= b
    ensures a * m <= b * m && a * m + m == (a + 1) * m
  {
  }

  /** Different cluster sectors are different disk sectors. */
  lemma LbaApart(g: Geometry, c: nat, s: nat, c': nat, s': nat)
    requires 2 <= c && 2 <= c' && s < g.spc && s' < g.spc && Lba(g, c) + s == Lba(g, c') + s'
    ensures c == c' && s == s'
  {
    if c < c' {
      Multiply(c - 1, c' - 2, g.spc);
      Multiply(c - 2, c' - 2, g.spc);
    } else if c' < c {
      Multiply(c' - 1, c - 2, g.spc);
      Multiply(c' - 2, c - 2, g.spc);
    }
  }

  // ----- The table

  /** Sector within the table, and byte within the sector, of entry c. */
  function TableSector(c: nat): nat { c * 4 / 512 }

  function TableOffset(c: nat): (r: nat)
    ensures r + 4 <= SECTOR && r % 4 == 0
  {
    c * 4 % 512
  }

  lemma TableSectorIn(g: Geometry, c: nat)
    requires c < Clusters(g)
    ensures TableSector(c) < g.fatSectors
  {
  }

  lemma TableApart(c: nat, c': nat)
    requires c != c'
    ensures TableSector(c) != TableSector(c') || TableOffset(c) != TableOffset(c')
  {
    assert c * 4 == 512 * TableSector(c) + TableOffset(c);
    assert c' * 4 == 512 * TableSector(c') + TableOffset(c');
  }

  /** The 32-bit word of entry c. */
  function Raw(g: Geometry, d: Disk, c: nat): (r: nat)
    requires c < Clusters(g) && HasTable(g, d)
    ensures r < WORD
  {
    TableSectorIn(g, c);
    Get32(d[g.fatLba + TableSector(c)], TableOffset(c))
  }

  /** Its low 28 bits. */
  function Entry(g: Geometry, d: Disk, c: nat): nat
    requires c < Clusters(g) && HasTable(g, d)
  {
    Raw(g, d, c) % NIBBLE
  }

  lemma TableInDisk(g: Geometry, d: Disk)
    requires Formatted(g, d)
    ensures g.dataLba <= |d| && HasTable(g, d)
  {
    assert (Clusters(g) - 2) * g.spc >= 0 by { Multiply(0, Clusters(g) - 2, g.spc); }
  }

  /** The whole table, as the chains see it. */
  ghost function Fat(g: Geometry, d: Disk): (r: seq<nat>)
    requires Formatted(g, d)
    ensures |r| == Clusters(g)
  {
    TableInDisk(g, d);
    seq(Clusters(g), c requires 0 <= c < Clusters(g) => Entry(g, d, c))
  }

  /** fat32_set_cluster: the top four bits stay. */
  function SetEntry(g: Geometry, d: Disk, c: nat, v: nat): Disk
    requires c < Clusters(g) && HasTable(g, d)
  {
    TableSectorIn(g, c);
    var at, off := g.fatLba + TableSector(c), TableOffset(c);
    var was := Get32(d[at], off);
    d[at := Put32(d[at], off, was - was % NIBBLE + v % NIBBLE)]
  }

  lemma NibbleKept(w: nat, v: nat)
    requires w < WORD
    ensures var r := w - w % NIBBLE + v % NIBBLE; r < WORD && r % WORD == r && r % NIBBLE == v % NIBBLE && r / NIBBLE == w / NIBBLE
  {
    var r := w - w % NIBBLE + v % NIBBLE;
    assert r == NIBBLE * (w / NIBBLE) + v % NIBBLE;
    assert w / NIBBLE < 16;
  }

  /** Where things lie: cluster 2 at the start of the data, the others behind it
      one after the other; entry c in bytes 4c to 4c + 3 of the table, of which
      the low 28 bits count. */
  lemma Layout(g: Geometry, d: Disk, c: nat)
    requires 2 <= c < Clusters(g) && HasTable(g, d)
    ensures Lba(g, 2) == g.dataLba && Lba(g, c + 1) == Lba(g, c) + g.spc && ClusterSize(g) == 512 * g.spc
    ensures 512 * TableSector(c) + TableOffset(c) == 4 * c && TableOffset(c) < 512 && TableSector(c) < g.fatSectors
    ensures Raw(g, d, c) == Get32(d[g.fatLba + TableSector(c)], TableOffset(c)) && Entry(g, d, c) == Raw(g, d, c) % 0x1000_0000
  {
    TableSectorIn(g, c);
    Multiply(c - 2, c - 1, g.spc);
  }

  /** What a disk keeps outside one stretch of sectors. */
  ghost predicate SectorsKept(d: Disk, d': Disk, lo: nat, hi: nat)
  {
    |d'| == |d| && forall s :: 0 <= s < |d| && !(lo <= s < hi) ==> d'[s] == d[s]
  }

  lemma SetEntryRaw(g: Geometry, d: Disk, c: nat, v: nat)
    requires Formatted(g, d) && c < Clusters(g)
    ensures HasTable(g, d) && Formatted(g, SetEntry(g, d, c, v)) && HasTable(g, SetEntry(g, d, c, v))
    ensures forall c' :: 0 <= c' < Clusters(g) ==>
              Raw(g, SetEntry(g, d, c, v), c') == if c' == c then Raw(g, d, c) - Raw(g, d, c) % NIBBLE + v % NIBBLE else Raw(g, d, c')
    ensures SectorsKept(d, SetEntry(g, d, c, v), g.fatLba, g.dataLba)
  {
    hide Get32, Put32, TableSector, TableOffset;
    TableInDisk(g, d);
    TableSectorIn(g, c);
    NibbleKept(Raw(g, d, c), v);
    var d' := SetEntry(g, d, c, v);
    assert Sized(d');
    forall c' | 0 <= c' < Clusters(g)
      ensures Raw(g, d', c') == if c' == c then Raw(g, d, c) - Raw(g, d, c) % NIBBLE + v % NIBBLE else Raw(g, d, c')
    {
      if c' != c {
        TableSectorIn(g, c');
        TableApart(c, c');
        if TableSector(c') == TableSector(c) {
          var at := g.fatLba + TableSector(c);
          EntryFrame(d[at], d'[at], TableOffset(c), TableOffset(c'));
        }
      }
    }
  }

  lemma EntryFrame(m: seq<byte>, m': seq<byte>, p: nat, q: nat)
    requires SameOutside(m, m', p, p + 4) && q + 4 <= |m| && p % 4 == 0 && q % 4 == 0
    ensures p != q ==> Get32(m', q) == Get32(m, q)
  {
  }

  /** Setting an entry sets that entry, its low 28 bits and no other; data
      sectors keep their bytes. */
  lemma SetEntryOk(g: Geometry, d: Disk, c: nat, v: nat)
    requires Formatted(g, d) && c < Clusters(g)
    ensures HasTable(g, d)
    ensures var d' := SetEntry(g, d, c, v);
            && Formatted(g, d') && HasTable(g, d') && Fat(g, d') == Fat(g, d)[c := v % NIBBLE]
            && Raw(g, d', c) / NIBBLE == Raw(g, d, c) / NIBBLE
            && SectorsKept(d, d', g.fatLba, g.dataLba)
  {
    hide Raw, SetEntry, Formatted, HasTable;
    SetEntryRaw(g, d, c, v);
    NibbleKept(Raw(g, d, c), v);
    var d' := SetEntry(g, d, c, v);
    assert forall c' :: 0 <= c' < Clusters(g) && c' != c ==> Entry(g, d', c') == Entry(g, d, c');
    assert Entry(g, d', c) == v % NIBBLE;
  }
}
