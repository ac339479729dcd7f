/** A FAT32 directory as the bytes of its chain: 32-byte slots, searched until
    the first slot that starts with zero. */
module FatDirectory {
  import opened Bytes

  const SLOT: nat := 32
  const DELETED: byte := 0xE5
  const LFN: byte := 0x0F
  const NAME: nat := 11

  function Slots(w: seq<byte>): nat { |w| / SLOT }

  function First(w: seq<byte>, j: nat): byte
    requires j < Slots(w)
  {
    w[SLOT * j]
  }

  function NameAt(w: seq<byte>, j: nat): (r: seq<byte>)
    requires j < Slots(w)
    ensures |r| == NAME && r[0] == First(w, j)
  {
    w[SLOT * j..SLOT * j + NAME]
  }

  function Attr(w: seq<byte>, j: nat): byte
    requires j < Slots(w)
  {
    w[SLOT * j + 11]
  }

  /** cluster_hi at 20, cluster_lo at 26, size at 28. */
  function ClusterAt(w: seq<byte>, j: nat): nat
    requires j < Slots(w)
  {
    Get16(w, SLOT * j + 20) * 0x1_0000 + Get16(w, SLOT * j + 26)
  }

  function SizeAt(w: seq<byte>, j: nat): nat
    requires j < Slots(w)
  {
    Get32(w, SLOT * j + 28)
  }

  function Upper(c: byte): byte
  {
    if 'a' as int <= c <= 'z' as int then c - 32 else c
  }

  /** Equal names, or for find and update equal names but for case. */
  predicate Matches(name: seq<byte>, target: seq<byte>, exact: bool)
    requires |name| == |target|
  {
    forall i :: 0 <= i < |name| ==> if exact then name[i] == target[i] else Upper(name[i]) == Upper(target[i])
  }

  predicate Hit(w: seq<byte>, target: seq<byte>, exact: bool, j: nat)
    requires j < Slots(w) && |target| == NAME
  {
    First(w, j) != 0 && First(w, j) != DELETED && Attr(w, j) != LFN && Matches(NameAt(w, j), target, exact)
  }

  /** The fields of slot j, byte by byte. */
  lemma SlotLayout(w: seq<byte>, j: nat)
    requires j < Slots(w)
    ensures 32 * j + 32 <= |w| && First(w, j) == w[32 * j] && NameAt(w, j) == w[32 * j..32 * j + 11] && Attr(w, j) == w[32 * j + 11]
    ensures ClusterAt(w, j) == LowFirst(w[32 * j + 26], w[32 * j + 27], w[32 * j + 20], w[32 * j + 21])
    ensures SizeAt(w, j) == LowFirst(w[32 * j + 28], w[32 * j + 29], w[32 * j + 30], w[32 * j + 31])
    ensures Deleted(w, j) == w[32 * j := 0xE5]
  {
  }

  /** A search stops at a slot that is in use, no part of a long name, and has
      the eleven bytes of the name, or the same letters. */
  lemma HitMeans(w: seq<byte>, target: seq<byte>, exact: bool, j: nat)
    requires j < Slots(w) && |target| == NAME
    ensures Hit(w, target, exact, j) <==>
              && w[32 * j] != 0 && w[32 * j] != 0xE5 && w[32 * j + 11] != 0x0F
              && forall i :: 0 <= i < 11 ==> w[32 * j + i] == target[i] || (!exact && SameLetter(w[32 * j + i], target[i]))
  {
    var name := NameAt(w, j);
    assert forall i :: 0 <= i < 11 ==> name[i] == w[32 * j + i];
    assert forall a, b :: Upper(a) == Upper(b) <==> a == b || SameLetter(a, b);
  }

  predicate SameLetter(a: byte, b: byte)
  {
    (97 <= a <= 122 && b == a - 32) || (97 <= b <= 122 && a == b - 32)
  }

  /** The slot the driver finds from slot j on, -1 for none. */
  function Search(w: seq<byte>, target: seq<byte>, exact: bool, j: nat): (r: int)
    requires |target| == NAME
    ensures -1 <= r < Slots(w)
    ensures r >= 0 ==> j <= r && Hit(w, target, exact, r)
    decreases Slots(w) - j
  {
    if j >= Slots(w) || First(w, j) == 0 then -1
    else if Hit(w, target, exact, j) then j
    else Search(w, target, exact, j + 1)
  }

  function Find(w: seq<byte>, target: seq<byte>, exact: bool): (r: int)
    requires |target| == NAME
    ensures -1 <= r < Slots(w) && (r >= 0 ==> Hit(w, target, exact, r))
  {
    Search(w, target, exact, 0)
  }

  /** The first slot add_dirent may use, Slots(w) for none. */
  function FreeSlot(w: seq<byte>, j: nat): (r: nat)
    requires j <= Slots(w)
    ensures j <= r <= Slots(w) && (r < Slots(w) ==> First(w, r) == 0 || First(w, r) == DELETED)
    ensures forall i :: j <= i < r ==> First(w, i) != 0 && First(w, i) != DELETED
    decreases Slots(w) - j
  {
    if j == Slots(w) || First(w, j) == 0 || First(w, j) == DELETED then j else FreeSlot(w, j + 1)
  }

  // ----- Invariants

  /** Behind the first unused slot all slots are unused. */
  ghost predicate ZeroTail(w: seq<byte>)
  {
    |w| % SLOT == 0 && forall i, j :: 0 <= i < j < Slots(w) && First(w, i) == 0 ==> First(w, j) == 0
  }

  /** No name is there twice. */
  ghost predicate Unique(w: seq<byte>, exact: bool)
  {
    forall target, i, j :: |target| == NAME && 0 <= i < j < Slots(w) ==> !(Hit(w, target, exact, i) && Hit(w, target, exact, j))
  }

  // ----- Where a search ends

  lemma {:induction false} SearchFinds(w: seq<byte>, target: seq<byte>, exact: bool, k: nat, j: nat)
    requires |target| == NAME && k <= j < Slots(w) && Hit(w, target, exact, j)
    requires forall i :: k <= i < j ==> First(w, i) != 0 && !Hit(w, target, exact, i)
    ensures Search(w, target, exact, k) == j
    decreases j - k
  {
    if k < j {
      SearchFinds(w, target, exact, k + 1, j);
    }
  }

  lemma {:induction false} SearchMisses(w: seq<byte>, target: seq<byte>, exact: bool, k: nat, m: nat)
    requires |target| == NAME && k <= m <= Slots(w) && (m < Slots(w) ==> First(w, m) == 0)
    requires forall i :: k <= i < m ==> !Hit(w, target, exact, i)
    ensures Search(w, target, exact, k) == -1
    decreases m - k
  {
    if k < m {
      SearchMisses(w, target, exact, k + 1, m);
    }
  }

  /** Under ZeroTail a search finds the first hit there is. */
  lemma {:induction false} SearchMeans(w: seq<byte>, target: seq<byte>, exact: bool, k: nat)
    requires |target| == NAME && ZeroTail(w)
    ensures var r := Search(w, target, exact, k);
            && (r >= 0 ==> forall i :: k <= i < r ==> !Hit(w, target, exact, i))
            && (r == -1 ==> forall i :: k <= i < Slots(w) ==> !Hit(w, target, exact, i))
    decreases Slots(w) - k
  {
    if k < Slots(w) && First(w, k) != 0 && !Hit(w, target, exact, k) {
      SearchMeans(w, target, exact, k + 1);
    }
  }

  lemma SearchIsFirstHit(w: seq<byte>, target: seq<byte>, exact: bool, j: nat)
    requires |target| == NAME && ZeroTail(w) && j < Slots(w) && Hit(w, target, exact, j)
    requires forall i :: 0 <= i < j ==> !Hit(w, target, exact, i)
    ensures Find(w, target, exact) == j
  {
    SearchFinds(w, target, exact, 0, j);
  }

  lemma SearchIsNone(w: seq<byte>, target: seq<byte>, exact: bool)
    requires |target| == NAME && forall i :: 0 <= i < Slots(w) ==> !Hit(w, target, exact, i)
    ensures Find(w, target, exact) == -1
  {
    SearchMisses(w, target, exact, 0, Slots(w));
  }

  // ----- Changing one slot

  function SetSlot(w: seq<byte>, j: nat, slot: seq<byte>): (r: seq<byte>)
    requires j < Slots(w) && |slot| == SLOT
    ensures |r| == |w|
  {
    Put(w, SLOT * j, slot)
  }

  lemma SlotFrame(w: seq<byte>, j: nat, slot: seq<byte>, i: nat)
    requires j < Slots(w) && |slot| == SLOT && i < Slots(w) && i != j
    ensures var w' := SetSlot(w, j, slot);
            && Slots(w') == Slots(w) && First(w', i) == First(w, i) && NameAt(w', i) == NameAt(w, i) && Attr(w', i) == Attr(w, i)
            && ClusterAt(w', i) == ClusterAt(w, i) && SizeAt(w', i) == SizeAt(w, i)
  {
  }

  lemma SlotIs(w: seq<byte>, j: nat, slot: seq<byte>)
    requires j < Slots(w) && |slot| == SLOT
    ensures var w' := SetSlot(w, j, slot);
            && Slots(w') == Slots(w) && First(w', j) == slot[0] && NameAt(w', j) == slot[..NAME] && Attr(w', j) == slot[11]
            && ClusterAt(w', j) == Get16(slot, 20) * 0x1_0000 + Get16(slot, 26) && SizeAt(w', j) == Get32(slot, 28)
  {
  }

  /** What add_dirent writes. */
  function NewSlot(name: seq<byte>, attr: byte, cluster: nat, size: nat): (r: seq<byte>)
    requires |name| == NAME
    ensures |r| == SLOT && r[..NAME] == name && r[11] == attr
    ensures cluster < WORD ==> Get16(r, 20) * 0x1_0000 + Get16(r, 26) == cluster
    ensures size < WORD ==> Get32(r, 28) == size
  {
    var r := name + [attr] + [0, 0, 0, 0, 0, 0, 0, 0] + Bytes16(cluster / 0x1_0000) + [0, 0, 0, 0] + Bytes16(cluster) + Bytes32(size);
    Digits(size);
    Shorts(cluster);
    assert r[20..22] == Bytes16(cluster / 0x1_0000) && r[26..28] == Bytes16(cluster) && r[28..32] == Bytes32(size);
    r
  }

  lemma Shorts(v: nat)
    ensures var a, b := Bytes16(v / 0x1_0000), Bytes16(v);
            v < WORD ==> Number(a[0], a[1], 0, 0) * 0x1_0000 + Number(b[0], b[1], 0, 0) == v
  {
    var h := v / 0x1_0000;
    ShortIs(h);
    ShortIs(v);
    if v < WORD {
      assert h < 0x1_0000 && h % 0x1_0000 == h;
      assert v == h * 0x1_0000 + v % 0x1_0000;
    }
  }

  lemma ShortIs(v: nat)
    ensures Number(Bytes16(v)[0], Bytes16(v)[1], 0, 0) == v % 0x1_0000
  {
    var q, r := v / 0x1_0000, v % 0x1_0000;
    var a, b := r / 256, r % 256;
    ByteSplit(v, 256 * q + a, b);
    ByteSplit(256 * q + a, q, a);
  }

  lemma ByteSplit(x: nat, q: nat, r: nat)
    requires x == 256 * q + r && r < 256
    ensures x / 256 == q && x % 256 == r
  {
  }

  /** Two directories agree on what slot i says. */
  ghost predicate SameSlot(w: seq<byte>, w': seq<byte>, i: nat)
    requires i < Slots(w) && i < Slots(w')
  {
    First(w', i) == First(w, i) && NameAt(w', i) == NameAt(w, i) && Attr(w', i) == Attr(w, i)
  }

  /** Only slot j differs. */
  ghost predicate SameBut(w: seq<byte>, w': seq<byte>, j: nat)
  {
    Slots(w') == Slots(w) && forall i :: 0 <= i < Slots(w) && i != j ==> SameSlot(w, w', i)
  }

  /** Only slot j may say something else about cluster and size. */
  ghost predicate SameFields(w: seq<byte>, w': seq<byte>, j: int)
  {
    && Slots(w) <= Slots(w')
    && forall i :: 0 <= i < Slots(w) && i != j ==> ClusterAt(w', i) == ClusterAt(w, i) && SizeAt(w', i) == SizeAt(w, i)
  }

  /** A name leads to the same slot, and that says the same, or still nowhere. */
  ghost predicate SameEntry(w: seq<byte>, w': seq<byte>, target: seq<byte>, exact: bool)
    requires |target| == NAME
  {
    var i := Find(w, target, exact);
    && Find(w', target, exact) == i
    && (i >= 0 ==> NameAt(w', i) == NameAt(w, i) && Attr(w', i) == Attr(w, i) && ClusterAt(w', i) == ClusterAt(w, i) && SizeAt(w', i) == SizeAt(w, i))
  }

  lemma SetSlotSame(w: seq<byte>, j: nat, slot: seq<byte>)
    requires j < Slots(w) && |slot| == SLOT
    ensures SameBut(w, SetSlot(w, j, slot), j) && SameFields(w, SetSlot(w, j, slot), j)
  {
    forall i | 0 <= i < Slots(w) && i != j
      ensures SameSlot(w, SetSlot(w, j, slot), i) && ClusterAt(SetSlot(w, j, slot), i) == ClusterAt(w, i) && SizeAt(SetSlot(w, j, slot), i) == SizeAt(w, i)
    {
      SlotFrame(w, j, slot, i);
    }
  }

  // ----- Adding

  predicate PlainName(name: seq<byte>)
  {
    |name| == NAME && name[0] != 0 && name[0] != DELETED
  }

  /** The directory after add_dirent used slot j. */
  ghost predicate Added(w: seq<byte>, w': seq<byte>, j: nat, name: seq<byte>)
  {
    && |name| == NAME && |w'| == |w| && j < Slots(w) && SameBut(w, w', j) && j == FreeSlot(w, 0)
    && NameAt(w', j) == name && Attr(w', j) != LFN
  }

  lemma SameHit(w: seq<byte>, w': seq<byte>, target: seq<byte>, exact: bool, i: nat)
    requires i < Slots(w) && i < Slots(w') && SameSlot(w, w', i) && |target| == NAME
    ensures Hit(w', target, exact, i) <==> Hit(w, target, exact, i)
  {
    hide First, NameAt, Attr, Slots;
  }

  lemma AddKeepsTail(w: seq<byte>, w': seq<byte>, j: nat, name: seq<byte>)
    requires ZeroTail(w) && Added(w, w', j, name) && name[0] != 0
    ensures ZeroTail(w')
  {
    assert First(w', j) == name[0];
    hide First, NameAt, Attr, Slots;
    forall a, b | 0 <= a < b < Slots(w') && First(w', a) == 0
      ensures First(w', b) == 0
    {
      assert SameSlot(w, w', a);
      assert b == j || SameSlot(w, w', b);
    }
  }

  /** A name that was not there is found where it was added. */
  lemma AddedIsFound(w: seq<byte>, w': seq<byte>, j: nat, name: seq<byte>, exact: bool)
    requires ZeroTail(w) && Added(w, w', j, name) && PlainName(name) && Find(w, name, exact) == -1
    ensures Find(w', name, exact) == j
  {
    hide First, NameAt, Attr, Slots, Search;
    AddKeepsTail(w, w', j, name);
    SearchMeans(w, name, exact, 0);
    assert Hit(w', name, exact, j);
    forall i | 0 <= i < j
      ensures !Hit(w', name, exact, i)
    {
      SameHit(w, w', name, exact, i);
    }
    SearchIsFirstHit(w', name, exact, j);
  }

  /** Same hits, same result. */
  lemma SameFind(w: seq<byte>, w': seq<byte>, target: seq<byte>, exact: bool)
    requires |target| == NAME && ZeroTail(w) && ZeroTail(w') && Slots(w) <= Slots(w')
    requires forall i :: 0 <= i < Slots(w) ==> (Hit(w', target, exact, i) <==> Hit(w, target, exact, i))
    requires forall i :: Slots(w) <= i < Slots(w') ==> !Hit(w', target, exact, i)
    ensures Find(w', target, exact) == Find(w, target, exact)
  {
    hide First, NameAt, Attr, Slots, Search, Hit;
    SearchMeans(w, target, exact, 0);
    var r := Find(w, target, exact);
    if r >= 0 {
      SearchIsFirstHit(w', target, exact, r);
    } else {
      SearchIsNone(w', target, exact);
    }
  }

  /** Every other name is found where it was, or still not found. */
  lemma AddKeepsOthers(w: seq<byte>, w': seq<byte>, j: nat, name: seq<byte>, other: seq<byte>, exact: bool)
    requires ZeroTail(w) && Added(w, w', j, name) && name[0] != 0
    requires |other| == NAME && (name[0] == DELETED || !Matches(name, other, exact))
    ensures Find(w', other, exact) == Find(w, other, exact) && Find(w, other, exact) != j
  {
    AddKeepsTail(w, w', j, name);
    assert First(w', j) == name[0];
    hide First, NameAt, Attr, Slots, Search, Matches;
    forall i | 0 <= i < Slots(w)
      ensures Hit(w', other, exact, i) <==> Hit(w, other, exact, i)
    {
      if i != j {
        SameHit(w, w', other, exact, i);
      }
    }
    SameFind(w, w', other, exact);
  }

  lemma AddKeepsUnique(w: seq<byte>, w': seq<byte>, j: nat, name: seq<byte>, exact: bool)
    requires ZeroTail(w) && Unique(w, exact) && Added(w, w', j, name) && name[0] != 0 && Find(w, name, exact) == -1
    ensures Unique(w', exact)
  {
    SearchMeans(w, name, exact, 0);
    hide First, NameAt, Attr, Slots, Search;
    forall target, a, b | |target| == NAME && 0 <= a < b < Slots(w')
      ensures !(Hit(w', target, exact, a) && Hit(w', target, exact, b))
    {
      if a == j {
        SameHit(w, w', target, exact, b);
        SameHit(w, w', name, exact, b);
      } else if b == j {
        SameHit(w, w', target, exact, a);
        SameHit(w, w', name, exact, a);
      } else {
        SameHit(w, w', target, exact, a);
        SameHit(w, w', target, exact, b);
      }
    }
  }

  // ----- Deleting

  /** The first byte of slot j becomes 0xE5. */
  function Deleted(w: seq<byte>, j: nat): seq<byte>
    requires j < Slots(w)
  {
    w[SLOT * j := DELETED]
  }

  lemma DeletedSame(w: seq<byte>, j: nat)
    requires j < Slots(w)
    ensures SameBut(w, Deleted(w, j), j) && First(Deleted(w, j), j) == DELETED && |Deleted(w, j)| == |w|
    ensures SameFields(w, Deleted(w, j), j)
  {
    forall i | 0 <= i < Slots(w) && i != j
      ensures SameSlot(w, Deleted(w, j), i) && ClusterAt(Deleted(w, j), i) == ClusterAt(w, i) && SizeAt(Deleted(w, j), i) == SizeAt(w, i)
    {
    }
  }

  lemma DeletedTail(w: seq<byte>, w': seq<byte>, j: nat)
    requires ZeroTail(w) && j < Slots(w) && First(w, j) != 0 && |w'| == |w| && SameBut(w, w', j) && First(w', j) != 0
    ensures ZeroTail(w')
  {
    hide First, NameAt, Attr;
    forall a, b | 0 <= a < b < Slots(w') && First(w', a) == 0
      ensures First(w', b) == 0
    {
      assert SameSlot(w, w', a);
      assert b == j || SameSlot(w, w', b);
    }
  }

  /** What deleting the entry of a name does to searches: the name is found no
      more unless it was there twice, and every other name is found as before. */
  ghost predicate DeleteLaw(w: seq<byte>, w': seq<byte>, name: seq<byte>, exact: bool)
    requires |name| == NAME
  {
    var j := Find(w, name, true);
    j >= 0 && ZeroTail(w) ==>
      && ZeroTail(w')
      && (Find(w', name, exact) == -1 <==> forall i :: 0 <= i < Slots(w) && i != j ==> !Hit(w, name, exact, i))
      && (Unique(w, exact) ==> Unique(w', exact))
      && forall other :: |other| == NAME && !Matches(NameAt(w, j), other, exact) ==> SameEntry(w, w', other, exact)
  }

  lemma DeletedHit(w: seq<byte>, j: nat, t: seq<byte>, exact: bool, i: nat)
    requires j < Slots(w) && |t| == NAME && i < Slots(w)
    ensures Slots(Deleted(w, j)) == Slots(w) && (Hit(Deleted(w, j), t, exact, i) <==> i != j && Hit(w, t, exact, i))
  {
    DeletedSame(w, j);
    hide NameAt, Attr, Slots, Deleted, Matches;
    if i != j {
      SameHit(w, Deleted(w, j), t, exact, i);
    }
  }

  lemma DeletedLaw(w: seq<byte>, name: seq<byte>, exact: bool)
    requires |name| == NAME && Find(w, name, true) >= 0
    ensures DeleteLaw(w, Deleted(w, Find(w, name, true)), name, exact)
  {
    if ZeroTail(w) {
      var j := Find(w, name, true);
      var w' := Deleted(w, j);
      DeletedSame(w, j);
      assert |w'| == |w| && Slots(w') == Slots(w) && First(w, j) != 0;
      hide First, NameAt, Attr, Slots, Search, Deleted, Matches, ClusterAt, SizeAt, Hit;
      DeletedTail(w, w', j);
      forall t, i | |t| == NAME && 0 <= i < Slots(w)
        ensures Hit(w', t, exact, i) <==> i != j && Hit(w, t, exact, i)
      {
        DeletedHit(w, j, t, exact, i);
      }
      SearchMeans(w', name, exact, 0);
      forall other | |other| == NAME && !Matches(NameAt(w, j), other, exact)
        ensures SameEntry(w, w', other, exact)
      {
        DeletedOther(w, j, other, exact);
      }
    }
  }

  lemma DeletedOther(w: seq<byte>, j: nat, other: seq<byte>, exact: bool)
    requires j < Slots(w) && ZeroTail(w) && First(w, j) != 0 && |other| == NAME && !Matches(NameAt(w, j), other, exact)
    ensures SameEntry(w, Deleted(w, j), other, exact)
  {
    var w' := Deleted(w, j);
    DeletedSame(w, j);
    assert |w'| == |w| && Slots(w') == Slots(w) && !Hit(w, other, exact, j);
    hide First, NameAt, Attr, Slots, Search, Deleted, Matches, ClusterAt, SizeAt, Hit;
    DeletedTail(w, w', j);
    forall i | 0 <= i < Slots(w)
      ensures Hit(w', other, exact, i) <==> Hit(w, other, exact, i)
    {
      DeletedHit(w, j, other, exact, i);
    }
    SameFind(w, w', other, exact);
    assert Find(w, other, exact) >= 0 ==> SameSlot(w, w', Find(w, other, exact));
  }

  // ----- Growing

  lemma GrownSlots(w: seq<byte>, z: seq<byte>)
    requires |w| % SLOT == 0 && |z| % SLOT == 0 && forall i :: 0 <= i < |z| ==> z[i] == 0
    ensures Slots(w) <= Slots(w + z) && |w + z| % SLOT == 0
    ensures SameFields(w, w + z, -1) && forall i :: 0 <= i < Slots(w) ==> SameSlot(w, w + z, i)
    ensures forall i :: Slots(w) <= i < Slots(w + z) ==> First(w + z, i) == 0
  {
    assert Slots(w + z) == Slots(w) + |z| / SLOT;
  }

  /** A zeroed cluster behind a directory changes no search. */
  lemma GrownSame(w: seq<byte>, z: seq<byte>, target: seq<byte>, exact: bool)
    requires ZeroTail(w) && |target| == NAME && |z| % SLOT == 0 && forall i :: 0 <= i < |z| ==> z[i] == 0
    ensures ZeroTail(w + z) && SameEntry(w, w + z, target, exact)
  {
    GrownSlots(w, z);
    hide First, NameAt, Attr, Slots, Search, ClusterAt, SizeAt;
    var w' := w + z;
    forall a, b | 0 <= a < b < Slots(w') && First(w', a) == 0
      ensures First(w', b) == 0
    {
      if b < Slots(w) {
        assert SameSlot(w, w', a) && SameSlot(w, w', b);
      }
    }
    forall i | 0 <= i < Slots(w)
      ensures Hit(w', target, exact, i) <==> Hit(w, target, exact, i)
    {
      SameHit(w, w', target, exact, i);
    }
    SameFind(w, w', target, exact);
  }

  lemma GrownUnique(w: seq<byte>, z: seq<byte>, exact: bool)
    requires ZeroTail(w) && Unique(w, exact) && |z| % SLOT == 0 && forall i :: 0 <= i < |z| ==> z[i] == 0
    ensures Unique(w + z, exact)
  {
    GrownSlots(w, z);
    hide First, NameAt, Attr, Slots, Search, ClusterAt, SizeAt;
    forall target, a, b | |target| == NAME && 0 <= a < b < Slots(w + z)
      ensures !(Hit(w + z, target, exact, a) && Hit(w + z, target, exact, b))
    {
      if b < Slots(w) {
        SameHit(w, w + z, target, exact, a);
        SameHit(w, w + z, target, exact, b);
      }
    }
  }

  // ----- Sector by sector

  /** Sixteen slots that buf repeats of w from slot b on. */
  ghost predicate Window(w: seq<byte>, b: nat, buf: seq<byte>)
  {
    |buf| == 512 && SLOT * b + 512 <= |w| && buf == w[SLOT * b..SLOT * b + 512]
  }

  lemma WindowSlot(w: seq<byte>, b: nat, buf: seq<byte>, target: seq<byte>, exact: bool, i: nat)
    requires Window(w, b, buf) && i < 16 && |target| == NAME
    ensures b + i < Slots(w) && i < Slots(buf) && First(w, b + i) == First(buf, i)
    ensures Hit(w, target, exact, b + i) <==> Hit(buf, target, exact, i)
  {
    SliceOfSlice(w, SLOT * b, 512, SLOT * i, NAME);
    assert NameAt(w, b + i) == NameAt(buf, i);
    hide Matches;
  }

  /** What a scan of the window decides about the search. */
  lemma {:induction false} WindowSearch(w: seq<byte>, b: nat, buf: seq<byte>, target: seq<byte>, exact: bool, n: nat)
    requires Window(w, b, buf) && n <= 16 && |target| == NAME && Slots(buf) == 16
    requires forall i :: 0 <= i < n ==> First(buf, i) != 0 && !Hit(buf, target, exact, i)
    ensures b + n <= Slots(w) && Search(w, target, exact, b) == Search(w, target, exact, b + n)
    decreases n
  {
    hide First, Hit;
    if n > 0 {
      WindowSearch(w, b, buf, target, exact, n - 1);
      WindowSlot(w, b, buf, target, exact, n - 1);
    }
  }

  lemma {:induction false} WindowFree(w: seq<byte>, b: nat, buf: seq<byte>, n: nat)
    requires Window(w, b, buf) && n <= 16 && Slots(buf) == 16
    requires forall i :: 0 <= i < n ==> First(buf, i) != 0 && First(buf, i) != DELETED
    ensures b + n <= Slots(w) && FreeSlot(w, b) == FreeSlot(w, b + n)
    decreases n
  {
    if n > 0 {
      WindowFree(w, b, buf, n - 1);
      assert First(w, b + n - 1) == First(buf, n - 1);
    }
  }

  // ----- Updating

  const NONE: nat := 0xFFFF_FFFF  // "leave this field alone"

  function UpdatedSlot(slot: seq<byte>, size: nat, cluster: nat): (r: seq<byte>)
    requires |slot| == SLOT
    ensures |r| == SLOT && r[..NAME] == slot[..NAME] && r[11] == slot[11]
    ensures Get32(r, 28) == if size == NONE then Get32(slot, 28) else size % WORD
    ensures cluster < WORD ==> Get16(r, 20) * 0x1_0000 + Get16(r, 26)
                                == if cluster == NONE then Get16(slot, 20) * 0x1_0000 + Get16(slot, 26) else cluster
  {
    var a := if size != NONE then Put(slot, 28, Bytes32(size)) else slot;
    Digits(size);
    Shorts(cluster);
    if cluster != NONE then Put(Put(a, 20, Bytes16(cluster / 0x1_0000)), 26, Bytes16(cluster)) else a
  }

  function SlotBytes(w: seq<byte>, j: nat): (r: seq<byte>)
    requires j < Slots(w)
    ensures |r| == SLOT
  {
    w[SLOT * j..SLOT * j + SLOT]
  }

  /** Only cluster and size of slot j may differ. */
  ghost predicate OnlyEntry(w: seq<byte>, w': seq<byte>, j: int)
  {
    |w'| == |w| && SameFields(w, w', j) && forall i :: 0 <= i < Slots(w) ==> SameSlot(w, w', i)
  }

  lemma UpdateIs(w: seq<byte>, j: nat, size: nat, cluster: nat)
    requires j < Slots(w) && cluster < WORD
    ensures var w' := SetSlot(w, j, UpdatedSlot(SlotBytes(w, j), size, cluster));
            && OnlyEntry(w, w', j)
            && SizeAt(w', j) == (if size == NONE then SizeAt(w, j) else size % WORD)
            && ClusterAt(w', j) == (if cluster == NONE then ClusterAt(w, j) else cluster)
  {
    hide UpdatedSlot, SetSlot, SlotBytes, NameAt, First, Attr, ClusterAt, SizeAt, Get16, Get32;
    var slot := UpdatedSlot(SlotBytes(w, j), size, cluster);
    SlotRead(w, j);
    SlotIs(w, j, slot);
    SetSlotSame(w, j, slot);
    assert slot[0] == slot[..NAME][0];
    assert SameSlot(w, SetSlot(w, j, slot), j);
  }

  lemma SlotRead(w: seq<byte>, j: nat)
    requires j < Slots(w)
    ensures var slot := SlotBytes(w, j);
            && First(w, j) == slot[..NAME][0] && NameAt(w, j) == slot[..NAME] && Attr(w, j) == slot[11]
            && ClusterAt(w, j) == Get16(slot, 20) * 0x1_0000 + Get16(slot, 26) && SizeAt(w, j) == Get32(slot, 28)
  {
  }

  lemma {:induction false} SameSearch(w: seq<byte>, w': seq<byte>, target: seq<byte>, exact: bool, k: nat)
    requires Slots(w') == Slots(w) && |target| == NAME && forall i :: 0 <= i < Slots(w) ==> SameSlot(w, w', i)
    ensures Search(w', target, exact, k) == Search(w, target, exact, k)
    decreases Slots(w) - k
  {
    hide NameAt, Attr, Matches;
    if k < Slots(w) {
      assert SameSlot(w, w', k);
      SameHit(w, w', target, exact, k);
      SameSearch(w, w', target, exact, k + 1);
    }
  }

  lemma OnlyEntryTwice(w: seq<byte>, w1: seq<byte>, w2: seq<byte>, j: int)
    requires OnlyEntry(w, w1, j) && OnlyEntry(w1, w2, j)
    ensures OnlyEntry(w, w2, j)
  {
    hide NameAt, Attr, First, ClusterAt, SizeAt;
    forall i | 0 <= i < Slots(w)
      ensures SameSlot(w, w2, i)
    {
      assert SameSlot(w, w1, i) && SameSlot(w1, w2, i);
    }
  }

  /** An update of one entry is seen by no search. */
  lemma UpdateLaw(w: seq<byte>, w': seq<byte>, j: int, target: seq<byte>, exact: bool)
    requires OnlyEntry(w, w', j) && |target| == NAME
    ensures ZeroTail(w) ==> ZeroTail(w')
    ensures Find(w', target, exact) == Find(w, target, exact)
    ensures Find(w, target, exact) != j ==> SameEntry(w, w', target, exact)
    ensures Find(w, target, exact) >= 0 ==>
              SameSlot(w, w', Find(w, target, exact))
  {
    assert Slots(w') == Slots(w);
    SameSearch(w, w', target, exact, 0);
    hide First, NameAt, Attr, Slots, Search, ClusterAt, SizeAt;
    forall a, b | 0 <= a < b < Slots(w') && First(w', a) == 0 && ZeroTail(w)
      ensures First(w', b) == 0
    {
      assert SameSlot(w, w', a) && SameSlot(w, w', b);
    }
    assert Find(w, target, exact) >= 0 ==> SameSlot(w, w', Find(w, target, exact));
  }

  lemma UpdateUnique(w: seq<byte>, w': seq<byte>, j: int, exact: bool)
    requires OnlyEntry(w, w', j) && Unique(w, exact)
    ensures Unique(w', exact)
  {
    assert Slots(w') == Slots(w);
    hide First, NameAt, Attr, Slots, ClusterAt, SizeAt;
    forall target, a, b | |target| == NAME && 0 <= a < b < Slots(w')
      ensures !(Hit(w', target, exact, a) && Hit(w', target, exact, b))
    {
      SameHit(w, w', target, exact, a);
      SameHit(w, w', target, exact, b);
    }
  }

  /** The slot add_dirent writes makes the directory Added. */
  lemma NewSlotAdds(w: seq<byte>, j: nat, name: seq<byte>, attr: byte, cluster: nat, size: nat)
    requires j < Slots(w) && j == FreeSlot(w, 0) && |name| == NAME && attr != LFN && cluster < WORD && size < WORD
    ensures var w' := SetSlot(w, j, NewSlot(name, attr, cluster, size));
            && Added(w, w', j, name) && ClusterAt(w', j) == cluster && SizeAt(w', j) == size && Attr(w', j) == attr
  {
    var slot := NewSlot(name, attr, cluster, size);
    SlotIs(w, j, slot);
    SetSlotSame(w, j, slot);
  }

  // ----- The law of adding

  /** What add_dirent does to searches. A name that was not there is found,
      with what was written, unless it begins with the byte that marks deleted
      slots; every other name is found as before; unique names stay unique. */
  ghost predicate AddLaw(w: seq<byte>, w': seq<byte>, name: seq<byte>, attr: byte, cluster: nat, size: nat, exact: bool)
    requires |name| == NAME
  {
    ZeroTail(w) && name[0] != 0 && attr != LFN && cluster < WORD && size < WORD ==>
      && ZeroTail(w')
      && (Find(w, name, exact) == -1 ==> (Find(w', name, exact) >= 0 <==> name[0] != DELETED))
      && (Find(w, name, exact) == -1 && Find(w', name, exact) >= 0 ==> Says(w', Find(w', name, exact), name, attr, cluster, size))
      && (forall other :: |other| == NAME && (name[0] == DELETED || !Matches(name, other, exact)) ==> SameEntry(w, w', other, exact))
      && (Unique(w, exact) && Find(w, name, exact) == -1 ==> Unique(w', exact))
  }

  ghost predicate Says(w: seq<byte>, j: nat, name: seq<byte>, attr: byte, cluster: nat, size: nat)
  {
    j < Slots(w) && NameAt(w, j) == name && Attr(w, j) == attr && ClusterAt(w, j) == cluster && SizeAt(w, j) == size
  }

  /** In a directory with room. */
  lemma AddedLaw(w: seq<byte>, name: seq<byte>, attr: byte, cluster: nat, size: nat, exact: bool)
    requires |name| == NAME && FreeSlot(w, 0) < Slots(w)
    ensures AddLaw(w, SetSlot(w, FreeSlot(w, 0), NewSlot(name, attr, cluster, size)), name, attr, cluster, size, exact)
  {
    if ZeroTail(w) && name[0] != 0 && attr != LFN && cluster < WORD && size < WORD {
      var j := FreeSlot(w, 0);
      var slot := NewSlot(name, attr, cluster, size);
      var w' := SetSlot(w, j, slot);
      NewSlotAdds(w, j, name, attr, cluster, size);
      SetSlotSame(w, j, slot);
      NewSlotSays(w, j, name, attr, cluster, size);
      hide First, NameAt, Attr, Slots, Search, ClusterAt, SizeAt, NewSlot, SetSlot, FreeSlot, Matches, Unique, ZeroTail, SameEntry, SameBut, SameFields;
      AddKeepsTail(w, w', j, name);
      if Find(w, name, exact) == -1 {
        if name[0] != DELETED {
          AddedIsFound(w, w', j, name, exact);
        } else {
          AddKeepsOthers(w, w', j, name, name, exact);
        }
        if Unique(w, exact) {
          AddKeepsUnique(w, w', j, name, exact);
        }
      }
      forall other | |other| == NAME && (name[0] == DELETED || !Matches(name, other, exact))
        ensures SameEntry(w, w', other, exact)
      {
        OtherEntry(w, w', j, name, other, exact);
      }
    }
  }

  lemma NewSlotSays(w: seq<byte>, j: nat, name: seq<byte>, attr: byte, cluster: nat, size: nat)
    requires j < Slots(w) && |name| == NAME && cluster < WORD && size < WORD
    ensures var w' := SetSlot(w, j, NewSlot(name, attr, cluster, size)); First(w', j) == name[0] && Says(w', j, name, attr, cluster, size)
  {
    hide NewSlot, SetSlot;
    SlotIs(w, j, NewSlot(name, attr, cluster, size));
  }

  lemma OtherEntry(w: seq<byte>, w': seq<byte>, j: nat, name: seq<byte>, other: seq<byte>, exact: bool)
    requires ZeroTail(w) && Added(w, w', j, name) && SameFields(w, w', j) && name[0] != 0 && First(w', j) == name[0] && |other| == NAME
    requires name[0] == DELETED || !Matches(name, other, exact)
    ensures SameEntry(w, w', other, exact)
  {
    AddKeepsOthers(w, w', j, name, other, exact);
    hide First, NameAt, Attr, Search, ClusterAt, SizeAt, FreeSlot, Matches;
    assert Find(w, other, exact) >= 0 ==> SameSlot(w, w', Find(w, other, exact));
  }

  /** In a full directory that got a zeroed cluster first. */
  lemma GrownLaw(w: seq<byte>, z: seq<byte>, w': seq<byte>, name: seq<byte>, attr: byte, cluster: nat, size: nat, exact: bool)
    requires |name| == NAME && |z| % SLOT == 0 && (forall i :: 0 <= i < |z| ==> z[i] == 0)
    requires AddLaw(w + z, w', name, attr, cluster, size, exact)
    ensures AddLaw(w, w', name, attr, cluster, size, exact)
  {
    if ZeroTail(w) && name[0] != 0 && attr != LFN && cluster < WORD && size < WORD {
      hide First, NameAt, Attr, Slots, Search, ClusterAt, SizeAt, Matches;
      GrownSame(w, z, name, exact);
      if Unique(w, exact) {
        GrownUnique(w, z, exact);
      }
      forall other | |other| == NAME && (name[0] == DELETED || !Matches(name, other, exact))
        ensures SameEntry(w, w', other, exact)
      {
        GrownSame(w, z, other, exact);
      }
    }
  }
}
