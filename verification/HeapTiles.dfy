/** What the heap's bytes mean: blocks and holes that tile the heap, each with a
    matching header and footer, and an index of exactly the holes in size order. */
module HeapTiles {
  import opened Bytes
  import opened HeapBytes

  /** A block or a hole, [lo, hi). bare: the hole create_heap leaves behind,
      which has no footer yet. */
  datatype Tile = Tile(lo: nat, hi: nat, hole: bool, bare: bool)

  const PAGE: nat := 0x1000

  ghost predicate TagsOk(m: seq<byte>, t: Tile)
  {
    && t.lo + TAGS <= t.hi <= |m| && t.hi - t.lo < WORD
    && HeaderAt(m, t.lo) == Header(MAGIC, if t.hole then 1 else 0, t.hi - t.lo)
    && (t.bare ==> t.hole)
    && if t.bare then Get32(m, t.hi - FOOTER) != MAGIC else FooterAt(m, t.hi - FOOTER) == Footer(MAGIC, t.lo)
  }

  /** The tiles lie end to end and cover [lo, hi). */
  ghost predicate Chain(tiles: seq<Tile>, lo: nat, hi: nat)
  {
    if tiles == [] then lo == hi
    else tiles[0].lo == lo && lo < tiles[0].hi <= hi && Chain(tiles[1..], tiles[0].hi, hi)
  }

  ghost predicate Tagged(m: seq<byte>, tiles: seq<Tile>)
  {
    forall t :: t in tiles ==> TagsOk(m, t)
  }

  ghost predicate BareFirst(tiles: seq<Tile>, start: nat)
  {
    forall t :: t in tiles && t.bare ==> t.lo == start
  }

  function SizeAt(m: seq<byte>, p: nat): nat
  {
    if p + HEADER <= |m| then HeaderAt(m, p).size else 0
  }

  ghost predicate Sorted(m: seq<byte>, idx: seq<nat>)
  {
    forall i, j :: 0 <= i < j < |idx| ==> SizeAt(m, idx[i]) <= SizeAt(m, idx[j])
  }

  ghost predicate Distinct(idx: seq<nat>)
  {
    forall i, j :: 0 <= i < j < |idx| ==> idx[i] != idx[j]
  }

  /** The index lists the addresses in holes, each once, by size. */
  ghost predicate IndexOk(m: seq<byte>, idx: seq<nat>, holes: set<nat>)
  {
    Distinct(idx) && Sorted(m, idx) && forall x :: x in idx <==> x in holes
  }

  ghost function Holes(tiles: seq<Tile>): set<nat>
  {
    set t | t in tiles && t.hole :: t.lo
  }

  ghost function Live(tiles: seq<Tile>): set<Tile>
  {
    set t | t in tiles && !t.hole
  }

  function Payload(m: seq<byte>, t: Tile): seq<byte>
    requires t.lo + TAGS <= t.hi <= |m|
  {
    m[t.lo + HEADER..t.hi - FOOTER]
  }

  /** The heap invariant. */
  ghost predicate HeapOk(m: seq<byte>, idx: seq<nat>, start: nat, end: nat, tiles: seq<Tile>)
  {
    && |m| <= WORD64 && start < end <= |m| && end - start < WORD
    && Chain(tiles, start, end) && Tagged(m, tiles) && BareFirst(tiles, start)
    && IndexOk(m, idx, Holes(tiles))
  }

  /** No two holes are neighbours, and every tile has its footer. */
  ghost predicate Settled(tiles: seq<Tile>)
  {
    Coalesced(tiles) && forall t :: t in tiles ==> !t.bare
  }

  ghost predicate Coalesced(tiles: seq<Tile>)
  {
    forall k :: 0 < k < |tiles| ==> !(tiles[k].hole && tiles[k - 1].hole)
  }

  // ----- Chains

  lemma {:induction false} ChainConcat(a: seq<Tile>, b: seq<Tile>, lo: nat, mid: nat, hi: nat)
    requires Chain(a, lo, mid) && Chain(b, mid, hi)
    ensures Chain(a + b, lo, hi) && lo <= mid <= hi
  {
    if a == [] {
      assert a + b == b;
      ChainOrdered(b, mid, hi);
    } else {
      ChainConcat(a[1..], b, a[0].hi, mid, hi);
      assert (a + b)[1..] == a[1..] + b;
    }
  }

  lemma {:induction false} ChainOrdered(a: seq<Tile>, lo: nat, hi: nat)
    requires Chain(a, lo, hi)
    ensures lo <= hi && (a == [] <==> lo == hi)
  {
    if a != [] {
      ChainOrdered(a[1..], a[0].hi, hi);
    }
  }

  /** Cutting a chain at tile k. */
  lemma {:induction false} ChainSplit(a: seq<Tile>, k: nat, lo: nat, hi: nat)
    requires Chain(a, lo, hi) && k < |a|
    ensures lo <= a[k].lo < a[k].hi <= hi
    ensures Chain(a[..k], lo, a[k].lo) && Chain(a[k..], a[k].lo, hi) && Chain(a[k + 1..], a[k].hi, hi)
  {
    if k > 0 {
      ChainSplit(a[1..], k - 1, a[0].hi, hi);
      assert a[..k][1..] == a[1..][..k - 1];
      assert a[k..] == a[1..][k - 1..] && a[k + 1..] == a[1..][k..];
    } else {
      assert a[0..] == a && a[..0] == [];
    }
  }

  lemma {:induction false} ChainWithin(a: seq<Tile>, lo: nat, hi: nat, t: Tile)
    requires Chain(a, lo, hi) && t in a
    ensures lo <= t.lo < t.hi <= hi
  {
    var k :| 0 <= k < |a| && a[k] == t;
    ChainSplit(a, k, lo, hi);
  }

  /** Different tiles do not overlap. */
  lemma ChainApart(a: seq<Tile>, lo: nat, hi: nat, i: nat, j: nat)
    requires Chain(a, lo, hi) && i < j < |a|
    ensures a[i].hi <= a[j].lo && (j == i + 1 ==> a[i].hi == a[j].lo)
  {
    ChainSplit(a, i, lo, hi);
    assert a[i + 1..][j - i - 1] == a[j];
    ChainWithin(a[i + 1..], a[i].hi, hi, a[j]);
  }

  lemma ChainSame(a: seq<Tile>, lo: nat, hi: nat, s: Tile, t: Tile)
    requires Chain(a, lo, hi) && s in a && t in a && s.lo < t.hi && t.lo < s.hi
    ensures s == t
  {
    var i :| 0 <= i < |a| && a[i] == s;
    var j :| 0 <= j < |a| && a[j] == t;
    if i < j {
      ChainApart(a, lo, hi, i, j);
    } else if j < i {
      ChainApart(a, lo, hi, j, i);
    }
  }

  // ----- Changing a stretch of the heap

  lemma TagsFrame(m: seq<byte>, m': seq<byte>, t: Tile)
    requires TagsOk(m, t) && SameOn(m, m', t.lo, t.hi)
    ensures TagsOk(m', t)
  {
    HeaderFrame(m, m', t.lo);
    FooterFrame(m, m', t.hi - FOOTER);
  }

  function Splice(tiles: seq<Tile>, i: nat, mid: seq<Tile>, j: nat): seq<Tile>
    requires i <= j <= |tiles|
  {
    tiles[..i] + mid + tiles[j..]
  }

  /** Rewriting only [lo, hi), the span of tiles i to j, into the tiles of mid
      leaves a tagged chain. */
  lemma SpliceOk(m: seq<byte>, m': seq<byte>, start: nat, end: nat, tiles: seq<Tile>, i: nat, mid: seq<Tile>, j: nat)
    requires Chain(tiles, start, end) && Tagged(m, tiles) && i < j <= |tiles|
    requires Chain(mid, tiles[i].lo, tiles[j - 1].hi) && Tagged(m', mid)
    requires SameOutside(m, m', tiles[i].lo, tiles[j - 1].hi)
    ensures Chain(Splice(tiles, i, mid, j), start, end) && Tagged(m', Splice(tiles, i, mid, j))
  {
    hide TagsOk, Chain;
    var lo, hi := tiles[i].lo, tiles[j - 1].hi;
    ChainSplit(tiles, i, start, end);
    ChainSplit(tiles, j - 1, start, end);
    ChainConcat(tiles[..i], mid, start, lo, hi);
    ChainConcat(tiles[..i] + mid, tiles[j..], start, hi, end);
    forall t | t in Splice(tiles, i, mid, j)
      ensures TagsOk(m', t)
    {
      if t in tiles[..i] {
        ChainWithin(tiles[..i], start, lo, t);
        TagsFrame(m, m', t);
      } else if t in tiles[j..] {
        ChainWithin(tiles[j..], hi, end, t);
        TagsFrame(m, m', t);
      }
    }
  }

  lemma SpliceHoles(tiles: seq<Tile>, i: nat, mid: seq<Tile>, j: nat)
    requires i <= j <= |tiles|
    ensures Holes(Splice(tiles, i, mid, j)) == Holes(tiles[..i]) + Holes(mid) + Holes(tiles[j..])
    ensures Live(Splice(tiles, i, mid, j)) == Live(tiles[..i]) + Live(mid) + Live(tiles[j..])
    ensures Holes(tiles) == Holes(tiles[..i]) + Holes(tiles[i..j]) + Holes(tiles[j..])
    ensures Live(tiles) == Live(tiles[..i]) + Live(tiles[i..j]) + Live(tiles[j..])
  {
    assert tiles == tiles[..i] + tiles[i..j] + tiles[j..];
  }

  // ----- The index

  function Place(m: seq<byte>, idx: seq<nat>, item: nat): (k: nat)
    ensures k <= |idx|
    ensures forall i :: 0 <= i < k ==> SizeAt(m, idx[i]) < SizeAt(m, item)
    ensures k < |idx| ==> SizeAt(m, idx[k]) >= SizeAt(m, item)
  {
    if idx == [] || SizeAt(m, idx[0]) >= SizeAt(m, item) then 0 else 1 + Place(m, idx[1..], item)
  }

  function Inserted(m: seq<byte>, idx: seq<nat>, item: nat): seq<nat>
  {
    idx[..Place(m, idx, item)] + [item] + idx[Place(m, idx, item)..]
  }

  function Removed(idx: seq<nat>, i: nat): seq<nat>
    requires i < |idx|
  {
    idx[..i] + idx[i + 1..]
  }

  lemma InsertMembers(idx: seq<nat>, k: nat, item: nat)
    requires k <= |idx|
    ensures forall x :: x in idx[..k] + [item] + idx[k..] <==> x in idx || x == item
  {
    assert idx == idx[..k] + idx[k..];
    forall x
      ensures x in idx[..k] + [item] + idx[k..] <==> x in idx || x == item
    {
      assert x in idx <==> x in idx[..k] || x in idx[k..];
    }
  }

  lemma InsertDistinct(idx: seq<nat>, k: nat, item: nat)
    requires k <= |idx| && Distinct(idx) && item !in idx
    ensures Distinct(idx[..k] + [item] + idx[k..])
  {
    var r := idx[..k] + [item] + idx[k..];
    assert forall i :: 0 <= i < |r| ==> r[i] == if i < k then idx[i] else if i == k then item else idx[i - 1];
  }

  lemma InsertedSorted(m: seq<byte>, idx: seq<nat>, item: nat)
    requires Sorted(m, idx)
    ensures Sorted(m, Inserted(m, idx, item))
  {
    var k, r := Place(m, idx, item), Inserted(m, idx, item);
    assert forall i :: 0 <= i < |r| ==> r[i] == if i < k then idx[i] else if i == k then item else idx[i - 1];
    forall i, j | 0 <= i < j < |r|
      ensures SizeAt(m, r[i]) <= SizeAt(m, r[j])
    {
      if j == k {
        assert SizeAt(m, idx[i]) < SizeAt(m, item);
      } else if i == k {
        assert SizeAt(m, idx[k]) <= SizeAt(m, idx[j - 1]);
      }
    }
  }

  lemma InsertedOk(m: seq<byte>, idx: seq<nat>, holes: set<nat>, item: nat)
    requires IndexOk(m, idx, holes) && item !in holes
    ensures IndexOk(m, Inserted(m, idx, item), holes + {item})
  {
    hide SizeAt, Sorted, Distinct;
    InsertMembers(idx, Place(m, idx, item), item);
    InsertDistinct(idx, Place(m, idx, item), item);
    InsertedSorted(m, idx, item);
  }

  lemma RemovedOk(m: seq<byte>, idx: seq<nat>, holes: set<nat>, i: nat)
    requires IndexOk(m, idx, holes) && i < |idx|
    ensures IndexOk(m, Removed(idx, i), holes - {idx[i]})
  {
    var r := Removed(idx, i);
    assert forall j :: 0 <= j < |r| ==> r[j] == if j < i then idx[j] else idx[j + 1];
    forall x
      ensures x in r <==> x in holes - {idx[i]}
    {
      if x in holes - {idx[i]} {
        var j :| 0 <= j < |idx| && idx[j] == x;
        assert r[if j < i then j else j - 1] == x;
      }
    }
  }

  lemma IndexFrame(m: seq<byte>, m': seq<byte>, idx: seq<nat>, holes: set<nat>)
    requires IndexOk(m, idx, holes) && forall x :: x in holes ==> SizeAt(m', x) == SizeAt(m, x)
    ensures IndexOk(m', idx, holes)
  {
    assert forall i :: 0 <= i < |idx| ==> idx[i] in holes;
  }

  /** The holes outside tiles i to j. */
  ghost function OtherHoles(tiles: seq<Tile>, i: nat, j: nat): set<nat>
    requires i <= j <= |tiles|
  {
    Holes(tiles[..i]) + Holes(tiles[j..])
  }

  lemma SizeFrame(m: seq<byte>, m': seq<byte>, t: Tile, lo: nat, hi: nat)
    requires TagsOk(m, t) && SameOutside(m, m', lo, hi) && (t.hi <= lo || hi <= t.lo)
    ensures SizeAt(m', t.lo) == SizeAt(m, t.lo)
  {
    HeaderFrame(m, m', t.lo);
  }

  lemma OtherHolesFrame(m: seq<byte>, m': seq<byte>, start: nat, end: nat, tiles: seq<Tile>, i: nat, j: nat, idx: seq<nat>)
    requires Chain(tiles, start, end) && Tagged(m, tiles) && i < j <= |tiles|
    requires SameOutside(m, m', tiles[i].lo, tiles[j - 1].hi) && IndexOk(m, idx, OtherHoles(tiles, i, j))
    ensures IndexOk(m', idx, OtherHoles(tiles, i, j))
  {
    hide Chain, IndexOk, TagsOk, SizeAt, Holes, Tagged, SameOutside;
    ChainSplit(tiles, i, start, end);
    ChainSplit(tiles, j - 1, start, end);
    TaggedPart(m, tiles, i, j);
    forall x | x in OtherHoles(tiles, i, j)
      ensures SizeAt(m', x) == SizeAt(m, x)
    {
      if x in Holes(tiles[..i]) {
        HoleKept(m, m', tiles[..i], start, tiles[i].lo, x, tiles[i].lo, tiles[j - 1].hi);
      } else {
        HoleKept(m, m', tiles[j..], tiles[j - 1].hi, end, x, tiles[i].lo, tiles[j - 1].hi);
      }
    }
    IndexFrame(m, m', idx, OtherHoles(tiles, i, j));
  }

  lemma TaggedPart(m: seq<byte>, tiles: seq<Tile>, i: nat, j: nat)
    requires Tagged(m, tiles) && i <= j <= |tiles|
    ensures Tagged(m, tiles[..i]) && Tagged(m, tiles[j..])
  {
    hide TagsOk;
  }

  lemma HoleKept(m: seq<byte>, m': seq<byte>, part: seq<Tile>, from: nat, to: nat, x: nat, lo: nat, hi: nat)
    requires Chain(part, from, to) && Tagged(m, part) && x in Holes(part) && SameOutside(m, m', lo, hi) && (to <= lo || hi <= from)
    ensures SizeAt(m', x) == SizeAt(m, x)
  {
    hide Chain, SizeAt, TagsOk, SameOutside;
    var t :| t in part && t.hole && t.lo == x;
    ChainWithin(part, from, to, t);
    SizeFrame(m, m', t, lo, hi);
  }

  /** Addresses in a span belong to no tile outside it. */
  lemma OtherHolesApart(start: nat, end: nat, tiles: seq<Tile>, i: nat, j: nat, x: nat)
    requires Chain(tiles, start, end) && i < j <= |tiles| && tiles[i].lo <= x < tiles[j - 1].hi
    ensures x !in OtherHoles(tiles, i, j)
  {
    hide Chain;
    ChainSplit(tiles, i, start, end);
    ChainSplit(tiles, j - 1, start, end);
    if t :| t in tiles[..i] && t.lo == x {
      ChainWithin(tiles[..i], start, tiles[i].lo, t);
    }
    if t :| t in tiles[j..] && t.lo == x {
      ChainWithin(tiles[j..], tiles[j - 1].hi, end, t);
    }
  }

  lemma HolesBut(start: nat, end: nat, tiles: seq<Tile>, k: nat)
    requires Chain(tiles, start, end) && k < |tiles|
    ensures Holes(tiles) - {tiles[k].lo} == OtherHoles(tiles, k, k + 1)
    ensures tiles[k].hole ==> Holes(tiles) == OtherHoles(tiles, k, k + 1) + {tiles[k].lo}
  {
    hide Chain;
    ChainSplit(tiles, k, start, end);
    OtherHolesApart(start, end, tiles, k, k + 1, tiles[k].lo);
    SpliceHoles(tiles, k, [], k + 1);
    assert tiles[k..k + 1] == [tiles[k]];
  }
}
