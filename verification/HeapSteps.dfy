/** What each write of alloc, free and expand does to the tiles. */
module HeapSteps {
  import opened Bytes
  import opened HeapBytes
  import opened HeapTiles

  /** The heap invariant, except that tile k is left out of the index. */
  ghost predicate HeapBut(m: seq<byte>, idx: seq<nat>, start: nat, end: nat, tiles: seq<Tile>, k: nat)
  {
    && |m| <= WORD64 && start < end <= |m| && end - start < WORD
    && Chain(tiles, start, end) && Tagged(m, tiles) && BareFirst(tiles, start)
    && k < |tiles| && IndexOk(m, idx, OtherHoles(tiles, k, k + 1))
  }

  lemma OkIsBut(m: seq<byte>, idx: seq<nat>, start: nat, end: nat, tiles: seq<Tile>, k: nat)
    requires HeapOk(m, idx, start, end, tiles) && k < |tiles| && !tiles[k].hole
    ensures HeapBut(m, idx, start, end, tiles, k)
  {
    hide Chain;
    SpliceHoles(tiles, k, [], k + 1);
    assert tiles[k..k + 1] == [tiles[k]];
  }

  /** Taking the hole out of the index. */
  lemma TakeOut(m: seq<byte>, idx: seq<nat>, start: nat, end: nat, tiles: seq<Tile>, k: nat, i: nat)
    requires HeapOk(m, idx, start, end, tiles) && k < |tiles| && i < |idx| && idx[i] == tiles[k].lo
    ensures HeapBut(m, Removed(idx, i), start, end, tiles, k)
  {
    hide Chain, IndexOk;
    RemovedOk(m, idx, Holes(tiles), i);
    HolesBut(start, end, tiles, k);
  }

  lemma PutBack(m: seq<byte>, idx: seq<nat>, start: nat, end: nat, tiles: seq<Tile>, k: nat)
    requires HeapBut(m, idx, start, end, tiles, k) && tiles[k].hole
    ensures HeapOk(m, Inserted(m, idx, tiles[k].lo), start, end, tiles)
  {
    hide Chain, IndexOk, Inserted;
    HolesBut(start, end, tiles, k);
    InsertedOk(m, idx, OtherHoles(tiles, k, k + 1), tiles[k].lo);
  }

  /** header->is_hole = 1 turns a block into an unindexed hole. */
  lemma Marked(m: seq<byte>, idx: seq<nat>, start: nat, end: nat, tiles: seq<Tile>, k: nat)
    requires HeapBut(m, idx, start, end, tiles, k) && !tiles[k].bare && TagsOk(m, tiles[k])
    ensures HeapBut(MarkHole(m, tiles[k].lo), idx, start, end, MarkedTiles(tiles, k), k)
    ensures SameOutside(m, MarkHole(m, tiles[k].lo), tiles[k].lo, tiles[k].hi)
    ensures TagsOk(MarkHole(m, tiles[k].lo), MarkedTiles(tiles, k)[k])
  {
    var t := tiles[k];
    assert t.lo + HEADER <= |m|;
    hide Chain, IndexOk, TagsOk, MarkHole;
    MarkedTags(m, t);
    Joined(m, MarkHole(m, t.lo), idx, start, end, tiles, k, t.(hole := true), k + 1);
  }

  lemma MarkedTags(m: seq<byte>, t: Tile)
    requires TagsOk(m, t) && !t.bare
    ensures TagsOk(MarkHole(m, t.lo), t.(hole := true)) && SameOutside(m, MarkHole(m, t.lo), t.lo, t.hi)
  {
    hide MarkHole, HeaderAt, FooterAt, Get32;
    FooterFrame(m, MarkHole(m, t.lo), t.hi - FOOTER);
  }

  lemma OneTile(t: Tile)
    requires t.lo < t.hi
    ensures Chain([t], t.lo, t.hi)
  {
    assert [t][1..] == [];
  }

  /** The holes around tile i + d of a spliced list. */
  lemma SpliceOthers(tiles: seq<Tile>, i: nat, mid: seq<Tile>, j: nat, d: nat)
    requires i <= j <= |tiles| && d < |mid|
    ensures OtherHoles(Splice(tiles, i, mid, j), i + d, i + d + 1) == OtherHoles(tiles, i, j) + OtherHoles(mid, d, d + 1)
  {
    var r := Splice(tiles, i, mid, j);
    assert r[..i + d] == tiles[..i] + mid[..d];
    assert r[i + d + 1..] == mid[d + 1..] + tiles[j..];
  }

  lemma SpliceBare(tiles: seq<Tile>, i: nat, mid: seq<Tile>, j: nat, start: nat)
    requires i <= j <= |tiles| && BareFirst(tiles, start) && BareFirst(mid, start)
    ensures BareFirst(Splice(tiles, i, mid, j), start)
  {
  }

  /** The bytes of two neighbours after the right one has been absorbed. */
  function RightBytes(m: seq<byte>, lo: nat, mid: nat, hi: nat): seq<byte>
    requires lo + TAGS <= mid && mid + TAGS <= hi <= |m| <= WORD64
  {
    PutFooter(AddSize(m, lo, hi - mid), hi - FOOTER, lo)
  }

  /** The same when the left one absorbs. */
  function LeftBytes(m: seq<byte>, lo: nat, mid: nat, hi: nat): seq<byte>
    requires lo + TAGS <= mid && mid + TAGS <= hi <= |m| <= WORD64
  {
    Retarget(AddSize(m, lo, hi - mid), hi - FOOTER, lo)
  }

  lemma RightTags(m: seq<byte>, lo: nat, mid: nat, hi: nat)
    requires lo + TAGS <= mid && mid + TAGS <= hi <= |m| <= WORD64 && hi - lo < WORD
    requires HeaderAt(m, lo) == Header(MAGIC, 1, mid - lo)
    ensures TagsOk(RightBytes(m, lo, mid, hi), Tile(lo, hi, true, false)) && SameOutside(m, RightBytes(m, lo, mid, hi), lo, hi)
  {
    hide AddSize, PutFooter, HeaderAt, FooterAt, Get32;
    HeaderFrame(AddSize(m, lo, hi - mid), RightBytes(m, lo, mid, hi), lo);
  }

  lemma LeftTags(m: seq<byte>, lo: nat, mid: nat, hi: nat)
    requires lo + TAGS <= mid && mid + TAGS <= hi <= |m| <= WORD64 && hi - lo < WORD
    requires HeaderAt(m, lo) == Header(MAGIC, 1, mid - lo) && FooterAt(m, hi - FOOTER).magic == MAGIC
    ensures TagsOk(LeftBytes(m, lo, mid, hi), Tile(lo, hi, true, false)) && SameOutside(m, LeftBytes(m, lo, mid, hi), lo, hi)
  {
    hide AddSize, Retarget, HeaderAt, FooterAt, Get32;
    var m1 := AddSize(m, lo, hi - mid);
    FooterFrame(m, m1, hi - FOOTER);
    HeaderFrame(m1, LeftBytes(m, lo, mid, hi), lo);
  }

  /** Joining the unindexed hole k with the hole after it. */
  lemma JoinRight(m: seq<byte>, idx: seq<nat>, start: nat, end: nat, tiles: seq<Tile>, k: nat, i: nat)
    requires HeapBut(m, idx, start, end, tiles, k) && tiles[k].hole
    requires k + 1 < |tiles| && i < |idx| && idx[i] == tiles[k + 1].lo
    requires TagsOk(m, tiles[k]) && TagsOk(m, tiles[k + 1]) && tiles[k].hi == tiles[k + 1].lo
    ensures HeapBut(RightBytes(m, tiles[k].lo, tiles[k].hi, tiles[k + 1].hi), Removed(idx, i), start, end,
                    Splice(tiles, k, [Tile(tiles[k].lo, tiles[k + 1].hi, true, false)], k + 2), k)
    ensures TagsOk(RightBytes(m, tiles[k].lo, tiles[k].hi, tiles[k + 1].hi), Tile(tiles[k].lo, tiles[k + 1].hi, true, false))
    ensures SameOutside(m, RightBytes(m, tiles[k].lo, tiles[k].hi, tiles[k + 1].hi), tiles[k].lo, tiles[k + 1].hi)
  {
    var s, t := tiles[k], tiles[k + 1];
    WithinHeap(m, idx, start, end, tiles, k);
    WithinHeap(m, idx, start, end, tiles, k + 1);
    RightTags(m, s.lo, s.hi, t.hi);
    hide Chain, IndexOk, TagsOk, RightBytes, Removed;
    RemovedOk(m, idx, OtherHoles(tiles, k, k + 1), i);
    OtherHolesNext(start, end, tiles, k);
    Joined(m, RightBytes(m, s.lo, s.hi, t.hi), Removed(idx, i), start, end, tiles, k, Tile(s.lo, t.hi, true, false), k + 2);
  }

  lemma WithinHeap(m: seq<byte>, idx: seq<nat>, start: nat, end: nat, tiles: seq<Tile>, k: nat)
    requires Chain(tiles, start, end) && k < |tiles|
    ensures start <= tiles[k].lo < tiles[k].hi <= end
  {
    ChainSplit(tiles, k, start, end);
  }

  lemma OtherHolesNext(start: nat, end: nat, tiles: seq<Tile>, k: nat)
    requires Chain(tiles, start, end) && k + 1 < |tiles|
    ensures OtherHoles(tiles, k, k + 1) - {tiles[k + 1].lo} == OtherHoles(tiles, k, k + 2)
  {
    hide Chain;
    ChainSplit(tiles, k + 1, start, end);
    ChainSplit(tiles, k, start, end);
    ChainApart(tiles, start, end, k, k + 1);
    OtherHolesApart(start, end, tiles, k, k + 2, tiles[k + 1].lo);
    assert tiles[k + 1..] == [tiles[k + 1]] + tiles[k + 2..];
  }

  lemma OtherHolesPrevious(start: nat, end: nat, tiles: seq<Tile>, k: nat)
    requires Chain(tiles, start, end) && 0 < k < |tiles|
    ensures OtherHoles(tiles, k, k + 1) - {tiles[k - 1].lo} == OtherHoles(tiles, k - 1, k + 1)
  {
    hide Chain;
    ChainSplit(tiles, k - 1, start, end);
    ChainSplit(tiles, k, start, end);
    ChainApart(tiles, start, end, k - 1, k);
    OtherHolesApart(start, end, tiles, k - 1, k + 1, tiles[k - 1].lo);
    assert tiles[..k] == tiles[..k - 1] + [tiles[k - 1]];
  }

  /** One new tile in place of tiles i to j. */
  lemma Joined(m: seq<byte>, m': seq<byte>, idx: seq<nat>, start: nat, end: nat, tiles: seq<Tile>, i: nat, u: Tile, j: nat)
    requires |m| <= WORD64 && start < end <= |m| && end - start < WORD
    requires Chain(tiles, start, end) && Tagged(m, tiles) && BareFirst(tiles, start) && i < j <= |tiles|
    requires u.lo == tiles[i].lo && u.hi == tiles[j - 1].hi && !u.bare && TagsOk(m', u) && SameOutside(m, m', u.lo, u.hi)
    requires IndexOk(m, idx, OtherHoles(tiles, i, j))
    ensures HeapBut(m', idx, start, end, Splice(tiles, i, [u], j), i)
  {
    hide Chain, IndexOk, TagsOk;
    TagsSize(m', u);
    OneTile(u);
    SpliceOk(m, m', start, end, tiles, i, [u], j);
    SpliceBare(tiles, i, [u], j, start);
    OtherHolesFrame(m, m', start, end, tiles, i, j, idx);
    SpliceOthers(tiles, i, [u], j, 0);
    assert [u][..0] == [] && [u][1..] == [];
    assert OtherHoles([u], 0, 1) == {};
    assert i < |Splice(tiles, i, [u], j)| && OtherHoles(Splice(tiles, i, [u], j), i, i + 1) == OtherHoles(tiles, i, j);
  }

  lemma TagsSize(m: seq<byte>, t: Tile)
    ensures TagsOk(m, t) ==> t.lo < t.hi
  {
  }

  /** Joining the unindexed hole k with the hole before it. */
  lemma JoinLeft(m: seq<byte>, idx: seq<nat>, start: nat, end: nat, tiles: seq<Tile>, k: nat, i: nat)
    requires HeapBut(m, idx, start, end, tiles, k) && !tiles[k].bare
    requires 0 < k && tiles[k - 1].hole && i < |idx| && idx[i] == tiles[k - 1].lo
    requires TagsOk(m, tiles[k - 1]) && TagsOk(m, tiles[k]) && tiles[k - 1].hi == tiles[k].lo
    ensures HeapBut(LeftBytes(m, tiles[k - 1].lo, tiles[k].lo, tiles[k].hi), Removed(idx, i), start, end,
                    Splice(tiles, k - 1, [Tile(tiles[k - 1].lo, tiles[k].hi, true, false)], k + 1), k - 1)
    ensures SameOutside(m, LeftBytes(m, tiles[k - 1].lo, tiles[k].lo, tiles[k].hi), tiles[k - 1].lo, tiles[k].hi)
  {
    var s, t := tiles[k - 1], tiles[k];
    WithinHeap(m, idx, start, end, tiles, k - 1);
    WithinHeap(m, idx, start, end, tiles, k);
    LeftTags(m, s.lo, t.lo, t.hi);
    hide Chain, IndexOk, TagsOk, LeftBytes, Removed;
    RemovedOk(m, idx, OtherHoles(tiles, k, k + 1), i);
    OtherHolesPrevious(start, end, tiles, k);
    Joined(m, LeftBytes(m, s.lo, t.lo, t.hi), Removed(idx, i), start, end, tiles, k - 1, Tile(s.lo, t.hi, true, false), k + 1);
  }

  // ----- Freeing

  ghost predicate JoinsRight(tiles: seq<Tile>, k: nat)
  {
    k + 1 < |tiles| && tiles[k + 1].hole
  }

  ghost predicate JoinsLeft(tiles: seq<Tile>, k: nat)
  {
    0 < k <= |tiles| && tiles[k - 1].hole && !tiles[k - 1].bare
  }

  /** Tile k becomes a hole and joins its free neighbours; a bare hole on its
      left cannot be seen. */
  ghost function Freed(tiles: seq<Tile>, k: nat): seq<Tile>
    requires k < |tiles|
  {
    var i, j := if JoinsLeft(tiles, k) then k - 1 else k, if JoinsRight(tiles, k) then k + 2 else k + 1;
    Splice(tiles, i, [Tile(tiles[i].lo, tiles[j - 1].hi, true, false)], j)
  }

  /** Marking, joining right and joining left, one after the other. */
  ghost function MarkedTiles(tiles: seq<Tile>, k: nat): (r: seq<Tile>)
    requires k < |tiles|
    ensures |r| == |tiles|
  {
    Splice(tiles, k, [tiles[k].(hole := true)], k + 1)
  }

  ghost function RightTiles(tiles: seq<Tile>, k: nat): (r: seq<Tile>)
    requires k < |tiles|
    ensures k < |r|
  {
    if JoinsRight(tiles, k) then Splice(tiles, k, [Tile(tiles[k].lo, tiles[k + 1].hi, true, false)], k + 2) else tiles
  }

  ghost function LeftTiles(tiles: seq<Tile>, k: nat): seq<Tile>
    requires k < |tiles|
  {
    if JoinsLeft(tiles, k) then Splice(tiles, k - 1, [Tile(tiles[k - 1].lo, tiles[k].hi, true, false)], k + 1) else tiles
  }

  lemma FreedInSteps(tiles: seq<Tile>, k: nat)
    requires k < |tiles| && !tiles[k].bare
    ensures LeftTiles(RightTiles(MarkedTiles(tiles, k), k), k) == Freed(tiles, k)
    ensures JoinsRight(MarkedTiles(tiles, k), k) <==> JoinsRight(tiles, k)
    ensures JoinsRight(tiles, k) ==> MarkedTiles(tiles, k)[k + 1] == tiles[k + 1]
    ensures JoinsLeft(RightTiles(MarkedTiles(tiles, k), k), k) <==> JoinsLeft(tiles, k)
    ensures JoinsLeft(tiles, k) ==> RightTiles(MarkedTiles(tiles, k), k)[k - 1] == tiles[k - 1]
  {
    var t1 := MarkedTiles(tiles, k);
    assert forall x :: 0 <= x < |tiles| && x != k ==> t1[x] == tiles[x];
    assert t1[..k] == tiles[..k] && t1[k + 1..] == tiles[k + 1..];
    var t2 := RightTiles(t1, k);
    var j := if JoinsRight(tiles, k) then k + 2 else k + 1;
    assert t2[..k] == tiles[..k] && t2[k + 1..] == tiles[j..];
    assert t2[k] == Tile(tiles[k].lo, tiles[j - 1].hi, true, false);
    if k > 0 {
      assert t2[k - 1] == tiles[k - 1] && t2[..k - 1] == tiles[..k - 1];
    }
  }

  /** What the test for a right neighbour sees. */
  lemma RightSeen(m: seq<byte>, idx: seq<nat>, start: nat, end: nat, tiles: seq<Tile>, k: nat)
    requires HeapBut(m, idx, start, end, tiles, k)
    ensures var n := tiles[k].hi;
            JoinsRight(tiles, k) <==> start <= n && n + HEADER <= end && HeaderAt(m, n).magic == MAGIC && HeaderAt(m, n).hole != 0
    ensures JoinsRight(tiles, k) ==> tiles[k + 1].lo == tiles[k].hi && TagsOk(m, tiles[k + 1]) && tiles[k + 1].lo in idx
  {
    hide HeaderAt, FooterAt, IndexOk, Chain;
    ChainSplit(tiles, k, start, end);
    if k + 1 < |tiles| {
      ChainApart(tiles, start, end, k, k + 1);
      ChainSplit(tiles, k + 1, start, end);
      assert TagsOk(m, tiles[k + 1]);
      if tiles[k + 1].hole {
        assert tiles[k + 1..][0] == tiles[k + 1];
        Listed(m, idx, tiles, k, tiles[k + 1]);
      }
    } else {
      LastEnds(tiles, start, end);
    }
  }

  /** The stores of the right merge, as written. */
  function RightStores(m: seq<byte>, h: nat, n: nat): (r: seq<byte>)
    requires h + HEADER <= |m| <= WORD64 && n + HEADER <= |m|
  {
    var m1 := AddSize(m, h, HeaderAt(m, n).size);
    var f := h + HeaderAt(m1, h).size;
    if FOOTER <= f <= |m| then PutFooter(m1, f - FOOTER, h) else m1
  }

  lemma RightStoresAre(m: seq<byte>, h: nat, n: nat, hi: nat)
    requires h + TAGS <= n && n + TAGS <= hi <= |m| <= WORD64 && hi - h < WORD
    requires HeaderAt(m, h).size == n - h && HeaderAt(m, n).size == hi - n
    ensures RightStores(m, h, n) == RightBytes(m, h, n, hi) && h + HeaderAt(AddSize(m, h, HeaderAt(m, n).size), h).size == hi
  {
    hide HeaderAt, AddSize, PutFooter, SameOutside, FooterAt;
    assert (n - h + (hi - n)) % WORD == hi - h by { SmallRemainder(hi - h); }
    assert HeaderAt(AddSize(m, h, HeaderAt(m, n).size), h).size == hi - h;
  }

  lemma SmallRemainder(v: nat)
    requires v < WORD
    ensures v % WORD == v
  {
  }

  /** They absorb the neighbour. */
  lemma RightStored(m: seq<byte>, idx: seq<nat>, start: nat, end: nat, tiles: seq<Tile>, k: nat, i: nat)
    requires HeapBut(m, idx, start, end, tiles, k) && TagsOk(m, tiles[k]) && tiles[k].hole && JoinsRight(tiles, k)
    requires i < |idx| && idx[i] == tiles[k].hi
    ensures tiles[k].hi + HEADER <= |m| <= WORD64
    ensures var h, n, r := tiles[k].lo, tiles[k].hi, RightTiles(tiles, k);
            && HeapBut(RightStores(m, h, n), Removed(idx, i), start, end, r, k)
            && r[k] == Tile(h, tiles[k + 1].hi, true, false) && TagsOk(RightStores(m, h, n), r[k])
            && SameOutside(m, RightStores(m, h, n), h, tiles[k + 1].hi)
            && h + HeaderAt(AddSize(m, h, HeaderAt(m, n).size), h).size == r[k].hi <= |m| && h + TAGS <= r[k].hi
  {
    RightSeen(m, idx, start, end, tiles, k);
    WithinHeap(m, idx, start, end, tiles, k);
    WithinHeap(m, idx, start, end, tiles, k + 1);
    RightStoresAre(m, tiles[k].lo, tiles[k].hi, tiles[k + 1].hi);
    hide Chain, Tagged, IndexOk, HeaderAt, FooterAt, Get32, AddSize, RightStores, RightBytes, TagsOk;
    JoinRight(m, idx, start, end, tiles, k, i);
  }

  lemma Listed(m: seq<byte>, idx: seq<nat>, tiles: seq<Tile>, k: nat, t: Tile)
    requires k < |tiles| && IndexOk(m, idx, OtherHoles(tiles, k, k + 1)) && t.hole && (t in tiles[..k] || t in tiles[k + 1..])
    ensures t.lo in idx
  {
    assert t.lo in OtherHoles(tiles, k, k + 1);
  }

  lemma LastEnds(tiles: seq<Tile>, start: nat, end: nat)
    requires Chain(tiles, start, end) && tiles != []
    ensures tiles[|tiles| - 1].hi == end
  {
    ChainSplit(tiles, |tiles| - 1, start, end);
    assert tiles[|tiles|..] == [];
  }

  /** What the test for a left neighbour sees. */
  lemma LeftSeen(m: seq<byte>, idx: seq<nat>, start: nat, end: nat, tiles: seq<Tile>, k: nat)
    requires HeapBut(m, idx, start, end, tiles, k)
    ensures start <= tiles[k].lo < tiles[k].hi <= end && (k == 0 <==> tiles[k].lo < start + FOOTER)
    ensures k == 0 ==> !JoinsLeft(tiles, k)
    ensures k > 0 ==>
              var f := FooterAt(m, tiles[k].lo - FOOTER);
              && f.magic == Get32(m, tiles[k].lo - FOOTER)
              && (JoinsLeft(tiles, k) <==>
                  && f.magic == MAGIC && f.header >= start && f.header + HEADER <= end
                  && HeaderAt(m, f.header).magic == MAGIC && HeaderAt(m, f.header).hole != 0)
    ensures JoinsLeft(tiles, k) ==>
              && tiles[k - 1].hi == tiles[k].lo && TagsOk(m, tiles[k - 1]) && tiles[k - 1].lo in idx
              && FooterAt(m, tiles[k].lo - FOOTER).header == tiles[k - 1].lo
  {
    hide HeaderAt, Get64, IndexOk, Chain;
    ChainSplit(tiles, k, start, end);
    if k > 0 {
      ChainApart(tiles, start, end, k - 1, k);
      ChainSplit(tiles, k - 1, start, end);
      assert TagsOk(m, tiles[k - 1]);
      if tiles[k - 1].hole {
        assert tiles[..k][k - 1] == tiles[k - 1];
        Listed(m, idx, tiles, k, tiles[k - 1]);
      }
    } else {
      FirstStarts(tiles, start, end);
    }
  }

  /** The stores of the left merge, as written. */
  function LeftStores(m: seq<byte>, prev: nat, h: nat, f: nat): (r: seq<byte>)
    requires prev + HEADER <= |m| <= WORD64 && h + HEADER <= |m| && f + FOOTER <= |m|
  {
    Retarget(AddSize(m, prev, HeaderAt(m, h).size), f, prev)
  }

  lemma TagsFacts(m: seq<byte>, t: Tile)
    requires TagsOk(m, t)
    ensures t.lo + TAGS <= t.hi <= |m| && HeaderAt(m, t.lo).size == t.hi - t.lo
    ensures Get32(m, t.lo) == MAGIC && (!t.bare ==> Get32(m, t.hi - FOOTER) == MAGIC)
  {
  }

  lemma LeftStoresAre(m: seq<byte>, lo: nat, mid: nat, hi: nat)
    requires lo + TAGS <= mid && mid + TAGS <= hi <= |m| <= WORD64 && HeaderAt(m, mid).size == hi - mid
    ensures LeftStores(m, lo, mid, hi - FOOTER) == LeftBytes(m, lo, mid, hi)
  {
    hide HeaderAt, AddSize, Retarget;
  }

  lemma LeftStored(m: seq<byte>, idx: seq<nat>, start: nat, end: nat, tiles: seq<Tile>, k: nat, i: nat)
    requires HeapBut(m, idx, start, end, tiles, k) && TagsOk(m, tiles[k]) && !tiles[k].bare && JoinsLeft(tiles, k)
    requires i < |idx| && idx[i] == tiles[k - 1].lo
    ensures tiles[k - 1].lo + HEADER <= |m| <= WORD64
    ensures var p, t, r := tiles[k - 1].lo, tiles[k], LeftTiles(tiles, k);
            && k - 1 < |r| && r[k - 1] == Tile(p, t.hi, true, false)
            && HeapBut(LeftStores(m, p, t.lo, t.hi - FOOTER), Removed(idx, i), start, end, r, k - 1)
            && SameOutside(m, LeftStores(m, p, t.lo, t.hi - FOOTER), p, t.hi)
  {
    hide Chain, Tagged, IndexOk, HeaderAt, FooterAt, Get32, Get64, AddSize, LeftStores, LeftBytes, TagsOk, BareFirst;
    LeftSeen(m, idx, start, end, tiles, k);
    TagsFacts(m, tiles[k - 1]);
    TagsFacts(m, tiles[k]);
    LeftStoresAre(m, tiles[k - 1].lo, tiles[k].lo, tiles[k].hi);
    JoinLeft(m, idx, start, end, tiles, k, i);
  }

  lemma FirstStarts(tiles: seq<Tile>, start: nat, end: nat)
    requires Chain(tiles, start, end) && tiles != []
    ensures tiles[0].lo == start
  {
  }

  // ----- Allocating

  /** Bytes to skip so that a payload behind a header at lo is page aligned. */
  function Pad(lo: nat): (r: nat)
    ensures r < PAGE && (lo + r + HEADER) % PAGE == 0
  {
    (PAGE - (lo + HEADER) % PAGE) % PAGE
  }

  function Prefix(lo: nat, align: bool): nat
  {
    if align then Pad(lo) else 0
  }

  /** The case the allocator does not handle: a gap before the aligned block
      that is too small to be a hole. */
  predicate Slack(lo: nat, align: bool)
  {
    0 < Prefix(lo, align) < TAGS
  }

  /** The size of the block cut for need bytes from room bytes. */
  function Cut(room: nat, need: nat): nat
    requires need <= room
  {
    if room - need < TAGS then room else need
  }

  ghost predicate Fits(t: Tile, need: nat, align: bool)
  {
    t.lo + Prefix(t.lo, align) + need <= t.hi && TAGS <= need
  }

  /** A hole fits a request exactly when there is a place in it for header,
      bytes and footer, with the bytes at a page boundary when asked. */
  lemma FitsMeans(t: Tile, size: nat)
    ensures Fits(t, size + 28, false) <==> t.lo + 12 + size + 16 <= t.hi
    ensures Fits(t, size + 28, true) <==> exists lo: nat :: Boundary(t.lo, lo) && lo + 12 + size + 16 <= t.hi
  {
    hide Pad;
    var at := t.lo + Pad(t.lo);
    assert Boundary(t.lo, at);
    forall lo: nat | Boundary(t.lo, lo)
      ensures at <= lo
    {
      NextBoundary(at + 12, lo + 12);
    }
  }

  /** lo is at or behind from, and what follows its header is page aligned. */
  ghost predicate Boundary(from: nat, lo: nat)
  {
    from <= lo && (lo + 12) % 4096 == 0
  }

  lemma NextBoundary(a: nat, b: nat)
    requires a % 4096 == 0 && b % 4096 == 0 && a < b + 4096
    ensures a <= b
  {
  }

  /** Where the block lies in the hole, and that it takes all of the rest exactly
      when that could not be a hole of its own. */
  ghost predicate Serves(h: Tile, b: Tile, size: nat, align: bool)
  {
    && !b.hole && h.lo <= b.lo && b.hi <= h.hi
    && (if align then Boundary(h.lo, b.lo) && b.lo < h.lo + 4096 else b.lo == h.lo)
    && size + 28 <= h.hi - b.lo && b.hi - b.lo == if h.hi - b.lo < size + 28 + 28 then h.hi - b.lo else size + 28
  }

  lemma BlockMeans(t: Tile, size: nat, align: bool)
    requires Fits(t, size + TAGS, align)
    ensures Serves(t, BlockOf(t, size + TAGS, align), size, align)
  {
    hide Pad;
  }

  ghost function BlockOf(t: Tile, need: nat, align: bool): Tile
    requires Fits(t, need, align)
  {
    var lo := t.lo + Prefix(t.lo, align);
    Tile(lo, lo + Cut(t.hi - lo, need), false, false)
  }

  /** The hole t cut into prefix, block and rest. */
  ghost function Carved(t: Tile, need: nat, align: bool): seq<Tile>
    requires Fits(t, need, align)
  {
    var b := BlockOf(t, need, align);
    if t.lo < b.lo then [Tile(t.lo, b.lo, true, false)] + BlockAndRest(b, t.hi) else BlockAndRest(b, t.hi)
  }

  ghost function BlockAndRest(b: Tile, hi: nat): seq<Tile>
  {
    if b.hi < hi then [b, Tile(b.hi, hi, true, false)] else [b]
  }

  lemma CarvedChain(t: Tile, need: nat, align: bool)
    requires Fits(t, need, align)
    ensures Chain(Carved(t, need, align), t.lo, t.hi)
    ensures !Slack(t.lo, align) ==> forall u :: u in Carved(t, need, align) ==> u.lo + TAGS <= u.hi && !u.bare
  {
    hide Pad;
    var b := BlockOf(t, need, align);
    var p, q := Tile(t.lo, b.lo, true, false), Tile(b.hi, t.hi, true, false);
    OneTile(b);
    if b.hi < t.hi {
      OneTile(q);
      ChainConcat([b], [q], b.lo, b.hi, t.hi);
      assert [b] + [q] == [b, q];
    }
    if t.lo < b.lo {
      OneTile(p);
      ChainConcat([p], BlockAndRest(b, t.hi), t.lo, b.lo, t.hi);
    }
  }

  /** Writing a tile's header and footer. */
  function WriteTile(m: seq<byte>, t: Tile): (r: seq<byte>)
    requires t.lo + TAGS <= t.hi <= |m| <= WORD64
    ensures |r| == |m|
  {
    PutFooter(PutHeader(m, t.lo, if t.hole then 1 else 0, t.hi - t.lo), t.hi - FOOTER, t.lo)
  }

  lemma WrittenTags(m: seq<byte>, t: Tile)
    requires t.lo + TAGS <= t.hi <= |m| <= WORD64 && t.hi - t.lo < WORD && !t.bare
    ensures TagsOk(WriteTile(m, t), t) && SameOutside(m, WriteTile(m, t), t.lo, t.hi)
  {
    hide PutFooter, PutHeader, HeaderAt, FooterAt, Get32;
    var m1 := PutHeader(m, t.lo, if t.hole then 1 else 0, t.hi - t.lo);
    HeaderFrame(m1, WriteTile(m, t), t.lo);
  }

  ghost predicate Writable(m: seq<byte>, tiles: seq<Tile>)
  {
    |m| <= WORD64 && forall t :: t in tiles ==> t.lo + TAGS <= t.hi <= |m| && t.hi - t.lo < WORD && !t.bare
  }

  ghost function WriteTiles(m: seq<byte>, tiles: seq<Tile>): (r: seq<byte>)
    requires Writable(m, tiles)
    ensures |r| == |m|
    decreases |tiles|
  {
    if tiles == [] then m else
    var m1 := WriteTile(m, tiles[0]);
    WritableRest(m, m1, tiles);
    WriteTiles(m1, tiles[1..])
  }

  lemma WritableRest(m: seq<byte>, m1: seq<byte>, tiles: seq<Tile>)
    requires Writable(m, tiles) && |m1| == |m| && tiles != []
    ensures Writable(m1, tiles[1..])
  {
  }

  lemma {:induction false} WrittenAll(m: seq<byte>, tiles: seq<Tile>, lo: nat, hi: nat)
    requires Writable(m, tiles) && Chain(tiles, lo, hi)
    ensures Tagged(WriteTiles(m, tiles), tiles) && SameOutside(m, WriteTiles(m, tiles), lo, hi)
    decreases |tiles|
  {
    hide WriteTile, TagsOk;
    if tiles != [] {
      var t, m1 := tiles[0], WriteTile(m, tiles[0]);
      WrittenTags(m, t);
      ChainOrdered(tiles[1..], t.hi, hi);
      WrittenAll(m1, tiles[1..], t.hi, hi);
      TagsWithin(m1, t);
      TagsFrame(m1, WriteTiles(m1, tiles[1..]), t);
    }
  }

  lemma TagsWithin(m: seq<byte>, t: Tile)
    ensures TagsOk(m, t) ==> t.hi <= |m|
  {
  }
}
