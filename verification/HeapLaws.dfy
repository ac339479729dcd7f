/** Laws of the tile changes: what alloc and free keep, what free undoes, what
    goes wrong with slack, and what the statistics add up to. */
module HeapLaws {
  import opened Bytes
  import opened HeapBytes
  import opened HeapTiles
  import opened HeapSteps

  // ----- Live blocks keep their bytes

  ghost predicate KeepsPayloads(m: seq<byte>, m': seq<byte>, live: set<Tile>)
  {
    |m'| == |m| && forall t :: t in live ==> t.lo + TAGS <= t.hi <= |m| && Payload(m', t) == Payload(m, t)
  }

  lemma KeptOutside(m: seq<byte>, m': seq<byte>, start: nat, end: nat, tiles: seq<Tile>, i: nat, j: nat)
    requires Chain(tiles, start, end) && Tagged(m, tiles) && i < j <= |tiles|
    requires SameOutside(m, m', tiles[i].lo, tiles[j - 1].hi)
    ensures KeepsPayloads(m, m', Live(tiles[..i]) + Live(tiles[j..]))
  {
    hide Chain;
    ChainSplit(tiles, i, start, end);
    ChainSplit(tiles, j - 1, start, end);
    forall t | t in Live(tiles[..i]) + Live(tiles[j..])
      ensures t.lo + TAGS <= t.hi <= |m| && Payload(m', t) == Payload(m, t)
    {
      assert TagsOk(m, t);
      if t in tiles[..i] {
        ChainWithin(tiles[..i], start, tiles[i].lo, t);
      } else {
        ChainWithin(tiles[j..], tiles[j - 1].hi, end, t);
      }
    }
  }

  // ----- Allocation

  lemma CarvedLive(t: Tile, need: nat, align: bool)
    requires Fits(t, need, align)
    ensures Live(Carved(t, need, align)) == {BlockOf(t, need, align)}
  {
    hide Pad;
  }

  /** Cutting the unindexed hole k and writing the pieces. */
  lemma CarveOk(m: seq<byte>, idx: seq<nat>, start: nat, end: nat, tiles: seq<Tile>, k: nat, mid: seq<Tile>, m': seq<byte>, idx': seq<nat>)
    requires HeapBut(m, idx, start, end, tiles, k)
    requires Chain(mid, tiles[k].lo, tiles[k].hi) && Writable(m, mid) && m' == WriteTiles(m, mid)
    requires IndexOk(m', idx', OtherHoles(tiles, k, k + 1) + Holes(mid))
    ensures HeapOk(m', idx', start, end, Splice(tiles, k, mid, k + 1))
    ensures SameOutside(m, m', tiles[k].lo, tiles[k].hi)
  {
    hide Chain, IndexOk, WriteTiles;
    WrittenAll(m, mid, tiles[k].lo, tiles[k].hi);
    SpliceOk(m, m', start, end, tiles, k, mid, k + 1);
    SpliceBare(tiles, k, mid, k + 1, start);
    SpliceHoles(tiles, k, mid, k + 1);
    assert OtherHoles(tiles, k, k + 1) + Holes(mid) == Holes(Splice(tiles, k, mid, k + 1));
  }

  /** The live blocks after replacing tiles i to j by mid. */
  lemma SpliceLive(start: nat, end: nat, tiles: seq<Tile>, k: nat, mid: seq<Tile>)
    requires Chain(tiles, start, end) && k < |tiles|
    ensures Live(Splice(tiles, k, mid, k + 1)) == (Live(tiles) - {tiles[k]}) + Live(mid)
  {
    hide Chain;
    SpliceHoles(tiles, k, mid, k + 1);
    ChainSplit(tiles, k, start, end);
    assert tiles[k..k + 1] == [tiles[k]];
    if tiles[k] in tiles[..k] {
      ChainWithin(tiles[..k], start, tiles[k].lo, tiles[k]);
      assert false;
    }
    if tiles[k] in tiles[k + 1..] {
      ChainWithin(tiles[k + 1..], tiles[k].hi, end, tiles[k]);
      assert false;
    }
    assert Live([tiles[k]]) <= {tiles[k]};
  }

  /** Headers of other holes lie outside the span of tile k. */
  lemma OthersOutside(m: seq<byte>, start: nat, end: nat, tiles: seq<Tile>, k: nat, x: nat)
    requires Chain(tiles, start, end) && Tagged(m, tiles) && k < |tiles| && x in OtherHoles(tiles, k, k + 1)
    ensures x + HEADER <= tiles[k].lo || tiles[k].hi <= x
  {
    hide Chain;
    ChainSplit(tiles, k, start, end);
    if t :| t in tiles[..k] && t.hole && t.lo == x {
      ChainWithin(tiles[..k], start, tiles[k].lo, t);
      assert TagsOk(m, t);
    } else {
      var t :| t in tiles[k + 1..] && t.hole && t.lo == x;
      ChainWithin(tiles[k + 1..], tiles[k].hi, end, t);
    }
  }

  /** The headers of an index are clear of the stretch [lo, hi). */
  ghost predicate Clear(holes: set<nat>, lo: nat, hi: nat)
  {
    forall x :: x in holes ==> x + HEADER <= lo || hi <= x
  }

  lemma ClearFrame(m: seq<byte>, m': seq<byte>, idx: seq<nat>, holes: set<nat>, lo: nat, hi: nat)
    requires IndexOk(m, idx, holes) && Clear(holes, lo, hi) && SameOutside(m, m', lo, hi)
    ensures IndexOk(m', idx, holes)
  {
    hide IndexOk;
    forall x | x in holes
      ensures SizeAt(m', x) == SizeAt(m, x)
    {
      if x + HEADER <= |m| {
        HeaderFrame(m, m', x);
      }
    }
    IndexFrame(m, m', idx, holes);
  }

  /** Memory after the block, and the hole behind it, have been written. */
  function BlockBytes(m: seq<byte>, pos: nat, room: nat, need: nat): (r: seq<byte>)
    requires TAGS <= need <= room && pos + room <= |m| <= WORD64
    ensures |r| == |m|
  {
    var n := Cut(room, need);
    var m1 := WriteTile(m, Tile(pos, pos + n, false, false));
    if n < room then WriteTile(m1, Tile(pos + n, pos + room, true, false)) else m1
  }

  function RestHole(pos: nat, room: nat, need: nat): set<nat>
    requires need <= room
  {
    if Cut(room, need) < room then {pos + Cut(room, need)} else {}
  }

  lemma BlockBytesOk(m: seq<byte>, pos: nat, room: nat, need: nat)
    requires TAGS <= need <= room < WORD && pos + room <= |m| <= WORD64
    ensures SameOutside(m, BlockBytes(m, pos, room, need), pos, pos + room)
  {
    hide WriteTile;
    var n := Cut(room, need);
    WrittenTags(m, Tile(pos, pos + n, false, false));
    if n < room {
      WrittenTags(WriteTile(m, Tile(pos, pos + n, false, false)), Tile(pos + n, pos + room, true, false));
    }
  }

  lemma WriteIs(m: seq<byte>, t: Tile)
    requires t.lo + TAGS <= t.hi <= |m| <= WORD64
    ensures WriteTile(m, t) == PutFooter(PutHeader(m, t.lo, if t.hole then 1 else 0, t.hi - t.lo), t.hi - FOOTER, t.lo)
  {
  }

  lemma PadOffset(h: nat)
    ensures Pad(h) == if (h + HEADER) % PAGE != 0 then PAGE - (h + HEADER) % PAGE else 0
  {
  }

  lemma PadIs(h: nat)
    ensures (h + HEADER) % PAGE == 0 ==> Pad(h) == 0
    ensures (h + HEADER) % PAGE != 0 ==> h + HEADER <= (h + HEADER + PAGE - 1) / PAGE * PAGE == h + HEADER + Pad(h)
  {
    var q, r := (h + HEADER) / PAGE, (h + HEADER) % PAGE;
    if r != 0 {
      assert (h + HEADER + PAGE - 1) / PAGE == q + 1;
    }
  }

  /** Memory after the alignment prefix, if any, has been written. */
  function PrefixBytes(m: seq<byte>, h: nat, align: bool): (r: seq<byte>)
    requires h + Prefix(h, align) <= |m| <= WORD64
    ensures |r| == |m|
  {
    if Prefix(h, align) >= TAGS then WriteTile(m, Tile(h, h + Prefix(h, align), true, false)) else m
  }

  function PrefixHole(h: nat, align: bool): set<nat>
  {
    if Prefix(h, align) >= TAGS then {h} else {}
  }

  lemma CarvedWritable(m: seq<byte>, t: Tile, need: nat, align: bool)
    requires Fits(t, need, align) && t.hi <= |m| <= WORD64 && t.hi - t.lo < WORD && !Slack(t.lo, align)
    ensures Writable(m, Carved(t, need, align))
  {
    hide Chain, Carved, Fits, Slack;
    CarvedChain(t, need, align);
    var c := Carved(t, need, align);
    forall u | u in c
      ensures t.lo <= u.lo && u.hi <= t.hi
    {
      ChainWithin(c, t.lo, t.hi, u);
    }
  }

  lemma CarvedHoles(t: Tile, need: nat, align: bool)
    requires Fits(t, need, align) && !Slack(t.lo, align)
    ensures var lo := t.lo + Prefix(t.lo, align);
            Holes(Carved(t, need, align)) == PrefixHole(t.lo, align) + RestHole(lo, t.hi - lo, need)
  {
    hide Pad;
  }

  /** Without slack the two writing steps write exactly the carved tiles. */
  lemma CarvedBytes(m: seq<byte>, t: Tile, need: nat, align: bool)
    requires Fits(t, need, align) && t.hi <= |m| <= WORD64 && t.hi - t.lo < WORD && !Slack(t.lo, align)
    requires Writable(m, Carved(t, need, align))
    ensures var lo := t.lo + Prefix(t.lo, align);
            BlockBytes(PrefixBytes(m, t.lo, align), lo, t.hi - lo, need) == WriteTiles(m, Carved(t, need, align))
  {
    hide Pad, WriteTile, Fits, Writable, WriteTiles;
    var b := BlockOf(t, need, align);
    var c, r := Carved(t, need, align), BlockAndRest(b, t.hi);
    if t.lo < b.lo {
      var p := Tile(t.lo, b.lo, true, false);
      WriteFirst(m, p, r);
      WriteRest(WriteTile(m, p), b, t.hi);
    } else {
      WriteRest(m, b, t.hi);
    }
  }

  lemma WriteFirst(m: seq<byte>, p: Tile, r: seq<Tile>)
    requires Writable(m, [p] + r)
    ensures p.lo + TAGS <= p.hi <= |m| && Writable(WriteTile(m, p), r)
    ensures WriteTiles(m, [p] + r) == WriteTiles(WriteTile(m, p), r)
  {
    assert ([p] + r)[0] == p && ([p] + r)[1..] == r;
    WritableRest(m, WriteTile(m, p), [p] + r);
  }

  lemma WriteRest(m: seq<byte>, b: Tile, hi: nat)
    requires Writable(m, BlockAndRest(b, hi))
    ensures b.lo + TAGS <= b.hi <= |m|
    ensures b.hi < hi ==> b.hi + TAGS <= hi <= |m|
    ensures WriteTiles(m, BlockAndRest(b, hi)) ==
            if b.hi < hi then WriteTile(WriteTile(m, b), Tile(b.hi, hi, true, false)) else WriteTile(m, b)
  {
    if b.hi < hi {
      WriteTwo(m, b, Tile(b.hi, hi, true, false));
    } else {
      WriteOne(m, b);
    }
  }

  lemma WriteOne(m: seq<byte>, a: Tile)
    requires Writable(m, [a])
    ensures a in [a] && WriteTiles(m, [a]) == WriteTile(m, a)
  {
    assert [a][1..] == [];
  }

  lemma WriteTwo(m: seq<byte>, a: Tile, b: Tile)
    requires Writable(m, [a, b])
    ensures a in [a, b] && b in [a, b] && WriteTiles(m, [a, b]) == WriteTile(WriteTile(m, a), b)
  {
    assert a in [a, b] && b in [a, b];
    assert [a, b][1..] == [b];
    WriteOne(WriteTile(m, a), b);
  }

  /** The hole at an indexed address can serve a request. */
  predicate FitsAt(m: seq<byte>, p: nat, need: nat, align: bool)
  {
    Prefix(p, align) + need <= SizeAt(m, p)
  }

  /** Every index entry is the header of a hole. */
  lemma HoleTile(m: seq<byte>, idx: seq<nat>, start: nat, end: nat, tiles: seq<Tile>, i: nat) returns (k: nat)
    requires HeapOk(m, idx, start, end, tiles) && i < |idx|
    ensures k < |tiles| && tiles[k].lo == idx[i] && tiles[k].hole && TagsOk(m, tiles[k])
    ensures start <= tiles[k].lo && tiles[k].hi <= end && SizeAt(m, idx[i]) == tiles[k].hi - tiles[k].lo
    ensures forall need, align :: TAGS <= need ==> (FitsAt(m, idx[i], need, align) <==> Fits(tiles[k], need, align))
  {
    assert idx[i] in Holes(tiles);
    var t :| t in tiles && t.hole && t.lo == idx[i];
    k :| 0 <= k < |tiles| && tiles[k] == t;
    ChainSplit(tiles, k, start, end);
    assert TagsOk(m, t);
  }

  lemma OthersClear(m: seq<byte>, idx: seq<nat>, start: nat, end: nat, tiles: seq<Tile>, k: nat)
    requires HeapBut(m, idx, start, end, tiles, k) && k < |tiles| && tiles[k].lo < tiles[k].hi
    ensures Clear(OtherHoles(tiles, k, k + 1), tiles[k].lo, tiles[k].hi) && tiles[k].lo !in OtherHoles(tiles, k, k + 1)
    ensures IndexOk(m, idx, OtherHoles(tiles, k, k + 1))
  {
    hide Chain, Tagged;
    var holes := OtherHoles(tiles, k, k + 1);
    forall x | x in holes
      ensures x + HEADER <= tiles[k].lo || tiles[k].hi <= x
    {
      OthersOutside(m, start, end, tiles, k, x);
    }
  }

  lemma HeapFacts(m: seq<byte>, idx: seq<nat>, start: nat, end: nat, tiles: seq<Tile>)
    requires HeapOk(m, idx, start, end, tiles)
    ensures |m| <= WORD64 && start < end <= |m| && end - start < WORD
  {
  }

  lemma ClearWithin(holes: set<nat>, lo: nat, hi: nat, a: nat, b: nat)
    requires Clear(holes, lo, hi) && lo <= a <= b <= hi
    ensures Clear(holes, a, b)
  {
  }

  /** What is clear of the whole hole is clear of the room behind the prefix. */
  lemma ClearPrefix(holes: set<nat>, t: Tile, align: bool)
    requires Clear(holes, t.lo, t.hi) && t.lo + Prefix(t.lo, align) <= t.hi
    ensures Clear(holes + PrefixHole(t.lo, align), t.lo + Prefix(t.lo, align), t.hi)
  {
    hide Pad;
  }

  ghost predicate Cuttable(m: seq<byte>, t: Tile, need: nat, align: bool)
  {
    Fits(t, need, align) && t.hi <= |m| <= WORD64 && t.hi - t.lo < WORD
  }

  /** Memory and new holes after both cuts. */
  ghost function CutBytes(m: seq<byte>, t: Tile, need: nat, align: bool): (r: seq<byte>)
    requires Cuttable(m, t, need, align)
    ensures |r| == |m|
  {
    var lo := t.lo + Prefix(t.lo, align);
    BlockBytes(PrefixBytes(m, t.lo, align), lo, t.hi - lo, need)
  }

  ghost function CutHoles(t: Tile, need: nat, align: bool): set<nat>
    requires Fits(t, need, align)
  {
    var lo := t.lo + Prefix(t.lo, align);
    PrefixHole(t.lo, align) + RestHole(lo, t.hi - lo, need)
  }

  /** Without slack the cuts leave the carved heap. */
  lemma CutClean(m: seq<byte>, idx: seq<nat>, start: nat, end: nat, tiles: seq<Tile>, k: nat, need: nat, align: bool, idx': seq<nat>)
    requires k < |tiles| && HeapBut(m, idx, start, end, tiles, k) && Cuttable(m, tiles[k], need, align) && !Slack(tiles[k].lo, align)
    requires IndexOk(CutBytes(m, tiles[k], need, align), idx', OtherHoles(tiles, k, k + 1) + CutHoles(tiles[k], need, align))
    ensures HeapOk(CutBytes(m, tiles[k], need, align), idx', start, end, Splice(tiles, k, Carved(tiles[k], need, align), k + 1))
    ensures SameOutside(m, CutBytes(m, tiles[k], need, align), tiles[k].lo, tiles[k].hi)
  {
    hide HeapBut, Chain, IndexOk, BlockBytes, PrefixBytes, RestHole, PrefixHole, Prefix, Slack, HeapOk, Carved, Fits, SameOutside, WriteTiles;
    var t := tiles[k];
    CarvedWritable(m, t, need, align);
    CarvedHoles(t, need, align);
    CarvedBytes(m, t, need, align);
    CarvedChain(t, need, align);
    CarveOk(m, idx, start, end, tiles, k, Carved(t, need, align), CutBytes(m, t, need, align), idx');
  }

  /** With slack nothing explains what they leave. */
  lemma CutSlack(m: seq<byte>, idx: seq<nat>, start: nat, end: nat, tiles: seq<Tile>, k: nat, need: nat, align: bool, idx': seq<nat>)
    requires HeapBut(m, idx, start, end, tiles, k) && Cuttable(m, tiles[k], need, align) && Slack(tiles[k].lo, align)
    requires TagsOk(m, tiles[k]) && tiles[k].hole
    requires IndexOk(CutBytes(m, tiles[k], need, align), idx', OtherHoles(tiles, k, k + 1) + CutHoles(tiles[k], need, align))
    ensures forall tiles' :: !HeapOk(CutBytes(m, tiles[k], need, align), idx', start, end, tiles')
    ensures SameOutside(m, CutBytes(m, tiles[k], need, align), tiles[k].lo, tiles[k].hi)
  {
    hide Chain, TagsOk, HeapOk, CutBytes, CutHoles, Fits, Slack, Prefix;
    var t := tiles[k];
    OthersClear(m, idx, start, end, tiles, k) by { TagsFacts(m, t); }
    SlackBytes(m, t, need, align);
    forall tiles'
      ensures !HeapOk(CutBytes(m, t, need, align), idx', start, end, tiles')
    {
      SlackBreaks(m, CutBytes(m, t, need, align), idx', start, end, tiles, k, tiles');
    }
  }

  lemma SlackBytes(m: seq<byte>, t: Tile, need: nat, align: bool)
    requires TagsOk(m, t) && t.hole && Cuttable(m, t, need, align) && Slack(t.lo, align)
    ensures CutBytes(m, t, need, align)[t.lo + 4] != 0 && t.lo !in CutHoles(t, need, align)
    ensures SameOutside(m, CutBytes(m, t, need, align), t.lo, t.hi)
  {
    hide TagsOk, Pad, BlockBytes, SameOutside;
    TagsByte(m, t);
    var lo := t.lo + Prefix(t.lo, align);
    BlockBytesOk(m, lo, t.hi - lo, need);
    SlackBlock(m, t.lo, lo, t.hi - lo, need);
    SameOutsideWider(m, BlockBytes(m, lo, t.hi - lo, need), lo, t.lo, t.hi);
  }

  lemma TagsByte(m: seq<byte>, t: Tile)
    requires TagsOk(m, t) && t.hole
    ensures t.lo + TAGS <= t.hi <= |m| && m[t.lo + 4] == 1
  {
    assert HeaderAt(m, t.lo).hole == m[t.lo + 4];
  }

  lemma SameOutsideWider(m: seq<byte>, m': seq<byte>, a: nat, lo: nat, hi: nat)
    requires SameOutside(m, m', a, hi) && lo <= a
    ensures SameOutside(m, m', lo, hi)
  {
  }

  lemma SlackBlock(m: seq<byte>, h: nat, lo: nat, room: nat, need: nat)
    requires h < lo < h + TAGS && h + 4 < |m| && m[h + 4] == 1 && TAGS <= need <= room < WORD && lo + room <= |m| <= WORD64
    ensures BlockBytes(m, lo, room, need)[h + 4] != 0
  {
    hide PutHeader, WriteTile, SameOutside, HeaderAt;
    var n := Cut(room, need);
    StaleByte(m, h, lo, n);
    SlackRest(m, Tile(lo, lo + n, false, false), lo + room, h + 4);
  }

  /** Nothing written behind the block's header touches its first bytes. */
  lemma SlackRest(m: seq<byte>, b: Tile, hi: nat, a: nat)
    requires b.lo + TAGS <= b.hi <= hi <= |m| <= WORD64 && hi - b.lo < WORD && !b.hole && a < b.lo + HEADER
    requires b.hi < hi ==> b.hi + TAGS <= hi
    ensures WriteTile(m, b)[a] == PutHeader(m, b.lo, 0, b.hi - b.lo)[a]
    ensures b.hi < hi ==> WriteTile(WriteTile(m, b), Tile(b.hi, hi, true, false))[a] == WriteTile(m, b)[a]
  {
    hide PutHeader, PutFooter, HeaderAt, FooterAt, Get32, TagsOk;
    if b.hi < hi {
      WrittenTags(WriteTile(m, b), Tile(b.hi, hi, true, false));
    }
  }

  // ----- Freeing

  lemma FreedLive(start: nat, end: nat, tiles: seq<Tile>, k: nat)
    requires Chain(tiles, start, end) && k < |tiles|
    ensures Live(Freed(tiles, k)) == Live(tiles) - {tiles[k]}
  {
    hide Chain;
    SpliceLive(start, end, tiles, k, []);
    SpliceHoles(tiles, k, [], k + 1);
    var i, j := if JoinsLeft(tiles, k) then k - 1 else k, if JoinsRight(tiles, k) then k + 2 else k + 1;
    var u := Tile(tiles[i].lo, tiles[j - 1].hi, true, false);
    SpliceHoles(tiles, i, [u], j);
    assert Live([u]) == {};
    LiveStep(tiles, k, i, j);
  }

  lemma LiveStep(tiles: seq<Tile>, k: nat, i: nat, j: nat)
    requires k < |tiles| && (i == k || (i + 1 == k && tiles[i].hole)) && (j == k + 1 || (j == k + 2 <= |tiles| && tiles[k + 1].hole))
    ensures Live(tiles[..i]) == Live(tiles[..k]) && Live(tiles[j..]) == Live(tiles[k + 1..])
  {
    if i + 1 == k {
      assert tiles[..k] == tiles[..i] + [tiles[i]];
    }
    if j == k + 2 {
      assert tiles[k + 1..] == [tiles[k + 1]] + tiles[j..];
    }
  }

  /** The stretch a release may write to: the block and the holes it joins. */
  ghost function ReachLo(tiles: seq<Tile>, k: nat): nat
    requires k < |tiles|
  {
    if JoinsLeft(tiles, k) then tiles[k - 1].lo else tiles[k].lo
  }

  ghost function ReachHi(tiles: seq<Tile>, k: nat): nat
    requires k < |tiles|
  {
    if JoinsRight(tiles, k) then tiles[k + 1].hi else tiles[k].hi
  }

  lemma ReachWide(m: seq<byte>, idx: seq<nat>, start: nat, end: nat, tiles: seq<Tile>, k: nat)
    requires HeapBut(m, idx, start, end, tiles, k) && k < |tiles|
    ensures ReachLo(tiles, k) <= tiles[k].lo < tiles[k].hi <= ReachHi(tiles, k)
  {
    ChainSplit(tiles, k, start, end);
    if JoinsLeft(tiles, k) {
      ChainApart(tiles, start, end, k - 1, k);
      ChainSplit(tiles, k - 1, start, end);
    }
    if JoinsRight(tiles, k) {
      ChainApart(tiles, start, end, k, k + 1);
      ChainSplit(tiles, k + 1, start, end);
    }
  }

  lemma ThreeWrites(m: seq<byte>, m1: seq<byte>, m2: seq<byte>, m3: seq<byte>, a: nat, b: nat, lo: nat, hi: nat)
    requires SameOutside(m, m1, a, b) && SameOutside(m1, m2, a, hi) && SameOutside(m2, m3, lo, hi) && lo <= a <= b <= hi
    ensures SameOutside(m, m3, lo, hi)
  {
  }

  lemma ReachInSteps(tiles: seq<Tile>, k: nat)
    requires k < |tiles| && !tiles[k].bare
    ensures var t1 := MarkedTiles(tiles, k); var t2 := RightTiles(t1, k);
            && LeftTiles(t2, k) == Freed(tiles, k) && t1[k] == tiles[k].(hole := true)
            && ReachHi(t1, k) == ReachHi(tiles, k) == t2[k].hi && t2[k].lo == tiles[k].lo && ReachLo(t2, k) == ReachLo(tiles, k)
  {
    FreedInSteps(tiles, k);
    hide Freed;
  }

  lemma ReleaseKeeps(m: seq<byte>, m': seq<byte>, start: nat, end: nat, tiles: seq<Tile>, k: nat)
    requires Chain(tiles, start, end) && Tagged(m, tiles) && k < |tiles|
    requires SameOutside(m, m', ReachLo(tiles, k), ReachHi(tiles, k))
    ensures Live(Freed(tiles, k)) == Live(tiles) - {tiles[k]} && KeepsPayloads(m, m', Live(tiles) - {tiles[k]})
  {
    hide Chain, Tagged, SameOutside, KeepsPayloads;
    var i, j := if JoinsLeft(tiles, k) then k - 1 else k, if JoinsRight(tiles, k) then k + 2 else k + 1;
    KeptOutside(m, m', start, end, tiles, i, j);
    FreedLive(start, end, tiles, k);
    SpliceHoles(tiles, i, [Tile(tiles[i].lo, tiles[j - 1].hi, true, false)], j);
    assert Live([Tile(tiles[i].lo, tiles[j - 1].hi, true, false)]) == {};
    assert Live(tiles[..i]) + Live(tiles[j..]) == Live(tiles) - {tiles[k]};
  }

  // ----- Growing

  function RoundUp(n: nat): (r: nat)
    ensures n <= r < n + 4096 && r % 4096 == 0 && r < n + PAGE && r % PAGE == 0
  {
    (n + PAGE - 1) / PAGE * PAGE
  }

  /** The new pages as an unindexed hole at the end of the chain. */
  lemma Grown(m: seq<byte>, idx: seq<nat>, start: nat, end: nat, tiles: seq<Tile>, end': nat)
    requires HeapOk(m, idx, start, end, tiles) && end + TAGS <= end' <= |m| && end' - start < WORD && |m| <= WORD64
    ensures var t := Tile(end, end', true, false);
            && HeapBut(WriteTile(m, t), idx, start, end', tiles + [t], |tiles|)
            && TagsOk(WriteTile(m, t), t) && SameOutside(m, WriteTile(m, t), end, end')
  {
    var t := Tile(end, end', true, false);
    var m', r := WriteTile(m, t), tiles + [t];
    hide WriteTile, TagsOk, Chain, IndexOk, Holes;
    WrittenTags(m, t);
    OneTile(t);
    ChainConcat(tiles, [t], start, end, end');
    KeptBelow(m, m', start, end, tiles, end');
    assert r[..|tiles|] == tiles && r[|tiles| + 1..] == [];
    assert Holes(tiles) + Holes([]) == Holes(tiles) by { NoHoles(); }
    ClearFrame(m, m', idx, Holes(tiles), end, end');
  }

  lemma NoHoles()
    ensures Holes([]) == {}
  {
  }

  lemma KeptBelow(m: seq<byte>, m': seq<byte>, start: nat, end: nat, tiles: seq<Tile>, end': nat)
    requires Chain(tiles, start, end) && Tagged(m, tiles) && SameOutside(m, m', end, end')
    ensures Tagged(m', tiles) && Clear(Holes(tiles), end, end')
  {
    hide Chain, TagsOk;
    forall u | u in tiles
      ensures TagsOk(m', u) && u.lo + HEADER <= end
    {
      ChainWithin(tiles, start, end, u);
      TagsFacts(m, u);
      TagsFrame(m, m', u);
    }
  }

  /** Growing changes no live block and leaves a hole of at least the new size. */
  lemma GrownFreed(m: seq<byte>, m1: seq<byte>, m2: seq<byte>, idx: seq<nat>, start: nat, end: nat, tiles: seq<Tile>, end': nat)
    requires HeapOk(m, idx, start, end, tiles) && end + TAGS <= end'
    requires var r := tiles + [Tile(end, end', true, false)];
             && HeapBut(m1, idx, start, end', r, |tiles|) && SameOutside(m, m1, end, end')
             && SameOutside(m1, m2, ReachLo(r, |tiles|), ReachHi(r, |tiles|))
    ensures var r := tiles + [Tile(end, end', true, false)];
            && Live(Freed(r, |tiles|)) == Live(tiles) && KeepsPayloads(m, m2, Live(tiles))
            && exists t :: t in Freed(r, |tiles|) && t.hole && t.lo <= end && t.hi == end'
  {
    var n, u := |tiles|, Tile(end, end', true, false);
    var r := tiles + [u];
    hide Chain, IndexOk;
    ReleaseKeeps(m1, m2, start, end', r, n);
    assert Live(r) - {u} == Live(tiles);
    forall t | t in Live(tiles)
      ensures t.lo + TAGS <= t.hi <= |m| && Payload(m2, t) == Payload(m, t)
    {
      ChainWithin(tiles, start, end, t);
      TagsFacts(m, t);
      assert Payload(m1, t) == Payload(m, t);
    }
    var i := if JoinsLeft(r, n) then n - 1 else n;
    var v := Tile(r[i].lo, end', true, false);
    if JoinsLeft(r, n) {
      ChainApart(r, start, end', n - 1, n);
      ChainSplit(r, n - 1, start, end');
    }
    assert Freed(r, n)[i] == v;
  }

  /** A block cut from a hole is none of the blocks that were live. */
  lemma NewBlock(start: nat, end: nat, tiles: seq<Tile>, k: nat, need: nat, align: bool)
    requires Chain(tiles, start, end) && k < |tiles| && tiles[k].hole && Fits(tiles[k], need, align)
    ensures BlockOf(tiles[k], need, align) !in Live(tiles)
    ensures Live(Splice(tiles, k, Carved(tiles[k], need, align), k + 1)) == Live(tiles) + {BlockOf(tiles[k], need, align)}
  {
    hide Chain, Carved, Prefix;
    var b := BlockOf(tiles[k], need, align);
    if b in tiles {
      ChainWithin(tiles, start, end, tiles[k]);
      ChainSame(tiles, start, end, tiles[k], b);
    }
    SpliceLive(start, end, tiles, k, Carved(tiles[k], need, align));
    CarvedLive(tiles[k], need, align);
  }

  lemma CarveKeeps(m: seq<byte>, m': seq<byte>, start: nat, end: nat, tiles: seq<Tile>, k: nat)
    requires Chain(tiles, start, end) && Tagged(m, tiles) && k < |tiles| && tiles[k].hole
    requires SameOutside(m, m', tiles[k].lo, tiles[k].hi)
    ensures KeepsPayloads(m, m', Live(tiles))
  {
    hide Chain, Tagged, SameOutside, KeepsPayloads;
    KeptOutside(m, m', start, end, tiles, k, k + 1);
    SpliceHoles(tiles, k, [], k + 1);
    assert tiles[k..k + 1] == [tiles[k]];
    assert Live(tiles[..k]) + Live(tiles[k + 1..]) == Live(tiles);
  }

  lemma KeepsBoth(m: seq<byte>, m1: seq<byte>, m2: seq<byte>, live: set<Tile>)
    requires KeepsPayloads(m, m1, live) && KeepsPayloads(m1, m2, live)
    ensures KeepsPayloads(m, m2, live)
  {
  }

  /** A hole that fits is in the index and fits there. */
  lemma FitIndexed(m: seq<byte>, idx: seq<nat>, start: nat, end: nat, tiles: seq<Tile>, t: Tile, need: nat, align: bool) returns (j: nat)
    requires HeapOk(m, idx, start, end, tiles) && t in tiles && t.hole && Fits(t, need, align)
    ensures j < |idx| && idx[j] == t.lo && FitsAt(m, idx[j], need, align) && SizeAt(m, idx[j]) == t.hi - t.lo
  {
    hide Prefix, Chain;
    assert t.lo in Holes(tiles);
    j :| 0 <= j < |idx| && idx[j] == t.lo;
    assert TagsOk(m, t);
  }

  lemma IndexedHeaders(m: seq<byte>, idx: seq<nat>, start: nat, end: nat, tiles: seq<Tile>)
    requires HeapOk(m, idx, start, end, tiles)
    ensures forall j :: 0 <= j < |idx| ==> idx[j] + HEADER <= |m|
  {
    hide HeapOk, TagsOk;
    forall j | 0 <= j < |idx|
      ensures idx[j] + HEADER <= |m|
    {
      var k := HoleTile(m, idx, start, end, tiles, j);
      TagsFacts(m, tiles[k]);
    }
  }

  ghost predicate AnyFits(tiles: seq<Tile>, need: nat, align: bool)
  {
    exists t :: t in tiles && t.hole && Fits(t, need, align)
  }

  lemma PlainFits(t: Tile, need: nat)
    requires TAGS <= need && t.lo + need <= t.hi
    ensures Fits(t, need, false)
  {
  }

  lemma SizesSorted(m: seq<byte>, idx: seq<nat>, start: nat, end: nat, tiles: seq<Tile>, i: int, j: nat)
    requires HeapOk(m, idx, start, end, tiles) && i < |idx| && j < |idx|
    ensures 0 <= i <= j ==> SizeAt(m, idx[i]) <= SizeAt(m, idx[j])
  {
  }

  lemma KeepsSame(m: seq<byte>, idx: seq<nat>, start: nat, end: nat, tiles: seq<Tile>)
    requires HeapOk(m, idx, start, end, tiles)
    ensures KeepsPayloads(m, m, Live(tiles))
  {
    assert forall t :: t in tiles ==> TagsOk(m, t);
  }

  lemma CarveDone(m: seq<byte>, m': seq<byte>, idx: seq<nat>, start: nat, end: nat, tiles: seq<Tile>, k: nat, need: nat, align: bool)
    requires HeapOk(m, idx, start, end, tiles) && k < |tiles| && tiles[k].hole && Fits(tiles[k], need, align)
    requires SameOutside(m, m', tiles[k].lo, tiles[k].hi)
    ensures BlockOf(tiles[k], need, align) !in Live(tiles) && KeepsPayloads(m, m', Live(tiles))
    ensures Live(Splice(tiles, k, Carved(tiles[k], need, align), k + 1)) == Live(tiles) + {BlockOf(tiles[k], need, align)}
  {
    hide Chain, Tagged, IndexOk, SameOutside, KeepsPayloads, Carved, Fits;
    NewBlock(start, end, tiles, k, need, align);
    CarveKeeps(m, m', start, end, tiles, k);
  }

  /** The block holds the request, wastes less than another pair of tags, and
      an aligned one starts its payload on a page. */
  lemma BlockServes(t: Tile, size: nat, align: bool)
    requires Fits(t, size + TAGS, align)
    ensures var b := BlockOf(t, size + TAGS, align);
            && t.lo <= b.lo && b.hi <= t.hi && size <= b.hi - b.lo - TAGS < size + TAGS
            && (align ==> (b.lo + HEADER) % PAGE == 0) && (!align ==> b.lo == t.lo)
  {
    hide Pad;
  }

  // ----- Client stores

  lemma StoreTags(m: seq<byte>, t: Tile, u: Tile, a: nat, b: byte)
    requires TagsOk(m, t) && TagsOk(m, u) && t.lo + HEADER <= a < t.hi - FOOTER && (u == t || u.hi <= t.lo || t.hi <= u.lo)
    ensures TagsOk(m[a := b], u) && SizeAt(m[a := b], u.lo) == SizeAt(m, u.lo)
    ensures u != t ==> Payload(m[a := b], u) == Payload(m, u)
  {
    var m': seq<byte> := m[a := b];
    HeaderFrame(m, m', u.lo);
    FooterFrame(m, m', u.hi - FOOTER);
  }

  /** A store into a live payload changes that payload and nothing else. */
  lemma StoreOk(m: seq<byte>, idx: seq<nat>, start: nat, end: nat, tiles: seq<Tile>, t: Tile, a: nat, b: byte)
    requires HeapOk(m, idx, start, end, tiles) && t in tiles && TagsOk(m, t) && t.lo + HEADER <= a < t.hi - FOOTER
    ensures HeapOk(m[a := b], idx, start, end, tiles) && KeepsPayloads(m, m[a := b], Live(tiles) - {t})
    ensures Payload(m[a := b], t) == Payload(m, t)[a - t.lo - HEADER := b]
  {
    var m': seq<byte> := m[a := b];
    assert Payload(m', t) == Payload(m, t)[a - t.lo - HEADER := b];
    hide Chain, TagsOk, IndexOk, SizeAt;
    forall u | u in tiles
      ensures TagsOk(m', u) && SizeAt(m', u.lo) == SizeAt(m, u.lo) && u.lo + TAGS <= u.hi <= |m|
      ensures u != t ==> Payload(m', u) == Payload(m, u)
    {
      TagsFacts(m, u);
      TagsFacts(m, t);
      if u != t && u.lo < t.hi && t.lo < u.hi {
        ChainSame(tiles, start, end, u, t);
      }
      StoreTags(m, t, u, a, b);
    }
    IndexFrame(m, m', idx, Holes(tiles));
  }

  // ----- Holes stay apart

  /** No two holes are neighbours, and only tile k may lack its footer. */
  ghost predicate SettledBut(tiles: seq<Tile>, k: nat)
  {
    Coalesced(tiles) && forall i :: 0 <= i < |tiles| && i != k ==> !tiles[i].bare
  }

  lemma NearlySettled(tiles: seq<Tile>)
    ensures Settled(tiles) || |tiles| == 1 ==> forall k :: 0 <= k < |tiles| ==> SettledBut(tiles, k)
  {
  }

  lemma CarveSettles(tiles: seq<Tile>, k: nat, need: nat, align: bool)
    requires SettledBut(tiles, k) && k < |tiles| && tiles[k].hole && Fits(tiles[k], need, align)
    ensures Settled(Splice(tiles, k, Carved(tiles[k], need, align), k + 1))
  {
    hide Pad;
    var mid := Carved(tiles[k], need, align);
    var r := Splice(tiles, k, mid, k + 1);
    var d := |mid| - 1;
    assert forall i :: k + d < i < |r| ==> r[i] == tiles[i - d];
    assert forall i :: 0 <= i < k ==> r[i] == tiles[i];
    assert forall i :: k <= i <= k + d ==> r[i] == mid[i - k];
    forall i | 0 < i < |r|
      ensures !(r[i].hole && r[i - 1].hole)
    {
      if i < k {
        assert !(tiles[i].hole && tiles[i - 1].hole);
      } else if i > k + d {
        assert !(tiles[i - d].hole && tiles[i - d - 1].hole);
      } else if i == k {
        assert !(tiles[k].hole && tiles[k - 1].hole);
      }
    }
  }

  lemma FreeSettles(tiles: seq<Tile>, k: nat)
    requires Settled(tiles) && k < |tiles| && !tiles[k].hole
    ensures Settled(Freed(tiles, k))
  {
    var i, j := if JoinsLeft(tiles, k) then k - 1 else k, if JoinsRight(tiles, k) then k + 2 else k + 1;
    var r := Freed(tiles, k);
    assert forall x :: 0 <= x < i ==> r[x] == tiles[x];
    assert forall x :: i < x < |r| ==> r[x] == tiles[x + j - i - 1];
    if i > 0 {
      assert !tiles[i - 1].hole;
    }
    if j < |tiles| {
      assert !tiles[j].hole;
    }
  }

  lemma GrowSettles(tiles: seq<Tile>, u: Tile)
    requires Settled(tiles) && u.hole && !u.bare
    ensures Settled(Freed(tiles + [u], |tiles|))
  {
    var r, n := tiles + [u], |tiles|;
    var i := if JoinsLeft(r, n) then n - 1 else n;
    var f := Freed(r, n);
    assert |f| == i + 1 && forall x :: 0 <= x < i ==> f[x] == tiles[x];
    if i > 0 {
      assert !tiles[i - 1].hole;
    }
  }

  // ----- Round trip

  /** Freeing the block just cut from hole k gives back exactly that hole,
      now with a footer. */
  lemma FreeUndoesAlloc(tiles: seq<Tile>, k: nat, need: nat, align: bool)
    requires Coalesced(tiles) && k < |tiles| && tiles[k].hole && Fits(tiles[k], need, align)
    ensures var mid := Carved(tiles[k], need, align);
            var at := if tiles[k].lo < BlockOf(tiles[k], need, align).lo then k + 1 else k;
            at < |Splice(tiles, k, mid, k + 1)| && Freed(Splice(tiles, k, mid, k + 1), at) == tiles[k := tiles[k].(bare := false)]
  {
    hide Pad, Fits, Prefix;
    var t, b := tiles[k], BlockOf(tiles[k], need, align);
    var mid := Carved(t, need, align);
    var r := Splice(tiles, k, mid, k + 1);
    var at := if t.lo < b.lo then k + 1 else k;
    CarvedEnds(t, need, align);
    SpliceEnds(tiles, k, mid);
    assert r[at] == mid[at - k] == b;
    assert at > k ==> r[k].hole && !r[k].bare;
    assert at + 1 < k + |mid| ==> r[at + 1] == mid[at + 1 - k];
    JoinsAre(tiles, k, r, at, |mid|);
  }

  lemma CarvedEnds(t: Tile, need: nat, align: bool)
    requires Fits(t, need, align)
    ensures var c, b := Carved(t, need, align), BlockOf(t, need, align); var d := if t.lo < b.lo then 1 else 0;
            && d < |c| <= d + 2 && c[d] == b && c[0].lo == t.lo && c[|c| - 1].hi == t.hi
            && (d == 1 ==> c[0].hole && !c[0].bare) && (|c| == d + 2 ==> c[d + 1].hole)
  {
    hide Pad;
  }

  lemma SpliceEnds(tiles: seq<Tile>, k: nat, mid: seq<Tile>)
    requires k < |tiles|
    ensures var r := Splice(tiles, k, mid, k + 1);
            && |r| == |tiles| + |mid| - 1 && r[..k] == tiles[..k] && r[k + |mid|..] == tiles[k + 1..]
            && (forall i :: 0 <= i < |mid| ==> r[k + i] == mid[i])
            && (k > 0 ==> r[k - 1] == tiles[k - 1]) && (k + 1 < |tiles| ==> r[k + |mid|] == tiles[k + 1])
  {
  }

  lemma JoinsAre(tiles: seq<Tile>, k: nat, r: seq<Tile>, at: nat, n: nat)
    requires Coalesced(tiles) && k < |tiles| && tiles[k].hole && |r| == |tiles| + n - 1
    requires k <= at <= k + 1 && at < k + n <= at + 2
    requires r[..k] == tiles[..k] && r[k + n..] == tiles[k + 1..] && r[k].lo == tiles[k].lo && r[k + n - 1].hi == tiles[k].hi
    requires at > k ==> r[k].hole && !r[k].bare
    requires at + 1 < k + n ==> r[at + 1].hole
    requires (k > 0 ==> r[k - 1] == tiles[k - 1]) && (k + 1 < |tiles| ==> r[k + n] == tiles[k + 1])
    ensures Freed(r, at) == tiles[k := tiles[k].(bare := false)]
  {
    var i, j := if JoinsLeft(r, at) then at - 1 else at, if JoinsRight(r, at) then at + 2 else at + 1;
    assert i == k && j == k + n;
  }

  // ----- Slack

  /** Two tagged chains from the same start agree tile by tile. */
  lemma {:induction false} ChainsAgree(m: seq<byte>, a: seq<Tile>, b: seq<Tile>, lo: nat, hiA: nat, hiB: nat, k: nat)
    requires Chain(a, lo, hiA) && Chain(b, lo, hiB) && hiA < hiB && Tagged(m, a) && Tagged(m, b) && k == |a|
    ensures k < |b| && b[k].lo == hiA
  {
    if a != [] {
      assert TagsOk(m, a[0]);
      assert TagsOk(m, b[0]);
      assert a[0].hi == b[0].hi;
      ChainOrdered(a[1..], a[0].hi, hiA);
      ChainsAgree(m, a[1..], b[1..], a[0].hi, hiA, hiB, k - 1);
    } else {
      assert b != [];
    }
  }

  /** A block header written shortly behind the header of a hole does not
      clear that hole's is_hole byte: it lands on none or on a magic byte. */
  lemma StaleByte(m: seq<byte>, h: nat, pos: nat, n: nat)
    requires h < pos < h + TAGS && pos + HEADER <= |m| && m[h + 4] == 1
    ensures PutHeader(m, pos, 0, n)[h + 4] != 0
  {
    if pos <= h + 4 {
      var m1 := Put32(m, pos, MAGIC);
      assert m1[h + 4] == Bytes32(MAGIC)[h + 4 - pos];
      assert Bytes32(MAGIC) == [0xAB, 0x90, 0x38, 0x12];
      assert PutHeader(m, pos, 0, n)[h + 4] == m1[h + 4];
    }
  }

  /** A gap too small for a hole leaves a header behind that is not a block's
      and is not in the index: no tiling explains the heap any more. */
  lemma SlackBreaks(m: seq<byte>, m': seq<byte>, idx': seq<nat>, start: nat, end: nat, tiles: seq<Tile>, k: nat, tiles': seq<Tile>)
    requires Chain(tiles, start, end) && Tagged(m, tiles) && k < |tiles| && TagsOk(m, tiles[k])
    requires SameOutside(m, m', tiles[k].lo, tiles[k].hi)
    requires m'[tiles[k].lo + 4] != 0 && tiles[k].lo !in idx'
    ensures !HeapOk(m', idx', start, end, tiles')
  {
    var h := tiles[k].lo;
    var b := m'[h + 4];
    assert HeaderAt(m', h).hole == b;
    hide TagsOk, Chain, HeaderAt;
    ChainSplit(tiles, k, start, end);
    forall u | u in tiles[..k]
      ensures TagsOk(m', u)
    {
      ChainWithin(tiles[..k], start, h, u);
      TagsFrame(m, m', u);
    }
    if HeapOk(m', idx', start, end, tiles') {
      ChainsAgree(m', tiles[..k], tiles', start, h, end, k);
      TagsHole(m', tiles'[k]);
      assert false;
    }
  }

  lemma TagsHole(m: seq<byte>, t: Tile)
    requires TagsOk(m, t)
    ensures t.lo + HEADER <= |m| && (t.hole <==> HeaderAt(m, t.lo).hole != 0)
  {
  }

  // ----- Statistics

  ghost function LiveBytes(tiles: seq<Tile>): nat
    requires forall t :: t in tiles ==> t.lo <= t.hi
  {
    if tiles == [] then 0 else (if tiles[0].hole then 0 else tiles[0].hi - tiles[0].lo) + LiveBytes(tiles[1..])
  }

  function IndexSum(m: seq<byte>, idx: seq<nat>): nat
  {
    if idx == [] then 0 else IndexSum(m, idx[..|idx| - 1]) + SizeAt(m, idx[|idx| - 1])
  }

  lemma {:induction false} IndexSumRemoved(m: seq<byte>, idx: seq<nat>, i: nat)
    requires i < |idx|
    ensures IndexSum(m, idx) == IndexSum(m, Removed(idx, i)) + SizeAt(m, idx[i])
  {
    var n := |idx| - 1;
    if i < n {
      IndexSumRemoved(m, idx[..n], i);
      assert Removed(idx, i)[..n - 1] == Removed(idx[..n], i);
      assert Removed(idx, i)[n - 1] == idx[n];
    } else {
      assert Removed(idx, i) == idx[..n];
    }
  }

  /** What is not in the index is in a live block. */
  lemma {:induction false} BytesAddUp(m: seq<byte>, idx: seq<nat>, start: nat, end: nat, tiles: seq<Tile>)
    requires Chain(tiles, start, end) && Tagged(m, tiles) && IndexOk(m, idx, Holes(tiles))
    ensures forall t :: t in tiles ==> t.lo <= t.hi
    ensures end - start == LiveBytes(tiles) + IndexSum(m, idx)
    decreases |tiles|
  {
    assert |idx| == 0 || idx[0] in Holes(tiles);
    if tiles == [] {
      assert Holes(tiles) == {};
    } else {
      var t := tiles[0];
      assert TagsOk(m, t);
      HolesBut(start, end, tiles, 0);
      assert OtherHoles(tiles, 0, 1) == Holes(tiles[1..]) by { assert tiles[..0] == []; }
      assert Tagged(m, tiles[1..]);
      if t.hole {
        var i :| 0 <= i < |idx| && idx[i] == t.lo;
        RemovedOk(m, idx, Holes(tiles), i);
        IndexSumRemoved(m, idx, i);
        BytesAddUp(m, Removed(idx, i), t.hi, end, tiles[1..]);
      } else {
        assert tiles == [t] + tiles[1..];
        assert Holes(tiles) == Holes(tiles[1..]);
        BytesAddUp(m, idx, t.hi, end, tiles[1..]);
      }
    }
  }
}
