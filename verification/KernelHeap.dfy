/** The kernel heap of libc/kheap.c: a boundary-tag allocator over raw bytes with
    an index of its holes kept sorted by size. */
module KernelHeap {
  import opened Bytes
  import opened HeapBytes
  import opened HeapTiles
  import opened HeapSteps
  import opened HeapLaws

  lemma PlaceIs(m: seq<byte>, idx: seq<nat>, item: nat, k: nat)
    requires k <= |idx| && (forall i :: 0 <= i < k ==> SizeAt(m, idx[i]) < SizeAt(m, item))
    requires k < |idx| ==> SizeAt(m, idx[k]) >= SizeAt(m, item)
    ensures Inserted(m, idx, item) == idx[..k] + [item] + idx[k..]
  {
  }

  /** ordered_array_t: header addresses ordered by the size in the header. */
  class OrderedArray {
    const slots: array<nat>
    var count: nat

    ghost predicate Valid()
      reads this
    {
      count <= slots.Length
    }

    ghost function Contents(): seq<nat>
      reads this, slots
      requires Valid()
    {
      slots[..count]
    }

    constructor (max: nat)
      ensures Valid() && Contents() == [] && slots.Length == max && fresh(slots)
    {
      slots := new nat[max];
      count := 0;
    }

    /** False is the kernel's panic on a full index. */
    method Insert(m: seq<byte>, item: nat) returns (ok: bool)
      requires Valid()
      modifies this, slots
      ensures Valid() && ok == (old(count) < slots.Length) && count == (if ok then old(count) + 1 else old(count))
      ensures Contents() == if ok then Inserted(m, old(Contents()), item) else old(Contents())
    {
      hide SizeAt, Inserted;
      if count >= slots.Length {
        return false;
      }
      ghost var was := Contents();
      var k := 0;
      while k < count && SizeAt(m, slots[k]) < SizeAt(m, item)
        invariant k <= count && forall i :: 0 <= i < k ==> SizeAt(m, was[i]) < SizeAt(m, item)
      {
        k := k + 1;
      }
      PlaceIs(m, was, item, k);
      Shift(k);
      slots[k] := item;
      count := count + 1;
      ghost var now := Contents();
      assert forall i :: k < i < |now| ==> now[i] == was[i - 1];
      PutIn(was, now, k);
      return true;
    }

    /** Moves the entries from k on one place up. */
    method Shift(k: nat)
      requires k <= count < slots.Length
      modifies slots
      ensures forall i :: 0 <= i < k ==> slots[i] == old(slots[i])
      ensures forall i :: k < i <= count ==> slots[i] == old(slots[i - 1])
    {
      ghost var was := slots[..count];
      var j := count;
      while j > k
        invariant k <= j <= count < slots.Length
        invariant forall i :: 0 <= i < j ==> slots[i] == was[i]
        invariant forall i :: j < i <= count ==> slots[i] == was[i - 1]
      {
        slots[j] := slots[j - 1];
        j := j - 1;
      }
    }

    method RemoveAt(at: nat)
      requires Valid() && at < count
      modifies this, slots
      ensures Valid() && Contents() == Removed(old(Contents()), at) && count == old(count) - 1
    {
      ghost var was := Contents();
      var i := at;
      while i < count - 1
        invariant at <= i < count == |was| && Valid()
        invariant forall j :: 0 <= j < at ==> slots[j] == was[j]
        invariant forall j :: at <= j < i ==> slots[j] == was[j + 1]
        invariant forall j :: i <= j < count ==> slots[j] == was[j]
      {
        slots[i] := slots[i + 1];
        i := i + 1;
      }
      count := count - 1;
      assert Contents() == Removed(was, at);
    }

    /** The linear search by address; count when there is no such item. */
    method Find(x: nat) returns (i: nat)
      requires Valid()
      ensures i <= count && (i == count <==> x !in Contents()) && (i < count ==> Contents()[i] == x)
    {
      i := 0;
      while i < count && slots[i] != x
        invariant i <= count && x !in slots[..i]
      {
        i := i + 1;
      }
    }
  }

  const INDEX_SIZE: nat := 0x2_0000
  const INDEX_BYTES: nat := 0x10_0000  // eight bytes an entry

  lemma FirstHole(m: seq<byte>, lo: nat, hi: nat)
    requires lo + TAGS <= hi <= |m| <= WORD64 && hi - lo < WORD && Get32(m, hi - FOOTER) != MAGIC
    ensures var m', t := PutHeader(m, lo, 1, hi - lo), Tile(lo, hi, true, true);
            HeapOk(m', Inserted(m', [], lo), lo, hi, [t])
  {
    var m', t := PutHeader(m, lo, 1, hi - lo), Tile(lo, hi, true, true);
    FirstTags(m, lo, hi);
    hide TagsOk, PutHeader, Inserted;
    OneTile(t);
    assert Holes([t]) == {} + {lo};
    assert IndexOk(m', [], {});
    InsertedOk(m', [], {}, lo);
  }

  lemma FirstTags(m: seq<byte>, lo: nat, hi: nat)
    requires lo + TAGS <= hi <= |m| <= WORD64 && hi - lo < WORD && Get32(m, hi - FOOTER) != MAGIC
    ensures TagsOk(PutHeader(m, lo, 1, hi - lo), Tile(lo, hi, true, true))
  {
    hide PutHeader, HeaderAt;
    SmallRemainder(hi - lo);
  }

  /** A pointer whose header or footer lacks the magic number. */
  predicate Unmarked(m: seq<byte>, p: nat)
  {
    && HEADER <= p <= |m|
    && var h := p - HEADER;
    || Get32(m, h) != MAGIC
    || (FOOTER <= h + HeaderAt(m, h).size <= |m| && Get32(m, h + HeaderAt(m, h).size - FOOTER) != MAGIC)
  }

  lemma PutIn(a: seq<nat>, b: seq<nat>, k: nat)
    requires k <= |a| && |b| == |a| + 1 && (forall i :: 0 <= i < k ==> b[i] == a[i]) && forall i :: k < i < |b| ==> b[i] == a[i - 1]
    ensures b == a[..k] + [b[k]] + a[k..]
  {
  }

  /** heap_t. */
  class Heap {
    var mem: seq<byte>
    const index: OrderedArray
    const start: nat
    var end: nat
    const max: nat
    ghost var tiles: seq<Tile>

    ghost predicate Shape()
      reads this, index
    {
      index.Valid() && start % PAGE == 0 && end % PAGE == 0 && end <= max <= |mem|
    }

    ghost predicate Valid()
      reads this, index, index.slots
    {
      Shape() && HeapOk(mem, index.Contents(), start, end, tiles)
    }

    /** Valid, but tile k is not in the index. */
    ghost predicate Loose(k: nat)
      reads this, index, index.slots
    {
      k < |tiles| && Shape() && HeapBut(mem, index.Contents(), start, end, tiles, k)
    }

    /** create_heap: the index takes the first megabyte, the rest is one hole
        that has a header and, so far, no footer. Fresh memory does not happen
        to hold the magic number where that footer will be looked for. */
    constructor (base: nat, end0: nat, max0: nat, fresh0: seq<byte>)
      requires end0 % PAGE == 0 && RoundUp(base + 0x10_0000) + TAGS <= end0 <= max0 <= |fresh0| <= WORD64
      requires end0 - RoundUp(base + 0x10_0000) < WORD && Get32(fresh0, end0 - FOOTER) != MAGIC
      ensures Valid() && fresh(index) && fresh(index.slots) && index.slots.Length == 0x2_0000 && end == end0 && max == max0
      ensures start == RoundUp(base + 0x10_0000) && tiles == [Tile(start, end, true, true)] && index.count == 1
    {
      hide HeapOk, PutHeader, Inserted, Get32, HeaderAt, RoundUp;
      var first := RoundUp(base + INDEX_BYTES);
      var idx := new OrderedArray(INDEX_SIZE);
      index := idx;
      start := first;
      end := end0;
      max := max0;
      mem := PutHeader(fresh0, first, 1, end0 - first);
      tiles := [Tile(first, end0, true, true)];
      new;
      FirstHole(fresh0, first, end0);
      var ok := index.Insert(mem, first);
    }

    /** The part of free_internal that absorbs a free right neighbour; h and f
        are the header and the footer of tile k. */
    method MergeRight(h: nat, f: nat, ghost k: nat) returns (f': nat)
      requires Loose(k) && TagsOk(mem, tiles[k]) && tiles[k].hole && !tiles[k].bare
      requires h == tiles[k].lo && f == tiles[k].hi - FOOTER && h + TAGS <= f + FOOTER <= |mem|
      modifies this, index, index.slots
      ensures Loose(k) && tiles == RightTiles(old(tiles), k)
      ensures TagsOk(mem, tiles[k]) && tiles[k].hole && !tiles[k].bare && tiles[k].lo == h && f' == tiles[k].hi - FOOTER
      ensures h + TAGS <= f' + FOOTER <= |mem|
      ensures end == old(end) && SameOutside(old(mem), mem, h, ReachHi(old(tiles), k)) && index.count <= old(index.count)
    {
      hide HeapBut, HeaderAt, FooterAt, Get32, Get64, AddSize, PutFooter, JoinsRight, TagsOk, Splice;
      ghost var idx := index.Contents();
      RightSeen(mem, idx, start, end, tiles, k);
      f' := f;
      var n := f + FOOTER;
      if n >= start && n + HEADER <= end && HeaderAt(mem, n).magic == MAGIC && HeaderAt(mem, n).hole != 0 {
        var i := index.Find(n);
        RightStored(mem, idx, start, end, tiles, k, i);
        ghost var r := RightTiles(tiles, k);
        mem := AddSize(mem, h, HeaderAt(mem, n).size);
        if i < index.count {
          index.RemoveAt(i);
        }
        f' := h + HeaderAt(mem, h).size - FOOTER;
        mem := PutFooter(mem, f', h);
        tiles := r;
      }
    }

    /** The part that lets a free left neighbour absorb tile k. */
    method MergeLeft(h: nat, f: nat, ghost k: nat) returns (h': nat, ghost k': nat)
      requires Loose(k) && TagsOk(mem, tiles[k]) && tiles[k].hole && !tiles[k].bare
      requires h == tiles[k].lo && f == tiles[k].hi - FOOTER && h + TAGS <= f + FOOTER <= |mem|
      modifies this, index, index.slots
      ensures Loose(k') && tiles == LeftTiles(old(tiles), k) && tiles[k'].hole && h' == tiles[k'].lo
      ensures index.count <= old(index.count) && end == old(end) && SameOutside(old(mem), mem, ReachLo(old(tiles), k), f + FOOTER)
    {
      hide HeapBut, HeaderAt, FooterAt, Get32, Get64, AddSize, Retarget, JoinsLeft, TagsOk, Splice;
      ghost var idx := index.Contents();
      LeftSeen(mem, idx, start, end, tiles, k);
      h', k' := h, k;
      if h >= start + FOOTER && Get32(mem, h - FOOTER) == MAGIC {
        var prev := FooterAt(mem, h - FOOTER).header;
        if prev >= start && prev + HEADER <= end && HeaderAt(mem, prev).magic == MAGIC && HeaderAt(mem, prev).hole != 0 {
          var i := index.Find(prev);
          LeftStored(mem, idx, start, end, tiles, k, i);
          ghost var r := LeftTiles(tiles, k);
          mem := AddSize(mem, prev, HeaderAt(mem, h).size);
          mem := Retarget(mem, f, prev);
          h', k' := prev, k - 1;
          if i < index.count {
            index.RemoveAt(i);
          }
          tiles := r;
        }
      }
    }

    /** The end of free_internal: merge left and enter the hole in the index. */
    method Settle(h: nat, f: nat, ghost k: nat) returns (ok: bool)
      requires Loose(k) && TagsOk(mem, tiles[k]) && tiles[k].hole && !tiles[k].bare
      requires h == tiles[k].lo && f == tiles[k].hi - FOOTER && h + TAGS <= f + FOOTER <= |mem|
      modifies this, index, index.slots
      ensures ok ==> Valid() && tiles == LeftTiles(old(tiles), k)
      ensures !ok ==> index.count == index.slots.Length
      ensures old(index.count) < index.slots.Length ==> ok
      ensures end == old(end) && SameOutside(old(mem), mem, ReachLo(old(tiles), k), f + FOOTER)
    {
      hide HeapBut, HeapOk, LeftTiles, ReachLo, TagsOk, SameOutside;
      var h', k' := MergeLeft(h, f, k);
      PutBack(mem, index.Contents(), start, end, tiles, k');
      ok := index.Insert(mem, h');
    }

    /** The body of free_internal, past its checks: h and f are the header and
        the footer of tile k, a block or an unindexed hole. */
    method Release(h: nat, f0: nat, ghost k: nat) returns (ok: bool)
      requires Loose(k) && !tiles[k].bare && TagsOk(mem, tiles[k]) && h == tiles[k].lo && f0 + FOOTER == tiles[k].hi
      modifies this, index, index.slots
      ensures ok ==> Valid() && tiles == Freed(old(tiles), k)
      ensures !ok ==> index.count == index.slots.Length
      ensures old(index.count) < index.slots.Length ==> ok
      ensures end == old(end) && SameOutside(old(mem), mem, ReachLo(old(tiles), k), ReachHi(old(tiles), k))
    {
      hide HeapBut, HeapOk, Freed, LeftTiles, RightTiles, MarkedTiles, ReachLo, ReachHi, Chain, Tagged;
      hide HeaderAt, FooterAt, Get32, Get64, MarkHole, TagsOk, SameOutside;
      ReachWide(mem, index.Contents(), start, end, tiles, k);
      ReachInSteps(tiles, k);
      TagsFacts(mem, tiles[k]);
      ghost var t, m0 := tiles[k], mem;
      ghost var lo, hi := ReachLo(tiles, k), ReachHi(tiles, k);
      Marked(mem, index.Contents(), start, end, tiles, k);
      mem := MarkHole(mem, h);
      ghost var m1 := mem;
      tiles := MarkedTiles(tiles, k);
      var f := MergeRight(h, f0, k);
      ghost var m2 := mem;
      ok := Settle(h, f, k);
      ThreeWrites(m0, m1, m2, mem, t.lo, t.hi, lo, hi);
    }

    /** free_internal: a pointer without the magic number is ignored. False is
        the panic on a full index. */
    method FreeInternal(p: nat, ghost k: nat) returns (ok: bool)
      requires p == 0 || Unmarked(mem, p) || (Loose(k) && !tiles[k].bare && TagsOk(mem, tiles[k]) && p == tiles[k].lo + HEADER)
      modifies this, index, index.slots
      ensures p == 0 || old(Unmarked(mem, p)) ==> ok && unchanged(this) && unchanged(index) && unchanged(index.slots)
      ensures p != 0 && !old(Unmarked(mem, p)) ==>
                && (ok ==> Valid() && tiles == Freed(old(tiles), k))
                && (!ok ==> index.count == index.slots.Length) && (old(index.count) < index.slots.Length ==> ok)
                && end == old(end) && SameOutside(old(mem), mem, ReachLo(old(tiles), k), ReachHi(old(tiles), k))
    {
      hide HeapBut, HeapOk, Freed, ReachLo, ReachHi, HeaderAt, Get32, TagsOk, SameOutside;
      if p == 0 {
        return true;
      }
      if !Unmarked(mem, p) {
        TagsFacts(mem, tiles[k]);
      }
      var h := p - HEADER;
      if Get32(mem, h) != MAGIC {
        return true;
      }
      var f := h + HeaderAt(mem, h).size - FOOTER;
      if Get32(mem, f) != MAGIC {
        return true;
      }
      ok := Release(h, f, k);
    }

    ghost predicate LiveAt(p: nat)
      reads this
    {
      exists k :: 0 <= k < |tiles| && !tiles[k].hole && tiles[k].lo + HEADER == p
    }

    /** free: of nothing, of something that is no block, or of a live block. */
    method Free(p: nat) returns (ok: bool, ghost k: nat)
      requires Valid() && (p == 0 || Unmarked(mem, p) || LiveAt(p))
      modifies this, index, index.slots
      ensures p == 0 || old(Unmarked(mem, p)) ==> ok && unchanged(this) && unchanged(index) && unchanged(index.slots)
      ensures p != 0 && !old(Unmarked(mem, p)) ==>
                && k < |old(tiles)| && !old(tiles)[k].hole && old(tiles)[k].lo + HEADER == p
                && (!ok ==> index.count == index.slots.Length) && (old(index.count) < index.slots.Length ==> ok)
                && (ok ==> Valid() && end == old(end) && tiles == Freed(old(tiles), k)
                           && Live(tiles) == old(Live(tiles)) - {old(tiles)[k]} && KeepsPayloads(old(mem), mem, Live(tiles))
                           && (old(Settled(tiles)) ==> Settled(tiles)))
    {
      hide HeapBut, Freed, ReachLo, ReachHi, SameOutside, KeepsPayloads, Live, Chain, IndexOk, Get32, HeaderAt;
      k := 0;
      ghost var m, was := mem, tiles;
      if p != 0 && !Unmarked(mem, p) {
        k :| 0 <= k < |tiles| && !tiles[k].hole && tiles[k].lo + HEADER == p;
        OkIsBut(mem, index.Contents(), start, end, tiles, k);
        assert TagsOk(mem, tiles[k]);
      }
      ok := FreeInternal(p, k);
      if p != 0 && !Unmarked(m, p) {
        ReleaseKeeps(m, mem, start, end, was, k);
        if Settled(was) {
          FreeSettles(was, k);
        }
      }
    }

    /** The alignment part of alloc: a prefix large enough becomes a hole. */
    method CutPrefix(h: nat, align: bool, ghost holes: set<nat>) returns (pos: nat, ok: bool)
      requires index.Valid() && IndexOk(mem, index.Contents(), holes) && h !in holes
      requires Clear(holes, h, h + Prefix(h, align)) && h + Prefix(h, align) + HEADER <= |mem| <= WORD64
      modifies this`mem, index, index.slots
      ensures index.Valid() && pos == h + Prefix(h, align)
      ensures !ok ==> index.count == index.slots.Length
      ensures (old(index.count) < index.slots.Length ==> ok) && index.count <= old(index.count) + 1
      ensures mem == PrefixBytes(old(mem), h, align)
      ensures ok ==> IndexOk(mem, index.Contents(), holes + PrefixHole(h, align))
    {
      hide IndexOk, Inserted, PutHeader, PutFooter, Clear, Pad, TagsOk, SameOutside, HeaderAt, FooterAt, Get32;
      PadIs(h);
      pos, ok := h, true;
      if align && (h + HEADER) % PAGE != 0 {
        var up := (h + HEADER + PAGE - 1) / PAGE * PAGE;
        pos := up - HEADER;
        var prefix := pos - h;
        if prefix >= TAGS {
          ghost var m, idx := mem, index.Contents();
          mem := PutHeader(mem, h, 1, prefix);
          mem := PutFooter(mem, pos - FOOTER, h);
          WrittenTags(m, Tile(h, pos, true, false));
          ClearFrame(m, mem, idx, holes, h, pos);
          InsertedOk(mem, idx, holes, h);
          ok := index.Insert(mem, h);
        }
      }
      assert Prefix(h, align) < TAGS ==> holes + PrefixHole(h, align) == holes;
    }

    /** The rest of alloc: the block at pos, and a hole behind it when enough of
        the room is left. */
    method CutBlock(pos: nat, room0: nat, size0: nat, ghost holes: set<nat>) returns (p: nat, ok: bool)
      requires index.Valid() && IndexOk(mem, index.Contents(), holes) && Clear(holes, pos, pos + room0)
      requires size0 + TAGS <= room0 < WORD && pos + room0 <= end && end <= |mem| <= WORD64
      modifies this`mem, index, index.slots
      ensures index.Valid() && p == pos + HEADER
      ensures !ok ==> index.count == index.slots.Length
      ensures (old(index.count) < index.slots.Length ==> ok) && index.count <= old(index.count) + 1
      ensures mem == BlockBytes(old(mem), pos, room0, size0 + TAGS)
      ensures ok ==> IndexOk(mem, index.Contents(), holes + RestHole(pos, room0, size0 + TAGS))
    {
      hide IndexOk, Inserted, PutHeader, PutFooter, SameOutside, HeaderAt, FooterAt, Get32, WriteTile;
      ghost var m, idx := mem, index.Contents();
      BlockBytesOk(m, pos, room0, size0 + TAGS);
      ClearFrame(m, BlockBytes(m, pos, room0, size0 + TAGS), idx, holes, pos, pos + room0);
      var room, need, size := room0, size0 + TAGS, size0;
      if room - need < TAGS {
        size := size + (room - need);
        need := room;
      }
      WriteIs(mem, Tile(pos, pos + need, false, false));
      mem := PutHeader(mem, pos, 0, need);
      mem := PutFooter(mem, pos + HEADER + size, pos);
      p, ok := pos + HEADER, true;
      if room - need > 0 {
        var q := pos + HEADER + size + FOOTER;
        WriteIs(mem, Tile(q, pos + room, true, false));
        mem := PutHeader(mem, q, 1, room - need);
        SmallRemainder(room - need);
        var f := q + HeaderAt(mem, q).size - FOOTER;
        if f < end {
          mem := PutFooter(mem, f, q);
        }
        InsertedOk(mem, idx, holes, q);
        ok := index.Insert(mem, q);
      } else {
        assert holes + RestHole(pos, room0, size0 + TAGS) == holes;
      }
    }

    /** alloc once a hole has been chosen: entry i of the index. */
    method Carve(i: nat, size: nat, align: bool) returns (p: nat, ok: bool, ghost k: nat)
      requires Valid() && i < index.count && FitsAt(mem, index.Contents()[i], size + TAGS, align)
      modifies this, index, index.slots
      ensures end == old(end) && index.Valid() && (!ok ==> index.count == index.slots.Length)
      ensures (old(index.count) < index.slots.Length ==> ok) && index.count <= old(index.count) + 1
      ensures k < |old(tiles)| && old(tiles)[k].hole && old(tiles)[k].lo == old(index.Contents())[i]
      ensures Cuttable(old(mem), old(tiles)[k], size + TAGS, align)
      ensures SizeAt(old(mem), old(index.Contents())[i]) == old(tiles)[k].hi - old(tiles)[k].lo
      ensures p == BlockOf(old(tiles)[k], size + TAGS, align).lo + HEADER
      ensures ok && !Slack(old(tiles)[k].lo, align) ==>
                Valid() && tiles == Splice(old(tiles), k, Carved(old(tiles)[k], size + TAGS, align), k + 1)
      ensures ok && Slack(old(tiles)[k].lo, align) ==> forall tiles' :: !HeapOk(mem, index.Contents(), start, end, tiles')
      ensures ok ==> SameOutside(old(mem), mem, old(tiles)[k].lo, old(tiles)[k].hi)
    {
      hide HeapOk, HeapBut, TagsOk, FitsAt, Clear, IndexOk, Removed, Carved, Splice, SameOutside, PrefixBytes, BlockBytes;
      hide PrefixHole, RestHole, Prefix, Slack, HeaderAt, OtherHoles;
      ghost var m, idx, need := mem, index.Contents(), size + TAGS;
      k := HoleTile(mem, idx, start, end, tiles, i);
      ghost var t := tiles[k];
      HeapFacts(mem, idx, start, end, tiles);
      TagsFacts(mem, t);
      var h := index.slots[i];
      var room := HeaderAt(mem, h).size;
      TakeOut(mem, idx, start, end, tiles, k, i);
      index.RemoveAt(i);
      OthersClear(mem, Removed(idx, i), start, end, tiles, k);
      ghost var holes := OtherHoles(tiles, k, k + 1);
      ClearWithin(holes, t.lo, t.hi, t.lo, t.lo + Prefix(h, align));
      var pos;
      pos, ok := CutPrefix(h, align, holes);
      assert ok;
      ClearPrefix(holes, t, align);
      p, ok := CutBlock(pos, room - (pos - h), size, holes + PrefixHole(h, align));
      if ok {
        assert holes + PrefixHole(h, align) + RestHole(pos, t.hi - pos, need) == holes + CutHoles(t, need, align);
        if Slack(h, align) {
          CutSlack(m, Removed(idx, i), start, end, tiles, k, need, align, index.Contents());
        } else {
          CutClean(m, Removed(idx, i), start, end, tiles, k, need, align, index.Contents());
          tiles := Splice(tiles, k, Carved(t, need, align), k + 1);
        }
      }
    }

    /** The first index entry that fits, -1 when none does. */
    method FindSmallestHole(need: nat, align: bool) returns (i: int)
      requires index.Valid() && TAGS <= need && forall j :: 0 <= j < index.count ==> index.slots[j] + HEADER <= |mem|
      ensures -1 <= i < index.count
      ensures i >= 0 ==> FitsAt(mem, index.Contents()[i], need, align)
      ensures forall j :: 0 <= j < (if i == -1 then index.count else i) ==> !FitsAt(mem, index.Contents()[j], need, align)
    {
      hide HeaderAt;
      i := 0;
      while i < index.count
        invariant 0 <= i <= index.count
        invariant forall j :: 0 <= j < i ==> !FitsAt(mem, index.slots[j], need, align)
      {
        var h := index.slots[i];
        PadIs(h);
        hide Pad;
        if align {
          var offset := 0;
          if (h + HEADER) % PAGE != 0 {
            offset := PAGE - (h + HEADER) % PAGE;
          }
          assert offset == Prefix(h, align) by { PadOffset(h); }
          if offset < HeaderAt(mem, h).size && HeaderAt(mem, h).size - offset >= need {
            return;
          }
        } else if HeaderAt(mem, h).size >= need {
          return;
        }
        i := i + 1;
      }
      i := -1;
    }

    /** The end of expand: the pages up to size become a hole, joined to a hole
        that ended at the old end. */
    method Append(size: nat) returns (ok: bool)
      requires Valid() && end - start < size < WORD && size % PAGE == 0 && start + size <= max
      modifies this, index, index.slots
      ensures !ok ==> index.count == index.slots.Length
      ensures old(index.count) < index.slots.Length ==> ok
      ensures ok ==>
                && Valid() && end == start + size
                && tiles == Freed(old(tiles) + [Tile(old(end), end, true, false)], |old(tiles)|)
                && Live(tiles) == old(Live(tiles)) && KeepsPayloads(old(mem), mem, Live(tiles))
                && exists t :: t in tiles && t.hole && t.lo <= old(end) && t.hi == end
    {
      hide HeapOk, HeapBut, Freed, ReachLo, ReachHi, SameOutside, KeepsPayloads, Live, TagsOk, PutHeader, PutFooter, HeaderAt, Get32, Unmarked;
      ghost var m, was, idx := mem, tiles, index.Contents();
      var oldEnd := end;
      ghost var t := Tile(end, start + size, true, false);
      AppendFacts(mem, idx, start, end, tiles, start + size);
      end := start + size;
      mem := PutHeader(mem, oldEnd, 1, size - (oldEnd - start));
      mem := PutFooter(mem, oldEnd + HeaderAt(mem, oldEnd).size - FOOTER, oldEnd);
      ghost var m1 := mem;
      tiles := tiles + [t];
      ok := FreeInternal(oldEnd + HEADER, |was|);
      if ok {
        GrownFreed(m, m1, mem, idx, start, oldEnd, was, end);
      }
    }

    /** expand. False is a panic: past the maximum address, or a full index. */
    method Expand(size0: nat) returns (ok: bool)
      requires Valid() && size0 + PAGE < WORD
      modifies this, index, index.slots
      ensures size0 <= old(end) - start ==> ok && Valid() && tiles == old(tiles) && mem == old(mem) && end == old(end)
      ensures size0 > old(end) - start && start + RoundUp(size0) > max ==>
                !ok && unchanged(this) && unchanged(index) && unchanged(index.slots)
      ensures !ok ==> (size0 > old(end) - start && start + RoundUp(size0) > max) || index.count == index.slots.Length
      ensures old(index.count) < index.slots.Length && start + RoundUp(size0) <= max ==> ok
      ensures ok && size0 > old(end) - start ==>
                && Valid() && end == start + RoundUp(size0)
                && tiles == Freed(old(tiles) + [Tile(old(end), end, true, false)], |old(tiles)|)
                && Live(tiles) == old(Live(tiles)) && KeepsPayloads(old(mem), mem, Live(tiles))
                && (exists t :: t in tiles && t.hole && t.lo <= old(end) && t.hi == end)
      ensures ok && old(Settled(tiles)) ==> Settled(tiles)
    {
      hide HeapOk, Freed, KeepsPayloads, Live, RoundUp, Settled;
      HeapFacts(mem, index.Contents(), start, end, tiles);
      var oldSize := end - start;
      if size0 <= oldSize {
        return true;
      }
      var size := size0;
      RoundUpIs(size0);
      if size % PAGE != 0 {
        size := size % WORD / PAGE * PAGE + PAGE;
      }
      if start + size > max {
        return false;
      }
      ghost var was := tiles;
      ok := Append(size);
      if ok && Settled(was) {
        GrowSettles(was, Tile(old(end), end, true, false));
      }
    }

    /** The search on a valid heap. */
    method FindHole(need: nat, align: bool) returns (i: int)
      requires Valid() && TAGS <= need
      ensures -1 <= i < index.count
      ensures i >= 0 ==> FitsAt(mem, index.Contents()[i], need, align)
      ensures i == -1 <==> !AnyFits(tiles, need, align)
      ensures i >= 0 && !align ==>
                forall t :: t in tiles && t.hole && Fits(t, need, align) ==> SizeAt(mem, index.Contents()[i]) <= t.hi - t.lo
    {
      hide HeapOk, FitsAt, Fits, SizeAt;
      IndexedHeaders(mem, index.Contents(), start, end, tiles);
      i := FindSmallestHole(need, align);
      if i >= 0 {
        var k := HoleTile(mem, index.Contents(), start, end, tiles, i);
      }
      forall t | t in tiles && t.hole && Fits(t, need, align)
        ensures i >= 0 && (!align ==> SizeAt(mem, index.Contents()[i]) <= t.hi - t.lo)
      {
        var j := FitIndexed(mem, index.Contents(), start, end, tiles, t, need, align);
        SizesSorted(mem, index.Contents(), start, end, tiles, i, j);
      }
    }

    /** A request that no hole can serve would grow the heap past its end. */
    ghost predicate Exhausted(size: nat, align: bool)
      reads this
    {
      var oldSize := end - start;
      && oldSize >= 0 && !AnyFits(tiles, size + TAGS, align)
      && start + RoundUp(if 2 * oldSize < oldSize + size + TAGS then oldSize + size + TAGS else 2 * oldSize) > max
    }

    /** The first part of alloc: a hole that fits, on the grown heap when there
        was none; -1 when even that has none, false for a panic. */
    method FindOrGrow(size: nat, align: bool) returns (i: int, ok: bool)
      requires Valid() && 2 * (end - start) + size + TAGS + PAGE < WORD
      modifies this, index, index.slots
      ensures old(AnyFits(tiles, size + TAGS, align)) ==>
                ok && i >= 0 && mem == old(mem) && tiles == old(tiles) && end == old(end) && index.count == old(index.count)
      ensures ok ==> Valid() && -1 <= i < index.count && Live(tiles) == old(Live(tiles)) && KeepsPayloads(old(mem), mem, old(Live(tiles)))
      ensures ok && i >= 0 ==> FitsAt(mem, index.Contents()[i], size + TAGS, align)
      ensures ok && i >= 0 && !align ==>
                forall t :: t in tiles && t.hole && Fits(t, size + TAGS, align) ==> SizeAt(mem, index.Contents()[i]) <= t.hi - t.lo
      ensures ok && i == -1 ==> align && !AnyFits(tiles, size + TAGS, align)
      ensures ok && end != old(end) ==> var was := old(end) - start;
                !old(AnyFits(tiles, size + TAGS, align)) && end == start + RoundUp(if 2 * was < was + size + 28 then was + size + 28 else 2 * was)
      ensures ok && old(Settled(tiles)) ==> Settled(tiles)
      ensures old(Exhausted(size, align)) ==> !ok && unchanged(this)
      ensures !ok ==> Exhausted(size, align) || index.count == index.slots.Length
    {
      hide HeapOk, Fits, FitsAt, SizeAt, KeepsPayloads, Live, Freed, RoundUp, Settled;
      var need := size + TAGS;
      KeepsSame(mem, index.Contents(), start, end, tiles);
      HeapFacts(mem, index.Contents(), start, end, tiles);
      ok := true;
      i := FindHole(need, align);
      if i == -1 {
        var oldSize := end - start;
        var size' := 2 * oldSize;
        if size' < oldSize + size + TAGS {
          size' := oldSize + size + TAGS;
        }
        ok := Expand(size');
        if !ok {
          return;
        }
        if !align {
          ghost var t :| t in tiles && t.hole && t.lo <= old(end) && t.hi == end;
          assert Fits(t, need, align) by { PlainFits(t, need); }
        }
        i := FindHole(need, align);
      }
    }

    /** alloc: p is 0 when even the grown heap has no room, and h is the hole
        the block is cut from, at address from. False is a panic. */
    method Alloc(size: nat, align: bool) returns (p: nat, ok: bool, from: nat, ghost h: Tile, ghost k: nat)
      requires Valid() && 2 * (end - start) + size + TAGS + PAGE < WORD
      modifies this, index, index.slots
      ensures old(AnyFits(tiles, size + TAGS, align)) ==>
                && end == old(end) && h in old(tiles) && (ok ==> p != 0) && (!ok ==> index.count == index.slots.Length)
                && (old(index.count) < index.slots.Length ==> ok) && index.count <= old(index.count) + 1
                && (!align ==> forall t :: t in old(tiles) && t.hole && Fits(t, size + TAGS, align) ==> h.hi - h.lo <= t.hi - t.lo)
      ensures ok && p == 0 ==>
                && Valid() && align && !AnyFits(tiles, size + TAGS, align)
                && Live(tiles) == old(Live(tiles)) && KeepsPayloads(old(mem), mem, old(Live(tiles)))
      ensures p != 0 ==> from == h.lo && h.hole && Fits(h, size + TAGS, align) && p == BlockOf(h, size + TAGS, align).lo + HEADER
      ensures p != 0 ==> Serves(h, BlockOf(h, size + TAGS, align), size, align) && p == BlockOf(h, size + TAGS, align).lo + 12
      ensures ok && end != old(end) ==> var was := old(end) - start;
                !old(AnyFits(tiles, size + TAGS, align)) && end == start + RoundUp(if 2 * was < was + size + 28 then was + size + 28 else 2 * was)
      ensures ok ==> index.Valid()
      ensures ok && p != 0 && !Slack(h.lo, align) ==>
                && Valid() && BlockOf(h, size + TAGS, align) !in old(Live(tiles))
                && Live(tiles) == old(Live(tiles)) + {BlockOf(h, size + TAGS, align)}
                && KeepsPayloads(old(mem), mem, old(Live(tiles)))
      ensures ok && !Slack(h.lo, align) && old(AnyFits(tiles, size + TAGS, align)) ==>
                && k < |old(tiles)| && old(tiles)[k] == h
                && tiles == Splice(old(tiles), k, Carved(h, size + TAGS, align), k + 1)
      ensures ok && p != 0 && Slack(h.lo, align) ==> forall tiles' :: !HeapOk(mem, index.Contents(), start, end, tiles')
      ensures ok && (p == 0 || !Slack(h.lo, align)) && old(Settled(tiles) || (|tiles| == 1 && AnyFits(tiles, size + TAGS, align))) ==> Settled(tiles)
      ensures old(Exhausted(size, align)) ==> !ok && unchanged(this)
      ensures !ok ==> Exhausted(size, align) || index.count == index.slots.Length
    {
      hide HeapOk, Fits, FitsAt, SizeAt, KeepsPayloads, Live, SameOutside, Slack, Freed, RoundUp, Settled, SettledBut, Serves;
      var need := size + TAGS;
      ghost var m, live := mem, Live(tiles);
      p, from, h, k := 0, 0, Tile(0, 0, true, false), 0;
      var i;
      i, ok := FindOrGrow(size, align);
      if !ok || i == -1 {
        return;
      }
      ghost var m1, was, idx := mem, tiles, index.Contents();
      NearlySettled(was);
      from := index.slots[i];
      p, ok, k := Carve(i, size, align);
      h := was[k];
      BlockMeans(h, size, align);
      if ok {
        CarveDone(m1, mem, idx, start, end, was, k, need, align);
        KeepsBoth(m, m1, mem, live);
        if SettledBut(was, k) {
          CarveSettles(was, k, need, align);
        }
      }
    }

    /** Allocating from a hole and freeing the block again puts the hole back. */
    method AllocThenFree(size: nat, align: bool) returns (ok: bool, ghost h: Tile, ghost k: nat)
      requires Valid() && Coalesced(tiles) && AnyFits(tiles, size + TAGS, align)
      requires forall t :: t in tiles && t.hole ==> !Slack(t.lo, align)
      requires 2 * (end - start) + size + TAGS + PAGE < WORD
      modifies this, index, index.slots
      ensures ok ==> Valid() && k < |old(tiles)| && old(tiles)[k] == h && tiles == old(tiles)[k := h.(bare := false)]
      ensures !ok ==> index.count == index.slots.Length
    {
      hide HeapOk, Fits, KeepsPayloads, Live, Slack, Freed, Carved, Splice, BlockOf, AnyFits, Coalesced, Unmarked;
      ghost var was, need := tiles, size + TAGS;
      var p, from;
      p, ok, from, h, k := Alloc(size, align);
      if ok {
        assert h in was;
        FreeUndoesAlloc(was, k, need, align);
        ghost var at := if h.lo < BlockOf(h, need, align).lo then k + 1 else k;
        CarvedAt(was, k, need, align);
        LiveFacts(mem, index.Contents(), start, end, tiles, at);
        ghost var j;
        ok, j := Free(p);
        assert j == at;
      }
    }

    /** Its owner writes one byte of a live block. */
    method Store(ghost t: Tile, a: nat, b: byte)
      requires Valid() && t in Live(tiles) && t.lo + TAGS <= t.hi <= |mem| && t.lo + HEADER <= a < t.hi - FOOTER
      modifies this`mem
      ensures Valid() && t.hi <= |mem| && Payload(mem, t) == old(Payload(mem, t))[a - t.lo - HEADER := b]
      ensures KeepsPayloads(old(mem), mem, Live(tiles) - {t})
    {
      hide HeapOk, KeepsPayloads, TagsOk;
      TileTags(mem, index.Contents(), start, end, tiles, t);
      StoreOk(mem, index.Contents(), start, end, tiles, t, a, b);
      mem := mem[a := b];
    }

    /** get_heap_stats. */
    method Stats() returns (total: nat, free: nat, used: int)
      requires Valid()
      ensures forall t :: t in tiles ==> t.lo <= t.hi
      ensures total == end - start && used == LiveBytes(tiles) && free + used == total
    {
      hide HeapOk, LiveBytes, SizeAt;
      StatsFacts(mem, index.Contents(), start, end, tiles);
      total, free := end - start, 0;
      var i := 0;
      while i < index.count
        invariant 0 <= i <= index.count && free == IndexSum(mem, index.Contents()[..i])
      {
        assert index.Contents()[..i + 1][..i] == index.Contents()[..i];
        free := free + SizeAt(mem, index.slots[i]);
        i := i + 1;
      }
      assert index.Contents()[..i] == index.Contents();
      used := total - free;
    }
  }

  lemma AppendFacts(m: seq<byte>, idx: seq<nat>, start: nat, end: nat, tiles: seq<Tile>, end': nat)
    requires HeapOk(m, idx, start, end, tiles) && end < end' <= |m| && end' - start < WORD
    requires start % PAGE == 0 && end % PAGE == 0 && end' % PAGE == 0
    ensures end + TAGS <= end' && |m| <= WORD64
    ensures var t := Tile(end, end', true, false);
            var m1 := PutHeader(m, end, 1, end' - end);
            && end + HeaderAt(m1, end).size == end'
            && var m2 := PutFooter(m1, end' - FOOTER, end);
            && HeapBut(m2, idx, start, end', tiles + [t], |tiles|) && TagsOk(m2, t)
            && SameOutside(m, m2, end, end') && !Unmarked(m2, end + HEADER)
  {
    hide HeapOk, HeapBut, TagsOk, PutHeader, PutFooter, SameOutside, Unmarked, HeaderAt, FooterAt, WriteTile;
    HeapFacts(m, idx, start, end, tiles);
    PageApart(end, end');
    SmallRemainder(end' - end);
    Grown(m, idx, start, end, tiles, end');
    var t := Tile(end, end', true, false);
    WriteIs(m, t);
    MarkedPointer(WriteTile(m, t), t);
  }

  lemma MarkedPointer(m: seq<byte>, t: Tile)
    requires TagsOk(m, t) && !t.bare
    ensures !Unmarked(m, t.lo + HEADER)
  {
    hide HeaderAt, Get32;
    TagsFacts(m, t);
  }

  lemma RoundUpIs(n: nat)
    requires n < WORD
    ensures RoundUp(n) == if n % PAGE != 0 then n % WORD / PAGE * PAGE + PAGE else n
  {
    SmallRemainder(n);
  }

  lemma PageApart(a: nat, b: nat)
    requires a % PAGE == 0 && b % PAGE == 0 && a < b
    ensures a + TAGS <= b
  {
  }

  lemma TileTags(m: seq<byte>, idx: seq<nat>, start: nat, end: nat, tiles: seq<Tile>, t: Tile)
    requires HeapOk(m, idx, start, end, tiles) && t in tiles
    ensures TagsOk(m, t)
  {
  }

  lemma StatsFacts(m: seq<byte>, idx: seq<nat>, start: nat, end: nat, tiles: seq<Tile>)
    requires HeapOk(m, idx, start, end, tiles)
    ensures forall t :: t in tiles ==> t.lo <= t.hi
    ensures start < end && end - start == LiveBytes(tiles) + IndexSum(m, idx)
  {
    BytesAddUp(m, idx, start, end, tiles);
  }

  lemma CarvedAt(tiles: seq<Tile>, k: nat, need: nat, align: bool)
    requires k < |tiles| && Fits(tiles[k], need, align)
    ensures var b := BlockOf(tiles[k], need, align); var at := if tiles[k].lo < b.lo then k + 1 else k;
            var r := Splice(tiles, k, Carved(tiles[k], need, align), k + 1);
            at < |r| && r[at] == b && !b.hole && !b.bare
  {
    hide Prefix, Fits;
    CarvedEnds(tiles[k], need, align);
    SpliceEnds(tiles, k, Carved(tiles[k], need, align));
  }

  /** A block's address is the pointer of that block and of no other. */
  lemma LiveFacts(m: seq<byte>, idx: seq<nat>, start: nat, end: nat, tiles: seq<Tile>, k: nat)
    requires HeapOk(m, idx, start, end, tiles) && k < |tiles| && !tiles[k].bare
    ensures !Unmarked(m, tiles[k].lo + HEADER)
    ensures forall j :: 0 <= j < |tiles| && tiles[j].lo == tiles[k].lo ==> j == k
  {
    hide Chain, IndexOk, TagsOk;
    MarkedPointer(m, tiles[k]);
    forall j | 0 <= j < |tiles| && tiles[j].lo == tiles[k].lo
      ensures j == k
    {
      ChainSplit(tiles, k, start, end);
      ChainSplit(tiles, j, start, end);
      if j < k {
        ChainApart(tiles, start, end, j, k);
      } else if k < j {
        ChainApart(tiles, start, end, k, j);
      }
    }
  }
}
