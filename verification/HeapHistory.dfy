/** The heap over whole histories: to its users it is a collection of private
    buffers, whatever was allocated, written and freed in between. */
module HeapHistory {
  import opened Bytes
  import opened HeapBytes
  import opened HeapTiles
  import opened HeapSteps
  import opened HeapLaws
  import opened KernelHeap

  /** What users do: get a block, page-aligned or not, write a byte of one of
      theirs, give one back, make the heap grow. Blocks are named by the order
      in which they were asked for. */
  datatype Request = Get(size: nat, align: bool) | Set(block: nat, offset: nat, value: byte) | Drop(block: nat) | Grow(size: nat)

  /** How a request ends: served, refused (the kernel panics, or 32-bit sizes
      are too small for it), or served from a hole whose prefix is slack, which
      destroys the heap. */
  datatype Outcome = Served | Refused | Torn

  /** What a user knows of a block: nothing when there is none (any more), else
      its address and the bytes it wants to find in it. */
  datatype Buffer = Gone | Held(pointer: nat, bytes: seq<byte>)

  /** The collection of private buffers, one step on; at says where a new block
      was put and what it happened to contain. */
  function Next(buffers: seq<Buffer>, r: Request, at: Buffer): seq<Buffer>
  {
    match r
    case Get(_, _) => buffers + [at]
    case Set(k, o, v) =>
      if k < |buffers| && buffers[k].Held? && o < |buffers[k].bytes| then buffers[k := Held(buffers[k].pointer, buffers[k].bytes[o := v])] else buffers
    case Drop(k) => if k < |buffers| then buffers[k := Gone] else buffers
    case Grow(_) => buffers
  }

  /** What a request for a block may get: the bytes asked for, at a page
      boundary when asked; nothing only when a page boundary was asked for. */
  ghost predicate Answers(r: Request, at: Buffer)
  {
    r.Get? ==> if at.Held? then |at.bytes| == r.size && (r.align ==> at.pointer % PAGE == 0) else r.align
  }

  function After(requests: seq<Request>, ats: seq<Buffer>): seq<Buffer>
    requires |ats| == |requests|
  {
    if requests == [] then [] else
    var n := |requests| - 1;
    Next(After(requests[..n], ats[..n]), requests[n], ats[n])
  }

  /** A byte that was written stays until its block is given back or the same
      byte is written again. */
  lemma {:induction false} LastWriteStays(requests: seq<Request>, ats: seq<Buffer>, i: nat, k: nat, o: nat, v: byte)
    requires |ats| == |requests| && i < |requests| && requests[i] == Set(k, o, v)
    requires var b := After(requests[..i], ats[..i]); k < |b| && b[k].Held? && o < |b[k].bytes|
    requires forall j :: i < j < |requests| ==> requests[j] != Drop(k) && !(requests[j].Set? && requests[j].block == k && requests[j].offset == o)
    ensures var b := After(requests, ats); k < |b| && b[k].Held? && o < |b[k].bytes| && b[k].bytes[o] == v
    decreases |requests|
  {
    var n := |requests| - 1;
    if i < n {
      assert requests[..n][..i] == requests[..i] && ats[..n][..i] == ats[..i];
      LastWriteStays(requests[..n], ats[..n], i, k, o, v);
      assert !requests[n].Drop? || requests[n].block != k;
    }
  }

  /** A block that is given back is gone, and so it stays. */
  lemma {:induction false} DroppedIsGone(requests: seq<Request>, ats: seq<Buffer>, i: nat, k: nat)
    requires |ats| == |requests| && i < |requests| && requests[i] == Drop(k) && k < |After(requests[..i], ats[..i])|
    ensures k < |After(requests, ats)| && After(requests, ats)[k] == Gone
    decreases |requests|
  {
    var n := |requests| - 1;
    if i < n {
      assert requests[..n][..i] == requests[..i] && ats[..n][..i] == ats[..i];
      DroppedIsGone(requests[..n], ats[..n], i, k);
    }
  }

  /** The heap has exactly the held buffers as its live blocks, each with the
      bytes its user wants to find. */
  ghost predicate Backs(m: seq<byte>, live: set<Tile>, owned: seq<Tile>, buffers: seq<Buffer>)
  {
    && |owned| == |buffers|
    && (forall k :: 0 <= k < |buffers| && buffers[k].Held? ==> Holds(m, live, owned[k], buffers[k]))
    && (forall j, k :: 0 <= j < k < |buffers| && buffers[j].Held? && buffers[k].Held? ==> owned[j] != owned[k])
    && (forall t :: t in live ==> exists k :: 0 <= k < |buffers| && buffers[k].Held? && owned[k] == t)
  }

  ghost predicate Holds(m: seq<byte>, live: set<Tile>, t: Tile, b: Buffer)
    requires b.Held?
  {
    t in live && b.pointer == t.lo + HEADER && t.lo + TAGS <= t.hi <= |m| && b.bytes <= Payload(m, t)
  }

  lemma BacksGet(m: seq<byte>, m': seq<byte>, live: set<Tile>, owned: seq<Tile>, buffers: seq<Buffer>, t: Tile, b: Buffer)
    requires Backs(m, live, owned, buffers) && KeepsPayloads(m, m', live) && t !in live && b.Held? && Holds(m', live + {t}, t, b)
    ensures Backs(m', live + {t}, owned + [t], buffers + [b])
  {
    var o, bs := owned + [t], buffers + [b];
    forall k | 0 <= k < |bs| && bs[k].Held?
      ensures Holds(m', live + {t}, o[k], bs[k])
    {
      if k < |buffers| {
        assert Holds(m, live, owned[k], buffers[k]);
      }
    }
    forall u | u in live + {t}
      ensures exists k :: 0 <= k < |bs| && bs[k].Held? && o[k] == u
    {
      if u == t {
        assert bs[|buffers|].Held? && o[|buffers|] == u;
      } else {
        var k :| 0 <= k < |buffers| && buffers[k].Held? && owned[k] == u;
        assert bs[k].Held? && o[k] == u;
      }
    }
  }

  lemma BacksKept(m: seq<byte>, m': seq<byte>, live: set<Tile>, owned: seq<Tile>, buffers: seq<Buffer>)
    requires Backs(m, live, owned, buffers) && KeepsPayloads(m, m', live)
    ensures Backs(m', live, owned, buffers)
  {
    forall k | 0 <= k < |buffers| && buffers[k].Held?
      ensures Holds(m', live, owned[k], buffers[k])
    {
      assert Holds(m, live, owned[k], buffers[k]);
    }
  }

  lemma BacksGone(m: seq<byte>, live: set<Tile>, owned: seq<Tile>, buffers: seq<Buffer>, t: Tile)
    requires Backs(m, live, owned, buffers)
    ensures Backs(m, live, owned + [t], buffers + [Gone])
  {
    var o, bs := owned + [t], buffers + [Gone];
    forall u | u in live
      ensures exists k :: 0 <= k < |bs| && bs[k].Held? && o[k] == u
    {
      var k :| 0 <= k < |buffers| && buffers[k].Held? && owned[k] == u;
      assert bs[k].Held? && o[k] == u;
    }
  }

  lemma BacksDrop(m: seq<byte>, m': seq<byte>, live: set<Tile>, owned: seq<Tile>, buffers: seq<Buffer>, k: nat)
    requires Backs(m, live, owned, buffers) && k < |buffers| && buffers[k].Held? && KeepsPayloads(m, m', live - {owned[k]})
    ensures Backs(m', live - {owned[k]}, owned, buffers[k := Gone])
  {
    var bs, l := buffers[k := Gone], live - {owned[k]};
    forall j | 0 <= j < |bs| && bs[j].Held?
      ensures Holds(m', l, owned[j], bs[j])
    {
      assert Holds(m, live, owned[j], buffers[j]);
    }
    forall u | u in l
      ensures exists j :: 0 <= j < |bs| && bs[j].Held? && owned[j] == u
    {
      var j :| 0 <= j < |buffers| && buffers[j].Held? && owned[j] == u;
      assert bs[j].Held?;
    }
  }

  lemma BacksSet(m: seq<byte>, m': seq<byte>, live: set<Tile>, owned: seq<Tile>, buffers: seq<Buffer>, k: nat, b: Buffer)
    requires Backs(m, live, owned, buffers) && k < |buffers| && buffers[k].Held? && KeepsPayloads(m, m', live - {owned[k]})
    requires b.Held? && Holds(m', live, owned[k], b)
    ensures Backs(m', live, owned, buffers[k := b])
  {
    var bs := buffers[k := b];
    forall j | 0 <= j < |bs| && bs[j].Held?
      ensures Holds(m', live, owned[j], bs[j])
    {
      if j != k {
        assert Holds(m, live, owned[j], buffers[j]);
        assert owned[j] != owned[k];
      }
    }
    forall u | u in live
      ensures exists j :: 0 <= j < |bs| && bs[j].Held? && owned[j] == u
    {
      var j :| 0 <= j < |buffers| && buffers[j].Held? && owned[j] == u;
      assert bs[j].Held?;
    }
  }

  /** Serving one request of each kind. */
  class Users {
    const heap: Heap
    var pointers: seq<nat>  // 0 for none
    var sizes: seq<nat>
    ghost var owned: seq<Tile>
    ghost var buffers: seq<Buffer>

    ghost predicate Valid()
      reads this, heap, heap.index, heap.index.slots
    {
      && heap.Valid() && Backs(heap.mem, Live(heap.tiles), owned, buffers) && |pointers| == |sizes| == |buffers|
      && forall k :: 0 <= k < |buffers| ==>
           if buffers[k].Held? then pointers[k] == buffers[k].pointer > 0 && sizes[k] == |buffers[k].bytes| else pointers[k] == 0
    }

    constructor (heap0: Heap)
      requires heap0.Valid() && Live(heap0.tiles) == {}
      ensures Valid() && buffers == [] && heap == heap0
    {
      heap, pointers, sizes, owned, buffers := heap0, [], [], [], [];
    }

    /** Why a request is refused: the index is full, the heap is at its end, or
        its size would not fit in 32 bits. */
    ghost predicate Refuses(r: Request)
      reads this, heap, heap.index
    {
      || heap.index.count == heap.index.slots.Length
      || (r.Get? && (heap.Exhausted(r.size, r.align) || 2 * (heap.end - heap.start) + r.size + TAGS + HeapTiles.PAGE >= WORD))
      || (r.Grow? && (heap.start + RoundUp(r.size) > heap.max || r.size + HeapTiles.PAGE >= WORD))
    }

    /** No tiling and no index explain the heap's bytes any more. */
    ghost predicate Destroyed()
      reads this, heap, heap.index, heap.index.slots
    {
      heap.index.Valid() && forall tiles :: !HeapOk(heap.mem, heap.index.Contents(), heap.start, heap.end, tiles)
    }

    method GetBlock(size: nat, align: bool) returns (r: Outcome, ghost at: Buffer)
      requires Valid()
      modifies this, heap, heap.index, heap.index.slots
      ensures r == Served ==> Valid() && Answers(Get(size, align), at) && buffers == Next(old(buffers), Get(size, align), at)
      ensures r == Served && at.Gone? ==> !AnyFits(heap.tiles, size + TAGS, align)
      ensures r == Served && StaysSettled(old(heap.tiles), [Get(size, align)]) ==> Settled(heap.tiles)
      ensures r == Refused ==> Refuses(Get(size, align))
      ensures r == Torn ==> align && Destroyed()
    {
      hide HeapOk, Live, KeepsPayloads, Backs, Slack, Fits, BlockOf, Settled;
      at := Gone;
      if 2 * (heap.end - heap.start) + size + TAGS + HeapTiles.PAGE >= WORD {
        return Refused, at;
      }
      ghost var m, live := heap.mem, Live(heap.tiles);
      var p, ok, from; ghost var h, k;
      p, ok, from, h, k := heap.Alloc(size, align);
      if !ok {
        return Refused, at;
      }
      if p == 0 {
        BacksKept(m, heap.mem, live, owned, buffers);
        BacksGone(heap.mem, live, owned, buffers, Tile(0, 0, true, false));
        pointers, sizes := pointers + [0], sizes + [0];
        owned, buffers := owned + [Tile(0, 0, true, false)], buffers + [Gone];
        return Served, at;
      }
      if Slack(from, align) {
        NoSlack(from);
        return Torn, at;
      }
      BlockServes(h, size, align);
      ghost var t := BlockOf(h, size + TAGS, align);
      BlockInHeap(heap.mem, heap.index.Contents(), heap.start, heap.end, heap.tiles, t);
      at := Held(p, Payload(heap.mem, t)[..size]);
      BacksGet(m, heap.mem, live, owned, buffers, t, at);
      pointers, sizes := pointers + [p], sizes + [size];
      owned, buffers := owned + [t], buffers + [at];
      r := Served;
    }

    method GrowHeap(size: nat) returns (r: Outcome)
      requires Valid()
      modifies this, heap, heap.index, heap.index.slots
      ensures r == Served ==> Valid() && buffers == old(buffers)
      ensures r == Served && old(Settled(heap.tiles)) ==> Settled(heap.tiles)
      ensures r == Refused ==> Refuses(Grow(size))
      ensures r != Torn
    {
      hide HeapOk, Live, KeepsPayloads, Backs, RoundUp, Freed, Settled;
      if size + HeapTiles.PAGE >= WORD {
        return Refused;
      }
      ghost var m, live := heap.mem, Live(heap.tiles);
      KeepsSame(m, heap.index.Contents(), heap.start, heap.end, heap.tiles);
      var ok := heap.Expand(size);
      if !ok {
        return Refused;
      }
      BacksKept(m, heap.mem, live, owned, buffers);
      r := Served;
    }

    method SetByte(k: nat, o: nat, v: byte)
      requires Valid()
      modifies this, heap
      ensures Valid() && buffers == Next(old(buffers), Set(k, o, v), Gone) && heap.tiles == old(heap.tiles)
    {
      if k < |pointers| && pointers[k] != 0 && o < sizes[k] {
        assert Holds(heap.mem, Live(heap.tiles), owned[k], buffers[k]);
        ghost var m, b := heap.mem, Held(pointers[k], buffers[k].bytes[o := v]);
        hide HeapOk, KeepsPayloads, Backs, Live;
        heap.Store(owned[k], pointers[k] + o, v);
        PrefixSet(Payload(m, owned[k]), buffers[k].bytes, o, v);
        BacksSet(m, heap.mem, Live(heap.tiles), owned, buffers, k, b);
        buffers := buffers[k := b];
      }
    }

    method DropBlock(k: nat) returns (r: Outcome)
      requires Valid()
      modifies this, heap, heap.index, heap.index.slots
      ensures r == Served ==> Valid() && buffers == Next(old(buffers), Drop(k), Gone)
      ensures r == Served && old(Settled(heap.tiles)) ==> Settled(heap.tiles)
      ensures r == Refused ==> Refuses(Drop(k))
      ensures r != Torn
    {
      hide HeapOk, KeepsPayloads, Backs, Live, Freed, Unmarked, Holds, Settled;
      r := Served;
      if k < |pointers| && pointers[k] != 0 {
        ghost var m, live := heap.mem, Live(heap.tiles);
        HeldFacts(m, live, owned, buffers, k);
        ghost var i := LiveIndex(heap.tiles, owned[k]);
        BlockInHeap(heap.mem, heap.index.Contents(), heap.start, heap.end, heap.tiles, owned[k]);
        LiveFacts(heap.mem, heap.index.Contents(), heap.start, heap.end, heap.tiles, i);
        var ok; ghost var j;
        ok, j := heap.Free(pointers[k]);
        if !ok {
          return Refused;
        }
        BacksDrop(m, heap.mem, live, owned, buffers, k);
        pointers := pointers[k := 0];
        buffers := buffers[k := Gone];
      } else {
        assert k < |buffers| ==> buffers[k := Gone] == buffers;
      }
    }

    method ServeOne(q: Request) returns (r: Outcome, ghost at: Buffer)
      requires Valid()
      modifies this, heap, heap.index, heap.index.slots
      ensures r == Served ==> Valid() && Answers(q, at) && buffers == Next(old(buffers), q, at)
      ensures r == Served && StaysSettled(old(heap.tiles), [q]) ==> Settled(heap.tiles)
      ensures r == Refused ==> Refuses(q)
      ensures r == Torn ==> q.Get? && q.align && Destroyed()
    {
      hide Valid, Refuses, Destroyed, Settled, AnyFits;
      r, at := Served, Gone;
      match q {
        case Get(size, align) => r, at := GetBlock(size, align);
        case Set(k, o, v) => SetByte(k, o, v);
        case Drop(k) => r := DropBlock(k);
        case Grow(size) => r := GrowHeap(size);
      }
    }

    /** Any history: until the kernel panics or a page-aligned request hits a
        hole with slack, every buffer still held is a live block with exactly
        the bytes its user wrote last, and no two holes become neighbours, on a
        fresh heap too if its first request is served from it. */
    method Serve(requests: seq<Request>) returns (done: nat, r: Outcome, ghost ats: seq<Buffer>)
      requires Valid() && buffers == []
      modifies this, heap, heap.index, heap.index.slots
      ensures done <= |requests| && |ats| == done && (r == Served <==> done == |requests|)
      ensures forall i :: 0 <= i < done ==> Answers(requests[i], ats[i])
      ensures r == Served ==> Valid() && buffers == After(requests, ats)
      ensures r == Served && requests != [] && StaysSettled(old(heap.tiles), requests) ==> Settled(heap.tiles)
      ensures r == Refused ==> Refuses(requests[done])
      ensures r == Torn ==> requests[done].Get? && requests[done].align && Destroyed()
    {
      hide Valid, Refuses, Destroyed, Answers, Settled, StaysSettled;
      done, r, ats := 0, Served, [];
      while done < |requests|
        invariant done <= |requests| && |ats| == done && r == Served && Valid() && buffers == After(requests[..done], ats)
        invariant forall i :: 0 <= i < done ==> Answers(requests[i], ats[i])
        invariant if done == 0 then heap.tiles == old(heap.tiles) else StaysSettled(old(heap.tiles), requests) ==> Settled(heap.tiles)
      {
        ghost var at;
        StaysFirst(old(heap.tiles), requests);
        StaysAny(heap.tiles, requests[done]);
        r, at := ServeOne(requests[done]);
        if r != Served {
          return;
        }
        AfterNext(requests, ats, done, at);
        ats := ats + [at];
        done := done + 1;
      }
      assert requests[..done] == requests;
    }
  }

  /** What keeps holes apart: they are now, or the heap is one fresh hole and
      the first request is cut from it. */
  ghost predicate StaysSettled(tiles: seq<Tile>, requests: seq<Request>)
  {
    || Settled(tiles)
    || (|tiles| == 1 && requests != [] && requests[0].Get? && AnyFits(tiles, requests[0].size + TAGS, requests[0].align))
  }

  lemma StaysFirst(tiles: seq<Tile>, requests: seq<Request>)
    ensures requests != [] ==> (StaysSettled(tiles, requests) <==> StaysSettled(tiles, [requests[0]]))
    ensures forall q :: Settled(tiles) ==> StaysSettled(tiles, [q])
  {
  }

  lemma StaysAny(tiles: seq<Tile>, q: Request)
    ensures Settled(tiles) ==> StaysSettled(tiles, [q])
  {
  }

  /** Otherwise they do not stay apart: growing a fresh heap leaves its first
      hole, which has no footer to be seen by, beside the new one. */
  method GrowFreshHeap(base: nat, end0: nat, max0: nat, fresh0: seq<byte>) returns (heap: Heap)
    requires end0 % PAGE == 0 && RoundUp(base + INDEX_BYTES) + TAGS <= end0 && end0 + PAGE <= max0 <= |fresh0| <= WORD64
    requires end0 - RoundUp(base + INDEX_BYTES) + 2 * PAGE < WORD && Get32(fresh0, end0 - FOOTER) != MAGIC
    ensures fresh(heap) && heap.index.Valid() && !Coalesced(heap.tiles)
  {
    hide HeapOk, Live, KeepsPayloads, RoundUp, Get32;
    heap := new Heap(base, end0, max0, fresh0);
    ghost var t := heap.tiles[0];
    WholePages(base + INDEX_BYTES, end0);
    var ok := heap.Expand(end0 - heap.start + PAGE);
    assert heap.tiles[0].hole && heap.tiles[1].hole;
  }

  lemma WholePages(n: nat, end: nat)
    requires end % PAGE == 0 && RoundUp(n) <= end
    ensures RoundUp(end - RoundUp(n) + PAGE) == end - RoundUp(n) + PAGE
  {
  }

  // ----- The slack case is reached

  /** A fresh heap, a plain request of 4048 bytes and a page-aligned one: the
      aligned block would begin 8 bytes into the hole, and the heap is gone. */
  method TearFreshHeap(base: nat, end0: nat, max0: nat, fresh0: seq<byte>) returns (heap: Heap)
    requires end0 % PAGE == 0 && RoundUp(base + INDEX_BYTES) + 3 * PAGE <= end0 <= max0 <= |fresh0| <= WORD64
    requires 2 * (end0 - RoundUp(base + INDEX_BYTES)) + 2 * PAGE < WORD && Get32(fresh0, end0 - FOOTER) != MAGIC
    ensures fresh(heap) && heap.index.Valid()
    ensures forall tiles :: !HeapOk(heap.mem, heap.index.Contents(), heap.start, heap.end, tiles)
  {
    hide HeapOk, Live, KeepsPayloads, RoundUp, Settled, Get32, Pad;
    heap := new Heap(base, end0, max0, fresh0);
    ghost var t := heap.tiles[0];
    assert Fits(t, 4048 + TAGS, false);
    var p, ok, from; ghost var h, k;
    p, ok, from, h, k := heap.Alloc(4048, false);
    FirstCut(t);
    ghost var u := Tile(t.lo + 4076, t.hi, true, false);
    assert heap.tiles[1] == u && AnyFits(heap.tiles, 100 + TAGS, true);
    p, ok, from, h, k := heap.Alloc(100, true);
  }

  lemma FirstCut(t: Tile)
    requires t.hole && t.lo % PAGE == 0 && t.lo + 3 * PAGE <= t.hi
    ensures var u := Tile(t.lo + 4076, t.hi, true, false);
            && Fits(t, 4048 + TAGS, false) && !Slack(t.lo, false)
            && Splice([t], 0, Carved(t, 4048 + TAGS, false), 1) == [Tile(t.lo, t.lo + 4076, false, false), u]
            && Fits(u, 100 + TAGS, true) && Slack(u.lo, true)
  {
    assert Pad(t.lo + 4076) == 8;
  }

  lemma AfterNext(requests: seq<Request>, ats: seq<Buffer>, n: nat, at: Buffer)
    requires n < |requests| && |ats| == n
    ensures After(requests[..n + 1], ats + [at]) == Next(After(requests[..n], ats), requests[n], at)
  {
    assert requests[..n + 1][..n] == requests[..n] && (ats + [at])[..n] == ats;
  }

  lemma HeldFacts(m: seq<byte>, live: set<Tile>, owned: seq<Tile>, buffers: seq<Buffer>, k: nat)
    requires Backs(m, live, owned, buffers) && k < |buffers| && buffers[k].Held?
    ensures |owned| == |buffers| && owned[k] in live && buffers[k].pointer == owned[k].lo + HEADER
  {
    assert Holds(m, live, owned[k], buffers[k]);
  }

  lemma LiveIndex(tiles: seq<Tile>, t: Tile) returns (i: nat)
    requires t in Live(tiles)
    ensures i < |tiles| && tiles[i] == t && !tiles[i].hole
  {
    i :| 0 <= i < |tiles| && tiles[i] == t;
  }

  lemma NoSlack(lo: nat)
    ensures !Slack(lo, false)
  {
  }

  lemma PrefixSet(w: seq<byte>, b: seq<byte>, o: nat, v: byte)
    requires b <= w && o < |b|
    ensures b[o := v] <= w[o := v]
  {
  }

  lemma BlockInHeap(m: seq<byte>, idx: seq<nat>, start: nat, end: nat, tiles: seq<Tile>, t: Tile)
    requires HeapOk(m, idx, start, end, tiles) && t in Live(tiles)
    ensures t.lo + TAGS <= t.hi <= |m| && !t.bare
  {
    assert TagsOk(m, t);
  }
}
