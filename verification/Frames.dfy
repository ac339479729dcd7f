/** Physical frames: the bitmap of used frames and the per-frame reference
    counts of kernel/cpu/paging.c. A frame's bit lives in a 32-bit word of the
    bitmap; a reference count is an unsigned byte and wraps at 256. */
module Frames {

  /** A 32-bit bitmap word, as its bits from the lowest up. */
  type Word = w: seq<bool> | |w| == 32 witness seq(32, _ => false)

  const FULL_WORD: Word := seq(32, _ => true)

  /** Frame f is marked in the bitmap words. */
  ghost predicate Marked(words: seq<Word>, f: nat)
  {
    f / 32 < |words| && words[f / 32][f % 32]
  }

  /** Writing bit f of the bitmap changes the mark of f and of no other frame. */
  lemma MarkOne(words: seq<Word>, f: nat, b: bool, g: nat)
    requires f / 32 < |words|
    ensures Marked(words[f / 32 := words[f / 32][f % 32 := b]], g) == if g == f then b else Marked(words, g)
  {
  }

  class FrameAllocator {
    const total: nat        // total_frames
    const kernelLimit: nat  // first frame above the kernel's early memory
    const bitmap: array<Word>
    const refs: array<nat>

    ghost predicate Valid()
      reads this, bitmap, refs
    {
      && bitmap.Length == total / 32 + 1
      && refs.Length == total
      && bitmap as object != refs as object
      && forall f :: 0 <= f < total ==> refs[f] < 256
    }

    /** The frames whose bit is set. */
    ghost function Used(): (u: set<nat>)
      reads this, bitmap
    {
      set f: nat | 0 <= f < total && Marked(bitmap[..], f)
    }

    /** pmm_init_from_mmap before any reservation: no frame is used. */
    constructor (totalFrames: nat, limit: nat)
      ensures Valid() && total == totalFrames && kernelLimit == limit
      ensures Used() == {} && forall f :: 0 <= f < total ==> refs[f] == 0
      ensures fresh(bitmap) && fresh(refs)
    {
      total := totalFrames;
      kernelLimit := limit;
      bitmap := new Word[totalFrames / 32 + 1](_ => seq(32, _ => false));
      refs := new nat[totalFrames](_ => 0);
    }

    method SetFrame(f: nat)
      requires Valid()
      modifies bitmap
      ensures Valid()
      ensures Used() == old(Used()) + if f < total then {f} else {}
    {
      if f >= total { return; }
      ghost var was := bitmap[..];
      bitmap[f / 32] := bitmap[f / 32][f % 32 := true];
      assert bitmap[..] == was[f / 32 := was[f / 32][f % 32 := true]];
      forall g: nat ensures Marked(bitmap[..], g) == (g == f || Marked(was, g)) {
        MarkOne(was, f, true, g);
      }
    }

    method ClearFrame(f: nat)
      requires Valid()
      modifies bitmap
      ensures Valid()
      ensures Used() == old(Used()) - {f}
    {
      if f >= total { return; }
      ghost var was := bitmap[..];
      bitmap[f / 32] := bitmap[f / 32][f % 32 := false];
      assert bitmap[..] == was[f / 32 := was[f / 32][f % 32 := false]];
      forall g: nat ensures Marked(bitmap[..], g) == (g != f && Marked(was, g)) {
        MarkOne(was, f, false, g);
      }
    }

    /** The frames the search looks at: whole bitmap words only, so up to 31
        frames at the top of memory are never handed out. */
    function Searched(): (n: nat)
      ensures n <= total
    {
      total / 32 * 32
    }

    ghost predicate Passed(f: nat, r: int)
    {
      f < kernelLimit && f < (if r == -1 then Searched() else r)
    }

    /** The early-range frames that a search ending at r has passed. */
    ghost function Below(r: int): (early: set<nat>)
    {
      set f: nat | 0 <= f < total && Passed(f, r)
    }

    /** pmm_first_free: the lowest unmarked frame above the kernel's early
        range, or -1 exactly when there is none in the searched range. Unmarked
        frames of the early range that it passes are marked on the way; it does
        not mark the frame it returns. */
    method FirstFree() returns (r: int)
      requires Valid()
      modifies bitmap
      ensures Valid()
      ensures r == -1 || (kernelLimit <= r < Searched() && r !in old(Used()))
      ensures forall f: nat :: kernelLimit <= f < (if r == -1 then Searched() else r) ==> f in old(Used())
      ensures Used() == old(Used()) + Below(r)
    {
      ghost var was := bitmap[..];
      var i := 0;
      while i < total / 32
        invariant 0 <= i <= total / 32
        invariant Valid()
        invariant forall f: nat :: kernelLimit <= f < 32 * i ==> Marked(was, f)
        invariant forall f: nat {:trigger Marked(bitmap[..], f)} :: Marked(bitmap[..], f) == (Marked(was, f) || (f < 32 * i && f < kernelLimit))
      {
        if bitmap[i] != FULL_WORD {
          var j := 0;
          while j < 32
            invariant 0 <= j <= 32
            invariant Valid()
            invariant forall f: nat :: kernelLimit <= f < 32 * i + j ==> Marked(was, f)
            invariant forall f: nat {:trigger Marked(bitmap[..], f)} :: Marked(bitmap[..], f) == (Marked(was, f) || (f < 32 * i + j && f < kernelLimit))
          {
            var f := i * 32 + j;
            assert f / 32 == i && f % 32 == j;
            if !bitmap[i][j] {
              assert !Marked(bitmap[..], f);
              if f >= kernelLimit {
                return f;
              }
              ghost var before := bitmap[..];
              bitmap[i] := bitmap[i][j := true];
              assert bitmap[..] == before[i := before[i][j := true]];
              forall g: nat ensures Marked(bitmap[..], g) == (g == f || Marked(before, g)) {
                MarkOne(before, f, true, g);
              }
            } else {
              assert Marked(bitmap[..], f);
            }
            j := j + 1;
          }
        } else {
          forall f: nat | 32 * i <= f < 32 * i + 32 ensures Marked(was, f) {
            assert Marked(bitmap[..], f);
          }
        }
        i := i + 1;
      }
      return -1;
    }

    /** frame_add_ref: marks an unreferenced frame used; the count is a byte. */
    method AddRef(f: nat)
      requires Valid()
      modifies bitmap, refs
      ensures Valid()
      ensures refs[..] == if f < total then old(refs[..])[f := (old(refs[f]) + 1) % 256] else old(refs[..])
      ensures Used() == old(Used()) + if f < total && old(refs[f]) == 0 then {f} else {}
    {
      if f < total {
        if refs[f] == 0 {
          SetFrame(f);
        }
        refs[f] := (refs[f] + 1) % 256;
      }
    }

    /** frame_remove_ref: a frame whose last reference goes becomes free; an
        unreferenced frame keeps its mark. */
    method RemoveRef(f: nat)
      requires Valid()
      modifies bitmap, refs
      ensures Valid()
      ensures refs[..] == if f < total && old(refs[f]) > 0 then old(refs[..])[f := old(refs[f]) - 1] else old(refs[..])
      ensures Used() == old(Used()) - if f < total && old(refs[f]) == 1 then {f} else {}
    {
      if f < total && refs[f] > 0 {
        refs[f] := refs[f] - 1;
        if refs[f] == 0 {
          ClearFrame(f);
        }
      }
    }

    method GetRef(f: nat) returns (n: nat)
      requires Valid()
      ensures n == if f < total then refs[f] else 0
    {
      n := if f < total then refs[f] else 0;
    }
  }
}
