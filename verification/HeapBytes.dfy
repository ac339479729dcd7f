/** The block header and the block footer of libc/kheap.h as they lie in bytes. */
module HeapBytes {
  import opened Bytes

  const MAGIC: nat := 0x1238_90AB

  // sizeof(header_t) and sizeof(footer_t)
  const HEADER: nat := 12
  const FOOTER: nat := 16
  const TAGS: nat := 28

  /** magic at 0, is_hole at 4 (one byte), size at 8. */
  datatype Header = Header(magic: nat, hole: nat, size: nat)

  /** magic at 0, the header's address at 8. */
  datatype Footer = Footer(magic: nat, header: nat)

  function HeaderAt(m: seq<byte>, p: nat): Header
    requires p + HEADER <= |m|
  {
    Header(Get32(m, p), m[p + 4], Get32(m, p + 8))
  }

  function FooterAt(m: seq<byte>, p: nat): Footer
    requires p + FOOTER <= |m|
  {
    Footer(Get32(m, p), Get64(m, p + 8))
  }

  /** The three stores that fill a header; the padding keeps its bytes. */
  function PutHeader(m: seq<byte>, p: nat, hole: byte, size: nat): (r: seq<byte>)
    requires p + HEADER <= |m|
    ensures |r| == |m| && SameOutside(m, r, p, p + HEADER)
    ensures HeaderAt(r, p) == Header(MAGIC, hole, size % WORD)
  {
    var m1 := Put32(m, p, MAGIC);
    var m2: seq<byte> := m1[p + 4 := hole];
    Put32(m2, p + 8, size)
  }

  function PutFooter(m: seq<byte>, p: nat, header: nat): (r: seq<byte>)
    requires p + FOOTER <= |m| && header < WORD64
    ensures |r| == |m| && SameOutside(m, r, p, p + FOOTER)
    ensures FooterAt(r, p) == Footer(MAGIC, header)
  {
    Put64(Put32(m, p, MAGIC), p + 8, header)
  }

  /** Where the fields of the tags lie, and the number that marks them. */
  lemma TagLayout(m: seq<byte>, p: nat, hole: byte, size: nat, header: nat)
    requires p + FOOTER <= |m| && header < WORD64
    ensures var r := PutHeader(m, p, hole, size); Get32(r, p) == 0x1238_90AB && r[p + 4] == hole && Get32(r, p + 8) == size % WORD
    ensures var r := PutFooter(m, p, header); Get32(r, p) == 0x1238_90AB && Get64(r, p + 8) == header
    ensures HEADER == 12 && FOOTER == 16 && TAGS == HEADER + FOOTER
  {
    assert HeaderAt(PutHeader(m, p, hole, size), p) == Header(MAGIC, hole, size % WORD);
    assert FooterAt(PutFooter(m, p, header), p) == Footer(MAGIC, header);
  }

  /** header->size += n, in 32 bits. */
  function AddSize(m: seq<byte>, p: nat, n: nat): (r: seq<byte>)
    requires p + HEADER <= |m|
    ensures |r| == |m| && SameOutside(m, r, p, p + HEADER)
    ensures var h := HeaderAt(m, p); HeaderAt(r, p) == h.(size := (h.size + n) % WORD)
  {
    Put32(m, p + 8, Get32(m, p + 8) + n)
  }

  /** header->is_hole = 1. */
  function MarkHole(m: seq<byte>, p: nat): (r: seq<byte>)
    requires p + HEADER <= |m|
    ensures |r| == |m| && SameOutside(m, r, p, p + HEADER)
    ensures HeaderAt(r, p) == HeaderAt(m, p).(hole := 1)
  {
    m[p + 4 := 1]
  }

  /** footer->header = h. */
  function Retarget(m: seq<byte>, p: nat, h: nat): (r: seq<byte>)
    requires p + FOOTER <= |m| && h < WORD64
    ensures |r| == |m| && SameOutside(m, r, p, p + FOOTER)
    ensures FooterAt(r, p) == FooterAt(m, p).(header := h)
  {
    Put64(m, p + 8, h)
  }

  lemma HeaderFrame(m: seq<byte>, m': seq<byte>, p: nat)
    requires p + HEADER <= |m| && SameOn(m, m', p, p + HEADER)
    ensures HeaderAt(m', p) == HeaderAt(m, p)
  {
  }

  lemma FooterFrame(m: seq<byte>, m': seq<byte>, p: nat)
    requires p + FOOTER <= |m| && SameOn(m, m', p, p + FOOTER)
    ensures FooterAt(m', p) == FooterAt(m, p)
  {
  }
}
