/** 8.3 names: canonicalize_83 and the printing loop of fat32_vfs_readdir. */
module FatNames {
  import opened Bytes
  import opened FatDirectory

  const DOT: byte := 46
  const SPACE: byte := 32

  /** Index of the first dot from i on, or the length. */
  function DotFrom(s: seq<byte>, i: nat): (r: nat)
    requires i <= |s|
    ensures i <= r <= |s| && (r < |s| ==> s[r] == DOT) && forall k :: i <= k < r ==> s[k] != DOT
    decreases |s| - i
  {
    if i == |s| || s[i] == DOT then i else DotFrom(s, i + 1)
  }

  /** Character k of a field that shows s[from..to] in capitals, padded. */
  function Padded(s: seq<byte>, from: nat, to: nat, k: nat): byte
    requires from <= to <= |s|
  {
    if from + k < to then Upper(s[from + k]) else SPACE
  }

  /** Eight characters before the first dot, three behind it. */
  function Canon83(s: seq<byte>): (r: seq<byte>)
    ensures |r| == NAME
  {
    var d := DotFrom(s, 0);
    seq(NAME, k requires 0 <= k < NAME =>
      if k < 8 then Padded(s, 0, d, k) else if d < |s| then Padded(s, d + 1, |s|, k - 8) else SPACE)
  }

  /** canonicalize_83. The name ends at its first zero byte, so it holds none. */
  method Canonicalize(s: seq<byte>) returns (r: seq<byte>)
    ensures r == Canon83(s)
    ensures exists d :: Names83(s, d, r)
  {
    var name: seq<byte> := seq(NAME, _ => SPACE);
    var i, j := 0, 0;
    while i < |s| && s[i] != DOT && j < 8
      invariant |name| == NAME && 0 <= j == i <= |s| && j <= 8 && forall k :: 0 <= k < i ==> s[k] != DOT
      invariant forall k :: 0 <= k < NAME ==> name[k] == if k < j then Upper(s[k]) else SPACE
    {
      name := name[j := Upper(s[i])];
      i, j := i + 1, j + 1;
    }
    while i < |s| && s[i] != DOT
      invariant j <= i <= |s| && (j < i ==> j == 8) && forall k :: 0 <= k < i ==> s[k] != DOT
    {
      i := i + 1;
    }
    ghost var d := i;
    DotIs(s, d);
    if i < |s| {
      i, j := i + 1, 8;
      while i < |s| && j < 11
        invariant |name| == NAME && d + 1 <= i <= |s| && 8 <= j <= 11 && j - 8 == i - (d + 1)
        invariant forall k :: 0 <= k < 8 ==> name[k] == Padded(s, 0, d, k)
        invariant forall k :: 8 <= k < NAME ==> name[k] == if k < j then Upper(s[d + 1 + k - 8]) else SPACE
      {
        name := name[j := Upper(s[i])];
        i, j := i + 1, j + 1;
      }
    }
    r := name;
    CanonIs(s, d, r);
    CanonMeans(s);
  }

  /** c as the driver stores it: small letters become capitals. */
  predicate Capital(c: byte, u: byte)
  {
    u == if 97 <= c <= 122 then c - 32 else c
  }

  /** d is the first dot of s or its end. Before it the first eight bytes of s,
      behind it the first three, in capitals, and spaces for those that are not
      there. */
  ghost predicate Names83(s: seq<byte>, d: nat, r: seq<byte>)
  {
    && d <= |s| && (d < |s| ==> s[d] == 46) && 46 !in s[..d] && |r| == 11
    && (forall k :: 0 <= k < 8 ==> if k < d then Capital(s[k], r[k]) else r[k] == 32)
    && (forall k :: 8 <= k < 11 ==> if d + 1 + (k - 8) < |s| then Capital(s[d + 1 + (k - 8)], r[k]) else r[k] == 32)
    && (forall k :: 0 <= k < 11 ==> !(97 <= r[k] <= 122))
  }

  lemma CanonMeans(s: seq<byte>)
    ensures exists d :: Names83(s, d, Canon83(s))
  {
    var d, r := DotFrom(s, 0), Canon83(s);
    assert 46 !in s[..d];
    forall k | 0 <= k < 11
      ensures k >= 8 ==> if d + 1 + (k - 8) < |s| then Capital(s[d + 1 + (k - 8)], r[k]) else r[k] == 32
      ensures !(97 <= r[k] <= 122)
    {
      assert r[k] == if k < 8 then Padded(s, 0, d, k) else if d < |s| then Padded(s, d + 1, |s|, k - 8) else SPACE;
    }
    assert Names83(s, d, Canon83(s));
  }

  lemma CanonIs(s: seq<byte>, d: nat, r: seq<byte>)
    requires d <= |s| && DotFrom(s, 0) == d && |r| == NAME && (forall k :: 0 <= k < 8 ==> r[k] == Padded(s, 0, d, k))
    requires forall k :: 8 <= k < NAME ==> r[k] == if d < |s| then Padded(s, d + 1, |s|, k - 8) else SPACE
    ensures r == Canon83(s)
  {
  }

  lemma {:induction false} DotIs(s: seq<byte>, d: nat)
    requires d <= |s| && (d < |s| ==> s[d] == DOT) && forall k :: 0 <= k < d ==> s[k] != DOT
    ensures DotFrom(s, 0) == d
  {
    DotFromIs(s, d, 0);
  }

  lemma {:induction false} DotFromIs(s: seq<byte>, d: nat, i: nat)
    requires i <= d <= |s| && (d < |s| ==> s[d] == DOT) && forall k :: 0 <= k < d ==> s[k] != DOT
    ensures DotFrom(s, i) == d
    decreases d - i
  {
    if i < d {
      DotFromIs(s, d, i + 1);
    }
  }

  // ----- Printing

  /** How many characters of the field of width n at from precede a space. */
  function Length(s: seq<byte>, from: nat, n: nat): (r: nat)
    requires from + n <= |s|
    ensures r <= n && (forall k :: from <= k < from + r ==> s[k] != SPACE) && (r < n ==> s[from + r] == SPACE)
    decreases n
  {
    if n == 0 || s[from] == SPACE then 0 else 1 + Length(s, from + 1, n - 1)
  }

  function Print83(n: seq<byte>): seq<byte>
    requires |n| == NAME
  {
    n[..Length(n, 0, 8)] + if n[8] != SPACE then [DOT] + n[8..8 + Length(n, 8, 3)] else []
  }

  /** Fields are letters followed by spaces, without lower case, and without a
      dot in the base. */
  ghost predicate WellFormed(n: seq<byte>)
  {
    && |n| == NAME
    && (forall k :: 0 <= k < NAME ==> Upper(n[k]) == n[k])
    && (forall k :: 0 <= k < 8 ==> n[k] != DOT)
    && (forall k :: Length(n, 0, 8) <= k < 8 ==> n[k] == SPACE)
    && (forall k :: 8 + Length(n, 8, 3) <= k < 11 ==> n[k] == SPACE)
  }

  /** Parsing what was printed gives the name back. */
  lemma PrintParse(n: seq<byte>)
    requires WellFormed(n)
    ensures Canon83(Print83(n)) == n
  {
    hide Canon83, Print83, WellFormed;
    PrintedShape(n);
    DotIs(Print83(n), Length(n, 0, 8));
    forall k | 0 <= k < NAME
      ensures Canon83(Print83(n))[k] == n[k]
    {
      if k < 8 {
        BaseParses(n, k);
      } else {
        ExtensionParses(n, k);
      }
    }
  }

  /** The base, and behind it a dot and the extension if there is one. */
  lemma PrintedShape(n: seq<byte>)
    requires WellFormed(n)
    ensures |n| == NAME
    ensures var a, b, s := Length(n, 0, 8), Length(n, 8, 3), Print83(n);
            && |s| == a + (if n[8] != SPACE then 1 + b else 0) && (n[8] != SPACE ==> s[a] == DOT)
            && (forall k :: 0 <= k < a ==> s[k] == n[k] && s[k] != DOT)
            && (n[8] != SPACE ==> forall k :: 8 <= k < 8 + b ==> n[k] == s[a + k - 7])
  {
    hide Length;
  }

  lemma BaseParses(n: seq<byte>, k: nat)
    requires WellFormed(n) && k < 8 && DotFrom(Print83(n), 0) == Length(n, 0, 8)
    ensures Canon83(Print83(n))[k] == n[k]
  {
    PrintedShape(n);
    hide Print83, Length, DotFrom;
    assert Canon83(Print83(n))[k] == Padded(Print83(n), 0, Length(n, 0, 8), k);
  }

  lemma ExtensionParses(n: seq<byte>, k: nat)
    requires WellFormed(n) && 8 <= k < NAME && DotFrom(Print83(n), 0) == Length(n, 0, 8)
    ensures Canon83(Print83(n))[k] == n[k]
  {
    PrintedShape(n);
    NoExtension(n);
    hide Print83, Length, DotFrom;
    var s, a := Print83(n), Length(n, 0, 8);
    assert Canon83(s)[k] == if a < |s| then Padded(s, a + 1, |s|, k - 8) else SPACE;
  }

  lemma NoExtension(n: seq<byte>)
    requires |n| == NAME
    ensures Length(n, 8, 3) == 0 <==> n[8] == SPACE
  {
  }

  /** Names the driver makes match each other exactly when they are equal. */
  lemma CanonUpper(s: seq<byte>, t: seq<byte>)
    ensures Matches(Canon83(s), Canon83(t), false) <==> Matches(Canon83(s), Canon83(t), true)
  {
    CanonIsUpper(s);
    CanonIsUpper(t);
  }

  lemma CanonIsUpper(s: seq<byte>)
    ensures forall k :: 0 <= k < NAME ==> Upper(Canon83(s)[k]) == Canon83(s)[k]
  {
    var d := DotFrom(s, 0);
    forall k | 0 <= k < NAME
      ensures Upper(Canon83(s)[k]) == Canon83(s)[k]
    {
      if k < 8 {
        assert Canon83(s)[k] == Padded(s, 0, d, k);
      } else if d < |s| {
        assert Canon83(s)[k] == Padded(s, d + 1, |s|, k - 8);
      }
    }
  }
}
