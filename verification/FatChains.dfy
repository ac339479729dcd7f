/** Cluster chains in the allocation table: acyclic, ended by an end-of-chain
    mark, no two sharing a cluster. */
module FatChains {
  import opened FatVolume

  type Table = seq<nat>

  /** ch is the whole chain that starts at its first cluster. */
  ghost predicate Chain(fat: Table, ch: seq<nat>)
  {
    && (forall i :: 0 <= i < |ch| ==> 2 <= ch[i] < |fat|)
    && (forall i :: 0 <= i < |ch| - 1 ==> fat[ch[i]] == ch[i + 1])
    && (ch != [] ==> fat[ch[|ch| - 1]] >= 0x0FFF_FFF8)
  }

  ghost predicate Distinct(ch: seq<nat>)
  {
    forall i, j :: 0 <= i < j < |ch| ==> ch[i] != ch[j]
  }

  /** A chain that ends cannot come back to itself. */
  lemma {:induction false} ChainDistinct(fat: Table, ch: seq<nat>)
    requires Chain(fat, ch) && |fat| <= EOC
    ensures Distinct(ch)
  {
    forall i, j | 0 <= i < j < |ch|
      ensures ch[i] != ch[j]
    {
      if ch[i] == ch[j] {
        NeverEnds(fat, ch, i, j, |ch| - 1 - j);
        assert false;
      }
    }
  }

  /** From equal clusters i < j the chain goes on equally. */
  lemma {:induction false} NeverEnds(fat: Table, ch: seq<nat>, i: nat, j: nat, n: nat)
    requires Chain(fat, ch) && |fat| <= EOC && i < j && j + n < |ch| && ch[i] == ch[j]
    ensures ch[i + n] == ch[j + n] && j + n < |ch| - 1
  {
    if n > 0 {
      NeverEnds(fat, ch, i, j, n - 1);
    }
    assert i + n < |ch| - 1 && fat[ch[i + n]] == ch[i + n + 1] < |fat|;
  }

  ghost predicate Apart(a: seq<nat>, b: seq<nat>)
  {
    forall x :: x in a ==> x !in b
  }

  /** All files and directories: whole chains that share no cluster. */
  ghost predicate Live(fat: Table, chains: set<seq<nat>>)
  {
    && (forall ch :: ch in chains ==> ch != [] && Chain(fat, ch))
    && (forall a, b :: a in chains && b in chains && a != b ==> Apart(a, b))
  }

  lemma FreeIsNowhere(fat: Table, ch: seq<nat>, c: nat)
    requires Chain(fat, ch) && c < |fat| && fat[c] == 0
    ensures c !in ch
  {
    forall i | 0 <= i < |ch|
      ensures ch[i] < |fat| && fat[ch[i]] != 0
    {
      assert i < |ch| - 1 ==> fat[ch[i]] == ch[i + 1] >= 2;
    }
  }

  lemma ChainFrame(fat: Table, fat': Table, ch: seq<nat>)
    requires Chain(fat, ch) && |fat'| == |fat| && forall x :: x in ch && x < |fat| ==> fat'[x] == fat[x]
    ensures Chain(fat', ch)
  {
    assert forall i :: 0 <= i < |ch| ==> ch[i] in ch;
  }

  /** The table after linking the free cluster c behind the first n of ch. */
  function Linked(fat: Table, ch: seq<nat>, n: nat, c: nat): Table
    requires 0 < n <= |ch| && c < |fat| && ch[n - 1] < |fat|
  {
    fat[c := LAST][ch[n - 1] := c]
  }

  lemma LinkedOk(fat: Table, ch: seq<nat>, n: nat, c: nat)
    requires Chain(fat, ch) && Distinct(ch) && 0 < n <= |ch| && 2 <= c < |fat| && fat[c] == 0
    ensures Chain(Linked(fat, ch, n, c), ch[..n] + [c]) && c !in ch && Distinct(ch[..n] + [c])
  {
    FreeIsNowhere(fat, ch, c);
    var ch' := ch[..n] + [c];
    assert forall i :: 0 <= i < n ==> ch'[i] == ch[i];
  }

  /** Everything on ch zeroed, everything else kept. */
  ghost predicate Cleared(fat: Table, fat': Table, ch: seq<nat>)
  {
    |fat'| == |fat| && forall c :: 0 <= c < |fat| ==> fat'[c] == if c in ch then 0 else fat[c]
  }

  lemma ClearKeepsLive(fat: Table, fat': Table, chains: set<seq<nat>>, ch: seq<nat>)
    requires Live(fat, chains) && ch in chains && Cleared(fat, fat', ch)
    ensures Live(fat', chains - {ch})
  {
    forall b | b in chains && b != ch
      ensures Chain(fat', b)
    {
      assert Apart(b, ch);
      ChainFrame(fat, fat', b);
    }
  }

  // ----- Following links

  ghost function Used(fat: Table): set<nat>
  {
    set c | 0 <= c < |fat| && fat[c] != 0
  }

  lemma UsedShrinks(fat: Table, c: nat)
    requires c < |fat|
    ensures if fat[c] != 0 then Used(fat[c := 0]) < Used(fat) else fat[c := 0] == fat
  {
    assert fat[c] != 0 ==> c in Used(fat) && c !in Used(fat[c := 0]);
    assert Used(fat[c := 0]) <= Used(fat);
  }

  /** Zeroing one entry after the other along the links. It ends on every
      table, cyclic or not: a step either clears a used entry or is the last. */
  ghost function Freed(fat: Table, c: nat): (r: Table)
    ensures |r| == |fat|
    decreases Used(fat), c
  {
    if c == 0 || c >= |fat| then fat else
    UsedShrinks(fat, c);
    Freed(fat[c := 0], fat[c])
  }

  /** Following the links from c, zeroing behind, never leaves the table. */
  ghost predicate StaysIn(fat: Table, c: nat)
    decreases Used(fat), c
  {
    c == 0 || c >= EOC || (c < |fat| && (UsedShrinks(fat, c); StaysIn(fat[c := 0], fat[c])))
  }

  lemma {:induction false} ChainStays(fat: Table, now: Table, ch: seq<nat>, k: nat)
    requires Chain(fat, ch) && Distinct(ch) && k < |ch| && |now| == |fat|
    requires forall i :: k <= i < |ch| ==> now[ch[i]] == fat[ch[i]]
    ensures StaysIn(now, ch[k])
    decreases |ch| - k
  {
    UsedShrinks(now, ch[k]);
    if k + 1 < |ch| {
      ChainStays(fat, now[ch[k] := 0], ch, k + 1);
    }
  }

  /** c is first or one of the clusters its links lead to. */
  ghost predicate Path(fat: Table, first: nat, c: nat, p: seq<nat>)
  {
    && p != [] && p[0] == first && p[|p| - 1] == c
    && forall i :: 0 <= i < |p| - 1 ==> 0 < p[i] < |fat| && fat[p[i]] == p[i + 1]
  }

  ghost predicate Reaches(fat: Table, first: nat, c: nat)
  {
    exists p :: Path(fat, first, c, p)
  }

  /** In any table at all, only clusters on the way are touched, and those
      become free. */
  lemma {:induction false} FreedOnlyReached(fat: Table, first: nat, c: nat)
    requires c < |fat|
    ensures Freed(fat, first)[c] == fat[c] || (c != 0 && Freed(fat, first)[c] == 0 && Reaches(fat, first, c))
    decreases Used(fat), first
  {
    if first != 0 && first < |fat| {
      UsedShrinks(fat, first);
      var fat' := fat[first := 0];
      FreedOnlyReached(fat', fat[first], c);
      if c == first {
        assert Path(fat, first, c, [first]);
      } else if Freed(fat', fat[first])[c] != fat[c] {
        var p :| Path(fat', fat[first], c, p);
        ReachLonger(fat, first, c, p);
      }
    }
  }

  lemma ReachLonger(fat: Table, first: nat, c: nat, p: seq<nat>)
    requires 0 < first < |fat| && c != 0 && Path(fat[first := 0], fat[first], c, p)
    ensures Reaches(fat, first, c)
  {
    forall i | 0 <= i < |p| - 1
      ensures p[i] != first
    {
      assert fat[first := 0][p[i]] == p[i + 1];
      assert i + 1 < |p| - 1 ==> p[i + 1] > 0;
    }
    assert Path(fat, first, c, [first] + p);
  }

  /** A whole chain is freed exactly. */
  lemma {:induction false} FreedFrom(fat: Table, now: Table, ch: seq<nat>, k: nat)
    requires Chain(fat, ch) && Distinct(ch) && k < |ch| && |now| == |fat| <= EOC
    requires forall i :: k <= i < |ch| ==> now[ch[i]] == fat[ch[i]]
    ensures Cleared(now, Freed(now, ch[k]), ch[k..])
    decreases |ch| - k
  {
    var c := ch[k];
    UsedShrinks(now, c);
    var now' := now[c := 0];
    if k + 1 < |ch| {
      assert now[c] == ch[k + 1];
      FreedFrom(fat, now', ch, k + 1);
      assert ch[k..] == [c] + ch[k + 1..];
    } else {
      assert now[c] >= EOC;
      assert ch[k..] == [c];
    }
  }

  // ----- Counting free clusters

  ghost function Unused(fat: Table): set<nat>
  {
    set c: nat | 2 <= c < |fat| && fat[c] == 0
  }

  /** How many clusters fat32_find_free_cluster can still hand out. */
  ghost function FreeIn(fat: Table): nat
  {
    |Unused(fat)|
  }

  ghost predicate NothingFree(fat: Table)
  {
    forall c :: 2 <= c < |fat| ==> fat[c] != 0
  }

  lemma NoneLeft(fat: Table)
    ensures NothingFree(fat) <==> FreeIn(fat) == 0
  {
    if NothingFree(fat) {
      assert Unused(fat) == {};
    } else {
      var c: nat :| 2 <= c < |fat| && fat[c] == 0;
      assert c in Unused(fat);
    }
  }

  /** Marking a free cluster takes one, whatever other used entry is rewritten. */
  lemma OneTaken(fat: Table, c: nat, v: nat, last: nat, w: nat)
    requires 2 <= c < |fat| && fat[c] == 0 && v != 0 && last < |fat| && last != c && fat[last] != 0 && w != 0
    ensures FreeIn(fat[c := v]) == FreeIn(fat) - 1 && FreeIn(fat[c := v][last := w]) == FreeIn(fat) - 1
  {
    assert c in Unused(fat);
    assert Unused(fat[c := v]) == Unused(fat) - {c};
    assert Unused(fat[c := v][last := w]) == Unused(fat) - {c};
  }

  lemma OneMarked(fat: Table, c: nat)
    requires 2 <= c < |fat| && fat[c] == 0
    ensures FreeIn(fat[c := LAST % NIBBLE]) == FreeIn(fat) - 1 && FreeIn(fat[c := LAST]) == FreeIn(fat) - 1
  {
    assert LAST % NIBBLE == LAST;
    assert c in Unused(fat);
    assert Unused(fat[c := LAST % NIBBLE]) == Unused(fat) - {c};
  }

  ghost function Members(ch: seq<nat>): set<nat>
  {
    set c | c in ch
  }

  lemma {:induction false} MembersCount(ch: seq<nat>)
    requires Distinct(ch)
    ensures |Members(ch)| == |ch|
  {
    if ch != [] {
      var n := |ch| - 1;
      MembersCount(ch[..n]);
      assert ch == ch[..n] + [ch[n]];
      assert Members(ch) == Members(ch[..n]) + {ch[n]};
    }
  }

  /** Freeing a chain gives back exactly its clusters. */
  lemma ClearedFrees(fat: Table, fat': Table, ch: seq<nat>)
    requires Chain(fat, ch) && |fat| <= EOC && Cleared(fat, fat', ch)
    ensures FreeIn(fat') == FreeIn(fat) + |ch|
  {
    ChainDistinct(fat, ch);
    MembersCount(ch);
    forall c | c in ch
      ensures c !in Unused(fat)
    {
      if c in Unused(fat) { FreeIsNowhere(fat, ch, c); }
    }
    assert Unused(fat') == Unused(fat) + Members(ch);
  }

  lemma EndTaken(fat: Table, ch: seq<nat>, c: nat)
    requires Chain(fat, ch) && ch != [] && 2 <= c < |fat| && fat[c] == 0
    ensures FreeIn(fat[c := LAST][ch[|ch| - 1] := c]) == FreeIn(fat) - 1
  {
    OneTaken(fat, c, LAST, ch[|ch| - 1], c);
  }

  /** now goes on from the first m clusters of ch; the others of ch are in use
      and no longer on it. */
  ghost predicate Dropped(fat: Table, ch: seq<nat>, now: seq<nat>, m: nat)
  {
    && m <= |ch| && m <= |now| && now[..m] == ch[..m]
    && forall i :: m <= i < |ch| ==> ch[i] !in now && ch[i] < |fat| && fat[ch[i]] != 0
  }

  ghost predicate Behind(fat: Table, ch: seq<nat>, now: seq<nat>, m: nat, linked: bool)
  {
    if linked then Dropped(fat, ch, now, m) else now == ch
  }

  lemma NoneBehind(fat: Table, ch: seq<nat>, m: nat)
    ensures Behind(fat, ch, ch, m, false)
  {
  }

  lemma LinkTakes(fat: Table, ch: seq<nat>, now: seq<nat>, m0: nat, m: nat, c: nat)
    requires Behind(fat, ch, now, m0, m > m0) && 0 < m0 <= m <= |now| && m0 <= |ch| && Chain(fat, now) && 2 <= c < |fat| <= EOC && fat[c] == 0 && now[m - 1] < |fat|
    ensures var fat' := fat[c := LAST][now[m - 1] := c];
            FreeIn(fat') == FreeIn(fat) - 1 && Behind(fat', ch, now[..m] + [c], m0, true)
  {
    LinkDrops(fat, ch, now, m0, m, c);
    FreeIsNowhere(fat, now, c);
    assert now[m - 1] in now && (m < |now| ==> fat[now[m - 1]] == now[m]);
    OneTaken(fat, c, LAST, now[m - 1], c);
  }

  lemma LinkDrops(fat: Table, ch: seq<nat>, now: seq<nat>, m0: nat, m: nat, c: nat)
    requires Behind(fat, ch, now, m0, m > m0) && 0 < m0 <= m <= |now| && m0 <= |ch| && Chain(fat, now) && 2 <= c < |fat| <= EOC && fat[c] == 0 && now[m - 1] < |fat|
    ensures Dropped(fat[c := LAST][now[m - 1] := c], ch, now[..m] + [c], m0)
  {
    var now' := now[..m] + [c];
    ChainDistinct(fat, now);
    if m == m0 {
      forall i | m0 <= i < |ch|
        ensures ch[i] !in now' && ch[i] < |fat| && fat[ch[i]] != 0 && ch[i] != now[m - 1]
      {
        assert i < |ch| - 1 ==> fat[now[i]] == now[i + 1];
        assert now[m - 1] != now[i];
      }
    }
    assert now'[..m0] == now[..m0];
  }
}
