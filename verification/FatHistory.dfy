/** A directory over whole histories: to its users it is a map from names to
    files and folders, whatever was created, written, made and removed in
    between, and the rest of the volume keeps its bytes. */
module FatHistory {
  import opened Bytes
  import opened FatVolume
  import opened FatChains
  import opened FatData
  import Dir = FatDirectory
  import opened FatNames
  import opened FatGrowth
  import opened Driver = Fat32

  datatype Item = Document(bytes: seq<byte>) | Folder

  datatype Request =
    | Create(name: seq<byte>)
    | MakeDir(name: seq<byte>)
    | Write(name: seq<byte>, offset: nat, data: seq<byte>)
    | Remove(name: seq<byte>)

  /** Hidden: the name begins with the byte that marks deleted slots. Skipped:
      a write to a folder, or one that ends within a cluster of 4 GiB or later. */
  datatype Reply = Served | Taken | NoRoom | Missing | Hidden | Skipped

  function Overwrite(s: seq<byte>, p: nat, data: seq<byte>): (t: seq<byte>)
    ensures Overwritten(s, t, p, data)
  {
    seq(Max(|s|, p + |data|), i => if p <= i < p + |data| then data[i - p] else if 0 <= i < |s| then s[i] else 0)
  }

  /** The map of names, one step on. */
  function Next(items: map<seq<byte>, Item>, q: Request, r: Reply): map<seq<byte>, Item>
  {
    if r != Served then items else
    var k := Canon83(q.name);
    match q
    case Create(_) => items[k := Document([])]
    case MakeDir(_) => items[k := Folder]
    case Write(_, offset, data) => if k in items && items[k].Document? then items[k := Document(Overwrite(items[k].bytes, offset, data))] else items
    case Remove(_) => items - {k}
  }

  function After(items: map<seq<byte>, Item>, requests: seq<Request>, replies: seq<Reply>): map<seq<byte>, Item>
    requires |replies| == |requests|
  {
    if requests == [] then items else
    var n := |requests| - 1;
    Next(After(items, requests[..n], replies[..n]), requests[n], replies[n])
  }

  /** What one served request does to one name. */
  lemma NextMeans(items: map<seq<byte>, Item>, q: Request, r: Reply, k: seq<byte>)
    ensures r != Served || k != Canon83(q.name) ==>
              var n := Next(items, q, r); (k in n <==> k in items) && (k in items ==> n[k] == items[k])
    ensures r == Served && k == Canon83(q.name) ==>
              var n := Next(items, q, r);
              && (q.Create? ==> k in n && n[k] == Document([]))
              && (q.MakeDir? ==> k in n && n[k] == Folder)
              && (q.Remove? ==> k !in n)
              && (q.Write? && k in items && items[k].Document? ==> k in n && n[k].Document? && Patched(items[k].bytes, n[k].bytes, q.offset, q.data))
  {
  }

  /** t is s with data at offset; a gap between the two is zeros. */
  ghost predicate Patched(s: seq<byte>, t: seq<byte>, offset: nat, data: seq<byte>)
  {
    && |t| == (if |s| < offset + |data| then offset + |data| else |s|)
    && t[offset..offset + |data|] == data
    && (forall i :: 0 <= i < |t| && !(offset <= i < offset + |data|) ==> t[i] == if i < |s| then s[i] else 0)
  }

  /** What was written to a file is in it until the next request for its name. */
  lemma {:induction false} LastWriteStays(items: map<seq<byte>, Item>, requests: seq<Request>, replies: seq<Reply>, i: nat)
    requires |replies| == |requests| && i < |requests| && requests[i].Write? && replies[i] == Served
    requires var b, k := After(items, requests[..i], replies[..i]), Canon83(requests[i].name); k in b && b[k].Document?
    requires forall j :: i < j < |requests| ==> replies[j] != Served || Canon83(requests[j].name) != Canon83(requests[i].name)
    ensures var q := requests[i]; var k, b, n := Canon83(q.name), After(items, requests[..i], replies[..i]), After(items, requests, replies);
            k in n && n[k].Document? && Patched(b[k].bytes, n[k].bytes, q.offset, q.data)
    decreases |requests|
  {
    hide Canon83, Next, Patched;
    var n, k := |requests| - 1, Canon83(requests[i].name);
    NextMeans(After(items, requests[..n], replies[..n]), requests[n], replies[n], k);
    if i < n {
      assert requests[..n][..i] == requests[..i] && replies[..n][..i] == replies[..i];
      LastWriteStays(items, requests[..n], replies[..n], i);
    }
  }

  // ----- What a reply means

  /** A search for k ends at an entry with these fields. */
  ghost predicate Entered(g: Geometry, d: Disk, dir: seq<nat>, k: seq<byte>, attr: byte, c: nat, size: nat)
  {
    && |k| == 11 && Formatted(g, d) && OnVolume(g, dir)
    && var w := Whole(g, d, dir); var j := Dir.Find(w, k, false); j >= 0 && Dir.Says(w, j, k, attr, c, size)
  }

  /** No slot of the directory is unused: the next entry takes a cluster. */
  ghost predicate Packed(g: Geometry, d: Disk, dir: seq<nat>)
  {
    Formatted(g, d) && OnVolume(g, dir) && Dir.FreeSlot(Whole(g, d, dir), 0) == Dir.Slots(Whole(g, d, dir))
  }

  /** The reply to a request, given the names, the free clusters, whether the
      directory is packed, and the free clusters afterwards. */
  ghost predicate Answers(g: Geometry, items: map<seq<byte>, Item>, free: nat, packed: bool, q: Request, r: Reply, left: nat)
  {
    && 0 < ClusterSize(g)
    && match q
       case Create(name) => AnswersCreate(items, free, packed, Canon83(name), r, left)
       case MakeDir(name) => AnswersMakeDir(items, free, packed, Canon83(name), r, left)
       case Write(name, offset, data) => AnswersWrite(g, items, free, Canon83(name), offset + |data|, r, left)
       case Remove(name) => AnswersRemove(items, free, Canon83(name), r, left)
  }

  ghost predicate AnswersCreate(items: map<seq<byte>, Item>, free: nat, packed: bool, k: seq<byte>, r: Reply, left: nat)
    requires |k| == Dir.NAME
  {
    && (r == Taken <==> k in items) && (r == NoRoom <==> k !in items && packed && free == 0)
    && (if k[0] == Dir.DELETED then r != Served else r != Hidden) && r != Missing && r != Skipped
    && left == free - if packed && r != Taken && r != NoRoom then 1 else 0
  }

  ghost predicate AnswersMakeDir(items: map<seq<byte>, Item>, free: nat, packed: bool, k: seq<byte>, r: Reply, left: nat)
    requires |k| == Dir.NAME
  {
    && (r == Taken <==> k in items) && (r == NoRoom <==> k !in items && free <= if packed then 1 else 0)
    && (if k[0] == Dir.DELETED then r != Served else r != Hidden) && r != Missing && r != Skipped
    && match r
       case Taken => left == free
       case NoRoom => left == 0
       case _ => left == free - if packed then 2 else 1
  }

  ghost predicate AnswersWrite(g: Geometry, items: map<seq<byte>, Item>, free: nat, k: seq<byte>, end: nat, r: Reply, left: nat)
    requires 0 < ClusterSize(g)
  {
    if k !in items then r == Missing && left == free
    else if items[k].Folder? || end + ClusterSize(g) > WORD then r == Skipped && left == free
    else
      var extra := Extra(g, |items[k].bytes|, end);
      if free < extra then r == NoRoom && left == 0 else r == Served && left == free - extra
  }

  ghost predicate AnswersRemove(items: map<seq<byte>, Item>, free: nat, k: seq<byte>, r: Reply, left: nat)
  {
    r == (if k in items then Served else Missing) && left >= free && (k !in items ==> left == free)
  }

  /** The clusters a request takes at most. */
  function Needs(g: Geometry, q: Request): nat
    requires 0 < ClusterSize(g)
  {
    match q
    case Create(_) => 1
    case MakeDir(_) => 2
    case Write(_, offset, data) => Needed(g, offset + |data|)
    case Remove(_) => 0
  }

  function NeedsAll(g: Geometry, requests: seq<Request>): nat
    requires 0 < ClusterSize(g)
  {
    if requests == [] then 0 else NeedsAll(g, requests[..|requests| - 1]) + Needs(g, requests[|requests| - 1])
  }

  /** A whole history: what each reply means against the names and the free
      clusters at its time. */
  ghost predicate Told(g: Geometry, items: map<seq<byte>, Item>, requests: seq<Request>, replies: seq<Reply>, free: seq<nat>, packed: seq<bool>)
  {
    && |replies| == |packed| == |requests| && |free| == |requests| + 1
    && forall i :: 0 <= i < |requests| ==>
         Answers(g, After(items, requests[..i], replies[..i]), free[i], packed[i], requests[i], replies[i], free[i + 1])
  }

  /** No request is turned away for space when the clusters that all of them may
      take are free at the start. */
  lemma {:induction false} EnoughIsEnough(g: Geometry, items: map<seq<byte>, Item>, requests: seq<Request>, replies: seq<Reply>, free: seq<nat>, packed: seq<bool>)
    requires 0 < ClusterSize(g) < WORD && Told(g, items, requests, replies, free, packed) && |free| > 0 && free[0] >= NeedsAll(g, requests)
    ensures forall i :: 0 <= i < |requests| ==> replies[i] != NoRoom
    ensures free[|requests|] >= free[0] - NeedsAll(g, requests)
    decreases |requests|
  {
    hide Answers, NeedsAll, Needs, After, Told, ClusterSize;
    ToldSizes(g, items, requests, replies, free, packed);
    NeedsSplit(g, requests);
    if requests != [] {
      var n := |requests| - 1;
      TakeTold(g, items, requests, replies, free, packed, n);
      EnoughIsEnough(g, items, requests[..n], replies[..n], free[..n + 1], packed[..n]);
      OneIsEnough(g, After(items, requests[..n], replies[..n]), free[n], packed[n], requests[n], replies[n], free[n + 1]);
      assert forall i :: 0 <= i < n ==> replies[i] == replies[..n][i];
    }
  }

  lemma ToldSizes(g: Geometry, items: map<seq<byte>, Item>, requests: seq<Request>, replies: seq<Reply>, free: seq<nat>, packed: seq<bool>)
    requires Told(g, items, requests, replies, free, packed)
    ensures |replies| == |packed| == |requests| && |free| == |requests| + 1
    ensures var n := |requests| - 1;
            n >= 0 ==> Answers(g, After(items, requests[..n], replies[..n]), free[n], packed[n], requests[n], replies[n], free[n + 1])
  {
    hide Answers, After;
  }

  lemma NeedsSplit(g: Geometry, requests: seq<Request>)
    requires 0 < ClusterSize(g)
    ensures NeedsAll(g, requests) == if requests == [] then 0 else NeedsAll(g, requests[..|requests| - 1]) + Needs(g, requests[|requests| - 1])
  {
  }

  lemma TakeTold(g: Geometry, items: map<seq<byte>, Item>, requests: seq<Request>, replies: seq<Reply>, free: seq<nat>, packed: seq<bool>, n: nat)
    requires Told(g, items, requests, replies, free, packed) && n <= |requests|
    ensures Told(g, items, requests[..n], replies[..n], free[..n + 1], packed[..n])
  {
    hide Answers, After;
    forall i | 0 <= i < n
      ensures Answers(g, After(items, requests[..n][..i], replies[..n][..i]), free[..n + 1][i], packed[..n][i], requests[..n][i], replies[..n][i], free[..n + 1][i + 1])
    {
      assert requests[..n][..i] == requests[..i] && replies[..n][..i] == replies[..i];
    }
  }

  lemma OneIsEnough(g: Geometry, items: map<seq<byte>, Item>, free: nat, packed: bool, q: Request, r: Reply, left: nat)
    requires 0 < ClusterSize(g) < WORD && Answers(g, items, free, packed, q, r, left) && free >= Needs(g, q)
    ensures r != NoRoom && left >= free - Needs(g, q)
  {
    hide Canon83, Needed, ClusterSize;
    if q.Write? && Canon83(q.name) in items && items[Canon83(q.name)].Document? {
      ExtraAtMost(g, |items[Canon83(q.name)].bytes|, q.offset + |q.data|);
    }
  }

  lemma ExtraAtMost(g: Geometry, length: nat, end: nat)
    requires 0 < ClusterSize(g) < WORD
    ensures end + ClusterSize(g) <= WORD ==> Extra(g, length, end) <= Needed(g, end)
  {
    hide Needed, Needed32;
    if end + ClusterSize(g) <= WORD {
      NeededIn32(g, end);
    }
  }

  // ----- What the disk holds

  ghost predicate Canonical(k: seq<byte>)
  {
    |k| == Dir.NAME && forall i :: 0 <= i < Dir.NAME ==> Dir.Upper(k[i]) == k[i]
  }

  /** The directory's slot for name k leads to file f. */
  ghost predicate SlotSays(w: seq<byte>, k: seq<byte>, f: File, folder: bool)
    requires |k| == Dir.NAME
  {
    var j := Dir.Find(w, k, false);
    && j >= 0 && Dir.NameAt(w, j) == k && Dir.ClusterAt(w, j) == f.inode && Dir.SizeAt(w, j) == f.length
    && (Dir.Attr(w, j) == DIRECTORY <==> folder)
  }

  ghost predicate Holds(g: Geometry, d: Disk, f: File, item: Item, parent: nat)
  {
    && FileOk(g, d, f.inode, f.length, f.chain) && OnVolume(g, f.chain)
    && match item
       case Document(bytes) => ZeroSlack(g, d, f) && Text(g, d, f) == bytes
       case Folder => f.chain == [f.inode] && f.length == 0 && Whole(g, d, f.chain) == DotBytes(g, f.inode, parent)
  }

  ghost predicate Stored(g: Geometry, d: Disk, dir: seq<nat>, k: seq<byte>, item: Item, f: File)
  {
    && Canonical(k) && Formatted(g, d) && OnVolume(g, dir) && dir != [] && Apart(f.chain, dir)
    && SlotSays(Whole(g, d, dir), k, f, item.Folder?) && Holds(g, d, f, item, dir[0])
  }

  /** Every name the directory has is one of these. */
  ghost predicate Complete(w: seq<byte>, keys: set<seq<byte>>)
  {
    forall k :: Canonical(k) && Dir.Find(w, k, false) >= 0 ==> k in keys
  }

  ghost predicate Orderly(w: seq<byte>, keys: set<seq<byte>>)
  {
    Dir.ZeroTail(w) && Dir.Unique(w, false) && Complete(w, keys)
  }

  ghost function FileChains(files: map<seq<byte>, File>): set<seq<nat>>
  {
    set k | k in files && files[k].chain != [] :: files[k].chain
  }

  ghost function AllChains(dir: seq<nat>, files: map<seq<byte>, File>, others: map<seq<nat>, seq<byte>>): set<seq<nat>>
  {
    {dir} + FileChains(files) + others.Keys
  }

  /** No two names share a chain, nor with the directory or a bystander. */
  ghost predicate Separate(dir: seq<nat>, files: map<seq<byte>, File>, others: map<seq<nat>, seq<byte>>)
  {
    && dir !in others
    && (forall k :: k in files ==> files[k].chain != dir && files[k].chain !in others)
    && (forall a, b :: a in files && b in files && a != b && files[a].chain != [] ==> files[a].chain != files[b].chain)
  }

  ghost predicate Untouched(g: Geometry, d: Disk, others: map<seq<nat>, seq<byte>>)
  {
    Formatted(g, d) && forall b :: b in others ==> OnVolume(g, b) && Whole(g, d, b) == others[b]
  }

  ghost predicate Inv(g: Geometry, d: Disk, at: nat, dir: seq<nat>, items: map<seq<byte>, Item>, files: map<seq<byte>, File>,
                      others: map<seq<nat>, seq<byte>>)
  {
    && ListedIn(g, d, at, dir) && OnVolume(g, dir) && Orderly(Whole(g, d, dir), files.Keys)
    && items.Keys == files.Keys && (forall k :: k in files ==> Stored(g, d, dir, k, items[k], files[k]))
    && Live(Fat(g, d), AllChains(dir, files, others)) && Separate(dir, files, others) && Untouched(g, d, others)
  }

  /** '.' of every folder of the map leads to the folder, '..' back to the
      directory. */
  ghost predicate LeadBack(g: Geometry, d: Disk, dir: seq<nat>, items: map<seq<byte>, Item>, files: map<seq<byte>, File>)
  {
    && Formatted(g, d) && dir != []
    && forall k :: k in items && items[k].Folder? ==>
         k in files && OnVolume(g, files[k].chain) && ListsItself(Whole(g, d, files[k].chain), files[k].inode, dir[0])
  }

  lemma FoldersLeadBack(g: Geometry, d: Disk, at: nat, dir: seq<nat>, items: map<seq<byte>, Item>, files: map<seq<byte>, File>,
                        others: map<seq<nat>, seq<byte>>)
    requires Inv(g, d, at, dir, items, files, others)
    ensures LeadBack(g, d, dir, items, files)
  {
    hide Formatted, Fat, Whole, DotBytes, ListsItself, Live, AllChains, Separate, Untouched, Orderly;
    ListedFacts(g, d, at, dir);
    SizesOk(g, d);
    forall k | k in items && items[k].Folder?
      ensures OnVolume(g, files[k].chain) && ListsItself(Whole(g, d, files[k].chain), files[k].inode, dir[0])
    {
      assert Stored(g, d, dir, k, items[k], files[k]);
      DotsListed(g, d, files[k].inode, dir[0]);
    }
  }

  // ----- Names

  lemma CanonIsCanonical(s: seq<byte>)
    ensures Canonical(Canon83(s))
  {
    CanonIsUpper(s);
  }

  lemma CanonFirst(s: seq<byte>)
    requires 0 !in s
    ensures Canon83(s)[0] != 0
  {
    assert |s| > 0 ==> s[0] in s;
    assert Canon83(s)[0] == Padded(s, 0, DotFrom(s, 0), 0);
  }

  /** Names in capitals match only themselves. */
  lemma CanonicalMatch(a: seq<byte>, b: seq<byte>, exact: bool)
    requires Canonical(a) && Canonical(b)
    ensures Dir.Matches(a, b, exact) <==> a == b
  {
  }

  /** A stored name is found by an exact search too, and one that is not there
      by neither. */
  lemma ExactToo(w: seq<byte>, k: seq<byte>)
    requires Canonical(k) && Dir.ZeroTail(w) && Dir.Unique(w, false)
    requires var j := Dir.Find(w, k, false); j >= 0 ==> Dir.NameAt(w, j) == k
    ensures Dir.Find(w, k, true) == Dir.Find(w, k, false)
  {
    var j := Dir.Find(w, k, false);
    Dir.SearchMeans(w, k, false, 0);
    forall i | 0 <= i < Dir.Slots(w)
      ensures Dir.Hit(w, k, true, i) ==> Dir.Hit(w, k, false, i)
    {
      ExactMatch(Dir.NameAt(w, i), k);
    }
    hide Dir.First, Dir.NameAt, Dir.Attr, Dir.Slots, Dir.Search, Dir.Matches;
    if j >= 0 {
      assert Dir.Hit(w, k, true, j) by { ExactSelf(k); }
      hide Dir.Hit;
      Dir.SearchIsFirstHit(w, k, true, j);
    } else {
      hide Dir.Hit;
      Dir.SearchIsNone(w, k, true);
    }
  }

  lemma ExactMatch(a: seq<byte>, b: seq<byte>)
    requires |a| == |b|
    ensures Dir.Matches(a, b, true) ==> Dir.Matches(a, b, false)
  {
  }

  lemma ExactSelf(a: seq<byte>)
    ensures Dir.Matches(a, a, true)
  {
  }

  // ----- Files that an operation does not concern

  lemma HoldsKept(g: Geometry, d: Disk, d': Disk, f: File, item: Item, parent: nat)
    requires Holds(g, d, f, item, parent) && Formatted(g, d') && (f.chain != [] ==> Kept(g, d, d', f.chain))
    ensures Holds(g, d', f, item, parent)
  {
    hide Formatted, Fat, Start, DotBytes;
    if f.chain == [] {
      assert Whole(g, d', f.chain) == Whole(g, d, f.chain);
    }
    hide Whole;
  }

  lemma StoredKept(g: Geometry, d: Disk, d': Disk, dir: seq<nat>, dir': seq<nat>, k: seq<byte>, item: Item, f: File)
    requires Stored(g, d, dir, k, item, f) && Formatted(g, d') && OnVolume(g, dir') && dir' != [] && dir'[0] == dir[0] && Apart(f.chain, dir')
    requires f.chain != [] ==> Kept(g, d, d', f.chain)
    requires Dir.SameEntry(Whole(g, d, dir), Whole(g, d', dir'), k, false)
    ensures Stored(g, d', dir', k, item, f)
  {
    hide Formatted, Fat, Whole, Kept, Holds, Dir.Find, Dir.NameAt, Dir.ClusterAt, Dir.SizeAt, Dir.Attr;
    HoldsKept(g, d, d', f, item, dir[0]);
  }

  /** Two different chains of the volume are whole and apart. */
  lemma TwoChains(fat: seq<nat>, chains: set<seq<nat>>, a: seq<nat>, b: seq<nat>)
    requires Live(fat, chains) && (a in chains || a == []) && (b in chains || b == []) && a != b
    ensures Apart(a, b) && Chain(fat, a) && Chain(fat, b)
  {
  }

  lemma InAll(dir: seq<nat>, files: map<seq<byte>, File>, others: map<seq<nat>, seq<byte>>, k: seq<byte>)
    requires k in files && files[k].chain != []
    ensures files[k].chain in AllChains(dir, files, others)
  {
  }

  /** The chain of a name against the directory, a bystander and another name. */
  lemma Parted(g: Geometry, d: Disk, at: nat, dir: seq<nat>, items: map<seq<byte>, Item>, files: map<seq<byte>, File>,
               others: map<seq<nat>, seq<byte>>, k: seq<byte>)
    requires Inv(g, d, at, dir, items, files, others) && k in files
    ensures dir != [] && Formatted(g, d) && Chain(Fat(g, d), files[k].chain) && Chain(Fat(g, d), dir) && Apart(files[k].chain, dir) && Apart(dir, files[k].chain)
    ensures forall b :: b in others ==> Chain(Fat(g, d), b) && Apart(b, files[k].chain) && Apart(files[k].chain, b) && Apart(b, dir)
    ensures forall a :: a in files && a != k ==>
              Chain(Fat(g, d), files[a].chain) && Apart(files[a].chain, files[k].chain) && Apart(files[k].chain, files[a].chain)
  {
    hide Formatted, Fat, Chain, Apart, Whole, Stored, Orderly, Untouched;
    var chains := AllChains(dir, files, others);
    if files[k].chain != [] {
      InAll(dir, files, others, k);
    }
    TwoChains(Fat(g, d), chains, files[k].chain, dir);
    TwoChains(Fat(g, d), chains, dir, files[k].chain);
    forall b | b in others
      ensures Chain(Fat(g, d), b) && Apart(b, files[k].chain) && Apart(files[k].chain, b) && Apart(b, dir)
    {
      TwoChains(Fat(g, d), chains, b, files[k].chain);
      TwoChains(Fat(g, d), chains, files[k].chain, b);
      TwoChains(Fat(g, d), chains, b, dir);
    }
    forall a | a in files && a != k
      ensures Chain(Fat(g, d), files[a].chain) && Apart(files[a].chain, files[k].chain) && Apart(files[k].chain, files[a].chain)
    {
      if files[a].chain != [] {
        InAll(dir, files, others, a);
      }
      if files[a].chain == [] && files[k].chain == [] {
        EmptyApart();
        EmptyChainIs(Fat(g, d));
      } else {
        TwoChains(Fat(g, d), chains, files[a].chain, files[k].chain);
        TwoChains(Fat(g, d), chains, files[k].chain, files[a].chain);
      }
    }
  }

  lemma EmptyApart()
    ensures Apart([], [])
  {
  }

  lemma EmptyChainIs(fat: seq<nat>)
    ensures Chain(fat, [])
  {
  }

  // ----- A file changes

  /** The chain of name k became f.chain; all else as before. */
  lemma ReplacedAll(dir: seq<nat>, files: map<seq<byte>, File>, others: map<seq<nat>, seq<byte>>, k: seq<byte>, f: File)
    requires k in files && Separate(dir, files, others) && (f.chain == [] ==> files[k].chain == [])
    ensures AllChains(dir, files[k := f], others) == Replaced(AllChains(dir, files, others), files[k].chain, f.chain)
            || (files[k].chain == [] && [] in AllChains(dir, files, others))
  {
    if f.chain == [] {
      SameFileChains(files, k, f);
    } else {
      forall c
        ensures c in FileChains(files[k := f]) <==> c == f.chain || (c in FileChains(files) && c != files[k].chain)
      {
        OneFileChain(dir, files, others, k, f, c);
      }
      hide FileChains;
    }
  }

  lemma SameFileChains(files: map<seq<byte>, File>, k: seq<byte>, f: File)
    requires k in files && f.chain == [] == files[k].chain
    ensures FileChains(files[k := f]) == FileChains(files)
  {
    var files' := files[k := f];
    assert forall a :: a in files && a != k ==> files'[a] == files[a];
  }

  lemma OneFileChain(dir: seq<nat>, files: map<seq<byte>, File>, others: map<seq<nat>, seq<byte>>, k: seq<byte>, f: File, c: seq<nat>)
    requires k in files && Separate(dir, files, others) && f.chain != []
    ensures c in FileChains(files[k := f]) <==> c == f.chain || (c in FileChains(files) && c != files[k].chain)
  {
    var files' := files[k := f];
    if c in FileChains(files) && c != files[k].chain {
      var a :| a in files && files[a].chain != [] && files[a].chain == c;
      assert a in files' && files'[a].chain == c;
    }
    if c == f.chain {
      assert k in files' && files'[k].chain == c;
    }
    if c in FileChains(files') && c != f.chain {
      var a :| a in files' && files'[a].chain != [] && files'[a].chain == c;
      assert a != k && files[a].chain == c;
    }
  }

  lemma GrowingKeeps(g: Geometry, d: Disk, d': Disk, ch: seq<nat>, now: seq<nat>, dir: seq<nat>, b: seq<nat>)
    requires Growing(g, d, d', ch, now, dir) && Chain(Fat(g, d), b) && Apart(b, ch) && Apart(ch, b) && Apart(b, dir)
    ensures Formatted(g, d') && OnVolume(g, b) && Kept(g, d, d', b) && Apart(now, b) && Apart(b, now)
  {
    hide Formatted, Fat, Chain, Whole, Kept;
    StaysApart(Fat(g, d), ch, now, b);
    assert Apart(b, ch + dir);
  }

  lemma GrowingListed(g: Geometry, d: Disk, d': Disk, ch: seq<nat>, now: seq<nat>, dir: seq<nat>, at: nat)
    requires Growing(g, d, d', ch, now, dir) && ListedIn(g, d, at, dir)
    ensures ListedIn(g, d', at, dir) && Apart(now, dir) && dir != [] && now != dir
  {
    assert dir[0] in dir;
  }

  lemma NotSame(a: seq<nat>, b: seq<nat>)
    requires Apart(a, b) && a != []
    ensures a != b
  {
    assert a[0] in a;
  }

  lemma OrderlyUpdated(w: seq<byte>, w': seq<byte>, j: int, keys: set<seq<byte>>)
    requires Orderly(w, keys) && Dir.OnlyEntry(w, w', j)
    ensures Orderly(w', keys)
  {
    hide Dir.OnlyEntry, Dir.Find, Dir.ZeroTail, Dir.Unique;
    Dir.UpdateUnique(w, w', j, false);
    Dir.UpdateLaw(w, w', j, seq(Dir.NAME, _ => 0), false);
    forall k | Canonical(k) && Dir.Find(w', k, false) >= 0
      ensures k in keys
    {
      Dir.UpdateLaw(w, w', j, k, false);
    }
  }

  /** Different names have different slots. */
  lemma OtherSlot(w: seq<byte>, a: seq<byte>, k: seq<byte>, f: File, h: File, x: bool, y: bool)
    requires |a| == Dir.NAME && |k| == Dir.NAME && a != k && SlotSays(w, a, f, x) && SlotSays(w, k, h, y)
    ensures Dir.Find(w, a, false) != Dir.Find(w, k, false)
  {
    hide Dir.Find, Dir.NameAt;
  }

  lemma StoredChain(g: Geometry, d: Disk, dir: seq<nat>, k: seq<byte>, item: Item, f: File)
    requires Stored(g, d, dir, k, item, f)
    ensures Formatted(g, d) && Chain(Fat(g, d), f.chain) && Apart(f.chain, dir) && |k| == Dir.NAME && Canonical(k) && OnVolume(g, dir) && dir != []
    ensures SlotSays(Whole(g, d, dir), k, f, item.Folder?) && Holds(g, d, f, item, dir[0])
  {
  }

  lemma WriteOther(g: Geometry, d: Disk, d': Disk, dir: seq<nat>, k: seq<byte>, item0: Item, f0: File, now: seq<nat>,
                   a: seq<byte>, item: Item, f: File)
    requires Stored(g, d, dir, k, item0, f0) && Stored(g, d, dir, a, item, f) && a != k && Formatted(g, d')
    requires Growing(g, d, d', f0.chain, now, dir) && Apart(f.chain, f0.chain) && Apart(f0.chain, f.chain)
    requires OnVolume(g, dir) && Dir.OnlyEntry(Whole(g, d, dir), Whole(g, d', dir), Dir.Find(Whole(g, d, dir), k, false))
    ensures Stored(g, d', dir, a, item, f) && (f.chain != [] ==> f.chain != now)
  {
    hide Formatted, Fat, Chain, Whole, Apart, Stored, Dir.OnlyEntry, Dir.Find, Growing, Kept, Holds, SlotSays;
    StoredChain(g, d, dir, k, item0, f0);
    StoredChain(g, d, dir, a, item, f);
    OtherSlot(Whole(g, d, dir), a, k, f, f0, item.Folder?, item0.Folder?);
    Dir.UpdateLaw(Whole(g, d, dir), Whole(g, d', dir), Dir.Find(Whole(g, d, dir), k, false), a, false);
    GrowingKeeps(g, d, d', f0.chain, now, dir, f.chain);
    StoredKept(g, d, d', dir, dir, a, item, f);
    if f.chain != [] {
      NotSame(f.chain, now);
    }
  }

  lemma UseKeepsLive(fat0: seq<nat>, fat: seq<nat>, ch: seq<nat>, now: seq<nat>, dir: seq<nat>, chains: set<seq<nat>>)
    requires KeepsLive(fat0, fat, ch, now, dir) && Live(fat0, chains) && dir in chains && ch != dir && (ch in chains || ch == [])
    ensures Live(fat, Replaced(chains, ch, now))
  {
    hide Live;
  }

  lemma WriteKeeps(g: Geometry, d: Disk, d': Disk, at: nat, dir: seq<nat>, items: map<seq<byte>, Item>, files: map<seq<byte>, File>,
                   others: map<seq<nat>, seq<byte>>, k: seq<byte>, item: Item, f: File)
    requires Inv(g, d, at, dir, items, files, others) && k in files && Stored(g, d', dir, k, item, f)
    requires Growing(g, d, d', files[k].chain, f.chain, dir) && (f.chain == [] ==> files[k].chain == [])
    requires Formatted(g, d) && Formatted(g, d') && KeepsLive(Fat(g, d), Fat(g, d'), files[k].chain, f.chain, dir)
    requires OnVolume(g, dir) && Dir.OnlyEntry(Whole(g, d, dir), Whole(g, d', dir), Dir.Find(Whole(g, d, dir), k, false))
    ensures Inv(g, d', at, dir, items[k := item], files[k := f], others)
  {
    hide Formatted, Fat, Chain, Whole, Apart, Stored, Orderly, Dir.OnlyEntry, Dir.Find, Live, Kept, ListedIn, Growing, KeepsLive, AllChains, Untouched, Separate;
    var files', items', c0, chains := files[k := f], items[k := item], files[k].chain, AllChains(dir, files, others);
    Parted(g, d, at, dir, items, files, others, k);
    StoredChain(g, d', dir, k, item, f);
    GrowingListed(g, d, d', c0, f.chain, dir, at);
    NoEmptyChain(Fat(g, d), chains);
    ReplacedAll(dir, files, others, k, f);
    DirInAll(dir, files, others);
    if c0 != [] {
      InAll(dir, files, others, k);
    }
    NotTheDirectory(dir, files, others, k);
    UseKeepsLive(Fat(g, d), Fat(g, d'), c0, f.chain, dir, chains);
    OrderlyUpdated(Whole(g, d, dir), Whole(g, d', dir), Dir.Find(Whole(g, d, dir), k, false), files.Keys);
    assert files'.Keys == files.Keys && items'.Keys == items.Keys;
    ListedFacts(g, d, at, dir);
    WriteKeepsFiles(g, d, d', at, dir, items, files, others, k, f);
    WriteKeepsOthers(g, d, d', at, dir, items, files, others, k, f);
    StoredApart(g, d', dir, k, item, f);
    SeparateStill(dir, files, others, k, f);
  }

  lemma StoredApart(g: Geometry, d: Disk, dir: seq<nat>, k: seq<byte>, item: Item, f: File)
    requires Stored(g, d, dir, k, item, f) && dir != []
    ensures f.chain != dir
  {
    assert dir[0] in dir;
  }

  lemma NotTheDirectory(dir: seq<nat>, files: map<seq<byte>, File>, others: map<seq<nat>, seq<byte>>, k: seq<byte>)
    requires Separate(dir, files, others) && k in files
    ensures files[k].chain != dir
  {
  }

  lemma SeparateStill(dir: seq<nat>, files: map<seq<byte>, File>, others: map<seq<nat>, seq<byte>>, k: seq<byte>, f: File)
    requires Separate(dir, files, others) && k in files && f.chain != dir && f.chain !in others
    requires forall a :: a in files && a != k && files[a].chain != [] ==> files[a].chain != f.chain
    ensures Separate(dir, files[k := f], others)
  {
  }

  lemma WriteKeepsFiles(g: Geometry, d: Disk, d': Disk, at: nat, dir: seq<nat>, items: map<seq<byte>, Item>, files: map<seq<byte>, File>,
                        others: map<seq<nat>, seq<byte>>, k: seq<byte>, f: File)
    requires Inv(g, d, at, dir, items, files, others) && k in files && Growing(g, d, d', files[k].chain, f.chain, dir)
    requires Formatted(g, d) && Formatted(g, d') && OnVolume(g, dir) && Dir.OnlyEntry(Whole(g, d, dir), Whole(g, d', dir), Dir.Find(Whole(g, d, dir), k, false))
    ensures forall a :: a in files && a != k ==>
              Stored(g, d', dir, a, items[a], files[a]) && (files[a].chain != [] ==> files[a].chain != f.chain)
  {
    hide Formatted, Fat, Chain, Whole, Apart, Stored, Orderly, Dir.OnlyEntry, Dir.Find, Live, Kept, ListedIn, Growing, AllChains, Untouched;
    Parted(g, d, at, dir, items, files, others, k);
    forall a | a in files && a != k
      ensures Stored(g, d', dir, a, items[a], files[a]) && (files[a].chain != [] ==> files[a].chain != f.chain)
    {
      WriteOther(g, d, d', dir, k, items[k], files[k], f.chain, a, items[a], files[a]);
    }
  }

  lemma WriteKeepsOthers(g: Geometry, d: Disk, d': Disk, at: nat, dir: seq<nat>, items: map<seq<byte>, Item>, files: map<seq<byte>, File>,
                         others: map<seq<nat>, seq<byte>>, k: seq<byte>, f: File)
    requires Inv(g, d, at, dir, items, files, others) && k in files && Growing(g, d, d', files[k].chain, f.chain, dir)
    requires Formatted(g, d) && Formatted(g, d') && OnVolume(g, dir)
    ensures Untouched(g, d', others) && f.chain !in others
  {
    hide Formatted, Fat, Chain, Whole, Apart, Stored, Orderly, Dir.Find, Live, Kept, ListedIn, Growing, AllChains;
    var c0, chains := files[k].chain, AllChains(dir, files, others);
    Parted(g, d, at, dir, items, files, others, k);
    NoEmptyChain(Fat(g, d), chains);
    forall b | b in others
      ensures OnVolume(g, b) && Whole(g, d', b) == others[b] && f.chain != b
    {
      GrowingKeeps(g, d, d', c0, f.chain, dir, b);
      KeptSame(g, d, d', b);
      OthersInAll(dir, files, others, b);
      NotSame(b, f.chain);
    }
  }

  lemma DirInAll(dir: seq<nat>, files: map<seq<byte>, File>, others: map<seq<nat>, seq<byte>>)
    ensures dir in AllChains(dir, files, others)
  {
  }

  lemma OthersInAll(dir: seq<nat>, files: map<seq<byte>, File>, others: map<seq<nat>, seq<byte>>, b: seq<nat>)
    requires b in others
    ensures b in AllChains(dir, files, others)
  {
  }

  lemma KeptSame(g: Geometry, d: Disk, d': Disk, b: seq<nat>)
    requires Formatted(g, d) && OnVolume(g, b) && Kept(g, d, d', b)
    ensures Formatted(g, d') && Chain(Fat(g, d'), b) && Whole(g, d', b) == Whole(g, d, b)
  {
  }

  // ----- A name is added

  /** The directory became dir'; chains it does not meet stay. */
  lemma AddOther(g: Geometry, d: Disk, d': Disk, dir: seq<nat>, dir': seq<nat>, k: seq<byte>, attr: byte, cluster: nat, size: nat,
                 a: seq<byte>, item: Item, f: File)
    requires Stored(g, d, dir, a, item, f) && Canonical(k) && (a != k || k[0] == Dir.DELETED) && Formatted(g, d') && OnVolume(g, dir') && dir' != [] && dir'[0] == dir[0]
    requires OthersKept(g, d, d', dir) && Apart(f.chain, dir') && Formatted(g, d)
    requires k[0] != 0 && attr != Dir.LFN && cluster < WORD && size < WORD && Dir.ZeroTail(Whole(g, d, dir))
    requires Dir.AddLaw(Whole(g, d, dir), Whole(g, d', dir'), k, attr, cluster, size, false)
    ensures Stored(g, d', dir', a, item, f)
  {
    hide Formatted, Fat, Chain, Whole, Stored, Dir.Find, Kept, Holds, SlotSays, Dir.SameEntry, Dir.ZeroTail, Dir.Unique, Dir.Matches;
    StoredChain(g, d, dir, a, item, f);
    CanonicalMatch(k, a, false);
    assert Dir.SameEntry(Whole(g, d, dir), Whole(g, d', dir'), a, false);
    assert f.chain != [] ==> Kept(g, d, d', f.chain);
    StoredKept(g, d, d', dir, dir', a, item, f);
  }

  lemma OrderlyAdded(w: seq<byte>, w': seq<byte>, k: seq<byte>, attr: byte, cluster: nat, size: nat, keys: set<seq<byte>>)
    requires Orderly(w, keys) && Canonical(k) && Dir.Find(w, k, false) == -1 && Dir.AddLaw(w, w', k, attr, cluster, size, false)
    requires k[0] != 0 && attr != Dir.LFN && cluster < WORD && size < WORD
    ensures Orderly(w', if k[0] == Dir.DELETED then keys else keys + {k})
  {
    hide Dir.Find, Dir.ZeroTail, Dir.Unique, Dir.Matches;
    forall a | Canonical(a) && Dir.Find(w', a, false) >= 0
      ensures a in keys || (a == k && k[0] != Dir.DELETED)
    {
      CanonicalMatch(k, a, false);
      if a != k || k[0] == Dir.DELETED {
        assert Dir.SameEntry(w, w', a, false);
      }
    }
  }

  /** The directory's chain may have got a cluster that was free. */
  ghost predicate DirGrew(g: Geometry, d: Disk, d': Disk, at: nat, dir: seq<nat>, dir': seq<nat>)
  {
    && ListedIn(g, d, at, dir) && ListedIn(g, d', at, dir') && OnVolume(g, dir) && OnVolume(g, dir')
    && OthersKept(g, d, d', dir) && Grew(Fat(g, d), dir, dir')
  }

  /** What an addition to the directory keeps: names and bystanders, their
      places and bytes. */
  lemma AddKeepsRest(g: Geometry, d: Disk, d': Disk, at: nat, dir: seq<nat>, dir': seq<nat>, items: map<seq<byte>, Item>,
                     files: map<seq<byte>, File>, others: map<seq<nat>, seq<byte>>, k: seq<byte>, attr: byte, cluster: nat, size: nat)
    requires Inv(g, d, at, dir, items, files, others) && DirGrew(g, d, d', at, dir, dir') && Canonical(k) && k !in files
    requires k[0] != 0 && attr != Dir.LFN && cluster < WORD && size < WORD
    requires Formatted(g, d) && Formatted(g, d') && OnVolume(g, dir) && OnVolume(g, dir')
    requires Dir.AddLaw(Whole(g, d, dir), Whole(g, d', dir'), k, attr, cluster, size, false)
    ensures forall a :: a in files ==> Stored(g, d', dir', a, items[a], files[a]) && files[a].chain != dir'
    ensures Orderly(Whole(g, d', dir'), if k[0] == Dir.DELETED then files.Keys else files.Keys + {k})
    ensures Untouched(g, d', others) && dir' !in others
  {
    hide Formatted, Fat, Chain, Whole, Apart, Stored, Orderly, Dir.Find, Live, Kept, OthersKept, Dir.AddLaw, AllChains;
    Absent(Whole(g, d, dir), k, files.Keys);
    OrderlyAdded(Whole(g, d, dir), Whole(g, d', dir'), k, attr, cluster, size, files.Keys);
    OrderlyTail(Whole(g, d, dir), files.Keys);
    NoEmptyChain(Fat(g, d), AllChains(dir, files, others));
    forall a | a in files
      ensures Stored(g, d', dir', a, items[a], files[a]) && files[a].chain != dir'
    {
      Parted(g, d, at, dir, items, files, others, a);
      StaysApart(Fat(g, d), dir, dir', files[a].chain);
      AddOther(g, d, d', dir, dir', k, attr, cluster, size, a, items[a], files[a]);
      NotSame(dir', files[a].chain);
    }
    forall b | b in others
      ensures OnVolume(g, b) && Whole(g, d', b) == others[b] && dir' != b
    {
      OthersInAll(dir, files, others, b);
      DirInAll(dir, files, others);
      TwoChains(Fat(g, d), AllChains(dir, files, others), b, dir);
      TwoChains(Fat(g, d), AllChains(dir, files, others), dir, b);
      KeptChain(g, d, d', dir, b);
      StaysApart(Fat(g, d), dir, dir', b);
      NotSame(dir', b);
    }
  }

  lemma Absent(w: seq<byte>, k: seq<byte>, keys: set<seq<byte>>)
    requires Orderly(w, keys) && Canonical(k) && k !in keys
    ensures Dir.Find(w, k, false) == -1
  {
  }

  lemma OrderlyTail(w: seq<byte>, keys: set<seq<byte>>)
    requires Orderly(w, keys)
    ensures Dir.ZeroTail(w) && Dir.Unique(w, false)
  {
  }

  /** A file without clusters is entered. */
  lemma NowEntered(g: Geometry, d: Disk, d': Disk, at: nat, dir: seq<nat>, dir': seq<nat>, items: map<seq<byte>, Item>,
                   files: map<seq<byte>, File>, others: map<seq<nat>, seq<byte>>, k: seq<byte>, attr: byte, c: nat)
    requires Inv(g, d, at, dir, items, files, others) && Canonical(k) && k !in files && k[0] != 0 && attr != Dir.LFN && c < WORD
    requires Formatted(g, d) && Formatted(g, d') && OnVolume(g, dir) && OnVolume(g, dir')
    requires Dir.AddLaw(Whole(g, d, dir), Whole(g, d', dir'), k, attr, c, 0, false)
    ensures k[0] != Dir.DELETED ==> Entered(g, d', dir', k, attr, c, 0)
  {
    hide Formatted, Whole, Stored, Orderly, Dir.Find, Live, AllChains, Separate, Untouched, ListedIn;
    if k[0] != Dir.DELETED {
      Absent(Whole(g, d, dir), k, files.Keys);
      OrderlyTail(Whole(g, d, dir), files.Keys);
    }
  }

  lemma CreateKeeps(g: Geometry, d: Disk, d': Disk, at: nat, dir: seq<nat>, dir': seq<nat>, items: map<seq<byte>, Item>,
                    files: map<seq<byte>, File>, others: map<seq<nat>, seq<byte>>, k: seq<byte>, attr: byte)
    requires Inv(g, d, at, dir, items, files, others) && DirGrew(g, d, d', at, dir, dir') && Canonical(k) && k !in files
    requires k[0] != 0 && attr != Dir.LFN && attr != DIRECTORY
    requires Formatted(g, d) && Formatted(g, d') && OnVolume(g, dir) && OnVolume(g, dir')
    requires Dir.AddLaw(Whole(g, d, dir), Whole(g, d', dir'), k, attr, 0, 0, false) && KeepsDirs(Fat(g, d), Fat(g, d'), dir, dir')
    ensures k[0] == Dir.DELETED ==> Inv(g, d', at, dir', items, files, others)
    ensures k[0] != Dir.DELETED ==> Inv(g, d', at, dir', items[k := Document([])], files[k := File(0, 0, [])], others)
  {
    hide Formatted, Fat, Chain, Whole, Apart, Stored, Orderly, Dir.Find, Live, Kept, OthersKept, Dir.AddLaw, AllChains, KeepsDirs;
    var f := File(0, 0, []);
    AddKeepsRest(g, d, d', at, dir, dir', items, files, others, k, attr, 0, 0);
    DirInAll(dir, files, others);
    UseKeepsDirs(Fat(g, d), Fat(g, d'), dir, dir', AllChains(dir, files, others));
    DirReplaced(dir, dir', files, others);
    NoEmptyChain(Fat(g, d), AllChains(dir, files, others));
    if k[0] != Dir.DELETED {
      Absent(Whole(g, d, dir), k, files.Keys);
      OrderlyTail(Whole(g, d, dir), files.Keys);
      NewEmpty(g, d, d', dir, dir', k, attr);
      EmptyAdded(dir', files, others, k);
      assert files[k := f].Keys == files.Keys + {k} && items[k := Document([])].Keys == items.Keys + {k};
      NoneEmpty(dir, files, others);
    }
  }

  lemma NoneEmpty(dir: seq<nat>, files: map<seq<byte>, File>, others: map<seq<nat>, seq<byte>>)
    requires [] !in AllChains(dir, files, others)
    ensures [] !in others && dir != []
  {
  }

  lemma UseKeepsDirs(fat0: seq<nat>, fat: seq<nat>, dir: seq<nat>, dir': seq<nat>, chains: set<seq<nat>>)
    requires KeepsDirs(fat0, fat, dir, dir') && Live(fat0, chains) && dir in chains
    ensures Live(fat, chains - {dir} + {dir'})
  {
    hide Live;
  }

  lemma DirReplaced(dir: seq<nat>, dir': seq<nat>, files: map<seq<byte>, File>, others: map<seq<nat>, seq<byte>>)
    requires Separate(dir, files, others)
    ensures AllChains(dir', files, others) == AllChains(dir, files, others) - {dir} + {dir'}
  {
  }

  lemma EmptyAdded(dir: seq<nat>, files: map<seq<byte>, File>, others: map<seq<nat>, seq<byte>>, k: seq<byte>)
    requires k !in files
    ensures AllChains(dir, files[k := File(0, 0, [])], others) == AllChains(dir, files, others)
  {
    var files' := files[k := File(0, 0, [])];
    forall c
      ensures c in FileChains(files') <==> c in FileChains(files)
    {
      if c in FileChains(files) {
        var a :| a in files && files[a].chain != [] && files[a].chain == c;
        assert a in files' && files'[a].chain == c;
      }
    }
  }

  lemma NewEmpty(g: Geometry, d: Disk, d': Disk, dir: seq<nat>, dir': seq<nat>, k: seq<byte>, attr: byte)
    requires Formatted(g, d) && Formatted(g, d') && OnVolume(g, dir) && OnVolume(g, dir') && dir' != [] && Canonical(k)
    requires Dir.ZeroTail(Whole(g, d, dir)) && Dir.Find(Whole(g, d, dir), k, false) == -1 && k[0] != 0 && k[0] != Dir.DELETED
    requires Dir.AddLaw(Whole(g, d, dir), Whole(g, d', dir'), k, attr, 0, 0, false) && attr != Dir.LFN && attr != DIRECTORY
    ensures Stored(g, d', dir', k, Document([]), File(0, 0, []))
  {
    hide Dir.Find, Dir.NameAt, Dir.Attr, Dir.ClusterAt, Dir.SizeAt, Dir.ZeroTail, Dir.Unique;
    var f := File(0, 0, []);
    StartNext(g, 0);
    assert FileOk(g, d', 0, 0, []);
    assert Text(g, d', f) == [] && ZeroSlack(g, d', f);
  }

  // ----- A folder is made

  /** A cluster that was free is on no chain. */
  lemma FreshChain(g: Geometry, d: Disk, at: nat, dir: seq<nat>, items: map<seq<byte>, Item>, files: map<seq<byte>, File>,
                   others: map<seq<nat>, seq<byte>>, c: nat)
    requires Inv(g, d, at, dir, items, files, others) && Formatted(g, d) && c < Clusters(g) && Fat(g, d)[c] == 0
    ensures [c] !in others && [c] != dir && forall a :: a in files ==> files[a].chain != [c]
  {
    hide Formatted, Fat, Whole, Stored, Orderly, Untouched, Chain, Apart;
    FreeAlone(Fat(g, d), AllChains(dir, files, others), c);
    DirInAll(dir, files, others);
    forall a | a in files
      ensures files[a].chain != [c]
    {
      if files[a].chain == [c] {
        InAll(dir, files, others, a);
      }
    }
    forall b | b in others
      ensures b != [c]
    {
      OthersInAll(dir, files, others, b);
    }
  }

  lemma FreeAlone(fat: seq<nat>, chains: set<seq<nat>>, c: nat)
    requires Live(fat, chains) && c < |fat| && fat[c] == 0
    ensures [c] !in chains
  {
    assert c in [c];
    forall ch | ch in chains
      ensures c !in ch
    {
      FreeIsNowhere(fat, ch, c);
    }
  }

  lemma FolderAdded(dir: seq<nat>, dir': seq<nat>, files: map<seq<byte>, File>, others: map<seq<nat>, seq<byte>>, k: seq<byte>, c: nat)
    requires Separate(dir, files, others) && k !in files && [c] != dir
    ensures AllChains(dir', files[k := File(c, 0, [c])], others) == AllChains(dir, files, others) + {[c]} - {dir} + {dir'}
  {
    var files' := files[k := File(c, 0, [c])];
    forall x
      ensures x in FileChains(files') <==> x == [c] || x in FileChains(files)
    {
      if x in FileChains(files) {
        var a :| a in files && files[a].chain != [] && files[a].chain == x;
        assert a in files' && files'[a].chain == x;
      }
      if x == [c] {
        assert k in files' && files'[k].chain == x;
      }
    }
  }

  lemma LostAdded(dir: seq<nat>, dir': seq<nat>, files: map<seq<byte>, File>, others: map<seq<nat>, seq<byte>>, c: nat, bytes: seq<byte>)
    requires Separate(dir, files, others) && [c] != dir
    ensures AllChains(dir', files, others[[c] := bytes]) == AllChains(dir, files, others) + {[c]} - {dir} + {dir'}
  {
  }

  lemma NewFolder(g: Geometry, d: Disk, d': Disk, dir: seq<nat>, dir': seq<nat>, k: seq<byte>, c: nat)
    requires Formatted(g, d) && Formatted(g, d') && OnVolume(g, dir) && OnVolume(g, dir') && dir' != [] && Canonical(k)
    requires Dir.ZeroTail(Whole(g, d, dir)) && Dir.Find(Whole(g, d, dir), k, false) == -1 && k[0] != 0 && k[0] != Dir.DELETED
    requires Dir.AddLaw(Whole(g, d, dir), Whole(g, d', dir'), k, DIRECTORY, c, 0, false) && c < WORD
    requires Chain(Fat(g, d'), [c]) && OnVolume(g, [c]) && Whole(g, d', [c]) == DotBytes(g, c, dir'[0]) && c !in dir'
    ensures Stored(g, d', dir', k, Folder, File(c, 0, [c]))
  {
    hide Dir.Find, Dir.NameAt, Dir.Attr, Dir.ClusterAt, Dir.SizeAt, Dir.ZeroTail, Dir.Unique, Whole, Fat, Formatted, DotBytes;
  }

  lemma MakeKeeps(g: Geometry, d: Disk, d': Disk, at: nat, dir: seq<nat>, dir': seq<nat>, items: map<seq<byte>, Item>,
                  files: map<seq<byte>, File>, others: map<seq<nat>, seq<byte>>, k: seq<byte>, c: nat)
    requires Inv(g, d, at, dir, items, files, others) && DirGrew(g, d, d', at, dir, dir') && Canonical(k) && k !in files && k[0] != 0
    requires Formatted(g, d) && Formatted(g, d') && OnVolume(g, dir) && OnVolume(g, dir') && dir' != []
    requires Dir.AddLaw(Whole(g, d, dir), Whole(g, d', dir'), k, DIRECTORY, c, 0, false) && KeepsTwo(Fat(g, d), Fat(g, d'), dir, dir', [c])
    requires c < Clusters(g) && Fat(g, d)[c] == 0 && Chain(Fat(g, d'), [c]) && OnVolume(g, [c]) && c !in dir'
    requires Whole(g, d', [c]) == DotBytes(g, c, dir'[0])
    ensures k[0] == Dir.DELETED ==> Inv(g, d', at, dir', items, files, others[[c] := DotBytes(g, c, dir'[0])])
    ensures k[0] != Dir.DELETED ==> Inv(g, d', at, dir', items[k := Folder], files[k := File(c, 0, [c])], others)
  {
    hide Formatted, Fat, Chain, Whole, Apart, Stored, Orderly, Dir.Find, Live, Kept, OthersKept, Dir.AddLaw, AllChains, KeepsTwo, DotBytes;
    ClustersBelow(g, d);
    AddKeepsRest(g, d, d', at, dir, dir', items, files, others, k, DIRECTORY, c, 0);
    FreshChain(g, d, at, dir, items, files, others, c);
    DirInAll(dir, files, others);
    UseKeepsTwo(Fat(g, d), Fat(g, d'), dir, dir', c, AllChains(dir, files, others));
    OneCluster(c, dir');
    if k[0] == Dir.DELETED {
      LostAdded(dir, dir', files, others, c, DotBytes(g, c, dir'[0]));
    } else {
      Absent(Whole(g, d, dir), k, files.Keys);
      OrderlyTail(Whole(g, d, dir), files.Keys);
      NewFolder(g, d, d', dir, dir', k, c);
      FolderAdded(dir, dir', files, others, k, c);
      assert files[k := File(c, 0, [c])].Keys == files.Keys + {k} && items[k := Folder].Keys == items.Keys + {k};
    }
  }

  lemma OneCluster(c: nat, dir: seq<nat>)
    requires c !in dir
    ensures [c] != dir
  {
    assert c in [c];
  }

  lemma UseKeepsTwo(fat0: seq<nat>, fat: seq<nat>, dir: seq<nat>, dir': seq<nat>, c: nat, chains: set<seq<nat>>)
    requires KeepsTwo(fat0, fat, dir, dir', [c]) && Live(fat0, chains) && dir in chains
    ensures Live(fat, chains + {[c]} - {dir} + {dir'})
  {
    hide Live;
  }

  /** The folder's cluster was made but could not be entered: it is lost. */
  lemma LostKeeps(g: Geometry, d: Disk, d': Disk, at: nat, dir: seq<nat>, items: map<seq<byte>, Item>,
                  files: map<seq<byte>, File>, others: map<seq<nat>, seq<byte>>, c: nat)
    requires Inv(g, d, at, dir, items, files, others) && ListedIn(g, d', at, dir) && OnVolume(g, dir) && OthersKept(g, d, d', dir)
    requires Formatted(g, d) && Formatted(g, d') && Whole(g, d', dir) == Whole(g, d, dir)
    requires c < Clusters(g) && Fat(g, d)[c] == 0 && OnVolume(g, [c]) && KeepsLive(Fat(g, d), Fat(g, d'), [], [c], dir)
    ensures Inv(g, d', at, dir, items, files, others[[c] := Whole(g, d', [c])])
  {
    hide Formatted, Fat, Chain, Whole, Apart, Stored, Orderly, Live, OthersKept, AllChains, KeepsLive, ListedIn;
    FreshChain(g, d, at, dir, items, files, others, c);
    DirInAll(dir, files, others);
    NoEmptyChain(Fat(g, d), AllChains(dir, files, others));
    NoneEmpty(dir, files, others);
    UseKeepsLive(Fat(g, d), Fat(g, d'), [], [c], dir, AllChains(dir, files, others));
    LostAdded(dir, dir, files, others, c, Whole(g, d', [c]));
    assert AllChains(dir, files, others) - {[]} + {[c]} == AllChains(dir, files, others) + {[c]} - {dir} + {dir};
    forall a | a in files
      ensures Stored(g, d', dir, a, items[a], files[a])
    {
      Parted(g, d, at, dir, items, files, others, a);
      SameOther(g, d, d', dir, a, items[a], files[a]);
    }
    forall b | b in others
      ensures OnVolume(g, b) && Whole(g, d', b) == others[b]
    {
      OthersInAll(dir, files, others, b);
      TwoChains(Fat(g, d), AllChains(dir, files, others), b, dir);
      KeptChain(g, d, d', dir, b);
    }
  }

  lemma SameOther(g: Geometry, d: Disk, d': Disk, dir: seq<nat>, a: seq<byte>, item: Item, f: File)
    requires Stored(g, d, dir, a, item, f) && Formatted(g, d') && OnVolume(g, dir) && OthersKept(g, d, d', dir) && Formatted(g, d)
    requires Whole(g, d', dir) == Whole(g, d, dir)
    ensures Stored(g, d', dir, a, item, f)
  {
    hide Formatted, Fat, Chain, Whole, Stored, Kept, Holds, SlotSays;
    StoredChain(g, d, dir, a, item, f);
    assert f.chain != [] ==> Kept(g, d, d', f.chain);
    StoredKept(g, d, d', dir, dir, a, item, f);
  }

  // ----- A name is removed

  lemma RemovedAll(dir: seq<nat>, files: map<seq<byte>, File>, others: map<seq<nat>, seq<byte>>, k: seq<byte>)
    requires k in files && Separate(dir, files, others) && [] !in AllChains(dir, files, others)
    ensures AllChains(dir, files - {k}, others) == AllChains(dir, files, others) - {files[k].chain}
  {
    var files', c0 := files - {k}, files[k].chain;
    forall c
      ensures c in FileChains(files') <==> c in FileChains(files) && c != c0
    {
      if c in FileChains(files) && c != c0 {
        var a :| a in files && files[a].chain != [] && files[a].chain == c;
        assert a in files' && files'[a].chain == c;
      }
    }
  }

  lemma OrderlyDeleted(w: seq<byte>, w': seq<byte>, k: seq<byte>, keys: set<seq<byte>>)
    requires Orderly(w, keys) && Canonical(k) && Dir.DeleteLaw(w, w', k, false)
    requires var j := Dir.Find(w, k, true); j >= 0 && Dir.NameAt(w, j) == k && Dir.Find(w, k, false) == j
    ensures Orderly(w', keys - {k})
  {
    var j := Dir.Find(w, k, true);
    assert forall i :: 0 <= i < Dir.Slots(w) && i != j ==> !Dir.Hit(w, k, false, i);
    hide Dir.Find, Dir.ZeroTail, Dir.Unique, Dir.Matches, Dir.Hit, Dir.NameAt;
    forall a | Canonical(a) && Dir.Find(w', a, false) >= 0
      ensures a in keys - {k}
    {
      CanonicalMatch(k, a, false);
      assert a != k ==> Dir.SameEntry(w, w', a, false);
    }
  }

  lemma RemoveOther(g: Geometry, d: Disk, d': Disk, dir: seq<nat>, k: seq<byte>, item0: Item, f0: File, a: seq<byte>, item: Item, f: File)
    requires Stored(g, d, dir, k, item0, f0) && Stored(g, d, dir, a, item, f) && a != k && Formatted(g, d') && Formatted(g, d) && OnVolume(g, dir)
    requires OthersKept(g, d, d', f0.chain + dir) && Apart(f.chain, f0.chain) && Dir.ZeroTail(Whole(g, d, dir))
    requires Dir.DeleteLaw(Whole(g, d, dir), Whole(g, d', dir), k, false)
    requires Dir.Find(Whole(g, d, dir), k, true) == Dir.Find(Whole(g, d, dir), k, false)
    ensures Stored(g, d', dir, a, item, f)
  {
    StoredChain(g, d, dir, k, item0, f0);
    StoredChain(g, d, dir, a, item, f);
    CanonicalMatch(k, a, false);
    hide Formatted, Fat, Chain, Whole, Stored, Dir.Find, Kept, Holds, Dir.SameEntry, Dir.ZeroTail, Dir.Unique, Dir.Matches, Dir.NameAt;
    assert Dir.SameEntry(Whole(g, d, dir), Whole(g, d', dir), a, false);
    assert Apart(f.chain, f0.chain + dir);
    assert f.chain != [] ==> Kept(g, d, d', f.chain);
    StoredKept(g, d, d', dir, dir, a, item, f);
  }

  lemma RemoveKeeps(g: Geometry, d: Disk, d': Disk, at: nat, dir: seq<nat>, items: map<seq<byte>, Item>,
                    files: map<seq<byte>, File>, others: map<seq<nat>, seq<byte>>, k: seq<byte>)
    requires Inv(g, d, at, dir, items, files, others) && k in files && ListedIn(g, d', at, dir) && OnVolume(g, dir)
    requires Formatted(g, d) && Formatted(g, d') && OthersKept(g, d, d', files[k].chain + dir) && DropsFile(Fat(g, d), Fat(g, d'), files[k].chain)
    requires |k| == Dir.NAME && Dir.DeleteLaw(Whole(g, d, dir), Whole(g, d', dir), k, false)
    requires Dir.Find(Whole(g, d, dir), k, true) == Dir.Find(Whole(g, d, dir), k, false)
    ensures Inv(g, d', at, dir, items - {k}, files - {k}, others)
  {
    hide Formatted, Fat, Chain, Whole, Apart, Stored, Orderly, Live, OthersKept, AllChains, ListedIn, Dir.Find, Dir.DeleteLaw, DropsFile, SlotSays, Dir.NameAt;
    var c0, files', items', chains := files[k].chain, files - {k}, items - {k}, AllChains(dir, files, others);
    StoredChain(g, d, dir, k, items[k], files[k]);
    SlotName(Whole(g, d, dir), k, files[k], items[k].Folder?);
    OrderlyTail(Whole(g, d, dir), files.Keys);
    OrderlyDeleted(Whole(g, d, dir), Whole(g, d', dir), k, files.Keys);
    Parted(g, d, at, dir, items, files, others, k);
    NoEmptyChain(Fat(g, d), chains);
    RemovedAll(dir, files, others, k);
    if c0 != [] {
      InAll(dir, files, others, k);
    }
    UseDrops(Fat(g, d), Fat(g, d'), c0, chains);
    assert files'.Keys == files.Keys - {k} && items'.Keys == items.Keys - {k};
    forall a | a in files'
      ensures Stored(g, d', dir, a, items'[a], files'[a])
    {
      RemoveOther(g, d, d', dir, k, items[k], files[k], a, items[a], files[a]);
    }
    forall b | b in others
      ensures OnVolume(g, b) && Whole(g, d', b) == others[b]
    {
      ApartBoth(b, c0, dir);
      KeptChain(g, d, d', c0 + dir, b);
    }
  }

  lemma SlotName(w: seq<byte>, k: seq<byte>, f: File, folder: bool)
    requires |k| == Dir.NAME && SlotSays(w, k, f, folder)
    ensures Dir.Find(w, k, false) >= 0 && Dir.NameAt(w, Dir.Find(w, k, false)) == k
  {
  }

  lemma ApartBoth(b: seq<nat>, x: seq<nat>, y: seq<nat>)
    requires Apart(b, x) && Apart(b, y)
    ensures Apart(b, x + y)
  {
  }

  lemma UseDrops(fat0: seq<nat>, fat: seq<nat>, file: seq<nat>, chains: set<seq<nat>>)
    requires DropsFile(fat0, fat, file) && Live(fat0, chains) && (file in chains || file == [])
    ensures Live(fat, chains - {file})
  {
    hide Live;
  }

  // ----- The operations, one after the other

  const ARCHIVE: byte := 0x20

  class Directory {
    const vol: Fat32
    const at: nat  // the directory's first cluster, 0 for the root
    ghost var chain: seq<nat>
    ghost var items: map<seq<byte>, Item>
    ghost var files: map<seq<byte>, File>
    ghost var others: map<seq<nat>, seq<byte>>

    ghost predicate Valid()
      reads this, vol
    {
      Inv(vol.g, vol.disk, at, chain, items, files, others)
    }

    /** An empty directory on a volume with any other chains. */
    constructor (vol0: Fat32, at0: nat, ghost chain0: seq<nat>, ghost others0: map<seq<nat>, seq<byte>>)
      requires ListedIn(vol0.g, vol0.disk, at0, chain0) && OnVolume(vol0.g, chain0) && AllZero(Whole(vol0.g, vol0.disk, chain0))
      requires vol0.Valid() && Live(vol0.Table(), {chain0} + others0.Keys) && chain0 !in others0 && Untouched(vol0.g, vol0.disk, others0)
      ensures vol == vol0 && at == at0 && Valid() && items == map[] && others == others0 && chain == chain0
    {
      vol, at, chain, items, files, others := vol0, at0, chain0, map[], map[], others0;
      new;
      EmptyDirectory(vol.g, vol.disk, at, chain, others);
    }

    /** A directory that has entries already. */
    constructor Existing(vol0: Fat32, at0: nat, ghost chain0: seq<nat>, ghost items0: map<seq<byte>, Item>, ghost files0: map<seq<byte>, File>,
                         ghost others0: map<seq<nat>, seq<byte>>)
      requires Inv(vol0.g, vol0.disk, at0, chain0, items0, files0, others0)
      ensures vol == vol0 && at == at0 && Valid() && items == items0 && files == files0 && others == others0 && chain == chain0
    {
      hide Inv;
      vol, at, chain, items, files, others := vol0, at0, chain0, items0, files0, others0;
    }

    lemma Sizes()
      requires Valid()
      ensures 0 < ClusterSize(vol.g)
    {
      InvFormatted(vol.g, vol.disk, at, chain, items, files, others);
      SizesOk(vol.g, vol.disk);
    }

    /** fat32_vfs_finddir. */
    method Lookup(name: seq<byte>) returns (found: bool, inode: nat, length: nat, folder: bool)
      requires Valid()
      ensures found <==> Canon83(name) in items
      ensures found ==> var k := Canon83(name);
                k in files && inode == files[k].inode && length == files[k].length && folder == items[k].Folder?
    {
      hide Formatted, Fat, Chain, Whole, Stored, Live, AllChains, Separate, Untouched, Canon83, Dir.Find, Start, Orderly;
      hide Dir.NameAt, Dir.Attr, Dir.ClusterAt, Dir.SizeAt;
      ghost var k := Canon83(name);
      CanonIsCanonical(name);
      ListedFacts(vol.g, vol.disk, at, chain);
      SizesOk(vol.g, vol.disk);
      LookupLaw(vol.g, vol.disk, at, chain, items, files, others, k);
      var target := Canonicalize(name);
      var c, s, i; ghost var q;
      found, c, s, i, q := vol.FindSlot(at, target, true, chain);
      inode, length, folder := 0, 0, false;
      if found {
        inode, length, folder := ReadSlot(c, s, i, q, Dir.Find(Whole(vol.g, vol.disk, chain), k, true));
      }
    }

    /** What one slot of the directory says. */
    method ReadSlot(c: nat, s: nat, i: nat, ghost q: nat, ghost j: nat) returns (inode: nat, length: nat, folder: bool)
      requires Formatted(vol.g, vol.disk) && OnVolume(vol.g, chain) && q < |chain| && c == chain[q] && s < vol.g.spc && i < 16
      requires Start(vol.g, q) + s * SECTOR + i * Dir.SLOT == Dir.SLOT * j
      ensures j < Dir.Slots(Whole(vol.g, vol.disk, chain))
      ensures var w := Whole(vol.g, vol.disk, chain); inode == Dir.ClusterAt(w, j) && length == Dir.SizeAt(w, j) && folder == (Dir.Attr(w, j) == DIRECTORY)
    {
      hide Formatted, Whole, Start, Lba, Get16, Get32, Dir.Attr, Dir.ClusterAt, Dir.SizeAt;
      ghost var w := Whole(vol.g, vol.disk, chain);
      ChainSector(vol.g, vol.disk, chain, q, s);
      var buf := vol.disk[Lba(vol.g, c) + s];
      SlotInSector(w, Start(vol.g, q) + s * SECTOR, buf, i, j);
      FieldsInSector(w, j, buf, i);
      inode := Get16(buf, i * 32 + 20) * 0x1_0000 + Get16(buf, i * 32 + 26);
      length := Get32(buf, i * 32 + 28);
      folder := buf[i * 32 + 11] == DIRECTORY;
    }

    /** fat32_vfs_create. */
    method CreateFile(name: seq<byte>) returns (r: Reply)
      requires Valid() && 0 !in name
      modifies this, vol
      ensures Valid() && items == Next(old(items), Create(name), r)
      ensures r == Served ==> Entered(vol.g, vol.disk, chain, Canon83(name), 0x20, 0, 0)
      ensures AnswersCreate(old(items), old(FreeIn(vol.Table0())), old(Packed(vol.g, vol.disk, chain)), Canon83(name), r, FreeIn(vol.Table0()))
    {
      hide Formatted, Fat, Chain, Whole, Stored, Live, AllChains, Separate, Untouched, Canon83, Dir.Find, Start, SlotSays, Orderly, DirRoom;
      hide Dir.AddLaw, OthersKept, Dir.NewSlot, Dir.FreeSlot, Dir.SetSlot, KeepsDirs, FreeIn;
      hide Inv, Canonical, ListedIn, Entered, Names83;
      ghost var k, d0, dir0 := Canon83(name), vol.disk, chain;
      CanonFirst(name);
      DirReady(vol.g, vol.disk, at, chain, items, files, others, name);
      var target := Canonicalize(name);
      var found, c, s, i; ghost var q;
      found, c, s, i, q := vol.FindSlot(at, target, false, chain);
      if found {
        return Taken;
      }
      var ok; ghost var dir, w0;
      ok, dir, w0 := vol.AddDirent(at, name, 0, 0, ARCHIVE, chain);
      if !ok {
        return NoRoom;
      }
      DirGrewIs(vol.g, d0, vol.disk, at, dir0, dir, w0, Fat(vol.g, d0));
      CreateKeeps(vol.g, d0, vol.disk, at, dir0, dir, items, files, others, k, ARCHIVE);
      NowEntered(vol.g, d0, vol.disk, at, dir0, dir, items, files, others, k, ARCHIVE, 0);
      chain := dir;
      if target[0] == Dir.DELETED {
        return Hidden;
      }
      items, files := items[k := Document([])], files[k := File(0, 0, [])];
      r := Served;
    }

    /** fat32_vfs_mkdir. */
    method CreateFolder(name: seq<byte>) returns (r: Reply)
      requires Valid() && 0 !in name
      modifies this, vol
      ensures Valid() && items == Next(old(items), MakeDir(name), r)
      ensures r == Served ==> Canon83(name) in files && Entered(vol.g, vol.disk, chain, Canon83(name), 0x10, files[Canon83(name)].inode, 0)
      ensures AnswersMakeDir(old(items), old(FreeIn(vol.Table0())), old(Packed(vol.g, vol.disk, chain)), Canon83(name), r, FreeIn(vol.Table0()))
    {
      hide Formatted, Fat, Chain, Whole, Stored, Live, AllChains, Separate, Untouched, Canon83, Dir.Find, Start, SlotSays, Orderly, DirRoom;
      hide Dir.AddLaw, OthersKept, Dir.NewSlot, Dir.FreeSlot, Dir.SetSlot, KeepsTwo, KeepsLive, DotBytes, FreeIn;
      hide Inv, Canonical, ListedIn, Entered, Names83;
      ghost var k, d0, dir0 := Canon83(name), vol.disk, chain;
      CanonFirst(name);
      DirReady(vol.g, vol.disk, at, chain, items, files, others, name);
      var target := Canonicalize(name);
      var made, c; ghost var dir, w0;
      made, c, dir, w0 := vol.MakeDirectory(at, name, chain);
      if made == Made.Exists {
        return Taken;
      }
      if made == Full {
        if c != 0 {
          ListedStill(vol.g, d0, vol.disk, at, chain);
          LostKeeps(vol.g, d0, vol.disk, at, chain, items, files, others, c);
          others := others[[c] := Whole(vol.g, vol.disk, [c])];
        }
        return NoRoom;
      }
      DirGrewIs(vol.g, d0, vol.disk, at, dir0, dir, w0, Fat(vol.g, d0)[c := LAST]);
      MakeKeeps(vol.g, d0, vol.disk, at, dir0, dir, items, files, others, k, c);
      NowEntered(vol.g, d0, vol.disk, at, dir0, dir, items, files, others, k, DIRECTORY, c);
      chain := dir;
      if target[0] == Dir.DELETED {
        others := others[[c] := DotBytes(vol.g, c, dir[0])];
        return Hidden;
      }
      items, files := items[k := Folder], files[k := File(c, 0, [c])];
      r := Served;
    }

    /** fat32_vfs_unlink. */
    method RemoveItem(name: seq<byte>) returns (r: Reply)
      requires Valid()
      modifies this, vol
      ensures Valid() && items == Next(old(items), Remove(name), r)
      ensures AnswersRemove(old(items), old(FreeIn(vol.Table0())), Canon83(name), r, FreeIn(vol.Table0()))
    {
      hide Formatted, Fat, Chain, Whole, Stored, Live, AllChains, Separate, Untouched, Canon83, Dir.Find, SlotSays, Orderly;
      hide Dir.DeleteLaw, OthersKept, DropsFile, Freed, StaysIn, Cleared, Dir.Deleted, Apart, FreeIn;
      ghost var k, d0 := Canon83(name), vol.disk;
      CanonIsCanonical(name);
      ListedFacts(vol.g, vol.disk, at, chain);
      LookupLaw(vol.g, vol.disk, at, chain, items, files, others, k);
      ghost var file := if k in files then files[k].chain else [];
      if k in files {
        Parted(vol.g, vol.disk, at, chain, items, files, others, k);
        FileStays(vol.g, vol.disk, chain, k, items[k], files[k]);
      }
      var ok := vol.Unlink(at, name, chain, file);
      if !ok {
        return Missing;
      }
      ListedStill(vol.g, d0, vol.disk, at, chain);
      RemoveKeeps(vol.g, d0, vol.disk, at, chain, items, files, others, k);
      items, files := items - {k}, files - {k};
      r := Served;
    }

    /** fat32_vfs_write through a node looked up for the occasion. */
    method WriteItem(name: seq<byte>, offset: nat, data: seq<byte>) returns (r: Reply)
      requires Valid()
      modifies this, vol
      ensures Valid() && items == Next(old(items), Write(name, offset, data), r)
      ensures 0 < ClusterSize(vol.g)
      ensures AnswersWrite(vol.g, old(items), old(FreeIn(vol.Table0())), Canon83(name), offset + |data|, r, FreeIn(vol.Table0()))
    {
      hide Inv, Canon83, Overwrite, FreeIn, Extra;
      assert vol.Valid() by { InvFormatted(vol.g, vol.disk, at, chain, items, files, others); }
      SizesOk(vol.g, vol.disk);
      var found, inode, length, folder := Lookup(name);
      if !found {
        return Missing;
      }
      if folder || offset + |data| + ClusterSize(vol.g) > WORD {
        return Skipped;
      }
      var ok := WriteFound(name, inode, length, offset, data);
      r := if ok then Served else NoRoom;
    }

    /** The write, once the name has been found. */
    method WriteFound(name: seq<byte>, inode: nat, length: nat, offset: nat, data: seq<byte>) returns (ok: bool)
      requires Valid() && offset + |data| + ClusterSize(vol.g) <= WORD
      requires var k := Canon83(name); k in items && items[k].Document? && k in files && inode == files[k].inode && length == files[k].length
      modifies this, vol
      ensures Valid()
      ensures var k := Canon83(name); items == if ok then old(items)[k := Document(Overwrite(old(items)[k].bytes, offset, data))] else old(items)
      ensures 0 < ClusterSize(vol.g)
      ensures var extra := Extra(vol.g, |old(items)[Canon83(name)].bytes|, offset + |data|);
              && (ok <==> old(FreeIn(vol.Table0())) >= extra)
              && FreeIn(vol.Table0()) == if ok then old(FreeIn(vol.Table0())) - extra else 0
    {
      hide Formatted, Fat, Chain, Whole, Stored, Live, AllChains, Separate, Untouched, Canon83, Dir.Find, SlotSays, Orderly, Apart, FileOk, Start;
      hide Growing, KeepsLive, Relists, ListsAs, Updated, Holds, ListedIn, Overwrite, FreeIn, Extra, Room, Inv, ClusterSize;
      ghost var k, d0, f0 := Canon83(name), vol.disk, files[Canon83(name)];
      WriteReady(vol.g, vol.disk, at, chain, items, files, others, name);
      Room32(vol.g, length, f0.chain, offset + |data|);
      var node := new Node(inode, length, at, name);
      var n, out; ghost var now;
      n, out, now := vol.WriteFile(node, offset, data, f0.chain, chain);
      ghost var f := File(node.inode, node.length, now);
      GrowingFacts(vol.g, d0, vol.disk, f0.chain, now, chain);
      RoomSays(vol.g, Fat(vol.g, d0), vol.Table0(), length, offset + |data|, f0.chain, now, out == NoSpace);
      WroteItem(vol.g, d0, vol.disk, at, chain, items, files, others, name, f, offset, data, out == Done);
      ok := out == Done;
      assert items[k := Document(items[k].bytes)] == items;
      items := if ok then items[k := Document(Overwrite(items[k].bytes, offset, data))] else items;
      files := files[k := f];
    }

    /** fat32_vfs_read through a node looked up for the occasion. */
    method ReadItem(name: seq<byte>, offset: nat, size: nat) returns (found: bool, buf: seq<byte>)
      requires Valid() && offset < WORD && size < WORD
      ensures found <==> Canon83(name) in items && items[Canon83(name)].Document?
      ensures found && offset + size < WORD ==> var b := items[Canon83(name)].bytes; buf == if offset < |b| then b[offset..offset + Min(size, |b| - offset)] else []
    {
      hide Formatted, Fat, Chain, Whole, Stored, Live, AllChains, Separate, Untouched, Canon83, Dir.Find, SlotSays, Orderly, FileOk, Start, Holds;
      ghost var k := Canon83(name);
      CanonIsCanonical(name);
      var inode, length, folder;
      found, inode, length, folder := Lookup(name);
      buf := [];
      if !found || folder {
        found := false;
        return;
      }
      ListedFacts(vol.g, vol.disk, at, chain);
      StoredFile(vol.g, vol.disk, chain, name, items[k], files[k]);
      FileFacts(vol.g, vol.disk, inode, length, files[k].chain);
      var node := new Node(inode, length, at, name);
      buf := vol.ReadFile(node, offset, size, files[k].chain);
      if offset + size < WORD {
        TextRead(vol.g, vol.disk, files[k], items[k].bytes, offset, size, buf);
      }
    }

    method ServeOne(q: Request) returns (r: Reply)
      requires Valid() && 0 !in q.name
      modifies this, vol
      ensures Valid() && items == Next(old(items), q, r)
      ensures Answers(vol.g, old(items), old(FreeIn(vol.Table0())), old(Packed(vol.g, vol.disk, chain)), q, r, FreeIn(vol.Table0()))
    {
      hide Valid, FreeIn, Packed, AnswersCreate, AnswersMakeDir, AnswersWrite, AnswersRemove, Canon83, ClusterSize;
      Sizes();
      match q
      case Create(name) => r := CreateFile(name);
      case MakeDir(name) => r := CreateFolder(name);
      case Write(name, offset, data) => r := WriteItem(name, offset, data);
      case Remove(name) => r := RemoveItem(name);
    }

    /** Any history of the four operations: the directory is the map of names
        that the served requests make, everything on the volume is on whole
        chains that share no cluster, and each reply is the one its request has
        coming: free[i] clusters are free before request i, and packed[i] is
        whether the directory has no unused slot then. */
    method Serve(requests: seq<Request>) returns (replies: seq<Reply>, ghost free: seq<nat>, ghost packed: seq<bool>)
      requires Valid() && forall i :: 0 <= i < |requests| ==> 0 !in requests[i].name
      modifies this, vol
      ensures Valid() && |replies| == |requests| && items == After(old(items), requests, replies)
      ensures LeadBack(vol.g, vol.disk, chain, items, files)
      ensures Told(vol.g, old(items), requests, replies, free, packed) && free[0] == old(FreeIn(vol.Table0())) && free[|requests|] == FreeIn(vol.Table0())
      ensures requests != [] ==> packed[0] == old(Packed(vol.g, vol.disk, chain))
    {
      hide Valid, Next, Told, FreeIn, Answers, After, Packed;
      replies, free, packed := [], [FreeIn(vol.Table0())], [];
      NothingTold(vol.g, items, requests, free, packed);
      while |replies| < |requests|
        invariant Valid() && |replies| <= |requests| && items == After(old(items), requests[..|replies|], replies)
        invariant |packed| == |replies| && (packed != [] ==> packed[0] == old(Packed(vol.g, vol.disk, chain))) && (packed == [] ==> unchanged(this) && unchanged(vol))
        invariant |free| == |replies| + 1 && free[0] == old(FreeIn(vol.Table0())) && free[|replies|] == FreeIn(vol.Table0())
        invariant Told(vol.g, old(items), requests[..|replies|], replies, free, packed)
      {
        ghost var full := Packed(vol.g, vol.disk, chain);
        var r := ServeOne(requests[|replies|]);
        AfterNext(old(items), requests, replies, r);
        ToldNext(vol.g, old(items), requests, replies, free, packed, full, r, FreeIn(vol.Table0()));
        free, packed := free + [FreeIn(vol.Table0())], packed + [full];
        replies := replies + [r];
      }
      assert requests[..|replies|] == requests;
      LeadsBack();
    }

    lemma LeadsBack()
      requires Valid()
      ensures LeadBack(vol.g, vol.disk, chain, items, files)
    {
      hide Inv, LeadBack;
      FoldersLeadBack(vol.g, vol.disk, at, chain, items, files, others);
    }
  }

  lemma NothingTold(g: Geometry, items: map<seq<byte>, Item>, requests: seq<Request>, free: seq<nat>, packed: seq<bool>)
    requires |free| == 1 && packed == []
    ensures Told(g, items, requests[..0], [], free, packed) && After(items, requests[..0], []) == items
  {
  }

  lemma ToldNext(g: Geometry, items: map<seq<byte>, Item>, requests: seq<Request>, replies: seq<Reply>, free: seq<nat>, packed: seq<bool>, full: bool, r: Reply, left: nat)
    requires |replies| < |requests| && Told(g, items, requests[..|replies|], replies, free, packed)
    requires Answers(g, After(items, requests[..|replies|], replies), free[|replies|], full, requests[|replies|], r, left)
    ensures Told(g, items, requests[..|replies| + 1], replies + [r], free + [left], packed + [full])
  {
    hide Answers, After;
    var n := |replies|;
    var qs, rs, fs, ps := requests[..n + 1], replies + [r], free + [left], packed + [full];
    forall i | 0 <= i < n + 1
      ensures Answers(g, After(items, qs[..i], rs[..i]), fs[i], ps[i], qs[i], rs[i], fs[i + 1])
    {
      assert qs[..i] == requests[..n][..i] && rs[..i] == replies[..i];
      assert requests[..n][..n] == requests[..n] && replies[..n] == replies;
    }
  }

  lemma AfterNext(items: map<seq<byte>, Item>, requests: seq<Request>, replies: seq<Reply>, r: Reply)
    requires |replies| < |requests|
    ensures var n := |replies|; After(items, requests[..n + 1], replies + [r]) == Next(After(items, requests[..n], replies), requests[n], r)
  {
    var n := |replies|;
    assert requests[..n + 1][..n] == requests[..n] && (replies + [r])[..n] == replies;
  }

  lemma EmptyDirectory(g: Geometry, d: Disk, at: nat, dir: seq<nat>, others: map<seq<nat>, seq<byte>>)
    requires ListedIn(g, d, at, dir) && OnVolume(g, dir) && AllZero(Whole(g, d, dir)) && Formatted(g, d)
    requires Live(Fat(g, d), {dir} + others.Keys) && dir !in others && Untouched(g, d, others)
    ensures Inv(g, d, at, dir, map[], map[], others)
  {
    hide Formatted, Fat, Whole, Live, Start, ListedIn, Untouched;
    var files: map<seq<byte>, File> := map[];
    assert AllChains(dir, files, others) == {dir} + others.Keys;
    assert |Whole(g, d, dir)| % Dir.SLOT == 0 by { WholeIsSlots(g, |dir|); }
    EmptyIsOrderly(Whole(g, d, dir));
  }

  lemma WholeIsSlots(g: Geometry, n: nat)
    ensures Start(g, n) % Dir.SLOT == 0
  {
    StartSectors(g, n);
  }

  lemma EmptyIsOrderly(w: seq<byte>)
    requires AllZero(w) && |w| % Dir.SLOT == 0
    ensures Orderly(w, {})
  {
    forall k | Canonical(k)
      ensures Dir.Find(w, k, false) == -1
    {
      Dir.SearchIsNone(w, k, false);
    }
  }

  lemma InvFormatted(g: Geometry, d: Disk, at: nat, dir: seq<nat>, items: map<seq<byte>, Item>, files: map<seq<byte>, File>,
                     others: map<seq<nat>, seq<byte>>)
    requires Inv(g, d, at, dir, items, files, others)
    ensures Formatted(g, d)
  {
  }

  /** What a search for a name says about the map. */
  /** What the driver's searches need to know of the directory. */
  lemma DirReady(g: Geometry, d: Disk, at: nat, dir: seq<nat>, items: map<seq<byte>, Item>, files: map<seq<byte>, File>,
                 others: map<seq<nat>, seq<byte>>, name: seq<byte>)
    requires Inv(g, d, at, dir, items, files, others)
    ensures var k := Canon83(name);
            && Formatted(g, d) && Chain(Fat(g, d), dir) && OnVolume(g, dir) && dir != [] && dir[0] == (if at == 0 then g.root else at)
            && Clusters(g) <= EOC && Canonical(k) && files.Keys == items.Keys && ListedIn(g, d, at, dir)
            && Dir.Find(Whole(g, d, dir), k, true) == Dir.Find(Whole(g, d, dir), k, false)
            && (Dir.Find(Whole(g, d, dir), k, false) >= 0 <==> k in items)
  {
    hide Formatted, Fat, Chain, Whole, Live, AllChains, Separate, Untouched, Dir.Find, Stored, Orderly, SlotSays, Canon83, ListedIn;
    CanonIsCanonical(name);
    ListedFacts(g, d, at, dir);
    SizesOk(g, d);
    LookupLaw(g, d, at, dir, items, files, others, Canon83(name));
  }

  lemma LookupLaw(g: Geometry, d: Disk, at: nat, dir: seq<nat>, items: map<seq<byte>, Item>, files: map<seq<byte>, File>,
                  others: map<seq<nat>, seq<byte>>, k: seq<byte>)
    requires Inv(g, d, at, dir, items, files, others) && Canonical(k) && Formatted(g, d) && OnVolume(g, dir)
    ensures Dir.Find(Whole(g, d, dir), k, true) == Dir.Find(Whole(g, d, dir), k, false)
    ensures Dir.Find(Whole(g, d, dir), k, false) >= 0 <==> k in items
    ensures k in files ==> SlotSays(Whole(g, d, dir), k, files[k], items[k].Folder?)
  {
    hide Formatted, Fat, Whole, Live, AllChains, Separate, Untouched, Dir.Find, Stored, Orderly, SlotSays, Dir.NameAt;
    OrderlyTail(Whole(g, d, dir), files.Keys);
    if k in files {
      StoredChain(g, d, dir, k, items[k], files[k]);
      SlotName(Whole(g, d, dir), k, files[k], items[k].Folder?);
    } else {
      Absent(Whole(g, d, dir), k, files.Keys);
    }
    ExactToo(Whole(g, d, dir), k);
  }

  lemma FieldsInSector(w: seq<byte>, j: nat, buf: seq<byte>, i: nat)
    requires j < Dir.Slots(w) && i < 16 && |buf| == SECTOR && Dir.SlotBytes(w, j) == buf[i * 32..i * 32 + 32]
    ensures Get16(buf, i * 32 + 20) * 0x1_0000 + Get16(buf, i * 32 + 26) == Dir.ClusterAt(w, j)
    ensures Get32(buf, i * 32 + 28) == Dir.SizeAt(w, j) && buf[i * 32 + 11] == Dir.Attr(w, j)
  {
    var t := buf[i * 32..i * 32 + 32];
    assert w[Dir.SLOT * j..Dir.SLOT * j + 32] == t;
    assert forall k :: 0 <= k < 32 ==> w[Dir.SLOT * j + k] == t[k] == buf[i * 32 + k];
  }

  lemma DirGrewIs(g: Geometry, d: Disk, d': Disk, at: nat, dir: seq<nat>, dir': seq<nat>, w0: seq<byte>, fat: seq<nat>)
    requires ListedIn(g, d, at, dir) && OnVolume(g, dir) && Formatted(g, d') && Chain(Fat(g, d'), dir') && OnVolume(g, dir')
    requires Formatted(g, d) && OthersKept(g, d, d', dir) && DirRoom(g, Whole(g, d, dir), fat, dir, dir', w0)
    requires |fat| == |Fat(g, d)| && forall x :: 0 <= x < |fat| && fat[x] == 0 ==> Fat(g, d)[x] == 0
    ensures DirGrew(g, d, d', at, dir, dir') && dir' != [] && dir'[0] == dir[0]
  {
    hide Formatted, Fat, Whole, OthersKept, Chain;
  }

  lemma FileStays(g: Geometry, d: Disk, dir: seq<nat>, k: seq<byte>, item: Item, f: File)
    requires Stored(g, d, dir, k, item, f) && Formatted(g, d)
    ensures StaysIn(Fat(g, d), f.inode) && Begins(f.chain, f.inode)
    ensures Dir.ClusterAt(Whole(g, d, dir), Dir.Find(Whole(g, d, dir), k, false)) == f.inode
  {
    if f.chain != [] {
      ChainOnVolume(g, d, f.chain);
      ChainStays(Fat(g, d), Fat(g, d), f.chain, 0);
    }
  }

  lemma StoredFile(g: Geometry, d: Disk, dir: seq<nat>, name: seq<byte>, item: Item, f: File)
    requires Stored(g, d, dir, Canon83(name), item, f)
    ensures FileOk(g, d, f.inode, f.length, f.chain) && Apart(f.chain, dir) && ListsSlot(g, d, dir, name, f)
    ensures item.Document? ==> ZeroSlack(g, d, f) && Text(g, d, f) == item.bytes
  {
  }

  ghost predicate ListsSlot(g: Geometry, d: Disk, dir: seq<nat>, name: seq<byte>, f: File)
  {
    Formatted(g, d) && OnVolume(g, dir) && var j := Dir.Find(Whole(g, d, dir), Canon83(name), false);
    j >= 0 && Dir.ClusterAt(Whole(g, d, dir), j) == f.inode && Dir.SizeAt(Whole(g, d, dir), j) == f.length
  }

  lemma ListsItem(g: Geometry, d: Disk, at: nat, dir: seq<nat>, items: map<seq<byte>, Item>, files: map<seq<byte>, File>,
                  others: map<seq<nat>, seq<byte>>, name: seq<byte>)
    requires Inv(g, d, at, dir, items, files, others) && Canon83(name) in files
    ensures ListsAs(g, d, dir, name, files[Canon83(name)].inode, files[Canon83(name)].length)
  {
    hide Formatted, Fat, Whole, Live, AllChains, Separate, Untouched, Dir.Find, Canon83, Dir.NameAt, Holds;
    var k := Canon83(name);
    assert Stored(g, d, dir, k, items[k], files[k]);
  }

  lemma OverwrittenOnce(s: seq<byte>, t: seq<byte>, p: nat, data: seq<byte>)
    requires Overwritten(s, t, p, data)
    ensures t == Overwrite(s, p, data)
  {
  }

  /** The slot of a name after an update of its cluster and size. */
  lemma SlotUpdated(w: seq<byte>, w': seq<byte>, name: seq<byte>, f0: File, f: File, folder: bool)
    requires SlotSays(w, Canon83(name), f0, folder) && Lists(w', name, f.inode, f.length)
    requires Dir.OnlyEntry(w, w', Dir.Find(w, Canon83(name), false))
    ensures SlotSays(w', Canon83(name), f, folder)
  {
    hide Canon83, Dir.OnlyEntry, Dir.Find, Dir.ClusterAt, Dir.SizeAt, Dir.ZeroTail;
    Dir.UpdateLaw(w, w', Dir.Find(w, Canon83(name), false), Canon83(name), false);
  }

  lemma WroteStored(g: Geometry, d: Disk, d': Disk, dir: seq<nat>, name: seq<byte>, bytes: seq<byte>, f0: File, f: File,
                    offset: nat, data: seq<byte>, done: bool)
    requires Stored(g, d, dir, Canon83(name), Document(bytes), f0) && Growing(g, d, d', f0.chain, f.chain, dir)
    requires Relists(g, d, d', dir, name) && ListsAs(g, d', dir, name, f.inode, f.length)
    requires Updated(g, d, f0, d', f, offset, data, done) && f.length == (if done then Max(f0.length, offset + |data|) else f0.length)
    requires offset + |data| + ClusterSize(g) <= WORD
    ensures Stored(g, d', dir, Canon83(name), Document(if done then Overwrite(bytes, offset, data) else bytes), f)
  {
    hide Formatted, Fat, Chain, Whole, Canon83, SlotSays, Growing, Dir.Find, Dir.OnlyEntry, FileOk, Start, Lists, Overwritten, Updated;
    UpdatedFacts(g, d, f0, d', f, offset, data, done);
    FileFacts(g, d', f.inode, f.length, f.chain);
    GrowingFacts(g, d, d', f0.chain, f.chain, dir);
    SlotUpdated(Whole(g, d, dir), Whole(g, d', dir), name, f0, f, false);
    if done {
      WriteLaw(g, d, f0, d', f, offset, data);
      OverwrittenOnce(bytes, Text(g, d', f), offset, data);
    } else {
      FailedWrite(g, d, f0, d', f, offset, data);
    }
  }

  lemma WroteItem(g: Geometry, d: Disk, d': Disk, at: nat, dir: seq<nat>, items: map<seq<byte>, Item>, files: map<seq<byte>, File>,
                  others: map<seq<nat>, seq<byte>>, name: seq<byte>, f: File, offset: nat, data: seq<byte>, done: bool)
    requires Inv(g, d, at, dir, items, files, others) && Canon83(name) in files && Canon83(name) in items && items[Canon83(name)].Document?
    requires var f0 := files[Canon83(name)];
             && Growing(g, d, d', f0.chain, f.chain, dir) && (f.chain == [] ==> f0.chain == [])
             && Formatted(g, d) && Formatted(g, d') && KeepsLive(Fat(g, d), Fat(g, d'), f0.chain, f.chain, dir)
             && Updated(g, d, f0, d', f, offset, data, done) && f.length == (if done then Max(f0.length, offset + |data|) else f0.length)
    requires Relists(g, d, d', dir, name) && ListsAs(g, d', dir, name, f.inode, f.length) && offset + |data| + ClusterSize(g) <= WORD
    ensures var k := Canon83(name);
            Inv(g, d', at, dir, items[k := Document(if done then Overwrite(items[k].bytes, offset, data) else items[k].bytes)], files[k := f], others)
  {
    hide Formatted, Fat, Chain, Whole, Canon83, Stored, Orderly, Live, AllChains, Separate, Untouched, Growing, KeepsLive, Updated, Dir.Find, Dir.OnlyEntry, ListsAs;
    var k := Canon83(name);
    WroteStored(g, d, d', dir, name, items[k].bytes, files[k], f, offset, data, done);
    WriteKeeps(g, d, d', at, dir, items, files, others, k, Document(if done then Overwrite(items[k].bytes, offset, data) else items[k].bytes), f);
  }

  /** What a write needs to know of a file that the directory holds. */
  lemma WriteReady(g: Geometry, d: Disk, at: nat, dir: seq<nat>, items: map<seq<byte>, Item>, files: map<seq<byte>, File>,
                   others: map<seq<nat>, seq<byte>>, name: seq<byte>)
    requires Inv(g, d, at, dir, items, files, others) && Canon83(name) in files && Canon83(name) in items && items[Canon83(name)].Document?
    ensures var f := files[Canon83(name)];
            && Formatted(g, d) && ListedIn(g, d, at, dir) && OnVolume(g, dir) && FileOk(g, d, f.inode, f.length, f.chain) && Apart(f.chain, dir)
            && ListsAs(g, d, dir, name, f.inode, f.length) && |items[Canon83(name)].bytes| == f.length && 2 <= ClusterSize(g) < WORD
  {
    hide Formatted, Fat, Chain, Whole, Stored, Live, AllChains, Separate, Untouched, Canon83, Dir.Find, SlotSays, Orderly, Apart, Start, ListsAs, Holds, ListedIn;
    var k := Canon83(name);
    ListedFacts(g, d, at, dir);
    SizesOk(g, d);
    Parted(g, d, at, dir, items, files, others, k);
    StoredFile(g, d, dir, name, items[k], files[k]);
    ListsItem(g, d, at, dir, items, files, others, name);
    TextLength(g, d, files[k]);
  }

  lemma TextLength(g: Geometry, d: Disk, f: File)
    requires FileOk(g, d, f.inode, f.length, f.chain)
    ensures |Text(g, d, f)| == f.length && 2 <= ClusterSize(g) < WORD
  {
    FileFacts(g, d, f.inode, f.length, f.chain);
  }

  lemma RoomSays(g: Geometry, fat0: seq<nat>, fat: seq<nat>, length: nat, end: nat, ch: seq<nat>, now: seq<nat>, failed: bool)
    requires Room(g, fat0, fat, length, end % WORD, ch, now, failed) && end < WORD
    ensures 0 < ClusterSize(g) && (failed <==> FreeIn(fat0) < Extra(g, length, end))
    ensures FreeIn(fat) == if failed then 0 else FreeIn(fat0) - Extra(g, length, end)
  {
    hide FreeIn, Extra, Behind, ClusterSize;
  }

  lemma Room32(g: Geometry, length: nat, ch: seq<nat>, end: nat)
    requires end + ClusterSize(g) <= WORD && 0 < ClusterSize(g)
    ensures Fits32(g, length, ch, end)
  {
  }

  lemma TextRead(g: Geometry, d: Disk, f: File, bytes: seq<byte>, offset: nat, size: nat, buf: seq<byte>)
    requires FileOk(g, d, f.inode, f.length, f.chain) && OnVolume(g, f.chain) && Text(g, d, f) == bytes && offset + size < WORD
    requires offset >= f.length ==> buf == []
    requires offset < f.length ==>
               var want := ReadSize(f.length, offset, size);
               && offset <= |Whole(g, d, f.chain)| && |buf| == Min(want, |Whole(g, d, f.chain)| - offset)
               && buf == Whole(g, d, f.chain)[offset..offset + |buf|]
    ensures buf == if offset < |bytes| then bytes[offset..offset + Min(size, |bytes| - offset)] else []
  {
    hide Formatted, Fat, Chain, Whole, Start;
    EndIs(offset + size);
    if offset < f.length {
      var n := Min(size, f.length - offset);
      assert |buf| == n;
      assert Whole(g, d, f.chain)[..f.length][offset..offset + n] == Whole(g, d, f.chain)[offset..offset + n];
    }
  }
}
