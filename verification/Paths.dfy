/** Path canonicalization, parent and base name of kernel/core/vfs_core.c. */
module Paths {

  const LIMIT: nat := 32      // components the driver keeps
  const BUFFER: nat := 511    // characters it looks at

  /** Index of the first slash from i on, or the length. */
  function SlashFrom(s: string, i: nat): (r: nat)
    requires i <= |s|
    ensures i <= r <= |s| && (r < |s| ==> s[r] == '/') && forall k :: i <= k < r ==> s[k] != '/'
    decreases |s| - i
  {
    if i == |s| || s[i] == '/' then i else SlashFrom(s, i + 1)
  }

  /** The parts between slashes from i on, empty ones included. */
  function Tokens(s: string, i: nat): (r: seq<string>)
    requires i <= |s|
    ensures r != []
    decreases |s| - i
  {
    var k := SlashFrom(s, i);
    if k == |s| then [s[i..k]] else [s[i..k]] + Tokens(s, k + 1)
  }

  /** One token on the stack of components: ".." pops, "." and "" do nothing. */
  function Push(stack: seq<string>, token: string, limit: nat): seq<string>
  {
    if token == ".." then (if stack == [] then [] else stack[..|stack| - 1])
    else if token == "." || token == "" || |stack| >= limit then stack
    else stack + [token]
  }

  function Fold(stack: seq<string>, tokens: seq<string>, limit: nat): seq<string>
    decreases |tokens|
  {
    if tokens == [] then stack else Fold(Push(stack, tokens[0], limit), tokens[1..], limit)
  }

  /** A slash before every component; a lone slash for none. */
  function Join(stack: seq<string>): string
  {
    if stack == [] then "/" else Slashed(stack)
  }

  function Slashed(stack: seq<string>): string
  {
    if stack == [] then "" else Slashed(stack[..|stack| - 1]) + "/" + stack[|stack| - 1]
  }

  /** What the buffer holds: the path, behind the working directory when it is
      relative, cut at the buffer's end. */
  function Buffered(cwd: string, src: string): string
    requires cwd != ""
  {
    var dir := if |cwd| > BUFFER then cwd[..BUFFER] else cwd;
    var prefix := if src != "" && src[0] == '/' then "" else if dir[|dir| - 1] == '/' then dir else dir + "/";
    if |prefix + src| > BUFFER && |prefix| <= BUFFER then (prefix + src)[..BUFFER] else if |prefix| > BUFFER then prefix else prefix + src
  }

  function SkipSlash(s: string): nat
  {
    if s != "" && s[0] == '/' then 1 else 0
  }

  /** The components a path stands for. */
  function Components(cwd: string, src: string, limit: nat): seq<string>
    requires cwd != ""
  {
    var b := Buffered(cwd, src);
    Fold([], Tokens(b, SkipSlash(b)), limit)
  }

  /** The components of the canonical path; an empty path stands for the root. */
  function Resolved(cwd: string, src: string): seq<string>
    requires cwd != ""
  {
    if src == "" then [] else Components(cwd, src, LIMIT)
  }

  /** Behind the first k components the buffer is full, or the path at its end. */
  ghost predicate CutAt(stack: seq<string>, k: nat)
  {
    k <= |stack| && |Slashed(stack[..k])| < BUFFER && (k < |stack| ==> |Slashed(stack[..k + 1])| >= BUFFER)
  }

  /** The first k components; a path that is cut ends in a slash. */
  function Cut(stack: seq<string>, k: nat): string
    requires k <= |stack|
  {
    if k == |stack| then Join(stack) else Slashed(stack[..k]) + "/"
  }

  /** How many components fit the buffer. */
  ghost function Fitting(stack: seq<string>, k: nat): (n: nat)
    requires k <= |stack| && |Slashed(stack[..k])| < BUFFER
    ensures k <= n <= |stack| && CutAt(stack, n)
    decreases |stack| - k
  {
    if k < |stack| && |Slashed(stack[..k + 1])| < BUFFER then Fitting(stack, k + 1) else k
  }

  ghost function Kept(stack: seq<string>): (n: nat)
    ensures n <= |stack| && CutAt(stack, n)
  {
    SlashedNext([], "");
    assert stack[..0] == [];
    Fitting(stack, 0)
  }

  /** The canonical path of some components: as many as fit. */
  ghost function Canonical(stack: seq<string>): string
  {
    Cut(stack, Kept(stack))
  }

  lemma {:induction false} FittingIs(stack: seq<string>, k: nat, n: nat)
    requires k <= n <= |stack| && CutAt(stack, n) && forall j :: k <= j <= n ==> |Slashed(stack[..j])| < BUFFER
    ensures Fitting(stack, k) == n
    decreases n - k
  {
    hide Slashed;
    if k < n {
      FittingIs(stack, k + 1, n);
    }
  }

  /** vfs_canonicalize_path: the components that fit the buffer. */
  method Canonicalize(cwd: string, src: string) returns (dest: string)
    requires cwd != ""
    ensures dest == Canonical(Resolved(cwd, src))
    ensures |Slashed(Resolved(cwd, src))| < 511 ==> dest == Join(Resolved(cwd, src))
  {
    hide Slashed, Tokens, Fold, Canonical, Buffered, SkipSlash;
    MaybeShort(Resolved(cwd, src));
    if src == "" {
      SlashedNext([], "");
      MaybeShort([]);
      return "/";
    }
    var buf := "";
    if src[0] != '/' {
      buf := if |cwd| > BUFFER then cwd[..BUFFER] else cwd;
      if buf[|buf| - 1] != '/' {
        buf := buf + "/";
      }
    }
    ghost var prefix := buf;
    var i := 0;
    while i < |src| && |buf| < BUFFER
      invariant 0 <= i <= |src| && buf == prefix + src[..i] && (i == 0 || |buf| <= BUFFER)
    {
      buf := buf + [src[i]];
      i := i + 1;
    }
    BufferedIs(cwd, src, prefix, buf, i);
    var stack := Split(buf);
    dest := Rebuild(stack);
  }

  lemma BufferedIs(cwd: string, src: string, prefix: string, buf: string, i: nat)
    requires cwd != "" && src != "" && i <= |src| && buf == prefix + src[..i] && (i == |src| || |buf| >= BUFFER) && (i == 0 || |buf| <= BUFFER)
    requires var dir := if |cwd| > BUFFER then cwd[..BUFFER] else cwd;
             prefix == if src[0] == '/' then "" else if dir[|dir| - 1] == '/' then dir else dir + "/"
    ensures buf == Buffered(cwd, src)
  {
    if |prefix + src| > BUFFER && |prefix| <= BUFFER {
      assert (prefix + src)[..BUFFER] == prefix + src[..BUFFER - |prefix|];
    } else if |prefix| > BUFFER {
      assert i == 0 && src[..i] == "";
    } else {
      assert i == |src| && src[..i] == src;
    }
  }

  /** What the scanning loop does at the end of a token. */
  method PushToken(stack: seq<string>, t: string) returns (r: seq<string>)
    ensures r == Push(stack, t, LIMIT)
    ensures t == ".." ==> r == if stack == [] then [] else stack[..|stack| - 1]
    ensures t == "." || t == "" ==> r == stack
    ensures t != ".." && t != "." && t != "" ==> r == if |stack| < 32 then stack + [t] else stack
  {
    r := stack;
    if t == ".." {
      if |stack| > 0 {
        r := stack[..|stack| - 1];
      }
    } else if t == "." || t == "" {
    } else if |stack| < LIMIT {
      r := stack + [t];
    }
  }

  lemma FoldHead(stack: seq<string>, s: string, i: nat, p: nat, limit: nat)
    requires i <= p <= |s| && (p == |s| || s[p] == '/') && forall k :: i <= k < p ==> s[k] != '/'
    ensures Fold(stack, Tokens(s, i), limit) ==
            if p == |s| then Push(stack, s[i..p], limit) else Fold(Push(stack, s[i..p], limit), Tokens(s, p + 1), limit)
  {
    TokensHead(s, i, p);
    hide Push, SlashFrom, Tokens;
    assert Tokens(s, i)[1..] == if p == |s| then [] else Tokens(s, p + 1);
  }

  /** The scanning loop: from slash to slash. */
  method Split(buf: string) returns (stack: seq<string>)
    ensures stack == Fold([], Tokens(buf, SkipSlash(buf)), LIMIT)
  {
    hide Fold, Tokens, Push;
    stack := [];
    var p := SkipSlash(buf);
    var token := p;
    ghost var all := Fold([], Tokens(buf, p), LIMIT);
    while true
      invariant 0 <= token <= p <= |buf| && (forall k :: token <= k < p ==> buf[k] != '/')
      invariant Fold(stack, Tokens(buf, token), LIMIT) == all
      decreases |buf| - p
    {
      if p == |buf| || buf[p] == '/' {
        FoldHead(stack, buf, token, p, LIMIT);
        stack := PushToken(stack, buf[token..p]);
        if p == |buf| {
          return;
        }
        token := p + 1;
        p := token;
      } else {
        p := p + 1;
      }
    }
  }

  lemma TokensHead(s: string, i: nat, p: nat)
    requires i <= p <= |s| && (p == |s| || s[p] == '/') && forall k :: i <= k < p ==> s[k] != '/'
    ensures SlashFrom(s, i) == p && Tokens(s, i)[0] == s[i..p]
    ensures Tokens(s, i) == if p == |s| then [s[i..p]] else [s[i..p]] + Tokens(s, p + 1)
  {
    SlashIs(s, i, p);
  }

  lemma {:induction false} SlashIs(s: string, i: nat, p: nat)
    requires i <= p <= |s| && (p == |s| || s[p] == '/') && forall k :: i <= k < p ==> s[k] != '/'
    ensures SlashFrom(s, i) == p
    decreases p - i
  {
    if i < p {
      SlashIs(s, i + 1, p);
    }
  }

  /** The loop that writes the components out; it stops before overflowing. */
  method Rebuild(stack: seq<string>) returns (dest: string)
    ensures dest == Canonical(stack)
  {
    hide Slashed;
    dest := "/";
    var i := 0;
    SlashedNext([], "");
    assert stack[..0] == [];
    while i < |stack|
      invariant 0 <= i <= |stack| && dest == Cut(stack, i) && forall j :: 0 <= j <= i ==> |Slashed(stack[..j])| < BUFFER
    {
      SlashedNext(stack[..i], stack[i]);
      assert stack[..i] + [stack[i]] == stack[..i + 1];
      if |dest| + |stack[i]| + 1 >= 512 {
        FittingIs(stack, 0, i);
        return;
      }
      dest := dest + stack[i];
      if i < |stack| - 1 {
        dest := dest + "/";
      } else {
        assert stack[..i + 1] == stack;
      }
      i := i + 1;
    }
    FittingIs(stack, 0, i);
  }

  lemma SlashedNext(stack: seq<string>, c: string)
    ensures Slashed([]) == "" && Slashed(stack + [c]) == Slashed(stack) + "/" + c
  {
    assert (stack + [c])[..|stack|] == stack;
  }

  // ----- What a canonical path looks like

  ghost predicate Name(c: string)
  {
    c != "" && c != "." && c != ".." && '/' !in c
  }

  /** Real names only: no empty one, no ".", no "..", no slash within. */
  ghost predicate Clean(stack: seq<string>)
  {
    forall i :: 0 <= i < |stack| ==> Name(stack[i])
  }

  lemma {:induction false} TokensHaveNoSlash(s: string, i: nat)
    requires i <= |s|
    ensures forall j :: 0 <= j < |Tokens(s, i)| ==> '/' !in Tokens(s, i)[j]
    decreases |s| - i
  {
    var k := SlashFrom(s, i);
    assert forall x :: 0 <= x < k - i ==> s[i..k][x] == s[i + x] != '/';
    if k < |s| {
      TokensHaveNoSlash(s, k + 1);
    }
  }

  lemma {:induction false} FoldIsClean(stack: seq<string>, tokens: seq<string>, limit: nat)
    requires Clean(stack) && |stack| <= limit && forall j :: 0 <= j < |tokens| ==> '/' !in tokens[j]
    ensures Clean(Fold(stack, tokens, limit)) && |Fold(stack, tokens, limit)| <= limit
    decreases |tokens|
  {
    if tokens != [] {
      FoldIsClean(Push(stack, tokens[0], limit), tokens[1..], limit);
    }
  }

  /** Every result is canonical. */
  lemma ResultIsClean(cwd: string, src: string)
    requires cwd != ""
    ensures Clean(Resolved(cwd, src)) && |Resolved(cwd, src)| <= LIMIT
  {
    hide Tokens, Fold;
    var b := Buffered(cwd, src);
    TokensHaveNoSlash(b, SkipSlash(b));
    FoldIsClean([], Tokens(b, SkipSlash(b)), LIMIT);
  }

  /** The limit does not show as long as the path has no more names than it. */
  function Names(tokens: seq<string>): nat
  {
    if tokens == [] then 0 else (if tokens[0] in {"", ".", ".."} then 0 else 1) + Names(tokens[1..])
  }

  lemma {:induction false} LimitDoesNotShow(stack: seq<string>, tokens: seq<string>, limit: nat)
    requires |stack| + Names(tokens) <= LIMIT <= limit
    ensures Fold(stack, tokens, LIMIT) == Fold(stack, tokens, limit)
    decreases |tokens|
  {
    if tokens != [] {
      LimitDoesNotShow(Push(stack, tokens[0], LIMIT), tokens[1..], limit);
    }
  }

  // ----- Canonicalizing twice

  lemma AppendParts(s: string, c: string, i: nat, k: nat)
    requires i <= k <= |s| && '/' !in c
    ensures var t := s + "/" + c;
            && t[i..k] == s[i..k] && t[|s|] == '/' && t[|s| + 1..|t|] == c
            && (forall x :: 0 <= x < |s| ==> t[x] == s[x]) && (forall x :: |s| < x < |t| ==> t[x] != '/')
  {
    var t := s + "/" + c;
    assert forall x :: |s| < x < |t| ==> t[x] == c[x - |s| - 1];
  }

  lemma AppendHead(s: string, c: string, i: nat, k: nat)
    requires i <= k <= |s| && '/' !in c && (k == |s| || s[k] == '/') && forall x :: i <= x < k ==> s[x] != '/'
    ensures Tokens(s + "/" + c, i) == [s[i..k]] + if k < |s| then Tokens(s + "/" + c, k + 1) else [c]
  {
    hide Tokens, SlashFrom;
    var t := s + "/" + c;
    AppendParts(s, c, i, k);
    TokensHead(t, i, k);
    if k == |s| {
      TokensHead(t, |s| + 1, |t|);
    }
  }

  lemma {:induction false} TokensAppend(s: string, c: string, i: nat)
    requires i <= |s| && '/' !in c
    ensures Tokens(s + "/" + c, i) == Tokens(s, i) + [c]
    decreases |s| - i
  {
    hide Tokens, SlashFrom;
    var k := SlashFrom(s, i);
    TokensHead(s, i, k);
    AppendHead(s, c, i, k);
    if k < |s| {
      TokensAppend(s, c, k + 1);
      assert [s[i..k]] + (Tokens(s, k + 1) + [c]) == [s[i..k]] + Tokens(s, k + 1) + [c];
    }
  }

  /** Splitting a joined path gives its components back. */
  lemma {:induction false} SplitJoined(stack: seq<string>)
    requires Clean(stack) && stack != []
    ensures |Slashed(stack)| >= 1 && Slashed(stack)[0] == '/' && Tokens(Slashed(stack), 1) == stack
    decreases |stack|
  {
    var n := |stack| - 1;
    if n == 0 {
      var s := Slashed(stack);
      assert stack[..0] == [] && s == "/" + stack[0];
      assert forall x :: 1 <= x < |s| ==> s[x] == stack[0][x - 1] != '/';
      TokensHead(s, 1, |s|);
      assert s[1..|s|] == stack[0] && stack == [stack[0]];
    } else {
      SplitJoined(stack[..n]);
      TokensAppend(Slashed(stack[..n]), stack[n], 1);
      assert stack == stack[..n] + [stack[n]];
    }
  }

  lemma {:induction false} FoldNames(done: seq<string>, stack: seq<string>, limit: nat)
    requires Clean(stack) && |done| + |stack| <= limit
    ensures Fold(done, stack, limit) == done + stack
    decreases |stack|
  {
    if stack != [] {
      FoldNames(done + [stack[0]], stack[1..], limit);
      assert done + [stack[0]] + stack[1..] == done + stack;
    }
  }

  /** A canonical path canonicalizes to itself, whatever the directory. */
  lemma Idempotent(cwd: string, stack: seq<string>)
    requires cwd != "" && Clean(stack) && |stack| <= LIMIT && |Join(stack)| <= BUFFER
    ensures Components(cwd, Join(stack), LIMIT) == stack
  {
    var s := Join(stack);
    if stack == [] {
      TokensHead("/", 1, 1);
      assert Buffered(cwd, s) == "/";
      assert Tokens("/", 1) == [""] && [""][1..] == [];
    } else {
      SplitJoined(stack);
      assert Buffered(cwd, s) == s;
      FoldNames([], stack, LIMIT);
      assert [] + stack == stack;
    }
  }

  lemma {:induction false} FoldEmpty(done: seq<string>, stack: seq<string>, limit: nat)
    requires Clean(stack) && |done| + |stack| <= limit
    ensures Fold(done, stack + [""], limit) == done + stack
    decreases |stack|
  {
    var tokens := stack + [""];
    if stack == [] {
      assert tokens[1..] == [] && done + stack == done;
    } else {
      assert tokens[0] == stack[0] && tokens[1..] == stack[1..] + [""];
      FoldEmpty(done + [stack[0]], stack[1..], limit);
      assert done + [stack[0]] + stack[1..] == done + stack;
    }
  }

  /** So does one that was cut, but for its last slash. */
  lemma CutResolves(other: string, stack: seq<string>, k: nat)
    requires other != "" && Clean(stack) && |stack| <= LIMIT && CutAt(stack, k) && k < |stack|
    ensures Resolved(other, Cut(stack, k)) == stack[..k]
  {
    var b, u := Cut(stack, k), stack[..k];
    if k == 0 {
      Idempotent(other, []);
      assert b == "/" == Join([]);
    } else {
      SplitJoined(u);
      TokensAppend(Slashed(u), "", 1);
      assert b == Slashed(u) + "/" + "" && b[0] == '/';
      hide Slashed, Tokens, Fold;
      assert Buffered(other, b) == b;
      FoldEmpty([], u, LIMIT);
      assert [] + u == u;
    }
  }

  lemma {:induction false} PrefixFits(stack: seq<string>, j: nat, k: nat)
    requires j <= k <= |stack|
    ensures |Slashed(stack[..j])| <= |Slashed(stack[..k])|
    decreases k
  {
    hide Slashed;
    if j < k {
      PrefixFits(stack, j, k - 1);
      SlashedNext(stack[..k - 1], stack[k - 1]);
      assert stack[..k - 1] + [stack[k - 1]] == stack[..k];
    }
  }

  lemma ShortIsJoined(stack: seq<string>)
    requires |Slashed(stack)| < 511
    ensures Canonical(stack) == Join(stack)
  {
    hide Slashed;
    assert stack[..|stack|] == stack;
    forall j | 0 <= j <= |stack|
      ensures |Slashed(stack[..j])| < BUFFER
    {
      PrefixFits(stack, j, |stack|);
    }
    FittingIs(stack, 0, |stack|);
  }

  lemma MaybeShort(stack: seq<string>)
    ensures |Slashed(stack)| < 511 ==> Canonical(stack) == Join(stack)
  {
    hide Slashed, Canonical;
    if |Slashed(stack)| < 511 {
      ShortIsJoined(stack);
    }
  }

  /** Canonicalizing a result again, in any directory, gives the components that
      were kept; it gives the same string exactly when none was cut off, or all
      were. */
  lemma CanonicalTwice(cwd: string, other: string, src: string)
    requires cwd != "" && other != ""
    ensures var st := Resolved(cwd, src); var k := Kept(st); var once := Canonical(st);
            && Resolved(other, once) == st[..k]
            && (Canonical(Resolved(other, once)) == once <==> k == |st| || k == 0)
  {
    hide Components, Slashed, Tokens, Fold, Fitting;
    var st := Resolved(cwd, src);
    var k := Kept(st);
    ResultIsClean(cwd, src);
    assert st[..|st|] == st && st[..0] == [];
    SlashedNext([], "");
    JoinedEnds(st);
    if k == |st| {
      Idempotent(other, st);
    } else {
      CutResolves(other, st, k);
    }
    ShortIsJoined(st[..k]);
  }

  /** Such a path: a directory "a" and a name of 508 letters in it. */
  lemma LongNameIsCut(cwd: string, other: string, name: string)
    requires cwd != "" && other != "" && |name| == 508 && Name(name)
    ensures var st := Resolved(cwd, "/a/" + name); var once := Canonical(st);
            st == ["a", name] && once == "/a/" && Canonical(Resolved(other, once)) != once
  {
    var st := ["a", name];
    assert Name("a");
    SlashedNext([], "a");
    SlashedNext(["a"], name);
    assert [] + ["a"] == ["a"] && ["a"] + [name] == st;
    hide Slashed, Tokens, Fold, Fitting;
    assert Slashed(st) == "/a/" + name;
    Idempotent(cwd, st);
    assert st[..0] == [] && st[..1] == ["a"] && st[..2] == st;
    FittingIs(st, 0, 1);
    CanonicalTwice(cwd, other, "/a/" + name);
  }

  // ----- What one more component does

  lemma {:induction false} FoldAppend(stack: seq<string>, tokens: seq<string>, t: string, limit: nat)
    ensures Fold(stack, tokens + [t], limit) == Push(Fold(stack, tokens, limit), t, limit)
    decreases |tokens|
  {
    hide Push;
    if tokens == [] {
      assert tokens + [t] == [t] && [t][1..] == [];
    } else {
      assert (tokens + [t])[0] == tokens[0] && (tokens + [t])[1..] == tokens[1..] + [t];
      FoldAppend(Push(stack, tokens[0], limit), tokens[1..], t, limit);
    }
  }

  /** How much of the buffer a path takes. */
  function Taken(cwd: string, src: string): nat
    requires cwd != ""
  {
    |src| + if src != "" && src[0] == '/' then 0 else if cwd[|cwd| - 1] == '/' then |cwd| else |cwd| + 1
  }

  lemma BufferedAppend(cwd: string, p: string, t: string)
    requires cwd != "" && p != "" && Taken(cwd, p + "/" + t) <= 511
    ensures Buffered(cwd, p + "/" + t) == Buffered(cwd, p) + "/" + t
    ensures Buffered(cwd, p) != "" && SkipSlash(Buffered(cwd, p + "/" + t)) == SkipSlash(Buffered(cwd, p))
  {
    var q := p + "/" + t;
    assert q[0] == p[0];
    var prefix := if p[0] == '/' then "" else if cwd[|cwd| - 1] == '/' then cwd else cwd + "/";
    assert Buffered(cwd, q) == prefix + q && Buffered(cwd, p) == prefix + p;
    assert prefix + (p + "/" + t) == prefix + p + "/" + t;
  }

  /** Main law: one component more, on any path that fits the buffer. ".." takes
      the last component away, "." and nothing leave the path alone, a name goes
      to the end of up to 31 others. */
  lemma OneMore(cwd: string, p: string, t: string)
    requires cwd != "" && p != "" && '/' !in t && Taken(cwd, p + "/" + t) <= 511
    ensures var st := Resolved(cwd, p);
            Resolved(cwd, p + "/" + t) ==
              if t == ".." then (if st == [] then [] else st[..|st| - 1])
              else if t == "." || t == "" || |st| >= 32 then st
              else st + [t]
  {
    hide Tokens, Fold, Buffered;
    var b := Buffered(cwd, p);
    BufferedAppend(cwd, p, t);
    TokensAppend(b, t, SkipSlash(b));
    FoldAppend([], Tokens(b, SkipSlash(b)), t, LIMIT);
  }

  /** Into a directory and out again. */
  lemma InAndOut(cwd: string, p: string, c: string)
    requires cwd != "" && p != "" && Name(c) && Taken(cwd, p + "/" + c + "/..") <= 511 && |Resolved(cwd, p)| < 32
    ensures Resolved(cwd, p + "/" + c + "/..") == Resolved(cwd, p)
  {
    hide Resolved;
    OneMore(cwd, p, c);
    assert p + "/" + c + "/.." == p + "/" + c + "/" + "..";
    OneMore(cwd, p + "/" + c, "..");
  }

  /** A relative path stands for the absolute one behind the working directory. */
  lemma Relative(cwd: string, any: string, src: string)
    requires cwd != "" && any != "" && src != "" && src[0] != '/' && cwd[0] == '/' && cwd[|cwd| - 1] != '/' && |cwd| + 1 + |src| <= 511
    ensures Resolved(cwd, src) == Resolved(any, cwd + "/" + src)
  {
    hide Tokens, Fold;
    var q := cwd + "/" + src;
    assert q[0] == cwd[0];
    assert Buffered(cwd, src) == q == Buffered(any, q);
  }

  /** The parent of a directory, from above and from within. */
  lemma ParentOf(any: string, st: seq<string>, c: string)
    requires any != "" && Clean(st) && Name(c) && |st| < 32 && |Join(st + [c])| + 3 <= 511
    ensures Resolved(any, Join(st + [c]) + "/..") == st && Join(st + [c]) != "" && Resolved(Join(st + [c]), "..") == st
  {
    hide Slashed, Tokens, Fold, Components, Buffered, Join;
    var full := st + [c];
    JoinedEnds(full);
    var j := Join(full);
    Idempotent(any, full);
    assert j + "/.." == j + "/" + "..";
    OneMore(any, j, "..");
    assert full[..|full| - 1] == st;
    Relative(j, any, "..");
  }

  /** One component from the root, which has no parent but itself. */
  lemma FirstOne(any: string, t: string)
    requires any != "" && '/' !in t && |t| < 511
    ensures Resolved(any, "/" + t) == (if t == ".." || t == "." || t == "" then [] else [t]) && Resolved(any, "") == []
  {
    var s := "/" + t;
    assert s[0] == '/' && s[1..|s|] == t && forall k :: 1 <= k < |s| ==> s[k] == t[k - 1];
    assert Buffered(any, s) == s;
    TokensHead(s, 1, |s|);
    var none: seq<string> := [];
    assert Tokens(s, 1) == [t] == none + [t];
    FoldAppend(none, none, t, LIMIT);
  }

  // ----- Parent and base name

  method LastSlash(s: string) returns (k: int)
    ensures -1 <= k < |s| && (k >= 0 ==> s[k] == '/') && forall i :: k < i < |s| ==> s[i] != '/'
  {
    k := -1;
    var i := 0;
    while i < |s|
      invariant 0 <= i <= |s| && -1 <= k < i && (k >= 0 ==> s[k] == '/') && forall j :: k < j < i ==> s[j] != '/'
    {
      if s[i] == '/' {
        k := i;
      }
      i := i + 1;
    }
  }

  /** vfs_get_parent_path and vfs_get_basename. The last component is looked up
      in its parent, and there names the path again. A path cut at the buffer's
      end has no base name. */
  method ParentAndBase(cwd: string, path: string) returns (parent: string, base: string)
    requires cwd != ""
    ensures var st := Resolved(cwd, path); var n := Kept(st);
            if n < |st| || st == [] then parent == Join(st[..n]) && base == ""
            else parent == Join(st[..n - 1]) && base == st[n - 1] && parent != "" && Components(parent, base, LIMIT) == st
  {
    hide Components, Slashed, Clean, Join, Resolved;
    var clean := Canonicalize(cwd, path);
    ResultIsClean(cwd, path);
    var k := LastSlash(clean);
    ParentFacts(Resolved(cwd, path), Kept(Resolved(cwd, path)), clean, k);
    if |clean| <= 1 || k == 0 {
      parent := "/";
    } else {
      parent := clean[..k];
    }
    base := clean[k + 1..];
  }

  lemma ParentFacts(stack: seq<string>, n: nat, s: string, k: int)
    requires Clean(stack) && |stack| <= LIMIT && CutAt(stack, n) && s == Cut(stack, n)
    requires -1 <= k < |s| && (k >= 0 ==> s[k] == '/') && forall i :: k < i < |s| ==> s[i] != '/'
    ensures k >= 0 && (|s| <= 1 ==> k == 0)
    ensures var p := if k == 0 then "/" else s[..k];
            if n < |stack| || stack == [] then p == Join(stack[..n]) && s[k + 1..] == ""
            else p == Join(stack[..n - 1]) && s[k + 1..] == stack[n - 1] && p != "" && Components(p, stack[n - 1], LIMIT) == stack
  {
    hide Components;
    if n < |stack| || stack == [] {
      CutEnds(stack, n, s, k);
    } else {
      LastSlashIs(stack, s, k);
      assert stack[..|stack|] == stack;
      Rejoin(stack);
    }
  }

  /** A cut path, or the root, ends in its last slash. */
  lemma CutEnds(stack: seq<string>, n: nat, s: string, k: int)
    requires CutAt(stack, n) && s == Cut(stack, n) && (n < |stack| || stack == [])
    requires -1 <= k < |s| && (k >= 0 ==> s[k] == '/') && forall i :: k < i < |s| ==> s[i] != '/'
    ensures k == |s| - 1 && s[..k] == Slashed(stack[..n]) && s[k + 1..] == "" && (k == 0 <==> n == 0)
  {
    hide Slashed;
    SlashedNext([], "");
    assert stack[..0] == [];
    assert s == Slashed(stack[..n]) + "/";
    assert s[|s| - 1] == '/';
    if n > 0 {
      SlashedNext(stack[..n - 1], stack[n - 1]);
      assert stack[..n - 1] + [stack[n - 1]] == stack[..n];
    }
  }

  lemma LastSlashIs(stack: seq<string>, s: string, k: int)
    requires Clean(stack) && stack != [] && s == Slashed(stack)
    requires -1 <= k < |s| && (k >= 0 ==> s[k] == '/') && forall i :: k < i < |s| ==> s[i] != '/'
    ensures var n := |stack| - 1;
            k == |Slashed(stack[..n])| && s[..k] == Slashed(stack[..n]) && s[k + 1..] == stack[n] && |s| > 1 && (k == 0 <==> n == 0)
  {
    var n := |stack| - 1;
    var a, c := Slashed(stack[..n]), stack[n];
    assert s == a + "/" + c && s[|a|] == '/';
    assert forall i :: |a| < i < |s| ==> s[i] == c[i - |a| - 1] != '/';
    if n > 0 {
      SplitJoined(stack[..n]);
    }
  }

  /** The last component, looked up from the path of the others, is the whole
      path again. */
  lemma Rejoin(stack: seq<string>)
    requires Clean(stack) && stack != [] && |stack| <= LIMIT && |Join(stack)| <= BUFFER
    ensures var n := |stack| - 1; Join(stack[..n]) != "" && Components(Join(stack[..n]), stack[n], LIMIT) == stack
  {
    hide Slashed, Join, Tokens, Fold, Buffered, Name;
    var n := |stack| - 1;
    JoinSplit(stack);
    BaseBehind(Join(stack[..n]), stack[n], Join(stack));
    Idempotent("/", stack);
  }

  lemma JoinSplit(stack: seq<string>)
    requires Clean(stack) && stack != []
    ensures var p, c := Join(stack[..|stack| - 1]), stack[|stack| - 1];
            && p != "" && p[0] == '/' && (p[|p| - 1] == '/' <==> p == "/") && c != "" && c[0] != '/'
            && Join(stack) == if p == "/" then "/" + c else p + "/" + c
  {
    var u, c := stack[..|stack| - 1], stack[|stack| - 1];
    JoinedEnds(u);
    hide Slashed;
    SlashedNext(u, c);
    assert u + [c] == stack && Name(c) && c[0] in c;
    assert "" + "/" + c == "/" + c;
  }

  /** What the buffer holds for one component of a directory, and for the path
      of both. */
  lemma BaseBehind(p: string, c: string, s: string)
    requires p != "" && p[0] == '/' && (p[|p| - 1] == '/' <==> p == "/") && c != "" && c[0] != '/'
    requires s == (if p == "/" then "/" + c else p + "/" + c) && |s| <= BUFFER
    ensures Buffered(p, c) == s && Buffered("/", s) == s
  {
    assert s[0] == '/' && "" + s == s;
  }

  /** A joined path ends in a slash when it is the root. */
  lemma JoinedEnds(stack: seq<string>)
    requires Clean(stack)
    ensures Slashed([]) == "" && Join(stack) != "" && Join(stack)[0] == '/'
    ensures (Join(stack)[|Join(stack)| - 1] == '/' <==> stack == []) && (Join(stack) == "/" <==> stack == [])
  {
    if stack != [] {
      SplitJoined(stack);
      var c := stack[|stack| - 1];
      assert Name(c) && Join(stack)[|Join(stack)| - 1] == c[|c| - 1];
    }
  }
}
