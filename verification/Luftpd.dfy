/**
  The lexical part of luftpd_resolve_path (luftpd/src/luftpd_utils.c, lines 142-290):
  from the real paths of the root and of the current directory to result_path.
 */
module Luftpd {
  import opened Paths
  import opened CStrings
  import opened Sequences

  const RESULT_SIZE := 8192

  datatype Errno = EACCES | ENAMETOOLONG

  datatype Result = Resolved(path: string) | Failed(errno: Errno)

  /** What realpath returns: a canonical path that fits PATH_MAX. */
  predicate RealPath(p: string) {
    Canonical(p) && Plain(p) && |p| < PATH_MAX
  }

  // ---- Meaning ----

  /** Where the base check lets the current directory through: at or below the root, but only at it when the root is "/". */
  predicate Admitted(root: string, cur: string) {
    if root == "/" then cur == "/" else Split(root) <= Split(cur)
  }

  /** The components of cur below root, when the base check lets cur through. */
  function BaseStack(root: string, cur: string): seq<string>
    requires Admitted(root, cur)
  {
    if root == "/" then [] else Split(cur)[|Split(root)|..]
  }

  /** Components past the capacity of the component array are not looked at. */
  function Considered(user: string): seq<string> {
    if |Split(user)| < PATH_MAX then Split(user) else Split(user)[..PATH_MAX - 1]
  }

  predicate Pushes(c: string) {
    c != "." && c != ".."
  }

  /** Every push finds room in result_path. */
  predicate Fits(root: string, base: seq<string>, cs: seq<string>) {
    forall i :: 0 <= i < |cs| && Pushes(cs[i]) ==> |At(root, Walk(base, cs[..i]))| + |cs[i]| + 2 < RESULT_SIZE
  }

  /** The resolver as a walk from the base directory, clamped at the root. */
  function Meaning(root: string, cur: string, user: string): Result {
    if !Admitted(root, cur) then Failed(EACCES)
    else if |user| >= RESULT_SIZE then Failed(ENAMETOOLONG)
    else
      var base := if Absolute(user) then [] else BaseStack(root, cur);
      var cs := Considered(user);
      if Fits(root, base, cs) then Resolved(At(root, Walk(base, cs))) else Failed(ENAMETOOLONG)
  }

  // ---- The base directory ----

  lemma {:induction false} BelowConcat(a: seq<string>, b: seq<string>)
    ensures Below(a + b) == Below(a) + Below(b)
  {
    if b == [] {
      assert a + b == a;
    } else {
      var n := |b| - 1;
      assert (a + b)[..|a + b| - 1] == a + b[..n];
      BelowConcat(a, b[..n]);
    }
  }

  /** What the two comparisons of the base check decide, on strings. */
  predicate PassesBaseCheck(root: string, cur: string) {
    root <= cur && !(|cur| > |root| && cur[|root|] != '/')
  }

  lemma PassingIsBelow(root: string, cur: string)
    requires RealPath(root) && RealPath(cur) && root != "/" && PassesBaseCheck(root, cur)
    ensures Split(root) <= Split(cur)
  {
    hide RealPath, Canonical;
    if cur != root {
      var x := cur[|root| + 1..];
      assert cur == root + "/" + x;
      SplitConcat(root, x);
    }
  }

  lemma RenderBelow(st: seq<string>)
    requires st != []
    ensures Render(st) == Below(st)
  {
  }

  lemma BelowStarts(st: seq<string>)
    requires AllProper(st)
    ensures Below(st) == "" || Below(st)[0] == '/'
  {
    if st != [] {
      BelowShape(st);
    }
  }

  lemma PassesWhen(root: string, x: string)
    requires x == "" || x[0] == '/'
    ensures PassesBaseCheck(root, root + x)
  {
  }

  lemma BelowPasses(root: string, cur: string)
    requires RealPath(root) && RealPath(cur) && root != "/" && Split(root) <= Split(cur)
    ensures PassesBaseCheck(root, cur)
    ensures cur == root + Below(Split(cur)[|Split(root)|..])
  {
    var rs, cs := Split(root), Split(cur);
    var tail := cs[|rs|..];
    CanonicalIffNormal(root);
    CanonicalIffNormal(cur);
    assert rs != [];
    assert cs == rs + tail;
    assert AllProper(tail);
    hide *;
    BelowConcat(rs, tail);
    assert root == Below(rs) && cur == Below(cs) by {
      RenderBelow(rs);
      RenderBelow(cs);
    }
    assert cur == root + Below(tail);
    BelowStarts(tail);
    PassesWhen(root, Below(tail));
  }

  /**
    The base check admits exactly the root and the directories below it, unless the
    root is "/": then it turns away every directory but "/" itself.
   */
  lemma BaseCheckIsExact(root: string, cur: string)
    requires RealPath(root) && RealPath(cur)
    ensures PassesBaseCheck(root, cur) <==> Admitted(root, cur)
    ensures Admitted(root, cur) ==> At(root, BaseStack(root, cur)) == cur && AllProper(BaseStack(root, cur))
  {
    if root != "/" {
      if PassesBaseCheck(root, cur) {
        PassingIsBelow(root, cur);
      }
      if Split(root) <= Split(cur) {
        BelowPasses(root, cur);
      }
    }
  }

  // ---- One component ----

  lemma LastSlashIs(a: string, c: string)
    requires '/' !in c
    ensures '/' in a + "/" + c && LastSlash(a + "/" + c) == |a|
  {
    var s := a + "/" + c;
    assert s[|a|] == '/';
    var k := LastSlash(s);
    assert forall j :: k < j < |s| ==> s[j] == s[k + 1..][j - k - 1];
    assert forall j :: |a| < j < |s| ==> s[j] == c[j - |a| - 1];
  }

  /** The last slash of a rendered stack stands before its top, and within the root when it is empty. */
  lemma LastSlashOfAt(root: string, st: seq<string>)
    requires RealPath(root) && AllProper(st)
    ensures var p := At(root, st);
      && '/' in p && root <= p
      && (if st == [] then p == root && (root == "/" || LastSlash(p) < |root|)
          else
            var up := At(root, st[..|st| - 1]);
            if root == "/" && |st| == 1 then LastSlash(p) == 0 && |p| >= 2 && p[..1] == up
            else LastSlash(p) == |up| && up < p)
  {
    var p := At(root, st);
    if st == [] {
      assert p == root;
      assert p[0] == '/';
    } else {
      var n := |st| - 1;
      var a := (if root == "/" then "" else root) + Below(st[..n]);
      assert p == a + "/" + st[n];
      LastSlashIs(a, st[n]);
      if root == "/" && n > 0 {
        BelowShape(st[..n]);
      }
    }
  }

  /** What the two cuts of the parent step amount to. */
  lemma ParentText(root: string, st: seq<string>)
    requires RealPath(root) && AllProper(st)
    ensures var p := At(root, st);
      && '/' in p && root <= p
      && At(root, Move(st, "..")) == (if LastSlash(p) > |root| then p[..LastSlash(p)] else if |p| > |root| then p[..|root|] else p)
  {
    LastSlashOfAt(root, st);
  }

  /** Parent directory: cut at the last slash, but never into the root. */
  method GoUp(result: array<char>, root: string, ghost st: seq<string>)
    requires RealPath(root) && AllProper(st)
    requires Terminated(result[..]) && Str(result[..]) == At(root, st)
    modifies result
    ensures Terminated(result[..]) && Str(result[..]) == At(root, Move(st, ".."))
  {
    hide At, Move, Canonical, LastSlash;
    ParentText(root, st);
    var inside := HasPrefix(result, root);
    if !inside {
      assert false;
    }
    var lastSlash := FindLastSlash(result);
    if lastSlash != -1 {
      var len := Length(result);
      if lastSlash > |root| {
        Cut(result, lastSlash);
      } else if len > |root| {
        Cut(result, |root|);
      }
    }
  }

  /** Only the root directory "/" ends in a slash, so one is put before every other component. */
  lemma ChildText(root: string, st: seq<string>, c: string)
    requires RealPath(root) && AllProper(st)
    ensures var p := At(root, st);
      p != "" && At(root, st + [c]) == p + (if p[|p| - 1] == '/' then "" else "/") + c
  {
    assert (st + [c])[..|st|] == st;
    if st == [] {
      assert Below(st + [c]) == Below(st) + "/" + c == "/" + c;
      assert root + "" == root;
      assert root == "/" ==> "/" + c == root + "" + c;
    } else {
      BelowShape(st);
    }
  }

  /** Descends into a directory, unless the path would no longer fit. */
  method GoDown(result: array<char>, root: string, c: string, ghost st: seq<string>) returns (ok: bool)
    requires RealPath(root) && AllProper(st) && Plain(c) && result.Length == RESULT_SIZE
    requires Terminated(result[..]) && Str(result[..]) == At(root, st)
    modifies result
    ensures ok <==> |At(root, st)| + |c| + 2 < RESULT_SIZE
    ensures ok ==> Terminated(result[..]) && Str(result[..]) == At(root, st + [c])
  {
    hide At, Canonical;
    ghost var p := Str(result[..]);
    var currentLen := Length(result);
    if currentLen + |c| + 2 >= RESULT_SIZE {
      return false;
    }
    ChildText(root, st, c);
    if currentLen > 0 && result[currentLen - 1] != '/' {
      Append(result, "/");
    } else {
      assert p + "" == p;
    }
    Append(result, c);
    return true;
  }

  // ---- The resolver ----

  /** The tokens of the user path, as many as the component array holds. */
  method Tokenize(user: string) returns (components: seq<string>)
    requires Plain(user)
    ensures components == Considered(user)
    ensures AllTokens(components) && forall i :: 0 <= i < |components| ==> Plain(components[i])
  {
    hide Split, Token;
    components := [];
    var token, rest := NextToken(user);
    assert components + Split(user) == Split(user);
    while token != "" && |components| < PATH_MAX - 1
      invariant |components| < PATH_MAX && Plain(token) && Plain(rest) && (token != "" ==> Token(token))
      invariant Split(user) == components + (if token == "" then [] else [token] + Split(rest))
      invariant AllTokens(components) && forall i :: 0 <= i < |components| ==> Plain(components[i])
      decreases PATH_MAX - |components|
    {
      ConcatAssoc(components, [token], Split(rest));
      components := components + [token];
      token, rest := NextToken(rest);
    }
    assert components == Split(user)[..|components|];
  }

  predicate HasRoom(root: string, st: seq<string>, c: string) {
    Pushes(c) ==> |At(root, st)| + |c| + 2 < RESULT_SIZE
  }

  lemma FitsOneMore(root: string, base: seq<string>, cs: seq<string>, i: nat)
    requires i < |cs|
    ensures Fits(root, base, cs[..i + 1]) <==> Fits(root, base, cs[..i]) && HasRoom(root, Walk(base, cs[..i]), cs[i])
    ensures Walk(base, cs[..i + 1]) == Move(Walk(base, cs[..i]), cs[i])
    ensures Fits(root, base, cs) ==> Fits(root, base, cs[..i + 1])
  {
    hide At;
    var ds := cs[..i + 1];
    assert ds[..i] == cs[..i];
    assert forall j :: 0 <= j <= i ==> ds[..j] == cs[..j] && ds[j] == cs[j];
    assert forall j :: 0 <= j < i ==> cs[..i][..j] == cs[..j];
  }

  /** One component: stay, go up, or go down. */
  method Apply(result: array<char>, root: string, c: string, ghost st: seq<string>) returns (ok: bool)
    requires RealPath(root) && AllProper(st) && Token(c) && Plain(c) && result.Length == RESULT_SIZE
    requires Terminated(result[..]) && Str(result[..]) == At(root, st)
    modifies result
    ensures ok <==> HasRoom(root, st, c)
    ensures ok ==> Terminated(result[..]) && Str(result[..]) == At(root, Move(st, c)) && AllProper(Move(st, c))
  {
    hide At, Canonical;
    if c == "." {
      return true;
    } else if c == ".." {
      GoUp(result, root, st);
      return true;
    } else {
      ok := GoDown(result, root, c, st);
    }
  }

  /** The component loop: result_path walks from the base and stays at or below the root. */
  method WalkComponents(result: array<char>, root: string, components: seq<string>, ghost base: seq<string>) returns (ok: bool)
    requires RealPath(root) && AllProper(base) && result.Length == RESULT_SIZE
    requires AllTokens(components) && forall i :: 0 <= i < |components| ==> Plain(components[i])
    requires Terminated(result[..]) && Str(result[..]) == At(root, base)
    modifies result
    ensures ok <==> Fits(root, base, components)
    ensures ok ==> Terminated(result[..]) && Str(result[..]) == At(root, Walk(base, components))
  {
    assert Fits(root, base, components[..0]) && Walk(base, components[..0]) == base;
    hide At, Canonical, RealPath, Fits, HasRoom, Walk, Move;
    var i := 0;
    while i < |components|
      invariant 0 <= i <= |components| && Fits(root, base, components[..i])
      invariant AllProper(Walk(base, components[..i]))
      invariant Terminated(result[..]) && Str(result[..]) == At(root, Walk(base, components[..i]))
    {
      FitsOneMore(root, base, components, i);
      ok := Apply(result, root, components[i], Walk(base, components[..i]));
      if !ok {
        return false;
      }
      i := i + 1;
    }
    assert components[..i] == components;
    return true;
  }

  lemma EmptyStack(root: string)
    ensures At(root, []) == root
  {
  }

  lemma NoTrailingSlash(p: string)
    requires RealPath(p)
    ensures !(|p| > 1 && p[|p| - 1] == '/')
  {
  }

  /** From the base check to the final prefix check: the resolver's outcome is its meaning. */
  method ResolveLexical(root: string, cur: string, user: string) returns (r: Result)
    requires RealPath(root) && RealPath(cur) && Plain(user)
    ensures r == Meaning(root, cur, user)
  {
    hide At, Canonical, Fits, Admitted, BaseStack, Considered, Walk;
    BaseCheckIsExact(root, cur);
    if !(root <= cur) {
      return Failed(EACCES);
    }
    if |cur| > |root| && cur[|root|] != '/' {
      return Failed(EACCES);
    }
    var absolute := Absolute(user);
    var basePath := if absolute then root else cur;
    ghost var base := if absolute then [] else BaseStack(root, cur);
    EmptyStack(root);
    NoTrailingSlash(basePath);
    if |basePath| > 1 && basePath[|basePath| - 1] == '/' {
      assert false;
    }
    if |user| >= RESULT_SIZE {
      return Failed(ENAMETOOLONG);
    }
    var components := Tokenize(user);
    var result := new char[RESULT_SIZE](i => NUL);
    Copy(result, basePath);
    var ok := WalkComponents(result, root, components, base);
    if !ok {
      return Failed(ENAMETOOLONG);
    }
    WalkProper(base, components);
    LastSlashOfAt(root, Walk(base, components));
    var inside := HasPrefix(result, root);
    if !inside {
      assert false;
    }
    var n := Length(result);
    assert result[..n] == result[..][..n];
    return Resolved(result[..n]);
  }

  // ---- When it resolves ----

  /** Where a path comes from that is walked from the base. */
  function BasePath(root: string, cur: string, user: string): string {
    if Absolute(user) then root else cur
  }

  lemma FitsWithin(root: string, base: seq<string>, cs: seq<string>)
    requires |At(root, base)| + Span(cs) + 1 < RESULT_SIZE
    ensures Fits(root, base, cs)
  {
    hide At;
    forall i | 0 <= i < |cs|
      ensures |At(root, Walk(base, cs[..i]))| + |cs[i]| + 2 < RESULT_SIZE
    {
      AtIsShort(root, base, cs[..i]);
      SpanOfPrefix(cs, i);
    }
  }

  lemma PassesIff(root: string, cur: string)
    requires RealPath(root) && RealPath(cur)
    ensures PassesBaseCheck(root, cur) <==> cur == root || (root != "/" && root + "/" <= cur)
  {
    if root != "/" && root + "/" <= cur {
      assert root <= cur by { assert root == (root + "/")[..|root|]; }
      assert cur[|root|] == (root + "/")[|root|];
    }
    if PassesBaseCheck(root, cur) && cur != root {
      assert cur[|root|] == '/';
      assert root + "/" == cur[..|root| + 1];
    }
  }

  /**
    Every admitted directory and every user path short enough resolve, to the full
    clamped walk: from the root for an absolute path, from the directory otherwise.
   */
  lemma ShortPathsResolve(root: string, cur: string, user: string)
    requires RealPath(root) && RealPath(cur) && (cur == root || (root != "/" && root + "/" <= cur))
    requires |BasePath(root, cur, user)| + |user| + 2 < RESULT_SIZE
    ensures Admitted(root, cur)
    ensures var base := if Absolute(user) then [] else BaseStack(root, cur);
      Meaning(root, cur, user) == Resolved(At(root, Walk(base, Split(user))))
  {
    hide Split, At, Canonical, Fits, PassesBaseCheck;
    PassesIff(root, cur);
    BaseCheckIsExact(root, cur);
    EmptyStack(root);
    SpanOfSplit(user);
    ManyTokensAreShort(user);
    FitsWithin(root, if Absolute(user) then [] else BaseStack(root, cur), Split(user));
  }

  /** Some component to be pushed finds the path too long by then. */
  predicate Overflows(root: string, cur: string, user: string)
    requires RealPath(root) && RealPath(cur) && |user| < 8192
  {
    Admitted(root, cur) &&
    var base := if Absolute(user) then [] else BaseStack(root, cur);
    var cs := Considered(user);
    exists i :: 0 <= i < |cs| && cs[i] != "." && cs[i] != ".." && |At(root, Walk(base, cs[..i]))| + |cs[i]| + 2 >= 8192
  }

  /** Each error exactly: EACCES for a directory that is neither the root nor below it, ENAMETOOLONG for a path or a push that does not fit. */
  lemma ErrorsAreExact(root: string, cur: string, user: string)
    requires RealPath(root) && RealPath(cur)
    ensures var outside := cur != root && (root == "/" || !(root + "/" <= cur));
      && (Meaning(root, cur, user) == Failed(EACCES) <==> outside)
      && (Meaning(root, cur, user) == Failed(ENAMETOOLONG) <==> !outside && (|user| >= 8192 || Overflows(root, cur, user)))
  {
    hide Split, At, Canonical, PassesBaseCheck;
    PassesIff(root, cur);
    BaseCheckIsExact(root, cur);
  }

  // ---- The component that is not looked at ----

  /** A path of admissible length has at most one component too many, and then only one-character components. */
  lemma AtMostOneIsLost(user: string)
    requires |user| < RESULT_SIZE
    ensures |Split(user)| <= PATH_MAX
    ensures Considered(user) == Split(user) <==> |Split(user)| < PATH_MAX
    ensures |Split(user)| == PATH_MAX ==>
      Split(user) == Considered(user) + [Split(user)[PATH_MAX - 1]] && |Split(user)[PATH_MAX - 1]| == 1
  {
    hide Split;
    ManyTokensAreShort(user);
  }

  lemma PushingLengthens(root: string, st: seq<string>, c: string)
    requires c != ""
    ensures |At(root, st + [c])| > |At(root, st)|
  {
    assert (st + [c])[..|st|] == st;
  }

  /**
    A resolved path is the full clamped walk of the user path exactly when no component
    goes unseen, or the unseen one is ".".
   */
  lemma ResolvedIsFullWalk(root: string, cur: string, user: string)
    requires RealPath(root) && RealPath(cur) && Meaning(root, cur, user).Resolved?
    ensures var base := if Absolute(user) then [] else BaseStack(root, cur);
      var cs := Split(user);
      Meaning(root, cur, user).path == At(root, Walk(base, cs)) <==> (|cs| < PATH_MAX || cs[|cs| - 1] == ".")
  {
    hide Split, Fits, At, Considered;
    var base := if Absolute(user) then [] else BaseStack(root, cur);
    AtMostOneIsLost(user);
    var cs := Split(user);
    if |cs| == PATH_MAX {
      var seen, last := Considered(user), cs[PATH_MAX - 1];
      assert cs[..PATH_MAX - 1] == seen;
      PushingLengthens(root, Walk(base, seen), last);
    }
  }

  /** "./" n times. */
  function Dots(n: nat): string {
    if n == 0 then "" else "./" + Dots(n - 1)
  }

  lemma {:induction false} SplitDots(n: nat, c: string)
    requires Token(c)
    ensures |Dots(n)| == 2 * n && Split(Dots(n) + c) == seq(n, i => ".") + [c]
  {
    hide Split;
    if n == 0 {
      SplitToken(c);
      assert Dots(0) + c == c;
    } else {
      SplitDots(n - 1, c);
      var rest := Dots(n - 1) + c;
      assert Dots(n) + c == "." + "/" + rest;
      SplitConcat(".", rest);
      SplitToken(".");
      assert ["."] + seq(n - 1, i => ".") == seq(n, i => ".");
    }
  }

  lemma {:induction false} WalkDots(st: seq<string>, n: nat)
    ensures Walk(st, seq(n, i => ".")) == st
  {
    if n > 0 {
      WalkDots(st, n - 1);
      assert seq(n, i => ".")[..n - 1] == seq(n - 1, i => ".");
    }
  }

  /** 4095 times "./" and then "a": the resolver answers with the root itself and never sees the "a". */
  lemma LastComponentIsLost(root: string)
    requires RealPath(root)
    ensures var user := Dots(PATH_MAX - 1) + "a";
      && |user| < RESULT_SIZE
      && Walk([], Split(user)) == ["a"]
      && Meaning(root, root, user) == Resolved(root)
  {
    var n := PATH_MAX - 1;
    var dots := seq(n, i => ".");
    var user := Dots(n) + "a";
    assert Token("a");
    SplitDots(n, "a");
    WalkDots([], n);
    WalkConcat([], dots, ["a"]);
    assert ["a"][..0] == [];
    assert Walk([], ["a"]) == ["a"];
    assert Considered(user) == dots;
    assert !Absolute(user);
    assert BaseStack(root, root) == [];
    EmptyStack(root);
  }

  lemma ProperAreTokens(cs: seq<string>)
    requires AllProper(cs)
    ensures AllTokens(cs)
  {
  }

  /** A stack on top of the components of a root is one stack. */
  lemma BelowRoot(rs: seq<string>, st: seq<string>)
    requires rs != [] && AllProper(rs) && AllProper(st)
    ensures Render(rs) + Below(st) == Render(rs + st)
    ensures Canonical(Render(rs + st)) && Split(Render(rs + st)) == rs + st
  {
    var all := rs + st;
    assert AllProper(all);
    hide *;
    BelowConcat(rs, st);
    RenderBelow(rs);
    RenderIsCanonical(all);
    RenderBelow(all);
    ProperAreTokens(all);
    SplitBelow(all);
  }

  lemma AtIsCanonical(root: string, st: seq<string>)
    requires RealPath(root) && AllProper(st)
    ensures Canonical(At(root, st)) && root <= At(root, st) && Split(root) <= Split(At(root, st))
    ensures root != "/" ==> At(root, st) == Render(Split(root) + st)
  {
    CanonicalIffNormal(root);
    LastSlashOfAt(root, st);
    if root == "/" {
      RenderIsCanonical(st);
      assert root[1..] == "";
    } else {
      BelowRoot(Split(root), st);
    }
  }

  /** Whatever the user asks for, the resolved path is the root or lies below it, component by component. */
  lemma ResolvedStaysInside(root: string, cur: string, user: string)
    requires RealPath(root) && RealPath(cur)
    ensures var r := Meaning(root, cur, user);
      r.Resolved? ==> Canonical(r.path) && root <= r.path && Split(root) <= Split(r.path)
  {
    var r := Meaning(root, cur, user);
    if r.Resolved? {
      BaseCheckIsExact(root, cur);
      var base := if Absolute(user) then [] else BaseStack(root, cur);
      var cs := Considered(user);
      SplitTokens(user);
      WalkProper(base, cs);
      AtIsCanonical(root, Walk(base, cs));
    }
  }
}
