/**
  Path resolution as a stack of components: the meaning both resolvers share
  (luftpd/src/luftpd_utils.c, lines 183-283; test/test.c, lines 11-75).
 */
module Paths {

  const PATH_MAX := 4096

  // ---- Components ----

  function FirstSlash(s: string): (n: nat)
    ensures n <= |s|
    ensures n < |s| ==> s[n] == '/'
    ensures forall i :: 0 <= i < n ==> s[i] != '/'
  {
    if s == "" || s[0] == '/' then 0 else 1 + FirstSlash(s[1..])
  }

  /** The position of the last slash. */
  function LastSlash(s: string): (k: nat)
    requires '/' in s
    ensures k < |s| && s[k] == '/' && '/' !in s[k + 1..]
  {
    if s[|s| - 1] == '/' then |s| - 1
    else
      var n := |s| - 1;
      assert s == s[..n] + [s[n]];
      var k := LastSlash(s[..n]);
      assert s[..n][k + 1..] == s[k + 1..n];
      assert s[k + 1..] == s[k + 1..n] + [s[n]];
      k
  }

  /** The tokens strtok finds with delimiter "/": the maximal runs without a slash. */
  function Split(s: string): seq<string>
    decreases |s|
  {
    if s == "" then []
    else if s[0] == '/' then Split(s[1..])
    else [s[..FirstSlash(s)]] + Split(s[FirstSlash(s)..])
  }

  predicate Absolute(p: string) {
    p != "" && p[0] == '/'
  }

  predicate Token(c: string) {
    c != "" && '/' !in c
  }

  predicate Proper(c: string) {
    Token(c) && c != "." && c != ".."
  }

  predicate AllProper(st: seq<string>) {
    forall i :: 0 <= i < |st| ==> Proper(st[i])
  }

  predicate AllTokens(cs: seq<string>) {
    forall i :: 0 <= i < |cs| ==> Token(cs[i])
  }

  // ---- The stack, clamped at the root ----

  function Move(st: seq<string>, c: string): seq<string> {
    if c == "." then st
    else if c == ".." then if st == [] then st else st[..|st| - 1]
    else st + [c]
  }

  function Walk(st: seq<string>, cs: seq<string>): seq<string> {
    if cs == [] then st else Move(Walk(st, cs[..|cs| - 1]), cs[|cs| - 1])
  }

  // ---- Rendering ----

  /** "/c" for every component. */
  function Below(st: seq<string>): string {
    if st == [] then "" else Below(st[..|st| - 1]) + "/" + st[|st| - 1]
  }

  function Render(st: seq<string>): string {
    if st == [] then "/" else Below(st)
  }

  /** The path of a stack under a root directory. */
  function At(root: string, st: seq<string>): string {
    if root == "/" then Render(st) else root + Below(st)
  }

  /** An absolute path in lexically canonical form. */
  predicate Canonical(p: string) {
    && Absolute(p)
    && (p == "/" || p[|p| - 1] != '/')
    && (forall i :: 0 <= i < |p| - 1 ==> !(p[i] == '/' && p[i + 1] == '/'))
    && AllProper(Split(p))
  }

  /** The normal form of a path. */
  function Normal(p: string): string {
    Render(Walk([], Split(p)))
  }

  // ---- Splitting ----

  lemma {:induction false} SplitTokens(s: string)
    ensures AllTokens(Split(s))
    decreases |s|
  {
    if s != "" {
      if s[0] == '/' {
        SplitTokens(s[1..]);
      } else {
        SplitTokens(s[FirstSlash(s)..]);
      }
    }
  }

  lemma {:induction false} FirstSlashConcat(a: string, b: string)
    ensures FirstSlash(a + "/" + b) == FirstSlash(a)
  {
    if a == "" {
    } else {
      assert (a + "/" + b)[1..] == a[1..] + "/" + b;
      FirstSlashConcat(a[1..], b);
    }
  }

  /** A slash separates: the tokens before it and the tokens after it. */
  lemma {:induction false} SplitConcat(a: string, b: string)
    ensures Split(a + "/" + b) == Split(a) + Split(b)
    decreases |a|
  {
    var s := a + "/" + b;
    if a == "" {
      assert s[1..] == b;
    } else if a[0] == '/' {
      assert s[1..] == a[1..] + "/" + b;
      SplitConcat(a[1..], b);
    } else {
      var n := FirstSlash(a);
      FirstSlashConcat(a, b);
      assert s[..n] == a[..n];
      assert s[n..] == a[n..] + "/" + b;
      SplitConcat(a[n..], b);
    }
  }

  lemma {:induction false} FirstSlashNone(c: string)
    requires '/' !in c
    ensures FirstSlash(c) == |c|
  {
    if c != "" {
      FirstSlashNone(c[1..]);
    }
  }

  lemma SplitToken(c: string)
    requires Token(c)
    ensures Split(c) == [c]
  {
    FirstSlashNone(c);
    assert c[..|c|] == c && c[|c|..] == "";
  }

  lemma {:induction false} SplitBelow(st: seq<string>)
    requires AllTokens(st)
    ensures Split(Below(st)) == st && Split(Render(st)) == st
  {
    if st == [] {
      assert "/"[1..] == "";
    } else {
      var n := |st| - 1;
      SplitBelow(st[..n]);
      SplitConcat(Below(st[..n]), st[n]);
      SplitToken(st[n]);
      assert st == st[..n] + [st[n]];
    }
  }

  // ---- Room ----

  /** The length of a sequence of components, each with a slash. */
  function Span(cs: seq<string>): nat {
    if cs == [] then 0 else Span(cs[..|cs| - 1]) + |cs[|cs| - 1]| + 1
  }

  lemma {:induction false} SpanConcat(a: seq<string>, b: seq<string>)
    ensures Span(a + b) == Span(a) + Span(b)
  {
    if b == [] {
      assert a + b == a;
    } else {
      assert (a + b)[..|a + b| - 1] == a + b[..|b| - 1];
      SpanConcat(a, b[..|b| - 1]);
    }
  }

  /** Tokens with a slash each take no more room than the path, plus one if it starts with a token. */
  lemma {:induction false} SpanOfSplit(s: string)
    ensures Span(Split(s)) <= |s| + (if s != "" && s[0] != '/' then 1 else 0)
    decreases |s|
  {
    if s != "" {
      if s[0] == '/' {
        SpanOfSplit(s[1..]);
      } else {
        var n := FirstSlash(s);
        var c, rest := s[..n], s[n..];
        SpanOfSplit(rest);
        SpanConcat([c], Split(rest));
        assert [c][..0] == [];
      }
    }
  }

  /** Every component takes at least two characters. */
  lemma {:induction false} SpanCounts(cs: seq<string>)
    requires AllTokens(cs)
    ensures 2 * |cs| <= Span(cs)
  {
    if cs != [] {
      SpanCounts(cs[..|cs| - 1]);
    }
  }

  /** A path has at most half as many components as characters, rounded up; with that many, the last is one character. */
  lemma ManyTokensAreShort(s: string)
    ensures 2 * |Split(s)| <= |s| + 1
    ensures Split(s) != [] && 2 * |Split(s)| == |s| + 1 ==> |Split(s)[|Split(s)| - 1]| == 1
  {
    var cs := Split(s);
    SplitTokens(s);
    SpanOfSplit(s);
    SpanCounts(cs);
    if cs != [] {
      SpanCounts(cs[..|cs| - 1]);
    }
  }

  // ---- Walking ----

  lemma {:induction false} WalkConcat(st: seq<string>, a: seq<string>, b: seq<string>)
    ensures Walk(st, a + b) == Walk(Walk(st, a), b)
  {
    if b == [] {
      assert a + b == a;
    } else {
      var n := |b| - 1;
      assert (a + b)[..|a + b| - 1] == a + b[..n];
      WalkConcat(st, a, b[..n]);
    }
  }

  lemma {:induction false} WalkProper(st: seq<string>, cs: seq<string>)
    requires AllProper(st) && AllTokens(cs)
    ensures AllProper(Walk(st, cs))
  {
    if cs != [] {
      WalkProper(st, cs[..|cs| - 1]);
    }
  }

  /** Proper components are only pushed. */
  lemma {:induction false} WalkPushes(st: seq<string>, cs: seq<string>)
    requires AllProper(cs)
    ensures Walk(st, cs) == st + cs
  {
    if cs == [] {
      assert st + cs == st;
    } else {
      var n := |cs| - 1;
      WalkPushes(st, cs[..n]);
      assert st + cs[..n] + [cs[n]] == st + cs;
    }
  }

  lemma {:induction false} WalkIsShort(base: seq<string>, cs: seq<string>)
    ensures |Below(Walk(base, cs))| <= |Below(base)| + Span(cs)
  {
    if cs != [] {
      var n := |cs| - 1;
      var st, c := Walk(base, cs[..n]), cs[n];
      WalkIsShort(base, cs[..n]);
      assert (st + [c])[..|st|] == st;
    }
  }

  lemma SpanOfPrefix(cs: seq<string>, i: nat)
    requires i < |cs|
    ensures Span(cs[..i]) + |cs[i]| + 1 <= Span(cs)
  {
    assert cs == cs[..i] + ([cs[i]] + cs[i + 1..]);
    SpanConcat(cs[..i], [cs[i]] + cs[i + 1..]);
    SpanConcat([cs[i]], cs[i + 1..]);
    assert [cs[i]][..0] == [];
  }

  lemma {:induction false} BelowSpan(st: seq<string>)
    ensures |Below(st)| == Span(st)
  {
    if st != [] {
      BelowSpan(st[..|st| - 1]);
    }
  }

  /** Walking lengthens a path by no more than the components walked. */
  lemma AtIsShort(root: string, base: seq<string>, cs: seq<string>)
    ensures |At(root, Walk(base, cs))| <= |At(root, base)| + Span(cs)
  {
    WalkIsShort(base, cs);
  }

  lemma {:induction false} DepthIsBounded(st: seq<string>, cs: seq<string>)
    ensures |Walk(st, cs)| <= |st| + |cs|
  {
    if cs != [] {
      DepthIsBounded(st, cs[..|cs| - 1]);
    }
  }

  // ---- Canonical form ----

  lemma {:induction false} BelowShape(st: seq<string>)
    requires AllTokens(st) && st != []
    ensures var p := Below(st);
      && |p| >= 2 && p[0] == '/' && p[|p| - 1] != '/'
      && forall i :: 0 <= i < |p| - 1 ==> !(p[i] == '/' && p[i + 1] == '/')
  {
    var n := |st| - 1;
    var c, p := st[n], Below(st);
    assert p[|p| - 1] == c[|c| - 1];
    if n > 0 {
      BelowShape(st[..n]);
    }
    var q := Below(st[..n]);
    forall i | 0 <= i < |p| - 1 ensures !(p[i] == '/' && p[i + 1] == '/') {
      if i + 1 < |q| {
        assert p[i] == q[i] && p[i + 1] == q[i + 1];
      } else if i + 1 == |q| {
        assert p[i] == q[i];
      } else {
        assert p[i + 1] == c[i - |q|];
      }
    }
  }

  lemma RenderIsCanonical(st: seq<string>)
    requires AllProper(st)
    ensures Canonical(Render(st))
  {
    SplitBelow(st);
    if st != [] {
      BelowShape(st);
    }
  }

  /** The text of a path without double or trailing slashes is determined by its components. */
  lemma {:induction false} BelowOfSplit(p: string)
    requires p != "" && p[0] == '/' && p[|p| - 1] != '/'
    requires forall i :: 0 <= i < |p| - 1 ==> !(p[i] == '/' && p[i + 1] == '/')
    ensures Below(Split(p)) == p
    decreases |p|
  {
    var k := LastSlash(p);
    var a, c := p[..k], p[k + 1..];
    assert p == a + "/" + c;
    SplitConcat(a, c);
    SplitToken(c);
    assert (Split(a) + [c])[..|Split(a)|] == Split(a);
    if a != "" {
      assert a[|a| - 1] != '/';
      assert forall i :: 0 <= i < |a| ==> a[i] == p[i];
      BelowOfSplit(a);
    }
  }

  /** Canonical paths are exactly the renderings of their own components, and exactly the fixed points of Normal. */
  lemma CanonicalIffNormal(p: string)
    ensures Canonical(p) <==> Normal(p) == p
    ensures Canonical(p) ==> Render(Split(p)) == p
  {
    SplitTokens(p);
    if Canonical(p) {
      WalkPushes([], Split(p));
      assert [] + Split(p) == Split(p);
      if p == "/" {
        assert p[1..] == "";
      } else {
        BelowOfSplit(p);
      }
    }
    WalkProper([], Split(p));
    RenderIsCanonical(Walk([], Split(p)));
  }

  /** Normal forms are canonical, and normalising again changes nothing. */
  lemma NormalIsCanonical(p: string)
    ensures Canonical(Normal(p)) && Normal(Normal(p)) == Normal(p)
  {
    SplitTokens(p);
    WalkProper([], Split(p));
    RenderIsCanonical(Walk([], Split(p)));
    CanonicalIffNormal(Normal(p));
  }

  /** Normalising a path joined to a normal form resumes the walk where that form ended. */
  lemma NormalOfJoin(c: string, u: string)
    ensures Split(Normal(c)) == Walk([], Split(c))
    ensures Normal(Normal(c) + "/" + u) == Render(Walk(Walk([], Split(c)), Split(u)))
  {
    var st := Walk([], Split(c));
    SplitTokens(c);
    WalkProper([], Split(c));
    SplitBelow(st);
    SplitConcat(Normal(c), u);
    WalkConcat([], st, Split(u));
    WalkPushes([], st);
    assert [] + st == st;
  }

  /** Going up k times removes the last k components, and nothing more once the root is reached. */
  lemma {:induction false} UpIsClamped(st: seq<string>, k: nat)
    ensures Walk(st, seq(k, i => "..")) == st[..if k <= |st| then |st| - k else 0]
  {
    if k == 0 {
      assert st[..|st|] == st;
    } else {
      UpIsClamped(st, k - 1);
      assert seq(k, i => "..")[..k - 1] == seq(k - 1, i => "..");
    }
  }
}
