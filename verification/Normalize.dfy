/** The stack-based resolver of test/test.c, lines 11-75. */
module Normalize {
  import opened Paths
  import opened CStrings
  import opened Sequences

  const COMP_MAX := 2048

  /** The stack never fills the component array. */
  predicate Shallow(cs: seq<string>) {
    forall i :: 0 <= i <= |cs| ==> |Walk([], cs[..i])| < COMP_MAX
  }

  /** When normalize_path succeeds: one byte beyond the normal form and its terminator is asked for, except at the root. */
  predicate Normalizes(p: string, size: nat) {
    && size != 0 && |p| < PATH_MAX && Shallow(Split(p))
    && (Walk([], Split(p)) == [] || |Normal(p)| + 2 <= size)
  }

  lemma WalkOneMore(cs: seq<string>, c: string)
    ensures Walk([], cs + [c]) == Move(Walk([], cs), c)
  {
    assert (cs + [c])[..|cs|] == cs;
  }

  lemma ShallowOneMore(cs: seq<string>, c: string)
    ensures Shallow(cs + [c]) <==> Shallow(cs) && |Move(Walk([], cs), c)| < COMP_MAX
    ensures Walk([], cs + [c]) == Move(Walk([], cs), c)
  {
    WalkOneMore(cs, c);
    var ds := cs + [c];
    hide Walk, Move;
    assert ds[..|ds|] == ds && cs[..|cs|] == cs;
    assert forall i :: 0 <= i <= |cs| ==> ds[..i] == cs[..i];
    if Shallow(ds) {
      forall i | 0 <= i <= |cs| ensures |Walk([], cs[..i])| < COMP_MAX {
        assert ds[..i] == cs[..i];
      }
    }
  }

  lemma ShallowPrefix(a: seq<string>, b: seq<string>)
    requires Shallow(a + b)
    ensures Shallow(a)
  {
    forall i | 0 <= i <= |a| ensures |Walk([], a[..i])| < COMP_MAX {
      assert (a + b)[..i] == a[..i];
    }
  }

  /** What the component array admits is decided by the stack at the end alone. */
  lemma ShallowIffEnd(p: string)
    requires |p| < PATH_MAX
    ensures Shallow(Split(p)) <==> |Walk([], Split(p))| < COMP_MAX
  {
    var cs := Split(p);
    ManyTokensAreShort(p);
    hide Split, Walk;
    assert cs[..|cs|] == cs;
    forall i | 0 <= i < |cs| ensures |Walk([], cs[..i])| < COMP_MAX {
      DepthIsBounded([], cs[..i]);
    }
  }

  /**
    normalize_path succeeds exactly for a path shorter than PATH_MAX with fewer than 2048
    components left, whose normal form and two more bytes fit, or which is the root.
   */
  lemma NormalizesIff(p: string, size: nat)
    ensures Normalizes(p, size) <==>
      && 0 < size && |p| < 4096 && |Walk([], Split(p))| < 2048
      && (Normal(p) == "/" || |Normal(p)| + 2 <= size)
  {
    if |p| < PATH_MAX {
      ShallowIffEnd(p);
    }
    SplitTokens(p);
    WalkProper([], Split(p));
    var st := Walk([], Split(p));
    if st != [] {
      BelowShape(st);
    }
  }

  /** With a buffer of PATH_MAX only the lengths of the path and of its normal form matter. */
  lemma NormalizesAtPathMax(p: string)
    ensures Normalizes(p, PATH_MAX) <==> |p| < 4096 && |Normal(p)| <= 4094
  {
    NormalizesIff(p, PATH_MAX);
    var st := Walk([], Split(p));
    SplitTokens(p);
    WalkProper([], Split(p));
    SpanCounts(st);
    BelowSpan(st);
  }

  /** One token: skipped, popping, or pushed. */
  method PushOne(comp: array<string>, cnt: nat, tok: string) returns (next: nat)
    requires comp.Length == COMP_MAX && cnt < COMP_MAX && Token(tok) && Plain(tok)
    requires forall i :: 0 <= i < cnt ==> Token(comp[i]) && Plain(comp[i])
    modifies comp
    ensures next <= COMP_MAX && comp[..next] == Move(old(comp[..cnt]), tok)
    ensures forall i :: 0 <= i < next ==> Token(comp[i]) && Plain(comp[i])
  {
    if tok == "." {
      return cnt;
    }
    if tok == ".." {
      return if cnt > 0 then cnt - 1 else cnt;
    }
    comp[cnt] := tok;
    return cnt + 1;
  }

  lemma NothingWalked()
    ensures Shallow([]) && Walk([], []) == []
  {
  }

  /** The first loop: tokens are pushed on and popped off the component array. */
  method PushComponents(tmp: string, comp: array<string>) returns (cnt: int)
    requires comp.Length == COMP_MAX && Plain(tmp)
    modifies comp
    ensures cnt == -1 <==> !Shallow(Split(tmp))
    ensures cnt != -1 ==> 0 <= cnt < COMP_MAX && comp[..cnt] == Walk([], Split(tmp))
                          && forall i :: 0 <= i < cnt ==> Token(comp[i]) && Plain(comp[i])
  {
    hide Shallow, Walk, Split, Move, Token;
    cnt := 0;
    ghost var done: seq<string> := [];
    NothingWalked();
    var tok, rest := NextToken(tmp);
    assert done + [] == [];
    assert tok != "" ==> done + ([tok] + Split(rest)) == [tok] + Split(rest);
    while tok != ""
      invariant Plain(tok) && Plain(rest) && (tok != "" ==> Token(tok))
      invariant Split(tmp) == if tok == "" then done else done + ([tok] + Split(rest))
      invariant 0 <= cnt < COMP_MAX && Shallow(done) && comp[..cnt] == Walk([], done)
      invariant forall i :: 0 <= i < cnt ==> Token(comp[i]) && Plain(comp[i])
      decreases |rest| + |tok|
    {
      ShallowOneMore(done, tok);
      ConcatAssoc(done, [tok], Split(rest));
      cnt := PushOne(comp, cnt, tok);
      if cnt >= COMP_MAX {
        if Shallow(Split(tmp)) {
          ShallowPrefix(done + [tok], Split(rest));
        }
        return -1;
      }
      done := done + [tok];
      assert done + [] == done;
      tok, rest := NextToken(rest);
    }
  }

  /** Copies a component to the end of the text written so far, and a slash behind it. */
  method PutComponent(buf: array<char>, pos: nat, c: string) returns (next: nat)
    requires pos + |c| < buf.Length
    modifies buf
    ensures next == pos + |c| + 1
    ensures buf[..next] == old(buf[..pos]) + c + "/"
  {
    forall k | 0 <= k < |c| {
      buf[pos + k] := c[k];
    }
    buf[pos + |c|] := '/';
    return pos + |c| + 1;
  }

  lemma BelowIsLong(st: seq<string>)
    ensures if st == [] then Below(st) == "" && Render(st) == "/" else |Below(st)| > 0 && Render(st) == Below(st)
  {
  }

  lemma {:induction false} BelowGrows(st: seq<string>, i: nat)
    requires i <= |st|
    ensures |Below(st[..i])| <= |Below(st)|
    decreases |st|
  {
    if i == |st| {
      assert st[..i] == st;
    } else {
      var n := |st| - 1;
      assert st[..n][..i] == st[..i];
      BelowGrows(st[..n], i);
    }
  }

  lemma BelowStep(st: seq<string>, i: nat)
    requires i < |st|
    ensures Below(st[..i + 1]) == Below(st[..i]) + "/" + st[i]
    ensures |Below(st[..i + 1])| <= |Below(st)|
  {
    assert st[..i + 1][..i] == st[..i];
    BelowGrows(st, i + 1);
  }

  /** The second loop: every component followed by a slash, then the last slash dropped. */
  method RenderComponents(comp: array<string>, cnt: nat, buf: array<char>, size: nat) returns (rc: int)
    requires cnt <= comp.Length && 1 <= size <= buf.Length && (cnt == 0 ==> 2 <= buf.Length)
    requires forall i :: 0 <= i < cnt ==> Token(comp[i]) && Plain(comp[i])
    modifies buf
    ensures rc == 0 || rc == -1
    ensures rc == 0 <==> cnt == 0 || |Below(comp[..cnt])| + 2 <= size
    ensures rc == 0 ==> Terminated(buf[..]) && Str(buf[..]) == Render(comp[..cnt])
  {
    ghost var st := comp[..cnt];
    var pos := 0;
    buf[pos] := '/';
    pos := pos + 1;
    var i := 0;
    assert buf[..pos] == Below(st[..0]) + "/";
    hide Below, Render;
    while i < cnt
      invariant 0 <= i <= cnt && comp[..cnt] == st
      invariant pos == |Below(st[..i])| + 1 <= size && (i > 0 ==> pos < size)
      invariant buf[..pos] == Below(st[..i]) + "/" && Plain(buf[..pos])
    {
      BelowStep(st, i);
      var l := |comp[i]|;
      if pos + l + 1 + 1 > size {
        return -1;
      }
      pos := PutComponent(buf, pos, comp[i]);
      i := i + 1;
    }
    assert st[..cnt] == st;
    BelowIsLong(st);
    if pos > 1 {
      pos := pos - 1;
    }
    ghost var text := buf[..pos];
    buf[pos] := NUL;
    assert buf[..][..pos] == text;
    StrIs(buf[..], pos);
    return 0;
  }

  /**
    normalize_path; the result is a function of the string path held on entry, so it
    is the same when both arguments are one buffer.
   */
  method NormalizePath(path: array<char>, buf: array<char>, size: nat) returns (rc: int)
    requires Terminated(path[..]) && size <= buf.Length
    requires buf.Length == 1 ==> !Normalizes(Str(path[..]), size)
    modifies buf
    ensures rc == 0 || rc == -1
    ensures rc == 0 <==> Normalizes(old(Str(path[..])), size)
    ensures rc == 0 ==> Terminated(buf[..]) && Str(buf[..]) == Normal(old(Str(path[..])))
  {
    hide Shallow;
    if size == 0 {
      return -1;
    }
    var n := Length(path);
    if n >= PATH_MAX {
      return -1;
    }
    var tmp := path[..n];
    assert tmp == path[..][..n] == Str(path[..]);
    var comp := new string[COMP_MAX](i => "");
    var cnt := PushComponents(tmp, comp);
    if cnt < 0 {
      return -1;
    }
    rc := RenderComponents(comp, cnt, buf, size);
  }
}
