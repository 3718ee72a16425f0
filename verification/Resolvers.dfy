/**
  resolve_path of test/test.c, lines 46-75, up to the local path, and its agreement
  with the lexical part of luftpd_resolve_path.
 */
module Resolvers {
  import opened Paths
  import opened CStrings
  import Normalize
  import Luftpd

  datatype Local = Local(path: string) | Refused(code: int)

  /** The client's view of the target, as a normal form. */
  function ClientTarget(cur: string, user: string): Local {
    if !Normalize.Normalizes(cur, PATH_MAX) then Refused(-1)
    else if Absolute(user) then
      if Normalize.Normalizes(user, PATH_MAX) then Local(Normal(user)) else Refused(-1)
    else
      var joined := Normal(cur) + "/" + user;
      if |joined| >= PATH_MAX then Refused(-3)
      else if Normalize.Normalizes(joined, PATH_MAX) then Local(Normal(joined))
      else Refused(-1)
  }

  function AbsLocal(root: string, cur: string, user: string): Local {
    var t := ClientTarget(cur, user);
    if t.Refused? then t
    else if |root| + |t.path| >= PATH_MAX then Refused(-3)
    else Local(root + t.path)
  }

  /** A buffer holding a string, as snprintf with a large enough buffer leaves it. */
  method Printed(s: string) returns (buf: array<char>)
    requires Plain(s) && |s| < PATH_MAX
    ensures fresh(buf) && buf.Length == PATH_MAX && Terminated(buf[..]) && Str(buf[..]) == s
  {
    buf := new char[PATH_MAX](i => NUL);
    Copy(buf, s);
  }

  method ReadBack(buf: array<char>) returns (s: string)
    requires Terminated(buf[..])
    ensures s == Str(buf[..])
  {
    var n := Length(buf);
    assert buf[..n] == buf[..][..n];
    return buf[..n];
  }

  /** Steps 1 to 3 of resolve_path; a relative path is joined and normalised in one buffer. */
  method ResolveLocal(root: string, cur: array<char>, user: array<char>) returns (r: Local)
    requires Plain(root) && Terminated(cur[..]) && Terminated(user[..])
    ensures r == AbsLocal(root, Str(cur[..]), Str(user[..]))
  {
    hide Normalize.Normalizes, Normal;
    var tmp1 := new char[PATH_MAX](i => NUL);
    var rc := Normalize.NormalizePath(cur, tmp1, PATH_MAX);
    if rc != 0 {
      return Refused(-1);
    }
    var tmp2: array<char>;
    if user[0] == '/' {
      tmp2 := new char[PATH_MAX](i => NUL);
      rc := Normalize.NormalizePath(user, tmp2, PATH_MAX);
      if rc != 0 {
        return Refused(-1);
      }
    } else {
      var base := ReadBack(tmp1);
      var given := ReadBack(user);
      var joined := base + "/" + given;
      if |joined| >= PATH_MAX {
        return Refused(-3);
      }
      tmp2 := Printed(joined);
      rc := Normalize.NormalizePath(tmp2, tmp2, PATH_MAX);
      if rc != 0 {
        return Refused(-1);
      }
    }
    var target := ReadBack(tmp2);
    if |root| + |target| >= PATH_MAX {
      return Refused(-3);
    }
    return Local(root + target);
  }

  /** The stack the user path is walked from. */
  function Base(cur: string, user: string): seq<string> {
    if Absolute(user) then [] else Walk([], Split(cur))
  }

  /** The local path is the root followed by the rendering of the clamped walk. */
  lemma AbsLocalIsWalk(root: string, cur: string, user: string)
    ensures var r := AbsLocal(root, cur, user);
      r.Local? ==> r.path == root + Render(Walk(Base(cur, user), Split(user))) && |user| < PATH_MAX
  {
    hide Render, Walk, Split;
    NormalOfJoin(cur, user);
  }

  /** The length of what is normalised last: the absolute user path, or the joined path. */
  function Given(cur: string, user: string): nat {
    if Absolute(user) then |user| else |Normal(cur)| + 1 + |user|
  }

  /**
    resolve_path up to the local path, exactly: the clamped walk under the root, -1 for a
    directory, an absolute path or a target too long to normalise, and -3 for a joined or
    a local path too long for its buffer.
   */
  lemma AbsLocalIsExact(root: string, cur: string, user: string)
    ensures var target := Render(Walk(Base(cur, user), Split(user)));
      AbsLocal(root, cur, user) ==
        if |cur| >= 4096 || |Normal(cur)| > 4094 then Refused(-1)
        else if Given(cur, user) >= 4096 then Refused(if Absolute(user) then -1 else -3)
        else if |target| > 4094 then Refused(-1)
        else if |root| + |target| >= 4096 then Refused(-3)
        else Local(root + target)
  {
    hide Render, Walk, Split, Normalize.Normalizes;
    NormalOfJoin(cur, user);
    Normalize.NormalizesAtPathMax(cur);
    Normalize.NormalizesAtPathMax(user);
    Normalize.NormalizesAtPathMax(Normal(cur) + "/" + user);
  }

  lemma TargetIsShort(cur: string, user: string)
    ensures |Normal(cur)| <= |cur| + 1
    ensures |Render(Walk(Base(cur, user), Split(user)))| <= (if Absolute(user) then 0 else |cur| + 1) + |user| + 1
  {
    hide Split, Walk;
    SpanOfSplit(cur);
    SpanOfSplit(user);
    WalkIsShort([], Split(cur));
    WalkIsShort(Base(cur, user), Split(user));
  }

  /** Whatever is short enough resolves. */
  lemma ShortPathsResolve(root: string, cur: string, user: string)
    requires |root| + |cur| + |user| + 3 < PATH_MAX
    ensures AbsLocal(root, cur, user) == Local(root + Render(Walk(Base(cur, user), Split(user))))
  {
    hide Render, Walk, Split, Normal, AbsLocal, Base;
    TargetIsShort(cur, user);
    AbsLocalIsExact(root, cur, user);
  }

  lemma HostDirectory(root: string, dir: string)
    requires Luftpd.RealPath(root) && root != "/" && Canonical(dir)
    ensures var cur := At(root, Split(dir));
      Luftpd.Admitted(root, cur) && Luftpd.BaseStack(root, cur) == Split(dir) == Walk([], Split(dir))
  {
    CanonicalIffNormal(root);
    var rs, ds := Split(root), Split(dir);
    Luftpd.AtIsCanonical(root, ds);
    Luftpd.ProperAreTokens(rs + ds);
    SplitBelow(rs + ds);
    assert (rs + ds)[|rs|..] == ds;
    WalkPushes([], ds);
    assert [] + ds == ds;
  }

  // ---- Room for every push ----

  lemma AcceptedLengths(root: string, dir: string, user: string)
    requires AbsLocal(root, dir, user).Local?
    ensures if Absolute(user) then |user| < PATH_MAX else |Normal(dir)| + 1 + |user| < PATH_MAX
  {
    hide Normal, Split, Normalize.Shallow;
  }

  lemma BaseIsShort(dir: string, user: string)
    requires Canonical(dir)
    ensures |Paths.Below(Base(dir, user))| <= if Absolute(user) then 0 else |dir|
    ensures Normal(dir) == dir
  {
    CanonicalIffNormal(dir);
  }

  lemma BasePathLength(root: string, base: seq<string>)
    requires root != "/"
    ensures |At(root, base)| == |root| + |Paths.Below(base)|
  {
  }

  /** What resolve_path accepts is within the limits of luftpd_resolve_path too. */
  lemma AcceptedFits(root: string, dir: string, user: string)
    requires Luftpd.RealPath(root) && root != "/" && Canonical(dir)
    requires AbsLocal(root, dir, user).Local?
    ensures |user| < PATH_MAX
    ensures Luftpd.Fits(root, Base(dir, user), Split(user))
  {
    assert |root| < PATH_MAX;
    hide Luftpd.Fits, Luftpd.RealPath, Split, Base, AbsLocal, Canonical, Normal, Paths.Below;
    AcceptedLengths(root, dir, user);
    BaseIsShort(dir, user);
    SpanOfSplit(user);
    BasePathLength(root, Base(dir, user));
    Luftpd.FitsWithin(root, Base(dir, user), Split(user));
  }

  /**
    The two resolvers agree: for a root other than "/", a directory given to one as the
    client sees it and to the other as the host path under the root, and any user path
    that resolve_path accepts, luftpd_resolve_path accepts it too and both name the same
    path, except that resolve_path writes the root itself with a trailing slash.
   */
  lemma ResolversAgree(root: string, dir: string, user: string)
    requires Luftpd.RealPath(root) && root != "/" && Canonical(dir)
    requires AbsLocal(root, dir, user).Local?
    ensures var a, b := Luftpd.Meaning(root, At(root, Split(dir)), user), AbsLocal(root, dir, user).path;
      a.Resolved? && b == if a.path == root then root + "/" else a.path
    ensures Luftpd.Meaning(root, At(root, Split(dir)), user) == Luftpd.Resolved(At(root, Walk(Base(dir, user), Split(user))))
  {
    hide Canonical, Luftpd.BaseStack, Luftpd.Admitted, Luftpd.Fits, AbsLocal;
    HostDirectory(root, dir);
    AbsLocalIsWalk(root, dir, user);
    AcceptedFits(root, dir, user);
    ManyTokensAreShort(user);
    assert Luftpd.Considered(user) == Split(user);
    var t := Walk(Base(dir, user), Split(user));
    if t != [] {
      assert |Paths.Below(t)| > 0;
    }
  }
  /** For every input short enough both resolvers accept and name the clamped walk. */
  lemma ShortPathsAgree(root: string, dir: string, user: string)
    requires Luftpd.RealPath(root) && root != "/" && Canonical(dir)
    requires |root| + |dir| + |user| + 3 < PATH_MAX
    ensures var t := Walk(Base(dir, user), Split(user));
      && Luftpd.Meaning(root, At(root, Split(dir)), user) == Luftpd.Resolved(At(root, t))
      && AbsLocal(root, dir, user) == Local(root + Render(t))
  {
    hide Canonical, Luftpd.BaseStack, Luftpd.Admitted, Luftpd.Fits, AbsLocal, Luftpd.Meaning, Split, Walk;
    ShortPathsResolve(root, dir, user);
    ResolversAgree(root, dir, user);
  }
}
