/** NUL-terminated strings in character arrays, and the C library functions the resolvers call on them. */
module CStrings {
  import opened Paths

  const NUL := '\0'

  predicate Terminated(s: seq<char>) {
    NUL in s
  }

  predicate Plain(s: string) {
    NUL !in s
  }

  function StrLen(s: seq<char>): (n: nat)
    requires Terminated(s)
    ensures n < |s| && s[n] == NUL && NUL !in s[..n]
  {
    if s[0] == NUL then 0
    else
      assert s == [s[0]] + s[1..];
      var n := 1 + StrLen(s[1..]);
      assert s[..n] == [s[0]] + s[1..][..n - 1];
      n
  }

  /** The string a terminated buffer holds. */
  function Str(s: seq<char>): (r: string)
    requires Terminated(s)
    ensures Plain(r)
  {
    s[..StrLen(s)]
  }

  /** The first NUL decides the string. */
  lemma StrIs(s: seq<char>, n: nat)
    requires n < |s| && s[n] == NUL && NUL !in s[..n]
    ensures Terminated(s) && Str(s) == s[..n]
  {
    var m := StrLen(s);
    assert forall i :: 0 <= i < n ==> s[i] == s[..n][i];
    assert forall i :: 0 <= i < m ==> s[i] == s[..m][i];
  }

  /** strlen */
  method Length(buf: array<char>) returns (n: nat)
    requires Terminated(buf[..])
    ensures n == |Str(buf[..])| < buf.Length && buf[n] == NUL
  {
    n := 0;
    while buf[n] != NUL
      invariant n <= StrLen(buf[..])
      decreases buf.Length - n
    {
      n := n + 1;
    }
    StrIs(buf[..], n) by {
      assert NUL !in buf[..n] by {
        assert buf[..n] == buf[..][..StrLen(buf[..])][..n];
      }
    }
    assert buf[..n] == buf[..][..n];
  }

  /** strcpy */
  method Copy(buf: array<char>, s: string)
    requires Plain(s) && |s| < buf.Length
    modifies buf
    ensures Terminated(buf[..]) && Str(buf[..]) == s
  {
    forall i | 0 <= i < |s| {
      buf[i] := s[i];
    }
    buf[|s|] := NUL;
    assert buf[..][..|s|] == s;
    StrIs(buf[..], |s|);
  }

  /** strcat */
  method Append(buf: array<char>, s: string)
    requires Terminated(buf[..]) && Plain(s) && |Str(buf[..])| + |s| < buf.Length
    modifies buf
    ensures Terminated(buf[..]) && Str(buf[..]) == old(Str(buf[..])) + s
  {
    var n := Length(buf);
    ghost var before := Str(buf[..]);
    forall i | 0 <= i < |s| {
      buf[n + i] := s[i];
    }
    buf[n + |s|] := NUL;
    assert buf[..][..n + |s|] == before + s;
    StrIs(buf[..], n + |s|);
  }

  /** Writes the terminator at position i of the string. */
  method Cut(buf: array<char>, i: nat)
    requires Terminated(buf[..]) && i <= |Str(buf[..])|
    modifies buf
    ensures Terminated(buf[..]) && Str(buf[..]) == old(Str(buf[..]))[..i]
  {
    ghost var before := Str(buf[..]);
    buf[i] := NUL;
    assert buf[..][..i] == before[..i];
    assert NUL !in before[..i];
    StrIs(buf[..], i);
  }

  /** strrchr(buf, '/') */
  method FindLastSlash(buf: array<char>) returns (k: int)
    requires Terminated(buf[..])
    ensures k == -1 <==> '/' !in Str(buf[..])
    ensures k != -1 ==> 0 <= k && k == LastSlash(Str(buf[..]))
  {
    k := -1;
    var n := Length(buf);
    ghost var s := Str(buf[..]);
    var i := 0;
    while i < n
      invariant 0 <= i <= n
      invariant -1 <= k < i && (k == -1 ==> '/' !in s[..i])
      invariant k != -1 ==> s[k] == '/' && forall j :: k < j < i ==> s[j] != '/'
    {
      if buf[i] == '/' {
        k := i;
      }
      assert s[..i + 1] == s[..i] + [s[i]];
      i := i + 1;
    }
    assert s[..n] == s;
    if k != -1 {
      var l := LastSlash(s);
      assert forall j :: l < j < |s| ==> s[j] == s[l + 1..][j - l - 1];
    }
  }

  /** strncmp(buf, s, strlen(s)) == 0 */
  method HasPrefix(buf: array<char>, s: string) returns (ok: bool)
    requires Terminated(buf[..]) && Plain(s)
    ensures ok <==> s <= Str(buf[..])
  {
    var n := Length(buf);
    var i := 0;
    while i < |s|
      invariant 0 <= i <= |s| && i <= n && s[..i] == Str(buf[..])[..i]
    {
      if buf[i] != s[i] {
        return false;
      }
      i := i + 1;
    }
    return true;
  }

  lemma {:induction false} SplitSkips(s: string, n: nat)
    requires n <= |s| && forall i :: 0 <= i < n ==> s[i] == '/'
    ensures Split(s) == Split(s[n..])
    decreases n
  {
    if n > 0 {
      SplitSkips(s[1..], n - 1);
      assert s[1..][n - 1..] == s[n..];
    } else {
      assert s[0..] == s;
    }
  }

  lemma {:induction false} FirstSlashIs(s: string, n: nat)
    requires n <= |s| && (n < |s| ==> s[n] == '/') && forall i :: 0 <= i < n ==> s[i] != '/'
    ensures FirstSlash(s) == n
  {
    if n > 0 {
      FirstSlashIs(s[1..], n - 1);
    }
  }

  /** strtok with delimiter "/": the next token and what follows it; no token at all leaves "". */
  method NextToken(s: string) returns (token: string, rest: string)
    ensures token == "" <==> Split(s) == []
    ensures token != "" ==> Split(s) == [token] + Split(rest) && Token(token)
    ensures |token| + |rest| <= |s|
    ensures Plain(s) ==> Plain(token) && Plain(rest)
  {
    var i := 0;
    while i < |s| && s[i] == '/'
      invariant 0 <= i <= |s| && forall k :: 0 <= k < i ==> s[k] == '/'
    {
      i := i + 1;
    }
    SplitSkips(s, i);
    if i == |s| {
      return "", "";
    }
    var j := i;
    while j < |s| && s[j] != '/'
      invariant i <= j <= |s| && forall k :: i <= k < j ==> s[k] != '/'
    {
      j := j + 1;
    }
    FirstSlashIs(s[i..], j - i);
    assert s[i..][..j - i] == s[i..j] && s[i..][j - i..] == s[j..];
    token, rest := s[i..j], s[j..];
  }
}
