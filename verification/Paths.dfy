/** Path strings: the last-slash split of get_name_from_path and the strtok tokens of the path walk. */
module Paths {
  import opened Layout

  type Path = seq<string>

  /** Names the kernel hands down: 1..115 characters, no slash, no NUL, and neither dot name. */
  predicate LegalName(n: string) {
    1 <= |n| < FNAME_SIZE && '/' !in n && '\0' !in n && n != "." && n != ".."
  }

  ghost predicate LegalPath(p: Path) {
    forall n :: n in p ==> LegalName(n)
  }

  function LastSlash(path: string): (k: nat)
    requires '/' in path
    ensures k < |path| && path[k] == '/' && '/' !in path[k + 1..]
  {
    var n := |path| - 1;
    if path[n] == '/' then n
    else
      assert path == path[..n] + [path[n]];
      LastSlash(path[..n])
  }

  function DirName(path: string): string
    requires '/' in path
  {
    path[..LastSlash(path)]
  }

  function BaseName(path: string): string
    requires '/' in path
  {
    path[LastSlash(path) + 1..]
  }

  /** A path string that do_path_check accepts and whose two parts fit their buffers. */
  predicate PathFits(path: string) {
    '/' in path && '\0' !in path && |DirName(path)| < FNAME_SIZE && |BaseName(path)| < FNAME_SIZE
  }

  /** The length of the longest slash-free prefix. */
  function Span(s: string): (k: nat)
    ensures k <= |s| && '/' !in s[..k] && (k < |s| ==> s[k] == '/')
  {
    if s == "" || s[0] == '/' then 0
    else
      var k := Span(s[1..]);
      assert s[..k + 1] == [s[0]] + s[1..][..k];
      k + 1
  }

  /** What repeated strtok(_, "/") calls return: the maximal slash-free runs. */
  function Tokens(s: string): Path
    decreases |s|
  {
    if s == "" then []
    else if s[0] == '/' then Tokens(s[1..])
    else [s[..Span(s)]] + Tokens(s[Span(s)..])
  }

  /** A name without a slash is its own token. */
  lemma TokensOfName(name: string)
    requires '/' !in name
    ensures Tokens(name) == if name == "" then [] else [name]
  {
    if name != "" {
      SpanIs(name, |name|);
      assert name[..|name|] == name && name[|name|..] == "";
    }
  }

  lemma NoSlashBetween(s: string, lo: nat, hi: nat)
    requires lo <= hi <= |s| && '/' !in s[lo..hi]
    ensures forall j :: lo <= j < hi ==> s[j] != '/'
  {
    forall j | lo <= j < hi
      ensures s[j] != '/'
    {
      assert s[lo..hi][j - lo] == s[j];
    }
  }

  lemma SpanIs(s: string, k: nat)
    requires k <= |s| && '/' !in s[..k] && (k < |s| ==> s[k] == '/')
    ensures Span(s) == k
  {
    NoSlashBetween(s, 0, k);
    NoSlashBetween(s, 0, Span(s));
  }

  lemma {:induction false} TokensJoin(d: string, f: string)
    requires f != "" && '/' !in f
    ensures Tokens(d + "/" + f) == Tokens(d) + [f]
    decreases |d|
  {
    var p := d + "/" + f;
    if d == "" {
      assert p[0] == '/' && p[1..] == f;
      SpanIs(f, |f|);
      assert f[..|f|] == f && f[|f|..] == "";
      assert Tokens(f) == [f] + Tokens("");
    } else if d[0] == '/' {
      assert p[1..] == d[1..] + "/" + f;
      TokensJoin(d[1..], f);
    } else {
      var k := Span(d);
      assert p[..k] == d[..k];
      SpanIs(p, k);
      assert p[k..] == d[k..] + "/" + f;
      TokensJoin(d[k..], f);
    }
  }

  lemma {:induction false} TokensTrailing(d: string)
    ensures Tokens(d + "/") == Tokens(d)
    decreases |d|
  {
    var p := d + "/";
    if d == "" {
    } else if d[0] == '/' {
      assert p[1..] == d[1..] + "/";
      TokensTrailing(d[1..]);
    } else {
      var k := Span(d);
      assert p[..k] == d[..k];
      SpanIs(p, k);
      assert p[k..] == d[k..] + "/";
      TokensTrailing(d[k..]);
    }
  }

  /** The split and the walk agree: whatever slashes repeat, the walk over a path is the walk over
      its directory part followed by its base name, when there is one. */
  lemma SplitAgreesWithTokens(path: string)
    requires '/' in path
    ensures path == DirName(path) + "/" + BaseName(path) && '/' !in BaseName(path)
    ensures Tokens(path) == Tokens(DirName(path)) + (if BaseName(path) == "" then [] else [BaseName(path)])
  {
    if BaseName(path) == "" {
      assert path == DirName(path) + "/";
      TokensTrailing(DirName(path));
    } else {
      TokensJoin(DirName(path), BaseName(path));
    }
  }

  /** A split is determined by having a slash-free second part. */
  lemma SplitIs(path: string, k: nat)
    requires k < |path| && path[k] == '/' && '/' !in path[k + 1..]
    ensures LastSlash(path) == k
  {
    NoSlashBetween(path, k + 1, |path|);
    NoSlashBetween(path, LastSlash(path) + 1, |path|);
  }

  /** strchr: the first slash at or after `from`. */
  method StrChr(path: string, from: nat) returns (at: Option<nat>)
    requires from <= |path|
    ensures at.Some? ==> from <= at.value < |path| && path[at.value] == '/' && '/' !in path[from..at.value]
    ensures at.None? ==> '/' !in path[from..]
  {
    var i := from;
    while i < |path|
      invariant from <= i <= |path| && '/' !in path[from..i]
    {
      if path[i] == '/' { return Some(i); }
      i := i + 1;
    }
    assert path[from..] == path[from..i];
    at := None;
  }

  /** get_name_from_path. */
  method GetNameFromPath(path: string) returns (fName: string, dName: string)
    requires PathFits(path)
    ensures fName == BaseName(path) && dName == DirName(path)
  {
    var fPtr := 0;
    var more := true;
    fName := "";
    while more
      invariant 0 <= fPtr <= |path|
      invariant fPtr > 0 ==> path[fPtr - 1] == '/'
      invariant !more ==> fName == path[fPtr..] && '/' !in fName
      decreases more, |path| - fPtr
    {
      var slash := StrChr(path, fPtr);
      if slash.None? {
        fName := path[fPtr..];
        more := false;
      } else {
        fPtr := slash.value + 1;
      }
    }
    assert fPtr == 0 ==> fName == path;
    SplitIs(path, fPtr - 1);
    dName := path[..fPtr - 1];
  }

  lemma TokensStep(s: string, start: nat, next: nat)
    requires start < next <= |s| && '/' !in s[start..next] && (next < |s| ==> s[next] == '/')
    ensures Tokens(s[start..]) == [s[start..next]] + Tokens(s[next..])
  {
    var rest := s[start..];
    assert rest[..next - start] == s[start..next] && rest[next - start..] == s[next..];
    SpanIs(rest, next - start);
    NoSlashBetween(s, start, next);
  }

  lemma TokensSkip(s: string, start: nat)
    requires start < |s| && s[start] == '/'
    ensures Tokens(s[start..]) == Tokens(s[start + 1..])
  {
    assert s[start..][1..] == s[start + 1..];
  }

  lemma NoTokens(s: string)
    ensures Tokens(s[|s|..]) == []
  {
  }

  /** The token is the maximal slash-free run that ends at `next`, and only slashes come before it. */
  ghost predicate NextRun(s: string, pos: nat, token: string, next: nat) {
    && token != "" && pos + |token| <= next <= |s|
    && (forall i :: pos <= i < next - |token| ==> s[i] == '/')
    && s[next - |token|..next] == token && '/' !in token
    && (next < |s| ==> s[next] == '/')
  }

  /** strtok: the next token at or after `pos`, and where to go on. */
  method StrTok(s: string, pos: nat) returns (token: Option<string>, next: nat)
    requires pos <= |s|
    ensures pos <= next <= |s|
    ensures token.None? ==> Tokens(s[pos..]) == [] && forall i :: pos <= i < |s| ==> s[i] == '/'
    ensures token.Some? ==> pos < next && Tokens(s[pos..]) == [token.value] + Tokens(s[next..])
    ensures token.Some? ==> NextRun(s, pos, token.value, next)
  {
    hide Span, Tokens;
    var start := pos;
    while start < |s| && s[start] == '/'
      invariant pos <= start <= |s| && forall i :: pos <= i < start ==> s[i] == '/'
      invariant Tokens(s[pos..]) == Tokens(s[start..])
    {
      TokensSkip(s, start);
      start := start + 1;
    }
    if start == |s| {
      NoTokens(s);
      return None, start;
    }
    next := start;
    while next < |s| && s[next] != '/'
      invariant start <= next <= |s|
      invariant '/' !in s[start..next]
    {
      assert s[start..next + 1] == s[start..next] + [s[next]];
      next := next + 1;
    }
    TokensStep(s, start, next);
    token := Some(s[start..next]);
    assert next - |token.value| == start;
  }
}
