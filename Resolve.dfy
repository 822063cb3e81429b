/**
 * Normalising the configured directory strings at start-up: trim white
 * space, replace every `~` by the current user's home directory when the
 * string holds one, and make the result absolute.  Each failure is fatal.
 */
module Resolve {
  import opened Wrappers
  import opened Paths

  /** Go's `unicode.IsSpace`: the Latin-1 spaces and the other White_Space code points. */
  predicate IsSpace(c: char)
  {
    || c == '\t' || c == '\n' || c == '\U{0B}' || c == '\U{0C}' || c == '\r' || c == ' '
    || c == '\U{85}' || c == '\U{A0}' || c == '\U{1680}'
    || ('\U{2000}' <= c <= '\U{200A}')
    || c == '\U{2028}' || c == '\U{2029}' || c == '\U{202F}' || c == '\U{205F}' || c == '\U{3000}'
  }

  predicate AllSpace(s: string)
  {
    forall i :: 0 <= i < |s| ==> IsSpace(s[i])
  }

  /** The length of the leading run of white space. */
  function LeadingSpaces(s: string): (n: nat)
    ensures n <= |s|
    ensures forall k :: 0 <= k < n ==> IsSpace(s[k])
    ensures n < |s| ==> !IsSpace(s[n])
  {
    if s == [] || !IsSpace(s[0]) then 0 else 1 + LeadingSpaces(s[1..])
  }

  /** The length of the trailing run of white space. */
  function TrailingSpaces(s: string): (n: nat)
    ensures n <= |s|
    ensures forall k :: |s| - n <= k < |s| ==> IsSpace(s[k])
    ensures n < |s| ==> !IsSpace(s[|s| - n - 1])
  {
    if s == [] || !IsSpace(s[|s| - 1]) then 0 else 1 + TrailingSpaces(s[..|s| - 1])
  }

  /** `strings.TrimSpace`: drop the leading and then the trailing run of white space. */
  function TrimSpace(s: string): string
  {
    var i := LeadingSpaces(s);
    s[i..|s| - TrailingSpaces(s[i..])]
  }

  /**
   * The trimmed string is the middle part of `s` between a leading and a
   * trailing run of white space, and starts and ends with a non-space.
   */
  lemma TrimSpaceMiddle(s: string)
    ensures var r := TrimSpace(s);
            exists i :: 0 <= i <= |s| - |r| && r == s[i..i + |r|] && AllSpace(s[..i]) && AllSpace(s[i + |r|..])
    ensures var r := TrimSpace(s);
            r == [] || (!IsSpace(r[0]) && !IsSpace(r[|r| - 1]))
  {
    var i := LeadingSpaces(s);
    var t := s[i..];
    var m := TrailingSpaces(t);
    var j := |s| - m;
    assert forall k :: j <= k < |s| ==> s[k] == t[k - i];
    assert AllSpace(s[..i]);
    assert AllSpace(s[j..]);
    assert TrimSpace(s) == s[i..j];
    if i < j {
      assert s[i..j][0] == s[i];
      assert s[i..j][j - i - 1] == t[|t| - m - 1];
    }
  }

  /** Trimming is idempotent: a trimmed string has nothing left to trim. */
  lemma TrimSpaceIdempotent(s: string)
    ensures TrimSpace(TrimSpace(s)) == TrimSpace(s)
  {
    var r := TrimSpace(s);
    TrimSpaceMiddle(s);
    assert LeadingSpaces(r) == 0;
    assert r[0..] == r;
    assert TrailingSpaces(r) == 0;
  }

  /** `strings.ReplaceAll(s, string(c), rep)`: every `c` becomes `rep`, everything else stays. */
  function ReplaceAll(s: string, c: char, rep: string): string
  {
    if s == [] then []
    else (if s[0] == c then rep else [s[0]]) + ReplaceAll(s[1..], c, rep)
  }

  /**
   * A string without `c` is unchanged, no `c` survives a replacement that
   * holds none, and every character of the result comes from `s` or `rep`.
   */
  lemma {:induction false} ReplaceAllChars(s: string, c: char, rep: string)
    ensures c !in s ==> ReplaceAll(s, c, rep) == s
    ensures c !in rep ==> c !in ReplaceAll(s, c, rep)
    ensures forall x :: x in ReplaceAll(s, c, rep) ==> x in s || x in rep
    decreases |s|
  {
    if s != [] {
      ReplaceAllChars(s[1..], c, rep);
      var head := if s[0] == c then rep else [s[0]];
      assert ReplaceAll(s, c, rep) == head + ReplaceAll(s[1..], c, rep);
      assert forall x :: x in s[1..] ==> x in s;
      if c !in s {
        assert s == [s[0]] + s[1..];
      }
    }
  }

  /** Replacement works piece by piece: it distributes over concatenation. */
  lemma {:induction false} ReplaceAllAppend(a: string, b: string, c: char, rep: string)
    ensures ReplaceAll(a + b, c, rep) == ReplaceAll(a, c, rep) + ReplaceAll(b, c, rep)
    decreases |a|
  {
    if a == [] {
      assert a + b == b;
    } else {
      assert (a + b)[1..] == a[1..] + b;
      ReplaceAllAppend(a[1..], b, c, rep);
    }
  }

  function Count(s: string, c: char): nat
  {
    if s == [] then 0 else (if s[0] == c then 1 else 0) + Count(s[1..], c)
  }

  /** Each occurrence of `c` trades one character for the whole of `rep`. */
  lemma {:induction false} ReplaceAllLength(s: string, c: char, rep: string)
    ensures |ReplaceAll(s, c, rep)| == |s| + Count(s, c) * (|rep| - 1)
    decreases |s|
  {
    if s != [] {
      ReplaceAllLength(s[1..], c, rep);
      var n, k := Count(s[1..], c), |rep| - 1;
      var head := if s[0] == c then rep else [s[0]];
      assert ReplaceAll(s, c, rep) == head + ReplaceAll(s[1..], c, rep);
      assert |ReplaceAll(s, c, rep)| == |head| + |s| - 1 + n * k;
      if s[0] == c {
        assert Count(s, c) == n + 1;
        assert (n + 1) * k == n * k + k;
      } else {
        assert Count(s, c) == n;
      }
    }
  }

  datatype StartupError =
    | NoHomeDirectory(dir: string)   // `user.Current()` failed
    | NotAbsolute(dir: string)       // `filepath.Abs` failed

  /**
   * Trimming and home substitution for one configured string.  `home` is
   * what `user.Current()` reports, `None` when it fails; it is consulted
   * only when the trimmed string holds a `~`.
   */
  function ExpandHome(raw: string, home: Option<string>): (r: Result<string, StartupError>)
    ensures '~' !in TrimSpace(raw) ==> r == Success(TrimSpace(raw))
    ensures r.Failure? <==> '~' in TrimSpace(raw) && home.None?
    ensures r.Success? && home.Some? && '~' !in home.value ==> '~' !in r.value
    ensures r.Success? ==> forall x :: x in r.value ==> x in TrimSpace(raw) || (home.Some? && x in home.value)
  {
    var t := TrimSpace(raw);
    if '~' in t then
      match home
      case None => Failure(NoHomeDirectory(t))
      case Some(h) =>
        ReplaceAllChars(t, '~', h);
        Success(ReplaceAll(t, '~', h))
    else Success(t)
  }

  /** One configured directory: trim, substitute `~`, then `filepath.Abs` (the parameter `abs`). */
  function ResolveDirectory(raw: string, home: Option<string>, abs: string -> Option<Path>): Result<Path, StartupError>
  {
    match ExpandHome(raw, home)
    case Failure(e) => Failure(e)
    case Success(s) =>
      match abs(s)
      case None => Failure(NotAbsolute(s))
      case Some(p) => Success(p)
  }

  /**
   * Resolving the configured directories in order with `resolve` (for the
   * program, `ResolveDirectory` with the home directory and `filepath.Abs`
   * fixed); the first failure is the result.
   */
  function ResolveAll(raw: seq<string>, resolve: string -> Result<Path, StartupError>): Result<seq<Path>, StartupError>
  {
    if raw == [] then Success([])
    else match ResolveAll(raw[..|raw| - 1], resolve)
      case Failure(e) => Failure(e)
      case Success(ps) =>
        match resolve(raw[|raw| - 1])
        case Failure(e) => Failure(e)
        case Success(p) => Success(ps + [p])
  }

  /**
   * Start-up succeeds exactly when every configured directory resolves, and
   * then yields each one's resolution in place.
   */
  lemma {:induction false} ResolveAllSucceeds(raw: seq<string>, resolve: string -> Result<Path, StartupError>)
    ensures ResolveAll(raw, resolve).Success? <==> forall i :: 0 <= i < |raw| ==> resolve(raw[i]).Success?
    ensures ResolveAll(raw, resolve).Success? ==>
              |ResolveAll(raw, resolve).value| == |raw| &&
              forall i :: 0 <= i < |raw| ==> Success(ResolveAll(raw, resolve).value[i]) == resolve(raw[i])
  {
    if raw != [] {
      var n := |raw| - 1;
      var init := raw[..n];
      ResolveAllSucceeds(init, resolve);
      assert forall i :: 0 <= i < n ==> init[i] == raw[i];
      var before := ResolveAll(init, resolve);
      if before.Success? && resolve(raw[n]).Success? {
        assert ResolveAll(raw, resolve).value == before.value + [resolve(raw[n]).value];
      } else if before.Failure? {
        var i :| 0 <= i < n && resolve(init[i]).Failure?;
        assert resolve(raw[i]).Failure?;
      }
    }
  }

  /** Otherwise it reports the error of the first directory that does not resolve. */
  lemma {:induction false} ResolveAllFails(raw: seq<string>, resolve: string -> Result<Path, StartupError>)
    requires ResolveAll(raw, resolve).Failure?
    ensures exists i :: 0 <= i < |raw| && resolve(raw[i]) == Failure(ResolveAll(raw, resolve).error) &&
                        forall j :: 0 <= j < i ==> resolve(raw[j]).Success?
  {
    var n := |raw| - 1;
    var init := raw[..n];
    var before := ResolveAll(init, resolve);
    assert forall i :: 0 <= i < n ==> init[i] == raw[i];
    if before.Failure? {
      ResolveAllFails(init, resolve);
      var i :| 0 <= i < n && resolve(init[i]) == Failure(before.error) &&
               forall j :: 0 <= j < i ==> resolve(init[j]).Success?;
      assert resolve(raw[i]) == Failure(ResolveAll(raw, resolve).error);
    } else {
      ResolveAllSucceeds(init, resolve);
      assert resolve(raw[n]) == Failure(ResolveAll(raw, resolve).error);
    }
  }

  /** Once a prefix fails, the whole list fails with the same error. */
  lemma {:induction false} ResolvePrefixFails(raw: seq<string>, i: int, resolve: string -> Result<Path, StartupError>)
    requires 0 <= i <= |raw|
    requires ResolveAll(raw[..i], resolve).Failure?
    ensures ResolveAll(raw, resolve) == ResolveAll(raw[..i], resolve)
    decreases |raw| - i
  {
    if i < |raw| {
      var init := raw[..|raw| - 1];
      assert init[..i] == raw[..i];
      ResolvePrefixFails(init, i, resolve);
    } else {
      assert raw[..i] == raw;
    }
  }

  /**
   * The start-up loop over the configured directories: each is resolved in
   * place, and the first one that fails stops the program.
   */
  method ResolveDirectories(raw: seq<string>, home: Option<string>, abs: string -> Option<Path>)
    returns (r: Result<seq<Path>, StartupError>)
    ensures r == ResolveAll(raw, s => ResolveDirectory(s, home, abs))
  {
    ghost var resolve := s => ResolveDirectory(s, home, abs);
    var directories: seq<Path> := [];
    for i := 0 to |raw|
      invariant ResolveAll(raw[..i], resolve) == Success(directories)
    {
      assert raw[..i + 1][..i] == raw[..i];
      var expanded := ExpandHome(raw[i], home);
      var absolute := if expanded.Success? then abs(expanded.value) else None;
      if expanded.Failure? || absolute.None? {
        var err := if expanded.Failure? then expanded.error else NotAbsolute(expanded.value);
        assert resolve(raw[i]) == Failure(err);
        assert ResolveAll(raw[..i + 1], resolve) == Failure(err);
        ResolvePrefixFails(raw, i + 1, resolve);
        return Failure(err);
      }
      assert resolve(raw[i]) == Success(absolute.value);
      directories := directories + [absolute.value];
    }
    assert raw[..|raw|] == raw;
    r := Success(directories);
  }
}
