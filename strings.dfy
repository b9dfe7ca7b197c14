/**
 * The two string operations of Rust's standard library that the program
 * relies on: `str::split_once` with a one-space pattern, and `str::trim`.
 */
module Strings {
  import opened Wrappers

  /**
   * The characters Rust's `char::is_whitespace` accepts: those with the
   * Unicode White_Space property.
   */
  predicate IsWhitespace(ch: char)
  {
    || ('\t' <= ch <= '\r')
    || ch == ' '
    || ch == '\U{85}'
    || ch == '\U{A0}'
    || ch == '\U{1680}'
    || ('\U{2000}' <= ch <= '\U{200A}')
    || ch == '\U{2028}'
    || ch == '\U{2029}'
    || ch == '\U{202F}'
    || ch == '\U{205F}'
    || ch == '\U{3000}'
  }

  predicate AllWhitespace(s: string)
  {
    forall i :: 0 <= i < |s| ==> IsWhitespace(s[i])
  }

  /** Neither the first nor the last character is whitespace. */
  predicate Trimmed(s: string)
  {
    s == [] || (!IsWhitespace(s[0]) && !IsWhitespace(s[|s| - 1]))
  }

  /**
   * `line.split_once(" ")`: the text before the first space and the text
   * after it, or None when the line holds no space.
   */
  function SplitOnce(line: string): (r: Option<(string, string)>)
    ensures r.None? <==> ' ' !in line
    ensures r.Some? ==> ' ' !in r.value.0 && r.value.0 + " " + r.value.1 == line
  {
    if line == [] then None
    else if line[0] == ' ' then Some(([], line[1..]))
    else
      match SplitOnce(line[1..])
      case None => None
      case Some((before, after)) =>
        assert line == [line[0]] + line[1..];
        Some(([line[0]] + before, after))
  }

  /**
   * The split is the only one with a space-free head: splitting the joined
   * pair gives the pair back.
   */
  lemma {:induction false} SplitOnceJoin(before: string, after: string)
    requires ' ' !in before
    ensures SplitOnce(before + " " + after) == Some((before, after))
  {
    var line := before + " " + after;
    if before != [] {
      assert line[0] == before[0];
      assert line[1..] == before[1..] + " " + after;
      SplitOnceJoin(before[1..], after);
      assert [before[0]] + before[1..] == before;
    } else {
      assert line[0] == ' ' && line[1..] == after;
    }
  }

  /** `s.trim_start()`: drops the leading whitespace. */
  function TrimStart(s: string): (r: string)
    ensures |r| <= |s| && r == s[|s| - |r|..]
    ensures r == [] || !IsWhitespace(r[0])
  {
    if s != [] && IsWhitespace(s[0]) then TrimStart(s[1..]) else s
  }

  /** `s.trim_end()`: drops the trailing whitespace. */
  function TrimEnd(s: string): (r: string)
    ensures |r| <= |s| && r == s[..|r|]
    ensures r == [] || !IsWhitespace(r[|r| - 1])
  {
    if s != [] && IsWhitespace(s[|s| - 1]) then TrimEnd(s[..|s| - 1]) else s
  }

  /** `s.trim()`: drops the whitespace at both ends. */
  function Trim(s: string): (r: string)
    ensures Trimmed(r) && |r| <= |s|
  {
    TrimEnd(TrimStart(s))
  }

  /** Trimming the start removes only whitespace. */
  lemma {:induction false} TrimStartIsSuffix(s: string) returns (pre: string)
    ensures s == pre + TrimStart(s) && AllWhitespace(pre)
  {
    if s != [] && IsWhitespace(s[0]) {
      var rest := TrimStartIsSuffix(s[1..]);
      pre := [s[0]] + rest;
      assert s[1..] == rest + TrimStart(s);
      assert s == [s[0]] + s[1..];
      assert s == pre + TrimStart(s);
      forall k | 0 <= k < |pre|
        ensures IsWhitespace(pre[k])
      {
        if k > 0 {
          assert pre[k] == rest[k - 1];
        }
      }
    } else {
      pre := [];
    }
  }

  /** Trimming the end removes only whitespace. */
  lemma {:induction false} TrimEndIsPrefix(s: string) returns (post: string)
    ensures s == TrimEnd(s) + post && AllWhitespace(post)
  {
    if s != [] && IsWhitespace(s[|s| - 1]) {
      var rest := TrimEndIsPrefix(s[..|s| - 1]);
      post := rest + [s[|s| - 1]];
      assert s == s[..|s| - 1] + [s[|s| - 1]];
    } else {
      post := [];
    }
  }

  /** What trim leaves is a piece of `s` with only whitespace around it. */
  lemma TrimIsInfix(s: string) returns (pre: string, post: string)
    ensures s == pre + Trim(s) + post
    ensures AllWhitespace(pre) && AllWhitespace(post)
  {
    pre := TrimStartIsSuffix(s);
    post := TrimEndIsPrefix(TrimStart(s));
  }

  /** Start-trimming skips any whitespace prefix: it trims the rest alone. */
  lemma {:induction false} TrimStartSkips(pre: string, rest: string)
    requires AllWhitespace(pre)
    ensures TrimStart(pre + rest) == TrimStart(rest)
  {
    if pre != [] {
      assert (pre + rest)[1..] == pre[1..] + rest;
      TrimStartSkips(pre[1..], rest);
    } else {
      assert pre + rest == rest;
    }
  }

  /** End-trimming skips any whitespace suffix: it trims the rest alone. */
  lemma {:induction false} TrimEndSkips(rest: string, post: string)
    requires AllWhitespace(post)
    ensures TrimEnd(rest + post) == TrimEnd(rest)
  {
    if post != [] {
      var s := rest + post;
      assert s[|s| - 1] == post[|post| - 1];
      assert s[..|s| - 1] == rest + post[..|post| - 1];
      TrimEndSkips(rest, post[..|post| - 1]);
    } else {
      assert rest + post == rest;
    }
  }

  /**
   * Trim is determined by its contract: whichever whitespace is peeled off
   * the two ends, a trimmed middle is the result.
   */
  lemma TrimUnique(pre: string, mid: string, post: string)
    requires AllWhitespace(pre) && AllWhitespace(post) && Trimmed(mid)
    ensures Trim(pre + mid + post) == mid
  {
    assert pre + mid + post == pre + (mid + post);
    TrimStartSkips(pre, mid + post);
    assert TrimStart(pre + mid + post) == TrimStart(mid + post);
    if mid == [] {
      assert mid + post == post + [];
      TrimStartSkips(post, []);
      assert TrimStart(mid + post) == [];
    } else {
      assert (mid + post)[0] == mid[0];
      assert TrimStart(mid + post) == mid + post;
      TrimEndSkips(mid, post);
    }
  }

  /** Trimming a trimmed string changes nothing. */
  lemma TrimIdempotent(s: string)
    ensures Trim(Trim(s)) == Trim(s)
  {
    var r := Trim(s);
    assert [] + r + [] == r;
    TrimUnique([], r, []);
  }
}
