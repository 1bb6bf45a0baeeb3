/** `fnmatch.fnmatch(name, pattern)` on POSIX: the pattern must match the
    whole name, `*` matches any run of characters (the separator '/'
    included), `?` matches exactly one character, and every other character
    matches itself, case-sensitively. */
module Glob {
  import opened Strings

  function Matches(s: string, p: string): bool
    decreases |p|, |s|
  {
    if p == [] then s == []
    else if p[0] == '*' then Matches(s, p[1..]) || (s != [] && Matches(s[1..], p))
    else s != [] && (p[0] == '?' || p[0] == s[0]) && Matches(s[1..], p[1..])
  }

  /** A pattern with no wildcard in it. */
  predicate Literal(p: string) {
    '*' !in p && '?' !in p
  }

  /** A literal pattern matches exactly the name it spells. */
  lemma {:induction false} LiteralMatchesItself(s: string, p: string)
    requires Literal(p)
    ensures Matches(s, p) <==> s == p
  {
    if p != [] && s != [] {
      LiteralMatchesItself(s[1..], p[1..]);
      assert s == [s[0]] + s[1..] && p == [p[0]] + p[1..];
    }
  }

  /** `*` alone matches every name, the empty one too. */
  lemma {:induction false} StarMatchesAll(s: string)
    ensures Matches(s, "*")
  {
    if s != [] {
      StarMatchesAll(s[1..]);
    }
  }

  /** `*` followed by a literal suffix matches exactly the names that end
      with that suffix, whatever directories they run through. */
  lemma {:induction false} StarSuffix(s: string, suffix: string)
    requires Literal(suffix)
    ensures Matches(s, "*" + suffix) <==> EndsWith(s, suffix)
  {
    var p := "*" + suffix;
    assert p[1..] == suffix;
    LiteralMatchesItself(s, suffix);
    if s != [] {
      StarSuffix(s[1..], suffix);
      if |suffix| <= |s| - 1 {
        assert s[1..][|s| - 1 - |suffix|..] == s[|s| - |suffix|..];
      }
      if |suffix| == |s| {
        assert s[|s| - |suffix|..] == s;
      }
    }
  }

  /** A pattern without `*` only matches names of its own length. */
  lemma {:induction false} NoStarFixesLength(s: string, p: string)
    requires '*' !in p
    requires Matches(s, p)
    ensures |s| == |p|
  {
    if p != [] {
      NoStarFixesLength(s[1..], p[1..]);
    }
  }
}
