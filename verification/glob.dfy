/** File-name matching against a list of glob patterns (`matchPattern`). The
    glob matcher of Go's `path/filepath` is a library routine, so it enters
    the model as a parameter returning what `filepath.Match` returns. */
module Glob {

  /** The pair `(matched, err)` returned by `filepath.Match`; `bad` stands for
      a non-nil error (a malformed pattern). */
  datatype GlobResult = GlobResult(matched: bool, bad: bool)

  /** A glob matcher: pattern first, base name second. */
  type Matcher = (string, string) -> GlobResult

  /** One pattern accepts a name when the matcher reports a match and no error. */
  predicate Accepts(glob: Matcher, pattern: string, name: string) {
    var g := glob(pattern, name);
    !g.bad && g.matched
  }

  /** `matchPattern`: try the patterns in order and stop at the first that
      accepts the name; a malformed pattern simply fails to accept. */
  function MatchPattern(glob: Matcher, name: string, patterns: seq<string>): (r: bool)
    ensures r <==> exists i :: 0 <= i < |patterns| && Accepts(glob, patterns[i], name)
  {
    if |patterns| == 0 then false
    else if Accepts(glob, patterns[0], name) then true
    else MatchPattern(glob, name, patterns[1..])
  }

  /** Matching against a concatenation is the disjunction of the parts. */
  lemma {:induction false} MatchPatternAppend(glob: Matcher, name: string, ps: seq<string>, qs: seq<string>)
    ensures MatchPattern(glob, name, ps + qs) == (MatchPattern(glob, name, ps) || MatchPattern(glob, name, qs))
  {
    if MatchPattern(glob, name, ps + qs) {
      var i :| 0 <= i < |ps + qs| && Accepts(glob, (ps + qs)[i], name);
      if i >= |ps| {
        assert qs[i - |ps|] == (ps + qs)[i];
      }
    }
    if MatchPattern(glob, name, ps) {
      var i :| 0 <= i < |ps| && Accepts(glob, ps[i], name);
      assert (ps + qs)[i] == ps[i];
    }
    if MatchPattern(glob, name, qs) {
      var i :| 0 <= i < |qs| && Accepts(glob, qs[i], name);
      assert (ps + qs)[|ps| + i] == qs[i];
    }
  }

  /** A malformed pattern neither matches nor stops the later patterns from
      being tried: removing it changes nothing. */
  lemma MalformedPatternIgnored(glob: Matcher, name: string, ps: seq<string>, k: nat)
    requires k < |ps| && glob(ps[k], name).bad
    ensures MatchPattern(glob, name, ps) == MatchPattern(glob, name, ps[..k] + ps[k + 1..])
  {
    assert ps == ps[..k] + [ps[k]] + ps[k + 1..];
    MatchPatternAppend(glob, name, ps[..k] + [ps[k]], ps[k + 1..]);
    MatchPatternAppend(glob, name, ps[..k], [ps[k]]);
    MatchPatternAppend(glob, name, ps[..k], ps[k + 1..]);
  }

  /** The order and repetition of patterns have no effect on the answer. */
  lemma MatchPatternSetwise(glob: Matcher, name: string, ps: seq<string>, qs: seq<string>)
    requires forall p :: p in ps <==> p in qs
    ensures MatchPattern(glob, name, ps) == MatchPattern(glob, name, qs)
  {
    if MatchPattern(glob, name, ps) {
      var i :| 0 <= i < |ps| && Accepts(glob, ps[i], name);
      assert ps[i] in qs;
    }
    if MatchPattern(glob, name, qs) {
      var i :| 0 <= i < |qs| && Accepts(glob, qs[i], name);
      assert qs[i] in ps;
    }
  }

  // A stand-in for `filepath.Match` on the wildcard subset of its syntax.

  /** Characters with a special meaning in a glob pattern. */
  predicate IsMeta(c: char) {
    c == '*' || c == '?' || c == '[' || c == '\\'
  }

  predicate IsLiteral(s: string) {
    forall i :: 0 <= i < |s| ==> !IsMeta(s[i])
  }

  /** Shell wildcard matching: `*` matches any run of non-separator
      characters, `?` exactly one, everything else itself. */
  predicate Wildcard(p: string, s: string)
    decreases |p| + |s|
  {
    if |p| == 0 then |s| == 0
    else if p[0] == '*' then
      Wildcard(p[1..], s) || (|s| > 0 && s[0] != '/' && Wildcard(p, s[1..]))
    else if |s| == 0 then false
    else if p[0] == '?' then s[0] != '/' && Wildcard(p[1..], s[1..])
    else p[0] == s[0] && Wildcard(p[1..], s[1..])
  }

  /** The stand-in matcher. Character classes and escapes are outside what it
      models, so a pattern using `[` or `\` is reported as an error. */
  function WildcardMatch(pattern: string, name: string): (g: GlobResult)
    ensures g.bad <==> '[' in pattern || '\\' in pattern
    ensures g.matched ==> !g.bad
  {
    if '[' in pattern || '\\' in pattern then GlobResult(false, true)
    else GlobResult(Wildcard(pattern, name), false)
  }

  /** A literal pattern matches only itself. */
  lemma {:induction false} LiteralMatchesItself(lit: string, s: string)
    requires IsLiteral(lit)
    ensures Wildcard(lit, s) <==> s == lit
    decreases |lit|
  {
    if |lit| > 0 && |s| > 0 {
      LiteralMatchesItself(lit[1..], s[1..]);
      assert s == [s[0]] + s[1..] && lit == [lit[0]] + lit[1..];
    }
  }

  /** `name` ends with `lit` and holds no separator before it. */
  predicate EndsWithLiteral(lit: string, s: string) {
    |lit| <= |s| && s[|s| - |lit|..] == lit && '/' !in s[..|s| - |lit|]
  }

  /** The recurrence `*` follows: either the rest is exactly the literal, or
      one non-separator character is consumed first. */
  lemma EndsWithLiteralStep(lit: string, s: string)
    ensures EndsWithLiteral(lit, s) <==>
      s == lit || (|s| > 0 && s[0] != '/' && EndsWithLiteral(lit, s[1..]))
  {
    if |s| > 0 && |lit| <= |s| - 1 {
      assert s[1..][|s| - 1 - |lit|..] == s[|s| - |lit|..];
      assert s[..|s| - |lit|] == [s[0]] + s[1..][..|s| - 1 - |lit|];
    }
    if |lit| == |s| {
      assert s[..|s| - |lit|] == [];
      assert s[|s| - |lit|..] == s;
    }
  }

  /** `*` followed by a literal suffix: the name ends with the suffix and the
      part before it holds no separator. */
  lemma {:induction false} StarSuffix(lit: string, s: string)
    requires IsLiteral(lit)
    ensures Wildcard(['*'] + lit, s) <==> EndsWithLiteral(lit, s)
    decreases |s|
  {
    var p := ['*'] + lit;
    assert p[0] == '*' && p[1..] == lit;
    assert Wildcard(p, s) <==> Wildcard(lit, s) || (|s| > 0 && s[0] != '/' && Wildcard(p, s[1..]));
    LiteralMatchesItself(lit, s);
    EndsWithLiteralStep(lit, s);
    if |s| > 0 {
      StarSuffix(lit, s[1..]);
    }
  }

  /** So `*` plus a literal can only match a name that ends with the
      literal's last character. */
  lemma StarSuffixLastChar(lit: string, s: string)
    requires IsLiteral(lit) && |lit| > 0
    ensures Wildcard(['*'] + lit, s) ==> |s| > 0 && s[|s| - 1] == lit[|lit| - 1]
  {
    StarSuffix(lit, s);
    if Wildcard(['*'] + lit, s) {
      assert s[|s| - |lit|..][|lit| - 1] == s[|s| - 1];
    }
  }
}
