/** The few operations of Go's `strings` package that FapFinder relies on,
    over strings modelled as sequences of Unicode scalar values. */
module GoStrings {

  /** Go's `<` on strings compares UTF-8 bytes. UTF-8 preserves the order of
      code points, so comparing characters lexicographically gives the same
      answer. */
  predicate Less(a: string, b: string)
    decreases |a|
  {
    if |a| == 0 then |b| > 0
    else if |b| == 0 then false
    else if a[0] != b[0] then a[0] < b[0]
    else Less(a[1..], b[1..])
  }

  lemma {:induction false} LessAsymmetric(a: string, b: string)
    ensures Less(a, b) ==> !Less(b, a)
    decreases |a|
  {
    if |a| > 0 && |b| > 0 && a[0] == b[0] {
      LessAsymmetric(a[1..], b[1..]);
    }
  }

  lemma {:induction false} LessTransitive(a: string, b: string, c: string)
    requires Less(a, b) && Less(b, c)
    ensures Less(a, c)
    decreases |a|
  {
    if |a| > 0 && a[0] == b[0] && b[0] == c[0] {
      LessTransitive(a[1..], b[1..], c[1..]);
    }
  }

  /** Distinct strings are always ordered one way or the other. */
  lemma {:induction false} LessTotal(a: string, b: string)
    requires a != b
    ensures Less(a, b) || Less(b, a)
    decreases |a|
  {
    if |a| > 0 && |b| > 0 && a[0] == b[0] {
      assert a == [a[0]] + a[1..] && b == [b[0]] + b[1..];
      LessTotal(a[1..], b[1..]);
    }
  }

  /** A proper prefix sorts before the longer string. */
  lemma {:induction false} PrefixIsLess(a: string, b: string)
    requires |a| < |b| && a == b[..|a|]
    ensures Less(a, b)
    decreases |a|
  {
    if |a| > 0 {
      assert a[1..] == b[1..][..|a| - 1];
      PrefixIsLess(a[1..], b[1..]);
    }
  }

  /** Past a common prefix of length `k`, the first differing character decides. */
  lemma {:induction false} FirstDifferenceDecides(a: string, b: string, k: nat)
    requires k < |a| && k < |b| && a[..k] == b[..k] && a[k] < b[k]
    ensures Less(a, b)
    decreases k
  {
    if k > 0 {
      assert a[0] == a[..k][0] && b[0] == b[..k][0];
      assert a[1..][..k - 1] == a[..k][1..];
      assert b[1..][..k - 1] == b[..k][1..];
      FirstDifferenceDecides(a[1..], b[1..], k - 1);
    }
  }

  /** Conversely, `Less` holds only for a proper prefix or at a first difference. */
  lemma {:induction false} LessHasReason(a: string, b: string)
    requires Less(a, b)
    ensures (|a| < |b| && a == b[..|a|]) ||
      (exists k :: 0 <= k < |a| && k < |b| && a[..k] == b[..k] && a[k] < b[k])
    decreases |a|
  {
    if |a| > 0 && a[0] == b[0] {
      LessHasReason(a[1..], b[1..]);
      if |a| - 1 < |b| - 1 && a[1..] == b[1..][..|a| - 1] {
        assert a == [a[0]] + a[1..];
        assert b[..|a|] == [b[0]] + b[1..][..|a| - 1];
      } else {
        var k :| 0 <= k < |a| - 1 && k < |b| - 1 && a[1..][..k] == b[1..][..k] && a[1..][k] < b[1..][k];
        assert a[..k + 1] == [a[0]] + a[1..][..k];
        assert b[..k + 1] == [b[0]] + b[1..][..k];
      }
    } else if |a| > 0 {
      assert a[..0] == b[..0];
    }
  }

  /** `Less` is exactly the usual lexicographic order. */
  lemma LessCharacterised(a: string, b: string)
    ensures Less(a, b) <==>
      (|a| < |b| && a == b[..|a|]) ||
      (exists k :: 0 <= k < |a| && k < |b| && a[..k] == b[..k] && a[k] < b[k])
  {
    if Less(a, b) {
      LessHasReason(a, b);
    } else if |a| < |b| && a == b[..|a|] {
      PrefixIsLess(a, b);
    } else if k :| 0 <= k < |a| && k < |b| && a[..k] == b[..k] && a[k] < b[k] {
      FirstDifferenceDecides(a, b, k);
    }
  }

  /** ASCII-only lower-casing of one character. */
  function LowerChar(c: char): (d: char)
    ensures 'A' <= c <= 'Z' ==> 'a' <= d <= 'z' && d as int - c as int == 32
    ensures !('A' <= c <= 'Z') ==> d == c
  {
    if 'A' <= c <= 'Z' then (c as int + 32) as char else c
  }

  /** `strings.ToLower`, restricted to ASCII letters. */
  function Lower(s: string): (r: string)
    ensures |r| == |s|
    ensures forall i :: 0 <= i < |s| ==> r[i] == LowerChar(s[i])
    ensures forall i :: 0 <= i < |r| ==> !('A' <= r[i] <= 'Z')
  {
    seq(|s|, i requires 0 <= i < |s| => LowerChar(s[i]))
  }

  /** `u` is the upper-case form of the lower-case letter `l`, or `l` is no
      letter and `u` is `l` itself. */
  predicate CaseVariants(l: char, u: char) {
    ('a' <= l <= 'z' && u as int == l as int - 32) ||
    (!('A' <= l <= 'Z') && !('a' <= l <= 'z') && u == l)
  }

  /** A character lower-cases to `l` exactly when it is `l` or its upper-case form. */
  lemma LowerCharMatches(c: char, l: char, u: char)
    requires CaseVariants(l, u)
    ensures LowerChar(c) == l <==> c == l || c == u
  {
  }

  /** `s` ends with `lower`, each character written either as in `lower` or
      as in `upper`. */
  predicate EndsIgnoringCase(s: string, lower: string, upper: string)
    requires |lower| == |upper|
  {
    |lower| <= |s| &&
    forall k :: 0 <= k < |lower| ==> s[|s| - |lower| + k] == lower[k] || s[|s| - |lower| + k] == upper[k]
  }

  /** Testing the lower-cased string for a lower-case suffix is a
      case-insensitive suffix test on the original string. */
  lemma HasSuffixIgnoringCase(s: string, lower: string, upper: string)
    requires |lower| == |upper|
    requires forall k :: 0 <= k < |lower| ==> CaseVariants(lower[k], upper[k])
    ensures HasSuffix(Lower(s), lower) <==> EndsIgnoringCase(s, lower, upper)
  {
    if |lower| <= |s| {
      var t := Lower(s)[|s| - |lower|..];
      forall k | 0 <= k < |lower|
        ensures t[k] == lower[k] <==> s[|s| - |lower| + k] == lower[k] || s[|s| - |lower| + k] == upper[k]
      {
        LowerCharMatches(s[|s| - |lower| + k], lower[k], upper[k]);
      }
      if EndsIgnoringCase(s, lower, upper) {
        assert t == lower;
      }
    }
  }

  /** `strings.HasSuffix`. */
  predicate HasSuffix(s: string, suffix: string) {
    |suffix| <= |s| && s[|s| - |suffix|..] == suffix
  }

  lemma HasSuffixLast(s: string, suffix: string)
    requires |suffix| > 0
    ensures HasSuffix(s, suffix) ==> s[|s| - 1] == suffix[|suffix| - 1]
  {
    if HasSuffix(s, suffix) {
      assert s[|s| - |suffix|..][|suffix| - 1] == s[|s| - 1];
    }
  }

  /** Number of occurrences of `c` in `s`. */
  function Count(s: string, c: char): (n: nat)
    ensures n <= |s|
    ensures n == 0 <==> c !in s
  {
    if |s| == 0 then 0 else (if s[0] == c then 1 else 0) + Count(s[1..], c)
  }

  /** `strings.Join(parts, string(sep))`. */
  function Join(parts: seq<string>, sep: char): string
  {
    if |parts| == 0 then ""
    else if |parts| == 1 then parts[0]
    else parts[0] + [sep] + Join(parts[1..], sep)
  }

  /** `strings.Split(s, string(sep))`: the pieces between separators. Splitting
      the empty string gives one empty piece, as in Go. */
  function Split(s: string, sep: char): (parts: seq<string>)
    ensures |parts| == Count(s, sep) + 1
    ensures forall i :: 0 <= i < |parts| ==> sep !in parts[i]
    ensures Join(parts, sep) == s
  {
    if |s| == 0 then [""]
    else
      var rest := Split(s[1..], sep);
      if s[0] == sep then [""] + rest
      else
        assert s == [s[0]] + s[1..];
        [[s[0]] + rest[0]] + rest[1..]
  }

  /** Split undoes Join whenever no piece contains the separator. */
  lemma {:induction false} SplitJoin(parts: seq<string>, sep: char)
    requires |parts| > 0
    requires forall i :: 0 <= i < |parts| ==> sep !in parts[i]
    ensures Split(Join(parts, sep), sep) == parts
    decreases |parts|
  {
    if |parts| == 1 {
      SplitNoSeparator(parts[0], sep);
    } else {
      SplitJoin(parts[1..], sep);
      SplitAtFirst(parts[0], Join(parts[1..], sep), sep);
      assert [parts[0]] + parts[1..] == parts;
    }
  }

  lemma {:induction false} SplitAtFirst(p: string, rest: string, sep: char)
    requires sep !in p
    ensures Split(p + [sep] + rest, sep) == [p] + Split(rest, sep)
    decreases |p|
  {
    var s := p + [sep] + rest;
    if |p| == 0 {
      assert s[1..] == rest;
    } else {
      assert s[1..] == p[1..] + [sep] + rest;
      SplitAtFirst(p[1..], rest, sep);
      assert [p[0]] + p[1..] == p;
    }
  }

  lemma {:induction false} SplitNoSeparator(s: string, sep: char)
    requires sep !in s
    ensures Split(s, sep) == [s]
    decreases |s|
  {
    if |s| > 0 {
      SplitNoSeparator(s[1..], sep);
      assert [s[0]] + s[1..] == s;
    }
  }

  /** `unicode.IsSpace`: the ASCII spaces, NEL, NBSP and the other Unicode
      White_Space characters. */
  predicate IsSpace(c: char) {
    c == '\t' || c == '\n' || c == '\U{000B}' || c == '\U{000C}' || c == '\r' || c == ' ' ||
    c == '\U{0085}' || c == '\U{00A0}' || c == '\U{1680}' ||
    ('\U{2000}' <= c <= '\U{200A}') ||
    c == '\U{2028}' || c == '\U{2029}' || c == '\U{202F}' || c == '\U{205F}' || c == '\U{3000}'
  }

  predicate AllSpace(s: string) {
    forall i :: 0 <= i < |s| ==> IsSpace(s[i])
  }

  /** Number of leading white-space characters. */
  function LeadingSpace(s: string): (n: nat)
    ensures n <= |s|
    ensures AllSpace(s[..n])
    ensures n < |s| ==> !IsSpace(s[n])
  {
    if |s| == 0 || !IsSpace(s[0]) then 0
    else
      var t := LeadingSpace(s[1..]);
      assert s[..t + 1] == [s[0]] + s[1..][..t];
      t + 1
  }

  /** Number of trailing white-space characters. */
  function TrailingSpace(s: string): (n: nat)
    ensures n <= |s|
    ensures AllSpace(s[|s| - n..])
    ensures n < |s| ==> !IsSpace(s[|s| - n - 1])
  {
    if |s| == 0 || !IsSpace(s[|s| - 1]) then 0
    else
      var t := TrailingSpace(s[..|s| - 1]);
      TrailingStep(s, t);
      t + 1
  }

  lemma TrailingStep(s: string, t: nat)
    requires 0 < |s| && t < |s| && IsSpace(s[|s| - 1])
    requires AllSpace(s[..|s| - 1][|s| - 1 - t..])
    ensures AllSpace(s[|s| - (t + 1)..])
  {
    assert s[|s| - (t + 1)..] == s[..|s| - 1][|s| - 1 - t..] + [s[|s| - 1]];
  }

  /** `r` is what is left of `s` once a white-space prefix of length `i` and a
      white-space suffix are cut off. */
  predicate TrimmedAt(s: string, r: string, i: int) {
    0 <= i && i + |r| <= |s| && s[i..i + |r|] == r &&
    AllSpace(s[..i]) && AllSpace(s[i + |r|..])
  }

  /** `strings.TrimSpace`: the longest middle part of `s` that neither starts
      nor ends with white space. */
  function TrimSpace(s: string): (r: string)
    ensures TrimmedAt(s, r, LeadingSpace(s))
    ensures |r| > 0 ==> !IsSpace(r[0]) && !IsSpace(r[|r| - 1])
    ensures |r| == 0 <==> AllSpace(s)
  {
    var a := LeadingSpace(s);
    if a == |s| then
      assert TrimmedAt(s, "", 0);
      ""
    else
      var b := TrailingSpace(s);
      TrimBounds(s, a, b);
      s[a..|s| - b]
  }

  /** When `s` is not all white space, the non-space middle lies between the
      leading and the trailing white space. */
  lemma TrimBounds(s: string, a: nat, b: nat)
    requires a < |s| && AllSpace(s[..a]) && !IsSpace(s[a])
    requires b <= |s| && AllSpace(s[|s| - b..])
    ensures a < |s| - b
    ensures TrimmedAt(s, s[a..|s| - b], a)
    ensures !AllSpace(s)
  {
    SuffixSpaces(s, b);
    var r := s[a..|s| - b];
    assert s[a + |r|..] == s[|s| - b..];
  }

  lemma SuffixSpaces(s: string, b: nat)
    requires b <= |s| && AllSpace(s[|s| - b..])
    ensures forall j :: |s| - b <= j < |s| ==> IsSpace(s[j])
  {
    forall j | |s| - b <= j < |s| ensures IsSpace(s[j]) {
      assert s[j] == s[|s| - b..][j - (|s| - b)];
    }
  }

  /** A string that already has no outer white space is its own trim. */
  lemma TrimSpaceUnchanged(s: string)
    requires |s| > 0 && !IsSpace(s[0]) && !IsSpace(s[|s| - 1])
    ensures TrimSpace(s) == s
  {
  }

  lemma TrimSpaceIdempotent(s: string)
    ensures TrimSpace(TrimSpace(s)) == TrimSpace(s)
  {
    var r := TrimSpace(s);
    if |r| > 0 {
      TrimSpaceUnchanged(r);
    }
  }
}
