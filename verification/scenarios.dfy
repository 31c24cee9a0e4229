/** Three end-to-end runs worked through the model with the wildcard
    stand-in for `filepath.Match`. */
module Scenarios {
  import opened Outcomes
  import opened GoStrings
  import opened Glob
  import opened Config
  import opened Walk
  import opened Ordering
  import opened Scan

  /** A root directory holding `a.txt`, `b.kdbx`, `c.conf` and `d.ini`. */
  const Tree: Root := Present(Dir("./", ".", [
    File("a.txt", "a.txt"), File("b.kdbx", "b.kdbx"), File("c.conf", "c.conf"), File("d.ini", "d.ini")]))

  /** `*` plus a literal accepts a name that ends with the literal and
      holds no separator. */
  lemma StarAccepts(lit: string, name: string)
    requires IsLiteral(lit)
    requires |lit| <= |name| && name[|name| - |lit|..] == lit && '/' !in name
    ensures Accepts(WildcardMatch, ['*'] + lit, name)
  {
    StarSuffix(lit, name);
    assert '[' !in ['*'] + lit && '\\' !in ['*'] + lit;
  }

  lemma TxtMatches(s: Settings)
    requires s.patterns == DefaultPatternList
    ensures NameMatches(s, WildcardMatch, "a.txt")
  {
    assert s.patterns[0] == ['*'] + ".txt";
    StarAccepts(".txt", "a.txt");
  }

  lemma KdbxMatches(s: Settings)
    requires s.patterns == DefaultPatternList
    ensures NameMatches(s, WildcardMatch, "b.kdbx")
  {
    assert s.patterns[2] == ['*'] + ".kdbx";
    StarAccepts(".kdbx", "b.kdbx");
  }

  lemma ConfMatches(s: Settings)
    requires s.patterns == DefaultPatternList
    ensures NameMatches(s, WildcardMatch, "c.conf")
  {
    assert s.patterns[4] == ['*'] + ".conf";
    StarAccepts(".conf", "c.conf");
  }

  lemma IniMatches(s: Settings)
    requires s.patterns == DefaultPatternList
    ensures NameMatches(s, WildcardMatch, "d.ini")
  {
    assert s.patterns[7] == ['*'] + ".ini";
    StarAccepts(".ini", "d.ini");
  }

  /** The four files of `Tree`, as the walk reaches them. */
  const TreeFiles: seq<Entry> := [
    Entry("a.txt", "a.txt", false, false), Entry("b.kdbx", "b.kdbx", false, false),
    Entry("c.conf", "c.conf", false, false), Entry("d.ini", "d.ini", false, false)]

  lemma TreeReaches()
    ensures RootFiles(Tree) == TreeFiles
  {
  }

  lemma WalkFinds(s: Settings)
    requires s.patterns == DefaultPatternList
    ensures WalkDir(s, WildcardMatch, Tree).found == ["a.txt", "b.kdbx", "c.conf", "d.ini"]
  {
    WalkDirCollects(s, WildcardMatch, Tree);
    TreeReaches();
    TxtMatches(s);
    KdbxMatches(s);
    ConfMatches(s);
    IniMatches(s);
    AllTreeFilesMatch(s);
  }

  lemma AllTreeFilesMatch(s: Settings)
    requires NameMatches(s, WildcardMatch, "a.txt") && NameMatches(s, WildcardMatch, "b.kdbx")
    requires NameMatches(s, WildcardMatch, "c.conf") && NameMatches(s, WildcardMatch, "d.ini")
    ensures Matching(s, WildcardMatch, TreeFiles) == ["a.txt", "b.kdbx", "c.conf", "d.ini"]
  {
    var es := TreeFiles;
    assert Matching(s, WildcardMatch, es[3..]) == ["d.ini"];
    assert Matching(s, WildcardMatch, es[2..]) == ["c.conf", "d.ini"];
    assert Matching(s, WildcardMatch, es[1..]) == ["b.kdbx", "c.conf", "d.ini"];
  }

  lemma Bands()
    ensures !IsLow("a.txt") && !IsLow("d.ini") && IsLow("b.kdbx") && IsLow("c.conf")
  {
    NotLowByLastChar("a.txt");
    NotLowByLastChar("d.ini");
    KdbxIsLow();
    ConfIsLow();
  }

  lemma KdbxIsLow()
    ensures IsLow("b.kdbx")
  {
    assert Lower("b.kdbx")[1..] == ".kdbx";
  }

  lemma ConfIsLow()
    ensures IsLow("c.conf")
  {
    assert Lower("c.conf")[1..] == ".conf";
  }

  lemma ExpectedSorted()
    ensures Sorted(PriorityDemote, ["a.txt", "d.ini", "b.kdbx", "c.conf"])
  {
    var want := ["a.txt", "d.ini", "b.kdbx", "c.conf"];
    Bands();
    assert Less("a.txt", "d.ini") && Less("b.kdbx", "c.conf");
    LessAsymmetric("a.txt", "d.ini");
    LessAsymmetric("b.kdbx", "c.conf");
    forall i, j | 0 <= i < j < 4 ensures !Before(PriorityDemote, want[j], want[i]) {
    }
  }

  lemma SameFiles()
    ensures multiset(["a.txt", "d.ini", "b.kdbx", "c.conf"]) == multiset(["a.txt", "b.kdbx", "c.conf", "d.ini"])
  {
  }

  lemma SortsAsExpected()
    ensures PrioritySort(["a.txt", "b.kdbx", "c.conf", "d.ini"]) == ["a.txt", "d.ini", "b.kdbx", "c.conf"]
  {
    ExpectedSorted();
    SameFiles();
    SortedUnique(PriorityDemote, PrioritySort(["a.txt", "b.kdbx", "c.conf", "d.ini"]), ["a.txt", "d.ini", "b.kdbx", "c.conf"]);
  }

  /** With no flags, the low-priority files come last, each band in order. */
  lemma DefaultScenario(compile: string -> Option<Regex>)
    ensures Run(Flags(None, ""), compile, WildcardMatch, Tree) == Ok(["a.txt", "d.ini", "b.kdbx", "c.conf"])
  {
    DefaultPatterns();
    var s := Configure(Flags(None, ""), compile).value;
    WalkFinds(s);
    SortsAsExpected();
  }

  lemma KdbxOnlyPatterns()
    ensures Patterns(Some("*.kdbx"), false) == ["*.kdbx"]
  {
    TrimSpaceUnchanged("*.kdbx");
    ExplicitPatternsRoundTrip(["*.kdbx"], false);
  }

  lemma KdbxOnlyAcceptsKdbx(s: Settings)
    requires s.patterns == ["*.kdbx"] && s.regex.None?
    ensures NameMatches(s, WildcardMatch, "b.kdbx")
  {
    assert s.patterns[0] == ['*'] + ".kdbx";
    StarAccepts(".kdbx", "b.kdbx");
  }

  lemma KdbxOnlyRejectsOthers(s: Settings)
    requires s.patterns == ["*.kdbx"] && s.regex.None?
    ensures !NameMatches(s, WildcardMatch, "a.txt") && !NameMatches(s, WildcardMatch, "c.conf")
    ensures !NameMatches(s, WildcardMatch, "d.ini")
  {
    assert s.patterns[0] == ['*'] + ".kdbx";
    StarSuffixLastChar(".kdbx", "a.txt");
    StarSuffixLastChar(".kdbx", "c.conf");
    StarSuffixLastChar(".kdbx", "d.ini");
  }

  lemma KdbxWalkFinds(s: Settings)
    requires s.patterns == ["*.kdbx"] && s.regex.None?
    ensures WalkDir(s, WildcardMatch, Tree).found == ["b.kdbx"]
  {
    WalkDirCollects(s, WildcardMatch, Tree);
    TreeReaches();
    KdbxOnlyAcceptsKdbx(s);
    KdbxOnlyRejectsOthers(s);
    var es := TreeFiles;
    assert Matching(s, WildcardMatch, es[3..]) == [];
    assert Matching(s, WildcardMatch, es[2..]) == [];
    assert Matching(s, WildcardMatch, es[1..]) == ["b.kdbx"];
  }

  /** With `-ext "*.kdbx"` only the keepass file is listed, in plain order. */
  lemma ExplicitExtScenario(compile: string -> Option<Regex>)
    ensures Run(Flags(Some("*.kdbx"), ""), compile, WildcardMatch, Tree) == Ok(["b.kdbx"])
  {
    KdbxOnlyPatterns();
    var s := Configure(Flags(Some("*.kdbx"), ""), compile).value;
    assert s.order == Lexicographic;
    KdbxWalkFinds(s);
    assert Sort(Lexicographic, ["b.kdbx"]) == ["b.kdbx"];
  }

  /** A stand-in for the compiled expression `^secret`. */
  predicate StartsWithSecret(name: string) {
    |name| >= 6 && name[..6] == "secret"
  }

  /** `-ext "*.ini" -regex "^secret"`. */
  const IniOrSecretFlags: Flags := Flags(Some("*.ini"), "^secret")

  /** The settings those flags produce when `^secret` compiles to `StartsWithSecret`. */
  function IniOrSecret(compile: string -> Option<Regex>): (s: Settings)
    requires compile("^secret") == Some(StartsWithSecret)
    ensures Configure(IniOrSecretFlags, compile) == Ok(s)
    ensures s.patterns == ["*.ini"] && s.regex == Some(StartsWithSecret)
    ensures s.order == Lexicographic
  {
    TrimSpaceUnchanged("*.ini");
    ExplicitPatternsRoundTrip(["*.ini"], true);
    Configure(IniOrSecretFlags, compile).value
  }

  /** Globs and the regular expression are combined by "or": a name only the
      expression accepts matches ... */
  lemma RegexAloneSuffices(compile: string -> Option<Regex>)
    requires compile("^secret") == Some(StartsWithSecret)
    ensures !MatchPattern(WildcardMatch, "secret_plan.docx", IniOrSecret(compile).patterns)
    ensures NameMatches(IniOrSecret(compile), WildcardMatch, "secret_plan.docx")
  {
    IniPatternRejects(IniOrSecret(compile).patterns, "secret_plan.docx");
    IsSecret();
  }

  /** ... so does a name only the glob accepts ... */
  lemma GlobAloneSuffices(compile: string -> Option<Regex>)
    requires compile("^secret") == Some(StartsWithSecret)
    ensures MatchPattern(WildcardMatch, "db.ini", IniOrSecret(compile).patterns)
    ensures !IniOrSecret(compile).regex.value("db.ini")
    ensures NameMatches(IniOrSecret(compile), WildcardMatch, "db.ini")
  {
    var s := IniOrSecret(compile);
    assert s.patterns[0] == ['*'] + ".ini";
    StarAccepts(".ini", "db.ini");
    NotSecret("db.ini");
  }

  /** ... and a name neither accepts does not. */
  lemma NeitherRejects(compile: string -> Option<Regex>)
    requires compile("^secret") == Some(StartsWithSecret)
    ensures !NameMatches(IniOrSecret(compile), WildcardMatch, "notes.docx")
  {
    IniPatternRejects(IniOrSecret(compile).patterns, "notes.docx");
    NotSecret("notes.docx");
  }

  /** `*.ini` rejects every name that does not end in `i`. */
  lemma IniPatternRejects(patterns: seq<string>, name: string)
    requires patterns == ["*.ini"] && |name| > 0 && name[|name| - 1] != 'i'
    ensures !MatchPattern(WildcardMatch, name, patterns)
  {
    assert patterns[0] == ['*'] + ".ini";
    StarSuffixLastChar(".ini", name);
  }

  lemma IsSecret()
    ensures StartsWithSecret("secret_plan.docx")
  {
  }

  /** A name that does not begin with `s` does not start with `secret`. */
  lemma NotSecret(name: string)
    requires |name| > 0 && name[0] != 's'
    ensures !StartsWithSecret(name)
  {
    if |name| >= 6 {
      assert name[..6][0] != "secret"[0];
    }
  }
}
