/** `main` as a whole, without the flag parsing and printing around it:
    configure, walk, order. */
module Scan {
  import opened Outcomes
  import opened Glob
  import opened Config
  import opened Walk
  import opened Ordering

  /** The lines `main` prints, or the invalid-regex error that makes it exit
      with status 1 before walking. */
  function Run(flags: Flags, compile: string -> Option<Regex>, glob: Matcher, root: Root): (r: Result<seq<string>, ConfigError>)
    ensures r.Err? <==> Configure(flags, compile).Err?
    ensures r.Err? ==> r.error == InvalidRegex(flags.regex)
    ensures r.Ok? ==>
      multiset(r.value) == multiset(Matching(Configure(flags, compile).value, glob, RootFiles(root)))
    ensures r.Ok? ==> Sorted(Configure(flags, compile).value.order, r.value)
  {
    match Configure(flags, compile)
    case Err(e) => Err(e)
    case Ok(settings) =>
      WalkDirCollects(settings, glob, root);
      var walked := WalkDir(settings, glob, root);
      Ok(Sort(settings.order, walked.found))
  }

  /** An invalid regular expression ends the run whatever the tree holds:
      the file system is never consulted. */
  lemma InvalidRegexStopsBeforeWalk(flags: Flags, compile: string -> Option<Regex>, glob: Matcher, root1: Root, root2: Root)
    requires flags.regex != "" && compile(flags.regex).None?
    ensures Run(flags, compile, glob, root1) == Run(flags, compile, glob, root2) == Err(InvalidRegex(flags.regex))
  {
  }

  /** With no `-ext` and no `-regex`, the run uses the eight built-in
      patterns, no expression, and priority ordering. */
  lemma DefaultSettings(compile: string -> Option<Regex>)
    ensures Configure(Flags(None, ""), compile).Ok?
    ensures Configure(Flags(None, ""), compile).value.patterns == DefaultPatternList
    ensures Configure(Flags(None, ""), compile).value.regex.None?
    ensures Configure(Flags(None, ""), compile).value.order == PriorityDemote
  {
    DefaultPatterns();
  }

  /** A default run demotes `.kdbx` and `.conf` files to the end and orders
      each band byte-wise. */
  lemma DefaultRunOrder(glob: Matcher, root: Root, compile: string -> Option<Regex>)
    ensures Run(Flags(None, ""), compile, glob, root).Ok?
    ensures Demoted(Run(Flags(None, ""), compile, glob, root).value)
    ensures BandsAscending(Run(Flags(None, ""), compile, glob, root).value)
  {
    PrioritySortedMeans(Run(Flags(None, ""), compile, glob, root).value);
  }

  /** A run lists exactly the reachable files whose names match. */
  lemma RunLists(flags: Flags, compile: string -> Option<Regex>, glob: Matcher, root: Root, p: string)
    requires Configure(flags, compile).Ok?
    ensures Run(flags, compile, glob, root).Ok?
    ensures p in Run(flags, compile, glob, root).value <==>
      p in Matching(Configure(flags, compile).value, glob, RootFiles(root))
  {
    var r := Run(flags, compile, glob, root).value;
    assert p in r <==> p in multiset(r);
  }

  /** A default run lists exactly the reachable files that one of the eight
      built-in patterns accepts. */
  lemma DefaultRunLists(glob: Matcher, root: Root, compile: string -> Option<Regex>, p: string)
    ensures Run(Flags(None, ""), compile, glob, root).Ok?
    ensures p in Run(Flags(None, ""), compile, glob, root).value <==>
      exists i :: 0 <= i < |RootFiles(root)| && RootFiles(root)[i].path == p &&
        MatchPattern(glob, RootFiles(root)[i].name, DefaultPatternList)
  {
    DefaultSettings(compile);
    RunLists(Flags(None, ""), compile, glob, root, p);
    var s := Configure(Flags(None, ""), compile).value;
    var fs := RootFiles(root);
    forall i | 0 <= i < |fs|
      ensures NameMatches(s, glob, fs[i].name) == MatchPattern(glob, fs[i].name, DefaultPatternList)
    {
    }
  }

  /** With `-ext` or `-regex` given, the output is in plain ascending order. */
  lemma NonDefaultRunOrder(flags: Flags, compile: string -> Option<Regex>, glob: Matcher, root: Root)
    requires flags.ext.Some? || flags.regex != ""
    requires Run(flags, compile, glob, root).Ok?
    ensures Ascending(Run(flags, compile, glob, root).value)
  {
  }

  /** Running twice on the same tree, or on a tree whose entries are listed in
      another order, prints the same lines. */
  lemma RunIgnoresListingOrder(flags: Flags, compile: string -> Option<Regex>, glob: Matcher, root1: Root, root2: Root)
    requires multiset(RootFiles(root1)) == multiset(RootFiles(root2))
    ensures Run(flags, compile, glob, root1) == Run(flags, compile, glob, root2)
  {
    if Configure(flags, compile).Ok? {
      var s := Configure(flags, compile).value;
      MatchingPermutation(s, glob, RootFiles(root1), RootFiles(root2));
      WalkDirCollects(s, glob, root1);
      WalkDirCollects(s, glob, root2);
      SortIgnoresArrivalOrder(s.order, WalkDir(s, glob, root1).found, WalkDir(s, glob, root2).found);
    }
  }

  /** Matching keeps, for every entry, as many copies of its path as the
      entry occurs; so reordering the entries only reorders the result. */
  lemma {:induction false} MatchingPermutation(s: Settings, glob: Matcher, a: seq<Entry>, b: seq<Entry>)
    requires multiset(a) == multiset(b)
    ensures multiset(Matching(s, glob, a)) == multiset(Matching(s, glob, b))
    decreases |a|
  {
    if |a| > 0 {
      assert a[0] in multiset(b);
      var k :| 0 <= k < |b| && b[k] == a[0];
      var b' := b[..k] + b[k + 1..];
      assert b == b[..k] + [b[k]] + b[k + 1..];
      assert a == [a[0]] + a[1..];
      assert multiset(a[1..]) == multiset(a) - multiset{a[0]};
      assert multiset(b') == multiset(b) - multiset{b[k]};
      MatchingPermutation(s, glob, a[1..], b');
      MatchingAppend(s, glob, [a[0]], a[1..]);
      MatchingWithout(s, glob, b, k);
    }
  }

  /** Taking one entry out of the middle takes its contribution out of the result. */
  lemma MatchingWithout(s: Settings, glob: Matcher, b: seq<Entry>, k: nat)
    requires k < |b|
    ensures multiset(Matching(s, glob, b)) ==
      multiset(Matching(s, glob, [b[k]])) + multiset(Matching(s, glob, b[..k] + b[k + 1..]))
  {
    assert b == b[..k] + [b[k]] + b[k + 1..];
    MatchingAppend(s, glob, b[..k] + [b[k]], b[k + 1..]);
    MatchingAppend(s, glob, b[..k], [b[k]]);
    MatchingAppend(s, glob, b[..k], b[k + 1..]);
  }
}
