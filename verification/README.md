# FapFinder in Dafny

FapFinder is a small command-line scanner. It walks a directory tree and
prints the paths of files whose base names match a comma-separated list of
glob patterns, a regular expression, or either one. It then orders the
output. A default run uses the built-in pattern list and demotes key-store
and configuration files (`.kdbx`, `.conf`, in any letter case) to the end.
Every other run uses plain byte-wise string order.

This project models that engine as pure functions and proves what it does.

- `GoStrings` (gostrings.dfy) holds the parts of Go's `strings` package the
  program relies on:
  - byte-wise `<`;
  - `ToLower` and `HasSuffix`;
  - `Split` and `Join`;
  - `TrimSpace` with `unicode.IsSpace`'s white-space set.
- `Glob` (glob.dfy) holds `matchPattern` over an abstract `filepath.Match`.
  It also holds a wildcard stand-in matcher used by the worked examples.
- `Ordering` (ordering.dfy) covers `prioritySort` and `sort.Strings`. Both
  are one insertion sort, parameterised by the comparator policy.
- `Config` (config.dfy) holds what `main` decides before walking:
  - the regex check;
  - the `-ext` pattern list;
  - `usingDefaultSort`.
- `Walk` (walk.dfy) holds the `WalkDir` callback. It folds that callback over
  an in-memory directory tree with Go's `SkipDir` rules.
- `Scan` (scan.dfy) is `main` from configuration to the printed list.
- `Scenarios` (scenarios.dfy) works three end-to-end runs through the model.

The main results:

- The output is exactly the matching files reachable through readable
  directories (`Scan.Run`, `Walk.WalkDirCollects`).
- The output is the unique arrangement of those files under the active
  order. Two results follow:
  - the order in which directories list their entries never shows
    (`Scan.RunIgnoresListingOrder`);
  - the stability that `sort.SliceStable` asks for has no observable
    effect (`Ordering.TiesAreEqual`, `Ordering.SortedUnique`).
- An invalid regular expression stops the run before the tree is looked at.
- Priority ordering applies exactly when `-ext` was not passed and no
  regular expression was given.

One could key priority ordering on whether the effective pattern list
equals the default list. `FapFinder.go:116` instead keys it on whether `-ext` was passed at all, and on
whether a regex is in force. So passing the built-in list explicitly turns
priority ordering off (`Config.ExplicitDefaultIsNotPriority`).

Root errors never surface. The callback answers any error with
`filepath.SkipDir`, and `WalkDir` turns that into a nil result even at the
root. So the "Error walking the path" report at `FapFinder.go:140-142` can
never be printed; `Walk.WalkDirCollects` proves `WalkDir` never fails.

## Model

| member | source | states |
|---|---|---|
| Glob.Accepts | FapFinder.go:34-35 | a pattern accepts a name when the matcher reports a match and no error |
| Glob.MatchPattern | FapFinder.go:32-40 | a name matches the list iff some pattern in it is well-formed and accepts the name |
| Glob.MalformedPatternIgnored | FapFinder.go:34-35 | a pattern that `filepath.Match` rejects as malformed neither matches nor stops later patterns: deleting it from the list changes nothing |
| Glob.MatchPatternSetwise | FapFinder.go:33-39 | the answer depends only on the set of patterns, not on their order or repetition |
| Glob.MatchPatternAppend | FapFinder.go:33-39 | matching a concatenated list is the disjunction of matching each part |
| Glob.WildcardMatch | FapFinder.go:34 | the stand-in for `filepath.Match`: `*` and `?` never match `/`; it reports a pattern as malformed exactly when it contains `[` or `\`, where `filepath.Match` accepts well-formed classes and escapes; it never both matches and errs |
| Glob.StarSuffix | FapFinder.go:34 | under the stand-in, `*` plus a literal accepts a name iff the name ends with the literal and has no separator before it |
| Glob.StarSuffixLastChar | FapFinder.go:34 | under the stand-in, `*` plus a literal accepts only names ending in the literal's last character |
| Glob.LiteralMatchesItself | FapFinder.go:34 | under the stand-in, a pattern without wildcards accepts exactly itself |
| GoStrings.LessCharacterised | FapFinder.go:53 | Go's string `<` is the lexicographic order: a proper prefix, or a smaller character at the first difference |
| GoStrings.LessTotal | FapFinder.go:53 | two different strings are always ordered one way or the other |
| GoStrings.LessTransitive | FapFinder.go:53 | string `<` is transitive |
| GoStrings.Lower | FapFinder.go:44-45 | lower-casing keeps the length and leaves no upper-case ASCII letter |
| GoStrings.HasSuffixIgnoringCase | FapFinder.go:44-48 | testing the lower-cased string for a lower-case suffix is the same as testing the original for that suffix with each letter in either case |
| GoStrings.Split | FapFinder.go:104 | splitting on a separator gives one more piece than there are separators; no piece contains the separator, and joining the pieces gives the input back |
| GoStrings.SplitJoin | FapFinder.go:104-110 | splitting a join of separator-free pieces gives the pieces back |
| GoStrings.TrimSpace | FapFinder.go:105-111 | trimming removes a white-space prefix and suffix; the result starts and ends with non-space, and is empty iff the input is all white space |
| GoStrings.TrimSpaceIdempotent | FapFinder.go:105 | trimming twice is trimming once |
| GoStrings.Count | FapFinder.go:104 | the separator count is at most the length, and zero iff the separator is absent |
| Ordering.IsLow | FapFinder.go:44-48 | a path is low-priority when its lower-cased form ends in `.kdbx` or `.conf` |
| Ordering.IsLowCharacterised | FapFinder.go:44-48 | a path is low-priority exactly when it ends in `.kdbx` or `.conf` with each letter in either case, so `KEYS.KDBX` is low |
| Ordering.Before | FapFinder.go:43-54 | the comparator: under priority ordering a non-low path goes before a low one and equal classes fall back to byte-wise `<`; under plain ordering only `<` |
| Ordering.NotLowByLastChar | FapFinder.go:44-48 | a path whose lower-cased last character is neither `x` nor `f` is not low-priority |
| Ordering.BeforeTransitive | FapFinder.go:43-54 | the priority comparator and plain `<` are transitive |
| Ordering.TiesAreEqual | FapFinder.go:43-54 | two paths the comparator cannot order are equal, so stable and unstable sorting agree |
| Ordering.Insert | FapFinder.go:43-54 | inserting into a sorted list keeps it sorted and adds exactly the new path |
| Ordering.Sort | FapFinder.go:42-55 | the result is a permutation of the input and is sorted under the policy's comparator |
| Ordering.SortedUnique | FapFinder.go:42-55 | two sorted permutations of the same paths are identical |
| Ordering.SortIdempotent | FapFinder.go:42-55 | sorting a sorted list returns it unchanged |
| Ordering.SortIgnoresArrivalOrder | FapFinder.go:42-55 | the sorted result depends only on the multiset of paths collected |
| Ordering.PrioritySortedMeans | FapFinder.go:47-53 | sorted under the priority comparator means: every non-low path precedes every low path, and each band ascends |
| Ordering.PrioritySortCharacterised | FapFinder.go:42-55 | `prioritySort` returns exactly the permutation with low-priority paths last and each band ascending |
| Ordering.SortStringsCharacterised | FapFinder.go:147 | `sort.Strings` returns exactly the ascending permutation of its input |
| Ordering.UpperCaseFirstExample | FapFinder.go:50-53 | the tie-break is case-sensitive byte order: `B.txt` sorts before `a.txt` |
| Ordering.UpperCaseLowExample | FapFinder.go:44-53 | the priority class ignores case: `A.KDBX` precedes `b.txt` in byte order, yet `prioritySort` puts it after `b.txt` |
| Config.ParseExt | FapFinder.go:104-106 | an `-ext` value yields one pattern per comma-separated piece, in order, each the piece with a white-space prefix and suffix cut off; no pattern contains a comma or starts or ends with white space |
| Config.Patterns | FapFinder.go:101-113 | an explicit non-empty `-ext` gives its trimmed pieces in order, one per comma-separated piece; an explicit empty `-ext` gives none; neither flag gives the eight built-in patterns; `-regex` alone gives none |
| Config.DefaultExtParses | FapFinder.go:108-112 | splitting and trimming the built-in `-ext` value gives back the eight built-in patterns, in order |
| Config.ExplicitPatternsRoundTrip | FapFinder.go:102-107 | an explicit `-ext` whose pieces carry no blanks gives back exactly those pieces, whether or not a regex is given |
| Config.Configure | FapFinder.go:79-116 | failure iff a non-empty regex does not compile, and then with that regex as the error; otherwise a regex filter is present iff one was given, the patterns are those the `-ext` rules give with a regex in force iff one was given, and priority ordering holds iff neither flag was given |
| Config.ExplicitDefaultIsNotPriority | FapFinder.go:89-116 | passing the built-in list explicitly gives the default patterns but plain ordering |
| Walk.NameMatches | FapFinder.go:130-133 | a name matches when a glob pattern accepts it or a regex is in force and matches it |
| Walk.Callback | FapFinder.go:120-137 | the callback skips on an error, never aborts, and appends the path exactly for a matching non-directory without an error |
| Walk.Matching | FapFinder.go:130-135 | the paths kept are exactly those of entries whose names match, and never more than the entries |
| Walk.WalkNodeCollects | FapFinder.go:120-138 | walking a node appends exactly the matching files reachable from it, in visiting order, and lets the walk continue |
| Walk.WalkDirCollects | FapFinder.go:120-142 | `WalkDir` with this callback never returns an error, and collects exactly the matching files reachable through readable directories |
| Walk.UnreadableSkipped | FapFinder.go:121-123 | an unreadable directory contributes nothing and does not disturb its siblings |
| Scan.Run | FapFinder.go:79-148 | the run fails iff the regex is invalid; otherwise it lists a permutation of the matching reachable files, sorted under the chosen policy |
| Scan.InvalidRegexStopsBeforeWalk | FapFinder.go:80-86 | an invalid regex gives the same error whatever the tree holds |
| Scan.DefaultSettings | FapFinder.go:108-116 | with no flags: the eight built-in patterns, no regex, priority ordering |
| Scan.DefaultRunOrder | FapFinder.go:144-145 | a default run puts `.kdbx` and `.conf` files last and each band in ascending order |
| Scan.DefaultRunLists | FapFinder.go:108-135 | a default run lists a path iff it belongs to a reachable file that one of the built-in patterns accepts |
| Scan.RunLists | FapFinder.go:118-148 | a successful run lists a path iff the path is among the matching reachable files |
| Scan.NonDefaultRunOrder | FapFinder.go:146-147 | with `-ext` or `-regex` given, the output ascends byte-wise |
| Scan.RunIgnoresListingOrder | FapFinder.go:118-148 | trees with the same files, listed in any order, give the same output |
| Scan.MatchingPermutation | FapFinder.go:130-135 | reordering the entries only reorders the collected paths |
| Scenarios.DefaultScenario | FapFinder.go:57-153 | a default run over `a.txt`, `b.kdbx`, `c.conf`, `d.ini` prints `a.txt`, `d.ini`, `b.kdbx`, `c.conf` |
| Scenarios.ExplicitExtScenario | FapFinder.go:57-153 | `-ext "*.kdbx"` over the same tree prints only `b.kdbx` |
| Scenarios.IniOrSecret | FapFinder.go:79-116 | the flags `-ext "*.ini" -regex "^secret"` configure the single pattern `*.ini`, the compiled expression and plain ordering |
| Scenarios.RegexAloneSuffices | FapFinder.go:130-133 | under those flags `secret_plan.docx` matches though the glob rejects it, so through the regex alone |
| Scenarios.GlobAloneSuffices | FapFinder.go:130-133 | under those flags `db.ini` matches though the regex rejects it, so through the glob alone |
| Scenarios.NeitherRejects | FapFinder.go:130-133 | under those flags `notes.docx` does not match |

## Left out

- The file system is not modelled. A directory tree is given as an in-memory
  value in which each directory lists its entries in some order. Go's
  `os.ReadDir` sorts them by name. `Scan.RunIgnoresListingOrder` shows the
  order does not affect the output, so the model leaves it open.
- Path joining is not modelled: every tree node carries its full path.
- Symbolic links, devices and other non-directories are all treated as plain
  files, as `WalkDir` does (it does not follow links).
- `filepath.Match` internals are not modelled. The engine is proved for any
  matcher. The wildcard stand-in that the worked examples use has no
  character classes or escapes, and it reports patterns using them as
  malformed.
- Regular-expression syntax and matching are not modelled. Compilation is a
  parameter that either fails or yields a predicate on names.
- GoStrings.Lower: lower-cases ASCII letters only, where Go's
  `strings.ToLower` maps all of Unicode. So a non-ASCII name whose Unicode
  lower case ends in `.kdbx` or `.conf` is not classed as low-priority.
- Byte-wise string order is modelled as code-point order over characters.
  The two agree for valid UTF-8. Strings holding invalid UTF-8 are not
  modelled.
- Flag parsing is outside the model. Its outcome arrives as a `Flags` value.
  Also outside: the `-help` banner and usage text, the `-path` default
  chosen by operating system, and printing the results.
- Config.DefaultExt: the built-in `-ext` value is written as the comma-join
  of the eight patterns rather than as one string literal. The two are the
  same string.
- Ordering.Sort: Go's `sort.SliceStable` and `sort.Strings` use other
  algorithms than insertion sort. Both sort by a strict total order, so
  the sorted result is unique (`Ordering.SortedUnique`) and any correct sort
  gives this one.
- A `ReadDir` failure part-way through a directory is modelled as an
  unreadable directory. The callback answers it with `SkipDir`, so `WalkDir`
  visits none of the entries read before the failure either.
- Concurrency is left out: the program walks sequentially.
