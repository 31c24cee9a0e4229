/** The pure configuration logic of `main`: which glob patterns are active,
    whether a regular expression filter is in force, and which ordering
    policy applies. Flag parsing itself is outside the model; its outcome
    arrives as a `Flags` value. */
module Config {
  import opened Outcomes
  import opened GoStrings
  import Ordering

  /** The eight patterns of the built-in `-ext` value. */
  const DefaultPatternList: seq<string> :=
    ["*.txt", "*.csv", "*.kdbx", "*.config", "*.conf", "*.key", "*.rsa", "*.ini"]

  /** The built-in `-ext` value, "*.txt,*.csv,*.kdbx,*.config,*.conf,*.key,*.rsa,*.ini",
      written as the comma-join of its patterns. */
  const DefaultExt: string := Join(DefaultPatternList, ',')

  /** A compiled regular expression, seen only through `MatchString`. */
  type Regex = string -> bool

  /** What flag parsing yields: `ext` is `None` when `-ext` was not passed
      (the `flag.Visit` test), `regex` is the `-regex` string ("" if absent). */
  datatype Flags = Flags(ext: Option<string>, regex: string)

  datatype ConfigError = InvalidRegex(pattern: string)

  /** The settings a scan runs with. */
  datatype Settings = Settings(patterns: seq<string>, regex: Option<Regex>, order: Ordering.Policy)

  /** One trimmed pattern per comma-separated piece of an `-ext` value. */
  function ParseExt(ext: string): (patterns: seq<string>)
    ensures |patterns| == Count(ext, ',') + 1
    ensures forall i :: 0 <= i < |patterns| ==>
      TrimmedAt(Split(ext, ',')[i], patterns[i], LeadingSpace(Split(ext, ',')[i]))
    ensures forall i :: 0 <= i < |patterns| ==> ',' !in patterns[i]
    ensures forall i :: 0 <= i < |patterns| ==> |patterns[i]| == 0 || !IsSpace(patterns[i][0])
    ensures forall i :: 0 <= i < |patterns| ==> |patterns[i]| == 0 || !IsSpace(patterns[i][|patterns[i]| - 1])
  {
    var pieces := Split(ext, ',');
    var r := seq(|pieces|, i requires 0 <= i < |pieces| => TrimSpace(pieces[i]));
    forall i | 0 <= i < |r|
      ensures ',' !in r[i] && TrimmedAt(pieces[i], r[i], LeadingSpace(pieces[i]))
      ensures |r[i]| == 0 || (!IsSpace(r[i][0]) && !IsSpace(r[i][|r[i]| - 1]))
    {
      TrimKeepsNoComma(pieces[i]);
    }
    r
  }

  /** Trimming a comma-free piece leaves it comma-free. */
  lemma TrimKeepsNoComma(piece: string)
    requires ',' !in piece
    ensures ',' !in TrimSpace(piece)
    ensures TrimmedAt(piece, TrimSpace(piece), LeadingSpace(piece))
    ensures |TrimSpace(piece)| == 0 || (!IsSpace(TrimSpace(piece)[0]) && !IsSpace(TrimSpace(piece)[|TrimSpace(piece)| - 1]))
  {
    var a := LeadingSpace(piece);
    var r := TrimSpace(piece);
    assert r == piece[a..a + |r|];
  }

  /** The pattern list `main` builds. */
  function Patterns(ext: Option<string>, haveRegex: bool): (patterns: seq<string>)
    ensures ext.Some? && ext.value != "" ==> patterns == ParseExt(ext.value)
    ensures ext.Some? && ext.value != "" ==> |patterns| == Count(ext.value, ',') + 1
    ensures ext.Some? && ext.value == "" ==> patterns == []
    ensures ext.None? && !haveRegex ==> patterns == DefaultPatternList
    ensures ext.None? && haveRegex ==> patterns == []
    ensures forall i :: 0 <= i < |patterns| ==> ',' !in patterns[i]
  {
    match ext
    case Some(e) => if e != "" then ParseExt(e) else []
    case None =>
      if !haveRegex then
        DefaultExtParses();
        ParseExt(DefaultExt)
      else []
  }

  /** `usingDefaultSort`: priority ordering only when `-ext` was not passed
      and no regular expression was compiled. */
  function OrderFor(ext: Option<string>, haveRegex: bool): (policy: Ordering.Policy)
    ensures policy == Ordering.PriorityDemote <==> ext.None? && !haveRegex
  {
    if ext.None? && !haveRegex then Ordering.PriorityDemote else Ordering.Lexicographic
  }

  /** From flags to settings. A non-empty `-regex` is compiled first; a
      compilation failure ends the run before anything else happens. */
  function Configure(flags: Flags, compile: string -> Option<Regex>): (r: Result<Settings, ConfigError>)
    ensures r.Err? <==> flags.regex != "" && compile(flags.regex).None?
    ensures r.Err? ==> r.error == InvalidRegex(flags.regex)
    ensures r.Ok? ==> (r.value.regex.Some? <==> flags.regex != "")
    ensures r.Ok? ==> r.value.patterns == Patterns(flags.ext, flags.regex != "")
    ensures r.Ok? && r.value.regex.Some? ==> compile(flags.regex) == Some(r.value.regex.value)
    ensures r.Ok? ==> (r.value.order == Ordering.PriorityDemote <==> flags.ext.None? && flags.regex == "")
  {
    var regex := if flags.regex != "" then compile(flags.regex) else None;
    if flags.regex != "" && regex.None? then Err(InvalidRegex(flags.regex))
    else
      var haveRegex := regex.Some?;
      Ok(Settings(Patterns(flags.ext, haveRegex), regex, OrderFor(flags.ext, haveRegex)))
  }

  /** Splitting a comma-join of blank-free, comma-free pieces and trimming
      each piece gives the pieces back. */
  lemma {:induction false} ParseExtOfJoin(parts: seq<string>)
    requires |parts| > 0
    requires forall i :: 0 <= i < |parts| ==> ',' !in parts[i]
    requires forall i :: 0 <= i < |parts| ==> TrimSpace(parts[i]) == parts[i]
    ensures ParseExt(Join(parts, ',')) == parts
  {
    SplitJoin(parts, ',');
    var r := ParseExt(Join(parts, ','));
    assert |r| == |parts|;
    forall i | 0 <= i < |r| ensures r[i] == parts[i] {
      assert r[i] == TrimSpace(Split(Join(parts, ','), ',')[i]);
    }
  }

  lemma DefaultPatternsTrimmed()
    ensures forall i :: 0 <= i < |DefaultPatternList| ==> ',' !in DefaultPatternList[i]
    ensures forall i :: 0 <= i < |DefaultPatternList| ==> TrimSpace(DefaultPatternList[i]) == DefaultPatternList[i]
  {
    DefaultPatternsNoComma();
    forall i | 0 <= i < |DefaultPatternList|
      ensures TrimSpace(DefaultPatternList[i]) == DefaultPatternList[i]
    {
      DefaultPatternOuterChars(i);
      TrimSpaceUnchanged(DefaultPatternList[i]);
    }
  }

  lemma DefaultPatternsNoComma()
    ensures forall i :: 0 <= i < |DefaultPatternList| ==> ',' !in DefaultPatternList[i]
  {
  }

  /** Every built-in pattern starts with `*` and ends in a lower-case letter. */
  lemma DefaultPatternOuterChars(i: nat)
    requires i < |DefaultPatternList|
    ensures |DefaultPatternList[i]| > 0 && DefaultPatternList[i][0] == '*'
    ensures 'a' <= DefaultPatternList[i][|DefaultPatternList[i]| - 1] <= 'z'
  {
  }

  /** The built-in `-ext` value parses back into the eight built-in patterns, in order. */
  lemma DefaultExtParses()
    ensures ParseExt(DefaultExt) == DefaultPatternList
  {
    DefaultPatternsTrimmed();
    ParseExtOfJoin(DefaultPatternList);
  }

  /** The default run uses exactly the eight built-in patterns, in order. */
  lemma DefaultPatterns()
    ensures Patterns(None, false) == DefaultPatternList
    ensures |Patterns(None, false)| == 8
  {
  }

  /** An explicit `-ext` yields its pieces, trimmed, in order; an `-ext`
      with no surrounding blanks therefore comes back piece for piece,
      whether or not a regular expression is also given. */
  lemma ExplicitPatternsRoundTrip(parts: seq<string>, haveRegex: bool)
    requires |parts| > 0
    requires forall i :: 0 <= i < |parts| ==> ',' !in parts[i]
    requires forall i :: 0 <= i < |parts| ==> TrimSpace(parts[i]) == parts[i]
    requires Join(parts, ',') != ""
    ensures Patterns(Some(Join(parts, ',')), haveRegex) == parts
  {
    ParseExtOfJoin(parts);
  }

  /** Passing `-ext` explicitly turns priority ordering off even when its
      value is the built-in list. */
  lemma ExplicitDefaultIsNotPriority(compile: string -> Option<Regex>)
    ensures Configure(Flags(Some(DefaultExt), ""), compile).Ok?
    ensures Configure(Flags(Some(DefaultExt), ""), compile).value.order == Ordering.Lexicographic
    ensures Configure(Flags(Some(DefaultExt), ""), compile).value.patterns == Patterns(None, false)
  {
  }
}
