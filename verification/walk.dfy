/** The `filepath.WalkDir` callback of `main` and the walk that drives it,
    over an in-memory directory tree instead of the real file system. */
module Walk {
  import opened Glob
  import opened Config

  /** The match policy: a glob pattern accepts the base name, or a regular
      expression is in force and matches it. */
  predicate NameMatches(settings: Settings, glob: Matcher, name: string) {
    MatchPattern(glob, name, settings.patterns) ||
    (settings.regex.Some? && settings.regex.value(name))
  }

  /** What the callback is handed: the path, the entry's base name, whether it
      is a directory, and whether the walk reports an error for it. */
  datatype Entry = Entry(path: string, name: string, isDir: bool, failed: bool)

  /** The callback's return value: nil, `filepath.SkipDir`, or any other error. */
  datatype Signal = Continue | SkipDir | Abort

  /** The paths collected so far and the value the callback (or walk) returned. */
  datatype Visit = Visit(found: seq<string>, signal: Signal)

  /** The condition under which the callback appends the entry's path. */
  predicate Recorded(settings: Settings, glob: Matcher, e: Entry) {
    !e.failed && !e.isDir && NameMatches(settings, glob, e.name)
  }

  /** The `WalkDir` callback: skip on error, pass over directories, record a
      matching non-directory. */
  function Callback(settings: Settings, glob: Matcher, found: seq<string>, e: Entry): (v: Visit)
    ensures v.signal == SkipDir <==> e.failed
    ensures v.signal != Abort
    ensures Recorded(settings, glob, e) ==> v.found == found + [e.path]
    ensures !Recorded(settings, glob, e) ==> v.found == found
  {
    if e.failed then Visit(found, SkipDir)
    else if e.isDir then Visit(found, Continue)
    else if NameMatches(settings, glob, e.name) then
      Visit(found + [e.path], Continue)
    else Visit(found, Continue)
  }

  /** A directory tree as the walk sees it. Every node carries its full path
      and its base name. A non-directory leaf stands for any entry the walk
      does not descend into (files, symbolic links, devices). */
  datatype Node =
    | File(path: string, name: string)
    | Dir(path: string, name: string, children: seq<Node>)
    | Unreadable(path: string, name: string)  // a directory whose listing fails

  /** The starting point: either a path that cannot be examined at all, or a node. */
  datatype Root = Missing(path: string) | Present(node: Node)

  /** `filepath.SkipDir` returned for a directory means "do not descend" and
      is not passed on. */
  function AfterDir(s: Signal): Signal {
    if s == SkipDir then Continue else s
  }

  /** `walkDir` on one node: call back for the node itself, then (for a
      readable directory) for its children in order. */
  function WalkNode(settings: Settings, glob: Matcher, node: Node, found: seq<string>): Visit
    decreases node
  {
    match node
    case File(p, n) => Callback(settings, glob, found, Entry(p, n, false, false))
    case Dir(p, n, cs) =>
      var v := Callback(settings, glob, found, Entry(p, n, true, false));
      if v.signal != Continue then Visit(v.found, AfterDir(v.signal))
      else WalkChildren(settings, glob, cs, v.found)
    case Unreadable(p, n) =>
      var v := Callback(settings, glob, found, Entry(p, n, true, false));
      if v.signal != Continue then Visit(v.found, AfterDir(v.signal))
      else
        var w := Callback(settings, glob, v.found, Entry(p, n, true, true));
        Visit(w.found, AfterDir(w.signal))
  }

  /** The loop over a directory's entries: `SkipDir` from an entry ends the
      loop quietly, any other error ends the whole walk. */
  function WalkChildren(settings: Settings, glob: Matcher, cs: seq<Node>, found: seq<string>): Visit
    decreases cs
  {
    if |cs| == 0 then Visit(found, Continue)
    else
      var v := WalkNode(settings, glob, cs[0], found);
      if v.signal == SkipDir then Visit(v.found, Continue)
      else if v.signal == Abort then v
      else WalkChildren(settings, glob, cs[1..], v.found)
  }

  /** The outcome of `filepath.WalkDir`: the collected paths, and whether it
      returned an error (which `main` would print). */
  datatype Walked = Walked(found: seq<string>, failed: bool)

  function WalkDir(settings: Settings, glob: Matcher, root: Root): Walked {
    var v := match root
      case Missing(p) => Callback(settings, glob, [], Entry(p, "", false, true))
      case Present(n) => WalkNode(settings, glob, n, []);
    Walked(v.found, v.signal == Abort)
  }

  // An independent description of what the walk collects.

  /** The non-directory entries reachable from a node through readable
      directories, in visiting order. */
  function Files(node: Node): seq<Entry>
    decreases node
  {
    match node
    case File(p, n) => [Entry(p, n, false, false)]
    case Dir(_, _, cs) => FilesIn(cs)
    case Unreadable(_, _) => []
  }

  function FilesIn(cs: seq<Node>): seq<Entry>
    decreases cs
  {
    if |cs| == 0 then [] else Files(cs[0]) + FilesIn(cs[1..])
  }

  function RootFiles(root: Root): seq<Entry> {
    match root
    case Missing(_) => []
    case Present(n) => Files(n)
  }

  /** The paths of the entries whose names match, keeping their order. */
  function Matching(settings: Settings, glob: Matcher, es: seq<Entry>): (paths: seq<string>)
    ensures |paths| <= |es|
    ensures forall p :: p in paths <==>
      exists i :: 0 <= i < |es| && es[i].path == p && NameMatches(settings, glob, es[i].name)
  {
    if |es| == 0 then []
    else
      var rest := Matching(settings, glob, es[1..]);
      assert forall i :: 0 < i < |es| ==> es[i] == es[1..][i - 1];
      if NameMatches(settings, glob, es[0].name) then [es[0].path] + rest else rest
  }

  lemma {:induction false} MatchingAppend(settings: Settings, glob: Matcher, a: seq<Entry>, b: seq<Entry>)
    ensures Matching(settings, glob, a + b) == Matching(settings, glob, a) + Matching(settings, glob, b)
    decreases |a|
  {
    if |a| > 0 {
      assert (a + b)[0] == a[0];
      assert (a + b)[1..] == a[1..] + b;
      MatchingAppend(settings, glob, a[1..], b);
      var rest := Matching(settings, glob, a[1..]);
      var tail := Matching(settings, glob, b);
      assert [a[0].path] + (rest + tail) == [a[0].path] + rest + tail;
    } else {
      assert a + b == b;
    }
  }

  /** Walking a node appends exactly the matching reachable files, and the
      walk goes on afterwards. */
  lemma {:induction false} WalkNodeCollects(settings: Settings, glob: Matcher, node: Node, found: seq<string>)
    ensures WalkNode(settings, glob, node, found) ==
      Visit(found + Matching(settings, glob, Files(node)), Continue)
    decreases node
  {
    match node
    case File(p, n) =>
      assert Files(node)[1..] == [];
    case Dir(p, n, cs) =>
      WalkChildrenCollect(settings, glob, cs, found);
    case Unreadable(p, n) =>
      assert found + [] == found;
  }

  lemma {:induction false} WalkChildrenCollect(settings: Settings, glob: Matcher, cs: seq<Node>, found: seq<string>)
    ensures WalkChildren(settings, glob, cs, found) ==
      Visit(found + Matching(settings, glob, FilesIn(cs)), Continue)
    decreases cs
  {
    if |cs| == 0 {
      assert found + [] == found;
    } else {
      WalkNodeCollects(settings, glob, cs[0], found);
      var mid := found + Matching(settings, glob, Files(cs[0]));
      WalkChildrenCollect(settings, glob, cs[1..], mid);
      MatchingAppend(settings, glob, Files(cs[0]), FilesIn(cs[1..]));
    }
  }

  /** `filepath.WalkDir` with this callback never returns an error, so the
      "Error walking the path" report is never made; it collects exactly the
      matching files reachable through readable directories. */
  lemma WalkDirCollects(settings: Settings, glob: Matcher, root: Root)
    ensures !WalkDir(settings, glob, root).failed
    ensures WalkDir(settings, glob, root).found == Matching(settings, glob, RootFiles(root))
  {
    if root.Present? {
      WalkNodeCollects(settings, glob, root.node, []);
    }
  }

  /** An unreadable directory contributes nothing, and its siblings are
      walked as if it were absent. */
  lemma UnreadableSkipped(settings: Settings, glob: Matcher, before: seq<Node>, p: string, n: string, after: seq<Node>, found: seq<string>)
    ensures WalkChildren(settings, glob, before + [Unreadable(p, n)] + after, found) ==
      WalkChildren(settings, glob, before + after, found)
  {
    FilesInAppend(before + [Unreadable(p, n)], after);
    FilesInAppend(before, [Unreadable(p, n)]);
    FilesInAppend(before, after);
    assert [Unreadable(p, n)][1..] == [];
    assert FilesIn([Unreadable(p, n)]) == [];
    assert FilesIn(before + [Unreadable(p, n)]) == FilesIn(before);
    assert FilesIn(before + [Unreadable(p, n)] + after) == FilesIn(before + after);
    WalkChildrenCollect(settings, glob, before + [Unreadable(p, n)] + after, found);
    WalkChildrenCollect(settings, glob, before + after, found);
  }

  lemma {:induction false} FilesInAppend(a: seq<Node>, b: seq<Node>)
    ensures FilesIn(a + b) == FilesIn(a) + FilesIn(b)
    decreases |a|
  {
    if |a| > 0 {
      assert (a + b)[0] == a[0];
      assert (a + b)[1..] == a[1..] + b;
      FilesInAppend(a[1..], b);
      assert Files(a[0]) + (FilesIn(a[1..]) + FilesIn(b)) == Files(a[0]) + FilesIn(a[1..]) + FilesIn(b);
    } else {
      assert a + b == b;
    }
  }
}
