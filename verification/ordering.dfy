/** Ordering of the collected paths: `prioritySort` and `sort.Strings`. Both
    are sorts by a strict total order on strings, so one insertion sort,
    parameterised by the policy, models both. */
module Ordering {
  import opened GoStrings

  datatype Policy = PriorityDemote | Lexicographic

  /** A path is low-priority when its lower-cased form ends in `.kdbx` or `.conf`. */
  predicate IsLow(path: string) {
    HasSuffix(Lower(path), ".kdbx") || HasSuffix(Lower(path), ".conf")
  }

  /** The low-priority class ignores case: a path is low exactly when it
      ends in `.kdbx` or `.conf` with each letter in either case. */
  lemma IsLowCharacterised(path: string)
    ensures IsLow(path) <==>
      EndsIgnoringCase(path, ".kdbx", ".KDBX") || EndsIgnoringCase(path, ".conf", ".CONF")
  {
    HasSuffixIgnoringCase(path, ".kdbx", ".KDBX");
    HasSuffixIgnoringCase(path, ".conf", ".CONF");
  }

  /** A path whose last character, lower-cased, is neither `x` nor `f` cannot
      end in `.kdbx` or `.conf`. */
  lemma NotLowByLastChar(path: string)
    requires |path| > 0
    requires LowerChar(path[|path| - 1]) != 'x' && LowerChar(path[|path| - 1]) != 'f'
    ensures !IsLow(path)
  {
    var l := Lower(path);
    HasSuffixLast(l, ".kdbx");
    HasSuffixLast(l, ".conf");
  }

  /** The comparator handed to the sort. Under `PriorityDemote` a
      non-low-priority path goes first and ties fall back to the byte-wise
      order of the original strings; under `Lexicographic` only the latter. */
  predicate Before(policy: Policy, a: string, b: string) {
    match policy
    case Lexicographic => Less(a, b)
    case PriorityDemote => if IsLow(a) != IsLow(b) then !IsLow(a) else Less(a, b)
  }

  lemma BeforeAsymmetric(policy: Policy, a: string, b: string)
    ensures Before(policy, a, b) ==> !Before(policy, b, a)
  {
    LessAsymmetric(a, b);
  }

  lemma BeforeTransitive(policy: Policy, a: string, b: string, c: string)
    requires Before(policy, a, b) && Before(policy, b, c)
    ensures Before(policy, a, c)
  {
    if policy.Lexicographic? || (IsLow(a) == IsLow(b) && IsLow(b) == IsLow(c)) {
      LessTransitive(a, b, c);
    }
  }

  lemma BeforeTotal(policy: Policy, a: string, b: string)
    requires a != b
    ensures Before(policy, a, b) || Before(policy, b, a)
  {
    LessTotal(a, b);
  }

  /** Two paths the comparator cannot tell apart are the same path, so the
      stability of `sort.SliceStable` has no observable effect. */
  lemma TiesAreEqual(policy: Policy, a: string, b: string)
    requires !Before(policy, a, b) && !Before(policy, b, a)
    ensures a == b
  {
    if a != b {
      BeforeTotal(policy, a, b);
    }
  }

  /** No later element is strictly before an earlier one. */
  predicate Sorted(policy: Policy, s: seq<string>) {
    forall i, j :: 0 <= i < j < |s| ==> !Before(policy, s[j], s[i])
  }

  /** Putting in front an element no later element is before keeps a sequence sorted. */
  lemma SortedCons(policy: Policy, x: string, s: seq<string>)
    requires Sorted(policy, s)
    requires forall k :: 0 <= k < |s| ==> !Before(policy, s[k], x)
    ensures Sorted(policy, [x] + s)
  {
  }

  /** An element before the head of a sorted sequence is before all of it. */
  lemma BeforeHeadBeforeAll(policy: Policy, x: string, s: seq<string>)
    requires Sorted(policy, s) && |s| > 0 && Before(policy, x, s[0])
    ensures forall k :: 0 <= k < |s| ==> !Before(policy, s[k], x)
  {
    forall k | 0 <= k < |s| ensures !Before(policy, s[k], x) {
      if s[k] != s[0] {
        BeforeTotal(policy, s[0], s[k]);
        BeforeTransitive(policy, x, s[0], s[k]);
      }
      BeforeAsymmetric(policy, x, s[k]);
    }
  }

  /** The head of a sorted sequence stays first when `x`, not before it, is
      inserted into the rest. */
  lemma HeadStaysFirst(policy: Policy, x: string, s: seq<string>, t: seq<string>)
    requires Sorted(policy, s) && |s| > 0 && !Before(policy, x, s[0])
    requires multiset(t) == multiset(s[1..]) + multiset{x}
    ensures forall k :: 0 <= k < |t| ==> !Before(policy, t[k], s[0])
  {
    forall k | 0 <= k < |t| ensures !Before(policy, t[k], s[0]) {
      assert t[k] in multiset(t);
      if t[k] != x {
        assert t[k] in multiset(s[1..]);
        var m :| 0 <= m < |s[1..]| && s[1..][m] == t[k];
        assert s[m + 1] == t[k];
      }
    }
  }

  /** Insert `x` into a sorted sequence after every element not after it. */
  function Insert(policy: Policy, x: string, s: seq<string>): (r: seq<string>)
    requires Sorted(policy, s)
    ensures multiset(r) == multiset(s) + multiset{x}
    ensures Sorted(policy, r)
  {
    if |s| == 0 then [x]
    else if Before(policy, x, s[0]) then
      BeforeHeadBeforeAll(policy, x, s);
      SortedCons(policy, x, s);
      [x] + s
    else
      var t := Insert(policy, x, s[1..]);
      assert s == [s[0]] + s[1..];
      HeadStaysFirst(policy, x, s, t);
      SortedCons(policy, s[0], t);
      [s[0]] + t
  }

  /** The sort applied to the collected paths: insertion sort, which is stable. */
  function Sort(policy: Policy, s: seq<string>): (r: seq<string>)
    ensures multiset(r) == multiset(s)
    ensures Sorted(policy, r)
  {
    if |s| == 0 then []
    else
      assert s == s[..|s| - 1] + [s[|s| - 1]];
      Insert(policy, s[|s| - 1], Sort(policy, s[..|s| - 1]))
  }

  /** `prioritySort`. */
  function PrioritySort(files: seq<string>): seq<string> {
    Sort(PriorityDemote, files)
  }

  /** `sort.Strings`. */
  function SortStrings(files: seq<string>): seq<string> {
    Sort(Lexicographic, files)
  }

  /** Two sorted arrangements of the same paths start with the same path. */
  lemma SortedHeadsAgree(policy: Policy, a: seq<string>, b: seq<string>)
    requires Sorted(policy, a) && Sorted(policy, b)
    requires multiset(a) == multiset(b) && |a| > 0
    ensures |b| > 0 && a[0] == b[0]
  {
    assert a[0] in multiset(b);
    assert |b| > 0;
    assert b[0] in multiset(a);
    var i :| 0 <= i < |b| && b[i] == a[0];
    var j :| 0 <= j < |a| && a[j] == b[0];
    if a[0] != b[0] {
      BeforeTotal(policy, a[0], b[0]);
      assert false;
    }
  }

  lemma SortedTail(policy: Policy, s: seq<string>)
    requires Sorted(policy, s) && |s| > 0
    ensures Sorted(policy, s[1..])
  {
  }

  /** The sorted arrangement of a multiset of paths is unique. */
  lemma {:induction false} SortedUnique(policy: Policy, a: seq<string>, b: seq<string>)
    requires Sorted(policy, a) && Sorted(policy, b)
    requires multiset(a) == multiset(b)
    ensures a == b
    decreases |a|
  {
    if |a| > 0 {
      SortedHeadsAgree(policy, a, b);
      assert a == [a[0]] + a[1..] && b == [b[0]] + b[1..];
      assert multiset(a[1..]) == multiset(a) - multiset{a[0]};
      assert multiset(b[1..]) == multiset(b) - multiset{b[0]};
      SortedTail(policy, a);
      SortedTail(policy, b);
      SortedUnique(policy, a[1..], b[1..]);
    } else {
      assert |b| == |multiset(b)| == 0;
    }
  }

  /** Sorting an already sorted sequence leaves it unchanged. */
  lemma SortOfSorted(policy: Policy, s: seq<string>)
    requires Sorted(policy, s)
    ensures Sort(policy, s) == s
  {
    SortedUnique(policy, Sort(policy, s), s);
  }

  lemma SortIdempotent(policy: Policy, s: seq<string>)
    ensures Sort(policy, Sort(policy, s)) == Sort(policy, s)
  {
    SortOfSorted(policy, Sort(policy, s));
  }

  /** The result depends only on which paths were collected, not on the order
      in which the walk delivered them. */
  lemma SortIgnoresArrivalOrder(policy: Policy, s: seq<string>, t: seq<string>)
    requires multiset(s) == multiset(t)
    ensures Sort(policy, s) == Sort(policy, t)
  {
    SortedUnique(policy, Sort(policy, s), Sort(policy, t));
  }

  /** Every path that is not low-priority precedes every path that is. */
  predicate Demoted(r: seq<string>) {
    forall i, j :: 0 <= i < j < |r| && IsLow(r[i]) ==> IsLow(r[j])
  }

  /** Within each band the paths ascend in byte-wise order. */
  predicate BandsAscending(r: seq<string>) {
    forall i, j :: 0 <= i < j < |r| && IsLow(r[i]) == IsLow(r[j]) ==> !Less(r[j], r[i])
  }

  /** The paths ascend in byte-wise order. */
  predicate Ascending(r: seq<string>) {
    forall i, j :: 0 <= i < j < |r| ==> !Less(r[j], r[i])
  }

  /** Sorted under the priority comparator means exactly: demoted, and
      ascending within each band. */
  lemma PrioritySortedMeans(r: seq<string>)
    ensures Sorted(PriorityDemote, r) <==> Demoted(r) && BandsAscending(r)
  {
  }

  /** `prioritySort` returns the one arrangement of its input in which the
      low-priority paths come last and each band ascends. */
  lemma PrioritySortCharacterised(files: seq<string>, r: seq<string>)
    ensures r == PrioritySort(files) <==>
      multiset(r) == multiset(files) && Demoted(r) && BandsAscending(r)
  {
    PrioritySortedMeans(r);
    PrioritySortedMeans(PrioritySort(files));
    if multiset(r) == multiset(files) && Demoted(r) && BandsAscending(r) {
      SortedUnique(PriorityDemote, r, PrioritySort(files));
    }
  }

  /** `sort.Strings` returns the one ascending arrangement of its input. */
  lemma SortStringsCharacterised(files: seq<string>, r: seq<string>)
    ensures r == SortStrings(files) <==> multiset(r) == multiset(files) && Ascending(r)
  {
    assert Sorted(Lexicographic, r) <==> Ascending(r);
    if multiset(r) == multiset(files) && Ascending(r) {
      SortedUnique(Lexicographic, r, SortStrings(files));
    }
  }

  /** The class ignores case where the tie-break would not: byte order puts
      `A.KDBX` before `b.txt`, but `A.KDBX` is low-priority and goes last. */
  lemma UpperCaseLowExample()
    ensures Less("A.KDBX", "b.txt")
    ensures PrioritySort(["A.KDBX", "b.txt"]) == ["b.txt", "A.KDBX"]
  {
    var want := ["b.txt", "A.KDBX"];
    UpperKdbxIsLow();
    NotLowByLastChar("b.txt");
    assert Sorted(PriorityDemote, want);
    assert multiset(want) == multiset(["A.KDBX", "b.txt"]);
    SortedUnique(PriorityDemote, PrioritySort(["A.KDBX", "b.txt"]), want);
  }

  lemma UpperKdbxIsLow()
    ensures IsLow("A.KDBX")
  {
    IsLowCharacterised("A.KDBX");
    assert EndsIgnoringCase("A.KDBX", ".kdbx", ".KDBX");
  }

  /** Upper case sorts before lower case within a band: `B.txt` precedes `a.txt`. */
  lemma UpperCaseFirstExample()
    ensures PrioritySort(["a.txt", "B.txt"]) == ["B.txt", "a.txt"]
  {
    var want := ["B.txt", "a.txt"];
    assert Less("B.txt", "a.txt");
    NotLowByLastChar("a.txt");
    NotLowByLastChar("B.txt");
    assert Sorted(PriorityDemote, want);
    assert multiset(want) == multiset(["a.txt", "B.txt"]);
    SortedUnique(PriorityDemote, PrioritySort(["a.txt", "B.txt"]), want);
  }
}
