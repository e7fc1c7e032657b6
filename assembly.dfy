/** The outer part of toArray in src/Diff.php: the two loops that skip the
    common prefix and the common suffix of the unit sequences, and the
    loops that stitch the kept prefix, the popped partial diff and the kept
    tail into the full edit script. `Script` is the script toArray
    returns, stated as a function of the two unit sequences. */
module Assembly {
  import opened Edits
  import opened Lcs

  /** The number of leading units the two sequences share: where the
      prefix loop stops (PrefixLengthIsShared states what it measures). */
  function PrefixLength<T(==)>(s1: seq<T>, s2: seq<T>): (p: nat)
    ensures p <= |s1| && p <= |s2|
    decreases |s1|
  {
    if s1 == [] || s2 == [] || s1[0] != s2[0] then 0 else PrefixLength(s1[1..], s2[1..]) + 1
  }

  /** The first PrefixLength units agree, and the next ones (if both
      sequences have one) differ. */
  lemma {:induction false} PrefixLengthIsShared<T>(s1: seq<T>, s2: seq<T>)
    ensures var p := PrefixLength(s1, s2);
            s1[..p] == s2[..p] && (p == |s1| || p == |s2| || s1[p] != s2[p])
    decreases |s1|
  {
    if s1 != [] && s2 != [] && s1[0] == s2[0] {
      var p' := PrefixLength(s1[1..], s2[1..]);
      PrefixLengthIsShared(s1[1..], s2[1..]);
      assert s1[..p' + 1] == [s1[0]] + s1[1..][..p'];
      assert s2[..p' + 1] == [s2[0]] + s2[1..][..p'];
    }
  }

  /** The number of trailing units the two sequences share past the
      first `start` units, counted on from `k` units already known to
      agree: where the suffix loop stops when it has stepped back `k`
      times. */
  function SharedBack<T(==)>(s1: seq<T>, s2: seq<T>, start: nat, k: nat): (n: nat)
    requires start + k <= |s1| && start + k <= |s2|
    ensures k <= n && start + n <= |s1| && start + n <= |s2|
    decreases |s1| - k
  {
    if start + k == |s1| || start + k == |s2| || s1[|s1| - 1 - k] != s2[|s2| - 1 - k] then k
    else SharedBack(s1, s2, start, k + 1)
  }

  /** The number of trailing units the two sequences share past the
      first `start` units (SuffixLengthIsShared states what it measures). */
  function SuffixLength<T(==)>(s1: seq<T>, s2: seq<T>, start: nat): (n: nat)
    requires start <= |s1| && start <= |s2|
    ensures start + n <= |s1| && start + n <= |s2|
  {
    SharedBack(s1, s2, start, 0)
  }

  lemma SuffixExtend<T>(s1: seq<T>, s2: seq<T>, k: nat)
    requires k < |s1| && k < |s2| && s1[|s1| - k..] == s2[|s2| - k..]
    requires s1[|s1| - 1 - k] == s2[|s2| - 1 - k]
    ensures s1[|s1| - (k + 1)..] == s2[|s2| - (k + 1)..]
  {
    assert s1[|s1| - (k + 1)..] == [s1[|s1| - 1 - k]] + s1[|s1| - k..];
    assert s2[|s2| - (k + 1)..] == [s2[|s2| - 1 - k]] + s2[|s2| - k..];
  }

  lemma {:induction false} SharedBackIsShared<T>(s1: seq<T>, s2: seq<T>, start: nat, k: nat)
    requires start + k <= |s1| && start + k <= |s2|
    requires s1[|s1| - k..] == s2[|s2| - k..]
    ensures var n := SharedBack(s1, s2, start, k);
            s1[|s1| - n..] == s2[|s2| - n..] &&
            (start + n == |s1| || start + n == |s2| || s1[|s1| - 1 - n] != s2[|s2| - 1 - n])
    decreases |s1| - k
  {
    if !(start + k == |s1| || start + k == |s2| || s1[|s1| - 1 - k] != s2[|s2| - 1 - k]) {
      SuffixExtend(s1, s2, k);
      SharedBackIsShared(s1, s2, start, k + 1);
    }
  }

  /** The last SuffixLength units agree, and the ones before them (if
      both sequences have one past `start`) differ. */
  lemma SuffixLengthIsShared<T>(s1: seq<T>, s2: seq<T>, start: nat)
    requires start <= |s1| && start <= |s2|
    ensures var k := SuffixLength(s1, s2, start);
            s1[|s1| - k..] == s2[|s2| - k..] &&
            (k == |s1| - start || k == |s2| - start || s1[|s1| - 1 - k] != s2[|s2| - 1 - k])
  {
    SharedBackIsShared(s1, s2, start, 0);
  }

  /** Any stopping point of the prefix loop is PrefixLength. */
  lemma PrefixLengthUnique<T>(s1: seq<T>, s2: seq<T>, p: nat)
    requires p <= |s1| && p <= |s2| && s1[..p] == s2[..p]
    requires p == |s1| || p == |s2| || s1[p] != s2[p]
    ensures p == PrefixLength(s1, s2)
  {
    var q := PrefixLength(s1, s2);
    PrefixLengthIsShared(s1, s2);
    forall i | 0 <= i < p ensures s1[i] == s2[i] {
      assert s1[..p][i] == s2[..p][i];
    }
    forall i | 0 <= i < q ensures s1[i] == s2[i] {
      assert s1[..q][i] == s2[..q][i];
    }
  }

  /** The prefix loop of toArray: `start` moves past the units the two
      sequences share at the front. */
  method SkipPrefix<T(==)>(s1: seq<T>, s2: seq<T>) returns (start: nat)
    ensures start == PrefixLength(s1, s2)
    ensures start <= |s1| && start <= |s2| && s1[..start] == s2[..start]
  {
    start := 0;
    while start <= |s1| - 1 && start <= |s2| - 1 && s1[start] == s2[start]
      invariant start <= |s1| && start <= |s2|
      invariant s1[..start] == s2[..start]
    {
      assert s1[..start + 1] == s1[..start] + [s1[start]];
      assert s2[..start + 1] == s2[..start] + [s2[start]];
      start := start + 1;
    }
    PrefixLengthUnique(s1, s2, start);
  }

  /** The suffix loop of toArray: `end1` and `end2` move back together over
      the units the two sequences share at the back, never below
      `start - 1`. */
  method SkipSuffix<T(==)>(s1: seq<T>, s2: seq<T>, start: nat) returns (end1: int, end2: int)
    requires start <= |s1| && start <= |s2|
    ensures end1 == |s1| - 1 - SuffixLength(s1, s2, start)
    ensures end2 == |s2| - 1 - SuffixLength(s1, s2, start)
    ensures start <= end1 + 1 <= |s1| && start <= end2 + 1 <= |s2|
    ensures s1[end1 + 1..] == s2[end2 + 1..]
  {
    end1 := |s1| - 1;
    end2 := |s2| - 1;
    ghost var k: nat := 0;
    while end1 >= start && end2 >= start && s1[end1] == s2[end2]
      invariant start + k <= |s1| && start + k <= |s2|
      invariant end1 == |s1| - 1 - k && end2 == |s2| - 1 - k
      invariant s1[|s1| - k..] == s2[|s2| - k..]
    {
      SuffixExtend(s1, s2, k);
      end1, end2, k := end1 - 1, end2 - 1, k + 1;
    }
    SuffixLengthUnique(s1, s2, start, k);
  }

  /** Any stopping point of the suffix loop is SuffixLength. */
  lemma SuffixLengthUnique<T>(s1: seq<T>, s2: seq<T>, start: nat, k: nat)
    requires start + k <= |s1| && start + k <= |s2|
    requires s1[|s1| - k..] == s2[|s2| - k..]
    requires start + k == |s1| || start + k == |s2| || s1[|s1| - 1 - k] != s2[|s2| - 1 - k]
    ensures k == SuffixLength(s1, s2, start)
  {
    SuffixLengthIsShared(s1, s2, start);
  }

  /** The script for a shared prefix of `p` units and a shared suffix of
      `k` units: the prefix kept, the walk of the window between, the
      suffix kept (its units taken from s1). */
  function Assembled<T(==)>(s1: seq<T>, s2: seq<T>, p: nat, k: nat): seq<Entry<T>>
    requires p + k <= |s1| && p + k <= |s2|
  {
    Kept(s1[..p]) + Walk(s1[p..|s1| - k], s2[p..|s2| - k]) + Kept(s1[|s1| - k..])
  }

  /** The edit script toArray returns for the unit sequences s1 and s2. */
  function Script<T(==)>(s1: seq<T>, s2: seq<T>): seq<Entry<T>>
  {
    var p := PrefixLength(s1, s2);
    Assembled(s1, s2, p, SuffixLength(s1, s2, p))
  }

  /** The script put together from the three parts toArray computes. */
  lemma ScriptOfParts<T>(s1: seq<T>, s2: seq<T>, start: nat, k: nat, end1: int, end2: int, middle: seq<Entry<T>>)
    requires start + k <= |s1| && start + k <= |s2|
    requires Script(s1, s2) == Assembled(s1, s2, start, k)
    requires end1 == |s1| - 1 - k
    requires end2 == |s2| - 1 - k
    requires middle == Walk(s1[start..end1 + 1], s2[start..end2 + 1])
    ensures Kept(s1[..start]) + middle + Kept(s1[end1 + 1..]) == Script(s1, s2)
  {
    AssembledOfParts(s1, s2, start, k, end1 + 1, end2 + 1, middle);
  }

  /** The script put together from the shared prefix, the walk over the
      window [start, end1] of s1 and [start, end2] of s2, and the shared
      suffix. */
  lemma ScriptOfWindow<T>(s1: seq<T>, s2: seq<T>, start: nat, end1: int, end2: int, i: nat, j: nat,
                          middle: seq<Entry<T>>)
    requires start == PrefixLength(s1, s2)
    requires end1 == |s1| - 1 - SuffixLength(s1, s2, start)
    requires end2 == |s2| - 1 - SuffixLength(s1, s2, start)
    requires end1 + 1 == start + i && end2 + 1 == start + j
    requires middle == WalkFrom(s1, s2, start, i, j)
    ensures Kept(s1[..start]) + middle + Kept(s1[end1 + 1..]) == Script(s1, s2)
  {
    var k := SuffixLength(s1, s2, start);
    WalkFromWindow(s1, s2, start, i, j, end1, end2);
    ScriptIsAssembled(s1, s2, start, k);
    ScriptOfParts(s1, s2, start, k, end1, end2, middle);
  }

  /** Assembled from its three parts, the window ending at e1 and e2. */
  lemma AssembledOfParts<T>(s1: seq<T>, s2: seq<T>, p: nat, k: nat, e1: int, e2: int, middle: seq<Entry<T>>)
    requires p + k <= |s1| && p + k <= |s2| && e1 == |s1| - k && e2 == |s2| - k
    requires middle == Walk(s1[p..e1], s2[p..e2])
    ensures Kept(s1[..p]) + middle + Kept(s1[e1..]) == Assembled(s1, s2, p, k)
  {
  }

  lemma ScriptIsAssembled<T>(s1: seq<T>, s2: seq<T>, p: nat, k: nat)
    requires p == PrefixLength(s1, s2) && k == SuffixLength(s1, s2, p)
    ensures Script(s1, s2) == Assembled(s1, s2, p, k)
  {
  }

  /** The assembly loops of toArray: the first `start` units of s1 kept,
      the partial diff popped from its end (which reverses it), then the
      units of s1 after `end1` kept. */
  method Assemble<T>(s1: seq<T>, start: nat, end1: int, partial: seq<Entry<T>>)
    returns (diff: seq<Entry<T>>)
    requires start <= end1 + 1 <= |s1|
    ensures diff == Kept(s1[..start]) + Reversed(partial) + Kept(s1[end1 + 1..])
  {
    diff := [];
    for index := 0 to start
      invariant diff == Kept(s1[..index])
    {
      KeptPrefixSnoc(s1, index);
      diff := diff + [Entry(s1[index], Unmodified)];
    }
    ghost var head := diff;
    var rest := partial;
    while |rest| > 0
      invariant diff + Reversed(rest) == head + Reversed(partial)
    {
      PopStep(diff, rest);
      var last := rest[|rest| - 1];
      rest := rest[..|rest| - 1];
      diff := diff + [last];
    }
    assert diff + Reversed(rest) == diff + [];
    ghost var middle := diff;
    for index := end1 + 1 to |s1|
      invariant diff == middle + Kept(s1[end1 + 1..index])
    {
      KeptSliceSnoc(s1, end1 + 1, index);
      diff := diff + [Entry(s1[index], Unmodified)];
    }
    SliceToEnd(s1, end1 + 1);
  }

  // ---------------------------------------------------------------------
  // Properties of the script.

  /** Keeping the Unmodified and Deleted units gives back the first
      sequence; keeping the Unmodified and Inserted units, the second. */
  lemma ScriptProjects<T>(s1: seq<T>, s2: seq<T>)
    ensures Project(Script(s1, s2), Inserted) == s1
    ensures Project(Script(s1, s2), Deleted) == s2
  {
    var p := PrefixLength(s1, s2);
    var k := SuffixLength(s1, s2, p);
    assert Script(s1, s2) == Assembled(s1, s2, p, k);
    PrefixLengthIsShared(s1, s2);
    SuffixLengthIsShared(s1, s2, p);
    WalkProjects(s1[p..|s1| - k], s2[p..|s2| - k]);
    AssembledProject(s1, s2, p, k, Inserted);
    AssembledProject(s1, s2, p, k, Deleted);
    SplitThree(s1, p, |s1| - k);
    SplitThree(s2, p, |s2| - k);
  }

  /** One more unit of a prefix kept is one more Unmodified entry. */
  lemma KeptPrefixSnoc<T>(s: seq<T>, i: nat)
    requires i < |s|
    ensures Kept(s[..i + 1]) == Kept(s[..i]) + [Entry(s[i], Unmodified)]
  {
    assert s[..i + 1][..i] == s[..i];
  }

  /** One more unit of a slice kept is one more Unmodified entry. */
  lemma KeptSliceSnoc<T>(s: seq<T>, lo: nat, i: nat)
    requires lo <= i < |s|
    ensures Kept(s[lo..i + 1]) == Kept(s[lo..i]) + [Entry(s[i], Unmodified)]
  {
    assert s[lo..i + 1][..i - lo] == s[lo..i];
  }

  /** Popping the last entry of `rest` onto `diff` keeps diff followed by
      rest reversed. */
  lemma PopStep<X>(diff: seq<X>, rest: seq<X>)
    requires rest != []
    ensures diff + Reversed(rest) == diff + [rest[|rest| - 1]] + Reversed(rest[..|rest| - 1])
  {
    AppendAssociative(diff, [rest[|rest| - 1]], Reversed(rest[..|rest| - 1]));
  }

  lemma SliceToEnd<T>(s: seq<T>, i: nat)
    requires i <= |s|
    ensures s[i..|s|] == s[i..]
  {
  }

  /** The kept units of a script made of a kept head, a middle and a kept
      tail. */
  lemma KeptPartsCommon<T>(head: seq<T>, middle: seq<Entry<T>>, tail: seq<T>)
    ensures Common(Kept(head) + middle + Kept(tail)) == head + Common(middle) + tail
  {
    CommonAppend(Kept(head) + middle, Kept(tail));
    CommonAppend(Kept(head), middle);
    KeptProjects(head, Inserted);
    KeptProjects(tail, Inserted);
  }

  /** The kept entries of an assembled script: the kept prefix, a longest
      common subsequence of the window, and the kept suffix. */
  lemma AssembledCommonLength<T>(s1: seq<T>, s2: seq<T>, p: nat, k: nat)
    requires p + k <= |s1| && p + k <= |s2|
    ensures |Common(Assembled(s1, s2, p, k))| == p + k + LcsLength(s1[p..|s1| - k], s2[p..|s2| - k])
  {
    var a, b := s1[p..|s1| - k], s2[p..|s2| - k];
    KeptPartsCommon(s1[..p], Walk(a, b), s1[|s1| - k..]);
    WalkCommonLength(a, b);
  }

  /** The kept entries of the script: the shared prefix, a longest common
      subsequence of the window, and the shared suffix. */
  lemma ScriptCommonLength<T>(s1: seq<T>, s2: seq<T>, p: nat, k: nat)
    requires p == PrefixLength(s1, s2) && k == SuffixLength(s1, s2, p)
    ensures |Common(Script(s1, s2))| == p + k + LcsLength(s1[p..|s1| - k], s2[p..|s2| - k])
  {
    ScriptIsAssembled(s1, s2, p, k);
    AssembledCommonLength(s1, s2, p, k);
  }

  /** The kept units of the script are a subsequence of each input. */
  lemma ScriptCommonIsCommon<T>(s1: seq<T>, s2: seq<T>)
    ensures IsSubsequence(Common(Script(s1, s2)), s1)
    ensures IsSubsequence(Common(Script(s1, s2)), s2)
  {
    ScriptProjects(s1, s2);
    CommonIsSubsequence(Script(s1, s2), Inserted);
    CommonIsSubsequence(Script(s1, s2), Deleted);
  }

  /** The measured prefix and suffix are shared by the two inputs. */
  lemma SharedEnds<T>(s1: seq<T>, s2: seq<T>, p: nat, k: nat)
    requires p == PrefixLength(s1, s2) && k == SuffixLength(s1, s2, p)
    ensures s2[..p] == s1[..p] && s2[|s2| - k..] == s1[|s1| - k..]
  {
    PrefixLengthIsShared(s1, s2);
    SuffixLengthIsShared(s1, s2, p);
  }

  /** The two inputs are the shared prefix, their window and the shared
      suffix. */
  lemma TrimmedParts<T>(s1: seq<T>, s2: seq<T>, p: nat, k: nat)
    requires p == PrefixLength(s1, s2) && k == SuffixLength(s1, s2, p)
    ensures s1 == s1[..p] + (s1[p..|s1| - k] + s1[|s1| - k..])
    ensures s2 == s1[..p] + (s2[p..|s2| - k] + s1[|s1| - k..])
  {
    SharedEnds(s1, s2, p, k);
    SplitThree(s1, p, |s1| - k);
    SplitThree(s2, p, |s2| - k);
    AppendAssociative(s1[..p], s1[p..|s1| - k], s1[|s1| - k..]);
    AppendAssociative(s2[..p], s2[p..|s2| - k], s2[|s2| - k..]);
  }

  /** The table value of the whole inputs is the shared prefix and suffix
      plus the table value of the window between them. */
  lemma LcsLengthOfTrimmed<T>(s1: seq<T>, s2: seq<T>, head: seq<T>, a: seq<T>, b: seq<T>, tail: seq<T>)
    requires s1 == head + (a + tail) && s2 == head + (b + tail)
    ensures LcsLength(s1, s2) == |head| + |tail| + LcsLength(a, b)
  {
    LcsLengthSharedPrefix(head, a + tail, b + tail);
    LcsLengthSharedSuffix(a, b, tail);
  }

  /** The table value of the whole inputs is the measured prefix and suffix
      plus the table value of the window between them. */
  lemma TrimmedLcsLength<T>(s1: seq<T>, s2: seq<T>, p: nat, k: nat)
    requires p == PrefixLength(s1, s2) && k == SuffixLength(s1, s2, p)
    ensures LcsLength(s1, s2) == p + k + LcsLength(s1[p..|s1| - k], s2[p..|s2| - k])
  {
    TrimmedParts(s1, s2, p, k);
    LcsLengthOfTrimmed(s1, s2, s1[..p], s1[p..|s1| - k], s2[p..|s2| - k], s1[|s1| - k..]);
  }

  /** The kept entries of the script form a longest common subsequence of
      the two whole sequences: trimming the shared prefix and suffix before
      filling the table loses nothing. */
  lemma ScriptIsLongest<T>(s1: seq<T>, s2: seq<T>)
    ensures IsSubsequence(Common(Script(s1, s2)), s1)
    ensures IsSubsequence(Common(Script(s1, s2)), s2)
    ensures |Common(Script(s1, s2))| == LcsLength(s1, s2)
  {
    var p := PrefixLength(s1, s2);
    var k := SuffixLength(s1, s2, p);
    ScriptCommonIsCommon(s1, s2);
    ScriptCommonLength(s1, s2, p, k);
    TrimmedLcsLength(s1, s2, p, k);
  }

  lemma SplitThree<T>(s: seq<T>, i: nat, j: nat)
    requires i <= j <= |s|
    ensures s[..i] + s[i..j] + s[j..] == s
  {
  }

  /** Projecting the script projects each of its three parts. */
  lemma AssembledProject<T>(s1: seq<T>, s2: seq<T>, p: nat, k: nat, omit: Status)
    requires p + k <= |s1| && p + k <= |s2|
    requires omit != Unmodified
    ensures Project(Assembled(s1, s2, p, k), omit) ==
              s1[..p] + Project(Walk(s1[p..|s1| - k], s2[p..|s2| - k]), omit) + s1[|s1| - k..]
  {
    var head, tail, middle := s1[..p], s1[|s1| - k..], Walk(s1[p..|s1| - k], s2[p..|s2| - k]);
    calc {
      Project(Assembled(s1, s2, p, k), omit);
      Project(Kept(head) + middle + Kept(tail), omit);
    == { ProjectAppend(Kept(head) + middle, Kept(tail), omit); }
      Project(Kept(head) + middle, omit) + Project(Kept(tail), omit);
    == { ProjectAppend(Kept(head), middle, omit); }
      Project(Kept(head), omit) + Project(middle, omit) + Project(Kept(tail), omit);
    == { KeptProjects(head, omit); KeptProjects(tail, omit); }
      head + Project(middle, omit) + tail;
    }
  }

  /** The script has one entry per unit of each sequence, a kept unit
      counting once. */
  lemma ScriptLength<T>(s1: seq<T>, s2: seq<T>)
    ensures |Script(s1, s2)| == |s1| + |s2| - |Common(Script(s1, s2))|
  {
    ScriptProjects(s1, s2);
    ProjectLengths(Script(s1, s2));
  }

  /** Identical sequences are skipped whole by the prefix loop: every unit
      comes out Unmodified, once, in order. */
  lemma ScriptOfIdentical<T>(s: seq<T>)
    ensures Script(s, s) == Kept(s)
  {
    PrefixLengthUnique(s, s, |s|);
    assert SuffixLength(s, s, |s|) == 0;
    assert Script(s, s) == Assembled(s, s, |s|, 0);
    assert s[..|s|] == s;
    assert s[|s|..] == [];
  }

  /** Two different single units: the first is deleted and the second
      inserted, in that order, because the walk prefers the insertion when
      it steps back from the end. */
  lemma ScriptOfTwoUnits<T>(x: T, y: T)
    requires x != y
    ensures Script([x], [y]) == [Entry(x, Deleted), Entry(y, Inserted)]
  {
    PrefixLengthUnique([x], [y], 0);
    assert SuffixLength([x], [y], 0) == 0;
    assert Script([x], [y]) == Assembled([x], [y], 0, 0);
    assert [x][0..1] == [x] && [y][0..1] == [y] && [x][..0] == [] && [x][1..] == [];
    assert [y][..0] == [];
    assert LcsLength([x], [y]) == 0;
    assert Walk([x], []) == Walk([], []) + [Entry(x, Deleted)];
    assert Walk([x], [y]) == Walk([x], []) + [Entry(y, Inserted)];
  }

  // ---------------------------------------------------------------------
  // The whole comparison.

  /** The steps toArray takes on the two unit sequences, in order: skip the
      shared prefix, skip the shared suffix, fill the table over the
      window, walk it back, and stitch the script together. */
  method Compare<T(==)>(units1: seq<T>, units2: seq<T>) returns (diff: seq<Entry<T>>)
    ensures diff == Script(units1, units2)
  {
    var start := SkipPrefix(units1, units2);
    var end1, end2 := SkipSuffix(units1, units2, start);
    var table := ComputeTable(units1, units2, start, end1, end2);
    var partialDiff := GeneratePartialDiff(table, units1, units2, start);
    assert start + |table| - 1 == end1 + 1 && start + |table[0]| - 1 == end2 + 1;
    diff := Assemble(units1, start, end1, partialDiff);
    ScriptOfWindow(units1, units2, start, end1, end2, |table| - 1, |table[0]| - 1, Reversed(partialDiff));
  }
}
