/** The longest-common-subsequence engine of src/Diff.php: the quadratic
    length table (computeTable) and the backward walk over it that emits
    the edit script of the comparison window (generatePartialDiff).
    Both work on generic units compared by exact equality. */
module Lcs {
  import opened Edits

  function Max(x: nat, y: nat): nat
  {
    if x < y then y else x
  }

  /** The value table[|a|][|b|] of the table built over `a` and `b`:
      0 on row 0 and column 0, one more than the diagonal when the last
      units match, otherwise the larger of the cell above and the cell to
      the left. It never exceeds either length. */
  function LcsLength<T(==)>(a: seq<T>, b: seq<T>): (n: nat)
    ensures n <= |a| && n <= |b|
    decreases |a| + |b|
  {
    if |a| == 0 || |b| == 0 then 0
    else if a[|a| - 1] == b[|b| - 1] then LcsLength(a[..|a| - 1], b[..|b| - 1]) + 1
    else Max(LcsLength(a[..|a| - 1], b), LcsLength(a, b[..|b| - 1]))
  }

  /** `c` is obtained from `a` by deleting units. */
  predicate IsSubsequence<T(==)>(c: seq<T>, a: seq<T>)
    decreases |a|
  {
    c == [] ||
    (a != [] &&
      (IsSubsequence(c, a[..|a| - 1]) ||
       (c[|c| - 1] == a[|a| - 1] && IsSubsequence(c[..|c| - 1], a[..|a| - 1]))))
  }

  /** The script the backward walk reads off the table, in forward order.
      A match of the last units is taken first; otherwise the walk prefers
      INSERTED when dropping the last unit of `b` keeps the table value,
      and falls back to DELETED. */
  function Walk<T(==)>(a: seq<T>, b: seq<T>): seq<Entry<T>>
    decreases |a| + |b|
  {
    if |a| == 0 && |b| == 0 then []
    else if |a| > 0 && |b| > 0 && a[|a| - 1] == b[|b| - 1] then
      Walk(a[..|a| - 1], b[..|b| - 1]) + [Entry(a[|a| - 1], Unmodified)]
    else if |b| > 0 && LcsLength(a, b) == LcsLength(a, b[..|b| - 1]) then
      Walk(a, b[..|b| - 1]) + [Entry(b[|b| - 1], Inserted)]
    else
      Walk(a[..|a| - 1], b) + [Entry(a[|a| - 1], Deleted)]
  }

  // ---------------------------------------------------------------------
  // The table value is the length of a longest common subsequence.

  lemma {:induction false} SubsequenceDropLast<T>(c: seq<T>, a: seq<T>)
    requires IsSubsequence(c, a) && c != []
    ensures a != [] && IsSubsequence(c[..|c| - 1], a[..|a| - 1])
    decreases |a|
  {
    var a' := a[..|a| - 1];
    if !(c[|c| - 1] == a[|a| - 1] && IsSubsequence(c[..|c| - 1], a')) {
      SubsequenceDropLast(c, a');
      assert a'[..|a'| - 1] == a[..|a| - 2];
    }
  }

  /** No common subsequence is longer than the table value. */
  lemma {:induction false} LcsLengthIsUpperBound<T>(c: seq<T>, a: seq<T>, b: seq<T>)
    requires IsSubsequence(c, a) && IsSubsequence(c, b)
    ensures |c| <= LcsLength(a, b)
    decreases |a| + |b|
  {
    if c != [] {
      var a', b', c' := a[..|a| - 1], b[..|b| - 1], c[..|c| - 1];
      if a[|a| - 1] == b[|b| - 1] {
        SubsequenceDropLast(c, a);
        SubsequenceDropLast(c, b);
        LcsLengthIsUpperBound(c', a', b');
      } else if c[|c| - 1] != a[|a| - 1] {
        LcsLengthIsUpperBound(c, a', b);
      } else {
        LcsLengthIsUpperBound(c, a, b');
      }
    }
  }

  lemma {:induction false} SubsequenceAppend<T>(c: seq<T>, a: seq<T>, x: T)
    requires IsSubsequence(c, a)
    ensures IsSubsequence(c, a + [x])
  {
    assert (a + [x])[..|a|] == a;
  }

  /** The kept units of a script are a subsequence of each projection. */
  lemma {:induction false} CommonIsSubsequence<T>(s: seq<Entry<T>>, omit: Status)
    requires omit != Unmodified
    ensures IsSubsequence(Common(s), Project(s, omit))
    decreases |s|
  {
    if s != [] {
      var s' := s[..|s| - 1];
      var e := s[|s| - 1];
      CommonIsSubsequence(s', omit);
      assert s == s' + [e];
      CommonSnoc(s', e);
      ProjectSnoc(s', e, omit);
      if e.status == Unmodified {
        var c, p := Common(s), Project(s, omit);
        assert c[..|c| - 1] == Common(s') && p[..|p| - 1] == Project(s', omit);
      } else if e.status != omit {
        assert Common(s) == Common(s') && Project(s, omit) == Project(s', omit) + [e.unit];
        SubsequenceAppend(Common(s'), Project(s', omit), e.unit);
      } else {
        assert Common(s) == Common(s') && Project(s, omit) == Project(s', omit);
      }
    }
  }

  // ---------------------------------------------------------------------
  // Properties of the walk.

  /** One step of the walk, with what it says about the two sides and
      about the table value. The DELETED step is only taken while a unit
      of `a` is left, because row 0 of the table is all zero. */
  lemma WalkStep<T>(a: seq<T>, b: seq<T>) returns (a': seq<T>, b': seq<T>, e: Entry<T>)
    requires |a| + |b| > 0
    ensures Walk(a, b) == Walk(a', b') + [e]
    ensures |a'| + |b'| < |a| + |b|
    ensures e.status == Unmodified ==>
              a == a' + [e.unit] && b == b' + [e.unit] && LcsLength(a, b) == LcsLength(a', b') + 1
    ensures e.status == Inserted ==>
              a == a' && b == b' + [e.unit] && LcsLength(a, b) == LcsLength(a', b')
    ensures e.status == Deleted ==>
              a == a' + [e.unit] && b == b' && LcsLength(a, b) == LcsLength(a', b')
  {
    if |a| > 0 && |b| > 0 && a[|a| - 1] == b[|b| - 1] {
      a', b', e := a[..|a| - 1], b[..|b| - 1], Entry(a[|a| - 1], Unmodified);
      assert a == a' + [e.unit] && b == b' + [e.unit];
    } else if |b| > 0 && LcsLength(a, b) == LcsLength(a, b[..|b| - 1]) {
      a', b', e := a, b[..|b| - 1], Entry(b[|b| - 1], Inserted);
      assert b == b' + [e.unit];
    } else {
      a', b', e := a[..|a| - 1], b, Entry(a[|a| - 1], Deleted);
      assert a == a' + [e.unit];
    }
  }

  /** Keeping the Unmodified and Deleted units gives back `a`; keeping the
      Unmodified and Inserted units gives back `b`. */
  lemma {:induction false} WalkProjects<T>(a: seq<T>, b: seq<T>)
    ensures Project(Walk(a, b), Inserted) == a
    ensures Project(Walk(a, b), Deleted) == b
    decreases |a| + |b|
  {
    if |a| + |b| > 0 {
      var a', b', e := WalkStep(a, b);
      WalkProjects(a', b');
      ProjectSnoc(Walk(a', b'), e, Inserted);
      ProjectSnoc(Walk(a', b'), e, Deleted);
    }
  }

  /** The walk keeps exactly LcsLength(a, b) units. */
  lemma {:induction false} WalkCommonLength<T>(a: seq<T>, b: seq<T>)
    ensures |Common(Walk(a, b))| == LcsLength(a, b)
    decreases |a| + |b|
  {
    if |a| + |b| > 0 {
      var a', b', e := WalkStep(a, b);
      WalkCommonLength(a', b');
      CommonSnoc(Walk(a', b'), e);
    }
  }

  /** The walk emits |a| + |b| - LcsLength(a, b) entries: one per unit of
      each side, a kept unit counting once. */
  lemma WalkLength<T>(a: seq<T>, b: seq<T>)
    ensures |Walk(a, b)| == |a| + |b| - LcsLength(a, b)
  {
    WalkProjects(a, b);
    WalkCommonLength(a, b);
    ProjectLengths(Walk(a, b));
  }

  /** The kept units of the walk form a common subsequence of the table
      value's length, so LcsLength is the length of a LONGEST common
      subsequence (with LcsLengthIsUpperBound). */
  lemma LcsLengthIsAchieved<T>(a: seq<T>, b: seq<T>)
    ensures IsSubsequence(Common(Walk(a, b)), a)
    ensures IsSubsequence(Common(Walk(a, b)), b)
    ensures |Common(Walk(a, b))| == LcsLength(a, b)
  {
    WalkProjects(a, b);
    WalkCommonLength(a, b);
    CommonIsSubsequence(Walk(a, b), Inserted);
    CommonIsSubsequence(Walk(a, b), Deleted);
  }

  // ---------------------------------------------------------------------
  // Units shared at either end add one each to the table value, which is
  // why toArray may trim them before filling the table.

  /** A shared suffix adds its length. */
  lemma {:induction false} LcsLengthSharedSuffix<T>(a: seq<T>, b: seq<T>, t: seq<T>)
    ensures LcsLength(a + t, b + t) == LcsLength(a, b) + |t|
    decreases |t|
  {
    if t == [] {
      assert a + t == a && b + t == b;
    } else {
      var t' := t[..|t| - 1];
      assert (a + t)[..|a + t| - 1] == a + t';
      assert (b + t)[..|b + t| - 1] == b + t';
      LcsLengthSharedSuffix(a, b, t');
    }
  }

  /** A sequence of one unit has one unit in common with any sequence
      starting with that unit. */
  lemma {:induction false} LcsLengthOfSingleton<T>(x: T, b: seq<T>)
    ensures LcsLength([x], [x] + b) == 1 && LcsLength([x] + b, [x]) == 1
    decreases |b|
  {
    if b == [] {
      assert [x] + b == [x];
    } else {
      assert ([x] + b)[..|[x] + b| - 1] == [x] + b[..|b| - 1];
      LcsLengthOfSingleton(x, b[..|b| - 1]);
    }
  }

  /** A shared first unit adds one. */
  lemma {:induction false} LcsLengthSharedFirst<T>(x: T, a: seq<T>, b: seq<T>)
    ensures LcsLength([x] + a, [x] + b) == LcsLength(a, b) + 1
    decreases |a| + |b|, 1
  {
    if a == [] {
      assert [x] + a == [x];
      LcsLengthOfSingleton(x, b);
    } else if b == [] {
      assert [x] + b == [x];
      LcsLengthOfSingleton(x, a);
    } else if a[|a| - 1] == b[|b| - 1] {
      LcsLengthSharedFirstMatch(x, a, b);
    } else {
      LcsLengthSharedFirstMismatch(x, a, b);
    }
  }

  /** LcsLengthSharedFirst when the last units match. */
  lemma {:induction false} LcsLengthSharedFirstMatch<T>(x: T, a: seq<T>, b: seq<T>)
    requires a != [] && b != [] && a[|a| - 1] == b[|b| - 1]
    ensures LcsLength([x] + a, [x] + b) == LcsLength(a, b) + 1
    decreases |a| + |b|, 0
  {
    var a', b' := a[..|a| - 1], b[..|b| - 1];
    var xa, xb := [x] + a, [x] + b;
    assert xa[..|xa| - 1] == [x] + a' && xa[|xa| - 1] == a[|a| - 1];
    assert xb[..|xb| - 1] == [x] + b' && xb[|xb| - 1] == b[|b| - 1];
    LcsLengthSharedFirst(x, a', b');
  }

  /** LcsLengthSharedFirst when the last units differ. */
  lemma {:induction false} LcsLengthSharedFirstMismatch<T>(x: T, a: seq<T>, b: seq<T>)
    requires a != [] && b != [] && a[|a| - 1] != b[|b| - 1]
    ensures LcsLength([x] + a, [x] + b) == LcsLength(a, b) + 1
    decreases |a| + |b|, 0
  {
    var a', b' := a[..|a| - 1], b[..|b| - 1];
    var xa, xb := [x] + a, [x] + b;
    assert xa[..|xa| - 1] == [x] + a' && xa[|xa| - 1] == a[|a| - 1];
    assert xb[..|xb| - 1] == [x] + b' && xb[|xb| - 1] == b[|b| - 1];
    LcsLengthSharedFirst(x, a', b);
    LcsLengthSharedFirst(x, a, b');
  }

  /** A shared prefix adds its length. */
  lemma {:induction false} LcsLengthSharedPrefix<T>(p: seq<T>, a: seq<T>, b: seq<T>)
    ensures LcsLength(p + a, p + b) == LcsLength(a, b) + |p|
    decreases |p|
  {
    if p == [] {
      assert p + a == a && p + b == b;
    } else {
      assert p + a == [p[0]] + (p[1..] + a);
      assert p + b == [p[0]] + (p[1..] + b);
      LcsLengthSharedFirst(p[0], p[1..] + a, p[1..] + b);
      LcsLengthSharedPrefix(p[1..], a, b);
    }
  }

  // ---------------------------------------------------------------------
  // The table and the walk stated on window lengths.

  /** LcsLength of the windows s1[start..start + i] and s2[start..start + j],
      stated on the window lengths: the recurrence computeTable fills the
      table with. */
  ghost function LcsFrom<T>(s1: seq<T>, s2: seq<T>, start: nat, i: nat, j: nat): nat
    requires start + i <= |s1| && start + j <= |s2|
    decreases i + j
  {
    if i == 0 || j == 0 then 0
    else if s1[start + i - 1] == s2[start + j - 1] then LcsFrom(s1, s2, start, i - 1, j - 1) + 1
    else Max(LcsFrom(s1, s2, start, i - 1, j), LcsFrom(s1, s2, start, i, j - 1))
  }

  /** The recurrence of LcsLength, stated on windows of s1 and s2 that
      start at `start`, from lengths (i, j) to (i', j'). */
  lemma LcsLengthWindow<T>(s1: seq<T>, s2: seq<T>, start: nat, i: nat, j: nat, i': nat, j': nat)
    requires 0 < i && i' == i - 1 && start + i <= |s1| && 0 < j && j' == j - 1 && start + j <= |s2|
    ensures LcsLength(s1[start..start + i], s2[start..start + j]) ==
              if s1[start + i - 1] == s2[start + j - 1] then
                LcsLength(s1[start..start + i'], s2[start..start + j']) + 1
              else
                Max(LcsLength(s1[start..start + i'], s2[start..start + j]),
                    LcsLength(s1[start..start + i], s2[start..start + j']))
  {
    var a, b := s1[start..start + i], s2[start..start + j];
    assert a[..i - 1] == s1[start..start + i'];
    assert b[..j - 1] == s2[start..start + j'];
  }

  lemma {:induction false} LcsFromIsLcsLength<T>(s1: seq<T>, s2: seq<T>, start: nat, i: nat, j: nat)
    requires start + i <= |s1| && start + j <= |s2|
    ensures LcsFrom(s1, s2, start, i, j) == LcsLength(s1[start..start + i], s2[start..start + j])
    decreases i + j, 1
  {
    if i == 0 || j == 0 {
      assert |s1[start..start + i]| == 0 || |s2[start..start + j]| == 0;
    } else if s1[start + i - 1] == s2[start + j - 1] {
      LcsFromIsLcsLengthMatch(s1, s2, start, i, j);
    } else {
      LcsFromIsLcsLengthMismatch(s1, s2, start, i, j);
    }
  }

  lemma {:induction false} LcsFromIsLcsLengthMatch<T>(s1: seq<T>, s2: seq<T>, start: nat, i: nat, j: nat)
    requires 0 < i && start + i <= |s1| && 0 < j && start + j <= |s2|
    requires s1[start + i - 1] == s2[start + j - 1]
    ensures LcsFrom(s1, s2, start, i, j) == LcsLength(s1[start..start + i], s2[start..start + j])
    decreases i + j, 0
  {
    LcsFromIsLcsLength(s1, s2, start, i - 1, j - 1);
    LcsLengthWindow(s1, s2, start, i, j, i - 1, j - 1);
    var before := LcsLength(s1[start..start + (i - 1)], s2[start..start + (j - 1)]);
    assert LcsFrom(s1, s2, start, i, j) == before + 1;
  }

  lemma {:induction false} LcsFromIsLcsLengthMismatch<T>(s1: seq<T>, s2: seq<T>, start: nat, i: nat, j: nat)
    requires 0 < i && start + i <= |s1| && 0 < j && start + j <= |s2|
    requires s1[start + i - 1] != s2[start + j - 1]
    ensures LcsFrom(s1, s2, start, i, j) == LcsLength(s1[start..start + i], s2[start..start + j])
    decreases i + j, 0
  {
    LcsFromIsLcsLength(s1, s2, start, i - 1, j);
    LcsFromIsLcsLength(s1, s2, start, i, j - 1);
    LcsLengthWindow(s1, s2, start, i, j, i - 1, j - 1);
    var up := LcsLength(s1[start..start + (i - 1)], s2[start..start + j]);
    var left := LcsLength(s1[start..start + i], s2[start..start + (j - 1)]);
    assert LcsFrom(s1, s2, start, i, j) == Max(up, left);
  }

  /** Every cell of the table lies between 0 and the shorter of its two
      window prefixes; row 0 and column 0 hold 0. */
  lemma {:induction false} TableBounds<T>(s1: seq<T>, s2: seq<T>, start: nat, i: nat, j: nat)
    requires start + i <= |s1| && start + j <= |s2|
    ensures LcsFrom(s1, s2, start, i, j) <= i && LcsFrom(s1, s2, start, i, j) <= j
    ensures i == 0 || j == 0 ==> LcsFrom(s1, s2, start, i, j) == 0
  {
    LcsFromIsLcsLength(s1, s2, start, i, j);
  }

  /** The three steps of Walk, stated on windows of s1 and s2 that start
      at `start`, from lengths (i, j) to lengths (i', j'): a match, the
      preferred insertion, and the deletion. */
  lemma WalkWindowMatch<T>(s1: seq<T>, s2: seq<T>, start: nat, i: nat, j: nat, i': nat, j': nat)
    requires 0 < i && i' == i - 1 && start + i <= |s1| && 0 < j && j' == j - 1 && start + j <= |s2|
    requires s1[start + i'] == s2[start + j']
    ensures Walk(s1[start..start + i], s2[start..start + j]) ==
              Walk(s1[start..start + i'], s2[start..start + j']) + [Entry(s1[start + i'], Unmodified)]
  {
    var a, b := s1[start..start + i], s2[start..start + j];
    assert a[..i - 1] == s1[start..start + i'];
    assert b[..j - 1] == s2[start..start + j'];
  }

  lemma WalkWindowInsert<T>(s1: seq<T>, s2: seq<T>, start: nat, i: nat, j: nat, j': nat)
    requires start + i <= |s1| && 0 < j && j' == j - 1 && start + j <= |s2|
    requires !(i > 0 && s1[start + i - 1] == s2[start + j'])
    requires LcsLength(s1[start..start + i], s2[start..start + j]) ==
             LcsLength(s1[start..start + i], s2[start..start + j'])
    ensures Walk(s1[start..start + i], s2[start..start + j]) ==
              Walk(s1[start..start + i], s2[start..start + j']) + [Entry(s2[start + j'], Inserted)]
  {
    var b := s2[start..start + j];
    assert b[..j - 1] == s2[start..start + j'];
  }

  lemma WalkWindowDelete<T>(s1: seq<T>, s2: seq<T>, start: nat, i: nat, j: nat, i': int, j': int)
    requires start + i <= |s1| && start + j <= |s2| && i + j > 0 && i' == i - 1 && j' == j - 1
    requires !(i > 0 && j > 0 && s1[start + i - 1] == s2[start + j'])
    requires !(j > 0 && LcsLength(s1[start..start + i], s2[start..start + j]) ==
                        LcsLength(s1[start..start + i], s2[start..start + j']))
    ensures i' >= 0
    ensures Walk(s1[start..start + i], s2[start..start + j]) ==
              Walk(s1[start..start + i'], s2[start..start + j]) + [Entry(s1[start + i'], Deleted)]
  {
    var a, b := s1[start..start + i], s2[start..start + j];
    if j > 0 {
      assert b[..j - 1] == s2[start..start + j'];
    }
    assert a[..i - 1] == s1[start..start + i'];
  }

  lemma ReversedSnoc<X>(s: seq<X>, x: X)
    ensures Reversed(s + [x]) == [x] + Reversed(s)
  {
    assert (s + [x])[..|s|] == s;
  }

  /** Walk of the windows s1[start..start + i] and s2[start..start + j],
      stated on the window lengths: the steps generatePartialDiff takes,
      with LcsFrom in place of the table. */
  ghost function WalkFrom<T>(s1: seq<T>, s2: seq<T>, start: nat, i: nat, j: nat): seq<Entry<T>>
    requires start + i <= |s1| && start + j <= |s2|
    decreases i + j
  {
    if i == 0 && j == 0 then []
    else if i > 0 && j > 0 && s1[start + i - 1] == s2[start + j - 1] then
      WalkFrom(s1, s2, start, i - 1, j - 1) + [Entry(s1[start + i - 1], Unmodified)]
    else if j > 0 && (i == 0 || LcsFrom(s1, s2, start, i, j) == LcsFrom(s1, s2, start, i, j - 1)) then
      WalkFrom(s1, s2, start, i, j - 1) + [Entry(s2[start + j - 1], Inserted)]
    else
      WalkFrom(s1, s2, start, i - 1, j) + [Entry(s1[start + i - 1], Deleted)]
  }

  /** The three steps of WalkFrom, each from lengths (i, j) to (i', j'). */
  lemma WalkFromMatch<T>(s1: seq<T>, s2: seq<T>, start: nat, i: nat, j: nat, i': nat, j': nat)
    requires 0 < i && i' == i - 1 && start + i <= |s1| && 0 < j && j' == j - 1 && start + j <= |s2|
    requires s1[start + i'] == s2[start + j']
    ensures WalkFrom(s1, s2, start, i, j) ==
              WalkFrom(s1, s2, start, i', j') + [Entry(s1[start + i'], Unmodified)]
  {
  }

  lemma WalkFromInsert<T>(s1: seq<T>, s2: seq<T>, start: nat, i: nat, j: nat, j': nat)
    requires start + i <= |s1| && 0 < j && j' == j - 1 && start + j <= |s2|
    requires !(i > 0 && s1[start + i - 1] == s2[start + j'])
    requires LcsFrom(s1, s2, start, i, j) == LcsFrom(s1, s2, start, i, j')
    ensures WalkFrom(s1, s2, start, i, j) ==
              WalkFrom(s1, s2, start, i, j') + [Entry(s2[start + j'], Inserted)]
  {
  }

  lemma WalkFromDelete<T>(s1: seq<T>, s2: seq<T>, start: nat, i: nat, j: nat, i': int, j': int)
    requires start + i <= |s1| && start + j <= |s2| && i + j > 0 && i' == i - 1 && j' == j - 1
    requires !(i > 0 && j > 0 && s1[start + i - 1] == s2[start + j'])
    requires !(j > 0 && LcsFrom(s1, s2, start, i, j) == LcsFrom(s1, s2, start, i, j'))
    ensures i' >= 0
    ensures WalkFrom(s1, s2, start, i, j) ==
              WalkFrom(s1, s2, start, i', j) + [Entry(s1[start + i'], Deleted)]
  {
  }

  /** One step of WalkFromIsWalk in each of the three cases, given the
      equality at the smaller lengths (i', j'). */
  lemma WalkFromIsWalkMatch<T>(s1: seq<T>, s2: seq<T>, start: nat, i: nat, j: nat, i': nat, j': nat)
    requires 0 < i && i' == i - 1 && start + i <= |s1| && 0 < j && j' == j - 1 && start + j <= |s2|
    requires s1[start + i'] == s2[start + j']
    requires WalkFrom(s1, s2, start, i', j') == Walk(s1[start..start + i'], s2[start..start + j'])
    ensures WalkFrom(s1, s2, start, i, j) == Walk(s1[start..start + i], s2[start..start + j])
  {
    WalkFromMatch(s1, s2, start, i, j, i', j');
    WalkWindowMatch(s1, s2, start, i, j, i', j');
  }

  lemma WalkFromIsWalkInsert<T>(s1: seq<T>, s2: seq<T>, start: nat, i: nat, j: nat, j': nat)
    requires start + i <= |s1| && 0 < j && j' == j - 1 && start + j <= |s2|
    requires !(i > 0 && s1[start + i - 1] == s2[start + j'])
    requires LcsFrom(s1, s2, start, i, j) == LcsFrom(s1, s2, start, i, j')
    requires WalkFrom(s1, s2, start, i, j') == Walk(s1[start..start + i], s2[start..start + j'])
    ensures WalkFrom(s1, s2, start, i, j) == Walk(s1[start..start + i], s2[start..start + j])
  {
    LcsFromIsLcsLength(s1, s2, start, i, j);
    LcsFromIsLcsLength(s1, s2, start, i, j');
    WalkFromInsert(s1, s2, start, i, j, j');
    WalkWindowInsert(s1, s2, start, i, j, j');
  }

  lemma WalkFromIsWalkDelete<T>(s1: seq<T>, s2: seq<T>, start: nat, i: nat, j: nat, i': nat, j': int)
    requires 0 < i && i' == i - 1 && start + i <= |s1| && start + j <= |s2| && j' == j - 1
    requires !(j > 0 && s1[start + i'] == s2[start + j'])
    requires !(j > 0 && LcsFrom(s1, s2, start, i, j) == LcsFrom(s1, s2, start, i, j'))
    requires WalkFrom(s1, s2, start, i', j) == Walk(s1[start..start + i'], s2[start..start + j])
    ensures WalkFrom(s1, s2, start, i, j) == Walk(s1[start..start + i], s2[start..start + j])
  {
    LcsFromIsLcsLength(s1, s2, start, i, j);
    if j > 0 {
      LcsFromIsLcsLength(s1, s2, start, i, j');
    }
    WalkFromDelete(s1, s2, start, i, j, i', j');
    WalkWindowDelete(s1, s2, start, i, j, i', j');
  }

  lemma {:induction false} WalkFromIsWalk<T>(s1: seq<T>, s2: seq<T>, start: nat, i: nat, j: nat)
    requires start + i <= |s1| && start + j <= |s2|
    ensures WalkFrom(s1, s2, start, i, j) == Walk(s1[start..start + i], s2[start..start + j])
    decreases i + j, 1
  {
    if i == 0 && j == 0 {
      assert s1[start..start + i] == [] && s2[start..start + j] == [];
    } else if i > 0 && j > 0 && s1[start + i - 1] == s2[start + j - 1] {
      WalkFromIsWalkAfterMatch(s1, s2, start, i, j);
    } else if j > 0 && (i == 0 || LcsFrom(s1, s2, start, i, j) == LcsFrom(s1, s2, start, i, j - 1)) {
      WalkFromIsWalkAfterInsert(s1, s2, start, i, j);
    } else {
      WalkFromIsWalkAfterDelete(s1, s2, start, i, j);
    }
  }

  /** The three cases of WalkFromIsWalk, each by induction on the step
      WalkFrom takes. */
  lemma {:induction false} WalkFromIsWalkAfterMatch<T>(s1: seq<T>, s2: seq<T>, start: nat, i: nat, j: nat)
    requires 0 < i && start + i <= |s1| && 0 < j && start + j <= |s2|
    requires s1[start + i - 1] == s2[start + j - 1]
    ensures WalkFrom(s1, s2, start, i, j) == Walk(s1[start..start + i], s2[start..start + j])
    decreases i + j, 0
  {
    var i', j' := i - 1, j - 1;
    WalkFromIsWalk(s1, s2, start, i', j');
    WalkFromIsWalkMatch(s1, s2, start, i, j, i', j');
  }

  lemma {:induction false} WalkFromIsWalkAfterInsert<T>(s1: seq<T>, s2: seq<T>, start: nat, i: nat, j: nat)
    requires start + i <= |s1| && 0 < j && start + j <= |s2|
    requires !(i > 0 && s1[start + i - 1] == s2[start + j - 1])
    requires i == 0 || LcsFrom(s1, s2, start, i, j) == LcsFrom(s1, s2, start, i, j - 1)
    ensures WalkFrom(s1, s2, start, i, j) == Walk(s1[start..start + i], s2[start..start + j])
    decreases i + j, 0
  {
    var j' := j - 1;
    WalkFromIsWalk(s1, s2, start, i, j');
    WalkFromIsWalkInsert(s1, s2, start, i, j, j');
  }

  lemma {:induction false} WalkFromIsWalkAfterDelete<T>(s1: seq<T>, s2: seq<T>, start: nat, i: nat, j: nat)
    requires 0 < i && start + i <= |s1| && start + j <= |s2|
    requires !(j > 0 && s1[start + i - 1] == s2[start + j - 1])
    requires !(j > 0 && LcsFrom(s1, s2, start, i, j) == LcsFrom(s1, s2, start, i, j - 1))
    ensures WalkFrom(s1, s2, start, i, j) == Walk(s1[start..start + i], s2[start..start + j])
    decreases i + j, 0
  {
    var i' := i - 1;
    WalkFromIsWalk(s1, s2, start, i', j);
    WalkFromIsWalkDelete(s1, s2, start, i, j, i', j - 1);
  }

  /** The recurrence of LcsFrom at lengths (i, j), both positive. */
  lemma LcsFromStep<T>(s1: seq<T>, s2: seq<T>, start: nat, i: nat, j: nat)
    requires 0 < i && start + i <= |s1| && 0 < j && start + j <= |s2|
    ensures LcsFrom(s1, s2, start, i, j) ==
              if s1[start + i - 1] == s2[start + j - 1] then LcsFrom(s1, s2, start, i - 1, j - 1) + 1
              else Max(LcsFrom(s1, s2, start, i - 1, j), LcsFrom(s1, s2, start, i, j - 1))
  {
  }

  // ---------------------------------------------------------------------
  // The two methods of src/Diff.php.

  /** computeTable: (length1 + 1) rows of (length2 + 1) entries over the
      window [start, end1] of s1 and [start, end2] of s2, built row by
      row; table[i][j] is the length of the longest common subsequence of
      the window prefixes of lengths i and j. */
  method ComputeTable<T(==)>(s1: seq<T>, s2: seq<T>, start: nat, end1: int, end2: int)
    returns (table: seq<seq<nat>>)
    requires start <= end1 + 1 <= |s1| && start <= end2 + 1 <= |s2|
    ensures |table| == end1 - start + 2
    ensures forall i :: 0 <= i < |table| ==> |table[i]| == end2 - start + 2
    ensures forall i, j {:trigger table[i][j]} :: 0 <= i < |table| && 0 <= j < |table[i]| ==>
              table[i][j] == LcsFrom(s1, s2, start, i, j)
  {
    var length1 := end1 - start + 1;
    var length2 := end2 - start + 1;
    table := [seq(length2 + 1, _ => 0)];
    for index1 := 1 to length1 + 1
      invariant |table| == index1
      invariant forall i :: 0 <= i < index1 ==> |table[i]| == length2 + 1
      invariant forall i, j {:trigger table[i][j]} :: 0 <= i < index1 && 0 <= j <= length2 ==>
                  table[i][j] == LcsFrom(s1, s2, start, i, j)
    {
      var row: seq<nat> := [0];
      for index2 := 1 to length2 + 1
        invariant |row| == index2
        invariant forall j {:trigger row[j]} :: 0 <= j < index2 ==> row[j] == LcsFrom(s1, s2, start, index1, j)
      {
        LcsFromStep(s1, s2, start, index1, index2);
        if s1[start + index1 - 1] == s2[start + index2 - 1] {
          row := row + [table[index1 - 1][index2 - 1] + 1];
        } else {
          row := row + [Max(table[index1 - 1][index2], row[index2 - 1])];
        }
      }
      table := table + [row];
    }
  }

  /** One step of generatePartialDiff: WalkFrom at (i, j) ends with `e`
      after WalkFrom at (i', j'), so pushing `e` keeps the walk whole. */
  lemma WalkBack<T>(s1: seq<T>, s2: seq<T>, start: nat, i: nat, j: nat, i': nat, j': nat,
                    e: Entry<T>, diff: seq<Entry<T>>, whole: seq<Entry<T>>)
    requires start + i <= |s1| && start + j <= |s2| && i' <= i && j' <= j
    requires WalkFrom(s1, s2, start, i, j) == WalkFrom(s1, s2, start, i', j') + [e]
    requires whole == WalkFrom(s1, s2, start, i, j) + Reversed(diff)
    ensures whole == WalkFrom(s1, s2, start, i', j') + Reversed(diff + [e])
  {
    ReversedSnoc(diff, e);
    AppendAssociative(WalkFrom(s1, s2, start, i', j'), [e], Reversed(diff));
  }

  /** The three steps generatePartialDiff takes back through the table,
      from lengths (i, j) to (i', j'), each pushing `e`. */
  lemma WalkBackMatch<T>(s1: seq<T>, s2: seq<T>, start: nat, i: nat, j: nat, i': nat, j': nat,
                         e: Entry<T>, diff: seq<Entry<T>>, whole: seq<Entry<T>>)
    requires 0 < i && i' == i - 1 && start + i <= |s1| && 0 < j && j' == j - 1 && start + j <= |s2|
    requires s1[start + i'] == s2[start + j'] && e == Entry(s1[start + i'], Unmodified)
    requires whole == WalkFrom(s1, s2, start, i, j) + Reversed(diff)
    ensures whole == WalkFrom(s1, s2, start, i', j') + Reversed(diff + [e])
  {
    WalkFromMatch(s1, s2, start, i, j, i', j');
    WalkBack(s1, s2, start, i, j, i', j', e, diff, whole);
  }

  lemma WalkBackInsert<T>(s1: seq<T>, s2: seq<T>, start: nat, i: nat, j: nat, j': nat,
                          e: Entry<T>, diff: seq<Entry<T>>, whole: seq<Entry<T>>)
    requires start + i <= |s1| && 0 < j && j' == j - 1 && start + j <= |s2|
    requires !(i > 0 && s1[start + i - 1] == s2[start + j'])
    requires LcsFrom(s1, s2, start, i, j) == LcsFrom(s1, s2, start, i, j')
    requires e == Entry(s2[start + j'], Inserted)
    requires whole == WalkFrom(s1, s2, start, i, j) + Reversed(diff)
    ensures whole == WalkFrom(s1, s2, start, i, j') + Reversed(diff + [e])
  {
    WalkFromInsert(s1, s2, start, i, j, j');
    WalkBack(s1, s2, start, i, j, i, j', e, diff, whole);
  }

  lemma WalkBackDelete<T>(s1: seq<T>, s2: seq<T>, start: nat, i: nat, j: nat, i': int, j': int,
                          diff: seq<Entry<T>>, whole: seq<Entry<T>>)
    requires start + i <= |s1| && start + j <= |s2| && i + j > 0 && i' == i - 1 && j' == j - 1
    requires !(i > 0 && j > 0 && s1[start + i - 1] == s2[start + j'])
    requires !(j > 0 && LcsFrom(s1, s2, start, i, j) == LcsFrom(s1, s2, start, i, j'))
    requires whole == WalkFrom(s1, s2, start, i, j) + Reversed(diff)
    ensures i' >= 0
    ensures whole == WalkFrom(s1, s2, start, i', j) + Reversed(diff + [Entry(s1[i' + start], Deleted)])
  {
    WalkFromDelete(s1, s2, start, i, j, i', j');
    WalkBack(s1, s2, start, i, j, i', j, Entry(s1[i' + start], Deleted), diff, whole);
  }

  /** WalkFrom over the whole window [start, end1] of s1 and [start, end2]
      of s2 is Walk of that window. */
  lemma WalkFromWindow<T>(s1: seq<T>, s2: seq<T>, start: nat, i: nat, j: nat, end1: int, end2: int)
    requires start + i <= |s1| && start + j <= |s2| && end1 + 1 == start + i && end2 + 1 == start + j
    ensures WalkFrom(s1, s2, start, i, j) == Walk(s1[start..end1 + 1], s2[start..end2 + 1])
  {
    WalkFromIsWalk(s1, s2, start, i, j);
    assert s1[start..end1 + 1] == s1[start..start + i];
    assert s2[start..end2 + 1] == s2[start..start + j];
  }

  lemma WalkFromEmpty<T>(s1: seq<T>, s2: seq<T>, start: nat)
    requires start <= |s1| && start <= |s2|
    ensures WalkFrom(s1, s2, start, 0, 0) == []
  {
  }

  /** generatePartialDiff: walks the table back from its last cell to
      (0, 0) and returns the window's edit script latest entry first, so
      that reversing it gives Walk of the window. */
  method GeneratePartialDiff<T(==)>(table: seq<seq<nat>>, s1: seq<T>, s2: seq<T>, start: nat)
    returns (diff: seq<Entry<T>>)
    requires 1 <= |table| && start + |table| - 1 <= |s1|
    requires 1 <= |table[0]| && start + |table[0]| - 1 <= |s2|
    requires forall i :: 0 <= i < |table| ==> |table[i]| == |table[0]|
    requires forall i, j :: 0 <= i < |table| && 0 <= j < |table[i]| ==>
               table[i][j] == LcsFrom(s1, s2, start, i, j)
    ensures Reversed(diff) == WalkFrom(s1, s2, start, |table| - 1, |table[0]| - 1)
  {
    diff := [];
    var index1 := |table| - 1;
    var index2 := |table[0]| - 1;
    ghost var whole := WalkFrom(s1, s2, start, index1, index2);
    while index1 > 0 || index2 > 0
      invariant 0 <= index1 < |table| && 0 <= index2 < |table[0]|
      invariant whole == WalkFrom(s1, s2, start, index1, index2) + Reversed(diff)
      decreases index1 + index2
    {
      var previous1, previous2 := index1 - 1, index2 - 1;
      if index1 > 0 && index2 > 0 && s1[previous1 + start] == s2[previous2 + start] {
        WalkBackMatch(s1, s2, start, index1, index2, previous1, previous2, Entry(s1[previous1 + start], Unmodified), diff, whole);
        diff := diff + [Entry(s1[previous1 + start], Unmodified)];
        index1, index2 := previous1, previous2;
      } else if index2 > 0 && table[index1][index2] == table[index1][previous2] {
        WalkBackInsert(s1, s2, start, index1, index2, previous2, Entry(s2[previous2 + start], Inserted), diff, whole);
        diff := diff + [Entry(s2[previous2 + start], Inserted)];
        index2 := previous2;
      } else {
        WalkBackDelete(s1, s2, start, index1, index2, previous1, previous2, diff, whole);
        diff := diff + [Entry(s1[previous1 + start], Deleted)];
        index1 := previous1;
      }
    }
    WalkFromEmpty(s1, s2, start);
    assert [] + Reversed(diff) == Reversed(diff);
  }
}
