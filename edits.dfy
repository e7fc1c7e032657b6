/** The vocabulary of an edit script: the three classifications of a unit
    (src/Diff.php's UNMODIFIED, DELETED and INSERTED constants), the
    (unit, classification) entries, and the views of a script that recover
    each input from it. */
module Edits {

  /** What happened to one unit: kept by both inputs, only in the first,
      or only in the second. */
  datatype Status = Unmodified | Deleted | Inserted

  /** One entry of an edit script. */
  datatype Entry<T> = Entry(unit: T, status: Status)

  /** The units of the entries whose status is not `omit`, in order.
      Omitting Inserted gives back the first input; omitting Deleted,
      the second. */
  function Project<T>(s: seq<Entry<T>>, omit: Status): seq<T>
  {
    if s == [] then []
    else Project(s[..|s| - 1], omit) + (if s[|s| - 1].status == omit then [] else [s[|s| - 1].unit])
  }

  /** The units of the Unmodified entries, in order. */
  function Common<T>(s: seq<Entry<T>>): seq<T>
  {
    if s == [] then []
    else Common(s[..|s| - 1]) + (if s[|s| - 1].status == Unmodified then [s[|s| - 1].unit] else [])
  }

  /** Every unit of `s`, classified Unmodified. */
  function Kept<T>(s: seq<T>): seq<Entry<T>>
  {
    if s == [] then [] else Kept(s[..|s| - 1]) + [Entry(s[|s| - 1], Unmodified)]
  }

  /** `s` back to front. */
  function Reversed<X>(s: seq<X>): (r: seq<X>)
    ensures |r| == |s|
  {
    if s == [] then [] else [s[|s| - 1]] + Reversed(s[..|s| - 1])
  }

  lemma ProjectSnoc<T>(s: seq<Entry<T>>, e: Entry<T>, omit: Status)
    ensures Project(s + [e], omit) == Project(s, omit) + (if e.status == omit then [] else [e.unit])
  {
    assert (s + [e])[..|s|] == s;
  }

  lemma CommonSnoc<T>(s: seq<Entry<T>>, e: Entry<T>)
    ensures Common(s + [e]) == Common(s) + (if e.status == Unmodified then [e.unit] else [])
  {
    assert (s + [e])[..|s|] == s;
  }

  lemma {:induction false} ProjectAppend<T>(s: seq<Entry<T>>, t: seq<Entry<T>>, omit: Status)
    ensures Project(s + t, omit) == Project(s, omit) + Project(t, omit)
    decreases |t|
  {
    if t != [] {
      var t' := t[..|t| - 1];
      assert (s + t)[..|s + t| - 1] == s + t';
      ProjectAppend(s, t', omit);
    } else {
      assert s + t == s;
    }
  }

  lemma {:induction false} CommonAppend<T>(s: seq<Entry<T>>, t: seq<Entry<T>>)
    ensures Common(s + t) == Common(s) + Common(t)
    decreases |t|
  {
    if t != [] {
      var t' := t[..|t| - 1];
      assert (s + t)[..|s + t| - 1] == s + t';
      CommonAppend(s, t');
    } else {
      assert s + t == s;
    }
  }

  /** A run of kept units projects back onto itself on both sides. */
  lemma {:induction false} KeptProjects<T>(s: seq<T>, omit: Status)
    requires omit != Unmodified
    ensures Project(Kept(s), omit) == s
    ensures Common(Kept(s)) == s
    decreases |s|
  {
    if s != [] {
      var s' := s[..|s| - 1];
      KeptProjects(s', omit);
      assert Kept(s)[..|Kept(s)| - 1] == Kept(s');
      assert s' + [s[|s| - 1]] == s;
    }
  }

  /** Each entry lands in one projection (a change) or in both (a kept
      unit), so the two projections together are as long as the script
      plus its common part. */
  lemma {:induction false} ProjectLengths<T>(s: seq<Entry<T>>)
    ensures |Project(s, Inserted)| + |Project(s, Deleted)| == |s| + |Common(s)|
    decreases |s|
  {
    if s != [] {
      ProjectLengths(s[..|s| - 1]);
    }
  }

  /** The text the renderers' loops build: the piece `f` writes for each
      element, appended in order. */
  function FlatMap<X>(s: seq<X>, f: X -> string): string
  {
    if s == [] then "" else FlatMap(s[..|s| - 1], f) + f(s[|s| - 1])
  }

  /** The text of two sequences one after the other is the two texts one
      after the other. */
  lemma {:induction false} FlatMapAppend<X>(s: seq<X>, t: seq<X>, f: X -> string)
    ensures FlatMap(s + t, f) == FlatMap(s, f) + FlatMap(t, f)
    decreases |t|
  {
    if t == [] {
      assert s + t == s;
    } else {
      var t' := t[..|t| - 1];
      assert (s + t)[..|s + t| - 1] == s + t';
      FlatMapAppend(s, t', f);
    }
  }

  lemma FlatMapSnoc<X>(s: seq<X>, a: X, f: X -> string)
    ensures FlatMap(s + [a], f) == FlatMap(s, f) + f(a)
  {
    assert (s + [a])[..|s|] == s;
  }

  lemma FlatMapOfOne<X>(a: X, f: X -> string)
    ensures FlatMap([a], f) == f(a)
  {
    assert [a][..0] == [];
  }

  lemma FlatMapOfTwo<X>(a: X, b: X, f: X -> string)
    ensures FlatMap([a, b], f) == f(a) + f(b)
  {
    assert [a, b][..1] == [a];
    FlatMapOfOne(a, f);
  }

  /** Two ways of writing the pieces that agree on every element give the
      same text. */
  lemma {:induction false} FlatMapCongruent<X>(s: seq<X>, f: X -> string, g: X -> string)
    requires forall k :: 0 <= k < |s| ==> f(s[k]) == g(s[k])
    ensures FlatMap(s, f) == FlatMap(s, g)
    decreases |s|
  {
    if s != [] {
      FlatMapCongruent(s[..|s| - 1], f, g);
    }
  }

  /** The entries of `s` whose status is not `omit`, in order. */
  function Without<T>(s: seq<Entry<T>>, omit: Status): seq<Entry<T>>
  {
    if s == [] then []
    else Without(s[..|s| - 1], omit) + (if s[|s| - 1].status == omit then [] else [s[|s| - 1]])
  }

  lemma {:induction false} WithoutAppend<T>(s: seq<Entry<T>>, t: seq<Entry<T>>, omit: Status)
    ensures Without(s + t, omit) == Without(s, omit) + Without(t, omit)
    decreases |t|
  {
    if t == [] {
      assert s + t == s;
    } else {
      var t' := t[..|t| - 1];
      assert (s + t)[..|s + t| - 1] == s + t';
      WithoutAppend(s, t', omit);
    }
  }

  /** Dropping a status no entry has keeps everything; dropping the one
      status every entry has keeps nothing. */
  lemma {:induction false} WithoutRun<T>(s: seq<Entry<T>>, status: Status, omit: Status)
    requires forall k :: 0 <= k < |s| ==> s[k].status == status
    ensures Without(s, omit) == if status == omit then [] else s
    decreases |s|
  {
    if s != [] {
      WithoutRun(s[..|s| - 1], status, omit);
      assert s[..|s| - 1] + [s[|s| - 1]] == s;
    }
  }

  /** The units of the entries of `s`, in order. */
  function UnitsIn<T>(s: seq<Entry<T>>): (r: seq<T>)
    ensures |r| == |s|
  {
    if s == [] then [] else UnitsIn(s[..|s| - 1]) + [s[|s| - 1].unit]
  }

  /** Keeping the entries and then taking their units is the projection. */
  lemma {:induction false} WithoutProjects<T>(s: seq<Entry<T>>, omit: Status)
    ensures UnitsIn(Without(s, omit)) == Project(s, omit)
    decreases |s|
  {
    if s != [] {
      var front, last := s[..|s| - 1], s[|s| - 1];
      WithoutProjects(front, omit);
      if last.status != omit {
        var w := Without(front, omit) + [last];
        assert w[..|w| - 1] == Without(front, omit);
      } else {
        assert Without(front, omit) + [] == Without(front, omit);
      }
    }
  }

  lemma AppendAssociative<X>(a: seq<X>, b: seq<X>, c: seq<X>)
    ensures a + b + c == a + (b + c)
  {
  }
}
