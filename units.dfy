/** How toArray in src/Diff.php cuts a string into the units it compares:
    single bytes in character mode, lines otherwise. A string is a sequence
    of bytes, each held in one `char`. */
module Units {

  /** The characters PCRE's `\R` matches on its own in a byte string:
      line feed, vertical tab, form feed, carriage return and next line. */
  predicate IsBreak(c: char)
  {
    c == '\n' || c == '\U{B}' || c == '\U{C}' || c == '\r' || c == '\U{85}'
  }

  /** What follows the line break at the front of `s`: `\R` takes a
      carriage return and the line feed after it as one break. */
  function AfterBreak(s: string): (rest: string)
    requires s != [] && IsBreak(s[0])
    ensures |rest| < |s|
  {
    if |s| >= 2 && s[0] == '\r' && s[1] == '\n' then s[2..] else s[1..]
  }

  /** preg_split('/\R/', s): the pieces between line breaks, empty pieces
      included; a string without breaks is one piece. */
  function SplitLines(s: string): (r: seq<string>)
    ensures |r| >= 1
    ensures forall k, i :: 0 <= k < |r| && 0 <= i < |r[k]| ==> !IsBreak(r[k][i])
    decreases |s|
  {
    if s == [] then [[]]
    else if IsBreak(s[0]) then [[]] + SplitLines(AfterBreak(s))
    else
      var r := SplitLines(s[1..]);
      assert forall i :: 0 < i < |[s[0]] + r[0]| ==> ([s[0]] + r[0])[i] == r[0][i - 1];
      [[s[0]] + r[0]] + r[1..]
  }

  /** `s` with every line break written as a single line feed. */
  function Normalized(s: string): string
    decreases |s|
  {
    if s == [] then []
    else if IsBreak(s[0]) then "\n" + Normalized(AfterBreak(s))
    else [s[0]] + Normalized(s[1..])
  }

  /** The pieces of `r` with `separator` between each two. */
  function Join(r: seq<string>, separator: string): string
  {
    if r == [] then "" else if |r| == 1 then r[0] else r[0] + separator + Join(r[1..], separator)
  }

  /** Joining the lines again with line feeds gives back the string, up to
      the spelling of its line breaks. */
  lemma {:induction false} SplitLinesJoin(s: string)
    ensures Join(SplitLines(s), "\n") == Normalized(s)
    decreases |s|
  {
    if s == [] {
    } else if IsBreak(s[0]) {
      SplitLinesJoin(AfterBreak(s));
      var r := SplitLines(AfterBreak(s));
      assert ([[]] + r)[1..] == r;
    } else {
      SplitLinesJoin(s[1..]);
      var r := SplitLines(s[1..]);
      var r' := [[s[0]] + r[0]] + r[1..];
      assert r'[1..] == r[1..];
      if |r| == 1 {
        assert Join(r', "\n") == [s[0]] + r[0];
      } else {
        assert Join(r', "\n") == [s[0]] + r[0] + "\n" + Join(r[1..], "\n");
      }
    }
  }

  /** A string whose only line breaks are line feeds is its own
      normalization. */
  lemma {:induction false} NormalizedOfLineFeeds(s: string)
    requires forall i :: 0 <= i < |s| && IsBreak(s[i]) ==> s[i] == '\n'
    ensures Normalized(s) == s
    decreases |s|
  {
    if s != [] {
      NormalizedOfLineFeeds(s[1..]);
      assert s == [s[0]] + s[1..];
    }
  }

  /** With line feeds only, splitting and joining is a round trip. */
  lemma SplitLinesRoundTrip(s: string)
    requires forall i :: 0 <= i < |s| && IsBreak(s[i]) ==> s[i] == '\n'
    ensures Join(SplitLines(s), "\n") == s
  {
    SplitLinesJoin(s);
    NormalizedOfLineFeeds(s);
  }

  /** A string without line breaks is a single line. */
  lemma {:induction false} SplitLinesOfOneLine(s: string)
    requires forall i :: 0 <= i < |s| ==> !IsBreak(s[i])
    ensures SplitLines(s) == [s]
    decreases |s|
  {
    if s != [] {
      SplitLinesOfOneLine(s[1..]);
      assert [s[0]] + s[1..] == s;
    }
  }

  /** Character mode: the string's bytes, each as a one-byte string (what
      indexing a PHP string yields). */
  function Characters(s: string): (r: seq<string>)
    ensures |r| == |s|
    ensures forall i :: 0 <= i < |s| ==> r[i] == [s[i]]
  {
    seq(|s|, i requires 0 <= i < |s| => [s[i]])
  }

  /** The pieces of `r`, one after another. */
  function Concat(r: seq<string>): string
  {
    if r == [] then "" else Concat(r[..|r| - 1]) + r[|r| - 1]
  }

  /** The characters of a string concatenate back to the string. */
  lemma {:induction false} CharactersConcat(s: string)
    ensures Concat(Characters(s)) == s
    decreases |s|
  {
    if s != [] {
      var s' := s[..|s| - 1];
      CharactersConcat(s');
      assert Characters(s)[..|s| - 1] == Characters(s');
      assert s' + [s[|s| - 1]] == s;
    }
  }

  /** The units toArray compares. */
  function UnitsOf(s: string, compareCharacters: bool): seq<string>
  {
    if compareCharacters then Characters(s) else SplitLines(s)
  }
}
