/** src/Diff/Renderer/PlainText.php: each entry of the script written as a
    two-character status prefix, the unit and the separator. */
module PlainTextRenderer {
  import opened Edits
  import opened Assembly
  import opened Session
  import opened Markup
  import opened Units

  /** The prefix the switch in render writes before a unit. */
  function Prefix(status: Status): (p: string)
    ensures |p| == 2 && p[1] == ' '
    ensures p[0] == ' ' <==> status == Unmodified
    ensures p[0] == '-' <==> status == Deleted
    ensures p[0] == '+' <==> status == Inserted
  {
    match status
    case Unmodified => "  "
    case Deleted => "- "
    case Inserted => "+ "
  }

  /** The text one entry adds. */
  function Line(e: Entry<string>, separator: string): string
  {
    Prefix(e.status) + e.unit + separator
  }

  /** The text render returns for a script: the entries' lines in order. */
  function Text(script: seq<Entry<string>>, separator: string): string
  {
    FlatMap(script, e => Line(e, separator))
  }

  /** The text of two scripts one after the other is the two texts one
      after the other. */
  lemma TextAppend(s: seq<Entry<string>>, t: seq<Entry<string>>, separator: string)
    ensures Text(s + t, separator) == Text(s, separator) + Text(t, separator)
  {
    FlatMapAppend(s, t, e => Line(e, separator));
  }

  /** The text of a prefix one entry longer ends with that entry's line. */
  lemma TextSnoc(script: seq<Entry<string>>, i: nat, separator: string)
    requires i < |script|
    ensures Text(script[..i + 1], separator) == Text(script[..i], separator) + Line(script[i], separator)
  {
    assert script[..i + 1] == script[..i] + [script[i]];
    FlatMapSnoc(script[..i], script[i], e => Line(e, separator));
  }

  /** A deletion followed by an insertion, as two lines of text. */
  lemma TextOfReplacement(x: string, y: string, separator: string)
    ensures Text([Entry(x, Deleted), Entry(y, Inserted)], separator) ==
              "- " + x + separator + "+ " + y + separator
  {
    FlatMapOfTwo(Entry(x, Deleted), Entry(y, Inserted), e => Line(e, separator));
  }

  /** The total length of the units of a script. */
  function UnitsLength(script: seq<Entry<string>>): nat
  {
    if script == [] then 0 else UnitsLength(script[..|script| - 1]) + |script[|script| - 1].unit|
  }

  /** Each entry costs two prefix characters, its unit and the separator. */
  lemma {:induction false} TextLength(script: seq<Entry<string>>, separator: string)
    ensures |Text(script, separator)| == |script| * (2 + |separator|) + UnitsLength(script)
    decreases |script|
  {
    if script != [] {
      var m := 2 + |separator|;
      TextLength(script[..|script| - 1], separator);
      assert |script| * m == (|script| - 1) * m + m;
    }
  }

  /** The status a prefix character stands for. */
  function StatusOf(c: char): Status
  {
    if c == '-' then Deleted else if c == '+' then Inserted else Unmodified
  }

  /** Reads rendered text back into a script: a line is a two-character
      prefix and the unit up to the first character of the separator, and
      the separator is skipped. */
  function ReadText(text: string, separator: string): seq<Entry<string>>
    requires separator != []
    decreases |text|
  {
    if |text| < 2 then []
    else
      var n := Find(text, separator[0], 2);
      var next := if n + |separator| <= |text| then n + |separator| else |text|;
      [Entry(text[2..n], StatusOf(text[0]))] + ReadText(text[next..], separator)
  }

  /** One line is read back as its entry, and reading goes on after it. */
  lemma ReadTextLine(e: Entry<string>, rest: string, separator: string)
    requires separator != []
    requires forall i :: 0 <= i < |e.unit| ==> e.unit[i] != separator[0]
    ensures ReadText(Line(e, separator) + rest, separator) == [e] + ReadText(rest, separator)
  {
    var text := Line(e, separator) + rest;
    var n := 2 + |e.unit|;
    assert text[n] == separator[0];
    forall i | 2 <= i < n ensures text[i] != separator[0] {
      assert text[i] == e.unit[i - 2];
    }
    FindAt(text, separator[0], 2, n);
    assert text[2..n] == e.unit;
    assert text[n + |separator|..] == rest;
  }

  /** The plain text determines the script, as long as no unit holds the
      first character of the separator (true of lines and the default
      line-feed separator). */
  lemma {:induction false} TextRoundTrip(script: seq<Entry<string>>, separator: string)
    requires separator != []
    requires forall k, i :: 0 <= k < |script| && 0 <= i < |script[k].unit| ==>
               script[k].unit[i] != separator[0]
    ensures ReadText(Text(script, separator), separator) == script
    decreases |script|
  {
    if script != [] {
      var rest := script[1..];
      TextAppend([script[0]], rest, separator);
      assert [script[0]] + rest == script;
      FlatMapOfOne(script[0], e => Line(e, separator));
      ReadTextLine(script[0], Text(rest, separator), separator);
      TextRoundTrip(rest, separator);
    }
  }

  class PlainText {
    const diff: Diff
    var separator: string

    constructor(diff: Diff)
      ensures this.diff == diff && separator == "\n"
    {
      this.diff := diff;
      separator := "\n";
    }

    method SetSeparator(separator: string)
      modifies this`separator
      ensures this.separator == separator
    {
      this.separator := separator;
    }

    /** render: the text of the diff's script, or the exception toArray
        throws once the diff is disposed. */
    method Render() returns (r: Result<string>)
      modifies diff`sequence1, diff`sequence2
      ensures diff.disposed ==> r == Failure(ERROR_DIFF_ALREADY_DISPOSED)
      ensures !diff.disposed ==> r == Success(Text(Script(diff.Units1(), diff.Units2()), separator))
      ensures diff.disposed ==> diff.sequence1 == old(diff.sequence1) && diff.sequence2 == old(diff.sequence2)
      ensures !diff.disposed ==> diff.sequence1 == [] && diff.sequence2 == []
    {
      var result := diff.ToArray();
      if result.Failure? {
        return Failure(result.code);
      }
      var script, sep := result.value, separator;
      var str := "";
      for i := 0 to |script|
        invariant str == Text(script[..i], sep)
        invariant diff.sequence1 == [] && diff.sequence2 == []
      {
        TextSnoc(script, i, sep);
        var line := Prefix(script[i].status) + script[i].unit;
        AppendAssociative(str, line, sep);
        str := str + line;
        str := str + sep;
      }
      assert script[..|script|] == script;
      return Success(str);
    }
  }

  /** The plain text of two different one-line strings, with the default
      separator: the first line marked deleted, then the second inserted. */
  method RenderTwoLines(string1: string, string2: string) returns (r: Result<string>)
    requires string1 != string2
    requires forall i :: 0 <= i < |string1| ==> !IsBreak(string1[i])
    requires forall i :: 0 <= i < |string2| ==> !IsBreak(string2[i])
    ensures r == Success("- " + string1 + "\n" + "+ " + string2 + "\n")
  {
    var diff := Diff.CompareStrings(string1, string2, false);
    ScriptOfTwoLines(string1, string2);
    assert Script(diff.Units1(), diff.Units2()) == [Entry(string1, Deleted), Entry(string2, Inserted)];
    var renderer := new PlainText(diff);
    r := renderer.Render();
    TextOfReplacement(string1, string2, "\n");
  }
}
