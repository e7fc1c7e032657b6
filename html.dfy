/** src/Diff/Renderer/HTML.php: each entry of the script written as a
    `span`, `del` or `ins` element around its escaped unit, followed by the
    separator, all inside a `div` container. */
module HtmlRenderer {
  import opened Edits
  import opened Assembly
  import opened Session
  import opened Markup
  import opened Units

  /** The element the switch in render picks for a status. */
  function Tag(status: Status): (tag: string)
  {
    match status
    case Unmodified => "span"
    case Deleted => "del"
    case Inserted => "ins"
  }

  /** The markup one entry adds. */
  function Piece(e: Entry<string>, separator: string): string
  {
    Element(Tag(e.status), e.unit) + separator
  }

  /** The markup the loop of render builds: the entries' pieces in order. */
  function Body(script: seq<Entry<string>>, separator: string): string
  {
    FlatMap(script, e => Piece(e, separator))
  }

  /** The container's text before and after the `%s`. */
  const CONTAINER_HEAD: string := "<div class=\"text-diff-container\">"
  const CONTAINER_TAIL: string := "</div>"

  /** sprintf(container, body). */
  function Page(body: string): string
  {
    CONTAINER_HEAD + body + CONTAINER_TAIL
  }

  /** The markup of two scripts one after the other is the two markups one
      after the other. */
  lemma BodyAppend(s: seq<Entry<string>>, t: seq<Entry<string>>, separator: string)
    ensures Body(s + t, separator) == Body(s, separator) + Body(t, separator)
  {
    FlatMapAppend(s, t, e => Piece(e, separator));
  }

  /** The status an element name stands for. */
  function StatusOfTag(tag: string): Status
  {
    if tag == "del" then Deleted else if tag == "ins" then Inserted else Unmodified
  }

  /** Reads markup back into a script: an opening tag up to `>`, the
      escaped unit up to the next `<`, the closing tag, then as many
      characters as the separator has. */
  function ReadBody(html: string, separator: string): seq<Entry<string>>
    decreases |html|
  {
    if html == [] then []
    else
      var close := Find(html, '>', 1);
      if close == |html| then []
      else
        var end := Find(html, '<', close + 1);
        var tag := html[1..close];
        var next := end + |tag| + 3 + |separator|;
        [Entry(Unescape(html[close + 1..end]), StatusOfTag(tag))] +
        ReadBody(if next <= |html| then html[next..] else [], separator)
  }

  /** The element names stand for their statuses. */
  lemma TagRoundTrip(status: Status)
    ensures StatusOfTag(Tag(status)) == status
  {
  }

  /** One step of ReadBody, for an element whose tag ends at `gt` and whose
      text ends at `end`. */
  lemma {:induction false} ReadBodyStep(html: string, separator: string, gt: nat, end: nat,
                                        tag: string, text: string, rest: string)
    requires 1 <= gt < |html| && Find(html, '>', 1) == gt
    requires gt + 1 <= end <= |html| && Find(html, '<', gt + 1) == end
    requires end + (gt - 1) + 3 + |separator| <= |html|
    requires html[1..gt] == tag && html[gt + 1..end] == text
    requires html[end + (gt - 1) + 3 + |separator|..] == rest
    ensures ReadBody(html, separator) == [Entry(Unescape(text), StatusOfTag(tag))] + ReadBody(rest, separator)
  {
  }

  /** ReadBody on an opening tag, a text without `<`, and what follows
      from the closing tag on. */
  lemma {:induction false} ReadBodyLayout(html: string, tag: string, text: string, tail: string, separator: string)
    requires html == OpenTag(tag) + text + tail
    requires forall i :: 0 <= i < |tag| ==> tag[i] != '>'
    requires forall i :: 0 <= i < |text| ==> text[i] != '<'
    requires |tail| >= |tag| + 3 + |separator| && tail[0] == '<'
    ensures ReadBody(html, separator) ==
              [Entry(Unescape(text), StatusOfTag(tag))] + ReadBody(tail[|tag| + 3 + |separator|..], separator)
  {
    var open := OpenTag(tag);
    var gt := |open| - 1;
    var end := |open| + |text|;
    assert html[gt] == '>';
    forall i | 1 <= i < gt ensures html[i] != '>' {
      assert html[i] == open[i] == tag[i - 1];
    }
    FindAt(html, '>', 1, gt);
    assert html[end] == '<';
    forall i | gt + 1 <= i < end ensures html[i] != '<' {
      assert html[i] == text[i - |open|];
    }
    FindAt(html, '<', gt + 1, end);
    assert html[1..gt] == tag;
    assert html[gt + 1..end] == text;
    assert html[end..] == tail;
    var rest := tail[|tag| + 3 + |separator|..];
    assert html[end + (gt - 1) + 3 + |separator|..] == rest;
    ReadBodyStep(html, separator, gt, end, tag, text, rest);
  }

  /** One piece is read back as its entry, and reading goes on after it. */
  lemma ReadBodyPiece(e: Entry<string>, rest: string, separator: string)
    ensures ReadBody(Piece(e, separator) + rest, separator) == [e] + ReadBody(rest, separator)
  {
    var tag, text := Tag(e.status), Escape(e.unit);
    var close := CloseTag(tag);
    var tail := close + (separator + rest);
    assert Piece(e, separator) + rest == OpenTag(tag) + text + tail by {
      AppendAssociative(OpenTag(tag) + text + close, separator, rest);
      AppendAssociative(OpenTag(tag) + text, close, separator + rest);
    }
    EscapeHasNoDelimiter(e.unit);
    assert tail[|tag| + 3 + |separator|..] == rest;
    ReadBodyLayout(Piece(e, separator) + rest, tag, text, tail, separator);
    EscapeRoundTrip(e.unit);
    TagRoundTrip(e.status);
  }

  /** Under the modelled escape (units of valid UTF-8), the markup
      determines the script, whatever the separator: escaping keeps `<` and
      `>` out of the elements' text. */
  lemma {:induction false} BodyRoundTrip(script: seq<Entry<string>>, separator: string)
    ensures ReadBody(Body(script, separator), separator) == script
    decreases |script|
  {
    if script != [] {
      var rest := script[1..];
      BodyAppend([script[0]], rest, separator);
      assert [script[0]] + rest == script;
      FlatMapOfOne(script[0], e => Piece(e, separator));
      ReadBodyPiece(script[0], Body(rest, separator), separator);
      BodyRoundTrip(rest, separator);
    }
  }

  /** One step of the loop of render: the next entry's element, then the
      separator. */
  lemma BodyStep(script: seq<Entry<string>>, i: nat, separator: string)
    requires i < |script|
    ensures Body(script[..i + 1], separator) ==
              Body(script[..i], separator) + Element(Tag(script[i].status), script[i].unit) + separator
  {
    assert script[..i + 1] == script[..i] + [script[i]];
    FlatMapSnoc(script[..i], script[i], e => Piece(e, separator));
    AppendAssociative(Body(script[..i], separator), Element(Tag(script[i].status), script[i].unit), separator);
  }

  class Html {
    const diff: Diff
    var separator: string

    constructor(diff: Diff)
      ensures this.diff == diff && separator == "<br>"
    {
      this.diff := diff;
      separator := "<br>";
    }

    method SetSeparator(separator: string)
      modifies this`separator
      ensures this.separator == separator
    {
      this.separator := separator;
    }

    /** render: the container around the markup of the diff's script, or
        the exception toArray throws once the diff is disposed. */
    method Render() returns (r: Result<string>)
      modifies diff`sequence1, diff`sequence2
      ensures diff.disposed ==> r == Failure(ERROR_DIFF_ALREADY_DISPOSED)
      ensures !diff.disposed ==> r == Success(Page(Body(Script(diff.Units1(), diff.Units2()), separator)))
      ensures diff.disposed ==> diff.sequence1 == old(diff.sequence1) && diff.sequence2 == old(diff.sequence2)
      ensures !diff.disposed ==> diff.sequence1 == [] && diff.sequence2 == []
    {
      var result := diff.ToArray();
      if result.Failure? {
        return Failure(result.code);
      }
      var script := result.value;
      var html := "";
      for i := 0 to |script|
        invariant html == Body(script[..i], separator)
        invariant diff.sequence1 == [] && diff.sequence2 == []
      {
        BodyStep(script, i, separator);
        var element := Tag(script[i].status);
        html := html + Element(element, script[i].unit);
        html := html + separator;
      }
      assert script[..|script|] == script;
      assert html == Body(Script(diff.Units1(), diff.Units2()), separator);
      return Success(Page(html));
    }
  }

  /** A deletion followed by an insertion, as markup. */
  lemma BodyOfReplacement(x: string, y: string, separator: string)
    ensures Body([Entry(x, Deleted), Entry(y, Inserted)], separator) ==
              "<del>" + Escape(x) + "</del>" + separator + "<ins>" + Escape(y) + "</ins>" + separator
  {
    FlatMapOfTwo(Entry(x, Deleted), Entry(y, Inserted), e => Piece(e, separator));
    assert OpenTag("del") == "<del>" && CloseTag("del") == "</del>";
    assert OpenTag("ins") == "<ins>" && CloseTag("ins") == "</ins>";
    var d := "<del>" + Escape(x) + "</del>" + separator;
    AppendAssociative(d, "<ins>" + Escape(y) + "</ins>", separator);
    AppendAssociative(d, "<ins>" + Escape(y), "</ins>");
    AppendAssociative(d, "<ins>", Escape(y));
  }

  /** The markup of two different one-line strings without special
      characters, with the default separator: the test's expectation. */
  method RenderTwoLines(string1: string, string2: string) returns (r: Result<string>)
    requires string1 != string2
    requires forall i :: 0 <= i < |string1| ==> !IsBreak(string1[i]) && !IsSpecial(string1[i])
    requires forall i :: 0 <= i < |string2| ==> !IsBreak(string2[i]) && !IsSpecial(string2[i])
    ensures r == Success(Page("<del>" + string1 + "</del>" + "<br>" + "<ins>" + string2 + "</ins>" + "<br>"))
  {
    var diff := Diff.CompareStrings(string1, string2, false);
    ScriptOfTwoLines(string1, string2);
    assert Script(diff.Units1(), diff.Units2()) == [Entry(string1, Deleted), Entry(string2, Inserted)];
    var renderer := new Html(diff);
    r := renderer.Render();
    EscapeUnchanged(string1);
    EscapeUnchanged(string2);
    BodyOfReplacement(string1, string2, "<br>");
  }

  lemma PageOfEmpty()
    ensures Page(Body([], "<br>")) == "<div class=\"text-diff-container\"></div>"
  {
    assert CONTAINER_HEAD + "" == CONTAINER_HEAD;
  }

  /** Two empty strings in character mode give an empty script, rendered
      as the bare container. */
  method RenderEmpty() returns (r: Result<string>)
    ensures r == Success("<div class=\"text-diff-container\"></div>")
  {
    var diff := Diff.CompareStrings("", "", true);
    ScriptOfIdentical(UnitsOf("", true));
    assert Script(diff.Units1(), diff.Units2()) == [];
    var renderer := new Html(diff);
    r := renderer.Render();
    PageOfEmpty();
  }

  /** Two empty strings in line mode: the split gives one empty line each,
      kept, so the container holds one empty `span` and a separator. */
  method RenderEmptyLines() returns (r: Result<string>)
    ensures r == Success(Page("<span></span><br>"))
  {
    var diff := Diff.CompareStrings("", "", false);
    assert UnitsOf("", false) == [""];
    ScriptOfIdentical(UnitsOf("", false));
    assert Script(diff.Units1(), diff.Units2()) == [Entry("", Unmodified)];
    var renderer := new Html(diff);
    r := renderer.Render();
    BodyOfEmptyLine();
  }

  lemma BodyOfEmptyLine()
    ensures Body([Entry("", Unmodified)], "<br>") == "<span></span><br>"
  {
    FlatMapOfOne(Entry("", Unmodified), e => Piece(e, "<br>"));
    EmptySpan();
    assert "<span></span>" + "<br>" == "<span></span><br>";
  }

  lemma EmptySpan()
    ensures Element("span", "") == "<span></span>"
  {
    var open, close := OpenTag("span"), CloseTag("span");
    assert open == "<span>";
    assert close == "</span>";
    assert Element("span", "") == open + close by {
      assert Escape("") == "";
      assert open + "" == open;
    }
  }
}
