/** src/Diff/Renderer/HTMLTable.php: the script as a two-column table. Each
    row shows a run of kept units on both sides, or a run of deleted units
    on the left beside the run of inserted units right after it, or a run
    of inserted units on the right alone. */
module HtmlTableRenderer {
  import opened Edits
  import opened Assembly
  import opened Session
  import opened Markup
  import opened Units
  import HtmlRenderer

  /** resolveTag: the element a cell wraps each of its units in. */
  function ResolveTag(status: Status): string
  {
    match status
    case Deleted => "del"
    case Inserted => "ins"
    case _ => "span"
  }

  /** The table uses the element names the HTML renderer uses. */
  lemma ResolveTagIsHtmlTag(status: Status)
    ensures ResolveTag(status) == HtmlRenderer.Tag(status)
  {
  }

  /** Where the run of `status` entries that starts at `i` ends: the loop
      of getCellContent stops at the first entry of another status, or at
      the end of the script. */
  function RunEnd(script: seq<Entry<string>>, i: nat, status: Status): (j: nat)
    requires i <= |script|
    ensures i <= j <= |script|
    decreases |script| - i
  {
    if i == |script| || script[i].status != status then i else RunEnd(script, i + 1, status)
  }

  /** A run goes on past an entry of its status. */
  lemma RunEndStep(script: seq<Entry<string>>, i: nat, status: Status)
    requires i < |script| && script[i].status == status
    ensures RunEnd(script, i, status) == RunEnd(script, i + 1, status)
  {
  }

  /** The run holds only `status` entries, and past it comes the end of the
      script or an entry of another status. */
  lemma {:induction false} RunEndIsRun(script: seq<Entry<string>>, i: nat, status: Status)
    requires i <= |script|
    ensures var j := RunEnd(script, i, status);
            (forall k :: 0 <= k < |script[i..j]| ==> script[i..j][k].status == status) &&
            (j == |script| || script[j].status != status)
    decreases |script| - i
  {
    var j := RunEnd(script, i, status);
    if i < |script| && script[i].status == status {
      RunEndIsRun(script, i + 1, status);
      forall k | 0 <= k < |script[i..j]| ensures script[i..j][k].status == status {
        if k > 0 {
          assert script[i..j][k] == script[i + 1..j][k - 1];
        }
      }
    }
  }

  /** One unit of a cell: sprintf('<%1$s>%2$s</%1$s>%3$s', tag,
      htmlspecialchars(unit), separator). */
  function CellItem(tag: string, e: Entry<string>, separator: string): string
  {
    Element(tag, e.unit) + separator
  }

  /** The markup of a cell: each unit as a `tag` element followed by the
      separator. */
  function Cell(entries: seq<Entry<string>>, tag: string, separator: string): string
  {
    FlatMap(entries, (e: Entry<string>) => CellItem(tag, e, separator))
  }

  /** A cell over one more entry is the cell before it plus that entry. */
  lemma CellSnoc(s: seq<Entry<string>>, i: nat, j: nat, tag: string, separator: string)
    requires i < j <= |s|
    ensures Cell(s[i..j], tag, separator) == Cell(s[i..j - 1], tag, separator) + CellItem(tag, s[j - 1], separator)
  {
    assert s[i..j] == s[i..j - 1] + [s[j - 1]];
    FlatMapSnoc(s[i..j - 1], s[j - 1], (e: Entry<string>) => CellItem(tag, e, separator));
  }

  /** A cell of at least one unit starts with `<`. */
  lemma CellStart(entries: seq<Entry<string>>, tag: string, separator: string)
    requires entries != []
    ensures |Cell(entries, tag, separator)| > 0 && Cell(entries, tag, separator)[0] == '<'
  {
    var f := (e: Entry<string>) => CellItem(tag, e, separator);
    FlatMapAppend([entries[0]], entries[1..], f);
    FlatMapOfOne(entries[0], f);
    assert [entries[0]] + entries[1..] == entries;
  }

  /** A cell is empty exactly when it has no unit. */
  lemma CellEmpty(entries: seq<Entry<string>>, tag: string, separator: string)
    ensures Cell(entries, tag, separator) == "" <==> entries == []
  {
    if entries != [] {
      CellStart(entries, tag, separator);
    }
  }

  /** A cell of at least one unit also shows its tag right after the `<`. */
  lemma CellTag(entries: seq<Entry<string>>, tag: string, separator: string)
    requires entries != [] && tag != []
    ensures |Cell(entries, tag, separator)| > 1 && Cell(entries, tag, separator)[1] == tag[0]
  {
    var f := (e: Entry<string>) => CellItem(tag, e, separator);
    FlatMapAppend([entries[0]], entries[1..], f);
    FlatMapOfOne(entries[0], f);
    assert [entries[0]] + entries[1..] == entries;
  }

  /** PHP's empty() on a string. */
  predicate IsEmpty(s: string)
  {
    s == "" || s == "0"
  }

  /** resolveLeftType: the class of the left cell. */
  function ResolveLeftType(leftCell: string, rightCell: string): string
  {
    if IsEmpty(leftCell) then "empty" else if leftCell != rightCell then "del" else "unmodified"
  }

  /** resolveRightType: the class of the right cell. */
  function ResolveRightType(leftCell: string, rightCell: string): string
  {
    if IsEmpty(rightCell) then "empty" else if leftCell != rightCell then "ins" else "unmodified"
  }

  /** The two cells of one row and the index the next row starts at. */
  datatype Row = Row(left: string, right: string, next: nat)

  /** One iteration of the render loop at index `i`. */
  function RowAt(script: seq<Entry<string>>, i: nat, separator: string): (row: Row)
    requires i < |script|
    ensures i < row.next <= |script|
  {
    match script[i].status
    case Unmodified =>
      var j := RunEnd(script, i, Unmodified);
      var cell := Cell(script[i..j], ResolveTag(Unmodified), separator);
      Row(cell, cell, j)
    case Deleted =>
      var j := RunEnd(script, i, Deleted);
      var k := RunEnd(script, j, Inserted);
      Row(Cell(script[i..j], ResolveTag(Deleted), separator), Cell(script[j..k], ResolveTag(Inserted), separator), k)
    case Inserted =>
      var j := RunEnd(script, i, Inserted);
      Row("", Cell(script[i..j], ResolveTag(Inserted), separator), j)
  }

  /** The markup of one row. */
  function RowHtml(leftCell: string, rightCell: string, i2: string, i3: string, nl: string): string
  {
    i2 + "<tr>" + nl +
    i3 + "<td class=\"text-diff-" + ResolveLeftType(leftCell, rightCell) + "\">" + leftCell + "</td>" + nl +
    i3 + "<td class=\"text-diff-" + ResolveRightType(leftCell, rightCell) + "\">" + rightCell + "</td>" + nl +
    i2 + "</tr>" + nl
  }

  /** The markup of the rows from index `i` on. */
  function Rows(script: seq<Entry<string>>, i: nat, separator: string, i2: string, i3: string, nl: string): string
    requires i <= |script|
    decreases |script| - i
  {
    if i == |script| then ""
    else
      var row := RowAt(script, i, separator);
      RowHtml(row.left, row.right, i2, i3, nl) + Rows(script, row.next, separator, i2, i3, nl)
  }

  /** The container's text before and after the `%s`. */
  const CONTAINER_HEAD: string := "<table class=\"text-diff-container\">"
  const CONTAINER_TAIL: string := "</table>"

  /** What render returns for a script. */
  function Table(script: seq<Entry<string>>, indentation: string, tab: string, separator: string, nl: string): string
  {
    var html := Rows(script, 0, separator, indentation + tab, indentation + tab + tab, nl);
    indentation + (CONTAINER_HEAD + (nl + html) + CONTAINER_TAIL) + nl
  }

  // ---------------------------------------------------------------------
  // What the rows show.

  /** How the cells of the row at `i` are classed: kept units on both
      sides; deleted units on the left beside the inserted units after
      them, or beside an empty cell; inserted units alone on the right. */
  lemma RowClasses(script: seq<Entry<string>>, i: nat, separator: string)
    requires i < |script|
    ensures var row := RowAt(script, i, separator);
            var leftType := ResolveLeftType(row.left, row.right);
            var rightType := ResolveRightType(row.left, row.right);
            match script[i].status
            case Unmodified => row.left == row.right && leftType == "unmodified" && rightType == "unmodified"
            case Deleted =>
              leftType == "del" &&
              (rightType == "ins" <==> row.next > RunEnd(script, i, Deleted)) &&
              (rightType == "empty" <==> row.next == RunEnd(script, i, Deleted))
            case Inserted => leftType == "empty" && rightType == "ins"
  {
    var row := RowAt(script, i, separator);
    var j := RunEnd(script, i, script[i].status);
    assert j > i;
    CellStart(script[i..j], ResolveTag(script[i].status), separator);
    if script[i].status == Deleted && row.next > j {
      CellStart(script[j..row.next], ResolveTag(Inserted), separator);
      CellTag(script[i..j], ResolveTag(Deleted), separator);
      CellTag(script[j..row.next], ResolveTag(Inserted), separator);
    }
  }

  /** The cells of the rows from `i` on, each side read top to bottom. */
  function Columns(script: seq<Entry<string>>, i: nat, separator: string): (string, string)
    requires i <= |script|
    decreases |script| - i
  {
    if i == |script| then ("", "")
    else
      var row := RowAt(script, i, separator);
      var rest := Columns(script, row.next, separator);
      (row.left + rest.0, row.right + rest.1)
  }

  /** A cell, written entry by entry with each entry's own tag. */
  function Shown(entries: seq<Entry<string>>, separator: string): string
  {
    FlatMap(entries, (e: Entry<string>) => CellItem(ResolveTag(e.status), e, separator))
  }

  lemma ShownAppend(s: seq<Entry<string>>, t: seq<Entry<string>>, separator: string)
    ensures Shown(s + t, separator) == Shown(s, separator) + Shown(t, separator)
  {
    FlatMapAppend(s, t, (e: Entry<string>) => CellItem(ResolveTag(e.status), e, separator));
  }

  /** A run of one status: its cell is the run shown with its own tags, and
      dropping one status keeps the whole run or none of it. */
  lemma RunShown(run: seq<Entry<string>>, status: Status, separator: string)
    requires forall k :: 0 <= k < |run| ==> run[k].status == status
    ensures Cell(run, ResolveTag(status), separator) == Shown(run, separator)
    ensures Without(run, Inserted) == if status == Inserted then [] else run
    ensures Without(run, Deleted) == if status == Deleted then [] else run
  {
    FlatMapCongruent(run, (e: Entry<string>) => CellItem(ResolveTag(status), e, separator),
                          (e: Entry<string>) => CellItem(ResolveTag(e.status), e, separator));
    WithoutRun(run, status, Inserted);
    WithoutRun(run, status, Deleted);
  }

  /** The cells of the row at `i` show the entries of its span without the
      inserted ones (left) and without the deleted ones (right). */
  predicate RowShows(script: seq<Entry<string>>, i: nat, separator: string)
    requires i < |script|
  {
    var row := RowAt(script, i, separator);
    row.left == Shown(Without(script[i..row.next], Inserted), separator) &&
    row.right == Shown(Without(script[i..row.next], Deleted), separator)
  }

  lemma RowUnmodified(script: seq<Entry<string>>, i: nat, separator: string)
    requires i < |script| && script[i].status == Unmodified
    ensures RowShows(script, i, separator)
  {
    var row := RowAt(script, i, separator);
    var j := RunEnd(script, i, Unmodified);
    var first := script[i..j];
    RunEndIsRun(script, i, Unmodified);
    RunShown(first, Unmodified, separator);
    assert row.left == Cell(first, ResolveTag(Unmodified), separator);
    assert row.next == j;
    assert row.left == Shown(first, separator);
    assert Without(first, Inserted) == first;
  }

  lemma RowInserted(script: seq<Entry<string>>, i: nat, separator: string)
    requires i < |script| && script[i].status == Inserted
    ensures RowShows(script, i, separator)
  {
    var row := RowAt(script, i, separator);
    var j := RunEnd(script, i, Inserted);
    var first := script[i..j];
    RunEndIsRun(script, i, Inserted);
    RunShown(first, Inserted, separator);
    assert row.next == j;
    assert row.right == Shown(first, separator);
    assert Without(first, Inserted) == [];
  }

  lemma RowDeleted(script: seq<Entry<string>>, i: nat, separator: string)
    requires i < |script| && script[i].status == Deleted
    ensures RowShows(script, i, separator)
  {
    var row := RowAt(script, i, separator);
    var j := RunEnd(script, i, Deleted);
    var k := RunEnd(script, j, Inserted);
    var first, second := script[i..j], script[j..k];
    RunEndIsRun(script, i, Deleted);
    RunShown(first, Deleted, separator);
    RunEndIsRun(script, j, Inserted);
    RunShown(second, Inserted, separator);
    assert row.left == Shown(first, separator);
    assert row.right == Shown(second, separator);
    assert row.next == k;
    SliceSplit(script, i, j, k);
    WithoutAppend(first, second, Inserted);
    WithoutAppend(first, second, Deleted);
    assert first + [] == first && [] + second == second;
    assert Without(script[i..k], Inserted) == first;
    assert Without(script[i..k], Deleted) == second;
  }

  /** Each row shows its span: the left cell the entries of the first
      input, the right cell those of the second. */
  lemma RowShowsRun(script: seq<Entry<string>>, i: nat, separator: string)
    requires i < |script|
    ensures RowShows(script, i, separator)
  {
    match script[i].status
    case Unmodified => RowUnmodified(script, i, separator);
    case Inserted => RowInserted(script, i, separator);
    case Deleted => RowDeleted(script, i, separator);
  }

  lemma SliceSplit<X>(s: seq<X>, i: nat, j: nat, k: nat)
    requires i <= j <= k <= |s|
    ensures s[i..k] == s[i..j] + s[j..k]
  {
  }

  lemma SuffixSplit<X>(s: seq<X>, i: nat, j: nat)
    requires i <= j <= |s|
    ensures s[i..] == s[i..j] + s[j..]
  {
  }

  /** The rows show the first input down the left and the second down the
      right: the left column is every entry but the inserted ones, the
      right column every entry but the deleted ones, each in order with
      its own tag. */
  lemma {:induction false} ColumnsShowInputs(script: seq<Entry<string>>, i: nat, separator: string)
    requires i <= |script|
    ensures Columns(script, i, separator).0 == Shown(Without(script[i..], Inserted), separator)
    ensures Columns(script, i, separator).1 == Shown(Without(script[i..], Deleted), separator)
    decreases |script| - i
  {
    if i < |script| {
      var row := RowAt(script, i, separator);
      var rest := Columns(script, row.next, separator);
      assert Columns(script, i, separator) == (row.left + rest.0, row.right + rest.1);
      ColumnsShowInputs(script, row.next, separator);
      RowShowsRun(script, i, separator);
      var head, tail := script[i..row.next], script[row.next..];
      SuffixSplit(script, i, row.next);
      ColumnStep(head, tail, Inserted, separator, row.left, rest.0);
      ColumnStep(head, tail, Deleted, separator, row.right, rest.1);
    }
  }

  /** A row's cell followed by the column below it shows the entries from
      the row on. */
  lemma ColumnStep(head: seq<Entry<string>>, tail: seq<Entry<string>>, omit: Status, separator: string,
                   cell: string, below: string)
    requires cell == Shown(Without(head, omit), separator)
    requires below == Shown(Without(tail, omit), separator)
    ensures cell + below == Shown(Without(head + tail, omit), separator)
  {
    WithoutAppend(head, tail, omit);
    ShownAppend(Without(head, omit), Without(tail, omit), separator);
  }

  /** The table of a diff shows the first input down its left column and
      the second down its right: each column is a run of cells over the
      entries of one input, whose units are that input in order. */
  lemma TableShowsInputs(units1: seq<string>, units2: seq<string>, separator: string)
    ensures var script := Script(units1, units2);
            var left := Without(script, Inserted);
            var right := Without(script, Deleted);
            Columns(script, 0, separator) == (Shown(left, separator), Shown(right, separator)) &&
            UnitsIn(left) == units1 && UnitsIn(right) == units2
  {
    var script := Script(units1, units2);
    ColumnsShowInputs(script, 0, separator);
    assert script[0..] == script;
    WithoutProjects(script, Inserted);
    WithoutProjects(script, Deleted);
    ScriptProjects(units1, units2);
  }

  // ---------------------------------------------------------------------
  // A replaced line.

  /** One deleted unit followed by one inserted unit make one row. */
  lemma RowOfReplacement(x: string, y: string, separator: string)
    ensures RowAt([Entry(x, Deleted), Entry(y, Inserted)], 0, separator) ==
            Row(Element("del", x) + separator, Element("ins", y) + separator, 2)
  {
    var script := [Entry(x, Deleted), Entry(y, Inserted)];
    assert RunEnd(script, 0, Deleted) == 1;
    assert RunEnd(script, 1, Inserted) == 2;
    assert script[0..1] == [Entry(x, Deleted)];
    assert script[1..2] == [Entry(y, Inserted)];
    FlatMapOfOne(Entry(x, Deleted), (e: Entry<string>) => CellItem("del", e, separator));
    FlatMapOfOne(Entry(y, Inserted), (e: Entry<string>) => CellItem("ins", e, separator));
  }

  /** That row's cells are classed del and ins. */
  lemma TypesOfReplacement(x: string, y: string, separator: string)
    ensures var left, right := Element("del", x) + separator, Element("ins", y) + separator;
            ResolveLeftType(left, right) == "del" && ResolveRightType(left, right) == "ins"
  {
    var left, right := Element("del", x) + separator, Element("ins", y) + separator;
    assert left[0] == '<' && left[1] == 'd';
    assert right[0] == '<' && right[1] == 'i';
  }

  lemma TagLiterals()
    ensures OpenTag("del") == "<del>" && OpenTag("ins") == "<ins>"
    ensures CloseTag("del") == "</del>" && CloseTag("ins") == "</ins>"
  {
  }

  /** The table of one deleted and one inserted unit: a single row, the
      deleted unit on the left and the inserted one on the right. */
  lemma TableOfReplacement(x: string, y: string, indent: string, tab: string, separator: string, nl: string)
    ensures var i2, i3 := indent + tab, indent + tab + tab;
      Table([Entry(x, Deleted), Entry(y, Inserted)], indent, tab, separator, nl) ==
      indent + ("<table class=\"text-diff-container\">" + (nl +
        (i2 + "<tr>" + nl +
         i3 + "<td class=\"text-diff-" + "del" + "\">" + ("<del>" + Escape(x) + "</del>" + separator) + "</td>" + nl +
         i3 + "<td class=\"text-diff-" + "ins" + "\">" + ("<ins>" + Escape(y) + "</ins>" + separator) + "</td>" + nl +
         i2 + "</tr>" + nl)) + "</table>") + nl
  {
    var script := [Entry(x, Deleted), Entry(y, Inserted)];
    var i2, i3 := indent + tab, indent + tab + tab;
    var left, right := Element("del", x) + separator, Element("ins", y) + separator;
    RowOfReplacement(x, y, separator);
    TypesOfReplacement(x, y, separator);
    TagLiterals();
    var row := RowHtml(left, right, i2, i3, nl);
    assert Rows(script, 0, separator, i2, i3, nl) == row + "";
    assert row + "" == row;
  }

  // ---------------------------------------------------------------------
  // The renderer.

  class HtmlTable {
    const diff: Diff
    var separator: string
    var indentation: string
    var tab: string
    /** PHP_EOL, which depends on the platform. */
    const nl: string
    /** The script of the last render (the `$array` field). */
    var entries: seq<Entry<string>>

    constructor(diff: Diff, eol: string)
      ensures this.diff == diff && nl == eol
      ensures separator == "<br>" && indentation == "" && tab == "    "
      ensures entries == []
    {
      this.diff := diff;
      nl := eol;
      separator := "<br>";
      indentation := "";
      tab := "    ";
      entries := [];
    }

    method SetTab(tab: string)
      modifies this`tab
      ensures this.tab == tab
    {
      this.tab := tab;
    }

    method SetSeparator(separator: string)
      modifies this`separator
      ensures this.separator == separator
    {
      this.separator := separator;
    }

    method SetIndentation(indent: string)
      modifies this`indentation
      ensures indentation == indent
    {
      indentation := indent;
    }

    /** getCellContent: the cell for the run of `status` entries starting
        at `index`, and the index just past that run (the by-reference
        index of the source). The cell is empty exactly when the run is. */
    method GetCellContent(index: nat, status: Status) returns (html: string, next: nat)
      requires index <= |entries|
      ensures next == RunEnd(entries, index, status)
      ensures html == Cell(entries[index..next], ResolveTag(status), separator)
    {
      html := "";
      var tag := ResolveTag(status);
      var script, sep := entries, separator;
      next := index;
      ghost var end := RunEnd(script, index, status);
      while next < |script| && script[next].status == status
        invariant index <= next <= |script|
        invariant RunEnd(script, next, status) == end
        invariant html == Cell(script[index..next], tag, sep)
      {
        html := html + CellItem(tag, script[next], sep);
        RunEndStep(script, next, status);
        next := next + 1;
        CellSnoc(script, index, next, tag, sep);
      }
    }

    /** render: the table of the diff's script, or the exception toArray
        throws once the diff is disposed. */
    method Render() returns (r: Result<string>)
      modifies this`entries, diff`sequence1, diff`sequence2
      ensures diff.disposed ==> r == Failure(ERROR_DIFF_ALREADY_DISPOSED) && entries == old(entries)
      ensures !diff.disposed ==> entries == Script(diff.Units1(), diff.Units2())
      ensures !diff.disposed ==> r == Success(Table(entries, indentation, tab, separator, nl))
      ensures diff.disposed ==> diff.sequence1 == old(diff.sequence1) && diff.sequence2 == old(diff.sequence2)
      ensures !diff.disposed ==> diff.sequence1 == [] && diff.sequence2 == []
    {
      var result := diff.ToArray();
      if result.Failure? {
        return Failure(result.code);
      }
      entries := result.value;
      ghost var script, sep := entries, separator;
      var i1 := indentation;
      var i2 := indentation + tab;
      var i3 := indentation + tab + tab;
      var html := "";
      var index: nat := 0;
      while index < |entries|
        invariant entries == script && separator == sep
        invariant diff.sequence1 == [] && diff.sequence2 == []
        invariant index <= |script|
        invariant html + Rows(script, index, sep, i2, i3, nl) == Rows(script, 0, sep, i2, i3, nl)
        decreases |script| - index
      {
        ghost var row := RowAt(script, index, sep);
        var leftCell := "";
        var rightCell := "";
        match entries[index].status {
          case Unmodified =>
            leftCell, index := GetCellContent(index, Unmodified);
            rightCell := leftCell;
          case Deleted =>
            leftCell, index := GetCellContent(index, Deleted);
            rightCell, index := GetCellContent(index, Inserted);
          case Inserted =>
            rightCell, index := GetCellContent(index, Inserted);
        }
        assert Row(leftCell, rightCell, index) == row;
        var leftType := ResolveLeftType(leftCell, rightCell);
        var rightType := ResolveRightType(leftCell, rightCell);
        var rowHtml :=
          i2 + "<tr>" + nl +
          i3 + "<td class=\"text-diff-" + leftType + "\">" + leftCell + "</td>" + nl +
          i3 + "<td class=\"text-diff-" + rightType + "\">" + rightCell + "</td>" + nl +
          i2 + "</tr>" + nl;
        assert rowHtml == RowHtml(leftCell, rightCell, i2, i3, nl);
        AppendAssociative(html, rowHtml, Rows(script, index, sep, i2, i3, nl));
        html := html + rowHtml;
      }
      assert html == Rows(script, 0, sep, i2, i3, nl);
      r := Success(i1 + (CONTAINER_HEAD + (nl + html) + CONTAINER_TAIL) + nl);
      assert r == Success(Table(script, indentation, tab, sep, nl));
    }
  }

  /** The table for two different one-line strings with the default
      settings: the first line deleted on the left, the second inserted on
      the right, each followed by `<br>`. */
  method RenderTwoLines(string1: string, string2: string, eol: string) returns (r: Result<string>)
    requires string1 != string2
    requires forall i :: 0 <= i < |string1| ==> !IsBreak(string1[i]) && !IsSpecial(string1[i])
    requires forall i :: 0 <= i < |string2| ==> !IsBreak(string2[i]) && !IsSpecial(string2[i])
    ensures var indent, tab, nl := "", "    ", eol;
      var i2, i3 := indent + tab, indent + tab + tab;
      r == Success(
        indent + ("<table class=\"text-diff-container\">" + (nl +
          (i2 + "<tr>" + nl +
           i3 + "<td class=\"text-diff-" + "del" + "\">" + ("<del>" + string1 + "</del>" + "<br>") + "</td>" + nl +
           i3 + "<td class=\"text-diff-" + "ins" + "\">" + ("<ins>" + string2 + "</ins>" + "<br>") + "</td>" + nl +
           i2 + "</tr>" + nl)) + "</table>") + nl)
  {
    var diff := Diff.CompareStrings(string1, string2, false);
    ScriptOfTwoLines(string1, string2);
    assert Script(diff.Units1(), diff.Units2()) == [Entry(string1, Deleted), Entry(string2, Inserted)];
    var renderer := new HtmlTable(diff, eol);
    r := renderer.Render();
    EscapeUnchanged(string1);
    EscapeUnchanged(string2);
    TableOfReplacement(string1, string2, "", "    ", "<br>", eol);
  }
}
