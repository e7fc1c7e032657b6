/** The Diff class of src/Diff.php: two strings, the comparison mode, the
    unit sequences toArray fills and clears, and the one-way `disposed`
    flag. */
module Session {
  import opened Edits
  import opened Assembly
  import opened Units

  /** The code of the exception toArray throws once the diff is disposed. */
  const ERROR_DIFF_ALREADY_DISPOSED: int := 66901

  /** The numeric codes of the three statuses, as PHP callers see them. */
  const UNMODIFIED: int := 0
  const DELETED: int := 1
  const INSERTED: int := 2

  function Code(status: Status): (code: int)
    ensures code == UNMODIFIED <==> status == Unmodified
    ensures code == DELETED <==> status == Deleted
    ensures code == INSERTED <==> status == Inserted
  {
    match status
    case Unmodified => UNMODIFIED
    case Deleted => DELETED
    case Inserted => INSERTED
  }

  /** A returned value, or the code of the exception thrown instead. */
  datatype Result<T> = Success(value: T) | Failure(code: int)

  class Diff {
    var compareCharacters: bool
    var string1: string
    var string2: string
    var sequence1: seq<string>
    var sequence2: seq<string>
    var disposed: bool

    constructor(string1: string, string2: string)
      ensures this.string1 == string1 && this.string2 == string2
      ensures !compareCharacters && !disposed
      ensures sequence1 == [] && sequence2 == []
    {
      this.string1 := string1;
      this.string2 := string2;
      compareCharacters := false;
      sequence1 := [];
      sequence2 := [];
      disposed := false;
    }

    /** compareStrings: a new diff of the two strings in the given mode. */
    static method CompareStrings(string1: string, string2: string, compareCharacters: bool)
      returns (diff: Diff)
      ensures fresh(diff)
      ensures diff.string1 == string1 && diff.string2 == string2
      ensures diff.compareCharacters == compareCharacters && !diff.disposed
      ensures diff.sequence1 == [] && diff.sequence2 == []
    {
      diff := new Diff(string1, string2);
      diff.SetCompareCharacters(compareCharacters);
    }

    method SetCompareCharacters(compare: bool)
      modifies this`compareCharacters
      ensures compareCharacters == compare
    {
      compareCharacters := compare;
    }

    /** The units of the two strings in the current mode. */
    function Units1(): seq<string>
      reads this`string1, this`compareCharacters
    {
      UnitsOf(string1, compareCharacters)
    }

    function Units2(): seq<string>
      reads this`string2, this`compareCharacters
    {
      UnitsOf(string2, compareCharacters)
    }

    /** What toArray returns in the current state. */
    function Outcome(): Result<seq<Entry<string>>>
      reads this`disposed, this`string1, this`string2, this`compareCharacters
    {
      if disposed then Failure(ERROR_DIFF_ALREADY_DISPOSED) else Success(Script(Units1(), Units2()))
    }

    /** toArray: fails once disposed; otherwise splits both strings into
        units, trims the shared prefix and suffix, fills the table, walks
        it back, assembles the script and clears the unit sequences. */
    method ToArray() returns (result: Result<seq<Entry<string>>>)
      modifies this`sequence1, this`sequence2
      ensures result == Outcome()
      ensures disposed ==> sequence1 == old(sequence1) && sequence2 == old(sequence2)
      ensures !disposed ==> sequence1 == [] && sequence2 == []
    {
      if disposed {
        return Failure(ERROR_DIFF_ALREADY_DISPOSED);
      }
      sequence1 := Units1();
      sequence2 := Units2();
      var diff := Compare(sequence1, sequence2);
      result := Success(diff);
      sequence1 := [];
      sequence2 := [];
    }

    /** dispose: clears the strings and sets the flag for good. */
    method Dispose()
      modifies this`string1, this`string2, this`disposed
      ensures disposed
      ensures string1 == "" && string2 == ""
    {
      string1 := "";
      string2 := "";
      disposed := true;
    }
  }

  // ---------------------------------------------------------------------
  // The lifecycle, as callers see it.

  /** Two calls on a diff that is not disposed return the same script, and
      one on a disposed diff fails with ERROR_DIFF_ALREADY_DISPOSED. */
  method ToArrayTwice(diff: Diff) returns (first: Result<seq<Entry<string>>>, second: Result<seq<Entry<string>>>)
    modifies diff`sequence1, diff`sequence2
    ensures first == second
    ensures first.Success? <==> !diff.disposed
    ensures first.Failure? ==> first.code == ERROR_DIFF_ALREADY_DISPOSED
  {
    first := diff.ToArray();
    second := diff.ToArray();
  }

  /** Disposing is final: toArray fails afterwards, whatever the strings. */
  method ToArrayAfterDispose(string1: string, string2: string) returns (result: Result<seq<Entry<string>>>)
    ensures result == Failure(ERROR_DIFF_ALREADY_DISPOSED)
  {
    var diff := Diff.CompareStrings(string1, string2, false);
    diff.Dispose();
    result := diff.ToArray();
  }

  /** Line mode on one-line strings that differ: the first line deleted,
      then the second inserted. */
  lemma ScriptOfTwoLines(string1: string, string2: string)
    requires string1 != string2
    requires forall i :: 0 <= i < |string1| ==> !IsBreak(string1[i])
    requires forall i :: 0 <= i < |string2| ==> !IsBreak(string2[i])
    ensures Script(UnitsOf(string1, false), UnitsOf(string2, false)) ==
              [Entry(string1, Deleted), Entry(string2, Inserted)]
  {
    SplitLinesOfOneLine(string1);
    SplitLinesOfOneLine(string2);
    ScriptOfTwoUnits(string1, string2);
  }

  /** toArray in line mode on one-line strings that differ. */
  method ToArrayOfTwoLines(string1: string, string2: string) returns (result: Result<seq<Entry<string>>>)
    requires string1 != string2
    requires forall i :: 0 <= i < |string1| ==> !IsBreak(string1[i])
    requires forall i :: 0 <= i < |string2| ==> !IsBreak(string2[i])
    ensures result == Success([Entry(string1, Deleted), Entry(string2, Inserted)])
  {
    var diff := Diff.CompareStrings(string1, string2, false);
    result := diff.ToArray();
    ScriptOfTwoLines(string1, string2);
  }

  /** Identical strings come out with every unit Unmodified. */
  method ToArrayOfIdentical(s: string, compareCharacters: bool) returns (result: Result<seq<Entry<string>>>)
    ensures result == Success(Kept(UnitsOf(s, compareCharacters)))
  {
    var diff := Diff.CompareStrings(s, s, compareCharacters);
    result := diff.ToArray();
    ScriptOfIdentical(UnitsOf(s, compareCharacters));
  }
}
