/** The markup the two HTML renderers share: htmlspecialchars with the
    default flags of PHP 8.1 and later, on text that is valid UTF-8, where
    it replaces the five characters `&`, `"`, `'`, `<` and `>` by entities
    and keeps every other character; and the `<tag>text</tag>` element both
    renderers write around one unit. The replacement of invalid byte
    sequences by U+FFFD, and the older defaults that leave `'` as it is,
    are not modelled. */
module Markup {

  /** The characters htmlspecialchars replaces by an entity. */
  predicate IsSpecial(c: char)
  {
    c == '&' || c == '"' || c == '\'' || c == '<' || c == '>'
  }

  /** The characters that would open or close a tag or an attribute value. */
  predicate IsDelimiter(c: char)
  {
    c == '"' || c == '\'' || c == '<' || c == '>'
  }

  /** What htmlspecialchars writes for one character. */
  function EscapeChar(c: char): (r: string)
    ensures r == [c] <==> !IsSpecial(c)
    ensures forall i :: 0 <= i < |r| ==> !IsDelimiter(r[i])
    ensures IsSpecial(c) ==> |r| >= 4 && r[0] == '&' && r[|r| - 1] == ';'
  {
    match c
    case '&' => "&amp;"
    case '"' => "&quot;"
    case '\'' => "&#039;"
    case '<' => "&lt;"
    case '>' => "&gt;"
    case _ => [c]
  }

  /** htmlspecialchars: every character escaped, in order. */
  function Escape(s: string): (r: string)
    ensures |r| >= |s|
  {
    if s == [] then [] else EscapeChar(s[0]) + Escape(s[1..])
  }

  /** Escaped text holds no quote and no angle bracket, so it can neither
      close the element around it nor open a new one. */
  lemma {:induction false} EscapeHasNoDelimiter(s: string)
    ensures forall i :: 0 <= i < |Escape(s)| ==> !IsDelimiter(Escape(s)[i])
    decreases |s|
  {
    if s != [] {
      EscapeHasNoDelimiter(s[1..]);
      var a, b := EscapeChar(s[0]), Escape(s[1..]);
      assert Escape(s) == a + b;
      forall i | 0 <= i < |a + b| ensures !IsDelimiter((a + b)[i]) {
        if i < |a| {
          assert (a + b)[i] == a[i];
        } else {
          assert (a + b)[i] == b[i - |a|];
        }
      }
    }
  }

  /** htmlspecialchars_decode with ENT_QUOTES: the five entities turned
      back into their characters, everything else copied. */
  function Unescape(s: string): string
    decreases |s|
  {
    if s == [] then []
    else if s[0] == '&' && |s| >= 5 && s[..5] == "&amp;" then "&" + Unescape(s[5..])
    else if s[0] == '&' && |s| >= 6 && s[..6] == "&quot;" then "\"" + Unescape(s[6..])
    else if s[0] == '&' && |s| >= 6 && s[..6] == "&#039;" then "'" + Unescape(s[6..])
    else if s[0] == '&' && |s| >= 4 && s[..4] == "&lt;" then "<" + Unescape(s[4..])
    else if s[0] == '&' && |s| >= 4 && s[..4] == "&gt;" then ">" + Unescape(s[4..])
    else [s[0]] + Unescape(s[1..])
  }

  /** Decoding reads one escaped character back and goes on after it. */
  lemma UnescapeAfterChar(c: char, t: string)
    ensures Unescape(EscapeChar(c) + t) == [c] + Unescape(t)
  {
    var s := EscapeChar(c) + t;
    match c
    case '&' => assert s[..5] == "&amp;" && s[5..] == t;
    case '"' =>
      assert s[..6] == "&quot;" && s[6..] == t;
      assert s[..5] != "&amp;" by { assert s[1] == 'q'; }
    case '\'' =>
      assert s[..6] == "&#039;" && s[6..] == t;
      assert s[..5] != "&amp;" by { assert s[1] == '#'; }
      assert s[..6] != "&quot;" by { assert s[1] == '#'; }
    case '<' =>
      assert s[..4] == "&lt;" && s[4..] == t;
      assert s[1] == 'l';
      assert |s| >= 5 ==> s[..5] != "&amp;";
      assert |s| >= 6 ==> s[..6] != "&quot;" && s[..6] != "&#039;";
    case '>' =>
      assert s[..4] == "&gt;" && s[4..] == t;
      assert s[1] == 'g';
      assert |s| >= 5 ==> s[..5] != "&amp;";
      assert |s| >= 6 ==> s[..6] != "&quot;" && s[..6] != "&#039;";
      assert s[..4] != "&lt;";
    case _ => assert s[0] == c && s[1..] == t;
  }

  /** Escaping loses nothing: decoding gives the text back. */
  lemma {:induction false} EscapeRoundTrip(s: string)
    ensures Unescape(Escape(s)) == s
    decreases |s|
  {
    if s != [] {
      EscapeRoundTrip(s[1..]);
      UnescapeAfterChar(s[0], Escape(s[1..]));
      assert [s[0]] + s[1..] == s;
    }
  }

  /** Text without special characters is left as it is. */
  lemma {:induction false} EscapeUnchanged(s: string)
    requires forall i :: 0 <= i < |s| ==> !IsSpecial(s[i])
    ensures Escape(s) == s
    decreases |s|
  {
    if s != [] {
      EscapeUnchanged(s[1..]);
      assert [s[0]] + s[1..] == s;
    }
  }

  /** The opening tag of an element. */
  function OpenTag(tag: string): (r: string)
    ensures |r| == |tag| + 2 && r[0] == '<' && r[|r| - 1] == '>'
    ensures forall i :: 0 <= i < |tag| ==> r[i + 1] == tag[i]
  {
    "<" + tag + ">"
  }

  /** The closing tag of an element. */
  function CloseTag(tag: string): (r: string)
    ensures |r| == |tag| + 3 && r[0] == '<'
  {
    "</" + tag + ">"
  }

  /** The element sprintf('<%1$s>%2$s</%1$s>', tag, htmlspecialchars(text))
      builds. */
  function Element(tag: string, text: string): string
  {
    OpenTag(tag) + Escape(text) + CloseTag(tag)
  }

  /** The first index at or after `from` where `s` holds `c`, or |s| if
      there is none (FindAt states which index it is). */
  function Find(s: string, c: char, from: nat): (n: nat)
    requires from <= |s|
    ensures from <= n <= |s|
    decreases |s| - from
  {
    if from == |s| || s[from] == c then from else Find(s, c, from + 1)
  }

  /** The search stops at the first `c` past `from`. */
  lemma {:induction false} FindAt(s: string, c: char, from: nat, n: nat)
    requires from <= n < |s| && s[n] == c
    requires forall i :: from <= i < n ==> s[i] != c
    ensures Find(s, c, from) == n
    decreases n - from
  {
    if from < n {
      FindAt(s, c, from + 1, n);
    }
  }
}
