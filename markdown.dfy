/** The markdown formatting helpers of the documentation generator: headings, list
    items, links, anchors and fenced code blocks. Each is a pure string function. */
module Markdown {
  import opened Text

  /** `n` copies of `c` (`c * n` in Python, empty for `n <= 0`). */
  function Repeat(c: char, n: int): (r: string)
    ensures |r| == if n > 0 then n else 0
    decreases n
  {
    if n <= 0 then [] else [c] + Repeat(c, n - 1)
  }

  lemma {:induction false} RepeatAll(c: char, n: int)
    ensures All(Repeat(c, n), Only(c))
    decreases n
  {
    if n > 0 {
      RepeatAll(c, n - 1);
    }
  }

  /** `h1`. */
  function H1(title: string): string {
    "# " + title + "\n\n"
  }

  /** `h2`. */
  function H2(title: string): string {
    "## " + title + "\n\n"
  }

  /** `h3`. */
  function H3(title: string): string {
    "### " + title + "\n\n"
  }

  /** The level of a heading, the run of `#` it starts with, can be read back, and the
      title stands verbatim between the marks with their space and the blank line. */
  lemma HeadingLevels(title: string)
    ensures Span(H1(title), Only('#')) == 1 && H1(title)[2..|H1(title)| - 2] == title
    ensures Span(H2(title), Only('#')) == 2 && H2(title)[3..|H2(title)| - 2] == title
    ensures Span(H3(title), Only('#')) == 3 && H3(title)[4..|H3(title)| - 2] == title
  {
    var rest := title + "\n\n";
    SpanOfSplit("#", " " + rest, Only('#'));
    SpanOfSplit("##", " " + rest, Only('#'));
    SpanOfSplit("###", " " + rest, Only('#'));
    assert H1(title) == "#" + (" " + rest);
    assert H2(title) == "##" + (" " + rest);
    assert H3(title) == "###" + (" " + rest);
  }

  /** A title without a line break makes a heading of two lines: the marks and the
      title, then an empty line. */
  lemma HeadingLines(title: string)
    requires '\n' !in title
    ensures Lines(H1(title)) == ["# " + title + "\n", "\n"]
    ensures Lines(H2(title)) == ["## " + title + "\n", "\n"]
    ensures Lines(H3(title)) == ["### " + title + "\n", "\n"]
  {
    TwoLines("# " + title);
    TwoLines("## " + title);
    TwoLines("### " + title);
  }

  lemma TwoLines(x: string)
    requires '\n' !in x
    ensures Lines(x + "\n\n") == [x + "\n", "\n"]
  {
    var first := x + "\n";
    assert x + "\n\n" == first + "\n";
    assert first[..|first| - 1] == x;
    AllExcept(x, '\n');
    LinesOfLine(first);
    assert "\n"[..0] == [];
    LinesOfLine("\n");
    LinesAppend(first, "\n");
  }

  /** `list_item`: `2 * indent` spaces, the bullet, the text and a line break. */
  function ListItem(text: string, indent: int := 0): string {
    Repeat(' ', 2 * indent) + "- " + text + "\n"
  }

  /** An item is `2 * indent` spaces, then "- ", the text and a line break: the nesting
      depth can be read back from the leading spaces, and two items of the same text
      differ only in that prefix. */
  lemma ListItemIndent(text: string, i: nat, j: nat)
    ensures |ListItem(text, i)| == 2 * i + |text| + 3
    ensures Span(ListItem(text, i), Only(' ')) == 2 * i
    ensures ListItem(text, i)[2 * i..] == "- " + text + "\n"
    ensures ListItem(text, i)[2 * i..] == ListItem(text, j)[2 * j..]
    ensures i != j ==> ListItem(text, i) != ListItem(text, j)
  {
    var tail := "- " + text + "\n";
    var a, b := ListItem(text, i), ListItem(text, j);
    assert a == Repeat(' ', 2 * i) + tail;
    assert b == Repeat(' ', 2 * j) + tail;
    RepeatAll(' ', 2 * i);
    RepeatAll(' ', 2 * j);
    SpanOfSplit(Repeat(' ', 2 * i), tail, Only(' '));
    SpanOfSplit(Repeat(' ', 2 * j), tail, Only(' '));
  }

  /** An item whose text has no line break is exactly one line. */
  lemma ListItemIsLine(text: string, indent: nat)
    requires '\n' !in text
    ensures IsLine(ListItem(text, indent))
  {
    var r := ListItem(text, indent);
    var pad := Repeat(' ', 2 * indent);
    RepeatAll(' ', 2 * indent);
    assert r[..|r| - 1] == pad + "- " + text;
    assert '\n' !in pad by {
      forall k | 0 <= k < |pad| ensures pad[k] != '\n' {
        assert In(pad[k], Only(' '));
      }
    }
    AllExcept(r[..|r| - 1], '\n');
  }

  /** `link`: an inline markdown link `[text](url)`. */
  function Link(text: string, url: string): string {
    "[" + text + "](" + url + ")"
  }

  /** A link whose text has no `]` determines both its text and its target. */
  lemma LinkInjective(a: string, u: string, b: string, v: string)
    requires ']' !in a && ']' !in b
    requires Link(a, u) == Link(b, v)
    ensures a == b && u == v
  {
    var r := Link(a, u);
    AllExcept(a, ']');
    AllExcept(b, ']');
    assert r[1..] == a + ("](" + u + ")");
    assert r[1..] == b + ("](" + v + ")");
    SpanOfSplit(a, "](" + u + ")", Except(']'));
    SpanOfSplit(b, "](" + v + ")", Except(']'));
    assert a == r[1..|a| + 1] == b;
    assert u == r[|a| + 3..|r| - 1] == v;
  }

  /** ASCII lower-casing of one character. */
  function LowerChar(c: char): char {
    if 'A' <= c <= 'Z' then (c as int + 32) as char else c
  }

  /** `str.lower()`, for ASCII letters. */
  function Lower(s: string): string {
    if s == [] then [] else [LowerChar(s[0])] + Lower(s[1..])
  }

  /** Lower-casing works character by character. */
  lemma {:induction false} LowerAt(s: string)
    ensures |Lower(s)| == |s|
    ensures forall i :: 0 <= i < |s| ==> Lower(s)[i] == LowerChar(s[i])
  {
    if s != [] {
      LowerAt(s[1..]);
    }
  }

  /** `str.replace(" ", "-")`. */
  function HyphenateSpaces(s: string): string {
    if s == [] then [] else [if s[0] == ' ' then '-' else s[0]] + HyphenateSpaces(s[1..])
  }

  /** Replacing spaces works character by character. */
  lemma {:induction false} HyphenateSpacesAt(s: string)
    ensures |HyphenateSpaces(s)| == |s|
    ensures forall i :: 0 <= i < |s| ==> HyphenateSpaces(s)[i] == if s[i] == ' ' then '-' else s[i]
  {
    if s != [] {
      HyphenateSpacesAt(s[1..]);
    }
  }

  /** `to_anchor`: "#" then the text lower-cased with every space replaced by "-". */
  function ToAnchor(text: string): string {
    "#" + HyphenateSpaces(Lower(text))
  }

  /** The anchor maps the text character by character, so it is one longer than the
      text: a space becomes `-` and every other character is lower-cased. */
  lemma AnchorChars(text: string)
    ensures |ToAnchor(text)| == |text| + 1 && ToAnchor(text)[0] == '#'
    ensures forall i :: 0 <= i < |text| ==>
      ToAnchor(text)[i + 1] == if text[i] == ' ' then '-' else LowerChar(text[i])
  {
    var r := ToAnchor(text);
    LowerAt(text);
    HyphenateSpacesAt(Lower(text));
    forall i | 0 <= i < |text|
      ensures r[i + 1] == if text[i] == ' ' then '-' else LowerChar(text[i])
    {
      assert r[i + 1] == HyphenateSpaces(Lower(text))[i];
    }
  }

  /** An anchor contains neither spaces, nor upper-case ASCII letters, nor a line break
      the text did not have, and texts that differ only in ASCII letter case have the
      same anchor. */
  lemma AnchorNormalised(a: string, b: string)
    ensures ' ' !in ToAnchor(a)
    ensures forall i :: 0 <= i < |ToAnchor(a)| ==> !('A' <= ToAnchor(a)[i] <= 'Z')
    ensures '\n' !in a ==> '\n' !in ToAnchor(a)
    ensures Lower(a) == Lower(b) ==> ToAnchor(a) == ToAnchor(b)
  {
    var r := ToAnchor(a);
    AnchorChars(a);
    forall i | 0 <= i < |r|
      ensures r[i] != ' ' && !('A' <= r[i] <= 'Z')
      ensures '\n' !in a ==> r[i] != '\n'
    {
      if i > 0 {
        assert r[i] == if a[i - 1] == ' ' then '-' else LowerChar(a[i - 1]);
        assert '\n' !in a ==> a[i - 1] != '\n';
      }
    }
    if Lower(a) == Lower(b) {
      AnchorChars(b);
      LowerAt(a);
      LowerAt(b);
      assert forall i :: 0 <= i < |a| ==> LowerChar(a[i]) == LowerChar(b[i]) by {
        forall i | 0 <= i < |a| ensures LowerChar(a[i]) == LowerChar(b[i]) {
          assert Lower(a)[i] == Lower(b)[i];
        }
      }
      assert forall i :: 0 <= i < |a| ==> (a[i] == ' ' <==> b[i] == ' ');
    }
  }

  /** `code`: a fenced block. */
  function Code(text: string, lang: string := ""): string {
    var s := "```" + lang + "\n";
    var s := s + text + "\n";
    var s := s + "```\n";
    s
  }

  /** The block opens with three backticks, the language tag and a line break, closes
      with a line break and three backticks on a line of their own, and holds the text
      verbatim in between. */
  lemma CodeVerbatim(text: string, lang: string)
    ensures var r := Code(text, lang);
      |r| == |lang| + |text| + 9 &&
      r[..3] == "```" && r[3..|lang| + 3] == lang && r[|lang| + 3] == '\n' &&
      r[|lang| + 4..|r| - 5] == text && r[|r| - 5..] == "\n```\n"
  {
    var r := Code(text, lang);
    assert r == "```" + lang + "\n" + text + "\n```\n";
  }
}
