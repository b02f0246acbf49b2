/** The declaration pattern `\s*(?:enum|record)\s+([a-zA-Z0-9_]+)\s*{`, applied with
    `re.match`, i.e. anchored at the start of a line. `Parse` runs it as a
    deterministic left-to-right scan; `Decl` is the shape of a line it accepts. */
module Declarations {
  import opened Text

  datatype Option<T> = None | Some(value: T)

  /** A line split into the pieces the pattern matches: leading whitespace, the
      keyword, the whitespace after it, the declared name (group 1), optional
      whitespace, then `{` and whatever follows it. */
  datatype Decl = Decl(lead: string, keyword: string, gap: string, name: string, pad: string, rest: string)

  predicate IsKeyword(k: string) {
    k == "enum" || k == "record"
  }

  /** The constraints each piece of the pattern puts on its part of the line. */
  predicate WellFormed(d: Decl) {
    All(d.lead, Whitespace) && IsKeyword(d.keyword) &&
    |d.gap| > 0 && All(d.gap, Whitespace) &&
    |d.name| > 0 && All(d.name, Word) &&
    All(d.pad, Whitespace)
  }

  /** The line a declaration was cut from. */
  function LineOf(d: Decl): string {
    d.lead + (d.keyword + (d.gap + (d.name + (d.pad + ("{" + d.rest)))))
  }

  /** The keyword at the start of `s`, if any (`enum|record`). */
  function Keyword(s: string): Option<string> {
    if |s| >= 4 && s[..4] == "enum" then Some("enum")
    else if |s| >= 6 && s[..6] == "record" then Some("record")
    else None
  }

  lemma KeywordSound(s: string)
    requires Keyword(s).Some?
    ensures var k := Keyword(s).value; IsKeyword(k) && |k| <= |s| && s == k + s[|k|..]
  {
    var k := Keyword(s).value;
    assert s == s[..|k|] + s[|k|..];
  }

  /** A line cut in two where a greedy run of one character class ends. */
  datatype Cut = Cut(run: string, rest: string)

  /** What `k*` consumes at the start of `s`, and what is left after it. */
  function Run(s: string, k: CharClass): Cut {
    var n := Span(s, k);
    Cut(s[..n], s[n..])
  }

  /** A run cuts the text in two without losing anything, and all it takes is of its class. */
  lemma RunSound(s: string, k: CharClass)
    ensures s == Run(s, k).run + Run(s, k).rest && All(Run(s, k).run, k)
  {
    SpanAll(s, k);
    assert s == s[..Span(s, k)] + s[Span(s, k)..];
  }

  /** A run is cut exactly where its class stops. */
  lemma RunOfSplit(a: string, b: string, k: CharClass)
    requires All(a, k)
    requires b == [] || !In(b[0], k)
    ensures Run(a + b, k) == Cut(a, b)
  {
    SpanOfSplit(a, b, k);
    assert (a + b)[..|a|] == a;
    assert (a + b)[|a|..] == b;
  }

  /** `\s*{`: the whitespace before the brace and the text after it. */
  function MatchBrace(s: string): Option<Cut> {
    var pad := Run(s, Whitespace);
    if pad.rest != [] && pad.rest[0] == '{' then Some(Cut(pad.run, pad.rest[1..])) else None
  }

  lemma MatchBraceSound(s: string)
    requires MatchBrace(s).Some?
    ensures var c := MatchBrace(s).value; All(c.run, Whitespace) && s == c.run + ("{" + c.rest)
  {
    var pad := Run(s, Whitespace);
    RunSound(s, Whitespace);
    assert pad.rest == "{" + pad.rest[1..];
  }

  /** `\s+([a-zA-Z0-9_]+)\s*{`: everything after the keyword, as the last four pieces of a
      declaration (its lead and keyword left empty). */
  function MatchTail(s: string): Option<Decl> {
    var gap := Run(s, Whitespace);
    if gap.run == [] then None
    else
      var name := Run(gap.rest, Word);
      if name.run == [] then None
      else
        match MatchBrace(name.rest)
        case None => None
        case Some(brace) => Some(Decl("", "", gap.run, name.run, brace.run, brace.rest))
  }

  lemma MatchTailSound(s: string)
    requires MatchTail(s).Some?
    ensures var d := MatchTail(s).value;
      d.lead == "" && d.keyword == "" &&
      |d.gap| > 0 && All(d.gap, Whitespace) &&
      |d.name| > 0 && All(d.name, Word) && All(d.pad, Whitespace) &&
      s == d.gap + (d.name + (d.pad + ("{" + d.rest)))
  {
    var gap := Run(s, Whitespace);
    RunSound(s, Whitespace);
    var name := Run(gap.rest, Word);
    RunSound(gap.rest, Word);
    MatchBraceSound(name.rest);
  }

  /** `type_re.match(line)`: the pieces of the line when it is a declaration. */
  function Parse(line: string): Option<Decl> {
    var lead := Run(line, Whitespace);
    match Keyword(lead.rest)
    case None => None
    case Some(kw) =>
      match MatchTail(lead.rest[|kw|..])
      case None => None
      case Some(t) => Some(t.(lead := lead.run, keyword := kw))
  }

  /** Soundness of the scan: what it accepts has the declaration shape, and cutting the
      line into its pieces loses nothing. */
  lemma ParseSound(line: string)
    ensures Parse(line).Some? ==> WellFormed(Parse(line).value) && LineOf(Parse(line).value) == line
  {
    var lead := Run(line, Whitespace);
    RunSound(line, Whitespace);
    if Keyword(lead.rest).Some? {
      var kw := Keyword(lead.rest).value;
      KeywordSound(lead.rest);
      if MatchTail(lead.rest[|kw|..]).Some? {
        var t := MatchTail(lead.rest[|kw|..]).value;
        MatchTailSound(lead.rest[|kw|..]);
        assert Parse(line).value == t.(lead := lead.run, keyword := kw);
      }
    }
  }

  /** The declared name of a line, when the line is a declaration (`match.group(1)`). */
  function DeclaredName(line: string): Option<string> {
    match Parse(line)
    case None => None
    case Some(d) => Some(d.name)
  }

  /** Completeness and uniqueness of the scan: every line of the declaration shape is
      recognised, and cut exactly as it was built, so the name it reports is the
      identifier the line declares. Together with `ParseSound`, a line is a
      declaration if and only if it has this shape. */
  lemma ParseComplete(d: Decl)
    requires WellFormed(d)
    ensures Parse(LineOf(d)) == Some(d)
  {
    var tail := d.gap + (d.name + (d.pad + ("{" + d.rest)));
    var s1 := d.keyword + tail;
    RunOfSplit(d.lead, s1, Whitespace);
    assert Keyword(s1) == Some(d.keyword);
    assert s1[|d.keyword|..] == tail;
    MatchTailComplete(d.gap, d.name, d.pad, d.rest);
  }

  lemma MatchTailComplete(gap: string, name: string, pad: string, rest: string)
    requires |gap| > 0 && All(gap, Whitespace)
    requires |name| > 0 && All(name, Word) && All(pad, Whitespace)
    ensures MatchTail(gap + (name + (pad + ("{" + rest))))
         == Some(Decl("", "", gap, name, pad, rest))
  {
    var s4 := pad + ("{" + rest);
    assert s4[0] == '{' || IsSpace(s4[0]);
    RunOfSplit(gap, name + s4, Whitespace);
    RunOfSplit(name, s4, Word);
    MatchBraceComplete(pad, rest);
  }

  lemma MatchBraceComplete(pad: string, rest: string)
    requires All(pad, Whitespace)
    ensures MatchBrace(pad + ("{" + rest)) == Some(Cut(pad, rest))
  {
    RunOfSplit(pad, "{" + rest, Whitespace);
  }

  /** A line whose first non-whitespace character cannot start `enum` or `record` is
      never a declaration: the pattern is anchored, so text such as a comment in front
      of a declaration hides it. */
  lemma AnchoredAtLineStart(line: string)
    requires Span(line, Whitespace) < |line|
    requires line[Span(line, Whitespace)] != 'e' && line[Span(line, Whitespace)] != 'r'
    ensures DeclaredName(line) == None
  {
    var lead := Run(line, Whitespace);
    assert lead.rest[0] == line[Span(line, Whitespace)];
    assert Keyword(lead.rest) == None;
  }

  /** A keyword glued to what follows it (`recordX {`) does not declare anything: the
      keyword must be followed by whitespace. */
  lemma KeywordNeedsWhitespace(lead: string, keyword: string, rest: string)
    requires All(lead, Whitespace) && IsKeyword(keyword)
    requires rest == [] || !IsSpace(rest[0])
    ensures DeclaredName(lead + (keyword + rest)) == None
  {
    RunOfSplit(lead, keyword + rest, Whitespace);
    assert Keyword(keyword + rest) == Some(keyword);
    assert (keyword + rest)[|keyword|..] == rest;
    RunOfSplit([], rest, Whitespace);
    assert [] + rest == rest;
  }

  /** A second word between the name and the brace (`record A B {`) hides the
      declaration: only whitespace may stand between the name and `{`. */
  lemma OneNameBeforeBrace(lead: string, keyword: string, gap: string, name: string, pad: string, rest: string)
    requires All(lead, Whitespace) && IsKeyword(keyword)
    requires |gap| > 0 && All(gap, Whitespace)
    requires |name| > 0 && All(name, Word) && All(pad, Whitespace)
    requires rest != [] && rest[0] != '{' && !IsSpace(rest[0])
    requires pad == [] ==> !IsWordChar(rest[0])
    ensures DeclaredName(lead + (keyword + (gap + (name + (pad + rest))))) == None
  {
    var tail := gap + (name + (pad + rest));
    var s1 := keyword + tail;
    RunOfSplit(lead, s1, Whitespace);
    assert Keyword(s1) == Some(keyword);
    assert s1[|keyword|..] == tail;
    MatchTailStops(gap, name, pad, rest);
  }

  lemma MatchTailStops(gap: string, name: string, pad: string, rest: string)
    requires |gap| > 0 && All(gap, Whitespace)
    requires |name| > 0 && All(name, Word) && All(pad, Whitespace)
    requires rest != [] && rest[0] != '{' && !IsSpace(rest[0])
    requires pad == [] ==> !IsWordChar(rest[0])
    ensures MatchTail(gap + (name + (pad + rest))) == None
  {
    var s3 := name + (pad + rest);
    assert s3[0] == name[0] && !IsSpace(s3[0]);
    RunOfSplit(gap, s3, Whitespace);
    assert (pad + rest)[0] == if pad == [] then rest[0] else pad[0];
    RunOfSplit(name, pad + rest, Word);
    RunOfSplit(pad, rest, Whitespace);
  }
}
