/** Characters, greedy character runs and line splitting: the pieces of Python's
    `re` module and text-mode file reading that the documentation generator relies on;
    and the two sequence combinators its loops follow. */
module Text {

  /** `\s` in a Python `str` pattern: exactly the characters for which `str.isspace()` holds. */
  predicate IsSpace(c: char) {
    '\U{9}' <= c <= '\U{D}' || '\U{1C}' <= c <= ' ' || c == '\U{85}' || c == '\U{A0}' ||
    c == '\U{1680}' || '\U{2000}' <= c <= '\U{200A}' || c == '\U{2028}' || c == '\U{2029}' ||
    c == '\U{202F}' || c == '\U{205F}' || c == '\U{3000}'
  }

  /** The class `[a-zA-Z0-9_]`. */
  predicate IsWordChar(c: char) {
    'a' <= c <= 'z' || 'A' <= c <= 'Z' || '0' <= c <= '9' || c == '_'
  }

  /** The character classes a greedy run is taken over. */
  datatype CharClass = Whitespace | Word | Only(c: char) | Except(c: char)

  predicate In(c: char, k: CharClass) {
    match k
    case Whitespace => IsSpace(c)
    case Word => IsWordChar(c)
    case Only(x) => c == x
    case Except(x) => c != x
  }

  predicate All(s: string, k: CharClass) {
    forall i :: 0 <= i < |s| ==> In(s[i], k)
  }

  /** Length of the longest prefix of `s` made of characters of class `k`: what a greedy
      `k*` consumes, since nothing after it can make it give characters back here. */
  function Span(s: string, k: CharClass): (n: nat)
    ensures n <= |s|
    ensures n < |s| ==> !In(s[n], k)
  {
    if s == [] || !In(s[0], k) then 0 else 1 + Span(s[1..], k)
  }

  /** Everything a run consumes is of its class. */
  lemma {:induction false} SpanAll(s: string, k: CharClass)
    ensures All(s[..Span(s, k)], k)
  {
    if s != [] && In(s[0], k) {
      SpanAll(s[1..], k);
      assert forall i :: 1 <= i < Span(s, k) ==> s[..Span(s, k)][i] == s[1..][..Span(s[1..], k)][i - 1];
    }
  }

  /** A run is determined by where the class stops: the prefix `a` is the whole run of `a + b`. */
  lemma SpanOfSplit(a: string, b: string, k: CharClass)
    requires All(a, k)
    requires b == [] || !In(b[0], k)
    ensures Span(a + b, k) == |a|
  {
    if b != [] {
      SpanStops(a + b, k, |a|);
    }
    assert forall i :: 0 <= i < |a| ==> (a + b)[i] == a[i];
  }

  /** A run stops at the first character outside its class. */
  lemma {:induction false} SpanStops(s: string, k: CharClass, j: nat)
    requires j < |s| && !In(s[j], k)
    ensures Span(s, k) <= j
  {
    if j > 0 && In(s[0], k) {
      SpanStops(s[1..], k, j - 1);
    }
  }

  /** Joins lines back into one text. */
  function Concat(ls: seq<string>): string {
    if ls == [] then [] else ls[0] + Concat(ls[1..])
  }

  /** The lines that iterating over a text-mode file yields: every line keeps its
      terminating '\n'; only the last may lack one. A character that is not a line
      break continues the line that the rest of the text starts with. */
  function Lines(s: string): seq<string>
    decreases |s|
  {
    if s == [] then []
    else if s[0] == '\n' then ["\n"] + Lines(s[1..])
    else
      var rest := Lines(s[1..]);
      if rest == [] then [s[..1]] else [s[..1] + rest[0]] + rest[1..]
  }

  /** Splitting into lines loses nothing: the lines join back into the text. */
  lemma {:induction false} LinesJoin(s: string)
    ensures Concat(Lines(s)) == s
    decreases |s|
  {
    if s != [] {
      LinesJoin(s[1..]);
      var rest := Lines(s[1..]);
      if s[0] != '\n' && rest != [] {
        assert Concat(rest) == rest[0] + Concat(rest[1..]);
        assert ([s[..1] + rest[0]] + rest[1..])[1..] == rest[1..];
      }
      assert s == s[..1] + s[1..];
    }
  }

  /** One line: text with its only '\n' at the end. */
  predicate IsLine(x: string) {
    |x| > 0 && x[|x| - 1] == '\n' && All(x[..|x| - 1], Except('\n'))
  }

  predicate EndsLine(s: string) {
    s == [] || s[|s| - 1] == '\n'
  }

  lemma {:induction false} LinesOfLine(x: string)
    requires IsLine(x)
    ensures Lines(x) == [x]
    decreases |x|
  {
    if x[0] != '\n' {
      var y := x[1..];
      assert y[..|y| - 1] == x[..|x| - 1][1..];
      LinesOfLine(y);
      assert x == x[..1] + y;
    } else {
      assert |x| == 1;
      assert x == "\n";
    }
  }

  /** Splitting distributes over a concatenation whose first part ends a line. */
  lemma {:induction false} LinesAppend(a: string, b: string)
    requires EndsLine(a)
    ensures Lines(a + b) == Lines(a) + Lines(b)
    decreases |a|
  {
    if a == [] {
      assert a + b == b;
    } else {
      var a' := a[1..];
      assert (a + b)[1..] == a' + b;
      LinesAppend(a', b);
      if a[0] != '\n' {
        assert (a + b)[..1] == a[..1];
        assert Lines(a') != [];
      }
    }
  }

  /** Appending one whole line to text that ends a line appends that line. */
  lemma LinesSnoc(a: string, x: string)
    requires EndsLine(a) && IsLine(x)
    ensures Lines(a + x) == Lines(a) + [x] && EndsLine(a + x)
  {
    LinesAppend(a, x);
    LinesOfLine(x);
  }

  /** The pieces the items give, one after the other: the lines of a page, the schemas
      of the lines of a file. */
  function Join<T, U>(f: T -> seq<U>, xs: seq<T>): seq<U> {
    if xs == [] then [] else Join(f, xs[..|xs| - 1]) + f(xs[|xs| - 1])
  }

  /** One more item appends its piece. */
  lemma JoinSnoc<T, U>(f: T -> seq<U>, xs: seq<T>, k: nat)
    requires k < |xs|
    ensures Join(f, xs[..k + 1]) == Join(f, xs[..k]) + f(xs[k])
  {
    assert xs[..k + 1][..k] == xs[..k];
  }

  /** Joining distributes over concatenation: the pieces of the first items come first. */
  lemma {:induction false} JoinAppend<T, U>(f: T -> seq<U>, a: seq<T>, b: seq<T>)
    ensures Join(f, a + b) == Join(f, a) + Join(f, b)
    decreases |b|
  {
    if b == [] {
      assert a + b == a;
    } else {
      var b' := b[..|b| - 1];
      assert (a + b)[..|a + b| - 1] == a + b';
      assert (a + b)[|a + b| - 1] == b[|b| - 1];
      JoinAppend(f, a, b');
    }
  }

  /** One result per item, in order. */
  function Map<T, U>(f: T -> U, xs: seq<T>): seq<U> {
    if xs == [] then [] else Map(f, xs[..|xs| - 1]) + [f(xs[|xs| - 1])]
  }

  lemma {:induction false} MapAt<T, U>(f: T -> U, xs: seq<T>)
    ensures |Map(f, xs)| == |xs|
    ensures forall k :: 0 <= k < |xs| ==> Map(f, xs)[k] == f(xs[k])
  {
    if xs != [] {
      var init := xs[..|xs| - 1];
      MapAt(f, init);
      assert forall k :: 0 <= k < |init| ==> xs[k] == init[k];
    }
  }

  /** Joining items that are each one line gives one line per item, in order. */
  lemma {:induction false} JoinLines<T>(f: T -> string, xs: seq<T>)
    requires forall k :: 0 <= k < |xs| ==> IsLine(f(xs[k]))
    ensures EndsLine(Join(f, xs))
    ensures |Lines(Join(f, xs))| == |xs|
    ensures forall k :: 0 <= k < |xs| ==> Lines(Join(f, xs))[k] == f(xs[k])
  {
    if xs != [] {
      var init, last := xs[..|xs| - 1], xs[|xs| - 1];
      assert forall k :: 0 <= k < |init| ==> init[k] == xs[k];
      JoinLines(f, init);
      assert IsLine(f(xs[|xs| - 1]));
      LinesSnoc(Join(f, init), f(last));
    }
  }

  /** Universal-newline translation done by reading in text mode: "\r\n" and a lone
      '\r' both become '\n'. */
  function Universal(s: string): (r: string)
    ensures '\r' !in r
  {
    if s == [] then []
    else if s[0] == '\r' then
      "\n" + Universal(if |s| > 1 && s[1] == '\n' then s[2..] else s[1..])
    else [s[0]] + Universal(s[1..])
  }

  /** Text without carriage returns reads back unchanged. */
  lemma {:induction false} UniversalKeepsPlainText(s: string)
    requires '\r' !in s
    ensures Universal(s) == s
  {
    if s != [] {
      assert s == [s[0]] + s[1..];
      UniversalKeepsPlainText(s[1..]);
    }
  }

  /** A text that lacks a character is all of the class of everything but that character. */
  lemma AllExcept(s: string, c: char)
    requires c !in s
    ensures All(s, Except(c))
  {
  }
}
