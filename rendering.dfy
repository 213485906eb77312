/**
 * What `getHighlightedText` (main.js:52-96) returns, stated on the split into lines:
 * each token's text escaped and re-spaced, wrapped in a span when the token has a style
 * type; each line in a `<div>`, with a zero-width space when it would otherwise be empty;
 * the whole inside the default theme's container.
 */
module Rendering {
  import opened Wrappers
  import opened Strings
  import opened HtmlEscape
  import opened Spacing
  import opened Tokens

  /** The zero-width space entity that props open a line with no text (main.js:66). */
  const Filler: string := "&#8203;"

  /** The container that carries the default theme's class (main.js:95). */
  const ThemeOpen: string := Tag("div class='cm-s-default'")

  /** An HTML tag with the given name and attributes, or closing tag with a leading `/`. */
  function Tag(inside: string): string {
    "<" + inside + ">"
  }

  const DivOpen: string := Tag("div")
  const DivClose: string := Tag("/div")
  const SpanClose: string := Tag("/span")

  /** `if (it.token.type)`: an unset or empty type is false in the source, so it gets no span. */
  predicate IsStyled(t: Token) {
    t.style.Some? && t.style.value != ""
  }

  /** Whether a token sets `lineHasText`: a styled token always, a plain one when its text is not empty. */
  predicate HasText(t: Token) {
    IsStyled(t) || t.text != ""
  }

  /** Whether any token of the line sets `lineHasText`. */
  predicate LineHasText(l: Line) {
    exists t :: t in l && HasText(t)
  }

  /** A token's text as it appears in the output: escaped, then with its space pairs replaced (main.js:81-82). */
  function TextHtml(text: string): (r: string)
    ensures r == [] <==> text == []
    ensures '<' !in r && '>' !in r
  {
    ReplaceSpacePairs(Escape(text))
  }

  /** The opening tag of a styled token's span. */
  function SpanOpen(style: string): string {
    Tag("span class='cm-" + style + "'")
  }

  /** What one token adds to the line (main.js:84-91). */
  function TokenHtml(t: Token): string {
    if IsStyled(t) then SpanOpen(t.style.value) + TextHtml(t.text) + SpanClose
    else TextHtml(t.text)
  }

  /** What a line's tokens add between its `<div>` and its `</div>`, in order. */
  function TokensHtml(l: Line): string {
    if l == [] then [] else TokensHtml(l[..|l| - 1]) + TokenHtml(l[|l| - 1])
  }

  /** One line: opened by `startLine`, filled by its tokens, closed by `closeLine` (main.js:60-70). */
  function LineHtml(l: Line): string {
    DivOpen + TokensHtml(l) + (if LineHasText(l) then "" else Filler) + DivClose
  }

  /** The lines, one `<div>` after the other. */
  function BodyHtml(g: seq<Line>): string {
    if g == [] then [] else BodyHtml(g[..|g| - 1]) + LineHtml(g[|g| - 1])
  }

  /**
   * The result of `getHighlightedText(editor, start, end)` for the token stream `ts` that
   * the tokenizer yields from column 0 of `start.line`.
   */
  function Highlighted(ts: seq<Token>, start: Position, end: Position): string {
    ThemeOpen + BodyHtml(Lines(InRange(ts, end.line), start.line)) + DivClose
  }

  // ----- tokens and lines -----

  /** A token adds nothing to the line exactly when it does not set `lineHasText`. */
  lemma TokenHtmlEmpty(t: Token)
    ensures TokenHtml(t) == [] <==> !HasText(t)
  {
  }

  /**
   * A line's tokens add nothing exactly when none of them sets `lineHasText`: so the filler
   * goes into precisely the lines whose `<div>` would otherwise be empty.
   */
  lemma {:induction false} TokensHtmlEmpty(l: Line)
    ensures TokensHtml(l) == [] <==> !LineHasText(l)
    decreases |l|
  {
    if l != [] {
      var init, t := l[..|l| - 1], l[|l| - 1];
      TokensHtmlEmpty(init);
      TokenHtmlEmpty(t);
      LineHasTextLast(l);
    }
  }

  /** A line has text exactly when the line without its last token does or that token does. */
  lemma LineHasTextLast(l: Line)
    requires l != []
    ensures LineHasText(l) <==> LineHasText(l[..|l| - 1]) || HasText(l[|l| - 1])
  {
    var init, t := l[..|l| - 1], l[|l| - 1];
    if LineHasText(l) && !HasText(t) {
      var u :| u in l && HasText(u);
      var i :| 0 <= i < |l| && l[i] == u;
      assert init[i] == u;
    }
    if LineHasText(init) {
      var u :| u in init && HasText(u);
      var i :| 0 <= i < |init| && init[i] == u;
      assert l[i] == u;
    }
  }

  /** A token added to a line adds its own HTML and may give the line text. */
  lemma TokensHtmlStep(l: Line, t: Token)
    ensures TokensHtml(l + [t]) == TokensHtml(l) + TokenHtml(t)
    ensures LineHasText(l + [t]) <==> LineHasText(l) || HasText(t)
  {
    assert (l + [t])[..|l|] == l;
    LineHasTextLast(l + [t]);
  }

  /** A line added to the body adds its own `<div>`. */
  lemma BodyHtmlStep(g: seq<Line>, l: Line)
    ensures BodyHtml(g + [l]) == BodyHtml(g) + LineHtml(l)
  {
    assert (g + [l])[..|g|] == g;
  }

  /** Something between two pieces makes the whole longer than the two pieces alone. */
  lemma NonEmptyMiddle(a: string, x: string, y: string, b: string)
    requires x != [] || y != []
    ensures a + x + y + b != a + b
  {
    assert |a + x + y + b| > |a + b|;
  }

  /** No line's `<div>` is ever left empty. */
  lemma LineNeverEmpty(l: Line)
    ensures LineHtml(l) != DivOpen + DivClose
  {
    TokensHtmlEmpty(l);
    NonEmptyMiddle(DivOpen, TokensHtml(l), if LineHasText(l) then "" else Filler, DivClose);
  }

  /**
   * Round trip on a token's text: collapsing `&nbsp;` back to a space and decoding the
   * entities gives the token's text again.
   */
  lemma TextHtmlRoundTrip(text: string)
    ensures Unescape(CollapseNbsp(TextHtml(text))) == text
  {
    EscapeHasNoNbsp(text);
    CollapseReplace(Escape(text));
    UnescapeEscape(text);
  }

  // ----- the whole result -----

  /** With no token consumed, the result is a single line holding only the filler. */
  lemma NothingInRange(ts: seq<Token>, start: Position, end: Position)
    requires ts == [] || ts[0].line > end.line
    ensures Highlighted(ts, start, end) == ThemeOpen + DivOpen + Filler + DivClose + DivClose
  {
    assert InRange(ts, end.line) == [];
    var g := Lines([], start.line);
    assert g == [[]];
    assert !LineHasText([]);
    assert BodyHtml(g) == BodyHtml([]) + LineHtml([]);
  }

  /** Tokens after the first one past `end.line` make no difference to the result. */
  lemma LaterTokensIgnored(ts: seq<Token>, start: Position, end: Position, k: nat)
    requires k < |ts| && ts[k].line > end.line
    ensures Highlighted(ts, start, end) == Highlighted(ts[..k], start, end)
  {
    InRangeStopsAtFirstPast(ts, end.line, k);
  }

  /** Only the lines of `start` and `end` matter: the columns are ignored. */
  lemma ColumnsIgnored(ts: seq<Token>, start: Position, end: Position, startCh: nat, endCh: nat)
    ensures Highlighted(ts, start, end)
         == Highlighted(ts, Position(start.line, startCh), Position(end.line, endCh))
  {
  }

  // ----- counting `<div>` tags -----

  /** The number of places where `<div>` starts in `s`. */
  function CountDivs(s: string): nat
    decreases |s|
  {
    if s == [] then 0
    else (if StartsWith(s, DivOpen) then 1 else 0) + CountDivs(s[1..])
  }

  /** Text holding no `<` starts no `<div>`. */
  lemma {:induction false} CountDivsText(x: string, rest: string)
    requires '<' !in x
    ensures CountDivs(x + rest) == CountDivs(rest)
    decreases |x|
  {
    if x != [] {
      var s := x + rest;
      assert s[0] == x[0];
      assert !StartsWith(s, DivOpen);
      assert s[1..] == x[1..] + rest;
      CountDivsText(x[1..], rest);
    } else {
      assert x + rest == rest;
    }
  }

  /** A tag with no `<` or `>` inside is the start of a `<div>` only if it is `<div>` itself. */
  lemma TagStartsDiv(inside: string, rest: string)
    requires '<' !in inside && '>' !in inside
    ensures StartsWith(Tag(inside) + rest, DivOpen) <==> inside == "div"
  {
    var s := Tag(inside) + rest;
    var n := |inside|;
    assert s[1..n + 1] == inside;
    assert s[n + 1] == '>';
    if StartsWith(s, DivOpen) {
      assert s[..5] == "<div>";
      assert s[4] == s[..5][4] == '>';
      if n > 3 {
        assert false;
      }
      if n < 3 {
        assert false;
      }
      assert inside == s[..5][1..4];
    }
    if inside == "div" {
      assert s[..5] == Tag("div");
    }
  }

  /** A tag with no `<` or `>` inside starts a `<div>` only if it is `<div>` itself. */
  lemma CountDivsTag(inside: string, rest: string)
    requires '<' !in inside && '>' !in inside
    ensures CountDivs(Tag(inside) + rest) == (if inside == "div" then 1 else 0) + CountDivs(rest)
  {
    var s := Tag(inside) + rest;
    TagStartsDiv(inside, rest);
    assert s[1..] == (inside + ">") + rest;
    assert '<' !in inside + ">";
    CountDivsText(inside + ">", rest);
  }

  /** The attributes of a styled token's span hold no `<` or `>` when its style type holds none. */
  lemma SpanInside(style: string)
    requires '<' !in style && '>' !in style
    ensures var inside := "span class='cm-" + style + "'";
            '<' !in inside && '>' !in inside && inside != "div"
  {
  }

  /** Text between an opening and a closing tag, neither of them `<div>`, starts no `<div>`. */
  lemma CountDivsEnclosed(open: string, mid: string, close: string, rest: string)
    requires '<' !in open && '>' !in open && open != "div"
    requires '<' !in close && '>' !in close && close != "div"
    requires '<' !in mid
    ensures CountDivs(Tag(open) + mid + Tag(close) + rest) == CountDivs(rest)
  {
    CountDivsTag(close, rest);
    CountDivsText(mid, Tag(close) + rest);
    CountDivsTag(open, mid + (Tag(close) + rest));
    Regroup3(Tag(open), mid, Tag(close), rest);
  }

  /** A styled token's span holds no `<div>`, nor does a plain token's text. */
  lemma CountDivsToken(t: Token, rest: string)
    requires IsStyled(t) ==> '<' !in t.style.value && '>' !in t.style.value
    ensures CountDivs(TokenHtml(t) + rest) == CountDivs(rest)
  {
    if IsStyled(t) {
      SpanInside(t.style.value);
      CountDivsEnclosed("span class='cm-" + t.style.value + "'", TextHtml(t.text), "/span", rest);
    } else {
      CountDivsText(TextHtml(t.text), rest);
    }
  }

  /** Style types that hold no `<` or `>`, as the tokenizer's type names never do. */
  predicate PlainStyles(ts: seq<Token>) {
    forall i :: 0 <= i < |ts| && IsStyled(ts[i]) ==> '<' !in ts[i].style.value && '>' !in ts[i].style.value
  }

  /** A line's tokens hold no `<div>`. */
  lemma {:induction false} CountDivsTokens(l: Line, rest: string)
    requires PlainStyles(l)
    ensures CountDivs(TokensHtml(l) + rest) == CountDivs(rest)
    decreases |l|
  {
    if l != [] {
      var init, t := l[..|l| - 1], l[|l| - 1];
      CountDivsToken(t, rest);
      assert PlainStyles(init);
      CountDivsTokens(init, TokenHtml(t) + rest);
      Regroup2(TokensHtml(init), TokenHtml(t), rest);
    } else {
      assert TokensHtml(l) + rest == rest;
    }
  }

  /** A line starts exactly one `<div>`. */
  lemma CountDivsLine(l: Line, rest: string)
    requires PlainStyles(l)
    ensures CountDivs(LineHtml(l) + rest) == 1 + CountDivs(rest)
  {
    var fill := if LineHasText(l) then "" else Filler;
    CountDivsTag("/div", rest);
    CountDivsText(fill, DivClose + rest);
    CountDivsTokens(l, fill + (DivClose + rest));
    CountDivsTag("div", TokensHtml(l) + (fill + (DivClose + rest)));
    Regroup4(DivOpen, TokensHtml(l), fill, DivClose, rest);
  }

  /** No style type on any line holds `<` or `>`. */
  predicate PlainStyleLines(g: seq<Line>) {
    forall k :: 0 <= k < |g| ==> PlainStyles(g[k])
  }

  /** The body starts one `<div>` per line. */
  lemma {:induction false} CountDivsBody(g: seq<Line>, rest: string)
    requires PlainStyleLines(g)
    ensures CountDivs(BodyHtml(g) + rest) == |g| + CountDivs(rest)
    decreases |g|
  {
    if g != [] {
      var init, l := g[..|g| - 1], g[|g| - 1];
      CountDivsLine(l, rest);
      assert PlainStyleLines(init);
      CountDivsBody(init, LineHtml(l) + rest);
      Regroup2(BodyHtml(init), LineHtml(l), rest);
    } else {
      assert BodyHtml(g) + rest == rest;
    }
  }

  /** A styled token of a stream with plain style types has a plain style type. */
  lemma PlainMember(ts: seq<Token>, t: Token)
    requires PlainStyles(ts) && t in ts && IsStyled(t)
    ensures '<' !in t.style.value && '>' !in t.style.value
  {
    var i :| 0 <= i < |ts| && ts[i] == t;
  }

  /** Each line of the split holds tokens of the stream, so it keeps the stream's plain style types. */
  lemma LinesPlainStyles(ts: seq<Token>, startLine: nat)
    requires PlainStyles(ts)
    ensures PlainStyleLines(Lines(ts, startLine))
  {
    var g := Lines(ts, startLine);
    FlattenLines(ts, startLine);
    forall k | 0 <= k < |g| ensures PlainStyles(g[k]) {
      FlattenHolds(g, k);
      forall i | 0 <= i < |g[k]| && IsStyled(g[k][i])
        ensures '<' !in g[k][i].style.value && '>' !in g[k][i].style.value
      {
        PlainMember(ts, g[k][i]);
      }
    }
  }

  /** The tokens of line `k` appear in the flattened split. */
  lemma {:induction false} FlattenHolds(g: seq<Line>, k: nat)
    requires k < |g|
    ensures forall t :: t in g[k] ==> t in Flatten(g)
    decreases |g|
  {
    if k < |g| - 1 {
      FlattenHolds(g[..|g| - 1], k);
    }
  }

  /**
   * The result holds one `<div>` per line of the split: one for the start line and one more
   * for each consumed token whose line differs from the line tracked before it. (The theme
   * container is `<div class=…>`, not `<div>`.)
   */
  lemma HighlightedDivCount(ts: seq<Token>, start: Position, end: Position)
    requires PlainStyles(ts)
    ensures CountDivs(Highlighted(ts, start, end)) == |Lines(InRange(ts, end.line), start.line)|
    ensures CountDivs(Highlighted(ts, start, end)) == 1 + Changes(InRange(ts, end.line), start.line)
  {
    var r := InRange(ts, end.line);
    assert PlainStyles(r);
    LinesPlainStyles(r, start.line);
    LinesCount(r, start.line);
    CountDivsPage(Lines(r, start.line));
  }

  /** The themed container around the lines starts one `<div>` per line. */
  lemma CountDivsPage(g: seq<Line>)
    requires PlainStyleLines(g)
    ensures CountDivs(ThemeOpen + BodyHtml(g) + DivClose) == |g|
  {
    CountDivsThemed(BodyHtml(g));
    CountDivsBody(g, DivClose);
  }

  /** The theme container's own tags start no `<div>`: it is `<div class=…>`, not `<div>`. */
  lemma CountDivsThemed(body: string)
    ensures CountDivs(ThemeOpen + body + DivClose) == CountDivs(body + DivClose)
    ensures CountDivs(DivClose) == 0
  {
    CountDivsAround("div class='cm-s-default'", body, "/div");
  }

  /** A tag that is not `<div>` opening, and one closing, what is between them. */
  lemma CountDivsAround(open: string, body: string, close: string)
    requires '<' !in open && '>' !in open && open != "div"
    requires '<' !in close && '>' !in close && close != "div"
    ensures CountDivs(Tag(open) + body + Tag(close)) == CountDivs(body + Tag(close))
    ensures CountDivs(Tag(close)) == 0
  {
    CountDivsTag(close, []);
    assert Tag(close) + [] == Tag(close);
    CountDivsTag(open, body + Tag(close));
    assert Tag(open) + body + Tag(close) == Tag(open) + (body + Tag(close));
  }

  /**
   * When every line from `start.line` to `end.line` holds a token, the result holds exactly
   * one `<div>` per line of the range.
   */
  lemma OneDivPerLine(ts: seq<Token>, start: Position, end: Position)
    requires start.line <= end.line
    requires Sorted(ts) && PlainStyles(ts)
    requires forall i :: 0 <= i < |ts| ==> start.line <= ts[i].line
    requires forall l :: start.line <= l <= end.line ==> l in LineSet(ts)
    ensures CountDivs(Highlighted(ts, start, end)) == end.line - start.line + 1
  {
    LinesCoverRange(ts, start.line, end.line);
    HighlightedDivCount(ts, start, end);
  }

  /**
   * A line after the start line with no token gets no `<div>` of its own: with tokens only on lines 0 and 2, the
   * range from line 0 to line 2 comes out as two lines, not three.
   */
  lemma UntokenizedLineMerged()
    ensures var ts := [Token(0, "a", None), Token(2, "b", None)];
            CountDivs(Highlighted(ts, Position(0, 0), Position(2, 0))) == 2
  {
    var ts := [Token(0, "a", None), Token(2, "b", None)];
    assert InRange(ts, 2) == ts;
    HighlightedDivCount(ts, Position(0, 0), Position(2, 0));
    assert Changes(ts, 0) == 1 by {
      assert ts[1..] == [Token(2, "b", None)];
      assert ts[1..][1..] == [];
    }
  }

  /**
   * The start line always gets a `<div>`, opened before any token arrives: with plain tokens
   * only on the two lines after the start line, the range of three lines still comes out
   * as three lines.
   */
  lemma UntokenizedStartLineKept(t1: Token, t2: Token, start: Position, end: Position)
    requires t1.line == start.line + 1 && t2.line == start.line + 2 && end.line == t2.line
    requires t1.style == None && t2.style == None
    ensures CountDivs(Highlighted([t1, t2], start, end)) == end.line - start.line + 1
  {
    var ts := [t1, t2];
    assert ts[1..] == [t2] && ts[1..][1..] == [];
    assert InRange(ts, end.line) == ts;
    assert Changes([t2], t1.line) == 1;
    assert Changes(ts, start.line) == 2;
    assert PlainStyles(ts);
    HighlightedDivCount(ts, start, end);
  }

  /**
   * With style types free of `<` and `>`, and tokens in document order from the start line
   * on, the result has one line `<div>` for the start line and one for each other distinct
   * line the tokens in range lie on.
   */
  lemma DivsForDistinctLines(ts: seq<Token>, start: Position, end: Position)
    requires PlainStyles(ts) && Sorted(ts)
    requires ts != [] ==> start.line <= ts[0].line
    ensures CountDivs(Highlighted(ts, start, end)) == 1 + |LineSet(InRange(ts, end.line)) - {start.line}|
  {
    var r := InRange(ts, end.line);
    HighlightedDivCount(ts, start, end);
    assert Sorted(r);
    ChangesAreNewLines(r, start.line);
  }
}
