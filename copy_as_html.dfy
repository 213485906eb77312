/**
 * `getHighlightedText` (main.js:52-96) as the source writes it: a loop over the token
 * stream that appends to an HTML string, with the two nested helpers `startLine` and
 * `closeLine` sharing that string and the `lineHasText` flag.
 */
module CopyAsHtml {
  import opened Strings
  import opened Tokens
  import opened Rendering

  /** `startLine` (main.js:60-63): opens a line's `<div>` (the caller clears `lineHasText`). */
  function StartLine(html: string): string
  {
    html + DivOpen
  }

  /** `closeLine` (main.js:64-70): props the line open with the filler when it got no text, then closes it. */
  function CloseLine(html: string, lineHasText: bool): string
  {
    html + (if lineHasText then "" else Filler) + DivClose
  }

  /**
   * What the loop and the final `closeLine` append, given the tokens still to consume,
   * `lastLine` and the state the helpers share: a token on a new line closes the open line
   * and opens the next before its own HTML goes in (main.js:74-93).
   */
  function Continue(ts: seq<Token>, lastLine: nat, html: string, lineHasText: bool): string
    decreases |ts|
  {
    if ts == [] then CloseLine(html, lineHasText)
    else
      var t := ts[0];
      if t.line != lastLine then
        Continue(ts[1..], t.line, StartLine(CloseLine(html, lineHasText)) + TokenHtml(t), HasText(t))
      else
        Continue(ts[1..], lastLine, html + TokenHtml(t), lineHasText || HasText(t))
  }

  /**
   * `getHighlightedText` (main.js:52-96): builds the HTML for the lines `start.line` to
   * `end.line` from the tokens the tokenizer yields from column 0 of `start.line`, stopping
   * at the end of the stream or at the first token past `end.line`.
   */
  method GetHighlightedText(tokens: seq<Token>, start: Position, end: Position) returns (r: string)
    ensures r == Highlighted(tokens, start, end)
  {
    var lastLine := start.line;
    var html: string := "";
    var lineHasText := false;
    html, lineHasText := StartLine(html), false;
    var i := 0;
    ghost var inRange := InRange(tokens, end.line);
    assert html == DivOpen && inRange[i..] == inRange;
    while i < |tokens| && tokens[i].line <= end.line
      invariant 0 <= i <= |inRange|
      invariant Continue(inRange[i..], lastLine, html, lineHasText) == Continue(inRange, start.line, DivOpen, false)
    {
      InRangeGoesOn(tokens, end.line, i);
      var t := tokens[i];
      assert t == inRange[i];
      ContinueStep(inRange, i, lastLine, html, lineHasText);
      if t.line != lastLine {
        lastLine := t.line;
        html := CloseLine(html, lineHasText);
        html, lineHasText := StartLine(html), false;
      }
      ghost var before, hadText := html, lineHasText;
      var lineText := TextHtml(t.text);
      if IsStyled(t) {
        html := html + (SpanOpen(t.style.value) + lineText + SpanClose);
        lineHasText := true;
      } else {
        html := html + lineText;
        lineHasText := lineHasText || t.text != "";
      }
      assert html == before + TokenHtml(t) && lineHasText == (hadText || HasText(t));
      assert Continue(inRange[i + 1..], lastLine, html, lineHasText) == Continue(inRange, start.line, DivOpen, false);
      i := i + 1;
    }
    LoopExit(tokens, start, end, i, lastLine, html, lineHasText);
    html := CloseLine(html, lineHasText);
    r := ThemeOpen + html + DivClose;
  }

  /** Where the loop stops, the final `closeLine` completes the rendering of the tokens in range. */
  lemma LoopExit(tokens: seq<Token>, start: Position, end: Position, i: nat, lastLine: nat, html: string, hasText: bool)
    requires i <= |InRange(tokens, end.line)|
    requires i == |tokens| || tokens[i].line > end.line
    requires Continue(InRange(tokens, end.line)[i..], lastLine, html, hasText)
          == Continue(InRange(tokens, end.line), start.line, DivOpen, false)
    ensures ThemeOpen + CloseLine(html, hasText) + DivClose == Highlighted(tokens, start, end)
  {
    var inRange := InRange(tokens, end.line);
    InRangeStops(tokens, end.line, i);
    assert inRange[i..] == [];
    ContinueFromStart(inRange, start.line);
  }

  /** One token of the run, taken at position `i` of the tokens in range. */
  lemma ContinueStep(ts: seq<Token>, i: nat, lastLine: nat, html: string, hasText: bool)
    requires i < |ts|
    ensures Continue(ts[i..], lastLine, html, hasText)
         == if ts[i].line != lastLine then
              Continue(ts[i + 1..], ts[i].line, StartLine(CloseLine(html, hasText)) + TokenHtml(ts[i]), HasText(ts[i]))
            else
              Continue(ts[i + 1..], lastLine, html + TokenHtml(ts[i]), hasText || HasText(ts[i]))
  {
    assert ts[i..][1..] == ts[i + 1..];
  }

  /** From the start line, with only the first `<div>` open, the loop renders the split into lines. */
  lemma ContinueFromStart(ts: seq<Token>, startLine: nat)
    ensures Continue(ts, startLine, DivOpen, false) == BodyHtml(Lines(ts, startLine))
  {
    ClosedLine([], []);
    assert BodyHtml([]) + DivOpen + TokensHtml([]) == DivOpen;
    assert [] + ts == ts;
    ContinueRenders([], ts, startLine, [], []);
  }

  /**
   * Once the loop has consumed `prefix`, split as the closed lines `done` and the open line
   * `cur`, and `html` holds their HTML, the rest of the run renders the whole split.
   */
  lemma {:induction false} ContinueRenders(prefix: seq<Token>, rest: seq<Token>, startLine: nat, done: seq<Line>, cur: Line)
    requires done + [cur] == Lines(prefix, startLine)
    ensures Continue(rest, LastLine(prefix, startLine), BodyHtml(done) + DivOpen + TokensHtml(cur), LineHasText(cur))
         == BodyHtml(Lines(prefix + rest, startLine))
    decreases |rest|
  {
    if rest == [] {
      assert prefix + rest == prefix;
      ClosedLine(done, cur);
    } else {
      var t := rest[0];
      LinesGrow(prefix, t, startLine, done, cur);
      assert prefix + rest == (prefix + [t]) + rest[1..];
      if t.line != LastLine(prefix, startLine) {
        NewLineStep(rest, LastLine(prefix, startLine), done, cur);
        ContinueRenders(prefix + [t], rest[1..], startLine, done + [cur], [t]);
      } else {
        SameLineStep(rest, LastLine(prefix, startLine), done, cur);
        ContinueRenders(prefix + [t], rest[1..], startLine, done, cur + [t]);
      }
    }
  }

  /** A token on a new line: the open line is closed into the body and the token opens the next. */
  lemma NewLineStep(rest: seq<Token>, lastLine: nat, done: seq<Line>, cur: Line)
    requires rest != [] && rest[0].line != lastLine
    ensures Continue(rest, lastLine, BodyHtml(done) + DivOpen + TokensHtml(cur), LineHasText(cur))
         == Continue(rest[1..], rest[0].line, BodyHtml(done + [cur]) + DivOpen + TokensHtml([rest[0]]), LineHasText([rest[0]]))
  {
    ClosedLine(done, cur);
    AddedToken(done + [cur], [], rest[0]);
    assert [] + [rest[0]] == [rest[0]];
  }

  /** A token on the open line joins it. */
  lemma SameLineStep(rest: seq<Token>, lastLine: nat, done: seq<Line>, cur: Line)
    requires rest != [] && rest[0].line == lastLine
    ensures Continue(rest, lastLine, BodyHtml(done) + DivOpen + TokensHtml(cur), LineHasText(cur))
         == Continue(rest[1..], lastLine, BodyHtml(done) + DivOpen + TokensHtml(cur + [rest[0]]), LineHasText(cur + [rest[0]]))
  {
    AddedToken(done, cur, rest[0]);
  }

  /**
   * Closing the open line and opening the next leaves the closed line's whole `<div>` in
   * the body, followed by the new line's empty `<div>` opening.
   */
  lemma ClosedLine(done: seq<Line>, cur: Line)
    ensures BodyHtml(done) + DivOpen + TokensHtml(cur) + (if LineHasText(cur) then "" else Filler) + DivClose
         == BodyHtml(done + [cur])
    ensures BodyHtml(done + [cur]) + DivOpen == BodyHtml(done + [cur]) + DivOpen + TokensHtml([])
    ensures !LineHasText([])
  {
    BodyHtmlStep(done, cur);
    GroupTail(BodyHtml(done), DivOpen, TokensHtml(cur), if LineHasText(cur) then "" else Filler, DivClose);
    assert BodyHtml(done + [cur]) + DivOpen + [] == BodyHtml(done + [cur]) + DivOpen;
  }

  /** A token added to the open line lands at the end of that line's `<div>` contents. */
  lemma AddedToken(done: seq<Line>, cur: Line, t: Token)
    ensures BodyHtml(done) + DivOpen + TokensHtml(cur) + TokenHtml(t)
         == BodyHtml(done) + DivOpen + TokensHtml(cur + [t])
    ensures LineHasText(cur + [t]) <==> LineHasText(cur) || HasText(t)
  {
    TokensHtmlStep(cur, t);
  }
}
