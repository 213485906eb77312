/**
 * The token stream `getHighlightedText` walks (main.js:52-96) and the way its loop
 * splits that stream into the lines it renders, one `<div>` per line.
 *
 * The tokenizer itself is not modelled: the stream is given as a sequence, the tokens
 * the tokenizer yields from column 0 of the start line onwards, in document order.
 */
module Tokens {
  import opened Wrappers
  import opened Strings

  /** A place in the document: a 0-based line and a column on it. */
  datatype Position = Position(line: nat, ch: nat)

  /** A token: the line it lies on, its text, and its style type (unset for plain text). */
  datatype Token = Token(line: nat, text: string, style: Option<string>)

  /** The tokens that go into one `<div>` of the output. */
  type Line = seq<Token>

  /**
   * The tokens the loop consumes: it stops at the end of the stream or at the first token
   * whose line is past `endLine`, whatever follows that token (main.js:74).
   */
  function InRange(ts: seq<Token>, endLine: nat): (r: seq<Token>)
    ensures |r| <= |ts| && r == ts[..|r|]
    ensures forall i :: 0 <= i < |r| ==> r[i].line <= endLine
    ensures |r| < |ts| ==> ts[|r|].line > endLine
  {
    if ts == [] || ts[0].line > endLine then [] else [ts[0]] + InRange(ts[1..], endLine)
  }

  /**
   * The value of `lastLine` once the loop has consumed `ts`: it starts at the start line
   * and is set to a token's line whenever the two differ, so it ends as the last token's line.
   */
  function LastLine(ts: seq<Token>, startLine: nat): nat {
    if ts == [] then startLine else ts[|ts| - 1].line
  }

  /**
   * How the loop splits the consumed tokens into lines: the first line is open from the
   * start, and a token whose line differs from `lastLine` closes the current line and opens
   * a new one (main.js:72-79). The start line always gets a line, even with no token; a
   * later line with no token gets no line of its own.
   */
  function Lines(ts: seq<Token>, startLine: nat): (g: seq<Line>)
    ensures |g| >= 1
  {
    if ts == [] then [[]]
    else
      var prev, t := ts[..|ts| - 1], ts[|ts| - 1];
      var g := Lines(prev, startLine);
      if t.line != LastLine(prev, startLine) then g + [[t]]
      else g[..|g| - 1] + [g[|g| - 1] + [t]]
  }

  /** One more token: it opens a new line or joins the last one, and becomes `lastLine`. */
  lemma LinesStep(ts: seq<Token>, t: Token, startLine: nat)
    ensures LastLine(ts + [t], startLine) == t.line
    ensures var g := Lines(ts, startLine);
            Lines(ts + [t], startLine)
            == if t.line != LastLine(ts, startLine) then g + [[t]]
               else g[..|g| - 1] + [g[|g| - 1] + [t]]
  {
    assert (ts + [t])[..|ts|] == ts;
  }

  /**
   * The same step, with the split so far given as the closed lines and the open one: the
   * token either opens a new line after the open one or joins the open one.
   */
  lemma LinesGrow(ts: seq<Token>, t: Token, startLine: nat, done: seq<Line>, cur: Line)
    requires done + [cur] == Lines(ts, startLine)
    ensures LastLine(ts + [t], startLine) == t.line
    ensures Lines(ts + [t], startLine)
         == if t.line != LastLine(ts, startLine) then (done + [cur]) + [[t]]
            else done + [cur + [t]]
  {
    LinesStep(ts, t, startLine);
    assert [] + [t] == [t];
    assert (done + [cur])[..|done|] == done;
  }

  /** The lines' tokens, one line after the other. */
  function Flatten(g: seq<Line>): seq<Token> {
    if g == [] then [] else Flatten(g[..|g| - 1]) + g[|g| - 1]
  }

  /** The document line a group of tokens stands for: the start line for the first group. */
  function LineNumber(g: seq<Line>, k: nat, startLine: nat): nat
    requires k < |g|
  {
    if k == 0 || g[k] == [] then startLine else g[k][0].line
  }

  /** Every token of `l` lies on document line `n`. */
  predicate OnLine(l: Line, n: nat) {
    forall j :: 0 <= j < |l| ==> l[j].line == n
  }

  /**
   * What a split into lines must look like, independently of how the loop builds it:
   * all tokens of a group lie on that group's line, every group after the first holds a
   * token, and neighbouring groups lie on different lines.
   */
  ghost predicate WellGrouped(g: seq<Line>, startLine: nat) {
    |g| >= 1 &&
    (forall k :: 0 <= k < |g| ==> OnLine(g[k], LineNumber(g, k, startLine))) &&
    (forall k :: 1 <= k < |g| ==> g[k] != [] && LineNumber(g, k, startLine) != LineNumber(g, k - 1, startLine))
  }

  /**
   * The number of tokens whose line differs from the line tracked before them,
   * counted from the front of the stream: each one opens a new line.
   */
  function Changes(ts: seq<Token>, from: nat): nat {
    if ts == [] then 0
    else (if ts[0].line != from then 1 else 0) + Changes(ts[1..], ts[0].line)
  }

  /** The distinct lines the tokens lie on. */
  function LineSet(ts: seq<Token>): (r: set<nat>)
    ensures forall i :: 0 <= i < |ts| ==> ts[i].line in r
    ensures forall x :: x in r ==> exists i :: 0 <= i < |ts| && ts[i].line == x
  {
    if ts == [] then {}
    else
      var rest := LineSet(ts[1..]);
      assert forall i :: 1 <= i < |ts| ==> ts[i] == ts[1..][i - 1];
      {ts[0].line} + rest
  }

  /** The document lines after `lo`, up to and including `hi`. */
  function Span(lo: nat, hi: nat): (r: set<nat>)
    ensures forall x :: x in r <==> lo < x <= hi
    ensures |r| == if lo < hi then hi - lo else 0
    decreases hi
  {
    if hi <= lo then {} else Span(lo, hi - 1) + {hi}
  }

  /** Token lines never go down: the tokenizer walks the document in order. */
  predicate Sorted(ts: seq<Token>) {
    forall i, j :: 0 <= i < j < |ts| ==> ts[i].line <= ts[j].line
  }

  // ----- the range cut-off -----

  /** Nothing after the first token past `endLine` reaches the output. */
  lemma {:induction false} InRangeStopsAtFirstPast(ts: seq<Token>, endLine: nat, k: nat)
    requires k < |ts| && ts[k].line > endLine
    ensures InRange(ts, endLine) == InRange(ts[..k], endLine)
    decreases k
  {
    if k > 0 && ts[0].line <= endLine {
      assert ts[..k][0] == ts[0] && ts[..k][1..] == ts[1..][..k - 1];
      InRangeStopsAtFirstPast(ts[1..], endLine, k - 1);
    }
  }

  /** The consumed tokens are exactly the prefix the loop has read when it stops at `i`. */
  lemma {:induction false} InRangeIsPrefix(ts: seq<Token>, endLine: nat, i: nat)
    requires i <= |ts|
    requires forall j :: 0 <= j < i ==> ts[j].line <= endLine
    requires i == |ts| || ts[i].line > endLine
    ensures InRange(ts, endLine) == ts[..i]
    decreases i
  {
    if i > 0 {
      assert ts[0].line <= endLine;
      InRangeIsPrefix(ts[1..], endLine, i - 1);
      assert ts[..i] == [ts[0]] + ts[1..][..i - 1];
    } else if ts != [] {
      assert ts[0].line > endLine;
    }
  }

  /** A token at or before `endLine` that the loop reaches is consumed too. */
  lemma InRangeGoesOn(ts: seq<Token>, endLine: nat, i: nat)
    requires i <= |InRange(ts, endLine)|
    requires i < |ts| && ts[i].line <= endLine
    ensures i < |InRange(ts, endLine)|
  {
  }

  /** Where the loop stops, it has consumed exactly the tokens in range. */
  lemma InRangeStops(ts: seq<Token>, endLine: nat, i: nat)
    requires i <= |InRange(ts, endLine)|
    requires i == |ts| || ts[i].line > endLine
    ensures InRange(ts, endLine) == ts[..i]
  {
    var r := InRange(ts, endLine);
    forall j | 0 <= j < i ensures ts[j].line <= endLine {
      assert ts[j] == r[j];
    }
    InRangeIsPrefix(ts, endLine, i);
  }

  // ----- the split into lines -----

  /** Splitting into lines neither drops, duplicates nor reorders a token. */
  lemma {:induction false} FlattenLines(ts: seq<Token>, startLine: nat)
    ensures Flatten(Lines(ts, startLine)) == ts
    decreases |ts|
  {
    if ts != [] {
      var prev, t := ts[..|ts| - 1], ts[|ts| - 1];
      assert prev + [t] == ts;
      FlattenLines(prev, startLine);
      LinesStep(prev, t, startLine);
      FlattenAppend(Lines(prev, startLine), t);
    }
  }

  /** A token added as a new last group, or at the end of the last group, comes last in the flattening. */
  lemma FlattenAppend(g: seq<Line>, t: Token)
    requires |g| >= 1
    ensures Flatten(g + [[t]]) == Flatten(g) + [t]
    ensures Flatten(g[..|g| - 1] + [g[|g| - 1] + [t]]) == Flatten(g) + [t]
  {
    var n := |g|;
    assert (g + [[t]])[..n] == g;
    var g' := g[..n - 1] + [g[n - 1] + [t]];
    assert g'[..n - 1] == g[..n - 1];
    assert Flatten(g) == Flatten(g[..n - 1]) + g[n - 1];
  }

  /** A split of one group is well grouped exactly when that group lies on the start line. */
  lemma WellGroupedOne(l: Line, startLine: nat)
    ensures WellGrouped([l], startLine) <==> OnLine(l, startLine)
  {
    assert LineNumber([l], 0, startLine) == startLine;
  }

  /**
   * Adding a group at the end keeps a split well grouped exactly when the new group holds a
   * token, lies on one line, and that line differs from the line of the group before it.
   */
  lemma WellGroupedAppend(g: seq<Line>, l: Line, startLine: nat)
    requires |g| >= 1
    ensures WellGrouped(g + [l], startLine)
       <==> WellGrouped(g, startLine) && l != [] && OnLine(l, l[0].line)
            && l[0].line != LineNumber(g, |g| - 1, startLine)
  {
    var h := g + [l];
    var n := |g|;
    assert forall k :: 0 <= k < n ==> h[k] == g[k];
    assert forall k :: 0 <= k < n ==> LineNumber(h, k, startLine) == LineNumber(g, k, startLine);
    assert h[n] == l;
    if l != [] {
      assert LineNumber(h, n, startLine) == l[0].line;
    }
  }

  /** The loop's split has the shape `WellGrouped` demands, and `lastLine` is its last line. */
  lemma {:induction false} LinesWellGrouped(ts: seq<Token>, startLine: nat)
    ensures WellGrouped(Lines(ts, startLine), startLine)
    ensures LastLine(ts, startLine) == LineNumber(Lines(ts, startLine), |Lines(ts, startLine)| - 1, startLine)
    decreases |ts|
  {
    if ts == [] {
      WellGroupedOne([], startLine);
    } else {
      var prev, t := ts[..|ts| - 1], ts[|ts| - 1];
      assert ts == prev + [t];
      LinesWellGrouped(prev, startLine);
      LinesStep(prev, t, startLine);
      if t.line != LastLine(prev, startLine) {
        OpenedLineWellGrouped(Lines(prev, startLine), t, startLine);
      } else {
        JoinedLineWellGrouped(Lines(prev, startLine), t, startLine);
      }
    }
  }

  /** A token on a line other than the last group's, put in a group of its own, keeps the split well grouped. */
  lemma OpenedLineWellGrouped(g: seq<Line>, t: Token, startLine: nat)
    requires WellGrouped(g, startLine)
    requires t.line != LineNumber(g, |g| - 1, startLine)
    ensures WellGrouped(g + [[t]], startLine)
    ensures LineNumber(g + [[t]], |g|, startLine) == t.line
  {
    WellGroupedAppend(g, [t], startLine);
  }

  /** A token on the last group's line, added to that group, keeps the split well grouped. */
  lemma JoinedLineWellGrouped(g: seq<Line>, t: Token, startLine: nat)
    requires WellGrouped(g, startLine)
    requires t.line == LineNumber(g, |g| - 1, startLine)
    ensures var h := g[..|g| - 1] + [g[|g| - 1] + [t]];
            WellGrouped(h, startLine) && LineNumber(h, |g| - 1, startLine) == t.line
  {
    var n := |g|;
    var last := g[n - 1] + [t];
    var h := g[..n - 1] + [last];
    assert OnLine(last, LineNumber(g, n - 1, startLine));
    if n == 1 {
      WellGroupedOne(g[0], startLine);
      WellGroupedOne(last, startLine);
      assert h == [last];
    } else {
      var init := g[..n - 1];
      assert g == init + [g[n - 1]];
      WellGroupedAppend(init, g[n - 1], startLine);
      WellGroupedAppend(init, last, startLine);
      assert LineNumber(h, n - 1, startLine) == last[0].line;
    }
  }

  /** The last token of a split whose last group holds one. */
  function LastToken(g: seq<Line>): Token
    requires |g| >= 1 && g[|g| - 1] != []
  {
    var last := g[|g| - 1];
    last[|last| - 1]
  }

  /** Flattening a split is flattening all but its last group, then that group. */
  lemma FlattenLast(init: seq<Line>, last: Line)
    ensures Flatten(init + [last]) == Flatten(init) + last
  {
    assert (init + [last])[..|init|] == init;
  }

  /**
   * Removing the last token of a well-grouped split leaves a well-grouped split: either
   * the last group goes with it, or it becomes one token shorter.
   */
  lemma DropLastToken(g: seq<Line>, startLine: nat) returns (g': seq<Line>)
    requires WellGrouped(g, startLine) && g[|g| - 1] != []
    ensures WellGrouped(g', startLine)
    ensures Flatten(g) == Flatten(g') + [LastToken(g)]
    ensures |g'| == |g| - 1 ==> |g| >= 2 && g == g' + [[LastToken(g)]]
    ensures |g'| == |g| ==> g == g'[..|g| - 1] + [g'[|g| - 1] + [LastToken(g)]]
    ensures |g'| == |g| ==> LineNumber(g', |g| - 1, startLine) == LineNumber(g, |g| - 1, startLine)
    ensures |g'| == |g| - 1 || |g'| == |g|
  {
    var init, last := g[..|g| - 1], g[|g| - 1];
    assert g == init + [last];
    assert LastToken(g) == last[|last| - 1];
    if |init| >= 1 && |last| == 1 {
      g' := DropLastGroup(init, last, startLine);
    } else {
      g' := ShortenLastGroup(init, last, startLine);
    }
  }

  /** A last group of one token goes with that token. */
  lemma DropLastGroup(init: seq<Line>, last: Line, startLine: nat) returns (g': seq<Line>)
    requires |init| >= 1 && |last| == 1
    requires WellGrouped(init + [last], startLine)
    ensures g' == init
    ensures WellGrouped(g', startLine)
    ensures Flatten(init + [last]) == Flatten(g') + [last[0]]
    ensures init + [last] == g' + [[last[0]]]
  {
    g' := init;
    assert last == [last[0]];
    WellGroupedAppend(init, last, startLine);
    FlattenLast(init, last);
  }

  /** The last group of a well-grouped split, one token shorter, keeps the split well grouped and on its line. */
  lemma ShortenLastGroup(init: seq<Line>, last: Line, startLine: nat) returns (g': seq<Line>)
    requires WellGrouped(init + [last], startLine)
    requires |last| >= 2 || (init == [] && last != [])
    ensures g' == init + [last[..|last| - 1]]
    ensures WellGrouped(g', startLine)
    ensures Flatten(init + [last]) == Flatten(g') + [last[|last| - 1]]
    ensures init + [last] == g'[..|init|] + [g'[|init|] + [last[|last| - 1]]]
    ensures LineNumber(g', |init|, startLine) == LineNumber(init + [last], |init|, startLine)
  {
    g' := init + [last[..|last| - 1]];
    ShortenShape(init, last);
    if init == [] {
      ShortenOnlyGroup(last, startLine);
    } else {
      ShortenLaterGroup(init, last, startLine);
    }
  }

  /** How a split and its flattening change when the last group loses its last token. */
  lemma ShortenShape(init: seq<Line>, last: Line)
    requires last != []
    ensures var g' := init + [last[..|last| - 1]];
            Flatten(init + [last]) == Flatten(g') + [last[|last| - 1]] &&
            init + [last] == g'[..|init|] + [g'[|init|] + [last[|last| - 1]]]
    ensures init == [] ==> init + [last] == [last] && init + [last[..|last| - 1]] == [last[..|last| - 1]]
  {
    var shorter, x := last[..|last| - 1], last[|last| - 1];
    SplitLast(last);
    AppendedLast(init, shorter);
    FlattenLast(init, last);
    FlattenLast(init, shorter);
    Regroup2(Flatten(init), shorter, [x]);
  }

  /** A split of one group stays well grouped when that group loses its last token. */
  lemma ShortenOnlyGroup(last: Line, startLine: nat)
    requires last != [] && WellGrouped([last], startLine)
    ensures WellGrouped([last[..|last| - 1]], startLine)
  {
    WellGroupedOne(last, startLine);
    WellGroupedOne(last[..|last| - 1], startLine);
  }

  /** A later group of at least two tokens keeps the split well grouped, and its line, when it loses its last token. */
  lemma ShortenLaterGroup(init: seq<Line>, last: Line, startLine: nat)
    requires |init| >= 1 && |last| >= 2
    requires WellGrouped(init + [last], startLine)
    ensures WellGrouped(init + [last[..|last| - 1]], startLine)
    ensures LineNumber(init + [last[..|last| - 1]], |init|, startLine) == LineNumber(init + [last], |init|, startLine)
  {
    var shorter := last[..|last| - 1];
    var n := |init|;
    WellGroupedAppend(init, last, startLine);
    assert last[0] == shorter[0];
    WellGroupedAppend(init, shorter, startLine);
    assert LineNumber(init + [shorter], n, startLine) == shorter[0].line;
    assert LineNumber(init + [last], n, startLine) == last[0].line;
  }

  /**
   * The loop's split is the only well-grouped split of the consumed tokens: `WellGrouped`
   * together with `Flatten` pins it down completely.
   */
  lemma {:induction false} WellGroupedIsLines(g: seq<Line>, startLine: nat)
    requires WellGrouped(g, startLine)
    ensures g == Lines(Flatten(g), startLine)
    decreases |Flatten(g)|
  {
    var n := |g|;
    if g[n - 1] == [] {
      assert n == 1;
      assert g == [[]];
      assert Flatten(g) == Flatten([]) + [];
    } else {
      var t := LastToken(g);
      var g' := DropLastToken(g, startLine);
      var prev := Flatten(g');
      WellGroupedIsLines(g', startLine);
      LinesWellGrouped(prev, startLine);
      var ts := Flatten(g);
      assert ts[..|ts| - 1] == prev && ts[|ts| - 1] == t;
      assert OnLine(g[n - 1], LineNumber(g, n - 1, startLine));
      assert t.line == LineNumber(g, n - 1, startLine);
      if |g'| == n - 1 {
        assert g[n - 1] == [t];
        assert LineNumber(g, n - 1, startLine) == t.line;
        assert LineNumber(g', n - 2, startLine) == LineNumber(g, n - 2, startLine) by {
          assert g'[n - 2] == g[n - 2];
        }
        assert t.line != LastLine(prev, startLine);
      } else {
        assert t.line == LastLine(prev, startLine);
      }
    }
  }

  // ----- counting lines -----

  /** Appending a token adds a change exactly when its line differs from `lastLine`. */
  lemma {:induction false} ChangesAppend(ts: seq<Token>, t: Token, from: nat)
    ensures Changes(ts + [t], from)
         == Changes(ts, from) + (if t.line != LastLine(ts, from) then 1 else 0)
    decreases |ts|
  {
    if ts == [] {
      assert [] + [t] == [t] && [t][1..] == [];
    } else {
      assert (ts + [t])[0] == ts[0] && (ts + [t])[1..] == ts[1..] + [t];
      ChangesAppend(ts[1..], t, ts[0].line);
      assert LastLine(ts[1..], ts[0].line) == LastLine(ts, from);
    }
  }

  /** One line to start with, and one more for every token whose line differs from the one before it. */
  lemma {:induction false} LinesCount(ts: seq<Token>, startLine: nat)
    ensures |Lines(ts, startLine)| == 1 + Changes(ts, startLine)
    decreases |ts|
  {
    if ts != [] {
      var prev, t := ts[..|ts| - 1], ts[|ts| - 1];
      LinesCount(prev, startLine);
      ChangesAppend(prev, t, startLine);
      assert prev + [t] == ts;
    }
  }

  /** Past its first token a sorted stream stays sorted and never goes back before that token's line. */
  lemma SortedTail(ts: seq<Token>)
    requires ts != [] && Sorted(ts)
    ensures Sorted(ts[1..])
    ensures forall i :: 0 <= i < |ts| - 1 ==> ts[0].line <= ts[1..][i].line
  {
    assert forall i :: 0 <= i < |ts| - 1 ==> ts[1..][i] == ts[i + 1];
  }

  /** A line before every token's line is not among the tokens' lines. */
  lemma NotInLineSet(ts: seq<Token>, x: nat)
    requires forall i :: 0 <= i < |ts| ==> x < ts[i].line
    ensures x !in LineSet(ts)
  {
  }

  /** Removing `from` from a set with `p` added, when `from` is `p` or not in the set. */
  lemma RemoveFromAdded(p: nat, from: nat, s: set<nat>)
    requires p == from || from !in s
    ensures |({p} + s) - {from}| == (if p != from then 1 else 0) + |s - {p}|
  {
    if p == from {
      assert ({p} + s) - {from} == s - {p};
    } else {
      assert ({p} + s) - {from} == {p} + (s - {p});
    }
  }

  /**
   * On a sorted stream that does not go back before `from`, the changes are the distinct
   * lines other than `from`: every such line opens exactly one new line.
   */
  lemma {:induction false} ChangesAreNewLines(ts: seq<Token>, from: nat)
    requires Sorted(ts)
    requires ts != [] ==> from <= ts[0].line
    ensures Changes(ts, from) == |LineSet(ts) - {from}|
    decreases |ts|
  {
    if ts != [] {
      var p, rest := ts[0].line, ts[1..];
      SortedTail(ts);
      assert rest != [] ==> p <= rest[0].line;
      ChangesAreNewLines(rest, p);
      if p != from {
        NotInLineSet(rest, from);
      }
      assert LineSet(ts) == {p} + LineSet(rest);
      RemoveFromAdded(p, from, LineSet(rest));
      assert Changes(ts, from) == (if p != from then 1 else 0) + Changes(rest, p);
    }
  }

  /** In a sorted stream, a line no later than `endLine` that holds a token is reached by the loop. */
  lemma InRangeKeepsLine(ts: seq<Token>, endLine: nat, l: nat)
    requires Sorted(ts)
    requires l <= endLine && l in LineSet(ts)
    ensures l in LineSet(InRange(ts, endLine))
  {
    var r := InRange(ts, endLine);
    var i :| 0 <= i < |ts| && ts[i].line == l;
    InRangeReaches(ts, endLine, i);
    assert r[i] == ts[i];
  }

  /** In a sorted stream, the loop consumes every token up to one at or before `endLine`. */
  lemma {:induction false} InRangeReaches(ts: seq<Token>, endLine: nat, i: nat)
    requires Sorted(ts)
    requires i < |ts| && ts[i].line <= endLine
    ensures i < |InRange(ts, endLine)|
    decreases i
  {
    if i > 0 {
      assert ts[0].line <= ts[i].line && ts[1..][i - 1] == ts[i];
      InRangeReaches(ts[1..], endLine, i - 1);
    }
  }

  /** The consumed tokens lie between the first line of the stream and `endLine`. */
  lemma InRangeWithin(ts: seq<Token>, startLine: nat, endLine: nat, x: nat)
    requires forall i :: 0 <= i < |ts| ==> startLine <= ts[i].line
    requires x in LineSet(InRange(ts, endLine))
    ensures startLine <= x <= endLine
  {
    var r := InRange(ts, endLine);
    var i :| 0 <= i < |r| && r[i].line == x;
    assert r[i] == ts[i];
  }

  /**
   * When the stream is in document order, starts no earlier than `startLine`, and every
   * line from `startLine` to `endLine` holds a token, the consumed tokens lie on exactly
   * the lines of that range.
   */
  lemma InRangeLines(ts: seq<Token>, startLine: nat, endLine: nat)
    requires Sorted(ts)
    requires forall i :: 0 <= i < |ts| ==> startLine <= ts[i].line
    requires forall l :: startLine <= l <= endLine ==> l in LineSet(ts)
    ensures LineSet(InRange(ts, endLine)) - {startLine} == Span(startLine, endLine)
    ensures startLine <= endLine ==> startLine in LineSet(InRange(ts, endLine))
  {
    if startLine <= endLine {
      InRangeKeepsLine(ts, endLine, startLine);
    }
    var a, b := LineSet(InRange(ts, endLine)) - {startLine}, Span(startLine, endLine);
    forall l | l in b ensures l in a {
      InRangeKeepsLine(ts, endLine, l);
    }
    forall x | x in a ensures x in b {
      InRangeWithin(ts, startLine, endLine, x);
      assert x != startLine;
      assert startLine < x <= endLine;
    }
    SameMembers(a, b);
  }

  /** Sets with the same members are equal. */
  lemma SameMembers(a: set<nat>, b: set<nat>)
    requires forall x :: x in a ==> x in b
    requires forall x :: x in b ==> x in a
    ensures a == b
  {
  }

  /**
   * When the stream is in document order, starts no earlier than `startLine`, and every
   * line from `startLine` to `endLine` holds a token, the split has exactly one line per
   * document line in that range.
   */
  lemma LinesCoverRange(ts: seq<Token>, startLine: nat, endLine: nat)
    requires startLine <= endLine
    requires Sorted(ts)
    requires forall i :: 0 <= i < |ts| ==> startLine <= ts[i].line
    requires forall l :: startLine <= l <= endLine ==> l in LineSet(ts)
    ensures |Lines(InRange(ts, endLine), startLine)| == endLine - startLine + 1
  {
    var r := InRange(ts, endLine);
    InRangeLines(ts, startLine, endLine);
    assert Sorted(r);
    ChangesAreNewLines(r, startLine);
    LinesCount(r, startLine);
  }
}
