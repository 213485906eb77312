/**
 * The host's `StringUtils.htmlEscape`, which `getHighlightedText` applies to every
 * token's text: each of `& < > " '` becomes its character entity, every other
 * character is kept.
 */
module HtmlEscape {
  import opened Strings

  /** The entity (or the character itself) that stands for `c` in escaped text. */
  function EscapeChar(c: char): (r: string)
    ensures r != []
    ensures r == [c] <==> c !in "&<>\"'"
    ensures c in "&<>\"'" ==> |r| >= 4 && r[0] == '&' && r[|r| - 1] == ';'
    ensures '<' !in r && '>' !in r && '"' !in r && '\'' !in r
    ensures ' ' in r <==> c == ' '
  {
    match c
    case '&' => "&amp;"
    case '<' => "&lt;"
    case '>' => "&gt;"
    case '"' => "&quot;"
    case '\'' => "&#039;"
    case _ => [c]
  }

  /** `htmlEscape(s)`: the characters of `s` escaped one by one, in order. */
  function Escape(s: string): (r: string)
    ensures '<' !in r && '>' !in r && '"' !in r && '\'' !in r
    ensures |r| >= |s|
    ensures r == [] <==> s == []
    ensures ' ' in r <==> ' ' in s
  {
    if s == [] then []
    else
      var e, rest := EscapeChar(s[0]), Escape(s[1..]);
      assert forall x :: x in e + rest <==> x in e || x in rest;
      assert s == [s[0]] + s[1..];
      e + rest
  }

  /** Decodes the five entities `Escape` produces; any other character stands for itself. */
  function Unescape(s: string): string
    decreases |s|
  {
    if s == [] then []
    else if StartsWith(s, "&amp;") then "&" + Unescape(s[5..])
    else if StartsWith(s, "&lt;") then "<" + Unescape(s[4..])
    else if StartsWith(s, "&gt;") then ">" + Unescape(s[4..])
    else if StartsWith(s, "&quot;") then "\"" + Unescape(s[6..])
    else if StartsWith(s, "&#039;") then "'" + Unescape(s[6..])
    else [s[0]] + Unescape(s[1..])
  }

  /** `&amp;` decodes to `&`. */
  lemma UnescapeAmp(rest: string)
    ensures Unescape("&amp;" + rest) == "&" + Unescape(rest)
  {
    var s := "&amp;" + rest;
    assert StartsWith(s, "&amp;") && s[5..] == rest;
  }

  /** `&lt;` decodes to `<`. */
  lemma UnescapeLt(rest: string)
    ensures Unescape("&lt;" + rest) == "<" + Unescape(rest)
  {
    var s := "&lt;" + rest;
    assert s[1] == 'l';
    assert StartsWith(s, "&lt;") && s[4..] == rest;
  }

  /** `&gt;` decodes to `>`. */
  lemma UnescapeGt(rest: string)
    ensures Unescape("&gt;" + rest) == ">" + Unescape(rest)
  {
    var s := "&gt;" + rest;
    assert s[1] == 'g';
    assert StartsWith(s, "&gt;") && s[4..] == rest;
  }

  /** `&quot;` decodes to `"`. */
  lemma UnescapeQuot(rest: string)
    ensures Unescape("&quot;" + rest) == "\"" + Unescape(rest)
  {
    var s := "&quot;" + rest;
    assert s[1] == 'q';
    assert StartsWith(s, "&quot;") && s[6..] == rest;
  }

  /** `&#039;` decodes to `'`. */
  lemma UnescapeApos(rest: string)
    ensures Unescape("&#039;" + rest) == "'" + Unescape(rest)
  {
    var s := "&#039;" + rest;
    assert s[1] == '#';
    assert StartsWith(s, "&#039;") && s[6..] == rest;
  }

  /** A character other than `&` stands for itself. */
  lemma UnescapePlain(c: char, rest: string)
    requires c != '&'
    ensures Unescape([c] + rest) == [c] + Unescape(rest)
  {
    var s := [c] + rest;
    assert s[0] == c && s[1..] == rest;
    assert !StartsWith(s, "&amp;") && !StartsWith(s, "&lt;") && !StartsWith(s, "&gt;");
    assert !StartsWith(s, "&quot;") && !StartsWith(s, "&#039;");
  }

  /** Decoding the escape of one character gives that character back and consumes nothing after it. */
  lemma UnescapeEscapeChar(c: char, rest: string)
    ensures Unescape(EscapeChar(c) + rest) == [c] + Unescape(rest)
  {
    match c
    case '&' => UnescapeAmp(rest);
    case '<' => UnescapeLt(rest);
    case '>' => UnescapeGt(rest);
    case '"' => UnescapeQuot(rest);
    case '\'' => UnescapeApos(rest);
    case _ => UnescapePlain(c, rest);
  }

  /** Round trip: escaping loses nothing. */
  lemma {:induction false} UnescapeEscape(s: string)
    ensures Unescape(Escape(s)) == s
  {
    if s != [] {
      UnescapeEscapeChar(s[0], Escape(s[1..]));
      UnescapeEscape(s[1..]);
    }
  }

  /** The only `&` an escaped character may hold is its first, and it does not open `&nbsp;`. */
  lemma EscapeCharAmpersand(c: char)
    ensures '&' !in EscapeChar(c)[1..]
    ensures EscapeChar(c)[0] == '&' ==> |EscapeChar(c)| > 1 && EscapeChar(c)[1] != 'n'
  {
    match c
    case '&' =>
    case '<' =>
    case '>' =>
    case '"' =>
    case '\'' =>
    case _ =>
  }

  /** Escaped text never contains the entity `&nbsp;`: every `&` it holds opens a different entity. */
  lemma {:induction false} EscapeHasNoNbsp(s: string)
    ensures !Contains(Escape(s), "&nbsp;")
  {
    if s != [] {
      var e := EscapeChar(s[0]);
      var rest := Escape(s[1..]);
      assert Escape(s) == e + rest;
      EscapeHasNoNbsp(s[1..]);
      EscapeCharAmpersand(s[0]);
      ContainsSkipsEntity(e, rest, "&nbsp;");
    }
  }
}
