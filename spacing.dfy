/**
 * The whitespace rewrite of main.js line 82, `lineText.replace(/ {2}/g, "&nbsp; ")`:
 * scanning left to right, every pair of adjacent spaces not already consumed by an
 * earlier pair becomes `&nbsp;` followed by one space, so that paste targets which
 * collapse runs of spaces keep the indentation.
 */
module Spacing {
  import opened Strings

  const Nbsp: string := "&nbsp;"

  /** What one matched pair of spaces is replaced by. */
  const PairReplacement: string := "&nbsp; "

  /** A run of `n` spaces. */
  function Spaces(n: nat): (r: string)
    ensures |r| == n
  {
    if n == 0 then [] else " " + Spaces(n - 1)
  }

  /** `k` copies of `s` one after the other. */
  function Repeat(s: string, k: nat): string {
    if k == 0 then [] else s + Repeat(s, k - 1)
  }

  /** The global, non-overlapping, left-to-right replacement of two spaces by `&nbsp; `. */
  function ReplaceSpacePairs(s: string): (r: string)
    ensures |r| >= |s|
    ensures r == [] <==> s == []
    ensures '<' in r <==> '<' in s
    ensures '>' in r <==> '>' in s
  {
    if StartsWith(s, "  ") then PairReplacement + ReplaceSpacePairs(s[2..])
    else if s == [] then []
    else [s[0]] + ReplaceSpacePairs(s[1..])
  }

  /** The inverse rewrite: every `&nbsp;`, found left to right, becomes one space. */
  function CollapseNbsp(s: string): string
    decreases |s|
  {
    if s == [] then []
    else if StartsWith(s, Nbsp) then " " + CollapseNbsp(s[|Nbsp|..])
    else [s[0]] + CollapseNbsp(s[1..])
  }

  /**
   * The rewrite leaves a prefix free of spaces and `&` where it was: such text can only
   * come out of the rewrite where it went in.
   */
  lemma {:induction false} ReplacedPrefix(s: string, p: string)
    requires ' ' !in p && '&' !in p
    requires StartsWith(ReplaceSpacePairs(s), p)
    ensures StartsWith(s, p)
    decreases |p|
  {
    if p != [] {
      var r := ReplaceSpacePairs(s);
      assert r[0] == p[0];
      assert !StartsWith(s, "  ");
      assert s != [] && r == [s[0]] + ReplaceSpacePairs(s[1..]);
      assert s[0] == p[0];
      assert StartsWith(ReplaceSpacePairs(s[1..]), p[1..]) by {
        assert r[1..] == ReplaceSpacePairs(s[1..]);
        assert r[1..][..|p| - 1] == r[..|p|][1..];
      }
      ReplacedPrefix(s[1..], p[1..]);
      assert s[..|p|] == [s[0]] + s[1..][..|p| - 1];
    }
  }

  /** Round trip: on text that holds no `&nbsp;` already, collapsing undoes the rewrite. */
  lemma {:induction false} CollapseReplace(s: string)
    requires !Contains(s, Nbsp)
    ensures CollapseNbsp(ReplaceSpacePairs(s)) == s
    decreases |s|
  {
    if s == [] {
    } else if StartsWith(s, "  ") {
      assert !Contains(s[1..], Nbsp);
      assert s[1..][1..] == s[2..];
      CollapseReplace(s[2..]);
      CollapsePairStep(s);
    } else {
      assert !Contains(s[1..], Nbsp);
      CollapseReplace(s[1..]);
      CollapseKeptStep(s);
    }
  }

  /** The round trip's step at a pair of spaces, given the round trip on the text after it. */
  lemma CollapsePairStep(s: string)
    requires StartsWith(s, "  ")
    requires CollapseNbsp(ReplaceSpacePairs(s[2..])) == s[2..]
    ensures CollapseNbsp(ReplaceSpacePairs(s)) == s
  {
    CollapsePair(ReplaceSpacePairs(s[2..]));
    assert s == "  " + s[2..];
  }

  /** The round trip's step at a kept character, given the round trip on the text after it. */
  lemma CollapseKeptStep(s: string)
    requires s != [] && !StartsWith(s, "  ") && !Contains(s, Nbsp)
    requires CollapseNbsp(ReplaceSpacePairs(s[1..])) == s[1..]
    ensures CollapseNbsp(ReplaceSpacePairs(s)) == s
  {
    assert ReplaceSpacePairs(s) == [s[0]] + ReplaceSpacePairs(s[1..]);
    KeptCharCollapses(s);
    assert s == [s[0]] + s[1..];
  }

  /** A replaced pair collapses back to two spaces. */
  lemma CollapsePair(rest: string)
    ensures CollapseNbsp(PairReplacement + rest) == "  " + CollapseNbsp(rest)
  {
    var r := PairReplacement + rest;
    assert StartsWith(r, Nbsp) && r[|Nbsp|..] == " " + rest;
    assert (" " + rest)[0] == ' ' && (" " + rest)[1..] == rest;
    assert !StartsWith(" " + rest, Nbsp);
  }

  /**
   * A character the rewrite keeps is kept by the collapse too: it cannot start an `&nbsp;`
   * in the output, since the text holds none.
   */
  lemma KeptCharCollapses(s: string)
    requires s != [] && !StartsWith(s, "  ") && !Contains(s, Nbsp)
    ensures CollapseNbsp([s[0]] + ReplaceSpacePairs(s[1..])) == [s[0]] + CollapseNbsp(ReplaceSpacePairs(s[1..]))
  {
    var r := [s[0]] + ReplaceSpacePairs(s[1..]);
    assert Nbsp[0] == '&' && ' ' !in Nbsp[1..] && '&' !in Nbsp[1..];
    KeptCharStartsNothing(s, Nbsp);
    assert r[1..] == ReplaceSpacePairs(s[1..]);
  }

  /**
   * A pattern made of `&` and then neither spaces nor `&` starts the output at a kept
   * character only if it started the text there.
   */
  lemma KeptCharStartsNothing(s: string, p: string)
    requires |p| >= 1 && p[0] == '&' && ' ' !in p[1..] && '&' !in p[1..]
    requires s != [] && !StartsWith(s, "  ") && !Contains(s, p)
    ensures !StartsWith([s[0]] + ReplaceSpacePairs(s[1..]), p)
  {
    var rest := ReplaceSpacePairs(s[1..]);
    var r := [s[0]] + rest;
    if StartsWith(r, p) {
      assert StartsWith(rest, p[1..]) by {
        assert r[1..] == rest;
        assert rest[..|p| - 1] == r[..|p|][1..];
      }
      ReplacedPrefix(s[1..], p[1..]);
      assert false;
    }
  }

  /** A leading pair of spaces is replaced and the rewrite resumes right after it. */
  lemma ReplaceLeadingPair(n: nat, s: string)
    requires n >= 2
    ensures ReplaceSpacePairs(Spaces(n) + s) == PairReplacement + ReplaceSpacePairs(Spaces(n - 2) + s)
  {
    var t := Spaces(n) + s;
    assert Spaces(n) == " " + Spaces(n - 1) && Spaces(n - 1) == " " + Spaces(n - 2);
    assert t == "  " + (Spaces(n - 2) + s);
    assert StartsWith(t, "  ");
    assert t[2..] == Spaces(n - 2) + s;
  }

  /** A space not followed by another is kept as it is. */
  lemma ReplaceLoneSpace(s: string)
    requires s == [] || s[0] != ' '
    ensures ReplaceSpacePairs(Spaces(1) + s) == " " + ReplaceSpacePairs(s)
  {
    var t := Spaces(1) + s;
    assert t == " " + s;
    assert |t| >= 2 ==> t[1] == s[0];
    assert !StartsWith(t, "  ");
    assert t[1..] == s;
  }

  /** A run of at most one space is kept as it is. */
  lemma ReplaceShortRun(odd: nat, s: string)
    requires odd <= 1
    requires s == [] || s[0] != ' '
    ensures ReplaceSpacePairs(Spaces(odd) + s) == Spaces(odd) + ReplaceSpacePairs(s)
  {
    if odd == 0 {
      assert Spaces(0) + s == s && Spaces(0) + ReplaceSpacePairs(s) == ReplaceSpacePairs(s);
    } else {
      ReplaceLoneSpace(s);
      assert Spaces(1) == " ";
    }
  }

  /** Replacing the first pair of a run of `2 * pairs + odd` spaces leaves a run of two fewer. */
  lemma ReplaceRunStep(pairs: nat, odd: nat, s: string)
    requires pairs >= 1
    requires ReplaceSpacePairs(Spaces(2 * (pairs - 1) + odd) + s)
          == Repeat(PairReplacement, pairs - 1) + Spaces(odd) + ReplaceSpacePairs(s)
    ensures ReplaceSpacePairs(Spaces(2 * pairs + odd) + s)
         == Repeat(PairReplacement, pairs) + Spaces(odd) + ReplaceSpacePairs(s)
  {
    var n := 2 * pairs + odd;
    ReplaceLeadingPair(n, s);
    assert n - 2 == 2 * (pairs - 1) + odd;
    Regroup3(PairReplacement, Repeat(PairReplacement, pairs - 1), Spaces(odd), ReplaceSpacePairs(s));
    Regroup2(Repeat(PairReplacement, pairs - 1), Spaces(odd), ReplaceSpacePairs(s));
  }

  /**
   * A maximal run of `2 * pairs + odd` spaces becomes `pairs` replacements followed by
   * the odd space left over, if any; the text after the run is rewritten on its own.
   */
  lemma {:induction false} ReplaceSpaceRun(pairs: nat, odd: nat, s: string)
    requires odd <= 1
    requires s == [] || s[0] != ' '
    ensures ReplaceSpacePairs(Spaces(2 * pairs + odd) + s)
         == Repeat(PairReplacement, pairs) + Spaces(odd) + ReplaceSpacePairs(s)
    decreases pairs
  {
    if pairs == 0 {
      ReplaceShortRun(odd, s);
      assert 2 * pairs + odd == odd && Repeat(PairReplacement, pairs) == [];
    } else {
      ReplaceSpaceRun(pairs - 1, odd, s);
      ReplaceRunStep(pairs, odd, s);
    }
  }

  /** Three spaces become one replacement and a space, as the regex's non-overlapping matching does. */
  lemma ThreeSpaces()
    ensures ReplaceSpacePairs("   ") == "&nbsp;  "
  {
    ReplaceSpaceRun(1, 1, []);
    assert Spaces(3) + [] == "   ";
  }
}
