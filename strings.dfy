/**
 * Helpers shared by the other modules: prefix and substring tests on strings, and
 * lemmas that split or regroup concatenations of sequences.
 */
module Strings {

  /** True when `s` begins with `p`. */
  predicate StartsWith(s: string, p: string) {
    |p| <= |s| && s[..|p|] == p
  }

  /** A non-empty sequence is its front followed by its last element. */
  lemma SplitLast<T>(s: seq<T>)
    requires s != []
    ensures s == s[..|s| - 1] + [s[|s| - 1]]
  {
  }

  /** Appending one element keeps the front and puts the element at the end. */
  lemma AppendedLast<T>(s: seq<T>, x: T)
    ensures (s + [x])[..|s|] == s && (s + [x])[|s|] == x
    ensures s == [] ==> s + [x] == [x]
  {
  }

  /** Concatenation regrouped to the right, two pieces before the rest. */
  lemma Regroup2<T>(a: seq<T>, b: seq<T>, rest: seq<T>)
    ensures a + b + rest == a + (b + rest)
  {
  }

  /** Concatenation regrouped to the right, three pieces before the rest. */
  lemma Regroup3<T>(a: seq<T>, b: seq<T>, c: seq<T>, rest: seq<T>)
    ensures a + b + c + rest == a + (b + (c + rest))
  {
  }

  /** Concatenation regrouped to the right, four pieces before the rest. */
  lemma Regroup4<T>(a: seq<T>, b: seq<T>, c: seq<T>, d: seq<T>, rest: seq<T>)
    ensures a + b + c + d + rest == a + (b + (c + (d + rest)))
  {
  }

  /** Concatenation with everything after the first piece grouped together. */
  lemma GroupTail<T>(a: seq<T>, b: seq<T>, c: seq<T>, d: seq<T>, e: seq<T>)
    ensures a + b + c + d + e == a + (b + c + d + e)
  {
  }

  /** True when `p` occurs somewhere in `s`. */
  predicate Contains(s: string, p: string)
    decreases |s|
  {
    StartsWith(s, p) || (s != [] && Contains(s[1..], p))
  }

  /** A pattern that begins with `&` cannot begin inside a stretch of text free of `&`. */
  lemma {:induction false} ContainsSkipsAmpFree(q: string, s: string, p: string)
    requires p != [] && p[0] == '&'
    requires '&' !in q
    ensures Contains(q + s, p) == Contains(s, p)
    decreases |q|
  {
    if q != [] {
      assert (q + s)[0] == q[0];
      assert !StartsWith(q + s, p);
      assert (q + s)[1..] == q[1..] + s;
      ContainsSkipsAmpFree(q[1..], s, p);
    } else {
      assert q + s == s;
    }
  }

  /**
   * A pattern that begins with `&` cannot begin inside `q` either when `q` holds at
   * most a leading `&` that is followed by something other than the pattern's second character.
   */
  lemma ContainsSkipsEntity(q: string, s: string, p: string)
    requires |p| > 1 && p[0] == '&'
    requires q != [] && '&' !in q[1..]
    requires q[0] == '&' ==> |q| > 1 && q[1] != p[1]
    ensures Contains(q + s, p) == Contains(s, p)
  {
    assert (q + s)[0] == q[0];
    if q[0] == '&' {
      assert (q + s)[1] == q[1];
    }
    assert !StartsWith(q + s, p);
    assert (q + s)[1..] == q[1..] + s;
    ContainsSkipsAmpFree(q[1..], s, p);
  }
}
