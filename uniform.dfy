/**
 * Match streams over a dictionary whose words all have the same number of
 * runes L: at each position at most the suffix of length L can be reported,
 * so the Aho-Corasick stream and the Remove scan can be followed one stretch
 * of text at a time.
 */
module Uniform {
  import opened Wrappers
  import opened Text
  import opened Matching
  /** The dictionary's words all have L runes, the last one among `ends`. */
  ghost predicate EndsAmong(dict: set<Word>, L: nat, ends: set<char>) {
    L >= 1 && forall w :: w in dict ==> |w| == L && w[L - 1] in ends
  }

  /** No dictionary word ends after rune n, for lo < n <= hi. */
  ghost predicate NoneEndIn(dict: set<Word>, text: seq<char>, lo: nat, hi: nat)
    requires lo <= hi <= |text|
    decreases hi - lo
  {
    lo == hi || (SuffixWords(dict, text[..hi], hi) == [] && NoneEndIn(dict, text, lo, hi - 1))
  }

  // ---------------------------------------------------------------------------
  // Aho-Corasick streams over a dictionary of equally long words

  /** Only the suffix of length L can be a word. */
  lemma {:induction false} SuffixWordsUniform(dict: set<Word>, s: seq<char>, k: nat, L: nat)
    requires k <= |s| && forall w :: w in dict ==> |w| == L
    ensures SuffixWords(dict, s, k) == if 1 <= L <= k && Suffix(s, L) in dict then [Suffix(s, L)] else []
    decreases k
  {
    if k > 0 {
      var k' := k - 1;
      SuffixWordsUniform(dict, s, k', L);
    }
  }

  /** A rune that ends no word ends no dictionary suffix. */
  lemma NoWordEnding(dict: set<Word>, text: seq<char>, L: nat, ends: set<char>, n: nat)
    requires 0 < n <= |text| && EndsAmong(dict, L, ends) && text[n - 1] !in ends
    ensures SuffixWords(dict, text[..n], n) == []
  {
    SuffixWordsUniform(dict, text[..n], n, L);
    if L <= n {
      assert Suffix(text[..n], L)[L - 1] == text[n - 1];
    }
  }

  /** Runes none of which ends a word. */
  lemma {:induction false} NoWordEnds(dict: set<Word>, text: seq<char>, L: nat, ends: set<char>, lo: nat, hi: nat)
    requires lo <= hi <= |text| && EndsAmong(dict, L, ends)
    requires forall i :: lo <= i < hi ==> text[i] !in ends
    ensures NoneEndIn(dict, text, lo, hi)
    decreases hi - lo
  {
    if lo < hi {
      var hi' := hi - 1;
      NoWordEnding(dict, text, L, ends, hi);
      NoWordEnds(dict, text, L, ends, lo, hi');
    }
  }

  /** A word that ends at rune n is the only one reported there. */
  lemma WordEnding(dict: set<Word>, text: seq<char>, L: nat, n: nat)
    requires 1 <= L <= n <= |text| && forall w :: w in dict ==> |w| == L
    requires text[n - L..n] in dict
    ensures SuffixWords(dict, text[..n], n) == [text[n - L..n]]
  {
    SuffixWordsUniform(dict, text[..n], n, L);
    assert Suffix(text[..n], L) == text[n - L..n];
  }

  /** Where no dictionary word ends, the stream grows by nothing. */
  lemma {:induction false} AcStreamQuiet(dict: set<Word>, text: seq<char>, lo: nat, hi: nat)
    requires lo <= hi <= |text| && NoneEndIn(dict, text, lo, hi)
    ensures AcStreamUpTo(dict, text, hi) == AcStreamUpTo(dict, text, lo)
    decreases hi - lo
  {
    if lo < hi {
      var hi' := hi - 1;
      AcStreamQuiet(dict, text, lo, hi');
      assert AcStreamUpTo(dict, text, hi) == AcStreamUpTo(dict, text, hi - 1) + [];
    }
  }

  /** A word ending at rune n is appended to the stream. */
  lemma AcStreamHit(dict: set<Word>, text: seq<char>, L: nat, n: nat)
    requires 1 <= L <= n <= |text| && forall w :: w in dict ==> |w| == L
    requires text[n - L..n] in dict
    ensures AcStreamUpTo(dict, text, n) == AcStreamUpTo(dict, text, n - 1) + [text[n - L..n]]
  {
    WordEnding(dict, text, L, n);
  }

  lemma KeptSlice(o: seq<char>, t: seq<char>, lo: nat, hi: nat)
    requires lo < hi <= |t|
    ensures (o + t[lo..hi - 1]) + [t[hi - 1]] == o + t[lo..hi]
  {
  }

  lemma SplicedSlice(x: seq<char>, t: seq<char>, m: nat, n: nat, L: nat)
    requires 1 <= L && m + L <= n <= |t|
    ensures (x + t[m..n - 1]) + [t[n - 1]] == (x + t[m..n - L]) + t[n - L..n]
  {
    assert t[m..n - 1] + [t[n - 1]] == t[m..n] == t[m..n - L] + t[n - L..n];
  }

  /** A Remove step at which no word ends keeps the rune read. */
  lemma AcRemoveKeep(dict: set<Word>, text: seq<char>, lo: nat, hi: nat, o: seq<char>)
    requires lo < hi <= |text| && SuffixWords(dict, text[..hi], hi) == []
    requires AcRemoveUpTo(dict, text, hi - 1) == Some(o + text[lo..hi - 1])
    ensures AcRemoveUpTo(dict, text, hi) == Some(o + text[lo..hi])
  {
    AcRemoveUpToStep(dict, text, hi);
    KeptSlice(o, text, lo, hi);
  }

  lemma AcRemoveNothingYet(dict: set<Word>, text: seq<char>, lo: nat, o: seq<char>)
    requires lo <= |text| && AcRemoveUpTo(dict, text, lo) == Some(o)
    ensures AcRemoveUpTo(dict, text, lo) == Some(o + text[lo..lo])
  {
    assert o + text[lo..lo] == o;
  }

  /** The Remove scan over runes where no word ends copies them. */
  lemma {:induction false} AcRemoveQuiet(dict: set<Word>, text: seq<char>, lo: nat, hi: nat, o: seq<char>)
    requires lo <= hi <= |text| && NoneEndIn(dict, text, lo, hi)
    requires AcRemoveUpTo(dict, text, lo) == Some(o)
    ensures AcRemoveUpTo(dict, text, hi) == Some(o + text[lo..hi])
    decreases hi - lo
  {
    if lo < hi {
      var hi' := hi - 1;
      AcRemoveQuiet(dict, text, lo, hi', o);
      AcRemoveKeep(dict, text, lo, hi, o);
    } else {
      AcRemoveNothingYet(dict, text, lo, o);
    }
  }

  /** A Remove step that reports the one word the output now ends with splices it off. */
  lemma AcRemoveSplice(dict: set<Word>, text: seq<char>, n: nat, q: seq<char>, p: seq<char>, w: Word)
    requires 0 < n <= |text| && SuffixWords(dict, text[..n], n) == [w]
    requires AcRemoveUpTo(dict, text, n - 1) == Some(q) && q + [text[n - 1]] == p + w
    ensures AcRemoveUpTo(dict, text, n) == Some(p)
  {
    AcRemoveUpToStep(dict, text, n);
    var o := q + [text[n - 1]];
    assert o[..|o| - |w|] == p;
    assert SpliceAll(o, [w]) == SpliceAll(p, [w][1..]);
    assert [w][1..] == [];
  }

  /** A word ending at rune n is spliced off the output, with the runes before it that were kept. */
  lemma AcRemoveHit(dict: set<Word>, text: seq<char>, L: nat, n: nat, m: nat, x: seq<char>)
    requires 1 <= L && m + L <= n <= |text| && forall w :: w in dict ==> |w| == L
    requires text[n - L..n] in dict
    requires AcRemoveUpTo(dict, text, n - 1) == Some(x + text[m..n - 1])
    ensures AcRemoveUpTo(dict, text, n) == Some(x + text[m..n - L])
  {
    WordEnding(dict, text, L, n);
    SplicedSlice(x, text, m, n, L);
    AcRemoveSplice(dict, text, n, x + text[m..n - 1], x + text[m..n - L], text[n - L..n]);
  }

  /**
   * A text over a dictionary of L-rune words in which words end exactly
   * after runes a, b, c and e; the test text has this shape with L = 4 and
   * 4, 11, 18 and 25. Word length and positions stay symbolic here: the
   * streams are computed one stretch at a time rather than one rune at a time.
   */
  ghost predicate FourWordsShape(d: set<Word>, t: seq<char>, L: nat, a: nat, b: nat, c: nat, e: nat) {
    && 1 <= L <= a && a + L <= b && b + L <= c && c + L <= e <= |t| && (forall w :: w in d ==> |w| == L)
    && t[a - L..a] in d && t[b - L..b] in d && t[c - L..c] in d && t[e - L..e] in d
    && NoneEndIn(d, t, 0, a - 1) && NoneEndIn(d, t, a, b - 1) && NoneEndIn(d, t, b, c - 1)
    && NoneEndIn(d, t, c, e - 1) && NoneEndIn(d, t, e, |t|)
  }

  /** A stretch where no word ends, then a word of L runes ending at rune n. */
  lemma AcStreamSegment(d: set<Word>, t: seq<char>, L: nat, lo: nat, n: nat, s: seq<Word>)
    requires 1 <= L && lo + L <= n <= |t| && forall w :: w in d ==> |w| == L
    requires NoneEndIn(d, t, lo, n - 1) && t[n - L..n] in d
    requires AcStreamUpTo(d, t, lo) == s
    ensures AcStreamUpTo(d, t, n) == s + [t[n - L..n]]
  {
    var p := n - 1;
    AcStreamQuiet(d, t, lo, p);
    AcStreamHit(d, t, L, n);
  }

  /** Two such stretches in a row. */
  lemma AcStreamTwoSegments(d: set<Word>, t: seq<char>, L: nat, lo: nat, m: nat, n: nat, s: seq<Word>)
    requires 1 <= L && lo + L <= m && m + L <= n <= |t| && forall w :: w in d ==> |w| == L
    requires NoneEndIn(d, t, lo, m - 1) && t[m - L..m] in d
    requires NoneEndIn(d, t, m, n - 1) && t[n - L..n] in d
    requires AcStreamUpTo(d, t, lo) == s
    ensures AcStreamUpTo(d, t, n) == s + [t[m - L..m], t[n - L..n]]
  {
    var s' := s + [t[m - L..m]];
    AcStreamSegment(d, t, L, lo, m, s);
    AcStreamSegment(d, t, L, m, n, s');
  }

  lemma FourWordsStreamFirstHalf(d: set<Word>, t: seq<char>, L: nat, a: nat, b: nat, c: nat, e: nat)
    requires FourWordsShape(d, t, L, a, b, c, e)
    ensures AcStreamUpTo(d, t, b) == [t[a - L..a], t[b - L..b]]
  {
    AcStreamTwoSegments(d, t, L, 0, a, b, []);
  }

  lemma FourWordsStreamSecondHalf(d: set<Word>, t: seq<char>, L: nat, a: nat, b: nat, c: nat, e: nat, s: seq<Word>)
    requires FourWordsShape(d, t, L, a, b, c, e) && AcStreamUpTo(d, t, b) == s
    ensures AcStream(d, t) == s + [t[c - L..c], t[e - L..e]]
  {
    var z := |t|;
    AcStreamTwoSegments(d, t, L, b, c, e, s);
    AcStreamQuiet(d, t, e, z);
  }

  lemma FourWordsStream(d: set<Word>, t: seq<char>, L: nat, a: nat, b: nat, c: nat, e: nat)
    requires FourWordsShape(d, t, L, a, b, c, e)
    ensures AcStream(d, t) == [t[a - L..a], t[b - L..b], t[c - L..c], t[e - L..e]]
  {
    var s := [t[a - L..a], t[b - L..b]];
    FourWordsStreamFirstHalf(d, t, L, a, b, c, e);
    FourWordsStreamSecondHalf(d, t, L, a, b, c, e, s);
  }

  /** A stretch where no word ends, then a word of L runes ending at rune n, spliced off. */
  lemma AcRemoveSegment(d: set<Word>, t: seq<char>, L: nat, lo: nat, n: nat, x: seq<char>)
    requires 1 <= L && lo + L <= n <= |t| && forall w :: w in d ==> |w| == L
    requires NoneEndIn(d, t, lo, n - 1) && t[n - L..n] in d
    requires AcRemoveUpTo(d, t, lo) == Some(x)
    ensures AcRemoveUpTo(d, t, n) == Some(x + t[lo..n - L])
  {
    var p := n - 1;
    AcRemoveQuiet(d, t, lo, p, x);
    AcRemoveHit(d, t, L, n, lo, x);
  }

  /** Two such stretches in a row. */
  lemma AcRemoveTwoSegments(d: set<Word>, t: seq<char>, L: nat, lo: nat, m: nat, n: nat, x: seq<char>)
    requires 1 <= L && lo + L <= m && m + L <= n <= |t| && forall w :: w in d ==> |w| == L
    requires NoneEndIn(d, t, lo, m - 1) && t[m - L..m] in d
    requires NoneEndIn(d, t, m, n - 1) && t[n - L..n] in d
    requires AcRemoveUpTo(d, t, lo) == Some(x)
    ensures AcRemoveUpTo(d, t, n) == Some(x + t[lo..m - L] + t[m..n - L])
  {
    var y := x + t[lo..m - L];
    AcRemoveSegment(d, t, L, lo, m, x);
    AcRemoveSegment(d, t, L, m, n, y);
  }

  lemma FourWordsRemoveFirstHalf(d: set<Word>, t: seq<char>, L: nat, a: nat, b: nat, c: nat, e: nat)
    requires FourWordsShape(d, t, L, a, b, c, e)
    ensures AcRemoveUpTo(d, t, b) == Some(t[..a - L] + t[a..b - L])
  {
    AcRemoveTwoSegments(d, t, L, 0, a, b, []);
    assert [] + t[0..a - L] == t[..a - L];
  }

  lemma FourWordsRemoveSecondHalf(d: set<Word>, t: seq<char>, L: nat, a: nat, b: nat, c: nat, e: nat, o: seq<char>)
    requires FourWordsShape(d, t, L, a, b, c, e) && AcRemoveUpTo(d, t, b) == Some(o)
    ensures AcRemoveUpTo(d, t, e) == Some(o + t[b..c - L] + t[c..e - L])
  {
    AcRemoveTwoSegments(d, t, L, b, c, e, o);
  }

  /** Past the last word the rest of the text is kept. */
  lemma AcRemoveTail(d: set<Word>, t: seq<char>, e: nat, o: seq<char>)
    requires e <= |t| && NoneEndIn(d, t, e, |t|) && AcRemoveUpTo(d, t, e) == Some(o)
    ensures AcRemove(d, t) == Some(o + t[e..])
  {
    var z := |t|;
    assert t[e..z] == t[e..];
    AcRemoveQuiet(d, t, e, z, o);
  }

  lemma FourWordsRemove(d: set<Word>, t: seq<char>, L: nat, a: nat, b: nat, c: nat, e: nat)
    requires FourWordsShape(d, t, L, a, b, c, e)
    ensures AcRemove(d, t) == Some(t[..a - L] + t[a..b - L] + t[b..c - L] + t[c..e - L] + t[e..])
  {
    var o := t[..a - L] + t[a..b - L];
    var o' := o + t[b..c - L] + t[c..e - L];
    FourWordsRemoveFirstHalf(d, t, L, a, b, c, e);
    FourWordsRemoveSecondHalf(d, t, L, a, b, c, e, o);
    AcRemoveTail(d, t, e, o');
  }
}
