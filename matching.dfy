/**
 * What the two matchers compute, stated over the dictionary as a set of words
 * and independent of any trie: the stream of matches each scanner emits, and
 * the post-processing the six operations share (deduplication, tallying,
 * masking and deletion).
 */
module Matching {
  import opened Wrappers
  import opened Text

  type Word = seq<char>

  /** w is a nonempty word whose occurrence in text ends just before index e. */
  predicate EndsAt(w: Word, text: seq<char>, e: nat) {
    1 <= |w| <= e <= |text| && text[e - |w|..e] == w
  }

  /** w is a nonempty word whose occurrence in text starts at index s. */
  predicate StartsAt(w: Word, text: seq<char>, s: nat) {
    1 <= |w| && s + |w| <= |text| && text[s..s + |w|] == w
  }

  /** Some nonempty dictionary word occurs in text. */
  ghost predicate HasMatch(dict: set<Word>, text: seq<char>) {
    exists s, e :: 0 <= s < e <= |text| && text[s..e] in dict
  }

  lemma EndsAtIsOccurrence(dict: set<Word>, w: Word, text: seq<char>, e: nat)
    requires w in dict && EndsAt(w, text, e)
    ensures HasMatch(dict, text)
  {
    assert text[e - |w|..e] in dict;
  }

  // ---------------------------------------------------------------------------
  // The Aho-Corasick match stream: at each end position, the dictionary words
  // ending there, longest first.

  /** The dictionary words among the suffixes of s of lengths k, k - 1, ..., 1, in that order. */
  function SuffixWords(dict: set<Word>, s: seq<char>, k: nat): seq<Word>
    requires k <= |s|
    decreases k
  {
    if k == 0 then []
    else (if Suffix(s, k) in dict then [Suffix(s, k)] else []) + SuffixWords(dict, s, k - 1)
  }

  /** The words the Aho-Corasick scan reports after reading text[..n]. */
  function AcStreamUpTo(dict: set<Word>, text: seq<char>, n: nat): seq<Word>
    requires n <= |text|
  {
    if n == 0 then [] else AcStreamUpTo(dict, text, n - 1) + SuffixWords(dict, text[..n], n)
  }

  function AcStream(dict: set<Word>, text: seq<char>): seq<Word> {
    AcStreamUpTo(dict, text, |text|)
  }

  /** SuffixWords reports exactly the nonempty dictionary words of length at most k that end s. */
  lemma {:induction false} SuffixWordsMember(dict: set<Word>, s: seq<char>, k: nat, w: Word)
    requires k <= |s|
    ensures w in SuffixWords(dict, s, k) <==> w in dict && 1 <= |w| <= k && w == Suffix(s, |w|)
    decreases k
  {
    if k > 0 {
      SuffixWordsMember(dict, s, k - 1, w);
    }
  }

  /** SuffixWords lists longer words first, each at most once. */
  lemma {:induction false} SuffixWordsLongestFirst(dict: set<Word>, s: seq<char>, k: nat)
    requires k <= |s|
    ensures forall i :: 0 <= i < |SuffixWords(dict, s, k)| ==> 1 <= |SuffixWords(dict, s, k)[i]| <= k
    ensures forall i, j :: 0 <= i < j < |SuffixWords(dict, s, k)| ==>
      |SuffixWords(dict, s, k)[j]| < |SuffixWords(dict, s, k)[i]|
    decreases k
  {
    if k > 0 {
      SuffixWordsLongestFirst(dict, s, k - 1);
    }
  }

  /** SuffixWords of length at most k depends only on the last k codepoints. */
  lemma {:induction false} SuffixWordsShift(dict: set<Word>, s: seq<char>, t: seq<char>, k: nat)
    requires k <= |s| && k <= |t| && Suffix(s, k) == Suffix(t, k)
    ensures SuffixWords(dict, s, k) == SuffixWords(dict, t, k)
    decreases k
  {
    if k > 0 {
      assert Suffix(s, k - 1) == Suffix(s, k)[1..] == Suffix(t, k)[1..] == Suffix(t, k - 1);
      SuffixWordsShift(dict, s, t, k - 1);
    }
  }

  /** Lengths whose suffix is not a dictionary word contribute nothing. */
  lemma {:induction false} SuffixWordsSkip(dict: set<Word>, s: seq<char>, lo: nat, hi: nat)
    requires lo <= hi <= |s|
    requires forall k :: lo < k <= hi ==> Suffix(s, k) !in dict
    ensures SuffixWords(dict, s, hi) == SuffixWords(dict, s, lo)
    decreases hi
  {
    if hi > lo {
      SuffixWordsSkip(dict, s, lo, hi - 1);
    }
  }

  /** Soundness and completeness of the Aho-Corasick stream: it holds exactly the dictionary words occurring in the text. */
  lemma AcStreamMember(dict: set<Word>, text: seq<char>, n: nat, w: Word)
    requires n <= |text|
    ensures w in AcStreamUpTo(dict, text, n) <==> w in dict && exists e: nat :: e <= n && EndsAt(w, text, e)
  {
    if w in AcStreamUpTo(dict, text, n) {
      AcStreamSound(dict, text, n, w);
    }
    if w in dict && exists e: nat :: e <= n && EndsAt(w, text, e) {
      var e: nat :| e <= n && EndsAt(w, text, e);
      AcStreamComplete(dict, text, n, w, e);
    }
  }

  /** A reported word is a dictionary word ending at a position read. */
  lemma {:induction false} AcStreamSound(dict: set<Word>, text: seq<char>, n: nat, w: Word)
    requires n <= |text| && w in AcStreamUpTo(dict, text, n)
    ensures w in dict && exists e: nat :: e <= n && EndsAt(w, text, e)
    decreases n
  {
    AcStreamMemberStep(dict, text, n, w);
    if w in AcStreamUpTo(dict, text, n - 1) {
      AcStreamSound(dict, text, n - 1, w);
      var e: nat :| e <= n - 1 && EndsAt(w, text, e);
      assert e <= n;
    } else {
      assert EndsAt(w, text, n);
    }
  }

  /** A dictionary word ending at a position read is reported. */
  lemma {:induction false} AcStreamComplete(dict: set<Word>, text: seq<char>, n: nat, w: Word, e: nat)
    requires n <= |text| && w in dict && e <= n && EndsAt(w, text, e)
    ensures w in AcStreamUpTo(dict, text, n)
    decreases n
  {
    AcStreamMemberStep(dict, text, n, w);
    if e < n {
      AcStreamComplete(dict, text, n - 1, w, e);
    }
  }

  /** One more position read: w is reported so far iff it was before or it ends here. */
  lemma AcStreamMemberStep(dict: set<Word>, text: seq<char>, n: nat, w: Word)
    requires 0 < n <= |text|
    ensures w in AcStreamUpTo(dict, text, n) <==> w in AcStreamUpTo(dict, text, n - 1) || (w in dict && EndsAt(w, text, n))
  {
    var here := SuffixWords(dict, text[..n], n);
    assert AcStreamUpTo(dict, text, n) == AcStreamUpTo(dict, text, n - 1) + here;
    SuffixWordsMember(dict, text[..n], n, w);
    if 1 <= |w| <= n {
      assert Suffix(text[..n], |w|) == text[n - |w|..n];
    }
  }

  /** Every reported word is a nonempty dictionary word. */
  lemma {:induction false} AcStreamWords(dict: set<Word>, text: seq<char>, n: nat)
    requires n <= |text|
    ensures forall i :: 0 <= i < |AcStreamUpTo(dict, text, n)| ==>
      AcStreamUpTo(dict, text, n)[i] in dict && AcStreamUpTo(dict, text, n)[i] != []
    decreases n
  {
    if n > 0 {
      AcStreamWords(dict, text, n - 1);
      SuffixWordsLongestFirst(dict, text[..n], n);
      forall w | w in SuffixWords(dict, text[..n], n) ensures w in dict {
        SuffixWordsMember(dict, text[..n], n, w);
      }
    }
  }

  /** The stream is empty exactly when no nonempty dictionary word occurs. */
  lemma AcStreamEmpty(dict: set<Word>, text: seq<char>)
    ensures AcStream(dict, text) == [] <==> !HasMatch(dict, text)
  {
    if AcStream(dict, text) != [] {
      var w := AcStream(dict, text)[0];
      AcStreamMember(dict, text, |text|, w);
      var e: nat :| e <= |text| && EndsAt(w, text, e);
      EndsAtIsOccurrence(dict, w, text, e);
    }
    if HasMatch(dict, text) {
      var s, e :| 0 <= s < e <= |text| && text[s..e] in dict;
      AcStreamMember(dict, text, |text|, text[s..e]);
      assert EndsAt(text[s..e], text, e);
    }
  }

  /**
   * While nothing has been reported, the first words reported are the ones
   * ending at the next position, and the first of them begins the stream.
   */
  lemma AcStreamFirstStep(dict: set<Word>, text: seq<char>, n: nat)
    requires n < |text| && AcStreamUpTo(dict, text, n) == []
    ensures AcStreamUpTo(dict, text, n + 1) == SuffixWords(dict, text[..n + 1], n + 1)
    ensures AcStreamUpTo(dict, text, n + 1) != [] ==> FirstOrEmpty(AcStream(dict, text)) == AcStreamUpTo(dict, text, n + 1)[0]
  {
    AcStreamAfterNothing(dict, text, n);
    if AcStreamUpTo(dict, text, n + 1) != [] {
      AcStreamFirstOf(dict, text, n + 1);
    }
  }

  lemma AcStreamAfterNothing(dict: set<Word>, text: seq<char>, n: nat)
    requires n < |text| && AcStreamUpTo(dict, text, n) == []
    ensures AcStreamUpTo(dict, text, n + 1) == SuffixWords(dict, text[..n + 1], n + 1)
  {
    assert AcStreamUpTo(dict, text, n + 1) == [] + SuffixWords(dict, text[..n + 1], n + 1);
  }

  /** A stream read so far that is not empty already holds the first word reported. */
  lemma AcStreamFirstOf(dict: set<Word>, text: seq<char>, n: nat)
    requires n <= |text| && AcStreamUpTo(dict, text, n) != []
    ensures FirstOrEmpty(AcStream(dict, text)) == AcStreamUpTo(dict, text, n)[0]
  {
    AcStreamPrefix(dict, text, n, |text|);
  }

  /** Reading more text only appends to the stream. */
  lemma {:induction false} AcStreamPrefix(dict: set<Word>, text: seq<char>, n: nat, m: nat)
    requires n <= m <= |text|
    ensures AcStreamUpTo(dict, text, n) <= AcStreamUpTo(dict, text, m)
    decreases m
  {
    if n < m {
      AcStreamPrefix(dict, text, n, m - 1);
      var a := AcStreamUpTo(dict, text, n);
      var b := AcStreamUpTo(dict, text, m - 1);
      var d := b + SuffixWords(dict, text[..m], m);
      assert AcStreamUpTo(dict, text, m) == d;
      assert d[..|a|] == b[..|a|] == a;
    }
  }

  /** Number of end positions e <= n at which w occurs. */
  function CountEnds(w: Word, text: seq<char>, n: nat): nat
    requires n <= |text|
  {
    if n == 0 then 0 else CountEnds(w, text, n - 1) + (if EndsAt(w, text, n) then 1 else 0)
  }

  /** Number of start positions s < n at which w occurs. */
  function CountStarts(w: Word, text: seq<char>, n: nat): nat
    requires n <= |text|
  {
    if n == 0 then 0 else CountStarts(w, text, n - 1) + (if StartsAt(w, text, n - 1) then 1 else 0)
  }

  lemma {:induction false} SuffixWordsCount(dict: set<Word>, s: seq<char>, k: nat, w: Word)
    requires k <= |s|
    ensures multiset(SuffixWords(dict, s, k))[w] ==
      if w in dict && 1 <= |w| <= k && w == Suffix(s, |w|) then 1 else 0
    decreases k
  {
    if k > 0 {
      SuffixWordsCount(dict, s, k - 1, w);
      var head := if Suffix(s, k) in dict then [Suffix(s, k)] else [];
      var rest := SuffixWords(dict, s, k - 1);
      assert SuffixWords(dict, s, k) == head + rest;
      assert multiset(head + rest)[w] == multiset(head)[w] + multiset(rest)[w];
      assert multiset(head)[w] == if w in dict && |w| == k && w == Suffix(s, k) then 1 else 0;
    }
  }

  /** Each occurrence of a dictionary word is reported once: at the position where it ends. */
  lemma {:induction false} AcStreamCount(dict: set<Word>, text: seq<char>, n: nat, w: Word)
    requires n <= |text|
    ensures multiset(AcStreamUpTo(dict, text, n))[w] == if w in dict then CountEnds(w, text, n) else 0
    decreases n
  {
    if n > 0 {
      AcStreamCount(dict, text, n - 1, w);
      SuffixWordsCount(dict, text[..n], n, w);
      if 1 <= |w| <= n {
        assert Suffix(text[..n], |w|) == text[n - |w|..n];
      }
    }
  }

  /**
   * The first reported word, and the position e it ends at: no dictionary word
   * ends before e, and none ending at e is longer.
   */
  lemma {:induction false} AcStreamFirst(dict: set<Word>, text: seq<char>, n: nat) returns (e: nat)
    requires n <= |text| && AcStreamUpTo(dict, text, n) != []
    ensures e <= n && AcStreamUpTo(dict, text, n)[0] in dict && EndsAt(AcStreamUpTo(dict, text, n)[0], text, e)
    ensures forall w, e': nat :: w in dict && EndsAt(w, text, e') ==> e <= e'
    ensures forall w :: w in dict && EndsAt(w, text, e) ==> |w| <= |AcStreamUpTo(dict, text, n)[0]|
    decreases n
  {
    var prev := AcStreamUpTo(dict, text, n - 1);
    var here := SuffixWords(dict, text[..n], n);
    assert AcStreamUpTo(dict, text, n) == prev + here;
    if prev != [] {
      e := AcStreamFirst(dict, text, n - 1);
      assert AcStreamUpTo(dict, text, n)[0] == prev[0];
    } else {
      e := n;
      assert AcStreamUpTo(dict, text, n)[0] == here[0];
      AcStreamEmptyUpTo(dict, text, n - 1);
      FirstEndingAt(dict, text, n);
    }
  }

  /** The first word reported at end position n is a dictionary word ending there, and the longest one. */
  lemma FirstEndingAt(dict: set<Word>, text: seq<char>, n: nat)
    requires 0 < n <= |text| && SuffixWords(dict, text[..n], n) != []
    ensures SuffixWords(dict, text[..n], n)[0] in dict && EndsAt(SuffixWords(dict, text[..n], n)[0], text, n)
    ensures forall w :: w in dict && EndsAt(w, text, n) ==> |w| <= |SuffixWords(dict, text[..n], n)[0]|
  {
    var here := SuffixWords(dict, text[..n], n);
    var w0 := here[0];
    SuffixWordsMember(dict, text[..n], n, w0);
    EndsAtSuffix(w0, text, n);
    SuffixWordsFirst(dict, text[..n], n);
    forall w | w in dict && EndsAt(w, text, n) ensures |w| <= |w0| {
      EndsAtSuffix(w, text, n);
    }
  }

  /** A word ends at n exactly when it is a nonempty suffix of text[..n]. */
  lemma EndsAtSuffix(w: Word, text: seq<char>, n: nat)
    requires n <= |text|
    ensures EndsAt(w, text, n) <==> 1 <= |w| <= n && w == Suffix(text[..n], |w|)
  {
    if |w| <= n {
      assert Suffix(text[..n], |w|) == text[n - |w|..n];
    }
  }

  /** The first word SuffixWords lists is the longest dictionary word ending s. */
  lemma SuffixWordsFirst(dict: set<Word>, s: seq<char>, k: nat)
    requires k <= |s| && SuffixWords(dict, s, k) != []
    ensures forall w :: w in dict && 1 <= |w| <= k && w == Suffix(s, |w|) ==> |w| <= |SuffixWords(dict, s, k)[0]|
  {
    var here := SuffixWords(dict, s, k);
    forall w | w in dict && 1 <= |w| <= k && w == Suffix(s, |w|) ensures |w| <= |here[0]| {
      SuffixWordsMember(dict, s, k, w);
      SuffixWordsLongestFirst(dict, s, k);
      var i :| 0 <= i < |here| && here[i] == w;
      assert i == 0 || |here[i]| < |here[0]|;
    }
  }

  /** An empty stream after text[..n] means no dictionary word ends by n. */
  lemma AcStreamEmptyUpTo(dict: set<Word>, text: seq<char>, n: nat)
    requires n <= |text| && AcStreamUpTo(dict, text, n) == []
    ensures forall w, e: nat :: w in dict && EndsAt(w, text, e) ==> n < e
  {
    forall w, e: nat | w in dict && EndsAt(w, text, e) && e <= n ensures false {
      AcStreamMember(dict, text, n, w);
    }
  }

  // ---------------------------------------------------------------------------
  // The trie-walk ("DFA") match stream: for each start position, the
  // dictionary words starting there, shortest first.

  /** The dictionary words text[s..j] for s < j <= e, by increasing j. */
  function StartWords(dict: set<Word>, text: seq<char>, s: nat, e: nat): seq<Word>
    requires s <= e <= |text|
    decreases e - s
  {
    if e == s then [] else StartWords(dict, text, s, e - 1) + (if text[s..e] in dict then [text[s..e]] else [])
  }

  /** The words the trie walk records from the start positions before n. */
  function DfaStreamUpTo(dict: set<Word>, text: seq<char>, n: nat): seq<Word>
    requires n <= |text|
  {
    if n == 0 then [] else DfaStreamUpTo(dict, text, n - 1) + StartWords(dict, text, n - 1, |text|)
  }

  function DfaStream(dict: set<Word>, text: seq<char>): seq<Word> {
    DfaStreamUpTo(dict, text, |text|)
  }

  lemma {:induction false} StartWordsMember(dict: set<Word>, text: seq<char>, s: nat, e: nat, w: Word)
    requires s <= e <= |text|
    ensures w in StartWords(dict, text, s, e) <==> w in dict && StartsAt(w, text, s) && s + |w| <= e
    decreases e - s
  {
    if e > s {
      StartWordsMember(dict, text, s, e - 1, w);
    }
  }

  /** StartWords lists shorter words first, each at most once. */
  lemma {:induction false} StartWordsShortestFirst(dict: set<Word>, text: seq<char>, s: nat, e: nat)
    requires s <= e <= |text|
    ensures forall i :: 0 <= i < |StartWords(dict, text, s, e)| ==>
      1 <= |StartWords(dict, text, s, e)[i]| <= e - s
    ensures forall i, j :: 0 <= i < j < |StartWords(dict, text, s, e)| ==>
      |StartWords(dict, text, s, e)[i]| < |StartWords(dict, text, s, e)[j]|
    decreases e - s
  {
    if e > s {
      StartWordsShortestFirst(dict, text, s, e - 1);
    }
  }

  lemma {:induction false} StartWordsCount(dict: set<Word>, text: seq<char>, s: nat, e: nat, w: Word)
    requires s <= e <= |text|
    ensures multiset(StartWords(dict, text, s, e))[w] ==
      if w in dict && StartsAt(w, text, s) && s + |w| <= e then 1 else 0
    decreases e - s
  {
    if e > s {
      StartWordsCount(dict, text, s, e - 1, w);
      var rest := StartWords(dict, text, s, e - 1);
      var last := if text[s..e] in dict then [text[s..e]] else [];
      assert StartWords(dict, text, s, e) == rest + last;
      assert multiset(rest + last)[w] == multiset(rest)[w] + multiset(last)[w];
      if s + |w| == e {
        assert StartsAt(w, text, s) <==> w == text[s..e];
        assert multiset(last)[w] == if w in dict && w == text[s..e] then 1 else 0;
      } else {
        assert w != text[s..e];
      }
    }
  }

  /** Soundness and completeness of the trie-walk stream. */
  lemma {:induction false} DfaStreamMember(dict: set<Word>, text: seq<char>, n: nat, w: Word)
    requires n <= |text|
    ensures w in DfaStreamUpTo(dict, text, n) <==> w in dict && exists s: nat :: s < n && StartsAt(w, text, s)
    decreases n
  {
    if n > 0 {
      var prev := DfaStreamUpTo(dict, text, n - 1);
      var here := StartWords(dict, text, n - 1, |text|);
      assert DfaStreamUpTo(dict, text, n) == prev + here;
      DfaStreamMember(dict, text, n - 1, w);
      StartWordsMember(dict, text, n - 1, |text|, w);
      assert w in here <==> w in dict && StartsAt(w, text, n - 1);
      if w in dict && exists s: nat :: s < n && StartsAt(w, text, s) {
        var s: nat :| s < n && StartsAt(w, text, s);
        if s < n - 1 {
          assert w in prev;
        }
      }
    }
  }

  /** Each occurrence of a dictionary word is recorded once: from the position where it starts. */
  lemma {:induction false} DfaStreamCount(dict: set<Word>, text: seq<char>, n: nat, w: Word)
    requires n <= |text|
    ensures multiset(DfaStreamUpTo(dict, text, n))[w] == if w in dict then CountStarts(w, text, n) else 0
    decreases n
  {
    if n > 0 {
      DfaStreamCount(dict, text, n - 1, w);
      DfaStreamCountStep(dict, text, n, w);
      StartWordsCount(dict, text, n - 1, |text|, w);
      var a := multiset(DfaStreamUpTo(dict, text, n - 1))[w];
      var b := multiset(StartWords(dict, text, n - 1, |text|))[w];
      assert multiset(DfaStreamUpTo(dict, text, n))[w] == a + b;
      if w in dict {
        assert a == CountStarts(w, text, n - 1);
        if StartsAt(w, text, n - 1) {
          assert n - 1 + |w| <= |text|;
          assert b == 1;
        } else {
          assert b == 0;
        }
      } else {
        assert a == 0 && b == 0;
      }
    }
  }

  lemma DfaStreamCountStep(dict: set<Word>, text: seq<char>, n: nat, w: Word)
    requires 0 < n <= |text|
    ensures multiset(DfaStreamUpTo(dict, text, n))[w] ==
      multiset(DfaStreamUpTo(dict, text, n - 1))[w] + multiset(StartWords(dict, text, n - 1, |text|))[w]
  {
    var prev := DfaStreamUpTo(dict, text, n - 1);
    var here := StartWords(dict, text, n - 1, |text|);
    assert DfaStreamUpTo(dict, text, n) == prev + here;
    assert multiset(prev + here) == multiset(prev) + multiset(here);
  }

  lemma DfaStreamEmpty(dict: set<Word>, text: seq<char>)
    ensures DfaStream(dict, text) == [] <==> !HasMatch(dict, text)
  {
    if DfaStream(dict, text) != [] {
      var w := DfaStream(dict, text)[0];
      DfaStreamMember(dict, text, |text|, w);
      var s: nat :| s < |text| && StartsAt(w, text, s);
      assert text[s..s + |w|] in dict;
    }
    if HasMatch(dict, text) {
      var s, e :| 0 <= s < e <= |text| && text[s..e] in dict;
      DfaStreamMember(dict, text, |text|, text[s..e]);
      assert StartsAt(text[s..e], text, s);
    }
  }

  lemma {:induction false} DfaStreamPrefix(dict: set<Word>, text: seq<char>, n: nat, m: nat)
    requires n <= m <= |text|
    ensures DfaStreamUpTo(dict, text, n) <= DfaStreamUpTo(dict, text, m)
    decreases m
  {
    if n < m {
      DfaStreamPrefix(dict, text, n, m - 1);
    }
  }

  /**
   * The first recorded word, and the position s it starts at: no dictionary
   * word starts before s, and none starting at s is shorter.
   */
  lemma {:induction false} DfaStreamFirst(dict: set<Word>, text: seq<char>, n: nat) returns (s: nat)
    requires n <= |text| && DfaStreamUpTo(dict, text, n) != []
    ensures s < n && DfaStreamUpTo(dict, text, n)[0] in dict && StartsAt(DfaStreamUpTo(dict, text, n)[0], text, s)
    ensures forall w, s': nat :: w in dict && StartsAt(w, text, s') ==> s <= s'
    ensures forall w :: w in dict && StartsAt(w, text, s) ==> |DfaStreamUpTo(dict, text, n)[0]| <= |w|
    decreases n
  {
    var p := n - 1;
    var prev := DfaStreamUpTo(dict, text, p);
    var here := StartWords(dict, text, p, |text|);
    assert DfaStreamUpTo(dict, text, n) == prev + here;
    if prev != [] {
      s := DfaStreamFirst(dict, text, p);
    } else {
      s := p;
      var w0 := here[0];
      StartWordsMember(dict, text, s, |text|, w0);
      forall w, s': nat | w in dict && StartsAt(w, text, s') ensures s <= s' {
        if s' < s {
          DfaStreamMember(dict, text, p, w);
        }
      }
      forall w | w in dict && StartsAt(w, text, s) ensures |w0| <= |w| {
        StartWordsMember(dict, text, s, |text|, w);
        StartWordsShortestFirst(dict, text, s, |text|);
        var i :| 0 <= i < |here| && here[i] == w;
        assert i == 0 || |here[0]| < |here[i]|;
      }
    }
  }

  /** Beyond the last dictionary word starting at s before hi, StartWords gains nothing. */
  lemma {:induction false} StartWordsNoneBeyond(dict: set<Word>, text: seq<char>, s: nat, lo: nat, hi: nat)
    requires s <= lo <= hi <= |text|
    requires forall e :: lo < e <= hi ==> text[s..e] !in dict
    ensures StartWords(dict, text, s, hi) == StartWords(dict, text, s, lo)
    decreases hi - lo
  {
    if lo < hi {
      StartWordsNoneBeyond(dict, text, s, lo, hi - 1);
    }
  }

  lemma {:induction false} StartWordsPrefix(dict: set<Word>, text: seq<char>, s: nat, lo: nat, hi: nat)
    requires s <= lo <= hi <= |text|
    ensures StartWords(dict, text, s, lo) <= StartWords(dict, text, s, hi)
    decreases hi - lo
  {
    if lo < hi {
      StartWordsPrefix(dict, text, s, lo, hi - 1);
    }
  }

  /** Once every word starting at s is recorded, the stream has moved on to start s + 1. */
  lemma DfaStreamRestart(dict: set<Word>, text: seq<char>, s: nat)
    requires s < |text|
    ensures DfaStreamUpTo(dict, text, s) + StartWords(dict, text, s, |text|) ==
      DfaStreamUpTo(dict, text, s + 1) + StartWords(dict, text, s + 1, s + 1)
  {
    assert DfaStreamUpTo(dict, text, s + 1) == DfaStreamUpTo(dict, text, s) + StartWords(dict, text, s, |text|);
  }

  /**
   * With nothing recorded from the starts before s, nor from s before e, a
   * dictionary word text[s..e] is the first word of the whole stream.
   */
  lemma DfaFirstAt(dict: set<Word>, text: seq<char>, s: nat, e: nat)
    requires s < e <= |text| && text[s..e] in dict
    requires DfaStreamUpTo(dict, text, s) == [] && StartWords(dict, text, s, e - 1) == []
    ensures FirstOrEmpty(DfaStream(dict, text)) == text[s..e]
  {
    assert StartWords(dict, text, s, e) == [text[s..e]];
    StartWordsPrefix(dict, text, s, e, |text|);
    assert DfaStreamUpTo(dict, text, s + 1) == StartWords(dict, text, s, |text|);
    DfaStreamPrefix(dict, text, s + 1, |text|);
  }

  // ---------------------------------------------------------------------------
  // The two streams report the same occurrences.

  lemma {:induction false} CountEndsStarts(w: Word, text: seq<char>, n: nat)
    requires 1 <= |w| && n <= |text|
    ensures CountEnds(w, text, n) == CountStarts(w, text, if n < |w| then 0 else n - |w| + 1)
    decreases n
  {
    if n > 0 {
      CountEndsStarts(w, text, n - 1);
    }
  }

  lemma {:induction false} CountStartsTail(w: Word, text: seq<char>, n: nat)
    requires 1 <= |w| <= |text| && |text| - |w| + 1 <= n <= |text|
    ensures CountStarts(w, text, n) == CountStarts(w, text, |text| - |w| + 1)
    decreases n
  {
    if n > |text| - |w| + 1 {
      CountStartsTail(w, text, n - 1);
    }
  }

  lemma CountStartsShort(w: Word, text: seq<char>, n: nat)
    requires |text| < |w| && n <= |text|
    ensures CountStarts(w, text, n) == 0
  {
    if n > 0 {
      CountStartsShort(w, text, n - 1);
    }
  }

  /** Both scanners find every occurrence exactly once: their streams are permutations of each other. */
  lemma AcDfaSameOccurrences(dict: set<Word>, text: seq<char>)
    ensures multiset(AcStream(dict, text)) == multiset(DfaStream(dict, text))
  {
    forall w
      ensures multiset(AcStream(dict, text))[w] == multiset(DfaStream(dict, text))[w]
    {
      AcStreamCount(dict, text, |text|, w);
      DfaStreamCount(dict, text, |text|, w);
      if w in dict && w != [] {
        CountEndsStarts(w, text, |text|);
        if |w| <= |text| {
          CountStartsTail(w, text, |text|);
        } else {
          CountStartsShort(w, text, |text|);
        }
      } else if w in dict {
        CountEndsEmpty(text, |text|);
        CountStartsEmpty(text, |text|);
      }
    }
  }

  lemma CountEndsEmpty(text: seq<char>, n: nat)
    requires n <= |text|
    ensures CountEnds([], text, n) == 0
  {
    if n > 0 {
      CountEndsEmpty(text, n - 1);
    }
  }

  lemma CountStartsEmpty(text: seq<char>, n: nat)
    requires n <= |text|
    ensures CountStarts([], text, n) == 0
  {
    if n > 0 {
      CountStartsEmpty(text, n - 1);
    }
  }

  // ---------------------------------------------------------------------------
  // Deduplication in first-occurrence order (FindAll's final loop)

  function Dedup(ms: seq<Word>): seq<Word>
    decreases |ms|
  {
    if ms == [] then []
    else
      var d := Dedup(ms[..|ms| - 1]);
      if ms[|ms| - 1] in d then d else d + [ms[|ms| - 1]]
  }

  /** The index of the first occurrence of w in ms. */
  function FirstIndex(ms: seq<Word>, w: Word): (k: nat)
    requires w in ms
    ensures k < |ms| && ms[k] == w && w !in ms[..k]
  {
    if ms[0] == w then 0 else 1 + FirstIndex(ms[1..], w)
  }

  /** Dedup keeps exactly the elements of ms, once each, in the order of their first occurrences. */
  lemma {:induction false} DedupSpec(ms: seq<Word>)
    ensures forall w :: w in Dedup(ms) <==> w in ms
    ensures forall i, j :: 0 <= i < j < |Dedup(ms)| ==> Dedup(ms)[i] != Dedup(ms)[j]
    ensures forall i, j :: 0 <= i < j < |Dedup(ms)| ==>
      FirstIndex(ms, Dedup(ms)[i]) < FirstIndex(ms, Dedup(ms)[j])
    decreases |ms|
  {
    if ms != [] {
      var init := ms[..|ms| - 1];
      var x := ms[|ms| - 1];
      DedupSpec(init);
      assert ms == init + [x];
      forall w | w in init ensures FirstIndex(ms, w) == FirstIndex(init, w) {
        var k := FirstIndex(init, w);
        assert ms[..k] == init[..k];
        FirstIndexUnique(ms, w, k);
      }
      if x !in init {
        FirstIndexUnique(ms, x, |ms| - 1);
      }
    }
  }

  lemma FirstIndexUnique(ms: seq<Word>, w: Word, k: nat)
    requires k < |ms| && ms[k] == w && w !in ms[..k]
    ensures FirstIndex(ms, w) == k
  {
  }

  /** The source's deduplication loop over the collected matches (a set of seen words and an output slice). */
  method Distinct(matches: seq<Word>) returns (res: seq<Word>)
    ensures res == Dedup(matches)
  {
    res := [];
    var seen: set<Word> := {};
    var i := 0;
    while i < |matches|
      invariant i <= |matches|
      invariant res == Dedup(matches[..i])
      invariant forall w :: w in seen <==> w in res
    {
      var w := matches[i];
      assert matches[..i + 1][..i] == matches[..i];
      if w !in seen {
        seen := seen + {w};
        res := res + [w];
      }
      i := i + 1;
    }
    assert matches[..i] == matches;
  }

  // ---------------------------------------------------------------------------
  // Tallying (FindAllCount's `res[word]++`)

  function Tally(ms: seq<Word>): map<Word, nat>
    decreases |ms|
  {
    if ms == [] then map[]
    else
      var t := Tally(ms[..|ms| - 1]);
      var w := ms[|ms| - 1];
      t[w := (if w in t then t[w] else 0) + 1]
  }

  /** The tally has a key for every element of ms, mapped to its multiplicity. */
  lemma {:induction false} TallySpec(ms: seq<Word>)
    ensures forall w :: w in Tally(ms) <==> w in ms
    ensures forall w :: w in Tally(ms) ==> Tally(ms)[w] == multiset(ms)[w]
    decreases |ms|
  {
    if ms != [] {
      var init := ms[..|ms| - 1];
      assert ms == init + [ms[|ms| - 1]];
      TallySpec(init);
    }
  }

  lemma TallySnoc(ms: seq<Word>, w: Word)
    ensures Tally(ms + [w]) == Tally(ms)[w := (if w in Tally(ms) then Tally(ms)[w] else 0) + 1]
  {
    assert (ms + [w])[..|ms|] == ms;
  }

  /** Tallies that agree on multiplicities are equal. */
  lemma TallyOfMultiset(a: seq<Word>, b: seq<Word>)
    requires multiset(a) == multiset(b)
    ensures Tally(a) == Tally(b)
  {
    TallySpec(a);
    TallySpec(b);
    forall w ensures w in a <==> w in b {
      assert w in a <==> w in multiset(a);
      assert w in b <==> w in multiset(b);
    }
  }

  /** Both engines' FindAllCount report the same counts, and FindAll the same set of words. */
  lemma EnginesAgreeOnCounts(dict: set<Word>, text: seq<char>)
    ensures Tally(AcStream(dict, text)) == Tally(DfaStream(dict, text))
    ensures forall w :: w in Dedup(AcStream(dict, text)) <==> w in Dedup(DfaStream(dict, text))
  {
    AcDfaSameOccurrences(dict, text);
    TallyOfMultiset(AcStream(dict, text), DfaStream(dict, text));
    DedupSpec(AcStream(dict, text));
    DedupSpec(DfaStream(dict, text));
    forall w ensures w in AcStream(dict, text) <==> w in DfaStream(dict, text) {
      assert w in AcStream(dict, text) <==> w in multiset(AcStream(dict, text));
      assert w in DfaStream(dict, text) <==> w in multiset(DfaStream(dict, text));
    }
  }

  /** The source's `res[word]++` over a batch of reported words. */
  method AddCounts(counts: map<Word, nat>, ghost before: seq<Word>, ws: seq<Word>) returns (res: map<Word, nat>)
    requires counts == Tally(before)
    ensures res == Tally(before + ws)
  {
    res := counts;
    var j := 0;
    assert before + ws[..0] == before;
    while j < |ws|
      invariant j <= |ws| && res == Tally(before + ws[..j])
    {
      TallySnoc(before + ws[..j], ws[j]);
      assert before + ws[..j + 1] == (before + ws[..j]) + [ws[j]];
      res := res[ws[j] := (if ws[j] in res then res[ws[j]] else 0) + 1];
      j := j + 1;
    }
    assert ws[..j] == ws;
  }

  /** FindOne's answer: the first element of a stream, or the empty string. */
  function FirstOrEmpty(ms: seq<Word>): Word {
    if ms == [] then [] else ms[0]
  }

  // ---------------------------------------------------------------------------
  // Deletion

  /** The length of the longest prefix of w shorter than i that is a dictionary word (DelWord's `lastLeaf`). */
  function DeepestPrefixIn(dict: set<Word>, w: Word, i: nat): (r: Option<nat>)
    requires i <= |w|
    ensures r.Some? ==> r.value < i && w[..r.value] in dict && forall k :: r.value < k < i ==> w[..k] !in dict
    ensures r.None? ==> forall k :: 0 <= k < i ==> w[..k] !in dict
  {
    if i == 0 then None
    else if w[..i - 1] in dict then Some(i - 1)
    else DeepestPrefixIn(dict, w, i - 1)
  }

  // ---------------------------------------------------------------------------
  // Masking

  /** Position j lies in an occurrence of a nonempty dictionary word that ends by index n. */
  ghost predicate CoveredUpTo(dict: set<Word>, text: seq<char>, j: nat, n: nat)
    requires n <= |text|
  {
    exists s, e :: 0 <= s <= j < e <= n && text[s..e] in dict
  }

  ghost predicate Covered(dict: set<Word>, text: seq<char>, j: nat) {
    CoveredUpTo(dict, text, j, |text|)
  }

  /** The text with every position that lies in an occurrence of a dictionary word replaced by repl. */
  ghost function MaskAll(dict: set<Word>, text: seq<char>, repl: char): (r: seq<char>)
    ensures |r| == |text|
  {
    seq(|text|, j requires 0 <= j < |text| => if Covered(dict, text, j) then repl else text[j])
  }

  /** Position j lies among the last |w| positions before e, for some w in ws. */
  ghost predicate EndsWithin(ws: seq<Word>, j: int, e: int) {
    exists k :: 0 <= k < |ws| && e - |ws[k]| <= j < e
  }

  lemma EndsWithinSnoc(ws: seq<Word>, w: Word, j: int, e: int)
    ensures EndsWithin(ws + [w], j, e) <==> EndsWithin(ws, j, e) || e - |w| <= j < e
  {
    if EndsWithin(ws + [w], j, e) && !(e - |w| <= j < e) {
      var k :| 0 <= k < |ws| + 1 && e - |(ws + [w])[k]| <= j < e;
      assert (ws + [w])[k] == ws[k];
    }
    if EndsWithin(ws, j, e) {
      var k :| 0 <= k < |ws| && e - |ws[k]| <= j < e;
      assert (ws + [w])[k] == ws[k];
    }
    if e - |w| <= j < e {
      assert (ws + [w])[|ws|] == w;
    }
  }

  /**
   * The masking loops of the Aho-Corasick Replace for the words reported at
   * end e: every position among the last |w| before e, for each reported w,
   * becomes repl; every other position keeps its rune.
   */
  method MaskEnding(runes: array<char>, ws: seq<Word>, e: nat, repl: char)
    requires e <= runes.Length && forall k :: 0 <= k < |ws| ==> |ws[k]| <= e
    modifies runes
    ensures forall j :: 0 <= j < runes.Length ==> runes[j] == if EndsWithin(ws, j, e) then repl else old(runes[j])
  {
    var m := 0;
    while m < |ws|
      invariant m <= |ws|
      invariant forall j :: 0 <= j < runes.Length ==> runes[j] == if EndsWithin(ws[..m], j, e) then repl else old(runes[j])
    {
      var i := e - |ws[m]|;
      while i < e
        invariant e - |ws[m]| <= i <= e
        invariant forall j :: 0 <= j < runes.Length ==>
          runes[j] == if EndsWithin(ws[..m], j, e) || e - |ws[m]| <= j < i then repl else old(runes[j])
      {
        runes[i] := repl;
        i := i + 1;
      }
      assert ws[..m + 1] == ws[..m] + [ws[m]];
      forall j | 0 <= j < runes.Length
        ensures EndsWithin(ws[..m + 1], j, e) <==> EndsWithin(ws[..m], j, e) || e - |ws[m]| <= j < e
      {
        EndsWithinSnoc(ws[..m], ws[m], j, e);
      }
      m := m + 1;
    }
    assert ws[..m] == ws;
  }

  /**
   * Reading one more rune covers exactly the positions of the words reported
   * there: j is covered by an occurrence ending by pos + 1 iff it was covered
   * by one ending by pos, or lies in a word ending at pos + 1.
   */
  lemma CoveredStep(dict: set<Word>, text: seq<char>, j: nat, pos: nat)
    requires pos < |text|
    ensures CoveredUpTo(dict, text, j, pos + 1) <==>
      CoveredUpTo(dict, text, j, pos) || EndsWithin(SuffixWords(dict, text[..pos + 1], pos + 1), j, pos + 1)
  {
    var n := pos + 1;
    if CoveredUpTo(dict, text, j, n) && !CoveredUpTo(dict, text, j, pos) {
      CoveredByNewEnding(dict, text, j, n);
    }
    if EndsWithin(SuffixWords(dict, text[..n], n), j, n) {
      EndingCovers(dict, text, j, n);
    }
  }

  /** A position first covered after rune n lies in a word reported there. */
  lemma CoveredByNewEnding(dict: set<Word>, text: seq<char>, j: nat, n: nat)
    requires 0 < n <= |text| && CoveredUpTo(dict, text, j, n) && !CoveredUpTo(dict, text, j, n - 1)
    ensures EndsWithin(SuffixWords(dict, text[..n], n), j, n)
  {
    var t := text[..n];
    var s, e :| 0 <= s <= j < e <= n && text[s..e] in dict;
    var w := text[s..e];
    assert e == n;
    assert w == Suffix(t, |w|);
    SuffixWordsMember(dict, t, n, w);
  }

  /** A position inside a word reported after rune n is covered by n. */
  lemma EndingCovers(dict: set<Word>, text: seq<char>, j: nat, n: nat)
    requires 0 < n <= |text| && EndsWithin(SuffixWords(dict, text[..n], n), j, n)
    ensures CoveredUpTo(dict, text, j, n)
  {
    var ws := SuffixWords(dict, text[..n], n);
    var k :| 0 <= k < |ws| && n - |ws[k]| <= j < n;
    var w := ws[k];
    SuffixWordsMember(dict, text[..n], n, w);
    var s0 := n - |w|;
    assert text[s0..n] == Suffix(text[..n], |w|) == w;
    assert 0 <= s0 <= j < n <= n && text[s0..n] in dict;
  }

  /** The Replace scan's buffer after reading text[..pos]: positions covered so far are masked. */
  ghost function MaskedUpTo(dict: set<Word>, text: seq<char>, pos: nat, repl: char): (r: seq<char>)
    requires pos <= |text|
    ensures |r| == |text|
  {
    seq(|text|, j requires 0 <= j < |text| => if j < pos && CoveredUpTo(dict, text, j, pos) then repl else text[j])
  }

  lemma MaskedNothing(dict: set<Word>, text: seq<char>, repl: char)
    ensures MaskedUpTo(dict, text, 0, repl) == text
  {
  }

  lemma MaskedEverything(dict: set<Word>, text: seq<char>, repl: char)
    ensures MaskedUpTo(dict, text, |text|, repl) == MaskAll(dict, text, repl)
  {
  }

  /** Masking the runes of the words reported at pos + 1 advances the masked buffer by one position. */
  lemma MaskedStep(dict: set<Word>, text: seq<char>, pos: nat, repl: char, before: seq<char>, after: seq<char>)
    requires pos < |text| && before == MaskedUpTo(dict, text, pos, repl) && |after| == |text|
    requires forall j :: 0 <= j < |text| ==>
      after[j] == if EndsWithin(SuffixWords(dict, text[..pos + 1], pos + 1), j, pos + 1) then repl else before[j]
    ensures after == MaskedUpTo(dict, text, pos + 1, repl)
  {
    forall j | 0 <= j < |text| ensures after[j] == MaskedUpTo(dict, text, pos + 1, repl)[j] {
      CoveredStep(dict, text, j, pos);
    }
  }

  // ---------------------------------------------------------------------------
  // Aho-Corasick Remove: every reported match splices its length off the end of
  // the output built so far; if fewer runes remain, the source's slice bound is
  // negative and it panics (None).

  function SpliceAll(out: seq<char>, ms: seq<Word>): Option<seq<char>>
    decreases |ms|
  {
    if ms == [] then Some(out)
    else if |ms[0]| <= |out| then SpliceAll(out[..|out| - |ms[0]|], ms[1..])
    else None
  }

  /** One step of the Aho-Corasick Remove scan: append the rune read, then splice off the words reported there. */
  function RemoveStep(out: Option<seq<char>>, c: char, ws: seq<Word>): Option<seq<char>> {
    match out
    case None => None
    case Some(o) => SpliceAll(o + [c], ws)
  }

  /** The output buffer after the Aho-Corasick Remove scan has read text[..n]. */
  function AcRemoveUpTo(dict: set<Word>, text: seq<char>, n: nat): Option<seq<char>>
    requires n <= |text|
  {
    if n == 0 then Some([])
    else RemoveStep(AcRemoveUpTo(dict, text, n - 1), text[n - 1], SuffixWords(dict, text[..n], n))
  }

  function AcRemove(dict: set<Word>, text: seq<char>): Option<seq<char>> {
    AcRemoveUpTo(dict, text, |text|)
  }

  /** One step of the Remove scan, unfolded. */
  lemma AcRemoveUpToStep(dict: set<Word>, text: seq<char>, n: nat)
    requires 0 < n <= |text|
    ensures AcRemoveUpTo(dict, text, n) == RemoveStep(AcRemoveUpTo(dict, text, n - 1), text[n - 1], SuffixWords(dict, text[..n], n))
  {
  }

  /** Once the Remove scan has panicked, it stays panicked. */
  lemma {:induction false} AcRemoveStaysNone(dict: set<Word>, text: seq<char>, n: nat, m: nat)
    requires n <= m <= |text| && AcRemoveUpTo(dict, text, n).None?
    ensures AcRemoveUpTo(dict, text, m).None?
    decreases m
  {
    if n < m {
      AcRemoveStaysNone(dict, text, n, m - 1);
      var prev := AcRemoveUpTo(dict, text, m - 1);
      assert AcRemoveUpTo(dict, text, m) == RemoveStep(prev, text[m - 1], SuffixWords(dict, text[..m], m));
    }
  }

  /**
   * The splicing loop of the Aho-Corasick Remove for the words reported at
   * one position: runes holds the output so far (cur, whose last rune sits at
   * pos) followed by the unread rest; each word cuts its length off the end
   * of cur. ok is false where a word is longer than what is left of cur.
   */
  method SpliceOff(runes: seq<char>, pos: int, ws: seq<Word>, ghost cur: seq<char>, ghost rest: seq<char>)
    returns (runes': seq<char>, pos': int, ok: bool)
    requires runes == cur + rest && pos == |cur| - 1
    ensures ok <==> SpliceAll(cur, ws).Some?
    ensures ok ==> runes' == SpliceAll(cur, ws).value + rest && pos' == |SpliceAll(cur, ws).value| - 1
  {
    runes', pos' := runes, pos;
    ghost var c := cur;
    var m := 0;
    while m < |ws|
      invariant m <= |ws| && runes' == c + rest && pos' == |c| - 1
      invariant SpliceAll(c, ws[m..]) == SpliceAll(cur, ws)
    {
      var len := |ws[m]|;
      if pos' - len + 1 < 0 {
        return runes', pos', false;
      }
      assert ws[m..][1..] == ws[m + 1..];
      assert runes'[..pos' - len + 1] == c[..|c| - len];
      assert runes'[pos' + 1..] == rest;
      runes' := runes'[..pos' - len + 1] + runes'[pos' + 1..];
      pos' := pos' - len;
      c := c[..|c| - len];
      m := m + 1;
    }
    ok := true;
  }

  function TotalLength(ms: seq<Word>): nat {
    if ms == [] then 0 else |ms[0]| + TotalLength(ms[1..])
  }

  lemma {:induction false} TotalLengthAppend(a: seq<Word>, b: seq<Word>)
    ensures TotalLength(a + b) == TotalLength(a) + TotalLength(b)
    decreases |a|
  {
    if a != [] {
      assert (a + b)[1..] == a[1..] + b;
      TotalLengthAppend(a[1..], b);
    } else {
      assert a + b == b;
    }
  }

  /** Splicing only ever cuts runes off the end: the result is a prefix, shorter by the spliced lengths. */
  lemma {:induction false} SpliceAllPrefix(out: seq<char>, ms: seq<Word>)
    requires SpliceAll(out, ms).Some?
    ensures |SpliceAll(out, ms).value| + TotalLength(ms) == |out|
    ensures SpliceAll(out, ms).value == out[..|SpliceAll(out, ms).value|]
    decreases |ms|
  {
    if ms != [] {
      var cut := out[..|out| - |ms[0]|];
      SpliceAllPrefix(cut, ms[1..]);
      var r := SpliceAll(out, ms).value;
      assert cut[..|r|] == out[..|r|];
    }
  }

  /**
   * Whenever the Aho-Corasick Remove does not panic, its output is the input
   * with some runes deleted, and exactly as many runes as the reported matches
   * are long have been deleted.
   */
  lemma AcRemoveShape(dict: set<Word>, text: seq<char>, n: nat)
    requires n <= |text| && AcRemoveUpTo(dict, text, n).Some?
    ensures IsSubsequence(AcRemoveUpTo(dict, text, n).value, text[..n])
    ensures |AcRemoveUpTo(dict, text, n).value| + TotalLength(AcStreamUpTo(dict, text, n)) == n
  {
    RemoveShapedUpTo(dict, text, n);
  }

  /** The claim of AcRemoveShape after n runes, vacuous once the scan has panicked. */
  ghost predicate RemoveShaped(dict: set<Word>, text: seq<char>, n: nat)
    requires n <= |text|
  {
    AcRemoveUpTo(dict, text, n).Some? ==>
      && IsSubsequence(AcRemoveUpTo(dict, text, n).value, text[..n])
      && |AcRemoveUpTo(dict, text, n).value| + TotalLength(AcStreamUpTo(dict, text, n)) == n
  }

  lemma {:induction false} RemoveShapedUpTo(dict: set<Word>, text: seq<char>, n: nat)
    requires n <= |text|
    ensures RemoveShaped(dict, text, n)
    decreases n
  {
    if n > 0 {
      RemoveShapedUpTo(dict, text, n - 1);
      if AcRemoveUpTo(dict, text, n).Some? {
        AcRemoveEarlier(dict, text, n);
        AcRemoveShapeStep(dict, text, n);
      }
    }
  }

  /** A scan that has not panicked after n runes had not panicked one rune earlier. */
  lemma AcRemoveEarlier(dict: set<Word>, text: seq<char>, n: nat)
    requires 0 < n <= |text| && AcRemoveUpTo(dict, text, n).Some?
    ensures AcRemoveUpTo(dict, text, n - 1).Some?
  {
    assert AcRemoveUpTo(dict, text, n) == RemoveStep(AcRemoveUpTo(dict, text, n - 1), text[n - 1], SuffixWords(dict, text[..n], n));
  }

  /** The induction step of AcRemoveShape. */
  lemma AcRemoveShapeStep(dict: set<Word>, text: seq<char>, n: nat)
    requires 0 < n <= |text| && AcRemoveUpTo(dict, text, n).Some? && AcRemoveUpTo(dict, text, n - 1).Some?
    requires IsSubsequence(AcRemoveUpTo(dict, text, n - 1).value, text[..n - 1])
    requires |AcRemoveUpTo(dict, text, n - 1).value| + TotalLength(AcStreamUpTo(dict, text, n - 1)) == n - 1
    ensures IsSubsequence(AcRemoveUpTo(dict, text, n).value, text[..n])
    ensures |AcRemoveUpTo(dict, text, n).value| + TotalLength(AcStreamUpTo(dict, text, n)) == n
  {
    var ws := SuffixWords(dict, text[..n], n);
    var c := text[n - 1];
    var prev := AcRemoveUpTo(dict, text, n - 1).value;
    var out := SpliceAll(prev + [c], ws);
    assert AcRemoveUpTo(dict, text, n) == out;
    SpliceShape(prev, text[..n - 1], c, ws);
    AcRemoveLengthStep(dict, text, n, prev, out.value);
    TakeSnoc(text, n);
  }

  /** The length bookkeeping of one step of AcRemoveShape. */
  lemma AcRemoveLengthStep(dict: set<Word>, text: seq<char>, n: nat, prev: seq<char>, out: seq<char>)
    requires 0 < n <= |text|
    requires |prev| + TotalLength(AcStreamUpTo(dict, text, n - 1)) == n - 1
    requires |out| + TotalLength(SuffixWords(dict, text[..n], n)) == |prev| + 1
    ensures |out| + TotalLength(AcStreamUpTo(dict, text, n)) == n
  {
    var before := AcStreamUpTo(dict, text, n - 1);
    var ws := SuffixWords(dict, text[..n], n);
    assert AcStreamUpTo(dict, text, n) == before + ws;
    TotalLengthAppend(before, ws);
  }

  /** One Remove step keeps the output a subsequence of the text read and deletes as many runes as the words spliced off. */
  lemma SpliceShape(out: seq<char>, read: seq<char>, c: char, ws: seq<Word>)
    requires IsSubsequence(out, read) && SpliceAll(out + [c], ws).Some?
    ensures IsSubsequence(SpliceAll(out + [c], ws).value, read + [c])
    ensures |SpliceAll(out + [c], ws).value| + TotalLength(ws) == |out| + 1
  {
    var grown := out + [c];
    SubsequenceSnoc(out, read, c);
    SpliceAllPrefix(grown, ws);
    SubsequencePrefix(grown, read + [c], |SpliceAll(grown, ws).value|);
  }

  /** An empty stream was empty one rune earlier, and nothing ends at the last rune. */
  lemma AcStreamEmptyBefore(dict: set<Word>, text: seq<char>, n: nat)
    requires 0 < n <= |text| && AcStreamUpTo(dict, text, n) == []
    ensures AcStreamUpTo(dict, text, n - 1) == [] && SuffixWords(dict, text[..n], n) == []
  {
    var before := AcStreamUpTo(dict, text, n - 1);
    var ws := SuffixWords(dict, text[..n], n);
    assert |before + ws| == |before| + |ws|;
  }

  /** With no match, the Aho-Corasick Remove returns its input. */
  lemma {:induction false} AcRemoveNoMatch(dict: set<Word>, text: seq<char>, n: nat)
    requires n <= |text| && AcStreamUpTo(dict, text, n) == []
    ensures AcRemoveUpTo(dict, text, n) == Some(text[..n])
    decreases n
  {
    if n > 0 {
      AcStreamEmptyBefore(dict, text, n);
      AcRemoveNoMatch(dict, text, n - 1);
      AcRemoveUpToStep(dict, text, n);
      TakeSnoc(text, n);
    }
  }

  // ---------------------------------------------------------------------------
  // Trie-walk Remove: from each start, skip the shortest dictionary word
  // starting there, or keep the rune and move one on.

  /** The least end e' >= e such that text[s..e'] is a dictionary word. */
  function FirstWordEnd(dict: set<Word>, text: seq<char>, s: nat, e: nat): (r: Option<nat>)
    requires s < e
    ensures r.Some? ==> e <= r.value <= |text| && text[s..r.value] in dict
    ensures r.Some? ==> forall e' :: e <= e' < r.value ==> text[s..e'] !in dict
    ensures r.None? ==> forall e' :: e <= e' <= |text| ==> text[s..e'] !in dict
    decreases |text| + 1 - e
  {
    if e > |text| then None
    else if text[s..e] in dict then Some(e)
    else FirstWordEnd(dict, text, s, e + 1)
  }

  function DfaRemoveFrom(dict: set<Word>, text: seq<char>, s: nat): seq<char>
    requires s <= |text|
    decreases |text| - s
  {
    if s == |text| then []
    else
      match FirstWordEnd(dict, text, s, s + 1)
      case Some(e) => DfaRemoveFrom(dict, text, e)
      case None => [text[s]] + DfaRemoveFrom(dict, text, s + 1)
  }

  function DfaRemove(dict: set<Word>, text: seq<char>): seq<char> {
    DfaRemoveFrom(dict, text, 0)
  }

  /** Past a non-word text[s..e], the search for the first word from s goes on at e + 1. */
  lemma FirstWordEndStep(dict: set<Word>, text: seq<char>, s: nat, e: nat)
    requires s < e <= |text| && text[s..e] !in dict
    ensures FirstWordEnd(dict, text, s, e) == FirstWordEnd(dict, text, s, e + 1)
  {
  }

  /** Once the first word from s ends at e, Remove goes on from e. */
  lemma DfaRemoveSkip(dict: set<Word>, text: seq<char>, s: nat, e: nat)
    requires s < e <= |text| && text[s..e] in dict && FirstWordEnd(dict, text, s, s + 1) == FirstWordEnd(dict, text, s, e)
    ensures DfaRemoveFrom(dict, text, s) == DfaRemoveFrom(dict, text, e)
  {
  }

  /** With no word from s ending at e or later, Remove keeps the rune at s and moves on. */
  lemma DfaRemoveKeep(dict: set<Word>, text: seq<char>, s: nat, e: nat, kept: seq<char>)
    requires s < e && s < |text|
    requires FirstWordEnd(dict, text, s, s + 1) == FirstWordEnd(dict, text, s, e)
    requires forall e' :: e <= e' <= |text| ==> text[s..e'] !in dict
    ensures kept + DfaRemoveFrom(dict, text, s) == (kept + [text[s]]) + DfaRemoveFrom(dict, text, s + 1)
  {
    assert FirstWordEnd(dict, text, s, e).None?;
  }

  /** The trie-walk Remove keeps a subsequence of its input. */
  lemma {:induction false} DfaRemoveSubsequence(dict: set<Word>, text: seq<char>, s: nat)
    requires s <= |text|
    ensures IsSubsequence(DfaRemoveFrom(dict, text, s), text[s..])
    decreases |text| - s
  {
    if s < |text| {
      assert text[s..] == [text[s]] + text[s + 1..];
      DfaRemoveSubsequence(dict, text, s + 1);
      match FirstWordEnd(dict, text, s, s + 1)
      case Some(e) =>
        DfaRemoveSubsequence(dict, text, e);
        SubsequenceDropFront(DfaRemoveFrom(dict, text, e), text[s..], e - s);
      case None =>
        SubsequenceCons(DfaRemoveFrom(dict, text, s + 1), text[s + 1..], text[s]);
    }
  }

  /** With no dictionary word starting at or after s, the trie-walk Remove keeps everything from s on. */
  lemma {:induction false} DfaRemoveNoMatch(dict: set<Word>, text: seq<char>, s: nat)
    requires s <= |text| && !HasMatch(dict, text)
    ensures DfaRemoveFrom(dict, text, s) == text[s..]
    decreases |text| - s
  {
    if s < |text| {
      var r := FirstWordEnd(dict, text, s, s + 1);
      DfaRemoveNoMatch(dict, text, s + 1);
      assert text[s..] == [text[s]] + text[s + 1..];
    }
  }

  lemma {:induction false} SubsequenceCons(a: seq<char>, b: seq<char>, c: char)
    requires IsSubsequence(a, b)
    ensures IsSubsequence([c] + a, [c] + b) && IsSubsequence(a, [c] + b)
    decreases |b|
  {
    var cb := [c] + b;
    if b == [] {
      assert a == [];
      assert ([c] + a)[..0] == [];
    } else {
      assert cb[..|cb| - 1] == [c] + b[..|b| - 1];
      if a == [] {
        SubsequenceCons(a, b[..|b| - 1], c);
        assert [c] + a == [c];
      } else if a[|a| - 1] == b[|b| - 1] && IsSubsequence(a[..|a| - 1], b[..|b| - 1]) {
        SubsequenceCons(a[..|a| - 1], b[..|b| - 1], c);
        assert ([c] + a)[..|a|] == [c] + a[..|a| - 1];
      } else {
        SubsequenceCons(a, b[..|b| - 1], c);
      }
    }
  }

  lemma {:induction false} SubsequenceDropFront(a: seq<char>, b: seq<char>, k: nat)
    requires k <= |b| && IsSubsequence(a, b[k..])
    ensures IsSubsequence(a, b)
    decreases k
  {
    if k > 0 {
      assert b[k - 1..] == [b[k - 1]] + b[k..];
      SubsequenceCons(a, b[k..], b[k - 1]);
      SubsequenceDropFront(a, b, k - 1);
    }
  }

  // ---------------------------------------------------------------------------
  // Trie-walk Replace: the start positions are taken in order, each walking
  // the buffer the earlier ones left behind, and the walk from s masks s up to
  // the end of the longest dictionary word it meets there.

  /** The greatest e' with s < e' <= e such that b[s..e'] is a dictionary word. */
  function LongestWordEnd(dict: set<Word>, b: seq<char>, s: nat, e: nat): (r: Option<nat>)
    requires s <= e <= |b|
    ensures r.Some? ==> s < r.value <= e && b[s..r.value] in dict
    decreases e - s
  {
    if e == s then None
    else if b[s..e] in dict then Some(e)
    else LongestWordEnd(dict, b, s, e - 1)
  }

  /** No dictionary word from s ends after the one LongestWordEnd finds, up to e. */
  lemma {:induction false} LongestWordEndMax(dict: set<Word>, b: seq<char>, s: nat, e: nat)
    requires s <= e <= |b|
    ensures var r := LongestWordEnd(dict, b, s, e);
      forall e' :: (if r.Some? then r.value else s) < e' <= e ==> b[s..e'] !in dict
    decreases e - s
  {
    if e > s && b[s..e] !in dict {
      LongestWordEndMax(dict, b, s, e - 1);
    }
  }

  /** b with the positions s..e-1 set to repl. */
  function MaskSpan(b: seq<char>, s: nat, e: nat, repl: char): (r: seq<char>)
    requires s <= e <= |b|
    ensures |r| == |b|
  {
    b[..s] + seq(e - s, _ => repl) + b[e..]
  }

  lemma MaskSpanAt(b: seq<char>, s: nat, e: nat, repl: char)
    requires s <= e <= |b|
    ensures forall j :: 0 <= j < |b| ==> MaskSpan(b, s, e, repl)[j] == if s <= j < e then repl else b[j]
  {
  }

  /** The buffer once the walk from s over b has read the runes before index e. */
  function MaskLongest(dict: set<Word>, b: seq<char>, s: nat, e: nat, repl: char): (r: seq<char>)
    requires s <= e <= |b|
    ensures |r| == |b|
  {
    match LongestWordEnd(dict, b, s, e)
    case None => b
    case Some(k) => MaskSpan(b, s, k, repl)
  }

  /** The walk from s masks only runes it has read, and only with repl. */
  lemma MaskLongestWithin(dict: set<Word>, b: seq<char>, s: nat, e: nat, repl: char)
    requires s <= e <= |b|
    ensures forall j :: 0 <= j < |b| ==>
      MaskLongest(dict, b, s, e, repl)[j] == b[j] || (s <= j < e && MaskLongest(dict, b, s, e, repl)[j] == repl)
  {
    var r := LongestWordEnd(dict, b, s, e);
    if r.Some? {
      MaskSpanAt(b, s, r.value, repl);
    }
  }

  /** The runes the walk has not read yet are untouched. */
  lemma MaskLongestAhead(dict: set<Word>, b: seq<char>, s: nat, e: nat, repl: char, j: nat)
    requires s <= e <= j < |b|
    ensures MaskLongest(dict, b, s, e, repl)[j] == b[j]
  {
    MaskLongestWithin(dict, b, s, e, repl);
  }

  /** The buffer after the walks from the start positions before n. */
  function ReplaceUpTo(dict: set<Word>, text: seq<char>, repl: char, n: nat): (r: seq<char>)
    requires n <= |text|
    ensures |r| == |text|
  {
    if n == 0 then text else MaskLongest(dict, ReplaceUpTo(dict, text, repl, n - 1), n - 1, |text|, repl)
  }

  function DfaReplace(dict: set<Word>, text: seq<char>, repl: char): seq<char> {
    ReplaceUpTo(dict, text, repl, |text|)
  }

  /** Masking through e a buffer the walk from s has masked so far is the walk through e. */
  lemma MaskLongestExtend(dict: set<Word>, b: seq<char>, s: nat, e: nat, repl: char)
    requires s <= e < |b| && b[s..e + 1] in dict
    ensures MaskSpan(MaskLongest(dict, b, s, e, repl), s, e + 1, repl) == MaskLongest(dict, b, s, e + 1, repl)
    ensures LongestWordEnd(dict, b, s, e + 1) == Some(e + 1)
  {
    var m := MaskLongest(dict, b, s, e, repl);
    MaskLongestWithin(dict, b, s, e, repl);
    MaskSpanAt(m, s, e + 1, repl);
    MaskSpanAt(b, s, e + 1, repl);
    assert MaskSpan(m, s, e + 1, repl) == MaskSpan(b, s, e + 1, repl);
  }

  /** A walk that meets no further word from s changes nothing more. */
  lemma {:induction false} MaskLongestNoneBeyond(dict: set<Word>, b: seq<char>, s: nat, lo: nat, hi: nat, repl: char)
    requires s <= lo <= hi <= |b|
    requires forall e :: lo < e <= hi ==> b[s..e] !in dict
    ensures MaskLongest(dict, b, s, hi, repl) == MaskLongest(dict, b, s, lo, repl)
    ensures LongestWordEnd(dict, b, s, hi) == LongestWordEnd(dict, b, s, lo)
    decreases hi - lo
  {
    if lo < hi {
      MaskLongestNoneBeyond(dict, b, s, lo, hi - 1, repl);
    }
  }

  /** A walk from s that meets no word after pos leaves the buffer the next start reads. */
  lemma ReplaceRestart(dict: set<Word>, text: seq<char>, repl: char, s: nat, pos: nat)
    requires s <= pos < |text|
    requires forall e :: pos < e <= |text| ==> ReplaceUpTo(dict, text, repl, s)[s..e] !in dict
    ensures MaskLongest(dict, ReplaceUpTo(dict, text, repl, s), s, pos, repl) == ReplaceUpTo(dict, text, repl, s + 1)
    ensures MaskLongest(dict, ReplaceUpTo(dict, text, repl, s + 1), s + 1, s + 1, repl) == ReplaceUpTo(dict, text, repl, s + 1)
  {
    MaskLongestNoneBeyond(dict, ReplaceUpTo(dict, text, repl, s), s, pos, |text|, repl);
  }

  /** A walk from s that ends on a word at the end of the text masks all the rest: later starts change nothing. */
  lemma ReplaceFinish(dict: set<Word>, text: seq<char>, repl: char, s: nat)
    requires s < |text| && LongestWordEnd(dict, ReplaceUpTo(dict, text, repl, s), s, |text|) == Some(|text|)
    ensures MaskLongest(dict, ReplaceUpTo(dict, text, repl, s), s, |text|, repl) == DfaReplace(dict, text, repl)
  {
    var b := ReplaceUpTo(dict, text, repl, s);
    assert ReplaceUpTo(dict, text, repl, s + 1) == MaskSpan(b, s, |text|, repl);
    MaskSpanAt(b, s, |text|, repl);
    ReplaceSaturated(dict, text, repl, s + 1, |text|);
  }

  /** Walks from starts at or after m change nothing once the buffer holds repl from m on. */
  lemma {:induction false} ReplaceSaturated(dict: set<Word>, text: seq<char>, repl: char, m: nat, n: nat)
    requires m <= n <= |text|
    requires forall j :: m <= j < |text| ==> ReplaceUpTo(dict, text, repl, m)[j] == repl
    ensures ReplaceUpTo(dict, text, repl, n) == ReplaceUpTo(dict, text, repl, m)
    decreases n
  {
    if m < n {
      ReplaceSaturated(dict, text, repl, m, n - 1);
      var b := ReplaceUpTo(dict, text, repl, m);
      MaskLongestWithin(dict, b, n - 1, |text|, repl);
      assert MaskLongest(dict, b, n - 1, |text|, repl) == b;
    }
  }

  /** Replace keeps the length, and every rune is the original one or repl. */
  lemma {:induction false} ReplaceShape(dict: set<Word>, text: seq<char>, repl: char, n: nat)
    requires n <= |text|
    ensures forall j :: 0 <= j < |text| ==>
      ReplaceUpTo(dict, text, repl, n)[j] == text[j] || ReplaceUpTo(dict, text, repl, n)[j] == repl
    decreases n
  {
    if n > 0 {
      ReplaceShape(dict, text, repl, n - 1);
      MaskLongestWithin(dict, ReplaceUpTo(dict, text, repl, n - 1), n - 1, |text|, repl);
    }
  }

  /** A rune once masked stays masked. */
  lemma {:induction false} ReplaceKeepsMasks(dict: set<Word>, text: seq<char>, repl: char, m: nat, n: nat, j: nat)
    requires m <= n <= |text| && j < |text| && ReplaceUpTo(dict, text, repl, m)[j] == repl
    ensures ReplaceUpTo(dict, text, repl, n)[j] == repl
    decreases n
  {
    if m < n {
      ReplaceKeepsMasks(dict, text, repl, m, n - 1, j);
      MaskLongestWithin(dict, ReplaceUpTo(dict, text, repl, n - 1), n - 1, |text|, repl);
    }
  }

  /** Without a dictionary word in the text, Replace changes nothing. */
  lemma {:induction false} ReplaceNoMatch(dict: set<Word>, text: seq<char>, repl: char, n: nat)
    requires n <= |text| && !HasMatch(dict, text)
    ensures ReplaceUpTo(dict, text, repl, n) == text
    decreases n
  {
    if n > 0 {
      ReplaceNoMatch(dict, text, repl, n - 1);
    }
  }

  /**
   * When repl occurs in no dictionary word, Replace masks only runes that lie
   * in an occurrence of a dictionary word: the walks read masked runes, but a
   * walk through a masked rune finds no word.
   */
  lemma {:induction false} ReplaceSound(dict: set<Word>, text: seq<char>, repl: char, n: nat)
    requires n <= |text| && forall w :: w in dict ==> repl !in w
    ensures forall j :: 0 <= j < |text| && ReplaceUpTo(dict, text, repl, n)[j] != text[j] ==> Covered(dict, text, j)
    decreases n
  {
    if n > 0 {
      var b := ReplaceUpTo(dict, text, repl, n - 1);
      ReplaceSound(dict, text, repl, n - 1);
      ReplaceShape(dict, text, repl, n - 1);
      var k := LongestWordEnd(dict, b, n - 1, |text|);
      if k.Some? {
        var s, e := n - 1, k.value;
        MaskSpanAt(b, s, e, repl);
        forall i | s <= i < e ensures b[i] == text[i] {
          assert b[s..e][i - s] == b[i];
        }
        assert b[s..e] == text[s..e];
        forall j | s <= j < e ensures Covered(dict, text, j) {
          assert s <= j < e <= |text| && text[s..e] in dict;
        }
      }
    }
  }

  /**
   * An occurrence of a dictionary word that the walks from earlier starts left
   * untouched is masked completely.
   */
  lemma MaskedWhenUntouched(dict: set<Word>, text: seq<char>, repl: char, s: nat, e: nat)
    requires s < e <= |text| && text[s..e] in dict && ReplaceUpTo(dict, text, repl, s)[s..e] == text[s..e]
    ensures forall j :: s <= j < e ==> DfaReplace(dict, text, repl)[j] == repl
  {
    var b := ReplaceUpTo(dict, text, repl, s);
    var k := LongestWordEnd(dict, b, s, |text|);
    LongestWordEndMax(dict, b, s, |text|);
    assert b[s..e] in dict;
    assert k.Some? && e <= k.value;
    MaskSpanAt(b, s, k.value, repl);
    forall j | s <= j < e ensures DfaReplace(dict, text, repl)[j] == repl {
      assert ReplaceUpTo(dict, text, repl, s + 1)[j] == repl;
      ReplaceKeepsMasks(dict, text, repl, s + 1, |text|, j);
    }
  }
}
