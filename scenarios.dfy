/**
 * The test suite's dictionary and text, and the results its tests expect,
 * derived from the match-stream specifications the scanners are proved
 * against. Every word of that dictionary has four runes, which is what makes
 * the streams computable one position at a time.
 */
module Scenarios {
  import opened Wrappers
  import opened Text
  import opened Matching
  import opened Uniform
  import opened Trie
  import AhoCorasick
  import Dfa

  const W1: Word := "敏感词1"
  const W2: Word := "敏感词2"
  const W3: Word := "敏感词3"
  const Words1: seq<Word> := [W1, W2, W3]
  const Dict1: set<Word> := {W1, W2, W3}
  /** The test text (the words end at runes 4, 11, 18 and 25). */
  const Text1: seq<char> := "敏感词1,这是敏感词2,这是敏感词3,这是敏感词1,这里没有敏感词"
  const Sep: seq<char> := ",这是"
  const Tail: seq<char> := ",这里没有敏感词"
  const Digits: set<char> := {'1', '2', '3'}

  // ---------------------------------------------------------------------------
  // The test text: words end at runes 4, 11, 18 and 25 and nowhere else

  lemma Text1Words()
    ensures |Text1| == 33
    ensures Text1[0..4] == W1 && Text1[7..11] == W2 && Text1[14..18] == W3 && Text1[21..25] == W1
  {
    assert forall i :: 0 <= i < 4 ==> Text1[7 + i] == W2[i];
    assert forall i :: 0 <= i < 4 ==> Text1[14 + i] == W3[i];
    assert forall i :: 0 <= i < 4 ==> Text1[21 + i] == W1[i];
  }

  lemma Text1Digits()
    ensures forall i :: 0 <= i < 3 ==> Text1[i] !in Digits
    ensures forall i :: 4 <= i < 10 ==> Text1[i] !in Digits
    ensures forall i :: 11 <= i < 17 ==> Text1[i] !in Digits
    ensures forall i :: 18 <= i < 24 ==> Text1[i] !in Digits
    ensures forall i :: 25 <= i < 33 ==> Text1[i] !in Digits
  {
  }

  lemma Dict1Ends()
    ensures EndsAmong(Dict1, 4, Digits)
  {
  }

  lemma Text1QuietStart(d: set<Word>, t: seq<char>)
    requires d == Dict1 && t == Text1
    ensures NoneEndIn(d, t, 0, 3) && NoneEndIn(d, t, 4, 10) && NoneEndIn(d, t, 11, 17)
  {
    Dict1Ends();
    Text1Digits();
    NoWordEnds(d, t, 4, Digits, 0, 3);
    NoWordEnds(d, t, 4, Digits, 4, 10);
    NoWordEnds(d, t, 4, Digits, 11, 17);
  }

  lemma Text1QuietEnd(d: set<Word>, t: seq<char>)
    requires d == Dict1 && t == Text1
    ensures NoneEndIn(d, t, 18, 24) && NoneEndIn(d, t, 25, 33)
  {
    Dict1Ends();
    Text1Digits();
    NoWordEnds(d, t, 4, Digits, 18, 24);
    NoWordEnds(d, t, 4, Digits, 25, 33);
  }

  lemma Text1InDict(d: set<Word>, t: seq<char>)
    requires d == Dict1 && t == Text1
    ensures |t| == 33 && (forall w :: w in d ==> |w| == 4)
    ensures t[0..4] in d && t[7..11] in d && t[14..18] in d && t[21..25] in d
  {
    Text1Words();
  }

  lemma Text1Shape(d: set<Word>, t: seq<char>)
    requires d == Dict1 && t == Text1
    ensures FourWordsShape(d, t, 4, 4, 11, 18, 25)
  {
    Text1InDict(d, t);
    Text1QuietStart(d, t);
    Text1QuietEnd(d, t);
  }

  lemma Text1Kept()
    ensures Text1[4..7] == Sep && Text1[11..14] == Sep && Text1[18..21] == Sep && Text1[25..] == Tail
  {
    assert forall i :: 0 <= i < 3 ==> Text1[4 + i] == Sep[i];
    assert forall i :: 0 <= i < 3 ==> Text1[11 + i] == Sep[i];
    assert forall i :: 0 <= i < 3 ==> Text1[18 + i] == Sep[i];
    assert forall i :: 0 <= i < 8 ==> Text1[25 + i] == Tail[i];
  }

  /** The Aho-Corasick match stream of the test text. */
  lemma Text1AcStream()
    ensures AcStream(Dict1, Text1) == [W1, W2, W3, W1]
  {
    Text1Shape(Dict1, Text1);
    Text1Words();
    FourWordsStream(Dict1, Text1, 4, 4, 11, 18, 25);
  }

  lemma Text1Removed()
    ensures Text1[..0] + Text1[4..7] + Text1[11..14] + Text1[18..21] + Text1[25..] == ",这是,这是,这是,这里没有敏感词"
  {
    Text1Kept();
  }

  /** The Aho-Corasick Remove of the test text: every word spliced off, and no panic. */
  lemma Text1AcRemove()
    ensures AcRemove(Dict1, Text1) == Some(",这是,这是,这是,这里没有敏感词")
  {
    Text1Shape(Dict1, Text1);
    FourWordsRemove(Dict1, Text1, 4, 4, 11, 18, 25);
    Text1Removed();
  }

  // ---------------------------------------------------------------------------
  // Reports over the stream

  lemma DedupRepeatFirst(a: Word, b: Word, c: Word)
    requires a != b && a != c && b != c
    ensures Dedup([a, b, c, a]) == [a, b, c]
  {
    assert [a][..0] == [];
    assert Dedup([a]) == [a];
    assert [a, b][..1] == [a];
    assert Dedup([a, b]) == [a, b];
    assert [a, b, c][..2] == [a, b];
    assert Dedup([a, b, c]) == [a, b, c];
    assert [a, b, c, a][..3] == [a, b, c];
  }

  lemma TallyRepeatFirst(a: Word, b: Word, c: Word)
    requires a != b && a != c && b != c
    ensures Tally([a, b, c, a]) == map[a := 2, b := 1, c := 1]
  {
    assert [a][..0] == [];
    assert Tally([a]) == map[a := 1];
    assert [a, b][..1] == [a];
    assert Tally([a, b]) == map[a := 1, b := 1];
    assert [a, b, c][..2] == [a, b];
    assert Tally([a, b, c]) == map[a := 1, b := 1, c := 1];
    assert [a, b, c, a][..3] == [a, b, c];
  }

  lemma WordsDistinct()
    ensures W1 != W2 && W1 != W3 && W2 != W3
  {
    assert W1[3] != W2[3] && W1[3] != W3[3] && W2[3] != W3[3];
  }

  // ---------------------------------------------------------------------------
  // The masked test text

  /** Rune j of the test text lies inside one of its four word occurrences. */
  predicate InFourWords(j: int) {
    0 <= j < 4 || 7 <= j < 11 || 14 <= j < 18 || 21 <= j < 25
  }

  /** An occurrence of a word whose last rune is a digit ends just after a digit of the text. */
  lemma OccurrenceEnd(d: set<Word>, t: seq<char>, s: nat, e: nat)
    requires s <= e <= |t| && EndsAmong(d, 4, Digits) && t[s..e] in d
    ensures e == s + 4 && t[e - 1] in Digits
  {
    assert t[s..e][3] == t[e - 1];
  }

  ghost predicate DigitsOnlyAtWordEnds(t: seq<char>) {
    && |t| == 33
    && (forall i :: 0 <= i < 3 ==> t[i] !in Digits)
    && (forall i :: 4 <= i < 10 ==> t[i] !in Digits)
    && (forall i :: 11 <= i < 17 ==> t[i] !in Digits)
    && (forall i :: 18 <= i < 24 ==> t[i] !in Digits)
    && (forall i :: 25 <= i < 33 ==> t[i] !in Digits)
  }

  lemma CoveredOnlyInWords(d: set<Word>, t: seq<char>, j: nat)
    requires EndsAmong(d, 4, Digits) && DigitsOnlyAtWordEnds(t) && j < |t|
    requires Covered(d, t, j)
    ensures InFourWords(j)
  {
    var s, e :| 0 <= s <= j < e <= |t| && t[s..e] in d;
    OccurrenceEnd(d, t, s, e);
  }

  lemma WordsCovered(d: set<Word>, t: seq<char>, j: nat)
    requires |t| == 33 && t[0..4] in d && t[7..11] in d && t[14..18] in d && t[21..25] in d
    requires InFourWords(j)
    ensures Covered(d, t, j)
  {
    if j < 4 {
      assert 0 <= 0 <= j < 4 <= |t| && t[0..4] in d;
    } else if j < 11 {
      assert 7 <= j < 11 <= |t| && t[7..11] in d;
    } else if j < 18 {
      assert 14 <= j < 18 <= |t| && t[14..18] in d;
    } else {
      assert 21 <= j < 25 <= |t| && t[21..25] in d;
    }
  }

  lemma MaskFourWords(d: set<Word>, t: seq<char>)
    requires EndsAmong(d, 4, Digits) && DigitsOnlyAtWordEnds(t)
    requires t[0..4] in d && t[7..11] in d && t[14..18] in d && t[21..25] in d
    ensures forall j :: 0 <= j < |t| ==> MaskAll(d, t, '*')[j] == if InFourWords(j) then '*' else t[j]
  {
    forall j | 0 <= j < |t|
      ensures MaskAll(d, t, '*')[j] == if InFourWords(j) then '*' else t[j]
    {
      if InFourWords(j) {
        WordsCovered(d, t, j);
      } else if Covered(d, t, j) {
        CoveredOnlyInWords(d, t, j);
      }
    }
  }

  const Masked1: seq<char> := "****,这是****,这是****,这是****,这里没有敏感词"

  lemma Masked1Runes()
    ensures |Masked1| == 33
    ensures forall j :: 0 <= j < 33 ==> Masked1[j] == if InFourWords(j) then '*' else Text1[j]
  {
  }

  /** The test text with every rune of every word occurrence replaced by '*'. */
  lemma Text1Masked()
    ensures MaskAll(Dict1, Text1, '*') == Masked1
  {
    Dict1Ends();
    Text1Digits();
    Text1InDict(Dict1, Text1);
    MaskFourWords(Dict1, Text1);
    Masked1Runes();
  }

  lemma Words1Dict()
    ensures {} + (set i | 0 <= i < |Words1| :: Words1[i]) == Dict1
  {
    assert Words1[0] == W1 && Words1[1] == W2 && Words1[2] == W3;
  }

  // ---------------------------------------------------------------------------
  // The test dictionary's fail pointers all lead to the root

  /** A prefix of one of the three test words. */
  ghost predicate Dict1Prefix(s: seq<char>) {
    s <= W1 || s <= W2 || s <= W3
  }

  /** The paths AddWords leaves after loading the three words into an empty trie. */
  lemma Words1Paths(ch: Arena)
    requires forall s :: IsPath(ch, s) <==> s == [] || exists i :: 0 <= i < |Words1| && s <= Words1[i]
    ensures forall s :: IsPath(ch, s) <==> Dict1Prefix(s)
  {
    assert Words1[0] == W1 && Words1[1] == W2 && Words1[2] == W3;
    forall s ensures IsPath(ch, s) <==> Dict1Prefix(s) {
      if Dict1Prefix(s) {
        if s <= W1 {
          assert s <= Words1[0];
        } else if s <= W2 {
          assert s <= Words1[1];
        } else {
          assert s <= Words1[2];
        }
      }
    }
  }

  /**
   * No nonempty prefix of a test word is a proper suffix of another such
   * prefix: every word starts with the rune 敏, which occurs in no word
   * past its first position.
   */
  lemma Dict1NoBorder(s: seq<char>, t: seq<char>)
    requires Dict1Prefix(s) && Dict1Prefix(t) && IsSuffix(t, s) && |t| < |s|
    ensures t == []
  {
    SuffixHead(t, s);
    Dict1Runes(s);
    Dict1Runes(t);
  }

  /** A nonempty suffix of s starts with the rune of s at the suffix's offset. */
  lemma SuffixHead(t: seq<char>, s: seq<char>)
    requires IsSuffix(t, s)
    ensures |t| > 0 ==> t[0] == s[|s| - |t|]
  {
  }

  /** A nonempty prefix of a test word starts with 敏, and holds that rune nowhere else. */
  lemma Dict1Runes(s: seq<char>)
    requires Dict1Prefix(s)
    ensures |s| > 0 ==> s[0] == '敏'
    ensures forall j :: 0 < j < |s| ==> s[j] != '敏'
  {
  }

  /** One node of the test trie: its fail target is the root. */
  lemma Dict1FailToRoot(ch: Arena, path: seq<seq<char>>, fail: seq<nat>, n: nat)
    requires Labelled(ch, path) && |fail| == |ch|
    requires forall s :: IsPath(ch, s) <==> Dict1Prefix(s)
    requires 0 < n < |ch| && Reach(ch, path, n) && AhoCorasick.FailTargetOk(ch, path, n, fail[n])
    ensures fail[n] == Root
  {
    var f := fail[n];
    assert IsPath(ch, path[n]) && IsPath(ch, path[f]);
    Dict1NoBorder(path[n], path[f]);
    assert Walk(ch, []) == Some(Root);
  }

  /**
   * On the test dictionary every fail pointer is the root, so every step of
   * the scan satisfies StepOk: the transition as the source writes it is the
   * intended one, and the scenarios below hold for the source as written.
   */
  lemma Dict1FailsToRoot(ch: Arena, path: seq<seq<char>>, fail: seq<nat>)
    requires Labelled(ch, path) && |fail| == |ch|
    requires forall n :: 0 < n < |ch| && Reach(ch, path, n) ==> AhoCorasick.FailTargetOk(ch, path, n, fail[n])
    requires forall s :: IsPath(ch, s) <==> Dict1Prefix(s)
    ensures forall n :: 0 < n < |ch| && Reach(ch, path, n) ==> fail[n] == Root
    ensures forall n, r :: 0 <= n < |ch| && Reach(ch, path, n) ==> AhoCorasick.StepOk(ch, fail, n, r)
    ensures forall n, r :: 0 <= n < |ch| && Reach(ch, path, n) ==>
      var next := AhoCorasick.WrittenMove(ch, path, fail, n, r);
      next.Some? && Reach(ch, path, next.value) && IsLongestPathSuffix(ch, path[next.value], path[n] + [r])
  {
    forall n | 0 < n < |ch| && Reach(ch, path, n)
      ensures fail[n] == Root
    {
      Dict1FailToRoot(ch, path, fail, n);
    }
    forall n, r | 0 <= n < |ch| && Reach(ch, path, n)
      ensures AhoCorasick.WrittenMove(ch, path, fail, n, r).Some?
      ensures Reach(ch, path, AhoCorasick.WrittenMove(ch, path, fail, n, r).value)
      ensures IsLongestPathSuffix(ch, path[AhoCorasick.WrittenMove(ch, path, fail, n, r).value], path[n] + [r])
    {
      AhoCorasick.WrittenMoveOk(ch, path, fail, n, r);
    }
  }

  // ---------------------------------------------------------------------------
  // The test suite's scenarios: a fresh automaton loaded with the three words

  method NewLoaded() returns (m: AhoCorasick.AcModel)
    ensures fresh(m) && m.Built() && m.Dict() == Dict1
    ensures forall s :: IsPath(m.children, s) <==> Dict1Prefix(s)
    ensures forall n, r :: 0 <= n < |m.children| && Reach(m.children, m.path, n) ==>
      AhoCorasick.StepOk(m.children, m.fail, n, r)
  {
    m := new AhoCorasick.AcModel();
    m.AddWords(Words1);
    Words1Dict();
    Words1Paths(m.children);
    Dict1FailsToRoot(m.children, m.path, m.fail);
  }

  method FindAllScenario() returns (res: seq<Word>)
    ensures res == [W1, W2, W3]
  {
    var m := NewLoaded();
    res := m.FindAll(Text1);
    Text1AcStream();
    WordsDistinct();
    DedupRepeatFirst(W1, W2, W3);
  }

  method FindAllCountScenario() returns (res: map<Word, nat>)
    ensures res == map[W1 := 2, W2 := 1, W3 := 1]
  {
    var m := NewLoaded();
    res := m.FindAllCount(Text1);
    Text1AcStream();
    WordsDistinct();
    TallyRepeatFirst(W1, W2, W3);
  }

  method FindOneScenario() returns (w: Word)
    ensures w == W1
  {
    var m := NewLoaded();
    w := m.FindOne(Text1);
    Text1AcStream();
  }

  method IsSensitiveScenario() returns (b: bool)
    ensures b
  {
    var m := NewLoaded();
    b := m.IsSensitive(Text1);
    Text1Words();
    assert Text1[0..4] in Dict1;
  }

  method ReplaceScenario() returns (r: seq<char>)
    ensures r == "****,这是****,这是****,这是****,这里没有敏感词"
  {
    var m := NewLoaded();
    r := m.Replace(Text1, '*');
    Text1Masked();
  }

  method RemoveScenario() returns (r: Option<seq<char>>)
    ensures r == Some(",这是,这是,这是,这里没有敏感词")
  {
    var m := NewLoaded();
    r := m.Remove(Text1);
    Text1AcRemove();
  }
}
