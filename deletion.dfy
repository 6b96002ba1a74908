/**
 * What a sequence of DelWord calls does to a trie, shared by both matchers:
 * each word is looked up; a word that is no path changes nothing, a word with
 * no word-completing proper prefix is where the source dereferences the nil
 * `lastLeaf` (None), and otherwise the edge leaving the deepest such prefix
 * along the word is cut.
 */
module Deletion {
  import opened Wrappers
  import opened Trie
  import opened Matching

  /** The arena after DelWord(w) on a trie whose word-completing nodes are `terminal`. */
  ghost function DelStep(ch: Arena, path: seq<seq<char>>, terminal: set<nat>, w: Word): (r: Option<Arena>)
    requires Labelled(ch, path)
    ensures r.Some? ==> Labelled(r.value, path)
  {
    if !IsPath(ch, w) then Some(ch)
    else
      match DeepestPrefixIn(Words(ch, path, terminal), w, |w|)
      case None => None
      case Some(k) =>
        PathPrefix(ch, w, k);
        WalkLabel(ch, path, w[..k]);
        CutEdgeLabelled(ch, path, Walk(ch, w[..k]).value, w[k]);
        Some(CutEdge(ch, Walk(ch, w[..k]).value, w[k]))
  }

  /**
   * One rune of the walk along w in DelWord: the walk of w[..i + 1] follows
   * the edge w[i] out of the node for w[..i], and the deepest word-completing
   * proper prefix becomes w[..i] exactly when that node is terminal.
   */
  lemma DeepestStep(ch: Arena, path: seq<seq<char>>, terminal: set<nat>, w: Word, i: nat, now: nat)
    requires Labelled(ch, path) && i < |w| && Walk(ch, w[..i]) == Some(now)
    ensures now < |ch|
    ensures Walk(ch, w[..i + 1]) == if w[i] in ch[now] then Some(ch[now][w[i]]) else None
    ensures w[i] !in ch[now] ==> !IsPath(ch, w)
    ensures DeepestPrefixIn(Words(ch, path, terminal), w, i + 1) ==
      if now in terminal then Some(i) else DeepestPrefixIn(Words(ch, path, terminal), w, i)
  {
    WalkLabel(ch, path, w[..i]);
    assert w[..i + 1] == w[..i] + [w[i]];
    WalkSnoc(ch, w[..i], w[i]);
    WordsMember(ch, path, terminal, w[..i]);
    if w[i] !in ch[now] && IsPath(ch, w) {
      PathPrefix(ch, w, i + 1);
    }
  }

  /** The arena after DelWord on each word of ws in turn; None once one of them panics. */
  ghost function DelAll(ch: Arena, path: seq<seq<char>>, terminal: set<nat>, ws: seq<Word>): (r: Option<Arena>)
    requires Labelled(ch, path)
    ensures r.Some? ==> Labelled(r.value, path)
    decreases |ws|
  {
    if ws == [] then Some(ch)
    else
      match DelStep(ch, path, terminal, ws[0])
      case None => None
      case Some(ch') => DelAll(ch', path, terminal, ws[1..])
  }

  /**
   * One deletion that does not panic takes the word out of the dictionary,
   * adds no word, and keeps every proper prefix of the word that was a word.
   */
  lemma DelStepWords(ch: Arena, path: seq<seq<char>>, terminal: set<nat>, w: Word)
    requires Labelled(ch, path) && DelStep(ch, path, terminal, w).Some?
    ensures w !in Words(DelStep(ch, path, terminal, w).value, path, terminal)
    ensures Words(DelStep(ch, path, terminal, w).value, path, terminal) <= Words(ch, path, terminal)
    ensures forall j :: 0 <= j < |w| && w[..j] in Words(ch, path, terminal) ==>
      w[..j] in Words(DelStep(ch, path, terminal, w).value, path, terminal)
  {
    if !IsPath(ch, w) {
      WordsMember(ch, path, terminal, w);
    } else {
      var k := DeepestPrefixIn(Words(ch, path, terminal), w, |w|).value;
      PathPrefix(ch, w, k);
      WalkLabel(ch, path, w[..k]);
      var leaf := Walk(ch, w[..k]).value;
      CutAfterPrefix(ch, path, terminal, w, k, leaf);
      assert w[..k + 1] <= w;
    }
  }

  /** A run of deletions that does not panic removes every listed word and adds none. */
  lemma {:induction false} DelAllWords(ch: Arena, path: seq<seq<char>>, terminal: set<nat>, ws: seq<Word>)
    requires Labelled(ch, path) && DelAll(ch, path, terminal, ws).Some?
    ensures Words(DelAll(ch, path, terminal, ws).value, path, terminal) <= Words(ch, path, terminal)
    ensures forall i :: 0 <= i < |ws| ==> ws[i] !in Words(DelAll(ch, path, terminal, ws).value, path, terminal)
    decreases |ws|
  {
    if ws != [] {
      var ch' := DelStep(ch, path, terminal, ws[0]).value;
      var rest := ws[1..];
      DelStepWords(ch, path, terminal, ws[0]);
      DelAllWords(ch', path, terminal, rest);
      assert DelAll(ch, path, terminal, ws) == DelAll(ch', path, terminal, rest);
      forall i | 0 <= i < |ws|
        ensures ws[i] !in Words(DelAll(ch, path, terminal, ws).value, path, terminal)
      {
        if i > 0 {
          assert ws[i] == rest[i - 1];
        }
      }
    }
  }
}
