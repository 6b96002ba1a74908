/**
 * The trie-walk matcher (the source calls it DFA): a codepoint trie whose
 * nodes carry a leaf flag, and scanners that walk the trie from every start
 * position in turn, restarting one position further on when the walk fails.
 *
 * Nodes live in an arena (see module Trie); `isLeaf[n]` is the Go field
 * `dfaNode.isLeaf`.
 */
module Dfa {
  import opened Wrappers
  import opened Text
  import opened Trie
  import opened Matching
  import opened Deletion

  /** The nodes flagged as leaves. */
  ghost function Leaves(isLeaf: seq<bool>): set<nat> {
    set n | 0 <= n < |isLeaf| && isLeaf[n]
  }

  /**
   * The state of AddWord's loop after i runes: the trie grew only along
   * w[..i], the walk of w[..i] ends at `now`, and the dictionary is unchanged.
   */
  ghost predicate Growing(ch0: Arena, dict0: set<Word>, ch: Arena, path: seq<seq<char>>, isLeaf: seq<bool>,
                          w: Word, i: nat, now: nat)
  {
    && i <= |w|
    && Labelled(ch, path) && |isLeaf| == |ch| && |ch| >= |ch0|
    && Walk(ch, w[..i]) == Some(now)
    && Words(ch, path, Leaves(isLeaf)) == dict0
    && PathsGrown(ch0, ch, w, i) && WalksKept(ch0, ch)
  }

  lemma GrowingNew(ch0: Arena, dict0: set<Word>, ch: Arena, path: seq<seq<char>>, isLeaf: seq<bool>,
                   w: Word, i: nat, now: nat)
    requires Growing(ch0, dict0, ch, path, isLeaf, w, i, now) && i < |w|
    requires now < |ch| && w[i] !in ch[now]
    ensures Growing(ch0, dict0, AddChild(ch, now, w[i]), path + [path[now] + [w[i]]], isLeaf + [false], w, i + 1, |ch|)
  {
    WalkLabel(ch, path, w[..i]);
    GrowNew(ch0, ch, path, w, i, now);
    AddChildLabelled(ch, path, now, w[i]);
    AddChildWords(ch, path, now, w[i], Leaves(isLeaf));
    assert Leaves(isLeaf + [false]) == Leaves(isLeaf);
  }

  /** Along a word that is already a path, every rune has its edge. */
  lemma StaysOnPath(ch: Arena, w: Word, i: nat, now: nat)
    requires i < |w| && IsPath(ch, w) && Walk(ch, w[..i]) == Some(now)
    ensures now < |ch| && w[i] in ch[now]
  {
    PathPrefix(ch, w, i + 1);
    assert w[..i + 1] == w[..i] + [w[i]];
    WalkSnoc(ch, w[..i], w[i]);
  }

  // ---------------------------------------------------------------------------
  // One step of a walk from start s over a buffer b

  /** The walk from s over b has read b[s..pos] and stands at node n. */
  ghost predicate WalkAt(ch: Arena, path: seq<seq<char>>, b: seq<char>, s: nat, pos: nat, n: nat) {
    Labelled(ch, path) && s <= pos <= |b| && Reach(ch, path, n) && path[n] == b[s..pos]
  }

  lemma WalkStart(ch: Arena, path: seq<seq<char>>, b: seq<char>, s: nat)
    requires Labelled(ch, path) && s <= |b|
    ensures WalkAt(ch, path, b, s, s, Root)
  {
  }

  /** The walk of b[s..pos] goes on along b[pos]: it stands at the node of b[s..pos + 1], a leaf exactly when that is a word. */
  lemma WalkHit(ch: Arena, path: seq<seq<char>>, isLeaf: seq<bool>, dict: set<Word>,
                b: seq<char>, s: nat, pos: nat, parent: nat)
    requires WalkAt(ch, path, b, s, pos, parent) && pos < |b| && b[pos] in ch[parent]
    requires |isLeaf| == |ch| && dict == Words(ch, path, Leaves(isLeaf))
    ensures WalkAt(ch, path, b, s, pos + 1, ch[parent][b[pos]])
    ensures b[s..pos + 1] in dict <==> isLeaf[ch[parent][b[pos]]]
  {
    ChildReach(ch, path, parent, b[pos]);
    assert b[s..pos + 1] == b[s..pos] + [b[pos]];
    WordsMember(ch, path, Leaves(isLeaf), b[s..pos + 1]);
    WalkLabel(ch, path, b[s..pos + 1]);
  }

  /** The walk of b[s..pos] finds no edge along b[pos]: no dictionary word starting at s ends after pos. */
  lemma WalkMiss(ch: Arena, path: seq<seq<char>>, isLeaf: seq<bool>, dict: set<Word>,
                 b: seq<char>, s: nat, pos: nat, parent: nat)
    requires WalkAt(ch, path, b, s, pos, parent) && pos < |b| && b[pos] !in ch[parent]
    requires |isLeaf| == |ch| && dict == Words(ch, path, Leaves(isLeaf))
    ensures forall e :: pos < e <= |b| ==> b[s..e] !in dict
  {
    WalkLabel(ch, path, b[s..pos]);
    assert b[s..pos + 1] == b[s..pos] + [b[pos]];
    WalkSnoc(ch, b[s..pos], b[pos]);
    forall e | pos < e <= |b| ensures b[s..e] !in dict {
      WordsMember(ch, path, Leaves(isLeaf), b[s..e]);
      assert b[s..e][..pos + 1 - s] == b[s..pos + 1];
      if IsPath(ch, b[s..e]) {
        PathPrefix(ch, b[s..e], pos + 1 - s);
      }
    }
  }

  // ---------------------------------------------------------------------------
  // Masking a span of the rune buffer (Replace's inner loop)

  method MaskRange(runes: array<char>, s: nat, e: nat, repl: char)
    requires s <= e <= runes.Length
    modifies runes
    ensures runes[..] == MaskSpan(old(runes[..]), s, e, repl)
  {
    var i := s;
    while i < e
      invariant s <= i <= e
      invariant forall j :: 0 <= j < runes.Length ==> runes[j] == if s <= j < i then repl else old(runes[j])
    {
      runes[i] := repl;
      i := i + 1;
    }
  }

  // ---------------------------------------------------------------------------
  // The state of Replace's loop and its four transitions

  /**
   * Replace's loop during the walk from start, which has read the runes
   * before pos: b is the buffer the walk started on and buf the buffer now.
   * A walk that ended on a word at the end of the text leaves pos at the end.
   */
  ghost predicate Replacing(d: set<Word>, text: seq<char>, repl: char, start: nat, pos: nat, b: seq<char>, buf: seq<char>)
  {
    && start <= pos <= |text|
    && b == ReplaceUpTo(d, text, repl, start)
    && (pos == |text| && start < pos ==> LongestWordEnd(d, b, start, pos) == Some(|text|))
    && buf == MaskLongest(d, b, start, pos, repl)
  }

  /** The walk from start meets no word after pos: the next start begins on the current buffer. */
  lemma ReplacingRestart(d: set<Word>, text: seq<char>, repl: char, start: nat, pos: nat, b: seq<char>, buf: seq<char>)
    requires Replacing(d, text, repl, start, pos, b, buf) && pos < |text|
    requires forall e :: pos < e <= |text| ==> b[start..e] !in d
    ensures Replacing(d, text, repl, start + 1, start + 1, buf, buf)
  {
    ReplaceRestart(d, text, repl, start, pos);
  }

  /** The walk from start reads a word ending at pos: the runes from start through pos are masked. */
  lemma ReplacingLeaf(d: set<Word>, text: seq<char>, repl: char, start: nat, pos: nat, b: seq<char>, buf: seq<char>)
    requires Replacing(d, text, repl, start, pos, b, buf) && pos < |text| && b[start..pos + 1] in d
    ensures Replacing(d, text, repl, start, pos + 1, b, MaskSpan(buf, start, pos + 1, repl))
  {
    MaskLongestExtend(d, b, start, pos, repl);
  }

  /** The walk from start reads a non-word before the last rune: nothing is masked. */
  lemma ReplacingPass(d: set<Word>, text: seq<char>, repl: char, start: nat, pos: nat, b: seq<char>, buf: seq<char>)
    requires Replacing(d, text, repl, start, pos, b, buf) && pos + 1 < |text| && b[start..pos + 1] !in d
    ensures Replacing(d, text, repl, start, pos + 1, b, buf)
  {
    MaskLongestNoneBeyond(d, b, start, pos, pos + 1, repl);
  }

  /** At the end of the text the buffer is the result. */
  lemma ReplacingDone(d: set<Word>, text: seq<char>, repl: char, start: nat, b: seq<char>, buf: seq<char>)
    requires Replacing(d, text, repl, start, |text|, b, buf)
    ensures buf == DfaReplace(d, text, repl)
  {
    if start < |text| {
      ReplaceFinish(d, text, repl, start);
    }
  }

  /** Replace's loop state: the buffer invariant and the trie walk from start over the current buffer b. */
  ghost predicate ReplaceLoop(ch: Arena, path: seq<seq<char>>, isLeaf: seq<bool>, d: set<Word>, text: seq<char>, repl: char,
                              start: nat, pos: nat, b: seq<char>, buf: seq<char>, parent: nat)
  {
    && Labelled(ch, path) && |isLeaf| == |ch| && d == Words(ch, path, Leaves(isLeaf))
    && Replacing(d, text, repl, start, pos, b, buf) && WalkAt(ch, path, b, start, pos, parent)
  }

  /** The walk cannot go on, or reaches the last rune without a word: the next start begins on the buffer. */
  lemma ReplaceLoopRestart(ch: Arena, path: seq<seq<char>>, isLeaf: seq<bool>, d: set<Word>, text: seq<char>, repl: char,
                           start: nat, pos: nat, b: seq<char>, buf: seq<char>, parent: nat)
    requires ReplaceLoop(ch, path, isLeaf, d, text, repl, start, pos, b, buf, parent) && pos < |text|
    requires b[pos] !in ch[parent] || (!isLeaf[ch[parent][b[pos]]] && pos == |text| - 1)
    ensures ReplaceLoop(ch, path, isLeaf, d, text, repl, start + 1, start + 1, buf, buf, Root)
  {
    if b[pos] in ch[parent] {
      WalkHit(ch, path, isLeaf, d, b, start, pos, parent);
    } else {
      WalkMiss(ch, path, isLeaf, d, b, start, pos, parent);
    }
    ReplacingRestart(d, text, repl, start, pos, b, buf);
    WalkStart(ch, path, buf, start + 1);
  }

  /** The walk reaches a leaf: the runes from start through pos are masked. */
  lemma ReplaceLoopLeaf(ch: Arena, path: seq<seq<char>>, isLeaf: seq<bool>, d: set<Word>, text: seq<char>, repl: char,
                        start: nat, pos: nat, b: seq<char>, buf: seq<char>, parent: nat)
    requires ReplaceLoop(ch, path, isLeaf, d, text, repl, start, pos, b, buf, parent) && pos < |text|
    requires b[pos] in ch[parent] && isLeaf[ch[parent][b[pos]]]
    ensures ReplaceLoop(ch, path, isLeaf, d, text, repl, start, pos + 1, b, MaskSpan(buf, start, pos + 1, repl), ch[parent][b[pos]])
  {
    WalkHit(ch, path, isLeaf, d, b, start, pos, parent);
    ReplacingLeaf(d, text, repl, start, pos, b, buf);
  }

  /** The walk goes on through an inner node before the last rune: nothing is masked. */
  lemma ReplaceLoopPass(ch: Arena, path: seq<seq<char>>, isLeaf: seq<bool>, d: set<Word>, text: seq<char>, repl: char,
                        start: nat, pos: nat, b: seq<char>, buf: seq<char>, parent: nat)
    requires ReplaceLoop(ch, path, isLeaf, d, text, repl, start, pos, b, buf, parent) && pos + 1 < |text|
    requires b[pos] in ch[parent] && !isLeaf[ch[parent][b[pos]]]
    ensures ReplaceLoop(ch, path, isLeaf, d, text, repl, start, pos + 1, b, buf, ch[parent][b[pos]])
  {
    WalkHit(ch, path, isLeaf, d, b, start, pos, parent);
    ReplacingPass(d, text, repl, start, pos, b, buf);
  }

  /**
   * One turn of Replace's loop: read the rune at pos from the buffer, then
   * restart after a miss, mask the walk's runes at a leaf, or walk on.
   */
  method ReplaceStep(ch: Arena, ghost path: seq<seq<char>>, isLeaf: seq<bool>, ghost d: set<Word>, text: seq<char>, repl: char,
                     runes: array<char>, start: nat, pos: nat, ghost b: seq<char>, parent: nat)
    returns (start': nat, pos': nat, ghost b': seq<char>, parent': nat)
    requires runes.Length == |text| && pos < |text|
    requires ReplaceLoop(ch, path, isLeaf, d, text, repl, start, pos, b, runes[..], parent)
    modifies runes
    ensures ReplaceLoop(ch, path, isLeaf, d, text, repl, start', pos', b', runes[..], parent')
    ensures (start' == start + 1 && pos' == start') || (start' == start && pos' == pos + 1)
  {
    MaskLongestAhead(d, b, start, pos, repl, pos);
    var r := runes[pos];
    assert r == b[pos];
    if r !in ch[parent] || (!isLeaf[ch[parent][r]] && pos == |text| - 1) {
      ReplaceLoopRestart(ch, path, isLeaf, d, text, repl, start, pos, b, runes[..], parent);
      return start + 1, start + 1, runes[..], Root;
    }
    var now := ch[parent][r];
    if isLeaf[now] {
      ReplaceLoopLeaf(ch, path, isLeaf, d, text, repl, start, pos, b, runes[..], parent);
      MaskRange(runes, start, pos + 1, repl);
    } else {
      ReplaceLoopPass(ch, path, isLeaf, d, text, repl, start, pos, b, runes[..], parent);
    }
    start', pos', b', parent' := start, pos + 1, b, now;
  }

  // ---------------------------------------------------------------------------
  // The state of FindAll's loop and its transitions

  /** FindAll's loop during the walk from start, which has read the runes before pos. */
  ghost predicate Finding(d: set<Word>, text: seq<char>, start: nat, pos: nat, matches: seq<Word>) {
    start <= pos <= |text| && matches == DfaStreamUpTo(d, text, start) + StartWords(d, text, start, pos)
  }

  /** Reading one more rune records text[start..pos + 1] when it is a word. */
  lemma FindingAdvance(d: set<Word>, text: seq<char>, start: nat, pos: nat, matches: seq<Word>)
    requires Finding(d, text, start, pos, matches) && pos < |text|
    ensures text[start..pos + 1] in d ==> Finding(d, text, start, pos + 1, matches + [text[start..pos + 1]])
    ensures text[start..pos + 1] !in d ==> Finding(d, text, start, pos + 1, matches)
  {
  }

  /** A walk that meets no word after pos has recorded everything from start: the next start begins. */
  lemma FindingRestart(d: set<Word>, text: seq<char>, start: nat, pos: nat, matches: seq<Word>)
    requires Finding(d, text, start, pos, matches) && start < |text|
    requires forall e :: pos < e <= |text| ==> text[start..e] !in d
    ensures Finding(d, text, start + 1, start + 1, matches)
  {
    StartWordsNoneBeyond(d, text, start, pos, |text|);
    DfaStreamRestart(d, text, start);
  }

  lemma FindingDone(d: set<Word>, text: seq<char>, matches: seq<Word>)
    requires Finding(d, text, |text|, |text|, matches)
    ensures matches == DfaStream(d, text)
  {
  }

  /**
   * One turn of FindAll's loop: restart after a miss or at the last rune,
   * otherwise walk on, recording the walk's runes at a leaf.
   */
  method FindTurn(ch: Arena, ghost path: seq<seq<char>>, isLeaf: seq<bool>, ghost d: set<Word>, text: seq<char>,
                  start: nat, pos: nat, parent: nat, matches: seq<Word>)
    returns (start': nat, pos': nat, parent': nat, matches': seq<Word>)
    requires Labelled(ch, path) && |isLeaf| == |ch| && d == Words(ch, path, Leaves(isLeaf)) && pos < |text|
    requires Finding(d, text, start, pos, matches) && WalkAt(ch, path, text, start, pos, parent)
    ensures pos' < |text| || start' == pos'
    ensures Finding(d, text, start', pos', matches') && WalkAt(ch, path, text, start', pos', parent')
    ensures (start' == start + 1 && pos' == start') || (start' == start && pos' == pos + 1)
  {
    var r := text[pos];
    if r !in ch[parent] {
      WalkMiss(ch, path, isLeaf, d, text, start, pos, parent);
      FindingRestart(d, text, start, pos, matches);
      WalkStart(ch, path, text, start + 1);
      return start + 1, start + 1, Root, matches;
    }
    var now := ch[parent][r];
    WalkHit(ch, path, isLeaf, d, text, start, pos, parent);
    FindingAdvance(d, text, start, pos, matches);
    matches' := matches;
    if isLeaf[now] {
      matches' := matches + [text[start..pos + 1]];
    }
    if pos == |text| - 1 {
      FindingRestart(d, text, start, pos + 1, matches');
      WalkStart(ch, path, text, start + 1);
      return start + 1, start + 1, Root, matches';
    }
    start', pos', parent' := start, pos + 1, now;
  }

  // ---------------------------------------------------------------------------
  // The state of Remove's loop and its transitions

  /**
   * Remove's loop during the walk from start, which has read the runes
   * before pos without meeting a word: the kept runes followed by what Remove
   * keeps from start on are the result.
   */
  ghost predicate Removing(d: set<Word>, text: seq<char>, start: nat, pos: nat, filtered: seq<char>) {
    && start <= pos <= |text| && (pos < |text| || start == pos)
    && filtered + DfaRemoveFrom(d, text, start) == DfaRemove(d, text)
    && (start < |text| ==> FirstWordEnd(d, text, start, start + 1) == FirstWordEnd(d, text, start, pos + 1))
  }

  /** No word from start ends after pos: the rune at start is kept and the next start begins. */
  lemma RemovingKeep(d: set<Word>, text: seq<char>, start: nat, pos: nat, filtered: seq<char>)
    requires Removing(d, text, start, pos, filtered) && pos < |text|
    requires forall e :: pos < e <= |text| ==> text[start..e] !in d
    ensures Removing(d, text, start + 1, start + 1, filtered + [text[start]])
  {
    DfaRemoveKeep(d, text, start, pos + 1, filtered);
  }

  /** The first word from start ends at pos + 1: it is skipped and the walk restarts after it. */
  lemma RemovingSkip(d: set<Word>, text: seq<char>, start: nat, pos: nat, filtered: seq<char>)
    requires Removing(d, text, start, pos, filtered) && pos < |text| && text[start..pos + 1] in d
    ensures Removing(d, text, pos + 1, pos + 1, filtered)
  {
    DfaRemoveSkip(d, text, start, pos + 1);
  }

  /** text[start..pos + 1] is no word and more runes follow: the walk goes on. */
  lemma RemovingPass(d: set<Word>, text: seq<char>, start: nat, pos: nat, filtered: seq<char>)
    requires Removing(d, text, start, pos, filtered) && pos + 1 < |text| && text[start..pos + 1] !in d
    ensures Removing(d, text, start, pos + 1, filtered)
  {
    FirstWordEndStep(d, text, start, pos + 1);
  }

  lemma RemovingDone(d: set<Word>, text: seq<char>, start: nat, filtered: seq<char>)
    requires Removing(d, text, start, |text|, filtered)
    ensures filtered + text[start..] == DfaRemove(d, text)
  {
    assert text[start..] == [];
  }

  /**
   * One turn of Remove's loop: keep the start rune and restart after a miss
   * or at the last rune without a word, skip the walk's runes at a leaf, or
   * walk on.
   */
  method RemoveTurn(ch: Arena, ghost path: seq<seq<char>>, isLeaf: seq<bool>, ghost d: set<Word>, text: seq<char>,
                    start: nat, pos: nat, parent: nat, filtered: seq<char>)
    returns (start': nat, pos': nat, parent': nat, filtered': seq<char>)
    requires Labelled(ch, path) && |isLeaf| == |ch| && d == Words(ch, path, Leaves(isLeaf)) && pos < |text|
    requires Removing(d, text, start, pos, filtered) && WalkAt(ch, path, text, start, pos, parent)
    ensures Removing(d, text, start', pos', filtered') && WalkAt(ch, path, text, start', pos', parent')
    ensures (start' == start + 1 && pos' == start') || (start' == pos + 1 && pos' == start') || (start' == start && pos' == pos + 1)
  {
    var r := text[pos];
    var found := r in ch[parent];
    if found {
      WalkHit(ch, path, isLeaf, d, text, start, pos, parent);
    } else {
      WalkMiss(ch, path, isLeaf, d, text, start, pos, parent);
    }
    if !found || (!isLeaf[ch[parent][r]] && pos == |text| - 1) {
      RemovingKeep(d, text, start, pos, filtered);
      WalkStart(ch, path, text, start + 1);
      return start + 1, start + 1, Root, filtered + [text[start]];
    }
    var now := ch[parent][r];
    if isLeaf[now] {
      RemovingSkip(d, text, start, pos, filtered);
      WalkStart(ch, path, text, pos + 1);
      return pos + 1, pos + 1, Root, filtered;
    }
    RemovingPass(d, text, start, pos, filtered);
    start', pos', parent', filtered' := start, pos + 1, now, filtered;
  }

  class DfaModel {
    var children: Arena
    var isLeaf: seq<bool>
    ghost var path: seq<seq<char>>

    ghost predicate Valid()
      reads this
    {
      Labelled(children, path) && |isLeaf| == |children|
    }

    /** The dictionary: the strings of the reachable leaf nodes. */
    ghost function Dict(): set<Word>
      reads this
      requires Valid()
    {
      Words(children, path, Leaves(isLeaf))
    }

    /** NewDfaModel: a trie holding only the root. */
    constructor ()
      ensures Valid()
      ensures Dict() == {}
      ensures forall s :: IsPath(children, s) <==> s == []
    {
      children := [map[]];
      isLeaf := [false];
      path := [[]];
      new;
      forall s ensures IsPath(children, s) <==> s == [] {
        if s != [] {
          assert Walk(children, s) == None;
        }
      }
      forall w ensures w !in Dict() {
        WordsMember(children, path, Leaves(isLeaf), w);
      }
    }

    /**
     * AddWord: walk the word's runes from the root, creating each missing child,
     * and flag the last node as a leaf.
     */
    method AddWord(w: Word)
      requires Valid()
      modifies this
      ensures Valid()
      ensures Dict() == old(Dict()) + {w}
      ensures IsPath(children, w) && isLeaf[Walk(children, w).value]
      ensures forall s :: IsPath(children, s) <==> old(IsPath(children, s)) || s <= w
      ensures forall s :: old(IsPath(children, s)) ==> Walk(children, s) == old(Walk(children, s))
      ensures old(IsPath(children, w)) ==> children == old(children)
    {
      ghost var ch0 := children;
      ghost var dict0 := Dict();
      var now: nat := Root;
      var i: nat := 0;
      while i < |w|
        invariant Growing(ch0, dict0, children, path, isLeaf, w, i, now)
        invariant IsPath(ch0, w) ==> children == ch0
      {
        now := Descend(ch0, dict0, w, i, now);
        i := i + 1;
      }
      assert w[..i] == w;
      WalkLabel(children, path, w);
      assert Leaves(isLeaf[now := true]) == Leaves(isLeaf) + {now};
      WordsMark(children, path, Leaves(isLeaf), now);
      isLeaf := isLeaf[now := true];
    }

    /** One rune of AddWord: follow the child for w[i], creating it when it is missing. */
    method Descend(ghost ch0: Arena, ghost dict0: set<Word>, w: Word, i: nat, now: nat) returns (next: nat)
      requires i < |w| && Growing(ch0, dict0, children, path, isLeaf, w, i, now)
      requires IsPath(ch0, w) ==> children == ch0
      modifies this
      ensures Growing(ch0, dict0, children, path, isLeaf, w, i + 1, next)
      ensures IsPath(ch0, w) ==> children == ch0
    {
      var r := w[i];
      if IsPath(ch0, w) {
        StaysOnPath(ch0, w, i, now);
      }
      if r in children[now] {
        GrowAlong(ch0, children, w, i, now);
        next := children[now][r];
      } else {
        GrowingNew(ch0, dict0, children, path, isLeaf, w, i, now);
        next := |children|;
        children := AddChild(children, now, r);
        path := path + [path[now] + [r]];
        isLeaf := isLeaf + [false];
      }
    }

    /** AddWords: add each word in turn. */
    method AddWords(ws: seq<Word>)
      requires Valid()
      modifies this
      ensures Valid()
      ensures Dict() == old(Dict()) + set i | 0 <= i < |ws| :: ws[i]
      ensures forall s :: IsPath(children, s) <==> old(IsPath(children, s)) || exists i :: 0 <= i < |ws| && s <= ws[i]
    {
      var i := 0;
      while i < |ws|
        invariant i <= |ws| && Valid()
        invariant Dict() == old(Dict()) + set j | 0 <= j < i :: ws[j]
        invariant forall s :: IsPath(children, s) <==> old(IsPath(children, s)) || exists j :: 0 <= j < i && s <= ws[j]
      {
        AddWord(ws[i]);
        assert (set j | 0 <= j < i + 1 :: ws[j]) == (set j | 0 <= j < i :: ws[j]) + {ws[i]};
        i := i + 1;
      }
    }

    /**
     * DelWord: walk the word's runes, remembering the deepest leaf before the
     * last rune, and cut the edge that leaves it along the word. A missing
     * rune ends the call early; with no such leaf the source dereferences nil
     * (NoTerminalPrefix), and nothing changes. The leaf flag of the word's own
     * node is never consulted.
     */
    method DelWord(w: Word) returns (outcome: DelOutcome)
      requires Valid()
      modifies this
      ensures Valid()
      ensures isLeaf == old(isLeaf) && path == old(path)
      ensures outcome == PathMissing <==> !old(IsPath(children, w))
      ensures outcome == NoTerminalPrefix <==> old(IsPath(children, w)) && DeepestPrefixIn(old(Dict()), w, |w|).None?
      ensures outcome != Deleted ==> children == old(children)
      ensures outcome == Deleted ==> DeepestPrefixIn(old(Dict()), w, |w|).Some?
      ensures outcome == Deleted ==>
        var k := DeepestPrefixIn(old(Dict()), w, |w|).value;
        && (forall s :: IsPath(children, s) <==> old(IsPath(children, s)) && !(w[..k + 1] <= s))
        && (forall v :: v in Dict() <==> v in old(Dict()) && !(w[..k + 1] <= v))
      ensures outcome == Deleted ==> w !in Dict()
      ensures outcome == Deleted ==> forall j :: 0 <= j < |w| && w[..j] in old(Dict()) ==> w[..j] in Dict()
      ensures DelStep(old(children), path, Leaves(isLeaf), w) == if outcome == NoTerminalPrefix then None else Some(children)
    {
      var missing, lastLeaf, lastRune := DeepestLeaf(w);
      if missing {
        return PathMissing;
      }
      if lastLeaf.None? {
        return NoTerminalPrefix;
      }
      ghost var k := DeepestPrefixIn(Dict(), w, |w|).value;
      var leaf := lastLeaf.value;
      WalkLabel(children, path, w[..k]);
      CutAfterPrefix(children, path, Leaves(isLeaf), w, k, leaf);
      children := CutEdge(children, leaf, lastRune);
      outcome := Deleted;
    }

    /**
     * The walk of DelWord along w: whether w leaves the trie, and otherwise
     * the node of the longest proper prefix of w that is a word, with the
     * rune of w that follows it.
     */
    method DeepestLeaf(w: Word) returns (missing: bool, lastLeaf: Option<nat>, lastRune: char)
      requires Valid()
      ensures missing <==> !IsPath(children, w)
      ensures !missing ==> (lastLeaf.None? <==> DeepestPrefixIn(Dict(), w, |w|).None?)
      ensures !missing && lastLeaf.Some? ==>
        DeepestPrefixIn(Dict(), w, |w|).Some? &&
        Walk(children, w[..DeepestPrefixIn(Dict(), w, |w|).value]) == lastLeaf &&
        lastRune == w[DeepestPrefixIn(Dict(), w, |w|).value]
    {
      lastLeaf, lastRune := None, '\0';
      var now: nat := Root;
      var i: nat := 0;
      while i < |w|
        invariant i <= |w| && Walk(children, w[..i]) == Some(now)
        invariant lastLeaf.None? == DeepestPrefixIn(Dict(), w, i).None?
        invariant lastLeaf.Some? ==>
          Walk(children, w[..DeepestPrefixIn(Dict(), w, i).value]) == lastLeaf &&
          lastRune == w[DeepestPrefixIn(Dict(), w, i).value]
      {
        var r := w[i];
        DeepestStep(children, path, Leaves(isLeaf), w, i, now);
        if r !in children[now] {
          return true, lastLeaf, lastRune;
        }
        if isLeaf[now] {
          lastLeaf := Some(now);
          lastRune := r;
        }
        now := children[now][r];
        i := i + 1;
      }
      assert w[..i] == w;
      missing := false;
    }

    /** DelWords: delete each word in turn; false when a deletion panics. */
    method DelWords(ws: seq<Word>) returns (ok: bool)
      requires Valid()
      modifies this
      ensures Valid()
      ensures Dict() <= old(Dict())
      ensures ok ==> forall i :: 0 <= i < |ws| ==> ws[i] !in Dict()
      ensures isLeaf == old(isLeaf) && path == old(path)
      ensures ok <==> DelAll(old(children), old(path), Leaves(old(isLeaf)), ws).Some?
      ensures ok ==> children == DelAll(old(children), old(path), Leaves(old(isLeaf)), ws).value
    {
      var i := 0;
      while i < |ws|
        invariant i <= |ws| && Valid()
        invariant Dict() <= old(Dict())
        invariant forall j :: 0 <= j < i ==> ws[j] !in Dict()
        invariant isLeaf == old(isLeaf) && path == old(path)
        invariant DelAll(old(children), path, Leaves(isLeaf), ws) == DelAll(children, path, Leaves(isLeaf), ws[i..])
      {
        assert ws[i..][0] == ws[i] && ws[i..][1..] == ws[i + 1..];
        var outcome := DelWord(ws[i]);
        if outcome == NoTerminalPrefix {
          return false;
        }
        if outcome == PathMissing {
          WordsMember(children, path, Leaves(isLeaf), ws[i]);
        }
        i := i + 1;
      }
      ok := true;
    }

    /**
     * FindAll: walk the trie from each start position, recording every leaf
     * the walk passes; restart one position on when the walk misses or
     * reaches the end of the text. The matches are then deduplicated.
     */
    method FindAll(text: seq<char>) returns (res: seq<Word>)
      requires Valid()
      ensures res == Dedup(DfaStream(Dict(), text))
    {
      ghost var d := Dict();
      var ch, leaf := children, isLeaf;
      ghost var labels := path;
      var matches: seq<Word> := [];
      var start: nat := 0;
      var parent: nat := Root;
      var pos: nat := 0;
      WalkStart(ch, labels, text, 0);
      while pos < |text|
        invariant pos < |text| || start == pos
        invariant Finding(d, text, start, pos, matches) && WalkAt(ch, labels, text, start, pos, parent)
        decreases |text| - start, |text| - pos
      {
        start, pos, parent, matches := FindTurn(ch, labels, leaf, d, text, start, pos, parent, matches);
      }
      FindingDone(d, text, matches);
      res := Distinct(matches);
    }

    /** FindAllCount: the walk of FindAll, counting each recorded word. */
    method FindAllCount(text: seq<char>) returns (res: map<Word, nat>)
      requires Valid()
      ensures res == Tally(DfaStream(Dict(), text))
    {
      ghost var d := Dict();
      var ch, leaf := children, isLeaf;
      ghost var labels := path;
      ghost var matches: seq<Word> := [];
      res := map[];
      var start: nat := 0;
      var parent: nat := Root;
      var pos: nat := 0;
      WalkStart(ch, labels, text, 0);
      while pos < |text|
        invariant pos < |text| || start == pos
        invariant Finding(d, text, start, pos, matches) && WalkAt(ch, labels, text, start, pos, parent)
        invariant res == Tally(matches)
        decreases |text| - start, |text| - pos
      {
        var r := text[pos];
        if r !in ch[parent] {
          WalkMiss(ch, labels, leaf, d, text, start, pos, parent);
          FindingRestart(d, text, start, pos, matches);
          WalkStart(ch, labels, text, start + 1);
          parent := Root;
          start := start + 1;
          pos := start;
          continue;
        }
        var now := ch[parent][r];
        WalkHit(ch, labels, leaf, d, text, start, pos, parent);
        FindingAdvance(d, text, start, pos, matches);
        if leaf[now] {
          res := AddCounts(res, matches, [text[start..pos + 1]]);
          matches := matches + [text[start..pos + 1]];
        }
        if pos == |text| - 1 {
          FindingRestart(d, text, start, pos + 1, matches);
          WalkStart(ch, labels, text, start + 1);
          parent := Root;
          start := start + 1;
          pos := start;
          continue;
        }
        parent := now;
        pos := pos + 1;
      }
      FindingDone(d, text, matches);
    }

    /**
     * FindOne: the walk of FindAll, returning the first leaf met; a walk that
     * reaches the last rune without a leaf restarts. The empty string when
     * nothing matches.
     */
    method FindOne(text: seq<char>) returns (res: Word)
      requires Valid()
      ensures res == FirstOrEmpty(DfaStream(Dict(), text))
    {
      ghost var d := Dict();
      var ch, leaf := children, isLeaf;
      ghost var labels := path;
      var start: nat := 0;
      var parent: nat := Root;
      var pos: nat := 0;
      WalkStart(ch, labels, text, 0);
      while pos < |text|
        invariant pos < |text| || start == pos
        invariant Finding(d, text, start, pos, []) && WalkAt(ch, labels, text, start, pos, parent)
        decreases |text| - start, |text| - pos
      {
        var r := text[pos];
        var found := r in ch[parent];
        if found {
          WalkHit(ch, labels, leaf, d, text, start, pos, parent);
        } else {
          WalkMiss(ch, labels, leaf, d, text, start, pos, parent);
        }
        if !found || (!leaf[ch[parent][r]] && pos == |text| - 1) {
          FindingRestart(d, text, start, pos, []);
          WalkStart(ch, labels, text, start + 1);
          parent := Root;
          start := start + 1;
          pos := start;
          continue;
        }
        var now := ch[parent][r];
        if leaf[now] {
          DfaFirstAt(d, text, start, pos + 1);
          return text[start..pos + 1];
        }
        FindingAdvance(d, text, start, pos, []);
        parent := now;
        pos := pos + 1;
      }
      FindingDone(d, text, []);
      res := [];
    }

    /** IsSensitive: whether FindOne finds a word. */
    method IsSensitive(text: seq<char>) returns (b: bool)
      requires Valid()
      ensures b <==> HasMatch(Dict(), text)
    {
      var w := FindOne(text);
      DfaStreamEmpty(Dict(), text);
      if DfaStream(Dict(), text) != [] {
        ghost var s := DfaStreamFirst(Dict(), text, |text|);
      }
      b := w != [];
    }

    /**
     * Replace: the walk of FindOne over a rune buffer; at each leaf the runes
     * from the start through the current one are set to repl, and the walk
     * goes on. Later walks read the masked runes.
     */
    method Replace(text: seq<char>, repl: char) returns (res: seq<char>)
      requires Valid()
      ensures res == DfaReplace(Dict(), text, repl)
    {
      ghost var d := Dict();
      var ch, leaf := children, isLeaf;
      ghost var labels := path;
      var runes := new char[|text|](i requires 0 <= i < |text| => text[i]);
      var start: nat := 0;
      var parent: nat := Root;
      var pos: nat := 0;
      ghost var b := text;
      assert runes[..] == text;
      WalkStart(ch, labels, b, 0);
      while pos < |text|
        invariant runes.Length == |text|
        invariant ReplaceLoop(ch, labels, leaf, d, text, repl, start, pos, b, runes[..], parent)
        decreases |text| - start, |text| - pos
      {
        start, pos, b, parent := ReplaceStep(ch, labels, leaf, d, text, repl, runes, start, pos, b, parent);
      }
      ReplacingDone(d, text, repl, start, b, runes[..]);
      res := runes[..];
    }

    /**
     * Remove: the walk of FindOne; at a leaf the matched runes are dropped and
     * the walk restarts after them, and on a restart the rune at the start
     * is kept.
     */
    method Remove(text: seq<char>) returns (res: seq<char>)
      requires Valid()
      ensures res == DfaRemove(Dict(), text)
    {
      ghost var d := Dict();
      var ch, leaf := children, isLeaf;
      ghost var labels := path;
      var filtered: seq<char> := [];
      var start: nat := 0;
      var parent: nat := Root;
      var pos: nat := 0;
      WalkStart(ch, labels, text, 0);
      while pos < |text|
        invariant Removing(d, text, start, pos, filtered) && WalkAt(ch, labels, text, start, pos, parent)
        decreases |text| - start, |text| - pos
      {
        start, pos, parent, filtered := RemoveTurn(ch, labels, leaf, d, text, start, pos, parent, filtered);
      }
      RemovingDone(d, text, start, filtered);
      res := filtered + text[start..];
    }
  }
}
