/**
 * The Aho-Corasick matcher: a codepoint trie whose nodes carry the word they
 * complete and a fail pointer, built breadth first, and a left-to-right scan
 * that collects every word on the fail chain of the current node.
 *
 * Nodes live in an arena (see module Trie). `word[n]` is the Go field
 * `acNode.word` (None for nil) and `fail[n]` is `acNode.fail`; a node whose fail
 * pointer has not been built yet (Go: nil) holds the placeholder Root, which is
 * never read before buildFailPointers assigns it. The root's own fail pointer
 * stays nil in the source and is never followed here either.
 */
module AhoCorasick {
  import opened Wrappers
  import opened Text
  import opened Trie
  import opened Matching
  import opened Deletion

  /** The nodes that complete a word. */
  ghost function Terminal(word: seq<Option<Word>>): set<nat> {
    set n | 0 <= n < |word| && word[n].Some?
  }

  /** f is node n's correct fail target: the node of the longest proper suffix of n's string that is a path. */
  ghost predicate FailTargetOk(ch: Arena, path: seq<seq<char>>, n: nat, f: nat)
    requires Labelled(ch, path) && n < |ch|
  {
    Reach(ch, path, f) && IsFailTarget(ch, path[f], path[n])
  }

  /**
   * The state of AddWord's loop after i runes: the trie grew only along
   * w[..i], the walk of w[..i] ends at `now`, and no new node holds a word.
   */
  ghost predicate Growing(ch0: Arena, dict0: set<Word>, ch: Arena, path: seq<seq<char>>, word: seq<Option<Word>>,
                          w: Word, i: nat, now: nat)
  {
    && i <= |w|
    && Labelled(ch, path) && |word| == |ch| && |ch| >= |ch0|
    && (forall n :: 0 <= n < |word| && word[n].Some? ==> n < |ch0| && word[n].value == path[n])
    && Walk(ch, w[..i]) == Some(now)
    && Words(ch, path, Terminal(word)) == dict0
    && PathsGrown(ch0, ch, w, i) && WalksKept(ch0, ch)
  }

  lemma GrowingNew(ch0: Arena, dict0: set<Word>, ch: Arena, path: seq<seq<char>>, word: seq<Option<Word>>,
                   w: Word, i: nat, now: nat)
    requires Growing(ch0, dict0, ch, path, word, w, i, now) && i < |w|
    requires now < |ch| && w[i] !in ch[now]
    ensures Growing(ch0, dict0, AddChild(ch, now, w[i]), path + [path[now] + [w[i]]], word + [None], w, i + 1, |ch|)
  {
    WalkLabel(ch, path, w[..i]);
    GrowNew(ch0, ch, path, w, i, now);
    AddChildLabelled(ch, path, now, w[i]);
    AddChildWords(ch, path, now, w[i], Terminal(word));
    assert Terminal(word + [None]) == Terminal(word);
  }

  // ---------------------------------------------------------------------------
  // The breadth-first build of the fail pointers

  /** The child of n along c; the quantifiers below hang on it rather than on the map lookups inside a walk. */
  function Child(ch: Arena, n: nat, c: char): nat
    requires n < |ch| && c in ch[n]
  {
    ch[n][c]
  }

  /** Every processed node is reachable. */
  ghost predicate ProcessedReach(ch: Arena, path: seq<seq<char>>, P: set<nat>)
    requires |path| == |ch|
  {
    forall n :: n in P ==> Reach(ch, path, n)
  }

  /** The queue holds distinct reachable nodes not yet processed, ordered by depth. */
  ghost predicate QueueOk(ch: Arena, path: seq<seq<char>>, P: set<nat>, q: seq<nat>)
    requires |path| == |ch|
  {
    && (forall i :: 0 <= i < |q| ==> Reach(ch, path, q[i]) && q[i] !in P)
    && (forall i, j :: 0 <= i < j < |q| ==> q[i] != q[j])
    && (forall i, j :: 0 <= i < j < |q| ==> |path[q[i]]| <= |path[q[j]]|)
  }

  /** Every child of a processed node outside X is processed or queued. */
  ghost predicate Closed(ch: Arena, P: set<nat>, q: seq<nat>, X: set<nat>) {
    forall n: nat, c {:trigger Child(ch, n, c)} :: n in P && n !in X && n < |ch| && c in ch[n] ==>
      Child(ch, n, c) in P || Child(ch, n, c) in q
  }

  /** A node is processed or queued only once its parent is processed. */
  ghost predicate Parents(ch: Arena, path: seq<seq<char>>, P: set<nat>, q: seq<nat>)
    requires |path| == |ch|
  {
    forall n: nat, c {:trigger Child(ch, n, c)} ::
      Reach(ch, path, n) && c in ch[n] && (Child(ch, n, c) in P || Child(ch, n, c) in q) ==> n in P
  }

  /** The non-root nodes processed (in P) or queued (in q) have their correct fail pointers. */
  ghost predicate FailsOk(ch: Arena, path: seq<seq<char>>, fail: seq<nat>, P: set<nat>, q: seq<nat>)
    requires Labelled(ch, path) && |fail| == |ch|
  {
    forall n :: (n in P || n in q) && 0 < n < |ch| ==> FailTargetOk(ch, path, n, fail[n])
  }

  /** Every reachable node at depth d or less is processed or queued. */
  ghost predicate CoveredTo(ch: Arena, path: seq<seq<char>>, P: set<nat>, q: seq<nat>, d: nat)
    requires |path| == |ch|
  {
    forall n: nat :: Reach(ch, path, n) && |path[n]| <= d ==> n in P || n in q
  }

  /**
   * The state of buildFailPointers between two dequeues: P holds the
   * processed nodes, the queue spans at most two depths, and every node no
   * deeper than the head of the queue has been reached.
   */
  ghost predicate Bfs(ch: Arena, path: seq<seq<char>>, fail: seq<nat>, P: set<nat>, q: seq<nat>)
  {
    && Labelled(ch, path) && |fail| == |ch|
    && ProcessedReach(ch, path, P)
    && QueueOk(ch, path, P, q)
    && (q != [] ==> |path[q[|q| - 1]]| <= |path[q[0]]| + 1)
    && (Root in P || Root in q)
    && Closed(ch, P, q, {})
    && Parents(ch, path, P, q)
    && FailsOk(ch, path, fail, P, q)
    && (q != [] ==> CoveredTo(ch, path, P, q, |path[q[0]]|))
  }

  /**
   * The state while the children of the dequeued node t are being queued:
   * `keys` are the edges of t not handled yet, and every queued node lies at
   * t's depth or one below.
   */
  ghost predicate Expanding(ch: Arena, path: seq<seq<char>>, fail: seq<nat>, P: set<nat>, q: seq<nat>,
                            t: nat, keys: set<char>)
  {
    && Labelled(ch, path) && |fail| == |ch|
    && t in P && Reach(ch, path, t) && keys <= ch[t].Keys
    && ProcessedReach(ch, path, P)
    && QueueOk(ch, path, P, q)
    && (forall i :: 0 <= i < |q| ==> |path[t]| <= |path[q[i]]| <= |path[t]| + 1)
    && Root in P
    && Closed(ch, P, q, {t})
    && (forall c :: c in ch[t] && c !in keys ==> ch[t][c] in q)
    && (forall c :: c in keys ==> ch[t][c] !in P && ch[t][c] !in q)
    && Parents(ch, path, P, q)
    && FailsOk(ch, path, fail, P, q)
    && CoveredTo(ch, path, P, q, |path[t]|)
  }

  lemma InTail(q: seq<nat>)
    requires q != []
    ensures forall x :: x in q <==> x == q[0] || x in q[1..]
  {
    assert q == [q[0]] + q[1..];
  }

  lemma InSnoc(q: seq<nat>, x: nat)
    ensures forall y :: y in q + [x] <==> y in q || y == x
  {
  }



  /** The head of the queue is its shallowest node. */
  lemma HeadShallowest(ch: Arena, path: seq<seq<char>>, P: set<nat>, q: seq<nat>)
    requires |path| == |ch| && QueueOk(ch, path, P, q) && q != []
    ensures forall x :: x in q ==> x < |ch| && |path[q[0]]| <= |path[x]|
  {
    forall x | x in q ensures x < |ch| && |path[q[0]]| <= |path[x]| {
      var i :| 0 <= i < |q| && q[i] == x;
    }
  }

  /** The queue starts with the root alone. */
  lemma BfsInit(ch: Arena, path: seq<seq<char>>, fail: seq<nat>)
    requires Labelled(ch, path) && |fail| == |ch|
    ensures Bfs(ch, path, fail, {}, [Root])
  {
    forall n: nat | Reach(ch, path, n) && |path[n]| <= 0 ensures n in [Root] {
      ReachUnique(ch, path, n, Root);
    }
    forall n: nat, c | n < |ch| && c in ch[n] ensures Child(ch, n, c) != Root {
      assert path[ch[n][c]] == path[n] + [c];
    }
  }

  lemma QueuePop(ch: Arena, path: seq<seq<char>>, P: set<nat>, q: seq<nat>)
    requires |path| == |ch| && QueueOk(ch, path, P, q) && q != []
    ensures QueueOk(ch, path, P + {q[0]}, q[1..])
  {
  }

  lemma ClosedPop(ch: Arena, P: set<nat>, q: seq<nat>)
    requires Closed(ch, P, q, {}) && q != []
    ensures Closed(ch, P + {q[0]}, q[1..], {q[0]})
  {
    InTail(q);
  }

  lemma ParentsPop(ch: Arena, path: seq<seq<char>>, P: set<nat>, q: seq<nat>)
    requires |path| == |ch| && Parents(ch, path, P, q) && q != []
    ensures Parents(ch, path, P + {q[0]}, q[1..])
  {
    InTail(q);
  }

  lemma FailsPop(ch: Arena, path: seq<seq<char>>, fail: seq<nat>, P: set<nat>, q: seq<nat>)
    requires Labelled(ch, path) && |fail| == |ch| && FailsOk(ch, path, fail, P, q) && q != []
    ensures FailsOk(ch, path, fail, P + {q[0]}, q[1..])
  {
    InTail(q);
  }

  lemma CoveredPop(ch: Arena, path: seq<seq<char>>, P: set<nat>, q: seq<nat>, d: nat)
    requires |path| == |ch| && CoveredTo(ch, path, P, q, d) && q != []
    ensures CoveredTo(ch, path, P + {q[0]}, q[1..], d)
  {
    InTail(q);
  }

  /** The children of an unprocessed node are neither processed nor queued. */
  lemma ChildrenFresh(ch: Arena, path: seq<seq<char>>, P: set<nat>, q: seq<nat>, t: nat)
    requires Labelled(ch, path) && Parents(ch, path, P, q) && Reach(ch, path, t) && t !in P
    ensures forall c :: c in ch[t] ==> ch[t][c] !in P && ch[t][c] !in q
  {
    forall c | c in ch[t] ensures ch[t][c] !in P && ch[t][c] !in q {
      assert Child(ch, t, c) == ch[t][c];
    }
  }

  /** Dequeuing the head t moves it to P and starts the expansion of its children. */
  lemma Dequeue(ch: Arena, path: seq<seq<char>>, fail: seq<nat>, P: set<nat>, q: seq<nat>)
    requires Bfs(ch, path, fail, P, q) && q != []
    ensures Expanding(ch, path, fail, P + {q[0]}, q[1..], q[0], ch[q[0]].Keys)
  {
    DequeueHead(ch, path, fail, P, q);
    DequeuePops(ch, path, fail, P, q);
    DequeueChildren(ch, path, fail, P, q);
  }

  /** The dequeued head is reachable, unprocessed and no deeper than anything left in the queue. */
  lemma DequeueHead(ch: Arena, path: seq<seq<char>>, fail: seq<nat>, P: set<nat>, q: seq<nat>)
    requires Bfs(ch, path, fail, P, q) && q != []
    ensures q[0] < |ch| && q[0] !in P && Reach(ch, path, q[0]) && Root in P + {q[0]}
    ensures forall i :: 0 <= i < |q[1..]| ==> |path[q[0]]| <= |path[q[1..][i]]| <= |path[q[0]]| + 1
  {
    HeadState(ch, path, P, q);
    HeadDepths(ch, path, P, q);
  }

  /** The head of a well-formed queue is reachable and unprocessed, and it is the root if the root is queued. */
  lemma HeadState(ch: Arena, path: seq<seq<char>>, P: set<nat>, q: seq<nat>)
    requires Labelled(ch, path) && QueueOk(ch, path, P, q) && q != [] && (Root in P || Root in q)
    ensures q[0] < |ch| && q[0] !in P && Reach(ch, path, q[0]) && Root in P + {q[0]}
  {
    var t := q[0];
    InTail(q);
    HeadShallowest(ch, path, P, q);
    if Root in q {
      ReachUnique(ch, path, t, Root);
    }
  }

  /** Everything queued behind the head is at its depth or one deeper. */
  lemma HeadDepths(ch: Arena, path: seq<seq<char>>, P: set<nat>, q: seq<nat>)
    requires |path| == |ch| && QueueOk(ch, path, P, q) && q != [] && |path[q[|q| - 1]]| <= |path[q[0]]| + 1
    ensures forall i :: 0 <= i < |q[1..]| ==> |path[q[0]]| <= |path[q[1..][i]]| <= |path[q[0]]| + 1
  {
    forall i | 0 <= i < |q[1..]|
      ensures |path[q[0]]| <= |path[q[1..][i]]| <= |path[q[0]]| + 1
    {
      assert q[1..][i] == q[i + 1];
      if i + 1 < |q| - 1 {
        assert |path[q[i + 1]]| <= |path[q[|q| - 1]]|;
      }
    }
  }

  /** Moving the head into P keeps the queue, closure, parent, fail and coverage invariants. */
  lemma DequeuePops(ch: Arena, path: seq<seq<char>>, fail: seq<nat>, P: set<nat>, q: seq<nat>)
    requires Bfs(ch, path, fail, P, q) && q != []
    ensures QueueOk(ch, path, P + {q[0]}, q[1..]) && Closed(ch, P + {q[0]}, q[1..], {q[0]})
    ensures Parents(ch, path, P + {q[0]}, q[1..]) && FailsOk(ch, path, fail, P + {q[0]}, q[1..])
    ensures CoveredTo(ch, path, P + {q[0]}, q[1..], |path[q[0]]|)
  {
    QueuePop(ch, path, P, q);
    ClosedPop(ch, P, q);
    ParentsPop(ch, path, P, q);
    FailsPop(ch, path, fail, P, q);
    CoveredPop(ch, path, P, q, |path[q[0]]|);
  }

  /** No child of the dequeued head is processed or queued yet. */
  lemma DequeueChildren(ch: Arena, path: seq<seq<char>>, fail: seq<nat>, P: set<nat>, q: seq<nat>)
    requires Bfs(ch, path, fail, P, q) && q != []
    ensures q[0] < |ch|
    ensures forall c :: c in ch[q[0]] ==> ch[q[0]][c] !in P + {q[0]} && ch[q[0]][c] !in q[1..]
  {
    var t := q[0];
    InTail(q);
    DequeueHead(ch, path, fail, P, q);
    ChildrenFresh(ch, path, P, q, t);
    forall c | c in ch[t] ensures ch[t][c] != t {
      ChildReach(ch, path, t, c);
    }
  }

  lemma QueuePush(ch: Arena, path: seq<seq<char>>, P: set<nat>, q: seq<nat>, x: nat)
    requires |path| == |ch| && QueueOk(ch, path, P, q) && Reach(ch, path, x) && x !in P && x !in q
    requires forall i :: 0 <= i < |q| ==> |path[q[i]]| <= |path[x]|
    ensures QueueOk(ch, path, P, q + [x])
  {
  }

  lemma ClosedPush(ch: Arena, P: set<nat>, q: seq<nat>, X: set<nat>, x: nat)
    requires Closed(ch, P, q, X)
    ensures Closed(ch, P, q + [x], X)
  {
    InSnoc(q, x);
  }

  lemma ParentsPush(ch: Arena, path: seq<seq<char>>, P: set<nat>, q: seq<nat>, t: nat, c: char)
    requires Labelled(ch, path) && Parents(ch, path, P, q) && t in P && Reach(ch, path, t) && c in ch[t]
    ensures Parents(ch, path, P, q + [ch[t][c]])
  {
    var x := ch[t][c];
    InSnoc(q, x);
    forall n: nat, d | Reach(ch, path, n) && d in ch[n] && (Child(ch, n, d) in P || Child(ch, n, d) in q + [x])
      ensures n in P
    {
      var y := Child(ch, n, d);
      if y == x {
        assert path[y] == path[n] + [d] && path[x] == path[t] + [c];
        assert path[n] == path[y][..|path[y]| - 1] && path[t] == path[x][..|path[x]| - 1];
        ReachUnique(ch, path, n, t);
      }
    }
  }

  lemma FailsPush(ch: Arena, path: seq<seq<char>>, fail: seq<nat>, P: set<nat>, q: seq<nat>, x: nat, f: nat)
    requires Labelled(ch, path) && |fail| == |ch| && FailsOk(ch, path, fail, P, q)
    requires x < |ch| && x !in P && x !in q && FailTargetOk(ch, path, x, f)
    ensures FailsOk(ch, path, fail[x := f], P, q + [x])
  {
    InSnoc(q, x);
  }

  lemma CoveredPush(ch: Arena, path: seq<seq<char>>, P: set<nat>, q: seq<nat>, d: nat, x: nat)
    requires |path| == |ch| && CoveredTo(ch, path, P, q, d)
    ensures CoveredTo(ch, path, P, q + [x], d)
  {
    InSnoc(q, x);
  }

  /** Distinct edges of a node lead to distinct children. */
  lemma SiblingsDiffer(ch: Arena, path: seq<seq<char>>, t: nat, c: char, d: char)
    requires Labelled(ch, path) && t < |ch| && c in ch[t] && d in ch[t] && c != d
    ensures ch[t][c] != ch[t][d]
  {
    assert path[ch[t][c]] == path[t] + [c] && path[ch[t][d]] == path[t] + [d];
    assert path[ch[t][c]][|path[t]|] == c && path[ch[t][d]][|path[t]|] == d;
  }

  /** Queuing the child along c, with its fail target f recorded. */
  lemma ExpandStep(ch: Arena, path: seq<seq<char>>, fail: seq<nat>, P: set<nat>, q: seq<nat>,
                   t: nat, keys: set<char>, c: char, f: nat)
    requires Expanding(ch, path, fail, P, q, t, keys) && c in keys
    requires FailTargetOk(ch, path, ch[t][c], f)
    ensures Expanding(ch, path, fail[ch[t][c] := f], P, q + [ch[t][c]], t, keys - {c})
  {
    var x := ch[t][c];
    ChildReach(ch, path, t, c);
    InSnoc(q, x);
    QueuePush(ch, path, P, q, x);
    ClosedPush(ch, P, q, {t}, x);
    ParentsPush(ch, path, P, q, t, c);
    FailsPush(ch, path, fail, P, q, x, f);
    CoveredPush(ch, path, P, q, |path[t]|, x);
    forall d | d in keys - {c} ensures ch[t][d] != x {
      SiblingsDiffer(ch, path, t, c, d);
    }
  }

  /** Once every child of t is queued, the nodes one level below t are all reached. */
  lemma CoverNext(ch: Arena, path: seq<seq<char>>, P: set<nat>, q: seq<nat>, t: nat)
    requires Labelled(ch, path) && q != [] && QueueOk(ch, path, P, q) && t in P && Reach(ch, path, t)
    requires forall i :: 0 <= i < |q| ==> |path[t]| <= |path[q[i]]| <= |path[t]| + 1
    requires Closed(ch, P, q, {}) && CoveredTo(ch, path, P, q, |path[t]|)
    ensures CoveredTo(ch, path, P, q, |path[q[0]]|)
  {
    HeadShallowest(ch, path, P, q);
    forall n: nat | Reach(ch, path, n) && |path[n]| <= |path[q[0]]| ensures n in P || n in q {
      if |path[n]| > |path[t]| {
        var p, c := ParentOf(ch, path, n);
        assert Child(ch, p, c) == n;
      }
    }
  }

  /** Once every child of t is queued, the queue invariant holds again. */
  lemma ExpandDone(ch: Arena, path: seq<seq<char>>, fail: seq<nat>, P: set<nat>, q: seq<nat>, t: nat)
    requires Expanding(ch, path, fail, P, q, t, {})
    ensures Bfs(ch, path, fail, P, q)
  {
    forall n: nat, c | n in P && n !in {} && n < |ch| && c in ch[n]
      ensures Child(ch, n, c) in P || Child(ch, n, c) in q
    {
      if n == t {
        assert Child(ch, n, c) == ch[t][c];
      }
    }
    if q != [] {
      CoverNext(ch, path, P, q, t);
    }
  }

  /** When every child of a processed node is processed and the root is, every reachable node is. */
  lemma {:induction false} AllProcessed(ch: Arena, path: seq<seq<char>>, P: set<nat>, n: nat)
    requires Labelled(ch, path) && Root in P && Reach(ch, path, n) && Closed(ch, P, [], {})
    ensures n in P
    decreases |path[n]|
  {
    if n != Root {
      var p, c := ParentOf(ch, path, n);
      AllProcessed(ch, path, P, p);
      assert Child(ch, p, c) == n;
    }
  }

  /** With the queue empty every reachable node is processed, so every fail pointer is correct. */
  lemma BfsDone(ch: Arena, path: seq<seq<char>>, fail: seq<nat>, P: set<nat>)
    requires Bfs(ch, path, fail, P, [])
    ensures forall n :: 0 < n < |ch| && Reach(ch, path, n) ==> FailTargetOk(ch, path, n, fail[n])
  {
    forall n: nat | 0 < n < |ch| && Reach(ch, path, n) ensures FailTargetOk(ch, path, n, fail[n]) {
      AllProcessed(ch, path, P, n);
    }
  }

  /** While t's children are queued, t and every node shallower than t have their fail pointers. */
  lemma ShallowerFails(ch: Arena, path: seq<seq<char>>, fail: seq<nat>, P: set<nat>, q: seq<nat>,
                       t: nat, keys: set<char>)
    requires Expanding(ch, path, fail, P, q, t, keys)
    ensures t != Root ==> FailTargetOk(ch, path, t, fail[t])
    ensures forall m :: 0 < m < |ch| && Reach(ch, path, m) && |path[m]| < |path[t]| ==> FailTargetOk(ch, path, m, fail[m])
  {
  }

  /**
   * The state of the search for a new node's fail target: the new node spells
   * st + [c] below the node spelling st; p is the candidate (None once the
   * root's nil fail pointer has been followed), and no suffix longer than the
   * candidate's extension is a path.
   */
  ghost predicate Searching(ch: Arena, path: seq<seq<char>>, st: seq<char>, c: char, p: Option<nat>)
    requires Labelled(ch, path)
  {
    match p
    case Some(m) =>
      && Reach(ch, path, m) && IsSuffix(path[m], st) && |path[m]| < |st|
      && forall k :: |path[m]| + 1 < k <= |st| ==> !IsPath(ch, Suffix(st + [c], k))
    case None =>
      forall k :: 0 < k <= |st| ==> !IsPath(ch, Suffix(st + [c], k))
  }

  lemma SuffixSnoc(st: seq<char>, c: char, k: nat)
    requires 1 <= k <= |st| + 1
    ensures Suffix(st + [c], k) == Suffix(st, k - 1) + [c]
  {
  }

  /** The search starts at the parent's fail target. */
  lemma SearchStart(ch: Arena, path: seq<seq<char>>, t: nat, c: char, f: nat)
    requires Labelled(ch, path) && t < |ch| && FailTargetOk(ch, path, t, f)
    ensures Searching(ch, path, path[t], c, Some(f))
  {
    var st := path[t];
    forall k | |path[f]| + 1 < k <= |st| ensures !IsPath(ch, Suffix(st + [c], k)) {
      SuffixSnoc(st, c, k);
      NotPathSnoc(ch, Suffix(st, k - 1), c);
    }
  }

  /** The candidate lacks the edge: follow its fail pointer, or, at the root, end the search. */
  lemma SearchStep(ch: Arena, path: seq<seq<char>>, st: seq<char>, c: char, m: nat, f: nat)
    requires Labelled(ch, path) && Searching(ch, path, st, c, Some(m)) && c !in ch[m]
    requires m != Root ==> FailTargetOk(ch, path, m, f)
    ensures Searching(ch, path, st, c, if m == Root then None else Some(f))
  {
    WalkLabel(ch, path, path[m]);
    WalkSnoc(ch, path[m], c);
    assert Suffix(st + [c], |path[m]| + 1) == path[m] + [c] by {
      SuffixSnoc(st, c, |path[m]| + 1);
    }
    if m == Root {
      forall k | 0 < k <= |st| ensures !IsPath(ch, Suffix(st + [c], k)) {
      }
    } else {
      forall k | |path[f]| + 1 < k <= |st| ensures !IsPath(ch, Suffix(st + [c], k)) {
        if k <= |path[m]| {
          SuffixSnoc(st, c, k);
          SuffixOfSuffix(st, path[m], k - 1);
          NotPathSnoc(ch, Suffix(st, k - 1), c);
        }
      }
      SuffixOfSuffix(st, path[m], |path[f]|);
    }
  }

  /** The candidate has the edge: its child is the new node's fail target. */
  lemma SearchFound(ch: Arena, path: seq<seq<char>>, t: nat, c: char, m: nat)
    requires Labelled(ch, path) && t < |ch| && c in ch[t]
    requires Searching(ch, path, path[t], c, Some(m)) && c in ch[m]
    ensures FailTargetOk(ch, path, ch[t][c], ch[m][c])
  {
    var st := path[t];
    assert path[ch[t][c]] == st + [c];
    WalkSnoc(ch, path[m], c);
    SuffixSnoc(st, c, |path[m]| + 1);
    WalkLabel(ch, path, path[m] + [c]);
  }

  /** The search ran out: the root is the new node's fail target. */
  lemma SearchExhausted(ch: Arena, path: seq<seq<char>>, t: nat, c: char)
    requires Labelled(ch, path) && t < |ch| && c in ch[t]
    requires Searching(ch, path, path[t], c, None)
    ensures FailTargetOk(ch, path, ch[t][c], Root)
  {
    assert path[ch[t][c]] == path[t] + [c];
  }

  /** A child of the root fails to the root. */
  lemma RootChildFails(ch: Arena, path: seq<seq<char>>, c: char)
    requires Labelled(ch, path) && c in ch[Root]
    ensures FailTargetOk(ch, path, ch[Root][c], Root)
  {
    assert path[ch[Root][c]] == [c];
  }


  // ---------------------------------------------------------------------------
  // Scanning

  /**
   * The state of the fallback loop reading r at a node spelling s: cur spells
   * a suffix of s that is a path, and no suffix of s + [r] longer than cur's
   * extension by r is a path.
   */
  ghost predicate Falling(ch: Arena, path: seq<seq<char>>, s: seq<char>, r: char, cur: nat)
    requires Labelled(ch, path)
  {
    && Reach(ch, path, cur) && IsSuffix(path[cur], s)
    && forall k :: |path[cur]| + 1 < k <= |s| + 1 ==> !IsPath(ch, Suffix(s + [r], k))
  }

  /** Without the edge r, falling back to cur's fail target keeps the state. */
  lemma FallStep(ch: Arena, path: seq<seq<char>>, s: seq<char>, r: char, cur: nat, f: nat)
    requires Labelled(ch, path) && Falling(ch, path, s, r, cur) && r !in ch[cur]
    requires FailTargetOk(ch, path, cur, f)
    ensures Falling(ch, path, s, r, f) && |path[f]| < |path[cur]|
  {
    forall k | |path[f]| + 1 < k <= |path[cur]| + 1 ensures !IsPath(ch, Suffix(s + [r], k)) {
      FallSkipped(ch, path, s, r, cur, f, k);
    }
    SuffixOfSuffix(s, path[cur], |path[f]|);
  }

  /** A suffix length skipped by falling from cur to its fail target f. */
  lemma FallSkipped(ch: Arena, path: seq<seq<char>>, s: seq<char>, r: char, cur: nat, f: nat, k: nat)
    requires Labelled(ch, path) && Reach(ch, path, cur) && IsSuffix(path[cur], s) && r !in ch[cur]
    requires FailTargetOk(ch, path, cur, f) && |path[f]| + 1 < k <= |path[cur]| + 1
    ensures !IsPath(ch, Suffix(s + [r], k))
  {
    SuffixSnoc(s, r, k);
    SuffixOfSuffix(s, path[cur], k - 1);
    if k <= |path[cur]| {
      NotPathSnoc(ch, Suffix(s, k - 1), r);
    } else {
      assert Suffix(path[cur], k - 1) == path[cur];
      WalkSnoc(ch, path[cur], r);
    }
  }

  /** Where the fallback loop stops, the edge r (or the root) gives the new state. */
  lemma FallEnd(ch: Arena, path: seq<seq<char>>, s: seq<char>, r: char, cur: nat)
    requires Labelled(ch, path) && Falling(ch, path, s, r, cur) && (r in ch[cur] || cur == Root)
    ensures var next := if r in ch[cur] then ch[cur][r] else Root;
      Reach(ch, path, next) && IsLongestPathSuffix(ch, path[next], s + [r])
  {
    SuffixSnoc(s, r, |path[cur]| + 1);
    SuffixOfSuffix(s, path[cur], |path[cur]|);
    WalkSnoc(ch, path[cur], r);
    if r in ch[cur] {
      WalkLabel(ch, path, path[cur] + [r]);
    }
  }

  /** The scan state after one more rune. */
  lemma ScanStep(ch: Arena, l: seq<char>, text: seq<char>, pos: nat, r: seq<char>)
    requires pos < |text| && IsLongestPathSuffix(ch, l, text[..pos])
    requires IsLongestPathSuffix(ch, r, l + [text[pos]])
    ensures IsLongestPathSuffix(ch, r, text[..pos + 1])
  {
    assert text[..pos + 1] == text[..pos] + [text[pos]];
    LongestPathSuffixStep(ch, l, text[..pos], text[pos], r);
  }

  /** One link of the output chain: temp contributes its word, if any, and the lengths down to its fail target nothing. */
  lemma ChainStep(ch: Arena, path: seq<seq<char>>, word: seq<Option<Word>>, s: seq<char>, temp: nat, f: nat)
    requires Labelled(ch, path) && |word| == |ch|
    requires forall n :: 0 <= n < |word| && word[n].Some? ==> word[n].value == path[n]
    requires Reach(ch, path, temp) && temp != Root && IsSuffix(path[temp], s)
    requires FailTargetOk(ch, path, temp, f)
    ensures IsSuffix(path[f], s) && |path[f]| < |path[temp]|
    ensures SuffixWords(Words(ch, path, Terminal(word)), s, |path[temp]|) ==
      (if word[temp].Some? then [word[temp].value] else []) + SuffixWords(Words(ch, path, Terminal(word)), s, |path[f]|)
  {
    var dict := Words(ch, path, Terminal(word));
    var k := |path[temp]|;
    assert Suffix(s, k) == path[temp];
    WordsMember(ch, path, Terminal(word), path[temp]);
    forall j | |path[f]| < j <= k - 1 ensures Suffix(s, j) !in dict {
      SuffixOfSuffix(s, path[temp], j);
      WordsMember(ch, path, Terminal(word), Suffix(s, j));
    }
    SuffixWordsSkip(dict, s, |path[f]|, k - 1);
    SuffixOfSuffix(s, path[temp], |path[f]|);
  }

  /** One iteration of the output chain keeps its invariant: the words reported so far, then the rest. */
  lemma ChainAdvance(ch: Arena, path: seq<seq<char>>, word: seq<Option<Word>>, s: seq<char>, temp: nat, f: nat, ws: seq<Word>)
    requires Labelled(ch, path) && |word| == |ch|
    requires forall n :: 0 <= n < |word| && word[n].Some? ==> word[n].value == path[n]
    requires Reach(ch, path, temp) && temp != Root && IsSuffix(path[temp], s)
    requires FailTargetOk(ch, path, temp, f)
    requires ws + SuffixWords(Words(ch, path, Terminal(word)), s, |path[temp]|) == SuffixWords(Words(ch, path, Terminal(word)), s, |s|)
    ensures IsSuffix(path[f], s) && |path[f]| < |path[temp]|
    ensures (if word[temp].Some? then ws + [word[temp].value] else ws) + SuffixWords(Words(ch, path, Terminal(word)), s, |path[f]|)
      == SuffixWords(Words(ch, path, Terminal(word)), s, |s|)
  {
    ChainStep(ch, path, word, s, temp, f);
    var dict := Words(ch, path, Terminal(word));
    var rest := SuffixWords(dict, s, |path[f]|);
    if word[temp].Some? {
      assert ws + ([word[temp].value] + rest) == (ws + [word[temp].value]) + rest;
    } else {
      assert [] + rest == rest;
    }
  }

  /** The words reported at a state are the dictionary words ending the text read so far. */
  lemma StateWords(ch: Arena, path: seq<seq<char>>, terminal: set<nat>, l: seq<char>, s: seq<char>)
    requires Labelled(ch, path) && IsLongestPathSuffix(ch, l, s)
    ensures SuffixWords(Words(ch, path, terminal), l, |l|) == SuffixWords(Words(ch, path, terminal), s, |s|)
  {
    var dict := Words(ch, path, terminal);
    SuffixWordsShift(dict, l, s, |l|);
    forall k | |l| < k <= |s| ensures Suffix(s, k) !in dict {
      WordsMember(ch, path, terminal, Suffix(s, k));
    }
    SuffixWordsSkip(dict, s, |l|, |s|);
  }

  /**
   * The condition under which the source's transition code is right: the
   * node has an edge r, or is the root, or fails straight to the root.
   */
  predicate StepOk(ch: Arena, fail: seq<nat>, now: nat, r: char)
    requires now < |ch|
  {
    r in ch[now] || now == Root || (now < |fail| && fail[now] == Root)
  }

  /**
   * The source's transition code dereferences nil: a miss at a non-root
   * node whose fail target is not the root, and a miss again at the fail
   * target's own fail target.
   */
  predicate PanicsAt(ch: Arena, fail: seq<nat>, now: nat, r: char)
    requires now < |ch|
  {
    && r !in ch[now] && now != Root && now < |fail| && fail[now] != Root
    && fail[now] < |fail| && fail[fail[now]] < |ch| && r !in ch[fail[fail[now]]]
  }

  /**
   * The transition exactly as lines 150-163 write it, on built fail
   * pointers; None where the source dereferences nil. On a miss at a
   * non-root node that does not fail to the root, the retry loop's post
   * statement moves to the child c along r of the fail target's fail target,
   * and line 159 then follows c's own edge r, or goes to the root.
   */
  ghost function WrittenMove(ch: Arena, path: seq<seq<char>>, fail: seq<nat>, now: nat, r: char): (next: Option<nat>)
    requires Labelled(ch, path) && |fail| == |ch| && Reach(ch, path, now)
    requires forall n :: 0 < n < |ch| && Reach(ch, path, n) ==> FailTargetOk(ch, path, n, fail[n])
    ensures next.None? <==> PanicsAt(ch, fail, now, r)
    ensures next.Some? ==> next.value < |ch|
  {
    if r in ch[now] then Some(ch[now][r])
    else if now == Root then Some(Root)
    else
      var f1 := fail[now];
      assert FailTargetOk(ch, path, now, f1);
      if f1 == Root then (if r in ch[Root] then Some(ch[Root][r]) else Some(Root))
      else
        var f2 := fail[f1];
        assert FailTargetOk(ch, path, f1, f2);
        if r !in ch[f2] then None
        else
          var c := ch[f2][r];
          if r in ch[c] then Some(ch[c][r]) else Some(Root)
  }

  /** Where StepOk holds, the transition as written is the intended one: the longest path suffix of the state plus r. */
  lemma WrittenMoveOk(ch: Arena, path: seq<seq<char>>, fail: seq<nat>, now: nat, r: char)
    requires Labelled(ch, path) && |fail| == |ch| && Reach(ch, path, now)
    requires forall n :: 0 < n < |ch| && Reach(ch, path, n) ==> FailTargetOk(ch, path, n, fail[n])
    requires StepOk(ch, fail, now, r)
    ensures WrittenMove(ch, path, fail, now, r).Some?
    ensures var next := WrittenMove(ch, path, fail, now, r).value;
      Reach(ch, path, next) && IsLongestPathSuffix(ch, path[next], path[now] + [r])
  {
    if r in ch[now] || now == Root {
      FallEnd(ch, path, path[now], r, now);
    } else {
      FallStep(ch, path, path[now], r, now, fail[now]);
      FallEnd(ch, path, path[now], r, Root);
    }
  }

  /**
   * The transition as written goes wrong without panicking: with the words
   * "aa" and "bb", reading 'b' at the node for "aa" (text "aab") should lead
   * to the node for "b", but the source moves to the node for "bb", whose
   * word the output chain then reports although it does not occur.
   */
  lemma AaBbMisleads(ch: Arena, path: seq<seq<char>>, fail: seq<nat>)
    requires Labelled(ch, path) && |fail| == |ch|
    requires forall n :: 0 < n < |ch| && Reach(ch, path, n) ==> FailTargetOk(ch, path, n, fail[n])
    requires forall s :: IsPath(ch, s) <==> s <= "aa" || s <= "bb"
    ensures IsPath(ch, "aa") && IsPath(ch, "bb") && Reach(ch, path, Walk(ch, "aa").value)
    ensures !StepOk(ch, fail, Walk(ch, "aa").value, 'b') && !PanicsAt(ch, fail, Walk(ch, "aa").value, 'b')
    ensures WrittenMove(ch, path, fail, Walk(ch, "aa").value, 'b') == Walk(ch, "bb")
    ensures IsLongestPathSuffix(ch, "b", "aa" + ['b'])
    ensures !IsSuffix("bb", "aa" + ['b']) && !IsLongestPathSuffix(ch, "bb", "aa" + ['b'])
  {
    AaBbNodes(ch, path);
    var n := Walk(ch, "aa").value;
    assert "aa"[1..] == "a";
    TwoRuneFails(ch, path, fail, n);
    AaBbEdges(ch, path, n);
    AaBbState(ch);
    assert ("aa" + ['b'])[1..] == "ab";
  }

  /** The nodes for "a", "aa", "b" and "bb" exist, labelled with their strings. */
  lemma AaBbNodes(ch: Arena, path: seq<seq<char>>)
    requires Labelled(ch, path)
    requires forall s :: IsPath(ch, s) <==> s <= "aa" || s <= "bb"
    ensures IsPath(ch, "a") && IsPath(ch, "aa") && IsPath(ch, "b") && IsPath(ch, "bb")
    ensures Reach(ch, path, Walk(ch, "aa").value) && path[Walk(ch, "aa").value] == "aa"
    ensures Reach(ch, path, Walk(ch, "a").value) && path[Walk(ch, "a").value] == "a"
  {
    assert "a" <= "aa" && "b" <= "bb";
    WalkLabel(ch, path, "aa");
    WalkLabel(ch, path, "a");
  }

  /** The node for "aa" has no edge 'b'; the root's edge 'b' leads to the node for "b", whose edge 'b' leads to "bb". */
  lemma AaBbEdges(ch: Arena, path: seq<seq<char>>, n: nat)
    requires Labelled(ch, path)
    requires forall s :: IsPath(ch, s) <==> s <= "aa" || s <= "bb"
    requires n < |ch| && Walk(ch, "aa") == Some(n)
    ensures 'b' !in ch[n] && 'b' in ch[Root]
    ensures var b := ch[Root]['b']; b < |ch| && 'b' in ch[b] && Some(ch[b]['b']) == Walk(ch, "bb")
  {
    AaBbMiss(ch, n);
    AaBbRootEdge(ch, path);
  }

  /** The node for "aa" has no edge 'b', since "aab" is a prefix of neither word. */
  lemma AaBbMiss(ch: Arena, n: nat)
    requires forall s :: IsPath(ch, s) <==> s <= "aa" || s <= "bb"
    requires n < |ch| && Walk(ch, "aa") == Some(n)
    ensures 'b' !in ch[n]
  {
    var t := "aa" + ['b'];
    WalkSnoc(ch, "aa", 'b');
    NotPrefix(t, "bb", 0);
    assert !IsPath(ch, t);
  }

  /** The root's edge 'b' leads to the node for "b", whose edge 'b' leads to the node for "bb". */
  lemma AaBbRootEdge(ch: Arena, path: seq<seq<char>>)
    requires Labelled(ch, path)
    requires forall s :: IsPath(ch, s) <==> s <= "aa" || s <= "bb"
    ensures 'b' in ch[Root]
    ensures var b := ch[Root]['b']; b < |ch| && 'b' in ch[b] && Some(ch[b]['b']) == Walk(ch, "bb")
  {
    var one: seq<char> := "b";
    assert [] + ['b'] == one && one + ['b'] == "bb";
    assert one <= "bb";
    assert IsPath(ch, one) && IsPath(ch, "bb");
    WalkSnoc(ch, [], 'b');
    WalkSnoc(ch, one, 'b');
  }

  /** The longest suffix of "aab" that is a path is "b". */
  lemma AaBbState(ch: Arena)
    requires forall s :: IsPath(ch, s) <==> s <= "aa" || s <= "bb"
    ensures IsLongestPathSuffix(ch, "b", "aa" + ['b'])
  {
    var t := "aa" + ['b'];
    assert Suffix(t, 1) == "b" && "b" <= "bb";
    assert Suffix(t, 2) == "ab";
    NotPrefix("ab", "aa", 1);
    NotPrefix("ab", "bb", 0);
    assert Suffix(t, 3) == t;
    NotPrefix(t, "bb", 0);
  }

  /**
   * The source's transition panics on an ordinary dictionary: with the words
   * "abc" and "bc" and correct fail pointers, the node for "ab" fails to the
   * node for "b", which fails to the root, and reading 'x' there misses
   * three times, so the text "abx" makes the scan dereference nil.
   */
  lemma AbcBcPanics(ch: Arena, path: seq<seq<char>>, fail: seq<nat>)
    requires Labelled(ch, path) && |fail| == |ch|
    requires forall n :: 0 < n < |ch| && Reach(ch, path, n) ==> FailTargetOk(ch, path, n, fail[n])
    requires forall s :: IsPath(ch, s) <==> s <= "abc" || s <= "bc"
    ensures IsPath(ch, "ab") && Walk(ch, "ab").value < |ch|
    ensures PanicsAt(ch, fail, Walk(ch, "ab").value, 'x')
  {
    AbcBcNodes(ch, path);
    var n := Walk(ch, "ab").value;
    assert "ab"[1..] == "b";
    TwoRuneFails(ch, path, fail, n);
    AbcBcMisses(ch, path, n);
  }

  /** The nodes for "ab" and "b" exist and are not the root. */
  lemma AbcBcNodes(ch: Arena, path: seq<seq<char>>)
    requires Labelled(ch, path)
    requires forall s :: IsPath(ch, s) <==> s <= "abc" || s <= "bc"
    ensures IsPath(ch, "ab") && IsPath(ch, "b")
    ensures Reach(ch, path, Walk(ch, "ab").value) && path[Walk(ch, "ab").value] == "ab"
  {
    assert "ab" <= "abc" && "b" <= "bc";
    WalkLabel(ch, path, "ab");
  }

  /**
   * A node two runes deep whose last rune alone is a path fails to that
   * one-rune node, which fails to the root.
   */
  lemma TwoRuneFails(ch: Arena, path: seq<seq<char>>, fail: seq<nat>, n: nat)
    requires Labelled(ch, path) && |fail| == |ch|
    requires forall n :: 0 < n < |ch| && Reach(ch, path, n) ==> FailTargetOk(ch, path, n, fail[n])
    requires Reach(ch, path, n) && |path[n]| == 2 && IsPath(ch, path[n][1..])
    ensures fail[n] != Root && fail[n] < |ch| && fail[fail[n]] == Root
  {
    assert n != Root;
    var f1 := fail[n];
    assert FailTargetOk(ch, path, n, f1);
    assert Suffix(path[n], 1) == path[n][1..];
    assert |path[f1]| == 1;
    assert f1 != Root;
    var f2 := fail[f1];
    assert FailTargetOk(ch, path, f1, f2);
    assert path[f2] == [];
  }

  /** Neither the node for "ab" nor the root has an edge 'x'. */
  lemma AbcBcMisses(ch: Arena, path: seq<seq<char>>, n: nat)
    requires Labelled(ch, path)
    requires forall s :: IsPath(ch, s) <==> s <= "abc" || s <= "bc"
    requires n < |ch| && Walk(ch, "ab") == Some(n)
    ensures 'x' !in ch[n] && 'x' !in ch[Root]
  {
    AbcBcMissAt(ch, n);
    AbcBcMissRoot(ch);
  }

  /** The node for "ab" has no edge 'x', since "abx" is a prefix of neither word. */
  lemma AbcBcMissAt(ch: Arena, n: nat)
    requires forall s :: IsPath(ch, s) <==> s <= "abc" || s <= "bc"
    requires n < |ch| && Walk(ch, "ab") == Some(n)
    ensures 'x' !in ch[n]
  {
    var t := "ab" + ['x'];
    WalkSnoc(ch, "ab", 'x');
    NotPrefix(t, "abc", 2);
    NotPrefix(t, "bc", 0);
    assert !IsPath(ch, t);
  }

  /** The root has no edge 'x', since no word starts with 'x'. */
  lemma AbcBcMissRoot(ch: Arena)
    requires forall s :: IsPath(ch, s) <==> s <= "abc" || s <= "bc"
    requires 0 < |ch|
    ensures 'x' !in ch[Root]
  {
    var t := [] + ['x'];
    WalkSnoc(ch, [], 'x');
    NotPrefix(t, "abc", 0);
    NotPrefix(t, "bc", 0);
    assert !IsPath(ch, t);
  }


  class AcModel {
    var children: Arena
    var word: seq<Option<Word>>
    var fail: seq<nat>
    ghost var path: seq<seq<char>>

    ghost predicate Valid()
      reads this
    {
      && Labelled(children, path)
      && |word| == |children|
      && |fail| == |children|
      && forall n :: 0 <= n < |word| && word[n].Some? ==> word[n].value == path[n]
    }

    /** The dictionary: the strings of the reachable nodes that complete a word. */
    ghost function Dict(): set<Word>
      reads this
      requires Valid()
    {
      Words(children, path, Terminal(word))
    }

    /** The reachable nodes. */
    ghost function Reachable(): set<nat>
      reads this
      requires Valid()
    {
      set n | 0 <= n < |children| && Reach(children, path, n)
    }

    /** Every reachable node other than the root has its correct fail pointer. */
    ghost predicate Built()
      reads this
    {
      && Valid()
      && forall n :: 0 < n < |children| && Reach(children, path, n) ==> FailTargetOk(children, path, n, fail[n])
    }

    /** NewAcModel: a trie holding only the root. */
    constructor ()
      ensures Built()
      ensures Dict() == {}
      ensures forall s :: IsPath(children, s) <==> s == []
    {
      children := [map[]];
      word := [None];
      fail := [Root];
      path := [[]];
      new;
      forall s ensures IsPath(children, s) <==> s == [] {
        if s != [] {
          assert Walk(children, s) == None;
        }
      }
      forall w ensures w !in Dict() {
        WordsMember(children, path, Terminal(word), w);
      }
    }

    /**
     * AddWord: walk the word's runes from the root, creating each missing child,
     * and record the word at the last node.
     */
    method AddWord(w: Word)
      requires Valid()
      modifies this
      ensures Valid()
      ensures Dict() == old(Dict()) + {w}
      ensures IsPath(children, w) && word[Walk(children, w).value] == Some(w)
      ensures |path[Walk(children, w).value]| == |w|
      ensures forall s :: IsPath(children, s) <==> old(IsPath(children, s)) || s <= w
      ensures forall s :: old(IsPath(children, s)) ==> Walk(children, s) == old(Walk(children, s))
      ensures |fail| >= old(|fail|) && fail[..old(|fail|)] == old(fail)
    {
      ghost var ch0 := children;
      ghost var dict0 := Dict();
      ghost var fail0 := fail;
      var now: nat := Root;
      var i: nat := 0;
      while i < |w|
        invariant Growing(ch0, dict0, children, path, word, w, i, now)
        invariant |fail| == |children| && fail[..|fail0|] == fail0
      {
        now := Descend(ch0, dict0, fail0, w, i, now);
        i := i + 1;
      }
      assert w[..i] == w;
      WalkLabel(children, path, w);
      assert Terminal(word[now := Some(w)]) == Terminal(word) + {now};
      WordsMark(children, path, Terminal(word), now);
      word := word[now := Some(w)];
    }

    /** One rune of AddWord: follow the child for w[i], creating it, with a root fail pointer, when it is missing. */
    method Descend(ghost ch0: Arena, ghost dict0: set<Word>, ghost fail0: seq<nat>, w: Word, i: nat, now: nat) returns (next: nat)
      requires i < |w| && Growing(ch0, dict0, children, path, word, w, i, now)
      requires |fail| == |children| && |fail0| <= |fail| && fail[..|fail0|] == fail0
      modifies this
      ensures Growing(ch0, dict0, children, path, word, w, i + 1, next)
      ensures |fail| == |children| && |fail0| <= |fail| && fail[..|fail0|] == fail0
    {
      var r := w[i];
      if r in children[now] {
        GrowAlong(ch0, children, w, i, now);
        next := children[now][r];
      } else {
        GrowingNew(ch0, dict0, children, path, word, w, i, now);
        next := |children|;
        children := AddChild(children, now, r);
        path := path + [path[now] + [r]];
        word := word + [None];
        fail := fail + [Root];
      }
    }

    /** AddWords: add each word in turn, then rebuild the fail pointers. */
    method AddWords(ws: seq<Word>)
      requires Valid()
      modifies this
      ensures Built()
      ensures Dict() == old(Dict()) + set i | 0 <= i < |ws| :: ws[i]
      ensures forall s :: IsPath(children, s) <==> old(IsPath(children, s)) || exists i :: 0 <= i < |ws| && s <= ws[i]
    {
      var i := 0;
      while i < |ws|
        invariant i <= |ws| && Valid()
        invariant Dict() == old(Dict()) + set j | 0 <= j < i :: ws[j]
        invariant forall s :: IsPath(children, s) <==> old(IsPath(children, s)) || exists j :: 0 <= j < i && s <= ws[j]
      {
        AddWord(ws[i]);
        assert (set j | 0 <= j < i + 1 :: ws[j]) == (set j | 0 <= j < i :: ws[j]) + {ws[i]};
        i := i + 1;
      }
      BuildFailPointers();
    }

    /**
     * DelWord: walk the word's runes, remembering the deepest node before the
     * last rune that completes a word, and cut the edge that leaves it along
     * the word. A missing rune ends the call early; with no such node the
     * source dereferences nil (NoTerminalPrefix), and nothing changes.
     */
    method DelWord(w: Word) returns (outcome: DelOutcome)
      requires Valid()
      modifies this
      ensures Valid()
      ensures word == old(word) && fail == old(fail) && path == old(path)
      ensures outcome == PathMissing <==> !old(IsPath(children, w))
      ensures outcome == NoTerminalPrefix <==> old(IsPath(children, w)) && DeepestPrefixIn(old(Dict()), w, |w|).None?
      ensures outcome != Deleted ==> children == old(children)
      ensures outcome == Deleted ==> DeepestPrefixIn(old(Dict()), w, |w|).Some?
      ensures outcome == Deleted ==>
        var k := DeepestPrefixIn(old(Dict()), w, |w|).value;
        && (forall s :: IsPath(children, s) <==> old(IsPath(children, s)) && !(w[..k + 1] <= s))
        && (forall v :: v in Dict() <==> v in old(Dict()) && !(w[..k + 1] <= v))
      ensures outcome == Deleted ==> w !in Dict()
      ensures outcome == Deleted ==> forall j :: 0 <= j < |w| && w[..j] in old(Dict()) ==> w[..j] in Dict()
      ensures DelStep(old(children), path, Terminal(word), w) == if outcome == NoTerminalPrefix then None else Some(children)
    {
      var missing, lastLeaf, lastRune := DeepestLeaf(w);
      if missing {
        return PathMissing;
      }
      if lastLeaf.None? {
        return NoTerminalPrefix;
      }
      ghost var k := DeepestPrefixIn(Dict(), w, |w|).value;
      var leaf := lastLeaf.value;
      WalkLabel(children, path, w[..k]);
      CutAfterPrefix(children, path, Terminal(word), w, k, leaf);
      children := CutEdge(children, leaf, lastRune);
      outcome := Deleted;
    }

    /**
     * The walk of DelWord along w: whether w leaves the trie, and otherwise
     * the node of the longest proper prefix of w that is a word, with the
     * rune of w that follows it.
     */
    method DeepestLeaf(w: Word) returns (missing: bool, lastLeaf: Option<nat>, lastRune: char)
      requires Valid()
      ensures missing <==> !IsPath(children, w)
      ensures !missing ==> (lastLeaf.None? <==> DeepestPrefixIn(Dict(), w, |w|).None?)
      ensures !missing && lastLeaf.Some? ==>
        DeepestPrefixIn(Dict(), w, |w|).Some? &&
        Walk(children, w[..DeepestPrefixIn(Dict(), w, |w|).value]) == lastLeaf &&
        lastRune == w[DeepestPrefixIn(Dict(), w, |w|).value]
    {
      lastLeaf, lastRune := None, '\0';
      var now: nat := Root;
      var i: nat := 0;
      while i < |w|
        invariant i <= |w| && Walk(children, w[..i]) == Some(now)
        invariant lastLeaf.None? == DeepestPrefixIn(Dict(), w, i).None?
        invariant lastLeaf.Some? ==>
          Walk(children, w[..DeepestPrefixIn(Dict(), w, i).value]) == lastLeaf &&
          lastRune == w[DeepestPrefixIn(Dict(), w, i).value]
      {
        var r := w[i];
        DeepestStep(children, path, Terminal(word), w, i, now);
        if r !in children[now] {
          return true, lastLeaf, lastRune;
        }
        if word[now].Some? {
          lastLeaf := Some(now);
          lastRune := r;
        }
        now := children[now][r];
        i := i + 1;
      }
      assert w[..i] == w;
      missing := false;
    }

    /** DelWords: delete each word in turn, then rebuild the fail pointers; false when a deletion panics. */
    method DelWords(ws: seq<Word>) returns (ok: bool)
      requires Valid()
      modifies this
      ensures Valid()
      ensures Dict() <= old(Dict())
      ensures ok ==> Built()
      ensures ok ==> forall i :: 0 <= i < |ws| ==> ws[i] !in Dict()
      ensures word == old(word) && path == old(path)
      ensures ok <==> DelAll(old(children), old(path), Terminal(old(word)), ws).Some?
      ensures ok ==> children == DelAll(old(children), old(path), Terminal(old(word)), ws).value
    {
      var i := 0;
      while i < |ws|
        invariant i <= |ws| && Valid()
        invariant Dict() <= old(Dict())
        invariant forall j :: 0 <= j < i ==> ws[j] !in Dict()
        invariant word == old(word) && path == old(path)
        invariant DelAll(old(children), path, Terminal(word), ws) == DelAll(children, path, Terminal(word), ws[i..])
      {
        assert ws[i..][0] == ws[i] && ws[i..][1..] == ws[i + 1..];
        ghost var before := Dict();
        var outcome := DelWord(ws[i]);
        if outcome == NoTerminalPrefix {
          return false;
        }
        if outcome == PathMissing {
          WordsMember(children, path, Terminal(word), ws[i]);
        }
        i := i + 1;
      }
      BuildFailPointers();
      ok := true;
    }

    /**
     * buildFailPointers: a breadth-first pass from the root. A child of the
     * root fails to the root; any other child along c follows the fail chain
     * from its parent's fail target to the first node with an edge c, and
     * fails to the root when the chain runs past the root.
     */
    method BuildFailPointers()
      requires Valid()
      modifies this
      ensures Built()
      ensures children == old(children) && word == old(word) && path == old(path)
    {
      ghost var P: set<nat> := {};
      var q: seq<nat> := [Root];
      BfsInit(children, path, fail);
      while q != []
        invariant Valid() && children == old(children) && word == old(word) && path == old(path)
        invariant Bfs(children, path, fail, P, q)
        decreases Reachable() - P
      {
        var t := q[0];
        Dequeue(children, path, fail, P, q);
        assert t in Reachable();
        q := q[1..];
        P := P + {t};
        q := ExpandNode(P, q, t);
        ExpandDone(children, path, fail, P, q, t);
      }
      BfsDone(children, path, fail, P);
    }

    /**
     * The inner loop of buildFailPointers: give every child of the dequeued
     * node t its fail pointer and enqueue it.
     */
    method ExpandNode(ghost P: set<nat>, q0: seq<nat>, t: nat) returns (q: seq<nat>)
      requires Valid() && t < |children| && Expanding(children, path, fail, P, q0, t, children[t].Keys)
      modifies this
      ensures Valid() && children == old(children) && word == old(word) && path == old(path)
      ensures Expanding(children, path, fail, P, q, t, {})
    {
      q := q0;
      var keys := children[t].Keys;
      while keys != {}
        invariant Valid() && children == old(children) && word == old(word) && path == old(path)
        invariant Expanding(children, path, fail, P, q, t, keys)
        decreases keys
      {
        var c :| c in keys;
        q := ExpandChild(P, q, t, keys, c);
        keys := keys - {c};
      }
    }

    /** One child of ExpandNode: set the fail pointer of t's child along c and enqueue that child. */
    method ExpandChild(ghost P: set<nat>, q0: seq<nat>, t: nat, ghost keys: set<char>, c: char) returns (q: seq<nat>)
      requires Valid() && t < |children| && c in keys && Expanding(children, path, fail, P, q0, t, keys)
      modifies this
      ensures Valid() && children == old(children) && word == old(word) && path == old(path)
      ensures Expanding(children, path, fail, P, q, t, keys - {c})
    {
      var x := children[t][c];
      if t == Root {
        RootChildFails(children, path, c);
        ExpandStep(children, path, fail, P, q0, t, keys, c, Root);
        fail := fail[x := Root];
      } else {
        ShallowerFails(children, path, fail, P, q0, t, keys);
        var f := FailTarget(t, c);
        ExpandStep(children, path, fail, P, q0, t, keys, c, f);
        fail := fail[x := f];
      }
      q := q0 + [x];
    }

    /**
     * The fail chain search of buildFailPointers for the child along c of a
     * non-root node t: from t's fail target, follow fail pointers to the first
     * node with an edge c and fail to that edge's child; once the chain runs
     * past the root, whose fail pointer is nil, fail to the root.
     */
    method FailTarget(t: nat, c: char) returns (f: nat)
      requires Valid() && t < |children| && c in children[t] && FailTargetOk(children, path, t, fail[t])
      requires forall m :: 0 < m < |children| && Reach(children, path, m) && |path[m]| < |path[t]| ==>
        FailTargetOk(children, path, m, fail[m])
      ensures FailTargetOk(children, path, children[t][c], f)
    {
      var p: Option<nat> := Some(fail[t]);
      SearchStart(children, path, t, c, fail[t]);
      while p.Some?
        invariant Searching(children, path, path[t], c, p)
        decreases if p.Some? then |path[p.value]| + 1 else 0
      {
        var m := p.value;
        if c in children[m] {
          SearchFound(children, path, t, c, m);
          return children[m][c];
        }
        SearchStep(children, path, path[t], c, m, fail[m]);
        p := if m == Root then None else Some(fail[m]);
      }
      SearchExhausted(children, path, t, c);
      f := Root;
    }

    /**
     * The transition of the six scans (the corrected form of lines 150-163):
     * fall back along fail pointers until the node has an edge r or is the
     * root, then take the edge, or stay at the root.
     */
    method Next(now: nat, r: char) returns (next: nat)
      requires Built() && Reach(children, path, now)
      ensures Reach(children, path, next) && IsLongestPathSuffix(children, path[next], path[now] + [r])
    {
      var cur := now;
      while r !in children[cur] && cur != Root
        invariant Falling(children, path, path[now], r, cur)
        decreases |path[cur]|
      {
        FallStep(children, path, path[now], r, cur, fail[cur]);
        cur := fail[cur];
      }
      FallEnd(children, path, path[now], r, cur);
      if r in children[cur] {
        next := children[cur][r];
      } else {
        next := Root;
      }
    }

    /**
     * The output chain of a scan step: from the node reached, follow fail
     * pointers down to the root, reporting the word of every node that holds
     * one: the dictionary words ending the node's string, longest first.
     */
    method Chain(now: nat) returns (ws: seq<Word>)
      requires Built() && Reach(children, path, now)
      ensures ws == SuffixWords(Dict(), path[now], |path[now]|)
    {
      ws := [];
      var temp := now;
      while temp != Root
        invariant Reach(children, path, temp) && IsSuffix(path[temp], path[now])
        invariant ws + SuffixWords(Dict(), path[now], |path[temp]|) == SuffixWords(Dict(), path[now], |path[now]|)
        decreases |path[temp]|
      {
        ChainAdvance(children, path, word, path[now], temp, fail[temp], ws);
        if word[temp].Some? {
          ws := ws + [word[temp].value];
        }
        temp := fail[temp];
      }
      assert ws + [] == ws;
    }

    /**
     * One iteration of a scan loop: read rune r = text[pos] in the state for
     * text[..pos]; the new state is the one for text[..pos + 1], and the
     * words reported are the dictionary words ending there, longest first.
     */
    method Advance(now: nat, r: char, ghost text: seq<char>, ghost pos: nat) returns (next: nat, ws: seq<Word>)
      requires Built() && Reach(children, path, now)
      requires pos < |text| && text[pos] == r && IsLongestPathSuffix(children, path[now], text[..pos])
      ensures Reach(children, path, next) && IsLongestPathSuffix(children, path[next], text[..pos + 1])
      ensures ws == SuffixWords(Dict(), text[..pos + 1], pos + 1)
    {
      next := Next(now, r);
      ScanStep(children, path[now], text, pos, path[next]);
      ws := Chain(next);
      StateWords(children, path, Terminal(word), path[next], text[..pos + 1]);
    }

    /** FindAll: every dictionary word occurring in text, once each, in order of first report. */
    method FindAll(text: seq<char>) returns (res: seq<Word>)
      requires Built()
      ensures res == Dedup(AcStream(Dict(), text))
    {
      ghost var d := Dict();
      var matches: seq<Word> := [];
      var now: nat := Root;
      var pos := 0;
      while pos < |text|
        invariant pos <= |text| && Reach(children, path, now)
        invariant IsLongestPathSuffix(children, path[now], text[..pos])
        invariant matches == AcStreamUpTo(d, text, pos)
      {
        var ws;
        now, ws := Advance(now, text[pos], text, pos);
        matches := matches + ws;
        pos := pos + 1;
      }
      res := Distinct(matches);
    }

    /** FindAllCount: how many times each dictionary word is reported. */
    method FindAllCount(text: seq<char>) returns (res: map<Word, nat>)
      requires Built()
      ensures res == Tally(AcStream(Dict(), text))
    {
      ghost var d := Dict();
      res := map[];
      var now: nat := Root;
      var pos := 0;
      while pos < |text|
        invariant pos <= |text| && Reach(children, path, now)
        invariant IsLongestPathSuffix(children, path[now], text[..pos])
        invariant res == Tally(AcStreamUpTo(d, text, pos))
      {
        ghost var before := AcStreamUpTo(d, text, pos);
        var ws;
        now, ws := Advance(now, text[pos], text, pos);
        res := AddCounts(res, before, ws);
        pos := pos + 1;
      }
    }

    /** FindOne: the first word reported, or the empty string. */
    method FindOne(text: seq<char>) returns (w: Word)
      requires Built()
      ensures w == FirstOrEmpty(AcStream(Dict(), text))
    {
      ghost var d := Dict();
      var now: nat := Root;
      var pos := 0;
      while pos < |text|
        invariant pos <= |text| && Reach(children, path, now)
        invariant IsLongestPathSuffix(children, path[now], text[..pos])
        invariant AcStreamUpTo(d, text, pos) == []
      {
        var ws;
        now, ws := Advance(now, text[pos], text, pos);
        AcStreamFirstStep(d, text, pos);
        if ws != [] {
          return ws[0];
        }
        pos := pos + 1;
      }
      return [];
    }

    /** IsSensitive: whether any dictionary word occurs in text. */
    method IsSensitive(text: seq<char>) returns (b: bool)
      requires Built()
      ensures b <==> HasMatch(Dict(), text)
    {
      var w := FindOne(text);
      AcStreamEmpty(Dict(), text);
      AcStreamWords(Dict(), text, |text|);
      b := w != [];
    }

    /**
     * Replace: every rune of text that lies in an occurrence of a dictionary
     * word becomes repl.
     */
    method Replace(text: seq<char>, repl: char) returns (r: seq<char>)
      requires Built()
      ensures r == MaskAll(Dict(), text, repl)
    {
      ghost var d := Dict();
      var runes := new char[|text|](i requires 0 <= i < |text| => text[i]);
      MaskedNothing(d, text, repl);
      var now: nat := Root;
      var pos := 0;
      while pos < |text|
        invariant pos <= |text| && runes.Length == |text|
        invariant Reach(children, path, now) && IsLongestPathSuffix(children, path[now], text[..pos])
        invariant runes[..] == MaskedUpTo(d, text, pos, repl)
      {
        now := MaskStep(runes, now, text, pos, repl);
        pos := pos + 1;
      }
      r := runes[..];
      MaskedEverything(d, text, repl);
    }

    /** One iteration of Replace: advance the automaton over text[pos] and mask the words reported there. */
    method MaskStep(runes: array<char>, now: nat, text: seq<char>, pos: nat, repl: char) returns (next: nat)
      requires Built() && pos < |text| && runes.Length == |text|
      requires Reach(children, path, now) && IsLongestPathSuffix(children, path[now], text[..pos])
      requires runes[..] == MaskedUpTo(Dict(), text, pos, repl)
      modifies runes
      ensures Reach(children, path, next) && IsLongestPathSuffix(children, path[next], text[..pos + 1])
      ensures runes[..] == MaskedUpTo(Dict(), text, pos + 1, repl)
    {
      ghost var d := Dict();
      var ws;
      assert runes[pos] == runes[..][pos];
      next, ws := Advance(now, runes[pos], text, pos);
      SuffixWordsLongestFirst(d, text[..pos + 1], pos + 1);
      ghost var before := runes[..];
      MaskEnding(runes, ws, pos + 1, repl);
      MaskedStep(d, text, pos, repl, before, runes[..]);
    }

    /**
     * Remove: scan text, and whenever a word is reported, splice that many
     * runes off the end of the output so far. When a reported word is longer
     * than what is left of the output, the source's slice bound is negative
     * and it panics: the result is None.
     */
    method Remove(text: seq<char>) returns (r: Option<seq<char>>)
      requires Built()
      ensures r == AcRemove(Dict(), text)
    {
      ghost var d := Dict();
      var runes := text;
      var now: nat := Root;
      var pos: int := 0;
      ghost var n := 0;
      ghost var out: seq<char> := [];
      while pos < |runes|
        invariant n <= |text| && AcRemoveUpTo(d, text, n) == Some(out)
        invariant runes == out + text[n..] && pos == |out|
        invariant Reach(children, path, now) && IsLongestPathSuffix(children, path[now], text[..n])
        decreases |text| - n
      {
        var ws;
        now, ws := Advance(now, runes[pos], text, n);
        assert AcRemoveUpTo(d, text, n + 1) == SpliceAll(out + [text[n]], ws);
        ShiftRune(out, text, n);
        var ok;
        runes, pos, ok := SpliceOff(runes, pos, ws, out + [text[n]], text[n + 1..]);
        if !ok {
          AcRemoveStaysNone(d, text, n + 1, |text|);
          return None;
        }
        out := SpliceAll(out + [text[n]], ws).value;
        pos := pos + 1;
        n := n + 1;
      }
      assert n == |text| && runes == out;
      r := Some(runes);
    }

    /**
     * The transition as the six scans write it (lines 150-163): on a miss at
     * a non-root node, move to the fail target and retry, where the retry
     * loop's post statement moves to the CHILD along r (or to nil). So the
     * loop runs at most once: it skips the first fail target, and on a miss
     * at the second one dereferences nil (None). Where StepOk holds it agrees
     * with Next.
     */
    method StepAsWritten(now: nat, r: char) returns (next: Option<nat>)
      requires Built() && Reach(children, path, now)
      ensures next == WrittenMove(children, path, fail, now, r)
      ensures next.None? <==> PanicsAt(children, fail, now, r)
      ensures StepOk(children, fail, now, r) ==>
        next.Some? && Reach(children, path, next.value) && IsLongestPathSuffix(children, path[next.value], path[now] + [r])
    {
      var cur := now;
      var found := r in children[cur];
      if !found && cur != Root {
        var node: Option<nat> := Some(fail[cur]);
        ghost var iter := 0;
        while !found && node != Some(Root)
          invariant iter <= 1 && (found ==> node.Some?)
          invariant node.Some? ==> Reach(children, path, node.value)
          invariant iter == 0 ==> !found && node == Some(fail[now])
          invariant iter == 1 ==>
            fail[now] != Root && fail[fail[now]] < |children| && (found <==> r in children[fail[fail[now]]]) && (!found ==> node.None?)
          invariant iter == 1 && found ==> node == Some(children[fail[fail[now]]][r])
          decreases 1 - iter
        {
          if node.None? {
            return None;
          }
          var m := node.value;
          node := Some(fail[m]);
          var n := fail[m];
          if r in children[n] {
            ChildReach(children, path, n, r);
            node, found := Some(children[n][r]), true;
          } else {
            node, found := None, false;
          }
          iter := iter + 1;
        }
        cur := node.value;
      }
      if r in children[cur] {
        next := Some(children[cur][r]);
      } else {
        next := Some(Root);
      }
      if StepOk(children, fail, now, r) {
        WrittenMoveOk(children, path, fail, now, r);
      }
    }
  }
}
