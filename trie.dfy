/**
 * The codepoint trie shared by both matchers, held as an arena: node n's
 * outgoing edges are the map ch[n] from a codepoint to the index of the child,
 * and node 0 is the root. A ghost labelling gives every node the string it
 * spells; it is what makes a walk from the root determine its node.
 */
module Trie {
  import opened Wrappers
  import opened Text

  type Arena = seq<map<char, nat>>

  const Root: nat := 0

  /** How DelWord ended. */
  datatype DelOutcome =
    | Deleted           // an edge below the deepest word-completing proper prefix was cut
    | PathMissing       // some rune of the word had no child: the source returns early
    | NoTerminalPrefix  // `lastLeaf` stayed nil: the source dereferences nil and panics

  /** The node reached from the root by following the codepoints of s, if every edge exists. */
  function Walk(ch: Arena, s: seq<char>): Option<nat>
    decreases |s|
  {
    if s == [] then Some(Root)
    else
      match Walk(ch, s[..|s| - 1])
      case None => None
      case Some(n) =>
        if n < |ch| && s[|s| - 1] in ch[n] then Some(ch[n][s[|s| - 1]]) else None
  }

  /** s is spelled by a path from the root. */
  predicate IsPath(ch: Arena, s: seq<char>) {
    Walk(ch, s).Some?
  }

  /** Every edge stays inside the arena and extends its source's label by the edge's codepoint. */
  ghost predicate Labelled(ch: Arena, path: seq<seq<char>>) {
    && |ch| > 0
    && |path| == |ch|
    && path[Root] == []
    && forall n, c | 0 <= n < |ch| && c in ch[n] :: ch[n][c] < |ch| && path[ch[n][c]] == path[n] + [c]
  }

  /** Node n is reachable from the root, by the path its label spells. */
  ghost predicate Reach(ch: Arena, path: seq<seq<char>>, n: nat)
    requires |path| == |ch|
  {
    n < |ch| && Walk(ch, path[n]) == Some(n)
  }

  /** A walk ends inside the arena at the node labelled with the walked string. */
  lemma {:induction false} WalkLabel(ch: Arena, path: seq<seq<char>>, s: seq<char>)
    requires Labelled(ch, path)
    ensures IsPath(ch, s) ==> Walk(ch, s).value < |ch| && path[Walk(ch, s).value] == s
    ensures IsPath(ch, s) ==> Reach(ch, path, Walk(ch, s).value)
    decreases |s|
  {
    if s != [] && IsPath(ch, s) {
      var t := s[..|s| - 1];
      WalkLabel(ch, path, t);
      assert t + [s[|s| - 1]] == s;
    }
  }

  /** Paths are closed under taking prefixes. */
  lemma {:induction false} PathPrefix(ch: Arena, s: seq<char>, k: nat)
    requires IsPath(ch, s) && k <= |s|
    ensures IsPath(ch, s[..k])
    decreases |s|
  {
    if k < |s| {
      var t := s[..|s| - 1];
      PathPrefix(ch, t, k);
      assert t[..k] == s[..k];
    } else {
      assert s[..k] == s;
    }
  }

  /** Walking one more codepoint from the node of s. */
  lemma WalkSnoc(ch: Arena, s: seq<char>, c: char)
    ensures Walk(ch, s + [c]) ==
      match Walk(ch, s)
      case None => None
      case Some(n) => if n < |ch| && c in ch[n] then Some(ch[n][c]) else None
  {
    assert (s + [c])[..|s|] == s;
  }

  /** The arena after the source's "create a missing child": node n gains edge c to a new, childless node. */
  function AddChild(ch: Arena, n: nat, c: char): (r: Arena)
    requires n < |ch|
    ensures |r| == |ch| + 1 && r[|ch|] == map[]
    ensures r[n] == ch[n][c := |ch|]
    ensures forall m :: 0 <= m < |ch| && m != n ==> r[m] == ch[m]
  {
    var child: nat := |ch|;
    var edges: map<char, nat> := ch[n][c := child];
    var leaf: map<char, nat> := map[];
    ch[n := edges] + [leaf]
  }

  /** Adding a missing child makes exactly one new string a path, and every other walk is unchanged. */
  lemma {:induction false} AddChildWalk(ch: Arena, path: seq<seq<char>>, n: nat, c: char, s: seq<char>)
    requires Labelled(ch, path) && Reach(ch, path, n) && c !in ch[n]
    ensures Walk(AddChild(ch, n, c), s) == if s == path[n] + [c] then Some(|ch|) else Walk(ch, s)
    decreases |s|
  {
    var ch' := AddChild(ch, n, c);
    if s != [] {
      var t := s[..|s| - 1];
      var d := s[|s| - 1];
      assert s == t + [d];
      AddChildWalk(ch, path, n, c, t);
      WalkSnoc(ch, t, d);
      WalkSnoc(ch', t, d);
      if t == path[n] + [c] {
        assert Walk(ch, t) == None by { WalkSnoc(ch, path[n], c); }
      } else if Walk(ch, t).Some? {
        var m := Walk(ch, t).value;
        WalkLabel(ch, path, t);
        if m == n && d == c {
          assert s == path[n] + [c];
        }
      }
    }
  }

  /** The labelling extended with the new child's string is again a labelling. */
  lemma AddChildLabelled(ch: Arena, path: seq<seq<char>>, n: nat, c: char)
    requires Labelled(ch, path) && n < |ch| && c !in ch[n]
    ensures Labelled(AddChild(ch, n, c), path + [path[n] + [c]])
  {
    var ch' := AddChild(ch, n, c);
    var path' := path + [path[n] + [c]];
    forall m, d | 0 <= m < |ch'| && d in ch'[m]
      ensures ch'[m][d] < |ch'| && path'[ch'[m][d]] == path'[m] + [d]
    {
      if m == n && d == c {
      } else {
        assert m < |ch| && d in ch[m] && ch'[m][d] == ch[m][d];
      }
    }
  }

  /** Cutting the edge c out of node n: the source's `delete(node.children, c)`. */
  function CutEdge(ch: Arena, n: nat, c: char): (r: Arena)
    requires n < |ch|
    ensures |r| == |ch| && r[n] == ch[n] - {c}
    ensures forall m :: 0 <= m < |ch| && m != n ==> r[m] == ch[m]
  {
    ch[n := ch[n] - {c}]
  }

  /** After cutting edge c out of node n, exactly the strings that extend path[n] + [c] stop being walkable. */
  lemma {:induction false} CutEdgeWalk(ch: Arena, path: seq<seq<char>>, n: nat, c: char, s: seq<char>)
    requires Labelled(ch, path) && Reach(ch, path, n)
    ensures Walk(CutEdge(ch, n, c), s) == if path[n] + [c] <= s then None else Walk(ch, s)
    decreases |s|
  {
    var ch' := CutEdge(ch, n, c);
    var p := path[n] + [c];
    if s != [] {
      var t := s[..|s| - 1];
      var d := s[|s| - 1];
      assert s == t + [d];
      CutEdgeWalk(ch, path, n, c, t);
      WalkSnoc(ch, t, d);
      WalkSnoc(ch', t, d);
      if p <= s && p != s {
        assert p <= t;
      } else if p == s {
        assert t == path[n] && d == c;
      } else {
        assert !(p <= t);
        if Walk(ch, t).Some? {
          WalkLabel(ch, path, t);
          var m := Walk(ch, t).value;
          assert m != n || d != c;
        }
      }
    }
  }

  /** Cutting an edge keeps a labelling. */
  lemma CutEdgeLabelled(ch: Arena, path: seq<seq<char>>, n: nat, c: char)
    requires Labelled(ch, path) && n < |ch|
    ensures Labelled(CutEdge(ch, n, c), path)
  {
    var ch' := CutEdge(ch, n, c);
    forall m, d | 0 <= m < |ch'| && d in ch'[m]
      ensures ch'[m][d] < |ch'| && path[ch'[m][d]] == path[m] + [d]
    {
      assert d in ch[m] && ch'[m][d] == ch[m][d];
    }
  }

  /** Every reachable node other than the root hangs by one edge below a reachable node one level up. */
  lemma ParentOf(ch: Arena, path: seq<seq<char>>, n: nat) returns (p: nat, c: char)
    requires Labelled(ch, path) && Reach(ch, path, n) && n != Root
    ensures Reach(ch, path, p) && c in ch[p] && ch[p][c] == n
    ensures path[n] == path[p] + [c]
  {
    var s := path[n];
    assert s != [];
    var pre := s[..|s| - 1];
    c := s[|s| - 1];
    assert s == pre + [c];
    WalkSnoc(ch, pre, c);
    p := Walk(ch, pre).value;
    WalkLabel(ch, path, pre);
  }

  /** A string that is not a path has no path extension. */
  lemma NotPathSnoc(ch: Arena, s: seq<char>, c: char)
    requires !IsPath(ch, s)
    ensures !IsPath(ch, s + [c])
  {
    WalkSnoc(ch, s, c);
  }

  // ---------------------------------------------------------------------------
  // Growing a trie along a word (the AddWord loops)

  /** The paths of ch are those of ch0 and the prefixes of w of length at most i. */
  ghost predicate PathsGrown(ch0: Arena, ch: Arena, w: seq<char>, i: nat) {
    && i <= |w|
    && forall s {:trigger IsPath(ch, s)} {:trigger IsPath(ch0, s)} :: IsPath(ch, s) <==> IsPath(ch0, s) || (|s| <= i && s == w[..|s|])
  }

  /** Every walk of ch0 still ends at the same node in ch. */
  ghost predicate WalksKept(ch0: Arena, ch: Arena) {
    forall s {:trigger IsPath(ch0, s)} :: IsPath(ch0, s) ==> Walk(ch, s) == Walk(ch0, s)
  }

  /** Following an existing edge along w. */
  lemma GrowExisting(ch0: Arena, ch: Arena, w: seq<char>, i: nat)
    requires i < |w| && PathsGrown(ch0, ch, w, i) && IsPath(ch, w[..i + 1])
    ensures PathsGrown(ch0, ch, w, i + 1)
  {
    forall s {:trigger IsPath(ch, s)} {:trigger IsPath(ch0, s)}
      ensures IsPath(ch, s) <==> IsPath(ch0, s) || (|s| <= i + 1 && s == w[..|s|])
    {
      if |s| == i + 1 && s == w[..|s|] {
        assert s == w[..i + 1];
      }
    }
  }

  /** One rune of an AddWord loop along an edge that already exists: the walk moves to the child and no path is added. */
  lemma GrowAlong(ch0: Arena, ch: Arena, w: seq<char>, i: nat, n: nat)
    requires i < |w| && PathsGrown(ch0, ch, w, i) && Walk(ch, w[..i]) == Some(n) && n < |ch| && w[i] in ch[n]
    ensures Walk(ch, w[..i + 1]) == Some(ch[n][w[i]]) && PathsGrown(ch0, ch, w, i + 1)
  {
    WalkStep(ch, w, i, n);
    GrowExisting(ch0, ch, w, i);
  }

  /** Following the edge w[i] out of the node for w[..i] walks w[..i + 1]. */
  lemma WalkStep(ch: Arena, w: seq<char>, i: nat, n: nat)
    requires i < |w| && Walk(ch, w[..i]) == Some(n) && n < |ch| && w[i] in ch[n]
    ensures Walk(ch, w[..i + 1]) == Some(ch[n][w[i]])
  {
    assert w[..i + 1] == w[..i] + [w[i]];
    WalkSnoc(ch, w[..i], w[i]);
  }

  /** Creating the missing child for w[i] below the node of w[..i]. */
  lemma GrowNew(ch0: Arena, ch: Arena, path: seq<seq<char>>, w: seq<char>, i: nat, n: nat)
    requires i < |w| && Labelled(ch, path) && Walk(ch, w[..i]) == Some(n) && w[i] !in ch[n]
    requires PathsGrown(ch0, ch, w, i) && WalksKept(ch0, ch)
    ensures n < |ch|
    ensures PathsGrown(ch0, AddChild(ch, n, w[i]), w, i + 1)
    ensures WalksKept(ch0, AddChild(ch, n, w[i]))
    ensures Walk(AddChild(ch, n, w[i]), w[..i + 1]) == Some(|ch|)
  {
    WalkLabel(ch, path, w[..i]);
    GrowNewLands(ch, path, w, i, n);
    GrowNewPaths(ch0, ch, path, w, i, n);
    GrowNewWalks(ch0, ch, path, w, i, n);
  }

  lemma GrowNewLands(ch: Arena, path: seq<seq<char>>, w: seq<char>, i: nat, n: nat)
    requires i < |w| && Labelled(ch, path) && Reach(ch, path, n) && path[n] == w[..i] && w[i] !in ch[n]
    ensures Walk(AddChild(ch, n, w[i]), w[..i + 1]) == Some(|ch|)
  {
    assert w[..i + 1] == path[n] + [w[i]];
    AddChildWalk(ch, path, n, w[i], w[..i + 1]);
  }

  lemma GrowNewPaths(ch0: Arena, ch: Arena, path: seq<seq<char>>, w: seq<char>, i: nat, n: nat)
    requires i < |w| && Labelled(ch, path) && Reach(ch, path, n) && path[n] == w[..i] && w[i] !in ch[n]
    requires PathsGrown(ch0, ch, w, i)
    ensures PathsGrown(ch0, AddChild(ch, n, w[i]), w, i + 1)
  {
    var ch' := AddChild(ch, n, w[i]);
    assert w[..i + 1] == path[n] + [w[i]];
    forall s {:trigger IsPath(ch', s)} {:trigger IsPath(ch0, s)}
      ensures IsPath(ch', s) <==> IsPath(ch0, s) || (|s| <= i + 1 && s == w[..|s|])
    {
      AddChildWalk(ch, path, n, w[i], s);
      assert IsPath(ch, s) <==> IsPath(ch0, s) || (|s| <= i && s == w[..|s|]);
      if s != w[..i + 1] {
        assert (|s| <= i + 1 && s == w[..|s|]) <==> (|s| <= i && s == w[..|s|]);
      }
    }
  }

  lemma GrowNewWalks(ch0: Arena, ch: Arena, path: seq<seq<char>>, w: seq<char>, i: nat, n: nat)
    requires i < |w| && Labelled(ch, path) && Reach(ch, path, n) && path[n] == w[..i] && w[i] !in ch[n]
    requires WalksKept(ch0, ch)
    ensures WalksKept(ch0, AddChild(ch, n, w[i]))
  {
    var ch' := AddChild(ch, n, w[i]);
    assert w[..i + 1] == path[n] + [w[i]];
    WalkSnoc(ch, w[..i], w[i]);
    forall s {:trigger IsPath(ch0, s)} | IsPath(ch0, s) ensures Walk(ch', s) == Walk(ch0, s) {
      AddChildWalk(ch, path, n, w[i], s);
    }
  }

  // ---------------------------------------------------------------------------
  // The longest suffix that is a path

  /** r is the longest suffix of s that is a path. */
  ghost predicate IsLongestPathSuffix(ch: Arena, r: seq<char>, s: seq<char>) {
    && IsSuffix(r, s)
    && IsPath(ch, r)
    && forall k :: |r| < k <= |s| ==> !IsPath(ch, Suffix(s, k))
  }

  /**
   * f is a correct fail target for a node spelling s: the longest PROPER
   * suffix of s that is a path (the empty string, spelled by the root, when none is).
   */
  ghost predicate IsFailTarget(ch: Arena, f: seq<char>, s: seq<char>) {
    && |f| < |s|
    && IsSuffix(f, s)
    && IsPath(ch, f)
    && forall k :: |f| < k < |s| ==> !IsPath(ch, Suffix(s, k))
  }

  /** The longest suffix of s of length at most k that is a path. */
  function LongestPathSuffixUpTo(ch: Arena, s: seq<char>, k: nat): (r: seq<char>)
    requires k <= |s|
    ensures |r| <= k && IsSuffix(r, s) && IsPath(ch, r)
    ensures forall j :: |r| < j <= k ==> !IsPath(ch, Suffix(s, j))
    decreases k
  {
    if k == 0 || IsPath(ch, Suffix(s, k)) then Suffix(s, k)
    else LongestPathSuffixUpTo(ch, s, k - 1)
  }

  /** The longest suffix of s that is a path: the state an Aho-Corasick scan is in after reading s. */
  function LongestPathSuffix(ch: Arena, s: seq<char>): (r: seq<char>)
    ensures IsLongestPathSuffix(ch, r, s)
  {
    LongestPathSuffixUpTo(ch, s, |s|)
  }

  /** The longest path suffix is unique. */
  lemma LongestPathSuffixUnique(ch: Arena, r: seq<char>, s: seq<char>)
    requires IsLongestPathSuffix(ch, r, s)
    ensures r == LongestPathSuffix(ch, s)
  {
    var l := LongestPathSuffix(ch, s);
    assert Suffix(s, |r|) == r && Suffix(s, |l|) == l;
  }

  /**
   * The transition law of the automaton: the longest path suffix of s + [c]
   * can be computed from the longest path suffix of s alone.
   */
  lemma {:induction false} LongestPathSuffixStep(ch: Arena, l: seq<char>, s: seq<char>, c: char, r: seq<char>)
    requires IsLongestPathSuffix(ch, l, s)
    requires IsLongestPathSuffix(ch, r, l + [c])
    ensures IsLongestPathSuffix(ch, r, s + [c])
  {
    var t := s + [c];
    var u := l + [c];
    assert IsSuffix(r, t) by {
      SnocSuffixShared(l, s, c, |r|);
    }
    forall k | |r| < k <= |t|
      ensures !IsPath(ch, Suffix(t, k))
    {
      if k <= |u| {
        SnocSuffixShared(l, s, c, k);
      } else {
        SnocSuffixNotPath(ch, l, s, c, k);
      }
    }
  }

  /** The suffixes of l + [c] are suffixes of s + [c] when l is a suffix of s. */
  lemma SnocSuffixShared(l: seq<char>, s: seq<char>, c: char, k: nat)
    requires IsSuffix(l, s) && k <= |l| + 1
    ensures Suffix(l + [c], k) == Suffix(s + [c], k)
  {
    if k > 0 {
      var k' := k - 1;
      SuffixOfSuffix(s, l, k');
      assert Suffix(l + [c], k) == Suffix(l, k') + [c];
      assert Suffix(s + [c], k) == Suffix(s, k') + [c];
    }
  }

  /** A suffix of s + [c] longer than l + [c] drops to a suffix of s longer than l, which is no path. */
  lemma SnocSuffixNotPath(ch: Arena, l: seq<char>, s: seq<char>, c: char, k: nat)
    requires IsLongestPathSuffix(ch, l, s) && |l| + 1 < k <= |s| + 1
    ensures !IsPath(ch, Suffix(s + [c], k))
  {
    var k' := k - 1;
    assert !IsPath(ch, Suffix(s, k'));
    assert Suffix(s + [c], k)[..k'] == Suffix(s, k');
  }

  // ---------------------------------------------------------------------------
  // The dictionary a trie holds

  /** The strings spelled by the reachable nodes in `terminal`; unreachable (cut-off) nodes hold no words. */
  ghost function Words(ch: Arena, path: seq<seq<char>>, terminal: set<nat>): set<seq<char>>
    requires |path| == |ch|
  {
    set n | n in terminal && Reach(ch, path, n) :: path[n]
  }

  /** A string is in the dictionary exactly when it is a path ending at a terminal node. */
  lemma WordsMember(ch: Arena, path: seq<seq<char>>, terminal: set<nat>, s: seq<char>)
    requires Labelled(ch, path)
    ensures s in Words(ch, path, terminal) <==> IsPath(ch, s) && Walk(ch, s).value in terminal
  {
    WalkLabel(ch, path, s);
  }

  /** Marking a reachable node terminal adds its string. */
  lemma WordsMark(ch: Arena, path: seq<seq<char>>, terminal: set<nat>, n: nat)
    requires Labelled(ch, path) && Reach(ch, path, n)
    ensures Words(ch, path, terminal + {n}) == Words(ch, path, terminal) + {path[n]}
  {
    forall s ensures s in Words(ch, path, terminal + {n}) <==> s in Words(ch, path, terminal) + {path[n]} {
      WordsMember(ch, path, terminal + {n}, s);
      WordsMember(ch, path, terminal, s);
      WalkLabel(ch, path, s);
    }
  }

  /** A new child that is not terminal adds no word. */
  lemma AddChildWords(ch: Arena, path: seq<seq<char>>, n: nat, c: char, terminal: set<nat>)
    requires Labelled(ch, path) && Reach(ch, path, n) && c !in ch[n] && |ch| !in terminal
    ensures Words(AddChild(ch, n, c), path + [path[n] + [c]], terminal) == Words(ch, path, terminal)
  {
    var ch' := AddChild(ch, n, c);
    var path' := path + [path[n] + [c]];
    AddChildLabelled(ch, path, n, c);
    forall s ensures s in Words(ch', path', terminal) <==> s in Words(ch, path, terminal) {
      WordsMember(ch', path', terminal, s);
      WordsMember(ch, path, terminal, s);
      AddChildWalk(ch, path, n, c, s);
    }
  }

  /** Cutting edge c out of node n removes exactly the words extending path[n] + [c]. */
  lemma CutEdgeWords(ch: Arena, path: seq<seq<char>>, n: nat, c: char, terminal: set<nat>, s: seq<char>)
    requires Labelled(ch, path) && Reach(ch, path, n)
    ensures s in Words(CutEdge(ch, n, c), path, terminal) <==> s in Words(ch, path, terminal) && !(path[n] + [c] <= s)
  {
    CutEdgeLabelled(ch, path, n, c);
    WordsMember(CutEdge(ch, n, c), path, terminal, s);
    WordsMember(ch, path, terminal, s);
    CutEdgeWalk(ch, path, n, c, s);
  }

  /** A child of a reachable node is reachable, one codepoint deeper. */
  lemma ChildReach(ch: Arena, path: seq<seq<char>>, n: nat, c: char)
    requires Labelled(ch, path) && Reach(ch, path, n) && c in ch[n]
    ensures Reach(ch, path, ch[n][c]) && |path[ch[n][c]]| == |path[n]| + 1
  {
    WalkSnoc(ch, path[n], c);
  }

  /** Two reachable nodes with the same label are the same node. */
  lemma ReachUnique(ch: Arena, path: seq<seq<char>>, n: nat, m: nat)
    requires Labelled(ch, path) && Reach(ch, path, n) && Reach(ch, path, m) && path[n] == path[m]
    ensures n == m
  {
  }

  /**
   * Cutting the edge that leaves the node of w[..k] along w[k] removes exactly
   * the paths, and the words, that extend w[..k + 1].
   */
  lemma CutAfterPrefix(ch: Arena, path: seq<seq<char>>, terminal: set<nat>, w: seq<char>, k: nat, leaf: nat)
    requires Labelled(ch, path) && k < |w| && Reach(ch, path, leaf) && path[leaf] == w[..k]
    ensures Labelled(CutEdge(ch, leaf, w[k]), path)
    ensures forall s :: IsPath(CutEdge(ch, leaf, w[k]), s) <==> IsPath(ch, s) && !(w[..k + 1] <= s)
    ensures forall v :: v in Words(CutEdge(ch, leaf, w[k]), path, terminal) <==>
      v in Words(ch, path, terminal) && !(w[..k + 1] <= v)
  {
    assert w[..k + 1] == path[leaf] + [w[k]];
    forall s ensures IsPath(CutEdge(ch, leaf, w[k]), s) <==> IsPath(ch, s) && !(w[..k + 1] <= s) {
      CutEdgeWalk(ch, path, leaf, w[k], s);
    }
    forall v ensures v in Words(CutEdge(ch, leaf, w[k]), path, terminal) <==>
      v in Words(ch, path, terminal) && !(w[..k + 1] <= v)
    {
      CutEdgeWords(ch, path, leaf, w[k], terminal, v);
    }
    CutEdgeLabelled(ch, path, leaf, w[k]);
  }
}
