/** Codepoint strings: suffixes, prefixes and subsequences. */
module Text {

  /** The last k codepoints of s. */
  function Suffix(s: seq<char>, k: nat): (r: seq<char>)
    requires k <= |s|
    ensures |r| == k
  {
    s[|s| - k..]
  }

  ghost predicate IsSuffix(t: seq<char>, s: seq<char>) {
    |t| <= |s| && t == s[|s| - |t|..]
  }

  /** A suffix of a suffix of s is a suffix of s. */
  lemma SuffixOfSuffix(s: seq<char>, t: seq<char>, k: nat)
    requires IsSuffix(t, s) && k <= |t|
    ensures Suffix(t, k) == Suffix(s, k)
  {
  }

  /** The prefixes of t + [c] are the prefixes of t and t + [c] itself. */
  lemma TakeSnoc(s: seq<char>, n: nat)
    requires 0 < n <= |s|
    ensures s[..n - 1] + [s[n - 1]] == s[..n]
  {
  }

  /** A string that differs from t at index i is not a prefix of t. */
  lemma NotPrefix(s: seq<char>, t: seq<char>, i: nat)
    requires i < |s| && i < |t| && s[i] != t[i]
    ensures !(s <= t)
  {
    if |s| <= |t| {
      assert t[..|s|][i] == t[i];
    }
  }

  /** Moving the next unread rune from the rest onto the end of the output. */
  lemma ShiftRune(out: seq<char>, text: seq<char>, n: nat)
    requires n < |text|
    ensures out + text[n..] == (out + [text[n]]) + text[n + 1..]
  {
    assert text[n..] == [text[n]] + text[n + 1..];
  }

  lemma PrefixSnoc(s: seq<char>, t: seq<char>, c: char)
    ensures s <= t + [c] <==> s <= t || s == t + [c]
  {
    if s <= t + [c] && s != t + [c] {
      assert s == (t + [c])[..|s|] == t[..|s|];
    }
  }

  /** a is obtained from b by deleting some codepoints, keeping the order of the rest. */
  predicate IsSubsequence(a: seq<char>, b: seq<char>)
    decreases |b|
  {
    || a == []
    || (&& b != []
        && (|| (a[|a| - 1] == b[|b| - 1] && IsSubsequence(a[..|a| - 1], b[..|b| - 1]))
            || IsSubsequence(a, b[..|b| - 1])))
  }

  lemma SubsequenceSnoc(a: seq<char>, b: seq<char>, c: char)
    requires IsSubsequence(a, b)
    ensures IsSubsequence(a + [c], b + [c]) && IsSubsequence(a, b + [c])
  {
    assert (a + [c])[..|a|] == a;
    assert (b + [c])[..|b|] == b;
  }

  lemma {:induction false} SubsequenceRefl(b: seq<char>)
    ensures IsSubsequence(b, b)
    decreases |b|
  {
    if b != [] {
      SubsequenceRefl(b[..|b| - 1]);
    }
  }

  /** Dropping codepoints from the end of a subsequence keeps it a subsequence. */
  lemma {:induction false} SubsequencePrefix(a: seq<char>, b: seq<char>, k: nat)
    requires IsSubsequence(a, b) && k <= |a|
    ensures IsSubsequence(a[..k], b)
    decreases |b|
  {
    if a == [] || k == |a| {
      assert a[..k] == a;
    } else if a[|a| - 1] == b[|b| - 1] && IsSubsequence(a[..|a| - 1], b[..|b| - 1]) {
      SubsequencePrefix(a[..|a| - 1], b[..|b| - 1], k);
      assert a[..|a| - 1][..k] == a[..k];
    } else {
      SubsequencePrefix(a, b[..|b| - 1], k);
    }
  }

  /** A subsequence is never longer than the sequence it is taken from. */
  lemma {:induction false} SubsequenceLength(a: seq<char>, b: seq<char>)
    requires IsSubsequence(a, b)
    ensures |a| <= |b|
    decreases |b|
  {
    if a != [] {
      if a[|a| - 1] == b[|b| - 1] && IsSubsequence(a[..|a| - 1], b[..|b| - 1]) {
        SubsequenceLength(a[..|a| - 1], b[..|b| - 1]);
      } else {
        SubsequenceLength(a, b[..|b| - 1]);
      }
    }
  }
}
