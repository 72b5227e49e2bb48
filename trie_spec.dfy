/**
 * The string-level facts behind the Aho-Corasick automaton. A trie is seen
 * through the sequence L of the strings spelled by its nodes (the node labels).
 * The state the automaton should be in after reading s is the longest suffix of
 * s that is a node label; a failure link leads to the longest PROPER suffix of
 * a node's label that is a node label.
 */
module TrieSpec {
  import opened Text

  /** A non-empty string without its last character. */
  function Init(s: string): string
    requires s != []
  {
    s[..|s| - 1]
  }

  /** Every non-empty label's parent (the label without its last character) is a label too. */
  ghost predicate PrefixClosed(L: seq<string>) {
    forall s {:trigger Init(s)} :: s in L && s != [] ==> Init(s) in L
  }

  /** The longest suffix of s that is a node label (the root's label [] always qualifies). */
  ghost function LongestSuffix(L: seq<string>, s: string): string
    requires [] in L
    decreases |s|
  {
    if s in L then s else LongestSuffix(L, s[1..])
  }

  /** LongestSuffix(L, s) is a label, a suffix of s, and no label that is a suffix of s is longer. */
  lemma {:induction false} LongestSuffixShape(L: seq<string>, s: string)
    requires [] in L
    ensures LongestSuffix(L, s) in L && IsSuffix(LongestSuffix(L, s), s)
    ensures forall t {:trigger IsSuffix(t, s)} :: t in L && IsSuffix(t, s) ==> |t| <= |LongestSuffix(L, s)|
    decreases |s|
  {
    if s !in L {
      LongestSuffixShape(L, s[1..]);
      assert IsSuffix(s[1..], s);
      SuffixTrans(LongestSuffix(L, s[1..]), s[1..], s);
      forall t | t in L && IsSuffix(t, s)
        ensures |t| <= |LongestSuffix(L, s)|
      {
        SuffixFull(t, s);
        SuffixDropFirst(t, s);
      }
    }
  }

  /** The label a failure link should lead to: the longest proper suffix that is a label. */
  ghost function FailureTarget(L: seq<string>, s: string): string
    requires [] in L
  {
    if s == [] then [] else LongestSuffix(L, s[1..])
  }

  /** A label that is a suffix of s is a suffix of the longest such label. */
  lemma SuffixOfLongest(L: seq<string>, t: string, s: string)
    requires [] in L && t in L && IsSuffix(t, s)
    ensures IsSuffix(t, LongestSuffix(L, s))
  {
    LongestSuffixShape(L, s);
    SuffixOfSuffixes(t, LongestSuffix(L, s), s);
  }

  /** Any suffix of s in L that is at least as long as every other one is the longest suffix. */
  lemma LongestSuffixUnique(L: seq<string>, s: string, r: string)
    requires [] in L && r in L && IsSuffix(r, s)
    requires |LongestSuffix(L, s)| <= |r|
    ensures r == LongestSuffix(L, s)
  {
    LongestSuffixShape(L, s);
    SuffixOfSuffixes(LongestSuffix(L, s), r, s);
    SuffixFull(LongestSuffix(L, s), r);
  }

  /**
   * The central Aho-Corasick fact: to know the longest label-suffix of s + [c] it
   * suffices to know the longest label-suffix of s.
   */
  lemma ExtendLongest(L: seq<string>, s: string, c: char)
    requires [] in L && PrefixClosed(L)
    ensures LongestSuffix(L, LongestSuffix(L, s) + [c]) == LongestSuffix(L, s + [c])
  {
    var u := LongestSuffix(L, s);
    var w := LongestSuffix(L, s + [c]);
    var v := LongestSuffix(L, u + [c]);
    LongestSuffixShape(L, s);
    LongestSuffixShape(L, s + [c]);
    LongestSuffixShape(L, u + [c]);
    SuffixExtend(u, s, c);
    SuffixTrans(v, u + [c], s + [c]);
    if w != [] {
      LongestThroughLongest(L, s, c);
    }
    LongestSuffixUnique(L, s + [c], v);
  }

  /** A non-empty label ending s + [c] ends LongestSuffix(L, s) + [c]. */
  lemma LongestThroughLongest(L: seq<string>, s: string, c: char)
    requires [] in L && PrefixClosed(L) && LongestSuffix(L, s + [c]) != []
    ensures IsSuffix(LongestSuffix(L, s + [c]), LongestSuffix(L, s) + [c])
  {
    var u := LongestSuffix(L, s);
    var w := LongestSuffix(L, s + [c]);
    var w' := Init(w);
    LongestSuffixShape(L, s);
    LongestSuffixShape(L, s + [c]);
    assert w' in L;
    SuffixOfExtension(w, s, c);
    SuffixOfSuffixes(w', u, s);
    SuffixExtend(w', u, c);
    assert w == w' + [c];
  }

  /**
   * One step of the failure walk: when u has no edge on c, the target of the
   * walk from u is the target of the walk from u's failure label.
   */
  lemma FailureStep(L: seq<string>, u: string, c: char)
    requires [] in L && PrefixClosed(L)
    requires u != [] && u + [c] !in L
    ensures LongestSuffix(L, u + [c]) == LongestSuffix(L, FailureTarget(L, u) + [c])
  {
    assert (u + [c])[1..] == u[1..] + [c];
    ExtendLongest(L, u[1..], c);
  }

  /** The failure label of a child label is where the walk from the parent's failure label leads. */
  lemma ChildFailure(L: seq<string>, u: string, c: char)
    requires [] in L && PrefixClosed(L) && u != []
    ensures FailureTarget(L, u + [c]) == LongestSuffix(L, FailureTarget(L, u) + [c])
  {
    assert (u + [c])[1..] == u[1..] + [c];
    ExtendLongest(L, u[1..], c);
  }

  /**
   * Output inheritance: the labels in L that are suffixes of a non-empty label s are s
   * itself and the suffixes of s's failure label.
   */
  lemma SuffixesThroughFailure(L: seq<string>, t: string, s: string)
    requires [] in L && t in L && s != []
    ensures IsSuffix(t, s) <==> t == s || IsSuffix(t, FailureTarget(L, s))
  {
    var f := FailureTarget(L, s);
    LongestSuffixShape(L, s[1..]);
    if IsSuffix(t, s) && t != s {
      SuffixDropFirst(t, s);
      SuffixOfLongest(L, t, s[1..]);
    }
    if IsSuffix(t, f) {
      assert IsSuffix(s[1..], s);
      SuffixTrans(f, s[1..], s);
      SuffixTrans(t, f, s);
    }
  }
}
