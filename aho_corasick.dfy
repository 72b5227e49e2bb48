/**
 * The Aho-Corasick automaton of AhoCorasickAutomaton.java: a trie over 'A'..'Z'
 * holding every word and its reversal, breadth-first failure links with output
 * inheritance, and a one-pass scan that reports (patternId, endPos) pairs.
 *
 * The trie is an arena of nodes addressed by index (node 0 is the root), kept as
 * parallel sequences: children, failureLink and output. Two ghost sequences
 * record, per node, the string it spells (labels) and the node it hangs from
 * (parent); every contract is stated through them.
 */
module AhoCorasick {
  import opened Text
  import opened TrieSpec

  /** A match reported by Search: pattern patternId ends at index endPos of the text. */
  datatype Match = Match(patternId: nat, endPos: nat)

  /** p occurs in t with its last character at index e. */
  predicate OccursAt(p: string, t: string, e: int) {
    0 <= e < |t| && |p| <= e + 1 && forall k :: 0 <= k < |p| ==> p[k] == t[e + 1 - |p| + k]
  }

  /** The letters that end t[..i], back to the last non-letter: the stretch a scan is inside. */
  function Run(t: string, i: nat): string
    requires i <= |t|
  {
    if i == 0 then []
    else if IsUpperLetter(t[i - 1]) then Run(t, i - 1) + [t[i - 1]]
    else []
  }

  /** Run(t, i) is the maximal all-letter stretch of t ending just before index i. */
  lemma {:induction false} RunShape(t: string, i: nat)
    requires i <= |t|
    ensures |Run(t, i)| <= i && AllUpperLetters(Run(t, i))
    ensures forall j :: 0 <= j < |Run(t, i)| ==> Run(t, i)[j] == t[i - |Run(t, i)| + j]
    ensures |Run(t, i)| < i ==> !IsUpperLetter(t[i - 1 - |Run(t, i)|])
  {
    if i > 0 && IsUpperLetter(t[i - 1]) {
      RunShape(t, i - 1);
      var r := Run(t, i - 1);
      assert Run(t, i) == r + [t[i - 1]];
      forall j | 0 <= j < |Run(t, i)|
        ensures Run(t, i)[j] == t[i - |Run(t, i)| + j]
      {
        if j < |r| {
          assert Run(t, i)[j] == r[j];
        }
      }
    }
  }

  /** An all-letter pattern ends at e exactly when it is a suffix of the run ending at e. */
  lemma RunSuffix(p: string, t: string, e: nat)
    requires AllUpperLetters(p) && e < |t|
    ensures OccursAt(p, t, e) <==> IsSuffix(p, Run(t, e + 1))
  {
    RunShape(t, e + 1);
    if OccursAt(p, t, e) {
      OccurrenceInRun(p, t, e);
    }
  }

  /** An all-letter pattern that ends at e lies inside the run ending at e. */
  lemma OccurrenceInRun(p: string, t: string, e: nat)
    requires AllUpperLetters(p) && e < |t|
    requires |p| <= e + 1 && forall k :: 0 <= k < |p| ==> p[k] == t[e + 1 - |p| + k]
    ensures |p| <= |Run(t, e + 1)|
  {
    RunShape(t, e + 1);
    forall j | e + 1 - |p| <= j <= e
      ensures IsUpperLetter(t[j])
    {
      assert t[j] == p[j - (e + 1 - |p|)];
    }
  }

  /** All 0..n-1, as a set (BFS termination). */
  function Indices(n: nat): (r: set<nat>)
    ensures forall i: nat :: i in r <==> i < n
  {
    if n == 0 then {} else Indices(n - 1) + {n - 1}
  }


  /** The arena is a trie: labels extend along edges and every non-root node has its parent edge. */
  ghost predicate IsTrie(children: seq<map<char, nat>>, labels: seq<string>, parent: seq<nat>) {
    var n := |children|;
    && n >= 1 && |labels| == n && |parent| == n
    && labels[0] == []
    && (forall p, c :: 0 <= p < n && c in children[p] ==>
          IsUpperLetter(c) && children[p][c] < n && labels[children[p][c]] == labels[p] + [c])
    && (forall m {:trigger parent[m]} :: 0 < m < n ==>
          && parent[m] < m && labels[m] != []
          && labels[parent[m]] == labels[m][..|labels[m]| - 1]
          && labels[m][|labels[m]| - 1] in children[parent[m]]
          && children[parent[m]][labels[m][|labels[m]| - 1]] == m)
  }

  /** No two nodes of a trie spell the same string. */
  lemma {:induction false} LabelsInjective(children: seq<map<char, nat>>, labels: seq<string>, parent: seq<nat>, a: nat, b: nat)
    requires IsTrie(children, labels, parent) && a < |children| && b < |children| && labels[a] == labels[b]
    ensures a == b
    decreases |labels[a]|
  {
    assert a != 0 ==> labels[a] != [] by {
      if a != 0 {
        assert parent[a] < a;
      }
    }
    assert b != 0 ==> labels[b] != [] by {
      if b != 0 {
        assert parent[b] < b;
      }
    }
    if a != 0 && b != 0 {
      var s := labels[a];
      assert labels[parent[a]] == s[..|s| - 1] == labels[parent[b]];
      LabelsInjective(children, labels, parent, parent[a], parent[b]);
    }
  }


  /** The labels of a trie contain the root's [] and are closed under dropping the last character. */
  lemma LabelsPrefixClosed(children: seq<map<char, nat>>, labels: seq<string>, parent: seq<nat>)
    requires IsTrie(children, labels, parent)
    ensures [] in labels && PrefixClosed(labels)
  {
    assert labels[0] == [];
    forall s | s in labels && s != []
      ensures Init(s) in labels
    {
      var m :| 0 <= m < |labels| && labels[m] == s;
      assert m != 0 ==> labels[parent[m]] == Init(s);
    }
  }

  /** An edge on c leaves node p exactly when p's string followed by c is a node's string. */
  lemma ChildIffLabel(children: seq<map<char, nat>>, labels: seq<string>, parent: seq<nat>, p: nat, c: char)
    requires IsTrie(children, labels, parent) && p < |children|
    ensures c in children[p] <==> labels[p] + [c] in labels
  {
    if labels[p] + [c] in labels {
      var m :| 0 <= m < |labels| && labels[m] == labels[p] + [c];
      assert m != 0 by {
        assert labels[0] == [];
      }
      assert labels[parent[m]] == labels[p];
      LabelsInjective(children, labels, parent, parent[m], p);
    }
  }

  /** The child of p on c hangs from p, and its string ends in c. */
  lemma ChildParent(children: seq<map<char, nat>>, labels: seq<string>, parent: seq<nat>, p: nat, c: char)
    requires IsTrie(children, labels, parent) && p < |children| && c in children[p]
    ensures var m := children[p][c];
      && 0 < m < |children| && parent[m] == p && labels[m] == labels[p] + [c]
      && labels[m][|labels[m]| - 1] == c
  {
    var m := children[p][c];
    assert labels[m] == labels[p] + [c];
    assert m != 0 by {
      assert labels[0] == [];
    }
    assert labels[parent[m]] == labels[m][..|labels[m]| - 1] == labels[p];
    LabelsInjective(children, labels, parent, parent[m], p);
  }

  /**
   * The transition after the failure walk: from a node s that is the root or has an
   * edge on c, taking that edge (or staying at the root) reaches the longest
   * label-suffix of s's string followed by c.
   */
  lemma Transition(children: seq<map<char, nat>>, labels: seq<string>, parent: seq<nat>, s: nat, c: char)
    requires IsTrie(children, labels, parent) && s < |children| && (s == 0 || c in children[s])
    ensures var next := if c in children[s] then children[s][c] else 0;
      next < |children| && labels[next] == LongestSuffix(labels, labels[s] + [c])
  {
    LabelsPrefixClosed(children, labels, parent);
    ChildIffLabel(children, labels, parent, s, c);
    if c !in children[s] {
      assert labels[s] + [c] == [c] && [c][1..] == [];
    }
  }

  /** The letter with index i in 'A'..'Z'. */
  function Letter(i: nat): char
    requires i < 26
  {
    ('A' as int + i) as char
  }

  /** The position in the alphabet of the last character of a non-empty string (0 for 'A'). */
  function LastLetterIndex(s: string): int
    requires s != []
  {
    s[|s| - 1] as int - 'A' as int
  }

  /** The children of a node on the letters with index below i, in letter order. */
  ghost function KidsBelow(edges: map<char, nat>, i: nat): seq<nat>
    requires i <= 26
  {
    if i == 0 then []
    else KidsBelow(edges, i - 1) + (if Letter(i - 1) in edges then [edges[Letter(i - 1)]] else [])
  }

  /** The nodes KidsBelow lists for p hang from p by a letter with index below i. */
  lemma {:induction false} KidsAreChildren(children: seq<map<char, nat>>, labels: seq<string>, parent: seq<nat>,
                                           p: nat, i: nat)
    requires IsTrie(children, labels, parent) && p < |children| && i <= 26
    ensures forall k :: 0 <= k < |KidsBelow(children[p], i)| ==>
      && 0 < KidsBelow(children[p], i)[k] < |children| && parent[KidsBelow(children[p], i)[k]] == p
      && labels[KidsBelow(children[p], i)[k]] != []
      && LastLetterIndex(labels[KidsBelow(children[p], i)[k]]) < i
  {
    if i > 0 {
      var kids, prev := KidsBelow(children[p], i), KidsBelow(children[p], i - 1);
      KidsAreChildren(children, labels, parent, p, i - 1);
      var c := Letter(i - 1);
      if c in children[p] {
        ChildParent(children, labels, parent, p, c);
        assert kids == prev + [children[p][c]];
        forall k | 0 <= k < |kids|
          ensures 0 < kids[k] < |children| && parent[kids[k]] == p && labels[kids[k]] != []
          ensures LastLetterIndex(labels[kids[k]]) < i
        {
          if k < |prev| {
            assert kids[k] == prev[k];
          }
        }
      } else {
        assert kids == prev;
      }
    }
  }

  /** KidsBelow lists no node twice. */
  lemma {:induction false} KidsDistinct(children: seq<map<char, nat>>, labels: seq<string>, parent: seq<nat>,
                                        p: nat, i: nat)
    requires IsTrie(children, labels, parent) && p < |children| && i <= 26
    ensures forall a, b :: 0 <= a < b < |KidsBelow(children[p], i)| ==>
      KidsBelow(children[p], i)[a] != KidsBelow(children[p], i)[b]
  {
    if i > 0 {
      var kids, prev := KidsBelow(children[p], i), KidsBelow(children[p], i - 1);
      KidsDistinct(children, labels, parent, p, i - 1);
      var c := Letter(i - 1);
      if c in children[p] {
        var m0 := children[p][c];
        KidsAreChildren(children, labels, parent, p, i - 1);
        ChildParent(children, labels, parent, p, c);
        assert kids == prev + [m0];
        assert LastLetterIndex(labels[m0]) == i - 1;
        forall a, b | 0 <= a < b < |kids|
          ensures kids[a] != kids[b]
        {
          assert kids[a] == prev[a];
          if b == |prev| {
            assert LastLetterIndex(labels[prev[a]]) < i - 1;
          }
        }
      } else {
        assert kids == prev;
      }
    }
  }

  /** KidsBelow lists every child of p on a letter with index below i. */
  lemma {:induction false} KidsComplete(children: seq<map<char, nat>>, labels: seq<string>, parent: seq<nat>,
                                        p: nat, i: nat)
    requires IsTrie(children, labels, parent) && p < |children| && i <= 26
    ensures forall m {:trigger parent[m]} ::
      (0 < m < |children| && parent[m] == p && LastLetterIndex(labels[m]) < i) ==> m in KidsBelow(children[p], i)
  {
    if i == 0 {
      forall m | 0 < m < |children| && parent[m] == p
        ensures LastLetterIndex(labels[m]) >= 0
      {
        assert IsUpperLetter(labels[m][|labels[m]| - 1]);
      }
    } else {
      var kids, prev := KidsBelow(children[p], i), KidsBelow(children[p], i - 1);
      KidsComplete(children, labels, parent, p, i - 1);
      var c := Letter(i - 1);
      assert prev <= kids;
      forall m | 0 < m < |children| && parent[m] == p && LastLetterIndex(labels[m]) < i
        ensures m in kids
      {
        if LastLetterIndex(labels[m]) == i - 1 {
          assert labels[m][|labels[m]| - 1] == c;
          assert kids == prev + [children[p][c]];
        }
      }
    }
  }

  /** Over all 26 letters, KidsBelow lists exactly the children of p. */
  lemma AllKids(children: seq<map<char, nat>>, labels: seq<string>, parent: seq<nat>, p: nat)
    requires IsTrie(children, labels, parent) && p < |children|
    ensures forall k :: 0 <= k < |KidsBelow(children[p], 26)| ==>
      0 < KidsBelow(children[p], 26)[k] < |children| && parent[KidsBelow(children[p], 26)[k]] == p
    ensures forall a, b :: 0 <= a < b < |KidsBelow(children[p], 26)| ==>
      KidsBelow(children[p], 26)[a] != KidsBelow(children[p], 26)[b]
    ensures forall m {:trigger parent[m]} :: 0 <= m < |children| ==>
      (m in KidsBelow(children[p], 26) <==> 0 < m && parent[m] == p)
  {
    var kids := KidsBelow(children[p], 26);
    KidsAreChildren(children, labels, parent, p, 26);
    KidsDistinct(children, labels, parent, p, 26);
    KidsComplete(children, labels, parent, p, 26);
    forall m | 0 < m < |children| && parent[m] == p
      ensures m in kids
    {
      assert labels[m][|labels[m]| - 1] in children[p];
      assert IsUpperLetter(labels[m][|labels[m]| - 1]);
      assert LastLetterIndex(labels[m]) < 26;
    }
  }

  /**
   * The failure link buildFailureLinks gives the child of current on c: the target of
   * the walk from current's failure link, or the root; it is the node spelling the
   * longest proper label-suffix of the child's string, and no deeper than current.
   */
  lemma ChildLink(children: seq<map<char, nat>>, labels: seq<string>, parent: seq<nat>, links: seq<nat>,
                  current: nat, c: char, s: nat)
    requires IsTrie(children, labels, parent) && |links| == |children|
    requires 0 < current < |children| && c in children[current] && FailureOk(links, labels, current)
    requires s < |children| && |labels[s]| < |labels[current]| && (s == 0 || c in children[s])
    requires LongestSuffix(labels, labels[s] + [c]) == LongestSuffix(labels, labels[links[current]] + [c])
    ensures var child := children[current][c];
      var target := if c in children[s] && children[s][c] != child then children[s][c] else 0;
      && FailureOk(links[child := target], labels, child)
      && |labels[target]| <= |labels[current]|
  {
    var child := children[current][c];
    ChildParent(children, labels, parent, current, c);
    LabelsPrefixClosed(children, labels, parent);
    assert parent[current] < current && labels[current] != [];
    ChildFailure(labels, labels[current], c);
    Transition(children, labels, parent, s, c);
    var target := if c in children[s] && children[s][c] != child then children[s][c] else 0;
    FailureShorter(links[child := target], labels, child);
    if c in children[s] {
      assert children[s][c] != child by {
        assert |labels[children[s][c]]| == |labels[s]| + 1;
      }
    }
  }
  ghost function KeyOf(patterns: seq<string>, id: nat): string
    requires id < |patterns|
  {
    Letters(patterns[id])
  }

  /** Every pattern has a letter and ends at a node. */
  ghost predicate PatternsEndAtNodes(patterns: seq<string>, isReversed: seq<bool>, labels: seq<string>) {
    && |isReversed| == |patterns|
    && forall id :: 0 <= id < |patterns| ==> KeyOf(patterns, id) != [] && KeyOf(patterns, id) in labels
  }

  /** Before failure links: node n outputs exactly the patterns that end at it. */
  ghost predicate OwnOut(output: seq<seq<nat>>, patterns: seq<string>, labels: seq<string>, n: nat) {
    n < |output| && n < |labels| &&
    forall id: nat {:trigger id in output[n]} :: id in output[n] <==> id < |patterns| && KeyOf(patterns, id) == labels[n]
  }

  ghost predicate AllOwnOut(output: seq<seq<nat>>, patterns: seq<string>, labels: seq<string>) {
    forall n :: 0 <= n < |labels| ==> OwnOut(output, patterns, labels, n)
  }

  /** After failure links: node n outputs exactly the patterns that are suffixes of its string. */
  ghost predicate FullOut(output: seq<seq<nat>>, patterns: seq<string>, labels: seq<string>, n: nat) {
    n < |output| && n < |labels| &&
    forall id: nat {:trigger id in output[n]} :: id in output[n] <==> id < |patterns| && IsSuffix(KeyOf(patterns, id), labels[n])
  }

  /** The failure link of n leads to the longest proper suffix of n's string that is a node. */
  ghost predicate FailureOk(failureLink: seq<nat>, labels: seq<string>, n: nat) {
    n < |failureLink| && n < |labels| && [] in labels &&
    failureLink[n] < |labels| && labels[failureLink[n]] == FailureTarget(labels, labels[n])
  }

  ghost predicate Linked(failureLink: seq<nat>, output: seq<seq<nat>>, patterns: seq<string>, labels: seq<string>) {
    forall n :: 0 <= n < |labels| ==> FailureOk(failureLink, labels, n) && FullOut(output, patterns, labels, n)
  }

  /** Nodes in done are fully linked; the rest still hold only their own outputs. */
  ghost predicate PhaseOk(failureLink: seq<nat>, output: seq<seq<nat>>, patterns: seq<string>, labels: seq<string>,
                          done: set<nat>) {
    && (forall n :: 0 <= n < |labels| && n in done ==>
          FailureOk(failureLink, labels, n) && FullOut(output, patterns, labels, n))
    && (forall n :: 0 <= n < |labels| && n !in done ==> OwnOut(output, patterns, labels, n))
  }

  /** Linking one more node, and touching no other, extends the phase by that node. */
  lemma PhaseExtend(links: seq<nat>, out: seq<seq<nat>>, links': seq<nat>, out': seq<seq<nat>>,
                    patterns: seq<string>, labels: seq<string>, done: set<nat>, child: nat)
    requires PhaseOk(links, out, patterns, labels, done)
    requires child < |labels| && |links| == |labels| && |out| == |labels| && |links'| == |links| && |out'| == |out|
    requires forall n :: 0 <= n < |labels| && n != child ==> links'[n] == links[n] && out'[n] == out[n]
    requires FailureOk(links', labels, child) && FullOut(out', patterns, labels, child)
    ensures PhaseOk(links', out', patterns, labels, done + {child})
  {
    forall n | 0 <= n < |labels| && n != child
      ensures n in done ==> FailureOk(links', labels, n) && FullOut(out', patterns, labels, n)
      ensures n !in done ==> OwnOut(out', patterns, labels, n)
    {
    }
  }

  /** Output inheritance: own outputs plus the failure target's full outputs are the full outputs. */
  lemma InheritOutput(out: seq<seq<nat>>, patterns: seq<string>, isReversed: seq<bool>, labels: seq<string>,
                      child: nat, f: nat)
    requires PatternsEndAtNodes(patterns, isReversed, labels)
    requires OwnOut(out, patterns, labels, child) && FullOut(out, patterns, labels, f)
    requires [] in labels && labels[child] != [] && labels[f] == FailureTarget(labels, labels[child])
    ensures FullOut(out[child := out[child] + out[f]], patterns, labels, child)
  {
    var out' := out[child := out[child] + out[f]];
    forall id: nat
      ensures id in out'[child] <==> id < |patterns| && IsSuffix(KeyOf(patterns, id), labels[child])
    {
      if id < |patterns| {
        SuffixesThroughFailure(labels, KeyOf(patterns, id), labels[child]);
      }
    }
  }

  /** A failure link satisfying FailureOk leads from a non-root string to a shorter suffix of it. */
  lemma FailureShorter(links: seq<nat>, labels: seq<string>, n: nat)
    requires FailureOk(links, labels, n) && labels[n] != []
    ensures IsSuffix(labels[links[n]], labels[n]) && |labels[links[n]]| < |labels[n]|
  {
    var s := labels[n];
    LongestSuffixShape(labels, s[1..]);
    assert IsSuffix(s[1..], s);
    SuffixTrans(labels[links[n]], s[1..], s);
  }

  /** The depth of every node. */
  ghost function Depths(labels: seq<string>): (d: seq<nat>)
    ensures |d| == |labels| && forall i :: 0 <= i < |labels| ==> d[i] == |labels[i]|
  {
    seq(|labels|, i requires 0 <= i < |labels| => |labels[i]|)
  }

  /** Node 0 is the only node at depth 0; every other node is one deeper than its parent. */
  ghost predicate DepthShape(depth: seq<nat>, parent: seq<nat>) {
    && |depth| >= 1 && |parent| == |depth| && depth[0] == 0
    && forall m :: 0 < m < |depth| ==> parent[m] < m && depth[m] == depth[parent[m]] + 1
  }

  /** Only the root has depth 0. */
  lemma DepthPositive(depth: seq<nat>, parent: seq<nat>, p: nat)
    requires DepthShape(depth, parent) && p < |depth|
    ensures depth[p] == 0 <==> p == 0
  {
    if p > 0 {
      assert depth[p] == depth[parent[p]] + 1;
    }
  }

  lemma TrieDepths(children: seq<map<char, nat>>, labels: seq<string>, parent: seq<nat>)
    requires IsTrie(children, labels, parent)
    ensures DepthShape(Depths(labels), parent)
  {
    forall m | 0 < m < |children|
      ensures parent[m] < m && |labels[m]| == |labels[parent[m]]| + 1
    {
      assert labels[parent[m]] == labels[m][..|labels[m]| - 1];
    }
  }

  /**
   * The breadth-first bookkeeping: a node is done once its parent is processed;
   * the queue holds exactly the done, unprocessed nodes, without repetition, in
   * order of depth spanning at most two depths; every node no deeper than the
   * queue's head is done.
   */
  ghost predicate Bfs(depth: seq<nat>, parent: seq<nat>, queue: seq<nat>, processed: set<nat>, done: set<nat>)
    requires |parent| == |depth|
  {
    var n := |depth|;
    && 0 in processed && processed <= done && processed <= Indices(n)
    && (forall m {:trigger parent[m]} :: 0 <= m < n ==> (m in done <==> m == 0 || parent[m] in processed))
    && (forall k :: 0 <= k < |queue| ==> queue[k] < n && queue[k] in done && queue[k] !in processed)
    && (forall m :: 0 <= m < n && m in done && m !in processed ==> m in queue)
    && (forall a, b :: 0 <= a < b < |queue| ==> queue[a] != queue[b])
    && (forall a, b :: 0 <= a <= b < |queue| ==> depth[queue[a]] <= depth[queue[b]])
    && (queue != [] ==> depth[queue[|queue| - 1]] <= depth[queue[0]] + 1)
    && (queue != [] ==> forall m :: 0 <= m < n && depth[m] <= depth[queue[0]] ==> m in done)
  }

  /** What BfsAdvance assumes: current has been dequeued and its children, kids, are done and queued. */
  ghost predicate Advanced(depth: seq<nat>, parent: seq<nat>, current: nat, rest: seq<nat>, kids: seq<nat>,
                           processed: set<nat>, done0: set<nat>, done: set<nat>) {
    && DepthShape(depth, parent)
    && Bfs(depth, parent, [current] + rest, processed, done0)
    && (forall k :: 0 <= k < |kids| ==> 0 < kids[k] < |depth| && parent[kids[k]] == current)
    && (forall a, b :: 0 <= a < b < |kids| ==> kids[a] != kids[b])
    && (forall m :: 0 < m < |depth| && parent[m] == current ==> m in kids)
    && (forall m :: 0 <= m < |depth| ==> (m in done <==> m in done0 || (0 < m && parent[m] == current)))
  }

  /** Dequeuing current and queuing its children keeps the breadth-first bookkeeping. */
  lemma BfsAdvance(depth: seq<nat>, parent: seq<nat>, current: nat, rest: seq<nat>, kids: seq<nat>,
                   processed: set<nat>, done0: set<nat>, done: set<nat>)
    requires Advanced(depth, parent, current, rest, kids, processed, done0, done)
    ensures Bfs(depth, parent, rest + kids, processed + {current}, done)
  {
    AdvanceDepths(depth, parent, current, rest, kids, processed, done0, done);
    AdvanceMembers(depth, parent, current, rest, kids, processed, done0, done);
    AdvanceDistinct(depth, parent, current, rest, kids, processed, done0, done);
    AdvanceSorted(depth, parent, current, rest, kids, processed, done0, done);
    AdvanceFront(depth, parent, current, rest, kids, processed, done0, done);
    AdvanceDone(depth, parent, current, rest, kids, processed, done0, done);
  }

  /** After the step, done is the root and the children of processed nodes, and holds the queue. */
  lemma AdvanceDone(depth: seq<nat>, parent: seq<nat>, current: nat, rest: seq<nat>, kids: seq<nat>,
                    processed: set<nat>, done0: set<nat>, done: set<nat>)
    requires Advanced(depth, parent, current, rest, kids, processed, done0, done)
    requires current < |depth| && current in done0 && current !in processed
    requires forall k :: 0 <= k < |rest| ==> rest[k] in done0 && rest[k] != current && rest[k] !in processed
    requires forall k :: 0 <= k < |kids| ==> kids[k] !in done0 && kids[k] in done
    ensures 0 in processed + {current} && processed + {current} <= done && processed + {current} <= Indices(|depth|)
    ensures forall m {:trigger parent[m]} :: 0 <= m < |depth| ==> (m in done <==> m == 0 || parent[m] in processed + {current})
    ensures forall k :: 0 <= k < |rest + kids| ==>
      (rest + kids)[k] < |depth| && (rest + kids)[k] in done && (rest + kids)[k] !in processed + {current}
  {
    var q := [current] + rest;
    var q' := rest + kids;
    assert current in Indices(|depth|);
    forall m {:trigger parent[m]} | 0 <= m < |depth|
      ensures m in done <==> m == 0 || parent[m] in processed + {current}
    {
      assert m in done <==> m in done0 || (0 < m && parent[m] == current);
      assert m in done0 <==> m == 0 || parent[m] in processed;
    }
    forall k | 0 <= k < |q'|
      ensures q'[k] < |depth| && q'[k] in done && q'[k] !in processed + {current}
    {
      if k < |rest| {
        assert q'[k] == q[k + 1];
      } else {
        assert q'[k] == kids[k - |rest|];
      }
    }
  }

  /** The rest of the queue lies at the depth of current or one below; the children one below. */
  lemma AdvanceDepths(depth: seq<nat>, parent: seq<nat>, current: nat, rest: seq<nat>, kids: seq<nat>,
                      processed: set<nat>, done0: set<nat>, done: set<nat>)
    requires Advanced(depth, parent, current, rest, kids, processed, done0, done)
    ensures current < |depth| && current in done0 && current !in processed
    ensures forall k :: 0 <= k < |rest| ==> rest[k] < |depth| && depth[current] <= depth[rest[k]] <= depth[current] + 1
    ensures forall k :: 0 <= k < |rest| ==> rest[k] in done0 && rest[k] != current && rest[k] !in processed
    ensures forall k :: 0 <= k < |kids| ==> depth[kids[k]] == depth[current] + 1
    ensures forall k :: 0 <= k < |kids| ==> kids[k] !in done0 && kids[k] in done
  {
    var q := [current] + rest;
    assert q[0] == current;
    forall k | 0 <= k < |rest|
      ensures rest[k] < |depth| && depth[current] <= depth[rest[k]] <= depth[current] + 1
      ensures rest[k] in done0 && rest[k] != current && rest[k] !in processed
    {
      assert rest[k] == q[k + 1];
      assert depth[q[0]] <= depth[q[k + 1]] <= depth[q[|q| - 1]];
    }
  }

  lemma AdvanceMembers(depth: seq<nat>, parent: seq<nat>, current: nat, rest: seq<nat>, kids: seq<nat>,
                       processed: set<nat>, done0: set<nat>, done: set<nat>)
    requires Advanced(depth, parent, current, rest, kids, processed, done0, done)
    requires current < |depth| && current in done0 && current !in processed
    requires forall k :: 0 <= k < |rest| ==> rest[k] < |depth| && rest[k] in done0 && rest[k] != current && rest[k] !in processed
    requires forall k :: 0 <= k < |kids| ==> kids[k] !in done0 && kids[k] in done
    ensures forall m :: 0 <= m < |depth| && m in done && m !in processed + {current} ==> m in rest + kids
  {
    var q := [current] + rest;
    var q' := rest + kids;
    forall m | 0 <= m < |depth| && m in done && m !in processed + {current}
      ensures m in q'
    {
      if m in done0 {
        var j :| 0 <= j < |q| && q[j] == m;
        assert j > 0 && q'[j - 1] == m;
      } else {
        var j :| 0 <= j < |kids| && kids[j] == m;
        assert q'[|rest| + j] == m;
      }
    }
  }

  lemma AdvanceDistinct(depth: seq<nat>, parent: seq<nat>, current: nat, rest: seq<nat>, kids: seq<nat>,
                        processed: set<nat>, done0: set<nat>, done: set<nat>)
    requires Advanced(depth, parent, current, rest, kids, processed, done0, done)
    requires forall k :: 0 <= k < |rest| ==> rest[k] in done0
    requires forall k :: 0 <= k < |kids| ==> kids[k] !in done0
    ensures forall a, b :: 0 <= a < b < |rest + kids| ==> (rest + kids)[a] != (rest + kids)[b]
  {
    var q := [current] + rest;
    var q' := rest + kids;
    forall a, b | 0 <= a < b < |q'|
      ensures q'[a] != q'[b]
    {
      if b < |rest| {
        assert q[a + 1] != q[b + 1];
      } else if a >= |rest| {
        assert kids[a - |rest|] != kids[b - |rest|];
      } else {
        assert q'[a] in done0 && q'[b] !in done0;
      }
    }
  }

  lemma AdvanceSorted(depth: seq<nat>, parent: seq<nat>, current: nat, rest: seq<nat>, kids: seq<nat>,
                      processed: set<nat>, done0: set<nat>, done: set<nat>)
    requires Advanced(depth, parent, current, rest, kids, processed, done0, done)
    requires forall k :: 0 <= k < |rest| ==> rest[k] < |depth| && depth[current] <= depth[rest[k]] <= depth[current] + 1
    requires forall k :: 0 <= k < |kids| ==> depth[kids[k]] == depth[current] + 1
    ensures forall a, b :: 0 <= a <= b < |rest + kids| ==> depth[(rest + kids)[a]] <= depth[(rest + kids)[b]]
  {
    var q := [current] + rest;
    var q' := rest + kids;
    forall a, b | 0 <= a <= b < |q'|
      ensures depth[q'[a]] <= depth[q'[b]]
    {
      if b < |rest| {
        assert q'[a] == q[a + 1] && q'[b] == q[b + 1];
      } else if a < |rest| {
        assert q'[a] == rest[a] && q'[b] == kids[b - |rest|];
      } else {
        assert q'[a] == kids[a - |rest|] && q'[b] == kids[b - |rest|];
      }
    }
  }

  lemma AdvanceFront(depth: seq<nat>, parent: seq<nat>, current: nat, rest: seq<nat>, kids: seq<nat>,
                     processed: set<nat>, done0: set<nat>, done: set<nat>)
    requires Advanced(depth, parent, current, rest, kids, processed, done0, done)
    requires current < |depth| && current in done0 && current !in processed
    requires forall k :: 0 <= k < |rest| ==> rest[k] < |depth| && depth[current] <= depth[rest[k]] <= depth[current] + 1
    requires forall k :: 0 <= k < |kids| ==> depth[kids[k]] == depth[current] + 1
    requires forall a, b :: 0 <= a <= b < |rest + kids| ==> depth[(rest + kids)[a]] <= depth[(rest + kids)[b]]
    ensures rest + kids != [] ==>
      && depth[(rest + kids)[|rest + kids| - 1]] <= depth[(rest + kids)[0]] + 1
      && forall m :: 0 <= m < |depth| && depth[m] <= depth[(rest + kids)[0]] ==> m in done
  {
    var q := [current] + rest;
    var q' := rest + kids;
    var d := depth[current];
    assert q[0] == current;
    if q' != [] {
      var front := depth[q'[0]];
      assert d <= front;
      assert depth[q'[|q'| - 1]] <= d + 1;
      forall m | 0 <= m < |depth| && depth[m] <= front
        ensures m in done
      {
        if depth[m] > d {
          assert m != 0;
          var p := parent[m];
          assert depth[p] == d && p in done0;
          assert p !in rest by {
            assert forall k :: 0 <= k < |rest| ==> q'[k] == rest[k] && depth[q'[0]] <= depth[q'[k]];
          }
          assert p in q ==> p == current;
        }
      }
    }
  }

  /** With the queue drained, every node is done. */
  lemma BfsDrained(depth: seq<nat>, parent: seq<nat>, processed: set<nat>, done: set<nat>)
    requires DepthShape(depth, parent) && Bfs(depth, parent, [], processed, done)
    ensures forall m :: 0 <= m < |depth| ==> m in done
  {
    var m := 0;
    while m < |depth|
      invariant m <= |depth|
      invariant forall j :: 0 <= j < m ==> j in done && j in processed
    {
      assert m == 0 || parent[m] < m;
      m := m + 1;
    }
  }

  /** Pattern 2k is word k upper-cased, pattern 2k+1 its reversal. */
  ghost predicate PairedPatterns(patterns: seq<string>, isReversed: seq<bool>, words: seq<string>) {
    && |patterns| == 2 * |words| && |isReversed| == |patterns|
    && forall k :: 0 <= k < |words| ==>
      && patterns[2 * k] == ToUpper(words[k]) && !isReversed[2 * k]
      && patterns[2 * k + 1] == Reverse(ToUpper(words[k])) && isReversed[2 * k + 1]
  }

  /** Adding the next word and its reversal keeps the patterns paired with the words. */
  lemma PairedStep(patterns: seq<string>, isReversed: seq<bool>, words: seq<string>, k: nat)
    requires k < |words| && PairedPatterns(patterns, isReversed, words[..k])
    ensures PairedPatterns(patterns + [ToUpper(words[k])] + [Reverse(ToUpper(words[k]))],
                           isReversed + [false] + [true], words[..k + 1])
  {
    var ps := patterns + [ToUpper(words[k])] + [Reverse(ToUpper(words[k]))];
    var rs := isReversed + [false] + [true];
    forall j | 0 <= j < k + 1
      ensures ps[2 * j] == ToUpper(words[..k + 1][j]) && !rs[2 * j]
      ensures ps[2 * j + 1] == Reverse(ToUpper(words[..k + 1][j])) && rs[2 * j + 1]
    {
      if j < k {
        assert words[..k + 1][j] == words[..k][j];
      }
    }
  }

  /** Matches in nondecreasing order of end position. */
  ghost predicate SortedByEnd(ms: seq<Match>) {
    forall a, b :: 0 <= a < b < |ms| ==> ms[a].endPos <= ms[b].endPos
  }

  /**
   * Appending one Match(id, e) per id of out to matches that end before e keeps
   * the order and adds exactly those pairs.
   */
  lemma MatchesAppended(before: seq<Match>, after: seq<Match>, out: seq<nat>, e: nat)
    requires SortedByEnd(before) && forall k :: 0 <= k < |before| ==> before[k].endPos < e
    requires |after| == |before| + |out|
    requires forall k :: 0 <= k < |before| ==> after[k] == before[k]
    requires forall k :: 0 <= k < |out| ==> after[|before| + k] == Match(out[k], e)
    ensures SortedByEnd(after) && forall k :: 0 <= k < |after| ==> after[k].endPos <= e
    ensures forall id: nat, e': nat :: Match(id, e') in after <==> Match(id, e') in before || (e' == e && id in out)
  {
    forall k | 0 <= k < |after|
      ensures after[k].endPos <= e
      ensures k < |before| ==> after[k].endPos < e
    {
      if k >= |before| {
        assert after[|before| + (k - |before|)] == Match(out[k - |before|], e);
      }
    }
    forall a, b | 0 <= a < b < |after|
      ensures after[a].endPos <= after[b].endPos
    {
      if b < |before| {
        assert after[a] == before[a] && after[b] == before[b];
      } else {
        assert after[b] == Match(out[b - |before|], e);
      }
    }
    forall id: nat, e': nat
      ensures Match(id, e') in after <==> Match(id, e') in before || (e' == e && id in out)
    {
      if Match(id, e') in after {
        var k :| 0 <= k < |after| && after[k] == Match(id, e');
        if k >= |before| {
          assert after[|before| + (k - |before|)] == Match(out[k - |before|], e);
        }
      }
      if Match(id, e') in before {
        var k :| 0 <= k < |before| && before[k] == Match(id, e');
        assert after[k] == Match(id, e');
      }
      if e' == e && id in out {
        var j :| 0 <= j < |out| && out[j] == id;
        assert after[|before| + j] == Match(id, e');
      }
    }
  }

  /** Every (id, e) with e < i such that pattern id ends at index e of t: the matches search has reported before index i. */
  ghost predicate ReportedUpTo(ms: seq<Match>, patterns: seq<string>, t: string, i: nat) {
    && SortedByEnd(ms)
    && (forall k :: 0 <= k < |ms| ==> ms[k].endPos < i)
    && forall id: nat, e: nat :: Match(id, e) in ms <==> id < |patterns| && e < i && OccursAt(KeyOf(patterns, id), t, e)
  }

  /** Reporting, at index i, exactly the patterns that end there extends the reported matches to index i + 1. */
  lemma ReportStep(patterns: seq<string>, t: string, i: nat, before: seq<Match>, after: seq<Match>, out: seq<nat>)
    requires ReportedUpTo(before, patterns, t, i)
    requires forall id: nat :: id in out <==> id < |patterns| && OccursAt(KeyOf(patterns, id), t, i)
    requires |after| == |before| + |out|
    requires forall k :: 0 <= k < |before| ==> after[k] == before[k]
    requires forall k :: 0 <= k < |out| ==> after[|before| + k] == Match(out[k], i)
    ensures ReportedUpTo(after, patterns, t, i + 1)
  {
    MatchesAppended(before, after, out, i);
  }

  /** A node appended with an empty output and a string no node had keeps every node's own outputs. */
  lemma FreshNodeKeepsOutputs(output: seq<seq<nat>>, patterns: seq<string>, isReversed: seq<bool>,
                              labels: seq<string>, s: string)
    requires PatternsEndAtNodes(patterns, isReversed, labels) && AllOwnOut(output, patterns, labels)
    requires s !in labels && |output| == |labels|
    ensures PatternsEndAtNodes(patterns, isReversed, labels + [s])
    ensures AllOwnOut(output + [[]], patterns, labels + [s])
  {
    var labels', output' := labels + [s], output + [[]];
    forall n | 0 <= n < |labels'|
      ensures OwnOut(output', patterns, labels', n)
    {
      if n < |labels| {
        assert OwnOut(output, patterns, labels, n);
        assert output'[n] == output[n] && labels'[n] == labels[n];
      } else {
        forall id: nat | id < |patterns|
          ensures KeyOf(patterns, id) != labels'[n]
        {
          assert KeyOf(patterns, id) in labels;
        }
      }
    }
  }

  /** Recording a new pattern's id at the node that spells its letters gives it as that node's own output. */
  lemma RecordPattern(children: seq<map<char, nat>>, labels: seq<string>, parent: seq<nat>, output: seq<seq<nat>>,
                      patterns: seq<string>, isReversed: seq<bool>, pattern: string, reversed: bool, current: nat)
    requires IsTrie(children, labels, parent) && |output| == |labels|
    requires PatternsEndAtNodes(patterns, isReversed, labels) && AllOwnOut(output, patterns, labels)
    requires current < |labels| && Letters(pattern) == labels[current] && Letters(pattern) != []
    ensures PatternsEndAtNodes(patterns + [pattern], isReversed + [reversed], labels)
    ensures AllOwnOut(output[current := output[current] + [|patterns|]], patterns + [pattern], labels)
  {
    var patterns', output' := patterns + [pattern], output[current := output[current] + [|patterns|]];
    assert forall id :: 0 <= id < |patterns| ==> KeyOf(patterns', id) == KeyOf(patterns, id);
    assert KeyOf(patterns', |patterns|) == labels[current];
    forall n | 0 <= n < |labels|
      ensures OwnOut(output', patterns', labels, n)
    {
      assert OwnOut(output, patterns, labels, n);
      if labels[n] == labels[current] {
        LabelsInjective(children, labels, parent, n, current);
      }
    }
  }

  /** A non-empty pattern that ends at e ends with t[e]. */
  lemma LastOfOccurrence(p: string, t: string, e: nat)
    requires p != [] && e < |t|
    ensures OccursAt(p, t, e) ==> t[e] == p[|p| - 1]
  {
    if OccursAt(p, t, e) {
      assert t[e + 1 - |p|..e + 1][|p| - 1] == t[e];
    }
  }

  class Automaton {
    /** Edges of each node, keyed by letter (TrieNode.children). */
    var children: seq<map<char, nat>>
    /** Failure link of each node (TrieNode.failureLink); 0 until BuildFailureLinks sets it. */
    var failureLink: seq<nat>
    /** Pattern ids recognised at each node (TrieNode.output). */
    var output: seq<seq<nat>>
    /** Pattern strings by id (the upper-cased word or its reversal). */
    var patterns: seq<string>
    /** Whether pattern id is a reversed word. */
    var isReversed: seq<bool>
    /** The string each node spells from the root. */
    ghost var labels: seq<string>
    /** The node each non-root node hangs from. */
    ghost var parent: seq<nat>
    /** The word list the automaton was built from. */
    ghost var words: seq<string>

    ghost predicate TrieShape()
      reads this
    {
      IsTrie(children, labels, parent)
    }

    /** Every node has a failure link and an output list. */
    ghost predicate Sized()
      reads this
    {
      |failureLink| == |children| && |output| == |children|
    }

    ghost predicate PatternTable()
      reads this
    {
      PatternsEndAtNodes(patterns, isReversed, labels)
    }

    ghost predicate OwnOutput(n: nat)
      reads this
    {
      OwnOut(output, patterns, labels, n)
    }

    ghost predicate FullOutput(n: nat)
      reads this
    {
      FullOut(output, patterns, labels, n)
    }

    ghost predicate FailureCorrect(n: nat)
      reads this
    {
      FailureOk(failureLink, labels, n)
    }

    /** The state after all insertions and before BuildFailureLinks. */
    ghost predicate Inserted()
      reads this
    {
      TrieShape() && Sized() && PatternTable() && AllOwnOut(output, patterns, labels)
    }

    /** The state after construction. */
    ghost predicate Built()
      reads this
    {
      TrieShape() && Sized() && PatternTable() && Linked(failureLink, output, patterns, labels)
    }

    ghost predicate FromWords()
      reads this
    {
      PairedPatterns(patterns, isReversed, words)
    }

    ghost predicate Phase(done: set<nat>)
      reads this
    {
      PhaseOk(failureLink, output, patterns, labels, done)
    }

    ghost predicate BfsOrder(queue: seq<nat>, processed: set<nat>, done: set<nat>)
      reads this
      requires |parent| == |labels|
    {
      Bfs(Depths(labels), parent, queue, processed, done)
    }

    constructor (words: seq<string>)
      requires forall k :: 0 <= k < |words| ==> Letters(ToUpper(words[k])) != []
      ensures Built() && FromWords() && this.words == words
    {
      children := [map[]];
      failureLink := [0];
      output := [[]];
      patterns := [];
      isReversed := [];
      labels := [[]];
      parent := [0];
      this.words := words;
      new;
      for k := 0 to |words|
        invariant Inserted() && this.words == words
        invariant PairedPatterns(patterns, isReversed, words[..k])
      {
        var upperWord := ToUpper(words[k]);
        LettersOfReverse(upperWord);
        PairedStep(patterns, isReversed, words, k);
        AddPattern(upperWord, false);
        AddPattern(Reverse(upperWord), true);
      }
      assert words[..|words|] == words;
      BuildFailureLinks();
    }

    static lemma LettersOfReverse(s: string)
      requires Letters(s) != []
      ensures Letters(Reverse(s)) != []
    {
      var i := LetterIn(s);
      LetterGivesLetters(Reverse(s), |s| - 1 - i);
    }

    static lemma {:induction false} LetterIn(s: string) returns (i: nat)
      requires Letters(s) != []
      ensures i < |s| && IsUpperLetter(s[i])
      decreases |s|
    {
      if IsUpperLetter(s[|s| - 1]) {
        i := |s| - 1;
      } else {
        i := LetterIn(s[..|s| - 1]);
      }
    }

    static lemma {:induction false} LetterGivesLetters(s: string, i: nat)
      requires i < |s| && IsUpperLetter(s[i])
      ensures Letters(s) != []
      decreases |s|
    {
      if i < |s| - 1 {
        LetterGivesLetters(s[..|s| - 1], i);
      }
    }

    /** addPattern: follow or create one edge per letter of pattern, skip other characters, record the id at the end node. */
    method AddPattern(pattern: string, reversed: bool)
      requires Inserted()
      requires Letters(pattern) != []
      modifies this`children, this`failureLink, this`output, this`patterns, this`isReversed, this`labels, this`parent
      ensures Inserted()
      ensures patterns == old(patterns) + [pattern] && isReversed == old(isReversed) + [reversed]
      ensures old(labels) <= labels
      ensures forall n :: |old(labels)| <= n < |labels| ==> labels[n] <= Letters(pattern)
    {
      var patternId := |patterns|;
      ghost var oldPatterns, oldReversed := patterns, isReversed;
      patterns := patterns + [pattern];
      isReversed := isReversed + [reversed];
      var current: nat := 0;
      for k := 0 to |pattern|
        invariant TrieShape() && Sized()
        invariant current < |children| && labels[current] == Letters(pattern[..k])
        invariant patterns == oldPatterns + [pattern] && isReversed == oldReversed + [reversed]
        invariant PatternsEndAtNodes(oldPatterns, oldReversed, labels) && AllOwnOut(output, oldPatterns, labels)
        invariant old(labels) <= labels
        invariant forall n :: |old(labels)| <= n < |labels| ==> labels[n] <= Letters(pattern[..k])
      {
        var ch := pattern[k];
        var index := ch as int - 'A' as int;
        LettersOfPrefix(pattern, k);
        if index < 0 || index >= 26 {
          continue;
        }
        if ch !in children[current] {
          ChildIffLabel(children, labels, parent, current, ch);
          ghost var oldLabels, oldOutput := labels, output;
          AddChild(current, ch);
          FreshNodeKeepsOutputs(oldOutput, oldPatterns, oldReversed, oldLabels, oldLabels[current] + [ch]);
        }
        current := children[current][ch];
      }
      assert pattern[..|pattern|] == pattern;
      RecordPattern(children, labels, parent, output, oldPatterns, oldReversed, pattern, reversed, current);
      output := output[current := output[current] + [patternId]];
    }

    /** Appends a fresh node as the child of p on c (TrieNode allocation in addPattern). */
    method AddChild(p: nat, c: char)
      requires TrieShape() && Sized() && p < |children| && IsUpperLetter(c)
      requires labels[p] + [c] !in labels
      modifies this`children, this`failureLink, this`output, this`labels, this`parent
      ensures TrieShape() && Sized()
      ensures p < |children| && c in children[p]
      ensures labels == old(labels) + [old(labels)[p] + [c]]
      ensures output == old(output) + [[]]
    {
      ChildIffLabel(children, labels, parent, p, c);
      ghost var oldCh, oldLab, oldPar := children, labels, parent;
      var node: nat := |children|;
      var edges: map<char, nat> := children[p][c := node];
      children := children[p := edges] + [map[]];
      failureLink := failureLink + [0];
      output := output + [[]];
      labels := labels + [labels[p] + [c]];
      parent := parent + [p];
      forall q, d | 0 <= q < |children| && d in children[q]
        ensures IsUpperLetter(d) && children[q][d] < |children| && labels[children[q][d]] == labels[q] + [d]
      {
        if q != p || d != c {
          assert q < node && d in oldCh[q] && children[q][d] == oldCh[q][d];
        }
      }
      forall m | 0 < m < |children|
        ensures parent[m] < m && labels[m] != []
        ensures labels[parent[m]] == labels[m][..|labels[m]| - 1]
        ensures labels[m][|labels[m]| - 1] in children[parent[m]]
        ensures children[parent[m]][labels[m][|labels[m]| - 1]] == m
      {
        if m < node {
          var e := oldLab[m][|oldLab[m]| - 1];
          assert oldPar[m] < m && e in oldCh[oldPar[m]] && oldCh[oldPar[m]][e] == m;
          if oldPar[m] == p {
            assert e != c;
          }
        } else {
          assert labels[m][..|labels[m]| - 1] == oldLab[p];
        }
      }
    }

    /**
     * The failure walk shared by buildFailureLinks and search: from state, follow
     * failure links until a node with an edge on ch, or the root, is reached.
     */
    method FollowFailures(state: nat, ch: char) returns (s: nat)
      requires TrieShape() && state < |children|
      requires forall n {:trigger FailureCorrect(n)} :: 0 <= n < |children| && |labels[n]| <= |labels[state]| ==>
        FailureCorrect(n)
      ensures s < |children| && |labels[s]| <= |labels[state]|
      ensures s == 0 || ch in children[s]
      ensures LongestSuffix(labels, labels[s] + [ch]) == LongestSuffix(labels, labels[state] + [ch])
    {
      LabelsPrefixClosed(children, labels, parent);
      s := state;
      while s != 0 && ch !in children[s]
        invariant TrieShape() && s < |children| && |labels[s]| <= |labels[state]|
        invariant LongestSuffix(labels, labels[s] + [ch]) == LongestSuffix(labels, labels[state] + [ch])
        decreases |labels[s]|
      {
        ChildIffLabel(children, labels, parent, s, ch);
        assert parent[s] < s && labels[s] != [];
        FailureStep(labels, labels[s], ch);
        assert FailureCorrect(s);
        FailureShorter(failureLink, labels, s);
        s := failureLink[s];
      }
    }

    /** The root and every node spelled by one letter are correct once linked to the root. */
    lemma DepthOneCorrect(n: nat)
      requires TrieShape() && Sized() && PatternTable() && n < |children| && OwnOutput(n)
      requires |labels[n]| <= 1 && failureLink[n] == 0
      ensures FailureCorrect(n) && FullOutput(n)
    {
      LabelsPrefixClosed(children, labels, parent);
      forall id: nat | id < |patterns|
        ensures IsSuffix(KeyOf(patterns, id), labels[n]) <==> KeyOf(patterns, id) == labels[n]
      {
      }
      if labels[n] != [] {
        assert labels[n][1..] == [];
      }
    }

    /** buildFailureLinks: breadth-first, root's children first, then each dequeued node's children. */
    method BuildFailureLinks()
      requires Inserted()
      modifies this`failureLink, this`output
      ensures Built()
    {
      TrieDepths(children, labels, parent);
      var queue: seq<nat>;
      ghost var done: set<nat>;
      queue, done := LinkRootChildren();
      ghost var processed: set<nat> := {0};
      while queue != []
        invariant Sized() && Phase(done) && BfsOrder(queue, processed, done)
        decreases Indices(|children|) - processed
      {
        var current := queue[0];
        var rest := queue[1..];
        assert queue == [current] + rest;
        Dequeued(current, rest, processed, done);
        ghost var done0 := done;
        queue, done := LinkChildrenOf(current, rest, done);
        Requeued(current, rest, KidsBelow(children[current], 26), processed, done0, done);
        processed := processed + {current};
      }
      BfsDrained(Depths(labels), parent, processed, done);
    }

    /** Step 1 of buildFailureLinks: the root and its children link to the root; the children are queued. */
    method LinkRootChildren() returns (queue: seq<nat>, ghost done: set<nat>)
      requires Inserted()
      modifies this`failureLink
      ensures Sized() && Phase(done) && BfsOrder(queue, {0}, done)
    {
      TrieDepths(children, labels, parent);
      ghost var depth := Depths(labels);
      ghost var oldLinks := failureLink;
      failureLink := failureLink[0 := 0];
      DepthOneCorrect(0);
      queue := [];
      done := {0};
      PhaseExtend(oldLinks, output, failureLink, output, patterns, labels, {}, 0);
      var edges := children[0];
      for i := 0 to 26
        invariant Sized() && Phase(done)
        invariant queue == KidsBelow(edges, i) && forall n :: n in done <==> n == 0 || n in queue
      {
        var ch := Letter(i);
        KidsAreChildren(children, labels, parent, 0, i);
        if ch in edges {
          var child := edges[ch];
          assert KidsBelow(edges, i + 1) == queue + [child];
          ChildParent(children, labels, parent, 0, ch);
          oldLinks := failureLink;
          failureLink := failureLink[child := 0];
          DepthOneCorrect(child);
          PhaseExtend(oldLinks, output, failureLink, output, patterns, labels, done, child);
          queue := queue + [child];
          done := done + {child};
        } else {
          assert KidsBelow(edges, i + 1) == queue;
        }
      }
      AllKids(children, labels, parent, 0);
      RootChildrenQueued(depth, queue, done);
    }

    /** The breadth-first bookkeeping holds once exactly the root's children are queued. */
    lemma RootChildrenQueued(depth: seq<nat>, queue: seq<nat>, done: set<nat>)
      requires TrieShape() && depth == Depths(labels) && DepthShape(depth, parent)
      requires queue == KidsBelow(children[0], 26) && forall n :: n in done <==> n == 0 || n in queue
      requires forall k :: 0 <= k < |queue| ==> 0 < queue[k] < |children| && parent[queue[k]] == 0
      requires forall a, b :: 0 <= a < b < |queue| ==> queue[a] != queue[b]
      requires forall m {:trigger parent[m]} :: 0 <= m < |children| ==> (m in queue <==> 0 < m && parent[m] == 0)
      ensures BfsOrder(queue, {0}, done)
    {
      forall k | 0 <= k < |queue|
        ensures depth[queue[k]] == 1
      {
        assert parent[queue[k]] == 0;
      }
      forall m | 0 <= m < |children| && depth[m] <= 1
        ensures m in done
      {
        if m != 0 {
          var p := parent[m];
          assert p < m && depth[m] == depth[p] + 1;
          DepthPositive(depth, parent, p);
        }
      }
      forall m | 0 <= m < |children|
        ensures m in done <==> m == 0 || parent[m] in {0}
      {
      }
    }

    /** One iteration of the inner loop of buildFailureLinks: link child ch of current and inherit its outputs. */
    method LinkChild(current: nat, ch: char, ghost done: set<nat>)
      requires TrieShape() && PatternTable() && Sized() && Phase(done)
      requires 0 < current < |children| && ch in children[current] && current in done
      requires forall n {:trigger n in done} :: 0 <= n < |children| && |labels[n]| <= |labels[current]| ==> n in done
      requires children[current][ch] !in done
      modifies this`failureLink, this`output
      ensures Sized() && Phase(done + {children[current][ch]})
    {
      var child := children[current][ch];
      assert FailureCorrect(current);
      ghost var fl := failureLink[current];
      assert parent[current] < current && labels[current] != [];
      FailureShorter(failureLink, labels, current);
      var failureState := FollowFailures(failureLink[current], ch);
      ChildLink(children, labels, parent, failureLink, current, ch, failureState);
      ghost var oldLinks, oldOut := failureLink, output;
      if ch in children[failureState] && children[failureState][ch] != child {
        failureLink := failureLink[child := children[failureState][ch]];
      } else {
        failureLink := failureLink[child := 0];
      }
      var f := failureLink[child];
      assert f in done;
      assert OwnOutput(child) && FullOutput(f) && labels[child] != [];
      InheritOutput(output, patterns, isReversed, labels, child, f);
      output := output[child := output[child] + output[f]];
      PhaseExtend(oldLinks, oldOut, failureLink, output, patterns, labels, done, child);
    }

    /** The dequeued node is linked, every shallower node too, and none of its children yet. */
    lemma Dequeued(current: nat, rest: seq<nat>, processed: set<nat>, done0: set<nat>)
      requires TrieShape() && BfsOrder([current] + rest, processed, done0)
      ensures 0 < current < |children| && current in done0
      ensures forall n {:trigger n in done0} :: 0 <= n < |children| && |labels[n]| <= |labels[current]| ==> n in done0
      ensures forall m {:trigger parent[m]} :: 0 < m < |children| && parent[m] == current ==> m !in done0
    {
      TrieDepths(children, labels, parent);
      ghost var depth := Depths(labels);
      assert ([current] + rest)[0] == current;
      assert 0 < current < |children| && current in done0 && current !in processed;
      forall n | 0 <= n < |children| && |labels[n]| <= |labels[current]|
        ensures n in done0
      {
        assert depth[n] <= depth[current];
      }
    }

    /** Queuing the children of the dequeued node keeps the breadth-first bookkeeping. */
    lemma Requeued(current: nat, rest: seq<nat>, kids: seq<nat>, processed: set<nat>, done0: set<nat>, done: set<nat>)
      requires TrieShape() && BfsOrder([current] + rest, processed, done0)
      requires current < |children| && kids == KidsBelow(children[current], 26)
      requires forall n :: n in done <==> n in done0 || n in kids
      ensures BfsOrder(rest + kids, processed + {current}, done)
    {
      TrieDepths(children, labels, parent);
      AllKids(children, labels, parent, current);
      BfsAdvance(Depths(labels), parent, current, rest, kids, processed, done0, done);
    }

    /** The inner loop of buildFailureLinks for the dequeued node current: every child is linked and queued. */
    method LinkChildrenOf(current: nat, rest: seq<nat>, ghost done0: set<nat>)
      returns (queue: seq<nat>, ghost done: set<nat>)
      requires TrieShape() && PatternTable() && Sized() && Phase(done0)
      requires 0 < current < |children| && current in done0
      requires forall n {:trigger n in done0} :: 0 <= n < |children| && |labels[n]| <= |labels[current]| ==> n in done0
      requires forall m {:trigger parent[m]} :: 0 < m < |children| && parent[m] == current ==> m !in done0
      modifies this`failureLink, this`output
      ensures Sized() && Phase(done)
      ensures queue == rest + KidsBelow(children[current], 26)
      ensures forall n :: n in done <==> n in done0 || n in KidsBelow(children[current], 26)
    {
      queue := rest;
      done := done0;
      ghost var kids: seq<nat> := [];
      var edges := children[current];
      for i := 0 to 26
        invariant Sized() && Phase(done)
        invariant queue == rest + kids && kids == KidsBelow(edges, i)
        invariant forall n :: n in done <==> n in done0 || n in kids
      {
        var ch := Letter(i);
        KidsAreChildren(children, labels, parent, current, i);
        if ch in edges {
          var child := edges[ch];
          assert KidsBelow(edges, i + 1) == kids + [child];
          ChildParent(children, labels, parent, current, ch);
          assert child !in kids;
          LinkChild(current, ch, done);
          queue := queue + [child];
          kids := kids + [child];
          done := done + {child};
        } else {
          assert KidsBelow(edges, i + 1) == kids;
        }
      }
    }

    /** search: one pass over the upper-cased text, reporting every pattern at every position it ends. */
    method Search(text: string) returns (matches: seq<Match>)
      requires Built()
      ensures forall id: nat, e: nat :: Match(id, e) in matches <==>
        id < |patterns| && OccursAt(KeyOf(patterns, id), ToUpper(text), e)
      ensures SortedByEnd(matches)
    {
      matches := [];
      var upperText := ToUpper(text);
      var current := 0;
      LabelsPrefixClosed(children, labels, parent);
      for i := 0 to |upperText|
        invariant current < |children| && labels[current] == LongestSuffix(labels, Run(upperText, i))
        invariant ReportedUpTo(matches, patterns, upperText, i)
      {
        var ch := upperText[i];
        var index := ch as int - 'A' as int;
        if index < 0 || index >= 26 {
          current := 0;
          NoMatchAtNonLetter(upperText, i);
          ReportStep(patterns, upperText, i, matches, matches, []);
          continue;
        }
        ghost var run := Run(upperText, i);
        assert Run(upperText, i + 1) == run + [ch];
        ExtendLongest(labels, run, ch);
        current := FollowFailures(current, ch);
        Transition(children, labels, parent, current, ch);
        if ch in children[current] {
          current := children[current][ch];
        } else {
          current := 0;
        }
        OutputIsOccurrences(upperText, i, current);
        ghost var before := matches;
        var out := output[current];
        matches := ReportAll(matches, out, i);
        ReportStep(patterns, upperText, i, before, matches, out);
      }
    }

    /** The reporting loop of search: one Match(patternId, e) per id of out, in order, after before. */
    static method ReportAll(before: seq<Match>, out: seq<nat>, e: nat) returns (after: seq<Match>)
      ensures |after| == |before| + |out|
      ensures forall k :: 0 <= k < |before| ==> after[k] == before[k]
      ensures forall k :: 0 <= k < |out| ==> after[|before| + k] == Match(out[k], e)
    {
      after := before;
      for j := 0 to |out|
        invariant |after| == |before| + j
        invariant forall k :: 0 <= k < |before| ==> after[k] == before[k]
        invariant forall k :: 0 <= k < j ==> after[|before| + k] == Match(out[k], e)
      {
        after := after + [Match(out[j], e)];
      }
    }

    /** No pattern ends on a character outside 'A'..'Z'. */
    lemma NoMatchAtNonLetter(t: string, e: nat)
      requires PatternTable() && e < |t| && !IsUpperLetter(t[e])
      ensures forall id: nat :: id < |patterns| ==> !OccursAt(KeyOf(patterns, id), t, e)
    {
      forall id: nat | id < |patterns|
        ensures !OccursAt(KeyOf(patterns, id), t, e)
      {
        var k := KeyOf(patterns, id);
        LettersShape(patterns[id]);
        assert IsUpperLetter(k[|k| - 1]);
        LastOfOccurrence(k, t, e);
      }
    }

    /** In the state Search keeps, a node's output is exactly the patterns ending at the current position. */
    lemma OutputIsOccurrences(t: string, e: nat, n: nat)
      requires Built() && n < |children| && e < |t|
      requires labels[n] == LongestSuffix(labels, Run(t, e + 1))
      ensures forall id: nat :: id in output[n] <==> id < |patterns| && OccursAt(KeyOf(patterns, id), t, e)
    {
      LabelsPrefixClosed(children, labels, parent);
      assert FullOutput(n);
      forall id: nat | id < |patterns|
        ensures IsSuffix(KeyOf(patterns, id), labels[n]) <==> OccursAt(KeyOf(patterns, id), t, e)
      {
        var k := KeyOf(patterns, id);
        LettersShape(patterns[id]);
        RunSuffix(k, t, e);
        if IsSuffix(k, Run(t, e + 1)) {
          SuffixOfLongest(labels, k, Run(t, e + 1));
        }
        if IsSuffix(k, labels[n]) {
          LongestSuffixShape(labels, Run(t, e + 1));
          SuffixTrans(k, labels[n], Run(t, e + 1));
        }
      }
    }

    /** getPattern: the stored pattern string, non-letters included. */
    function GetPattern(patternId: nat): string
      reads this
      requires patternId < |patterns|
    {
      patterns[patternId]
    }

    /** isReversedPattern. */
    function IsReversedPattern(patternId: nat): bool
      reads this
      requires patternId < |isReversed|
    {
      isReversed[patternId]
    }

    /**
     * Pattern ids come in pairs: the even one is the upper-cased word, the odd one its
     * reversal and marked reversed; reversing either gives the other.
     */
    lemma PatternPairs(patternId: nat)
      requires FromWords() && patternId < |patterns|
      ensures IsReversedPattern(patternId) <==> patternId % 2 == 1
      ensures GetPattern(patternId) ==
        (if patternId % 2 == 0 then ToUpper(words[patternId / 2]) else Reverse(ToUpper(words[patternId / 2])))
      ensures Reverse(GetPattern(patternId)) == GetPattern(if patternId % 2 == 0 then patternId + 1 else patternId - 1)
    {
      var k := patternId / 2;
      if patternId % 2 == 1 {
        assert patternId == 2 * k + 1;
        ReverseInvolution(ToUpper(words[k]));
      } else {
        assert patternId == 2 * k;
      }
    }

    /**
     * Every pattern ends at the node spelled by its letters, whose output lists it and
     * every pattern with the same letters; the pattern is at least as long as that
     * node's depth, and longer exactly when it holds a non-letter.
     */
    lemma PatternEndNode(patternId: nat) returns (n: nat)
      requires Built() && patternId < |patterns|
      ensures n < |children| && labels[n] == Letters(GetPattern(patternId))
      ensures forall id: nat :: id < |patterns| && KeyOf(patterns, id) == KeyOf(patterns, patternId) ==> id in output[n]
      ensures |labels[n]| <= |GetPattern(patternId)|
      ensures |labels[n]| == |GetPattern(patternId)| <==> AllUpperLetters(GetPattern(patternId))
    {
      n :| 0 <= n < |labels| && labels[n] == KeyOf(patterns, patternId);
      assert FullOutput(n);
      assert IsSuffix(labels[n], labels[n]) by {
        assert labels[n][|labels[n]| - |labels[n]|..] == labels[n];
      }
      LettersShape(patterns[patternId]);
    }

    /** The failure links of the root and of every depth-one node lead to the root. */
    lemma ShallowLinks()
      requires Built()
      ensures failureLink[0] == 0
      ensures forall n :: 0 <= n < |children| && |labels[n]| == 1 ==> failureLink[n] == 0
    {
      assert FailureCorrect(0);
      LabelsInjective(children, labels, parent, failureLink[0], 0);
      forall n | 0 <= n < |children| && |labels[n]| == 1
        ensures failureLink[n] == 0
      {
        assert FailureCorrect(n);
        assert labels[n][1..] == [];
        LabelsInjective(children, labels, parent, failureLink[n], 0);
      }
    }

    /**
     * The failure link of a non-root node leads to a proper suffix of its string, and
     * no node spells a longer proper suffix.
     */
    lemma FailureLinkLongest(n: nat)
      requires Built() && 0 < n < |children|
      ensures var f := failureLink[n];
        && f < |children| && |labels[f]| < |labels[n]| && IsSuffix(labels[f], labels[n])
        && forall m :: 0 <= m < |children| && |labels[m]| < |labels[n]| && IsSuffix(labels[m], labels[n]) ==>
             |labels[m]| <= |labels[f]|
    {
      assert FailureCorrect(n);
      assert parent[n] < n;
      var s := labels[n];
      FailureShorter(failureLink, labels, n);
      LongestSuffixShape(labels, s[1..]);
      forall m | 0 <= m < |children| && |labels[m]| < |s| && IsSuffix(labels[m], s)
        ensures |labels[m]| <= |labels[failureLink[n]]|
      {
        SuffixDropFirst(labels[m], s);
      }
    }
  }
}
