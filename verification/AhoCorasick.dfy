/** The password-strength matcher: a trie in growing arrays, failure links and inherited output lengths. */
module AhoCorasick {
  import opened Coverage
  import opened Suffixes

  const ROOT := 0
  const NONE := -1

  /** The words the constructor keeps: neither empty nor longer than a Uint16 depth can count. */
  ghost function Dictionary(input: seq<Text>): set<Text> {
    set w | w in input && 0 < |w| <= MAX_WORD
  }

  lemma DictionaryStep(input: seq<Text>, i: nat)
    requires i < |input|
    ensures Dictionary(input[..i + 1]) ==
            Dictionary(input[..i]) + if input[i] != [] && |input[i]| <= MAX_WORD then {input[i]} else {}
  {
    assert input[..i + 1] == input[..i] + [input[i]];
  }

  predicate SameText(s: Text, t: Text) {
    s == t
  }

  /** path[n] is the text spelled from the root to node n, and parent[n] the node one letter above. */
  ghost predicate IsTrie(path: seq<Text>, parent: seq<int>) {
    && |path| == |parent| >= 1
    && path[0] == []
    && (forall n :: 0 <= n < |path| ==> |path[n]| <= MAX_WORD)
    && (forall n {:trigger parent[n]} :: 1 <= n < |path| ==>
          0 <= parent[n] < n && |path[n]| == |path[parent[n]]| + 1 && path[n][..|path[n]| - 1] == path[parent[n]])
    && (forall m, n {:trigger SameText(path[m], path[n])} :: 0 <= m < n < |path| ==> !SameText(path[m], path[n]))
  }

  /** The nodes of the trie are the root and exactly the prefixes of the words. */
  ghost predicate Spells(path: seq<Text>, words: set<Text>) {
    && (forall w :: w in words ==> 0 < |w| <= MAX_WORD && w in path)
    && (forall n {:trigger IsWordPrefix(words, path[n])} :: 1 <= n < |path| ==> IsWordPrefix(words, path[n]))
  }

  lemma {:induction false} PrefixIsNode(path: seq<Text>, parent: seq<int>, n: nat, k: nat)
    requires IsTrie(path, parent) && n < |path| && k <= |path[n]|
    ensures path[n][..k] in path
    decreases n
  {
    if k == |path[n]| {
      assert path[n][..k] == path[n];
    } else {
      var p := parent[n];
      assert path[n][..k] == path[p][..k];
      PrefixIsNode(path, parent, p, k);
    }
  }

  lemma NodeIsChild(path: seq<Text>, parent: seq<int>, node: int, ch: Unit, n: int)
    requires IsTrie(path, parent) && 0 <= node < |path| && 0 <= n < |path|
    ensures path[n] == path[node] + [ch] ==> n > 0 && parent[n] == node && path[n][|path[n]| - 1] == ch
  {
    if path[n] == path[node] + [ch] {
      assert path[parent[n]] == path[n][..|path[n]| - 1] == path[node];
      assert SameText(path[parent[n]], path[node]) && SameText(path[node], path[parent[n]]);
    }
  }

  lemma WordPrefixIsNode(path: seq<Text>, parent: seq<int>, words: set<Text>, s: Text)
    requires IsTrie(path, parent) && Spells(path, words)
    ensures s == [] || IsWordPrefix(words, s) <==> s in path
  {
    if IsWordPrefix(words, s) {
      var w :| w in words && s <= w;
      var n :| 0 <= n < |path| && path[n] == w;
      PrefixIsNode(path, parent, n, |s|);
      assert w[..|s|] == s;
    }
  }

  /** f is the node of the longest proper suffix of node n's text that is itself a node. */
  ghost predicate IsFailLink(path: seq<Text>, n: int, f: int)
    requires 0 <= n < |path|
  {
    && 0 <= f < |path|
    && |path[f]| < |path[n]|
    && IsSuffix(path[f], path[n])
    && (forall m {:trigger IsSuffix(path[m], path[n])} :: 0 <= m < |path| && |path[m]| < |path[n]| && IsSuffix(path[m], path[n]) ==> |path[m]| <= |path[f]|)
  }

  /** node is the longest suffix of t that is a node: the automaton's state after reading t. */
  ghost predicate IsState(path: seq<Text>, t: Text, node: int) {
    && 0 <= node < |path|
    && IsSuffix(path[node], t)
    && (forall m {:trigger IsSuffix(path[m], t)} :: 0 <= m < |path| && IsSuffix(path[m], t) ==> |path[m]| <= |path[node]|)
  }

  /** A failure link is the state reached on the node's text without its first letter. */
  lemma FailLinkIsState(path: seq<Text>, parent: seq<int>, n: int, f: int)
    requires IsTrie(path, parent) && 1 <= n < |path|
    ensures |path[n]| == |path[parent[n]]| + 1
    ensures IsFailLink(path, n, f) <==> IsState(path, path[n][1..], f)
  {
    assert parent[n] >= 0;
    var s := path[n];
    forall u: Text
      ensures IsSuffix(u, s) && |u| < |s| <==> IsSuffix(u, s[1..])
    {
      if |u| < |s| {
        assert s[|s| - |u|..] == s[1..][|s[1..]| - |u|..];
      }
    }
  }

  lemma LinkNotSelf(path: seq<Text>, parent: seq<int>, n: int, f: int)
    requires IsTrie(path, parent) && 1 <= n < |path| && path[n] != []
    requires IsState(path, path[n][1..], f)
    ensures f != n && IsFailLink(path, n, f) && |path[f]| <= |path[parent[n]]|
  {
    FailLinkIsState(path, parent, n, f);
  }

  /** f lies on the failure chain below t, and every longer node that is a suffix of t has no child on ch. */
  ghost predicate IsSearching(path: seq<Text>, t: Text, ch: Unit, f: int) {
    && 0 <= f < |path|
    && IsSuffix(path[f], t)
    && (forall m {:trigger IsSuffix(path[m], t)} :: 0 <= m < |path| && IsSuffix(path[m], t) && path[m] + [ch] in path ==> |path[m]| <= |path[f]|)
  }

  /** Walking one failure link keeps the search sound. */
  lemma SearchDescends(path: seq<Text>, t: Text, ch: Unit, f: int, g: int)
    requires IsSearching(path, t, ch, f)
    requires path[f] + [ch] !in path
    requires IsFailLink(path, f, g)
    ensures IsSearching(path, t, ch, g)
  {
    SuffixTransitive(path[g], path[f], t);
    forall m | 0 <= m < |path| && IsSuffix(path[m], t) && path[m] + [ch] in path
      ensures |path[m]| <= |path[g]|
    {
      assert path[m] != path[f];
      SuffixOfSuffix(path[m], path[f], t);
    }
  }

  /** A child on the search path is the next state. */
  lemma SearchFinds(path: seq<Text>, parent: seq<int>, t: Text, ch: Unit, f: int, next: int)
    requires IsTrie(path, parent) && IsSearching(path, t, ch, f)
    requires 0 <= next < |path| && path[next] == path[f] + [ch]
    ensures IsState(path, t + [ch], next)
  {
    SuffixSnoc(path[f], t, ch);
    forall m | 0 <= m < |path| && IsSuffix(path[m], t + [ch])
      ensures |path[m]| <= |path[next]|
    {
      if path[m] != [] {
        var u := SearchedNode(path, parent, t, ch, m);
      }
    }
  }

  /** When even the root has no child, the next state is the root. */
  lemma SearchFails(path: seq<Text>, parent: seq<int>, t: Text, ch: Unit)
    requires IsTrie(path, parent) && IsSearching(path, t, ch, ROOT)
    requires path[ROOT] + [ch] !in path
    ensures IsState(path, t + [ch], ROOT)
  {
    assert (t + [ch])[|t| + 1..] == [];
    forall m | 0 <= m < |path| && IsSuffix(path[m], t + [ch])
      ensures path[m] == []
    {
      if path[m] != [] {
        var u := SearchedNode(path, parent, t, ch, m);
      }
    }
  }

  lemma SearchedNode(path: seq<Text>, parent: seq<int>, t: Text, ch: Unit, m: int) returns (u: int)
    requires IsTrie(path, parent) && 0 <= m < |path| && path[m] != [] && IsSuffix(path[m], t + [ch])
    ensures 0 <= u < |path| && IsSuffix(path[u], t) && path[m] == path[u] + [ch]
    ensures path[u] != path[ROOT] ==> |path[u]| > 0
  {
    SuffixUnsnoc(path[m], t, ch);
    PrefixIsNode(path, parent, m, |path[m]| - 1);
    u :| 0 <= u < |path| && path[u] == path[m][..|path[m]| - 1];
  }

  lemma ProperSuffixWord(path: seq<Text>, words: set<Text>, n: int, f: int, w: Text)
    requires Spells(path, words) && 0 <= n < |path| && IsFailLink(path, n, f)
    requires w in words && path[n] !in words && IsSuffix(w, path[n])
    ensures IsSuffix(w, path[f])
  {
    var m :| 0 <= m < |path| && path[m] == w;
    assert path[n][0..] == path[n];
    assert |w| != |path[n]|;
    SuffixOfSuffix(w, path[f], path[n]);
  }

  /** A node that is a word outputs its own length. */
  lemma OutputOfWord(words: set<Text>, s: Text)
    requires s in words
    ensures IsLongestWordEnd(words, s, |s|)
  {
    assert s[|s| - |s|..] == s;
  }

  /** A node that is not a word inherits the output of its failure node. */
  lemma OutputInherited(path: seq<Text>, words: set<Text>, n: int, f: int, k: nat)
    requires Spells(path, words)
    requires 0 <= n < |path| && path[n] !in words && IsFailLink(path, n, f)
    requires IsLongestWordEnd(words, path[f], k)
    ensures IsLongestWordEnd(words, path[n], k)
  {
    forall w | w in words && IsSuffix(w, path[n])
      ensures |w| <= k
    {
      ProperSuffixWord(path, words, n, f, w);
    }
    if k > 0 {
      SuffixEnds(path[f], path[n], k);
    }
  }

  lemma OutputFromLink(path: seq<Text>, words: set<Text>, n: int, f: int, k: nat)
    requires Spells(path, words)
    requires 0 <= n < |path| && IsFailLink(path, n, f)
    requires IsLongestWordEnd(words, path[f], k)
    ensures IsLongestWordEnd(words, path[n], if path[n] in words then |path[n]| else k)
  {
    if path[n] in words {
      OutputOfWord(words, path[n]);
    } else {
      OutputInherited(path, words, n, f, k);
    }
  }

  lemma SuffixEnds(s: Text, t: Text, k: nat)
    requires IsSuffix(s, t) && k <= |s|
    ensures s[|s| - k..] == t[|t| - k..]
  {
  }

  /** The breadth-first queue while node's children are being added; those older than c are still to come.
      done holds the nodes processed before node. */
  ghost predicate Expanding(path: seq<Text>, parent: seq<int>, done: set<int>, node: int, c: int, todo: seq<int>)
    requires |parent| == |path|
  {
    && 0 <= node < |path| && node !in done && node !in todo
    && (forall x :: x in done ==> 0 <= x < |path|)
    && (forall i :: 0 <= i < |todo| ==> 1 <= todo[i] < |path| && todo[i] !in done)
    && (forall i, j :: 0 <= i < j < |todo| ==> todo[i] != todo[j] && |path[todo[i]]| <= |path[todo[j]]|)
    && (forall i :: 0 <= i < |todo| ==> |path[node]| <= |path[todo[i]]| <= |path[node]| + 1)
    && (forall x {:trigger parent[x]} :: 1 <= x < |path| ==>
          (x in done || x == node || x in todo <==> parent[x] in done || (parent[x] == node && x > c)))
  }

  /** The breadth-first queue between two nodes: shallowest first, and exactly the children of processed nodes seen. */
  ghost predicate Queued(path: seq<Text>, parent: seq<int>, done: set<int>, todo: seq<int>)
    requires |parent| == |path|
  {
    && (forall x :: x in done ==> 0 <= x < |path|)
    && (forall i :: 0 <= i < |todo| ==> 1 <= todo[i] < |path| && todo[i] !in done)
    && (forall i, j :: 0 <= i < j < |todo| ==> todo[i] != todo[j] && |path[todo[i]]| <= |path[todo[j]]|)
    && (forall i :: 0 <= i < |todo| ==> |path[todo[i]]| <= |path[todo[0]]| + 1)
    && (forall x {:trigger parent[x]} :: 1 <= x < |path| ==> (x in done || x in todo <==> parent[x] in done))
  }

  /** The queue never outgrows its array. */
  lemma {:induction false} QueueFits(done: set<int>, todo: seq<int>, n: nat)
    requires forall x :: x in done ==> 0 <= x < n
    requires forall i :: 0 <= i < |todo| ==> 0 <= todo[i] < n && todo[i] !in done
    requires forall i, j :: 0 <= i < j < |todo| ==> todo[i] != todo[j]
    ensures |done| + |todo| <= n
    decreases |todo|
  {
    if todo == [] {
      BoundedCardinality(done, n);
    } else {
      QueueFits(done + {todo[0]}, todo[1..], n);
    }
  }

  lemma ExpandingStarts(path: seq<Text>, parent: seq<int>, done: set<int>, c: int, todo: seq<int>)
    requires IsTrie(path, parent) && Queued(path, parent, done, todo) && todo != []
    requires forall x :: 1 <= x < |path| && parent[x] == todo[0] ==> x <= c
    ensures Expanding(path, parent, done, todo[0], c, todo[1..])
  {
    var node, rest := todo[0], todo[1..];
    assert todo == [node] + rest;
    forall x | 1 <= x < |path|
      ensures x in done || x == node || x in rest <==> parent[x] in done || (parent[x] == node && x > c)
    {
      assert x in todo <==> x == node || x in rest;
    }
  }

  lemma ExpandingPushes(path: seq<Text>, parent: seq<int>, done: set<int>, node: int, c: int, older: int, todo: seq<int>)
    requires IsTrie(path, parent) && Expanding(path, parent, done, node, c, todo)
    requires 1 <= c < |path| && parent[c] == node && older < c
    requires forall x :: 1 <= x < c && parent[x] == node ==> x <= older
    ensures Expanding(path, parent, done, node, older, todo + [c])
    ensures |done| + 1 + |todo| + 1 <= |path|
  {
    var todo' := todo + [c];
    QueueFits(done + {node}, todo', |path|);
    forall x | 1 <= x < |path|
      ensures x in done || x == node || x in todo' <==> parent[x] in done || (parent[x] == node && x > older)
    {
      assert x in todo' <==> x in todo || x == c;
    }
  }

  lemma ExpandingEnds(path: seq<Text>, parent: seq<int>, done: set<int>, node: int, todo: seq<int>)
    requires IsTrie(path, parent) && Expanding(path, parent, done, node, NONE, todo)
    ensures Queued(path, parent, done + {node}, todo)
    ensures |done| + 1 == |done + {node}| <= |path|
  {
    QueueFits(done + {node}, todo, |path|);
  }

  /** Breadth-first order: when a node is processed, every node at most as deep has already been queued. */
  lemma {:induction false} ShallowNodesQueued(
      path: seq<Text>, parent: seq<int>, done: set<int>, node: int, c: int, todo: seq<int>, n: int)
    requires IsTrie(path, parent) && Expanding(path, parent, done, node, c, todo) && ROOT in done
    requires 1 <= n < |path| && |path[n]| <= |path[node]|
    ensures n in done || n == node || n in todo
    decreases n
  {
    if parent[n] == ROOT {
    } else {
      ShallowNodesQueued(path, parent, done, node, c, todo, parent[n]);
    }
  }

  /** Once the queue is empty, every node has been processed. */
  lemma {:induction false} AllNodesQueued(path: seq<Text>, parent: seq<int>, done: set<int>, n: int)
    requires IsTrie(path, parent) && Queued(path, parent, done, []) && ROOT in done
    requires 0 <= n < |path|
    ensures n in done
    decreases n
  {
    if n == ROOT {
    } else {
      assert parent[n] < n;
      AllNodesQueued(path, parent, done, parent[n]);
    }
  }

  lemma {:induction false} BoundedCardinality(s: set<int>, n: nat)
    requires forall x :: x in s ==> 0 <= x < n
    ensures |s| <= n
  {
    if n == 0 {
      assert forall x :: x !in s;
    } else if n - 1 in s {
      BoundedCardinality(s - {n - 1}, n - 1);
    } else {
      BoundedCardinality(s, n - 1);
    }
  }

  /** While a word is being inserted, its prefixes may be nodes too. */
  ghost predicate SpellsButFor(path: seq<Text>, words: set<Text>, word: Text) {
    && (forall w :: w in words ==> 0 < |w| <= MAX_WORD && w in path)
    && (forall n {:trigger IsWordPrefix(words, path[n])} :: 1 <= n < |path| ==> IsWordPrefix(words, path[n]) || path[n] <= word)
  }

  lemma SpellsGrows(path: seq<Text>, words: set<Text>, word: Text, i: nat)
    requires SpellsButFor(path, words, word) && i < |word|
    ensures SpellsButFor(path + [word[..i + 1]], words, word)
    ensures word[..i + 1] in words ==> word[..i + 1] in path
  {
  }

  lemma WordMarked(path: seq<Text>, words: set<Text>, word: Text)
    requires SpellsButFor(path, words, word) && word in path && 0 < |word| <= MAX_WORD
    ensures Spells(path, words + {word})
  {
    var words' := words + {word};
    forall n | 1 <= n < |path|
      ensures IsWordPrefix(words', path[n])
    {
      if IsWordPrefix(words, path[n]) {
        var w :| w in words && path[n] <= w;
        assert w in words';
      } else {
        assert word in words';
      }
    }
  }

  /** The nodes in use, as the arrays hold them. */
  datatype Nodes = Nodes(first: seq<int>, next: seq<int>, letter: seq<Unit>, depth: seq<Unit>, end: seq<Unit>)

  /** Every node carries its last letter and its depth. */
  ghost predicate LettersOk(v: Nodes, path: seq<Text>)
  {
    && |v.letter| == |v.depth| == |path|
    && (forall n :: 1 <= n < |path| ==> path[n] != [] && path[n][|path[n]| - 1] == v.letter[n] && v.depth[n] == |path[n]|)
  }

  /** A child list starts at the youngest child. */
  ghost predicate FirstOk(first: seq<int>, parent: seq<int>)
    requires forall n :: 1 <= n < |parent| ==> 0 <= parent[n] < n
  {
    && |first| == |parent|
    && (forall n :: 0 <= n < |parent| && first[n] != NONE ==> n < first[n] < |parent| && parent[first[n]] == n)
    && (forall c {:trigger first[parent[c]]} :: 1 <= c < |parent| ==> c <= first[parent[c]])
  }

  /** A child list continues with the next older child of the same parent. */
  ghost predicate NextOk(next: seq<int>, parent: seq<int>) {
    && |next| == |parent|
    && (forall c :: 1 <= c < |parent| && next[c] != NONE ==> 1 <= next[c] < c && parent[next[c]] == parent[c])
    && (forall c, d :: 1 <= d < c < |parent| && parent[d] == parent[c] ==> d <= next[c])
  }

  /** The child lists hold the trie: none misses a child. */
  ghost predicate LinksOk(v: Nodes, path: seq<Text>, parent: seq<int>) {
    && IsTrie(path, parent)
    && LettersOk(v, path)
    && FirstOk(v.first, parent)
    && NextOk(v.next, parent)
    && |v.end| == |path|
  }

  /** The marked nodes are the words. */
  ghost predicate MarksOk(v: Nodes, path: seq<Text>, words: set<Text>)
    requires |v.end| == |path|
  {
    forall n {:trigger v.end[n]} :: 0 <= n < |path| ==> (v.end[n] != 0 <==> path[n] in words)
  }

  /** No child of node on ch is younger than c. */
  ghost predicate NoYoungerChild(v: Nodes, parent: seq<int>, node: int, ch: Unit, c: int)
    requires |v.letter| == |parent|
  {
    forall d :: 1 <= d < |parent| && parent[d] == node && v.letter[d] == ch ==> d <= c
  }

  lemma ChildText(v: Nodes, path: seq<Text>, parent: seq<int>, node: int, c: int)
    requires LinksOk(v, path, parent) && 1 <= c < |path| && 1 <= node == parent[c]
    ensures |path[node]| >= 1 && path[c] == path[node] + [v.letter[c]]
    ensures path[c][1..] == path[node][1..] + [v.letter[c]]
  {
    assert parent[node] >= 0;
    assert path[c] == path[c][..|path[c]| - 1] + [v.letter[c]];
  }

  lemma ChildListScanned(v: Nodes, path: seq<Text>, parent: seq<int>, node: int, ch: Unit, c: int)
    requires LinksOk(v, path, parent) && 0 <= node < |path|
    requires c == NONE || (node < c < |path| && parent[c] == node && v.letter[c] == ch)
    requires NoYoungerChild(v, parent, node, ch, c)
    ensures c == NONE <==> path[node] + [ch] !in path
    ensures c != NONE ==> path[c] == path[node] + [ch]
  {
    if c != NONE {
      assert path[c] == path[c][..|path[c]| - 1] + [v.letter[c]];
    } else {
      forall n | 0 <= n < |path|
        ensures path[n] != path[node] + [ch]
      {
        NodeIsChild(path, parent, node, ch, n);
      }
    }
  }

  ghost function WithNode(v: Nodes, node: int, ch: Unit, d: Unit): Nodes
    requires 0 <= node < |v.first|
  {
    Nodes(v.first[node := |v.first|] + [NONE], v.next + [v.first[node]], v.letter + [ch], v.depth + [d], v.end + [0])
  }

  lemma TrieGrows(path: seq<Text>, parent: seq<int>, node: int, ch: Unit)
    requires IsTrie(path, parent)
    requires 0 <= node < |path| && path[node] + [ch] !in path && |path[node]| < MAX_WORD
    ensures IsTrie(path + [path[node] + [ch]], parent + [node])
  {
    var s := path[node] + [ch];
    var path', parent' := path + [s], parent + [node];
    assert s[..|s| - 1] == path[node];
    forall m, n | 0 <= m < n < |path'|
      ensures !SameText(path'[m], path'[n])
    {
      if n < |path| {
        assert path'[m] == path[m] && path'[n] == path[n];
      }
    }
  }

  lemma FirstGrows(first: seq<int>, parent: seq<int>, node: int)
    requires forall n :: 1 <= n < |parent| ==> 0 <= parent[n] < n
    requires FirstOk(first, parent) && 0 <= node < |parent|
    ensures FirstOk(first[node := |first|] + [NONE], parent + [node])
  {
  }

  lemma NextGrows(first: seq<int>, next: seq<int>, parent: seq<int>, node: int)
    requires forall n :: 1 <= n < |parent| ==> 0 <= parent[n] < n
    requires FirstOk(first, parent) && NextOk(next, parent) && 0 <= node < |parent|
    ensures NextOk(next + [first[node]], parent + [node])
  {
  }

  lemma NodeAdded(v: Nodes, path: seq<Text>, parent: seq<int>, node: int, ch: Unit, d: Unit)
    requires LinksOk(v, path, parent)
    requires 0 <= node < |path| && path[node] + [ch] !in path && |path[node]| + 1 == d
    ensures LinksOk(WithNode(v, node, ch, d), path + [path[node] + [ch]], parent + [node])
  {
    TrieGrows(path, parent, node, ch);
    FirstGrows(v.first, parent, node);
    NextGrows(v.first, v.next, parent, node);
  }

  lemma NothingEndsAtRoot(path: seq<Text>, parent: seq<int>, words: set<Text>)
    requires IsTrie(path, parent) && Spells(path, words)
    ensures IsLongestWordEnd(words, path[ROOT], 0)
  {
  }

  /** A one-letter node fails to the root and outputs only itself. */
  lemma RootChildLink(path: seq<Text>, parent: seq<int>, words: set<Text>, c: int)
    requires IsTrie(path, parent) && Spells(path, words) && 1 <= c < |path| && parent[c] == ROOT
    ensures IsFailLink(path, c, ROOT)
    ensures IsLongestWordEnd(words, path[c], if path[c] in words then |path[c]| else 0)
  {
    assert path[c][|path[c]| - |path[ROOT]|..] == [];
    NothingEndsAtRoot(path, parent, words);
    OutputFromLink(path, words, c, ROOT, 0);
  }

  lemma ExpandingBegins(v: Nodes, path: seq<Text>, parent: seq<int>, done: set<int>, todo: seq<int>)
    requires LinksOk(v, path, parent) && Queued(path, parent, done, todo) && todo != []
    ensures Expanding(path, parent, done, todo[0], v.first[todo[0]], todo[1..])
  {
    forall x | 1 <= x < |path| && parent[x] == todo[0]
      ensures x <= v.first[todo[0]]
    {
      assert x <= v.first[parent[x]];
    }
    ExpandingStarts(path, parent, done, v.first[todo[0]], todo);
  }

  /** The state's output is the longest word ending where the text read so far ends. */
  lemma StateOutput(path: seq<Text>, parent: seq<int>, words: set<Text>, t: Text, node: int, k: nat)
    requires IsTrie(path, parent) && Spells(path, words) && IsState(path, t, node)
    requires IsLongestWordEnd(words, path[node], k)
    ensures IsLongestLiveSuffix(words, t, path[node])
    ensures LongestWordEnd(words, t) == k
  {
    forall u | IsSuffix(u, t) && IsWordPrefix(words, u)
      ensures |u| <= |path[node]|
    {
      WordPrefixIsNode(path, parent, words, u);
      var m :| 0 <= m < |path| && path[m] == u;
      assert IsSuffix(path[m], t);
    }
    assert node != ROOT ==> IsWordPrefix(words, path[node]);
    LongestWordEndOfLiveSuffix(words, t, path[node], k);
    LongestWordEndIs(words, t, k);
  }

  lemma RootOnly(v: Nodes, path: seq<Text>, parent: seq<int>)
    requires path == [[]] && |parent| == 1
    requires |v.first| == |v.next| == |v.letter| == |v.depth| == |v.end| == 1
    requires v.first[0] == NONE && v.end[0] == 0
    ensures LinksOk(v, path, parent) && MarksOk(v, path, {}) && Spells(path, {})
  {
  }

  lemma NodeMarked(v: Nodes, path: seq<Text>, parent: seq<int>, words: set<Text>, node: int)
    requires IsTrie(path, parent) && |v.end| == |path| && MarksOk(v, path, words) && 0 <= node < |path|
    ensures MarksOk(v.(end := v.end[node := 1]), path, words + {path[node]})
  {
    forall n | 0 <= n < |path| && n != node
      ensures path[n] != path[node]
    {
      assert !SameText(if n < node then path[n] else path[node], if n < node then path[node] else path[n]);
    }
  }

  class AhoCorasick {
    var size: nat
    var firstChild: array<int>
    var nextSibling: array<int>
    var letter: array<Unit>
    var depth: array<Unit>
    var wordEnd: array<Unit>
    var fail: array<int>
    var outputLen: array<Unit>

    ghost var path: seq<Text>
    ghost var parent: seq<int>
    ghost var words: set<Text>
    ghost var Repr: set<object>  // every array the trie was ever kept in

    /** The arrays have one length, and the slots not yet in use are blank. */
    ghost predicate Shape()
      reads this, firstChild, nextSibling, letter, depth, wordEnd
    {
      && firstChild in Repr && nextSibling in Repr && letter in Repr && depth in Repr && wordEnd in Repr
      && 1 <= size <= firstChild.Length
      && firstChild.Length == nextSibling.Length == letter.Length == depth.Length == wordEnd.Length
      && firstChild != nextSibling && letter != depth && letter != wordEnd && depth != wordEnd
      && (forall n :: size <= n < firstChild.Length ==> firstChild[n] == NONE && wordEnd[n] == 0)
    }

    ghost function View(): Nodes
      reads this, firstChild, nextSibling, letter, depth, wordEnd
      requires Shape()
    {
      Nodes(firstChild[..size], nextSibling[..size], letter[..size], depth[..size], wordEnd[..size])
    }

    /** The arrays hold the trie of the words. */
    ghost predicate HoldsTrie()
      reads this, firstChild, nextSibling, letter, depth, wordEnd
    {
      && Shape()
      && LinksOk(View(), path, parent)
      && MarksOk(View(), path, words)
    }

    ghost predicate HasFailLink(n: int)
      reads this, fail
    {
      && 0 <= n < fail.Length == |path|
      && IsFailLink(path, n, fail[n])
    }

    ghost predicate HasOutput(n: int)
      reads this, outputLen
    {
      && 0 <= n < outputLen.Length == |path|
      && IsLongestWordEnd(words, path[n], outputLen[n])
    }

    /** The finished automaton. */
    ghost predicate Valid()
      reads this, firstChild, nextSibling, letter, depth, wordEnd, fail, outputLen
    {
      && HoldsTrie() && Spells(path, words)
      && fail.Length == outputLen.Length == size
      && (forall n :: 1 <= n < size ==> HasFailLink(n))
      && (forall n :: 0 <= n < size ==> HasOutput(n))
    }

    method Child(node: int, ch: Unit) returns (c: int)
      requires HoldsTrie() && 0 <= node < size
      ensures c == NONE <==> path[node] + [ch] !in path
      ensures c != NONE ==> node < c < size && path[c] == path[node] + [ch]
    {
      ghost var v := View();
      c := firstChild[node];
      assert c == v.first[node];
      while c != NONE && letter[c] != ch
        invariant c == NONE || (node < c < size && parent[c] == node)
        invariant NoYoungerChild(v, parent, node, ch, c)
        decreases c
      {
        assert v.letter[c] == letter[c] && v.next[c] == nextSibling[c];
        c := nextSibling[c];
      }
      if c != NONE {
        assert v.letter[c] == letter[c];
      }
      ChildListScanned(v, path, parent, node, ch, c);
    }

    /** Moves the nodes into arrays of n slots; the new slots of the link arrays hold NONE. */
    method Resize(n: nat)
      requires Shape() && size <= n
      modifies this`firstChild, this`nextSibling, this`letter, this`depth, this`wordEnd, this`Repr
      ensures Shape() && View() == old(View()) && firstChild.Length == n
      ensures fresh(Repr - old(Repr))
    {
      var first, next, letters, depths, ends := ResizedAll(n);
      firstChild, nextSibling, letter, depth, wordEnd := first, next, letters, depths, ends;
      Repr := Repr + {first as object, next, letters, depths, ends};
    }

    method ResizedAll(n: nat)
        returns (first: array<int>, next: array<int>, letters: array<Unit>, depths: array<Unit>, ends: array<Unit>)
      requires Shape() && size <= n
      ensures fresh({first as object, next, letters, depths, ends})
      ensures first != next && letters != depths && letters != ends && depths != ends
      ensures first.Length == next.Length == letters.Length == depths.Length == ends.Length == n
      ensures View() == Nodes(first[..size], next[..size], letters[..size], depths[..size], ends[..size])
      ensures forall k :: size <= k < n ==> first[k] == NONE && ends[k] == 0
    {
      first := Resized(firstChild, n, NONE, size);
      next := Resized(nextSibling, n, NONE, size);
      letters := Resized(letter, n, 0, size);
      depths := Resized(depth, n, 0, size);
      ends := Resized(wordEnd, n, 0, size);
    }

    /** Doubles the capacity. */
    method Grow()
      requires Shape()
      modifies this`firstChild, this`nextSibling, this`letter, this`depth, this`wordEnd, this`Repr
      ensures Shape() && View() == old(View()) && firstChild.Length == 2 * old(firstChild.Length)
      ensures fresh(Repr - old(Repr))
    {
      Resize(2 * firstChild.Length);
    }

    /** Cuts the arrays down to the nodes in use. */
    method Trim()
      requires Shape()
      modifies this`firstChild, this`nextSibling, this`letter, this`depth, this`wordEnd, this`Repr
      ensures Shape() && View() == old(View()) && firstChild.Length == size
      ensures fresh(Repr - old(Repr))
    {
      Resize(size);
    }

    method NewNode(node: int, ch: Unit, d: Unit) returns (next: int)
      requires HoldsTrie() && 0 <= node < size < firstChild.Length
      requires path[node] + [ch] !in path && |path[node]| + 1 == d
      requires path[node] + [ch] !in words
      modifies this, letter, depth, nextSibling, firstChild
      ensures HoldsTrie() && 0 <= next < size
      ensures path == old(path) + [old(path)[node] + [ch]] && path[next] == old(path)[node] + [ch]
      ensures words == old(words) && Repr == old(Repr)
    {
      NodeAdded(View(), path, parent, node, ch, d);
      next := StoreNode(node, ch, d);
      path := path + [path[node] + [ch]];
      parent := parent + [node];
    }

    /** Writes the slots of a new node, in front of its parent's other children. */
    method StoreNode(node: int, ch: Unit, d: Unit) returns (next: int)
      requires Shape() && 0 <= node < size < firstChild.Length
      modifies this`size, letter, depth, nextSibling, firstChild
      ensures Shape() && next == old(size) && size == next + 1
      ensures View() == WithNode(old(View()), node, ch, d)
    {
      ghost var v := View();
      next := size;
      size := size + 1;
      letter[next] := ch;
      depth[next] := d;
      nextSibling[next] := firstChild[node];
      firstChild[node] := next;
      assert firstChild[..size] == v.first[node := next] + [NONE];
      assert nextSibling[..size] == v.next + [v.first[node]];
      assert letter[..size] == v.letter + [ch];
      assert depth[..size] == v.depth + [d];
      assert wordEnd[..size] == v.end + [0];
    }

    /** One letter of an insertion: goes to the child on that letter, adding it if it is missing. */
    method Descend(node: int, i: nat, ghost word: Text, ch: Unit) returns (next: int)
      requires HoldsTrie() && SpellsButFor(path, words, word)
      requires i < |word| <= MAX_WORD && ch == word[i]
      requires 0 <= node < size && path[node] == word[..i]
      modifies this, Repr
      ensures HoldsTrie() && SpellsButFor(path, words, word)
      ensures 0 <= next < size && path[next] == word[..i + 1]
      ensures words == old(words) && fresh(Repr - old(Repr))
    {
      assert word[..i] + [ch] == word[..i + 1];
      next := Child(node, ch);
      if next == NONE {
        SpellsGrows(path, words, word, i);
        next := AddChild(node, ch, i + 1);
      }
    }

    /** Adds a node, in larger arrays if there is no room. */
    method AddChild(node: int, ch: Unit, d: Unit) returns (next: int)
      requires HoldsTrie() && 0 <= node < size
      requires path[node] + [ch] !in path && |path[node]| + 1 == d
      requires path[node] + [ch] !in words
      modifies this, Repr
      ensures HoldsTrie() && 0 <= next < size
      ensures path == old(path) + [old(path)[node] + [ch]] && path[next] == old(path)[node] + [ch]
      ensures words == old(words) && fresh(Repr - old(Repr))
    {
      if size == firstChild.Length {
        Grow();
      }
      next := NewNode(node, ch, d);
    }

    method MarkWord(node: int, ghost word: Text)
      requires HoldsTrie() && 0 <= node < size && path[node] == word
      modifies this`words, wordEnd
      ensures HoldsTrie() && words == old(words) + {word}
    {
      ghost var v := View();
      wordEnd[node] := 1;
      words := words + {word};
      assert wordEnd[..size] == v.end[node := 1];
      NodeMarked(v, path, parent, old(words), node);
    }

    /** Walks the word down the trie, adding the nodes it lacks, and marks its last node. */
    method Insert(word: Text)
      requires HoldsTrie() && Spells(path, words) && 0 < |word| <= MAX_WORD
      modifies this, Repr
      ensures HoldsTrie() && Spells(path, words)
      ensures words == old(words) + {word}
      ensures fresh(Repr - old(Repr))
    {
      var node := ROOT;
      for i := 0 to |word|
        invariant HoldsTrie() && SpellsButFor(path, words, word)
        invariant 0 <= node < size && path[node] == word[..i]
        invariant words == old(words) && fresh(Repr - old(Repr))
      {
        node := Descend(node, i, word, word[i]);
      }
      assert word[..|word|] == word;
      WordMarked(path, words, word);
      MarkWord(node, word);
    }
  
    /** Where reading ch takes the automaton: down the trie, or along failure links until it can go down. */
    method Step(node: int, ch: Unit, ghost t: Text) returns (next: int)
      requires HoldsTrie() && IsState(path, t, node)
      requires fail.Length == size
      requires forall f :: 1 <= f < size && |path[f]| <= |path[node]| ==> HasFailLink(f)
      ensures IsState(path, t + [ch], next)
    {
      next := Walk(node, ch, t);
      if next == NONE {
        next := ROOT;
      }
    }

    /** Follows failure links from node to the first node with a child on ch; NONE if not even the root has one. */
    method Walk(node: int, ch: Unit, ghost t: Text) returns (next: int)
      requires HoldsTrie() && IsSearching(path, t, ch, node)
      requires fail.Length == size
      requires forall f :: 1 <= f < size && |path[f]| <= |path[node]| ==> HasFailLink(f)
      ensures next != NONE ==> 1 <= next < size && IsState(path, t + [ch], next)
      ensures next == NONE ==> IsState(path, t + [ch], ROOT)
    {
      var f := node;
      next := Child(f, ch);
      while next == NONE && f != ROOT
        invariant IsSearching(path, t, ch, f) && |path[f]| <= |path[node]|
        invariant next == NONE <==> path[f] + [ch] !in path
        invariant next != NONE ==> f < next < size && path[next] == path[f] + [ch]
        decreases |path[f]|
      {
        assert HasFailLink(f);
        SearchDescends(path, t, ch, f, fail[f]);
        f := fail[f];
        next := Child(f, ch);
      }
      if next != NONE {
        SearchFinds(path, parent, t, ch, f, next);
      } else {
        SearchFails(path, parent, t, ch);
      }
    }
  
    /** The failure link of c, a child of node: the first node down node's failure chain with a child on c's letter. */
    method FailLinkOf(node: int, c: int) returns (f: int)
      requires HoldsTrie() && fail.Length == size
      requires 1 <= node < size && 1 <= c < size && parent[c] == node
      requires forall g :: 1 <= g < size && |path[g]| <= |path[node]| ==> HasFailLink(g)
      ensures IsFailLink(path, c, f) && |path[f]| <= |path[node]|
    {
      ghost var v := View();
      var ch := letter[c];
      assert v.letter[c] == ch;
      assert HasFailLink(node);
      ghost var t := path[node][1..];
      FailLinkIsState(path, parent, node, fail[node]);
      ChildText(v, path, parent, node, c);
      var candidate := Walk(fail[node], ch, t);
      f := if candidate != NONE && candidate != c then candidate else ROOT;
      LinkNotSelf(path, parent, c, if candidate != NONE then candidate else ROOT);
    }

    /** Gives node c its output once it has its failure link f. */
    method OutputOf(c: int, f: int) returns (k: Unit)
      requires HoldsTrie() && Spells(path, words)
      requires 1 <= c < size && IsFailLink(path, c, f) && HasOutput(f)
      ensures IsLongestWordEnd(words, path[c], k)
    {
      ghost var v := View();
      assert v.depth[c] == depth[c] && v.end[c] == wordEnd[c];
      k := if wordEnd[c] != 0 then depth[c] else outputLen[f];
      OutputFromLink(path, words, c, f, outputLen[f]);
      assert depth[c] == |path[c]|;
    }
  
    ghost predicate ReadyToLink()
      reads this, firstChild, nextSibling, letter, depth, wordEnd
    {
      && HoldsTrie() && Spells(path, words)
      && fail.Length == outputLen.Length == size
      && fail as object != outputLen && fail !in Repr && outputLen !in Repr
    }

    ghost predicate Linked(n: int)
      reads this, fail, outputLen
    {
      HasFailLink(n) && HasOutput(n)
    }

    /** The root outputs nothing, and every other node seen so far has its failure link and its output. */
    ghost predicate AllLinked(seen: set<int>, todo: seq<int>)
      reads this, fail, outputLen
    {
      && HasOutput(ROOT)
      && (forall n {:trigger Linked(n)} :: n != ROOT && (n in seen || n in todo) ==> Linked(n))
    }

    ghost predicate HoldsQueue(queue: array<int>, head: nat, todo: seq<int>)
      reads queue
    {
      && head + |todo| <= queue.Length
      && (forall i :: 0 <= i < |todo| ==> queue[head + i] == todo[i])
    }

    /** The failure link and the output of c, a child of the node being expanded. */
    method LinkFor(node: int, c: int, ghost done: set<int>, ghost todo: seq<int>) returns (f: int, k: Unit)
      requires ReadyToLink() && AllLinked(done + {node}, todo)
      requires ROOT in done && 1 <= node < size && 1 <= c < size && parent[c] == node
      requires Expanding(path, parent, done, node, c, todo)
      ensures IsFailLink(path, c, f) && IsLongestWordEnd(words, path[c], k)
    {
      forall g | 1 <= g < size && |path[g]| <= |path[node]|
        ensures Linked(g)
      {
        ShallowNodesQueued(path, parent, done, node, c, todo, g);
      }
      f := FailLinkOf(node, c);
      assert HasOutput(f) by { assert f != ROOT ==> Linked(f); }
      k := OutputOf(c, f);
    }

    /** No write to the queue or to the links reaches the trie. */
    ghost predicate Apart(queue: array<int>)
      reads this
    {
      queue !in Repr && queue as object != fail && queue as object != outputLen && queue.Length == size
    }

    method SetLink(c: int, f: int, k: Unit, ghost seen: set<int>, ghost todo: seq<int>)
      requires fail.Length == outputLen.Length == |path| && fail as object != outputLen
      requires 1 <= c < |path| && IsFailLink(path, c, f) && IsLongestWordEnd(words, path[c], k)
      requires AllLinked(seen, todo)
      modifies fail, outputLen
      ensures AllLinked(seen, todo + [c])
    {
      fail[c] := f;
      outputLen[c] := k;
      forall n | n != ROOT && (n in seen || n in todo + [c])
        ensures Linked(n)
      {
        assert n != c ==> old(Linked(n));
      }
    }

    method Enqueue(queue: array<int>, head: nat, tail: nat, ghost todo: seq<int>, c: int)
      requires HoldsQueue(queue, head, todo) && tail == head + |todo| < queue.Length
      modifies queue
      ensures HoldsQueue(queue, head, todo + [c])
    {
      queue[tail] := c;
    }

    /** Stores the links of c and queues it. */
    method Store(c: int, f: int, k: Unit, queue: array<int>, head: nat, tail: nat, ghost seen: set<int>, ghost todo: seq<int>)
      requires ReadyToLink() && Apart(queue)
      requires 1 <= c < |path| && IsFailLink(path, c, f) && IsLongestWordEnd(words, path[c], k)
      requires AllLinked(seen, todo)
      requires HoldsQueue(queue, head, todo) && tail == head + |todo| < queue.Length
      modifies queue, fail, outputLen
      ensures ReadyToLink() && View() == old(View())
      ensures AllLinked(seen, todo + [c]) && HoldsQueue(queue, head, todo + [c])
    {
      SetLink(c, f, k, seen, todo);
      Enqueue(queue, head, tail, todo, c);
      assert View() == old(View());
    }

    /** Links and queues child c of the node being expanded, and moves on to the next older child. */
    method ExpandChild(node: int, c: int, queue: array<int>, head: nat, tail: nat, ghost done: set<int>, ghost todo: seq<int>)
        returns (older: int)
      requires ReadyToLink() && Apart(queue)
      requires ROOT in done && 1 <= node < size && 1 <= c < size && parent[c] == node && head == |done|
      requires AllLinked(done + {node}, todo)
      requires HoldsQueue(queue, head, todo) && tail == head + |todo|
      requires Expanding(path, parent, done, node, c, todo)
      modifies queue, fail, outputLen
      ensures ReadyToLink() && View() == old(View())
      ensures AllLinked(done + {node}, todo + [c]) && HoldsQueue(queue, head, todo + [c])
      ensures older == NONE || (1 <= older < c && parent[older] == node)
      ensures Expanding(path, parent, done, node, older, todo + [c])
    {
      ghost var v := View();
      var f, k := LinkFor(node, c, done, todo);
      older := nextSibling[c];
      assert older == v.next[c];
      ExpandingPushes(path, parent, done, node, c, older, todo);
      Store(c, f, k, queue, head, tail, done + {node}, todo);
    }

    /** The root's children younger than c are linked and queued. */
    ghost predicate AtRootChild(c: int, queue: array<int>, tail: nat, todo: seq<int>)
      reads this, firstChild, nextSibling, letter, depth, wordEnd, fail, outputLen, queue
    {
      && ReadyToLink() && Apart(queue)
      && (c == NONE || (1 <= c < size && parent[c] == ROOT))
      && AllLinked({ROOT}, todo) && HoldsQueue(queue, 0, todo) && tail == |todo|
      && Expanding(path, parent, {}, ROOT, c, todo)
    }

    /** Links the children of a processed node and queues them. */
    method ExpandNode(node: int, queue: array<int>, head: nat, tail: nat, ghost done: set<int>, ghost todo: seq<int>)
        returns (tail': nat, ghost todo': seq<int>)
      requires ReadyToLink() && Apart(queue)
      requires ROOT in done && 1 <= node < size && head == |done|
      requires AllLinked(done + {node}, todo)
      requires HoldsQueue(queue, head, todo) && tail == head + |todo|
      requires Expanding(path, parent, done, node, firstChild[node], todo)
      modifies queue, fail, outputLen
      ensures ReadyToLink() && View() == old(View())
      ensures AllLinked(done + {node}, todo')
      ensures HoldsQueue(queue, head, todo') && tail' == head + |todo'|
      ensures Expanding(path, parent, done, node, NONE, todo')
    {
      tail', todo' := tail, todo;
      var c := firstChild[node];
      assert c == View().first[node];
      while c != NONE
        invariant ReadyToLink() && View() == old(View())
        invariant c == NONE || (1 <= c < size && parent[c] == node)
        invariant AllLinked(done + {node}, todo')
        invariant HoldsQueue(queue, head, todo') && tail' == head + |todo'|
        invariant Expanding(path, parent, done, node, c, todo')
        decreases c
      {
        var older := ExpandChild(node, c, queue, head, tail', done, todo');
        tail', todo' := tail' + 1, todo' + [c];
        c := older;
      }
    }
  
    /** Links a child of the root to the root, and queues it. */
    method ExpandRootChild(c: int, queue: array<int>, tail: nat, ghost todo: seq<int>) returns (older: int)
      requires AtRootChild(c, queue, tail, todo) && c != NONE
      modifies queue, fail, outputLen
      ensures AtRootChild(older, queue, tail + 1, todo + [c]) && View() == old(View()) && older < c
    {
      ghost var v := View();
      assert v.end[c] == wordEnd[c] && v.depth[c] == depth[c];
      RootChildLink(path, parent, words, c);
      older := nextSibling[c];
      assert older == v.next[c];
      ExpandingPushes(path, parent, {}, ROOT, c, older, todo);
      Store(c, ROOT, if wordEnd[c] != 0 then depth[c] else 0, queue, 0, tail, {ROOT}, todo);
    }

    method ExpandRoot(queue: array<int>) returns (tail: nat, ghost todo: seq<int>)
      requires ReadyToLink() && Apart(queue)
      requires HasOutput(ROOT)
      modifies queue, fail, outputLen
      ensures ReadyToLink() && View() == old(View())
      ensures AllLinked({ROOT}, todo) && HoldsQueue(queue, 0, todo) && tail == |todo|
      ensures Expanding(path, parent, {}, ROOT, NONE, todo)
    {
      tail, todo := 0, [];
      var c := firstChild[ROOT];
      assert c == View().first[ROOT];
      while c != NONE
        invariant AtRootChild(c, queue, tail, todo) && View() == old(View())
        decreases c
      {
        var older := ExpandRootChild(c, queue, tail, todo);
        tail, todo := tail + 1, todo + [c];
        c := older;
      }
    }

    /** Between two nodes of the breadth-first search. */
    ghost predicate Searching(queue: array<int>, head: nat, tail: nat, done: set<int>, todo: seq<int>)
      reads this, firstChild, nextSibling, letter, depth, wordEnd, fail, outputLen, queue
    {
      && ReadyToLink() && Apart(queue)
      && ROOT in done && Queued(path, parent, done, todo) && AllLinked(done, todo)
      && HoldsQueue(queue, head, todo) && tail == head + |todo|
      && head + 1 == |done| <= size
    }

    /** Links the root and its children. */
    method StartSearch(queue: array<int>) returns (tail: nat, ghost todo: seq<int>)
      requires ReadyToLink() && Apart(queue)
      requires outputLen[ROOT] == 0
      modifies queue, fail, outputLen
      ensures Searching(queue, 0, tail, {ROOT}, todo)
    {
      fail[ROOT] := ROOT;
      NothingEndsAtRoot(path, parent, words);
      tail, todo := ExpandRoot(queue);
      ExpandingEnds(path, parent, {}, ROOT, todo);
      assert {} + {ROOT} == {ROOT};
    }

    /** Processes the node at the head of the queue. */
    method ExpandHead(queue: array<int>, head: nat, tail: nat, ghost done: set<int>, ghost todo: seq<int>)
        returns (tail': nat, ghost todo': seq<int>)
      requires Searching(queue, head, tail, done, todo) && head < tail
      modifies queue, fail, outputLen
      ensures todo != [] && Searching(queue, head + 1, tail', done + {todo[0]}, todo')
    {
      var node := queue[head];
      assert todo == [node] + todo[1..];
      AllLinkedPops(done, todo);
      ExpandingBegins(View(), path, parent, done, todo);
      assert View().first[node] == firstChild[node];
      tail', todo' := ExpandNode(node, queue, head + 1, tail, done, todo[1..]);
      ExpandingEnds(path, parent, done, node, todo');
    }

    /** Breadth first, gives every node its failure link and its output length. */
    method BuildFailLinks()
      requires ReadyToLink()
      requires outputLen[ROOT] == 0
      modifies fail, outputLen
      ensures Valid()
    {
      var queue := new int[size];
      var tail, todo := StartSearch(queue);
      SearchOn(queue, tail, todo);
    }

    /** Processes the queue until it is empty. */
    method SearchOn(queue: array<int>, first: nat, ghost todo0: seq<int>)
      requires Searching(queue, 0, first, {ROOT}, todo0)
      modifies queue, fail, outputLen
      ensures Valid()
    {
      var head, tail := 0, first;
      ghost var done, todo := {ROOT}, todo0;
      while head < tail
        invariant Searching(queue, head, tail, done, todo)
        decreases size - head
      {
        tail, done, todo := SearchStep(queue, head, tail, done, todo);
        head := head + 1;
      }
      SearchDone(queue, head, tail, done, todo);
    }

    method SearchStep(queue: array<int>, head: nat, tail: nat, ghost done: set<int>, ghost todo: seq<int>)
        returns (tail': nat, ghost done': set<int>, ghost todo': seq<int>)
      requires Searching(queue, head, tail, done, todo) && head < tail
      modifies queue, fail, outputLen
      ensures Searching(queue, head + 1, tail', done', todo')
    {
      tail', todo' := ExpandHead(queue, head, tail, done, todo);
      done' := done + {todo[0]};
    }

    lemma SearchDone(queue: array<int>, head: nat, tail: nat, done: set<int>, todo: seq<int>)
      requires Searching(queue, head, tail, done, todo) && head >= tail
      ensures Valid()
    {
      assert todo == [];
      forall n | 0 <= n < size
        ensures n != ROOT ==> HasFailLink(n)
        ensures HasOutput(n)
      {
        AllNodesQueued(path, parent, done, n);
        assert n != ROOT ==> Linked(n);
      }
    }

    lemma AllLinkedPops(seen: set<int>, todo: seq<int>)
      requires todo != [] && AllLinked(seen, todo)
      ensures AllLinked(seen + {todo[0]}, todo[1..])
    {
    }
  
    /** Builds the automaton of the words that are not empty and not too long. */
    constructor (input: seq<Text>)
      ensures Valid() && words == Dictionary(input)
    {
      size := 1;
      firstChild := new int[1024](_ => NONE);
      nextSibling := new int[1024](_ => NONE);
      letter := new Unit[1024](_ => 0);
      depth := new Unit[1024](_ => 0);
      wordEnd := new Unit[1024](_ => 0);
      fail := new int[0];
      outputLen := new Unit[0];
      path, parent, words := [[]], [NONE], {};
      new;
      Repr := {firstChild as object, nextSibling, letter, depth, wordEnd};
      Build(input);
    }

    method Build(input: seq<Text>)
      requires Shape() && size == 1 && path == [[]] && |parent| == 1 && words == {}
      requires firstChild[0] == NONE && wordEnd[0] == 0
      modifies this, Repr
      ensures Valid() && words == Dictionary(input)
    {
      EmptyTrie();
      InsertAll(input);
      Finish();
    }

    lemma EmptyTrie()
      requires Shape() && size == 1 && path == [[]] && |parent| == 1 && words == {}
      requires firstChild[0] == NONE && wordEnd[0] == 0
      ensures HoldsTrie() && Spells(path, words)
    {
      RootOnly(View(), path, parent);
    }

    method Finish()
      requires HoldsTrie() && Spells(path, words)
      modifies this
      ensures Valid() && words == old(words)
    {
      Trim();
      AllocateLinks();
      BuildFailLinks();
    }

    method AllocateLinks()
      requires HoldsTrie() && Spells(path, words)
      modifies this`fail, this`outputLen
      ensures ReadyToLink() && outputLen[ROOT] == 0
      ensures fresh(fail) && fresh(outputLen)
    {
      var links, outputs := new int[size], new Unit[size](_ => 0);
      fail, outputLen := links, outputs;
      assert View() == old(View());
    }

    method InsertAll(input: seq<Text>)
      requires HoldsTrie() && Spells(path, words) && words == {}
      modifies this, Repr
      ensures HoldsTrie() && Spells(path, words) && fresh(Repr - old(Repr))
      ensures words == Dictionary(input)
    {
      for i := 0 to |input|
        invariant HoldsTrie() && Spells(path, words) && fresh(Repr - old(Repr))
        invariant words == Dictionary(input[..i])
      {
        if input[i] != [] && |input[i]| <= MAX_WORD {
          Insert(input[i]);
        }
        DictionaryStep(input, i);
      }
      assert input[..|input|] == input;
    }

    /** Reads one letter: the state and the longest word ending there. */
    method Advance(node: int, text: Text, i: nat) returns (next: int)
      requires Valid() && i < |text| && IsState(path, text[..i], node)
      ensures IsState(path, text[..i + 1], next)
      ensures IsLongestLiveSuffix(words, text[..i + 1], path[next])
      ensures outputLen[next] as nat == WordLen(words, text, i)
    {
      assert text[..i + 1] == text[..i] + [text[i]];
      next := Step(node, text[i], text[..i]);
      assert HasOutput(next);
      StateOutput(path, parent, words, text[..i + 1], next, outputLen[next]);
    }

    /** Does any dictionary word stand anywhere in the text? */
    method HasMatch(text: Text) returns (found: bool)
      requires Valid()
      ensures found <==> exists i, j :: Occurs(words, text, i, j)
    {
      var node := ROOT;
      for i := 0 to |text|
        invariant IsState(path, text[..i], node)
        invariant forall p :: 0 <= p < i ==> WordLen(words, text, p) == 0
      {
        node := Advance(node, text, i);
        if outputLen[node] != 0 {
          WordLenOccurs(words, text, i);
          return true;
        }
      }
      forall i, j | Occurs(words, text, i, j)
        ensures false
      {
        OccursWordLen(words, text, i, j - 1);
      }
      return false;
    }

    /** Counts the word ends and the letters they cover. */
    method Analyze(text: Text) returns (coverageRatio: real, wordCount: nat)
      requires Valid()
      ensures wordCount == |WordEnds(words, text)|
      ensures |text| > 0 ==> coverageRatio == |CountedLetters(words, text)| as real / |text| as real
      ensures |text| == 0 ==> coverageRatio == 0.0
      ensures 0.0 <= coverageRatio <= 1.0
    {
      var node := ROOT;
      var lastEnd := -1;
      var coveredChars: nat := 0;
      wordCount := 0;
      for i := 0 to |text|
        invariant IsState(path, text[..i], node)
        invariant Tally(words, text, i, lastEnd, coveredChars, wordCount)
      {
        node := Advance(node, text, i);
        lastEnd, coveredChars, wordCount := Count(words, text, i, outputLen[node], lastEnd, coveredChars, wordCount);
      }
      CountedEnds(words, text, lastEnd + 1);
      coverageRatio := if |text| != 0 then coveredChars as real / |text| as real else 0.0;
      if |text| != 0 {
        RatioBounds(coveredChars, |text|);
      }
    }
  }

  /** Counts the word of the given length that ends at letter i, if there is one: only the letters past the last end. */
  method Count(ghost words: set<Text>, ghost text: Text, i: nat, len: Unit, lastEnd: int, coveredChars: nat, wordCount: nat)
      returns (lastEnd': int, coveredChars': nat, wordCount': nat)
    requires Tally(words, text, i, lastEnd, coveredChars, wordCount) && i < |text| && len as nat == WordLen(words, text, i)
    ensures Tally(words, text, i + 1, lastEnd', coveredChars', wordCount')
  {
    lastEnd', coveredChars', wordCount' := lastEnd, coveredChars, wordCount;
    TallyStep(words, text, i, lastEnd, coveredChars, wordCount);
    if len != 0 {
      var start := i - len + 1;
      var effectiveStart := if start > lastEnd + 1 then start else lastEnd + 1;
      if effectiveStart <= i {
        coveredChars' := coveredChars + (i - effectiveStart + 1);
        wordCount' := wordCount + 1;
        lastEnd' := i;
      }
    }
  }

  /** A copy of a with n slots; slots a does not have hold blank. */
  method Resized<T>(a: array<T>, n: nat, blank: T, ghost used: nat) returns (b: array<T>)
    requires used <= a.Length && used <= n
    ensures fresh(b) && b.Length == n
    ensures b[..used] == a[..used]
    ensures forall i :: 0 <= i < n ==> b[i] == if i < a.Length then a[i] else blank
  {
    b := new T[n](i reads a => if 0 <= i < a.Length then a[i] else blank);
  }
}
