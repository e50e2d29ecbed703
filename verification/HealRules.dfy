/** Which records of a vault are stale, and what replaces each: the three healing rules, stated over the set of records.
    Ids and references are sequences of code units: bytes of UTF-8 in the file system client, UTF-16 units in the browser,
    the same for ASCII text. */
module HealRules {
  import opened Order
  import opened Wrappers

  datatype Node = Node(
    id: string, nodeRef: Option<string>, from: Option<string>, rev: Option<nat>, isFolder: bool, folderMovable: bool)

  /** A record, with the fingerprint of its sealed fields. */
  datatype Item<F> = Item(node: Node, fingerprint: F)

  datatype Kind = Identical | Superseded

  datatype Decision = Decision(successor: string, kind: Kind)

  /** A record to hide, with its successor. */
  type Pair = (string, string)

  type Decided = (string, Decision)

  ghost predicate DistinctIds<F(!new)>(items: set<Item<F>>) {
    forall x, y {:trigger x.node.id, y.node.id} {:trigger x in items, y in items} ::
      x in items && y in items && x.node.id == y.node.id ==> x == y
  }

  ghost function Nodes<F>(items: set<Item<F>>): set<Node> {
    set x | x in items :: x.node
  }

  function Rev(n: Node): nat {
    if n.rev.Some? then n.rev.value else 0
  }

  // ---------- Rule 1: identical copies ----------

  /** k keeps its place among the copies of x: its id comes first. */
  ghost predicate Keeps<F(!new)>(items: set<Item<F>>, k: Item<F>, x: Item<F>) {
    && k in items && x in items && k.fingerprint == x.fingerprint
    && forall y :: y in items && y.fingerprint == x.fingerprint ==> !Less(y.node.id, k.node.id)
  }

  ghost function IdenticalPairs<F(!new)>(items: set<Item<F>>): set<Pair> {
    set x, k | x in items && k in items && Keeps(items, k, x) && k.node.id != x.node.id :: (x.node.id, k.node.id)
  }

  ghost predicate Hides(pairs: set<Pair>, id: string) {
    exists s :: (id, s) in pairs
  }

  ghost function Without(nodes: set<Node>, pairs: set<Pair>): set<Node> {
    set n | n in nodes && !Hides(pairs, n.id)
  }

  // ---------- Rule 2: revisions of one node ----------

  /** Files, and folders that may be moved, that name their node. */
  predicate Eligible(n: Node) {
    n.nodeRef.Some? && (n.isFolder ==> n.folderMovable)
  }

  predicate Rivals(m: Node, n: Node) {
    Eligible(m) && Eligible(n) && m.nodeRef == n.nodeRef && m.isFolder == n.isFolder
  }

  /** w is the one record of n's node with the highest revision, and n is another. */
  ghost predicate Beats(nodes: set<Node>, w: Node, n: Node) {
    && w in nodes && n in nodes && Rivals(w, n) && w != n
    && forall m :: m in nodes && Rivals(m, n) && m != w ==> Rev(m) < Rev(w)
  }

  ghost function SupersededPairs(nodes: set<Node>): set<Pair> {
    set n, w | n in nodes && w in nodes && Beats(nodes, w, n) :: (n.id, w.id)
  }

  // ---------- Rule 3: replaced nodes ----------

  /** File n replaces file o under another node. */
  ghost predicate Replaces(nodes: set<Node>, n: Node, o: Node) {
    && n in nodes && o in nodes && !n.isFolder && !o.isFolder && o.nodeRef.Some?
    && n.from == o.nodeRef && n.nodeRef != n.from && n.id != o.id
  }

  /** n has the first id of all that replace o. */
  ghost predicate ReplacesFirst(nodes: set<Node>, n: Node, o: Node) {
    Replaces(nodes, n, o) && forall m :: Replaces(nodes, m, o) ==> !Less(m.id, n.id)
  }

  ghost function Replacements(nodes: set<Node>): set<Pair> {
    set o, n | o in nodes && n in nodes && ReplacesFirst(nodes, n, o) :: (o.id, n.id)
  }

  /** w goes along the pairs, from each id to its successor. */
  ghost predicate Walk(pairs: set<Pair>, w: seq<string>) {
    w != [] && forall i :: 0 <= i < |w| - 1 ==> (w[i], w[i + 1]) in pairs
  }

  /** The walk from a ends, at e. */
  ghost predicate EndsAt(pairs: set<Pair>, a: string, e: string) {
    !Hides(pairs, e) && exists w :: Walk(pairs, w) && |w| > 1 && w[0] == a && w[|w| - 1] == e
  }

  ghost function ChainPairs(pairs: set<Pair>): set<Pair> {
    set p, q | p in pairs && q in pairs && EndsAt(pairs, p.0, q.1) :: (p.0, q.1)
  }

  // ---------- All decisions ----------

  ghost function AfterRule1<F(!new)>(items: set<Item<F>>): set<Node> {
    Without(Nodes(items), IdenticalPairs(items))
  }

  ghost function AfterRule2(nodes: set<Node>): set<Node> {
    Without(nodes, SupersededPairs(nodes))
  }

  ghost function Tagged(pairs: set<Pair>, kind: Kind): set<Decided> {
    set p | p in pairs :: (p.0, Decision(p.1, kind))
  }

  /** What rules 2 and 3 decide about the records rule 1 leaves. */
  ghost function LaterDecisions(nodes: set<Node>): set<Decided> {
    Tagged(SupersededPairs(nodes), Superseded) + Tagged(ChainPairs(Replacements(AfterRule2(nodes))), Superseded)
  }

  ghost function Decisions<F(!new)>(items: set<Item<F>>): set<Decided> {
    Tagged(IdenticalPairs(items), Identical) + LaterDecisions(AfterRule1(items))
  }

  /** list holds the decisions, in the order of the ids. */
  ghost predicate IsListing(list: seq<Decided>, decisions: set<Decided>) {
    && (forall d :: d in list <==> d in decisions)
    && forall i, j :: 0 <= i < j < |list| ==> Less(list[i].0, list[j].0)
  }

  // ---------- Every record has at most one successor ----------

  ghost predicate OneSuccessor(pairs: set<Pair>) {
    forall p, q :: p in pairs && q in pairs && p.0 == q.0 ==> p == q
  }

  ghost predicate DistinctNodes(nodes: set<Node>) {
    forall m, n {:trigger m.id, n.id} {:trigger m in nodes, n in nodes} :: m in nodes && n in nodes && m.id == n.id ==> m == n
  }

  lemma DistinctNodesOf<F(!new)>(items: set<Item<F>>)
    requires DistinctIds(items)
    ensures DistinctNodes(Nodes(items)) && DistinctNodes(AfterRule1(items))
  {
  }

  lemma NotBefore(a: string, b: string)
    requires !Less(a, b) && !Less(b, a)
    ensures a == b
  {
    LessTotal(a, b);
  }

  lemma IdenticalOnce<F(!new)>(items: set<Item<F>>)
    requires DistinctIds(items)
    ensures OneSuccessor(IdenticalPairs(items))
  {
    forall p, q | p in IdenticalPairs(items) && q in IdenticalPairs(items) && p.0 == q.0
      ensures p == q
    {
      var x, k :| x in items && k in items && Keeps(items, k, x) && p == (x.node.id, k.node.id);
      var y, l :| y in items && l in items && Keeps(items, l, y) && q == (y.node.id, l.node.id);
      NotBefore(k.node.id, l.node.id);
    }
  }

  lemma SupersededOnce(nodes: set<Node>)
    requires DistinctNodes(nodes)
    ensures OneSuccessor(SupersededPairs(nodes))
  {
    forall p, q | p in SupersededPairs(nodes) && q in SupersededPairs(nodes) && p.0 == q.0
      ensures p == q
    {
      var n, w :| n in nodes && w in nodes && Beats(nodes, w, n) && p == (n.id, w.id);
      var m, v :| m in nodes && v in nodes && Beats(nodes, v, m) && q == (m.id, v.id);
      assert m == n;
      assert w != v ==> Rev(w) < Rev(v) && Rev(v) < Rev(w);
    }
  }

  lemma ReplacedOnce(nodes: set<Node>)
    requires DistinctNodes(nodes)
    ensures OneSuccessor(Replacements(nodes))
  {
    forall p, q | p in Replacements(nodes) && q in Replacements(nodes) && p.0 == q.0
      ensures p == q
    {
      var o, n :| o in nodes && n in nodes && ReplacesFirst(nodes, n, o) && p == (o.id, n.id);
      var u, m :| u in nodes && m in nodes && ReplacesFirst(nodes, m, u) && q == (u.id, m.id);
      assert o == u;
      NotBefore(n.id, m.id);
    }
  }

  lemma {:induction false} WalksAgree(pairs: set<Pair>, v: seq<string>, w: seq<string>, i: nat)
    requires OneSuccessor(pairs) && Walk(pairs, v) && Walk(pairs, w) && v[0] == w[0] && i < |v| && i < |w|
    ensures v[i] == w[i]
  {
    if i == 0 {
    } else {
      WalksAgree(pairs, v, w, i - 1);
      assert (v[i - 1], v[i - 1 + 1]) in pairs && (w[i - 1], w[i - 1 + 1]) in pairs;
    }
  }

  lemma HiddenOnTheWay(pairs: set<Pair>, w: seq<string>)
    requires Walk(pairs, w)
    ensures forall i :: 0 <= i < |w| - 1 ==> Hides(pairs, w[i])
  {
    forall i | 0 <= i < |w| - 1
      ensures Hides(pairs, w[i])
    {
      assert (w[i], w[i + 1]) in pairs;
    }
  }

  /** A walk that ends has one end. */
  lemma EndsOnce(pairs: set<Pair>, a: string, d: string, e: string)
    requires OneSuccessor(pairs) && EndsAt(pairs, a, d) && EndsAt(pairs, a, e)
    ensures d == e
  {
    var v :| Walk(pairs, v) && |v| > 1 && v[0] == a && v[|v| - 1] == d;
    var w :| Walk(pairs, w) && |w| > 1 && w[0] == a && w[|w| - 1] == e;
    WalksAgree(pairs, v, w, if |v| < |w| then |v| - 1 else |w| - 1);
    HiddenOnTheWay(pairs, v);
    HiddenOnTheWay(pairs, w);
  }

  lemma ChainsOnce(pairs: set<Pair>)
    requires OneSuccessor(pairs)
    ensures OneSuccessor(ChainPairs(pairs))
  {
    forall p, q | p in ChainPairs(pairs) && q in ChainPairs(pairs) && p.0 == q.0
      ensures p == q
    {
      EndsOnce(pairs, p.0, p.1, q.1);
    }
  }

  // ---------- Chains that end, and chains that do not ----------

  /** Rule 3 hides a record exactly when its walk along the replacements ends, and names that end. */
  lemma ChainHidesIffEnds(pairs: set<Pair>, a: string, e: string)
    ensures (a, e) in ChainPairs(pairs) <==> EndsAt(pairs, a, e)
  {
    if EndsAt(pairs, a, e) {
      var w :| Walk(pairs, w) && |w| > 1 && w[0] == a && w[|w| - 1] == e;
      var p, q := (w[0], w[1]), (w[|w| - 2], w[|w| - 2 + 1]);
      assert (w[0], w[0 + 1]) in pairs;
      assert p in pairs && q in pairs && (p.0, q.1) == (a, e);
    }
  }

  /** Otherwise the walk never ends: it can be continued to any length. */
  lemma {:induction false} EndsOrGoesOn(pairs: set<Pair>, a: string, n: nat)
    requires Hides(pairs, a) && forall e :: !EndsAt(pairs, a, e)
    ensures exists w :: Walk(pairs, w) && w[0] == a && |w| == n + 1
  {
    if n == 0 {
      assert Walk(pairs, [a]);
    } else {
      EndsOrGoesOn(pairs, a, n - 1);
      var w :| Walk(pairs, w) && w[0] == a && |w| == n;
      var last := w[|w| - 1];
      if |w| > 1 {
        assert !EndsAt(pairs, a, last);
      }
      var next :| (last, next) in pairs;
      assert Walk(pairs, w + [next]);
    }
  }

  /** A walk that comes back to an id it has left does not end: cycles hide nothing, nor does what runs into one. */
  lemma CyclesHideNothing(pairs: set<Pair>, w: seq<string>, i: nat, j: nat, e: string)
    requires OneSuccessor(pairs) && Walk(pairs, w) && i < j < |w| && w[i] == w[j]
    ensures (w[0], e) !in ChainPairs(pairs)
  {
    if (w[0], e) in ChainPairs(pairs) {
      var v :| Walk(pairs, v) && |v| > 1 && v[0] == w[0] && v[|v| - 1] == e;
      NeverEnds(pairs, w, i, j, v, |v|);
    }
  }

  /** The walk v from the same start can always be continued once it has followed w into its cycle. */
  lemma {:induction false} NeverEnds(pairs: set<Pair>, w: seq<string>, i: nat, j: nat, v: seq<string>, k: nat)
    requires OneSuccessor(pairs) && Walk(pairs, w) && i < j < |w| && w[i] == w[j]
    requires Walk(pairs, v) && v[0] == w[0] && 0 < k <= |v|
    ensures Hides(pairs, v[k - 1])
    ensures exists h: nat :: h < j && v[k - 1] == w[h]
  {
    if k == 1 {
      assert v[0] == w[0] && (w[0], w[0 + 1]) in pairs;
    } else {
      NeverEnds(pairs, w, i, j, v, k - 1);
      var h: nat :| h < j && v[k - 2] == w[h];
      assert (v[k - 2], v[k - 2 + 1]) in pairs && (w[h], w[h + 1]) in pairs;
      var g := if h + 1 < j then h + 1 else i;
      assert v[k - 1] == w[g] && (w[g], w[g + 1]) in pairs;
    }
  }

  // ---------- Successors lead to a record that is shown ----------

  ghost function Pairs(decisions: set<Decided>): set<Pair> {
    set d | d in decisions :: (d.0, d.1.successor)
  }

  /** Which rule hides a record, counted from the last: 0 if none. */
  ghost function Rank<F(!new)>(items: set<Item<F>>, id: string): nat {
    var nodes := AfterRule1(items);
    if Hides(IdenticalPairs(items), id) then 3
    else if Hides(SupersededPairs(nodes), id) then 2
    else if Hides(ChainPairs(Replacements(AfterRule2(nodes))), id) then 1
    else 0
  }

  lemma KeeperIsKept<F(!new)>(items: set<Item<F>>, p: Pair)
    requires DistinctIds(items) && p in IdenticalPairs(items)
    ensures !Hides(IdenticalPairs(items), p.1)
    ensures p.0 in Ids(Nodes(items)) && p.1 in Ids(AfterRule1(items))
  {
    var x, k :| x in items && k in items && Keeps(items, k, x) && p == (x.node.id, k.node.id);
    if Hides(IdenticalPairs(items), k.node.id) {
      var s :| (k.node.id, s) in IdenticalPairs(items);
      var y, l :| y in items && l in items && Keeps(items, l, y) && l.node.id != y.node.id && y.node.id == k.node.id;
      assert y == k;
      NotBefore(k.node.id, l.node.id);
    }
    assert k.node in AfterRule1(items);
    assert x.node in Nodes(items);
  }

  lemma WinnerUnbeaten(nodes: set<Node>, w: Node, n: Node)
    requires DistinctNodes(nodes) && Beats(nodes, w, n)
    ensures forall v, m {:trigger Beats(nodes, v, m)} :: Beats(nodes, v, m) ==> m.id != w.id
  {
    forall v, m | Beats(nodes, v, m)
      ensures m != w
    {
      assert m == w ==> Rivals(v, n) && v != w;
    }
  }

  lemma WinnerIsKept(nodes: set<Node>, p: Pair)
    requires DistinctNodes(nodes) && p in SupersededPairs(nodes)
    ensures !Hides(SupersededPairs(nodes), p.1)
    ensures p.0 in Ids(nodes) && p.1 in Ids(AfterRule2(nodes))
  {
    var n, w :| n in nodes && w in nodes && Beats(nodes, w, n) && p == (n.id, w.id);
    WinnerUnbeaten(nodes, w, n);
    assert w in AfterRule2(nodes);
  }

  lemma EndIsKept(nodes: set<Node>, p: Pair)
    requires DistinctNodes(nodes) && p in ChainPairs(Replacements(nodes))
    ensures !Hides(ChainPairs(Replacements(nodes)), p.1)
    ensures p.0 in Ids(nodes) && p.1 in Ids(nodes)
  {
    var pairs := Replacements(nodes);
    forall c | c in ChainPairs(pairs)
      ensures c.0 != p.1
    {
      var x, y :| x in pairs && y in pairs && EndsAt(pairs, x.0, y.1) && c == (x.0, y.1);
      assert (x.0, x.1) in pairs;
    }
  }

  ghost function Ids(nodes: set<Node>): set<string> {
    set n | n in nodes :: n.id
  }

  /** The records each rule hides and names are ones the rules before it left. */
  lemma LaterRulesLeaveHidden(nodes: set<Node>, pairs: set<Pair>, id: string)
    ensures id in Ids(Without(nodes, pairs)) <==> id in Ids(nodes) && !Hides(pairs, id)
  {
    if id in Ids(nodes) && !Hides(pairs, id) {
      var n :| n in nodes && n.id == id;
      assert n in Without(nodes, pairs);
    }
  }

  /** Each successor is hidden, if at all, by a later rule than the record it succeeds. */
  lemma RankFalls<F(!new)>(items: set<Item<F>>, p: Pair)
    requires DistinctIds(items) && p in Pairs(Decisions(items))
    ensures Rank(items, p.0) > Rank(items, p.1)
    ensures p.0 in Ids(Nodes(items)) && p.1 in Ids(Nodes(items))
  {
    var nodes := AfterRule1(items);
    var rest := AfterRule2(nodes);
    DistinctNodesOf(items);
    LaterRulesLeaveHidden(Nodes(items), IdenticalPairs(items), p.0);
    LaterRulesLeaveHidden(Nodes(items), IdenticalPairs(items), p.1);
    LaterRulesLeaveHidden(nodes, SupersededPairs(nodes), p.0);
    LaterRulesLeaveHidden(nodes, SupersededPairs(nodes), p.1);
    if p in IdenticalPairs(items) {
      KeeperIsKept(items, p);
    } else if p in SupersededPairs(nodes) {
      WinnerIsKept(nodes, p);
    } else {
      EndIsKept(rest, p);
    }
  }

  lemma {:induction false} WalkRank<F(!new)>(items: set<Item<F>>, w: seq<string>)
    requires DistinctIds(items) && Walk(Pairs(Decisions(items)), w)
    ensures |w| + Rank(items, w[|w| - 1]) <= 1 + Rank(items, w[0])
  {
    if |w| == 1 {
    } else {
      var v := w[..|w| - 1];
      WalkRank(items, v);
      assert (w[|w| - 2], w[|w| - 2 + 1]) in Pairs(Decisions(items));
      RankFalls(items, (w[|w| - 2], w[|w| - 1]));
    }
  }

  lemma SubWalk(pairs: set<Pair>, w: seq<string>, i: nat, j: nat)
    requires Walk(pairs, w) && i <= j < |w|
    ensures var v := w[i..j + 1]; Walk(pairs, v) && v[0] == w[i] && v[|v| - 1] == w[j]
  {
    var v := w[i..j + 1];
    forall k | 0 <= k < |v| - 1
      ensures (v[k], v[k + 1]) in pairs
    {
      assert (w[i + k], w[i + k + 1]) in pairs;
    }
  }

  /** Every walk from record to successor takes at most three steps, so no record comes before itself. */
  lemma WalksAreShort<F(!new)>(items: set<Item<F>>, w: seq<string>)
    requires DistinctIds(items) && Walk(Pairs(Decisions(items)), w)
    ensures |w| <= 4
    ensures forall i, j :: 0 <= i < j < |w| ==> w[i] != w[j]
  {
    WalkRank(items, w);
    forall i, j | 0 <= i < j < |w|
      ensures w[i] != w[j]
    {
      SubWalk(Pairs(Decisions(items)), w, i, j);
      WalkRank(items, w[i..j + 1]);
    }
  }

  ghost predicate WalksToShown(pairs: set<Pair>, ids: set<string>, id: string, w: seq<string>) {
    Walk(pairs, w) && w[0] == id && !Hides(pairs, w[|w| - 1]) && w[|w| - 1] in ids
  }

  lemma StepFirst(pairs: set<Pair>, ids: set<string>, id: string, s: string, v: seq<string>)
    requires (id, s) in pairs && WalksToShown(pairs, ids, s, v)
    ensures WalksToShown(pairs, ids, id, [id] + v)
  {
    var w := [id] + v;
    forall i | 0 <= i < |w| - 1
      ensures (w[i], w[i + 1]) in pairs
    {
      assert i > 0 ==> (v[i - 1], v[i - 1 + 1]) in pairs;
    }
  }

  lemma {:induction false} SomeWalkToShown<F(!new)>(items: set<Item<F>>, id: string)
    requires DistinctIds(items) && id in Ids(Nodes(items))
    ensures exists w :: WalksToShown(Pairs(Decisions(items)), Ids(Nodes(items)), id, w)
    decreases Rank(items, id)
  {
    var pairs, ids := Pairs(Decisions(items)), Ids(Nodes(items));
    if Hides(pairs, id) {
      var s :| (id, s) in pairs;
      RankFalls(items, (id, s));
      SomeWalkToShown(items, s);
      var v :| WalksToShown(pairs, ids, s, v);
      StepFirst(pairs, ids, id, s, v);
    } else {
      assert WalksToShown(pairs, ids, id, [id]);
    }
  }

  /** From every record a walk of at most three steps reaches one of the records that stay shown. */
  lemma ReachesShown<F(!new)>(items: set<Item<F>>, id: string)
    requires DistinctIds(items) && id in Ids(Nodes(items))
    ensures exists w :: WalksToShown(Pairs(Decisions(items)), Ids(Nodes(items)), id, w) && |w| <= 4
  {
    SomeWalkToShown(items, id);
    var w :| WalksToShown(Pairs(Decisions(items)), Ids(Nodes(items)), id, w);
    WalksAreShort(items, w);
  }

  /** A record is hidden at most once: one successor, one kind. */
  lemma DecidedOnce<F(!new)>(items: set<Item<F>>, c: Decided, d: Decided)
    requires DistinctIds(items) && c in Decisions(items) && d in Decisions(items) && c.0 == d.0
    ensures c == d
  {
    var nodes := AfterRule1(items);
    var rest := AfterRule2(nodes);
    DistinctNodesOf(items);
    IdenticalOnce(items);
    SupersededOnce(nodes);
    ReplacedOnce(rest);
    ChainsOnce(Replacements(rest));
    LaterRulesLeaveHidden(Nodes(items), IdenticalPairs(items), c.0);
    LaterRulesLeaveHidden(nodes, SupersededPairs(nodes), c.0);
    FromRule(items, c);
    FromRule(items, d);
  }

  /** A decision comes from the rule that its record's rank says. */
  lemma FromRule<F(!new)>(items: set<Item<F>>, d: Decided)
    requires DistinctIds(items) && d in Decisions(items)
    ensures var nodes, p := AfterRule1(items), (d.0, d.1.successor);
            && (Rank(items, d.0) == 3 ==> p in IdenticalPairs(items) && d.1.kind == Identical)
            && (Rank(items, d.0) == 2 ==> p in SupersededPairs(nodes) && d.1.kind == Superseded)
            && (Rank(items, d.0) == 1 ==> p in ChainPairs(Replacements(AfterRule2(nodes))) && d.1.kind == Superseded)
            && Rank(items, d.0) > 0
  {
    var nodes, p := AfterRule1(items), (d.0, d.1.successor);
    var rest := AfterRule2(nodes);
    DistinctNodesOf(items);
    LaterRulesLeaveHidden(Nodes(items), IdenticalPairs(items), p.0);
    LaterRulesLeaveHidden(nodes, SupersededPairs(nodes), p.0);
    if p in SupersededPairs(nodes) {
      WinnerIsKept(nodes, p);
    }
    if p in ChainPairs(Replacements(rest)) {
      EndIsKept(rest, p);
    }
  }

  /** A record the first two rules leave is hidden exactly when its chain of replacements ends, and points to that end. */
  lemma LeftHiddenIffChainEnds<F(!new)>(items: set<Item<F>>, n: Node, d: Decision)
    requires DistinctIds(items) && n in AfterRule2(AfterRule1(items))
    ensures (n.id, d) in Decisions(items) <==>
              d.kind == Superseded && EndsAt(Replacements(AfterRule2(AfterRule1(items))), n.id, d.successor)
  {
    var nodes := AfterRule1(items);
    var pairs := Replacements(AfterRule2(nodes));
    ChainHidesIffEnds(pairs, n.id, d.successor);
    LaterRulesLeaveHidden(Nodes(items), IdenticalPairs(items), n.id);
    LaterRulesLeaveHidden(nodes, SupersededPairs(nodes), n.id);
    if (n.id, d) in Decisions(items) {
      FromRule(items, (n.id, d));
    } else {
      assert (n.id, d.successor) in ChainPairs(pairs) ==> (n.id, Decision(d.successor, Superseded)) in Decisions(items);
    }
  }

  // ---------- Both clients decide alike ----------

  ghost predicate Alike<F(!new)>(x: Item<F>, y: Item<F>) {
    x.fingerprint == y.fingerprint
  }

  /** The same records, with fingerprints that tell the same records apart. */
  ghost predicate SameClasses<F(!new), G(!new)>(a: set<Item<F>>, b: set<Item<G>>) {
    && Nodes(a) == Nodes(b)
    && forall x, y, u, v {:trigger Alike(x, y), Alike(u, v)} ::
         x in a && y in a && u in b && v in b && x.node == u.node && y.node == v.node ==> (Alike(x, y) <==> Alike(u, v))
  }

  lemma SameKeeper<F(!new), G(!new)>(a: set<Item<F>>, b: set<Item<G>>, x: Item<F>, k: Item<F>, u: Item<G>, l: Item<G>)
    requires SameClasses(a, b) && Keeps(a, k, x) && u in b && u.node == x.node && l in b && l.node == k.node
    ensures Keeps(b, l, u)
  {
    assert Alike(x, k) && Alike(u, l);
    forall v | v in b && v.fingerprint == u.fingerprint
      ensures !Less(v.node.id, l.node.id)
    {
      assert v.node in Nodes(a);
      var y :| y in a && y.node == v.node;
      assert Alike(u, v) && Alike(x, y);
    }
  }

  lemma SameIdentical<F(!new), G(!new)>(a: set<Item<F>>, b: set<Item<G>>)
    requires SameClasses(a, b)
    ensures IdenticalPairs(a) <= IdenticalPairs(b)
  {
    forall p | p in IdenticalPairs(a)
      ensures p in IdenticalPairs(b)
    {
      var x, k :| x in a && k in a && Keeps(a, k, x) && k.node.id != x.node.id && p == (x.node.id, k.node.id);
      assert x.node in Nodes(b) && k.node in Nodes(b);
      var u :| u in b && u.node == x.node;
      var l :| l in b && l.node == k.node;
      SameKeeper(a, b, x, k, u, l);
    }
  }

  lemma SameClassesBack<F(!new), G(!new)>(a: set<Item<F>>, b: set<Item<G>>)
    requires SameClasses(a, b)
    ensures SameClasses(b, a)
  {
  }

  /** However each client fingerprints the records, they decide the same. */
  lemma ClientsDecideAlike<F(!new), G(!new)>(a: set<Item<F>>, b: set<Item<G>>)
    requires SameClasses(a, b)
    ensures Decisions(a) == Decisions(b)
  {
    SameIdentical(a, b);
    SameClassesBack(a, b);
    SameIdentical(b, a);
    assert IdenticalPairs(a) == IdenticalPairs(b);
  }

  lemma {:induction false} ListingUnique(p: seq<Decided>, q: seq<Decided>, decisions: set<Decided>)
    requires IsListing(p, decisions) && IsListing(q, decisions)
    ensures p == q
  {
    assert p != [] ==> p[0] in q;
    if q == [] {
    } else {
      assert q[0] in p;
      FirstListed(p, q, decisions);
      TailListed(p, decisions);
      TailListed(q, decisions);
      ListingUnique(p[1..], q[1..], decisions - {p[0]});
      assert p == [p[0]] + p[1..] && q == [q[0]] + q[1..];
    }
  }

  lemma FirstListed(p: seq<Decided>, q: seq<Decided>, decisions: set<Decided>)
    requires IsListing(p, decisions) && IsListing(q, decisions) && p != [] && q != []
    ensures p[0] == q[0]
  {
    assert p[0] in q && q[0] in p;
    var i :| 0 <= i < |q| && q[i] == p[0];
    var j :| 0 <= j < |p| && p[j] == q[0];
    if Less(p[0].0, q[0].0) {
      LessAsymmetric(p[0].0, q[0].0);
    }
  }

  lemma TailListed(p: seq<Decided>, decisions: set<Decided>)
    requires IsListing(p, decisions) && p != []
    ensures IsListing(p[1..], decisions - {p[0]})
  {
    LessIrreflexive(p[0].0);
    forall d | d in decisions - {p[0]}
      ensures d in p[1..]
    {
      var i :| 0 <= i < |p| && p[i] == d;
      assert p[1..][i - 1] == d;
    }
    forall d | d in p[1..]
      ensures d in decisions - {p[0]}
    {
      var i :| 0 <= i < |p[1..]| && p[1..][i] == d;
      assert p[i + 1] == d && Less(p[0].0, p[i + 1].0);
    }
  }

  /** Two listings of the records' decisions are the same list, in whatever order the records came and whichever client
      made them. */
  lemma ClientsListAlike<F(!new), G(!new)>(a: set<Item<F>>, b: set<Item<G>>, p: seq<Decided>, q: seq<Decided>)
    requires SameClasses(a, b) && IsListing(p, Decisions(a)) && IsListing(q, Decisions(b))
    ensures p == q
  {
    ClientsDecideAlike(a, b);
    ListingUnique(p, q, Decisions(a));
  }
}
