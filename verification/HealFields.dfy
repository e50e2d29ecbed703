/** The healing rules once more, record by record, in terms of the records' own fields. */
module HealFields {
  import opened HealRules
  import opened Order
  import opened Wrappers

  // ---------- The rules ----------

  /** Of the records with x's fingerprint, x has the first id. */
  ghost predicate FirstCopy<F(!new)>(items: set<Item<F>>, x: Item<F>) {
    x in items && forall y :: y in items && y.fingerprint == x.fingerprint && y != x ==> Less(x.node.id, y.node.id)
  }

  /** A revision number is lower than another; no number counts as zero. */
  predicate Older(a: Option<nat>, b: Option<nat>) {
    b.Some? && b.value > 0 && (a.None? || a.value < b.value)
  }

  /** Both name one node, and both are files, or folders that may be moved. */
  predicate OneRef(x: Node, y: Node) {
    && x.nodeRef.Some? && x.nodeRef == y.nodeRef
    && ((!x.isFolder && !y.isFolder) || (x.isFolder && y.isFolder && x.folderMovable && y.folderMovable))
  }

  ghost predicate OneNode<F(!new)>(items: set<Item<F>>, x: Item<F>, y: Item<F>) {
    FirstCopy(items, x) && FirstCopy(items, y) && OneRef(x.node, y.node)
  }

  /** w is newer than every other record of its node, and x is one of them. */
  ghost predicate Outdates<F(!new)>(items: set<Item<F>>, w: Item<F>, x: Item<F>) {
    && OneNode(items, w, x) && w != x
    && forall y :: OneNode(items, y, w) && y != w ==> Older(y.node.rev, w.node.rev)
  }

  /** A first copy that no other record of its node outdates. */
  ghost predicate Current<F(!new)>(items: set<Item<F>>, x: Item<F>) {
    FirstCopy(items, x) && forall w :: !Outdates(items, w, x)
  }

  /** File n was made from the node of file o, and belongs to another node. */
  ghost predicate MadeFrom<F(!new)>(items: set<Item<F>>, n: Item<F>, o: Item<F>) {
    && Current(items, n) && Current(items, o) && n != o && !n.node.isFolder && !o.node.isFolder
    && n.node.from.Some? && n.node.from == o.node.nodeRef && n.node.nodeRef != n.node.from
  }

  /** The record with id b has the first id of all that were made from record a's node. */
  ghost predicate Next<F(!new)>(items: set<Item<F>>, a: string, b: string) {
    exists o, n :: MadeFrom(items, n, o) && o.node.id == a && n.node.id == b &&
      forall m :: MadeFrom(items, m, o) && m != n ==> Less(n.node.id, m.node.id)
  }

  /** s goes from each record to the next one made from it. */
  ghost predicate Chain<F(!new)>(items: set<Item<F>>, s: seq<string>) {
    |s| > 1 && forall i :: 0 <= i < |s| - 1 ==> Next(items, s[i], s[i + 1])
  }

  ghost predicate ChainFrom<F(!new)>(items: set<Item<F>>, a: string, e: string, s: seq<string>) {
    Chain(items, s) && s[0] == a && s[|s| - 1] == e
  }

  /** Going on from a to the next record as long as there is one ends at e. */
  ghost predicate ChainEnds<F(!new)>(items: set<Item<F>>, a: string, e: string) {
    (exists s :: ChainFrom(items, a, e, s)) && forall b :: !Next(items, e, b)
  }

  /** What happens to a record: a later copy gives way to the first one, an outdated one to the newest of its node, and a
      file whose replacements come to an end to that end. */
  ghost predicate Fate<F(!new)>(items: set<Item<F>>, x: Item<F>, d: Decision) {
    if !FirstCopy(items, x) then
      d.kind == Identical && exists k :: FirstCopy(items, k) && k.fingerprint == x.fingerprint && k.node.id == d.successor
    else if exists w :: Outdates(items, w, x) then
      d.kind == Superseded && exists w :: Outdates(items, w, x) && w.node.id == d.successor
    else
      d.kind == Superseded && ChainEnds(items, x.node.id, d.successor)
  }

  /** The list says what happens to each record, in the order of the ids, and nothing else. */
  ghost predicate PlanFits<F(!new)>(items: set<Item<F>>, plan: seq<Decided>) {
    && (forall x, d {:trigger Fate(items, x, d)} :: x in items ==> ((x.node.id, d) in plan <==> Fate(items, x, d)))
    && (forall p :: p in plan ==> exists x :: x in items && x.node.id == p.0)
    && (forall i, j :: 0 <= i < j < |plan| ==> Less(plan[i].0, plan[j].0))
  }

  // ---------- Rule 1 ----------

  lemma OneOfEach<F(!new)>(items: set<Item<F>>, x: Item<F>, y: Item<F>)
    requires DistinctIds(items) && x in items && y in items && (x.node == y.node || x.node.id == y.node.id)
    ensures x == y
  {
  }

  lemma FirstCopyKeeps<F(!new)>(items: set<Item<F>>, k: Item<F>, x: Item<F>)
    requires DistinctIds(items) && x in items
    ensures Keeps(items, k, x) <==> FirstCopy(items, k) && k.fingerprint == x.fingerprint
  {
    if FirstCopy(items, k) && k.fingerprint == x.fingerprint {
      forall y | y in items && y.fingerprint == x.fingerprint
        ensures !Less(y.node.id, k.node.id)
      {
        if y == k {
          LessIrreflexive(k.node.id);
        } else {
          LessAsymmetric(k.node.id, y.node.id);
        }
      }
    }
    if Keeps(items, k, x) {
      forall y | y in items && y.fingerprint == k.fingerprint && y != k
        ensures Less(k.node.id, y.node.id)
      {
        LessTotal(k.node.id, y.node.id);
      }
    }
  }

  /** Among the copies of x one comes first. */
  lemma SomeFirstCopy<F(!new)>(items: set<Item<F>>, x: Item<F>) returns (k: Item<F>)
    requires DistinctIds(items) && x in items
    ensures FirstCopy(items, k) && k.fingerprint == x.fingerprint
  {
    var ids := set y | y in items && y.fingerprint == x.fingerprint :: y.node.id;
    assert x.node.id in ids;
    var m := First(ids);
    k :| k in items && k.fingerprint == x.fingerprint && k.node.id == m;
    forall y | y in items && y.fingerprint == k.fingerprint && y != k
      ensures Less(k.node.id, y.node.id)
    {
      assert y.node.id in ids;
    }
  }

  lemma PairOfCopies<F(!new)>(items: set<Item<F>>, x: Item<F>, s: string) returns (k: Item<F>)
    requires DistinctIds(items) && x in items && (x.node.id, s) in IdenticalPairs(items)
    ensures FirstCopy(items, k) && k.fingerprint == x.fingerprint && k.node.id == s && k != x && !FirstCopy(items, x)
  {
    var y: Item<F>;
    y, k :| y in items && k in items && Keeps(items, k, y) && k.node.id != y.node.id && (x.node.id, s) == (y.node.id, k.node.id);
    OneOfEach(items, x, y);
    FirstCopyKeeps(items, k, x);
    if FirstCopy(items, x) {
      LessAsymmetric(k.node.id, x.node.id);
    }
  }

  lemma LeftByRule1<F(!new)>(items: set<Item<F>>, x: Item<F>)
    requires DistinctIds(items) && x in items
    ensures x.node in AfterRule1(items) <==> FirstCopy(items, x)
    ensures Hides(IdenticalPairs(items), x.node.id) <==> !FirstCopy(items, x)
  {
    if s :| (x.node.id, s) in IdenticalPairs(items) {
      var _ := PairOfCopies(items, x, s);
    }
    if !FirstCopy(items, x) {
      var k := SomeFirstCopy(items, x);
      FirstCopyKeeps(items, k, x);
      assert (x.node.id, k.node.id) in IdenticalPairs(items);
    }
  }

  lemma Rule1Pairs<F(!new)>(items: set<Item<F>>, x: Item<F>, s: string)
    requires DistinctIds(items) && x in items
    ensures (x.node.id, s) in IdenticalPairs(items) <==>
              !FirstCopy(items, x) && exists k :: FirstCopy(items, k) && k.fingerprint == x.fingerprint && k.node.id == s
  {
    if (x.node.id, s) in IdenticalPairs(items) {
      var k := PairOfCopies(items, x, s);
    }
    if !FirstCopy(items, x) {
      forall k | FirstCopy(items, k) && k.fingerprint == x.fingerprint
        ensures (x.node.id, k.node.id) in IdenticalPairs(items)
      {
        FirstCopyKeeps(items, k, x);
        assert k != x;
      }
    }
  }

  // ---------- Rule 2 ----------

  /** A record that rule 1 leaves, and its node. */
  lemma ItemOf<F(!new)>(items: set<Item<F>>, n: Node) returns (x: Item<F>)
    requires DistinctIds(items) && n in AfterRule1(items)
    ensures FirstCopy(items, x) && x.node == n
  {
    x :| x in items && x.node == n;
    LeftByRule1(items, x);
  }

  /** Of the given records, w is newer than every other one of its node, and n is one of them. */
  ghost predicate NewestOf(nodes: set<Node>, w: Node, n: Node) {
    && w in nodes && n in nodes && w != n && OneRef(w, n)
    && forall m :: m in nodes && OneRef(m, w) && m != w ==> Older(m.rev, w.rev)
  }

  lemma BeatsIsNewest(nodes: set<Node>, w: Node, n: Node)
    ensures Beats(nodes, w, n) <==> NewestOf(nodes, w, n)
  {
    if Beats(nodes, w, n) {
      forall m | m in nodes && OneRef(m, w) && m != w
        ensures Older(m.rev, w.rev)
      {
        assert Rivals(m, n);
      }
    }
    if NewestOf(nodes, w, n) {
      forall m | m in nodes && Rivals(m, n) && m != w
        ensures HealRules.Rev(m) < HealRules.Rev(w)
      {
        assert OneRef(m, w);
      }
    }
  }

  lemma SupersededAre(nodes: set<Node>, p: Pair)
    ensures p in SupersededPairs(nodes) <==> exists w, n :: NewestOf(nodes, w, n) && p == (n.id, w.id)
  {
    if p in SupersededPairs(nodes) {
      var n, w :| n in nodes && w in nodes && Beats(nodes, w, n) && p == (n.id, w.id);
      BeatsIsNewest(nodes, w, n);
    }
    forall w, n | NewestOf(nodes, w, n) && p == (n.id, w.id)
      ensures p in SupersededPairs(nodes)
    {
      BeatsIsNewest(nodes, w, n);
    }
  }

  lemma OutdatesBeats<F(!new)>(items: set<Item<F>>, w: Item<F>, x: Item<F>)
    requires DistinctIds(items) && FirstCopy(items, w) && FirstCopy(items, x)
    ensures Outdates(items, w, x) <==> Beats(AfterRule1(items), w.node, x.node)
  {
    var nodes := AfterRule1(items);
    LeftByRule1(items, w);
    LeftByRule1(items, x);
    BeatsIsNewest(nodes, w.node, x.node);
    if Outdates(items, w, x) {
      forall m | m in nodes && OneRef(m, w.node) && m != w.node
        ensures Older(m.rev, w.node.rev)
      {
        var y := ItemOf(items, m);
        assert OneNode(items, y, w);
      }
    }
    if NewestOf(nodes, w.node, x.node) {
      forall y | OneNode(items, y, w) && y != w
        ensures Older(y.node.rev, w.node.rev)
      {
        LeftByRule1(items, y);
        OneOfEachNode(items, y, w);
      }
    }
  }

  lemma OneOfEachNode<F(!new)>(items: set<Item<F>>, x: Item<F>, y: Item<F>)
    requires DistinctIds(items) && x in items && y in items && x != y
    ensures x.node != y.node && x.node.id != y.node.id
  {
  }

  lemma Rule2Pairs<F(!new)>(items: set<Item<F>>, x: Item<F>, s: string)
    requires DistinctIds(items) && x in items
    ensures (x.node.id, s) in SupersededPairs(AfterRule1(items)) <==>
              exists w :: Outdates(items, w, x) && w.node.id == s
  {
    var nodes := AfterRule1(items);
    if (x.node.id, s) in SupersededPairs(nodes) {
      var n, v :| n in nodes && v in nodes && Beats(nodes, v, n) && (n.id, v.id) == (x.node.id, s);
      var y := ItemOf(items, n);
      var w := ItemOf(items, v);
      OneOfEach(items, x, y);
      OutdatesBeats(items, w, x);
    }
    forall w | Outdates(items, w, x) && w.node.id == s
      ensures (x.node.id, s) in SupersededPairs(nodes)
    {
      OutdatesBeats(items, w, x);
    }
  }

  lemma LeftByRule2<F(!new)>(items: set<Item<F>>, x: Item<F>)
    requires DistinctIds(items) && x in items
    ensures x.node in AfterRule2(AfterRule1(items)) <==> Current(items, x)
    ensures Hides(SupersededPairs(AfterRule1(items)), x.node.id) <==> exists w :: Outdates(items, w, x)
  {
    LeftByRule1(items, x);
    forall s
      ensures (x.node.id, s) in SupersededPairs(AfterRule1(items)) <==> exists w :: Outdates(items, w, x) && w.node.id == s
    {
      Rule2Pairs(items, x, s);
    }
    if w :| Outdates(items, w, x) {
      assert (x.node.id, w.node.id) in SupersededPairs(AfterRule1(items));
    }
  }

  // ---------- Rule 3 ----------

  lemma MadeFromReplaces<F(!new)>(items: set<Item<F>>, n: Item<F>, o: Item<F>)
    requires DistinctIds(items) && n in items && o in items
    ensures MadeFrom(items, n, o) <==> Replaces(AfterRule2(AfterRule1(items)), n.node, o.node)
  {
    LeftByRule2(items, n);
    LeftByRule2(items, o);
  }

  lemma NextPairs<F(!new)>(items: set<Item<F>>, a: string, b: string)
    requires DistinctIds(items)
    ensures Next(items, a, b) <==> (a, b) in Replacements(AfterRule2(AfterRule1(items)))
  {
    var rest := AfterRule2(AfterRule1(items));
    if Next(items, a, b) {
      var o, n :| MadeFrom(items, n, o) && o.node.id == a && n.node.id == b &&
        forall m :: MadeFrom(items, m, o) && m != n ==> Less(n.node.id, m.node.id);
      NextIsFirst(items, n, o);
    }
    if (a, b) in Replacements(rest) {
      var o, n :| o in rest && n in rest && ReplacesFirst(rest, n, o) && (a, b) == (o.id, n.id);
      FirstIsNext(items, n, o);
    }
  }

  lemma NextIsFirst<F(!new)>(items: set<Item<F>>, n: Item<F>, o: Item<F>)
    requires DistinctIds(items) && MadeFrom(items, n, o)
    requires forall m :: MadeFrom(items, m, o) && m != n ==> Less(n.node.id, m.node.id)
    ensures (o.node.id, n.node.id) in Replacements(AfterRule2(AfterRule1(items)))
  {
    var rest := AfterRule2(AfterRule1(items));
    MadeFromReplaces(items, n, o);
    forall v | Replaces(rest, v, o.node)
      ensures !Less(v.id, n.node.id)
    {
      var m := ItemOf(items, v);
      MadeFromReplaces(items, m, o);
      if m == n {
        LessIrreflexive(n.node.id);
      } else {
        LessAsymmetric(n.node.id, m.node.id);
      }
    }
  }

  lemma FirstIsNext<F(!new)>(items: set<Item<F>>, n: Node, o: Node)
    requires DistinctIds(items) && ReplacesFirst(AfterRule2(AfterRule1(items)), n, o)
    ensures Next(items, o.id, n.id)
  {
    var rest := AfterRule2(AfterRule1(items));
    var x := ItemOf(items, n);
    var y := ItemOf(items, o);
    MadeFromReplaces(items, x, y);
    forall m | MadeFrom(items, m, y) && m != x
      ensures Less(n.id, m.node.id)
    {
      MadeFromReplaces(items, m, y);
      LessTotal(n.id, m.node.id);
      OneOfEachNode(items, m, x);
    }
  }

  lemma ChainIsWalk<F(!new)>(items: set<Item<F>>, s: seq<string>)
    requires DistinctIds(items)
    ensures Chain(items, s) <==> |s| > 1 && Walk(Replacements(AfterRule2(AfterRule1(items))), s)
  {
    forall i | 0 <= i < |s| - 1
      ensures Next(items, s[i], s[i + 1]) <==> (s[i], s[i + 1]) in Replacements(AfterRule2(AfterRule1(items)))
    {
      NextPairs(items, s[i], s[i + 1]);
    }
  }

  lemma ChainEndsIff<F(!new)>(items: set<Item<F>>, a: string, e: string)
    requires DistinctIds(items)
    ensures ChainEnds(items, a, e) <==> EndsAt(Replacements(AfterRule2(AfterRule1(items))), a, e)
  {
    var pairs := Replacements(AfterRule2(AfterRule1(items)));
    forall b
      ensures Next(items, e, b) <==> (e, b) in pairs
    {
      NextPairs(items, e, b);
    }
    if ChainEnds(items, a, e) {
      var s :| ChainFrom(items, a, e, s);
      ChainIsWalk(items, s);
    }
    if EndsAt(pairs, a, e) {
      var w :| Walk(pairs, w) && |w| > 1 && w[0] == a && w[|w| - 1] == e;
      ChainIsWalk(items, w);
      assert ChainFrom(items, a, e, w);
    }
  }

  // ---------- All three ----------

  lemma DecidedByRank<F(!new)>(items: set<Item<F>>, id: string, d: Decision)
    requires DistinctIds(items)
    ensures var nodes := AfterRule1(items);
            (id, d) in Decisions(items) <==>
              if Rank(items, id) == 3 then d.kind == Identical && (id, d.successor) in IdenticalPairs(items)
              else if Rank(items, id) == 2 then d.kind == Superseded && (id, d.successor) in SupersededPairs(nodes)
              else d.kind == Superseded && (id, d.successor) in ChainPairs(Replacements(AfterRule2(nodes)))
  {
    DecisionsAre(items, id, d);
    if (id, d) in Decisions(items) {
      FromRule(items, (id, d));
    }
  }

  /** What the rules decide about a record is its fate. */
  lemma DecidedByFields<F(!new)>(items: set<Item<F>>, x: Item<F>, d: Decision)
    requires DistinctIds(items) && x in items
    ensures (x.node.id, d) in Decisions(items) <==> Fate(items, x, d)
  {
    DecidedByRank(items, x.node.id, d);
    RankSays(items, x);
    if !FirstCopy(items, x) {
      Rule1Pairs(items, x, d.successor);
    } else if exists w :: Outdates(items, w, x) {
      Rule2Pairs(items, x, d.successor);
    } else {
      ChainHidesIffEnds(Replacements(AfterRule2(AfterRule1(items))), x.node.id, d.successor);
      ChainEndsIff(items, x.node.id, d.successor);
    }
  }

  lemma RankSays<F(!new)>(items: set<Item<F>>, x: Item<F>)
    requires DistinctIds(items) && x in items
    ensures !FirstCopy(items, x) <==> Rank(items, x.node.id) == 3
    ensures FirstCopy(items, x) && (exists w :: Outdates(items, w, x)) <==> Rank(items, x.node.id) == 2
  {
    LeftByRule1(items, x);
    LeftByRule2(items, x);
  }

  lemma DecisionsAre<F(!new)>(items: set<Item<F>>, id: string, d: Decision)
    ensures (id, d) in Decisions(items) <==>
              || (d.kind == Identical && (id, d.successor) in IdenticalPairs(items))
              || (d.kind == Superseded && (id, d.successor) in SupersededPairs(AfterRule1(items)))
              || (d.kind == Superseded && (id, d.successor) in ChainPairs(Replacements(AfterRule2(AfterRule1(items)))))
  {
  }

  /** A listing of the decisions says exactly what happens to each record. */
  lemma ListingFits<F(!new)>(items: set<Item<F>>, plan: seq<Decided>)
    requires DistinctIds(items) && IsListing(plan, Decisions(items))
    ensures PlanFits(items, plan)
  {
    forall x, d | x in items
      ensures (x.node.id, d) in plan <==> Fate(items, x, d)
    {
      DecidedByFields(items, x, d);
    }
    forall p | p in plan
      ensures exists x :: x in items && x.node.id == p.0
    {
      assert (p.0, p.1.successor) in Pairs(Decisions(items));
      RankFalls(items, (p.0, p.1.successor));
      var n :| n in Nodes(items) && n.id == p.0;
    }
  }
}
