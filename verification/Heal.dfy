/** The two healing planners, which walk the same rules with maps and loops. */
module Heal {
  import opened HealFields
  import opened HealRules
  import opened Order
  import opened Wrappers

  ghost function Elements<T>(s: seq<T>): set<T> {
    set x | x in s
  }

  ghost predicate NoDuplicates<T>(s: seq<T>) {
    forall i, j :: 0 <= i < j < |s| ==> s[i] != s[j]
  }

  ghost predicate UniqueIds<F>(items: seq<Item<F>>) {
    forall i, j :: 0 <= i < j < |items| ==> items[i].node.id != items[j].node.id
  }

  // ---------- Groups ----------

  /** groups holds the elements that have a key, by their keys. */
  ghost predicate IsGrouping<T(!new), K(!new)>(items: seq<T>, key: T -> Option<K>, groups: map<K, seq<T>>) {
    && (forall k, x {:trigger x in groups[k]} :: k in groups ==> (x in groups[k] <==> x in items && key(x) == Some(k)))
    && (forall x :: x in items && key(x).Some? ==> key(x).value in groups)
    && (forall k :: k in groups ==> groups[k] != [])
    && (NoDuplicates(items) ==> forall k :: k in groups ==> NoDuplicates(groups[k]))
  }

  /** order lists the keys, each once. */
  ghost predicate Lists<K(!new)>(order: seq<K>, keys: set<K>) {
    NoDuplicates(order) && forall k :: k in order <==> k in keys
  }

  method GroupBy<T(==, !new), K(==, !new)>(items: seq<T>, key: T -> Option<K>)
    returns (groups: map<K, seq<T>>, order: seq<K>)
    ensures IsGrouping(items, key, groups) && Lists(order, groups.Keys)
  {
    groups, order := map[], [];
    for i := 0 to |items|
      invariant IsGrouping(items[..i], key, groups) && Lists(order, groups.Keys)
    {
      var x := items[i];
      ghost var before := groups;
      if key(x).Some? {
        var k := key(x).value;
        if k !in groups {
          order := order + [k];
        }
        groups := groups[k := (if k in groups then groups[k] else []) + [x]];
      }
      GroupingGrows(items[..i], key, before, x);
      assert items[..i + 1] == items[..i] + [x];
    }
    assert items[..|items|] == items;
  }

  lemma GroupingGrows<T(!new), K(!new)>(items: seq<T>, key: T -> Option<K>, groups: map<K, seq<T>>, x: T)
    requires IsGrouping(items, key, groups)
    ensures key(x).None? ==> IsGrouping(items + [x], key, groups)
    ensures key(x).Some? ==>
              var k := key(x).value;
              IsGrouping(items + [x], key, groups[k := (if k in groups then groups[k] else []) + [x]])
  {
    OneMore(items, x);
    if key(x).Some? {
      var k := key(x).value;
      var group := if k in groups then groups[k] else [];
      OneMore(group, x);
    }
  }

  lemma OneMore<T>(s: seq<T>, x: T)
    ensures NoDuplicates(s + [x]) <==> NoDuplicates(s) && x !in s
  {
    var t := s + [x];
    assert forall i :: 0 <= i < |s| ==> t[i] == s[i];
    assert t[|s|] == x;
  }

  /** The keys in the order a hash map happens to give them. */
  method AnyOrder<K(==, !new)>(keys: set<K>) returns (order: seq<K>)
    ensures Lists(order, keys)
  {
    order := [];
    var todo := keys;
    while todo != {}
      invariant todo <= keys && Lists(order, keys - todo)
    {
      var k :| k in todo;
      order := order + [k];
      todo := todo - {k};
    }
  }

  /** The ids in order. */
  function InOrder(ids: set<string>): (order: seq<string>)
    ensures forall id :: id in order <==> id in ids
    ensures forall i, j :: 0 <= i < j < |order| ==> Less(order[i], order[j])
    decreases |ids|
  {
    if ids == {} then []
    else
      var first := First(ids);
      var rest := InOrder(ids - {first});
      [first] + rest
  }

  // ---------- Marking records as hidden ----------

  ghost function Marks(ids: seq<string>, successor: string, kind: Kind): map<string, Decision> {
    map id | id in ids && id != successor :: Decision(successor, kind)
  }

  method Mark(hidden: map<string, Decision>, ids: seq<string>, successor: string, kind: Kind)
    returns (h: map<string, Decision>)
    ensures h == hidden + Marks(ids, successor, kind)
  {
    h := hidden;
    for i := 0 to |ids|
      invariant h == hidden + Marks(ids[..i], successor, kind)
    {
      if ids[i] != successor {
        h := h[ids[i] := Decision(successor, kind)];
      }
      assert ids[..i + 1] == ids[..i] + [ids[i]];
    }
    assert ids[..|ids|] == ids;
  }

  lemma MergedItems<K, V>(m: map<K, V>, n: map<K, V>)
    requires m.Keys !! n.Keys
    ensures (m + n).Items == m.Items + n.Items
  {
    var s := m + n;
    forall p | p in m.Items + n.Items
      ensures p in s.Items
    {
      assert p.0 in s && s[p.0] == p.1;
    }
  }

  ghost function Only(id: string, d: Decision): map<string, Decision> {
    map[id := d]
  }

  lemma OneItem(id: string, d: Decision)
    ensures Only(id, d).Items == {(id, d)}
  {
    var m := Only(id, d);
    forall p | p in m.Items
      ensures p == (id, d)
    {
    }
    assert id in m && m[id] == d;
  }

  method MinId(ids: seq<string>) returns (m: string)
    requires ids != []
    ensures m in ids && forall x :: x in ids ==> !Less(x, m)
  {
    m := ids[0];
    LessIrreflexive(m);
    for i := 1 to |ids|
      invariant m in ids[..i] && forall j :: 0 <= j < i ==> !Less(ids[j], m)
    {
      ghost var was := m;
      if Less(ids[i], m) {
        m := ids[i];
      }
      MinStep(ids, i, was, m);
    }
  }

  lemma MinStep(ids: seq<string>, i: nat, was: string, m: string)
    requires i < |ids| && forall j :: 0 <= j < i ==> !Less(ids[j], was)
    requires m == if Less(ids[i], was) then ids[i] else was
    ensures forall j :: 0 <= j <= i ==> !Less(ids[j], m)
  {
    LessIrreflexive(m);
    forall j | 0 <= j < i
      ensures !Less(ids[j], m)
    {
      if Less(ids[j], m) && m == ids[i] {
        if Less(ids[i], was) {
          LessTransitive(ids[j], ids[i], was);
        }
      }
    }
  }

  // ---------- Rule 1 ----------

  function Fingerprint<F>(x: Item<F>): Option<F> {
    Some(x.fingerprint)
  }

  function IdsOf<F>(group: seq<Item<F>>): (ids: seq<string>)
    ensures |ids| == |group| && forall i :: 0 <= i < |ids| ==> ids[i] == group[i].node.id
  {
    seq(|group|, i requires 0 <= i < |group| => group[i].node.id)
  }

  /** What rule 1 decides about the records with the given fingerprints. */
  ghost function CopiesOf<F(!new)>(items: set<Item<F>>, prints: set<F>): set<Pair> {
    set x, k | x in items && k in items && x.fingerprint in prints && Keeps(items, k, x) && k.node.id != x.node.id ::
      (x.node.id, k.node.id)
  }

  method HideCopies<F(==, !new)>(items: seq<Item<F>>, groups: map<F, seq<Item<F>>>, order: seq<F>)
    returns (hidden: map<string, Decision>)
    requires UniqueIds(items) && IsGrouping(items, Fingerprint, groups) && Lists(order, groups.Keys)
    ensures hidden.Items == Tagged(IdenticalPairs(Elements(items)), Identical)
  {
    hidden := map[];
    ghost var all := Elements(items);
    for i := 0 to |order|
      invariant hidden.Items == Tagged(CopiesOf(all, Elements(order[..i])), Identical)
    {
      var group := groups[order[i]];
      ghost var before := hidden;
      var keeper := MinId(IdsOf(group));
      if |group| > 1 {
        hidden := Mark(hidden, IdsOf(group), keeper, Identical);
      } else {
        assert hidden == hidden + Marks(IdsOf(group), keeper, Identical);
      }
      CopiesStep(items, groups, Elements(order[..i]), order[i], keeper, before);
      assert Elements(order[..i + 1]) == Elements(order[..i]) + {order[i]};
    }
    assert order[..|order|] == order;
    AllCopies(items, groups, order);
  }

  lemma AllCopies<F(!new)>(items: seq<Item<F>>, groups: map<F, seq<Item<F>>>, order: seq<F>)
    requires IsGrouping(items, Fingerprint, groups) && Lists(order, groups.Keys)
    ensures CopiesOf(Elements(items), Elements(order)) == IdenticalPairs(Elements(items))
  {
    forall x | x in items
      ensures x.fingerprint in Elements(order)
    {
      assert Fingerprint(x).Some?;
    }
  }

  lemma UniqueIdsDistinct<F(!new)>(items: seq<Item<F>>)
    requires UniqueIds(items)
    ensures DistinctIds(Elements(items)) && NoDuplicates(items)
  {
  }

  lemma CopiesStep<F(!new)>(
    items: seq<Item<F>>, groups: map<F, seq<Item<F>>>, prints: set<F>, f: F, keeper: string, hidden: map<string, Decision>)
    requires UniqueIds(items) && IsGrouping(items, Fingerprint, groups) && f in groups && f !in prints
    requires keeper in IdsOf(groups[f]) && forall x :: x in IdsOf(groups[f]) ==> !Less(x, keeper)
    requires hidden.Items == Tagged(CopiesOf(Elements(items), prints), Identical)
    ensures (hidden + Marks(IdsOf(groups[f]), keeper, Identical)).Items
         == Tagged(CopiesOf(Elements(items), prints + {f}), Identical)
  {
    var all, group := Elements(items), groups[f];
    var marks := Marks(IdsOf(group), keeper, Identical);
    UniqueIdsDistinct(items);
    CopiesInGroup(items, groups, f, keeper);
    forall id | id in hidden
      ensures exists x :: x in all && x.node.id == id && x.fingerprint in prints
    {
      assert (id, hidden[id]) in hidden.Items;
    }
    forall id | id in marks
      ensures exists x :: x in all && x.node.id == id && x.fingerprint == f
    {
      assert (id, marks[id]) in marks.Items;
    }
    MergedItems(hidden, marks);
    assert CopiesOf(all, prints + {f}) == CopiesOf(all, prints) + CopiesOf(all, {f});
  }

  lemma CopiesInGroup<F(!new)>(items: seq<Item<F>>, groups: map<F, seq<Item<F>>>, f: F, keeper: string)
    requires UniqueIds(items) && IsGrouping(items, Fingerprint, groups) && f in groups
    requires keeper in IdsOf(groups[f]) && forall x :: x in IdsOf(groups[f]) ==> !Less(x, keeper)
    ensures Marks(IdsOf(groups[f]), keeper, Identical).Items == Tagged(CopiesOf(Elements(items), {f}), Identical)
  {
    var all, group := Elements(items), groups[f];
    var marks := Marks(IdsOf(group), keeper, Identical);
    var i :| 0 <= i < |group| && IdsOf(group)[i] == keeper;
    var k := group[i];
    assert k in group;
    forall x | x in group
      ensures x in all && x.fingerprint == f && Keeps(all, k, x)
    {
      forall y | y in all && y.fingerprint == x.fingerprint
        ensures !Less(y.node.id, k.node.id)
      {
        assert y in group;
        var j :| 0 <= j < |group| && group[j] == y;
        assert IdsOf(group)[j] == y.node.id;
      }
    }
    forall d | d in marks.Items
      ensures d in Tagged(CopiesOf(all, {f}), Identical)
    {
      var j :| 0 <= j < |group| && IdsOf(group)[j] == d.0;
      assert group[j] in group;
      assert (d.0, keeper) in CopiesOf(all, {f});
    }
    forall d | d in Tagged(CopiesOf(all, {f}), Identical)
      ensures d in marks.Items
    {
      var x, l :| x in all && l in all && x.fingerprint in {f} && Keeps(all, l, x) && l.node.id != x.node.id &&
        d == (x.node.id, Decision(l.node.id, Identical));
      assert x in group && l in group;
      assert Keeps(all, k, x);
      NotBefore(k.node.id, l.node.id);
      var j :| 0 <= j < |group| && group[j] == x;
      assert IdsOf(group)[j] == d.0;
      assert marks[d.0] == d.1;
    }
  }

  // ---------- Rule 2 ----------

  /** Two records have the same key exactly if both are shown and rivals. */
  ghost predicate KeysRivals<K(!new)>(nodes: seq<Node>, shown: set<Node>, key: Node -> Option<K>) {
    && shown <= Elements(nodes)
    && forall m, n {:trigger key(m), key(n)} :: m in nodes && n in nodes ==>
         ((key(m).Some? && key(m) == key(n)) <==> (m in shown && n in shown && Rivals(m, n)))
  }

  /** What rule 2 decides about the records with the given keys. */
  ghost function StaleOf<K(!new)>(shown: set<Node>, key: Node -> Option<K>, keys: set<K>): set<Pair> {
    set n, w | n in shown && w in shown && key(n).Some? && key(n).value in keys && Beats(shown, w, n) :: (n.id, w.id)
  }

  method MaxRev(group: seq<Node>) returns (top: nat)
    requires group != []
    ensures forall n :: n in group ==> Rev(n) <= top
    ensures exists n :: n in group && Rev(n) == top
  {
    top := Rev(group[0]);
    assert group[0] in group;
    for i := 1 to |group|
      invariant forall j :: 0 <= j < i ==> Rev(group[j]) <= top
      invariant exists n :: n in group && Rev(n) == top
    {
      if top < Rev(group[i]) {
        top := Rev(group[i]);
        assert group[i] in group;
      }
    }
  }

  /** The one node with the highest revision, if there is just one. */
  method OnlyWinner(group: seq<Node>) returns (winner: Option<Node>)
    requires group != [] && NoDuplicates(group)
    ensures winner.Some? ==> winner.value in group && IsTop(group, winner.value)
    ensures winner.None? ==> forall w :: w in group ==> !IsTop(group, w)
  {
    var top := MaxRev(group);
    var winners := [];
    for i := 0 to |group|
      invariant forall n :: n in winners <==> n in group[..i] && Rev(n) == top
      invariant NoDuplicates(winners)
    {
      if Rev(group[i]) == top {
        winners := winners + [group[i]];
      }
      assert group[..i + 1] == group[..i] + [group[i]];
    }
    assert group[..|group|] == group;
    if |winners| != 1 {
      TwoWinners(group, top, winners);
      return None;
    }
    assert forall n :: n in winners ==> n == winners[0];
    return Some(winners[0]);
  }

  ghost predicate IsTop(group: seq<Node>, w: Node) {
    forall m :: m in group && m != w ==> Rev(m) < Rev(w)
  }

  lemma TwoWinners(group: seq<Node>, top: nat, winners: seq<Node>)
    requires |winners| != 1 && NoDuplicates(winners)
    requires forall n :: n in winners <==> n in group && Rev(n) == top
    requires (forall n :: n in group ==> Rev(n) <= top) && exists n :: n in group && Rev(n) == top
    ensures forall w :: w in group ==> !IsTop(group, w)
  {
    var n :| n in group && Rev(n) == top;
    assert n in winners;
    var a, b := winners[0], winners[1];
    assert a in winners && b in winners;
    forall w | w in group
      ensures !IsTop(group, w)
    {
      assert w != a ==> Rev(w) <= Rev(a);
      assert w != b ==> Rev(w) <= Rev(b);
    }
  }

  /** Everyone in the group but the winner, with the winner. */
  method Losers(group: seq<Node>, winner: Node) returns (pairs: seq<Pair>)
    ensures PairsWith(group, winner, pairs)
  {
    pairs := [];
    for i := 0 to |group|
      invariant forall p :: p in pairs <==> exists n :: n in group[..i] && n.id != winner.id && p == (n.id, winner.id)
    {
      assert group[..i + 1] == group[..i] + [group[i]];
      if group[i].id != winner.id {
        pairs := pairs + [(group[i].id, winner.id)];
      }
    }
    assert group[..|group|] == group;
  }

  method StaleInGroup(group: seq<Node>) returns (more: seq<Pair>)
    requires group != [] && NoDuplicates(group)
    ensures GroupPairs(group, more)
  {
    more := [];
    if |group| > 1 {
      var winner := OnlyWinner(group);
      if winner.Some? {
        more := Losers(group, winner.value);
        assert PairsWith(group, winner.value, more);
      }
    } else {
      assert forall n :: n in group ==> n == group[0];
      assert PairsWith(group, group[0], more);
    }
  }

  method FindStale<K(==, !new)>(
    nodes: seq<Node>, ghost shown: set<Node>, key: Node -> Option<K>, groups: map<K, seq<Node>>, order: seq<K>)
    returns (pairs: seq<Pair>)
    requires NoDuplicates(nodes) && DistinctNodes(shown) && KeysRivals(nodes, shown, key)
    requires IsGrouping(nodes, key, groups) && Lists(order, groups.Keys)
    ensures Elements(pairs) == SupersededPairs(shown)
    ensures forall p :: p in pairs <==> exists w, n :: NewestOf(shown, w, n) && p == (n.id, w.id)
  {
    pairs := [];
    for i := 0 to |order|
      invariant Elements(pairs) == StaleOf(shown, key, Elements(order[..i]))
    {
      var more := StaleInGroup(groups[order[i]]);
      StaleStep(nodes, shown, key, groups, Elements(order[..i]), order[i], more);
      assert Elements(order[..i + 1]) == Elements(order[..i]) + {order[i]};
      assert Elements(pairs + more) == Elements(pairs) + Elements(more);
      pairs := pairs + more;
    }
    assert order[..|order|] == order;
    AllStale(nodes, shown, key, groups, order);
    forall p
      ensures p in pairs <==> exists w, n :: NewestOf(shown, w, n) && p == (n.id, w.id)
    {
      SupersededAre(shown, p);
      assert p in pairs <==> p in Elements(pairs);
    }
  }

  lemma AllStale<K(!new)>(
    nodes: seq<Node>, shown: set<Node>, key: Node -> Option<K>, groups: map<K, seq<Node>>, order: seq<K>)
    requires KeysRivals(nodes, shown, key) && IsGrouping(nodes, key, groups) && Lists(order, groups.Keys)
    ensures StaleOf(shown, key, Elements(order)) == SupersededPairs(shown)
  {
    forall n, w | Beats(shown, w, n)
      ensures key(n).Some? && key(n).value in Elements(order)
    {
      assert n in nodes && w in nodes && key(w) == key(n);
    }
  }

  /** A group is the rivals of any of its members. */
  lemma GroupIsRivals<K(!new)>(
    nodes: seq<Node>, shown: set<Node>, key: Node -> Option<K>, groups: map<K, seq<Node>>, k: K, n: Node)
    requires KeysRivals(nodes, shown, key) && IsGrouping(nodes, key, groups) && k in groups && n in groups[k]
    ensures n in shown && forall m :: m in groups[k] <==> m in shown && Rivals(m, n)
  {
    assert key(n) == key(n);
  }

  ghost predicate PairsWith(group: seq<Node>, winner: Node, pairs: seq<Pair>) {
    forall p :: p in pairs <==> exists n :: n in group && n.id != winner.id && p == (n.id, winner.id)
  }

  /** The pairs of one group: everyone but its top with that top, if it has one. */
  ghost predicate GroupPairs(group: seq<Node>, more: seq<Pair>) {
    if exists w :: w in group && IsTop(group, w) then
      exists w :: w in group && IsTop(group, w) && PairsWith(group, w, more)
    else more == []
  }

  lemma StaleStep<K(!new)>(
    nodes: seq<Node>, shown: set<Node>, key: Node -> Option<K>, groups: map<K, seq<Node>>, keys: set<K>, k: K,
    more: seq<Pair>)
    requires DistinctNodes(shown) && KeysRivals(nodes, shown, key)
    requires IsGrouping(nodes, key, groups) && k in groups && GroupPairs(groups[k], more)
    ensures StaleOf(shown, key, keys + {k}) == StaleOf(shown, key, keys) + Elements(more)
  {
    StaleFound(nodes, shown, key, groups, k, more);
    StaleOnly(nodes, shown, key, groups, k, more);
  }

  lemma StaleFound<K(!new)>(
    nodes: seq<Node>, shown: set<Node>, key: Node -> Option<K>, groups: map<K, seq<Node>>, k: K,
    more: seq<Pair>)
    requires DistinctNodes(shown) && KeysRivals(nodes, shown, key)
    requires IsGrouping(nodes, key, groups) && k in groups && GroupPairs(groups[k], more)
    ensures StaleOf(shown, key, {k}) <= Elements(more)
  {
    forall n, w | n in shown && w in shown && key(n) == Some(k) && Beats(shown, w, n)
      ensures (n.id, w.id) in more
    {
      assert n in nodes && n in groups[k];
      GroupIsRivals(nodes, shown, key, groups, k, n);
      assert w in groups[k] && IsTop(groups[k], w);
      var v :| v in groups[k] && IsTop(groups[k], v) && PairsWith(groups[k], v, more);
      assert v == w;
    }
  }

  lemma StaleOnly<K(!new)>(
    nodes: seq<Node>, shown: set<Node>, key: Node -> Option<K>, groups: map<K, seq<Node>>, k: K,
    more: seq<Pair>)
    requires KeysRivals(nodes, shown, key)
    requires IsGrouping(nodes, key, groups) && k in groups && GroupPairs(groups[k], more)
    ensures Elements(more) <= StaleOf(shown, key, {k})
  {
    forall p | p in more
      ensures p in StaleOf(shown, key, {k})
    {
      var w :| w in groups[k] && IsTop(groups[k], w) && PairsWith(groups[k], w, more);
      var n :| n in groups[k] && n.id != w.id && p == (n.id, w.id);
      GroupIsRivals(nodes, shown, key, groups, k, n);
      assert Beats(shown, w, n);
    }
  }

  method InsertAll(hidden: map<string, Decision>, pairs: seq<Pair>) returns (h: map<string, Decision>)
    requires OneSuccessor(Elements(pairs)) && forall p :: p in pairs ==> p.0 !in hidden
    ensures h.Items == hidden.Items + Tagged(Elements(pairs), Superseded)
  {
    h := hidden;
    for i := 0 to |pairs|
      invariant h.Items == hidden.Items + Tagged(Elements(pairs[..i]), Superseded)
    {
      InsertOne(hidden, Elements(pairs[..i]), pairs[i], h);
      h := h[pairs[i].0 := Decision(pairs[i].1, Superseded)];
      assert Elements(pairs[..i + 1]) == Elements(pairs[..i]) + {pairs[i]};
    }
    assert pairs[..|pairs|] == pairs;
  }

  lemma InsertOne(hidden: map<string, Decision>, done: set<Pair>, p: Pair, h: map<string, Decision>)
    requires h.Items == hidden.Items + Tagged(done, Superseded)
    requires p.0 !in hidden && OneSuccessor(done + {p})
    ensures h[p.0 := Decision(p.1, Superseded)].Items == hidden.Items + Tagged(done + {p}, Superseded)
  {
    var h' := h[p.0 := Decision(p.1, Superseded)];
    forall d | d in h.Items && d.0 == p.0
      ensures d.1 == Decision(p.1, Superseded)
    {
      assert d !in hidden.Items;
      var q :| q in done && d == (q.0, Decision(q.1, Superseded));
      assert q in done + {p} && p in done + {p};
    }
    var one := Only(p.0, Decision(p.1, Superseded));
    OneItem(p.0, Decision(p.1, Superseded));
    assert Tagged(done + {p}, Superseded) == Tagged(done, Superseded) + one.Items;
    if p.0 in h {
      assert (p.0, h[p.0]) in h.Items;
      assert h' == h;
    } else {
      MergedItems(h, one);
      assert h' == h + one;
    }
  }

  // ---------- Rule 3 ----------

  /** byRef holds the shown files, by the nodes they are stored under. */
  ghost predicate FilesByRef(nodes: seq<Node>, shown: set<Node>, byRef: map<string, seq<Node>>) {
    && shown <= Elements(nodes)
    && (forall r, o {:trigger o in byRef[r]} :: r in byRef ==>
          (o in byRef[r] <==> o in shown && !o.isFolder && o.nodeRef == Some(r)))
    && forall o :: o in shown && !o.isFolder && o.nodeRef.Some? ==> o.nodeRef.value in byRef
  }

  /** Id n offered as the replacement of a record that has current so far. */
  function Better(current: Option<string>, n: string): string {
    if current.None? || Less(n, current.value) then n else current.value
  }

  function Lookup(succ: map<string, string>, id: string): Option<string> {
    if id in succ then Some(succ[id]) else None
  }

  /** Offers n as the replacement of each of olds. */
  method Offer(succ: map<string, string>, n: string, olds: seq<Node>) returns (s: map<string, string>)
    ensures forall id :: Lookup(s, id) ==
              if id != n && exists o :: o in olds && o.id == id then Some(Better(Lookup(succ, id), n)) else Lookup(succ, id)
  {
    s := succ;
    for i := 0 to |olds|
      invariant forall id :: Lookup(s, id) ==
                  if id != n && exists o :: o in olds[..i] && o.id == id then Some(Better(Lookup(succ, id), n))
                  else Lookup(succ, id)
    {
      var id := olds[i].id;
      ghost var before := s;
      if id != n {
        if id !in s {
          s := s[id := n];
        }
        if Less(n, s[id]) {
          s := s[id := n];
        }
      }
      OfferStep(succ, n, olds, i, before, s);
    }
    assert olds[..|olds|] == olds;
  }

  lemma OfferStep(succ: map<string, string>, n: string, olds: seq<Node>, i: nat, before: map<string, string>, s: map<string, string>)
    requires i < |olds|
    requires forall id :: Lookup(before, id) ==
               if id != n && exists o :: o in olds[..i] && o.id == id then Some(Better(Lookup(succ, id), n))
               else Lookup(succ, id)
    requires forall id :: id != olds[i].id ==> Lookup(s, id) == Lookup(before, id)
    requires Lookup(s, olds[i].id) ==
               if olds[i].id != n then Some(Better(Lookup(before, olds[i].id), n)) else Lookup(before, olds[i].id)
    ensures forall id :: Lookup(s, id) ==
               if id != n && exists o :: o in olds[..i + 1] && o.id == id then Some(Better(Lookup(succ, id), n))
               else Lookup(succ, id)
  {
    assert olds[..i + 1] == olds[..i] + [olds[i]];
    LessIrreflexive(n);
  }

  /** n is the best replacement of o among the given records. */
  ghost predicate IsBest(shown: set<Node>, among: set<Node>, o: Node, n: Node) {
    n in among && Replaces(shown, n, o) && forall m :: m in among && Replaces(shown, m, o) ==> !Less(m.id, n.id)
  }

  /** succ has the best replacement of o, if there is one. */
  ghost predicate BestSoFar(succ: map<string, string>, shown: set<Node>, among: set<Node>, o: Node) {
    if exists n :: n in among && Replaces(shown, n, o) then
      exists n :: IsBest(shown, among, o, n) && Lookup(succ, o.id) == Some(n.id)
    else Lookup(succ, o.id) == None
  }

  ghost predicate SuccessorsSoFar(succ: map<string, string>, shown: set<Node>, among: set<Node>) {
    && (forall o :: o in shown ==> BestSoFar(succ, shown, among, o))
    && forall id :: id in succ ==> exists o :: o in shown && o.id == id
  }

  method FindReplacements(
    nodes: seq<Node>, ghost shown: set<Node>, hidden: map<string, Decision>, byRef: map<string, seq<Node>>)
    returns (succ: map<string, string>)
    requires DistinctNodes(shown) && FilesByRef(nodes, shown, byRef)
    requires forall n :: n in nodes ==> (n in shown <==> n.id !in hidden)
    ensures succ.Items == Replacements(shown)
  {
    succ := map[];
    for i := 0 to |nodes|
      invariant SuccessorsSoFar(succ, shown, Elements(nodes[..i]))
    {
      var n := nodes[i];
      succ := OfferNode(nodes, shown, hidden, byRef, n, succ, Elements(nodes[..i]));
      assert Elements(nodes[..i + 1]) == Elements(nodes[..i]) + {n};
    }
    assert nodes[..|nodes|] == nodes;
    SuccessorsFound(succ, shown, Elements(nodes));
  }

  /** Offers one record as the replacement of those it says it replaces. */
  method OfferNode(
    ghost nodes: seq<Node>, ghost shown: set<Node>, hidden: map<string, Decision>, byRef: map<string, seq<Node>>,
    n: Node, succ: map<string, string>, ghost among: set<Node>)
    returns (succ': map<string, string>)
    requires DistinctNodes(shown) && FilesByRef(nodes, shown, byRef) && SuccessorsSoFar(succ, shown, among)
    requires n in shown <==> n.id !in hidden
    ensures SuccessorsSoFar(succ', shown, among + {n})
  {
    var olds := [];
    if !n.isFolder && n.id !in hidden && n.from.Some? && n.from != n.nodeRef {
      olds := if n.from.value in byRef then byRef[n.from.value] else [];
    }
    assert OldsOf(shown, n, olds);
    succ' := Offer(succ, n.id, olds);
    OfferedOk(succ, shown, among, n, olds, succ');
  }

  /** olds are the records n replaces, and n itself perhaps. */
  ghost predicate OldsOf(shown: set<Node>, n: Node, olds: seq<Node>) {
    && (forall o :: o in olds ==> o in shown)
    && forall o :: o in shown && o.id != n.id ==> (o in olds <==> Replaces(shown, n, o))
  }

  lemma OfferedOk(
    before: map<string, string>, shown: set<Node>, among: set<Node>, n: Node, olds: seq<Node>, succ: map<string, string>)
    requires DistinctNodes(shown) && SuccessorsSoFar(before, shown, among) && OldsOf(shown, n, olds)
    requires forall id :: Lookup(succ, id) ==
               if id != n.id && exists o :: o in olds && o.id == id then Some(Better(Lookup(before, id), n.id))
               else Lookup(before, id)
    ensures SuccessorsSoFar(succ, shown, among + {n})
  {
    forall o | o in shown
      ensures BestSoFar(succ, shown, among + {n}, o)
    {
      assert BestSoFar(before, shown, among, o);
      assert o.id != n.id && (exists u :: u in olds && u.id == o.id) <==> Replaces(shown, n, o);
      BestKept(before, shown, among, n, o, succ);
    }
    forall id | id in succ
      ensures exists o :: o in shown && o.id == id
    {
      assert Lookup(succ, id).Some?;
      assert id !in before ==> exists u :: u in olds && u.id == id;
    }
  }

  lemma BestKept(before: map<string, string>, shown: set<Node>, among: set<Node>, n: Node, o: Node, succ: map<string, string>)
    requires BestSoFar(before, shown, among, o)
    requires Lookup(succ, o.id) ==
               if Replaces(shown, n, o) then Some(Better(Lookup(before, o.id), n.id)) else Lookup(before, o.id)
    ensures BestSoFar(succ, shown, among + {n}, o)
  {
    if Replaces(shown, n, o) {
      LessIrreflexive(n.id);
      if m0 :| IsBest(shown, among, o, m0) && Lookup(before, o.id) == Some(m0.id) {
        var best := if Less(n.id, m0.id) then n else m0;
        forall m | m in among && Replaces(shown, m, o)
          ensures !Less(m.id, best.id)
        {
          if Less(m.id, n.id) && Less(n.id, m0.id) {
            LessTransitive(m.id, n.id, m0.id);
          }
        }
        assert IsBest(shown, among + {n}, o, best);
      } else {
        assert IsBest(shown, among + {n}, o, n);
      }
    } else if m0 :| IsBest(shown, among, o, m0) && Lookup(before, o.id) == Some(m0.id) {
      assert IsBest(shown, among + {n}, o, m0);
    }
  }

  lemma SuccessorsFound(succ: map<string, string>, shown: set<Node>, among: set<Node>)
    requires DistinctNodes(shown) && shown <= among && SuccessorsSoFar(succ, shown, among)
    ensures succ.Items == Replacements(shown)
  {
    forall p | p in succ.Items
      ensures p in Replacements(shown)
    {
      var o :| o in shown && o.id == p.0;
      assert BestSoFar(succ, shown, among, o) && Lookup(succ, o.id) == Some(p.1);
      var n :| IsBest(shown, among, o, n) && Lookup(succ, o.id) == Some(n.id);
      assert ReplacesFirst(shown, n, o);
    }
    forall o, n | ReplacesFirst(shown, n, o)
      ensures (o.id, n.id) in succ.Items
    {
      assert BestSoFar(succ, shown, among, o) && n in among;
      var m :| IsBest(shown, among, o, m) && Lookup(succ, o.id) == Some(m.id);
      NotBefore(m.id, n.id);
    }
  }

  lemma ItemsOneSuccessor(succ: map<string, string>)
    ensures OneSuccessor(succ.Items)
    ensures forall id :: Hides(succ.Items, id) <==> id in succ
  {
    forall id | id in succ
      ensures Hides(succ.Items, id)
    {
      assert (id, succ[id]) in succ.Items;
    }
  }

  /** Follows the replacements from o to their end; a walk that comes back to itself has none. */
  method Follow(succ: map<string, string>, o: string) returns (end: Option<string>)
    requires o in succ
    ensures end.Some? ==> EndsAt(succ.Items, o, end.value)
    ensures end.None? ==> forall e :: (o, e) !in ChainPairs(succ.Items)
  {
    var cur := succ[o];
    var seen := {o};
    ghost var w := [o, cur];
    ItemsOneSuccessor(succ);
    assert (o, cur) in succ.Items;
    while cur in succ
      invariant |w| > 1 && w[0] == o && w[|w| - 1] == cur && Walk(succ.Items, w)
      invariant seen == Elements(w[..|w| - 1]) && seen <= succ.Keys
      decreases succ.Keys - seen
    {
      if cur in seen {
        ComesBack(succ.Items, w);
        return None;
      }
      WalkOn(succ.Items, w, succ[cur]);
      assert (w + [succ[cur]])[..|w|] == w[..|w| - 1] + [cur];
      w := w + [succ[cur]];
      seen := seen + {cur};
      cur := succ[cur];
    }
    return if cur in seen then None else Some(cur);
  }

  lemma ComesBack(pairs: set<Pair>, w: seq<string>)
    requires OneSuccessor(pairs) && Walk(pairs, w) && w[|w| - 1] in w[..|w| - 1]
    ensures forall e :: (w[0], e) !in ChainPairs(pairs)
  {
    var i :| 0 <= i < |w| - 1 && w[i] == w[|w| - 1];
    forall e
      ensures (w[0], e) !in ChainPairs(pairs)
    {
      CyclesHideNothing(pairs, w, i, |w| - 1, e);
    }
  }

  lemma WalkOn(pairs: set<Pair>, w: seq<string>, next: string)
    requires Walk(pairs, w) && (w[|w| - 1], next) in pairs
    ensures Walk(pairs, w + [next])
  {
    var v := w + [next];
    forall i | 0 <= i < |v| - 1
      ensures (v[i], v[i + 1]) in pairs
    {
      assert i < |w| - 1 ==> (w[i], w[i + 1]) in pairs;
    }
  }

  /** The pairs of a chain whose first record has been looked at. */
  ghost function ChainsFrom(pairs: set<Pair>, ids: set<string>): set<Pair> {
    set p | p in ChainPairs(pairs) && p.0 in ids
  }

  /** The chains of the first records looked at: those that end, and those that do not. */
  ghost predicate ResolvedSoFar(pairs: set<Pair>, ids: set<string>, ends: seq<Pair>, cyclic: set<string>) {
    && Elements(ends) == ChainsFrom(pairs, ids) && cyclic <= ids
    && forall p :: p in ends ==> p.0 !in cyclic && p.0 in ids
  }

  method ResolveOne(succ: map<string, string>, ghost ids: set<string>, o: string, ends: seq<Pair>, cyclic: set<string>)
    returns (ends': seq<Pair>, cyclic': set<string>)
    requires ResolvedSoFar(succ.Items, ids, ends, cyclic) && o in succ && o !in ids
    ensures ResolvedSoFar(succ.Items, ids + {o}, ends', cyclic')
  {
    ends', cyclic' := ends, cyclic;
    ItemsOneSuccessor(succ);
    var end := Follow(succ, o);
    ResolvedStep(succ.Items, ids, o, end);
    if end.Some? {
      ends' := ends + [(o, end.value)];
      assert Elements(ends') == Elements(ends) + {(o, end.value)};
    } else {
      cyclic' := cyclic + {o};
    }
  }

  method ResolveChains(succ: map<string, string>) returns (resolved: seq<Pair>)
    ensures Elements(resolved) == ChainPairs(succ.Items)
  {
    var order := InOrder(succ.Keys);
    var ends, cyclic := [], {};
    for i := 0 to |order|
      invariant ResolvedSoFar(succ.Items, Elements(order[..i]), ends, cyclic)
    {
      NotYet(order, i);
      ends, cyclic := ResolveOne(succ, Elements(order[..i]), order[i], ends, cyclic);
      assert Elements(order[..i + 1]) == Elements(order[..i]) + {order[i]};
    }
    assert order[..|order|] == order;
    AllChains(succ, Elements(order));
    resolved := Unrelated(ends, cyclic, succ);
  }

  lemma NotYet(order: seq<string>, i: nat)
    requires i < |order| && forall j, k :: 0 <= j < k < |order| ==> Less(order[j], order[k])
    ensures order[i] !in order[..i]
  {
    LessIrreflexive(order[i]);
  }

  lemma ResolvedStep(pairs: set<Pair>, ids: set<string>, o: string, end: Option<string>)
    requires OneSuccessor(pairs)
    requires end.Some? ==> EndsAt(pairs, o, end.value)
    requires end.None? ==> forall e :: (o, e) !in ChainPairs(pairs)
    ensures ChainsFrom(pairs, ids + {o}) == ChainsFrom(pairs, ids) + if end.Some? then {(o, end.value)} else {}
  {
    ChainsOnce(pairs);
    if end.Some? {
      ChainHidesIffEnds(pairs, o, end.value);
    }
  }

  lemma AllChains(succ: map<string, string>, ids: set<string>)
    requires ids == succ.Keys
    ensures ChainsFrom(succ.Items, ids) == ChainPairs(succ.Items)
  {
    forall p | p in ChainPairs(succ.Items)
      ensures p.0 in ids
    {
      var x :| x in succ.Items && x.0 == p.0;
    }
  }

  /** Keeps the resolved records that are not cyclic and do not end at a cyclic one: all of them. */
  method Unrelated(ends: seq<Pair>, cyclic: set<string>, ghost succ: map<string, string>) returns (kept: seq<Pair>)
    requires Elements(ends) <= ChainPairs(succ.Items) && cyclic <= succ.Keys
    requires forall p :: p in ends ==> p.0 !in cyclic
    ensures kept == ends
  {
    kept := [];
    ItemsOneSuccessor(succ);
    for i := 0 to |ends|
      invariant kept == ends[..i]
    {
      assert ends[i] in ends && ends[i] in Elements(ends);
      ChainHidesIffEnds(succ.Items, ends[i].0, ends[i].1);
      if ends[i].0 !in cyclic && ends[i].1 !in cyclic {
        kept := kept + [ends[i]];
      }
    }
  }

  // ---------- The planners ----------

  method ListHidden(hidden: map<string, Decision>) returns (list: seq<Decided>)
    ensures IsListing(list, hidden.Items)
  {
    var order := InOrder(hidden.Keys);
    list := [];
    for i := 0 to |order|
      invariant |list| == i && forall j :: 0 <= j < i ==> list[j] == (order[j], hidden[order[j]])
    {
      list := list + [(order[i], hidden[order[i]])];
    }
    forall d | d in hidden.Items
      ensures d in list
    {
      assert d.0 in order;
      var i :| 0 <= i < |order| && order[i] == d.0;
      assert list[i] == d;
    }
    forall d | d in list
      ensures d in hidden.Items
    {
      var i :| 0 <= i < |list| && list[i] == d;
      assert order[i] in order;
    }
  }

  function NodesOf<F>(items: seq<Item<F>>): (nodes: seq<Node>)
    ensures |nodes| == |items| && forall i :: 0 <= i < |items| ==> nodes[i] == items[i].node
  {
    seq(|items|, i requires 0 <= i < |items| => items[i].node)
  }

  lemma NodesOfElements<F(!new)>(items: seq<Item<F>>)
    requires UniqueIds(items)
    ensures Elements(NodesOf(items)) == Nodes(Elements(items))
    ensures NoDuplicates(NodesOf(items)) && DistinctNodes(Elements(NodesOf(items)))
  {
    forall i | 0 <= i < |items|
      ensures items[i].node in Elements(NodesOf(items)) && NodesOf(items)[i] in Nodes(Elements(items))
    {
      assert NodesOf(items)[i] == items[i].node && items[i] in items;
    }
  }

  /** The key of a node in the file system client's groups. */
  function TupleKey(hidden: map<string, Decision>, n: Node): Option<(string, bool)> {
    if n.id in hidden || (n.isFolder && !n.folderMovable) || n.nodeRef.None? then None
    else Some((n.nodeRef.value, n.isFolder))
  }

  /** The key of a node in the browser's groups. */
  function TextKey(hidden: map<string, Decision>, n: Node): Option<string> {
    if n.id in hidden || n.nodeRef.None? || (n.isFolder && !n.folderMovable) then None
    else Some((if n.isFolder then "d" else "f") + ":" + n.nodeRef.value)
  }

  lemma TextKeyIsTupleKey(hidden: map<string, Decision>, m: Node, n: Node)
    ensures TextKey(hidden, n).Some? <==> TupleKey(hidden, n).Some?
    ensures TextKey(hidden, m) == TextKey(hidden, n) <==> TupleKey(hidden, m) == TupleKey(hidden, n)
  {
    if TupleKey(hidden, m).Some? && TupleKey(hidden, n).Some? {
      var s, t := TextKey(hidden, m).value, TextKey(hidden, n).value;
      assert s[0] == (if m.isFolder then 'd' else 'f') && t[0] == if n.isFolder then 'd' else 'f';
      assert s[2..] == m.nodeRef.value && t[2..] == n.nodeRef.value;
    }
  }

  function FileKey(hidden: map<string, Decision>, n: Node): Option<string> {
    if n.isFolder || n.id in hidden then None else n.nodeRef
  }

  lemma ShownIff(nodes: set<Node>, pairs: set<Pair>, hidden: map<string, Decision>, kept: set<Decided>, kind: Kind)
    requires hidden.Items == kept + Tagged(pairs, kind) && forall d, n :: d in kept && n in nodes ==> d.0 != n.id
    ensures forall n :: n in nodes ==> (n in Without(nodes, pairs) <==> n.id !in hidden)
  {
    forall n | n in nodes
      ensures Hides(pairs, n.id) <==> n.id in hidden
    {
      if n.id in hidden {
        assert (n.id, hidden[n.id]) in hidden.Items;
        var p :| p in pairs && p.0 == n.id;
        assert (n.id, p.1) in pairs;
      }
      if s :| (n.id, s) in pairs {
        assert (n.id, Decision(s, kind)) in hidden.Items;
      }
    }
  }

  lemma TupleKeyRivals(nodes: seq<Node>, shown: set<Node>, hidden: map<string, Decision>)
    requires shown <= Elements(nodes) && forall n :: n in nodes ==> (n in shown <==> n.id !in hidden)
    ensures KeysRivals(nodes, shown, n => TupleKey(hidden, n))
  {
    var key := n => TupleKey(hidden, n);
    forall m, n | m in nodes && n in nodes
      ensures (key(m).Some? && key(m) == key(n)) <==> (m in shown && n in shown && Rivals(m, n))
    {
      assert m.nodeRef.Some? && n.nodeRef.Some? && m.nodeRef.value == n.nodeRef.value ==> m.nodeRef == n.nodeRef;
    }
  }

  lemma TextKeyRivals(nodes: seq<Node>, shown: set<Node>, hidden: map<string, Decision>)
    requires shown <= Elements(nodes) && forall n :: n in nodes ==> (n in shown <==> n.id !in hidden)
    ensures KeysRivals(nodes, shown, n => TextKey(hidden, n))
  {
    TupleKeyRivals(nodes, shown, hidden);
    var key, tuple := n => TextKey(hidden, n), n => TupleKey(hidden, n);
    forall m, n | m in nodes && n in nodes
      ensures (key(m).Some? && key(m) == key(n)) <==> (m in shown && n in shown && Rivals(m, n))
    {
      TextKeyIsTupleKey(hidden, m, m);
      TextKeyIsTupleKey(hidden, m, n);
      assert (tuple(m).Some? && tuple(m) == tuple(n)) <==> (m in shown && n in shown && Rivals(m, n));
    }
  }

  /** What rule 1 leaves. */
  ghost predicate AfterCopies<F(!new)>(items: seq<Item<F>>, hidden: map<string, Decision>) {
    hidden.Items == Tagged(IdenticalPairs(Elements(items)), Identical)
  }

  lemma ShownAfterRule1<F(!new)>(items: seq<Item<F>>, hidden: map<string, Decision>)
    requires UniqueIds(items) && AfterCopies(items, hidden)
    ensures var nodes, shown := NodesOf(items), AfterRule1(Elements(items));
            && NoDuplicates(nodes) && DistinctNodes(Elements(nodes)) && DistinctNodes(shown)
            && shown <= Elements(nodes) && forall n :: n in nodes ==> (n in shown <==> n.id !in hidden)
  {
    NodesOfElements(items);
    ShownIff(Nodes(Elements(items)), IdenticalPairs(Elements(items)), hidden, {}, Identical);
  }

  /** Hides the stale revisions, and gives the records still shown. */
  method HideStale<F(!new)>(items: seq<Item<F>>, hidden: map<string, Decision>, stale: seq<Pair>)
    returns (h: map<string, Decision>)
    requires UniqueIds(items) && AfterCopies(items, hidden)
    requires Elements(stale) == SupersededPairs(AfterRule1(Elements(items)))
    ensures AfterStale(items, h)
  {
    ghost var all, shown := Elements(items), AfterRule1(Elements(items));
    ShownAfterRule1(items, hidden);
    SupersededOnce(shown);
    forall p | p in stale
      ensures p.0 !in hidden
    {
      assert p in SupersededPairs(shown);
    }
    h := InsertAll(hidden, stale);
  }

  ghost predicate AfterStale<F(!new)>(items: seq<Item<F>>, hidden: map<string, Decision>) {
    hidden.Items == Tagged(IdenticalPairs(Elements(items)), Identical)
                    + Tagged(SupersededPairs(AfterRule1(Elements(items))), Superseded)
  }

  lemma ShownAfterRule2<F(!new)>(items: seq<Item<F>>, hidden: map<string, Decision>)
    requires UniqueIds(items) && AfterStale(items, hidden)
    ensures var nodes, shown := NodesOf(items), AfterRule2(AfterRule1(Elements(items)));
            && DistinctNodes(shown) && shown <= Elements(nodes)
            && forall n :: n in nodes ==> (n in shown <==> n.id !in hidden)
  {
    var all := Elements(items);
    var one, two := IdenticalPairs(all), SupersededPairs(AfterRule1(all));
    var first := Tagged(one, Identical);
    NodesOfElements(items);
    forall d, n | d in first && n in AfterRule1(all)
      ensures d.0 != n.id
    {
      assert (d.0, d.1.successor) in one;
    }
    ShownIff(AfterRule1(all), two, hidden, first, Superseded);
    forall n | n in Nodes(all) && n !in AfterRule1(all)
      ensures n.id in hidden
    {
      var s :| (n.id, s) in one;
      assert (n.id, Decision(s, Identical)) in hidden.Items;
    }
  }

  lemma FilesGrouped(nodes: seq<Node>, shown: set<Node>, hidden: map<string, Decision>, byRef: map<string, seq<Node>>)
    requires shown <= Elements(nodes) && forall n :: n in nodes ==> (n in shown <==> n.id !in hidden)
    requires IsGrouping(nodes, n => FileKey(hidden, n), byRef)
    ensures FilesByRef(nodes, shown, byRef)
  {
    var key := n => FileKey(hidden, n);
    forall o | o in shown && !o.isFolder && o.nodeRef.Some?
      ensures o.nodeRef.value in byRef
    {
      assert o in nodes && key(o).Some?;
    }
  }

  /** Rule 3, the same in both planners: hides every file whose chain of replacements ends. */
  method HideReplaced<F(!new)>(items: seq<Item<F>>, hidden: map<string, Decision>) returns (h: map<string, Decision>)
    requires UniqueIds(items) && AfterStale(items, hidden)
    ensures h.Items == Decisions(Elements(items))
  {
    var nodes := NodesOf(items);
    ghost var shown := AfterRule2(AfterRule1(Elements(items)));
    ShownAfterRule2(items, hidden);
    var byRef, _ := GroupBy(nodes, n => FileKey(hidden, n));
    FilesGrouped(nodes, shown, hidden, byRef);
    var succ := FindReplacements(nodes, shown, hidden, byRef);
    var resolved := ResolveChains(succ);
    ReplacedOnce(shown);
    ChainsOnce(Replacements(shown));
    forall p | p in resolved
      ensures p.0 !in hidden
    {
      assert p in ChainPairs(Replacements(shown));
      EndIsKept(shown, p);
    }
    h := InsertAll(hidden, resolved);
  }

  /** The planner of the file system client; its hash maps are walked in no particular order. */
  method Plan<F(==, !new)>(items: seq<Item<F>>) returns (plan: seq<Decided>)
    requires UniqueIds(items)
    ensures IsListing(plan, Decisions(Elements(items))) && PlanFits(Elements(items), plan)
  {
    var byPrint, _ := GroupBy(items, Fingerprint);
    var prints := AnyOrder(byPrint.Keys);
    var hidden := HideCopies(items, byPrint, prints);
    ghost var shown := AfterRule1(Elements(items));
    ShownAfterRule1(items, hidden);
    var nodes := NodesOf(items);
    TupleKeyRivals(nodes, shown, hidden);
    var byRef, _ := GroupBy(nodes, n => TupleKey(hidden, n));
    var refs := AnyOrder(byRef.Keys);
    var stale := FindStale(nodes, shown, n => TupleKey(hidden, n), byRef, refs);
    hidden := HideStale(items, hidden, stale);
    hidden := HideReplaced(items, hidden);
    plan := ListHidden(hidden);
    UniqueIdsDistinct(items);
    ListingFits(Elements(items), plan);
  }

  /** The planner of the browser client; its maps are walked in the order of insertion. */
  method HealPlan<F(==, !new)>(items: seq<Item<F>>) returns (plan: seq<Decided>)
    requires UniqueIds(items)
    ensures IsListing(plan, Decisions(Elements(items))) && PlanFits(Elements(items), plan)
  {
    var byPrint, prints := GroupBy(items, Fingerprint);
    var hidden := HideCopies(items, byPrint, prints);
    ghost var shown := AfterRule1(Elements(items));
    ShownAfterRule1(items, hidden);
    var nodes := NodesOf(items);
    TextKeyRivals(nodes, shown, hidden);
    var byRef, refs := GroupBy(nodes, n => TextKey(hidden, n));
    var stale := FindStale(nodes, shown, n => TextKey(hidden, n), byRef, refs);
    hidden := HideStale(items, hidden, stale);
    hidden := HideReplaced(items, hidden);
    plan := ListHidden(hidden);
    UniqueIdsDistinct(items);
    ListingFits(Elements(items), plan);
  }

  // ---------- What the callers pass ----------

  ghost predicate FirstAt<F>(items: seq<Item<F>>, x: Item<F>, i: nat) {
    i < |items| && items[i] == x && forall j :: 0 <= j < i ==> items[j].node.id != x.node.id
  }

  /** The first record of each id. */
  ghost predicate IsFirst<F(!new)>(items: seq<Item<F>>, x: Item<F>) {
    exists i: nat :: FirstAt(items, x, i)
  }

  method UniqueById<F(!new)>(items: seq<Item<F>>) returns (unique: seq<Item<F>>)
    ensures UniqueIds(unique) && forall x :: x in unique <==> IsFirst(items, x)
  {
    unique := [];
    var seen: set<string> := {};
    for i := 0 to |items|
      invariant UniqueIds(unique)
      invariant forall id :: id in seen <==> exists j :: 0 <= j < i && items[j].node.id == id
      invariant forall x :: x in unique <==> IsFirst(items[..i], x)
      invariant forall x :: x in unique ==> x.node.id in seen
    {
      FirstGrows(items, i);
      if items[i].node.id !in seen {
        unique, seen := unique + [items[i]], seen + {items[i].node.id};
      }
    }
    assert items[..|items|] == items;
  }

  lemma FirstAtPrefix<F(!new)>(items: seq<Item<F>>, n: nat, x: Item<F>, k: nat)
    requires n <= |items|
    ensures FirstAt(items[..n], x, k) <==> k < n && FirstAt(items, x, k)
  {
    assert forall j :: 0 <= j < n ==> items[..n][j] == items[j];
  }

  lemma FirstGrows<F(!new)>(items: seq<Item<F>>, i: nat)
    requires i < |items|
    ensures forall x :: IsFirst(items[..i + 1], x) <==> IsFirst(items[..i], x) || FirstAt(items, x, i)
  {
    forall x
      ensures IsFirst(items[..i + 1], x) <==> IsFirst(items[..i], x) || FirstAt(items, x, i)
    {
      FirstAtPrefix(items, i + 1, x, i);
      if k: nat :| FirstAt(items[..i], x, k) {
        FirstAtPrefix(items, i, x, k);
        FirstAtPrefix(items, i + 1, x, k);
      }
      var b := items[..i + 1];
      if k: nat :| FirstAt(b, x, k) {
        FirstAtPrefix(items, i, x, k);
        FirstAtPrefix(items, i + 1, x, k);
      }
    }
  }

  ghost function Firsts<F(!new)>(items: seq<Item<F>>): set<Item<F>> {
    set x | x in items && IsFirst(items, x)
  }

  /** The browser's plan for any records: that for the first record of each id. */
  method PlanRecords<F(==, !new)>(items: seq<Item<F>>) returns (plan: seq<Decided>)
    ensures DistinctIds(Firsts(items)) && IsListing(plan, Decisions(Firsts(items))) && PlanFits(Firsts(items), plan)
  {
    var distinct := UniqueById(items);
    UniqueIdsDistinct(distinct);
    assert Elements(distinct) == Firsts(items);
    plan := HealPlan(distinct);
  }

  /** The file system client's plan for its index, which holds each id once. */
  method PlanIndex<F(==, !new)>(entries: map<string, Item<F>>) returns (plan: seq<Decided>)
    requires forall id :: id in entries ==> entries[id].node.id == id
    ensures IsListing(plan, Decisions(entries.Values)) && PlanFits(entries.Values, plan)
  {
    var order := AnyOrder(entries.Keys);
    var items := [];
    for i := 0 to |order|
      invariant |items| == i && forall j :: 0 <= j < i ==> items[j] == entries[order[j]]
    {
      items := items + [entries[order[i]]];
    }
    forall i, j | 0 <= i < j < |items|
      ensures items[i].node.id != items[j].node.id
    {
      assert order[i] != order[j];
    }
    IndexElements(entries, order, items);
    plan := Plan(items);
  }

  lemma IndexElements<F(!new)>(entries: map<string, Item<F>>, order: seq<string>, items: seq<Item<F>>)
    requires Lists(order, entries.Keys) && |items| == |order|
    requires forall j :: 0 <= j < |items| ==> items[j] == entries[order[j]]
    ensures Elements(items) == entries.Values
  {
    forall x | x in entries.Values
      ensures x in items
    {
      var id :| id in entries && entries[id] == x;
      assert id in order;
      var j :| 0 <= j < |order| && order[j] == id;
      assert items[j] == x;
    }
  }

  /** Distinct ids are needed: these four records, two of them with one id, have no plan. */
  lemma DuplicateIdsHaveNoPlan(plan: seq<Decided>)
    ensures !IsListing(plan, Decisions({Copy("0", 1), Copy("a", 1), Copy("1", 2), Copy("a", 2)}))
  {
    var items := {Copy("0", 1), Copy("a", 1), Copy("1", 2), Copy("a", 2)};
    IsKeeper(items, Copy("0", 1), Copy("a", 1));
    IsKeeper(items, Copy("1", 2), Copy("a", 2));
    var c, d := ("a", Decision("0", Identical)), ("a", Decision("1", Identical));
    assert c in Decisions(items) && d in Decisions(items);
    if IsListing(plan, Decisions(items)) {
      assert c in plan && d in plan;
      var i :| 0 <= i < |plan| && plan[i] == c;
      var j :| 0 <= j < |plan| && plan[j] == d;
      LessIrreflexive("a");
      assert false;
    }
  }

  function Copy(id: string, fingerprint: nat): Item<nat> {
    Item(Node(id, None, None, None, false, false), fingerprint)
  }

  lemma IsKeeper(items: set<Item<nat>>, k: Item<nat>, x: Item<nat>)
    requires items == {Copy("0", 1), Copy("a", 1), Copy("1", 2), Copy("a", 2)}
    requires (k == Copy("0", 1) && x == Copy("a", 1)) || (k == Copy("1", 2) && x == Copy("a", 2))
    ensures (x.node.id, k.node.id) in IdenticalPairs(items)
  {
    LessIrreflexive(k.node.id);
    assert !Less("a", "0") && !Less("a", "1");
    assert Keeps(items, k, x);
  }
}
