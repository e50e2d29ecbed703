/** The index of the vault tree: where each entry is placed, and under which name it is shown there. */
module VaultIndex {
  import opened FsNames
  import opened NameTable
  import opened Order
  import opened Wrappers

  type Key = string

  const UNRESOLVED_PARENT: Place := "\0unresolved"

  /** What the index uses of a decrypted record. */
  datatype Entry = Entry(
    id: Id, parentId: Option<Id>, pref: Option<Key>, from: Option<Key>,
    nodeRef: Option<Key>, isFolder: bool, isV2: bool, fsName: Name)

  type Entries = map<Id, Entry>

  function RefKey(e: Entry): Option<Key> {
    if e.isFolder then e.nodeRef else None
  }

  function FromKey(e: Entry): Option<Key> {
    if e.isFolder && e.isV2 then e.from else None
  }

  function PrefKey(e: Entry): Option<Key> {
    if e.isV2 then e.pref else None
  }

  // ---------- Registries: key -> the ids that carry it ----------

  type Registry = map<Key, set<Id>>

  function Members(reg: Registry, k: Key): set<Id> {
    if k in reg then reg[k] else {}
  }

  function Register(reg: Registry, k: Option<Key>, id: Id): Registry {
    if k.Some? then reg[k.value := Members(reg, k.value) + {id}] else reg
  }

  function Unregister(reg: Registry, k: Option<Key>, id: Id): Registry {
    if k.Some? && k.value in reg then
      var rest := reg[k.value] - {id};
      if rest == {} then reg - {k.value} else reg[k.value := rest]
    else reg
  }

  /** The registry holds exactly the entries' keys, and no empty sets. */
  ghost predicate RegistryOk(entries: Entries, reg: Registry, key: Entry -> Option<Key>) {
    && (forall k :: k in reg ==> reg[k] != {})
    && (forall k, id {:trigger id in Members(reg, k)} ::
          id in Members(reg, k) <==> id in entries && key(entries[id]) == Some(k))
  }

  lemma RegisterOk(entries: Entries, reg: Registry, key: Entry -> Option<Key>, e: Entry)
    requires RegistryOk(entries, reg, key) && e.id !in entries
    ensures RegistryOk(entries[e.id := e], Register(reg, key(e), e.id), key)
  {
    var reg' := Register(reg, key(e), e.id);
    forall k, id
      ensures id in Members(reg', k) <==> id in entries[e.id := e] && key(entries[e.id := e][id]) == Some(k)
    {
      assert id in Members(reg, k) <==> id in entries && key(entries[id]) == Some(k);
    }
  }

  /** k may also be a key the entry was never registered under. */
  lemma UnregisterOk(entries: Entries, reg: Registry, key: Entry -> Option<Key>, id: Id, k: Option<Key>)
    requires RegistryOk(entries, reg, key) && id in entries
    requires key(entries[id]).Some? ==> k == key(entries[id])
    ensures RegistryOk(entries - {id}, Unregister(reg, k, id), key)
  {
    var reg' := Unregister(reg, k, id);
    forall j, x
      ensures x in Members(reg', j) <==> x in entries - {id} && key((entries - {id})[x]) == Some(j)
    {
      assert x in Members(reg, j) <==> x in entries && key(entries[x]) == Some(j);
    }
    forall j | j in reg'
      ensures reg'[j] != {}
    {
      assert j in reg;
    }
  }

  // ---------- Placement ----------

  /** The folder a reference leads to: the declared one if it is among the candidates, else the first one. */
  function Pick(candidates: set<Id>, declared: Id, me: Id): Option<Id> {
    if declared in candidates && declared != me then Some(declared)
    else if candidates - {me} != {} then Some(First(candidates - {me}))
    else None
  }

  /** Where an entry belongs, given the folders that carry its reference as their own and as their origin. */
  function Resolve(byRef: Registry, byFrom: Registry, e: Entry): Place {
    if !e.isV2 then (if e.parentId.Some? then e.parentId.value else "")
    else if e.parentId.None? then ""
    else if e.pref.None? then UNRESOLVED_PARENT
    else
      var direct := Pick(Members(byRef, e.pref.value), e.parentId.value, e.id);
      if direct.Some? then direct.value
      else
        var renamed := Pick(Members(byFrom, e.pref.value), e.parentId.value, e.id);
        if renamed.Some? then renamed.value else UNRESOLVED_PARENT
  }

  ghost function Carriers(entries: Entries, key: Entry -> Option<Key>, k: Key): set<Id> {
    set id | id in entries && key(entries[id]) == Some(k)
  }

  /** Where an entry belongs, computed from nothing but the set of entries. */
  ghost function PlaceOf(entries: Entries, e: Entry): Place {
    if !e.isV2 then (if e.parentId.Some? then e.parentId.value else "")
    else if e.parentId.None? then ""
    else if e.pref.None? then UNRESOLVED_PARENT
    else
      var own, origin := Carriers(entries, RefKey, e.pref.value) - {e.id}, Carriers(entries, FromKey, e.pref.value) - {e.id};
      if e.parentId.value in own then e.parentId.value
      else if own != {} then First(own)
      else if e.parentId.value in origin then e.parentId.value
      else if origin != {} then First(origin)
      else UNRESOLVED_PARENT
  }

  lemma ResolveIsPlaceOf(entries: Entries, byRef: Registry, byFrom: Registry, e: Entry)
    requires RegistryOk(entries, byRef, RefKey) && RegistryOk(entries, byFrom, FromKey)
    ensures Resolve(byRef, byFrom, e) == PlaceOf(entries, e)
  {
    if e.pref.Some? {
      assert Members(byRef, e.pref.value) == Carriers(entries, RefKey, e.pref.value);
      assert Members(byFrom, e.pref.value) == Carriers(entries, FromKey, e.pref.value);
    }
  }

  /** Only entries whose reference is one of the folder's keys can move when the folder comes or goes. */
  lemma PlaceUnaffected(entries: Entries, f: Entry, e: Entry)
    requires f.id !in entries
    requires PrefKey(e).Some? ==> PrefKey(e) != RefKey(f) && PrefKey(e) != FromKey(f)
    ensures PlaceOf(entries, e) == PlaceOf(entries[f.id := f], e)
  {
    if e.isV2 && e.pref.Some? {
      var k := e.pref.value;
      assert Carriers(entries[f.id := f], RefKey, k) == Carriers(entries, RefKey, k);
      assert Carriers(entries[f.id := f], FromKey, k) == Carriers(entries, FromKey, k);
    }
  }

  // ---------- Child lists and alias counts ----------

  function Kids(children: map<Place, seq<Id>>, pk: Place): seq<Id> {
    if pk in children then children[pk] else []
  }

  ghost predicate NoDuplicates(s: seq<Id>) {
    forall i, j :: 0 <= i < j < |s| ==> s[i] != s[j]
  }

  /** Each child list holds every entry placed there exactly once. */
  ghost predicate ChildrenOk(children: map<Place, seq<Id>>, placed: map<Id, Place>) {
    && (forall pk {:trigger Kids(children, pk)} :: NoDuplicates(Kids(children, pk)))
    && (forall pk, id {:trigger id in Kids(children, pk)} ::
          id in Kids(children, pk) <==> id in placed && placed[id] == pk)
  }

  /** The position of id, |s| if it is not there. */
  function Position(s: seq<Id>, id: Id): (i: nat)
    ensures i <= |s| && (i < |s| ==> s[i] == id) && (i == |s| ==> id !in s)
  {
    if s == [] || s[0] == id then 0 else 1 + Position(s[1..], id)
  }

  /** Drops position i; the last element takes its place. */
  function SwapRemove(s: seq<Id>, i: nat): seq<Id>
    requires i < |s|
  {
    s[i := s[|s| - 1]][..|s| - 1]
  }

  lemma SwapRemoveOk(s: seq<Id>, i: nat)
    requires i < |s| && NoDuplicates(s)
    ensures NoDuplicates(SwapRemove(s, i))
    ensures forall x :: x in SwapRemove(s, i) <==> x in s && x != s[i]
  {
    var r := SwapRemove(s, i);
    forall x | x in s && x != s[i]
      ensures x in r
    {
      var j :| 0 <= j < |s| && s[j] == x;
      if j == |s| - 1 {
        assert r[i] == x;
      } else {
        assert r[j] == x;
      }
    }
  }

  lemma ChildRemoved(children: map<Place, seq<Id>>, placed: map<Id, Place>, pk: Place, id: Id)
    requires ChildrenOk(children, placed) && id in placed && placed[id] == pk
    ensures var kids := Kids(children, pk);
            var i := Position(kids, id);
            i < |kids| && pk in children && ChildrenOk(children[pk := SwapRemove(kids, i)], placed - {id})
  {
    var kids := Kids(children, pk);
    var i := Position(kids, id);
    assert id in kids;
    SwapRemoveOk(kids, i);
    var children' := children[pk := SwapRemove(kids, i)];
    forall q
      ensures NoDuplicates(Kids(children', q))
    {
      assert NoDuplicates(Kids(children, q));
    }
    forall q, x
      ensures x in Kids(children', q) <==> x in placed - {id} && (placed - {id})[x] == q
    {
      assert x in Kids(children, q) <==> x in placed && placed[x] == q;
    }
  }

  lemma ChildAdded(children: map<Place, seq<Id>>, placed: map<Id, Place>, pk: Place, id: Id)
    requires ChildrenOk(children, placed) && id !in placed
    ensures ChildrenOk(children[pk := Kids(children, pk) + [id]], placed[id := pk])
  {
    var children' := children[pk := Kids(children, pk) + [id]];
    forall q
      ensures NoDuplicates(Kids(children', q))
    {
      assert NoDuplicates(Kids(children, q));
      assert id !in Kids(children, q);
    }
    forall q, x
      ensures x in Kids(children', q) <==> x in placed[id := pk] && placed[id := pk][x] == q
    {
      assert x in Kids(children, q) <==> x in placed && placed[x] == q;
    }
  }

  ghost function AliasedAt(aliased: set<Id>, placed: map<Id, Place>, pk: Place): set<Id> {
    set id | id in aliased && id in placed && placed[id] == pk
  }

  function Count(counts: map<Place, nat>, pk: Place): nat {
    if pk in counts then counts[pk] else 0
  }

  /** The counters say how many entries of each folder show an alias. */
  ghost predicate CountsOk(aliased: set<Id>, placed: map<Id, Place>, counts: map<Place, nat>) {
    forall pk {:trigger Count(counts, pk)} :: Count(counts, pk) == |AliasedAt(aliased, placed, pk)|
  }

  lemma AliasAdded(aliased: set<Id>, placed: map<Id, Place>, pk: Place, id: Id, q: Place)
    requires id in placed && placed[id] == pk && id !in aliased
    ensures |AliasedAt(aliased + {id}, placed, q)| == |AliasedAt(aliased, placed, q)| + if q == pk then 1 else 0
  {
    if q == pk {
      assert AliasedAt(aliased + {id}, placed, q) == AliasedAt(aliased, placed, q) + {id};
    } else {
      assert AliasedAt(aliased + {id}, placed, q) == AliasedAt(aliased, placed, q);
    }
  }

  lemma CountsFollowPlaced(aliased: set<Id>, placed: map<Id, Place>, placed': map<Id, Place>, counts: map<Place, nat>)
    requires CountsOk(aliased, placed, counts)
    requires forall id :: id in aliased ==>
               (id in placed <==> id in placed') && (id in placed ==> placed'[id] == placed[id])
    ensures CountsOk(aliased, placed', counts)
  {
    forall pk
      ensures Count(counts, pk) == |AliasedAt(aliased, placed', pk)|
    {
      assert AliasedAt(aliased, placed', pk) == AliasedAt(aliased, placed, pk);
    }
  }

  // ---------- The order in which compact renumbers ----------

  datatype Member = Member(number: nat, id: Id)

  predicate Before(a: Member, b: Member) {
    a.number < b.number || (a.number == b.number && Less(a.id, b.id))
  }

  ghost predicate Sorted(s: seq<Member>) {
    forall i, j :: 0 <= i < j < |s| ==> !Before(s[j], s[i])
  }

  lemma BeforeAsymmetric(a: Member, b: Member)
    requires Before(a, b)
    ensures !Before(b, a)
  {
    if a.number == b.number {
      LessAsymmetric(a.id, b.id);
    }
  }

  lemma BeforeTransitive(a: Member, b: Member, c: Member)
    requires !Before(b, a) && !Before(c, b)
    ensures !Before(c, a)
  {
    LessTotal(a.id, b.id);
    LessTotal(b.id, c.id);
    if Before(c, a) && a.number == b.number == c.number {
      if a.id == b.id || b.id == c.id {
        assert false;
      }
      LessTransitive(c.id, a.id, b.id);
      LessAsymmetric(c.id, b.id);
    }
  }

  function InsertSorted(s: seq<Member>, m: Member): seq<Member> {
    if s == [] || Before(m, s[0]) then [m] + s else [s[0]] + InsertSorted(s[1..], m)
  }

  function SortMembers(s: seq<Member>): seq<Member> {
    if s == [] then [] else InsertSorted(SortMembers(s[1..]), s[0])
  }

  ghost predicate AllDiffer(s: seq<Member>) {
    forall i, j :: 0 <= i < j < |s| ==> s[i] != s[j]
  }

  lemma {:induction false} InsertSortedOk(s: seq<Member>, m: Member)
    requires Sorted(s) && AllDiffer(s) && m !in s
    ensures var r := InsertSorted(s, m);
            Sorted(r) && AllDiffer(r) && forall x :: x in r <==> x in s || x == m
  {
    var r := InsertSorted(s, m);
    if s == [] {
    } else if Before(m, s[0]) {
      forall j | 0 <= j < |s|
        ensures !Before(s[j], m)
      {
        BeforeAsymmetric(m, s[0]);
        if j > 0 {
          BeforeTransitive(m, s[0], s[j]);
        }
      }
    } else {
      assert s == [s[0]] + s[1..];
      assert s[0] !in s[1..];
      InsertSortedOk(s[1..], m);
      assert r == [s[0]] + r[1..];
      forall j | 1 <= j < |r|
        ensures !Before(r[j], s[0]) && r[j] != s[0]
      {
        assert r[j] in r[1..];
      }
    }
  }

  /** Sorting keeps exactly the members it was given. */
  lemma {:induction false} SortMembersOk(s: seq<Member>)
    requires AllDiffer(s)
    ensures var r := SortMembers(s);
            Sorted(r) && AllDiffer(r) && forall x :: x in r <==> x in s
  {
    if s == [] {
    } else {
      assert s == [s[0]] + s[1..];
      SortMembersOk(s[1..]);
      InsertSortedOk(SortMembers(s[1..]), s[0]);
    }
  }

  /** The members of a group with the numbers they show: 1 for the own name. */
  ghost predicate IsRoster(ms: seq<Member>, t: Table, pk: Place, base: Name) {
    && AllDiffer(ms)
    && (forall m {:trigger m in ms} :: m in ms <==>
          m.id in t.Group(pk, base) && m.number == NumberShown(t, m.id))
  }

  ghost function Ids(ms: seq<Member>): set<Id> {
    set m | m in ms :: m.id
  }

  lemma RosterIds(ms: seq<Member>, t: Table, pk: Place, base: Name)
    requires IsRoster(ms, t, pk, base)
    ensures Ids(ms) == t.Group(pk, base)
    ensures forall i, j :: 0 <= i < j < |ms| ==> ms[i].id != ms[j].id
  {
    forall id | id in t.Group(pk, base)
      ensures id in Ids(ms)
    {
      assert Member(NumberShown(t, id), id) in ms;
    }
    forall i, j | 0 <= i < j < |ms|
      ensures ms[i].id != ms[j].id
    {
      assert ms[i] in ms && ms[j] in ms;
    }
  }

  /** The members from i on are member i and the members after it. */
  lemma RestOf(ms: seq<Member>, i: nat)
    requires i < |ms| && forall j, k :: 0 <= j < k < |ms| ==> ms[j].id != ms[k].id
    ensures ms[i] in ms && ms[i].id in Ids(ms[i..]) && Ids(ms[i..]) - {ms[i].id} == Ids(ms[i + 1..])
    ensures Ids(ms[i..]) <= Ids(ms) && (i > 0 ==> ms[0].id !in Ids(ms[i..]))
  {
    assert ms[i..] == [ms[i]] + ms[i + 1..];
    assert forall m :: m in ms[i..] ==> m in ms;
  }

  lemma MinusOneMore<V>(m: map<Id, V>, ids: set<Id>, id: Id, more: set<Id>)
    requires more == ids + {id}
    ensures m - ids - {id} == m - more
  {
  }

  /** The entry that shows the group's name as its own comes first. */
  lemma RealHolderFirst(ms: seq<Member>, t: Table, pk: Place, base: Name, id: Id)
    requires t.Ok({}, t.Group(pk, base)) && IsRoster(ms, t, pk, base) && Sorted(ms)
    requires id in t.Group(pk, base) && id !in t.display
    ensures ms != [] && ms[0].id == id
  {
    var m := Member(1, id);
    assert m in ms;
    var i :| 0 <= i < |ms| && ms[i] == m;
    assert ms[0] in ms;
    var first := ms[0].id;
    assert t.Holder(pk, t.Shown(first)) == Some(first) && t.Holder(pk, t.Shown(id)) == Some(id);
    assert first in t.display ==> t.IsAlias(first);
    assert first in t.display ==> Before(ms[i], ms[0]);
  }

  lemma RealHoldersFirst(ms: seq<Member>, t: Table, pk: Place, base: Name)
    requires t.Ok({}, t.Group(pk, base)) && IsRoster(ms, t, pk, base) && Sorted(ms) && ms != []
    ensures forall id :: id in t.Group(pk, base) && id !in t.display ==> id == ms[0].id
  {
    forall id | id in t.Group(pk, base) && id !in t.display
      ensures id == ms[0].id
    {
      RealHolderFirst(ms, t, pk, base, id);
    }
  }

  /** The number in the name an entry shows, 1 for its own name. */
  function NumberShown(t: Table, id: Id): nat {
    if id in t.display then t.display[id].number else 1
  }

  /** Of the entries of pk whose own name is base, x has the lowest number, or among equals the first id. */
  ghost predicate IsLowest(t: Table, pk: Place, base: Name, x: Id) {
    x in t.Group(pk, base) && forall y :: y in t.Group(pk, base) && y != x ==>
      NumberShown(t, x) < NumberShown(t, y) || (NumberShown(t, x) == NumberShown(t, y) && Less(x, y))
  }

  lemma LowestFirst(ms: seq<Member>, t: Table, pk: Place, base: Name)
    requires IsRoster(ms, t, pk, base) && Sorted(ms) && ms != []
    ensures forall x :: IsLowest(t, pk, base, x) ==> x == ms[0].id
  {
    forall x | IsLowest(t, pk, base, x)
      ensures x == ms[0].id
    {
      assert Member(NumberShown(t, x), x) in ms && ms[0] in ms;
      var k :| 0 <= k < |ms| && ms[k] == Member(NumberShown(t, x), x);
      assert ms[0].number == NumberShown(t, ms[0].id);
    }
  }

  class VaultIndex {
    var entries: Entries
    var childrenByParent: map<Place, seq<Id>>
    var nameIndex: map<Place, map<Name, Id>>
    var placed: map<Id, Place>
    var foldersByRef: Registry
    var foldersByFrom: Registry
    var dependents: Registry
    var display: map<Id, Alias>
    var aliasedIn: map<Place, nat>

    ghost function View(): Table
      reads this
    {
      Table(map id | id in entries :: entries[id].fsName, placed, nameIndex, display)
    }

    /** Names, child lists and counters fit the recorded places; pending entries hold no name yet. */
    ghost predicate Settled(pending: set<Id>, exempt: set<Id>)
      reads this
    {
      && View().Ok(pending, exempt)
      && CountsOk(display.Keys, placed, aliasedIn)
    }

    ghost predicate RegistriesOk()
      reads this
    {
      && (forall id :: id in entries ==> entries[id].id == id)
      && RegistryOk(entries, foldersByRef, RefKey)
      && RegistryOk(entries, foldersByFrom, FromKey)
      && RegistryOk(entries, dependents, PrefKey)
    }

    ghost predicate Consistent()
      reads this
    {
      RegistriesOk() && Settled({}, {}) && ChildrenOk(childrenByParent, placed)
    }

    /** Everything the index keeps is what its entries alone determine, except how colliding names were numbered. */
    ghost predicate Valid()
      reads this
    {
      && Consistent()
      && placed.Keys == entries.Keys
      && (forall id :: id in entries ==> placed[id] == PlaceOf(entries, entries[id]))
    }

    constructor ()
      ensures Valid() && entries == map[]
    {
      entries, childrenByParent, nameIndex, placed := map[], map[], map[], map[];
      foldersByRef, foldersByFrom, dependents := map[], map[], map[];
      display, aliasedIn := map[], map[];
    }

    /** The name the entry is listed under. */
    function ShownName(id: Id): (name: Option<Name>)
      reads this
      requires display.Keys <= entries.Keys
      ensures name == if id in entries then Some(View().Shown(id)) else None
    {
      if id in display then Some(display[id].name)
      else if id in entries then Some(entries[id].fsName)
      else None
    }

    method SetAlias(pk: Place, id: Id, alias: Option<Alias>, ghost where: map<Id, Place>)
      requires id in where && where[id] == pk && CountsOk(display.Keys, where, aliasedIn)
      modifies this`display, this`aliasedIn
      ensures CountsOk(display.Keys, where, aliasedIn)
      ensures display == if alias.Some? then old(display)[id := alias.value] else old(display) - {id}
    {
      var had := id in display;
      ghost var before := display.Keys - {id};
      assert display.Keys == if had then before + {id} else before;
      if alias.Some? {
        display := display[id := alias.value];
        if !had {
          aliasedIn := aliasedIn[pk := Count(aliasedIn, pk) + 1];
        }
      } else {
        display := display - {id};
        if had && pk in aliasedIn {
          aliasedIn := aliasedIn[pk := if aliasedIn[pk] > 0 then aliasedIn[pk] - 1 else 0];
        }
      }
      assert display.Keys == if alias.Some? then before + {id} else before;
      forall q
        ensures Count(aliasedIn, q) == |AliasedAt(display.Keys, where, q)|
      {
        assert Count(old(aliasedIn), q) == |AliasedAt(old(display).Keys, where, q)|;
        AliasAdded(before, where, pk, id, q);
      }
    }
  
    /** Finds a name for id at pk. A taken name is taken over from an entry that only shows it as an alias, which is
        then placed anew; a name that is real for its holder is left alone and id shows a numbered alias. */
    method PlaceName(pk: Place, id: Id, ghost pending: set<Id>)
      requires Settled(pending, {}) && id in pending && placed[id] == pk
      modifies this`nameIndex, this`display, this`aliasedIn
      ensures Settled(pending - {id}, {})
      ensures SameElsewhere(old(View()), View(), pk)
      ensures forall x :: x in placed && x !in pending && x !in old(display) ==> x !in display
      ensures old(var h := View().Holder(pk, View().own[id]); h.None? || h.value in View().display) ==> id !in display
      ensures id in display ==>
                forall k: nat :: 2 <= k < display[id].number ==> NumberedName(View().own[id], k) in View().Slots(pk)
      decreases AliasHolders(View(), pk)
    {
      var base := entries[id].fsName;
      var names := if pk in nameIndex then nameIndex[pk] else map[];
      ghost var t := View();
      if base !in names {
        nameIndex := nameIndex[pk := names[base := id]];
        SetAlias(pk, id, None, placed);
        TakenOk(t, pk, id, pending);
        assert View() == t.Taken(pk, id);
      } else if names[base] != id && names[base] in display {
        var h := names[base];
        nameIndex := nameIndex[pk := names[base := id]];
        SetAlias(pk, id, None, placed);
        assert t.Holder(pk, base) == Some(h);
        TakenOk(t, pk, id, pending);
        assert View() == t.Taken(pk, id);
        AliasHoldersDrop(t, pk, id);
        PlaceName(pk, h, pending - {id} + {h});
        assert pending - {id} + {h} - {h} == pending - {id};
      } else {
        assert t.Holder(pk, base) == Some(names[base]);
        var name, n := FreeNumber(names.Keys, base);
        nameIndex := nameIndex[pk := names[name := id]];
        SetAlias(pk, id, Some(Alias(name, n)), placed);
        AliasedOk(t, pk, id, Alias(name, n), pending);
        assert View() == t.Aliased(pk, id, Alias(name, n));
      }
    }
  
    /** The entries of pk whose own name is base, with their numbers. */
    method GroupMembers(pk: Place, base: Name) returns (ms: seq<Member>)
      requires ChildrenOk(childrenByParent, placed) && placed.Keys <= entries.Keys
      ensures IsRoster(ms, View(), pk, base)
    {
      ms := [];
      var siblings := Kids(childrenByParent, pk);
      ghost var t := View();
      for i := 0 to |siblings|
        invariant AllDiffer(ms)
        invariant forall m {:trigger m in ms} :: m in ms <==>
                    m.id in siblings[..i] && m.id in t.own && t.own[m.id] == base &&
                    m.number == if m.id in display then display[m.id].number else 1
      {
        var sid := siblings[i];
        assert sid in Kids(childrenByParent, pk);
        assert siblings[..i + 1] == siblings[..i] + [sid];
        assert sid !in siblings[..i];
        if sid in entries && entries[sid].fsName == base {
          var m := Member(if sid in display then display[sid].number else 1, sid);
          assert m !in ms;
          ms := ms + [m];
        }
      }
      assert siblings[..|siblings|] == siblings;
    }

    /** Takes away the name id shows. */
    method ClearName(pk: Place, id: Id, ghost pending: set<Id>, ghost exempt: set<Id>)
      requires Settled(pending, exempt) && id in placed && placed[id] == pk && id !in pending
      requires View().Group(pk, View().own[id]) <= exempt
      modifies this`nameIndex, this`display, this`aliasedIn
      ensures Settled(pending + {id}, exempt)
      ensures display == old(display) - {id} && SameElsewhere(old(View()), View(), pk)
      ensures View().own == old(View().own)
    {
      ghost var t := View();
      ClearedOk(t, pk, id, pending, exempt);
      var name := ShownName(id);
      if name.Some? && pk in nameIndex && name.value in nameIndex[pk] && nameIndex[pk][name.value] == id {
        nameIndex := nameIndex[pk := nameIndex[pk] - {name.value}];
      }
      SetAlias(pk, id, None, placed);
      assert View() == t.Cleared(pk, id);
    }
  
    /** Renumbers the entries of pk whose own name is base: they give up their names and are placed again, lowest
        number first. An entry that shows its own name keeps it. */
    method Compact(pk: Place, base: Name)
      requires Settled({}, View().Group(pk, base)) && ChildrenOk(childrenByParent, placed)
      modifies this`nameIndex, this`display, this`aliasedIn
      ensures Settled({}, {})
      ensures SameElsewhere(old(View()), View(), pk)
      ensures forall x :: x in placed && x !in old(display) ==> x !in display
      ensures forall x :: IsLowest(old(View()), pk, base, x) ==> x !in display
      ensures old(View()).Group(pk, base) == {} ==> display == old(display)
    {
      ghost var t := View();
      var members := GroupMembers(pk, base);
      RosterIds(members, t, pk, base);
      if members == [] {
        return;
      }
      members := Sort(members, pk, base);
      RosterIds(members, t, pk, base);
      RealHoldersFirst(members, t, pk, base);
      LowestFirst(members, t, pk, base);
      ClearAll(pk, base, members);
      PlaceAll(pk, base, members);
    }

    method Sort(ms: seq<Member>, ghost pk: Place, ghost base: Name) returns (r: seq<Member>)
      requires IsRoster(ms, View(), pk, base)
      ensures IsRoster(r, View(), pk, base) && Sorted(r) && (ms != [] ==> r != [])
    {
      SortMembersOk(ms);
      r := SortMembers(ms);
      assert ms != [] ==> ms[0] in r;
    }

    method ClearAll(pk: Place, base: Name, ms: seq<Member>)
      requires Settled({}, View().Group(pk, base))
      requires IsRoster(ms, View(), pk, base)
      modifies this`nameIndex, this`display, this`aliasedIn
      ensures Settled(old(View().Group(pk, base)), {})
      ensures SameElsewhere(old(View()), View(), pk)
      ensures display == old(display) - old(View().Group(pk, base))
    {
      ghost var t := View();
      ghost var group := t.Group(pk, base);
      RosterIds(ms, t, pk, base);
      for i := 0 to |ms|
        invariant Settled(Ids(ms[..i]), group)
        invariant SameElsewhere(t, View(), pk)
        invariant display == old(display) - Ids(ms[..i])
      {
        ClearOne(pk, base, ms, i, group);
        MinusOneMore(t.display, Ids(ms[..i]), ms[i].id, Ids(ms[..i + 1]));
      }
      assert ms[..|ms|] == ms;
      assert group + group == group + {};
    }

    method ClearOne(pk: Place, base: Name, ms: seq<Member>, i: nat, ghost group: set<Id>)
      requires i < |ms| && group == View().Group(pk, base) == Ids(ms) && Settled(Ids(ms[..i]), group)
      requires forall j, k :: 0 <= j < k < |ms| ==> ms[j].id != ms[k].id
      modifies this`nameIndex, this`display, this`aliasedIn
      ensures Settled(Ids(ms[..i + 1]), group)
      ensures SameElsewhere(old(View()), View(), pk)
      ensures display == old(display) - {ms[i].id} && Ids(ms[..i + 1]) == Ids(ms[..i]) + {ms[i].id}
    {
      assert ms[i] in ms && ms[i].id in group;
      assert ms[..i + 1] == ms[..i] + [ms[i]];
      ClearName(pk, ms[i].id, Ids(ms[..i]), group);
    }

    method PlaceAll(pk: Place, base: Name, ms: seq<Member>)
      requires ms != [] && Settled(View().Group(pk, base), {})
      requires Ids(ms) == View().Group(pk, base) && forall i, j :: 0 <= i < j < |ms| ==> ms[i].id != ms[j].id
      modifies this`nameIndex, this`display, this`aliasedIn
      ensures Settled({}, {})
      ensures SameElsewhere(old(View()), View(), pk)
      ensures ms[0].id !in display
      ensures forall x :: x in placed && x !in Ids(ms) && x !in old(display) ==> x !in display
    {
      ghost var t := View();
      assert ms[0..] == ms;
      for i := 0 to |ms|
        invariant Settled(Ids(ms[i..]), {})
        invariant SameElsewhere(t, View(), pk)
        invariant i > 0 ==> ms[0].id !in display
        invariant forall x :: x in placed && x !in Ids(ms) && x !in old(display) ==> x !in display
      {
        PlaceOne(pk, base, ms, i);
      }
    }

    method PlaceOne(pk: Place, base: Name, ms: seq<Member>, i: nat)
      requires i < |ms| && Ids(ms) == View().Group(pk, base) && Settled(Ids(ms[i..]), {})
      requires forall j, k :: 0 <= j < k < |ms| ==> ms[j].id != ms[k].id
      modifies this`nameIndex, this`display, this`aliasedIn
      ensures Settled(Ids(ms[i + 1..]), {})
      ensures SameElsewhere(old(View()), View(), pk)
      ensures i == 0 || ms[0].id !in old(display) ==> ms[0].id !in display
      ensures forall x :: x in placed && x !in Ids(ms) && x !in old(display) ==> x !in display
    {
      RestOf(ms, i);
      assert ms[0] in ms && ms[0].id in View().Group(pk, base) && ms[i].id in View().Group(pk, base);
      if i == 0 {
        assert ms[0..] == ms;
        GroupNameUnreal(View(), pk, base);
      }
      PlaceName(pk, ms[i].id, Ids(ms[i..]));
    }
  
    /** The entry shows its own name, and no other in its folder bears that name. */
    ghost predicate OnlyBearer(id: Id)
      reads this
    {
      id in placed && id in entries && id !in display && View().Group(placed[id], entries[id].fsName) == {id}
    }

    /** Takes an entry out of its folder: its name, its alias and its child list entry go, and names are renumbered
        where that frees one. No other entry loses its own name. */
    method Detach(id: Id)
      requires Settled({}, {}) && ChildrenOk(childrenByParent, placed)
      modifies this`placed, this`childrenByParent, this`nameIndex, this`display, this`aliasedIn
      ensures placed == old(placed) - {id}
      ensures Settled({}, {}) && ChildrenOk(childrenByParent, placed)
      ensures forall x :: x in placed && x !in old(display) ==> x !in display
      ensures old(OnlyBearer(id)) ==> display == old(display)
    {
      if id !in placed {
        return;
      }
      var pk, base := placed[id], entries[id].fsName;
      var shown, wasAlias := ShownName(id).value, id in display;
      TakeOut(pk, id, shown);
      ghost var t := old(View());
      if !wasAlias && Count(aliasedIn, pk) == 0 {
        NoAliasesAt(t, pk, id, aliasedIn);
        return;
      }
      SettleNames(pk, base, shown, t, id);
    }

    /** Numbers again the entries that may have lost a name, or can have one back, now that id has left. */
    method SettleNames(pk: Place, base: Name, shown: Name, ghost t: Table, ghost id: Id)
      requires t.Ok({}, {}) && id in t.placed && t.placed[id] == pk && t.own[id] == base && t.Shown(id) == shown
      requires View() == t.Removed(pk, id)
      requires CountsOk(display.Keys, placed, aliasedIn) && ChildrenOk(childrenByParent, placed)
      modifies this`nameIndex, this`display, this`aliasedIn
      ensures Settled({}, {})
      ensures forall x :: x in placed && x !in old(display) ==> x !in display
      ensures shown == base && t.Group(pk, base) == {id} ==> display == old(display)
    {
      RemovedOk(t, pk, id);
      assert View().Group(pk, base) == t.Group(pk, base) - {id};
      Compact(pk, base);
      assert View().Group(pk, base) == t.Group(pk, base) - {id};
      if pk !in nameIndex || shown !in nameIndex[pk] {
        Compact(pk, shown);
      }
    }

    method TakeOut(pk: Place, id: Id, shown: Name)
      requires Settled({}, {}) && ChildrenOk(childrenByParent, placed)
      requires id in placed && placed[id] == pk && shown == View().Shown(id)
      modifies this`placed, this`childrenByParent, this`nameIndex, this`display, this`aliasedIn
      ensures View() == old(View()).Removed(pk, id)
      ensures CountsOk(display.Keys, placed, aliasedIn) && ChildrenOk(childrenByParent, placed)
    {
      ghost var t := View();
      placed := placed - {id};
      SetAlias(pk, id, None, t.placed);
      CountsFollowPlaced(display.Keys, t.placed, placed, aliasedIn);
      ChildRemoved(childrenByParent, t.placed, pk, id);
      if pk in childrenByParent {
        var v := childrenByParent[pk];
        var pos := Position(v, id);
        if pos < |v| {
          childrenByParent := childrenByParent[pk := SwapRemove(v, pos)];
        }
      }
      if pk in nameIndex && shown in nameIndex[pk] && nameIndex[pk][shown] == id {
        nameIndex := nameIndex[pk := nameIndex[pk] - {shown}];
      }
    }

    /** Puts an entry into the folder its references lead to, under the name it can get there. */
    method Attach(id: Id)
      requires RegistriesOk() && Settled({}, {}) && ChildrenOk(childrenByParent, placed)
      requires id in entries && id !in placed
      modifies this`placed, this`childrenByParent, this`nameIndex, this`display, this`aliasedIn
      ensures placed == old(placed)[id := PlaceOf(entries, entries[id])]
      ensures Settled({}, {}) && ChildrenOk(childrenByParent, placed)
      ensures forall x :: x in old(placed) && x !in old(display) ==> x !in display
      ensures id in display ==>
                forall k: nat :: 2 <= k < display[id].number ==> NumberedName(View().own[id], k) in View().Slots(placed[id])
    {
      var pk := Resolve(foldersByRef, foldersByFrom, entries[id]);
      ResolveIsPlaceOf(entries, foldersByRef, foldersByFrom, entries[id]);
      ghost var t := View();
      ChildAdded(childrenByParent, placed, pk, id);
      PlacedOk(t, pk, id);
      childrenByParent := childrenByParent[pk := Kids(childrenByParent, pk) + [id]];
      placed := placed[id := pk];
      CountsFollowPlaced(display.Keys, t.placed, placed, aliasedIn);
      assert View() == t.(placed := placed);
      PlaceName(pk, id, {id});
      assert {id} - {id} == {};
    }
  
    /** Places again every entry that refers to one of the keys, in id order. */
    method ReattachDependents(key1: Option<Key>, key2: Option<Key>)
      requires Consistent() && placed.Keys == entries.Keys
      requires forall x :: x in entries && x !in Dependents(dependents, key1, key2) ==>
                 placed[x] == PlaceOf(entries, entries[x])
      modifies this`placed, this`childrenByParent, this`nameIndex, this`display, this`aliasedIn
      ensures Valid()
    {
      var ids := Dependents(dependents, key1, key2);
      while ids != {}
        invariant Consistent() && placed.Keys == entries.Keys
        invariant forall x :: x in entries && x !in ids ==> placed[x] == PlaceOf(entries, entries[x])
        decreases ids
      {
        var id := First(ids);
        ids := ids - {id};
        if id in entries {
          Reattach(id);
        }
      }
    }

    method Reattach(id: Id)
      requires Consistent() && placed.Keys == entries.Keys && id in entries
      modifies this`placed, this`childrenByParent, this`nameIndex, this`display, this`aliasedIn
      ensures Consistent() && placed == old(placed)[id := PlaceOf(entries, entries[id])]
    {
      Detach(id);
      Attach(id);
    }

    /** Adds an entry unless its id is already known. */
    method Insert(e: Entry) returns (added: bool)
      requires Valid()
      modifies this
      ensures Valid()
      ensures added <==> e.id !in old(entries)
      ensures entries == if added then old(entries)[e.id := e] else old(entries)
      ensures RefKey(e).None? && FromKey(e).None? ==>
                forall x :: x in old(entries) && x !in old(display) ==> x !in display
      ensures added && RefKey(e).None? && FromKey(e).None? && e.id in display ==>
                forall k: nat :: 2 <= k < display[e.id].number ==> NumberedName(e.fsName, k) in View().Slots(placed[e.id])
    {
      if e.id in entries {
        return false;
      }
      PlacesBut(entries, placed, dependents, e);
      Enlist(e);
      Attach(e.id);
      if RefKey(e).Some? || FromKey(e).Some? {
        ReattachDependents(RefKey(e), FromKey(e));
      }
      return true;
    }

    /** Records the entry and its keys; it is not placed yet. */
    method Enlist(e: Entry)
      requires Consistent() && e.id !in entries && placed.Keys <= entries.Keys
      modifies this`entries, this`foldersByRef, this`foldersByFrom, this`dependents
      ensures Consistent()
      ensures entries == old(entries)[e.id := e]
      ensures dependents == Register(old(dependents), PrefKey(e), e.id)
    {
      ghost var t := View();
      OwnGrowsOk(t, e.id, e.fsName);
      EnlistKeys(e);
      assert View() == t.(own := t.own[e.id := e.fsName]);
    }

    method EnlistKeys(e: Entry)
      requires RegistriesOk() && e.id !in entries
      modifies this`entries, this`foldersByRef, this`foldersByFrom, this`dependents
      ensures RegistriesOk()
      ensures entries == old(entries)[e.id := e]
      ensures dependents == Register(old(dependents), PrefKey(e), e.id)
    {
      RegisterOk(entries, foldersByRef, RefKey, e);
      RegisterOk(entries, foldersByFrom, FromKey, e);
      RegisterOk(entries, dependents, PrefKey, e);
      foldersByRef := Register(foldersByRef, RefKey(e), e.id);
      foldersByFrom := Register(foldersByFrom, FromKey(e), e.id);
      dependents := Register(dependents, PrefKey(e), e.id);
      entries := entries[e.id := e];
    }

    /** Drops an entry, if it is known. */
    method Remove(id: Id) returns (removed: Option<Entry>)
      requires Valid()
      modifies this
      ensures Valid()
      ensures removed == if id in old(entries) then Some(old(entries)[id]) else None
      ensures entries == old(entries) - {id}
      ensures old(OnlyBearer(id)) && RefKey(old(entries)[id]).None? && FromKey(old(entries)[id]).None? ==>
                display == old(display)
    {
      Detach(id);
      if id !in entries {
        return None;
      }
      var e := entries[id];
      PlacesWithout(entries, old(placed), dependents, e);
      Delist(e);
      if RefKey(e).Some? || FromKey(e).Some? {
        ReattachDependents(RefKey(e), FromKey(e));
      }
      return Some(e);
    }

    /** Forgets an entry that is no longer placed. Its reference is unregistered whatever its format. */
    method Delist(e: Entry)
      requires Consistent() && e.id in entries && entries[e.id] == e && e.id !in placed
      modifies this`entries, this`foldersByRef, this`foldersByFrom, this`dependents
      ensures Consistent()
      ensures entries == old(entries) - {e.id}
      ensures dependents == Unregister(old(dependents), e.pref, e.id)
    {
      UnregisterOk(entries, foldersByRef, RefKey, e.id, RefKey(e));
      UnregisterOk(entries, foldersByFrom, FromKey, e.id, FromKey(e));
      UnregisterOk(entries, dependents, PrefKey, e.id, e.pref);
      ghost var t := View();
      OwnShrinksOk(t, e.id);
      entries := entries - {e.id};
      foldersByRef := Unregister(foldersByRef, RefKey(e), e.id);
      foldersByFrom := Unregister(foldersByFrom, FromKey(e), e.id);
      dependents := Unregister(dependents, e.pref, e.id);
      assert View() == t.(own := t.own - {e.id});
    }
  
    /** The entry placed at pk and shown there as name, if there is one. */
    ghost predicate Finds(pk: Place, name: Name, found: Option<Entry>)
      reads this
      requires Valid()
    {
      && (found.Some? <==> exists id :: id in placed && placed[id] == pk && View().Shown(id) == name)
      && (forall id :: id in placed && placed[id] == pk && View().Shown(id) == name ==> found == Some(entries[id]))
    }

    /** Each entry placed at pk, under the name that leads to it there, and nothing else. */
    ghost predicate ListsAll(pk: Place, kids: seq<ChildInfo>)
      reads this
      requires Valid()
    {
      && (forall id :: id in placed && placed[id] == pk ==>
            ChildInfo(id, View().Shown(id), entries[id].isFolder) in kids)
      && (forall kid :: kid in kids ==>
            && kid.id in placed && placed[kid.id] == pk && kid.name == View().Shown(kid.id)
            && View().Holder(pk, kid.name) == Some(kid.id))
    }

    /** Looks a shown name up in a folder. */
    method FindChild(parentId: Option<Id>, name: Name) returns (found: Option<Entry>)
      requires Valid()
      ensures Finds(if parentId.Some? then parentId.value else "", name, found)
    {
      var pk := if parentId.Some? then parentId.value else "";
      assert forall id :: id in placed && placed[id] == pk && View().Shown(id) == name ==>
                            View().Holder(pk, name) == Some(id);
      if pk in nameIndex && name in nameIndex[pk] {
        var id := nameIndex[pk][name];
        assert View().Holder(pk, name) == Some(id);
        return Some(entries[id]);
      }
      return None;
    }

    /** Lists a folder. No two entries are listed under one name, and looking a listed name up finds its entry. */
    method ListChildren(parentId: Option<Id>) returns (kids: seq<ChildInfo>)
      requires Valid()
      ensures forall i, j :: 0 <= i < j < |kids| ==> kids[i].name != kids[j].name
      ensures ListsAll(if parentId.Some? then parentId.value else "", kids)
    {
      kids := [];
      var pk := if parentId.Some? then parentId.value else "";
      var ids := Kids(childrenByParent, pk);
      for i := 0 to |ids|
        invariant |kids| == i
        invariant forall k :: 0 <= k < i ==> ids[k] in placed && placed[ids[k]] == pk &&
                                             kids[k] == ChildInfo(ids[k], View().Shown(ids[k]), entries[ids[k]].isFolder)
      {
        assert ids[i] in Kids(childrenByParent, pk);
        var name := ShownName(ids[i]);
        if name.Some? && ids[i] in entries {
          kids := kids + [ChildInfo(ids[i], name.value, entries[ids[i]].isFolder)];
        }
      }
      forall id | id in placed && placed[id] == pk
        ensures ChildInfo(id, View().Shown(id), entries[id].isFolder) in kids
      {
        assert id in Kids(childrenByParent, pk);
        var k :| 0 <= k < |ids| && ids[k] == id;
        assert kids[k].id == id;
      }
      assert NoDuplicates(Kids(childrenByParent, pk));
      NamesAreOneToOne(View(), pk);
    }
  }

  datatype ChildInfo = ChildInfo(id: Id, name: Name, isFolder: bool)

  // ---------- What the set of entries determines ----------

  /** However two indexes came to hold the same entries, they agree on every place, every folder's children, every
      registry and every alias count. */
  lemma EntriesDetermineIndex(a: VaultIndex, b: VaultIndex)
    requires a.Valid() && b.Valid() && a.entries == b.entries
    ensures a.placed == b.placed
    ensures a.foldersByRef == b.foldersByRef && a.foldersByFrom == b.foldersByFrom && a.dependents == b.dependents
    ensures forall pk, id :: id in Kids(a.childrenByParent, pk) <==> id in Kids(b.childrenByParent, pk)
    ensures forall pk :: |Kids(a.childrenByParent, pk)| == |Kids(b.childrenByParent, pk)|
    ensures forall pk :: Count(a.aliasedIn, pk) == Count(b.aliasedIn, pk)
  {
    RegistryDetermined(a.entries, a.foldersByRef, b.foldersByRef, RefKey);
    RegistryDetermined(a.entries, a.foldersByFrom, b.foldersByFrom, FromKey);
    RegistryDetermined(a.entries, a.dependents, b.dependents, PrefKey);
    assert a.placed == b.placed;
    forall pk
      ensures forall id :: id in Kids(a.childrenByParent, pk) <==> id in Kids(b.childrenByParent, pk)
      ensures |Kids(a.childrenByParent, pk)| == |Kids(b.childrenByParent, pk)|
    {
      ChildrenDetermined(a.childrenByParent, b.childrenByParent, a.placed, pk);
    }
    forall pk
      ensures Count(a.aliasedIn, pk) == Count(b.aliasedIn, pk)
    {
      AliasCountDetermined(a.View(), a.aliasedIn, pk);
      AliasCountDetermined(b.View(), b.aliasedIn, pk);
      assert EntriesAt(a.View(), pk) == EntriesAt(b.View(), pk);
      assert OwnNamesAt(a.View(), pk) == OwnNamesAt(b.View(), pk);
    }
  }

  lemma ChildrenDetermined(a: map<Place, seq<Id>>, b: map<Place, seq<Id>>, placed: map<Id, Place>, pk: Place)
    requires ChildrenOk(a, placed) && ChildrenOk(b, placed)
    ensures forall id :: id in Kids(a, pk) <==> id in Kids(b, pk)
    ensures |Kids(a, pk)| == |Kids(b, pk)|
  {
    var s, t := Kids(a, pk), Kids(b, pk);
    forall id
      ensures id in s <==> id in t
    {
      assert id in Kids(a, pk) <==> id in placed && placed[id] == pk;
      assert id in Kids(b, pk) <==> id in placed && placed[id] == pk;
    }
    assert NoDuplicates(Kids(a, pk)) && NoDuplicates(Kids(b, pk));
    SameLength(s, t);
  }

  lemma RegistryDetermined(entries: Entries, a: Registry, b: Registry, key: Entry -> Option<Key>)
    requires RegistryOk(entries, a, key) && RegistryOk(entries, b, key)
    ensures a == b
  {
    forall k
      ensures Members(a, k) == Members(b, k)
      ensures k in a <==> k in b
    {
      forall id
        ensures id in Members(a, k) <==> id in Members(b, k)
      {
      }
      assert k in a <==> Members(a, k) != {};
      assert k in b <==> Members(b, k) != {};
    }
    forall k | k in a
      ensures a[k] == b[k]
    {
      assert a[k] == Members(a, k) && b[k] == Members(b, k);
    }
  }

  lemma {:induction false} SameLength(s: seq<Id>, t: seq<Id>)
    requires NoDuplicates(s) && NoDuplicates(t) && forall id :: id in s <==> id in t
    ensures |s| == |t|
  {
    SizeOfElements(s);
    SizeOfElements(t);
    assert (set id | id in s) == (set id | id in t);
  }

  lemma {:induction false} SizeOfElements(s: seq<Id>)
    requires NoDuplicates(s)
    ensures |set id | id in s| == |s|
  {
    if s == [] {
    } else {
      SizeOfElements(s[1..]);
      assert s[0] !in s[1..];
      assert (set id | id in s) == {s[0]} + (set id | id in s[1..]);
    }
  }

  ghost function EntriesAt(t: Table, pk: Place): set<Id> {
    set id | id in t.placed && t.placed[id] == pk && id in t.own
  }

  ghost function AliasesAt(t: Table, pk: Place): set<Id> {
    set id | id in t.display && id in EntriesAt(t, pk)
  }

  ghost function OwnNamesAt(t: Table, pk: Place): set<Name> {
    set id | id in EntriesAt(t, pk) :: t.own[id]
  }

  /** Exactly one entry per distinct own name shows it; all the others are aliases. */
  lemma AliasCountDetermined(t: Table, counts: map<Place, nat>, pk: Place)
    requires t.Ok({}, {}) && CountsOk(t.display.Keys, t.placed, counts)
    ensures Count(counts, pk) == |EntriesAt(t, pk)| - |OwnNamesAt(t, pk)|
  {
    var plain := EntriesAt(t, pk) - AliasesAt(t, pk);
    OwnNamesShown(t, pk, plain);
    forall x, y | x in plain && y in plain && t.own[x] == t.own[y]
      ensures x == y
    {
      assert t.Shown(x) == t.Shown(y);
    }
    InjectiveImage(plain, t.own);
    assert EntriesAt(t, pk) == plain + AliasesAt(t, pk);
    assert AliasedAt(t.display.Keys, t.placed, pk) == AliasesAt(t, pk);
  }

  lemma OwnNamesShown(t: Table, pk: Place, plain: set<Id>)
    requires t.Ok({}, {}) && plain == EntriesAt(t, pk) - AliasesAt(t, pk)
    ensures OwnNamesAt(t, pk) == set id | id in plain :: t.own[id]
  {
    forall name | name in OwnNamesAt(t, pk)
      ensures name in set id | id in plain :: t.own[id]
    {
      var id :| id in EntriesAt(t, pk) && t.own[id] == name;
      RealNameIsShown(t, id);
      assert t.Holder(pk, name).value in plain;
    }
  }

  lemma {:induction false} InjectiveImage(s: set<Id>, own: map<Id, Name>)
    requires s <= own.Keys && forall x, y :: x in s && y in s && own[x] == own[y] ==> x == y
    ensures |set id | id in s :: own[id]| == |s|
  {
    if x :| x in s {
      InjectiveImage(s - {x}, own);
      assert (set id | id in s :: own[id]) == (set id | id in s - {x} :: own[id]) + {own[x]};
    }
  }

  lemma NoAliasesAt(t: Table, pk: Place, id: Id, counts: map<Place, nat>)
    requires t.Ok({}, {}) && id in t.placed && t.placed[id] == pk && id !in t.display
    requires CountsOk(t.Removed(pk, id).display.Keys, t.Removed(pk, id).placed, counts) && Count(counts, pk) == 0
    ensures t.Removed(pk, id).Ok({}, {})
  {
    var u := t.Removed(pk, id);
    assert AliasedAt(u.display.Keys, u.placed, pk) == {};
    forall x | x in t.display
      ensures t.placed[x] != pk
    {
      assert x !in AliasedAt(u.display.Keys, u.placed, pk);
    }
    NothingUnsettled(t, pk, id);
  }

  /** Everything registered as depending on one of the keys. */
  function Dependents(dependents: Registry, key1: Option<Key>, key2: Option<Key>): set<Id> {
    (if key1.Some? then Members(dependents, key1.value) else {}) +
    (if key2.Some? then Members(dependents, key2.value) else {})
  }

  /** Once e is known, the places of all other entries are right except those of its dependents. */
  lemma PlacesBut(entries: Entries, placed: map<Id, Place>, dependents: Registry, e: Entry)
    requires e.id !in entries && RegistryOk(entries, dependents, PrefKey)
    requires placed.Keys == entries.Keys && forall x :: x in entries ==> placed[x] == PlaceOf(entries, entries[x])
    ensures forall x :: x in entries && x !in Dependents(Register(dependents, PrefKey(e), e.id), RefKey(e), FromKey(e)) ==>
              placed[x] == PlaceOf(entries[e.id := e], entries[x])
  {
    var d := Dependents(Register(dependents, PrefKey(e), e.id), RefKey(e), FromKey(e));
    forall x | x in entries && x !in d
      ensures placed[x] == PlaceOf(entries[e.id := e], entries[x])
    {
      var k := PrefKey(entries[x]);
      assert k.Some? ==> x in Members(dependents, k.value);
      PlaceUnaffected(entries, e, entries[x]);
    }
  }

  /** Once e is gone, the places of all other entries are right except those of its dependents. */
  lemma PlacesWithout(entries: Entries, placed: map<Id, Place>, dependents: Registry, e: Entry)
    requires e.id in entries && entries[e.id] == e && RegistryOk(entries, dependents, PrefKey)
    requires placed.Keys == entries.Keys && forall x :: x in entries ==> placed[x] == PlaceOf(entries, entries[x])
    ensures forall x :: x in entries && x != e.id && x !in Dependents(Unregister(dependents, e.pref, e.id), RefKey(e), FromKey(e)) ==>
              placed[x] == PlaceOf(entries - {e.id}, entries[x])
  {
    var rest := entries - {e.id};
    var d := Dependents(Unregister(dependents, e.pref, e.id), RefKey(e), FromKey(e));
    forall x | x in rest && x !in d
      ensures placed[x] == PlaceOf(rest, entries[x])
    {
      var k := PrefKey(entries[x]);
      assert k.Some? ==> x in Members(dependents, k.value);
      PlaceUnaffected(rest, e, entries[x]);
      assert rest[e.id := e] == entries;
    }
  }

  /** While its whole group is pending, a name can at most be an alias of its holder. */
  lemma GroupNameUnreal(t: Table, pk: Place, base: Name)
    requires t.Ok(t.Group(pk, base), {})
    ensures var h := t.Holder(pk, base); h.None? || h.value in t.display
  {
  }

  /** The names at pk that are only aliases of their holders; each takeover leaves one fewer. */
  ghost function AliasHolders(t: Table, pk: Place): set<Name> {
    set name | name in t.Slots(pk) && t.Slots(pk)[name] in t.display
  }

  lemma AliasHoldersDrop(t: Table, pk: Place, id: Id)
    requires id in t.own && t.Holder(pk, t.own[id]).Some? && t.Holder(pk, t.own[id]).value in t.display
    ensures AliasHolders(t.Taken(pk, id), pk) < AliasHolders(t, pk)
  {
    assert t.own[id] in AliasHolders(t, pk);
    assert t.own[id] !in AliasHolders(t.Taken(pk, id), pk);
  }

  // ---------- Any run ----------

  datatype Op = Add(e: Entry) | Drop(id: Id)

  /** The entries a run of insertions and removals leaves. */
  ghost function After(ops: seq<Op>): Entries {
    if ops == [] then map[]
    else
      var before := After(ops[..|ops| - 1]);
      match ops[|ops| - 1]
      case Add(e) => if e.id in before then before else before[e.id := e]
      case Drop(id) => before - {id}
  }

  /** Any run leaves a valid index of the entries it should hold. */
  method Replay(ops: seq<Op>) returns (index: VaultIndex)
    ensures fresh(index) && index.Valid() && index.entries == After(ops)
  {
    index := new VaultIndex();
    for i := 0 to |ops|
      invariant fresh(index) && index.Valid() && index.entries == After(ops[..i])
    {
      assert ops[..i + 1][..i] == ops[..i];
      match ops[i]
      case Add(e) => var _ := index.Insert(e);
      case Drop(id) => var _ := index.Remove(id);
    }
    assert ops[..|ops|] == ops;
  }
}
