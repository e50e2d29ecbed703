/** Which name each entry of a folder shows, and which entry each shown name leads to. */
module NameTable {
  import opened FsNames
  import opened Wrappers

  type Id = string

  /** The id of the containing folder, "" for the root. */
  type Place = string

  /** The numbered name an entry shows while another one holds its own. */
  datatype Alias = Alias(name: Name, number: nat)

  /** own: every entry's own file name; slots: per place, the entry each shown name leads to. */
  datatype Table = Table(
    own: map<Id, Name>, placed: map<Id, Place>, slots: map<Place, map<Name, Id>>, display: map<Id, Alias>)
  {
    ghost function Slots(pk: Place): map<Name, Id> {
      if pk in slots then slots[pk] else map[]
    }

    ghost function Holder(pk: Place, name: Name): Option<Id> {
      if name in Slots(pk) then Some(Slots(pk)[name]) else None
    }

    ghost function Shown(id: Id): Name
      requires id in own
    {
      if id in display then display[id].name else own[id]
    }

    /** The entry's own name is shown by an entry with that own name. */
    ghost predicate OwnNameIsReal(id: Id)
      requires id in own && id in placed
    {
      var h := Holder(placed[id], own[id]);
      h.Some? && h.value !in display
    }

    ghost predicate IsAlias(id: Id)
      requires id in own && id in display
    {
      var a := display[id];
      a.number >= 2 && a.name == NumberedName(own[id], a.number) && a.name != own[id]
    }

    /** Names lead to entries: every slot leads to an entry placed there that shows that name. */
    ghost predicate SlotsSound(pending: set<Id>) {
      forall pk, name {:trigger Holder(pk, name)} :: Holder(pk, name).Some? ==>
        var h := Holder(pk, name).value;
        h in placed && placed[h] == pk && h !in pending && h in own && Shown(h) == name
    }

    /** Entries are reachable: every placed entry is what its shown name leads to. */
    ghost predicate SlotsComplete(pending: set<Id>) {
      forall id {:trigger Shown(id)} :: id in placed && id in own && id !in pending ==>
        Holder(placed[id], Shown(id)) == Some(id)
    }

    ghost predicate RealNamesKept(exempt: set<Id>) {
      forall id {:trigger OwnNameIsReal(id)} :: id in placed && id in own && id !in exempt ==> OwnNameIsReal(id)
    }

    ghost predicate AliasesNumbered(pending: set<Id>) {
      forall id {:trigger IsAlias(id)} :: id in display && id in own && id !in pending ==> IsAlias(id)
    }

    /** Every entry holds its name except the pending ones, and every own name is kept real except the exempt ones. */
    ghost predicate Ok(pending: set<Id>, exempt: set<Id>) {
      && placed.Keys <= own.Keys && display.Keys <= placed.Keys && pending <= placed.Keys
      && SlotsSound(pending) && SlotsComplete(pending)
      && RealNamesKept(pending + exempt)
      && AliasesNumbered(pending)
    }

    ghost function Taken(pk: Place, id: Id): Table
      requires id in own
    {
      this.(slots := slots[pk := Slots(pk)[own[id] := id]], display := display - {id})
    }

    /** id, still placed at pk, gives up its name. */
    ghost function Cleared(pk: Place, id: Id): Table
      requires id in own
    {
      this.(slots := if Holder(pk, Shown(id)) == Some(id) then slots[pk := Slots(pk) - {Shown(id)}] else slots,
            display := display - {id})
    }

    ghost function Removed(pk: Place, id: Id): Table
      requires id in own
    {
      Cleared(pk, id).(placed := placed - {id})
    }

    /** The entries placed at pk whose own name is name. */
    ghost function Group(pk: Place, name: Name): set<Id> {
      set id | id in placed && placed[id] == pk && id in own && own[id] == name
    }

    ghost function Aliased(pk: Place, id: Id, a: Alias): Table {
      this.(slots := slots[pk := Slots(pk)[a.name := id]], display := display[id := a])
    }
  }

  /** The two tables differ at most in the names at pk. */
  ghost predicate SameElsewhere(t: Table, u: Table, pk: Place) {
    && (forall q {:trigger t.Slots(q)} {:trigger u.Slots(q)} :: q != pk ==> u.Slots(q) == t.Slots(q))
    && (forall x {:trigger x in t.display} {:trigger x in u.display} :: x in t.placed && t.placed[x] != pk ==>
          (x in t.display <==> x in u.display) && (x in t.display ==> u.display[x] == t.display[x]))
  }

  /** The entries to place next once id has taken its own name: id no longer, an alias it displaced now. */
  ghost function AfterTaking(t: Table, pk: Place, id: Id, pending: set<Id>): set<Id>
    requires id in t.own
  {
    var h := t.Holder(pk, t.own[id]);
    pending - {id} + if h.Some? then {h.value} else {}
  }

  lemma TakenOk(t: Table, pk: Place, id: Id, pending: set<Id>)
    requires t.Ok(pending, {}) && id in pending && t.placed[id] == pk
    requires var h := t.Holder(pk, t.own[id]); h.Some? ==> h.value in t.display
    ensures t.Taken(pk, id).Ok(AfterTaking(t, pk, id, pending), {})
    ensures SameElsewhere(t, t.Taken(pk, id), pk)
  {
    var u, p := t.Taken(pk, id), AfterTaking(t, pk, id, pending);
    assert forall q, name :: u.Holder(q, name) ==
                             if q == pk && name == t.own[id] then Some(id) else t.Holder(q, name);
    forall q, name | u.Holder(q, name).Some?
      ensures var h := u.Holder(q, name).value;
              h in u.placed && u.placed[h] == q && h !in p && u.Shown(h) == name
    {
      if !(q == pk && name == t.own[id]) {
        assert t.Holder(q, name).Some?;
        var was := t.Holder(pk, t.own[id]);
        assert was.Some? ==> t.Shown(was.value) == t.own[id];
      }
    }
    forall x | x in u.placed && x !in p
      ensures u.Holder(u.placed[x], u.Shown(x)) == Some(x)
    {
      if x != id {
        assert t.Holder(t.placed[x], t.Shown(x)) == Some(x);
      }
    }
    forall x | x in u.placed && x !in p
      ensures u.OwnNameIsReal(x)
    {
      if x != id {
        assert t.OwnNameIsReal(x);
      }
    }
    forall x | x in u.display && x !in p
      ensures u.IsAlias(x)
    {
      assert t.IsAlias(x);
    }
  }

  lemma AliasedOk(t: Table, pk: Place, id: Id, a: Alias, pending: set<Id>)
    requires t.Ok(pending, {}) && id in pending && t.placed[id] == pk
    requires var h := t.Holder(pk, t.own[id]); h.Some? && h.value !in t.display
    requires t.Holder(pk, a.name).None? && a.number >= 2 && a.name == NumberedName(t.own[id], a.number)
    ensures t.Aliased(pk, id, a).Ok(pending - {id}, {})
    ensures SameElsewhere(t, t.Aliased(pk, id, a), pk)
  {
    var u, p := t.Aliased(pk, id, a), pending - {id};
    assert forall q, name :: u.Holder(q, name) == if q == pk && name == a.name then Some(id) else t.Holder(q, name);
    forall q, name | u.Holder(q, name).Some?
      ensures var h := u.Holder(q, name).value;
              h in u.placed && u.placed[h] == q && h !in p && u.Shown(h) == name
    {
      if !(q == pk && name == a.name) {
        assert t.Holder(q, name).Some?;
      }
    }
    forall x | x in u.placed && x !in p
      ensures u.Holder(u.placed[x], u.Shown(x)) == Some(x)
    {
      if x != id {
        assert t.Holder(t.placed[x], t.Shown(x)) == Some(x);
      }
    }
    forall x | x in u.placed && x !in p
      ensures u.OwnNameIsReal(x)
    {
      if x != id {
        assert t.OwnNameIsReal(x);
      }
      assert t.Holder(u.placed[x], t.own[x]).Some? ==> t.Holder(u.placed[x], t.own[x]).value !in pending;
    }
    forall x | x in u.display && x !in p
      ensures u.IsAlias(x)
    {
      if x != id {
        assert t.IsAlias(x);
      }
    }
  }

  lemma ClearedOk(t: Table, pk: Place, id: Id, pending: set<Id>, exempt: set<Id>)
    requires t.Ok(pending, exempt) && id in t.placed && t.placed[id] == pk && id !in pending
    requires t.Group(pk, t.own[id]) <= exempt
    ensures t.Cleared(pk, id).Ok(pending + {id}, exempt)
    ensures SameElsewhere(t, t.Cleared(pk, id), pk)
  {
    var u, p := t.Cleared(pk, id), pending + {id};
    assert t.Holder(pk, t.Shown(id)) == Some(id);
    assert forall q, name :: u.Holder(q, name) ==
                             if q == pk && name == t.Shown(id) then None else t.Holder(q, name);
    forall q, name | u.Holder(q, name).Some?
      ensures var h := u.Holder(q, name).value;
              h in u.placed && u.placed[h] == q && h !in p && u.Shown(h) == name
    {
      assert t.Holder(q, name).Some?;
    }
    forall x | x in u.placed && x !in p
      ensures u.Holder(u.placed[x], u.Shown(x)) == Some(x)
    {
      assert t.Holder(t.placed[x], t.Shown(x)) == Some(x);
    }
    forall x | x in u.placed && x !in p + exempt
      ensures u.OwnNameIsReal(x)
    {
      assert t.OwnNameIsReal(x);
      assert x !in t.Group(pk, t.own[id]);
      var h := t.Holder(t.placed[x], t.own[x]).value;
      assert t.Shown(h) == t.own[h] == t.own[x];
    }
    forall x | x in u.display && x !in p
      ensures u.IsAlias(x)
    {
      assert t.IsAlias(x);
    }
  }

  /** Taking an entry out can unsettle only the entries with its own name, and those only if it was showing it. */
  lemma RemovedOk(t: Table, pk: Place, id: Id)
    requires t.Ok({}, {}) && id in t.placed && t.placed[id] == pk
    ensures t.Removed(pk, id).Ok({}, t.Group(pk, t.own[id]) - {id})
    ensures id in t.display ==> t.Removed(pk, id).Ok({}, {})
  {
    var exempt := t.Group(pk, t.own[id]);
    assert t.Ok({}, exempt);
    ClearedOk(t, pk, id, {}, exempt);
    var c, u := t.Cleared(pk, id), t.Removed(pk, id);
    assert {} + {id} == {id};
    assert forall q, name :: u.Holder(q, name) == c.Holder(q, name);
    forall x | x in u.placed
      ensures u.Holder(u.placed[x], u.Shown(x)) == Some(x)
    {
      assert c.Holder(c.placed[x], c.Shown(x)) == Some(x);
    }
    forall x | x in u.placed && x !in exempt
      ensures u.OwnNameIsReal(x)
    {
      assert c.OwnNameIsReal(x);
    }
    forall x | x in u.display
      ensures u.IsAlias(x)
    {
      assert c.IsAlias(x);
    }
    if id in t.display {
      AliasRemovedOk(t, pk, id);
    }
  }

  lemma AliasRemovedOk(t: Table, pk: Place, id: Id)
    requires t.Ok({}, {}) && id in t.display && t.placed[id] == pk
    requires t.Removed(pk, id).Ok({}, t.Group(pk, t.own[id]) - {id})
    ensures t.Removed(pk, id).Ok({}, {})
  {
    var u := t.Removed(pk, id);
    forall x | x in u.placed && x in u.own && x !in {} + {}
      ensures u.OwnNameIsReal(x)
    {
      RealNameLeft(t, pk, id, x);
    }
  }

  /** An alias that goes takes nobody's own name with it. */
  lemma RealNameLeft(t: Table, pk: Place, id: Id, x: Id)
    requires t.Ok({}, {}) && id in t.display && t.placed[id] == pk && x in t.placed && x != id
    ensures t.Removed(pk, id).OwnNameIsReal(x)
  {
    assert t.OwnNameIsReal(x);
    var h := t.Holder(t.placed[x], t.own[x]).value;
    assert h !in t.display && h != id;
    assert t.Holder(pk, t.Shown(id)) == Some(id);
    assert t.Removed(pk, id).Holder(t.placed[x], t.own[x]) == Some(h);
  }

  /** If the removed entry showed its own name and no other entry of the folder is aliased, nothing is unsettled. */
  lemma NothingUnsettled(t: Table, pk: Place, id: Id)
    requires t.Ok({}, {}) && id in t.placed && t.placed[id] == pk && id !in t.display
    requires forall x :: x in t.display ==> t.placed[x] != pk
    ensures t.Removed(pk, id).Ok({}, {})
  {
    RemovedOk(t, pk, id);
    forall x | x in t.Group(pk, t.own[id])
      ensures x == id
    {
      assert t.Shown(x) == t.own[x] == t.Shown(id);
    }
    assert t.Group(pk, t.own[id]) - {id} == {};
  }

  lemma PlacedOk(t: Table, pk: Place, id: Id)
    requires t.Ok({}, {}) && id in t.own && id !in t.placed
    ensures t.(placed := t.placed[id := pk]).Ok({id}, {})
  {
    var u := t.(placed := t.placed[id := pk]);
    assert forall q, name :: u.Holder(q, name) == t.Holder(q, name);
    forall x | x in u.placed && x != id
      ensures u.Holder(u.placed[x], u.Shown(x)) == Some(x)
      ensures u.OwnNameIsReal(x)
    {
      assert t.Holder(t.placed[x], t.Shown(x)) == Some(x);
      assert t.OwnNameIsReal(x);
    }
    forall x | x in u.display
      ensures u.IsAlias(x)
    {
      assert t.IsAlias(x);
    }
  }

  lemma OwnGrowsOk(t: Table, id: Id, name: Name)
    requires t.Ok({}, {}) && id !in t.own
    ensures t.(own := t.own[id := name]).Ok({}, {})
  {
    var u := t.(own := t.own[id := name]);
    OwnAgreesOk(t, u);
  }

  lemma OwnShrinksOk(t: Table, id: Id)
    requires t.Ok({}, {}) && id !in t.placed
    ensures t.(own := t.own - {id}).Ok({}, {})
  {
    var u := t.(own := t.own - {id});
    OwnAgreesOk(t, u);
  }

  lemma OwnAgreesOk(t: Table, u: Table)
    requires t.Ok({}, {}) && u == t.(own := u.own)
    requires t.placed.Keys <= u.own.Keys && forall x :: x in t.placed ==> u.own[x] == t.own[x]
    ensures u.Ok({}, {})
  {
    assert forall q, name :: u.Holder(q, name) == t.Holder(q, name);
    forall x | x in u.placed
      ensures u.Holder(u.placed[x], u.Shown(x)) == Some(x)
      ensures u.OwnNameIsReal(x)
    {
      assert t.Holder(t.placed[x], t.Shown(x)) == Some(x);
      assert t.OwnNameIsReal(x);
    }
    forall x | x in u.display
      ensures u.IsAlias(x)
    {
      assert t.IsAlias(x);
    }
  }

  /** In a settled table the names of a folder and its entries correspond one to one, and looking a name up leads to
      the entry that shows it. */
  lemma NamesAreOneToOne(t: Table, pk: Place)
    requires t.Ok({}, {})
    ensures forall x, y :: x in t.placed && y in t.placed && t.placed[x] == t.placed[y] == pk && t.Shown(x) == t.Shown(y) ==>
              x == y
    ensures forall x :: x in t.placed && t.placed[x] == pk ==> t.Holder(pk, t.Shown(x)) == Some(x)
    ensures forall name :: t.Holder(pk, name).Some? ==>
              var h := t.Holder(pk, name).value; h in t.placed && t.placed[h] == pk && t.Shown(h) == name
  {
  }

  /** In a settled table an own name found in a folder is shown there by an entry whose own name it is. */
  lemma RealNameIsShown(t: Table, id: Id)
    requires t.Ok({}, {}) && id in t.placed
    ensures var h := t.Holder(t.placed[id], t.own[id]);
            h.Some? && h.value in t.placed && t.own[h.value] == t.own[id] && h.value !in t.display
  {
    assert t.OwnNameIsReal(id);
  }
}
