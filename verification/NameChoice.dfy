/** Which shown names the entries of a folder determine, and which they leave open. */
module NameChoice {
  import opened FsNames
  import opened NameTable
  import opened Wrappers

  /** u is another settled table of the same entries in the same places. */
  ghost predicate SameEntries(t: Table, u: Table) {
    u.Ok({}, {}) && u.own == t.own && u.placed == t.placed
  }

  /** No other entry in the folder has this entry's file name. */
  ghost predicate Alone(t: Table, x: Id)
    requires t.placed.Keys <= t.own.Keys && x in t.placed
  {
    forall y :: y in t.placed && t.placed[y] == t.placed[x] && t.own[y] == t.own[x] ==> y == x
  }

  lemma AloneShowsOwn(t: Table, x: Id)
    requires t.Ok({}, {}) && x in t.placed && Alone(t, x)
    ensures x !in t.display && t.Shown(x) == t.own[x]
  {
    RealNameIsShown(t, x);
  }

  // ---------- Two entries of one name can change places ----------

  /** h, which shows the name, and the alias a of the same name have changed places. */
  ghost function Swap(t: Table, pk: Place, h: Id, a: Id): Table
    requires h in t.own && a in t.display
  {
    t.(slots := t.slots[pk := t.Slots(pk)[t.own[h] := a][t.display[a].name := h]],
       display := (t.display - {a})[h := t.display[a]])
  }

  ghost predicate Swappable(t: Table, pk: Place, h: Id, a: Id) {
    && t.Ok({}, {}) && h in t.placed && a in t.placed && t.placed[h] == t.placed[a] == pk
    && t.own[h] == t.own[a] && h !in t.display && a in t.display
  }

  lemma SwapShows(t: Table, pk: Place, h: Id, a: Id)
    requires Swappable(t, pk, h, a)
    ensures var u := Swap(t, pk, h, a);
            && h != a && u.Shown(h) == t.Shown(a) && u.Shown(a) == t.own[a] && t.Shown(a) != t.own[a]
            && (forall x :: x in t.own && x != h && x != a ==> u.Shown(x) == t.Shown(x))
            && (forall pk', name {:trigger u.Holder(pk', name)} :: u.Holder(pk', name) ==
                  if pk' == pk && name == t.Shown(a) then Some(h) else if pk' == pk && name == t.own[h] then Some(a)
                  else t.Holder(pk', name))
  {
    assert t.IsAlias(a);
  }

  lemma SwapSound(t: Table, pk: Place, h: Id, a: Id)
    requires Swappable(t, pk, h, a)
    ensures Swap(t, pk, h, a).SlotsSound({}) && Swap(t, pk, h, a).SlotsComplete({})
  {
    var u := Swap(t, pk, h, a);
    SwapShows(t, pk, h, a);
    NamesAreOneToOne(t, pk);
    forall pk', name | u.Holder(pk', name).Some?
      ensures var g := u.Holder(pk', name).value; g in u.placed && u.placed[g] == pk' && u.Shown(g) == name
    {
      if !(pk' == pk && (name == t.Shown(a) || name == t.own[h])) {
        assert t.Holder(pk', name).Some?;
      }
    }
    forall x | x in u.placed
      ensures u.Holder(u.placed[x], u.Shown(x)) == Some(x)
    {
      assert t.Holder(t.placed[x], t.Shown(x)) == Some(x);
      assert x != h && x != a && t.placed[x] == pk ==> t.Shown(x) != t.Shown(a) && t.Shown(x) != t.Shown(h);
    }
  }

  /** A swap is another settled table of the same entries. */
  lemma SwapOk(t: Table, pk: Place, h: Id, a: Id)
    requires Swappable(t, pk, h, a)
    ensures SameEntries(t, Swap(t, pk, h, a))
  {
    var u := Swap(t, pk, h, a);
    SwapShows(t, pk, h, a);
    SwapSound(t, pk, h, a);
    forall x | x in u.placed
      ensures u.OwnNameIsReal(x)
    {
      RealNameIsShown(t, x);
      SwapKeepsReal(t, pk, h, a, x);
    }
    forall x | x in u.display
      ensures u.IsAlias(x)
    {
      assert t.IsAlias(if x == h then a else x);
    }
  }

  lemma SwapKeepsReal(t: Table, pk: Place, h: Id, a: Id, x: Id)
    requires Swappable(t, pk, h, a) && x in t.placed
    ensures Swap(t, pk, h, a).OwnNameIsReal(x)
  {
    SwapShows(t, pk, h, a);
    RealNameIsShown(t, x);
    assert t.Holder(pk, t.Shown(a)) == Some(a);
    assert t.Holder(pk, t.Shown(h)) == Some(h);
  }

  // ---------- One entry's name ----------

  /** The name an entry shows is determined by which entries there are and where exactly if no other entry in its folder
      has its file name. */
  lemma NameDeterminedIff(t: Table, x: Id)
    requires t.Ok({}, {}) && x in t.placed
    ensures Alone(t, x) <==> forall u :: SameEntries(t, u) ==> u.Shown(x) == t.Shown(x)
  {
    if Alone(t, x) {
      AloneShowsOwn(t, x);
      forall u | SameEntries(t, u)
        ensures u.Shown(x) == t.Shown(x)
      {
        AloneShowsOwn(u, x);
      }
    } else {
      var u := OtherName(t, x);
    }
  }

  lemma OtherName(t: Table, x: Id) returns (u: Table)
    requires t.Ok({}, {}) && x in t.placed && !Alone(t, x)
    ensures SameEntries(t, u) && u.Shown(x) != t.Shown(x)
  {
    var pk := t.placed[x];
    NamesAreOneToOne(t, pk);
    var h, a := PlainAndAlias(t, x);
    SwapOk(t, pk, h, a);
    SwapShows(t, pk, h, a);
    u := Swap(t, pk, h, a);
  }

  /** Where x shares its file name, x itself and another entry of that name: one shows it, the other does not. */
  lemma PlainAndAlias(t: Table, x: Id) returns (h: Id, a: Id)
    requires t.Ok({}, {}) && x in t.placed && !Alone(t, x)
    ensures Swappable(t, t.placed[x], h, a) && (x == h || x == a)
  {
    RealNameIsShown(t, x);
    h := t.Holder(t.placed[x], t.own[x]).value;
    assert t.placed[h] == t.placed[x];
    if x == h {
      var y :| y in t.placed && t.placed[y] == t.placed[x] && t.own[y] == t.own[x] && y != x;
      NamesAreOneToOne(t, t.placed[x]);
      assert t.Shown(y) != t.Shown(x);
      a := y;
    } else {
      NamesAreOneToOne(t, t.placed[x]);
      assert t.Shown(h) != t.Shown(x);
      a := x;
    }
  }

  // ---------- A folder's names ----------

  ghost predicate AllAlone(t: Table, pk: Place)
    requires t.placed.Keys <= t.own.Keys
  {
    forall x :: x in t.placed && t.placed[x] == pk ==> Alone(t, x)
  }

  ghost predicate SameNames(t: Table, u: Table, pk: Place)
    requires t.placed.Keys <= t.own.Keys && u.own == t.own && u.placed == t.placed
  {
    forall x :: x in t.placed && t.placed[x] == pk ==> u.Shown(x) == t.Shown(x)
  }

  /** The names of a folder are determined exactly if no two of its entries share a file name. */
  lemma FolderDeterminedIff(t: Table, pk: Place)
    requires t.Ok({}, {})
    ensures AllAlone(t, pk) <==> forall u :: SameEntries(t, u) ==> SameNames(t, u, pk)
  {
    if AllAlone(t, pk) {
      forall u, x | SameEntries(t, u) && x in t.placed && t.placed[x] == pk
        ensures u.Shown(x) == t.Shown(x)
      {
        NameDeterminedIff(t, x);
      }
    } else {
      var x :| x in t.placed && t.placed[x] == pk && !Alone(t, x);
      var u := OtherName(t, x);
      assert !SameNames(t, u, pk);
    }
  }

  /** The names listed in a folder, whoever shows them. */
  ghost function Listed(t: Table, pk: Place): set<Name>
    requires t.placed.Keys <= t.own.Keys
  {
    set x | x in t.placed && t.placed[x] == pk :: t.Shown(x)
  }

  /** Even as a set the names are determined exactly then: any alias could have another free number. */
  lemma ListDeterminedIff(t: Table, pk: Place)
    requires t.Ok({}, {})
    ensures AllAlone(t, pk) <==> forall u :: SameEntries(t, u) ==> Listed(u, pk) == Listed(t, pk)
  {
    FolderDeterminedIff(t, pk);
    if AllAlone(t, pk) {
      forall u | SameEntries(t, u)
        ensures Listed(u, pk) == Listed(t, pk)
      {
        assert SameNames(t, u, pk);
        assert forall x :: x in t.placed && t.placed[x] == pk ==> u.Shown(x) == t.Shown(x);
      }
    } else {
      var x :| x in t.placed && t.placed[x] == pk && !Alone(t, x);
      var h, a := PlainAndAlias(t, x);
      var n := SomeNumberFree(t.Slots(pk).Keys, t.own[a]);
      var b := Alias(NumberedName(t.own[a], n), n);
      RenamedOk(t, pk, a, b);
      RenamedLists(t, pk, a, b);
    }
  }

  lemma RenamedLists(t: Table, pk: Place, a: Id, b: Alias)
    requires Renamable(t, pk, a, b)
    ensures b.name in Listed(Renamed(t, pk, a, b), pk) && b.name !in Listed(t, pk)
  {
    var u := Renamed(t, pk, a, b);
    NamesAreOneToOne(t, pk);
    assert u.Shown(a) == b.name;
  }

  lemma SomeNumberFree(taken: set<Name>, base: Name) returns (n: nat)
    ensures n >= 2 && NumberedName(base, n) !in taken
  {
    var m := |taken| + 3;
    NumberedNamesDiffer(base, m);
    if NumberedNames(base, m) <= taken {
      Fewer(NumberedNames(base, m), taken);
    }
    var name :| name in NumberedNames(base, m) && name !in taken;
    n := WhichNumber(base, m, name);
  }

  lemma {:induction false} Fewer(s: set<Name>, t: set<Name>)
    requires s <= t
    ensures |s| <= |t|
    decreases |s|
  {
    if s == {} {
    } else {
      var x :| x in s;
      Fewer(s - {x}, t - {x});
    }
  }

  lemma {:induction false} WhichNumber(base: Name, m: nat, name: Name) returns (n: nat)
    requires m >= 2 && name in NumberedNames(base, m)
    ensures n >= 2 && name == NumberedName(base, n)
  {
    if m > 2 && name == NumberedName(base, m - 1) {
      n := m - 1;
    } else {
      n := WhichNumber(base, m - 1, name);
    }
  }

  /** The alias a shows another free name. */
  ghost function Renamed(t: Table, pk: Place, a: Id, b: Alias): Table
    requires a in t.display
  {
    t.(slots := t.slots[pk := (t.Slots(pk) - {t.display[a].name})[b.name := a]], display := t.display[a := b])
  }

  ghost predicate Renamable(t: Table, pk: Place, a: Id, b: Alias) {
    t.Ok({}, {}) && a in t.placed && t.placed[a] == pk && a in t.display && b.name !in t.Slots(pk)
  }

  lemma RenamedShows(t: Table, pk: Place, a: Id, b: Alias)
    requires Renamable(t, pk, a, b)
    ensures var u := Renamed(t, pk, a, b);
            && (forall x :: x in t.own ==> u.Shown(x) == if x == a then b.name else t.Shown(x))
            && (forall pk', name {:trigger u.Holder(pk', name)} :: u.Holder(pk', name) ==
                  if pk' == pk && name == b.name then Some(a)
                  else if pk' == pk && name == t.Shown(a) then None
                  else t.Holder(pk', name))
  {
  }

  /** A new number makes another settled table of the same entries. */
  lemma RenamedOk(t: Table, pk: Place, a: Id, b: Alias)
    requires Renamable(t, pk, a, b) && b.number >= 2 && b.name == NumberedName(t.own[a], b.number)
    ensures SameEntries(t, Renamed(t, pk, a, b))
  {
    var u := Renamed(t, pk, a, b);
    RenamedSound(t, pk, a, b);
    RealNameIsShown(t, a);
    assert u.IsAlias(a);
    forall x | x in u.placed
      ensures u.OwnNameIsReal(x)
    {
      RenamedKeepsReal(t, pk, a, b, x);
    }
    forall x | x in u.display && x != a
      ensures u.IsAlias(x)
    {
      assert t.IsAlias(x);
    }
  }

  lemma RenamedKeepsReal(t: Table, pk: Place, a: Id, b: Alias, x: Id)
    requires Renamable(t, pk, a, b) && x in t.placed
    ensures Renamed(t, pk, a, b).OwnNameIsReal(x)
  {
    RenamedShows(t, pk, a, b);
    RealNameIsShown(t, x);
    assert t.Holder(pk, t.Shown(a)) == Some(a);
  }

  lemma RenamedSound(t: Table, pk: Place, a: Id, b: Alias)
    requires Renamable(t, pk, a, b)
    ensures Renamed(t, pk, a, b).SlotsSound({}) && Renamed(t, pk, a, b).SlotsComplete({})
  {
    var u := Renamed(t, pk, a, b);
    RenamedShows(t, pk, a, b);
    NamesAreOneToOne(t, pk);
    forall pk', name | u.Holder(pk', name).Some?
      ensures var g := u.Holder(pk', name).value; g in u.placed && u.placed[g] == pk' && u.Shown(g) == name
    {
      if !(pk' == pk && name == b.name) {
        assert t.Holder(pk', name).Some?;
      }
    }
    forall x | x in u.placed
      ensures u.Holder(u.placed[x], u.Shown(x)) == Some(x)
    {
      assert t.Holder(t.placed[x], t.Shown(x)) == Some(x);
      assert x != a && t.placed[x] == pk ==> t.Shown(x) != t.Shown(a);
    }
  }
}
