/** What the shown names of an index remember of how it came about. */
module VaultHistory {
  import opened NameChoice
  import opened NameTable
  import opened VaultIndex
  import opened Wrappers

  /** Nothing can refer to the entry as a folder. */
  predicate NoFolder(e: Entry) {
    RefKey(e).None? && FromKey(e).None?
  }

  /** An entry that nothing can refer to changes no other entry's place. */
  lemma PlaceWithout(entries: Entries, r: Id, x: Entry)
    requires r in entries && entries[r].id == r && NoFolder(entries[r])
    ensures PlaceOf(entries - {r}, x) == PlaceOf(entries, x)
  {
    var rest := entries - {r};
    assert rest[r := entries[r]] == entries;
    PlaceUnaffected(rest, entries[r], x);
  }

  /** Takes out the entry that shows a shared file name: another one that bears it shows it now. */
  method TakeOut(index: VaultIndex, r: Id, s: Id) returns (ghost h: Id)
    requires index.Valid() && r in index.placed && s in index.placed && r != s
    requires index.placed[r] == index.placed[s] && index.entries[r].fsName == index.entries[s].fsName
    requires NoFolder(index.entries[r])
    modifies index
    ensures index.Valid() && index.entries == old(index.entries) - {r}
    ensures h in index.entries && h !in index.display && index.entries[h].fsName == old(index.entries)[r].fsName
    ensures var all := old(index.entries); h in all && PlaceOf(all, all[h]) == PlaceOf(all, all[r])
  {
    ghost var all := index.entries;
    PlaceWithout(all, r, all[s]);
    var _ := index.Remove(r);
    assert index.View().OwnNameIsReal(s);
    h := index.View().Holder(index.placed[s], all[r].fsName).value;
    assert index.placed[h] == index.placed[s];
    PlaceWithout(all, r, all[h]);
  }

  lemma SamePlaces(entries: Entries, a: map<Id, Place>, b: map<Id, Place>)
    requires a.Keys == b.Keys == entries.Keys
    requires forall id :: id in entries ==> a[id] == PlaceOf(entries, entries[id]) && b[id] == PlaceOf(entries, entries[id])
    ensures a == b
  {
  }

  /** Where two entries of a folder share a file name, taking out the one that shows it and putting it back leaves the
      same entries, and that one under another name. */
  method PutBack(index: VaultIndex, r: Id, s: Id)
    requires index.Valid() && r in index.placed && s in index.placed && r != s
    requires index.placed[r] == index.placed[s] && index.entries[r].fsName == index.entries[s].fsName
    requires r !in index.display && NoFolder(index.entries[r])
    modifies index
    ensures index.Valid() && index.entries == old(index.entries) && index.placed == old(index.placed)
    ensures r in index.display && index.View().Shown(r) != old(index.View()).Shown(r)
  {
    var e := index.entries[r];
    ghost var all, placed := index.entries, index.placed;
    ghost var h := TakeOut(index, r, s);
    assert index.entries[r := e] == all;
    PutIn(index, e, h);
    SamePlaces(all, placed, index.placed);
  }

  /** Puts in an entry beside one that shows its file name. */
  method PutIn(index: VaultIndex, e: Entry, ghost h: Id)
    requires index.Valid() && e.id !in index.entries && NoFolder(e)
    requires h in index.entries && h !in index.display && index.entries[h].fsName == e.fsName
    requires var all := index.entries[e.id := e]; PlaceOf(all, all[h]) == PlaceOf(all, e)
    modifies index
    ensures index.Valid() && index.entries == old(index.entries)[e.id := e]
    ensures e.id in index.display && index.View().Shown(e.id) != e.fsName
  {
    var _ := index.Insert(e);
    assert index.View().Shown(e.id) != index.View().Shown(h);
  }

  /** While an entry shows an alias, nobody in its folder bears that alias as a file name. */
  lemma AliasNotBorne(t: Table, b: Id)
    requires t.Ok({}, {}) && b in t.display
    ensures forall y :: y in t.placed && t.placed[y] == t.placed[b] ==> t.own[y] != t.Shown(b)
  {
    forall y | y in t.placed && t.placed[y] == t.placed[b]
      ensures t.own[y] != t.Shown(b)
    {
      assert t.OwnNameIsReal(y) && t.Holder(t.placed[b], t.Shown(b)) == Some(b);
    }
  }

  lemma PlacesWith(entries: Entries, d: Entry)
    requires d.id !in entries && NoFolder(d)
    ensures PlaceOf(entries[d.id := d], d) == PlaceOf(entries, d)
    ensures forall x :: x in entries ==> PlaceOf(entries[d.id := d], entries[x]) == PlaceOf(entries, entries[x])
  {
    PlaceUnaffected(entries, d, d);
    forall x | x in entries
      ensures PlaceOf(entries[d.id := d], entries[x]) == PlaceOf(entries, entries[x])
    {
      PlaceUnaffected(entries, d, entries[x]);
    }
  }

  /** Puts in an entry whose file name an alias shows: it takes the name over, as its only bearer. */
  method TakeAlias(index: VaultIndex, b: Id, d: Entry)
    requires index.Valid() && b in index.display && d.id !in index.entries && NoFolder(d)
    requires d.fsName == index.View().Shown(b) && PlaceOf(index.entries, d) == index.placed[b]
    modifies index
    ensures index.Valid() && index.entries == old(index.entries)[d.id := d] && index.OnlyBearer(d.id)
    ensures index.placed == old(index.placed)[d.id := old(index.placed)[b]]
  {
    ghost var t, all := index.View(), index.entries;
    PlacesWith(all, d);
    AliasNotBorne(t, b);
    var _ := index.Insert(d);
    assert index.View().OwnNameIsReal(d.id);
  }

  /** An alias that has had to give way stays where it went: after an entry with its name has come and gone, the entries
      are the same, and the folder no longer lists that name. */
  method ComeAndGo(index: VaultIndex, b: Id, d: Entry)
    requires index.Valid() && b in index.display && d.id !in index.entries && NoFolder(d)
    requires d.fsName == index.View().Shown(b) && PlaceOf(index.entries, d) == index.placed[b]
    modifies index
    ensures index.Valid() && index.entries == old(index.entries) && index.placed == old(index.placed)
    ensures old(index.View().Shown(b)) in Listed(old(index.View()), old(index.placed[b]))
    ensures old(index.View().Shown(b)) !in Listed(index.View(), index.placed[b])
  {
    ghost var all, pk := index.entries, index.placed[b];
    TakeAlias(index, b, d);
    ghost var u := index.View();
    var _ := index.Remove(d.id);
    assert index.entries == all;
    NamesLeft(u, index.View(), d.id, pk);
  }

  /** With the only bearer of a shown name gone and all else as it was, the name is no longer listed. */
  lemma NamesLeft(u: Table, v: Table, d: Id, pk: Place)
    requires u.Ok({}, {}) && v.Ok({}, {}) && d in u.placed && u.placed[d] == pk && d !in u.display
    requires v.placed.Keys == u.placed.Keys - {d} && v.display == u.display
    requires forall x :: x in v.placed ==> v.placed[x] == u.placed[x] && v.own[x] == u.own[x]
    ensures u.own[d] !in Listed(v, pk)
  {
    NamesAreOneToOne(u, pk);
    forall x | x in v.placed && v.placed[x] == pk
      ensures v.Shown(x) != u.own[d]
    {
      assert v.Shown(x) == u.Shown(x);
    }
  }
}
