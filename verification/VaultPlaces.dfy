/** Where the index puts each entry, in terms of the entries' own fields. */
module VaultPlaces {
  import opened FsNames
  import opened NameTable
  import opened Order
  import opened VaultIndex
  import opened Wrappers

  /** f is another folder, and k is its own reference. */
  ghost predicate Bears(entries: Entries, id: Id, k: Key, f: Id) {
    f in entries && f != id && entries[f].isFolder && entries[f].nodeRef == Some(k)
  }

  /** f is another folder of the second format, and k is the reference it was made from. */
  ghost predicate CameFrom(entries: Entries, id: Id, k: Key, f: Id) {
    f in entries && f != id && entries[f].isFolder && entries[f].isV2 && entries[f].from == Some(k)
  }

  /** Only entries of the second format with a parent and a reference to it are looked up. */
  predicate LooksUp(e: Entry) {
    e.isV2 && e.parentId.Some? && e.pref.Some?
  }

  /** Without a lookup: under the stated parent, at the root, or nowhere. */
  lemma PlainPlace(entries: Entries, e: Entry)
    ensures !e.isV2 && e.parentId.Some? ==> PlaceOf(entries, e) == e.parentId.value
    ensures e.parentId.None? ==> PlaceOf(entries, e) == ""
    ensures e.isV2 && e.parentId.Some? && e.pref.None? ==> PlaceOf(entries, e) == "\0unresolved"
  {
  }

  /** The declared folder if it bears the reference, else the first folder that does; else the same among the folders made
      from it; else nowhere. */
  lemma LookedUpPlace(entries: Entries, e: Entry)
    requires LooksUp(e)
    ensures var k, declared, at := e.pref.value, e.parentId.value, PlaceOf(entries, e);
            && (Bears(entries, e.id, k, declared) ==> at == declared)
            && (!Bears(entries, e.id, k, declared) && (exists f :: Bears(entries, e.id, k, f)) ==>
                  Bears(entries, e.id, k, at) && forall f :: Bears(entries, e.id, k, f) && f != at ==> Less(at, f))
            && ((forall f :: !Bears(entries, e.id, k, f)) && CameFrom(entries, e.id, k, declared) ==> at == declared)
            && ((forall f :: !Bears(entries, e.id, k, f)) && !CameFrom(entries, e.id, k, declared) &&
                (exists f :: CameFrom(entries, e.id, k, f)) ==>
                  CameFrom(entries, e.id, k, at) && forall f :: CameFrom(entries, e.id, k, f) && f != at ==> Less(at, f))
            && ((forall f :: !Bears(entries, e.id, k, f) && !CameFrom(entries, e.id, k, f)) ==> at == "\0unresolved")
  {
    var k := e.pref.value;
    var own, origin := Carriers(entries, RefKey, k) - {e.id}, Carriers(entries, FromKey, k) - {e.id};
    assert forall f :: f in own <==> Bears(entries, e.id, k, f);
    assert forall f :: f in origin <==> CameFrom(entries, e.id, k, f);
  }

  /** In every index each entry is where its own fields and the other folders' put it. */
  lemma PlacedRight(index: VaultIndex, id: Id)
    requires index.Valid() && id in index.entries
    ensures id in index.placed && index.entries[id].id == id
    ensures var e, at := index.entries[id], index.placed[id];
            && (!e.isV2 && e.parentId.Some? ==> at == e.parentId.value)
            && (e.parentId.None? ==> at == "")
            && (e.isV2 && e.parentId.Some? && e.pref.None? ==> at == "\0unresolved")
    ensures var e, at := index.entries[id], index.placed[id];
            LooksUp(e) ==>
              var k, declared := e.pref.value, e.parentId.value;
              if Bears(index.entries, id, k, declared) then at == declared
              else if exists f :: Bears(index.entries, id, k, f) then
                Bears(index.entries, id, k, at) && forall f :: Bears(index.entries, id, k, f) && f != at ==> Less(at, f)
              else if CameFrom(index.entries, id, k, declared) then at == declared
              else if exists f :: CameFrom(index.entries, id, k, f) then
                CameFrom(index.entries, id, k, at) && forall f :: CameFrom(index.entries, id, k, f) && f != at ==> Less(at, f)
              else at == "\0unresolved"
  {
    var e := index.entries[id];
    PlainPlace(index.entries, e);
    if LooksUp(e) {
      LookedUpPlace(index.entries, e);
    }
  }

  /** An entry that is looked up is nowhere exactly if no folder answers to its reference. */
  lemma NowhereIff(index: VaultIndex, id: Id)
    requires index.Valid() && id in index.entries && LooksUp(index.entries[id]) && "\0unresolved" !in index.entries
    ensures index.placed[id] == "\0unresolved" <==>
              forall f :: !Bears(index.entries, id, index.entries[id].pref.value, f) &&
                          !CameFrom(index.entries, id, index.entries[id].pref.value, f)
  {
    PlacedRight(index, id);
    LookedUpPlace(index.entries, index.entries[id]);
  }

  // ---------- Shown names ----------

  /** In every index an entry is found where it is placed, under its own file name or under that name numbered; the latter
      only while another entry of the same file name shows that name there. */
  lemma NamedRight(index: VaultIndex, id: Id)
    requires index.Valid() && id in index.entries
    ensures id in index.placed && index.placed[id] in index.nameIndex
    ensures var e, names := index.entries[id], index.nameIndex[index.placed[id]];
            if id !in index.display then e.fsName in names && names[e.fsName] == id
            else
              var a := index.display[id];
              && a.number >= 2 && a.name == NumberedName(e.fsName, a.number) && a.name in names && names[a.name] == id
              && e.fsName in names && names[e.fsName] != id
              && exists h :: h in index.entries && h !in index.display && index.entries[h].fsName == e.fsName &&
                   index.placed[h] == index.placed[id] && names[e.fsName] == h
  {
    var t := index.View();
    assert id in t.placed;
    RealNameIsShown(t, id);
    var pk := t.placed[id];
    assert t.Holder(pk, t.Shown(id)) == Some(id);
    if id in t.display {
      assert t.IsAlias(id);
    }
  }

  /** So an entry whose file name nobody else has where it is placed shows that name. */
  lemma NamedPlainly(index: VaultIndex, id: Id)
    requires index.Valid() && id in index.entries
    requires forall x :: x in index.entries && x != id && index.placed[x] == index.placed[id] ==>
               index.entries[x].fsName != index.entries[id].fsName
    ensures id !in index.display
  {
    NamedRight(index, id);
  }
}
