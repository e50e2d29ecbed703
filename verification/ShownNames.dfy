/** The names the browser shows for the records of one folder: every record gets one, no two the same.
    Names are UTF-8 text; cutting a name at its last dot and adding an ASCII number mean the same in any encoding. */
module ShownNames {
  import opened FsNames

  datatype Row = Row(id: string, name: Name)

  /** "stem (n).ext", with nothing cut off. */
  function Numbered(base: Name, n: nat): Name {
    SplitExt(base).0 + Suffix(SplitExt(base).1, n)
  }

  lemma NumberedEnds(base: Name, n: nat)
    ensures |SplitExt(base).1| + 1 <= |Numbered(base, n)|
    ensures IsNumberAt(Numbered(base, n), |Numbered(base, n)| - |SplitExt(base).1| - 1, Digits(n))
  {
    DigitsAreDigits(n);
    NumberInMiddle(SplitExt(base).0, Digits(n), SplitExt(base).1);
  }

  lemma NumberedInjective(base: Name, m: nat, n: nat)
    requires Numbered(base, m) == Numbered(base, n)
    ensures m == n
  {
    var r := Numbered(base, m);
    NumberedEnds(base, m);
    NumberedEnds(base, n);
    NumberRunsBack(r, |r| - |SplitExt(base).1| - 1, Digits(m), Digits(n));
    DigitsInjective(m, n);
  }

  /** The browser cuts nothing off, so it numbers a name like the mounted folder exactly as long as the name fits there. */
  lemma NumberedAlike(base: Name, n: nat)
    ensures var (stem, ext) := SplitExt(base);
            Numbered(base, n) == stem + ([32, 40] + Digits(n) + [41] + ext)
    ensures Numbered(base, n) == NumberedName(base, n) <==> base == [] || |base| + |Digits(n)| + 3 <= 255
  {
    var (stem, ext) := SplitExt(base);
    var tail := [32, 40] + Digits(n) + [41] + ext;
    assert tail == Suffix(ext, n);
    NumberedNameIs(base, n);
    if |tail| <= 255 < |stem| + |tail| {
      var cut: nat :| IsCut(stem, 255 - |tail|, cut) && NumberedName(base, n) == stem[..cut] + tail;
    }
  }

  ghost function FirstNumbered(base: Name, n: nat): set<Name>
    requires n >= 2
  {
    set k: nat | 2 <= k < n :: Numbered(base, k)
  }

  lemma {:induction false} FirstNumberedCount(base: Name, n: nat)
    requires n >= 2
    ensures |FirstNumbered(base, n)| == n - 2 && Numbered(base, n) !in FirstNumbered(base, n)
  {
    forall k: nat | 2 <= k < n
      ensures Numbered(base, k) != Numbered(base, n)
    {
      if Numbered(base, k) == Numbered(base, n) {
        NumberedInjective(base, k, n);
      }
    }
    if n > 2 {
      FirstNumberedCount(base, n - 1);
      assert FirstNumbered(base, n) == FirstNumbered(base, n - 1) + {Numbered(base, n - 1)};
    } else {
      assert FirstNumbered(base, n) == {};
    }
  }

  /** The name itself if it is free, else the first free numbered one. The search ends: all numbered names differ. */
  method FreeName(name: Name, taken: set<Name>) returns (free: Name)
    ensures free !in taken
    ensures if name !in taken then free == name
            else exists n: nat :: n >= 2 && free == Numbered(name, n) && FirstNumbered(name, n) <= taken
  {
    if name !in taken {
      return name;
    }
    var n: nat := 2;
    while Numbered(name, n) in taken
      invariant n >= 2 && FirstNumbered(name, n) <= taken
      decreases |taken| + 2 - n
    {
      FirstNumberedCount(name, n);
      SubsetSmaller(FirstNumbered(name, n), taken, Numbered(name, n));
      assert FirstNumbered(name, n + 1) == FirstNumbered(name, n) + {Numbered(name, n)};
      n := n + 1;
    }
    return Numbered(name, n);
  }

  /** The first record of each name. */
  ghost predicate FirstOf(items: seq<Row>, firstOf: map<Name, string>) {
    && (forall j :: 0 <= j < |items| ==> items[j].name in firstOf)
    && forall name :: name in firstOf ==>
         exists j :: && 0 <= j < |items| && items[j] == Row(firstOf[name], name)
                     && forall k :: 0 <= k < j ==> items[k].name != name
  }

  method FindFirst(items: seq<Row>) returns (firstOf: map<Name, string>)
    ensures FirstOf(items, firstOf)
  {
    firstOf := map[];
    for i := 0 to |items|
      invariant FirstOf(items[..i], firstOf)
    {
      ghost var before := firstOf;
      if items[i].name !in firstOf {
        firstOf := firstOf[items[i].name := items[i].id];
      }
      FirstStep(items[..i], items[i], before);
      assert items[..i + 1] == items[..i] + [items[i]];
    }
    assert items[..|items|] == items;
  }

  lemma FirstStep(items: seq<Row>, it: Row, firstOf: map<Name, string>)
    requires FirstOf(items, firstOf)
    ensures FirstOf(items + [it], if it.name in firstOf then firstOf else firstOf[it.name := it.id])
  {
    var f := if it.name in firstOf then firstOf else firstOf[it.name := it.id];
    var longer := items + [it];
    forall name | name in f
      ensures exists j :: && 0 <= j < |longer| && longer[j] == Row(f[name], name)
                          && forall k :: 0 <= k < j ==> longer[k].name != name
    {
      if name in firstOf {
        var j :| && 0 <= j < |items| && items[j] == Row(firstOf[name], name)
                 && forall k :: 0 <= k < j ==> items[k].name != name;
        assert longer[j] == Row(f[name], name) && forall k :: 0 <= k < j ==> longer[k].name != name;
      } else {
        assert longer[|items|] == Row(f[name], name) && forall k :: 0 <= k < |items| ==> longer[k].name != name;
      }
    }
  }

  /** The names given so far: real ones to their first records, free ones to others. */
  ghost predicate NamesSoFar(firstOf: map<Name, string>, taken: set<Name>, out: map<string, Name>) {
    && firstOf.Keys <= taken
    && (forall id :: id in out ==> out[id] in taken && (out[id] in firstOf ==> firstOf[out[id]] == id))
    && forall id, jd :: id in out && jd in out && out[id] == out[jd] ==> id == jd
  }

  ghost predicate UniqueIds(items: seq<Row>) {
    forall j, k :: 0 <= j < k < |items| ==> items[j].id != items[k].id
  }

  /** The name shown for a record: its own if it is the first of that name, else a numbered one that nobody bears. */
  ghost predicate ShownWell(items: seq<Row>, out: map<string, Name>, j: nat)
    requires j < |items|
  {
    && items[j].id in out
    && if forall k :: 0 <= k < j ==> items[k].name != items[j].name then out[items[j].id] == items[j].name
       else
         && (exists n: nat :: n >= 2 && out[items[j].id] == Numbered(items[j].name, n))
         && forall k :: 0 <= k < |items| ==> items[k].name != out[items[j].id]
  }

  lemma FirstByIndex(items: seq<Row>, firstOf: map<Name, string>, i: nat)
    requires UniqueIds(items) && FirstOf(items, firstOf) && i < |items|
    ensures firstOf[items[i].name] == items[i].id <==> forall k :: 0 <= k < i ==> items[k].name != items[i].name
  {
    var name := items[i].name;
    var j :| && 0 <= j < |items| && items[j] == Row(firstOf[name], name)
             && forall k :: 0 <= k < j ==> items[k].name != name;
    assert firstOf[name] == items[i].id ==> i == j;
  }

  method NameOne(items: seq<Row>, firstOf: map<Name, string>, taken: set<Name>, out: map<string, Name>, i: nat)
    returns (taken': set<Name>, out': map<string, Name>)
    requires i < |items| && FirstOf(items, firstOf) && NamesSoFar(firstOf, taken, out)
    ensures NamesSoFar(firstOf, taken', out') && taken <= taken'
    ensures out'.Keys == out.Keys + {items[i].id}
    ensures forall id :: id in out && id != items[i].id ==> out'[id] == out[id]
    ensures UniqueIds(items) ==> ShownWell(items, out', i)
  {
    var it := items[i];
    ghost var unique := UniqueIds(items);
    if unique {
      FirstByIndex(items, firstOf, i);
    }
    if firstOf[it.name] == it.id {
      taken', out' := taken, out[it.id := it.name];
    } else {
      var name := FreeName(it.name, taken);
      taken', out' := taken + {name}, out[it.id := name];
    }
  }

  method RealNames(items: seq<Row>, firstOf: map<Name, string>) returns (taken: set<Name>)
    requires FirstOf(items, firstOf)
    ensures firstOf.Keys <= taken
  {
    taken := {};
    for i := 0 to |items|
      invariant forall j :: 0 <= j < i && firstOf[items[j].name] == items[j].id ==> items[j].name in taken
    {
      if firstOf[items[i].name] == items[i].id {
        taken := taken + {items[i].name};
      }
    }
  }

  ghost function RowIds(items: seq<Row>): set<string> {
    set it | it in items :: it.id
  }

  lemma RowIdsStep(items: seq<Row>, i: nat)
    requires i < |items|
    ensures RowIds(items[..i + 1]) == RowIds(items[..i]) + {items[i].id}
  {
    assert items[..i + 1] == items[..i] + [items[i]];
  }

  ghost predicate ShownUpTo(items: seq<Row>, out: map<string, Name>, i: nat)
    requires i <= |items|
  {
    forall j :: 0 <= j < i ==> ShownWell(items, out, j)
  }

  lemma StillShown(items: seq<Row>, before: map<string, Name>, out: map<string, Name>, i: nat)
    requires i < |items| && out.Keys == before.Keys + {items[i].id} && UniqueIds(items)
    requires forall id :: id in before && id != items[i].id ==> out[id] == before[id]
    requires ShownUpTo(items, before, i) && ShownWell(items, out, i)
    ensures ShownUpTo(items, out, i + 1)
  {
    forall j | 0 <= j < i
      ensures ShownWell(items, out, j)
    {
      assert ShownWell(items, before, j) && items[j].id != items[i].id;
    }
  }

  /** Every record is shown, under a name of its own; real names go to their first bearers. */
  method ShownNames(items: seq<Row>) returns (out: map<string, Name>)
    ensures out.Keys == RowIds(items)
    ensures forall id, jd :: id in out && jd in out && out[id] == out[jd] ==> id == jd
    ensures UniqueIds(items) ==> ShownUpTo(items, out, |items|)
  {
    var firstOf := FindFirst(items);
    var taken := RealNames(items, firstOf);
    out := map[];
    ghost var unique := UniqueIds(items);
    for i := 0 to |items|
      invariant NamesSoFar(firstOf, taken, out)
      invariant out.Keys == RowIds(items[..i])
      invariant unique ==> ShownUpTo(items, out, i)
    {
      RowIdsStep(items, i);
      ghost var before := out;
      taken, out := NameOne(items, firstOf, taken, out, i);
      if unique {
        StillShown(items, before, out, i);
      }
    }
    assert items[..|items|] == items;
  }
}
