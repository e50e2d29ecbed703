/** Each step that is not careful about a record lets a locally deleted record come back. */
module SyncReturns {
  import opened SyncDeletes
  import opened SyncProtocol
  import opened Wrappers

  // ---------- Continuing a run ----------

  ghost predicate Path(s: State, steps: seq<Step>, t: State)
    decreases |steps|
  {
    if steps == [] then s == t else Enabled(s, steps[0]) && Path(Apply(s, steps[0]), steps[1..], t)
  }

  /** Some steps lead from s to t. */
  ghost predicate Leads(s: State, t: State) {
    exists steps :: Path(s, steps, t)
  }

  lemma Stays(s: State)
    ensures Leads(s, s)
  {
    assert Path(s, [], s);
  }

  lemma Goes(s: State, step: Step)
    requires Enabled(s, step)
    ensures Leads(s, Apply(s, step))
  {
    assert [step][1..] == [];
    assert Path(Apply(s, step), [], Apply(s, step));
    assert Path(s, [step], Apply(s, step));
  }

  lemma {:induction false} PathOn(s: State, p: seq<Step>, t: State, q: seq<Step>, u: State)
    requires Path(s, p, t) && Path(t, q, u)
    ensures Path(s, p + q, u)
    decreases |p|
  {
    if p == [] {
      assert p + q == q;
    } else {
      PathOn(Apply(s, p[0]), p[1..], t, q, u);
      assert (p + q)[1..] == p[1..] + q;
    }
  }

  lemma LeadsOn(s: State, t: State, u: State)
    requires Leads(s, t) && Leads(t, u)
    ensures Leads(s, u)
  {
    var p :| Path(s, p, t);
    var q :| Path(t, q, u);
    PathOn(s, p, t, q, u);
  }

  /** One step more. */
  lemma Then(s: State, t: State, step: Step)
    requires Leads(s, t) && Enabled(t, step)
    ensures Leads(s, Apply(t, step))
  {
    Goes(t, step);
    LeadsOn(s, t, Apply(t, step));
  }

  lemma {:induction false} PathIsRun(states: seq<State>, steps: seq<Step>, more: seq<Step>, t: State)
      returns (states': seq<State>)
    requires IsRun(states, steps) && Path(states[|steps|], more, t)
    ensures IsRun(states', steps + more) && states <= states' && states'[|steps + more|] == t
    decreases |more|
  {
    if more == [] {
      states' := states;
      assert steps + more == steps;
    } else {
      var s := states[|steps|];
      states' := PathIsRun(states + [Apply(s, more[0])], steps + [more[0]], more[1..], t);
      assert steps + more == steps + [more[0]] + more[1..];
    }
  }

  // ---------- A sync can always finish ----------

  /** A record that is on the server, not hidden, and taken out by a local delete. */
  ghost predicate Exposed(s: State, id: Id) {
    && id in s.server.records && id !in s.journal.hidden && id in s.local.forgotten
    && (id in s.journal.touched ==> s.journal.touched[id] <= s.journal.clock)
  }

  /** Steps of a sync leave the server, and what is hidden and forgotten, alone. */
  ghost predicate OnlySync(s: State, t: State) {
    && t.server == s.server && t.local == s.local && t.worker == s.worker
    && t.journal.hidden == s.journal.hidden && t.journal.clock == s.journal.clock
    && forall id :: id in t.journal.touched ==> id in s.journal.touched && t.journal.touched[id] == s.journal.touched[id]
  }

  lemma ExposedStays(s: State, t: State, id: Id)
    requires Exposed(s, id) && OnlySync(s, t)
    ensures Exposed(t, id)
  {
  }

  /** Drops everything that is to be dropped. */
  lemma {:induction false} DropAll(s: State) returns (t: State)
    requires s.sync.Applying?
    ensures Leads(s, t) && t == s.(sync := s.sync.(gone := {}), index := t.index) && t.index.Keys <= s.index.Keys
    decreases |s.sync.gone|
  {
    if s.sync.gone == {} {
      t := s;
      Stays(s);
    } else {
      var x :| x in s.sync.gone;
      var u := Apply(s, ApplyDrop(x));
      t := DropAll(u);
      Goes(s, ApplyDrop(x));
      LeadsOn(s, u, t);
    }
  }

  function Pending(y: Sync): set<Id>
    requires y.Applying?
  {
    y.added.Keys + y.modified.Keys
  }

  /** Deals with every record of an apply phase that has nothing to drop, letting none pass. */
  lemma {:induction false} SkipAll(s: State) returns (t: State)
    requires s.sync.Applying? && s.sync.gone == {} && s.sync.checked.None?
    ensures Leads(s, t) && t == s.(sync := Applying(s.sync.seq0, {}, map[], map[], None))
    decreases |Pending(s.sync)|
  {
    if Pending(s.sync) == {} {
      t := s;
      assert s.sync.added == map[] && s.sync.modified == map[];
      Stays(s);
    } else {
      var x :| x in Pending(s.sync);
      var u := SkipOne(s, x);
      OneLess(s.sync, x);
      t := SkipAll(u);
      LeadsOn(s, u, t);
    }
  }

  lemma OneLess(y: Sync, x: Id)
    requires y.Applying? && x in Pending(y)
    ensures |Pending(WithoutRecord(y, x))| < |Pending(y)| && WithoutRecord(y, x).seq0 == y.seq0
    ensures WithoutRecord(y, x).gone == y.gone && WithoutRecord(y, x).checked == None
  {
    assert Pending(WithoutRecord(y, x)) == Pending(y) - {x};
  }

  lemma SkipOne(s: State, x: Id) returns (u: State)
    requires s.sync.Applying? && s.sync.gone == {} && s.sync.checked.None? && x in Pending(s.sync)
    ensures Leads(s, u) && u == s.(sync := WithoutRecord(s.sync, x))
  {
    u := Apply(s, ApplyCheck(x));
    Goes(s, ApplyCheck(x));
    if u.sync.checked.Some? {
      Then(s, u, ApplyDecide(false));
      u := Apply(u, ApplyDecide(false));
    }
  }

  lemma FinishApply(s: State) returns (t: State)
    requires s.sync.Applying?
    ensures Leads(s, t) && t.sync.Off? && OnlySync(s, t)
  {
    t := s;
    Stays(s);
    if s.sync.checked.Some? {
      t := Apply(s, ApplyDecide(false));
      Goes(s, ApplyDecide(false));
    }
    var u := DropAll(t);
    LeadsOn(s, t, u);
    t := SkipAll(u);
    LeadsOn(s, u, t);
    Then(s, t, ApplyEnd);
    t := Apply(t, ApplyEnd);
    Then(s, t, SyncEnd);
    t := Apply(t, SyncEnd);
  }

  lemma FinishWork(s: State) returns (t: State)
    requires HasWork(s.sync) || s.sync.Applied?
    ensures Leads(s, t) && t.sync.Off? && OnlySync(s, t)
  {
    if s.sync.Applied? {
      t := Apply(s, SyncEnd);
      Goes(s, SyncEnd);
    } else {
      var u := s;
      Stays(s);
      if s.sync.Decoded? {
        u := Apply(s, ApplyBegin);
        Goes(s, ApplyBegin);
      }
      t := FinishApply(u);
      LeadsOn(s, u, t);
    }
  }

  /** From a first listing to the complete one. */
  lemma FinishListing(s: State) returns (t: State)
    requires s.sync.GotList? || s.sync.GotGone? || s.sync.GotAll?
    ensures Leads(s, t) && t.sync.GotAll? && t == s.(sync := t.sync) && t.sync.seq0 == s.sync.seq0
    ensures forall id :: id in s.sync.listed && s.sync.listed[id].body ==>
              id in t.sync.listed && t.sync.listed[id].body
  {
    t := s;
    Stays(s);
    if t.sync.GotList? {
      Then(s, t, SyncGone);
      t := Apply(t, SyncGone);
    }
    if t.sync.GotGone? && !t.sync.filtered {
      Then(s, t, SyncFilter);
      t := Apply(t, SyncFilter);
    }
    if t.sync.GotGone? {
      Then(s, t, SyncRelist);
      t := Apply(t, SyncRelist);
    }
  }

  lemma FinishSync(s: State) returns (t: State)
    ensures Leads(s, t) && t.sync.Off? && OnlySync(s, t)
  {
    var u := s;
    Stays(s);
    if s.sync.Started? {
      u := Apply(s, SyncList);
      Goes(s, SyncList);
    }
    if HasListing(u.sync) {
      var v := FinishListing(u);
      LeadsOn(s, u, v);
      Then(s, v, SyncCompute);
      u := Apply(v, SyncCompute);
    }
    if u.sync.Off? {
      t := u;
    } else {
      t := FinishWork(u);
      LeadsOn(s, u, t);
    }
  }

  // ---------- The next sync adds the record ----------

  /** A sync that starts on an exposed record, up to the apply phase's check of it. */
  lemma PlanToAdd(s: State, id: Id) returns (t: State)
    requires s.sync.Off? && Exposed(s, id) && id !in s.index && id !in s.stale
    ensures Leads(s, t) && t.sync.Applying? && t.sync.checked.None?
    ensures t == s.(sync := t.sync, stale := t.stale) && t.sync.seq0 == s.journal.clock && id in t.sync.added && id !in t.sync.modified
  {
    var u := Apply(s, SyncStart);
    Goes(s, SyncStart);
    Then(s, u, SyncList);
    u := Apply(u, SyncList);
    assert u.sync.listed[id].body;
    var v := FinishListing(u);
    LeadsOn(s, u, v);
    Then(s, v, SyncCompute);
    t := Apply(v, SyncCompute);
    Then(s, t, ApplyBegin);
    t := Apply(t, ApplyBegin);
  }

  lemma NextSyncAdds(s: State, id: Id) returns (t: State)
    requires s.sync.Off? && Exposed(s, id)
    ensures Leads(s, t) && id in t.index
  {
    if id in s.index {
      t := s;
      Stays(s);
    } else if id in s.stale {
      Goes(s, HealKeep(id));
      t := Apply(s, HealKeep(id));
    } else {
      var u := PlanToAdd(s, id);
      t := DropAll(u);
      LeadsOn(s, u, t);
      Then(s, t, ApplyCheck(id));
      t := Apply(t, ApplyCheck(id));
      Then(s, t, ApplyDecide(true));
      t := Apply(t, ApplyDecide(true));
    }
  }

  // ---------- The four ways back ----------

  /** A delete that overtakes its record's create: the create puts the record back. */
  lemma OvertakenCreateReadds(s: State, id: Id) returns (t: State)
    requires Enabled(s, ForgetRemove(id)) && id in s.local.creating
    ensures Leads(Apply(s, ForgetRemove(id)), t) && id in t.index
  {
    var u := Apply(s, ForgetRemove(id));
    Goes(u, LocalInsert(id));
    t := Apply(u, LocalInsert(id));
  }

  /** A delete that healing overtakes: when healing puts the record back, it is there again. */
  lemma OvertakingHealReadds(s: State, id: Id) returns (t: State)
    requires Enabled(s, ForgetRemove(id)) && id in s.stale
    ensures Leads(Apply(s, ForgetRemove(id)), t) && id in t.index
  {
    var u := Apply(s, ForgetRemove(id));
    Goes(u, HealKeep(id));
    t := Apply(u, HealKeep(id));
  }

  /** A refused delete of a record the server has: the record is shown again, and the next sync adds it. */
  lemma RefusedDeleteReadds(s: State, id: Id) returns (t: State)
    requires Always(s, id) && Enabled(s, WorkerRefused(id)) && id in s.server.records
    ensures Leads(Apply(s, WorkerRefused(id)), t) && id in t.index
  {
    var u := Apply(s, WorkerRefused(id));
    t := Apply(u, WorkerTouch(id));
    Goes(u, WorkerTouch(id));
    Then(u, t, WorkerUnhide(id));
    t := Apply(t, WorkerUnhide(id));
    assert Exposed(t, id);
    var v := FinishSync(t);
    ExposedStays(t, v, id);
    LeadsOn(u, t, v);
    t := NextSyncAdds(v, id);
    LeadsOn(u, v, t);
  }

  /** The apply phase checks a record between the two halves of its forgetting: it adds the record back, after the delete
      worker has shown it again if it was hidden. */
  lemma SplitForgetReadds(s: State, id: Id) returns (t: State)
    requires Always(s, id) && Enabled(s, ApplyCheck(id))
    requires id in s.local.untouched && id in s.sync.added && !s.TouchedAfter(id, s.sync.seq0)
    ensures Leads(Apply(s, ApplyCheck(id)), t) && id in t.index
  {
    var u := Apply(s, ApplyCheck(id));
    t := u;
    Stays(u);
    if id in u.journal.hidden {
      t := ShowAgain(u, id);
    }
    Then(u, t, ApplyDecide(true));
    t := Apply(t, ApplyDecide(true));
  }

  /** The delete worker deletes a hidden record and shows it again. */
  lemma ShowAgain(u: State, id: Id) returns (t: State)
    requires id in u.journal.hidden && id in u.local.forgotten
    ensures Leads(u, t) && t.sync == u.sync && t.index == u.index && id !in t.journal.hidden
  {
    t := Apply(u, Enqueue(id));
    Goes(u, Enqueue(id));
    Then(u, t, WorkerDelete(id));
    t := Apply(t, WorkerDelete(id));
    Then(u, t, WorkerTouch(id));
    t := Apply(t, WorkerTouch(id));
    Then(u, t, WorkerUnhide(id));
    t := Apply(t, WorkerUnhide(id));
  }

  /** In every run: when a step is not careful about a record, a local delete has taken that record out, and the run can
      go on from there so that it is back in the index. So being careful is needed as well as enough. */
  lemma CarelessReadds(states: seq<State>, steps: seq<Step>, i: nat, id: Id)
    returns (states': seq<State>, steps': seq<Step>)
    requires IsRun(states, steps) && i < |steps| && !CarefulFor(states[i], steps[i], id)
    ensures id in states[i + 1].local.forgotten
    ensures IsRun(states', steps') && states[..i + 2] <= states' && steps[..i + 1] <= steps'
    ensures id in states'[|steps'|].index
  {
    var s, step := states[i], steps[i];
    AlwaysHolds(states, steps, i, id);
    var t;
    if step == ForgetRemove(id) && id in s.stale {
      t := OvertakingHealReadds(s, id);
    } else if step == ForgetRemove(id) {
      t := OvertakenCreateReadds(s, id);
    } else if step == WorkerRefused(id) {
      t := RefusedDeleteReadds(s, id);
    } else {
      t := SplitForgetReadds(s, id);
    }
    var more :| Path(states[i + 1], more, t);
    RunPrefix(states, steps, i + 1);
    states' := PathIsRun(states[..i + 2], steps[..i + 1], more, t);
    steps' := steps[..i + 1] + more;
  }

  lemma RunPrefix(states: seq<State>, steps: seq<Step>, n: nat)
    requires IsRun(states, steps) && n <= |steps|
    ensures IsRun(states[..n + 1], steps[..n])
  {
  }

  // ---------- Careful runs get to each of them ----------

  /** A run to s that is careful about the record throughout. */
  ghost predicate CarefulTo(states: seq<State>, steps: seq<Step>, s: State, id: Id) {
    |states| == |steps| + 1 && states[|steps|] == s && CarefulRun(states, steps, |steps|, id)
  }

  lemma CarefulThen(states: seq<State>, steps: seq<Step>, s: State, id: Id, step: Step)
    returns (states': seq<State>, steps': seq<Step>, s': State)
    requires CarefulTo(states, steps, s, id) && Enabled(s, step) && CarefulFor(s, step, id)
    ensures s' == Apply(s, step) && CarefulTo(states', steps', s', id)
  {
    s' := Apply(s, step);
    states', steps' := states + [s'], steps + [step];
    forall k | 0 <= k < |steps'|
      ensures Moves(states'[k], steps'[k], states'[k + 1], id)
    {
      assert k < |steps| ==> Moves(states[k], steps[k], states[k + 1], id);
    }
    MovesRun(states', steps', id);
  }

  /** A careful step from s to t. */
  ghost predicate Moves(s: State, step: Step, t: State, id: Id) {
    Enabled(s, step) && t == Apply(s, step) && CarefulFor(s, step, id)
  }

  lemma MovesRun(states: seq<State>, steps: seq<Step>, id: Id)
    requires |states| == |steps| + 1 && Initial(states[0])
    requires forall k {:trigger steps[k]} :: 0 <= k < |steps| ==> Moves(states[k], steps[k], states[k + 1], id)
    ensures CarefulRun(states, steps, |steps|, id)
  {
  }

  /** A vault with some records, all known here, and nothing under way. */
  ghost function Quiet(records: map<Id, Fingerprint>): State {
    State(Server(records, records.Keys), records, Journal(0, map[], {}), Local(map[], {}, {}, {}), Worker({}, {}, {}),
      map[], Off)
  }

  lemma QuietRun(records: map<Id, Fingerprint>, id: Id) returns (states: seq<State>, steps: seq<Step>)
    ensures CarefulTo(states, steps, Quiet(records), id)
  {
    states, steps := [Quiet(records)], [];
  }

  /** A record is posted and deleted before its create has returned. */
  lemma CreateCanBeOvertaken(id: Id) returns (states: seq<State>, steps: seq<Step>, s: State)
    ensures CarefulTo(states, steps, s, id) && Enabled(s, ForgetRemove(id)) && !CarefulFor(s, ForgetRemove(id), id)
  {
    states, steps := QuietRun(map[], id);
    s := Quiet(map[]);
    states, steps, s := CarefulThen(states, steps, s, id, LocalPost(id, 1));
    states, steps, s := CarefulThen(states, steps, s, id, DeleteNow(id));
  }

  /** A record is hidden, forgotten and handed to the worker, whose delete the server refuses. */
  lemma DeleteCanBeRefused(id: Id) returns (states: seq<State>, steps: seq<Step>, s: State)
    ensures CarefulTo(states, steps, s, id) && Enabled(s, WorkerRefused(id)) && !CarefulFor(s, WorkerRefused(id), id)
  {
    states, steps := QuietRun(map[id := 1], id);
    s := Quiet(map[id := 1]);
    states, steps, s := CarefulThen(states, steps, s, id, Hide(id));
    states, steps, s := CarefulThen(states, steps, s, id, ForgetRemove(id));
    states, steps, s := CarefulThen(states, steps, s, id, Enqueue(id));
  }

  /** The only record has changed on the server. */
  ghost function Changed(id: Id): State {
    Quiet(map[id := 1]).(server := Server(map[id := 2], {id}))
  }

  lemma ChangeSeen(id: Id) returns (states: seq<State>, steps: seq<Step>)
    ensures CarefulTo(states, steps, Changed(id).(sync := GotList(0, map[id := Listed(2, true)])), id)
  {
    states, steps := QuietRun(map[id := 1], id);
    var s := Quiet(map[id := 1]);
    states, steps, s := CarefulThen(states, steps, s, id, RemoteModify(id, 2));
    assert s.server.records == map[id := 2] && s == Changed(id);
    states, steps, s := CarefulThen(states, steps, s, id, SyncStart);
    states, steps, s := CarefulThen(states, steps, s, id, SyncList);
    assert s.sync.listed == map[id := Listed(2, true)];
  }

  /** A sync that has listed it. */
  lemma ChangeListed(id: Id) returns (states: seq<State>, steps: seq<Step>, s: State)
    ensures CarefulTo(states, steps, s, id) && s.index == map[id := 1] && s.local == Quiet(map[]).local
    ensures s.sync == GotAll(0, map[id := Listed(2, true)], {}) && s.journal == Quiet(map[]).journal
    ensures s.stale == map[] && id in s.server.posted
  {
    s := Changed(id).(sync := GotList(0, map[id := Listed(2, true)]));
    states, steps := ChangeSeen(id);
    states, steps, s := CarefulThen(states, steps, s, id, SyncGone);
    states, steps, s := CarefulThen(states, steps, s, id, SyncFilter);
  }

  /** It is deleted and taken out of the index just before that sync looks there. */
  lemma ForgottenUnjournalled(id: Id) returns (states: seq<State>, steps: seq<Step>, s: State)
    ensures CarefulTo(states, steps, s, id) && s.index == map[] && id in s.local.untouched
    ensures s.sync == GotAll(0, map[id := Listed(2, true)], {}) && s.journal == Quiet(map[]).journal && s.stale == map[]
  {
    states, steps, s := ChangeListed(id);
    states, steps, s := CarefulThen(states, steps, s, id, DeleteNow(id));
    states, steps, s := CarefulThen(states, steps, s, id, ForgetRemove(id));
    assert s.index == map[];
  }

  lemma ForgettingCanBeSplit(id: Id) returns (states: seq<State>, steps: seq<Step>, s: State)
    ensures CarefulTo(states, steps, s, id) && Enabled(s, ApplyCheck(id)) && !CarefulFor(s, ApplyCheck(id), id)
  {
    states, steps, s := ForgottenUnjournalled(id);
    states, steps, s := CarefulThen(states, steps, s, id, SyncCompute);
    states, steps, s := CarefulThen(states, steps, s, id, ApplyBegin);
  }

  /** A record that is hidden to be deleted, and an identical copy of it. */
  ghost function Twins(id: Id): State {
    var s := Quiet(map["" := 1, id := 1]);
    s.(journal := Journal(0, map[], {id}), local := s.local.(deleting := {id}))
  }

  lemma TwinsRun(id: Id) returns (states: seq<State>, steps: seq<Step>)
    ensures CarefulTo(states, steps, Twins(id), id)
  {
    var s := Quiet(map["" := 1, id := 1]);
    states, steps := QuietRun(map["" := 1, id := 1], id);
    states, steps, s := CarefulThen(states, steps, s, id, Hide(id));
    assert s == Twins(id);
  }

  ghost function TwinsListed(id: Id): Listing {
    map["" := Listed(1, false), id := Listed(1, false)]
  }

  lemma TwinsAreListed(id: Id) returns (states: seq<State>, steps: seq<Step>)
    ensures CarefulTo(states, steps, Twins(id).(sync := GotList(0, TwinsListed(id))), id)
  {
    var s := Twins(id);
    states, steps := TwinsRun(id);
    states, steps, s := CarefulThen(states, steps, s, id, SyncStart);
    states, steps, s := CarefulThen(states, steps, s, id, SyncList);
    assert s.sync.listed == TwinsListed(id);
  }

  /** A sync over the two finds nothing to drop. */
  lemma TwinsStay(id: Id) returns (states: seq<State>, steps: seq<Step>)
    ensures CarefulTo(states, steps, Twins(id).(sync := GotAll(0, TwinsListed(id), {})), id)
  {
    var s := Twins(id).(sync := GotList(0, TwinsListed(id)));
    states, steps := TwinsAreListed(id);
    states, steps, s := CarefulThen(states, steps, s, id, SyncGone);
    states, steps, s := CarefulThen(states, steps, s, id, SyncFilter);
    assert s.sync.gone == {};
  }

  /** Nor to add or to change. */
  lemma TwinsUnchanged(id: Id) returns (states: seq<State>, steps: seq<Step>)
    ensures CarefulTo(states, steps, Twins(id).(sync := Applying(0, {}, map[], map[], None)), id)
  {
    var s := Twins(id).(sync := GotAll(0, TwinsListed(id), {}));
    states, steps := TwinsStay(id);
    states, steps, s := CarefulThen(states, steps, s, id, SyncCompute);
    assert s.sync.added == map[] && s.sync.modified == map[] && s.stale == map[];
    states, steps, s := CarefulThen(states, steps, s, id, ApplyBegin);
  }

  /** Healing hides the record before its delete takes it out of the index. */
  lemma HealingCanOvertake(id: Id) returns (states: seq<State>, steps: seq<Step>, s: State)
    requires id != ""
    ensures CarefulTo(states, steps, s, id) && Enabled(s, ForgetRemove(id)) && !CarefulFor(s, ForgetRemove(id), id)
    ensures id in s.stale
  {
    s := Twins(id).(sync := Applying(0, {}, map[], map[], None));
    states, steps := TwinsUnchanged(id);
    assert "" in s.index && s.index[""] == s.index[id];
    states, steps, s := CarefulThen(states, steps, s, id, ApplyHeal(id));
    states, steps, s := CarefulThen(states, steps, s, id, ApplyEnd);
  }
}
