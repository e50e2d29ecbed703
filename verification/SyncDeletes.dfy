/** When a locally deleted record stays deleted. */
module SyncDeletes {
  import opened SyncProtocol
  import opened Wrappers

  /** The steps about one record that keep its delete safe. The apply phase does not check a record that it is going to add
      between the record's removal from the index and its journal entry, unless an older entry stops it; no delete
      overtakes the create of the record, nor is overtaken by healing that hides it; and the server does not refuse to
      delete a record it has. */
  ghost predicate CarefulFor(s: State, step: Step, id: Id)
    requires Enabled(s, step)
  {
    && (step == ApplyCheck(id) && id in s.local.untouched && id in s.sync.added ==> s.TouchedAfter(id, s.sync.seq0))
    && (step == ForgetRemove(id) ==> id !in s.local.creating && id !in s.stale)
    && (step == WorkerRefused(id) ==> id !in s.server.records)
  }

  // ---------- What every step keeps ----------

  ghost predicate ClockOk(s: State, id: Id) {
    && (id in s.journal.touched ==> s.journal.touched[id] <= s.journal.clock)
    && (!s.sync.Off? ==> s.sync.seq0 <= s.journal.clock)
  }

  /** No record is both to be added and to be changed. */
  ghost predicate WorkApart(s: State, id: Id) {
    HasWork(s.sync) ==> !(id in s.sync.added && id in s.sync.modified)
  }

  ghost predicate Journalled(s: State, id: Id) {
    ClockOk(s, id) && WorkApart(s, id)
  }

  ghost predicate DeletePosted(s: State, id: Id) {
    && (id in s.local.untouched || id in s.worker.queue ==> id in s.local.forgotten)
    && (id in s.local.deleting || id in s.local.forgotten || id in s.worker.finished || id in s.worker.unhiding ==> id in s.server.posted)
  }

  /** What holds of every record in every run. */
  ghost predicate Always(s: State, id: Id) {
    RecordPosted(s, id) && WorkPosted(s, id) && Journalled(s, id) && DeletePosted(s, id)
  }

  /** What a local delete took out, or is about to, has left the server or is hidden; what the delete worker has finished
      has left it. */
  ghost predicate DeadOrHidden(s: State, id: Id) {
    && (id in s.local.deleting || id in s.local.forgotten ==> id !in s.server.records || id in s.journal.hidden)
    && (id in s.worker.finished || id in s.worker.unhiding ==> id !in s.server.records)
  }

  /** If a sync has listed it and a local delete took it out, it is journalled since that sync began, or still hidden, or
      just about to be journalled. */
  ghost predicate ListedDeadKnown(s: State, id: Id) {
    HasListing(s.sync) && id in s.sync.listed && (id in s.local.forgotten || id in s.worker.unhiding) && id !in s.local.untouched ==>
      s.TouchedAfter(id, s.sync.seq0) || (id in s.journal.hidden && id !in s.worker.unhiding)
  }

  /** If a sync is going to add it and a local delete took it out, it is journalled since that sync began, or about to
      be; and the apply phase has not let it pass. */
  ghost predicate AddedDeadKnown(s: State, id: Id) {
    HasWork(s.sync) && id in s.sync.added && id in s.local.forgotten ==>
      && (id !in s.local.untouched ==> s.TouchedAfter(id, s.sync.seq0))
      && (s.sync.Applying? ==> s.sync.checked != Some(id))
  }

  /** If a local delete took it out, it is not in the index, nor about to be put there by its own create or by healing. */
  ghost predicate DeadStaysDead(s: State, id: Id) {
    id in s.local.forgotten ==> id !in s.index && id !in s.local.creating && id !in s.stale
  }

  ghost predicate Inv(s: State, id: Id) {
    Always(s, id) && DeadOrHidden(s, id) && ListedDeadKnown(s, id) && AddedDeadKnown(s, id) && DeadStaysDead(s, id)
  }

  lemma ClockBySync(s: State, step: Step, id: Id)
    requires ClockOk(s, id) && Enabled(s, step) && IsSyncStep(step)
    ensures ClockOk(Apply(s, step), id)
  {
    SyncStepsKeepRest(s, step);
  }

  lemma WorkApartBySync(s: State, step: Step, id: Id)
    requires WorkApart(s, id) && Enabled(s, step) && IsSyncStep(step)
    ensures WorkApart(Apply(s, step), id)
  {
  }

  lemma JournalledKept(s: State, step: Step, id: Id)
    requires Journalled(s, id) && Enabled(s, step)
    ensures Journalled(Apply(s, step), id)
  {
    if IsSyncStep(step) {
      ClockBySync(s, step, id);
      WorkApartBySync(s, step, id);
    } else {
      OtherStepsKeepSync(s, step);
    }
  }

  lemma DeletePostedKept(s: State, step: Step, id: Id)
    requires DeletePosted(s, id) && RecordPosted(s, id) && Enabled(s, step)
    ensures DeletePosted(Apply(s, step), id)
  {
    if IsSyncStep(step) {
      SyncStepsKeepRest(s, step);
    }
  }

  lemma AlwaysKept(s: State, step: Step, id: Id)
    requires Always(s, id) && Enabled(s, step)
    ensures Always(Apply(s, step), id)
  {
    RecordPostedKept(s, step, id);
    WorkPostedKept(s, step, id);
    JournalledKept(s, step, id);
    DeletePostedKept(s, step, id);
  }

  lemma DeadOrHiddenByOthers(s: State, step: Step, id: Id)
    requires DeadOrHidden(s, id) && DeletePosted(s, id) && RecordPosted(s, id)
    requires Enabled(s, step) && !IsSyncStep(step) && CarefulFor(s, step, id)
    ensures DeadOrHidden(Apply(s, step), id)
  {
  }

  lemma DeadOrHiddenKept(s: State, step: Step, id: Id)
    requires DeadOrHidden(s, id) && DeletePosted(s, id) && RecordPosted(s, id) && Enabled(s, step) && CarefulFor(s, step, id)
    ensures DeadOrHidden(Apply(s, step), id)
  {
    if IsSyncStep(step) {
      SyncStepsKeepRest(s, step);
    } else {
      DeadOrHiddenByOthers(s, step, id);
    }
  }

  lemma ListedDeadKnownKept(s: State, step: Step, id: Id)
    requires DeadOrHidden(s, id) && ListedDeadKnown(s, id) && Journalled(s, id) && Enabled(s, step)
    ensures ListedDeadKnown(Apply(s, step), id)
  {
  }

  lemma AddedDeadKnownBySync(s: State, step: Step, id: Id)
    requires ListedDeadKnown(s, id) && AddedDeadKnown(s, id)
    requires Enabled(s, step) && IsSyncStep(step) && CarefulFor(s, step, id)
    ensures AddedDeadKnown(Apply(s, step), id)
  {
  }

  lemma AddedDeadKnownByOthers(s: State, step: Step, id: Id)
    requires AddedDeadKnown(s, id) && Journalled(s, id) && Enabled(s, step) && !IsSyncStep(step)
    ensures AddedDeadKnown(Apply(s, step), id)
  {
    OtherStepsKeepSync(s, step);
  }

  lemma AddedDeadKnownKept(s: State, step: Step, id: Id)
    requires ListedDeadKnown(s, id) && AddedDeadKnown(s, id) && Journalled(s, id)
    requires Enabled(s, step) && CarefulFor(s, step, id)
    ensures AddedDeadKnown(Apply(s, step), id)
  {
    if IsSyncStep(step) {
      AddedDeadKnownBySync(s, step, id);
    } else {
      AddedDeadKnownByOthers(s, step, id);
    }
  }

  lemma DeadStaysDeadBySync(s: State, step: Step, id: Id)
    requires AddedDeadKnown(s, id) && DeadStaysDead(s, id) && Enabled(s, step) && IsSyncStep(step)
    ensures DeadStaysDead(Apply(s, step), id)
  {
    SyncStepsKeepRest(s, step);
  }

  lemma DeadStaysDeadByOthers(s: State, step: Step, id: Id)
    requires DeadStaysDead(s, id) && DeletePosted(s, id)
    requires Enabled(s, step) && !IsSyncStep(step) && CarefulFor(s, step, id)
    ensures DeadStaysDead(Apply(s, step), id)
  {
  }

  lemma DeadStaysDeadKept(s: State, step: Step, id: Id)
    requires AddedDeadKnown(s, id) && DeadStaysDead(s, id) && DeletePosted(s, id)
    requires Enabled(s, step) && CarefulFor(s, step, id)
    ensures DeadStaysDead(Apply(s, step), id)
  {
    if IsSyncStep(step) {
      DeadStaysDeadBySync(s, step, id);
    } else {
      DeadStaysDeadByOthers(s, step, id);
    }
  }

  lemma {:induction false} AlwaysHolds(states: seq<State>, steps: seq<Step>, i: nat, id: Id)
    requires IsRun(states, steps) && i < |states|
    ensures Always(states[i], id)
  {
    if i == 0 {
    } else {
      AlwaysHolds(states, steps, i - 1, id);
      AlwaysKept(states[i - 1], steps[i - 1], id);
    }
  }

  lemma InvKept(s: State, step: Step, id: Id)
    requires Inv(s, id) && Enabled(s, step) && CarefulFor(s, step, id)
    ensures Inv(Apply(s, step), id)
  {
    AlwaysKept(s, step, id);
    DeadOrHiddenKept(s, step, id);
    ListedDeadKnownKept(s, step, id);
    AddedDeadKnownKept(s, step, id);
    DeadStaysDeadKept(s, step, id);
  }

  /** All steps before state j are careful about the record; nothing is asked of steps about other records. */
  ghost predicate CarefulRun(states: seq<State>, steps: seq<Step>, j: nat, id: Id) {
    IsRun(states, steps) && j < |states| && forall k {:trigger steps[k]} :: 0 <= k < j ==> CarefulFor(states[k], steps[k], id)
  }

  lemma {:induction false} InvHolds(states: seq<State>, steps: seq<Step>, i: nat, id: Id)
    requires CarefulRun(states, steps, i, id)
    ensures Inv(states[i], id)
  {
    if i == 0 {
    } else {
      InvHolds(states, steps, i - 1, id);
      InvKept(states[i - 1], steps[i - 1], id);
    }
  }

  lemma ForgottenKept(s: State, step: Step, id: Id)
    requires Enabled(s, step) && id in s.local.forgotten
    ensures id in Apply(s, step).local.forgotten
  {
    if !IsSyncStep(step) {
      OtherStepsKeepSync(s, step);
    }
  }

  lemma {:induction false} ForgottenForGood(states: seq<State>, steps: seq<Step>, i: nat, j: nat, id: Id)
    requires IsRun(states, steps) && i <= j < |states| && id in states[i].local.forgotten
    ensures id in states[j].local.forgotten
    decreases j
  {
    if i == j {
    } else {
      ForgottenForGood(states, steps, i, j - 1, id);
      ForgottenKept(states[j - 1], steps[j - 1], id);
    }
  }

  /** Once a local delete has taken a record out of the index, it is never back while the steps about this one record are
      careful, whatever happens to all others. */
  lemma NeverReadded(states: seq<State>, steps: seq<Step>, i: nat, j: nat, id: Id)
    requires i < j && CarefulRun(states, steps, j, id) && steps[i] == ForgetRemove(id)
    ensures id !in states[j].index
  {
    assert id in Apply(states[i], steps[i]).local.forgotten;
    ForgottenForGood(states, steps, i + 1, j, id);
    InvHolds(states, steps, j, id);
  }
}
