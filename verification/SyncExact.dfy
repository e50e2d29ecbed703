/** A sync brings the index up to date. */
module SyncExact {
  import opened Order
  import opened SyncDeletes
  import opened SyncProtocol
  import opened SyncReturns
  import opened Wrappers

  // ---------- A sync that runs alone ----------

  /** A step of a sync in which every listing succeeds and every record can be read. */
  ghost predicate Plain(step: Step) {
    IsSyncStep(step) && !step.SyncFail? && step != ApplyDecide(false)
  }

  /** Nothing is hidden, and nothing was touched since the sync began. */
  ghost predicate Calm(s: State, id: Id) {
    && id !in s.journal.hidden && id !in s.stale
    && (id in s.journal.touched ==> s.journal.touched[id] <= if s.sync.Off? then s.journal.clock else s.sync.seq0)
    && (!s.sync.Off? ==> s.sync.seq0 <= s.journal.clock)
  }

  /** The listing is what the server has; what it holds back is already in the index. */
  ghost predicate ListedExactly(s: State, listed: Listing, id: Id) {
    && (id in listed <==> id in s.server.records)
    && (id in listed ==>
          && listed[id].fp == s.server.records[id]
          && (!listed[id].body ==> id in s.index && s.index[id] == s.server.records[id]))
  }

  ghost predicate GoneExactly(s: State, gone: set<Id>, id: Id) {
    id in gone <==> id in s.index && id !in s.server.records
  }

  /** What is left to add and to change is what still tells the index and the server apart. */
  ghost predicate WorkExactly(s: State, added: map<Id, Fingerprint>, modified: map<Id, Fingerprint>, id: Id) {
    && (id in added <==> id in s.server.records && id !in s.index)
    && (id in added ==> added[id] == s.server.records[id])
    && (id in modified <==> id in s.server.records && id in s.index && s.index[id] != s.server.records[id])
    && (id in modified ==> modified[id] == s.server.records[id])
  }

  ghost predicate UpToDate(s: State, id: Id) {
    (id in s.index <==> id in s.server.records) && (id in s.index ==> s.index[id] == s.server.records[id])
  }

  ghost predicate Exact(s: State, id: Id) {
    Calm(s, id) &&
    match s.sync
    case Off => true
    case Started(_) => true
    case GotList(_, listed) => ListedExactly(s, listed, id)
    case GotGone(_, listed, gone, _) => ListedExactly(s, listed, id) && GoneExactly(s, gone, id)
    case GotAll(_, listed, gone) => ListedExactly(s, listed, id) && GoneExactly(s, gone, id)
    case Decoded(_, gone, added, modified) => GoneExactly(s, gone, id) && WorkExactly(s, added, modified, id)
    case Applying(_, gone, added, modified, checked) =>
      && GoneExactly(s, gone, id) && WorkExactly(s, added, modified, id)
      && (checked == Some(id) ==> id in added || id in modified)
    case Applied(_) => UpToDate(s, id)
  }

  ghost predicate NoTwoAlike(records: map<Id, Fingerprint>) {
    forall a, b :: a in records && b in records && records[a] == records[b] ==> a == b
  }

  ghost predicate ExactAll(s: State) {
    NoTwoAlike(s.server.records) && forall id :: Exact(s, id)
  }

  lemma DoneUpToDate(s: State, id: Id)
    requires Exact(s, id) && s.sync.Applying? && s.sync.gone == {} && s.sync.added == map[] && s.sync.modified == map[]
    ensures UpToDate(s, id)
  {
  }

  lemma NothingToHeal(s: State, id: Id)
    requires ExactAll(s)
    ensures !Enabled(s, ApplyHeal(id))
  {
    if Enabled(s, ApplyHeal(id)) {
      var k :| k in s.index && Less(k, id) && s.index[k] == s.index[id];
      DoneUpToDate(s, k);
      DoneUpToDate(s, id);
      LessIrreflexive(id);
    }
  }

  lemma ExactWhileListing(s: State, step: Step, id: Id)
    requires Exact(s, id) && Enabled(s, step) && Plain(step) && !HasWork(s.sync)
    ensures Exact(Apply(s, step), id)
  {
    match step
    case SyncRelist => ExactAfterRelist(s, id);
    case SyncCompute => ExactAfterCompute(s, id);
    case _ =>
  }

  lemma ExactAfterRelist(s: State, id: Id)
    requires Exact(s, id) && Enabled(s, SyncRelist)
    ensures Exact(Apply(s, SyncRelist), id)
  {
  }

  lemma ExactAfterCompute(s: State, id: Id)
    requires Exact(s, id) && Enabled(s, SyncCompute)
    ensures Exact(Apply(s, SyncCompute), id)
  {
  }

  lemma ExactAfterDecision(s: State, id: Id)
    requires Exact(s, id) && Enabled(s, ApplyDecide(true)) && Exact(s, s.sync.checked.value)
    ensures Exact(Apply(s, ApplyDecide(true)), id)
  {
  }

  lemma ExactWhileApplying(s: State, step: Step, id: Id)
    requires Exact(s, id) && Enabled(s, step) && Plain(step) && HasWork(s.sync) && !step.ApplyHeal?
    requires s.sync.Applying? && s.sync.checked.Some? ==> Exact(s, s.sync.checked.value)
    ensures Exact(Apply(s, step), id)
  {
    match step
    case ApplyDecide(_) => ExactAfterDecision(s, id);
    case ApplyCheck(_) => ExactAfterCheck(s, step, id);
    case ApplyDrop(_) => ExactAfterDrop(s, step, id);
    case _ =>
  }

  lemma ExactAfterCheck(s: State, step: Step, id: Id)
    requires Exact(s, id) && step.ApplyCheck? && Enabled(s, step) 
    ensures Exact(Apply(s, step), id)
  {
  }

  lemma ExactAfterDrop(s: State, step: Step, id: Id)
    requires Exact(s, id) && step.ApplyDrop? && Enabled(s, step)
    ensures Exact(Apply(s, step), id)
  {
  }

  lemma ExactKept(s: State, step: Step)
    requires ExactAll(s) && Enabled(s, step) && Plain(step)
    ensures ExactAll(Apply(s, step)) && Apply(s, step).server == s.server
  {
    SyncStepsKeepRest(s, step);
    if step.ApplyHeal? {
      NothingToHeal(s, step.id);
    }
    forall id
      ensures Exact(Apply(s, step), id)
    {
      if HasWork(s.sync) {
        assert s.sync.Applying? && s.sync.checked.Some? ==> Exact(s, s.sync.checked.value);
        ExactWhileApplying(s, step, id);
      } else {
        ExactWhileListing(s, step, id);
      }
    }
  }

  /** Before a sync: nothing is hidden or journalled ahead of the clock, and no two records on the server are alike. */
  ghost predicate Settled(s: State) {
    && s.sync.Off? && s.journal.hidden == {} && s.stale == map[] && NoTwoAlike(s.server.records)
    && forall id :: id in s.journal.touched ==> s.journal.touched[id] <= s.journal.clock
  }

  ghost predicate AlonePart(states: seq<State>, steps: seq<Step>, a: nat, b: nat) {
    IsRun(states, steps) && a <= b < |states| && forall k {:trigger steps[k]} :: a <= k < b ==> Plain(steps[k])
  }

  lemma {:induction false} ExactHolds(states: seq<State>, steps: seq<Step>, a: nat, b: nat)
    requires AlonePart(states, steps, a, b) && Settled(states[a])
    ensures ExactAll(states[b]) && states[b].server == states[a].server
    decreases b
  {
    if a == b {
    } else {
      ExactHolds(states, steps, a, b - 1);
      assert Plain(steps[b - 1]);
      ExactKept(states[b - 1], steps[b - 1]);
    }
  }

  lemma AppliedIsExact(s: State)
    requires ExactAll(s) && s.sync.Applied?
    ensures s.index == s.server.records
  {
    forall id
      ensures id in s.index <==> id in s.server.records
      ensures id in s.index ==> s.index[id] == s.server.records[id]
    {
      assert Exact(s, id);
    }
  }

  /** In every run: when a sync that nothing interrupts has ended, the index holds exactly the server's records. */
  lemma SyncedIsExact(states: seq<State>, steps: seq<Step>, a: nat, b: nat)
    requires a <= b && AlonePart(states, steps, a, b + 1) && Settled(states[a]) && steps[b] == SyncEnd
    ensures states[b + 1].index == states[a].server.records && states[b + 1].sync.Off?
  {
    ExactHolds(states, steps, a, b);
    assert Enabled(states[b], steps[b]) && states[b + 1] == Apply(states[b], steps[b]);
    AppliedIsExact(states[b]);
  }

  // ---------- And it does end ----------

  function Phase(y: Sync): nat {
    match y
    case Off => 0
    case Started(_) => 8
    case GotList(_, _) => 7
    case GotGone(_, _, _, filtered) => if filtered then 5 else 6
    case GotAll(_, _, _) => 4
    case Decoded(_, _, _, _) => 3
    case Applying(_, _, _, _, _) => 2
    case Applied(_) => 1
  }

  function Work(y: Sync): nat {
    if y.Applying? then |y.gone| + 2 * |Pending(y)| + (if y.checked.None? then 1 else 0) else 0
  }

  ghost predicate CheckedPending(y: Sync) {
    y.Applying? && y.checked.Some? ==> y.checked.value in Pending(y)
  }

  lemma LessToCheck(s: State, step: Step)
    requires step.ApplyCheck? && Enabled(s, step)
    ensures Apply(s, step).sync.Applying? && Work(Apply(s, step).sync) < Work(s.sync)
  {
    if s.TouchedAfter(step.id, s.sync.seq0) {
      OneLess(s.sync, step.id);
    }
  }

  lemma LessToDecide(s: State, step: Step)
    requires step.ApplyDecide? && Enabled(s, step) && CheckedPending(s.sync)
    ensures Apply(s, step).sync.Applying? && Work(Apply(s, step).sync) < Work(s.sync)
  {
    OneLess(s.sync, s.sync.checked.value);
  }

  lemma LessToDrop(s: State, step: Step)
    requires step.ApplyDrop? && Enabled(s, step)
    ensures Apply(s, step).sync.Applying? && Work(Apply(s, step).sync) < Work(s.sync)
  {
  }

  lemma NearerWhileListing(s: State, step: Step)
    requires Enabled(s, step) && Plain(step) && (HasListing(s.sync) || s.sync.Started?)
    ensures Phase(Apply(s, step).sync) < Phase(s.sync)
  {
  }

  lemma NearerWhileEnding(s: State, step: Step)
    requires Enabled(s, step) && (step.ApplyBegin? || step.ApplyEnd? || step.SyncEnd?)
    ensures Phase(Apply(s, step).sync) < Phase(s.sync)
  {
  }

  /** Every step of a running sync brings its end nearer, unless it heals. */
  lemma StepsAhead(s: State, step: Step)
    requires Enabled(s, step) && Plain(step) && !step.SyncStart? && !step.ApplyHeal? && CheckedPending(s.sync)
    ensures var y := Apply(s, step).sync; Phase(y) < Phase(s.sync) || (Phase(y) == Phase(s.sync) && Work(y) < Work(s.sync))
  {
    match step
    case ApplyCheck(_) => LessToCheck(s, step);
    case ApplyDecide(_) => LessToDecide(s, step);
    case ApplyDrop(_) => LessToDrop(s, step);
    case ApplyBegin => NearerWhileEnding(s, step);
    case ApplyEnd => NearerWhileEnding(s, step);
    case SyncEnd => NearerWhileEnding(s, step);
    case _ => NearerWhileListing(s, step);
  }

  /** And as long as it runs, there is one to take. */
  lemma NextStep(s: State) returns (step: Step)
    requires !s.sync.Off?
    ensures Enabled(s, step) && Plain(step) && !step.SyncStart? && !step.ApplyHeal?
  {
    match s.sync
    case Started(_) => step := SyncList;
    case GotList(_, _) => step := SyncGone;
    case GotGone(_, _, _, filtered) => step := if filtered then SyncRelist else SyncFilter;
    case GotAll(_, _, _) => step := SyncCompute;
    case Decoded(_, _, _, _) => step := ApplyBegin;
    case Applied(_) => step := SyncEnd;
    case Applying(_, gone, added, modified, checked) => step := NextApplying(s);
  }

  lemma NextApplying(s: State) returns (step: Step)
    requires s.sync.Applying?
    ensures Enabled(s, step) && Plain(step) && !step.SyncStart? && !step.ApplyHeal?
  {
    if s.sync.checked.Some? {
      step := ApplyDecide(true);
    } else if id :| id in s.sync.gone {
      step := ApplyDrop(id);
    } else if id :| id in Pending(s.sync) {
      step := ApplyCheck(id);
    } else {
      assert s.sync.gone == {} && Pending(s.sync) == {};
      assert s.sync.added == map[] && s.sync.modified == map[];
      step := ApplyEnd;
    }
  }

  lemma {:induction false} RunsOn(s: State) returns (t: State)
    requires ExactAll(s) && !s.sync.Off?
    ensures Leads(s, t) && t.sync.Off? && t.index == s.server.records && t.server == s.server
    decreases Phase(s.sync), Work(s.sync)
  {
    var step := NextStep(s);
    var u := Apply(s, step);
    ExactKept(s, step);
    assert s.sync.Applying? && s.sync.checked.Some? ==> Exact(s, s.sync.checked.value);
    StepsAhead(s, step);
    Goes(s, step);
    if u.sync.Off? {
      AppliedIsExact(s);
      t := u;
    } else {
      t := RunsOn(u);
      LeadsOn(s, u, t);
    }
  }

  /** From every settled state a sync can run to its end and leave the index as the server has it. */
  lemma SyncUpdates(s: State) returns (t: State)
    requires Settled(s)
    ensures Leads(s, t) && t.sync.Off? && t.index == s.server.records && t.server == s.server
  {
    var u := Apply(s, SyncStart);
    Goes(s, SyncStart);
    ExactKept(s, SyncStart);
    t := RunsOn(u);
    LeadsOn(s, u, t);
  }

  // ---------- What every sync does, whatever runs beside it ----------

  /** The apply phase of one sync, from its first step to its last. */
  ghost predicate ApplyPhase(states: seq<State>, steps: seq<Step>, b: nat, e: nat) {
    && IsRun(states, steps) && b < e < |steps| && steps[b] == ApplyBegin && steps[e] == ApplyEnd
    && forall k {:trigger steps[k]} :: b < k < e ==> steps[k] != ApplyEnd
  }

  lemma PhaseStep(s: State, step: Step)
    requires s.sync.Applying? && Enabled(s, step) && step != ApplyEnd
    ensures Apply(s, step).sync.Applying? && Apply(s, step).sync.seq0 == s.sync.seq0
  {
    if !IsSyncStep(step) {
      OtherStepsKeepSync(s, step);
    }
  }

  lemma {:induction false} StaysInPhase(states: seq<State>, steps: seq<Step>, b: nat, e: nat, k: nat)
    requires ApplyPhase(states, steps, b, e) && b < k <= e
    ensures states[k].sync.Applying? && states[k].sync.seq0 == states[b].sync.seq0
    decreases k
  {
    if k == b + 1 {
      assert states[k] == Apply(states[b], steps[b]);
    } else {
      StaysInPhase(states, steps, b, e, k - 1);
      assert steps[k - 1] != ApplyEnd;
      PhaseStep(states[k - 1], steps[k - 1]);
    }
  }

  lemma TouchedStep(s: State, step: Step, id: Id)
    requires s.sync.Applying? && Enabled(s, step) && ClockOk(s, id) && s.TouchedAfter(id, s.sync.seq0)
    ensures Apply(s, step).TouchedAfter(id, s.sync.seq0)
  {
    if IsSyncStep(step) {
      assert Apply(s, step).journal == s.journal;
    } else {
      OtherStepsTouch(s, step, id);
    }
  }

  lemma OtherStepsTouch(s: State, step: Step, id: Id)
    requires Enabled(s, step) && !IsSyncStep(step) && id in s.journal.touched && s.journal.touched[id] <= s.journal.clock
    ensures var j := Apply(s, step).journal; id in j.touched && j.touched[id] >= s.journal.touched[id]
  {
  }

  /** What is untouched at the end of the phase was untouched all along. */
  lemma {:induction false} UntouchedBefore(states: seq<State>, steps: seq<Step>, b: nat, e: nat, k: nat, id: Id)
    requires ApplyPhase(states, steps, b, e) && b < k <= e
    requires !states[e].TouchedAfter(id, states[b].sync.seq0)
    ensures !states[k].TouchedAfter(id, states[b].sync.seq0)
    decreases e - k
  {
    if k < e {
      UntouchedBefore(states, steps, b, e, k + 1, id);
      StaysInPhase(states, steps, b, e, k);
      AlwaysHolds(states, steps, k, id);
      if states[k].TouchedAfter(id, states[b].sync.seq0) {
        TouchedStep(states[k], steps[k], id);
      }
    }
  }

  /** What is to be dropped is neither to be added nor to be changed. */
  ghost predicate GoneApart(s: State, id: Id) {
    && (s.sync.GotGone? || s.sync.GotAll? ==> !(id in s.sync.gone && id in s.sync.listed))
    && (HasWork(s.sync) ==> !(id in s.sync.gone && (id in s.sync.added || id in s.sync.modified)))
  }

  lemma GoneApartKept(s: State, step: Step, id: Id)
    requires GoneApart(s, id) && Enabled(s, step)
    ensures GoneApart(Apply(s, step), id)
  {
    if !IsSyncStep(step) {
      OtherStepsKeepSync(s, step);
    }
  }

  lemma {:induction false} GoneApartHolds(states: seq<State>, steps: seq<Step>, i: nat, id: Id)
    requires IsRun(states, steps) && i < |states|
    ensures GoneApart(states[i], id)
  {
    if i > 0 {
      GoneApartHolds(states, steps, i - 1, id);
      GoneApartKept(states[i - 1], steps[i - 1], id);
    }
  }

  /** The record is still to be dropped, or has been. */
  ghost predicate Dropping(s: State, id: Id) {
    s.sync.Applying? && id !in s.sync.added && id !in s.sync.modified && (id in s.sync.gone || id !in s.index)
  }

  lemma DroppingKept(s: State, step: Step, id: Id)
    requires Dropping(s, id) && Enabled(s, step) && step != ApplyEnd && !s.TouchedAfter(id, s.sync.seq0)
    ensures Dropping(Apply(s, step), id)
  {
    if IsSyncStep(step) {
      DroppingBySync(s, step, id);
    } else {
      DroppingByOthers(s, step, id);
    }
  }

  lemma DroppingBySync(s: State, step: Step, id: Id)
    requires Dropping(s, id) && Enabled(s, step) && step != ApplyEnd && !s.TouchedAfter(id, s.sync.seq0) && IsSyncStep(step)
    ensures Dropping(Apply(s, step), id)
  {
  }

  lemma DroppingByOthers(s: State, step: Step, id: Id)
    requires Dropping(s, id) && Enabled(s, step) && !IsSyncStep(step)
    ensures Dropping(Apply(s, step), id)
  {
    OtherStepsKeepSync(s, step);
  }

  lemma {:induction false} DroppingHolds(states: seq<State>, steps: seq<Step>, b: nat, e: nat, k: nat, id: Id)
    requires ApplyPhase(states, steps, b, e) && b < k <= e && id in states[b].sync.gone
    requires !states[e].TouchedAfter(id, states[b].sync.seq0)
    ensures Dropping(states[k], id)
    decreases k
  {
    StaysInPhase(states, steps, b, e, k);
    if k == b + 1 {
      GoneApartHolds(states, steps, b, id);
      assert states[k] == Apply(states[b], steps[b]);
    } else {
      DroppingHolds(states, steps, b, e, k - 1, id);
      UntouchedBefore(states, steps, b, e, k - 1, id);
      StaysInPhase(states, steps, b, e, k - 1);
      assert steps[k - 1] != ApplyEnd;
      DroppingKept(states[k - 1], steps[k - 1], id);
    }
  }

  /** In every run: what a sync found gone from the server is out of the index when its apply phase ends, unless it was
      touched locally since the sync began. */
  lemma GoneIsDropped(states: seq<State>, steps: seq<Step>, b: nat, e: nat, id: Id)
    requires ApplyPhase(states, steps, b, e) && id in states[b].sync.gone
    requires !states[e].TouchedAfter(id, states[b].sync.seq0)
    ensures id !in states[e + 1].index
  {
    DroppingHolds(states, steps, b, e, e, id);
    assert Enabled(states[e], steps[e]) && states[e + 1] == Apply(states[e], steps[e]);
  }

  /** From the start of the apply phase to its end the record is not hidden, and when it is dealt with it can be read. */
  ghost predicate Unhindered(states: seq<State>, steps: seq<Step>, b: nat, e: nat, id: Id) {
    && ApplyPhase(states, steps, b, e) && !states[e].TouchedAfter(id, states[b].sync.seq0)
    && forall k {:trigger steps[k]} :: b < k < e ==>
         id !in states[k].journal.hidden && !(steps[k] == ApplyDecide(false) && Checking(states[k], id))
  }

  ghost predicate Checking(s: State, id: Id) {
    s.sync.Applying? && s.sync.checked == Some(id)
  }

  /** The record is in the index with this fingerprint, or healing has hidden it. */
  ghost predicate Shows(s: State, id: Id, fp: Fingerprint) {
    (id in s.index && s.index[id] == fp) || id in s.stale
  }

  /** The record is still to be changed to fp, or has been. */
  ghost predicate Changing(s: State, id: Id, fp: Fingerprint) {
    && s.sync.Applying? && id !in s.sync.gone && id !in s.sync.added
    && if id in s.sync.modified then s.sync.modified[id] == fp && id in s.index else Shows(s, id, fp)
  }

  /** The record is still to be added with fp, or has been. */
  ghost predicate Adding(s: State, id: Id, fp: Fingerprint) {
    && s.sync.Applying? && id !in s.sync.gone && id !in s.sync.modified
    && if id in s.sync.added then s.sync.added[id] == fp && id !in s.index else Shows(s, id, fp)
  }

  /** The step neither passes the record over nor is about another phase. */
  ghost predicate Helps(s: State, step: Step, id: Id) {
    && Enabled(s, step) && step != ApplyEnd && s.sync.Applying? && !s.TouchedAfter(id, s.sync.seq0)
    && id !in s.journal.hidden && !(step == ApplyDecide(false) && Checking(s, id))
  }

  lemma ChangingBySync(s: State, step: Step, id: Id, fp: Fingerprint)
    requires Changing(s, id, fp) && Helps(s, step, id) && IsSyncStep(step)
    ensures Changing(Apply(s, step), id, fp)
  {
    if step.ApplyDecide? {
      ChangingDecided(s, step, id, fp);
    } else {
      ChangingUndecided(s, step, id, fp);
    }
  }

  lemma ChangingUndecided(s: State, step: Step, id: Id, fp: Fingerprint)
    requires Changing(s, id, fp) && Helps(s, step, id) && IsSyncStep(step) && !step.ApplyDecide?
    ensures Changing(Apply(s, step), id, fp)
  {
  }

  lemma ChangingDecided(s: State, step: Step, id: Id, fp: Fingerprint)
    requires Changing(s, id, fp) && Helps(s, step, id) && step.ApplyDecide?
    ensures Changing(Apply(s, step), id, fp)
  {
  }

  lemma AddingBySync(s: State, step: Step, id: Id, fp: Fingerprint)
    requires Adding(s, id, fp) && Helps(s, step, id) && IsSyncStep(step)
    ensures Adding(Apply(s, step), id, fp)
  {
    if step.ApplyDecide? {
      AddingDecided(s, step, id, fp);
    } else {
      AddingUndecided(s, step, id, fp);
    }
  }

  lemma AddingUndecided(s: State, step: Step, id: Id, fp: Fingerprint)
    requires Adding(s, id, fp) && Helps(s, step, id) && IsSyncStep(step) && !step.ApplyDecide?
    ensures Adding(Apply(s, step), id, fp)
  {
  }

  lemma AddingDecided(s: State, step: Step, id: Id, fp: Fingerprint)
    requires Adding(s, id, fp) && Helps(s, step, id) && step.ApplyDecide?
    ensures Adding(Apply(s, step), id, fp)
  {
  }

  lemma ChangingByOthers(s: State, step: Step, id: Id, fp: Fingerprint)
    requires Changing(s, id, fp) && Enabled(s, step) && !IsSyncStep(step) && ClockOk(s, id)
    requires !Apply(s, step).TouchedAfter(id, s.sync.seq0)
    ensures Changing(Apply(s, step), id, fp)
  {
    OtherStepsKeepSync(s, step);
  }

  lemma AddingByOthers(s: State, step: Step, id: Id, fp: Fingerprint)
    requires Adding(s, id, fp) && Enabled(s, step) && !IsSyncStep(step) && ClockOk(s, id)
    requires !Apply(s, step).TouchedAfter(id, s.sync.seq0)
    ensures Adding(Apply(s, step), id, fp)
  {
    OtherStepsKeepSync(s, step);
  }

  lemma ChangingFirst(s: State, id: Id)
    requires Enabled(s, ApplyBegin) && GoneApart(s, id) && WorkApart(s, id)
    requires id in s.sync.modified && id in s.index
    ensures Changing(Apply(s, ApplyBegin), id, s.sync.modified[id])
  {
  }

  lemma ChangingKept(s: State, step: Step, t: State, id: Id, fp: Fingerprint)
    requires Changing(s, id, fp) && Linked(s, step, t, id)
    ensures Changing(t, id, fp)
  {
    if IsSyncStep(step) {
      ChangingBySync(s, step, id, fp);
    } else {
      ChangingByOthers(s, step, id, fp);
    }
  }

  lemma AddingFirst(s: State, id: Id)
    requires Enabled(s, ApplyBegin) && GoneApart(s, id) && WorkApart(s, id)
    requires id in s.sync.added && id !in s.index
    ensures Adding(Apply(s, ApplyBegin), id, s.sync.added[id])
  {
  }

  lemma AddingKept(s: State, step: Step, t: State, id: Id, fp: Fingerprint)
    requires Adding(s, id, fp) && Linked(s, step, t, id)
    ensures Adding(t, id, fp)
  {
    if IsSyncStep(step) {
      AddingBySync(s, step, id, fp);
    } else {
      AddingByOthers(s, step, id, fp);
    }
  }

  lemma ApartAt(states: seq<State>, steps: seq<Step>, b: nat, e: nat, id: Id)
    requires ApplyPhase(states, steps, b, e)
    ensures Enabled(states[b], ApplyBegin) && states[b + 1] == Apply(states[b], ApplyBegin)
    ensures GoneApart(states[b], id) && WorkApart(states[b], id)
  {
    GoneApartHolds(states, steps, b, id);
    AlwaysHolds(states, steps, b, id);
    assert Enabled(states[b], steps[b]);
  }

  /** One step of the phase leads from s to t. */
  ghost predicate Linked(s: State, step: Step, t: State, id: Id) {
    Helps(s, step, id) && ClockOk(s, id) && t == Apply(s, step) && !t.TouchedAfter(id, s.sync.seq0)
  }

  lemma LinkedAt(states: seq<State>, steps: seq<Step>, b: nat, e: nat, k: nat, id: Id)
    requires Unhindered(states, steps, b, e, id) && b < k < e
    ensures Linked(states[k], steps[k], states[k + 1], id)
  {
    UntouchedBefore(states, steps, b, e, k, id);
    UntouchedBefore(states, steps, b, e, k + 1, id);
    StaysInPhase(states, steps, b, e, k);
    AlwaysHolds(states, steps, k, id);
    assert steps[k] != ApplyEnd;
  }

  ghost predicate Chain(states: seq<State>, steps: seq<Step>, b: nat, e: nat, id: Id) {
    && b < e < |steps| == |states| - 1
    && forall k {:trigger steps[k]} :: b < k < e ==> Linked(states[k], steps[k], states[k + 1], id)
  }

  lemma Chained(states: seq<State>, steps: seq<Step>, b: nat, e: nat, id: Id)
    requires Unhindered(states, steps, b, e, id)
    ensures Chain(states, steps, b, e, id)
  {
    forall k | b < k < e
      ensures Linked(states[k], steps[k], states[k + 1], id)
    {
      LinkedAt(states, steps, b, e, k, id);
    }
  }

  lemma {:induction false} ChangingHolds(states: seq<State>, steps: seq<Step>, b: nat, e: nat, k: nat, id: Id, fp: Fingerprint)
    requires Chain(states, steps, b, e, id) && b < k <= e && Changing(states[b + 1], id, fp)
    ensures Changing(states[k], id, fp)
    decreases k
  {
    if k > b + 1 {
      ChangingHolds(states, steps, b, e, k - 1, id, fp);
      ChangingKept(states[k - 1], steps[k - 1], states[k], id, fp);
    }
  }

  lemma {:induction false} AddingHolds(states: seq<State>, steps: seq<Step>, b: nat, e: nat, k: nat, id: Id, fp: Fingerprint)
    requires Chain(states, steps, b, e, id) && b < k <= e && Adding(states[b + 1], id, fp)
    ensures Adding(states[k], id, fp)
    decreases k
  {
    if k > b + 1 {
      AddingHolds(states, steps, b, e, k - 1, id, fp);
      AddingKept(states[k - 1], steps[k - 1], states[k], id, fp);
    }
  }

  /** In every run: a record the sync found in another version has that version in the index when its apply phase ends,
      unless the record was touched or hidden locally or could not be read, or healing then hid it beside its copy. */
  lemma ModifiedIsTaken(states: seq<State>, steps: seq<Step>, b: nat, e: nat, id: Id)
    requires Unhindered(states, steps, b, e, id)
    requires id in states[b].sync.modified && id in states[b].index
    ensures var s := states[e + 1];
            (id in s.index && s.index[id] == states[b].sync.modified[id]) || id in s.stale
  {
    ApartAt(states, steps, b, e, id);
    ChangingFirst(states[b], id);
    Chained(states, steps, b, e, id);
    ChangingHolds(states, steps, b, e, e, id, states[b].sync.modified[id]);
    assert Enabled(states[e], steps[e]) && states[e + 1] == Apply(states[e], steps[e]);
  }

  /** And a record the index did not have is there. */
  lemma NewIsTaken(states: seq<State>, steps: seq<Step>, b: nat, e: nat, id: Id)
    requires Unhindered(states, steps, b, e, id)
    requires id in states[b].sync.added && id !in states[b].index
    ensures var s := states[e + 1];
            (id in s.index && s.index[id] == states[b].sync.added[id]) || id in s.stale
  {
    ApartAt(states, steps, b, e, id);
    AddingFirst(states[b], id);
    Chained(states, steps, b, e, id);
    AddingHolds(states, steps, b, e, e, id, states[b].sync.added[id]);
    assert Enabled(states[e], steps[e]) && states[e + 1] == Apply(states[e], steps[e]);
  }

  // ---------- A created record is shown ----------

  lemma CreatingKept(s: State, step: Step, id: Id, fp: Fingerprint)
    requires Enabled(s, step) && RecordPosted(s, id) && id in s.local.creating && s.local.creating[id] == fp
    requires step != LocalInsert(id)
    ensures id in Apply(s, step).local.creating && Apply(s, step).local.creating[id] == fp
  {
    if IsSyncStep(step) {
      SyncStepsKeepRest(s, step);
    }
  }

  lemma {:induction false} CreatingHolds(states: seq<State>, steps: seq<Step>, i: nat, j: nat, id: Id, fp: Fingerprint)
    requires IsRun(states, steps) && i < j < |states| && steps[i] == LocalPost(id, fp)
    requires forall k :: i < k < j ==> steps[k] != LocalInsert(id)
    ensures id in states[j].local.creating && states[j].local.creating[id] == fp
    decreases j
  {
    if j == i + 1 {
      assert states[j] == Apply(states[i], steps[i]);
    } else {
      CreatingHolds(states, steps, i, j - 1, id, fp);
      AlwaysHolds(states, steps, j - 1, id);
      CreatingKept(states[j - 1], steps[j - 1], id, fp);
    }
  }

  /** In every run: when a create ends, the index has the record, with the fingerprint that was posted if the index did not
      have it yet. */
  lemma CreatedIsShown(states: seq<State>, steps: seq<Step>, i: nat, j: nat, id: Id, fp: Fingerprint)
    requires IsRun(states, steps) && i < j < |steps| && steps[i] == LocalPost(id, fp) && steps[j] == LocalInsert(id)
    requires forall k :: i < k < j ==> steps[k] != LocalInsert(id)
    ensures id in states[i + 1].server.records && states[i + 1].server.records[id] == fp
    ensures id in states[j + 1].index
    ensures states[j + 1].index[id] == if id in states[j].index then states[j].index[id] else fp
  {
    CreatingHolds(states, steps, i, j, id, fp);
    assert states[i + 1] == Apply(states[i], steps[i]) && states[j + 1] == Apply(states[j], steps[j]);
  }
}
