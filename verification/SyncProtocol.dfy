/** One sync of the vault against local creates and deletes that run at the same time, step by step. */
module SyncProtocol {
  import opened Order
  import opened Wrappers

  type Id = string
  type Fingerprint = int

  /** A listed record; body says whether the listing kept the record itself or found it already known. */
  datatype Listed = Listed(fp: Fingerprint, body: bool)

  type Listing = map<Id, Listed>

  /** How far the sync has come. Only one runs at a time. */
  datatype Sync =
    | Off
    | Started(seq0: nat)
    | GotList(seq0: nat, listed: Listing)
    | GotGone(seq0: nat, listed: Listing, gone: set<Id>, filtered: bool)
    | GotAll(seq0: nat, listed: Listing, gone: set<Id>)
    | Decoded(seq0: nat, gone: set<Id>, added: map<Id, Fingerprint>, modified: map<Id, Fingerprint>)
    | Applying(seq0: nat, gone: set<Id>, added: map<Id, Fingerprint>, modified: map<Id, Fingerprint>, checked: Option<Id>)
    | Applied(seq0: nat)

  /** The records on the server, and every id it ever gave out. */
  datatype Server = Server(records: map<Id, Fingerprint>, posted: set<Id>)

  datatype Journal = Journal(clock: nat, touched: map<Id, nat>, hidden: set<Id>) {
    predicate TouchedAfter(id: Id, seq0: nat) {
      id in touched && touched[id] > seq0
    }

    function Touch(id: Id): Journal {
      Journal(clock + 1, touched[id := clock + 1], hidden)
    }
  }

  /** What local operations are in the middle of, and what they have done. */
  datatype Local = Local(
    creating: map<Id, Fingerprint>, // posted by this client, not yet in its index
    deleting: set<Id>,              // deleted on the server, or hidden, by a local delete that will forget them
    forgotten: set<Id>,             // every id a local delete took out of the index
    untouched: set<Id>)             // forgotten, journal entry still to come

  /** The delete worker's work: to do, answered as gone, and touched but still hidden. */
  datatype Worker = Worker(queue: set<Id>, finished: set<Id>, unhiding: set<Id>)

  /** stale: records hidden from the index beside an identical copy, until they are deleted or put back. */
  datatype State = State(
    server: Server, index: map<Id, Fingerprint>, journal: Journal, local: Local, worker: Worker,
    stale: map<Id, Fingerprint>, sync: Sync)
  {
    predicate TouchedAfter(id: Id, seq0: nat) {
      journal.TouchedAfter(id, seq0)
    }

    /** The apply phase holds the index lock. */
    predicate IndexFree() {
      !sync.Applying?
    }

    /** One listing of the whole server. */
    ghost function List(): Listing {
      map id | id in server.records :: Listed(server.records[id], !(id in index && index[id] == server.records[id]))
    }
  }

  datatype Step =
    | RemoteCreate(id: Id, fp: Fingerprint) | RemoteModify(id: Id, fp: Fingerprint) | RemoteDelete(id: Id)
    | LocalPost(id: Id, fp: Fingerprint) | LocalTouch(id: Id) | LocalInsert(id: Id)
    | DeleteNow(id: Id) | Hide(id: Id) | ForgetRemove(id: Id) | ForgetTouch(id: Id) | Enqueue(id: Id)
    | WorkerDelete(id: Id) | WorkerRefused(id: Id) | WorkerFails(id: Id) | WorkerTouch(id: Id) | WorkerUnhide(id: Id)
    | SyncStart | SyncList | SyncGone | SyncFilter | SyncRelist | SyncCompute
    | ApplyBegin | ApplyDrop(id: Id) | ApplyCheck(id: Id) | ApplyDecide(readable: bool) | ApplyHeal(id: Id) | ApplyEnd
    | SyncEnd | SyncFail
    | HealKeep(id: Id) | HealDone(id: Id)

  ghost predicate Enabled(s: State, step: Step) {
    match step
    case RemoteCreate(id, _) => id !in s.server.posted
    case RemoteModify(id, _) => id in s.server.records
    case RemoteDelete(id) => true
    case LocalPost(id, _) => id !in s.server.posted
    case LocalTouch(id) => id in s.local.creating
    case LocalInsert(id) => id in s.local.creating && s.IndexFree()
    case DeleteNow(id) => id in s.server.posted
    case Hide(id) => id in s.server.posted
    case ForgetRemove(id) => id in s.local.deleting && s.IndexFree()
    case ForgetTouch(id) => id in s.local.untouched
    case Enqueue(id) => id in s.journal.hidden && id in s.local.forgotten
    case WorkerDelete(id) => id in s.worker.queue
    case WorkerRefused(id) => id in s.worker.queue
    case WorkerFails(id) => id in s.worker.queue
    case WorkerTouch(id) => id in s.worker.finished
    case WorkerUnhide(id) => id in s.worker.unhiding
    case SyncStart => s.sync.Off?
    case SyncList => s.sync.Started?
    case SyncGone => s.sync.GotList?
    case SyncFilter => s.sync.GotGone? && !s.sync.filtered
    case SyncRelist => s.sync.GotGone? && s.sync.filtered
    case SyncCompute => s.sync.GotAll?
    case ApplyBegin => s.sync.Decoded?
    case ApplyDrop(id) => s.sync.Applying? && id in s.sync.gone
    case ApplyCheck(id) =>
      s.sync.Applying? && s.sync.gone == {} && s.sync.checked.None? && (id in s.sync.added || id in s.sync.modified)
    case ApplyDecide(_) => s.sync.Applying? && s.sync.checked.Some?
    case ApplyEnd =>
      s.sync.Applying? && s.sync.gone == {} && s.sync.added == map[] && s.sync.modified == map[] && s.sync.checked.None?
    case ApplyHeal(id) =>
      s.sync.Applying? && s.sync.gone == {} && s.sync.added == map[] && s.sync.modified == map[] && s.sync.checked.None? &&
      id in s.index && HasEarlierCopy(s.index, id)
    case SyncEnd => s.sync.Applied?
    case SyncFail => !s.sync.Off? && !s.sync.Applying? && !s.sync.Applied?
    case HealKeep(id) => id in s.stale && s.IndexFree()
    case HealDone(id) => id in s.stale && id !in s.server.records
  }

  ghost function Apply(s: State, step: Step): State
    requires Enabled(s, step)
  {
    match step
    case RemoteCreate(id, fp) => s.(server := Server(s.server.records[id := fp], s.server.posted + {id}))
    case RemoteModify(id, fp) => s.(server := s.server.(records := s.server.records[id := fp]))
    case RemoteDelete(id) => s.(server := s.server.(records := s.server.records - {id}))
    // create: the record is on the server first, then journalled, then in the index
    case LocalPost(id, fp) =>
      s.(server := Server(s.server.records[id := fp], s.server.posted + {id}),
         local := s.local.(creating := s.local.creating[id := fp]))
    case LocalTouch(id) => s.(journal := s.journal.Touch(id))
    case LocalInsert(id) =>
      s.(index := if id in s.index then s.index else s.index[id := s.local.creating[id]],
         local := s.local.(creating := s.local.creating - {id}))
    // delete at once: gone from the server first; delete later: hidden first
    case DeleteNow(id) =>
      s.(server := s.server.(records := s.server.records - {id}),
         local := s.local.(deleting := s.local.deleting + {id}))
    case Hide(id) =>
      s.(journal := s.journal.(hidden := s.journal.hidden + {id}),
         local := s.local.(deleting := s.local.deleting + {id}))
    case ForgetRemove(id) =>
      s.(index := s.index - {id},
         local := Local(s.local.creating, s.local.deleting - {id}, s.local.forgotten + {id}, s.local.untouched + {id}))
    case ForgetTouch(id) =>
      s.(journal := s.journal.Touch(id), local := s.local.(untouched := s.local.untouched - {id}))
    case Enqueue(id) => s.(worker := s.worker.(queue := s.worker.queue + {id}))
    case WorkerDelete(id) =>
      s.(server := s.server.(records := s.server.records - {id}), worker := Answered(s.worker, id))
    // "method not allowed" counts as deleted too, although the record may still be there
    case WorkerRefused(id) => s.(worker := Answered(s.worker, id))
    case WorkerFails(id) => s.(worker := s.worker.(queue := s.worker.queue - {id}))
    case WorkerTouch(id) =>
      s.(journal := s.journal.Touch(id),
         worker := Worker(s.worker.queue, s.worker.finished - {id}, s.worker.unhiding + {id}))
    case WorkerUnhide(id) =>
      s.(journal := s.journal.(hidden := s.journal.hidden - {id}),
         worker := s.worker.(unhiding := s.worker.unhiding - {id}))
    case SyncStart => s.(sync := Started(s.journal.clock))
    case SyncList => s.(sync := GotList(s.sync.seq0, s.List()))
    case SyncGone =>
      s.(sync := GotGone(s.sync.seq0, s.sync.listed, s.index.Keys - s.sync.listed.Keys, false))
    case SyncFilter =>
      var gone := set id | id in s.sync.gone && !s.TouchedAfter(id, s.sync.seq0);
      if gone == {} then s.(sync := GotAll(s.sync.seq0, s.sync.listed, gone))
      else s.(sync := GotGone(s.sync.seq0, s.sync.listed, gone, true))
    case SyncRelist =>
      s.(sync := GotAll(s.sync.seq0, Merged(s.sync.listed, s.List()), s.sync.gone - s.List().Keys))
    case SyncCompute =>
      s.(sync := Decoded(s.sync.seq0, s.sync.gone, Fresh(s), Modified(s)),
         stale := map id | id in s.stale && id in s.sync.listed :: s.stale[id])
    case ApplyBegin =>
      s.(sync := Applying(s.sync.seq0, s.sync.gone, s.sync.added, s.sync.modified, None))
    case ApplyDrop(id) =>
      s.(sync := s.sync.(gone := s.sync.gone - {id}),
         index := if s.TouchedAfter(id, s.sync.seq0) then s.index else s.index - {id})
    case ApplyCheck(id) =>
      s.(sync := if s.TouchedAfter(id, s.sync.seq0) then WithoutRecord(s.sync, id) else s.sync.(checked := Some(id)))
    case ApplyDecide(readable) =>
      s.(sync := WithoutRecord(s.sync, s.sync.checked.value), index := Decide(s, s.sync.checked.value, readable))
    // healing takes a record out whose copy stays
    case ApplyHeal(id) => s.(index := s.index - {id}, stale := s.stale[id := s.index[id]])
    case ApplyEnd => s.(sync := Applied(s.sync.seq0))
    // a listing fails, or the vault is closed: nothing is pruned
    case SyncFail => s.(sync := Off)
    // the copy is lost, or cannot be read: the record is put back
    case HealKeep(id) =>
      s.(index := if id in s.index then s.index else s.index[id := s.stale[id]], stale := s.stale - {id})
    // the server has answered that the record is gone
    case HealDone(id) => s.(journal := s.journal.Touch(id), stale := s.stale - {id})
    case SyncEnd =>
      s.(sync := Off,
         journal := s.journal.(touched :=
           map id | id in s.journal.touched && s.journal.touched[id] > s.sync.seq0 :: s.journal.touched[id]))
  }

  function Answered(w: Worker, id: Id): Worker {
    Worker(w.queue - {id}, w.finished + {id}, w.unhiding)
  }

  /** The index after the apply phase has dealt with a record it has checked. */
  function Decide(s: State, id: Id, readable: bool): map<Id, Fingerprint>
    requires s.sync.Applying?
  {
    if id in s.journal.hidden || !readable then s.index
    else if id in s.sync.modified then (if id in s.index then s.index[id := s.sync.modified[id]] else s.index)
    else if id in s.index || id !in s.sync.added then s.index
    else s.index[id := s.sync.added[id]]
  }

  /** The second listing fills in what the first one lacks a record for. */
  ghost function Merged(listed: Listing, again: Listing): Listing {
    map id | id in listed.Keys + again.Keys ::
      if id in again && !(id in listed && listed[id].body) then again[id] else listed[id]
  }

  /** Another record with the same fingerprint and an earlier id. */
  ghost predicate HasEarlierCopy(index: map<Id, Fingerprint>, id: Id)
    requires id in index
  {
    exists k :: k in index && Less(k, id) && index[k] == index[id]
  }

  /** Listed records the index does not have: not hidden, not stale, and not touched locally since the sync began. */
  ghost function Fresh(s: State): map<Id, Fingerprint>
    requires s.sync.GotAll?
  {
    map id | id in s.sync.listed && s.sync.listed[id].body && id !in s.index && id !in s.stale && id !in s.journal.hidden
             && !s.TouchedAfter(id, s.sync.seq0) :: s.sync.listed[id].fp
  }

  /** Listed records the index has in another version. */
  ghost function Modified(s: State): map<Id, Fingerprint>
    requires s.sync.GotAll?
  {
    map id | id in s.sync.listed && s.sync.listed[id].body && id in s.index && s.index[id] != s.sync.listed[id].fp ::
      s.sync.listed[id].fp
  }

  function WithoutRecord(y: Sync, id: Id): Sync
    requires y.Applying?
  {
    y.(added := y.added - {id}, modified := y.modified - {id}, checked := None)
  }

  ghost predicate Initial(s: State) {
    && s.server.records.Keys <= s.server.posted && s.index.Keys <= s.server.posted
    && s.journal.clock == 0 && s.journal.touched == map[] && s.journal.hidden == {}
    && s.local.creating == map[] && s.local.deleting == {} && s.worker.queue == {} && s.worker.finished == {}
    && s.local.forgotten == {} && s.local.untouched == {} && s.worker.unhiding == {}
    && s.stale == map[] && s.sync == Off
  }

  ghost predicate IsRun(states: seq<State>, steps: seq<Step>) {
    && |states| == |steps| + 1
    && Initial(states[0])
    && (forall i {:trigger steps[i]} :: 0 <= i < |steps| ==> Enabled(states[i], steps[i]) && states[i + 1] == Apply(states[i], steps[i]))
  }

  // ---------- A record on the server is never dropped ----------

  ghost predicate HasListing(y: Sync) {
    y.GotList? || y.GotGone? || y.GotAll?
  }

  ghost predicate HasWork(y: Sync) {
    y.Decoded? || y.Applying?
  }

  /** Ids come from the server and are never given out twice. */
  ghost predicate RecordPosted(s: State, id: Id) {
    id in s.server.records || id in s.index || id in s.local.creating || id in s.stale ==> id in s.server.posted
  }

  ghost predicate WorkPosted(s: State, id: Id) {
    && (HasListing(s.sync) && id in s.sync.listed ==> id in s.server.posted)
    && ((s.sync.GotGone? || s.sync.GotAll? || HasWork(s.sync)) && id in s.sync.gone ==> id in s.server.posted)
    && (HasWork(s.sync) && (id in s.sync.added || id in s.sync.modified) ==> id in s.server.posted)
  }

  /** Once the second listing is in, what is to be dropped has left the server, for good. */
  ghost predicate GoneLeft(s: State, id: Id) {
    (s.sync.GotAll? || HasWork(s.sync)) && id in s.sync.gone ==> id !in s.server.records
  }

  ghost predicate GoneIsGone(s: State, id: Id) {
    RecordPosted(s, id) && WorkPosted(s, id) && GoneLeft(s, id)
  }

  /** The steps of the sync itself, up to its end. */
  predicate IsSyncStep(step: Step) {
    || step.SyncStart? || step.SyncList? || step.SyncGone? || step.SyncFilter? || step.SyncRelist? || step.SyncCompute?
    || step.ApplyBegin? || step.ApplyDrop? || step.ApplyCheck? || step.ApplyDecide? || step.ApplyHeal? || step.ApplyEnd?
    || step.SyncEnd? || step.SyncFail?
  }

  /** Other steps leave the sync where it is. */
  lemma OtherStepsKeepSync(s: State, step: Step)
    requires Enabled(s, step) && !IsSyncStep(step)
    ensures Apply(s, step).sync == s.sync && s.server.posted <= Apply(s, step).server.posted
    ensures s.local.forgotten <= Apply(s, step).local.forgotten
  {
  }

  /** Steps of the sync leave the server, local operations and the delete worker where they are. */
  lemma SyncStepsKeepRest(s: State, step: Step)
    requires Enabled(s, step) && IsSyncStep(step)
    ensures var t := Apply(s, step);
            && t.server == s.server && t.local == s.local && t.worker == s.worker
            && t.journal.hidden == s.journal.hidden && t.journal.clock == s.journal.clock
  {
  }

  lemma RecordPostedBySync(s: State, step: Step, id: Id)
    requires RecordPosted(s, id) && WorkPosted(s, id) && Enabled(s, step) && IsSyncStep(step)
    ensures RecordPosted(Apply(s, step), id)
  {
  }

  lemma RecordPostedByOthers(s: State, step: Step, id: Id)
    requires RecordPosted(s, id) && Enabled(s, step) && !IsSyncStep(step)
    ensures RecordPosted(Apply(s, step), id)
  {
  }

  lemma RecordPostedKept(s: State, step: Step, id: Id)
    requires RecordPosted(s, id) && WorkPosted(s, id) && Enabled(s, step)
    ensures RecordPosted(Apply(s, step), id)
  {
    if IsSyncStep(step) {
      RecordPostedBySync(s, step, id);
    } else {
      RecordPostedByOthers(s, step, id);
    }
  }

  lemma WorkPostedBySync(s: State, step: Step, id: Id)
    requires RecordPosted(s, id) && WorkPosted(s, id) && Enabled(s, step) && IsSyncStep(step)
    ensures WorkPosted(Apply(s, step), id)
  {
    if HasWork(s.sync) {
      WorkPostedByApply(s, step, id);
    } else {
      WorkPostedByListing(s, step, id);
    }
  }

  lemma WorkPostedByApply(s: State, step: Step, id: Id)
    requires WorkPosted(s, id) && Enabled(s, step) && IsSyncStep(step) && HasWork(s.sync)
    ensures WorkPosted(Apply(s, step), id)
  {
    SyncStepsKeepRest(s, step);
    WorkShrinks(s, step);
  }

  /** The apply phase adds nothing to its work. */
  lemma WorkShrinks(s: State, step: Step)
    requires Enabled(s, step) && IsSyncStep(step) && HasWork(s.sync)
    ensures var y := Apply(s, step).sync;
            && !HasListing(y)
            && (HasWork(y) ==>
                  y.gone <= s.sync.gone && y.added.Keys <= s.sync.added.Keys && y.modified.Keys <= s.sync.modified.Keys)
  {
  }

  lemma WorkPostedByListing(s: State, step: Step, id: Id)
    requires RecordPosted(s, id) && WorkPosted(s, id) && Enabled(s, step) && IsSyncStep(step) && !HasWork(s.sync)
    ensures WorkPosted(Apply(s, step), id)
  {
  }

  lemma WorkPostedKept(s: State, step: Step, id: Id)
    requires RecordPosted(s, id) && WorkPosted(s, id) && Enabled(s, step)
    ensures WorkPosted(Apply(s, step), id)
  {
    if IsSyncStep(step) {
      WorkPostedBySync(s, step, id);
    } else {
      OtherStepsKeepSync(s, step);
    }
  }

  lemma GoneLeftBySync(s: State, step: Step, id: Id)
    requires GoneLeft(s, id) && Enabled(s, step) && IsSyncStep(step)
    ensures GoneLeft(Apply(s, step), id)
  {
  }

  /** A record whose id has been given out and that has left the server does not come back there. */
  lemma GoneStaysGone(s: State, step: Step, id: Id)
    requires Enabled(s, step) && id in s.server.posted && id !in s.server.records
    ensures id !in Apply(s, step).server.records
  {
    if IsSyncStep(step) {
      SyncStepsKeepRest(s, step);
    }
  }

  lemma GoneLeftKept(s: State, step: Step, id: Id)
    requires WorkPosted(s, id) && GoneLeft(s, id) && Enabled(s, step)
    ensures GoneLeft(Apply(s, step), id)
  {
    if IsSyncStep(step) {
      GoneLeftBySync(s, step, id);
    } else {
      OtherStepsKeepSync(s, step);
      if (s.sync.GotAll? || HasWork(s.sync)) && id in s.sync.gone {
        GoneStaysGone(s, step, id);
      }
    }
  }

  lemma GoneIsGoneKept(s: State, step: Step, id: Id)
    requires GoneIsGone(s, id) && Enabled(s, step)
    ensures GoneIsGone(Apply(s, step), id)
  {
    RecordPostedKept(s, step, id);
    WorkPostedKept(s, step, id);
    GoneLeftKept(s, step, id);
  }

  lemma {:induction false} GoneIsGoneHolds(states: seq<State>, steps: seq<Step>, i: nat, id: Id)
    requires IsRun(states, steps) && i < |states|
    ensures GoneIsGone(states[i], id)
  {
    if i == 0 {
    } else {
      GoneIsGoneHolds(states, steps, i - 1, id);
      GoneIsGoneKept(states[i - 1], steps[i - 1], id);
    }
  }

  /** The index has the record, or healing has hidden it and no listing under way has lost it. */
  ghost predicate Kept(s: State, id: Id) {
    id in s.index || (id in s.stale && (HasListing(s.sync) ==> id in s.sync.listed))
  }

  lemma SyncKeepsRecord(s: State, step: Step, id: Id)
    requires GoneLeft(s, id) && Enabled(s, step) && Kept(s, id) && IsSyncStep(step)
    requires id in s.server.records
    ensures Kept(Apply(s, step), id)
  {
    if HasWork(s.sync) {
      ApplyKeepsRecord(s, step, id);
    } else {
      ListingKeepsRecord(s, step, id);
    }
  }

  lemma ApplyKeepsRecord(s: State, step: Step, id: Id)
    requires GoneLeft(s, id) && Enabled(s, step) && Kept(s, id) && IsSyncStep(step) && HasWork(s.sync)
    requires id in s.server.records
    ensures Kept(Apply(s, step), id)
  {
    if step.ApplyDecide? || step.ApplyDrop? || step.ApplyHeal? {
      IndexKeepsRecord(s, step, id);
    } else {
      IndexLeft(s, step);
    }
  }

  lemma IndexKeepsRecord(s: State, step: Step, id: Id)
    requires GoneLeft(s, id) && Enabled(s, step) && Kept(s, id) && (step.ApplyDecide? || step.ApplyDrop? || step.ApplyHeal?)
    requires id in s.server.records
    ensures Kept(Apply(s, step), id)
  {
  }

  lemma IndexLeft(s: State, step: Step)
    requires Enabled(s, step) && IsSyncStep(step) && HasWork(s.sync)
    requires !step.ApplyDecide? && !step.ApplyDrop? && !step.ApplyHeal?
    ensures var t := Apply(s, step); t.index == s.index && t.stale == s.stale && !HasListing(t.sync)
  {
  }

  lemma ListingKeepsRecord(s: State, step: Step, id: Id)
    requires Enabled(s, step) && Kept(s, id) && IsSyncStep(step) && !HasWork(s.sync)
    requires id in s.server.records
    ensures Kept(Apply(s, step), id)
  {
    if step.SyncCompute? {
    } else {
      ListingGrows(s, step, id);
    }
  }

  /** Until the listings are compared nothing is taken out, and what has been listed stays listed. */
  lemma ListingGrows(s: State, step: Step, id: Id)
    requires Enabled(s, step) && IsSyncStep(step) && !HasWork(s.sync) && !step.SyncCompute?
    ensures var t := Apply(s, step);
            && t.index == s.index && t.stale == s.stale
            && (HasListing(t.sync) ==> if HasListing(s.sync) then id in s.sync.listed ==> id in t.sync.listed
                                       else id in s.server.records ==> id in t.sync.listed)
  {
  }

  lemma OthersKeepRecord(s: State, step: Step, id: Id)
    requires Enabled(s, step) && Kept(s, id) && !IsSyncStep(step)
    requires id in s.server.records && step != ForgetRemove(id)
    ensures Kept(Apply(s, step), id)
  {
    OtherStepsKeepSync(s, step);
  }

  lemma StepKeepsRecord(s: State, step: Step, id: Id)
    requires GoneLeft(s, id) && Enabled(s, step) && Kept(s, id)
    requires id in s.server.records && step != ForgetRemove(id)
    ensures Kept(Apply(s, step), id)
  {
    if IsSyncStep(step) {
      SyncKeepsRecord(s, step, id);
    } else {
      OthersKeepRecord(s, step, id);
    }
  }

  lemma {:induction false} KeptHolds(states: seq<State>, steps: seq<Step>, i: nat, j: nat, id: Id)
    requires IsRun(states, steps) && i <= j < |states|
    requires id in states[i].index
    requires forall k :: i <= k <= j ==> id in states[k].server.records
    requires forall k :: i <= k < j ==> steps[k] != ForgetRemove(id)
    ensures Kept(states[j], id)
    decreases j
  {
    if i == j {
    } else {
      KeptHolds(states, steps, i, j - 1, id);
      GoneIsGoneHolds(states, steps, j - 1, id);
      StepKeepsRecord(states[j - 1], steps[j - 1], id);
    }
  }

  /** In every run, whatever interleaves: a record that is in the index and stays on the server stays in the index, or is
      hidden there by healing, until a local delete forgets it. */
  lemma NeverDropped(states: seq<State>, steps: seq<Step>, i: nat, j: nat, id: Id)
    requires IsRun(states, steps) && i <= j < |states|
    requires id in states[i].index
    requires forall k :: i <= k <= j ==> id in states[k].server.records
    requires forall k :: i <= k < j ==> steps[k] != ForgetRemove(id)
    ensures id in states[j].index || id in states[j].stale
  {
    KeptHolds(states, steps, i, j, id);
  }

  /** Healing hides a record only beside an identical copy that stays in the index. */
  lemma HealLeavesCopy(s: State, id: Id) returns (copy: Id)
    requires Enabled(s, ApplyHeal(id))
    ensures var t := Apply(s, ApplyHeal(id)); copy in t.index && t.index[copy] == s.index[id] && copy != id
  {
    copy :| copy in s.index && Less(copy, id) && s.index[copy] == s.index[id];
    LessIrreflexive(id);
  }
}
