/** Saving a write buffer while it may still be edited: the steps of a commit interleaved with writes. */
module WriteBack {
  import opened Octets
  import opened ScratchStore
  import opened Wrappers

  type RecordId = nat

  datatype Target = NewFile | Existing(id: RecordId)

  /** How far the one commit that holds the commit lock has come. sent is what the current attempt has read. A landed
      record stays on the server even when its answer is lost and the upload is tried again. */
  datatype Phase =
    | Idle
    | Uploading(gen: nat, len: nat, sent: Bytes, landed: Option<RecordId>)
    | Answered(gen: nat, id: RecordId)
    | Marked(gen: nat, id: RecordId)

  /** replaced: records that a save has replaced, to be deleted at some time. */
  datatype State = State(
    buf: Bytes, gen: nat, committed: nat, target: Target, records: map<RecordId, Bytes>, replaced: set<RecordId>,
    phase: Phase)
  {
    predicate Dirty() {
      gen != committed
    }
  }

  datatype Step =
    | Write(offset: nat, data: Bytes)
    | Truncate(len: nat)
    | Commit
    | ReadMore(want: nat)
    | Retry
    | GiveUp
    | Land(id: RecordId)
    | Answer
    | DeleteOld(id: RecordId)
    | Mark
    | Retarget

  /** The server gives no id out twice. */
  ghost predicate Unused(s: State, id: RecordId) {
    id !in s.records && id !in s.replaced && s.target != Existing(id)
  }

  ghost predicate Enabled(s: State, step: Step) {
    match step
    case Write(_, _) => true
    case Truncate(_) => true
    case Commit => s.phase.Idle?
    case ReadMore(want) =>
      s.phase.Uploading? && want > 0 && |s.phase.sent| < s.phase.len && |s.phase.sent| < |s.buf|
    case Retry => s.phase.Uploading?
    case GiveUp => s.phase.Uploading? || s.phase.Answered?
    case Land(id) =>
      s.phase.Uploading? && |s.phase.sent| == s.phase.len && s.phase.landed.None? && Unused(s, id)
    case Answer => s.phase.Uploading? && s.phase.landed.Some?
    case DeleteOld(id) => id in s.replaced
    case Mark => s.phase.Answered?
    case Retarget => s.phase.Marked?
  }

  ghost function Apply(s: State, step: Step): State
    requires Enabled(s, step)
  {
    match step
    case Write(offset, data) =>
      if data == [] then s else s.(buf := Written(s.buf, offset, data), gen := s.gen + 1)
    case Truncate(len) => s.(buf := Resized(s.buf, len), gen := s.gen + 1)
    case Commit =>
      if s.Dirty() then s.(phase := Uploading(s.gen, |s.buf|, [], None)) else s
    case ReadMore(want) =>
      var pos := |s.phase.sent|;
      var n := Min(want, Min(s.phase.len - pos, |s.buf| - pos));
      s.(phase := s.phase.(sent := s.phase.sent + s.buf[pos..pos + n]))
    case Retry => s.(phase := s.phase.(sent := []))
    case GiveUp => s.(phase := Idle)
    case Land(id) => s.(records := s.records[id := s.phase.sent], phase := s.phase.(landed := Some(id)))
    case Answer =>
      s.(phase := Answered(s.phase.gen, s.phase.landed.value),
         replaced := if s.target.Existing? then s.replaced + {s.target.id} else s.replaced)
    case DeleteOld(id) => s.(records := s.records - {id})
    case Mark => s.(committed := s.phase.gen, phase := Marked(s.phase.gen, s.phase.id))
    case Retarget => s.(target := Existing(s.phase.id), phase := Idle)
  }

  ghost function Min(a: nat, b: nat): nat {
    if a < b then a else b
  }

  // ---------- How a write buffer starts ----------

  /** An existing file opened for writing: its content is loaded and marked committed. */
  ghost function OpenedExisting(id: RecordId, content: Bytes, gen: nat, records: map<RecordId, Bytes>): State {
    State(content, gen, gen, Existing(id), records[id := content], {}, Idle)
  }

  /** An existing file opened for truncation, or a new one: empty and dirty from the start. */
  ghost function OpenedEmpty(target: Target, records: map<RecordId, Bytes>): State {
    State([], 1, 0, target, records, {}, Idle)
  }

  ghost predicate Initial(s: State) {
    || (exists id, content, gen, records :: s == OpenedExisting(id, content, gen, records))
    || (exists target, records :: s == OpenedEmpty(target, records))
  }

  /** The states along a run. */
  ghost predicate IsRun(states: seq<State>, steps: seq<Step>) {
    && |states| == |steps| + 1
    && Initial(states[0])
    && (forall i {:trigger steps[i]} :: 0 <= i < |steps| ==> Enabled(states[i], steps[i]) && states[i + 1] == Apply(states[i], steps[i]))
  }

  // ---------- What every step keeps ----------

  /** The record holds the buffer, unless the buffer was edited after generation gen. */
  ghost predicate Saved(s: State, gen: nat, id: RecordId) {
    gen == s.gen ==> id in s.records && s.records[id] == s.buf
  }

  /** The record is there and no save has replaced it. */
  ghost predicate Stays(s: State, id: RecordId) {
    id in s.records && id !in s.replaced
  }

  ghost predicate Inv(s: State) {
    && s.committed <= s.gen
    && match s.phase
       case Idle =>
         s.Dirty() || (s.target.Existing? && Saved(s, s.committed, s.target.id) && Stays(s, s.target.id))
       case Uploading(gen, len, sent, landed) =>
         && s.committed < gen <= s.gen
         && |sent| <= len
         && (gen == s.gen ==> len == |s.buf| && sent == s.buf[..|sent|])
         && (landed.Some? ==>
               Saved(s, gen, landed.value) && Stays(s, landed.value) && s.target != Existing(landed.value))
       case Answered(gen, id) => s.committed < gen <= s.gen && Saved(s, gen, id) && Stays(s, id)
       case Marked(gen, id) => s.committed == gen && Saved(s, gen, id) && Stays(s, id)
  }

  lemma InvInitial(s: State)
    requires Initial(s)
    ensures Inv(s)
  {
  }

  lemma InvKept(s: State, step: Step)
    requires Inv(s) && Enabled(s, step)
    ensures Inv(Apply(s, step))
  {
    if step.ReadMore? && s.phase.gen == s.gen {
      var pos := |s.phase.sent|;
      var n := Min(step.want, Min(s.phase.len - pos, |s.buf| - pos));
      assert s.buf[..pos] + s.buf[pos..pos + n] == s.buf[..pos + n];
    }
    if step.Land? && s.phase.gen == s.gen {
      assert s.buf[..|s.buf|] == s.buf;
    }
  }

  lemma {:induction false} InvHolds(states: seq<State>, steps: seq<Step>, i: nat)
    requires IsRun(states, steps) && i < |states|
    ensures Inv(states[i])
  {
    if i == 0 {
      InvInitial(states[0]);
    } else {
      InvHolds(states, steps, i - 1);
      InvKept(states[i - 1], steps[i - 1]);
    }
  }

  /** In every run, whenever the buffer is clean its bytes are in a record on the server: in the target's record, or, when
      a commit has marked the buffer and not yet turned to the new target, in the record that commit saved. */
  lemma CleanMeansSaved(states: seq<State>, steps: seq<Step>, i: nat)
    requires IsRun(states, steps) && i < |states| && !states[i].Dirty()
    ensures states[i].phase.Idle? || states[i].phase.Marked?
    ensures states[i].phase.Idle? ==>
              var s := states[i];
              s.target.Existing? && s.target.id in s.records && s.records[s.target.id] == s.buf
    ensures states[i].phase.Marked? ==>
              var s := states[i];
              s.phase.id in s.records && s.records[s.phase.id] == s.buf
  {
    InvHolds(states, steps, i);
  }

  /** So nothing is missing once the commit has turned to the new target, which it does in its next step. */
  lemma MarkedTurns(states: seq<State>, steps: seq<Step>, i: nat)
    requires IsRun(states, steps) && i < |steps| && states[i].phase.Marked? && !states[i].Dirty()
    requires steps[i] == Retarget
    ensures var s := states[i + 1];
            s.target.Existing? && s.target.id in s.records && s.records[s.target.id] == s.buf
  {
    InvHolds(states, steps, i);
    assert states[i + 1] == Apply(states[i], steps[i]);
  }

  /** Until then the target is still the old one, whose record need not hold the buffer: from any old content and for any
      new byte, a run ends clean with the old content in its target's record. */
  lemma CleanBeforeTurning(id: RecordId, saved: RecordId, content: Bytes, x: Byte)
      returns (states: seq<State>, steps: seq<Step>)
    requires saved != id && [x] != content && |content| <= 1
    ensures IsRun(states, steps)
    ensures var s := states[|steps|];
            && !s.Dirty() && s.phase == Marked(s.gen, saved) && s.target == Existing(id)
            && s.records == map[id := content, saved := [x]] && s.buf == [x]
  {
    states, steps := UploadingRun(id, content, x);
    var s3 := states[3];
    var s4 := s3.(records := map[id := content, saved := [x]], phase := Uploading(1, 1, [x], Some(saved)));
    var s5 := s4.(phase := Answered(1, saved), replaced := {id});
    var s6 := s5.(committed := 1, phase := Marked(1, saved));
    assert s4.records == s3.records[saved := [x]] && s5.replaced == s4.replaced + {id};
    RunOn(states, steps, Land(saved), s4);
    RunOn(states + [s4], steps + [Land(saved)], Answer, s5);
    RunOn(states + [s4] + [s5], steps + [Land(saved)] + [Answer], Mark, s6);
    states, steps := states + [s4] + [s5] + [s6], steps + [Land(saved)] + [Answer] + [Mark];
  }

  /** The run up to the upload of the new byte. */
  lemma UploadingRun(id: RecordId, content: Bytes, x: Byte) returns (states: seq<State>, steps: seq<Step>)
    requires |content| <= 1
    ensures |states| == 4 && IsRun(states, steps)
    ensures states[3] == State([x], 1, 0, Existing(id), map[id := content], {}, Uploading(1, 1, [x], None))
  {
    var s0 := OpenedExisting(id, content, 0, map[]);
    var s1 := State([x], 1, 0, Existing(id), map[id := content], {}, Idle);
    var s2 := s1.(phase := Uploading(1, 1, [], None));
    var s3 := s1.(phase := Uploading(1, 1, [x], None));
    assert Written(content, 0, [x]) == [x];
    assert s0.records == s1.records;
    assert [] + s2.buf[0..1] == [x];
    assert IsRun([s0], []);
    RunOn([s0], [], Write(0, [x]), s1);
    RunOn([s0, s1], [Write(0, [x])], Commit, s2);
    RunOn([s0, s1, s2], [Write(0, [x]), Commit], ReadMore(1), s3);
    states, steps := [s0, s1, s2] + [s3], [Write(0, [x]), Commit] + [ReadMore(1)];
  }

  lemma RunOn(states: seq<State>, steps: seq<Step>, step: Step, t: State)
    requires IsRun(states, steps) && Enabled(states[|steps|], step) && t == Apply(states[|steps|], step)
    ensures IsRun(states + [t], steps + [step])
  {
  }

  ghost predicate IsEdit(step: Step) {
    step.Truncate? || (step.Write? && step.data != [])
  }

  lemma {:induction false} GenerationGrows(states: seq<State>, steps: seq<Step>, i: nat, j: nat)
    requires IsRun(states, steps) && i <= j < |states|
    ensures states[i].gen <= states[j].gen
    decreases j
  {
    if i == j {
    } else {
      GenerationGrows(states, steps, i, j - 1);
      assert states[j] == Apply(states[j - 1], steps[j - 1]);
    }
  }

  /** A commit that starts after step i and ends by step j would have marked a generation of that time. */
  lemma {:induction false} CommittedIsOld(states: seq<State>, steps: seq<Step>, i: nat, j: nat, gen: nat)
    requires IsRun(states, steps) && i <= j < |states|
    requires states[i].committed <= gen && (!states[i].phase.Idle? ==> states[i].phase.gen <= gen)
    requires forall k :: i <= k < j ==> !steps[k].Commit?
    ensures states[j].committed <= gen && (!states[j].phase.Idle? ==> states[j].phase.gen <= gen)
    decreases j
  {
    if i == j {
    } else {
      CommittedIsOld(states, steps, i, j - 1, gen);
      assert states[j] == Apply(states[j - 1], steps[j - 1]);
    }
  }

  /** An edit that lands at step i, in whatever phase of a commit, leaves the buffer dirty until another commit
      starts, however the running one ends. */
  lemma EditStaysDirty(states: seq<State>, steps: seq<Step>, i: nat, j: nat)
    requires IsRun(states, steps) && i < j < |states| && IsEdit(steps[i])
    requires forall k :: i <= k < j ==> !steps[k].Commit?
    ensures states[j].Dirty()
  {
    InvHolds(states, steps, i);
    var gen := states[i].gen;
    assert states[i + 1].gen == gen + 1;
    CommittedIsOld(states, steps, i, j, gen);
    GenerationGrows(states, steps, i + 1, j);
  }

  // ---------- What has been saved is not lost ----------

  /** The record holds the content, and nothing about to happen replaces it. */
  ghost predicate Holds(s: State, id: RecordId, content: Bytes) {
    && Stays(s, id) && s.records[id] == content
    && match s.phase
       case Uploading(_, _, _, landed) => landed != Some(id)
       case Answered(_, saved) => saved == id
       case Marked(_, saved) => saved == id
       case Idle => true
  }

  lemma HoldsKept(s: State, step: Step, id: RecordId, content: Bytes)
    requires Holds(s, id, content) && Enabled(s, step) && !step.Answer?
    ensures Holds(Apply(s, step), id, content)
  {
  }

  lemma {:induction false} HoldsOn(states: seq<State>, steps: seq<Step>, i: nat, j: nat, id: RecordId, content: Bytes)
    requires IsRun(states, steps) && i <= j < |states| && Holds(states[i], id, content)
    requires forall k :: i <= k < j ==> !steps[k].Answer?
    ensures Holds(states[j], id, content)
    decreases j
  {
    if i < j {
      HoldsOn(states, steps, i, j - 1, id, content);
      HoldsKept(states[j - 1], steps[j - 1], id, content);
    }
  }

  /** In every run: once the server has answered that a save is there, its record keeps what was sent until it has
      answered for another save, however commits fail and whatever is deleted. */
  lemma SavedIsNotLost(states: seq<State>, steps: seq<Step>, i: nat, j: nat)
    requires IsRun(states, steps) && i < j < |states| && steps[i].Answer?
    requires forall k :: i < k < j ==> !steps[k].Answer?
    ensures states[i].phase.landed.Some?
    ensures var id := states[i].phase.landed.value;
            && id in states[i].records
            && id in states[j].records && states[j].records[id] == states[i].records[id]
            && (states[i].phase.gen == states[i].gen ==> states[i].records[id] == states[i].buf)
  {
    InvHolds(states, steps, i);
    assert Enabled(states[i], steps[i]) && states[i + 1] == Apply(states[i], steps[i]);
    var id := states[i].phase.landed.value;
    HoldsOn(states, steps, i + 1, j, id, states[i].records[id]);
  }

  /** And what an existing file held when it was opened is kept until the first such answer. */
  lemma OpenedIsNotLost(states: seq<State>, steps: seq<Step>, j: nat, id: RecordId)
    requires IsRun(states, steps) && j < |states| && id in states[0].records
    requires forall k :: 0 <= k < j ==> !steps[k].Answer?
    ensures id in states[j].records && states[j].records[id] == states[0].records[id]
  {
    HoldsOn(states, steps, 0, j, id, states[0].records[id]);
  }
}
