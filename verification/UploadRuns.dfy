/** Uploads of different parts run at the same time, and a completion beside them. */
module UploadRuns {
  import opened Octets
  import opened PartUpload

  datatype State = State(
    data: Bytes,               // the file, before and after it is moved to its final place
    markers: set<nat>,
    flight: map<nat, Bytes>,   // parts being uploaded, with the bytes on disk so far
    accepted: map<nat, Bytes>, // the last accepted body of each part
    checked: bool,             // the completion has found all markers
    moved: bool)               // and has moved the file

  datatype Step =
    | Begin(i: nat)                   // removes the marker, opens the file
    | Deliver(i: nat, bytes: Bytes)
    | Finish(i: nat)
    | Fail(i: nat)
    | Check
    | Move

  ghost predicate Enabled(s: Session, st: State, step: Step) {
    match step
    case Begin(i) => i < s.partCount && i !in st.flight && !st.moved  // no two uploads of one part at a time
    case Deliver(i, bytes) => i in st.flight && |st.flight[i]| + |bytes| <= PartLength(s, i)
    case Finish(i) => i in st.flight && |st.flight[i]| == PartLength(s, i) && !st.moved
    case Fail(i) => i in st.flight
    case Check => !st.checked && forall i :: 0 <= i < s.partCount ==> i in st.markers
    case Move => st.checked && !st.moved
  }

  ghost function Apply(s: Session, st: State, step: Step): State
    requires Enabled(s, st, step)
  {
    match step
    case Begin(i) => st.(markers := st.markers - {i}, flight := st.flight[i := []])
    case Deliver(i, bytes) =>
      var at := PartStart(s, i) + |st.flight[i]|;
      st.(data := if at + |bytes| <= |st.data| then Written(st.data, at, bytes) else st.data,
          flight := st.flight[i := st.flight[i] + bytes])
    case Finish(i) =>
      st.(markers := st.markers + {i}, accepted := st.accepted[i := st.flight[i]], flight := st.flight - {i})
    case Fail(i) => st.(flight := st.flight - {i})
    case Check => st.(checked := true)
    case Move => st.(moved := true)
  }

  ghost predicate Initial(s: Session, st: State) {
    |st.data| == s.total && st.markers == {} && st.flight == map[] && st.accepted == map[] && !st.checked && !st.moved
  }

  ghost predicate IsRun(s: Session, states: seq<State>, steps: seq<Step>) {
    && Tiled(s) && |states| == |steps| + 1 && Initial(s, states[0])
    && forall k {:trigger steps[k]} :: 0 <= k < |steps| ==> Enabled(s, states[k], steps[k]) && states[k + 1] == Apply(s, states[k], steps[k])
  }

  /** No upload of a part begins between the completion's look at the markers and its move of the file. */
  ghost predicate Calm(states: seq<State>, steps: seq<Step>) {
    |states| == |steps| + 1 && forall k :: 0 <= k < |steps| && states[k].checked ==> !steps[k].Begin?
  }

  // ---------- What every step keeps ----------

  /** The bytes got so far are at the start of the part's place. */
  ghost predicate Landed(s: Session, data: Bytes, i: nat, got: Bytes)
    requires Tiled(s) && |data| == s.total && i < s.partCount
  {
    PartFits(s, i);
    |got| <= PartLength(s, i) && data[PartStart(s, i)..PartStart(s, i) + |got|] == got
  }

  ghost predicate FlightsOk(s: Session, st: State) {
    && Tiled(s) && |st.data| == s.total
    && (forall i :: i in st.flight ==> i < s.partCount && Landed(s, st.data, i, st.flight[i]))
    && forall i :: i in st.markers ==> i < s.partCount && i in st.accepted && i !in st.flight
  }

  ghost predicate Inv(s: Session, st: State) {
    && FlightsOk(s, st)
    && forall i :: i in st.markers ==> Holds(s, st.data, i, st.accepted[i])
  }

  lemma LandedMore(s: Session, data: Bytes, i: nat, got: Bytes, bytes: Bytes)
    requires Tiled(s) && |data| == s.total && i < s.partCount
    requires Landed(s, data, i, got) && |got| + |bytes| <= PartLength(s, i)
    ensures PartStart(s, i) + |got| + |bytes| <= |data|
    ensures var f := Written(data, PartStart(s, i) + |got|, bytes);
            Landed(s, f, i, got + bytes) && SameOutside(data, f, PartStart(s, i), PartLength(s, i))
  {
    PartFits(s, i);
    var a := PartStart(s, i);
    var f := Written(data, a + |got|, bytes);
    assert f[a..a + |got|] == got;
    assert f[a + |got|..a + |got| + |bytes|] == bytes;
    assert f[a..a + |got + bytes|] == got + bytes;
  }

  lemma OthersLanded(s: Session, f: Bytes, g: Bytes, i: nat, j: nat, got: Bytes)
    requires Tiled(s) && |f| == s.total && i < s.partCount && j < s.partCount && i != j
    requires PartLength(s, i) >= 0 && SameOutside(f, g, PartStart(s, i), PartLength(s, i))
    requires Landed(s, f, j, got)
    ensures Landed(s, g, j, got)
  {
    PartFits(s, j);
    if i < j {
      PartsApart(s, i, j);
    } else {
      PartsApart(s, j, i);
    }
    var a := PartStart(s, j);
    assert g[a..a + |got|] == f[a..a + |got|];
  }

  lemma LandedWhole(s: Session, data: Bytes, i: nat, got: Bytes)
    requires Tiled(s) && |data| == s.total && i < s.partCount
    requires Landed(s, data, i, got) && |got| == PartLength(s, i)
    ensures Holds(s, data, i, got)
  {
  }

  lemma DeliverLands(s: Session, st: State, i: nat, bytes: Bytes)
    requires FlightsOk(s, st) && Enabled(s, st, Deliver(i, bytes))
    ensures var st' := Apply(s, st, Deliver(i, bytes));
            && |st'.data| == s.total && PartLength(s, i) >= 0 && Landed(s, st'.data, i, st'.flight[i])
            && SameOutside(st.data, st'.data, PartStart(s, i), PartLength(s, i))
  {
    PartFits(s, i);
    LandedMore(s, st.data, i, st.flight[i], bytes);
  }

  /** The part being delivered changes its own place only. */
  lemma DeliverChanges(s: Session, st: State, i: nat, bytes: Bytes)
    requires FlightsOk(s, st) && Enabled(s, st, Deliver(i, bytes))
    ensures var st' := Apply(s, st, Deliver(i, bytes));
            && FlightsOk(s, st') && PartLength(s, i) >= 0
            && SameOutside(st.data, st'.data, PartStart(s, i), PartLength(s, i))
  {
    var st' := Apply(s, st, Deliver(i, bytes));
    DeliverLands(s, st, i, bytes);
    forall j | j in st'.flight
      ensures Landed(s, st'.data, j, st'.flight[j])
    {
      if j != i {
        OthersLanded(s, st.data, st'.data, i, j, st.flight[j]);
      }
    }
  }

  lemma FlightsKept(s: Session, st: State, step: Step)
    requires FlightsOk(s, st) && Enabled(s, st, step)
    ensures FlightsOk(s, Apply(s, st, step))
  {
    if step.Deliver? {
      DeliverChanges(s, st, step.i, step.bytes);
    } else if step.Begin? {
      PartFits(s, step.i);
    }
  }

  lemma InvKept(s: Session, st: State, step: Step)
    requires Inv(s, st) && Enabled(s, st, step)
    ensures Inv(s, Apply(s, st, step))
  {
    var st' := Apply(s, st, step);
    FlightsKept(s, st, step);
    forall j | j in st'.markers
      ensures Holds(s, st'.data, j, st'.accepted[j])
    {
      if step == Finish(j) {
        LandedWhole(s, st.data, j, st.flight[j]);
      } else if step.Deliver? {
        DeliverChanges(s, st, step.i, step.bytes);
        OthersHold(s, st.data, st'.data, step.i, j, st.accepted[j]);
      }
    }
  }

  /** Once the completion has checked, every part is marked, so nothing is being written any more. */
  ghost predicate Settled(s: Session, st: State) {
    st.checked ==> (forall i :: 0 <= i < s.partCount ==> i in st.markers) && st.flight == map[]
  }

  lemma NoneInFlight(s: Session, st: State)
    requires FlightsOk(s, st) && forall i :: 0 <= i < s.partCount ==> i in st.markers
    ensures st.flight == map[]
  {
    assert st.flight.Keys == {};
  }

  lemma {:induction false} CalmRun(s: Session, states: seq<State>, steps: seq<Step>, k: nat)
    requires IsRun(s, states, steps) && Calm(states, steps) && k < |states|
    ensures Inv(s, states[k]) && Settled(s, states[k]) && (states[k].moved ==> states[k].checked)
  {
    if k == 0 {
    } else {
      CalmRun(s, states, steps, k - 1);
      InvKept(s, states[k - 1], steps[k - 1]);
      if steps[k - 1].Check? {
        NoneInFlight(s, states[k - 1]);
      }
    }
  }

  /** In a calm run a completed upload is the last accepted bodies in order, whatever the order, the failures and the
      repetitions of its parts were. */
  lemma CompletedIsAccepted(s: Session, states: seq<State>, steps: seq<Step>, k: nat)
    requires IsRun(s, states, steps) && Calm(states, steps) && k < |states| && states[k].moved
    ensures forall i :: 0 <= i < s.partCount ==> i in states[k].accepted
    ensures states[k].data == Assembled(states[k].accepted, s.partCount)
  {
    CalmRun(s, states, steps, k);
    WholeFile(s, states[k].data, states[k].accepted);
  }

  /** In a calm run a completed upload no longer changes. */
  lemma {:induction false} CompletedStays(s: Session, states: seq<State>, steps: seq<Step>, j: nat, k: nat)
    requires IsRun(s, states, steps) && Calm(states, steps) && j <= k < |states| && states[j].moved
    ensures states[k].data == states[j].data && states[k].accepted == states[j].accepted && states[k].moved
    decreases k
  {
    if j == k {
    } else {
      CompletedStays(s, states, steps, j, k - 1);
      CalmRun(s, states, steps, k - 1);
    }
  }

  // ---------- What holds in every run, calm or not ----------

  /** Accepted bodies have their parts' lengths, and the completion goes on only when every part has been accepted. */
  ghost predicate AcceptedOk(s: Session, st: State) {
    && (forall i :: i in st.accepted ==> i < s.partCount && |st.accepted[i]| == PartLength(s, i))
    && (forall i :: i in st.markers ==> i in st.accepted)
    && (st.checked ==> forall i :: 0 <= i < s.partCount ==> i in st.accepted)
    && (st.moved ==> st.checked)
  }

  lemma {:induction false} AcceptedHolds(s: Session, states: seq<State>, steps: seq<Step>, k: nat)
    requires IsRun(s, states, steps) && k < |states|
    ensures FlightsOk(s, states[k]) && AcceptedOk(s, states[k])
  {
    if k == 0 {
    } else {
      AcceptedHolds(s, states, steps, k - 1);
      FlightsKept(s, states[k - 1], steps[k - 1]);
      AcceptedKept(s, states[k - 1], steps[k - 1]);
    }
  }

  lemma AcceptedKept(s: Session, st: State, step: Step)
    requires FlightsOk(s, st) && AcceptedOk(s, st) && Enabled(s, st, step)
    ensures AcceptedOk(s, Apply(s, st, step))
  {
  }

  /** In every run a completed upload had every part accepted. */
  lemma CompletedHadAll(s: Session, states: seq<State>, steps: seq<Step>, k: nat)
    requires IsRun(s, states, steps) && k < |states| && states[k].moved
    ensures forall i :: 0 <= i < s.partCount ==> i in states[k].accepted && |states[k].accepted[i]| == PartLength(s, i)
  {
    AcceptedHolds(s, states, steps, k);
  }

  // ---------- Runs that are not calm ----------

  ghost predicate Path(s: Session, st: State, steps: seq<Step>, end: State)
    decreases |steps|
  {
    if steps == [] then st == end else Enabled(s, st, steps[0]) && Path(s, Apply(s, st, steps[0]), steps[1..], end)
  }

  lemma {:induction false} PathIsRun(s: Session, states: seq<State>, steps: seq<Step>, more: seq<Step>, end: State)
      returns (states': seq<State>)
    requires IsRun(s, states, steps) && Path(s, states[|steps|], more, end)
    ensures IsRun(s, states', steps + more) && states <= states' && states'[|steps + more|] == end
    decreases |more|
  {
    if more == [] {
      states' := states;
      assert steps + more == steps;
    } else {
      var next := Apply(s, states[|steps|], more[0]);
      states' := PathIsRun(s, states + [next], steps + [more[0]], more[1..], end);
      assert steps + more == steps + [more[0]] + more[1..];
    }
  }

  lemma PathStep(s: Session, st: State, step: Step, steps: seq<Step>, end: State)
    requires Enabled(s, st, step) && Path(s, Apply(s, st, step), steps, end)
    ensures Path(s, st, [step] + steps, end)
  {
    assert ([step] + steps)[1..] == steps;
  }

  /** The assembled file has the first byte of each body where its part starts. */
  lemma {:induction false} AssembledAt(s: Session, bodies: map<nat, Bytes>, n: nat, i: nat)
    requires Tiled(s) && i < n <= s.partCount
    requires forall j :: 0 <= j < n ==> j in bodies && |bodies[j]| == PartLength(s, j)
    ensures |Assembled(bodies, n)| == PartEnd(s, n) && PartStart(s, i) < PartEnd(s, n) && bodies[i] != []
    ensures Assembled(bodies, n)[PartStart(s, i)] == bodies[i][0]
  {
    PartFits(s, n - 1);
    if n == 1 {
      assert Assembled(bodies, 0) == [];
    } else {
      AssembledAt(s, bodies, n - 1, if i < n - 1 then i else 0);
    }
  }

  /** Uploading any part once more, and failing, between the look at the markers and the move leaves a completed file
      that is not the accepted bodies. st is any state in which that can begin. */
  lemma LateBeginSpoils(s: Session, st: State, i: nat) returns (steps: seq<Step>, end: State)
    requires FlightsOk(s, st) && AcceptedOk(s, st) && st.checked && Enabled(s, st, Begin(i))
    ensures exists x: Byte :: steps == [Deliver(i, [x]), Fail(i), Move]
    ensures Path(s, Apply(s, st, Begin(i)), steps, end) && end.moved && end.accepted == st.accepted
    ensures end.data != Assembled(end.accepted, s.partCount)
  {
    AssembledAt(s, st.accepted, s.partCount, i);
    var x: Byte := if st.accepted[i][0] == 0 then 1 else 0;
    PartFits(s, i);
    var a := Apply(s, st, Begin(i));
    var b := Apply(s, a, Deliver(i, [x]));
    var c := Apply(s, b, Fail(i));
    end := Apply(s, c, Move);
    steps := [Deliver(i, [x]), Fail(i), Move];
    assert end.data[PartStart(s, i)] == x;
    SpoilingPath(s, a, i, x, end);
  }

  lemma SpoilingPath(s: Session, a: State, i: nat, x: Byte, end: State)
    requires Enabled(s, a, Deliver(i, [x])) && a.checked && !a.moved
    requires var b := Apply(s, a, Deliver(i, [x])); end == Apply(s, Apply(s, b, Fail(i)), Move)
    ensures Path(s, a, [Deliver(i, [x]), Fail(i), Move], end)
  {
    var b := Apply(s, a, Deliver(i, [x]));
    var c := Apply(s, b, Fail(i));
    assert Path(s, end, [], end);
    PathStep(s, c, Move, [], end);
    assert [Move] + [] == [Move];
    PathStep(s, b, Fail(i), [Move], end);
    PathStep(s, a, Deliver(i, [x]), [Fail(i), Move], end);
    assert [Fail(i)] + [Move] == [Fail(i), Move];
    assert [Deliver(i, [x])] + [Fail(i), Move] == [Deliver(i, [x]), Fail(i), Move];
  }

  /** So calmness is needed as well as enough: every run that is not calm could have gone on, from its first late upload,
      to complete a file that is not the accepted bodies. */
  lemma NotCalmSpoils(s: Session, states: seq<State>, steps: seq<Step>, k: nat)
      returns (states': seq<State>, steps': seq<Step>)
    requires IsRun(s, states, steps) && k < |steps| && states[k].checked && steps[k].Begin?
    ensures IsRun(s, states', steps') && states[..k + 2] <= states' && steps[..k + 1] <= steps'
    ensures CompletedWrong(s, states'[|steps'|])
  {
    AcceptedHolds(s, states, steps, k);
    var more, end := LateBeginSpoils(s, states[k], steps[k].i);
    RunPrefix(s, states, steps, k + 1);
    states' := PathIsRun(s, states[..k + 2], steps[..k + 1], more, end);
    steps' := steps[..k + 1] + more;
    assert states'[|steps'|] == end && AcceptedOk(s, end) by {
      AcceptedHolds(s, states', steps', |steps'|);
    }
  }

  /** The upload is complete, every part was accepted, and the file is not the accepted bodies. */
  ghost predicate CompletedWrong(s: Session, st: State) {
    && st.moved && (forall i :: 0 <= i < s.partCount ==> i in st.accepted)
    && st.data != Assembled(st.accepted, s.partCount)
  }

  lemma RunPrefix(s: Session, states: seq<State>, steps: seq<Step>, n: nat)
    requires IsRun(s, states, steps) && n <= |steps|
    ensures IsRun(s, states[..n + 1], steps[..n])
  {
  }

  /** A run in which the first n parts have been uploaded, one after the other. */
  ghost predicate Uploaded(s: Session, states: seq<State>, steps: seq<Step>, n: nat) {
    && IsRun(s, states, steps)
    && var st := states[|steps|];
       st.flight == map[] && !st.checked && !st.moved && forall i :: 0 <= i < n ==> i in st.markers
  }

  lemma {:induction false} FirstParts(s: Session, n: nat) returns (states: seq<State>, steps: seq<Step>)
    requires Tiled(s) && n <= s.partCount
    ensures Uploaded(s, states, steps, n)
  {
    if n == 0 {
      states, steps := [State(Zeros(s.total), {}, map[], map[], false, false)], [];
    } else {
      states, steps := FirstParts(s, n - 1);
      var st := states[|steps|];
      PartFits(s, n - 1);
      var end := OnePart(s, st, n - 1);
      var more := [Begin(n - 1), Deliver(n - 1, Zeros(PartLength(s, n - 1))), Finish(n - 1)];
      states := PathIsRun(s, states, steps, more, end);
      steps := steps + more;
    }
  }

  lemma OnePart(s: Session, st: State, i: nat) returns (end: State)
    requires Tiled(s) && i < s.partCount && st.flight == map[] && !st.checked && !st.moved && PartLength(s, i) >= 0
    ensures Path(s, st, [Begin(i), Deliver(i, Zeros(PartLength(s, i))), Finish(i)], end)
    ensures end.flight == map[] && !end.checked && !end.moved && end.markers == st.markers + {i}
  {
    var body := Zeros(PartLength(s, i));
    var a := Apply(s, st, Begin(i));
    var b := Apply(s, a, Deliver(i, body));
    assert [] + body == body;
    end := Apply(s, b, Finish(i));
    assert end.flight == map[];
    assert Path(s, end, [], end);
    PathStep(s, b, Finish(i), [], end);
    assert [Finish(i)] + [] == [Finish(i)];
    PathStep(s, a, Deliver(i, body), [Finish(i)], end);
    PathStep(s, st, Begin(i), [Deliver(i, body), Finish(i)], end);
    assert [Deliver(i, body)] + [Finish(i)] == [Deliver(i, body), Finish(i)];
    assert [Begin(i)] + [Deliver(i, body), Finish(i)] == [Begin(i), Deliver(i, body), Finish(i)];
  }

  /** Every session has a run that completes a wrong file. */
  lemma EverySessionCanSpoil(s: Session) returns (states: seq<State>, steps: seq<Step>)
    requires Tiled(s)
    ensures IsRun(s, states, steps) && !Calm(states, steps) && CompletedWrong(s, states[|steps|])
  {
    states, steps := FirstParts(s, s.partCount);
    var n := |steps|;
    var st := states[n];
    var checked := Apply(s, st, Check);
    var late := Apply(s, checked, Begin(0));
    states, steps := states + [checked, late], steps + [Check, Begin(0)];
    states, steps := NotCalmSpoils(s, states, steps, n + 1);
    assert states[n + 1].checked && steps[n + 1].Begin?;
  }

  /** Every upload of a part delivers the same body. */
  ghost predicate SameBodies(s: Session, bodies: map<nat, Bytes>, states: seq<State>) {
    && (forall i :: 0 <= i < s.partCount ==> i in bodies && |bodies[i]| == PartLength(s, i))
    && forall k, i :: 0 <= k < |states| && i in states[k].flight ==> i in bodies && states[k].flight[i] <= bodies[i]
  }

  ghost predicate AcceptedStays(s: Session, bodies: map<nat, Bytes>, st: State) {
    && FlightsOk(s, st)
    && (forall i :: i in st.accepted ==> i < s.partCount && i in bodies && st.accepted[i] == bodies[i]
                                         && Holds(s, st.data, i, bodies[i]))
    && (st.checked ==> forall i :: 0 <= i < s.partCount ==> i in st.accepted)
    && (st.moved ==> st.checked)
  }

  /** Writing a prefix of what is already there changes nothing. */
  lemma RewriteSame(s: Session, data: Bytes, i: nat, body: Bytes, got: Bytes, bytes: Bytes)
    requires Tiled(s) && |data| == s.total && i < s.partCount && Holds(s, data, i, body) && got + bytes <= body
    ensures PartStart(s, i) + |got| + |bytes| <= |data|
    ensures Written(data, PartStart(s, i) + |got|, bytes) == data
  {
    PartFits(s, i);
    var at := PartStart(s, i) + |got|;
    var place := data[PartStart(s, i)..PartStart(s, i) + PartLength(s, i)];
    assert (got + bytes)[|got|..] == bytes;
    assert place[..|got| + |bytes|] == got + bytes;
    assert data[at..at + |bytes|] == bytes;
    assert data[..at] + data[at..at + |bytes|] + data[at + |bytes|..] == data;
  }

  /** Delivering more of a part's one body changes nothing that is there already. */
  lemma DeliverHolds(s: Session, st: State, i: nat, bytes: Bytes, j: nat, body: Bytes)
    requires FlightsOk(s, st) && Enabled(s, st, Deliver(i, bytes)) && j < s.partCount && Holds(s, st.data, j, body)
    requires i == j ==> st.flight[i] + bytes <= body
    ensures var st' := Apply(s, st, Deliver(i, bytes)); |st'.data| == s.total && Holds(s, st'.data, j, body)
  {
    var st' := Apply(s, st, Deliver(i, bytes));
    DeliverChanges(s, st, i, bytes);
    if i == j {
      RewriteSame(s, st.data, j, body, st.flight[j], bytes);
    } else {
      OthersHold(s, st.data, st'.data, i, j, body);
    }
  }

  lemma AcceptedStaysKept(s: Session, bodies: map<nat, Bytes>, st: State, step: Step)
    requires AcceptedStays(s, bodies, st) && Enabled(s, st, step)
    requires forall i :: 0 <= i < s.partCount ==> i in bodies && |bodies[i]| == PartLength(s, i)
    requires forall i :: i in st.flight ==> i in bodies && st.flight[i] <= bodies[i]
    requires forall i :: i in Apply(s, st, step).flight ==> i in bodies && Apply(s, st, step).flight[i] <= bodies[i]
    ensures AcceptedStays(s, bodies, Apply(s, st, step))
  {
    var st' := Apply(s, st, step);
    FlightsKept(s, st, step);
    forall j | j in st'.accepted
      ensures st'.accepted[j] == bodies[j] && Holds(s, st'.data, j, bodies[j])
    {
      if step == Finish(j) {
        LandedWhole(s, st.data, j, st.flight[j]);
      } else if step.Deliver? {
        assert st'.flight[step.i] <= bodies[step.i];
        DeliverHolds(s, st, step.i, step.bytes, j, bodies[j]);
      }
    }
  }

  lemma {:induction false} SameBodiesRun(s: Session, bodies: map<nat, Bytes>, states: seq<State>, steps: seq<Step>, k: nat)
    requires IsRun(s, states, steps) && SameBodies(s, bodies, states) && k < |states|
    ensures AcceptedStays(s, bodies, states[k])
  {
    if k == 0 {
    } else {
      SameBodiesRun(s, bodies, states, steps, k - 1);
      assert forall i :: i in states[k].flight ==> states[k].flight[i] <= bodies[i];
      AcceptedStaysKept(s, bodies, states[k - 1], steps[k - 1]);
    }
  }

  /** If a part is only ever uploaded with the same body, the completed file is right in every run, calm or not. */
  lemma SameBodiesComplete(s: Session, bodies: map<nat, Bytes>, states: seq<State>, steps: seq<Step>, k: nat)
    requires IsRun(s, states, steps) && SameBodies(s, bodies, states) && k < |states| && states[k].moved
    ensures states[k].data == Assembled(bodies, s.partCount)
  {
    SameBodiesRun(s, bodies, states, steps, k);
    WholeFile(s, states[k].data, bodies);
  }
}
