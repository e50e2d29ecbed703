/** A commit can always be brought to its end. */
module WriteBackProgress {
  import opened Octets
  import opened ScratchStore
  import opened WriteBack
  import opened Wrappers

  ghost predicate Path(s: State, steps: seq<Step>, t: State)
    decreases |steps|
  {
    if steps == [] then s == t
    else Enabled(s, steps[0]) && !IsEdit(steps[0]) && Path(Apply(s, steps[0]), steps[1..], t)
  }

  lemma {:induction false} PathOn(s: State, p: seq<Step>, t: State, q: seq<Step>, u: State)
    requires Path(s, p, t) && Path(t, q, u)
    ensures Path(s, p + q, u)
    decreases |p|
  {
    if p == [] {
      assert p + q == q;
    } else {
      PathOn(Apply(s, p[0]), p[1..], t, q, u);
      assert (p + q)[1..] == p[1..] + q;
    }
  }

  lemma OneStep(s: State, step: Step)
    requires Enabled(s, step) && !IsEdit(step)
    ensures Path(s, [step], Apply(s, step))
  {
    assert [step][1..] == [];
    assert Path(Apply(s, step), [], Apply(s, step));
  }

  lemma Then(s: State, p: seq<Step>, t: State, step: Step)
    requires Path(s, p, t) && Enabled(t, step) && !IsEdit(step)
    ensures Path(s, p + [step], Apply(t, step))
  {
    OneStep(t, step);
    PathOn(s, p, t, [step], Apply(t, step));
  }

  /** Some id has never been given out. */
  lemma {:induction false} SomeIdLeft(ids: set<RecordId>) returns (id: RecordId)
    ensures forall x :: x in ids ==> x < id
  {
    if ids == {} {
      id := 0;
    } else {
      var x :| x in ids;
      var n := SomeIdLeft(ids - {x});
      id := if x >= n then x + 1 else n;
      forall y | y in ids
        ensures y < id
      {
        assert y == x || y in ids - {x};
      }
    }
  }

  lemma UnusedId(s: State) returns (id: RecordId)
    ensures Unused(s, id)
  {
    id := SomeIdLeft(s.records.Keys + s.replaced + if s.target.Existing? then {s.target.id} else {});
  }

  /** The buffer is clean, and its bytes are its target's record. */
  ghost predicate AllSaved(s: State) {
    && s.phase.Idle? && !s.Dirty()
    && s.target.Existing? && s.target.id in s.records && s.records[s.target.id] == s.buf
  }

  /** A commit that has just begun, read to the end. */
  lemma ReadAll(s: State) returns (p: seq<Step>, t: State)
    requires s.phase == Uploading(s.gen, |s.buf|, [], None)
    ensures Path(s, p, t) && t == s.(phase := Uploading(s.gen, |s.buf|, s.buf, None))
  {
    t := s.(phase := Uploading(s.gen, |s.buf|, s.buf, None));
    if s.buf == [] {
      p := [];
      assert s == t;
    } else {
      var step := ReadMore(|s.buf|);
      p := [step];
      OneStep(s, step);
      assert [] + s.buf[0..|s.buf|] == s.buf;
      assert Apply(s, step) == t;
    }
  }

  lemma LandAndMark(s: State) returns (p: seq<Step>, t: State)
    requires s.phase == Uploading(s.gen, |s.buf|, s.buf, None)
    ensures Path(s, p, t) && AllSaved(t) && t.buf == s.buf
  {
    var id := UnusedId(s);
    p, t := [Land(id)], Apply(s, Land(id));
    OneStep(s, Land(id));
    Then(s, p, t, Answer);
    p, t := p + [Answer], Apply(t, Answer);
    Then(s, p, t, Mark);
    p, t := p + [Mark], Apply(t, Mark);
    Then(s, p, t, Retarget);
    p, t := p + [Retarget], Apply(t, Retarget);
  }

  /** A commit of a dirty buffer, from its start to its end. */
  lemma CommitSaves(s: State) returns (p: seq<Step>, t: State)
    requires s.phase.Idle? && s.Dirty()
    ensures Path(s, p, t) && AllSaved(t) && t.buf == s.buf
  {
    var u := Apply(s, Commit);
    OneStep(s, Commit);
    var q, v := ReadAll(u);
    PathOn(s, [Commit], u, q, v);
    var r, w := LandAndMark(v);
    PathOn(s, [Commit] + q, v, r, w);
    p, t := [Commit] + q + r, w;
  }

  /** The commit under way ends, or gives up. */
  lemma Ends(s: State) returns (p: seq<Step>, t: State)
    ensures Path(s, p, t) && t.phase.Idle? && t.buf == s.buf
  {
    match s.phase
    case Idle => p, t := [], s;
    case Marked(_, _) =>
      OneStep(s, Retarget);
      p, t := [Retarget], Apply(s, Retarget);
    case _ =>
      OneStep(s, GiveUp);
      p, t := [GiveUp], Apply(s, GiveUp);
  }

  lemma PathKeepsInv(s: State, p: seq<Step>, t: State)
    requires Inv(s) && Path(s, p, t)
    ensures Inv(t)
    decreases |p|
  {
    if p != [] {
      InvKept(s, p[0]);
      PathKeepsInv(Apply(s, p[0]), p[1..], t);
    }
  }

  /** From every state of every run, without another edit, commits can leave the buffer clean and exactly its bytes in its
      target's record. */
  lemma CanBeSaved(states: seq<State>, steps: seq<Step>, i: nat) returns (p: seq<Step>, t: State)
    requires IsRun(states, steps) && i < |states|
    ensures Path(states[i], p, t) && AllSaved(t) && t.buf == states[i].buf
  {
    InvHolds(states, steps, i);
    p, t := Ends(states[i]);
    PathKeepsInv(states[i], p, t);
    if t.Dirty() {
      var q, u := CommitSaves(t);
      PathOn(states[i], p, t, q, u);
      p, t := p + q, u;
    }
  }
}
