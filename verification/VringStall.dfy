/**
 Why every task needs two buffers: a ring that is full of completed single-buffer tasks
 looks empty to the masked test, whatever happens next, and is never drained.  The run that
 leads there is built step by step for a ring of any size.
 */
module VringStall {
  import opened Common
  import opened VringProtocol
  import opened VringInvariant
  import opened VringRefinement
  import opened VringProperties
  import opened VringSolo

  function Single(i: nat): Task { Task(i, [Buffer(0, 0, false)]) }

  // i single-buffer tasks were put and completed, in slots 0..i, and none was returned.
  ghost predicate Stacked(s: Sys, i: nat) {
    && Sized(s) && i <= s.ring.num
    && s.prod == (if i == 0 then map[] else map[0 := Idle]) && s.cons == Waiting && s.dev.held == {}
    && s.reserved == s.published == s.taken == s.completed == |s.order| == i && s.consumed == 0
    && (i < s.ring.num ==> s.ring.taskIdx == i)
    && (forall j :: 0 <= j < s.ring.num ==> s.ring.tasks[j] == if j < i then Some(Single(j)) else None)
    && (forall t :: t in s.own ==> t.id < i)
  }

  // The device takes the chain at the next position and completes it with length 0.
  lemma DeviceServes(s: Sys, s0: Sys, r: Run, t: Task, i: nat) returns (r': Run)
    requires IsRun(r, s0) && Inv(s) && r.Last() == s
    requires s.taken + 1 == s.published && s.order[s.taken] == t
    requires t in s.own && s.own[t].slots == [i] && s.dev.held == {}
    ensures IsRun(r', s0) && Inv(r'.Last())
    ensures var e := r'.Last();
            && e.ring.tasks == s.ring.tasks && e.ring.taskIdx == s.ring.taskIdx && e.ring.num == s.ring.num
            && e.prod == s.prod && e.cons == s.cons && e.dev.held == {}
            && e.reserved == s.reserved && e.published == s.published && e.consumed == s.consumed
            && e.taken == s.taken + 1 && e.completed == s.completed + 1
            && e.own.Keys == s.own.Keys
  {
    ResidueStep(s.taken);
    TakenAlone(s, t, i);
    RunExtended(r, s0, Take);
    r' := Extend(r, Take);
    CompletedAlone(r'.Last(), i);
    RunExtended(r', s0, Complete(i, 0));
    r' := Extend(r', Complete(i, 0));
  }

  lemma TakenAlone(s: Sys, t: Task, i: nat)
    requires Inv(s) && s.taken < s.published && s.order[s.taken] == t && Enabled(s, Take)
    requires t in s.own && s.own[t].slots == [i] && s.dev.held == {}
    ensures var e := Apply(s, Take);
            && e.ring == s.ring && e.prod == s.prod && e.cons == s.cons && e.dev.held == {i}
            && e.reserved == s.reserved && e.published == s.published && e.consumed == s.consumed
            && e.taken == s.taken + 1 && e.completed == s.completed && e.own.Keys == s.own.Keys
  {
    NextAvailable(s);
  }

  lemma CompletedAlone(s: Sys, i: nat)
    requires Inv(s) && s.dev.held == {i} && Enabled(s, Complete(i, 0))
    ensures var e := Apply(s, Complete(i, 0));
            && e.ring.tasks == s.ring.tasks && e.ring.taskIdx == s.ring.taskIdx && e.ring.num == s.ring.num
            && e.prod == s.prod && e.cons == s.cons && e.dev.held == {}
            && e.reserved == s.reserved && e.published == s.published && e.consumed == s.consumed
            && e.taken == s.taken && e.completed == s.completed + 1 && e.own.Keys == s.own.Keys
  {
  }

  lemma ResidueStep(x: nat)
    ensures x % INDEX_SPAN != (x + 1) % INDEX_SPAN
  {
  }

  ghost predicate Handed(s: Sys, s4: Sys, i: nat)
    requires i < s.ring.num == |s.ring.tasks|
  {
    && s4.ring.tasks == s.ring.tasks[i := Some(Single(i))]
    && s4.ring.num == s.ring.num && s4.ring.taskIdx == (i + 1) % s.ring.num
    && s4.prod == map[0 := Idle] && s4.cons == Waiting && s4.dev.held == {}
    && s4.reserved == s4.published == i + 1 && s4.taken == s4.completed == i && s4.consumed == 0
    && s4.own.Keys == s.own.Keys + {Single(i)}
    && i < |s4.order| && s4.order[i] == Single(i) && s4.own[Single(i)].slots == [i]
  }

  // Task i has its slot.
  ghost predicate Slotted(s: Sys, e: Sys, i: nat)
    requires i < s.ring.num == |s.ring.tasks|
  {
    && e.ring.tasks == s.ring.tasks[i := Some(Single(i))]
    && e.ring.num == s.ring.num && e.ring.taskIdx == (i + 1) % s.ring.num
    && e.prod == map[0 := Next(Single(i), [i])] && e.cons == Waiting && e.dev.held == {}
    && e.reserved == e.published == e.taken == e.completed == |e.order| == i && e.consumed == 0
    && e.own.Keys == s.own.Keys + {Single(i)} && e.own[Single(i)].slots == [i]
  }

  lemma SlottedIs(s: Sys, s1: Sys, i: nat)
    requires Stacked(s, i) && i < s.ring.num && s1 == ApplyBegin(s, 0, Single(i))
    ensures Puts(s1, 0, Single(i), []) && s1.prod[0] == Next(Single(i), []) && s1.ring == s.ring
    ensures Slotted(s, Placed(s1, 0, Single(i), [], i), i)
  {
    assert [] + [i] == [i];
  }

  lemma OneMoreSlotted(s: Sys, s0: Sys, r: Run, i: nat) returns (r': Run)
    requires Reaches(r, s0, s) && Stacked(s, i) && i < s.ring.num
    ensures r'.states != [] && Reaches(r', s0, r'.Last()) && Slotted(s, r'.Last(), i)
  {
    var s1 := ApplyBegin(s, 0, Single(i));
    SlottedIs(s, s1, i);
    r' := Calls(r, s0, s, 0, Single(i));
    r' := PlacesAtHint(r', s0, s1, 0, Single(i), []);
  }

  lemma OneMoreHanded(s: Sys, s0: Sys, r: Run, i: nat) returns (r': Run)
    requires Reaches(r, s0, s) && Stacked(s, i) && i < s.ring.num
    ensures r'.states != [] && Reaches(r', s0, r'.Last()) && Handed(s, r'.Last(), i)
  {
    var ring;
    r' := OneMoreSlotted(s, s0, r, i);
    r', ring := Flushes(r', s0, r'.Last(), 0, Single(i), [i]);
  }

  lemma OneMoreStacked(s0: Sys, r: Run, i: nat) returns (r': Run)
    requires r.states != [] && Reaches(r, s0, r.Last()) && Stacked(r.Last(), i) && i < r.Last().ring.num
    ensures r'.states != [] && Reaches(r', s0, r'.Last()) && Stacked(r'.Last(), i + 1)
    ensures r'.Last().ring.num == r.Last().ring.num
  {
    var s := r.Last();
    r' := OneMoreHanded(s, s0, r, i);
    assert Ask(Topic.History, 0);
    r' := DeviceServes(r'.Last(), s0, r', Single(i), i);
    StackedSettles(s, r'.Last(), i);
  }

  lemma StackedSettles(s: Sys, r: Sys, i: nat)
    requires Stacked(s, i) && i < s.ring.num && Inv(r)
    requires r.ring.tasks == s.ring.tasks[i := Some(Single(i))]
    requires r.ring.num == s.ring.num && r.ring.taskIdx == (i + 1) % s.ring.num
    requires r.prod == map[0 := Idle] && r.cons == Waiting && r.dev.held == {}
    requires r.reserved == r.published == r.taken == r.completed == i + 1 && r.consumed == 0
    requires r.own.Keys == s.own.Keys + {Single(i)}
    ensures Stacked(r, i + 1)
  {
    forall t | t in r.own ensures t.id < i + 1 { assert t in s.own || t == Single(i); }
    if i + 1 < r.ring.num { RemainderUnique(i + 1, r.ring.num, 0, i + 1); }
  }

  // -------------------------------------------------------------------------
  // A stalled ring stays stalled
  // -------------------------------------------------------------------------

  // As many completions are pending as the ring has entries.
  ghost predicate Stalled(s: Sys) {
    Inv(s) && s.cons.Waiting? && Pending(s) == s.ring.num
  }

  // All slots belong to the completed tasks, so no other task holds one.
  lemma OnlyPendingHoldSlots(s: Sys, t: Task)
    requires Stalled(s) && t in s.own && !s.own[t].st.Used?
    ensures s.own[t].slots == []
  {
    if s.own[t].slots != [] {
      var ts := s.done[s.consumed..] + [t];
      forall i | 0 <= i < |ts| ensures ts[i] in s.own && 1 <= |s.own[ts[i]].slots| {
        if i < |ts| - 1 {
          assert ts[i] == s.done[s.consumed + i];
          assert StatusOk(s, ts[i]);
        }
      }
      forall i, j | 0 <= i < j < |ts| ensures ts[i] != ts[j] {
        assert ts[i] == s.done[s.consumed + i];
        if j < |ts| - 1 { assert ts[j] == s.done[s.consumed + j]; }
      }
      TasksFit(s.ring.tasks, s.own, ts, 1);
    }
  }

  // Whoever moves, nothing is returned, completed, reserved or published any more.
  lemma StallPersists(s: Sys, a: Action)
    requires Stalled(s) && Enabled(s, a)
    ensures Stalled(Apply(s, a))
    ensures LabelOf(s, a).Silent? || LabelOf(s, a).Started? || LabelOf(s, a).Rejected?
    ensures a.Get? ==> Apply(s, a) == s
  {
    StepKeepsInv(s, a);
    match a
    case Get => MaskedTest(s);
    case Put(p) => StalledPut(s, p);
    case Complete(_, _) => StalledDevice(s);
    case Take => StalledDevice(s);
    case Begin(_, _) =>
  }

  lemma StalledDevice(s: Sys)
    requires Stalled(s)
    ensures s.dev.availIdx == s.ring.availIdx && s.dev.held == {}
  {
    if s.dev.availIdx != s.ring.availIdx {
      NextAvailable(s);
      OnlyPendingHoldSlots(s, s.order[s.taken]);
    }
    forall h | h in s.dev.held ensures false {
      OnlyPendingHoldSlots(s, s.ring.tasks[h].value);
    }
  }

  lemma StalledPut(s: Sys, p: Pid)
    requires Stalled(s) && Enabled(s, Put(p))
    ensures LabelOf(s, Put(p)).Silent? || LabelOf(s, Put(p)).Rejected?
    ensures ApplyPut(s, p).cons.Waiting? && ApplyPut(s, p).consumed == s.consumed
    ensures ApplyPut(s, p).completed == s.completed && ApplyPut(s, p).ring.num == s.ring.num
  {
    assert ProducerOk(s, p);
    if s.prod[p].Reserving? || s.prod[p].Publishing? { OnlyPendingHoldSlots(s, s.prod[p].task); }
  }

  // From a stalled state on: nothing of what follows in the run changes that.
  lemma {:induction false} StalledForEver(r: Run, s: Sys, i: nat, j: nat)
    requires IsRun(r, s) && i <= j <= |r.acts| && Stalled(r.states[i])
    ensures Stalled(r.states[j])
    ensures forall k :: i <= k < j ==> !Labels(r, s)[k].Accepted? && !Labels(r, s)[k].Returned?
    ensures forall k :: i <= k < j && r.acts[k].Get? ==> r.states[k + 1] == r.states[k]
    decreases j
  {
    if i < j {
      StalledForEver(r, s, i, j - 1);
      StallOneStep(r, s, j - 1);
    }
  }

  lemma StallOneStep(r: Run, s: Sys, k: nat)
    requires IsRun(r, s) && k < |r.acts| && Stalled(r.states[k])
    ensures Stalled(r.states[k + 1]) && !Labels(r, s)[k].Accepted? && !Labels(r, s)[k].Returned?
    ensures r.acts[k].Get? ==> r.states[k + 1] == r.states[k]
  {
    assert StepOf(r, k);
    StallPersists(r.states[k], r.acts[k]);
  }

  // The test is wrong for tasks of one buffer: in a ring of any size there is a run that
  // ends with num completed tasks, and by StalledForEver no continuation returns any.
  lemma FullRingLooksEmpty(num: nat) returns (r: Run)
    requires 0 < num < INDEX_SPAN && INDEX_SPAN % num == 0
    ensures IsRun(r, Fresh(num)) && Stalled(r.Last()) && r.Last().ring.num == num
    ensures PollSeesEmpty(r.Last().ring)
  {
    FreshInv(num);
    r := Run([Fresh(num)], []);
    var i := 0;
    while i < num
      invariant i <= num && r.states != [] && Reaches(r, Fresh(num), r.Last())
      invariant Stacked(r.Last(), i) && r.Last().ring.num == num
    {
      r := OneMoreStacked(Fresh(num), r, i);
      i := i + 1;
    }
    assert Ask(Topic.History, 0);
    MaskedTest(r.Last());
  }
}
