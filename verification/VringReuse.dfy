/**
 The walk of vring_get_task at a finer grain.  It frees a slot before it reads where the chain
 goes on from there; in between, producers may take the slot.  The step system does both at
 once, which is the same exactly as long as no producer links the slot in between; and for
 every ring of at least four descriptors there is a run in which one does.
 */
module VringReuse {
  import opened Common
  import opened VringProtocol
  import opened VringInvariant
  import opened VringRefinement
  import opened VringSolo

  // The step makes slot x point to another one: a producer describes its next buffer.
  ghost predicate Links(s: Sys, a: Action, x: nat) {
    && a.Put? && a.p in s.prod && s.prod[a.p].Filling?
    && var slots := s.prod[a.p].slots; |slots| >= 2 && slots[|slots| - 2] == x
  }

  lemma NextStays(s: Sys, a: Action, x: nat)
    requires Inv(s) && Enabled(s, a) && x < s.ring.num && !Links(s, a, x)
    ensures |Apply(s, a).ring.desc| == |s.ring.desc| && Apply(s, a).ring.desc[x].next == s.ring.desc[x].next
  {
    if a.Put? { assert ProducerOk(s, a.p); }
  }

  lemma LinksElsewhere(s: Sys, a: Action, x: nat)
    requires Inv(s) && Enabled(s, a) && s.cons.Walking? && Links(s, a, x)
    ensures x < |Apply(s, a).ring.desc| && Apply(s, a).ring.desc[x].next != s.cons.cur
  {
    assert ProducerOk(s, a.p);
  }

  lemma OthersLeaveConsumer(s: Sys, a: Action)
    requires Inv(s) && Enabled(s, a) && a != Get
    ensures Apply(s, a).cons == s.cons && Apply(s, a).ring.num == s.ring.num && |Apply(s, a).ring.desc| == |s.ring.desc|
  {
    if a.Put? { assert ProducerOk(s, a.p); }
  }

  // What the other threads and the device do until the walk goes on from slot x.
  ghost predicate Meanwhile(r: Run, s: Sys) {
    IsRun(r, s) && Get !in r.acts
  }

  // Slot x has been linked by one of the first k steps.
  ghost predicate Relinked(r: Run, x: nat, k: nat)
    requires k <= |r.acts| <= |r.states|
  {
    exists i :: 0 <= i < k && Links(r.states[i], r.acts[i], x)
  }

  // Where the consumer is, and whether slot x still points where its walk is to go on.
  ghost predicate Follows(s: Sys, e: Sys, x: nat, relinked: bool) {
    && e.cons == s.cons && e.ring.num == s.ring.num == |e.ring.desc|
    && x < s.ring.num && s.cons.Walking? && (e.ring.desc[x].next == s.cons.cur <==> !relinked)
  }

  lemma StillFollows(s: Sys, b: Sys, a: Action, x: nat, relinked: bool)
    requires Inv(b) && Enabled(b, a) && a != Get && Follows(s, b, x, relinked)
    ensures Follows(s, Apply(b, a), x, relinked || Links(b, a, x))
  {
    OthersLeaveConsumer(b, a);
    if Links(b, a, x) { LinksElsewhere(b, a, x); } else { NextStays(b, a, x); }
  }

  lemma {:induction false} NextMeanwhile(r: Run, s: Sys, x: nat, k: nat)
    requires Meanwhile(r, s) && k <= |r.acts| && Follows(s, s, x, false)
    ensures Follows(s, r.states[k], x, Relinked(r, x, k))
  {
    if k > 0 {
      NextMeanwhile(r, s, x, k - 1);
      RunKeepsInv(r, s, k - 1);
      assert StepOf(r, k - 1);
      assert r.acts[k - 1] in r.acts;
      StillFollows(s, r.states[k - 1], r.acts[k - 1], x, Relinked(r, x, k - 1));
      assert Relinked(r, x, k) <==> Relinked(r, x, k - 1) || Links(r.states[k - 1], r.acts[k - 1], x);
    }
  }

  // In state s the walk has reached slot x, which is not the last of its chain, and frees it.
  // When it reads later where to go on, whatever has happened meanwhile, that is the next slot of
  // its own chain if and only if no producer has linked slot x in between.
  lemma LateReadExact(s: Sys, r: Run)
    requires Inv(s) && s.cons.Walking? && s.cons.cur < s.ring.num && s.ring.desc[s.cons.cur].more
    requires Meanwhile(r, ApplyRelease(s))
    ensures var x, e := s.cons.cur, r.Last();
            && |s.own[s.cons.task].slots| > 1 && e.cons == Walking(s.cons.task, s.own[s.cons.task].slots[1], s.cons.len)
            && x < |e.ring.desc|
            && (e.ring.desc[x].next == s.own[s.cons.task].slots[1] <==>
                  forall i :: 0 <= i < |r.acts| ==> !Links(r.states[i], r.acts[i], x))
  {
    NextMeanwhile(r, ApplyRelease(s), s.cons.cur, |r.acts|);
  }

  // -------------------------------------------------------------------------
  // A run in which a slot is linked in between
  // -------------------------------------------------------------------------

  const BYTES := Buffer(0, 0, false)

  const FIRST := Task(0, [BYTES, BYTES])
  const SECOND := Task(1, [BYTES, BYTES])

  // A task for which num - 2 free slots are too few.
  function Large(num: nat): Task { Task(2, seq(num, _ => BYTES)) }

  predicate RingSize(num: nat) { 4 <= num < INDEX_SPAN && INDEX_SPAN % num == 0 }

  // The first task has two slots, and nothing else is on the ring.
  ghost predicate OnlyFirst(s: Sys, num: nat) {
    && Sized(s) && s.ring.num == num && s.ring.taskIdx == 2 && s.own.Keys == {FIRST} && s.own[FIRST].slots == [0, 1]
    && s.prod.Keys == {0}
  }

  // The first task has no slot yet, or its first one.
  ghost function Empty(num: nat): Sys { ApplyBegin(Fresh(num), 0, FIRST) }

  ghost function Half(num: nat): Sys
    requires Puts(Empty(num), 0, FIRST, []) && num > 0
  {
    Placed(Empty(num), 0, FIRST, [], 0)
  }

  lemma HalfIs(num: nat)
    requires RingSize(num)
    ensures var s := Empty(num); Puts(s, 0, FIRST, []) && s.prod[0] == Next(FIRST, []) && s.ring.taskIdx == 0 && s.ring.tasks[0] == None
    ensures var s := Half(num);
            Puts(s, 0, FIRST, [0]) && s.prod[0] == Next(FIRST, [0]) && s.ring.taskIdx == 1 && s.ring.tasks[1] == None
  {
    RemainderUnique(1, num, 0, 1);
    assert [] + [0] == [0];
  }

  lemma OnlyFirstIs(num: nat)
    requires RingSize(num) && Puts(Empty(num), 0, FIRST, []) && Puts(Half(num), 0, FIRST, [0])
    ensures var s := Placed(Half(num), 0, FIRST, [0], 1);
            && OnlyFirst(s, num) && s.prod[0] == Next(FIRST, [0, 1]) && s.reserved == s.published == s.taken == s.completed == 0
            && s.consumed == 0 && s.cons.Waiting? && s.dev.held == {} && s.order == [] && s.done == []
  {
    RemainderUnique(2, num, 0, 2);
    assert [0] + [1] == [0, 1];
  }

  lemma PlacesFirst(num: nat) returns (r: Run, s: Sys)
    requires RingSize(num)
    ensures OnlyFirst(s, num) && Reaches(r, Fresh(num), s) && s.prod[0] == Next(FIRST, [0, 1])
    ensures s.reserved == s.published == s.taken == s.completed == s.consumed == 0 && s.order == [] && s.done == []
    ensures s.cons.Waiting? && s.dev.held == {}
  {
    FreshInv(num);
    r := Run([Fresh(num)], []);
    r := Calls(r, Fresh(num), Fresh(num), 0, FIRST);
    HalfIs(num);
    OnlyFirstIs(num);
    r := PlacesAtHint(r, Fresh(num), Empty(num), 0, FIRST, []);
    r := PlacesAtHint(r, Fresh(num), Half(num), 0, FIRST, [0]);
    s := r.Last();
  }

  // The first task has been put.
  ghost predicate First(s: Sys, num: nat) {
    && OnlyFirst(s, num) && s.prod[0] == Idle && s.own[FIRST].st == Available(0) && s.order == [FIRST]
    && s.cons.Waiting? && s.dev.held == {} && s.taken == s.completed == s.consumed == 0 && s.published == 1
  }

  lemma PutsFirst(num: nat) returns (r: Run)
    requires RingSize(num)
    ensures r.states != [] && Reaches(r, Fresh(num), r.Last()) && First(r.Last(), num)
  {
    var ring, s;
    r, s := PlacesFirst(num);
    r, ring := Flushes(r, Fresh(num), s, 0, FIRST, [0, 1]);
  }

  lemma Takes(r: Run, num: nat) returns (r': Run)
    requires r.states != [] && Reaches(r, Fresh(num), r.Last()) && First(r.Last(), num)
    ensures r'.states != [] && Reaches(r', Fresh(num), r'.Last()) && OnlyFirst(r'.Last(), num)
    ensures var s := r'.Last();
            && s.cons.Waiting? && s.dev.held == {0} && s.completed == s.consumed == 0 && s.prod == r.Last().prod
            && s.done == []
  {
    assert Ask(Topic.History, 0);
    NextAvailable(r.Last());
    RunExtended(r, Fresh(num), Take);
    r' := Extend(r, Take);
  }

  // The first task has completed, and its walk is about to begin.
  ghost predicate Begun(s: Sys, num: nat) {
    && Sized(s) && s.ring.num == num && s.cons == Walking(FIRST, 0, 0) && FIRST in s.own && s.own[FIRST].slots == [0, 1]
  }

  lemma Completes(num: nat) returns (r: Run)
    requires RingSize(num)
    ensures r.states != [] && Reaches(r, Fresh(num), r.Last()) && OnlyFirst(r.Last(), num) && r.Last().prod[0] == Idle
    ensures var s := r.Last();
            && s.cons.Waiting? && s.completed == 1 && s.consumed == 0 && s.done == [FIRST] && s.own[FIRST].st == Used(0, 0)
  {
    r := PutsFirst(num);
    r := Takes(r, num);
    assert Ask(Topic.History, 0);
    RunExtended(r, Fresh(num), Complete(0, 0));
    r := Extend(r, Complete(0, 0));
  }

  lemma ServesFirst(num: nat) returns (r: Run)
    requires RingSize(num)
    ensures r.states != [] && Reaches(r, Fresh(num), r.Last()) && Begun(r.Last(), num)
    ensures OnlyFirst(r.Last(), num) && r.Last().prod[0] == Idle
  {
    r := Completes(num);
    assert Ask(Topic.History, 0);
    RemainderUnique(1, num, 0, 1);
    NextUsed(r.Last());
    RunExtended(r, Fresh(num), Get);
    r := Extend(r, Get);
  }

  // Nothing but the first task is on the ring.
  lemma SlotsLeft(r: Run, s0: Sys, s: Sys, num: nat)
    requires Reaches(r, s0, s) && Begun(s, num) && s.own.Keys == {FIRST}
    ensures num >= 2 && s.ring.desc[0].more && s.ring.tasks[1] == Some(FIRST)
    ensures forall x :: 0 <= x < num ==> (s.ring.tasks[x].Some? <==> x < 2)
  {
    assert Ask(Topic.History, 0);
    assert s.own[FIRST].slots[0] == 0 && s.own[FIRST].slots[1] == 1;
  }

  // Producer 1 has placed k - 2 buffers of the large task, in the slots from 2 on.
  ghost predicate Placing(s: Sys, num: nat, k: nat) {
    && Begun(s, num) && 2 <= k <= num && s.own.Keys == {FIRST, Large(num)} && s.prod.Keys == {0, 1} && s.prod[0] == Idle
    && s.ring.taskIdx == k % num && (forall x :: 0 <= x < num ==> (s.ring.tasks[x].Some? <==> x < k))
    && s.prod[1].Next? && s.prod[1].task == Large(num) && |s.prod[1].slots| == k - 2
    && forall i :: 0 <= i < k - 2 ==> s.prod[1].slots[i] < num
  }

  lemma StartsLarge(num: nat) returns (r: Run)
    requires RingSize(num)
    ensures r.states != [] && Reaches(r, Fresh(num), r.Last()) && Placing(r.Last(), num, 2)
  {
    r := ServesFirst(num);
    SlotsLeft(r, Fresh(num), r.Last(), num);
    RemainderUnique(2, num, 0, 2);
    r := Calls(r, Fresh(num), r.Last(), 1, Large(num));
  }

  lemma PlacesOneMore(r: Run, num: nat, k: nat) returns (r': Run)
    requires r.states != [] && Reaches(r, Fresh(num), r.Last()) && Placing(r.Last(), num, k) && k < num
    ensures r'.states != [] && Reaches(r', Fresh(num), r'.Last()) && Placing(r'.Last(), num, k + 1)
  {
    var s := r.Last();
    RemainderUnique(k, num, 0, k);
    r' := PlacesAtHint(r, Fresh(num), s, 1, Large(num), s.prod[1].slots);
  }

  // All slots are taken.
  lemma FillsUp(num: nat) returns (r: Run)
    requires RingSize(num)
    ensures r.states != [] && Reaches(r, Fresh(num), r.Last()) && Placing(r.Last(), num, num)
  {
    r := StartsLarge(num);
    var k := 2;
    while k < num
      invariant 2 <= k <= num && r.states != [] && Reaches(r, Fresh(num), r.Last()) && Placing(r.Last(), num, k)
    {
      r := PlacesOneMore(r, num, k);
      k := k + 1;
    }
  }

  // The search of the large task goes round without finding a free slot.
  lemma SearchesInVain(num: nat) returns (r: Run, s: Sys)
    requires RingSize(num)
    ensures Placing(s, num, num) && s.ring.taskIdx == 0
    ensures Reaches(r, Fresh(num), Now(s, 1, Undoing(Large(num), s.prod[1].slots)))
  {
    r := FillsUp(num);
    s := r.Last();
    var slots := s.prod[1].slots;
    RemainderUnique(num, num, 1, 0);
    r := Begins(r, Fresh(num), s, 1, Large(num), slots);
    var cur := 0;
    while cur < num - 1
      invariant cur <= num - 1 && Reaches(r, Fresh(num), Now(s, 1, Scan(Large(num), slots, 0, cur)))
    {
      RemainderUnique(cur + 1, num, 0, cur + 1);
      r := Probes(r, Fresh(num), s, 1, Large(num), slots, 0, cur, cur + 1);
      cur := cur + 1;
    }
    r := Probes(r, Fresh(num), s, 1, Large(num), slots, 0, cur, 0);
  }

  // Producer 1 gives up the large task; the hint points to the first slot of the first task.
  ghost predicate GivingUp(s: Sys, num: nat) {
    && Begun(s, num) && s.own.Keys == {FIRST, Large(num)} && s.prod.Keys == {0, 1} && s.prod[0] == Idle
    && s.ring.taskIdx == 0 && s.prod[1].Undoing? && s.prod[1].task == Large(num)
  }

  // It has done so.
  ghost predicate GivenUp(s: Sys, num: nat) {
    && Begun(s, num) && s.own.Keys == {FIRST} && s.prod.Keys == {0, 1} && s.prod[0] == s.prod[1] == Idle
    && s.ring.taskIdx == 0
  }

  lemma {:induction false} GivesUp(r: Run, num: nat) returns (r': Run)
    requires r.states != [] && Reaches(r, Fresh(num), r.Last()) && GivingUp(r.Last(), num)
    ensures r'.states != [] && Reaches(r', Fresh(num), r'.Last()) && GivenUp(r'.Last(), num)
    decreases |r.Last().prod[1].slots|
  {
    var s := r.Last();
    r' := Undoes(r, num);
    if s.prod[1].slots != [] { r' := GivesUp(r', num); }
  }

  lemma Undoes(r: Run, num: nat) returns (r': Run)
    requires r.states != [] && Reaches(r, Fresh(num), r.Last()) && GivingUp(r.Last(), num)
    ensures r'.states != [] && Reaches(r', Fresh(num), r'.Last())
    ensures if r.Last().prod[1].slots == [] then GivenUp(r'.Last(), num)
            else GivingUp(r'.Last(), num) && |r'.Last().prod[1].slots| < |r.Last().prod[1].slots|
  {
    var s := r.Last();
    assert Ask(Topic.History, 0);
    assert ProducerOk(s, 1);
    r' := Solo(r, Fresh(num), 1, ApplyPut(s, 1));
  }

  lemma WalkBegins(num: nat) returns (r: Run)
    requires RingSize(num)
    ensures r.states != [] && Reaches(r, Fresh(num), r.Last()) && GivenUp(r.Last(), num)
  {
    var s;
    r, s := SearchesInVain(num);
    r := GivesUp(r, num);
  }

  // The walk has freed its first slot.
  ghost predicate Freed(s: Sys, num: nat) {
    && Sized(s) && 4 <= num == s.ring.num && s.cons == Walking(FIRST, 1, 0) && s.own.Keys == {FIRST}
    && s.ring.taskIdx == 0 && s.ring.tasks[0] == s.ring.tasks[2] == None && s.ring.tasks[1].Some?
    && 1 in s.prod && s.prod[1] == Idle
  }

  lemma Releases(r: Run, s: Sys, num: nat)
    requires RingSize(num) && Reaches(r, Fresh(num), s) && GivenUp(s, num)
    ensures Inv(s) && Inv(ApplyRelease(s)) && Freed(ApplyRelease(s), num)
  {
    SlotsLeft(r, Fresh(num), s, num);
    assert Ask(Topic.History, 0);
    ReleaseKeeps(s);
  }

  // Producer 1 has taken it for the second task.
  ghost predicate Retaken(s: Sys, num: nat) {
    && Puts(s, 1, SECOND, [0]) && 4 <= num == s.ring.num && s.cons == Walking(FIRST, 1, 0)
    && s.ring.taskIdx == 1 && s.ring.tasks[1].Some? && s.ring.tasks[2] == None && s.prod[1] == Next(SECOND, [0])
  }

  lemma TakesFreed(r: Run, s0: Sys, s: Sys, num: nat) returns (r': Run)
    requires Reaches(r, s0, s) && Freed(s, num)
    ensures r'.states != [] && Reaches(r', s0, r'.Last()) && GoesOn(r, r') && Retaken(r'.Last(), num)
  {
    RemainderUnique(1, num, 0, 1);
    assert [] + [0] == [0];
    r' := Calls(r, s0, s, 1, SECOND);
    r' := PlacesAtHint(r', s0, r'.Last(), 1, SECOND, []);
  }

  // The second task has linked that slot to its next one, number 2.
  ghost predicate Crossed(s: Sys, num: nat) {
    && Sized(s) && 4 <= num == s.ring.num && s.cons == Walking(FIRST, 1, 0)
    && s.ring.desc[0].next == 2 && s.ring.tasks[2] == Some(SECOND)
  }

  lemma LinksFreed(r: Run, s0: Sys, s: Sys, num: nat) returns (r': Run)
    requires Reaches(r, s0, s) && Retaken(s, num)
    ensures r'.states != [] && Reaches(r', s0, r'.Last()) && GoesOn(r, r') && Crossed(r'.Last(), num)
  {
    RemainderUnique(2, num, 0, 2);
    r' := Begins(r, s0, s, 1, SECOND, [0]);
    r' := Probes(r', s0, s, 1, SECOND, [0], 1, 1, 2);
    r' := Finds(r', s0, s, 1, SECOND, [0], 1, 2);
  }

  // For every ring of at least four descriptors: a run in which the walk over a completed task
  // goes on, after its first slot, to a slot that another producer has taken for its task, and
  // not to its own second slot.
  lemma WalkMisled(num: nat) returns (before: Run, r: Run)
    requires RingSize(num)
    ensures IsRun(before, Fresh(num)) && Inv(before.Last()) && Begun(before.Last(), num) && before.Last().ring.desc[0].more
    ensures Meanwhile(r, ApplyRelease(before.Last())) && Crossed(r.Last(), num)
  {
    before := WalkBegins(num);
    SlotsLeft(before, Fresh(num), before.Last(), num);
    Releases(before, before.Last(), num);
    var s := ApplyRelease(before.Last());
    r := Run([s], []);
    r := TakesFreed(r, s, s, num);
    r := LinksFreed(r, s, r.Last(), num);
    assert Ask(Topic.History, 0);
  }
}
