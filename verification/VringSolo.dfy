/**
 Runs in which a producer moves on its own, built step by step: each lemma extends a run by
 some steps of vring_put_task and says where they lead.
 */
module VringSolo {
  import opened Common
  import opened VringProtocol
  import opened VringInvariant
  import opened VringRefinement

  // The run r leads from s0 to s.
  ghost predicate Reaches(r: Run, s0: Sys, s: Sys) {
    && r.states != [] && r.Last() == s
    && forall k {:trigger Ask(Topic.History, k)} :: Ask(Topic.History, k) ==> IsRun(r, s0) && Inv(s)
  }

  // r' goes on from r without a step of the consumer.
  ghost predicate GoesOn(r: Run, r': Run) {
    Get !in r.acts ==> Get !in r'.acts
  }

  lemma Solo(r: Run, s0: Sys, p: Pid, s': Sys) returns (r': Run)
    requires IsRun(r, s0) && Enabled(r.Last(), Put(p)) && Inv(r.Last()) && ApplyPut(r.Last(), p) == s'
    ensures Reaches(r', s0, s') && GoesOn(r, r')
  {
    RunExtended(r, s0, Put(p));
    r' := Extend(r, Put(p));
  }

  ghost predicate Sized(s: Sys) {
    0 < s.ring.num == |s.ring.tasks| == |s.ring.desc| && s.ring.taskIdx < s.ring.num
  }

  // Producer p may put one more buffer of task t, of which the first are in the given slots.
  ghost predicate Puts(s: Sys, p: Pid, t: Task, slots: seq<nat>) {
    && Sized(s) && p in s.prod && t in s.own && |slots| < |t.vbufs|
    && forall k :: 0 <= k < |slots| ==> slots[k] < s.ring.num
  }

  ghost function Now(s: Sys, p: Pid, q: Producer): Sys { s.(prod := s.prod[p := q]) }

  ghost function Claimed(s: Sys, p: Pid, t: Task, slots: seq<nat>, x: nat): Sys
    requires t in s.own && x < |s.ring.tasks|
  {
    s.(ring := s.ring.(tasks := s.ring.tasks[x := Some(t)]),
       prod := s.prod[p := Filling(t, slots + [x])],
       own := WithSlots(s, t, slots + [x]))
  }

  // The buffer is in slot x.
  ghost function Placed(s: Sys, p: Pid, t: Task, slots: seq<nat>, x: nat): Sys
    requires Puts(s, p, t, slots) && x < s.ring.num
  {
    s.(ring := s.ring.(tasks := s.ring.tasks[x := Some(t)],
                       taskIdx := (x + 1) % s.ring.num,
                       vringIdx := if slots == [] then s.ring.vringIdx[t := x] else s.ring.vringIdx,
                       desc := FillDesc(s.ring.desc, slots + [x], t)),
       prod := s.prod[p := Next(t, slots + [x])],
       own := WithSlots(s, t, slots + [x]))
  }

  // The producer has found the free slot x.
  lemma Claims(r: Run, s0: Sys, s: Sys, p: Pid, t: Task, slots: seq<nat>, saved: nat, x: nat) returns (r': Run)
    requires Puts(s, p, t, slots) && x < s.ring.num && s.ring.tasks[x] == None
    requires Reaches(r, s0, Now(s, p, Claiming(t, slots, saved, x)))
    ensures Reaches(r', s0, Claimed(s, p, t, slots, x)) && GoesOn(r, r')
  {
    assert Ask(Topic.History, 0);
    assert ProducerOk(r.Last(), p);
    assert r.Last().prod[p := Filling(t, slots + [x])] == s.prod[p := Filling(t, slots + [x])];
    r' := Solo(r, s0, p, Claimed(s, p, t, slots, x));
  }

  lemma Fills(r: Run, s0: Sys, s: Sys, p: Pid, t: Task, slots: seq<nat>, x: nat) returns (r': Run)
    requires Puts(s, p, t, slots) && x < s.ring.num && Reaches(r, s0, Claimed(s, p, t, slots, x))
    ensures Reaches(r', s0, Placed(s, p, t, slots, x)) && GoesOn(r, r')
  {
    assert Ask(Topic.History, 0);
    assert ProducerOk(r.Last(), p);
    var all := slots + [x];
    assert all[|all| - 1] == x;
    assert r.Last().prod[p := Next(t, all)] == s.prod[p := Next(t, all)];
    r' := Solo(r, s0, p, Placed(s, p, t, slots, x));
  }

  // A probe of slot cur: it is free, or the search goes on, or has come round.
  lemma Probes(r: Run, s0: Sys, s: Sys, p: Pid, t: Task, slots: seq<nat>, saved: nat, cur: nat, next: nat) returns (r': Run)
    requires Sized(s) && p in s.prod && cur < s.ring.num && next == (cur + 1) % s.ring.num
    requires Reaches(r, s0, Now(s, p, Scan(t, slots, saved, cur)))
    ensures Reaches(r', s0, Now(s, p, if s.ring.tasks[cur].None? then Claiming(t, slots, saved, cur)
                                      else if next == saved then Undoing(t, slots) else Scan(t, slots, saved, next)))
    ensures GoesOn(r, r')
  {
    assert Ask(Topic.History, 0);
    assert ProducerOk(r.Last(), p);
    var q := ApplyPut(r.Last(), p).prod[p];
    assert r.Last().prod[p := q] == s.prod[p := q];
    r' := Solo(r, s0, p, Now(s, p, q));
  }

  // A producer reads the hint, and begins to search there.
  lemma Begins(r: Run, s0: Sys, s: Sys, p: Pid, t: Task, slots: seq<nat>) returns (r': Run)
    requires Puts(s, p, t, slots) && s.prod[p] == Next(t, slots) && Reaches(r, s0, s)
    ensures Reaches(r', s0, Now(s, p, Scan(t, slots, s.ring.taskIdx, s.ring.taskIdx))) && GoesOn(r, r')
  {
    assert Ask(Topic.History, 0);
    r' := Solo(r, s0, p, Now(s, p, Scan(t, slots, s.ring.taskIdx, s.ring.taskIdx)));
  }

  // The search comes to the free slot x.
  lemma Finds(r: Run, s0: Sys, s: Sys, p: Pid, t: Task, slots: seq<nat>, saved: nat, x: nat) returns (r': Run)
    requires Puts(s, p, t, slots) && x < s.ring.num && s.ring.tasks[x] == None
    requires Reaches(r, s0, Now(s, p, Scan(t, slots, saved, x)))
    ensures Reaches(r', s0, Placed(s, p, t, slots, x)) && GoesOn(r, r')
  {
    r' := Probes(r, s0, s, p, t, slots, saved, x, (x + 1) % s.ring.num);
    r' := Claims(r', s0, s, p, t, slots, saved, x);
    r' := Fills(r', s0, s, p, t, slots, x);
  }

  // The hint points to a free slot: the producer takes it.
  lemma PlacesAtHint(r: Run, s0: Sys, s: Sys, p: Pid, t: Task, slots: seq<nat>) returns (r': Run)
    requires Puts(s, p, t, slots) && s.prod[p] == Next(t, slots) && s.ring.tasks[s.ring.taskIdx] == None
    requires Reaches(r, s0, s)
    ensures Reaches(r', s0, Placed(s, p, t, slots, s.ring.taskIdx)) && GoesOn(r, r')
  {
    r' := Begins(r, s0, s, p, t, slots);
    r' := Finds(r', s0, s, p, t, slots, s.ring.taskIdx, s.ring.taskIdx);
  }

  // A call of vring_put_task.
  lemma Calls(r: Run, s0: Sys, s: Sys, p: Pid, t: Task) returns (r': Run)
    requires Reaches(r, s0, s) && (p !in s.prod || s.prod[p].Idle?) && t !in s.own && 0 < |t.vbufs|
    ensures Reaches(r', s0, ApplyBegin(s, p, t)) && GoesOn(r, r')
  {
    assert Ask(Topic.History, 0);
    RunExtended(r, s0, Begin(p, t));
    r' := Extend(r, Begin(p, t));
  }

  ghost function Reserved1(s: Sys, p: Pid, t: Task, slots: seq<nat>): Sys
    requires t in s.own
  {
    s.(ring := s.ring.(lastAvailIdx := (s.ring.lastAvailIdx + 1) % INDEX_SPAN),
       prod := s.prod[p := Writing(t, slots, s.reserved)], reserved := s.reserved + 1,
       own := WithStatus(s, t, Reserved(p, s.reserved)), order := s.order + [t])
  }

  // From the last buffer to the reserved position.
  lemma Reserves(r: Run, s0: Sys, s: Sys, p: Pid, t: Task, slots: seq<nat>) returns (r': Run)
    requires Reaches(r, s0, s) && p in s.prod && t in s.own && s.prod[p] == Next(t, slots) && |slots| == |t.vbufs|
    ensures Reaches(r', s0, Reserved1(s, p, t, slots))
  {
    assert Ask(Topic.History, 0);
    r' := Solo(r, s0, p, Now(s, p, Flushing(t, slots)));
    var s2 := Now(s, p, Producer.Reserving(t, slots, s.ring.lastAvailIdx));
    assert r'.Last().prod[p := s2.prod[p]] == s2.prod;
    r' := Solo(r', s0, p, s2);
    assert s2.prod[p := Writing(t, slots, s.reserved)] == s.prod[p := Writing(t, slots, s.reserved)];
    r' := Solo(r', s0, p, Reserved1(s, p, t, slots));
  }

  // From there to the end; `ring` differs from the ring before in the available entries.
  ghost function Published(s: Sys, p: Pid, t: Task, ring: Ring): Sys
    requires t in s.own
  {
    s.(ring := ring, prod := s.prod[p := Idle], published := s.published + 1, own := WithStatus(s, t, Available(s.published)))
  }

  lemma Writes(r: Run, s0: Sys, s: Sys, p: Pid, t: Task, slots: seq<nat>) returns (r': Run, ring: Ring)
    requires Reaches(r, s0, s) && p in s.prod && s.prod[p] == Writing(t, slots, s.published)
    ensures ring == s.ring.(availRing := ring.availRing)
    ensures Reaches(r', s0, s.(ring := ring, prod := s.prod[p := Producer.Publishing(t, slots, s.published)]))
  {
    assert Ask(Topic.History, 0);
    assert ProducerOk(s, p);
    ring := ApplyPut(s, p).ring;
    r' := Solo(r, s0, p, ApplyPut(s, p));
  }

  lemma Publishes(r: Run, s0: Sys, s: Sys, p: Pid, t: Task, slots: seq<nat>) returns (r': Run, ring: Ring)
    requires Reaches(r, s0, s) && p in s.prod && t in s.own && s.prod[p] == Producer.Publishing(t, slots, s.published)
    ensures ring == s.ring.(availIdx := ring.availIdx) && Reaches(r', s0, Published(s, p, t, ring))
  {
    assert Ask(Topic.History, 0);
    assert ProducerOk(s, p);
    ring := ApplyPut(s, p).ring;
    r' := Solo(r, s0, p, ApplyPut(s, p));
  }

  // Task t is at the next position; `ring` differs from the ring before in the available entries.
  ghost function Flushed(s: Sys, p: Pid, t: Task, ring: Ring): Sys
    requires t in s.own
  {
    s.(ring := ring, prod := s.prod[p := Idle], reserved := s.reserved + 1, published := s.published + 1,
       own := WithStatus(s, t, Available(s.reserved)), order := s.order + [t])
  }

  // From the last buffer to the end of vring_flush, if no other producer is in between.
  lemma Flushes(r: Run, s0: Sys, s: Sys, p: Pid, t: Task, slots: seq<nat>) returns (r': Run, ring: Ring)
    requires Reaches(r, s0, s) && p in s.prod && t in s.own && s.prod[p] == Next(t, slots) && |slots| == |t.vbufs|
    requires s.published == s.reserved
    ensures ring == s.ring.(lastAvailIdx := ring.lastAvailIdx, availRing := ring.availRing, availIdx := ring.availIdx)
    ensures Reaches(r', s0, Flushed(s, p, t, ring))
  {
    r' := Reserves(r, s0, s, p, t, slots);
    r', ring := Writes(r', s0, r'.Last(), p, t, slots);
    r', ring := Publishes(r', s0, r'.Last(), p, t, slots);
    assert r'.Last().own == WithStatus(s, t, Available(s.reserved));
    assert r'.Last().prod == s.prod[p := Idle];
  }
}
