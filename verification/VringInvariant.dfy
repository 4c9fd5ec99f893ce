/** Every action of every producer, of the consumer and of the device keeps the invariant. */
module VringInvariant {
  import opened Common
  import opened VringProtocol

  // -------------------------------------------------------------------------
  // An action concerns one task t (and the producers ps, none or one): what it leaves alone
  // -------------------------------------------------------------------------

  ghost predicate OwnedBy(s: Sys, t: Task, x: nat) {
    t in s.own && x in s.own[t].slots
  }

  ghost predicate SameElsewhere(s: Sys, s': Sys, t: Task)
    requires Shape(s.ring) && Shape(s'.ring)
  {
    forall step {:trigger Ask(Topic.Frames, step)} :: Ask(Topic.Frames, step) ==>
      && s'.ring.num == s.ring.num
      && (forall u :: u != t ==> (u in s.own <==> u in s'.own))
      && (forall u :: u != t && u in s.own ==> s'.own[u] == s.own[u])
      && (forall x :: 0 <= x < s.ring.num && !OwnedBy(s, t, x) && !OwnedBy(s', t, x) ==>
            && s'.ring.desc[x] == s.ring.desc[x]
            && s'.ring.tasks[x] == s.ring.tasks[x]
            && (x in s'.dev.held <==> x in s.dev.held))
      && (forall u :: u != t && u in s.ring.vringIdx ==>
            u in s'.ring.vringIdx && s'.ring.vringIdx[u] == s.ring.vringIdx[u])
      && (s'.cons == s.cons || (
            && (!s.cons.Waiting? ==> s.cons.task == t)
            && (!s'.cons.Waiting? ==> s'.cons.task == t)))
  }

  ghost predicate SameProducers(s: Sys, s': Sys, t: Task, ps: set<Pid>) {
    && (forall q :: q !in ps ==> (q in s.prod <==> q in s'.prod))
    && (forall q :: q !in ps && q in s.prod ==> s'.prod[q] == s.prod[q])
    && (forall q :: q in s.prod && !s.prod[q].Idle? ==> (q in ps <==> s.prod[q].task == t))
  }

  ghost predicate SamePositions(s: Sys, s': Sys, t: Task)
    requires Shape(s.ring) && Shape(s'.ring) && Counters(s) && Counters(s')
  {
    forall step {:trigger Ask(Topic.Frames, step)} :: Ask(Topic.Frames, step) ==>
      forall step {:trigger Ask(Topic.Frames, step)} :: Ask(Topic.Frames, step) ==>
        && s'.ring.num == s.ring.num
        && |s.order| <= |s'.order| && s'.order[..|s.order|] == s.order
        && |s.done| <= |s'.done| && s'.done[..|s.done|] == s.done
        && (forall k :: 0 <= k < |s'.order| && s'.order[k] != t ==>
              && k < |s.order|
              && (s'.taken <= k < s'.published <==> s.taken <= k < s.published)
              && (s'.published <= k < s'.reserved <==> s.published <= k < s.reserved)
              && (s.taken <= k ==> s'.ring.availRing[At(k, s.ring.num)] == s.ring.availRing[At(k, s.ring.num)]))
        && (forall k :: 0 <= k < |s'.done| && s'.done[k] != t ==>
              && k < |s.done|
              && (Read(s') <= k < s'.completed <==> Read(s) <= k < s.completed)
              && (Read(s) <= k ==> s'.ring.usedRing[At(k, s.ring.num)] == s.ring.usedRing[At(k, s.ring.num)]))
  }

  // What the action has to establish about the positions of its own task.
  ghost predicate PositionsSettled(s': Sys, t: Task)
    requires Counters(s')
  {
    forall step {:trigger Ask(Topic.Frames, step)} :: Ask(Topic.Frames, step) ==>
      && (forall k :: s'.taken <= k < s'.published && s'.order[k] == t ==>
            t in s'.own && s'.own[t].st == Available(k))
      && (forall k :: s'.published <= k < s'.reserved && s'.order[k] == t ==>
            t in s'.own && s'.own[t].st.Reserved? && s'.own[t].st.pos == k)
      && (forall k :: Read(s') <= k < s'.completed && s'.done[k] == t ==>
            t in s'.own && s'.own[t].st.Used? && s'.own[t].st.upos == k)
  }

  ghost predicate DeviceSettled(s: Sys, s': Sys, t: Task)
    requires Shape(s'.ring)
  {
    forall step {:trigger Ask(Topic.Frames, step)} :: Ask(Topic.Frames, step) ==>
      forall h :: h in s'.dev.held && (OwnedBy(s, t, h) || OwnedBy(s', t, h)) ==>
        && t in s'.own && s'.own[t].st == Held
        && |s'.own[t].slots| > 0 && s'.own[t].slots[0] == h
  }

  lemma FilledElsewhere(s: Sys, s': Sys, t: Task, u: Task, n: nat)
    requires Shape(s.ring) && Shape(s'.ring)
    requires SlotsAgree(s.ring.tasks, s.own) && SlotsAgree(s'.ring.tasks, s'.own)
    requires SameElsewhere(s, s', t) && u != t && u in s.own && Filled(s, u, n)
    ensures u in s'.own && Filled(s', u, n)
  {
    assert Ask(Topic.Frames, 0);
    var slots := s.own[u].slots;
    forall k | 0 <= k < |slots|
      ensures s'.ring.desc[slots[k]] == s.ring.desc[slots[k]]
    {
      assert !OwnedBy(s, t, slots[k]) && !OwnedBy(s', t, slots[k]);
    }
  }

  lemma ProducerElsewhere(s: Sys, s': Sys, t: Task, ps: set<Pid>, q: Pid)
    requires Shape(s.ring) && Shape(s'.ring) && Counters(s) && Counters(s')
    requires SlotsAgree(s.ring.tasks, s.own) && SlotsAgree(s'.ring.tasks, s'.own)
    requires SameElsewhere(s, s', t) && SameProducers(s, s', t, ps) && SamePositions(s, s', t)
    requires q !in ps && q in s.prod && ProducerOk(s, q)
    requires forall u :: u in s.own ==> StatusOk(s, u)
    ensures ProducerOk(s', q)
  {
    assert Ask(Topic.Frames, 0);
    var c := s.prod[q];
    if !c.Idle? {
      var u := c.task;
      if c.Filling? { FilledElsewhere(s, s', t, u, |c.slots| - 1); }
      else if !c.Undoing? { FilledElsewhere(s, s', t, u, |c.slots|); }
      if c.Publishing? {
        assert StatusOk(s, u);
        assert s'.order[c.pos] == s.order[c.pos];
      }
    }
  }

  lemma StatusElsewhere(s: Sys, s': Sys, t: Task, ps: set<Pid>, u: Task)
    requires Shape(s.ring) && Shape(s'.ring) && Counters(s) && Counters(s')
    requires SlotsAgree(s.ring.tasks, s.own) && SlotsAgree(s'.ring.tasks, s'.own)
    requires SameElsewhere(s, s', t) && SameProducers(s, s', t, ps) && SamePositions(s, s', t)
    requires u != t && u in s.own && StatusOk(s, u)
    ensures u in s'.own && StatusOk(s', u)
  {
    assert Ask(Topic.Frames, 0);
    match s.own[u].st
    case Building(q) =>
    case Reserved(q, pos) => assert s'.order[pos] == s.order[pos];
    case Available(pos) =>
      FilledElsewhere(s, s', t, u, |u.vbufs|);
      assert s'.order[pos] == s.order[pos];
    case Held =>
      FilledElsewhere(s, s', t, u, |u.vbufs|);
      var h := s.own[u].slots[0];
      assert !OwnedBy(s, t, h) && !OwnedBy(s', t, h);
    case Used(k, len) =>
      FilledElsewhere(s, s', t, u, |u.vbufs|);
      assert s'.done[k] == s.done[k];
    case Returning(len) =>
  }

  lemma DeviceElsewhere(s: Sys, s': Sys, t: Task)
    requires Shape(s.ring) && Shape(s'.ring)
    requires SlotsAgree(s.ring.tasks, s.own) && SlotsAgree(s'.ring.tasks, s'.own)
    requires SameElsewhere(s, s', t) && DeviceOk(s) && DeviceSettled(s, s', t)
    requires forall h :: h in s'.dev.held ==> h < s.ring.num
    ensures DeviceOk(s')
  {
    assert Ask(Topic.Frames, 0);
    forall h | h in s'.dev.held
      ensures && s'.ring.tasks[h].Some?
              && s'.ring.tasks[h].value in s'.own
              && s'.own[s'.ring.tasks[h].value].st == Held
              && |s'.own[s'.ring.tasks[h].value].slots| > 0
              && s'.own[s'.ring.tasks[h].value].slots[0] == h
    {
      if OwnedBy(s, t, h) || OwnedBy(s', t, h) {
        assert s'.ring.tasks[s'.own[t].slots[0]] == Some(t);
      } else {
        assert h in s.dev.held;
      }
    }
  }

  lemma ConsumerElsewhere(s: Sys, s': Sys, t: Task)
    requires Shape(s.ring) && Shape(s'.ring)
    requires SlotsAgree(s.ring.tasks, s.own) && SlotsAgree(s'.ring.tasks, s'.own)
    requires SameElsewhere(s, s', t) && ConsumerOk(s)
    requires !s.cons.Waiting? && s.cons == s'.cons && s.cons.task != t
    ensures ConsumerOk(s')
  {
    assert Ask(Topic.Frames, 0);
    var slots := s.own[s.cons.task].slots;
    forall k | 0 <= k < |slots|
      ensures s'.ring.desc[slots[k]] == s.ring.desc[slots[k]]
    {
      assert !OwnedBy(s, t, slots[k]) && !OwnedBy(s', t, slots[k]);
    }
  }

  lemma PositionsElsewhere(s: Sys, s': Sys, t: Task)
    requires Shape(s.ring) && Shape(s'.ring) && Counters(s) && Counters(s')
    requires SameElsewhere(s, s', t) && SamePositions(s, s', t)
    requires PositionsOk(s) && PositionsSettled(s', t)
    ensures PositionsOk(s')
  {
    assert Ask(Topic.Frames, 0);
    forall k | s'.taken <= k < s'.published
      ensures s'.order[k] in s'.own && s'.own[s'.order[k]].st == Available(k)
    {
      if s'.order[k] != t { assert s'.order[k] == s.order[k]; }
    }
    forall k | s'.published <= k < s'.reserved
      ensures s'.order[k] in s'.own && s'.own[s'.order[k]].st.Reserved? && s'.own[s'.order[k]].st.pos == k
    {
      if s'.order[k] != t { assert s'.order[k] == s.order[k]; }
    }
    forall k | Read(s') <= k < s'.completed
      ensures s'.done[k] in s'.own && s'.own[s'.done[k]].st.Used? && s'.own[s'.done[k]].st.upos == k
    {
      if s'.done[k] != t { assert s'.done[k] == s.done[k]; }
    }
  }

  // The one place where the whole invariant is put together.
  lemma KeepsInv(s: Sys, s': Sys, t: Task, ps: set<Pid>)
    requires Inv(s) && Shape(s'.ring) && Counters(s')
    requires SlotsAgree(s'.ring.tasks, s'.own)
    requires SameElsewhere(s, s', t) && SameProducers(s, s', t, ps) && SamePositions(s, s', t)
    requires forall p :: p in ps && p in s'.prod ==> ProducerOk(s', p)
    requires t in s'.own ==> StatusOk(s', t)
    requires PositionsSettled(s', t) && DeviceSettled(s, s', t)
    requires forall h :: h in s'.dev.held ==> h < s.ring.num
    requires s'.cons.Waiting? || s'.cons.task != t || ConsumerOk(s')
    ensures Inv(s')
  {
    assert Ask(Topic.Frames, 0);
    forall q | q in s'.prod ensures ProducerOk(s', q) {
      if q !in ps { ProducerElsewhere(s, s', t, ps, q); }
    }
    forall u | u in s'.own ensures StatusOk(s', u) {
      if u != t { StatusElsewhere(s, s', t, ps, u); }
    }
    PositionsElsewhere(s, s', t);
    DeviceElsewhere(s, s', t);
    if !s'.cons.Waiting? && s'.cons.task != t { ConsumerElsewhere(s, s', t); }
  }

  // -------------------------------------------------------------------------
  // Ownership of slots and of tasks
  // -------------------------------------------------------------------------

  lemma SlotsRelabelled(s: Sys, t: Task, st: Status)
    requires SlotsAgree(s.ring.tasks, s.own) && t in s.own
    ensures SlotsAgree(s.ring.tasks, WithStatus(s, t, st))
  {
  }

  lemma SlotClaimed(s: Sys, t: Task, x: nat)
    requires SlotsAgree(s.ring.tasks, s.own) && t in s.own
    requires x < |s.ring.tasks| && s.ring.tasks[x].None?
    ensures SlotsAgree(s.ring.tasks[x := Some(t)], WithSlots(s, t, s.own[t].slots + [x]))
  {
    var slots := s.own[t].slots;
    var own' := WithSlots(s, t, slots + [x]);
    assert x !in slots;
    assert forall y :: y in slots ==> y in slots + [x];
    assert x in slots + [x];
  }

  // Releasing the first slot of a task gives back that slot and no other.
  lemma SlotReleased(s: Sys, t: Task)
    requires SlotsAgree(s.ring.tasks, s.own) && t in s.own && s.own[t].slots != []
    ensures s.own[t].slots[0] < |s.ring.tasks|
    ensures SlotsAgree(s.ring.tasks[s.own[t].slots[0] := None], WithSlots(s, t, s.own[t].slots[1..]))
  {
    var slots := s.own[t].slots;
    var tasks' := s.ring.tasks[slots[0] := None];
    var own' := WithSlots(s, t, slots[1..]);
    forall i | 0 <= i < |tasks'| && tasks'[i].Some?
      ensures tasks'[i].value in own' && i in own'[tasks'[i].value].slots
    {
      var u := s.ring.tasks[i].value;
      var k :| 0 <= k < |s.own[u].slots| && s.own[u].slots[k] == i;
      if u == t { assert slots[1..][k - 1] == i; }
    }
    forall u, k | u in own' && 0 <= k < |own'[u].slots|
      ensures own'[u].slots[k] < |tasks'| && tasks'[own'[u].slots[k]] == Some(u)
    {
      if u == t { assert slots[1..][k] == slots[k + 1]; }
    }
  }

  // The status of a task names the one producer that works on it, if there is one.
  ghost predicate WorksOn(s: Sys, q: Pid, t: Task) {
    t in s.own && match s.own[t].st case Building(p) => q == p case Reserved(p, _) => q == p case _ => false
  }

  lemma ProducerOfTask(s: Sys, t: Task)
    requires Inv(s)
    ensures forall q :: q in s.prod && !s.prod[q].Idle? && s.prod[q].task == t ==> WorksOn(s, q, t)
  {
    forall q | q in s.prod && !s.prod[q].Idle? && s.prod[q].task == t
      ensures WorksOn(s, q, t)
    {
      assert ProducerOk(s, q);
    }
  }

  lemma OneProducer(s: Sys, s': Sys, p: Pid)
    requires Inv(s) && p in s.prod && !s.prod[p].Idle? && p in s'.prod
    requires s'.prod == s.prod[p := s'.prod[p]]
    ensures SameProducers(s, s', s.prod[p].task, {p})
  {
    var t := s.prod[p].task;
    ProducerOfTask(s, t);
    assert WorksOn(s, p, t);
    forall q | q in s.prod && !s.prod[q].Idle? ensures q in {p} <==> s.prod[q].task == t {
      if s.prod[q].task == t { assert WorksOn(s, q, t); }
    }
  }

  lemma NoProducer(s: Sys, s': Sys, t: Task)
    requires Inv(s) && t in s.own && !s.own[t].st.Building? && !s.own[t].st.Reserved?
    requires s'.prod == s.prod
    ensures SameProducers(s, s', t, {})
  {
    ProducerOfTask(s, t);
    assert forall q :: !WorksOn(s, q, t);
  }

  lemma PositionsUntouched(s: Sys, s': Sys, t: Task)
    requires Shape(s.ring) && Shape(s'.ring) && Counters(s) && Counters(s')
    requires s'.ring.num == s.ring.num && s'.order == s.order && s'.done == s.done
    requires s'.reserved == s.reserved && s'.published == s.published && s'.taken == s.taken
    requires s'.completed == s.completed && Read(s') == Read(s)
    requires s'.ring.availRing == s.ring.availRing && s'.ring.usedRing == s.ring.usedRing
    ensures SamePositions(s, s', t)
  {
  }

  lemma PositionsStay(s: Sys, s': Sys, t: Task)
    requires Counters(s) && Counters(s') && PositionsOk(s)
    requires s'.order == s.order && s'.done == s.done
    requires s'.reserved == s.reserved && s'.published == s.published && s'.taken == s.taken
    requires s'.completed == s.completed && Read(s') == Read(s)
    requires t in s.own ==>
      (t in s'.own && s'.own[t].st == s.own[t].st) || s.own[t].st.Building? || s.own[t].st.Returning?
    ensures PositionsSettled(s', t)
  {
  }

  lemma NextResidue(x: nat)
    ensures (x % INDEX_SPAN + 1) % INDEX_SPAN == (x + 1) % INDEX_SPAN
  {
  }

  // The four boundaries that an action can move past one position of its task.
  datatype Boundary = AtReserve | AtPublish | AtTake | AtRead

  ghost predicate Moves(s: Sys, s': Sys, t: Task, b: Boundary)
    requires Counters(s) && Counters(s')
  {
    && s'.completed == s.completed && s'.done == s.done
    && s'.published == s.published + (if b.AtPublish? then 1 else 0)
    && s'.taken == s.taken + (if b.AtTake? then 1 else 0)
    && Read(s') == Read(s) + (if b.AtRead? then 1 else 0)
    && (if b.AtReserve? then s'.order == s.order + [t] else s'.order == s.order)
    && match b
       case AtReserve => true
       case AtPublish => s.published < s.reserved && s.order[s.published] == t
       case AtTake => s.taken < s.published && s.order[s.taken] == t
       case AtRead => Read(s) < s.completed && s.done[Read(s)] == t
  }

  lemma PositionMoved(s: Sys, s': Sys, t: Task, b: Boundary)
    requires Shape(s.ring) && Shape(s'.ring) && Counters(s) && Counters(s')
    requires s'.ring.num == s.ring.num && Moves(s, s', t, b)
    requires s'.ring.availRing == s.ring.availRing && s'.ring.usedRing == s.ring.usedRing
    ensures SamePositions(s, s', t)
  {
  }

  // The status of t moves with the boundary.
  lemma MovedSettled(s: Sys, s': Sys, t: Task, b: Boundary)
    requires Counters(s) && Counters(s') && PositionsOk(s) && t in s.own && t in s'.own
    requires Moves(s, s', t, b)
    requires match b
             case AtReserve => s.own[t].st.Building? && s'.own[t].st.Reserved? && s'.own[t].st.pos == s.reserved
             case AtPublish => s.own[t].st.Reserved? && s'.own[t].st == Available(s.published)
             case AtTake => s.own[t].st.Available? && s'.own[t].st == Held
             case AtRead => s.own[t].st.Used? && s'.own[t].st.Returning?
    ensures PositionsSettled(s', t)
  {
  }

  // The action touches no descriptor and no entry of tasks[].
  lemma OnlyOwnStatus(s: Sys, s': Sys, t: Task)
    requires Shape(s.ring) && Shape(s'.ring) && s'.ring.num == s.ring.num
    requires s'.ring.tasks == s.ring.tasks && s'.ring.desc == s.ring.desc
    requires s'.ring.vringIdx == s.ring.vringIdx
    requires s'.own == s.own || (t in s'.own && s'.own == s.own[t := s'.own[t]]) || s'.own == s.own - {t}
    requires s'.dev.held == s.dev.held
    requires s'.cons == s.cons || (
      && (!s.cons.Waiting? ==> s.cons.task == t)
      && (!s'.cons.Waiting? ==> s'.cons.task == t))
    ensures SameElsewhere(s, s', t)
  {
  }

  lemma OnlyOwnDesc(s: Sys, s': Sys, t: Task)
    requires Shape(s.ring) && Shape(s'.ring) && s'.ring.num == s.ring.num
    requires s'.ring.tasks == s.ring.tasks && t in s.own && s'.own == s.own
    requires forall x :: 0 <= x < s.ring.num && x !in s.own[t].slots ==> s'.ring.desc[x] == s.ring.desc[x]
    requires forall u :: u in s.ring.vringIdx && u != t ==>
               u in s'.ring.vringIdx && s'.ring.vringIdx[u] == s.ring.vringIdx[u]
    requires s'.dev == s.dev && s'.cons == s.cons
    ensures SameElsewhere(s, s', t)
  {
  }

  // The device takes or completes the chain of t.
  lemma OnlyOwnHead(s: Sys, s': Sys, t: Task)
    requires Shape(s.ring) && Shape(s'.ring) && s'.ring.num == s.ring.num
    requires s'.ring.tasks == s.ring.tasks && s'.ring.desc == s.ring.desc
    requires s'.ring.vringIdx == s.ring.vringIdx && s'.cons == s.cons
    requires t in s.own && t in s'.own && s'.own == s.own[t := s'.own[t]]
    requires s'.own[t].slots == s.own[t].slots != []
    requires forall h :: h != s.own[t].slots[0] ==> (h in s'.dev.held <==> h in s.dev.held)
    ensures SameElsewhere(s, s', t)
  {
    assert s.own[t].slots[0] in s.own[t].slots;
  }

  // The action writes one entry of tasks[] that belongs to t before or after it.
  lemma OnlyOwnSlot(s: Sys, s': Sys, t: Task, x: nat)
    requires Shape(s.ring) && Shape(s'.ring) && s'.ring.num == s.ring.num
    requires x < s.ring.num && (OwnedBy(s, t, x) || OwnedBy(s', t, x))
    requires s'.ring.tasks == s.ring.tasks[x := s'.ring.tasks[x]] && s'.ring.desc == s.ring.desc
    requires s'.ring.vringIdx == s.ring.vringIdx
    requires t in s'.own && s'.own == s.own[t := s'.own[t]]
    requires s'.dev.held == s.dev.held
    requires s'.cons == s.cons || (
      && (!s.cons.Waiting? ==> s.cons.task == t)
      && (!s'.cons.Waiting? ==> s'.cons.task == t))
    ensures SameElsewhere(s, s', t)
  {
  }

  // Of the slots of a task, the device can only hold the first.
  lemma HeldHead(s: Sys, t: Task)
    requires Shape(s.ring) && SlotsAgree(s.ring.tasks, s.own) && DeviceOk(s)
    ensures forall h :: h in s.dev.held && OwnedBy(s, t, h) ==>
              s.own[t].st == Held && |s.own[t].slots| > 0 && s.own[t].slots[0] == h
  {
    forall h | h in s.dev.held && OwnedBy(s, t, h)
      ensures s.own[t].st == Held && |s.own[t].slots| > 0 && s.own[t].slots[0] == h
    {
      var k :| 0 <= k < |s.own[t].slots| && s.own[t].slots[k] == h;
    }
  }

  // The device holds no chain of a task that is not handed to it.
  lemma NotHeld(s: Sys, s': Sys, t: Task)
    requires Shape(s.ring) && Shape(s'.ring) && SlotsAgree(s.ring.tasks, s.own) && DeviceOk(s)
    requires s'.dev.held == s.dev.held && t in s.own && s.own[t].st != Held
    requires forall x: nat :: OwnedBy(s', t, x) && !OwnedBy(s, t, x) ==> x < s.ring.num && s.ring.tasks[x].None?
    ensures DeviceSettled(s, s', t)
  {
    HeldHead(s, t);
    assert forall h :: h in s.dev.held ==> s.ring.tasks[h].Some?;
  }

  // -------------------------------------------------------------------------
  // Producers
  // -------------------------------------------------------------------------

  lemma BeginKeeps(s: Sys, p: Pid, t: Task)
    requires Inv(s) && Enabled(s, Begin(p, t))
    ensures Inv(ApplyBegin(s, p, t))
  {
    ProducerOfTask(s, t);
    assert forall q :: !WorksOn(s, q, t);
    var s' := ApplyBegin(s, p, t);
    OnlyOwnStatus(s, s', t);
    PositionsUntouched(s, s', t);
    PositionsStay(s, s', t);
    assert ProducerOk(s', p) && StatusOk(s', t);
    assert DeviceSettled(s, s', t);
    KeepsInv(s, s', t, {p});
  }

  // A step that only moves the program counter of its producer.
  lemma CounterMoves(s: Sys, s': Sys, p: Pid)
    requires Inv(s) && p in s.prod && !s.prod[p].Idle? && p in s'.prod
    requires s' == s.(prod := s.prod[p := s'.prod[p]])
    requires !s'.prod[p].Idle? && s'.prod[p].task == s.prod[p].task
    requires ProducerOk(s', p)
    ensures Inv(s')
  {
    var t := s.prod[p].task;
    assert ProducerOk(s, p) && StatusOk(s, t);
    OnlyOwnStatus(s, s', t);
    OneProducer(s, s', p);
    PositionsUntouched(s, s', t);
    PositionsStay(s, s', t);
    NotHeld(s, s', t);
    KeepsInv(s, s', t, {p});
  }

  lemma NextBufferKeeps(s: Sys, p: Pid)
    requires Inv(s) && p in s.prod && s.prod[p].Next?
    ensures Inv(ApplyNextBuffer(s, p))
  {
    assert ProducerOk(s, p);
    CounterMoves(s, ApplyNextBuffer(s, p), p);
  }

  lemma ProbeKeeps(s: Sys, p: Pid)
    requires Inv(s) && p in s.prod && s.prod[p].Scan?
    ensures Inv(ApplyProbe(s, p))
  {
    assert ProducerOk(s, p);
    CounterMoves(s, ApplyProbe(s, p), p);
  }

  lemma ReadAvailIdxKeeps(s: Sys, p: Pid)
    requires Inv(s) && p in s.prod && s.prod[p].Flushing?
    ensures Inv(ApplyReadAvailIdx(s, p))
  {
    assert ProducerOk(s, p);
    CounterMoves(s, ApplyReadAvailIdx(s, p), p);
  }

  // A step of a producer that moves no position and nothing that the device sees.
  lemma ProducerSettled(s: Sys, s': Sys, p: Pid)
    requires Inv(s) && p in s.prod && !s.prod[p].Idle? && p in s'.prod && s'.prod == s.prod[p := s'.prod[p]]
    requires Shape(s'.ring) && s'.ring.num == s.ring.num && s'.order == s.order && s'.done == s.done
    requires s'.reserved == s.reserved && s'.published == s.published && s'.taken == s.taken
    requires s'.completed == s.completed && Read(s') == Read(s) && Counters(s')
    requires s'.ring.availRing == s.ring.availRing && s'.ring.usedRing == s.ring.usedRing && s'.dev == s.dev
    requires var t := s.prod[p].task;
             (t in s'.own && t in s.own && s'.own[t].st == s.own[t].st) || (t in s.own && s.own[t].st.Building?)
    requires forall x: nat :: OwnedBy(s', s.prod[p].task, x) && !OwnedBy(s, s.prod[p].task, x) ==>
               x < s.ring.num && s.ring.tasks[x].None?
    ensures var t := s.prod[p].task;
            SameProducers(s, s', t, {p}) && SamePositions(s, s', t) && PositionsSettled(s', t) && DeviceSettled(s, s', t)
  {
    var t := s.prod[p].task;
    assert ProducerOk(s, p);
    OneProducer(s, s', p);
    PositionsUntouched(s, s', t);
    PositionsStay(s, s', t);
    NotHeld(s, s', t);
  }

  lemma ClaimedOk(s: Sys, p: Pid)
    requires Inv(s) && p in s.prod && s.prod[p].Claiming? && s.prod[p].cur < s.ring.num
    requires s.ring.tasks[s.prod[p].cur].None?
    ensures var s', t := ApplyClaim(s, p), s.prod[p].task;
            Shape(s'.ring) && Counters(s') && ProducerOk(s', p) && t in s'.own && StatusOk(s', t)
  {
    var Claiming(t, slots, saved, cur) := s.prod[p];
    assert ProducerOk(s, p) && StatusOk(s, t);
    FilledPrefix(s.ring.desc, slots, cur, t.vbufs);
    assert Filled(ApplyClaim(s, p), t, |slots|);
  }

  // The slot was free.
  lemma SlotTaken(s: Sys, p: Pid)
    requires Inv(s) && p in s.prod && s.prod[p].Claiming? && s.prod[p].cur < s.ring.num
    requires s.ring.tasks[s.prod[p].cur].None?
    ensures Inv(ApplyClaim(s, p))
  {
    var Claiming(t, slots, saved, cur) := s.prod[p];
    assert ProducerOk(s, p) && StatusOk(s, t);
    var s' := ApplyClaim(s, p);
    ClaimedOk(s, p);
    SlotClaimed(s, t, cur);
    OnlyOwnSlot(s, s', t, cur);
    ProducerSettled(s, s', p);
    KeepsInv(s, s', t, {p});
  }

  lemma ClaimKeeps(s: Sys, p: Pid)
    requires Inv(s) && p in s.prod && s.prod[p].Claiming?
    ensures Inv(ApplyClaim(s, p))
  {
    assert ProducerOk(s, p);
    if s.ring.tasks[s.prod[p].cur].Some? { CounterMoves(s, ApplyClaim(s, p), p); } else { SlotTaken(s, p); }
  }

  lemma FilledPrefix(desc: seq<Desc>, slots: seq<nat>, x: nat, vbufs: seq<Buffer>)
    requires Described(desc, slots, vbufs, |slots|)
    ensures Described(desc, slots + [x], vbufs, |slots|)
  {
  }

  lemma FillDescribes(desc: seq<Desc>, slots: seq<nat>, t: Task)
    requires 0 < |slots| <= |t.vbufs| && Distinct(slots)
    requires forall k :: 0 <= k < |slots| ==> slots[k] < |desc|
    requires Described(desc, slots, t.vbufs, |slots| - 1)
    ensures Described(FillDesc(desc, slots, t), slots, t.vbufs, |slots|)
    ensures forall x :: 0 <= x < |desc| && x !in slots ==> FillDesc(desc, slots, t)[x] == desc[x]
  {
  }

  lemma FilledOk(s: Sys, p: Pid)
    requires Inv(s) && p in s.prod && s.prod[p].Filling?
    ensures Shape(ApplyFill(s, p).ring) && ProducerOk(ApplyFill(s, p), p)
  {
    var t := s.prod[p].task;
    assert ProducerOk(s, p);
    FillDescribes(s.ring.desc, s.own[t].slots, t);
    assert Filled(ApplyFill(s, p), t, |s.own[t].slots|);
  }

  lemma FillKeeps(s: Sys, p: Pid)
    requires Inv(s) && p in s.prod && s.prod[p].Filling?
    ensures Inv(ApplyFill(s, p))
  {
    var t := s.prod[p].task;
    assert ProducerOk(s, p) && StatusOk(s, t);
    var s' := ApplyFill(s, p);
    FilledOk(s, p);
    FillDescribes(s.ring.desc, s.own[t].slots, t);
    OnlyOwnDesc(s, s', t);
    ProducerSettled(s, s', p);
    assert StatusOk(s', t);
    KeepsInv(s, s', t, {p});
  }

  lemma UndoKeeps(s: Sys, p: Pid)
    requires Inv(s) && p in s.prod && s.prod[p].Undoing?
    ensures Inv(ApplyUndo(s, p))
  {
    var Undoing(t, slots) := s.prod[p];
    assert ProducerOk(s, p) && StatusOk(s, t);
    var s' := ApplyUndo(s, p);
    if slots == [] {
      OnlyOwnStatus(s, s', t);
    } else {
      SlotReleased(s, t);
      OnlyOwnSlot(s, s', t, slots[0]);
    }
    ProducerSettled(s, s', p);
    assert ProducerOk(s', p);
    KeepsInv(s, s', t, {p});
  }

  lemma ReservedOk(s: Sys, p: Pid)
    requires Inv(s) && p in s.prod && s.prod[p].Reserving? && s.ring.lastAvailIdx == s.prod[p].idx
    ensures var s', t := ApplyReserve(s, p), s.prod[p].task;
            Shape(s'.ring) && Counters(s') && ProducerOk(s', p) && t in s'.own && StatusOk(s', t)
  {
    assert ProducerOk(s, p);
    NextResidue(s.reserved);
    assert Chained(ApplyReserve(s, p), s.prod[p].task);
  }

  lemma ReservedKeeps(s: Sys, p: Pid)
    requires Inv(s) && p in s.prod && s.prod[p].Reserving? && s.ring.lastAvailIdx == s.prod[p].idx
    ensures Inv(ApplyReserve(s, p))
  {
    var t := s.prod[p].task;
    assert ProducerOk(s, p) && StatusOk(s, t);
    var s' := ApplyReserve(s, p);
    ReservedOk(s, p);
    OnlyOwnStatus(s, s', t);
    OneProducer(s, s', p);
    PositionMoved(s, s', t, Boundary.AtReserve);
    MovedSettled(s, s', t, Boundary.AtReserve);
    NotHeld(s, s', t);
    KeepsInv(s, s', t, {p});
  }

  lemma ReserveKeeps(s: Sys, p: Pid)
    requires Inv(s) && p in s.prod && s.prod[p].Reserving?
    ensures Inv(ApplyReserve(s, p))
  {
    assert ProducerOk(s, p);
    if s.ring.lastAvailIdx == s.prod[p].idx {
      ReservedKeeps(s, p);
    } else {
      CounterMoves(s, ApplyReserve(s, p), p);
    }
  }

  // The entry at the reserved position is free: no position that the device has yet to
  // read shares it.
  lemma EntryWritten(s: Sys, s': Sys, t: Task, pos: nat)
    requires Inv(s) && t in s.own && s.taken <= pos < s.reserved && s.order[pos] == t
    requires Shape(s'.ring) && Counters(s')
    requires s'.ring.num == s.ring.num && s'.order == s.order && s'.done == s.done
    requires s'.reserved == s.reserved && s'.published == s.published && s'.taken == s.taken
    requires s'.completed == s.completed && Read(s') == Read(s)
    requires s'.ring.usedRing == s.ring.usedRing
    requires s'.ring.availRing == s.ring.availRing[At(pos, s.ring.num) := s'.ring.availRing[At(pos, s.ring.num)]]
    ensures SamePositions(s, s', t)
  {
    AvailableFits(s);
    forall k | s.taken <= k < s.reserved && s.order[k] != t
      ensures At(k, s.ring.num) != At(pos, s.ring.num)
    {
      if k < pos { EntriesDistinct(k, pos, s.ring.num); } else { EntriesDistinct(pos, k, s.ring.num); }
    }
  }

  lemma EntryOk(s: Sys, p: Pid)
    requires Inv(s) && p in s.prod && s.prod[p].Writing?
    ensures var s', t := ApplyWriteEntry(s, p), s.prod[p].task;
            Shape(s'.ring) && Counters(s') && ProducerOk(s', p) && t in s'.own && StatusOk(s', t)
  {
    assert ProducerOk(s, p) && StatusOk(s, s.prod[p].task);
    assert Chained(ApplyWriteEntry(s, p), s.prod[p].task);
  }

  lemma WriteEntryKeeps(s: Sys, p: Pid)
    requires Inv(s) && p in s.prod && s.prod[p].Writing?
    ensures Inv(ApplyWriteEntry(s, p))
  {
    var Writing(t, slots, pos) := s.prod[p];
    assert ProducerOk(s, p) && StatusOk(s, t);
    var s' := ApplyWriteEntry(s, p);
    OnlyOwnStatus(s, s', t);
    OneProducer(s, s', p);
    EntryOk(s, p);
    EntryWritten(s, s', t, pos);
    PositionsStay(s, s', t);
    NotHeld(s, s', t);
    KeepsInv(s, s', t, {p});
  }

  // The 16-bit comparison on avail->idx succeeds for the owner of the next position only.
  lemma PublishTest(s: Sys, p: Pid)
    requires Inv(s) && p in s.prod && s.prod[p].Publishing?
    ensures s.published <= s.prod[p].pos < s.published + s.ring.num
    ensures s.ring.availIdx == s.prod[p].pos % INDEX_SPAN <==> s.prod[p].pos == s.published
  {
    assert ProducerOk(s, p) && StatusOk(s, s.prod[p].task);
    AvailableFits(s);
    var pos := s.prod[p].pos;
    if pos != s.published {
      EntriesDistinct(s.published, pos, s.ring.num);
    }
  }

  lemma PublishedOk(s: Sys, p: Pid)
    requires Inv(s) && p in s.prod && s.prod[p].Publishing?
    requires s.prod[p].pos == s.published && s.ring.availIdx == s.published % INDEX_SPAN
    ensures var s', t := ApplyPublish(s, p), s.prod[p].task;
            Shape(s'.ring) && Counters(s') && (p in s'.prod ==> ProducerOk(s', p)) && t in s'.own && StatusOk(s', t)
  {
    assert ProducerOk(s, p) && StatusOk(s, s.prod[p].task);
    NextResidue(s.published);
    assert Chained(ApplyPublish(s, p), s.prod[p].task);
  }

  lemma PublishedKeeps(s: Sys, p: Pid)
    requires Inv(s) && p in s.prod && s.prod[p].Publishing?
    requires s.prod[p].pos == s.published && s.ring.availIdx == s.published % INDEX_SPAN
    ensures Inv(ApplyPublish(s, p))
  {
    var t := s.prod[p].task;
    assert ProducerOk(s, p) && StatusOk(s, t);
    var s' := ApplyPublish(s, p);
    PublishedOk(s, p);
    OnlyOwnStatus(s, s', t);
    OneProducer(s, s', p);
    PositionMoved(s, s', t, Boundary.AtPublish);
    MovedSettled(s, s', t, Boundary.AtPublish);
    NotHeld(s, s', t);
    KeepsInv(s, s', t, {p});
  }

  lemma PublishKeeps(s: Sys, p: Pid)
    requires Inv(s) && p in s.prod && s.prod[p].Publishing?
    ensures Inv(ApplyPublish(s, p))
  {
    PublishTest(s, p);
    if s.prod[p].pos == s.published { PublishedKeeps(s, p); }
  }

  // -------------------------------------------------------------------------
  // Consumer and device
  // -------------------------------------------------------------------------

  lemma PollKeeps(s: Sys)
    requires Inv(s) && s.cons.Waiting?
    ensures Inv(ApplyPoll(s))
  {
    if !PollSeesEmpty(s.ring) {
      NextUsed(s);
      var s' := ApplyPoll(s);
      var t := s'.cons.task;
      OnlyOwnStatus(s, s', t);
      NoProducer(s, s', t);
      PositionMoved(s, s', t, Boundary.AtRead);
      MovedSettled(s, s', t, Boundary.AtRead);
      NotHeld(s, s', t);
      SlotsRelabelled(s, t, s'.own[t].st);
      KeepsInv(s, s', t, {});
    }
  }

  lemma ReleaseKeeps(s: Sys)
    requires Inv(s) && s.cons.Walking?
    ensures Inv(ApplyRelease(s))
  {
    var t := s.cons.task;
    var s' := ApplyRelease(s);
    SlotReleased(s, t);
    OnlyOwnSlot(s, s', t, s.cons.cur);
    NoProducer(s, s', t);
    PositionsUntouched(s, s', t);
    PositionsStay(s, s', t);
    NotHeld(s, s', t);
    assert ConsumerOk(s');
    KeepsInv(s, s', t, {});
  }

  lemma RetireKeeps(s: Sys)
    requires Inv(s) && s.cons.Leaving?
    ensures Inv(ApplyRetire(s))
  {
    var t := s.cons.task;
    var s' := ApplyRetire(s);
    NextResidue(s.consumed);
    assert Counters(s');
    OnlyOwnStatus(s, s', t);
    NoProducer(s, s', t);
    PositionsUntouched(s, s', t);
    PositionsStay(s, s', t);
    NotHeld(s, s', t);
    KeepsInv(s, s', t, {});
  }

  ghost function HandedOver(s: Sys, t: Task): Sys
    requires t in s.own && s.own[t].slots != []
  {
    s.(dev := Device((s.dev.availIdx + 1) % INDEX_SPAN, s.dev.held + {s.own[t].slots[0]}),
       taken := s.taken + 1,
       own := WithStatus(s, t, Held))
  }

  lemma HandedOverKeeps(s: Sys, t: Task)
    requires Inv(s) && s.taken < s.published && s.order[s.taken] == t && t in s.own
    requires s.own[t].st == Available(s.taken) && s.own[t].slots != []
    ensures Inv(HandedOver(s, t))
  {
    var s' := HandedOver(s, t);
    assert StatusOk(s, t);
    NextResidue(s.taken);
    assert Counters(s');
    OnlyOwnHead(s, s', t);
    NoProducer(s, s', t);
    PositionMoved(s, s', t, Boundary.AtTake);
    MovedSettled(s, s', t, Boundary.AtTake);
    SlotsRelabelled(s, t, Held);
    HeldSettled(s, s', t);
    assert Chained(s', t);
    KeepsInv(s, s', t, {});
  }

  lemma TakeKeeps(s: Sys)
    requires Inv(s) && Enabled(s, Take)
    ensures Inv(ApplyTake(s))
  {
    NextAvailable(s);
    HandedOverKeeps(s, s.order[s.taken]);
  }

  lemma HeldSettled(s: Sys, s': Sys, t: Task)
    requires Shape(s.ring) && Shape(s'.ring) && SlotsAgree(s.ring.tasks, s.own) && DeviceOk(s)
    requires t in s.own && s.own[t].slots != []
    requires t in s'.own && s'.own[t].slots == s.own[t].slots
    requires forall h :: h != s.own[t].slots[0] ==> (h in s'.dev.held <==> h in s.dev.held)
    requires s.own[t].slots[0] in s'.dev.held ==> s'.own[t].st == Held
    ensures DeviceSettled(s, s', t)
  {
    HeldHead(s, t);
  }

  // The used entry is free: every completion that was not read still holds a slot, and
  // so does the chain that completes now.
  lemma UsedWritten(s: Sys, s': Sys, t: Task)
    requires Inv(s) && t in s.own && s.own[t].st == Held
    requires Shape(s'.ring) && Counters(s')
    requires s'.ring.num == s.ring.num && s'.order == s.order && s'.done == s.done + [t]
    requires s'.reserved == s.reserved && s'.published == s.published && s'.taken == s.taken
    requires s'.completed == s.completed + 1 && Read(s') == Read(s)
    requires s'.ring.availRing == s.ring.availRing
    requires forall i :: 0 <= i < s.ring.num && i != At(s.completed, s.ring.num) ==>
               s'.ring.usedRing[i] == s.ring.usedRing[i]
    ensures SamePositions(s, s', t)
  {
    assert StatusOk(s, t);
    var ts := s.done[Read(s)..] + [t];
    forall i | 0 <= i < |ts| ensures ts[i] in s.own && 1 <= |s.own[ts[i]].slots| {
      if i < |ts| - 1 { assert ts[i] == s.done[Read(s) + i]; assert StatusOk(s, ts[i]); }
    }
    forall i, j | 0 <= i < j < |ts| ensures ts[i] != ts[j] {
      assert ts[i] == s.done[Read(s) + i];
      if j < |ts| - 1 { assert ts[j] == s.done[Read(s) + j]; }
    }
    TasksFit(s.ring.tasks, s.own, ts, 1);
    forall k | Read(s) <= k < s.completed
      ensures At(k, s.ring.num) != At(s.completed, s.ring.num)
    {
      EntriesDistinct(k, s.completed, s.ring.num);
    }
  }

  lemma CompletedOk(s: Sys, h: nat, len: nat)
    requires Inv(s) && h in s.dev.held
    ensures var s', t := ApplyComplete(s, h, len), s.ring.tasks[h].value;
            && Shape(s'.ring) && Counters(s') && t in s'.own && StatusOk(s', t) && PositionsSettled(s', t)
            && SlotsAgree(s'.ring.tasks, s'.own)
  {
    var t := s.ring.tasks[h].value;
    assert StatusOk(s, t);
    NextResidue(s.completed);
    assert Chained(ApplyComplete(s, h, len), t);
    SlotsRelabelled(s, t, Used(s.completed, len));
  }

  lemma CompleteKeeps(s: Sys, h: nat, len: nat)
    requires Inv(s) && h in s.dev.held
    ensures Inv(ApplyComplete(s, h, len))
  {
    var t := s.ring.tasks[h].value;
    assert StatusOk(s, t);
    var s' := ApplyComplete(s, h, len);
    CompletedOk(s, h, len);
    OnlyOwnHead(s, s', t);
    NoProducer(s, s', t);
    UsedWritten(s, s', t);
    HeldSettled(s, s', t);
    KeepsInv(s, s', t, {});
  }
}
