/**
 The driver's ring object, with its arrays updated in place.  A ghost copy of the protocol
 state follows every statement, so the history of each object is a run of the step
 system and inherits all that is proved about runs.
 */
module Vring {
  import opened Common
  import opened VringProtocol
  import opened VringInvariant
  import opened VringRefinement
  import opened VringProperties

  ghost function FreeSlots(tasks: seq<Option<Task>>): set<nat> {
    set i | 0 <= i < |tasks| && tasks[i].None?
  }

  // Entries from `saved` up to `idx`, going round, are occupied.
  ghost predicate Scanned(ts: seq<Option<Task>>, saved: nat, idx: nat) {
    && saved < |ts| && idx < |ts|
    && forall i :: 0 <= i < |ts| && (if saved <= idx then saved <= i < idx else saved <= i || i < idx) ==>
         ts[i].Some?
  }

  ghost function Left(n: nat, saved: nat, idx: nat): int {
    if saved <= idx then n - idx + saved else saved - idx
  }

  lemma ScannedNext(ts: seq<Option<Task>>, saved: nat, idx: nat)
    requires Scanned(ts, saved, idx) && ts[idx].Some?
    ensures var next := (idx + 1) % |ts|;
            if next == saved then forall i :: 0 <= i < |ts| ==> ts[i].Some?
            else Scanned(ts, saved, next) && 0 <= Left(|ts|, saved, next) < Left(|ts|, saved, idx)
  {
    if idx + 1 == |ts| {
      RemainderUnique(idx + 1, |ts|, 1, 0);
    } else {
      RemainderUnique(idx + 1, |ts|, 0, idx + 1);
    }
  }

  // The action leads from s to s'.
  ghost predicate Steps(s: Sys, a: Action, s': Sys) {
    forall k {:trigger Ask(Topic.History, k)} :: Ask(Topic.History, k) ==>
      Inv(s) && Enabled(s, a) && s' == Apply(s, a)
  }

  // A step that leaves the ring alone and moves producer p from q0 to q.
  ghost predicate OnlyMoves(s: Sys, s': Sys, p: Pid, q: Producer) {
    s' == s.(prod := s.prod[p := q])
  }

  lemma MovesTwice(s: Sys, s1: Sys, s2: Sys, p: Pid, q1: Producer, q2: Producer)
    requires OnlyMoves(s, s1, p, q1) && OnlyMoves(s1, s2, p, q2)
    ensures OnlyMoves(s, s2, p, q2)
  {
    assert s.prod[p := q1][p := q2] == s.prod[p := q2];
  }

  lemma ProbeResult(s: Sys, p: Pid)
    requires Inv(s) && p in s.prod && s.prod[p].Scan?
    ensures var Scan(t, slots, saved, cur) := s.prod[p];
            && cur < s.ring.num == |s.ring.tasks|
            && OnlyMoves(s, Apply(s, Put(p)), p,
                 if s.ring.tasks[cur].None? then Claiming(t, slots, saved, cur)
                 else if (cur + 1) % s.ring.num == saved then Undoing(t, slots)
                 else Scan(t, slots, saved, (cur + 1) % s.ring.num))
  {
    assert ProducerOk(s, p);
  }

  // Producer p has claimed `slots` for its task since state s0, and no more has happened.
  ghost predicate PutSoFar(s0: Sys, s: Sys, p: Pid, t: Task, slots: seq<nat>) {
    && t !in s0.own && s.own == s0.own[t := Own(slots, Building(p))]
    && (forall q :: q != p ==> (q in s.prod <==> q in s0.prod))
    && (forall q :: q != p && q in s0.prod ==> s.prod[q] == s0.prod[q])
    && s.cons == s0.cons && s.dev == s0.dev && s.order == s0.order && s.done == s0.done
    && s.reserved == s0.reserved && s.published == s0.published && s.taken == s0.taken
    && s.completed == s0.completed && s.consumed == s0.consumed
    && s.ring.num == s0.ring.num
    && s.ring.availRing == s0.ring.availRing && s.ring.usedRing == s0.ring.usedRing
    && Claims(s0.ring.tasks, s.ring.tasks, t, slots)
  }

  // The slot table is the old one with the free entries `slots` given to t.
  ghost predicate Claims(ts0: seq<Option<Task>>, ts: seq<Option<Task>>, t: Task, slots: seq<nat>) {
    && |ts| == |ts0|
    && (forall k :: 0 <= k < |slots| ==> slots[k] < |ts0| && ts0[slots[k]].None?)
    && (forall i :: 0 <= i < |ts| ==> ts[i] == if i in slots then Some(t) else ts0[i])
  }

  lemma ClaimsOne(ts0: seq<Option<Task>>, ts: seq<Option<Task>>, t: Task, slots: seq<nat>, idx: nat)
    requires Claims(ts0, ts, t, slots) && idx < |ts| && ts[idx].None?
    ensures Claims(ts0, ts[idx := Some(t)], t, slots + [idx])
  {
    assert idx !in slots;
  }

  lemma ClaimsUndone(ts0: seq<Option<Task>>, ts: seq<Option<Task>>, t: Task, slots: seq<nat>)
    requires Claims(ts0, ts, t, slots) && Distinct(slots) && slots != []
    ensures Claims(ts0, ts[slots[0] := None], t, slots[1..])
  {
    forall i | 0 <= i < |ts| ensures i in slots <==> i == slots[0] || i in slots[1..] {
      if i in slots && i != slots[0] {
        var k :| 0 <= k < |slots| && slots[k] == i;
        assert slots[1..][k - 1] == i;
      }
    }
    assert slots[0] !in slots[1..];
  }

  // Claims use up free slots one for one.
  lemma ClaimsCount(ts0: seq<Option<Task>>, ts: seq<Option<Task>>, t: Task, slots: seq<nat>)
    requires Claims(ts0, ts, t, slots) && Distinct(slots)
    ensures |FreeSlots(ts0)| == |FreeSlots(ts)| + |slots|
  {
    DistinctCardinality(slots);
    var taken := set x | x in slots;
    assert FreeSlots(ts0) == FreeSlots(ts) + taken && FreeSlots(ts) !! taken;
  }

  lemma ClaimResult(s0: Sys, s: Sys, p: Pid)
    requires Inv(s) && p in s.prod && s.prod[p].Claiming?
    requires PutSoFar(s0, s, p, s.prod[p].task, s.prod[p].slots)
    ensures var Claiming(t, slots, saved, cur) := s.prod[p];
            && cur < s.ring.num == |s.ring.tasks|
            && (s.ring.tasks[cur].None? ==>
                 var s' := Apply(s, Put(p));
                 && s'.ring == s.ring.(tasks := s.ring.tasks[cur := Some(t)])
                 && s'.prod[p] == Filling(t, slots + [cur])
                 && PutSoFar(s0, s', p, t, slots + [cur]))
  {
    var Claiming(t, slots, saved, cur) := s.prod[p];
    assert ProducerOk(s, p);
    if s.ring.tasks[cur].None? {
      ClaimsOne(s0.ring.tasks, s.ring.tasks, t, slots, cur);
      assert s.own[t := s.own[t].(slots := slots + [cur])] == s0.own[t := Own(slots + [cur], Building(p))];
    }
  }

  lemma FillResult(s0: Sys, s: Sys, p: Pid) returns (s': Sys)
    requires Inv(s) && p in s.prod && s.prod[p].Filling?
    requires PutSoFar(s0, s, p, s.prod[p].task, s.prod[p].slots)
    ensures var Filling(t, slots) := s.prod[p];
            && 0 < |slots| <= |t.vbufs|
            && (forall k :: 0 <= k < |slots| ==> slots[k] < s.ring.num == |s.ring.desc|)
            && Distinct(slots) && Steps(s, Put(p), s')
            && (s'.ring == s.ring.(taskIdx := (slots[|slots| - 1] + 1) % s.ring.num,
                    vringIdx := if |slots| == 1 then s.ring.vringIdx[t := slots[0]] else s.ring.vringIdx,
                    desc := FillDesc(s.ring.desc, slots, t)))
            && p in s'.prod && s'.prod[p] == Next(t, slots)
            && PutSoFar(s0, s', p, t, slots)
  {
    assert ProducerOk(s, p);
    s' := Apply(s, Put(p));
  }

  lemma UndoResult(s0: Sys, s: Sys, p: Pid) returns (s': Sys)
    requires Inv(s) && p in s.prod && s.prod[p].Undoing?
    requires PutSoFar(s0, s, p, s.prod[p].task, s.prod[p].slots)
    ensures Steps(s, Put(p), s') && p in s'.prod
    ensures var Undoing(t, slots) := s.prod[p];
            if slots == [] then
              s'.prod == s.prod[p := Idle] && s'.own == s0.own && s' == s.(prod := s'.prod, own := s'.own)
            else
              && slots[0] < |s.ring.tasks|
              && s'.ring == s.ring.(tasks := s.ring.tasks[slots[0] := None])
              && s'.prod[p] == Undoing(t, slots[1..])
              && PutSoFar(s0, s', p, t, slots[1..])
  {
    var Undoing(t, slots) := s.prod[p];
    assert ProducerOk(s, p);
    s' := Apply(s, Put(p));
    if slots != [] {
      ClaimsUndone(s0.ring.tasks, s.ring.tasks, t, slots);
      assert s.own[t := s.own[t].(slots := slots[1..])] == s0.own[t := Own(slots[1..], Building(p))];
    } else {
      assert s.own - {t} == s0.own;
    }
  }

  // Producer p has published its task at the next position since state s0.
  ghost predicate Published(s0: Sys, s: Sys, t: Task, slots: seq<nat>) {
    && s.own == s0.own[t := Own(slots, Available(s0.reserved))]
    && s.order == s0.order + [t] && s.done == s0.done && s.cons == s0.cons && s.dev == s0.dev
    && s.reserved == s0.reserved + 1 && s.published == s0.published + 1
    && s.taken == s0.taken && s.completed == s0.completed && s.consumed == s0.consumed
  }

  lemma ReserveResult(s: Sys, p: Pid)
    requires Inv(s) && p in s.prod && s.prod[p].Reserving? && s.prod[p].idx == s.ring.lastAvailIdx
    ensures var Reserving(t, slots, idx) := s.prod[p];
            && t in s.own && s.own[t].slots == slots
            && Apply(s, Put(p)) == s.(
                 ring := s.ring.(lastAvailIdx := (idx + 1) % INDEX_SPAN),
                 prod := s.prod[p := Writing(t, slots, s.reserved)],
                 reserved := s.reserved + 1,
                 own := s.own[t := Own(slots, Reserved(p, s.reserved))], order := s.order + [t])
  {
    assert ProducerOk(s, p);
  }

  lemma WriteResult(s: Sys, p: Pid) returns (s': Sys)
    requires Inv(s) && p in s.prod && s.prod[p].Writing?
    ensures var Writing(t, slots, pos) := s.prod[p];
            && t in s.ring.vringIdx && At(pos, s.ring.num) < s.ring.num == |s.ring.availRing|
            && Steps(s, Put(p), s')
            && s' == s.(
                 ring := s.ring.(availRing := s.ring.availRing[At(pos, s.ring.num) := s.ring.vringIdx[t]]),
                 prod := s.prod[p := Publishing(t, slots, pos)])
  {
    assert ProducerOk(s, p);
    s' := Apply(s, Put(p));
  }

  lemma PublishResult(s: Sys, p: Pid) returns (s': Sys)
    requires Inv(s) && p in s.prod && s.prod[p].Publishing? && s.prod[p].pos == s.published
    ensures var Publishing(t, slots, pos) := s.prod[p];
            && t in s.own && s.own[t].slots == slots && s.ring.availIdx == pos % INDEX_SPAN
            && Steps(s, Put(p), s')
            && s' == s.(
                 ring := s.ring.(availIdx := (pos + 1) % INDEX_SPAN),
                 prod := s.prod[p := Idle], published := s.published + 1,
                 own := s.own[t := Own(slots, Available(pos))])
  {
    assert ProducerOk(s, p);
    s' := Apply(s, Put(p));
  }

  // While the consumer walks the chain of t, with `rest` still to be freed.
  ghost predicate Freed(s0: Sys, s: Sys, t: Task, rest: seq<nat>, len: nat) {
    && t in s0.own && s.own == s0.own[t := Own(rest, Returning(len))]
    && |s.ring.tasks| == |s0.ring.tasks|
    && (forall i :: 0 <= i < |s.ring.tasks| ==>
          s.ring.tasks[i] == if s0.ring.tasks[i] == Some(t) && i !in rest then None else s0.ring.tasks[i])
    && s.prod == s0.prod && s.dev == s0.dev && s.order == s0.order && s.done == s0.done
    && s.reserved == s0.reserved && s.published == s0.published && s.taken == s0.taken
    && s.completed == s0.completed && s.consumed == s0.consumed
  }

  lemma PollResult(s: Sys)
    requires Inv(s) && s.cons.Waiting? && !PollSeesEmpty(s.ring)
    ensures var t, e := s.done[s.consumed], s.ring.usedRing[At(s.consumed, s.ring.num)];
            && t in s.own && s.own[t].st == Used(s.consumed, e.len) && e.id < s.ring.num
            && s.ring.tasks[e.id] == Some(t)
            && t in s.ring.vringIdx && s.ring.vringIdx[t] == e.id
            && var s' := Apply(s, Get);
               && s'.ring == s.ring && s'.cons == Walking(t, e.id, e.len)
               && Freed(s, s', t, s.own[t].slots, e.len)
  {
    NextUsed(s);
    var t := s.done[s.consumed];
    forall i | 0 <= i < |s.ring.tasks| && s.ring.tasks[i] == Some(t)
      ensures i in s.own[t].slots
    {
    }
  }

  lemma ReleaseResult(s0: Sys, s: Sys, rest: seq<nat>)
    requires Inv(s) && s.cons.Walking? && Freed(s0, s, s.cons.task, rest, s.cons.len)
    requires SlotsAgree(s0.ring.tasks, s0.own)
    ensures rest != [] && rest[0] == s.cons.cur < s.ring.num
    ensures s.ring.desc[s.cons.cur].more <==> |rest| > 1
    ensures var Walking(t, cur, len) := s.cons;
            var s' := Apply(s, Get);
            && s'.ring == s.ring.(tasks := s.ring.tasks[cur := None])
            && s'.cons == (if |rest| > 1 then Walking(t, s.ring.desc[cur].next, len) else Consumer.Leaving(t, len))
            && Freed(s0, s', t, rest[1..], len)
  {
    var t := s.cons.task;
    UpdatedTwice(s0.own, t, Own(rest, Returning(s.cons.len)), Own(rest[1..], Returning(s.cons.len)));
    assert Distinct(s.own[t].slots);
    assert s.ring.tasks[s.own[t].slots[0]] == Some(t);
    forall i ensures i in rest <==> i == rest[0] || i in rest[1..] {
      if i in rest && i != rest[0] {
        var k :| 0 <= k < |rest| && rest[k] == i;
        assert rest[1..][k - 1] == i;
      }
    }
    assert rest[0] !in rest[1..];
  }

  lemma RetireResult(s0: Sys, s: Sys)
    requires Inv(s) && s.cons.Leaving? && Freed(s0, s, s.cons.task, [], s.cons.len)
    requires SlotsAgree(s0.ring.tasks, s0.own)
    ensures var t, s' := s.cons.task, Apply(s, Get);
            && s'.ring == s.ring.(lastUsedIdx := (s.ring.lastUsedIdx + 1) % INDEX_SPAN)
            && s'.own == s0.own - {t} && s'.consumed == s0.consumed + 1 && s'.cons.Waiting?
            && forall i :: 0 <= i < |s0.ring.tasks| ==>
                 s'.ring.tasks[i] == if s0.ring.tasks[i] == Some(t) then None else s0.ring.tasks[i]
  {
    var t := s.cons.task;
    assert s0.own[t := Own([], Returning(s.cons.len))] - {t} == s0.own - {t};
  }

  class Vring {
    const num: nat
    const tasks: array<Option<Task>>
    const desc: array<Desc>
    const availRing: array<nat>
    const usedRing: array<UsedElem>
    var taskIdx: nat
    var vringIdx: map<Task, nat>  // the vring_idx field of the tasks
    var availIdx: nat
    var lastAvailIdx: nat
    var usedIdx: nat
    var lastUsedIdx: nat
    ghost var sys: Sys
    ghost var history: Run

    ghost function Snapshot(): Ring
      reads this, tasks, desc, availRing, usedRing
    {
      Ring(num, tasks[..], taskIdx, vringIdx, desc[..], availRing[..], availIdx, lastAvailIdx,
           usedRing[..], usedIdx, lastUsedIdx)
    }

    ghost predicate Valid()
      reads this, tasks, desc, availRing, usedRing
    {
      && availRing != desc as object && availRing != tasks as object && availRing != usedRing as object
      && Inv(sys) && sys.ring == Snapshot()
      && IsRun(history, Fresh(num)) && history.Last() == sys
    }

    constructor (num: nat)
      requires 0 < num < INDEX_SPAN && INDEX_SPAN % num == 0
      ensures Valid() && this.num == num && sys == Fresh(num)
      ensures fresh(tasks) && fresh(desc) && fresh(availRing) && fresh(usedRing)
    {
      this.num := num;
      tasks := new Option<Task>[num](_ => None);
      desc := new Desc[num](_ => Desc(0, 0, false, false, 0));
      availRing := new nat[num](_ => 0);
      usedRing := new UsedElem[num](_ => UsedElem(0, 0));
      taskIdx, vringIdx, availIdx, lastAvailIdx, usedIdx, lastUsedIdx := 0, map[], 0, 0, 0, 0;
      sys, history := Fresh(num), Run([Fresh(num)], []);
      new;
      FreshInv(num);
      assert Snapshot() == Fresh(num).ring;
    }

    // The ghost state takes the step that the statement before it has just taken.
    ghost method Advance(a: Action)
      requires Inv(sys) && IsRun(history, Fresh(num)) && history.Last() == sys
      requires Enabled(sys, a) && Apply(sys, a).ring == Snapshot()
      modifies this`sys, this`history
      ensures sys == Apply(old(sys), a) && history == Extend(old(history), a)
      ensures IsRun(history, Fresh(num)) && history.Last() == sys
      ensures Inv(sys) && sys.ring == Snapshot()
    {
      RunExtended(history, Fresh(num), a);
      sys, history := Apply(sys, a), Extend(history, a);
    }

    ghost method AdvanceTo(a: Action, s': Sys)
      requires Steps(sys, a, s') && IsRun(history, Fresh(num)) && history.Last() == sys && s'.ring == Snapshot()
      modifies this`sys, this`history
      ensures sys == s' && history.acts == old(history.acts) + [a]
      ensures IsRun(history, Fresh(num)) && history.Last() == sys && Inv(sys)
    {
      assert Ask(Topic.History, 0);
      Advance(a);
    }

    // The search of vring_put_task for an entry of tasks[] that is NULL.
    method FindSlot(ghost p: Pid, saved: nat) returns (idx: nat, full: bool)
      requires Valid() && p in sys.prod && sys.prod[p].Scan?
      requires sys.prod[p].saved == sys.prod[p].cur == saved
      modifies this`sys, this`history
      ensures Valid()
      ensures OnlyMoves(old(sys), sys, p,
                if full then Undoing(old(sys.prod)[p].task, old(sys.prod)[p].slots)
                else Claiming(old(sys.prod)[p].task, old(sys.prod)[p].slots, saved, idx))
      ensures !full ==> idx < tasks.Length && tasks[idx].None?
      ensures full ==> forall i :: 0 <= i < tasks.Length ==> tasks[i].Some?
    {
      ghost var s0, q0 := sys, sys.prod[p];
      ghost var q := q0;
      ProbeResult(sys, p);
      idx, full := saved, false;
      assert s0.prod == s0.prod[p := q];
      while tasks[idx].Some?
        invariant Valid() && idx < num && saved < num && num == tasks.Length
        invariant q == Scan(q0.task, q0.slots, saved, idx) && OnlyMoves(s0, sys, p, q)
        invariant Scanned(sys.ring.tasks, saved, idx)
        decreases Left(num, saved, idx)
      {
        ProbeResult(sys, p);
        ScannedNext(sys.ring.tasks, saved, idx);
        ghost var s1 := sys;
        Advance(Put(p));
        MovesTwice(s0, s1, sys, p, q, sys.prod[p]);
        q := sys.prod[p];
        idx := (idx + 1) % num;
        if idx == saved {
          full := true;
          return;
        }
      }
      ProbeResult(sys, p);
      ghost var s1 := sys;
      Advance(Put(p));
      MovesTwice(s0, s1, sys, p, q, sys.prod[p]);
    }

    // The link from the descriptor before it, then vring_set_desc.
    method SetDesc(task: Task, slots: seq<nat>)
      requires 0 < |slots| <= |task.vbufs|
      requires forall k :: 0 <= k < |slots| ==> slots[k] < desc.Length
      modifies desc
      ensures desc[..] == FillDesc(old(desc[..]), slots, task)
    {
      var i := |slots| - 1;
      var idx := slots[i];
      if i != 0 {
        desc[slots[i - 1]] := desc[slots[i - 1]].(next := idx);
      }
      desc[idx] := DescOf(task.vbufs[i], i != |task.vbufs| - 1, desc[idx].next);
    }

    method FillSlot(ghost p: Pid, ghost s0: Sys, task: Task, slots: seq<nat>)
      requires Valid() && p in sys.prod && sys.prod[p] == Filling(task, slots)
      requires PutSoFar(s0, sys, p, task, slots)
      modifies this`taskIdx, this`vringIdx, this`sys, this`history, desc
      ensures Valid() && p in sys.prod && sys.prod[p] == Next(task, slots) && PutSoFar(s0, sys, p, task, slots)
      ensures sys.ring.tasks == old(sys.ring.tasks)
    {
      ghost var s' := FillResult(s0, sys, p);
      var idx := slots[|slots| - 1];
      taskIdx := (idx + 1) % num;
      if |slots| == 1 {
        vringIdx := vringIdx[task := idx];
      }
      SetDesc(task, slots);
      AdvanceTo(Put(p), s');
    }

    // Give back the slots claimed so far and fail.
    method Rollback(ghost p: Pid, ghost s0: Sys, ghost task: Task, slots: seq<nat>)
      requires Valid() && p in sys.prod && sys.prod[p] == Undoing(task, slots)
      requires PutSoFar(s0, sys, p, task, slots)
      modifies this`sys, this`history, tasks
      ensures Valid() && p in sys.prod && sys.prod[p] == Idle && sys.own == s0.own
      ensures tasks[..] == s0.ring.tasks
      ensures sys == old(sys).(ring := old(sys).ring.(tasks := tasks[..]), prod := sys.prod, own := sys.own)
    {
      var j := 0;
      while j < |slots|
        invariant Valid() && j <= |slots| && p in sys.prod && sys.prod[p] == Undoing(task, slots[j..])
        invariant PutSoFar(s0, sys, p, task, slots[j..])
        invariant sys == old(sys).(ring := old(sys).ring.(tasks := tasks[..]), prod := sys.prod, own := sys.own)
      {
        ghost var s' := UndoResult(s0, sys, p);
        tasks[slots[j]] := None;
        assert slots[j..][1..] == slots[j + 1..];
        AdvanceTo(Put(p), s');
        j := j + 1;
      }
      ghost var s' := UndoResult(s0, sys, p);
      AdvanceTo(Put(p), s');
      assert sys.ring.tasks == s0.ring.tasks;
    }

    // vring_flush up to the reserved position.  Alone, each compare-and-swap succeeds at
    // its first attempt.
    method ReservePosition(ghost p: Pid, ghost task: Task, ghost slots: seq<nat>) returns (idx: nat)
      requires Valid() && p in sys.prod && sys.prod[p] == Flushing(task, slots)
      modifies this`lastAvailIdx, this`sys, this`history
      ensures Valid() && p in sys.prod && sys.prod[p] == Writing(task, slots, old(sys).reserved)
      ensures idx == old(sys).reserved % INDEX_SPAN
      ensures sys == old(sys).(ring := sys.ring, prod := sys.prod, reserved := old(sys).reserved + 1,
                own := old(sys).own[task := Own(slots, Reserved(p, old(sys).reserved))],
                order := old(sys).order + [task])
      ensures sys.ring == old(sys).ring.(lastAvailIdx := lastAvailIdx)
    {
      idx := lastAvailIdx;
      Advance(Put(p));
      ReserveResult(sys, p);
      lastAvailIdx := (idx + 1) % INDEX_SPAN;
      Advance(Put(p));
    }

    // The rest of vring_flush: write the entry, then make it visible.
    method PublishEntry(ghost p: Pid, task: Task, ghost slots: seq<nat>, idx: nat)
      requires Valid() && p in sys.prod && sys.prod[p] == Writing(task, slots, sys.published)
      requires idx == sys.published % INDEX_SPAN
      modifies this`availIdx, this`sys, this`history, availRing
      ensures Valid() && p in sys.prod && sys.prod[p] == Idle
      ensures sys == old(sys).(ring := sys.ring, prod := sys.prod, published := old(sys).published + 1,
                own := old(sys).own[task := Own(slots, Available(old(sys).published))])
      ensures sys.ring == old(sys).ring.(availIdx := availIdx, availRing := availRing[..])
    {
      ghost var s' := WriteResult(sys, p);
      availRing[idx % num] := vringIdx[task];
      AdvanceTo(Put(p), s');
      s' := PublishResult(sys, p);
      NextResidue(sys.published);
      availIdx := (idx + 1) % INDEX_SPAN;
      AdvanceTo(Put(p), s');
    }

    // Enter the loop of vring_put_task and search for a free slot.
    method NextSlot(ghost p: Pid, ghost s0: Sys, ghost task: Task, ghost slots: seq<nat>)
      returns (idx: nat, full: bool)
      requires Valid() && p in sys.prod && sys.prod[p] == Next(task, slots) && |slots| < |task.vbufs|
      requires PutSoFar(s0, sys, p, task, slots)
      modifies this`sys, this`history
      ensures Valid() && p in sys.prod && PutSoFar(s0, sys, p, task, slots)
      ensures !full ==> idx < tasks.Length && tasks[idx].None?
      ensures !full ==> sys.prod[p].Claiming? && sys.prod[p].cur == idx
      ensures !full ==> sys.prod[p].task == task && sys.prod[p].slots == slots
      ensures full ==> sys.prod[p] == Undoing(task, slots)
      ensures full ==> forall i :: 0 <= i < |sys.ring.tasks| ==> sys.ring.tasks[i].Some?
    {
      Advance(Put(p));
      idx, full := FindSlot(p, taskIdx);
    }

    method ClaimSlot(ghost p: Pid, ghost s0: Sys, task: Task, ghost slots: seq<nat>, idx: nat)
      requires Valid() && p in sys.prod && sys.prod[p].Claiming? && sys.prod[p].cur == idx
      requires sys.prod[p].task == task && sys.prod[p].slots == slots
      requires PutSoFar(s0, sys, p, task, slots) && idx < tasks.Length && tasks[idx].None?
      modifies this`sys, this`history, tasks
      ensures Valid() && p in sys.prod && sys.prod[p] == Filling(task, slots + [idx])
      ensures PutSoFar(s0, sys, p, task, slots + [idx])
    {
      ClaimResult(s0, sys, p);
      tasks[idx] := Some(task);
      Advance(Put(p));
    }

    // vring_put_task, run alone.
    method PutTask(ghost p: Pid, task: Task) returns (ok: bool)
      requires Valid() && Enabled(sys, Begin(p, task)) && sys.published == sys.reserved
      modifies this`taskIdx, this`vringIdx, this`lastAvailIdx, this`availIdx, this`sys, this`history
      modifies tasks, desc, availRing
      ensures Valid()
      ensures ok <==> |task.vbufs| <= |FreeSlots(old(tasks[..]))|
      ensures ok ==> task in sys.own && Published(old(sys), sys, task, sys.own[task].slots)
      ensures ok ==> Claims(old(tasks[..]), tasks[..], task, sys.own[task].slots)
      ensures !ok ==> tasks[..] == old(tasks[..]) && sys.own == old(sys.own)
      ensures !ok ==> availRing[..] == old(availRing[..]) && availIdx == old(availIdx)
      ensures !ok ==> lastAvailIdx == old(lastAvailIdx)
    {
      ghost var s0 := sys;
      Advance(Begin(p, task));
      var slots: seq<nat> := [];
      while |slots| < |task.vbufs|
        invariant |slots| <= |task.vbufs|
        invariant Valid() && p in sys.prod && sys.prod[p] == Next(task, slots)
        invariant PutSoFar(s0, sys, p, task, slots)
        invariant lastAvailIdx == old(lastAvailIdx) && availIdx == old(availIdx)
      {
        var idx, full := NextSlot(p, s0, task, slots);
        if full {
          ghost var held := sys;
          SlotsCounted(s0, sys, task, slots);
          Rollback(p, s0, task, slots);
          assert sys.ring.availRing == held.ring.availRing;
          return false;
        }
        ClaimSlot(p, s0, task, slots, idx);
        slots := slots + [idx];
        FillSlot(p, s0, task, slots);
      }
      SlotsCounted(s0, sys, task, slots);
      Advance(Put(p));
      var idx := ReservePosition(p, task, slots);
      PublishEntry(p, task, slots, idx);
      UpdatedTwice(s0.own, task, Own(slots, Building(p)), Own(slots, Reserved(p, s0.reserved)));
      UpdatedTwice(s0.own, task, Own(slots, Reserved(p, s0.reserved)), Own(slots, Available(s0.reserved)));
      ok := true;
    }

    // The used element at last_used_idx, and its task.
    method ReadUsed() returns (task: Task, elem: UsedElem)
      requires Valid() && sys.cons.Waiting? && !PollSeesEmpty(sys.ring)
      modifies this`sys, this`history
      ensures old(sys).consumed < old(sys).completed && task == old(sys).done[old(sys).consumed]
      ensures task in old(sys).own && old(sys).own[task].st == Used(old(sys).consumed, elem.len)
      ensures Valid() && sys.cons == Walking(task, elem.id, elem.len)
      ensures Freed(old(sys), sys, task, old(sys).own[task].slots, elem.len)
    {
      PollResult(sys);
      elem := usedRing[lastUsedIdx % num];
      task := tasks[elem.id].value;
      assert vringIdx[task] == elem.id;
      Advance(Get);
    }

    // The end of vring_get_task: the walk is over.
    method Retire(ghost s0: Sys, uIdx: nat)
      requires Valid() && sys.cons.Leaving? && Freed(s0, sys, sys.cons.task, [], sys.cons.len)
      requires SlotsAgree(s0.ring.tasks, s0.own) && uIdx == lastUsedIdx
      modifies this`lastUsedIdx, this`sys, this`history
      ensures Valid() && sys.cons.Waiting? && lastUsedIdx == (uIdx + 1) % INDEX_SPAN
      ensures sys.own == s0.own - {old(sys).cons.task} && sys.consumed == s0.consumed + 1
      ensures forall i :: 0 <= i < |s0.ring.tasks| ==>
        sys.ring.tasks[i] == if s0.ring.tasks[i] == Some(old(sys).cons.task) then None else s0.ring.tasks[i]
    {
      RetireResult(s0, sys);
      lastUsedIdx := (uIdx + 1) % INDEX_SPAN;
      Advance(Get);
    }

    // vring_get_task: the oldest completed task and the length the device reported, or
    // nothing.  Nothing is the answer exactly when no completion is pending or when as
    // many are pending as the ring has entries.
    method GetTask() returns (task: Option<Task>, usedBytes: nat)
      requires Valid() && sys.cons.Waiting?
      modifies this`lastUsedIdx, this`sys, this`history, tasks
      ensures Valid() && sys.cons.Waiting?
      ensures task.None? <==> Pending(old(sys)) == 0 || Pending(old(sys)) == num
      ensures task.None? ==> sys == old(sys)
      ensures task.Some? ==>
        && task.value == old(sys).done[old(sys).consumed]
        && task.value in old(sys).own && old(sys).own[task.value].st == Used(old(sys).consumed, usedBytes)
        && sys.own == old(sys).own - {task.value} && sys.consumed == old(sys).consumed + 1
      ensures task.Some? ==> forall i :: 0 <= i < tasks.Length ==>
        tasks[i] == if old(tasks[i]) == task then None else old(tasks[i])
    {
      ghost var s0 := sys;
      MaskedTest(sys);
      var uIdx := lastUsedIdx;
      if uIdx % num == usedIdx % num {
        Advance(Get);
        return None, 0;
      }
      var t, elem := ReadUsed();
      Walk(s0, t, elem.len, elem.id);
      Retire(s0, uIdx);
      task, usedBytes := Some(t), elem.len;
    }

    // Free one slot of the walk; the caller has looked at its NEXT flag.
    method FreeSlot(ghost s0: Sys, ghost task: Task, ghost len: nat, idx: nat, ghost rest: seq<nat>)
      returns (next: nat)
      requires Valid() && sys.cons == Walking(task, idx, len)
      requires SlotsAgree(s0.ring.tasks, s0.own) && Freed(s0, sys, task, rest, len)
      modifies this`sys, this`history, tasks
      ensures rest != [] && Valid() && Freed(s0, sys, task, rest[1..], len)
      ensures sys.cons == if |rest| > 1 then Walking(task, next, len) else Consumer.Leaving(task, len)
      ensures |rest| > 1 ==> next < desc.Length && (desc[next].more <==> |rest| > 2)
    {
      ReleaseResult(s0, sys, rest);
      assert tasks[idx].Some?;
      tasks[idx] := None;
      next := desc[idx].next;
      Advance(Get);
      if |rest| > 1 { ReleaseResult(s0, sys, rest[1..]); }
    }

    // The walk along the chain, by the NEXT flags.
    method Walk(ghost s0: Sys, ghost task: Task, ghost len: nat, descIdx: nat)
      requires Valid() && sys.cons == Walking(task, descIdx, len)
      requires SlotsAgree(s0.ring.tasks, s0.own)
      requires task in s0.own && Freed(s0, sys, task, s0.own[task].slots, len)
      modifies this`sys, this`history, tasks
      ensures Valid() && sys.cons == Consumer.Leaving(task, len) && Freed(s0, sys, task, [], len)
    {
      var idx: nat := descIdx;
      ghost var rest := s0.own[task].slots;
      ReleaseResult(s0, sys, rest);
      while desc[idx].more
        invariant Valid() && sys.cons == Walking(task, idx, len) && idx < num
        invariant Freed(s0, sys, task, rest, len)
        invariant rest != [] && (desc[idx].more <==> |rest| > 1)
        decreases |rest|
      {
        idx := FreeSlot(s0, task, len, idx, rest);
        rest := rest[1..];
      }
      idx := FreeSlot(s0, task, len, idx, rest);
      assert rest[1..] == [];
    }

    // The device side of the ring: take the next available chain, `seen` being
    // the device's own index.
    method DeviceTake(seen: nat) returns (head: nat)
      requires Valid() && Enabled(sys, Take) && seen == sys.dev.availIdx
      modifies this`sys, this`history
      ensures Valid() && sys == Apply(old(sys), Take) && head in sys.dev.held
    {
      NextAvailable(sys);
      head := availRing[seen % num];
      Advance(Take);
    }

    // The device side of the ring: complete a chain it holds.
    method DeviceComplete(head: nat, len: nat)
      requires Valid() && Enabled(sys, Complete(head, len))
      modifies this`usedIdx, this`sys, this`history, usedRing
      ensures Valid() && sys == Apply(old(sys), Complete(head, len))
    {
      usedRing[usedIdx % num] := UsedElem(head, len);
      usedIdx := (usedIdx + 1) % INDEX_SPAN;
      Advance(Complete(head, len));
    }
  }

  lemma SlotsCounted(s0: Sys, s: Sys, t: Task, slots: seq<nat>)
    requires Inv(s) && t in s.own && s.own[t].slots == slots
    requires Claims(s0.ring.tasks, s.ring.tasks, t, slots)
    ensures |FreeSlots(s0.ring.tasks)| == |FreeSlots(s.ring.tasks)| + |slots|
    ensures (forall i :: 0 <= i < |s.ring.tasks| ==> s.ring.tasks[i].Some?) ==> FreeSlots(s.ring.tasks) == {}
  {
    ClaimsCount(s0.ring.tasks, s.ring.tasks, t, slots);
  }
}
