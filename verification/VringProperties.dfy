/** The safety arguments that the driver relies on, for every reachable state of the ring. */
module VringProperties {
  import opened Common
  import opened VringProtocol
  import opened VringInvariant
  import opened VringRefinement

  // -------------------------------------------------------------------------
  // Publication
  // -------------------------------------------------------------------------

  // Writing avail->ring[idx & mask] never touches an entry that the device has yet to read.
  lemma NoEntryOverwritten(s: Sys, p: Pid, k: nat)
    requires Inv(s) && p in s.prod && s.prod[p].Writing?
    requires s.taken <= k < s.published
    ensures At(k, s.ring.num) != At(s.prod[p].pos, s.ring.num)
    ensures Apply(s, Put(p)).ring.availRing[At(k, s.ring.num)] == s.ring.availRing[At(k, s.ring.num)]
  {
    AvailableFits(s);
    assert ProducerOk(s, p) && StatusOk(s, s.prod[p].task);
    EntriesDistinct(k, s.prod[p].pos, s.ring.num);
  }

  // Every position below avail->idx that the device has yet to read holds the head of
  // a chain that describes all buffers of its task.
  lemma PublishedIsChained(s: Sys, k: nat)
    requires Inv(s) && s.taken <= k < s.published
    ensures s.order[k] in s.own && Chained(s, s.order[k])
    ensures s.ring.availRing[At(k, s.ring.num)] == s.own[s.order[k]].slots[0]
  {
    assert StatusOk(s, s.order[k]);
  }

  // The position at avail->idx, once reserved, belongs to exactly one producer, and that
  // producer's compare-and-swap succeeds while everyone else's fails.
  lemma SomePublisherAdvances(s: Sys) returns (p: Pid)
    requires Inv(s) && s.published < s.reserved
    ensures p in s.prod && (s.prod[p].Writing? || s.prod[p].Publishing?)
    ensures s.prod[p].pos == s.published
    ensures s.prod[p].Publishing? ==> Apply(s, Put(p)).published == s.published + 1
    ensures forall q :: q in s.prod && q != p && s.prod[q].Publishing? ==> Apply(s, Put(q)) == s
  {
    var t := s.order[s.published];
    assert StatusOk(s, t);
    p := s.own[t].st.p;
    assert ProducerOk(s, p);
    forall q | q in s.prod && q != p && s.prod[q].Publishing?
      ensures Apply(s, Put(q)) == s
    {
      PublishTest(s, q);
      assert ProducerOk(s, q) && StatusOk(s, s.prod[q].task);
    }
  }

  // -------------------------------------------------------------------------
  // Chains
  // -------------------------------------------------------------------------

  // The slots met by following `next` from a head until a descriptor without the NEXT
  // flag; at most `fuel` of them.
  ghost function Follow(desc: seq<Desc>, head: nat, fuel: nat): seq<nat>
    decreases fuel
  {
    if fuel == 0 || head >= |desc| then []
    else if desc[head].more then [head] + Follow(desc, desc[head].next, fuel - 1)
    else [head]
  }

  lemma {:induction false} FollowTail(desc: seq<Desc>, slots: seq<nat>, fuel: nat)
    requires Tail(desc, slots) && 0 < |slots| <= fuel
    ensures Follow(desc, slots[0], fuel) == slots
  {
    if |slots| > 1 {
      var rest := slots[1..];
      forall k | 0 <= k < |rest| - 1 ensures desc[rest[k]].next == rest[k + 1] {
        assert rest[k] == slots[k + 1];
      }
      FollowTail(desc, rest, fuel - 1);
    }
  }

  // A task that the driver has published and has not begun to return.
  ghost predicate WithDevice(st: Status) { st.Available? || st.Held? || st.Used? }

  // From the vring_idx of a task in flight, `next` visits exactly `count` distinct slots that
  // belong to the task, and they describe its buffers in order.  The last one ends the chain.
  lemma ChainOwnership(s: Sys, t: Task)
    requires Inv(s) && t in s.own && WithDevice(s.own[t].st)
    ensures t in s.ring.vringIdx
    ensures var c := Follow(s.ring.desc, s.ring.vringIdx[t], s.ring.num);
            && 0 < |c| == |t.vbufs| && Distinct(c)
            && (forall k :: 0 <= k < |c| ==>
                  && c[k] < s.ring.num && s.ring.tasks[c[k]] == Some(t)
                  && s.ring.desc[c[k]].addr == t.vbufs[k].addr
                  && s.ring.desc[c[k]].len == t.vbufs[k].size % LENGTH_SPAN
                  && s.ring.desc[c[k]].write == t.vbufs[k].response)
            && !s.ring.desc[c[|c| - 1]].more
  {
    assert StatusOk(s, t);
    var slots := s.own[t].slots;
    Pigeonhole(slots, s.ring.num);
    FollowTail(s.ring.desc, slots, s.ring.num);
  }

  lemma ChainsDisjoint(s: Sys, t: Task, u: Task)
    requires Inv(s) && t in s.own && u in s.own && t != u
    ensures forall x :: x in s.own[t].slots ==> x !in s.own[u].slots
  {
    SlotsTell(s, t);
    SlotsTell(s, u);
  }

  lemma SlotsTell(s: Sys, t: Task)
    requires Inv(s) && t in s.own
    ensures forall x :: x in s.own[t].slots ==> x < s.ring.num && s.ring.tasks[x] == Some(t)
  {
    forall x | x in s.own[t].slots ensures x < s.ring.num && s.ring.tasks[x] == Some(t) {
      var k :| 0 <= k < |s.own[t].slots| && s.own[t].slots[k] == x;
    }
  }

  // One step of the walk frees one slot of the returned task, no slot of any other task,
  // and brings the walk closer to its end.
  lemma WalkFreesOwnSlots(s: Sys)
    requires Inv(s) && s.cons.Walking?
    ensures var t, s' := s.cons.task, Apply(s, Get);
            && s.ring.tasks[s.cons.cur] == Some(t)
            && s'.ring.tasks == s.ring.tasks[s.cons.cur := None]
            && |s'.own[t].slots| == |s.own[t].slots| - 1
            && (s'.cons.Leaving? <==> |s'.own[t].slots| == 0)
            && (s'.cons.Leaving? ==> forall i :: 0 <= i < s.ring.num ==> s'.ring.tasks[i] != Some(t))
  {
    var t := s.cons.task;
    ReleaseKeeps(s);
    assert s.own[t].slots[0] == s.cons.cur;
  }

  // Rolling back, among any number of other producers, clears table entries of the caller's
  // own task only, and ends when none is left.
  lemma RollbackFreesOwnSlots(s: Sys, p: Pid)
    requires Inv(s) && p in s.prod && s.prod[p].Undoing?
    ensures var Undoing(t, slots) := s.prod[p];
            var s' := Apply(s, Put(p));
            && (forall u :: u in s.own && u != t ==> u in s'.own && s'.own[u] == s.own[u])
            && (if slots == [] then
                  && s'.ring == s.ring && s'.prod[p] == Idle && t !in s'.own
                  && forall i :: 0 <= i < s.ring.num ==> s.ring.tasks[i] != Some(t)
                else
                  && slots[0] < s.ring.num && s.ring.tasks[slots[0]] == Some(t)
                  && s'.ring == s.ring.(tasks := s.ring.tasks[slots[0] := None])
                  && s'.prod[p] == Undoing(t, slots[1..]))
  {
    assert ProducerOk(s, p);
    SlotsTell(s, s.prod[p].task);
  }

  // -------------------------------------------------------------------------
  // The masked emptiness test
  // -------------------------------------------------------------------------

  // Completions that vring_get_task has not read.
  ghost function Pending(s: Sys): nat
    requires Inv(s)
  {
    s.completed - Read(s)
  }

  lemma SameResidue(a: nat, n: nat)
    requires n > 0
    ensures (a + n) % n == a % n
  {
    var q := a / n;
    assert a == n * q + a % n;
    var r := a % n;
    assert n * (q + 1) == n * q + n;
    assert a + n == n * (q + 1) + r;
    RemainderUnique(a + n, n, q + 1, r);
  }

  // The test cannot tell "nothing pending" from "num completions pending".
  lemma MaskedTest(s: Sys)
    requires Inv(s) && s.cons.Waiting?
    ensures PollSeesEmpty(s.ring) <==> Pending(s) == 0 || Pending(s) == s.ring.num
  {
    UsedFits(s, 1);
    var n := s.ring.num;
    if 0 < Pending(s) < n {
      EntriesDistinct(s.consumed, s.completed, n);
    } else if Pending(s) == n {
      ResidueOfResidue(s.consumed, n);
      ResidueOfResidue(s.completed, n);
      SameResidue(s.consumed, n);
    }
  }

  // Tasks with two buffers or more keep the ring at most half full of completions.
  lemma MaskedTestExact(s: Sys)
    requires Inv(s) && s.cons.Waiting?
    requires forall t :: t in s.own ==> 2 <= |t.vbufs|
    ensures PollSeesEmpty(s.ring) <==> Pending(s) == 0
  {
    UsedFits(s, 2);
    MaskedTest(s);
  }

  // Polling until the ring looks empty leaves no completed task behind.
  lemma DrainedWhenEmpty(s: Sys)
    requires Inv(s) && s.cons.Waiting? && PollSeesEmpty(s.ring)
    requires forall t :: t in s.own ==> 2 <= |t.vbufs|
    ensures forall t :: t in FlightOf(s.own).inFlight ==> FlightOf(s.own).inFlight[t] == None
  {
    MaskedTestExact(s);
    forall t | t in FlightOf(s.own).inFlight
      ensures FlightOf(s.own).inFlight[t] == None
    {
      assert StatusOk(s, t);
    }
  }

  // A completion that is pending is returned by the next call, oldest first.
  lemma PollTakesOldest(s: Sys)
    requires Inv(s) && s.cons.Waiting? && 0 < Pending(s) < s.ring.num
    ensures var t, s' := s.done[s.consumed], Apply(s, Get);
            && t in FlightOf(s.own).inFlight && s'.cons.Walking? && s'.cons.task == t
            && FlightOf(s.own).inFlight[t] == Some(s'.cons.len)
  {
    MaskedTest(s);
    NextUsed(s);
  }
}
