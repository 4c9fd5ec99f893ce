/**
 The driver side of a split virtqueue as a step system: any number of producers put
 tasks, one consumer gets completed tasks, and a device takes available chains in
 order and completes them in any order.  Every shared access of the driver that
 another thread can observe is one action.

 The 16-bit ring indices are kept as the driver keeps them (reduced modulo 65536);
 beside them stand unbounded counters and an ownership map that no action of the
 driver reads.  They only serve to say what the indices mean.
 */
module VringProtocol {
  import opened Common

  const INDEX_SPAN: nat := 0x1_0000        // uint16_t ring indices
  const LENGTH_SPAN: nat := 0x1_0000_0000  // uint32_t descriptor lengths

  type Pid = nat  // a thread that puts tasks

  datatype Buffer = Buffer(addr: nat, size: nat, response: bool)

  // `id` stands for the address of the task object.
  datatype Task = Task(id: nat, vbufs: seq<Buffer>)

  datatype Desc = Desc(addr: nat, len: nat, write: bool, more: bool, next: nat)

  datatype UsedElem = UsedElem(id: nat, len: nat)

  datatype Ring = Ring(
    num: nat,
    tasks: seq<Option<Task>>,
    taskIdx: nat,
    vringIdx: map<Task, nat>,
    desc: seq<Desc>,
    availRing: seq<nat>,
    availIdx: nat,
    lastAvailIdx: nat,
    usedRing: seq<UsedElem>,
    usedIdx: nat,
    lastUsedIdx: nat)

  // Where a thread is inside vring_put_task and vring_flush.
  datatype Producer =
    | Idle
    | Next(task: Task, slots: seq<nat>)
    | Scan(task: Task, slots: seq<nat>, saved: nat, cur: nat)
    | Claiming(task: Task, slots: seq<nat>, saved: nat, cur: nat)
    | Filling(task: Task, slots: seq<nat>)
    | Undoing(task: Task, slots: seq<nat>)
    | Flushing(task: Task, slots: seq<nat>)
    | Reserving(task: Task, slots: seq<nat>, idx: nat)
    | Writing(task: Task, slots: seq<nat>, pos: nat)
    | Publishing(task: Task, slots: seq<nat>, pos: nat)

  // Where the single consumer is inside vring_get_task.
  datatype Consumer =
    | Waiting
    | Walking(task: Task, cur: nat, len: nat)
    | Leaving(task: Task, len: nat)

  // What the device remembers: its own 16-bit position and the chain heads it works on.
  datatype Device = Device(availIdx: nat, held: set<nat>)

  datatype Status =
    | Building(p: Pid)
    | Reserved(p: Pid, pos: nat)
    | Available(pos: nat)
    | Held
    | Used(upos: nat, len: nat)
    | Returning(len: nat)

  datatype Own = Own(slots: seq<nat>, st: Status)

  datatype Sys = Sys(
    ring: Ring,
    prod: map<Pid, Producer>,
    cons: Consumer,
    dev: Device,
    // history, read by no action
    reserved: nat, published: nat, taken: nat, completed: nat, consumed: nat,
    own: map<Task, Own>,
    order: seq<Task>,   // the task at every reserved position
    done: seq<Task>)    // the task at every used position

  function At(pos: nat, num: nat): (i: nat)
    requires num > 0
    ensures i < num
  {
    (pos % INDEX_SPAN) % num
  }

  function DescOf(b: Buffer, more: bool, next: nat): Desc {
    Desc(b.addr, b.size % LENGTH_SPAN, b.response, more, next)
  }

  // -------------------------------------------------------------------------
  // The invariant
  // -------------------------------------------------------------------------

  // Only a power of two (at most 32768, as it is stored in 16 bits) divides 65536.
  ghost predicate Shape(r: Ring) {
    && 0 < r.num < INDEX_SPAN && INDEX_SPAN % r.num == 0
    && |r.tasks| == |r.desc| == |r.availRing| == |r.usedRing| == r.num
    && r.taskIdx < r.num
  }

  // The driver has finished with used position `consumed` once the walk has begun.
  function Read(s: Sys): nat {
    s.consumed + if s.cons.Waiting? then 0 else 1
  }

  ghost predicate Counters(s: Sys) {
    && s.ring.lastAvailIdx == s.reserved % INDEX_SPAN
    && s.ring.availIdx == s.published % INDEX_SPAN
    && s.dev.availIdx == s.taken % INDEX_SPAN
    && s.ring.usedIdx == s.completed % INDEX_SPAN
    && s.ring.lastUsedIdx == s.consumed % INDEX_SPAN
    && s.taken <= s.published <= s.reserved == |s.order|
    && Read(s) <= s.completed == |s.done|
  }

  // The slot table and the owners agree; different tasks own disjoint slots.
  ghost predicate SlotsAgree(tasks: seq<Option<Task>>, own: map<Task, Own>) {
    && (forall t :: t in own ==> Distinct(own[t].slots))
    && (forall t, k :: t in own && 0 <= k < |own[t].slots| ==>
          own[t].slots[k] < |tasks| && tasks[own[t].slots[k]] == Some(t))
    && (forall i :: 0 <= i < |tasks| && tasks[i].Some? ==>
          tasks[i].value in own && i in own[tasks[i].value].slots)
  }

  // The first n buffers stand in the descriptors of the first n slots, linked in order.
  ghost predicate Described(desc: seq<Desc>, slots: seq<nat>, vbufs: seq<Buffer>, n: nat) {
    && n <= |slots| && n <= |vbufs|
    && (forall k :: 0 <= k < n ==>
          && slots[k] < |desc|
          && desc[slots[k]] == DescOf(vbufs[k], k + 1 < |vbufs|, desc[slots[k]].next))
    && (forall k :: 0 <= k < n - 1 ==> desc[slots[k]].next == slots[k + 1])
  }

  ghost predicate Filled(s: Sys, t: Task, n: nat)
    requires t in s.own
  {
    && |s.own[t].slots| <= |t.vbufs|
    && Described(s.ring.desc, s.own[t].slots, t.vbufs, n)
    && (n > 0 ==> t in s.ring.vringIdx && s.ring.vringIdx[t] == s.own[t].slots[0])
  }

  ghost predicate Chained(s: Sys, t: Task)
    requires t in s.own
  {
    0 < |t.vbufs| == |s.own[t].slots| && Filled(s, t, |t.vbufs|)
  }

  // What is left of a chain while the consumer releases it from its head.
  ghost predicate Tail(desc: seq<Desc>, slots: seq<nat>) {
    && (forall k :: 0 <= k < |slots| ==> slots[k] < |desc| && (desc[slots[k]].more <==> k + 1 < |slots|))
    && (forall k :: 0 <= k < |slots| - 1 ==> desc[slots[k]].next == slots[k + 1])
  }

  ghost predicate ProducerOk(s: Sys, p: Pid)
    requires Shape(s.ring) && p in s.prod
  {
    var q := s.prod[p];
    q.Idle? || (
      && q.task in s.own
      && s.own[q.task].slots == q.slots
      && 0 < |q.task.vbufs|
      && (if q.Writing? || q.Publishing? then s.own[q.task].st == Reserved(p, q.pos)
          else s.own[q.task].st == Building(p))
      && match q
         case Idle => true
         case Next(t, slots) => Filled(s, t, |slots|)
         case Scan(t, slots, saved, cur) =>
           saved < s.ring.num && cur < s.ring.num && |slots| < |t.vbufs| && Filled(s, t, |slots|)
         case Claiming(t, slots, saved, cur) =>
           saved < s.ring.num && cur < s.ring.num && |slots| < |t.vbufs| && Filled(s, t, |slots|)
         case Filling(t, slots) => 0 < |slots| && Filled(s, t, |slots| - 1)
         case Undoing(t, slots) => true
         case Flushing(t, slots) => Chained(s, t)
         case Reserving(t, slots, idx) => Chained(s, t)
         case Writing(t, slots, pos) => Chained(s, t)
         case Publishing(t, slots, pos) =>
           Chained(s, t) && s.ring.availRing[At(pos, s.ring.num)] == slots[0])
  }

  ghost predicate StatusOk(s: Sys, t: Task)
    requires Shape(s.ring) && Counters(s) && t in s.own
  {
    match s.own[t].st
    case Building(p) => p in s.prod && !s.prod[p].Idle? && s.prod[p].task == t
    case Reserved(p, pos) =>
      && p in s.prod && !s.prod[p].Idle? && s.prod[p].task == t
      && s.published <= pos < s.reserved && s.order[pos] == t
    case Available(pos) =>
      && Chained(s, t)
      && s.taken <= pos < s.published && s.order[pos] == t
      && s.ring.availRing[At(pos, s.ring.num)] == s.own[t].slots[0]
    case Held => Chained(s, t) && s.own[t].slots[0] in s.dev.held
    case Used(u, len) =>
      && Chained(s, t)
      && Read(s) <= u < s.completed && s.done[u] == t
      && s.ring.usedRing[At(u, s.ring.num)] == UsedElem(s.own[t].slots[0], len)
    case Returning(len) =>
      !s.cons.Waiting? && s.cons.task == t && s.cons.len == len
  }

  ghost predicate PositionsOk(s: Sys)
    requires Counters(s)
  {
    && (forall k :: s.taken <= k < s.published ==>
          s.order[k] in s.own && s.own[s.order[k]].st == Available(k))
    && (forall k :: s.published <= k < s.reserved ==>
          && s.order[k] in s.own && s.own[s.order[k]].st.Reserved?
          && s.own[s.order[k]].st.pos == k)
    && (forall u :: Read(s) <= u < s.completed ==>
          && s.done[u] in s.own && s.own[s.done[u]].st.Used?
          && s.own[s.done[u]].st.upos == u)
  }

  ghost predicate DeviceOk(s: Sys)
    requires Shape(s.ring)
  {
    forall h :: h in s.dev.held ==>
      && h < s.ring.num && s.ring.tasks[h].Some?
      && s.ring.tasks[h].value in s.own
      && s.own[s.ring.tasks[h].value].st == Held
      && |s.own[s.ring.tasks[h].value].slots| > 0
      && s.own[s.ring.tasks[h].value].slots[0] == h
  }

  ghost predicate ConsumerOk(s: Sys) {
    match s.cons
    case Waiting => true
    case Walking(t, cur, len) =>
      && t in s.own && s.own[t].st == Returning(len)
      && |s.own[t].slots| > 0 && s.own[t].slots[0] == cur
      && Tail(s.ring.desc, s.own[t].slots)
    case Leaving(t, len) =>
      t in s.own && s.own[t] == Own([], Returning(len))
  }

  ghost predicate Inv(s: Sys) {
    && Shape(s.ring)
    && Counters(s)
    && SlotsAgree(s.ring.tasks, s.own)
    && (forall p {:trigger ProducerOk(s, p)} :: p in s.prod ==> ProducerOk(s, p))
    && (forall t {:trigger StatusOk(s, t)} :: t in s.own ==> StatusOk(s, t))
    && PositionsOk(s)
    && DeviceOk(s)
    && ConsumerOk(s)
  }

  // -------------------------------------------------------------------------
  // The actions
  // -------------------------------------------------------------------------

  datatype Action =
    | Begin(p: Pid, task: Task)      // vring_put_task is called
    | Put(p: Pid)                    // the next step of vring_put_task or vring_flush
    | Get                            // the next step of vring_get_task
    | Take                           // the device reads one avail entry
    | Complete(head: nat, len: nat)  // the device writes one used entry

  ghost predicate Enabled(s: Sys, a: Action) {
    match a
    case Begin(p, t) => (p !in s.prod || s.prod[p].Idle?) && t !in s.own && 0 < |t.vbufs|
    case Put(p) => p in s.prod && !s.prod[p].Idle?
    case Get => true
    case Take => s.dev.availIdx != s.ring.availIdx
    case Complete(h, len) => h in s.dev.held && len < LENGTH_SPAN
  }

  ghost function WithSlots(s: Sys, t: Task, slots: seq<nat>): map<Task, Own>
    requires t in s.own
  {
    s.own[t := s.own[t].(slots := slots)]
  }

  ghost function WithStatus(s: Sys, t: Task, st: Status): map<Task, Own>
    requires t in s.own
  {
    s.own[t := s.own[t].(st := st)]
  }

  ghost function ApplyBegin(s: Sys, p: Pid, t: Task): Sys {
    s.(prod := s.prod[p := Next(t, [])], own := s.own[t := Own([], Building(p))])
  }

  ghost function ApplyNextBuffer(s: Sys, p: Pid): Sys
    requires p in s.prod && s.prod[p].Next?
  {
    var Next(t, slots) := s.prod[p];
    var q := if |slots| == |t.vbufs| then Flushing(t, slots)
             else Scan(t, slots, s.ring.taskIdx, s.ring.taskIdx);
    s.(prod := s.prod[p := q])
  }

  ghost function ApplyProbe(s: Sys, p: Pid): Sys
    requires Inv(s) && p in s.prod && s.prod[p].Scan?
  {
    assert ProducerOk(s, p);
    var Scan(t, slots, saved, cur) := s.prod[p];
    var succ := (cur + 1) % s.ring.num;
    var q := if s.ring.tasks[cur].None? then Claiming(t, slots, saved, cur)
             else if succ == saved then Undoing(t, slots)
             else Scan(t, slots, saved, succ);
    s.(prod := s.prod[p := q])
  }

  ghost function ApplyClaim(s: Sys, p: Pid): Sys
    requires Inv(s) && p in s.prod && s.prod[p].Claiming?
  {
    assert ProducerOk(s, p);
    var Claiming(t, slots, saved, cur) := s.prod[p];
    if s.ring.tasks[cur].None? then
      s.(ring := s.ring.(tasks := s.ring.tasks[cur := Some(t)]),
         prod := s.prod[p := Filling(t, slots + [cur])],
         own := WithSlots(s, t, slots + [cur]))
    else
      s.(prod := s.prod[p := Scan(t, slots, saved, cur)])
  }

  // Both writes touch descriptors of slots that the producer owns.
  ghost function FillDesc(desc: seq<Desc>, slots: seq<nat>, t: Task): (r: seq<Desc>)
    requires 0 < |slots| <= |t.vbufs|
    requires forall k :: 0 <= k < |slots| ==> slots[k] < |desc|
    ensures |r| == |desc|
  {
    var i := |slots| - 1;
    var idx := slots[i];
    var linked := if i == 0 then desc
                  else desc[slots[i - 1] := desc[slots[i - 1]].(next := idx)];
    linked[idx := DescOf(t.vbufs[i], i != |t.vbufs| - 1, linked[idx].next)]
  }

  ghost function ApplyFill(s: Sys, p: Pid): Sys
    requires Inv(s) && p in s.prod && s.prod[p].Filling?
  {
    assert ProducerOk(s, p);
    var Filling(t, slots) := s.prod[p];
    var idx := slots[|slots| - 1];
    s.(ring := s.ring.(
         taskIdx := (idx + 1) % s.ring.num,
         vringIdx := if |slots| == 1 then s.ring.vringIdx[t := idx] else s.ring.vringIdx,
         desc := FillDesc(s.ring.desc, slots, t)),
       prod := s.prod[p := Next(t, slots)])
  }

  ghost function ApplyUndo(s: Sys, p: Pid): Sys
    requires Inv(s) && p in s.prod && s.prod[p].Undoing?
  {
    assert ProducerOk(s, p);
    var Undoing(t, slots) := s.prod[p];
    if slots == [] then
      s.(prod := s.prod[p := Idle], own := s.own - {t})
    else
      s.(ring := s.ring.(tasks := s.ring.tasks[slots[0] := None]),
         prod := s.prod[p := Undoing(t, slots[1..])],
         own := WithSlots(s, t, slots[1..]))
  }

  ghost function ApplyReadAvailIdx(s: Sys, p: Pid): Sys
    requires p in s.prod && s.prod[p].Flushing?
  {
    var Flushing(t, slots) := s.prod[p];
    s.(prod := s.prod[p := Reserving(t, slots, s.ring.lastAvailIdx)])
  }

  ghost function ApplyReserve(s: Sys, p: Pid): Sys
    requires Inv(s) && p in s.prod && s.prod[p].Reserving?
  {
    assert ProducerOk(s, p);
    var Reserving(t, slots, idx) := s.prod[p];
    if s.ring.lastAvailIdx == idx then
      s.(ring := s.ring.(lastAvailIdx := (idx + 1) % INDEX_SPAN),
         prod := s.prod[p := Writing(t, slots, s.reserved)],
         reserved := s.reserved + 1,
         own := WithStatus(s, t, Reserved(p, s.reserved)),
         order := s.order + [t])
    else
      s.(prod := s.prod[p := Flushing(t, slots)])
  }

  ghost function ApplyWriteEntry(s: Sys, p: Pid): Sys
    requires Inv(s) && p in s.prod && s.prod[p].Writing?
  {
    assert ProducerOk(s, p);
    var Writing(t, slots, pos) := s.prod[p];
    s.(ring := s.ring.(availRing := s.ring.availRing[At(pos, s.ring.num) := s.ring.vringIdx[t]]),
       prod := s.prod[p := Publishing(t, slots, pos)])
  }

  ghost function ApplyPublish(s: Sys, p: Pid): Sys
    requires Inv(s) && p in s.prod && s.prod[p].Publishing?
  {
    assert ProducerOk(s, p);
    var Publishing(t, slots, pos) := s.prod[p];
    if s.ring.availIdx == pos % INDEX_SPAN then
      s.(ring := s.ring.(availIdx := (pos + 1) % INDEX_SPAN),
         prod := s.prod[p := Idle],
         published := s.published + 1,
         own := WithStatus(s, t, Available(pos)))
    else
      s
  }

  ghost predicate PollSeesEmpty(r: Ring)
    requires r.num > 0
  {
    r.lastUsedIdx % r.num == r.usedIdx % r.num
  }

  // The element at last_used_idx is the oldest completion that was not read yet.
  lemma NextUsed(s: Sys)
    requires Inv(s) && s.cons.Waiting? && !PollSeesEmpty(s.ring)
    ensures s.consumed < s.completed
    ensures var elem := s.ring.usedRing[s.ring.lastUsedIdx % s.ring.num];
            var t := s.done[s.consumed];
            && elem.id < s.ring.num && s.ring.tasks[elem.id] == Some(t)
            && t in s.own && s.own[t].st == Used(s.consumed, elem.len)
            && Chained(s, t) && s.own[t].slots[0] == elem.id
            && t in s.ring.vringIdx && s.ring.vringIdx[t] == elem.id
  {
    var t := s.done[s.consumed];
    assert StatusOk(s, t);
  }

  ghost function ApplyPoll(s: Sys): Sys
    requires Inv(s) && s.cons.Waiting?
  {
    if PollSeesEmpty(s.ring) then s
    else
      NextUsed(s);
      var elem := s.ring.usedRing[s.ring.lastUsedIdx % s.ring.num];
      var task := s.ring.tasks[elem.id].value;
      assert s.ring.vringIdx[task] == elem.id;  // the assertion of vring_get_task
      s.(cons := Walking(task, elem.id, elem.len), own := WithStatus(s, task, Returning(elem.len)))
  }

  // Frees a slot and reads where the chain goes on; VringReuse is about what may come in between.
  ghost function ApplyRelease(s: Sys): Sys
    requires Inv(s) && s.cons.Walking?
  {
    var Walking(t, cur, len) := s.cons;
    assert s.own[t].slots[0] == cur;
    assert s.ring.tasks[cur] == Some(t);  // the assertion inside the walk
    s.(ring := s.ring.(tasks := s.ring.tasks[cur := None]),
       cons := if s.ring.desc[cur].more then Walking(t, s.ring.desc[cur].next, len) else Consumer.Leaving(t, len),
       own := WithSlots(s, t, s.own[t].slots[1..]))
  }

  ghost function ApplyRetire(s: Sys): Sys
    requires s.cons.Leaving?
  {
    s.(ring := s.ring.(lastUsedIdx := (s.ring.lastUsedIdx + 1) % INDEX_SPAN),
       cons := Waiting,
       consumed := s.consumed + 1,
       own := s.own - {s.cons.task})
  }

  lemma NextAvailable(s: Sys)
    requires Inv(s) && s.dev.availIdx != s.ring.availIdx
    ensures s.taken < s.published
    ensures var h := s.ring.availRing[s.dev.availIdx % s.ring.num];
            var t := s.order[s.taken];
            && h < s.ring.num && s.ring.tasks[h] == Some(t)
            && t in s.own && s.own[t].st == Available(s.taken)
            && Chained(s, t) && s.own[t].slots[0] == h
  {
    var t := s.order[s.taken];
    assert StatusOk(s, t);
  }

  ghost function ApplyTake(s: Sys): Sys
    requires Inv(s) && s.dev.availIdx != s.ring.availIdx
  {
    NextAvailable(s);
    var h := s.ring.availRing[s.dev.availIdx % s.ring.num];
    s.(dev := Device((s.dev.availIdx + 1) % INDEX_SPAN, s.dev.held + {h}),
       taken := s.taken + 1,
       own := WithStatus(s, s.ring.tasks[h].value, Held))
  }

  ghost function ApplyComplete(s: Sys, h: nat, len: nat): Sys
    requires Inv(s) && h in s.dev.held
  {
    var t := s.ring.tasks[h].value;
    s.(ring := s.ring.(usedRing := s.ring.usedRing[s.ring.usedIdx % s.ring.num := UsedElem(h, len)],
                       usedIdx := (s.ring.usedIdx + 1) % INDEX_SPAN),
       dev := s.dev.(held := s.dev.held - {h}),
       completed := s.completed + 1,
       own := WithStatus(s, t, Used(s.completed, len)),
       done := s.done + [t])
  }

  ghost function ApplyPut(s: Sys, p: Pid): Sys
    requires Inv(s) && p in s.prod
  {
    match s.prod[p]
    case Idle => s
    case Next(_, _) => ApplyNextBuffer(s, p)
    case Scan(_, _, _, _) => ApplyProbe(s, p)
    case Claiming(_, _, _, _) => ApplyClaim(s, p)
    case Filling(_, _) => ApplyFill(s, p)
    case Undoing(_, _) => ApplyUndo(s, p)
    case Flushing(_, _) => ApplyReadAvailIdx(s, p)
    case Reserving(_, _, _) => ApplyReserve(s, p)
    case Writing(_, _, _) => ApplyWriteEntry(s, p)
    case Publishing(_, _, _) => ApplyPublish(s, p)
  }

  ghost function ApplyGet(s: Sys): Sys
    requires Inv(s)
  {
    match s.cons
    case Waiting => ApplyPoll(s)
    case Walking(_, _, _) => ApplyRelease(s)
    case Leaving(_, _) => ApplyRetire(s)
  }

  ghost function Apply(s: Sys, a: Action): Sys
    requires Inv(s) && Enabled(s, a)
  {
    match a
    case Begin(p, t) => ApplyBegin(s, p, t)
    case Put(p) => ApplyPut(s, p)
    case Get => ApplyGet(s)
    case Take => ApplyTake(s)
    case Complete(h, len) => ApplyComplete(s, h, len)
  }

  // -------------------------------------------------------------------------
  // Counting: what is outstanding never exceeds the number of slots
  // -------------------------------------------------------------------------

  // Positions fewer than num apart never share a ring entry.
  lemma EntriesDistinct(a: nat, b: nat, num: nat)
    requires 0 < num < INDEX_SPAN && INDEX_SPAN % num == 0
    requires a < b < a + num
    ensures At(a, num) != At(b, num)
  {
    ResidueOfResidue(a, num);
    ResidueOfResidue(b, num);
    var k := b / num - a / num;
    assert num * k == num * (b / num) - num * (a / num);
    MultipleOrder(num, k);
  }

  lemma MultipleOrder(n: int, k: int)
    requires n > 0
    ensures k >= 1 ==> n * k >= n
    ensures k <= -1 ==> n * k <= -n
    ensures k == 0 ==> n * k == 0
  {
  }

  lemma ResidueOfResidue(a: nat, num: nat)
    requires num > 0 && INDEX_SPAN % num == 0
    ensures (a % INDEX_SPAN) % num == a % num
  {
    var q, m, r := INDEX_SPAN / num, a / INDEX_SPAN, a % INDEX_SPAN;
    var k := r / num;
    assert INDEX_SPAN == num * q;
    assert INDEX_SPAN * m == num * (q * m);
    assert num * (q * m + k) == num * (q * m) + num * k;
    RemainderUnique(a, num, q * m + k, r % num);
  }

  lemma RemainderUnique(a: int, d: int, q: int, r: int)
    requires 0 <= r < d && a == d * q + r
    ensures a % d == r
  {
    var k := q - a / d;
    assert d * k == d * q - d * (a / d);
    MultipleOrder(d, k);
  }

  // All the slots of a list of tasks, one after the other.
  ghost function AllSlots(own: map<Task, Own>, ts: seq<Task>): seq<nat>
    requires forall i :: 0 <= i < |ts| ==> ts[i] in own
  {
    if ts == [] then [] else own[ts[0]].slots + AllSlots(own, ts[1..])
  }

  lemma {:induction false} AllSlotsOwned(own: map<Task, Own>, ts: seq<Task>, x: nat)
    requires forall i :: 0 <= i < |ts| ==> ts[i] in own
    requires x in AllSlots(own, ts)
    ensures exists i :: 0 <= i < |ts| && x in own[ts[i]].slots
  {
    if x in own[ts[0]].slots {
    } else {
      AllSlotsOwned(own, ts[1..], x);
      var i :| 0 <= i < |ts[1..]| && x in own[ts[1..][i]].slots;
      assert ts[i + 1] == ts[1..][i];
    }
  }

  // The heart of the counting argument: tasks that hold at least m slots each, all at
  // the same time, number at most num / m.
  lemma {:induction false} TasksFit(tasks: seq<Option<Task>>, own: map<Task, Own>, ts: seq<Task>, m: nat)
    requires SlotsAgree(tasks, own) && Distinct(ts)
    requires forall i :: 0 <= i < |ts| ==> ts[i] in own && m <= |own[ts[i]].slots|
    ensures |AllSlots(own, ts)| >= m * |ts| && Distinct(AllSlots(own, ts))
    ensures m * |ts| <= |tasks|
  {
    var all := AllSlots(own, ts);
    if ts != [] {
      TasksFit(tasks, own, ts[1..], m);
      assert ts[0] !in ts[1..];
      var first, rest := own[ts[0]].slots, AllSlots(own, ts[1..]);
      forall x, y | x in first && y in rest ensures x != y {
        AllSlotsOwned(own, ts[1..], y);
        var i :| 0 <= i < |ts[1..]| && y in own[ts[1..][i]].slots;
        assert tasks[y] == Some(ts[1..][i]);
      }
      DistinctConcat(first, rest);
      assert m * |ts| == m + m * |ts[1..]|;
    }
    forall k | 0 <= k < |all| ensures all[k] < |tasks| {
      AllSlotsOwned(own, ts, all[k]);
    }
    Pigeonhole(all, |tasks|);
  }

  // "Ring cannot be full if we previously allocated descs": every position that is
  // reserved and that the device has not taken holds a slot of its own.
  lemma AvailableFits(s: Sys)
    requires Inv(s)
    ensures s.reserved - s.taken <= s.ring.num
  {
    var ts := s.order[s.taken..];
    forall i | 0 <= i < |ts| ensures ts[i] in s.own && 1 <= |s.own[ts[i]].slots| {
      assert ts[i] == s.order[s.taken + i];
      assert StatusOk(s, ts[i]);
      if s.own[ts[i]].st.Reserved? { assert ProducerOk(s, s.own[ts[i]].st.p); }
    }
    forall i, j | 0 <= i < j < |ts| ensures ts[i] != ts[j] {
      assert ts[i] == s.order[s.taken + i] && ts[j] == s.order[s.taken + j];
    }
    TasksFit(s.ring.tasks, s.own, ts, 1);
  }

  lemma UsedFits(s: Sys, m: nat)
    requires Inv(s)
    requires m <= 1 || forall t :: t in s.own ==> m <= |t.vbufs|
    ensures m * (s.completed - Read(s)) <= s.ring.num
  {
    var ts := s.done[Read(s)..];
    forall i | 0 <= i < |ts| ensures ts[i] in s.own && m <= |s.own[ts[i]].slots| {
      assert ts[i] == s.done[Read(s) + i];
      assert StatusOk(s, ts[i]);
    }
    forall i, j | 0 <= i < j < |ts| ensures ts[i] != ts[j] {
      assert ts[i] == s.done[Read(s) + i] && ts[j] == s.done[Read(s) + j];
    }
    TasksFit(s.ring.tasks, s.own, ts, m);
  }
}
