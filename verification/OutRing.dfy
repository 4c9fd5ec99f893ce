/**
 The hand-off at the output ring: the poller thread enqueues completed requests and kicks an
 eventfd when the watermark of a waiting thread is reached; other threads may take requests
 out at any time.  Every shared access is one step.
 */
module OutRing {
  const CAPACITY: nat := 4095  // a ring of OUTRING_SIZE entries holds one less

  // Where the only enqueuer is inside push_to_outring.
  datatype Pusher =
    | Idle
    | Enqueued              // about to compare the watermark with 0
    | Positive              // about to read it again
    | Compared(mark: nat)   // about to compare it with the number of entries
    | Kicking               // about to write the eventfd

  const DELAY: nat := 100  // milliseconds that one poll may take

  // A call of virtio_completed: at least how many entries are wanted, for how long (for ever if
  // negative), and how long it has been waiting.
  datatype Wanted = Wanted(min: nat, timeout: int, elapsed: nat)

  // Where the only waiter is inside virtio_completed; n is the number of entries that it
  // counted last.
  datatype Waiter =
    | Away
    | Marked(w: Wanted)          // the watermark is set, about to count
    | Looked(w: Wanted, n: nat)  // not enough, about to look at the time
    | Polling(w: Wanted, n: nat) // blocked in poll
    | Readable(w: Wanted)        // poll returned because of the eventfd
    | Recount(w: Wanted)
    | Enough(w: Wanted, n: nat)  // about to reset the watermark
    | Returned(w: Wanted, n: nat)

  datatype State = State(count: nat, fd: nat, mark: nat, pusher: Pusher, waiter: Waiter)

  datatype Action =
    | Push                          // the next step of push_to_outring
    | Call(min: nat, timeout: int)  // virtio_completed is called
    | Wait                          // the next step of virtio_completed
    | Tick                          // poll gives up after its delay
    | Take                          // another thread dequeues

  predicate Waits(s: State) { !s.waiter.Away? && !s.waiter.Returned? }

  predicate Enabled(s: State, a: Action) {
    match a
    case Push => s.pusher.Idle? ==> s.count < CAPACITY
    case Call(min, _) => !Waits(s) && min > 0
    case Wait => Waits(s) && (s.waiter.Polling? ==> s.fd > 0)
    case Tick => s.waiter.Polling?
    case Take => s.count > 0
  }

  function PushStep(s: State): State {
    match s.pusher
    case Idle => s.(count := s.count + 1, pusher := Enqueued)
    case Enqueued => s.(pusher := if s.mark > 0 then Positive else Idle)
    case Positive => s.(pusher := Compared(s.mark))
    case Compared(m) => s.(pusher := if m <= s.count then Kicking else Idle)
    case Kicking => s.(fd := s.fd + 1, pusher := Idle)
  }

  function After(w: Wanted): Wanted { w.(elapsed := w.elapsed + DELAY) }

  predicate TimeIsUp(w: Wanted) { 0 <= w.timeout <= w.elapsed }

  // Giving up, the waiter leaves the watermark as it is.
  function WaitStep(s: State): State {
    match s.waiter
    case Away => s
    case Marked(w) => s.(waiter := if s.count >= w.min then Enough(w, s.count) else Looked(w, s.count))
    case Looked(w, n) => s.(waiter := if TimeIsUp(w) then Returned(w, n) else Polling(w, n))
    case Polling(w, _) => s.(waiter := Readable(w))
    case Readable(w) => s.(fd := 0, waiter := Recount(After(w)))
    case Recount(w) => s.(waiter := if s.count < w.min then Looked(w, s.count) else Enough(w, s.count))
    case Enough(w, n) => s.(mark := 0, waiter := Returned(w, n))
    case Returned(_, _) => s
  }

  function Apply(s: State, a: Action): State
    requires Enabled(s, a)
  {
    match a
    case Push => PushStep(s)
    case Call(min, timeout) => s.(mark := min, waiter := Marked(Wanted(min, timeout, 0)))
    case Wait => WaitStep(s)
    case Tick => s.(waiter := Recount(After(s.waiter.w)))
    case Take => s.(count := s.count - 1)
  }

  // The pusher has enqueued and will still look at the watermark, or has decided to kick.
  predicate OnItsWay(s: State) {
    s.pusher.Enqueued? || s.pusher.Positive? || s.pusher.Kicking?
    || (s.pusher.Compared? && s.pusher.mark == s.mark)
  }

  predicate Inv(s: State) {
    && s.count <= CAPACITY
    && (Waits(s) ==> s.waiter.w.min == s.mark && s.mark > 0)
    && ((s.waiter.Looked? || s.waiter.Polling?) && s.count >= s.mark ==> s.fd > 0 || OnItsWay(s))
    && (s.waiter.Readable? ==> s.fd > 0)
  }

  lemma StepKeeps(s: State, a: Action)
    requires Inv(s) && Enabled(s, a)
    ensures Inv(Apply(s, a))
  {
  }

  predicate IsRun(states: seq<State>, acts: seq<Action>) {
    && |states| == |acts| + 1 && states[0] == State(0, 0, 0, Idle, Away)
    && forall i :: 0 <= i < |acts| ==> Enabled(states[i], acts[i]) && states[i + 1] == Apply(states[i], acts[i])
  }

  lemma {:induction false} RunKeeps(states: seq<State>, acts: seq<Action>)
    requires IsRun(states, acts)
    ensures Inv(states[|acts|])
    decreases |acts|
  {
    if acts != [] {
      var n := |acts| - 1;
      RunKeeps(states[..n + 1], acts[..n]);
      StepKeeps(states[n], acts[n]);
    }
  }

  // The pusher running k steps alone.
  function Alone(s: State, k: nat): State {
    if k == 0 then s else PushStep(Alone(s, k - 1))
  }

  // No wake-up is lost: in every run, whenever the waiter is blocked although enough requests
  // wait in the ring, the eventfd is readable, or the enqueuer makes it readable within four
  // steps of its own, without enqueuing anything else.
  lemma NoLostWakeUp(states: seq<State>, acts: seq<Action>)
    requires IsRun(states, acts)
    ensures var s := states[|acts|];
            s.waiter.Polling? && s.count >= s.waiter.w.min ==>
              s.fd > 0 || exists k :: 1 <= k <= 4 && Alone(s, k).fd > 0 && Alone(s, k).count == s.count
  {
    RunKeeps(states, acts);
    var s := states[|acts|];
    if s.waiter.Polling? && s.count >= s.waiter.w.min && s.fd == 0 {
      KickReached(s);
      var k := if s.pusher.Enqueued? then 4 else if s.pusher.Positive? then 3 else if s.pusher.Compared? then 2 else 1;
      assert Alone(s, k).fd > 0;
    }
  }

  lemma KickReached(s: State)
    requires OnItsWay(s) && 0 < s.mark <= s.count
    ensures var k := if s.pusher.Enqueued? then 4 else if s.pusher.Positive? then 3 else if s.pusher.Compared? then 2 else 1;
            Alone(s, k).fd == s.fd + 1 && Alone(s, k).count == s.count
  {
    assert Alone(s, 1) == PushStep(s);
    assert Alone(s, 2) == PushStep(Alone(s, 1));
    assert Alone(s, 3) == PushStep(Alone(s, 2));
    assert Alone(s, 4) == PushStep(Alone(s, 3));
  }

  // -------------------------------------------------------------------------
  // What a waiter returns
  // -------------------------------------------------------------------------

  // In step i the waiter counts the entries.
  predicate Looks(states: seq<State>, acts: seq<Action>, i: nat)
    requires i < |states| && i < |acts|
  {
    acts[i].Wait? && (states[i].waiter.Marked? || states[i].waiter.Recount?)
  }

  // Step i is the last in which it does before step k, within the same call.
  predicate LastLook(states: seq<State>, acts: seq<Action>, i: nat, k: nat)
    requires k <= |acts| && k < |states|
  {
    i < k && Looks(states, acts, i) && forall j :: i < j < k ==> !Looks(states, acts, j) && !acts[j].Call?
  }

  predicate HasLooked(w: Waiter) { w.Looked? || w.Polling? || w.Enough? || w.Returned? }

  lemma {:induction false} CountIsLast(states: seq<State>, acts: seq<Action>, k: nat) returns (i: nat)
    requires IsRun(states, acts) && k <= |acts| && HasLooked(states[k].waiter)
    ensures LastLook(states, acts, i, k) && states[k].waiter.n == states[i].count
    ensures states[k].waiter.Enough? <==> Waits(states[k]) && states[k].waiter.n >= states[k].waiter.w.min
  {
    assert k > 0;
    var s, a := states[k - 1], acts[k - 1];
    assert Enabled(s, a) && states[k] == Apply(s, a);
    if Looks(states, acts, k - 1) {
      i := k - 1;
    } else {
      i := CountIsLast(states, acts, k - 1);
    }
  }

  // How often poll has returned in the call under way.
  function Polls(states: seq<State>, acts: seq<Action>, k: nat): nat
    requires k <= |acts| && k < |states|
  {
    if k == 0 || acts[k - 1].Call? then 0
    else
      var polled := acts[k - 1].Tick? || (acts[k - 1].Wait? && states[k - 1].waiter.Polling?);
      Polls(states, acts, k - 1) + if polled then 1 else 0
  }

  // A poll that found the eventfd readable counts as soon as it has been read.
  lemma {:induction false} ElapsedIs(states: seq<State>, acts: seq<Action>, k: nat)
    requires IsRun(states, acts) && k <= |acts| && !states[k].waiter.Away?
    ensures var w := states[k].waiter;
            && w.w.elapsed + (if w.Readable? then DELAY else 0) == DELAY * Polls(states, acts, k)
            && (w.w.timeout >= 0 ==> DELAY * Polls(states, acts, k) < w.w.timeout + DELAY || Polls(states, acts, k) == 0)
            && (w.Polling? ==> !TimeIsUp(w.w))
            && (w.Readable? ==> !TimeIsUp(w.w))
  {
    assert k > 0;
    var s, a := states[k - 1], acts[k - 1];
    assert Enabled(s, a) && states[k] == Apply(s, a);
    if !a.Call? { ElapsedIs(states, acts, k - 1); }
  }

  // In every run: a call returns the number of entries at its last look.  If these are enough
  // the watermark is reset.  They are too few only if the caller gave a timeout and the polls
  // of the call have taken that long, one poll less would not have, and the watermark stays.
  lemma ReturnsLastLook(states: seq<State>, acts: seq<Action>, k: nat) returns (i: nat)
    requires IsRun(states, acts) && k < |acts| && Waits(states[k]) && states[k + 1].waiter.Returned?
    ensures LastLook(states, acts, i, k) && states[k + 1].waiter.n == states[i].count
    ensures var r, polls := states[k + 1].waiter, Polls(states, acts, k);
            && r.w.min > 0
            && (if r.n >= r.w.min then states[k + 1].mark == 0
                else
                  && states[k + 1].mark == r.w.min
                  && 0 <= r.w.timeout <= 100 * polls && (polls > 0 ==> 100 * (polls - 1) < r.w.timeout))
  {
    assert Enabled(states[k], acts[k]) && states[k + 1] == Apply(states[k], acts[k]);
    i := CountIsLast(states, acts, k);
    ElapsedIs(states, acts, k);
    RunKeeps(states[..k + 1], acts[..k]);
  }

  // -------------------------------------------------------------------------
  // What a kick means
  // -------------------------------------------------------------------------

  // The current push has seen the watermark positive in state h, has read it in state j, and
  // is about to compare it with the number of entries.
  predicate Read(states: seq<State>, h: nat, j: nat, k: nat)
    requires k < |states|
  {
    && h < j < k && states[h].pusher.Enqueued? && states[h].mark > 0
    && states[j].pusher.Positive? && states[k].pusher == Compared(states[j].mark)
    && forall x :: h <= x <= k ==> !states[x].pusher.Idle?
  }

  // It has found at least so many entries in state i.
  predicate Reached(states: seq<State>, h: nat, j: nat, i: nat, k: nat)
    requires k < |states|
  {
    && i < k && Read(states, h, j, i) && states[j].mark <= states[i].count
    && forall x :: i <= x <= k ==> !states[x].pusher.Idle?
  }

  // What the pusher knows, in all states until it is done.
  lemma {:induction false} PusherKnows(states: seq<State>, acts: seq<Action>, k: nat) returns (h: nat, j: nat, i: nat)
    requires IsRun(states, acts) && k <= |acts|
    ensures states[k].pusher.Positive? ==> h < k && SeenPositive(states, h, k)
    ensures states[k].pusher.Compared? ==> Read(states, h, j, k)
    ensures states[k].pusher.Kicking? ==> Reached(states, h, j, i, k)
  {
    h, j, i := 0, 0, 0;
    if k > 0 {
      var s := states[k - 1];
      assert Enabled(s, acts[k - 1]) && states[k] == Apply(s, acts[k - 1]);
      h, j, i := PusherKnows(states, acts, k - 1);
      match s.pusher
      case Enqueued => h := k - 1;
      case Positive => j := k - 1;
      case Compared(_) => i := k - 1;
      case _ =>
    }
  }

  predicate SeenPositive(states: seq<State>, h: nat, k: nat)
    requires h < k < |states|
  {
    && states[h].pusher.Enqueued? && states[h].mark > 0
    && forall x :: h <= x <= k ==> !states[x].pusher.Idle?
  }

  // The eventfd is kicked only for a watermark that was set and is reached.
  lemma KicksOnlyIfReached(states: seq<State>, acts: seq<Action>, k: nat) returns (h: nat, j: nat, i: nat)
    requires IsRun(states, acts) && k < |acts| && states[k + 1].fd > states[k].fd
    ensures Reached(states, h, j, i, k)
  {
    assert Enabled(states[k], acts[k]) && states[k + 1] == Apply(states[k], acts[k]);
    h, j, i := PusherKnows(states, acts, k);
  }
}
