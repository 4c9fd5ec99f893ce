// Small vocabulary shared by every model: optional values and sequences without repetition.
module Common {
  datatype Option<+T> = None | Some(value: T)

  // Long definitions stand behind a trigger: `forall k {:trigger Ask(topic, k)} :: Ask(topic, k) ==> ...`
  // means the same as what it guards, but only a proof that mentions `Ask(topic, 0)` sees it. The
  // topic keeps one such definition shut while another is open.
  datatype Topic =
    | Geometry    // where the parts of a request lie in blocks and buffers
    | Splicing    // how the disk looks after a write
    | Orders      // what the task of a command tells the device
    | Answers     // what a completed task holds
    | Buffers     // what memory tells the device on the ring
    | Requests    // every outstanding request and its ticket
    | Tickets
    | Frames      // what a step left untouched
    | Lending
    | Ownership
    | History

  predicate Ask(topic: Topic, k: int) { true }

  function Min(a: nat, b: nat): nat { if a <= b then a else b }

  ghost predicate Distinct<T>(s: seq<T>) {
    forall i, j :: 0 <= i < j < |s| ==> s[i] != s[j]
  }

  lemma DistinctConcat<T>(a: seq<T>, b: seq<T>)
    requires Distinct(a) && Distinct(b)
    requires forall x, y :: x in a && y in b ==> x != y
    ensures Distinct(a + b)
  {
    forall i, j | 0 <= i < j < |a + b| ensures (a + b)[i] != (a + b)[j] {
      if i < |a| <= j {
        assert (a + b)[i] in a && (a + b)[j] in b;
      }
    }
  }

  lemma {:induction false} DistinctCardinality<T>(s: seq<T>)
    requires Distinct(s)
    ensures |set x | x in s| == |s|
  {
    if s == [] {
    } else {
      var tail := s[1..];
      DistinctCardinality(tail);
      assert (set x | x in s) == (set x | x in tail) + {s[0]};
      assert s[0] !in tail;
    }
  }

  function Below(n: nat): (r: set<nat>)
    ensures |r| == n
    ensures forall i: nat :: i in r <==> i < n
  {
    if n == 0 then {} else Below(n - 1) + {n - 1}
  }

  // The counting argument: distinct indices below a bound are no more than the bound.
  lemma Pigeonhole(s: seq<nat>, bound: nat)
    requires Distinct(s)
    requires forall i :: 0 <= i < |s| ==> s[i] < bound
    ensures |s| <= bound
  {
    DistinctCardinality(s);
    SubsetCardinality((set x | x in s), Below(bound));
  }

  lemma {:induction false} SubsetCardinality<T>(a: set<T>, b: set<T>)
    requires a <= b
    ensures |a| <= |b|
  {
    if a != {} {
      var x :| x in a;
      SubsetCardinality(a - {x}, b - {x});
    }
  }

  lemma UpdatedTwice<K, V>(m: map<K, V>, k: K, v: V, w: V)
    ensures m[k := v][k := w] == m[k := w]
  {
  }

  lemma RemovedThenPut<K, V>(m: map<K, V>, k: K, v: V)
    requires k in m
    ensures (m - {k})[k := v] == m[k := v]
    ensures m[k] == v ==> m[k := v] == m
  {
  }
}
