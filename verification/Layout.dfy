/**
 The buffers that each kind of command carries: how large they are, which way they go, and
 which part of them belongs to the request.  Every list stays within the limit its task was
 created with, puts all buffers that the device reads before those that it writes, and moves
 exactly the bytes of its command.
 */
module Layout {
  import opened Common
  import opened Blocks
  import opened AsyncSpec
  import Cdb
  import R = VringProtocol
  import W = AsyncProtocol
  import J = AsyncOverRing

  const RESPONSE_SIZE: nat := 108  // virtio_scsi_cmd_resp

  // `copy` marks a buffer that the library allocates; others are part of the user's, from `base`.
  datatype Spot = Spot(size: nat, response: bool, copy: bool, base: nat, from: nat, to: nat)

  function Req(): Spot { Spot(Cdb.REQUEST_SIZE, false, true, 0, 0, Cdb.REQUEST_SIZE) }

  function Resp(): Spot { Spot(RESPONSE_SIZE, true, true, 0, 0, RESPONSE_SIZE) }

  function Part(bs: nat, response: bool, from: nat, to: nat): Spot { Spot(bs, response, true, 0, from, to) }

  function User(base: nat, size: nat, response: bool): Spot { Spot(size, response, false, base, 0, size) }

  // The buffers between or after request and response.
  function Data(bs: nat, off: nat, n: nat, stage: Stage): seq<Spot>
    requires bs > 0
  {
    var resid, h, w := off % bs, Head(bs, off, n), Whole(bs, off, n);
    match stage
    case WholeRead =>
      (if resid != 0 then [Part(bs, true, resid, resid + h)] else [])
      + (if w > 0 then [User(h, w * bs, true)] else [])
      + (if Full(bs, off, n) < n then [Part(bs, true, 0, n - Full(bs, off, n))] else [])
    case FirstRead => [Part(bs, true, resid, resid + h)]
    case FullWrite =>
      (if resid != 0 then [Part(bs, false, resid, resid + h)] else [])
      + (if h < n then [User(h, w * bs, false)] else [])
    case LastRead => [Part(bs, true, 0, (off + n) % bs)]
    case LastWrite => [Part(bs, false, 0, (off + n) % bs)]
  }

  predicate Writes(stage: Stage) { stage == FullWrite || stage == LastWrite }

  function Plan(bs: nat, off: nat, n: nat, stage: Stage): seq<Spot>
    requires bs > 0
  {
    if Writes(stage) then [Req()] + Data(bs, off, n, stage) + [Resp()]
    else [Req(), Resp()] + Data(bs, off, n, stage)
  }

  // What virtio_task_create is asked for: the callbacks that build a LastRead ask for less
  // than virtio_submit, which reserves the same number for every first command of a write.
  function Limit(stage: Stage): nat {
    match stage case WholeRead => 5 case LastRead => 3 case _ => 4
  }

  // Blocks that a range touches.
  function Touched(bs: nat, off: nat, n: nat): nat
    requires bs > 0
  {
    (if off % bs != 0 then 1 else 0) + Whole(bs, off, n) + (if Full(bs, off, n) < n then 1 else 0)
  }

  function SizeBefore(s: seq<Spot>, k: nat): nat
    requires k <= |s|
  {
    if k == 0 then 0 else SizeBefore(s, k - 1) + s[k - 1].size
  }

  function PickedBefore(s: seq<Spot>, k: nat): int
    requires k <= |s|
  {
    if k == 0 then 0 else PickedBefore(s, k - 1) + (s[k - 1].to - s[k - 1].from)
  }

  lemma PlanFits(bs: nat, off: nat, n: nat, stage: Stage)
    requires bs > 0 && (n > 0 || off % bs == 0)
    ensures 2 <= |Plan(bs, off, n, stage)| <= Limit(stage)
    ensures n > 0 || (stage != WholeRead && stage != FullWrite) ==> 3 <= |Plan(bs, off, n, stage)|
  {
    RangeFacts(bs, off, n);
  }

  // How many blocks each command covers.
  function BlockCount(bs: nat, off: nat, n: nat, stage: Stage): nat
    requires bs > 0
  {
    match stage
    case WholeRead => Touched(bs, off, n)
    case FullWrite => (if off % bs != 0 then 1 else 0) + Whole(bs, off, n)
    case _ => 1
  }

  lemma FewSizes(d: seq<Spot>)
    requires |d| <= 3
    ensures SizeBefore(d, |d|) == (if |d| > 0 then d[0].size else 0) + (if |d| > 1 then d[1].size else 0)
                                  + (if |d| > 2 then d[2].size else 0)
  {
    assert |d| > 2 ==> SizeBefore(d, 3) == SizeBefore(d, 2) + d[2].size;
    assert |d| > 1 ==> SizeBefore(d, 2) == SizeBefore(d, 1) + d[1].size;
  }

  // The data buffers hold exactly the blocks of the command.
  lemma DataSizes(bs: nat, off: nat, n: nat, stage: Stage)
    requires bs > 0 && (n > 0 || off % bs == 0)
    ensures var d := Data(bs, off, n, stage);
            SizeBefore(d, |d|) == BlockCount(bs, off, n, stage) * bs
  {
    RangeFacts(bs, off, n);
    var w := Whole(bs, off, n);
    var a, c := if off % bs != 0 then 1 else 0, if Full(bs, off, n) < n then 1 else 0;
    var d := Data(bs, off, n, stage);
    FewSizes(d);
    match stage
    case WholeRead =>
      ThreeTerms(a, w, c, bs);
      assert SizeBefore(d, |d|) == (if a == 1 then bs else 0) + w * bs + (if c == 1 then bs else 0);
    case FullWrite =>
      ThreeTerms(a, w, 0, bs);
      assert Head(bs, off, n) == n ==> w == 0;
    case _ =>
  }

  // What the device reads covers the request.
  lemma BlocksCover(bs: nat, off: nat, n: nat)
    requires bs > 0 && (n > 0 || off % bs == 0)
    ensures off % bs + n <= BlockCount(bs, off, n, WholeRead) * bs
  {
    RangeFacts(bs, off, n);
    ThreeTerms(if off % bs != 0 then 1 else 0, Whole(bs, off, n), if Full(bs, off, n) < n then 1 else 0, bs);
  }

  lemma FewPieces(d: seq<Spot>)
    requires |d| <= 3
    ensures SizeBefore(d, 0) == 0 && PickedBefore(d, 0) == 0
    ensures |d| > 0 ==> SizeBefore(d, 1) == d[0].size && PickedBefore(d, 1) == d[0].to - d[0].from
    ensures |d| > 1 ==> SizeBefore(d, 2) == d[0].size + d[1].size
    ensures |d| > 1 ==> PickedBefore(d, 2) == (d[0].to - d[0].from) + (d[1].to - d[1].from)
    ensures |d| > 2 ==> PickedBefore(d, 3) == (d[0].to - d[0].from) + (d[1].to - d[1].from) + (d[2].to - d[2].from)
  {
    assert |d| > 2 ==> PickedBefore(d, 3) == PickedBefore(d, 2) + (d[2].to - d[2].from);
  }

  // Piece k of what the device moves starts `resid` before piece k of the user's bytes, of
  // which there are `total`.
  ghost predicate PieceAligned(d: seq<Spot>, k: nat, resid: nat, total: int)
    requires k < |d|
  {
    && SizeBefore(d, k) + d[k].from == resid + PickedBefore(d, k)
    && 0 <= PickedBefore(d, k) && d[k].from <= d[k].to <= d[k].size
    && (!d[k].copy ==> d[k].base == PickedBefore(d, k) && d[k].from == 0 && d[k].to == d[k].size)
    && PickedBefore(d, |d|) == total && PickedBefore(d, k) + (d[k].to - d[k].from) <= total
  }

  lemma WriteParts(bs: nat, off: nat, n: nat, k: nat)
    requires bs > 0 && (n > 0 || off % bs == 0) && k < |Data(bs, off, n, FullWrite)|
    ensures PieceAligned(Data(bs, off, n, FullWrite), k, off % bs, Full(bs, off, n))
  {
    RangeFacts(bs, off, n);
    assert Head(bs, off, n) == n ==> Whole(bs, off, n) == 0;
    FewPieces(Data(bs, off, n, FullWrite));
  }

  lemma ReadParts(bs: nat, off: nat, n: nat, k: nat)
    requires bs > 0 && (n > 0 || off % bs == 0) && k < |Data(bs, off, n, WholeRead)|
    ensures PieceAligned(Data(bs, off, n, WholeRead), k, off % bs, n)
  {
    RangeFacts(bs, off, n);
    assert Head(bs, off, n) == n ==> Whole(bs, off, n) == 0;
    FewPieces(Data(bs, off, n, WholeRead));
  }

  // The parts that belong to the request follow one another without a gap.
  lemma PartsAligned(bs: nat, off: nat, n: nat, stage: Stage, k: nat)
    requires bs > 0 && (n > 0 || off % bs == 0) && (stage == WholeRead || stage == FullWrite)
    requires k < |Data(bs, off, n, stage)|
    ensures PieceAligned(Data(bs, off, n, stage), k, off % bs, if stage == WholeRead then n else Full(bs, off, n))
  {
    if stage == WholeRead { ReadParts(bs, off, n, k); } else { WriteParts(bs, off, n, k); }
  }

  lemma ClippedIsFull(bs: nat, numBlocks: nat, off: nat, m: nat)
    requires bs > 0 && m > 0 && off + m == bs * numBlocks
    ensures Full(bs, off, m) == m
  {
    RangeFacts(bs, off, m);
    DivisionExact(bs, numBlocks, 0);
    assert numBlocks * bs + 0 == off + m;
  }

  lemma BlockInside(bs: nat, numBlocks: nat, x: nat)
    requires bs > 0 && (x < bs * numBlocks || (x == bs * numBlocks && x % bs != 0))
    ensures x / bs < numBlocks
  {
    var q := x / bs;
    assert x == bs * q + x % bs;
    var d := numBlocks - q;
    assert bs * d == bs * numBlocks - bs * q;
    Multiples(bs, d);
    DivisionExact(bs, numBlocks, 0);
  }

  // -------------------------------------------------------------------------
  // On the ring
  // -------------------------------------------------------------------------

  function OnRing(plan: seq<Spot>, addrs: seq<nat>): (r: seq<R.Buffer>)
    requires |addrs| == |plan|
    ensures |r| == |plan|
  {
    seq(|plan|, k requires 0 <= k < |plan| => R.Buffer(addrs[k], plan[k].size, plan[k].response))
  }

  lemma {:induction false} SameSizes(plan: seq<Spot>, vbufs: seq<R.Buffer>)
    requires |vbufs| == |plan| && forall k :: 0 <= k < |plan| ==> vbufs[k].size == plan[k].size
    ensures J.DataSize(vbufs) == SizeBefore(plan, |plan|)
  {
    if plan != [] {
      var p := plan[..|plan| - 1];
      SameSizes(p, vbufs[..|vbufs| - 1]);
      SizePrefix(p, plan, |p|);
    }
  }

  lemma {:induction false} SizePrefix(p: seq<Spot>, s: seq<Spot>, k: nat)
    requires p <= s && k <= |p|
    ensures SizeBefore(p, k) == SizeBefore(s, k)
  {
    if k > 0 { SizePrefix(p, s, k - 1); }
  }

  lemma DataDirection(bs: nat, off: nat, n: nat, stage: Stage)
    requires bs > 0
    ensures forall k :: 0 <= k < |Data(bs, off, n, stage)| ==> Data(bs, off, n, stage)[k].response == !Writes(stage)
  {
  }

  // Where in the list a buffer for the device's answer can stand.
  lemma PlanDirection(bs: nat, off: nat, n: nat, stage: Stage, k: nat)
    requires bs > 0 && k < |Plan(bs, off, n, stage)|
    ensures var p := Plan(bs, off, n, stage);
            p[k].response == if Writes(stage) then k == |p| - 1 else k > 0
  {
    DataDirection(bs, off, n, stage);
    var d, p := Data(bs, off, n, stage), Plan(bs, off, n, stage);
    if Writes(stage) && 0 < k < |p| - 1 { assert p[k] == d[k - 1]; }
    if !Writes(stage) && k > 1 { assert p[k] == d[k - 2]; }
  }

  // The buffers of every command, at whatever addresses, form a task that the joint model
  // of ring and requests may put: section 2.6.4.2 of VIRTIO 1.1, and the right size.
  lemma PlanServes(bs: nat, off: nat, n: nat, stage: Stage, id: nat, addrs: seq<nat>, c: Command)
    requires bs > 0 && (n > 0 || off % bs == 0) && |addrs| == |Plan(bs, off, n, stage)|
    requires c.Write? <==> Writes(stage)
    requires Length(bs, c) == BlockCount(bs, off, n, stage) * bs
    ensures J.TaskFor(bs, R.Task(id, OnRing(Plan(bs, off, n, stage), addrs)), c)
  {
    PlanFits(bs, off, n, stage);
    var plan := Plan(bs, off, n, stage);
    var vbufs := OnRing(plan, addrs);
    forall k: nat | k < |vbufs| ensures vbufs[k].response == if Writes(stage) then k == |plan| - 1 else k > 0 {
      PlanDirection(bs, off, n, stage, k);
    }
    PlanSize(bs, off, n, stage, addrs);
  }

  lemma PlanSize(bs: nat, off: nat, n: nat, stage: Stage, addrs: seq<nat>)
    requires bs > 0 && (n > 0 || off % bs == 0) && |addrs| == |Plan(bs, off, n, stage)|
    ensures var vbufs := OnRing(Plan(bs, off, n, stage), addrs);
            J.DataSize(if Writes(stage) then vbufs[1..|vbufs| - 1] else vbufs[2..]) == BlockCount(bs, off, n, stage) * bs
  {
    DataSizes(bs, off, n, stage);
    var plan, d := Plan(bs, off, n, stage), Data(bs, off, n, stage);
    var vbufs := OnRing(plan, addrs);
    var first := if Writes(stage) then 1 else 2;
    var part := if Writes(stage) then vbufs[1..|vbufs| - 1] else vbufs[2..];
    forall k: nat | k < |d| ensures |part| == |d| && part[k].size == d[k].size {
      assert plan[k + first] == d[k];
      assert part[k] == vbufs[k + first];
    }
    SameSizes(d, part);
  }

  function FirstPart(bs: nat, resid: nat, h: nat): seq<Spot> {
    if resid != 0 then [Part(bs, true, resid, resid + h)] else []
  }

  function MiddlePart(h: nat, size: nat): seq<Spot> {
    if size > 0 then [User(h, size, true)] else []
  }

  function LastPartOf(bs: nat, last: nat): seq<Spot> {
    if last > 0 then [Part(bs, true, 0, last)] else []
  }

  // The data buffers of a read, in terms of the numbers that it is split into.
  lemma ReadData(bs: nat, off: nat, n: nat, h: nat, w: nat, size: nat, last: nat)
    requires bs > 0 && (n > 0 || off % bs == 0) && h == Head(bs, off, n) && w == Whole(bs, off, n)
    requires size == w * bs && last == n - Full(bs, off, n)
    ensures Data(bs, off, n, WholeRead) == FirstPart(bs, off % bs, h) + MiddlePart(h, size) + LastPartOf(bs, last)
    ensures last != 0 <==> Full(bs, off, n) < n
  {
    Multiples(bs, w);
    Covered(bs, off, n);
  }

  lemma SmallRemainder(bs: nat, m: nat)
    requires m < bs
    ensures m % bs == m && m / bs == 0
  {
  }

  lemma Covered(bs: nat, off: nat, n: nat)
    requires bs > 0 && (n > 0 || off % bs == 0)
    ensures Full(bs, off, n) <= n < Full(bs, off, n) + bs
  {
    RangeFacts(bs, off, n);
  }

  // The numbers that a read is split into, computed as the driver computes them.
  lemma SplitIs(bs: nat, off: nat, n: nat, h: nat, w: nat, rest: nat, last: nat)
    requires bs > 0 && (n > 0 || off % bs == 0)
    requires h == if off % bs == 0 then 0 else if off % bs + n <= bs then n else bs - off % bs
    requires h <= n ==> w == (n - h) / bs
    requires rest == n - (h + w * bs)
    requires last == if h + w * bs < n then rest % bs else 0
    ensures h == Head(bs, off, n) && w == Whole(bs, off, n)
    ensures last == n - Full(bs, off, n)
  {
    assert h == Head(bs, off, n);
    SmallRemainder(bs, 0);
    assert w == Whole(bs, off, n);
    Covered(bs, off, n);
    SmallRemainder(bs, rest);
  }

  // Every command that a request issues covers the blocks that its buffers hold.
  lemma CommandCovers(bs: nat, base: Bytes, op: W.Op)
    requires bs > 0 && ValidRequest(|base|, op.req) && W.RangeIs(bs, |base|, op.req)
    requires W.CommandOk(bs, base, op)
    ensures var n := Size(|base|, op.req);
            && (op.cmd.Write? <==> Writes(op.stage))
            && Length(bs, op.cmd) == BlockCount(bs, op.req.off, n, op.stage) * bs
  {
    var n := Size(|base|, op.req);
    var off := op.req.off;
    RangeFacts(bs, off, n);
    var a, c := if off % bs != 0 then 1 else 0, if Full(bs, off, n) < n then 1 else 0;
    ThreeTerms(a, Whole(bs, off, n), c, bs);
    ThreeTerms(a, Whole(bs, off, n), 0, bs);
  }
}
