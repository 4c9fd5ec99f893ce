/**
 Asynchronous writes that reach past the end of the device.  The first command is clipped, the
 callbacks go by what was asked.  When nothing else fails, such a write ends in one of four ways,
 and only one of them is what clipping promises.
 */
module PastEnd {
  import opened Common
  import opened Blocks
  import opened AsyncSpec
  import Layout
  import Cdb
  import W = AsyncProtocol
  import A = AsyncCorrectness

  // -------------------------------------------------------------------------
  // A device that refuses what it does not have
  // -------------------------------------------------------------------------

  // Blocks of a command.
  function CountOf(bs: nat, c: Command): nat
    requires bs > 0
  {
    if c.Read? then c.count else |c.payload| / bs
  }

  // What the device makes of a command: it reads the address field, and refuses blocks that it
  // does not have.
  function Received(bs: nat, numBlocks: nat, c: Command): (r: Option<Command>)
    requires bs > 0
    ensures r.Some? ==> Length(bs, r.value) == Length(bs, c) && (r.value.Read? <==> c.Read?)
    ensures r.Some? ==> r.value.blk * bs + Length(bs, c) <= bs * numBlocks
    ensures r.Some? && c.Read? ==> r.value.count == c.count
  {
    var c' := Cdb.OnWire(numBlocks, c);
    if c'.blk * bs + Length(bs, c) > bs * numBlocks then None else Some(c')
  }

  // The command block that the driver builds is decoded to just that, while its count fits.
  lemma ReceivedDecodes(bs: nat, numBlocks: nat, cdb: Bytes, c: Command)
    requires bs > 0 && |cdb| == Cdb.CDB_SIZE && CountOf(bs, c) < Cdb.CountSpan(numBlocks)
    ensures Cdb.Decode(Cdb.Encode(numBlocks, cdb, c.blk, CountOf(bs, c), c.Write?))
         == Some(Cdb.RwCdb(Cdb.Wide(numBlocks), c.Write?, Cdb.OnWire(numBlocks, c).blk, CountOf(bs, c)))
  {
    Cdb.EncodeDecodes(numBlocks, cdb, c.blk, CountOf(bs, c), c.Write?);
    Layout.SmallRemainder(Cdb.CountSpan(numBlocks), CountOf(bs, c));
  }

  // -------------------------------------------------------------------------
  // A write with the disk to itself
  // -------------------------------------------------------------------------

  datatype End = Ended(retval: int, disk: Bytes) | Aborted(disk: Bytes)

  // The command has the shape that the answer of its stage needs.
  predicate Shaped(bs: nat, cap: nat, r: Request, sub: Submission)
    requires bs > 0 && r.WriteReq? && Startable(cap, r)
  {
    match sub.stage
    case WholeRead => false
    case FirstRead => sub.cmd.Read? && sub.cmd.count == 1
    case FullWrite => sub.cmd.Write?
    case LastRead => sub.cmd.Read? && sub.cmd.count == 1 && Last(bs, cap, r) <= |r.buf|
    case LastWrite => sub.cmd.Write?
  }

  // From a submission to the end of the request, when only the device refuses anything.
  function Alone(bs: nat, numBlocks: nat, disk: Bytes, r: Request, sub: Submission, retval: int): End
    requires bs > 0 && |disk| == bs * numBlocks && r.WriteReq? && Startable(|disk|, r) && Shaped(bs, |disk|, r, sub)
    decreases 4 - W.Rank(sub.stage)
  {
    match Received(bs, numBlocks, sub.cmd)
    case None => Ended(retval, disk)
    case Some(c) =>
      var disk', reply := DiskAfter(bs, disk, c), Some(DataOf(bs, disk, c));
      NextShaped(bs, |disk|, r, sub, retval, reply);
      match OnReply(bs, |disk|, r, sub.stage, retval, reply)
      case Submit(next, retval') => Alone(bs, numBlocks, disk', r, next, retval')
      case Finish(retval', _) => Ended(retval', disk')
      case Abort(_) => Aborted(disk')
  }

  lemma NextShaped(bs: nat, cap: nat, r: Request, sub: Submission, retval: int, reply: Option<Bytes>)
    requires bs > 0 && r.WriteReq? && Startable(cap, r) && Shaped(bs, cap, r, sub)
    requires reply.Some? && (sub.cmd.Read? ==> |reply.value| == bs)
    ensures ReplyFits(bs, cap, r, sub.stage, reply)
    ensures var o := OnReply(bs, cap, r, sub.stage, retval, reply);
            o.Submit? ==> Shaped(bs, cap, r, o.sub) && W.Rank(sub.stage) < W.Rank(o.sub.stage) <= 4
  {
    A.StageAdvances(bs, cap, r, sub.stage, retval, reply);
    if sub.stage == FullWrite { RemainderFits(bs, cap, r); }
  }

  lemma RemainderFits(bs: nat, cap: nat, r: Request)
    requires bs > 0 && r.WriteReq? && Startable(cap, r)
    ensures Moved(bs, cap, r) != |r.buf| ==> (r.off + |r.buf|) % bs <= |r.buf|
  {
    RangeFacts(bs, r.off, |r.buf|);
    if Full(bs, r.off, |r.buf|) == |r.buf| && r.off % bs == 0 {
      assert Head(bs, r.off, |r.buf|) == 0;
    }
  }

  function WriteAlone(bs: nat, numBlocks: nat, disk: Bytes, off: nat, buf: Bytes): End
    requires bs > 0 && |disk| == bs * numBlocks && 0 < |buf| && off <= |disk|
    requires FirstCount(bs, |disk|, off, |buf|) < Cdb.CountSpan(numBlocks)
  {
    var r := WriteReq(off, buf);
    FirstShaped(bs, |disk|, r);
    Alone(bs, numBlocks, disk, r, FirstSubmission(bs, |disk|, r), -1)
  }

  lemma FirstShaped(bs: nat, cap: nat, r: Request)
    requires bs > 0 && r.WriteReq? && Startable(cap, r)
    ensures Shaped(bs, cap, r, FirstSubmission(bs, cap, r))
  {
    RemainderBelow(bs, r.off, |r.buf|);
  }

  lemma RemainderBelow(bs: nat, off: nat, n: nat)
    requires bs > 0
    ensures off % bs == 0 ==> (off + n) % bs <= n
  {
    if off % bs == 0 {
      Division(bs, off);
      Division(bs, n);
      DivisionExact(bs, off / bs + n / bs, n % bs);
      assert (off / bs + n / bs) * bs == off / bs * bs + n / bs * bs;
    }
  }

  // -------------------------------------------------------------------------
  // How it ends
  // -------------------------------------------------------------------------

  // Blocks of the command that writes the first and the whole blocks.
  function FirstCount(bs: nat, cap: nat, off: nat, n: nat): nat
    requires bs > 0 && off <= cap
  {
    if off % bs == 0 then (cap - off) / bs else 1 + Whole(bs, off, n)
  }

  // The write of the first and the whole blocks reaches past the end: it starts inside a block
  // and at least one whole block lies beyond the device.
  predicate Overruns(bs: nat, cap: nat, off: nat, n: nat)
    requires bs > 0
  {
    off % bs != 0 && cap + bs <= off + n
  }

  // What such a write leaves and returns, outright.
  function EndOf(bs: nat, numBlocks: nat, disk: Bytes, off: nat, buf: Bytes): End
    requires bs > 0 && |disk| == bs * numBlocks && off < |disk| < off + |buf|
    requires !Overruns(bs, |disk|, off, |buf|) ==> (off + |buf|) % bs <= |buf|
  {
    var kept := |disk| - off;
    var at, rest := Cdb.Addressed(numBlocks, (off + |buf|) / bs), (off + |buf|) % bs;
    var after := Splice(disk, off, buf[..kept]);
    if Overruns(bs, |disk|, off, |buf|) then Ended(-1, disk)
    else if rest == 0 then Aborted(after)
    else if at >= numBlocks then Ended(kept, after)
    else
      InsideDevice(bs, numBlocks, at, rest);
      Ended(kept + rest, Splice(after, at * bs, buf[|buf| - rest..]))
  }

  lemma InsideDevice(bs: nat, numBlocks: nat, at: nat, rest: nat)
    requires bs > 0 && rest <= bs && at < numBlocks
    ensures at * bs + rest <= at * bs + bs <= bs * numBlocks
  {
    OneBlock(bs, numBlocks, at);
  }

  lemma AlignedReaches(bs: nat, numBlocks: nat, off: nat)
    requires bs > 0 && off < bs * numBlocks && off % bs == 0
    ensures off / bs * bs == off && (bs * numBlocks - off) / bs * bs == bs * numBlocks - off
  {
    Division(bs, off);
    assert bs * numBlocks - off == (numBlocks - off / bs) * bs;
    Layout.BlockInside(bs, numBlocks, off);
    DivisionExact(bs, numBlocks - off / bs, 0);
  }

  // A range that starts inside a block and leaves the device leaves its first block.
  lemma LeavesFirst(bs: nat, numBlocks: nat, off: nat, n: nat)
    requires bs > 0 && off < bs * numBlocks < off + n && off % bs != 0
    ensures Head(bs, off, n) == bs - off % bs < n
    ensures off + Full(bs, off, n) == (off / bs + 1 + Whole(bs, off, n)) * bs
  {
    Division(bs, off);
    Layout.BlockInside(bs, numBlocks, off);
    InsideDevice(bs, numBlocks, off / bs, bs);
    BlocksAdd(bs, off / bs, 1, Whole(bs, off, n));
  }

  // The first write ends exactly at the end of the device, unless it overruns it.
  lemma FirstReaches(bs: nat, numBlocks: nat, off: nat, n: nat)
    requires bs > 0 && off < bs * numBlocks < off + n && off % bs != 0
    ensures if Overruns(bs, bs * numBlocks, off, n) then bs * numBlocks < off + Full(bs, off, n)
            else off + Full(bs, off, n) == bs * numBlocks
  {
    RangeFacts(bs, off, n);
    LeavesFirst(bs, numBlocks, off, n);
    Reach(bs, numBlocks, off / bs + 1 + Whole(bs, off, n), off + Full(bs, off, n), off + n);
  }

  // A whole number of blocks that ends less than a block before `last`, where `last` is past the
  // end, is the whole device or reaches beyond it.
  lemma Reach(bs: nat, numBlocks: nat, q: nat, full: nat, last: nat)
    requires full == q * bs && full <= last < full + bs && bs * numBlocks < last
    ensures if bs * numBlocks + bs <= last then bs * numBlocks < full else full == bs * numBlocks
  {
    var d := q - numBlocks;
    assert bs * d == full - bs * numBlocks;
    Multiples(bs, d);
  }

  lemma OneBlock(bs: nat, numBlocks: nat, at: nat)
    requires bs > 0
    ensures at * bs + bs <= bs * numBlocks <==> at < numBlocks
  {
    Multiples(bs, numBlocks - at);
    assert bs * (numBlocks - at) == bs * numBlocks - at * bs;
  }

  // From this submission the request comes to this end.
  ghost predicate Leads(bs: nat, numBlocks: nat, disk: Bytes, r: Request, sub: Submission, retval: int, e: End) {
    forall k {:trigger Ask(Topic.History, k)} :: Ask(Topic.History, k) ==>
      && bs > 0 && |disk| == bs * numBlocks && r.WriteReq? && Startable(|disk|, r) && Shaped(bs, |disk|, r, sub)
      && Alone(bs, numBlocks, disk, r, sub, retval) == e
  }

  ghost predicate GoesOn(bs: nat, numBlocks: nat, disk: Bytes, r: Request, o: Outcome, e: End) {
    match o
    case Submit(next, retval') => Leads(bs, numBlocks, disk, r, next, retval', e)
    case Finish(retval', _) => e == Ended(retval', disk)
    case Abort(_) => e == Aborted(disk)
  }

  // A refused command ends the request; one that the device executes leads on to the next one.
  lemma Refused(bs: nat, numBlocks: nat, disk: Bytes, r: Request, sub: Submission, retval: int)
    requires bs > 0 && |disk| == bs * numBlocks && r.WriteReq? && Startable(|disk|, r) && Shaped(bs, |disk|, r, sub)
    requires Received(bs, numBlocks, sub.cmd) == None
    ensures Leads(bs, numBlocks, disk, r, sub, retval, Ended(retval, disk))
  {
  }

  lemma Executed(bs: nat, numBlocks: nat, disk: Bytes, r: Request, sub: Submission, retval: int,
                 c: Command, disk': Bytes, data: Bytes, o: Outcome, e: End)
    requires bs > 0 && |disk| == bs * numBlocks && r.WriteReq? && Startable(|disk|, r) && Shaped(bs, |disk|, r, sub)
    requires Received(bs, numBlocks, sub.cmd) == Some(c)
    requires disk' == DiskAfter(bs, disk, c) && data == DataOf(bs, disk, c)
    requires ReplyFits(bs, |disk|, r, sub.stage, Some(data)) && o == OnReply(bs, |disk|, r, sub.stage, retval, Some(data))
    requires GoesOn(bs, numBlocks, disk', r, o, e)
    ensures Leads(bs, numBlocks, disk, r, sub, retval, e)
  {
    assert Ask(Topic.History, 0);
  }

  // The last write puts the tail of the request where its address leads.
  lemma LastWriteEnds(bs: nat, numBlocks: nat, disk: Bytes, r: Request, block: Bytes, kept: nat, q: nat, rest: nat, at: nat)
    requires bs > 0 && |disk| == bs * numBlocks && r.WriteReq? && Startable(|disk|, r) && r.off < |disk|
    requires q == (r.off + |r.buf|) / bs && rest == (r.off + |r.buf|) % bs && rest <= |r.buf| && rest < bs
    requires at == Cdb.Addressed(numBlocks, q) && at * bs + bs <= |disk| && block == disk[at * bs..at * bs + bs]
    ensures Leads(bs, numBlocks, disk, r, Submission(LastWrite, Write(q, MergedLast(bs, r.off, r.buf, block))), kept,
                  Ended(kept + rest, Splice(disk, at * bs, r.buf[|r.buf| - rest..])))
  {
    var merged := MergedLast(bs, r.off, r.buf, block);
    TailSplice(disk, at * bs, r.buf[|r.buf| - rest..], block);
    Executed(bs, numBlocks, disk, r, Submission(LastWrite, Write(q, merged)), kept, Write(at, merged),
             Splice(disk, at * bs, r.buf[|r.buf| - rest..]), [], Finish(kept + rest, []),
             Ended(kept + rest, Splice(disk, at * bs, r.buf[|r.buf| - rest..])));
  }

  lemma TailSplice(disk: Bytes, pos: nat, data: Bytes, block: Bytes)
    requires |data| <= |block| && pos + |block| <= |disk| && block == disk[pos..pos + |block|]
    ensures Splice(disk, pos, data + block[|data|..]) == Splice(disk, pos, data)
  {
  }

  // The block that the callbacks go on to read and write.
  lemma TailIs(bs: nat, numBlocks: nat, disk: Bytes, r: Request, kept: nat, q: nat, rest: nat)
    requires bs > 0 && |disk| == bs * numBlocks && r.WriteReq? && Startable(|disk|, r) && r.off < |disk|
    requires q == (r.off + |r.buf|) / bs && rest == (r.off + |r.buf|) % bs && rest <= |r.buf|
    ensures var sub, at := Submission(LastRead, Read(q, 1)), Cdb.Addressed(numBlocks, q);
            if at >= numBlocks then Leads(bs, numBlocks, disk, r, sub, kept, Ended(kept, disk))
            else
              && at * bs + rest <= |disk|
              && Leads(bs, numBlocks, disk, r, sub, kept,
                       Ended(kept + rest, Splice(disk, at * bs, r.buf[|r.buf| - rest..])))
  {
    var sub, at := Submission(LastRead, Read(q, 1)), Cdb.Addressed(numBlocks, q);
    OneBlock(bs, numBlocks, at);
    if at >= numBlocks {
      Refused(bs, numBlocks, disk, r, sub, kept);
    } else {
      var block := disk[at * bs..at * bs + bs];
      LastWriteEnds(bs, numBlocks, disk, r, block, kept, q, rest, at);
      Executed(bs, numBlocks, disk, r, sub, kept, Read(at, 1), disk, block,
               Submit(Submission(LastWrite, Write(q, MergedLast(bs, r.off, r.buf, block))), kept),
               Ended(kept + rest, Splice(disk, at * bs, r.buf[|r.buf| - rest..])));
    }
  }

  // What the callback of a clipped write makes of it.
  lemma AfterFirst(bs: nat, cap: nat, r: Request)
    requires bs > 0 && r.WriteReq? && Startable(cap, r) && Moved(bs, cap, r) != |r.buf|
    ensures OnReply(bs, cap, r, FullWrite, -1, Some([])) ==
              if (r.off + |r.buf|) % bs == 0 then Abort(Moved(bs, cap, r))
              else Submit(Submission(LastRead, Read((r.off + |r.buf|) / bs, 1)), Moved(bs, cap, r))
  {
  }

  // From the write of the first and the whole blocks on, when it stays inside the device.
  lemma FromFirst(bs: nat, numBlocks: nat, disk: Bytes, r: Request, blk: nat, payload: Bytes, e: End)
    requires bs > 0 && |disk| == bs * numBlocks && r.WriteReq?
    requires r.off < |disk| < r.off + |r.buf| && !Overruns(bs, |disk|, r.off, |r.buf|)
    requires Cdb.Addressed(numBlocks, blk) == blk && blk * bs + |payload| == |disk|
    requires Moved(bs, |disk|, r) == |disk| - r.off
    requires Splice(disk, blk * bs, payload) == Splice(disk, r.off, r.buf[..|disk| - r.off])
    requires (r.off + |r.buf|) % bs <= |r.buf| && e == EndOf(bs, numBlocks, disk, r.off, r.buf)
    ensures Leads(bs, numBlocks, disk, r, Submission(FullWrite, Write(blk, payload)), -1, e)
  {
    var after := Splice(disk, r.off, r.buf[..|disk| - r.off]);
    var o := OnReply(bs, |disk|, r, FullWrite, -1, Some([]));
    TailEnds(bs, numBlocks, disk, r, after, o, e);
    FirstEnds(bs, numBlocks, disk, r, blk, payload, after, o, e);
  }

  lemma FirstEnds(bs: nat, numBlocks: nat, disk: Bytes, r: Request, blk: nat, payload: Bytes, after: Bytes, o: Outcome, e: End)
    requires bs > 0 && |disk| == bs * numBlocks && r.WriteReq? && Startable(|disk|, r)
    requires Cdb.Addressed(numBlocks, blk) == blk && blk * bs + |payload| == |disk|
    requires after == Splice(disk, blk * bs, payload)
    requires o == OnReply(bs, |disk|, r, FullWrite, -1, Some([])) && GoesOn(bs, numBlocks, after, r, o, e)
    ensures Leads(bs, numBlocks, disk, r, Submission(FullWrite, Write(blk, payload)), -1, e)
  {
    var c := Write(blk, payload);
    Executed(bs, numBlocks, disk, r, Submission(FullWrite, c), -1, c, after, [], o, e);
  }

  lemma TailEnds(bs: nat, numBlocks: nat, disk: Bytes, r: Request, after: Bytes, o: Outcome, e: End)
    requires bs > 0 && |disk| == bs * numBlocks && r.WriteReq?
    requires r.off < |disk| < r.off + |r.buf| && !Overruns(bs, |disk|, r.off, |r.buf|)
    requires Moved(bs, |disk|, r) == |disk| - r.off
    requires (r.off + |r.buf|) % bs <= |r.buf| && e == EndOf(bs, numBlocks, disk, r.off, r.buf)
    requires after == Splice(disk, r.off, r.buf[..|disk| - r.off])
    requires o == OnReply(bs, |disk|, r, FullWrite, -1, Some([]))
    ensures GoesOn(bs, numBlocks, after, r, o, e)
  {
    var q, rest := BlockAt(bs, r.off + |r.buf|), (r.off + |r.buf|) % bs;
    AfterFirst(bs, |disk|, r);
    if rest != 0 { TailIs(bs, numBlocks, after, r, |disk| - r.off, q, rest); }
  }

  // Bytes put back before new ones change nothing.
  lemma SplicePutBack(disk: Bytes, lo: nat, resid: nat, data: Bytes)
    requires lo + resid + |data| <= |disk|
    ensures Splice(disk, lo, disk[lo..lo + resid] + data) == Splice(disk, lo + resid, data)
  {
  }

  lemma MergedLength(bs: nat, off: nat, buf: Bytes, block: Bytes)
    requires bs > 0 && off % bs != 0 && Head(bs, off, |buf|) == bs - off % bs < |buf| && |block| == bs
    ensures Full(bs, off, |buf|) <= |buf|
    ensures MergedFirst(bs, off, buf, block) == block[..off % bs] + buf[..Full(bs, off, |buf|)]
  {
    RangeFacts(bs, off, |buf|);
    Pieces(MergedFirst(bs, off, buf, block), block, buf, off % bs, Head(bs, off, |buf|), Full(bs, off, |buf|));
  }

  // The first block put back with its new bytes is a write of the new bytes alone.
  lemma MergedSplice(disk: Bytes, lo: nat, resid: nat, data: Bytes, block: Bytes)
    requires resid <= |block| && lo + |block| <= |disk| && lo + resid + |data| <= |disk|
    requires block == disk[lo..lo + |block|]
    ensures Splice(disk, lo, block[..resid] + data) == Splice(disk, lo + resid, data)
  {
    assert block[..resid] == disk[lo..lo + resid];
    SplicePutBack(disk, lo, resid, data);
  }

  lemma Pieces(p: Bytes, block: Bytes, buf: Bytes, resid: nat, h: nat, full: nat)
    requires resid + h == |block| && h <= full <= |buf|
    requires p == block[..resid] + buf[..h] + block[resid + h..] + buf[h..full]
    ensures p == block[..resid] + buf[..full]
  {
  }

  // The tail of a write past the end is part of the request, unless the write overruns.
  lemma TailFits(bs: nat, numBlocks: nat, off: nat, n: nat)
    requires bs > 0 && off < bs * numBlocks < off + n && !Overruns(bs, bs * numBlocks, off, n)
    ensures (off + n) % bs <= n
  {
    if off % bs == 0 {
      RemainderBelow(bs, off, n);
    } else {
      FirstReaches(bs, numBlocks, off, n);
      RangeFacts(bs, off, n);
    }
  }

  // A request that starts inside a block: the first block is read, then written back merged.
  lemma Unaligned(bs: nat, numBlocks: nat, disk: Bytes, r: Request, blk: nat, e: End)
    requires bs > 0 && |disk| == bs * numBlocks && Cdb.Addressed(numBlocks, blk) == blk
    requires r.WriteReq? && r.off < |disk| < r.off + |r.buf| && r.off % bs != 0 && blk == r.off / bs
    requires !Overruns(bs, |disk|, r.off, |r.buf|) ==> (r.off + |r.buf|) % bs <= |r.buf|
    requires e == EndOf(bs, numBlocks, disk, r.off, r.buf)
    ensures Leads(bs, numBlocks, disk, r, Submission(FirstRead, Read(blk, 1)), -1, e)
  {
    Layout.BlockInside(bs, numBlocks, r.off);
    OneBlock(bs, numBlocks, blk);
    var block := disk[blk * bs..blk * bs + bs];
    MergedLeads(bs, numBlocks, disk, r, blk, block, e);
    Executed(bs, numBlocks, disk, r, Submission(FirstRead, Read(blk, 1)), -1, Read(blk, 1), disk, block,
             Submit(Submission(FullWrite, Write(blk, MergedFirst(bs, r.off, r.buf, block))), -1), e);
  }

  lemma MergedLeads(bs: nat, numBlocks: nat, disk: Bytes, r: Request, blk: nat, block: Bytes, e: End)
    requires bs > 0 && |disk| == bs * numBlocks && r.WriteReq?
    requires r.off < |disk| < r.off + |r.buf| && r.off % bs != 0 && blk == r.off / bs
    requires Cdb.Addressed(numBlocks, blk) == blk && blk * bs + bs <= |disk| && block == disk[blk * bs..blk * bs + bs]
    requires !Overruns(bs, |disk|, r.off, |r.buf|) ==> (r.off + |r.buf|) % bs <= |r.buf|
    requires e == EndOf(bs, numBlocks, disk, r.off, r.buf)
    ensures Leads(bs, numBlocks, disk, r, Submission(FullWrite, Write(blk, MergedFirst(bs, r.off, r.buf, block))), -1, e)
  {
    Division(bs, r.off);
    LeavesFirst(bs, numBlocks, r.off, |r.buf|);
    FirstReaches(bs, numBlocks, r.off, |r.buf|);
    MergedLength(bs, r.off, r.buf, block);
    var payload := MergedFirst(bs, r.off, r.buf, block);
    if Overruns(bs, |disk|, r.off, |r.buf|) {
      Refused(bs, numBlocks, disk, r, Submission(FullWrite, Write(blk, payload)), -1);
    } else {
      MergedSplice(disk, blk * bs, r.off % bs, r.buf[..Full(bs, r.off, |r.buf|)], block);
      FromFirst(bs, numBlocks, disk, r, blk, payload, e);
    }
  }

  // One that starts at a block: the first write is clipped.
  lemma Aligned(bs: nat, numBlocks: nat, disk: Bytes, r: Request, blk: nat, e: End)
    requires bs > 0 && |disk| == bs * numBlocks && Cdb.Addressed(numBlocks, blk) == blk
    requires r.WriteReq? && r.off < |disk| < r.off + |r.buf| && r.off % bs == 0 && blk == r.off / bs
    requires (r.off + |r.buf|) % bs <= |r.buf| && e == EndOf(bs, numBlocks, disk, r.off, r.buf)
    ensures FirstSubmission(bs, |disk|, r) == Submission(FullWrite, Write(blk, r.buf[..|disk| - r.off]))
    ensures Leads(bs, numBlocks, disk, r, Submission(FullWrite, Write(blk, r.buf[..|disk| - r.off])), -1, e)
  {
    AlignedReaches(bs, numBlocks, r.off);
    Layout.ClippedIsFull(bs, numBlocks, r.off, |disk| - r.off);
    FromFirst(bs, numBlocks, disk, r, blk, r.buf[..|disk| - r.off], e);
  }

  // Every write past the end ends as `EndOf` says.
  lemma Ends(bs: nat, numBlocks: nat, disk: Bytes, off: nat, buf: Bytes)
    requires bs > 0 && |disk| == bs * numBlocks && numBlocks < 0x1_0000_0000_0000_0000
    requires off < |disk| < off + |buf| && FirstCount(bs, |disk|, off, |buf|) < Cdb.CountSpan(numBlocks)
    ensures !Overruns(bs, |disk|, off, |buf|) ==> (off + |buf|) % bs <= |buf|
    ensures WriteAlone(bs, numBlocks, disk, off, buf) == EndOf(bs, numBlocks, disk, off, buf)
  {
    var r, blk := WriteReq(off, buf), off / bs;
    Layout.BlockInside(bs, numBlocks, off);
    Cdb.AddressedInside(numBlocks, blk);
    if !Overruns(bs, |disk|, off, |buf|) { TailFits(bs, numBlocks, off, |buf|); }
    var e := EndOf(bs, numBlocks, disk, off, buf);
    assert Ask(Topic.History, 0);
    if off % bs == 0 { Aligned(bs, numBlocks, disk, r, blk, e); } else { Unaligned(bs, numBlocks, disk, r, blk, e); }
  }

  // Without failures such a write returns the number of bytes that fit, with just those on the
  // disk, exactly when it does not overrun from inside a block, does not end at a block, and
  // the block it goes on to read has an address that the device does not have.
  lemma PastEndExact(bs: nat, numBlocks: nat, disk: Bytes, off: nat, buf: Bytes)
    requires bs > 0 && |disk| == bs * numBlocks && numBlocks < 0x1_0000_0000_0000_0000
    requires off < |disk| < off + |buf| && FirstCount(bs, |disk|, off, |buf|) < Cdb.CountSpan(numBlocks)
    ensures var kept := |disk| - off;
            WriteAlone(bs, numBlocks, disk, off, buf) == Ended(kept, Splice(disk, off, buf[..kept]))
            <==>
            && !(off % bs != 0 && |disk| + bs <= off + |buf|)
            && (off + |buf|) % bs != 0
            && (off + |buf|) / bs % Cdb.BlkSpan(numBlocks) >= numBlocks
  {
    Ends(bs, numBlocks, disk, off, buf);
  }

  // Requests that end inside the block after the last one meet the condition, except on a device
  // of 2^32 blocks.
  lemma NextBlock(bs: nat, numBlocks: nat, off: nat, n: nat)
    requires bs > 0 && numBlocks < 0x1_0000_0000_0000_0000
    requires off < bs * numBlocks < off + n < bs * numBlocks + bs
    ensures (off + n) / bs == numBlocks && (off + n) % bs != 0
    ensures Cdb.Addressed(numBlocks, (off + n) / bs) >= numBlocks <==> numBlocks != 0x1_0000_0000
  {
    DivisionExact(bs, numBlocks, off + n - bs * numBlocks);
    if Cdb.Wide(numBlocks) || numBlocks < 0x1_0000_0000 {
      Layout.SmallRemainder(Cdb.BlkSpan(numBlocks), numBlocks);
    }
  }

  // A write that starts at the very end: its only command is refused, except on a device of 2^32
  // blocks, where it copies block 0 to a block that depends on the length.
  lemma AtTheEnd(bs: nat, numBlocks: nat, disk: Bytes, buf: Bytes)
    requires bs > 0 && |disk| == bs * numBlocks && numBlocks < 0x1_0000_0000_0000_0000 && 0 < |buf|
    ensures FirstCount(bs, |disk|, |disk|, |buf|) == 0
    ensures var at := (|disk| + |buf|) / bs % Cdb.BlkSpan(numBlocks);
            if numBlocks != 0x1_0000_0000 then WriteAlone(bs, numBlocks, disk, |disk|, buf) == Ended(-1, disk)
            else
              && at * bs + bs <= |disk|
              && WriteAlone(bs, numBlocks, disk, |disk|, buf) == Ended(0, Splice(disk, at * bs, disk[..bs]))
  {
    var r, q := WriteReq(|disk|, buf), (|disk| + |buf|) / bs;
    FirstAtEnd(bs, numBlocks, r);
    AddressOfEnd(numBlocks);
    if numBlocks != 0x1_0000_0000 {
      RefusedAtEnd(bs, numBlocks, disk, r);
    } else {
      OneBlock(bs, numBlocks, Cdb.Addressed(numBlocks, q));
      OneBlock(bs, numBlocks, 0);
      CopiesBlock(bs, numBlocks, disk, r, q);
    }
    assert Ask(Topic.History, 0);
  }

  lemma FirstAtEnd(bs: nat, numBlocks: nat, r: Request)
    requires bs > 0 && r.WriteReq? && r.off == bs * numBlocks && 0 < |r.buf|
    ensures r.off % bs == 0 && FirstCount(bs, r.off, r.off, |r.buf|) == 0
    ensures FirstSubmission(bs, r.off, r) == Submission(LastRead, Read(numBlocks, 1))
  {
    DivisionExact(bs, numBlocks, 0);
    Layout.SmallRemainder(bs, 0);
  }

  lemma RefusedAtEnd(bs: nat, numBlocks: nat, disk: Bytes, r: Request)
    requires bs > 0 && |disk| == bs * numBlocks && r.WriteReq? && Startable(|disk|, r) && r.off == |disk|
    requires Cdb.Addressed(numBlocks, numBlocks) == numBlocks
    ensures Leads(bs, numBlocks, disk, r, Submission(LastRead, Read(numBlocks, 1)), -1, Ended(-1, disk))
  {
    OneBlock(bs, numBlocks, numBlocks);
    Refused(bs, numBlocks, disk, r, Submission(LastRead, Read(numBlocks, 1)), -1);
  }

  lemma AddressOfEnd(numBlocks: nat)
    requires numBlocks < 0x1_0000_0000_0000_0000
    ensures if numBlocks == 0x1_0000_0000 then Cdb.Addressed(numBlocks, numBlocks) == 0
            else Cdb.Addressed(numBlocks, numBlocks) == numBlocks
  {
    if numBlocks != 0x1_0000_0000 { Layout.SmallRemainder(Cdb.BlkSpan(numBlocks), numBlocks); }
  }

  lemma CopiesBlock(bs: nat, numBlocks: nat, disk: Bytes, r: Request, q: nat)
    requires bs > 0 && |disk| == bs * numBlocks && r.WriteReq? && Startable(|disk|, r) && r.off == |disk|
    requires q == (r.off + |r.buf|) / bs && Cdb.Addressed(numBlocks, q) * bs + bs <= |disk|
    requires Cdb.Addressed(numBlocks, numBlocks) == 0 && bs <= |disk|
    ensures Leads(bs, numBlocks, disk, r, Submission(LastRead, Read(numBlocks, 1)), -1,
                  Ended(0, Splice(disk, Cdb.Addressed(numBlocks, q) * bs, disk[..bs])))
  {
    var block := disk[..bs];
    var e := Ended(0, Splice(disk, Cdb.Addressed(numBlocks, q) * bs, block));
    Executed(bs, numBlocks, disk, r, Submission(LastWrite, Write(q, block)), -1, Write(Cdb.Addressed(numBlocks, q), block),
             Splice(disk, Cdb.Addressed(numBlocks, q) * bs, block), [], Finish(0, []), e);
    Executed(bs, numBlocks, disk, r, Submission(LastRead, Read(numBlocks, 1)), -1, Read(0, 1), disk, block,
             Submit(Submission(LastWrite, Write(q, block)), -1), e);
  }

  // One input of each other kind.  Nothing is written, and the request fails.
  lemma OverrunWritesNothing(disk: Bytes, buf: Bytes)
    requires |disk| == 8 && |buf| == 20
    ensures WriteAlone(4, 2, disk, 2, buf) == Ended(-1, disk)
  {
    Ends(4, 2, disk, 2, buf);
  }

  // What fits is written, then the assertion of the callback fails.
  lemma BlockEndAborts(disk: Bytes, buf: Bytes)
    requires |disk| == 8 && |buf| == 8
    ensures WriteAlone(4, 2, disk, 4, buf) == Aborted(Splice(disk, 4, buf[..4]))
  {
    Ends(4, 2, disk, 4, buf);
  }

  // The address of the block after the last wraps to 0, and the tail lands there.
  lemma WrapsToBlockZero(disk: Bytes, buf: Bytes)
    requires |disk| == 4 * 0x1_0000_0000 && |buf| == 6
    ensures WriteAlone(4, 0x1_0000_0000, disk, |disk| - 4, buf)
         == Ended(6, Splice(Splice(disk, |disk| - 4, buf[..4]), 0, buf[4..]))
  {
    NextBlock(4, 0x1_0000_0000, |disk| - 4, 6);
    AddressOfEnd(0x1_0000_0000);
    Ends(4, 0x1_0000_0000, disk, |disk| - 4, buf);
  }
}
