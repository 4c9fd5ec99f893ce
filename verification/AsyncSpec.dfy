/**
 One asynchronous request, as a function: which command it issues first, and what its
 callback does with each answer.  Partial blocks at either end of a write are read,
 modified and written back, so a write is a chain of up to four commands.
 */
module AsyncSpec {
  import opened Common
  import opened Blocks

  datatype Request = WriteReq(off: nat, buf: Bytes) | ReadReq(off: nat, nbytes: nat)

  // Bytes that the user asks for.
  function Asked(r: Request): nat { if r.WriteReq? then |r.buf| else r.nbytes }

  // Requests that make the asynchronous interface issue a command.
  predicate Startable(cap: nat, r: Request) { 0 < Asked(r) && r.off <= cap }

  // Requests that it serves byte-exactly: writes must not reach past the end of the device.
  predicate ValidRequest(cap: nat, r: Request) {
    Startable(cap, r) && (r.WriteReq? ==> r.off + |r.buf| <= cap)
  }

  // The first command is clipped at the end of the device.
  function Size(cap: nat, r: Request): nat
    requires Startable(cap, r)
  {
    if r.off + Asked(r) > cap then cap - r.off else Asked(r)
  }

  // The callback that waits for the command.
  datatype Stage = WholeRead | FirstRead | FullWrite | LastRead | LastWrite

  datatype Submission = Submission(stage: Stage, cmd: Command)

  function FirstSubmission(bs: nat, cap: nat, r: Request): Submission
    requires bs > 0 && Startable(cap, r)
  {
    var n, blk := Size(cap, r), r.off / bs;
    if r.ReadReq? then
      var count := (if r.off % bs != 0 then 1 else 0) + Whole(bs, r.off, n)
                   + (if Full(bs, r.off, n) < n then 1 else 0);
      Submission(WholeRead, Read(blk, count))
    else if r.off % bs != 0 then Submission(FirstRead, Read(blk, 1))
    else if n / bs > 0 then Submission(FullWrite, Write(blk, r.buf[..n / bs * bs]))
    else Submission(LastRead, Read(blk, 1))
  }

  // The first block as read, overwritten from the request, and the whole blocks after it.
  function MergedFirst(bs: nat, off: nat, buf: Bytes, block: Bytes): Bytes
    requires bs > 0 && |block| == bs && |buf| > 0
  {
    RangeFacts(bs, off, |buf|);
    var resid, h := off % bs, Head(bs, off, |buf|);
    block[..resid] + buf[..h] + block[resid + h..] + buf[h..h + Whole(bs, off, |buf|) * bs]
  }

  // The last block as read, overwritten from its start by the tail of the request.
  function MergedLast(bs: nat, off: nat, buf: Bytes, block: Bytes): Bytes
    requires bs > 0 && |block| == bs && (off + |buf|) % bs <= |buf|
  {
    var delta := (off + |buf|) % bs;
    buf[|buf| - delta..] + block[delta..]
  }

  // `Abort`: an assertion of the callback fails.
  datatype Outcome = Submit(sub: Submission, retval: int) | Finish(retval: int, data: Bytes) | Abort(retval: int)

  // Bytes that the write of the first and the whole blocks moves.  It is clipped if it is the
  // first command; after a read of the first block the callback builds it from what was asked.
  function Moved(bs: nat, cap: nat, r: Request): nat
    requires bs > 0 && Startable(cap, r)
  {
    Full(bs, r.off, if r.off % bs == 0 then Size(cap, r) else Asked(r))
  }

  // How much of the last block a write overwrites: nothing if it starts at the very end.
  function Last(bs: nat, cap: nat, r: Request): nat
    requires bs > 0 && Startable(cap, r)
  {
    if r.off == cap then 0 else (r.off + Asked(r)) % bs
  }

  predicate ReplyFits(bs: nat, cap: nat, r: Request, stage: Stage, reply: Option<Bytes>)
    requires bs > 0 && Startable(cap, r)
  {
    && (stage == WholeRead <==> r.ReadReq?)
    && (reply.Some? ==>
          match stage
          case WholeRead => r.off % bs + Size(cap, r) <= |reply.value|
          case FirstRead => |reply.value| == bs
          case LastRead => |reply.value| == bs && Last(bs, cap, r) <= |r.buf|
          case _ => true)
  }

  // Inside the device, what remains of a write begins a last block.
  lemma InsideGoesOn(bs: nat, cap: nat, r: Request)
    requires bs > 0 && Startable(cap, r)
    ensures r.WriteReq? && ValidRequest(cap, r) && Moved(bs, cap, r) != |r.buf| ==> (r.off + |r.buf|) % bs != 0
  {
    RangeFacts(bs, r.off, Asked(r));
  }

  // What the callback of a stage does; no answer stands for a failed command.  The callbacks of
  // a write go by what was asked, clipped or not.
  function OnReply(bs: nat, cap: nat, r: Request, stage: Stage, retval: int, reply: Option<Bytes>): (o: Outcome)
    requires bs > 0 && Startable(cap, r) && ReplyFits(bs, cap, r, stage, reply)
    ensures ValidRequest(cap, r) ==> !o.Abort?
  {
    if reply.None? then Finish(if stage == WholeRead then -1 else retval, [])
    else
      var n := Asked(r);
      var blk := BlockAt(bs, r.off + n);
      InsideGoesOn(bs, cap, r);
      match stage
      case WholeRead => Finish(Size(cap, r), reply.value[r.off % bs..r.off % bs + Size(cap, r)])
      case FirstRead =>
        Submit(Submission(FullWrite, Write(r.off / bs, MergedFirst(bs, r.off, r.buf, reply.value))), retval)
      case FullWrite =>
        var full := Moved(bs, cap, r);
        if full == n then Finish(full, [])
        else if (r.off + n) % bs == 0 then Abort(full)
        else Submit(Submission(LastRead, Read(blk, 1)), full)
      case LastRead =>
        var block := if r.off == cap then reply.value else MergedLast(bs, r.off, r.buf, reply.value);
        Submit(Submission(LastWrite, Write(blk, block)), retval)
      case LastWrite =>
        var delta := Last(bs, cap, r);
        Finish(if retval < 0 then delta else retval + delta, [])
  }
}
