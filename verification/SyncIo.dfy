/**
 The synchronous interface: byte reads and writes of any range over a disk that only moves
 whole blocks, proved against slicing and splicing of one flat byte sequence.
 */
module SyncIo {
  import opened Common
  import opened Blocks
  import opened VirtioTasks
  import opened VirtioDev
  import AsyncIo
  import AsyncTarget
  import Cdb
  import Layout

  // Bytes of whole blocks in m bytes.
  function WholeBytes(m: nat, bs: nat): nat
    requires bs > 0
  {
    BytesIn(m / bs, bs)
  }

  // What became of a command.
  datatype Fate =
    | Done              // everything was transferred
    | Short(moved: nat) // the device reported success, but stopped a read after so many bytes
    | Refused           // the device did not accept it
    | Failed            // the ring was full, or the answer was an error
    | Unsent            // there was no memory for its task

  function Fault(f: Fate): nat { if f.Short? || f.Failed? || f.Unsent? then 1 else 0 }

  function FaultCount(fates: seq<Fate>): nat {
    if fates == [] then 0 else FaultCount(fates[..|fates| - 1]) + Fault(fates[|fates| - 1])
  }

  // Bytes that a command moved, of the size that it asked for.
  function Moved(f: Fate, size: nat): nat {
    if f.Done? then size else if f.Short? then f.moved else 0
  }

  // What the functions for whole blocks return.
  function Reported(f: Fate, size: nat): int {
    if f.Done? || f.Short? then Moved(f, size) else -1
  }

  // The disk behind the vhost target.  A command executes as a whole, or fails and leaves the
  // disk as it was; a read may also stop short.  `fates` lists all commands so far.
  class Target {
    const blockSize: nat
    const numBlocks: nat
    const disk: array<Byte>
    ghost var fates: seq<Fate>

    constructor (blockSize: nat, numBlocks: nat)
      requires blockSize > 0
      ensures this.blockSize == blockSize && this.numBlocks == numBlocks && Valid() && fresh(disk)
    {
      this.blockSize, this.numBlocks, fates := blockSize, numBlocks, [];
      disk := new Byte[blockSize * numBlocks];
    }

    predicate Valid() {
      blockSize > 0 && disk.Length == blockSize * numBlocks
    }

    ghost function Faults(): nat
      reads this
    {
      FaultCount(fates)
    }

    ghost method Note(f: Fate)
      modifies this`fates
      ensures fates == old(fates) + [f]
      ensures Faults() == old(Faults()) + Fault(f)
    {
      assert (fates + [f])[..|fates|] == fates;
      fates := fates + [f];
    }

    // Where the command in a request buffer starts on the disk, if the device accepts it for a
    // data buffer of the given size.
    function Understood(req: Bytes, write: bool, size: nat): (r: Option<nat>)
      ensures r.Some? ==> r.value + size <= disk.Length
    {
      match Cdb.CommandOf(req)
      case Some(cdb) => Place(cdb, write, size)
      case None => None
    }

    function Place(cdb: Cdb.RwCdb, write: bool, size: nat): (r: Option<nat>)
      ensures r.Some? ==> r.value + size <= disk.Length
    {
      var at := BytesIn(cdb.blk, blockSize);
      if cdb.write == write && BytesIn(cdb.count, blockSize) == size && at + size <= disk.Length then Some(at) else None
    }

    // Move k bytes from the disk into a data buffer.
    method Transfer(v: VBuf, at: nat, k: nat)
      requires at + k <= disk.Length && k <= v.size && v.base + v.size <= v.buf.Length && v.buf != disk
      modifies v.buf
      ensures v.buf[..v.base] == old(v.buf[..v.base]) && v.buf[v.base + v.size..] == old(v.buf[v.base + v.size..])
      ensures Contents(v)[..k] == disk[at..at + k]
    {
      AsyncIo.Memcpy(v.buf, v.base, disk, at, k);
      SplicedSlice(old(v.buf[..]), v.base, disk[at..at + k]);
      TakeOfSlice(v.buf[..], v.base, v.size, k);
    }

    // An error is any answer but two zero bytes, status and response.
    method Answer(resp: array<Byte>, success: bool)
      requires resp.Length == Layout.RESPONSE_SIZE
      modifies resp
      ensures Good(VBuf(resp, 0, resp.Length, true, true, 0, resp.Length)) == success
    {
      var status: Byte, response: Byte := *, *;
      if success || AsyncTarget.Success(status, response) {
        status, response := if success then 0 else 2, 0;
      }
      resp[10], resp[11] := status, response;
    }

    // Execute a read into the data buffer and answer in the response buffer, after which the
    // submitter is woken up.  No promise is made about the data buffer beyond what was
    // transferred.
    method ServeRead(task: VirtioTask) returns (rc: int)
      requires Valid() && |task.vbufs| == 3 && task.Valid()
      requires task.vbufs[1].buf.Length == Layout.RESPONSE_SIZE
      requires task.vbufs[1].buf != task.vbufs[2].buf
      requires disk != task.vbufs[1].buf && disk != task.vbufs[2].buf
      modifies this`fates, task`usedBytes, task.vbufs[1].buf, task.vbufs[2].buf
      ensures Told(this) && !Last().Unsent?
      ensures rc == 0 && Good(task.vbufs[1]) <==> Last().Done? || Last().Short?
      ensures rc == 0 && Good(task.vbufs[1]) ==>
        && task.usedBytes == Layout.RESPONSE_SIZE + Moved(Last(), task.vbufs[2].size)
        && (Last().Short? ==> Last().moved < task.vbufs[2].size)
      ensures var v := task.vbufs[2];
              && v.buf[..v.base] == old(v.buf[..v.base]) && v.buf[v.base + v.size..] == old(v.buf[v.base + v.size..])
      ensures var v, at := task.vbufs[2], old(Understood(Contents(task.vbufs[0]), false, task.vbufs[2].size));
              && (Last().Refused? ==> at.None?)
              && (Last().Done? || Last().Short? ==>
                    && at.Some?
                    && var k := Moved(Last(), v.size); k <= v.size && Contents(v)[..k] == disk[at.value..at.value + k])
    {
      var req, v := task.vbufs[0], task.vbufs[2];
      if * {
        Note(Failed);
        rc := -1;
      } else {
        rc := 0;
        var at := Understood(req.buf[req.base..req.base + req.size], false, v.size);
        if at.Some? {
          Fill(task, at.value);
        } else {
          task.usedBytes := 108;
          Answer(task.vbufs[1].buf, false);
          Note(Refused);
        }
      }
    }

    // The device has accepted a read: it moves all that was asked for, less, or fails.
    method Fill(task: VirtioTask, at: nat)
      requires Valid() && |task.vbufs| == 3 && task.Valid() && at + task.vbufs[2].size <= disk.Length
      requires task.vbufs[1].buf.Length == Layout.RESPONSE_SIZE && task.vbufs[1].buf != task.vbufs[2].buf
      requires disk != task.vbufs[1].buf && disk != task.vbufs[2].buf
      modifies this`fates, task`usedBytes, task.vbufs[1].buf, task.vbufs[2].buf
      ensures Told(this) && !Last().Unsent? && !Last().Refused?
      ensures Good(task.vbufs[1]) <==> Last().Done? || Last().Short?
      ensures var v := task.vbufs[2];
              && v.buf[..v.base] == old(v.buf[..v.base]) && v.buf[v.base + v.size..] == old(v.buf[v.base + v.size..])
      ensures var v, k := task.vbufs[2], Moved(Last(), task.vbufs[2].size);
              Last().Done? || Last().Short? ==>
                && task.usedBytes == Layout.RESPONSE_SIZE + k && (Last().Short? ==> k < v.size)
                && k <= v.size && Contents(v)[..k] == disk[at..at + k]
    {
      var v := task.vbufs[2];
      var k: nat := v.size;
      var fails: bool, stops: bool := *, *;
      if stops && v.size > 0 { k :| k < v.size; }
      Answer(task.vbufs[1].buf, !fails);
      if fails {
        task.usedBytes := 108;
        Note(Failed);
      } else {
        task.usedBytes := 108 + k;
        Transfer(v, at, k);
        Note(if k == v.size then Done else Short(k));
      }
    }

    // Execute a write from the data buffer.
    method ServeWrite(task: VirtioTask) returns (rc: int)
      requires Valid() && |task.vbufs| == 3 && task.Valid()
      requires task.vbufs[2].buf.Length == Layout.RESPONSE_SIZE
      requires task.vbufs[1].buf != task.vbufs[2].buf
      requires disk != task.vbufs[1].buf && disk != task.vbufs[2].buf
      modifies this`fates, disk, task`usedBytes, task.vbufs[2].buf
      ensures Told(this) && !Last().Unsent? && !Last().Short?
      ensures rc == 0 && Good(task.vbufs[2]) <==> Last().Done?
      ensures var at := old(Understood(Contents(task.vbufs[0]), true, task.vbufs[1].size));
              && (Last().Refused? ==> at.None?)
              && if Last().Done? then
                   at.Some? && disk[..] == Splice(old(disk[..]), at.value, old(Contents(task.vbufs[1])))
                 else disk[..] == old(disk[..])
    {
      var req, v := task.vbufs[0], task.vbufs[1];
      if * {
        Note(Failed);
        rc := -1;
      } else {
        rc := 0;
        var at := Understood(req.buf[req.base..req.base + req.size], true, v.size);
        if at.Some? {
          Store(task, at.value);
        } else {
          task.usedBytes := 108;
          Answer(task.vbufs[2].buf, false);
          Note(Refused);
        }
      }
    }

    // The device has accepted a write: it executes it or fails.
    method Store(task: VirtioTask, at: nat)
      requires Valid() && |task.vbufs| == 3 && task.Valid() && at + task.vbufs[1].size <= disk.Length
      requires task.vbufs[2].buf.Length == Layout.RESPONSE_SIZE && task.vbufs[1].buf != task.vbufs[2].buf
      requires disk != task.vbufs[1].buf && disk != task.vbufs[2].buf
      modifies this`fates, disk, task`usedBytes, task.vbufs[2].buf
      ensures Told(this) && (Last().Done? || Last().Failed?)
      ensures Good(task.vbufs[2]) <==> Last().Done?
      ensures disk[..] == if Last().Done? then Splice(old(disk[..]), at, old(Contents(task.vbufs[1]))) else old(disk[..])
    {
      var v := task.vbufs[1];
      var fails: bool := *;
      if !fails { AsyncIo.Memcpy(disk, at, v.buf, v.base, v.size); }
      task.usedBytes := 108;
      Answer(task.vbufs[2].buf, !fails);
      Note(if fails then Failed else Done);
    }

    // What became of the command before.
    ghost function Last(): Fate
      requires fates != []
      reads this
    {
      fates[|fates| - 1]
    }
  }

  // One more command was noted.
  twostate predicate Told(target: Target)
    reads target
  {
    && |target.fates| == |old(target.fates)| + 1 && old(target.fates) <= target.fates
    && target.Faults() == old(target.Faults()) + Fault(target.Last())
  }

  // Any number of commands was noted.
  twostate predicate ToldMore(target: Target)
    reads target
  {
    old(target.fates) <= target.fates && target.Faults() >= old(target.Faults())
  }

  // Command k did all it was asked for, or was not issued.
  predicate Works(fates: seq<Fate>, k: nat) { k < |fates| ==> fates[k].Done? }

  // A partial block is read and written back.
  predicate BothWork(fates: seq<Fate>, k: nat) { Works(fates, k) && Works(fates, k + 1) }

  // -------------------------------------------------------------------------
  // Whole blocks
  // -------------------------------------------------------------------------

  // The handle and the target describe the same device.
  predicate Attached(dev: VirtioDev, target: Target) {
    dev.Valid() && target.Valid() && target.blockSize == dev.blockSize && target.numBlocks == dev.numBlocks
  }

  // A range of whole blocks that one command can name.
  predicate BlocksOk(dev: VirtioDev, blk: nat, nblk: nat) {
    blk + nblk <= dev.numBlocks && 0 < nblk < Cdb.CountSpan(dev.numBlocks)
  }

  lemma SplicedSlice(s: Bytes, at: nat, data: Bytes)
    requires at + |data| <= |s|
    ensures Splice(s, at, data)[at..at + |data|] == data
  {
  }

  lemma RangeInside(dev: VirtioDev, target: Target, blk: nat, nblk: nat)
    requires Attached(dev, target) && blk + nblk <= dev.numBlocks
    ensures BytesIn(blk, dev.blockSize) + BytesIn(nblk, dev.blockSize) <= target.disk.Length
  {
    var rest := dev.numBlocks - (blk + nblk);
    assert dev.blockSize * dev.numBlocks == blk * dev.blockSize + nblk * dev.blockSize + rest * dev.blockSize;
  }

  // The device accepts the request that is written for a range of blocks.
  lemma RequestAccepted(dev: VirtioDev, target: Target, blk: nat, nblk: nat, write: bool)
    requires Attached(dev, target) && BlocksOk(dev, blk, nblk)
    ensures BytesIn(blk, dev.blockSize) + BytesIn(nblk, dev.blockSize) <= target.disk.Length
    ensures target.Understood(Cdb.Request(dev.numBlocks, Zeros(Cdb.REQUEST_SIZE), blk, nblk, write), write,
                              BytesIn(nblk, dev.blockSize))
         == Some(BytesIn(blk, dev.blockSize))
  {
    RangeInside(dev, target, blk, nblk);
    Cdb.AddressedInside(dev.numBlocks, blk);
    Cdb.RequestDecodes(dev.numBlocks, Zeros(Cdb.REQUEST_SIZE), blk, nblk, write);
  }

  // Bytes of buf outside [lo, hi) are as before.
  twostate predicate OnlyWithin(buf: array<Byte>, lo: nat, hi: nat)
    requires lo <= hi <= buf.Length
    reads buf
  {
    buf[..lo] == old(buf[..lo]) && buf[hi..] == old(buf[hi..])
  }

  method MakeRead(dev: VirtioDev, target: Target, buf: array<Byte>, base: nat, size: nat, blk: nat, nblk: nat)
    returns (task: VirtioTask?, ok: bool)
    requires base + size <= buf.Length
    requires Attached(dev, target) && BlocksOk(dev, blk, nblk) && size == BytesIn(nblk, dev.blockSize)
    modifies dev.mem
    ensures AsyncIo.Growing(dev.mem, task) && Granted(dev.mem, ok)
    ensures ok ==>
      && task != null && |task.vbufs| == 3
      && task.vbufs[0] == AsyncIo.WholeBuf(task.vbufs[0].buf, false)
      && target.Understood(task.vbufs[0].buf[..], false, size) == Some(BytesIn(blk, dev.blockSize))
      && task.vbufs[1] == AsyncIo.WholeBuf(task.vbufs[1].buf, true) && task.vbufs[1].buf.Length == Layout.RESPONSE_SIZE
      && fresh(task.vbufs[1].buf)
      && task.vbufs[2] == VBuf(buf, base, size, true, false, 0, size)
  {
    var req;
    ok := false;
    task, req := AsyncIo.NewTask(dev, 3);
    if req != null {
      var resp := task.AllocBuf(dev.mem, Layout.RESPONSE_SIZE, true, true);
      if resp != null {
        task.AddBuf(buf, base, size, true);
        Cdb.CreateRwCdb(dev.numBlocks, req, blk, nblk, false);
        RequestAccepted(dev, target, blk, nblk, false);
        ok := true;
      }
    }
  }

  method MakeWrite(dev: VirtioDev, target: Target, buf: array<Byte>, base: nat, size: nat, blk: nat, nblk: nat)
    returns (task: VirtioTask?, ok: bool)
    requires base + size <= buf.Length
    requires Attached(dev, target) && BlocksOk(dev, blk, nblk) && size == BytesIn(nblk, dev.blockSize)
    modifies dev.mem
    ensures AsyncIo.Growing(dev.mem, task) && Granted(dev.mem, ok)
    ensures ok ==>
      && task != null && |task.vbufs| == 3
      && task.vbufs[0] == AsyncIo.WholeBuf(task.vbufs[0].buf, false)
      && target.Understood(task.vbufs[0].buf[..], true, size) == Some(BytesIn(blk, dev.blockSize))
      && task.vbufs[1] == VBuf(buf, base, size, false, false, 0, size)
      && task.vbufs[2] == AsyncIo.WholeBuf(task.vbufs[2].buf, true) && task.vbufs[2].buf.Length == Layout.RESPONSE_SIZE
      && fresh(task.vbufs[2].buf)
  {
    var req;
    ok := false;
    task, req := AsyncIo.NewTask(dev, 3);
    if req != null {
      task.AddBuf(buf, base, size, false);
      var resp := task.AllocBuf(dev.mem, Layout.RESPONSE_SIZE, true, true);
      if resp != null {
        Cdb.CreateRwCdb(dev.numBlocks, req, blk, nblk, true);
        RequestAccepted(dev, target, blk, nblk, true);
        ok := true;
      }
    }
  }

  lemma TakeOfSlice(s: Bytes, base: nat, size: nat, k: nat)
    requires base + size <= |s| && k <= size
    ensures s[base..base + size][..k] == s[base..base + k]
  {
    var x, y := s[base..base + size][..k], s[base..base + k];
    forall i | 0 <= i < k ensures x[i] == y[i] {
      assert x[i] == s[base + i];
    }
  }

  // Run a read task and look at the answer.
  method RunRead(target: Target, task: VirtioTask, buf: array<Byte>, base: nat, size: nat, ghost at: nat) returns (rc: int)
    requires target.Valid() && task.Valid() && |task.vbufs| == 3 && buf != target.disk && base + size <= buf.Length
    requires task.vbufs[1].buf.Length == Layout.RESPONSE_SIZE && task.vbufs[1].buf != buf
    requires target.disk != task.vbufs[1].buf && task.vbufs[2] == VBuf(buf, base, size, true, false, 0, size)
    requires target.Understood(Contents(task.vbufs[0]), false, size) == Some(at)
    modifies target`fates, task`usedBytes, task.vbufs[1].buf, buf
    ensures Told(target) && Ended(target.Last(), size) && !target.Last().Unsent? && rc == Reported(target.Last(), size)
    ensures OnlyWithin(buf, base, base + size)
    ensures rc >= 0 ==> buf[base..base + rc] == target.disk[at..at + rc]
  {
    rc := -1;
    var sync := target.ServeRead(task);
    if sync == 0 && Good(task.vbufs[1]) {
      rc := task.usedBytes - Layout.RESPONSE_SIZE;
      TakeOfSlice(buf[..], base, size, rc);
    }
  }

  // How a command of the driver for `size` bytes can end: the device accepts it.
  predicate Ended(f: Fate, size: nat) { !f.Refused? && (f.Short? ==> f.moved < size) }

  // Allocation of a task may fail; that is a fate of its command, too.
  method BlkRead(dev: VirtioDev, target: Target, buf: array<Byte>, base: nat, blk: nat, nblk: nat) returns (rc: int)
    requires Attached(dev, target) && BlocksOk(dev, blk, nblk) && buf != target.disk
    requires base + BytesIn(nblk, dev.blockSize) <= buf.Length
    modifies dev.mem, target`fates, buf
    ensures Told(target) && Ended(target.Last(), BytesIn(nblk, dev.blockSize))
    ensures rc == Reported(target.Last(), BytesIn(nblk, dev.blockSize))
    ensures Granted(dev.mem, !target.Last().Unsent?) && dev.mem.live == old(dev.mem.live)
    ensures OnlyWithin(buf, base, base + BytesIn(nblk, dev.blockSize))
    ensures rc >= 0 ==>
      && BytesIn(blk, dev.blockSize) + rc <= target.disk.Length
      && buf[base..base + rc] == target.disk[BytesIn(blk, dev.blockSize)..BytesIn(blk, dev.blockSize) + rc]
  {
    RangeInside(dev, target, blk, nblk);
    var task, ok := MakeRead(dev, target, buf, base, BytesIn(nblk, dev.blockSize), blk, nblk);
    rc := -1;
    if ok {
      assert Contents(task.vbufs[0]) == task.vbufs[0].buf[..];
      rc := RunRead(target, task, buf, base, BytesIn(nblk, dev.blockSize), BytesIn(blk, dev.blockSize));
      task.Destroy(dev.mem);
    } else {
      target.Note(Unsent);
      if task != null { task.Destroy(dev.mem); }
    }
  }

  method BlkWrite(dev: VirtioDev, target: Target, buf: array<Byte>, base: nat, blk: nat, nblk: nat) returns (rc: int)
    requires Attached(dev, target) && BlocksOk(dev, blk, nblk) && buf != target.disk
    requires base + BytesIn(nblk, dev.blockSize) <= buf.Length
    modifies dev.mem, target`fates, target.disk
    ensures Told(target) && Ended(target.Last(), 0) && rc == Reported(target.Last(), BytesIn(nblk, dev.blockSize))
    ensures Granted(dev.mem, !target.Last().Unsent?) && dev.mem.live == old(dev.mem.live)
    ensures rc == -1 ==> target.disk[..] == old(target.disk[..])
    ensures rc >= 0 ==>
      && BytesIn(blk, dev.blockSize) + rc <= target.disk.Length
      && target.disk[..] == Splice(old(target.disk[..]), BytesIn(blk, dev.blockSize), buf[base..base + rc])
  {
    RangeInside(dev, target, blk, nblk);
    var task, ok := MakeWrite(dev, target, buf, base, BytesIn(nblk, dev.blockSize), blk, nblk);
    rc := -1;
    if ok {
      assert Contents(task.vbufs[0]) == task.vbufs[0].buf[..];
      var sync := target.ServeWrite(task);
      if sync == 0 && Good(task.vbufs[2]) {
        rc := BytesIn(nblk, dev.blockSize);
      }
      task.Destroy(dev.mem);
    } else {
      target.Note(Unsent);
      if task != null { task.Destroy(dev.mem); }
    }
  }

  // -------------------------------------------------------------------------
  // Arithmetic of positions
  // -------------------------------------------------------------------------

  // Blocks that end within the device.
  lemma BlocksFit(dev: VirtioDev, blk: nat, nblk: nat, pos: nat, m: nat)
    requires dev.Valid() && BytesIn(blk, dev.blockSize) == pos && nblk == m / dev.blockSize && pos + m <= dev.cap
    ensures blk + nblk <= dev.numBlocks && BytesIn(nblk, dev.blockSize) <= m < BytesIn(nblk, dev.blockSize) + dev.blockSize
    ensures BytesIn(blk + nblk, dev.blockSize) == pos + BytesIn(nblk, dev.blockSize)
    ensures m % dev.blockSize != 0 ==> blk + nblk < dev.numBlocks
    ensures (m - BytesIn(nblk, dev.blockSize)) % dev.blockSize == m - BytesIn(nblk, dev.blockSize) == m % dev.blockSize
  {
    var bs := dev.blockSize;
    assert m == bs * nblk + m % bs;
    var d := dev.numBlocks - (blk + nblk);
    assert bs * d == bs * dev.numBlocks - bs * blk - bs * nblk;
    Multiples(bs, d);
    Layout.SmallRemainder(bs, m % bs);
  }

  // The block that holds a byte, and where in the block it is.
  method BlockAt(dev: VirtioDev, offset: nat) returns (blk: nat, resid: nat)
    requires dev.Valid() && offset <= dev.cap
    ensures blk == offset / dev.blockSize && resid == offset % dev.blockSize < dev.blockSize
    ensures BytesIn(blk, dev.blockSize) + resid == offset
    ensures BytesIn(blk + 1, dev.blockSize) == BytesIn(blk, dev.blockSize) + dev.blockSize
    ensures resid > 0 ==> blk < dev.numBlocks
  {
    blk, resid := offset / dev.blockSize, offset % dev.blockSize;
    if resid > 0 { Layout.BlockInside(dev.blockSize, dev.numBlocks, offset); }
  }

  // -------------------------------------------------------------------------
  // The commands of a range of bytes
  // -------------------------------------------------------------------------

  // A command for `size` bytes from byte `pos` of the disk; `partial` if it is for a block of
  // which only a part belongs to the range.
  datatype Order = Order(pos: nat, size: nat, partial: bool)

  function FirstOrder(bs: nat, off: nat): seq<Order>
    requires bs > 0
  {
    if off % bs != 0 then [Order(Start(bs, off), bs, true)] else []
  }

  function WholeOrder(bs: nat, pos: nat, nblk: nat): seq<Order> {
    if nblk > 0 then [Order(pos, BytesIn(nblk, bs), false)] else []
  }

  function LastOrder(bs: nat, pos: nat, rest: nat): seq<Order> {
    if rest > 0 then [Order(pos, bs, true)] else []
  }

  // The commands of a range in order.  To write a part of a block takes two: it is read, and
  // written back.
  function Orders(bs: nat, off: nat, n: nat, write: bool): seq<Order>
    requires bs > 0
  {
    if n == 0 then []
    else
      var first := FirstOrder(bs, off);
      var whole := WholeOrder(bs, off + Head(bs, off, n), Whole(bs, off, n));
      RangeFacts(bs, off, n);
      var last := LastOrder(bs, off + Full(bs, off, n), n - Full(bs, off, n));
      (if write then first + first else first) + whole + (if write then last + last else last)
  }

  // The commands are issued one after the other, up to the first that is not done.
  ghost predicate Ran(cs: seq<Order>, fs: seq<Fate>) {
    && |fs| <= |cs| && (forall i :: 0 <= i < |fs| - 1 ==> fs[i].Done?)
    && (|fs| < |cs| ==> fs != [] && !fs[|fs| - 1].Done?)
  }

  // What is reported for the n bytes from byte `off`, of which the last command issued decides.
  function Outcome(cs: seq<Order>, off: nat, n: nat, fs: seq<Fate>): int
    requires |fs| <= |cs|
  {
    if fs == [] || fs[|fs| - 1].Done? then n
    else
      var c := cs[|fs| - 1];
      if c.partial then -1 else c.pos + Moved(fs[|fs| - 1], c.size) - off
  }

  // A function has issued commands of cs and found out r.
  twostate predicate RanTo(target: Target, cs: seq<Order>, off: nat, n: nat, r: int)
    reads target
  {
    && old(target.fates) <= target.fates && Ran(cs, target.fates[|old(target.fates)|..])
    && r == Outcome(cs, off, n, target.fates[|old(target.fates)|..])
  }

  // After commands that are done come others.
  lemma Continues(f0: seq<Fate>, f1: seq<Fate>, f2: seq<Fate>, cs1: seq<Order>, cs2: seq<Order>, off: nat, n: nat)
    requires f0 <= f1 <= f2 && |f1| == |f0| + |cs1| && (forall i :: |f0| <= i < |f1| ==> f1[i].Done?)
    requires Ran(cs2, f2[|f1|..])
    ensures Ran(cs1 + cs2, f2[|f0|..])
    ensures Outcome(cs1 + cs2, off, n, f2[|f0|..]) == Outcome(cs2, off, n, f2[|f1|..])
  {
    var fs, rest := f2[|f0|..], f2[|f1|..];
    assert fs == f1[|f0|..] + rest;
    forall i | 0 <= i < |fs| - 1 ensures fs[i].Done? {
      if i < |cs1| { assert fs[i] == f1[|f0| + i]; } else { assert fs[i] == rest[i - |cs1|]; }
    }
  }

  // A range within one block, which does not reach its end.
  lemma OrdersInside(bs: nat, off: nat, n: nat)
    requires bs > 0 && n > 0 && off % bs != 0 && off % bs + n < bs
    ensures Orders(bs, off, n, false) == FirstOrder(bs, off)
  {
    RangeFacts(bs, off, n);
  }

  // A range that reaches `done`, the end of its first block.
  lemma OrdersBeyond(bs: nat, off: nat, n: nat, done: nat, nblk: nat)
    requires bs > 0 && n > 0 && done <= n && done == (if off % bs == 0 then 0 else bs - off % bs)
    requires nblk == (n - done) / bs && BytesIn(nblk, bs) <= n - done
    ensures Orders(bs, off, n, false)
         == FirstOrder(bs, off)
            + (WholeOrder(bs, off + done, nblk)
               + LastOrder(bs, off + done + BytesIn(nblk, bs), n - done - BytesIn(nblk, bs)))
  {
    assert done == Head(bs, off, n);
    if done == n { Layout.SmallRemainder(bs, 0); }
  }

  // -------------------------------------------------------------------------
  // Reading
  // -------------------------------------------------------------------------

  // Bytes of one block, up to its end.
  function InBlock(bs: nat, offStart: nat, nbytes: nat): nat
    requires offStart <= bs
  {
    if offStart + nbytes > bs then bs - offStart else nbytes
  }

  lemma SubSlice(a: Bytes, b: Bytes, at: nat, off: nat, n: nat)
    requires off + n <= |a| && at + |a| <= |b| && a == b[at..at + |a|]
    ensures a[off..off + n] == b[at + off..at + off + n]
  {
    var x, y := a[off..off + n], b[at + off..at + off + n];
    forall i | 0 <= i < n ensures x[i] == y[i] {
      assert x[i] == a[off + i];
    }
  }

  method ReadPartialBlock(dev: VirtioDev, target: Target, blk: nat, offStart: nat, data: array<Byte>, base: nat, nbytes: nat)
    returns (rc: int)
    requires Attached(dev, target) && blk < dev.numBlocks && offStart < dev.blockSize && data != target.disk
    requires base + InBlock(dev.blockSize, offStart, nbytes) <= data.Length
    modifies dev.mem, target`fates, data
    ensures Told(target) && Ended(target.Last(), dev.blockSize) && dev.mem.live == old(dev.mem.live)
    ensures rc == if target.Last().Done? then InBlock(dev.blockSize, offStart, nbytes) else -1
    ensures rc == -1 ==> data[..] == old(data[..])
    ensures rc >= 0 ==>
      var at := BytesIn(blk, dev.blockSize) + offStart;
      && at + rc <= target.disk.Length && data[..] == Splice(old(data[..]), base, target.disk[at..at + rc])
  {
    var blkBuf := new Byte[dev.blockSize];
    dev.mem.live := dev.mem.live + {blkBuf};
    var n := InBlock(dev.blockSize, offStart, nbytes);
    var ok := ReadBlock(dev, target, blkBuf, blk);
    rc := -1;
    if ok {
      SubSlice(blkBuf[..], target.disk[..], BytesIn(blk, dev.blockSize), offStart, n);
      AsyncIo.Memcpy(data, base, blkBuf, offStart, n);
      rc := n;
    }
    dev.mem.Free(blkBuf);
  }

  // The first `done` bytes are in the user's buffer.
  ghost predicate HasRead(target: Target, buf: array<Byte>, offset: nat, done: nat)
    reads buf, target.disk
  {
    && done <= buf.Length && offset + done <= target.disk.Length
    && buf[..done] == target.disk[offset..offset + done]
  }

  lemma ReadMore(before: Bytes, after: Bytes, disk: Bytes, offset: nat, done: nat, k: nat)
    requires |before| == |after| && done + k <= |before| && offset + done + k <= |disk|
    requires before[..done] == disk[offset..offset + done] && after[..done] == before[..done]
    requires after[done..done + k] == disk[offset + done..offset + done + k]
    ensures after[..done + k] == disk[offset..offset + done + k]
  {
    var x, y := after[..done + k], disk[offset..offset + done + k];
    forall i | 0 <= i < done + k ensures x[i] == y[i] {
      if i < done {
        assert after[..done][i] == before[..done][i] == disk[offset..offset + done][i];
      } else {
        assert after[done..done + k][i - done] == disk[offset + done..offset + done + k][i - done];
      }
    }
  }

  // Bytes wanted of the last block.
  method LastBytes(dev: VirtioDev, m: nat, ghost blk: nat) returns (resid: nat)
    requires Remains(dev, m, blk)
    ensures resid == m
  {
    assert Ask(Topic.Geometry, 0);
    resid := m % dev.blockSize;
  }

  // Partial read of the last block.
  method ReadLast(dev: VirtioDev, target: Target, buf: array<Byte>, offset: nat, n: nat, done: nat, blk: nat) returns (r: int)
    requires Attached(dev, target) && buf != target.disk && n <= buf.Length && offset + n <= dev.cap
    requires done <= n && BytesIn(blk, dev.blockSize) == offset + done && HasRead(target, buf, offset, done)
    requires Remains(dev, n - done, blk)
    modifies dev.mem, target`fates, buf
    ensures ToldMore(target) && dev.mem.live == old(dev.mem.live)
    ensures RanTo(target, LastOrder(dev.blockSize, offset + done, n - done), offset, n, r)
    ensures r == n || (r == -1 && target.Faults() > old(target.Faults()))
    ensures r >= 0 ==> HasRead(target, buf, offset, r)
    ensures OnlyWithin(buf, 0, n)
  {
    var resid := LastBytes(dev, n - done, blk);
    r := n;
    if resid != 0 {
      ghost var before := buf[..];
      var ret := ReadPartialBlock(dev, target, blk, 0, buf, done, resid);
      if ret < 0 {
        r := -1;
      } else {
        SplicedSlice(before, done, target.disk[offset + done..offset + n]);
        ReadMore(before, buf[..], target.disk[..], offset, done, resid);
        assert target.disk[..][offset..offset + n] == target.disk[offset..offset + n];
      }
    }
  }

  // Whole blocks from blk on, and a last block of which `last` bytes are wanted.
  ghost predicate Tiles(dev: VirtioDev, pos: nat, m: nat, blk: nat, nblk: nat) {
    && BytesIn(blk, dev.blockSize) == pos && BytesIn(blk + nblk, dev.blockSize) == pos + BytesIn(nblk, dev.blockSize)
    && blk + nblk <= dev.numBlocks && nblk < Cdb.CountSpan(dev.numBlocks)
    && BytesIn(nblk, dev.blockSize) <= m
    && Remains(dev, m - BytesIn(nblk, dev.blockSize), blk + nblk)
  }

  // Less than a block remains, at the start of block blk.
  ghost predicate Remains(dev: VirtioDev, rest: int, blk: nat) {
    && dev.blockSize > 0 && 0 <= rest < dev.blockSize && (rest > 0 ==> blk < dev.numBlocks)
    && forall k {:trigger Ask(Topic.Geometry, k)} :: Ask(Topic.Geometry, k) ==>
         rest % dev.blockSize == rest
  }

  lemma FewerBlocks(bs: nat, m: nat, n: nat)
    requires bs > 0 && m <= n
    ensures m / bs <= n / bs
  {
    var d := n / bs - m / bs;
    assert bs * d == bs * (n / bs) - bs * (m / bs);
    Multiples(bs, d);
  }

  lemma TilesUp(dev: VirtioDev, pos: nat, m: nat, blk: nat)
    requires dev.Valid() && BytesIn(blk, dev.blockSize) == pos && pos + m <= dev.cap
    requires m / dev.blockSize < Cdb.CountSpan(dev.numBlocks)
    ensures Tiles(dev, pos, m, blk, m / dev.blockSize)
  {
    BlocksFit(dev, blk, m / dev.blockSize, pos, m);
  }

  // The one command for the whole blocks of a range can name their number.
  predicate CountFits(dev: VirtioDev, offset: nat, n: nat) {
    dev.blockSize > 0 && Whole(dev.blockSize, offset, n) < Cdb.CountSpan(dev.numBlocks)
  }

  // A shorter range from the same offset has no more whole blocks.
  lemma WholeShrinks(bs: nat, off: nat, m: nat, n: nat)
    requires bs > 0 && m <= n
    ensures Whole(bs, off, m) <= Whole(bs, off, n)
  {
    var h := Head(bs, off, m);
    if h < m { FewerBlocks(bs, m - h, n - h); }
  }

  // Whole blocks, then the last block.
  method ReadBlocks(dev: VirtioDev, target: Target, buf: array<Byte>, offset: nat, n: nat, done: nat, blk: nat, nblk: nat)
    returns (r: int)
    requires Attached(dev, target) && buf != target.disk && n <= buf.Length && offset + n <= dev.cap
    requires done <= n && HasRead(target, buf, offset, done) && Tiles(dev, offset + done, n - done, blk, nblk)
    modifies dev.mem, target`fates, buf
    ensures ToldMore(target) && dev.mem.live == old(dev.mem.live)
    ensures RanTo(target, RestOrders(dev.blockSize, offset, n, done, nblk), offset, n, r)
    ensures -1 <= r <= n && (r == n || target.Faults() > old(target.Faults()))
    ensures r >= 0 ==> HasRead(target, buf, offset, r)
    ensures OnlyWithin(buf, 0, n)
  {
    ghost var f0 := target.fates;
    var ret := ReadWhole(dev, target, buf, offset, n, done, blk, nblk);
    if ret < BytesIn(nblk, dev.blockSize) {
      r := if ret < 0 then done else done + ret;
      WholeEnds(dev.blockSize, offset, n, done, nblk, target.fates[|f0|..]);
    } else {
      ghost var f1 := target.fates;
      r := ReadLast(dev, target, buf, offset, n, done + ret, blk + nblk);
      WholeAndLast(dev.blockSize, offset, n, done, nblk, f0, f1, target.fates);
    }
  }

  // The command for the whole blocks is not done: no other is issued.
  lemma WholeEnds(bs: nat, offset: nat, n: nat, done: nat, nblk: nat, fs: seq<Fate>)
    requires nblk > 0 && done + BytesIn(nblk, bs) <= n && |fs| == 1 && !fs[0].Done?
    ensures Ran(RestOrders(bs, offset, n, done, nblk), fs)
    ensures Outcome(RestOrders(bs, offset, n, done, nblk), offset, n, fs) == done + Moved(fs[0], BytesIn(nblk, bs))
  {
    assert RestOrders(bs, offset, n, done, nblk)[0] == Order(offset + done, BytesIn(nblk, bs), false);
  }

  // It is done, or there is none.
  lemma WholeAndLast(bs: nat, offset: nat, n: nat, done: nat, nblk: nat, f0: seq<Fate>, f1: seq<Fate>, f2: seq<Fate>)
    requires done + BytesIn(nblk, bs) <= n && f0 <= f1 <= f2
    requires if nblk == 0 then f1 == f0 else |f1| == |f0| + 1 && f1[|f0|].Done?
    requires Ran(LastOrder(bs, offset + done + BytesIn(nblk, bs), n - done - BytesIn(nblk, bs)), f2[|f1|..])
    ensures Ran(RestOrders(bs, offset, n, done, nblk), f2[|f0|..])
    ensures Outcome(RestOrders(bs, offset, n, done, nblk), offset, n, f2[|f0|..])
         == Outcome(LastOrder(bs, offset + done + BytesIn(nblk, bs), n - done - BytesIn(nblk, bs)), offset, n, f2[|f1|..])
  {
    Continues(f0, f1, f2, WholeOrder(bs, offset + done, nblk),
              LastOrder(bs, offset + done + BytesIn(nblk, bs), n - done - BytesIn(nblk, bs)), offset, n);
  }

  // The commands after the first block.
  function RestOrders(bs: nat, offset: nat, n: nat, done: nat, nblk: nat): seq<Order>
    requires done + BytesIn(nblk, bs) <= n
  {
    WholeOrder(bs, offset + done, nblk) + LastOrder(bs, offset + done + BytesIn(nblk, bs), n - done - BytesIn(nblk, bs))
  }

  // The whole blocks, if there are any.
  method ReadWhole(dev: VirtioDev, target: Target, buf: array<Byte>, offset: nat, n: nat, done: nat, blk: nat, nblk: nat)
    returns (ret: int)
    requires Attached(dev, target) && buf != target.disk && n <= buf.Length && offset + n <= dev.cap
    requires done <= n && HasRead(target, buf, offset, done) && Tiles(dev, offset + done, n - done, blk, nblk)
    modifies dev.mem, target`fates, buf
    ensures if nblk == 0 then ret == 0 && target.fates == old(target.fates) && target.Faults() == old(target.Faults())
            else
              && Told(target) && Ended(target.Last(), BytesIn(nblk, dev.blockSize))
              && ret == Reported(target.Last(), BytesIn(nblk, dev.blockSize))
    ensures dev.mem.live == old(dev.mem.live)
    ensures HasRead(target, buf, offset, if ret < 0 then done else done + ret)
    ensures OnlyWithin(buf, 0, n)
  {
    ret := 0;
    if nblk > 0 {
      ghost var before := buf[..];
      ret := BlkRead(dev, target, buf, done, blk, nblk);
      KeptPrefix(before, buf[..], done, done);
      if ret >= 0 {
        ReadMore(before, buf[..], target.disk[..], offset, done, ret);
        assert target.disk[..][offset..offset + done + ret] == target.disk[offset..offset + done + ret];
      }
    }
  }

  lemma KeptPrefix(a: Bytes, b: Bytes, lo: nat, k: nat)
    requires |a| == |b| && k <= lo <= |a| && a[..lo] == b[..lo]
    ensures a[..k] == b[..k]
  {
    assert a[..lo][..k] == a[..k] && b[..lo][..k] == b[..k];
  }

  // The partial read of the first block, if there is one; `more` says whether to go on.
  method ReadFirst(dev: VirtioDev, target: Target, buf: array<Byte>, offset: nat, n: nat, blk: nat, resid: nat)
    returns (r: int, more: bool)
    requires Attached(dev, target) && buf != target.disk && n <= buf.Length && offset + n <= dev.cap
    requires resid < dev.blockSize && BytesIn(blk, dev.blockSize) + resid == offset && (resid > 0 ==> blk < dev.numBlocks)
    modifies dev.mem, target`fates, buf
    ensures ToldMore(target) && dev.mem.live == old(dev.mem.live)
    ensures resid == 0 ==> more && r == 0 && target.fates == old(target.fates)
    ensures resid != 0 ==>
      && Told(target) && r == (if target.Last().Done? then InBlock(dev.blockSize, resid, n) else -1)
      && (more <==> r == dev.blockSize - resid)
    ensures OnlyWithin(buf, 0, n) && -1 <= r <= n
    ensures r >= 0 ==> HasRead(target, buf, offset, r)
    ensures !more ==> r == n || target.Faults() > old(target.Faults())
  {
    r, more := 0, true;
    if resid != 0 {
      ghost var before := buf[..];
      r := ReadPartialBlock(dev, target, blk, resid, buf, 0, n);
      if r >= 0 { SplicedSlice(before, 0, target.disk[offset..offset + r]); }
      more := r == dev.blockSize - resid;
    }
  }

  method ReadRest(dev: VirtioDev, target: Target, buf: array<Byte>, offset: nat, n: nat, done: nat, blk: nat)
    returns (r: int)
    requires Attached(dev, target) && buf != target.disk && n <= buf.Length && offset + n <= dev.cap
    requires done <= n && HasRead(target, buf, offset, done)
    requires BytesIn(blk, dev.blockSize) == offset + done && (n - done) / dev.blockSize < Cdb.CountSpan(dev.numBlocks)
    modifies dev.mem, target`fates, buf
    ensures ToldMore(target) && dev.mem.live == old(dev.mem.live)
    ensures BytesIn((n - done) / dev.blockSize, dev.blockSize) <= n - done
    ensures RanTo(target, RestOrders(dev.blockSize, offset, n, done, (n - done) / dev.blockSize), offset, n, r)
    ensures -1 <= r <= n && (r == n || target.Faults() > old(target.Faults()))
    ensures r >= 0 ==> HasRead(target, buf, offset, r)
    ensures OnlyWithin(buf, 0, n)
  {
    TilesUp(dev, offset + done, n - done, blk);
    r := ReadBlocks(dev, target, buf, offset, n, done, blk, (n - done) / dev.blockSize);
  }

  // A range that is not empty: the commands, and what is reported.
  method ReadClipped(dev: VirtioDev, target: Target, buf: array<Byte>, offset: nat, n: nat) returns (r: int)
    requires Attached(dev, target) && buf != target.disk && 0 < n <= buf.Length && offset + n <= dev.cap
    requires CountFits(dev, offset, n)
    modifies dev.mem, target`fates, buf
    ensures ToldMore(target) && dev.mem.live == old(dev.mem.live)
    ensures RanTo(target, Orders(dev.blockSize, offset, n, false), offset, n, r)
    ensures -1 <= r <= n && (r == n || target.Faults() > old(target.Faults()))
    ensures r >= 0 ==> HasRead(target, buf, offset, r)
    ensures OnlyWithin(buf, 0, n)
  {
    ghost var bs, f0 := dev.blockSize, target.fates;
    var blk, resid := BlockAt(dev, offset);
    var more;
    r, more := ReadFirst(dev, target, buf, offset, n, blk, resid);
    if more {
      ghost var done, f1 := r, target.fates;
      r := ReadRest(dev, target, buf, offset, n, r, if resid != 0 then blk + 1 else blk);
      FirstAndRest(bs, offset, n, done, f0, f1, target.fates);
    } else if r < 0 {
      FirstFails(bs, offset, n, target.fates[|f0|..]);
    } else {
      OrdersInside(bs, offset, n);
    }
  }

  // The commands after the first block follow on its command.
  lemma FirstAndRest(bs: nat, off: nat, n: nat, done: nat, f0: seq<Fate>, f1: seq<Fate>, f2: seq<Fate>)
    requires bs > 0 && n > 0 && done <= n && done == (if off % bs == 0 then 0 else bs - off % bs)
    requires BytesIn((n - done) / bs, bs) <= n - done && f0 <= f1 <= f2
    requires if off % bs == 0 then f1 == f0 else |f1| == |f0| + 1 && f1[|f0|].Done?
    requires Ran(RestOrders(bs, off, n, done, (n - done) / bs), f2[|f1|..])
    ensures Ran(Orders(bs, off, n, false), f2[|f0|..])
    ensures Outcome(Orders(bs, off, n, false), off, n, f2[|f0|..])
         == Outcome(RestOrders(bs, off, n, done, (n - done) / bs), off, n, f2[|f1|..])
  {
    OrdersBeyond(bs, off, n, done, (n - done) / bs);
    Continues(f0, f1, f2, FirstOrder(bs, off), RestOrders(bs, off, n, done, (n - done) / bs), off, n);
  }

  lemma FirstFails(bs: nat, off: nat, n: nat, fs: seq<Fate>)
    requires bs > 0 && n > 0 && off % bs != 0 && |fs| == 1 && !fs[0].Done?
    ensures Ran(Orders(bs, off, n, false), fs) && Outcome(Orders(bs, off, n, false), off, n, fs) == -1
  {
    assert Orders(bs, off, n, false)[0] == FirstOrder(bs, off)[0];
  }

  // Transfers min(nbytes, cap - offset) bytes unless something fails; a result that is not
  // negative is always the length of the prefix that was read.
  method ReadVirtioDev(dev: VirtioDev, target: Target, buf: array<Byte>, offset: nat, nbytes: nat) returns (r: int)
    requires Attached(dev, target) && buf != target.disk && nbytes <= buf.Length
    requires offset <= dev.cap ==> CountFits(dev, offset, Clip(dev.cap, offset, nbytes))
    modifies dev.mem, target`fates, buf
    ensures ToldMore(target) && dev.mem.live == old(dev.mem.live)
    ensures offset > dev.cap ==> r == -1 && buf[..] == old(buf[..]) && target.fates == old(target.fates)
    ensures offset <= dev.cap ==>
      var n := Clip(dev.cap, offset, nbytes);
      && RanTo(target, Orders(dev.blockSize, offset, n, false), offset, n, r)
      && -1 <= r <= n && (r == n || target.Faults() > old(target.Faults()))
      && (r >= 0 ==> HasRead(target, buf, offset, r))
      && OnlyWithin(buf, 0, n)
  {
    if offset > dev.cap {
      r := -1;
    } else {
      var n := Clip(dev.cap, offset, nbytes);
      r := 0;
      if n > 0 { r := ReadClipped(dev, target, buf, offset, n); }
    }
  }

  // -------------------------------------------------------------------------
  // What the result of a read means
  // -------------------------------------------------------------------------

  // Commands for one range of the disk, one after the other without a gap; the partial ones
  // reach beyond the n bytes from byte `off`.
  predicate Tiled(cs: seq<Order>, off: nat, n: nat) {
    && (forall i :: 0 <= i < |cs| ==> cs[i].pos < off + n && off < cs[i].pos + cs[i].size)
    && (forall i :: 0 <= i < |cs| ==> (cs[i].partial <==> cs[i].pos < off || off + n < cs[i].pos + cs[i].size))
    && (forall i, next :: 0 <= i && next == i + 1 < |cs| ==> cs[next].pos == cs[i].pos + cs[i].size)
    && if cs == [] then n == 0 else cs[0].pos <= off && off + n <= cs[|cs| - 1].pos + cs[|cs| - 1].size
  }

  // The first `head` of the n bytes are in a block that starts before them, and `full` of them
  // up to the end of the whole blocks.
  lemma PartsTiled(first: seq<Order>, whole: seq<Order>, last: seq<Order>, off: nat, n: nat, bs: nat, start: nat,
                   head: nat, full: nat)
    requires n > 0 && head <= full <= n < full + bs
    requires if head == 0 then first == [] else
               first == [Order(start, bs, true)] && start < off < start + bs
               && (if head < n then off + head == start + bs else off + n <= start + bs)
    requires whole == if full > head then [Order(off + head, full - head, false)] else []
    requires last == if full < n then [Order(off + full, bs, true)] else []
    ensures Tiled(first + whole + last, off, n)
  {
  }

  // Where these parts end.
  lemma PartEnds(bs: nat, off: nat, n: nat)
    requires bs > 0 && n > 0
    ensures Full(bs, off, n) == Head(bs, off, n) + BytesIn(Whole(bs, off, n), bs)
    ensures Whole(bs, off, n) > 0 <==> Full(bs, off, n) > Head(bs, off, n)
    ensures Full(bs, off, n) <= n < Full(bs, off, n) + bs
    ensures if off % bs == 0 then Head(bs, off, n) == 0 else
              && Head(bs, off, n) > 0 && Start(bs, off) < off < Start(bs, off) + bs
              && (if Head(bs, off, n) < n then off + Head(bs, off, n) == Start(bs, off) + bs
                  else off + n <= Start(bs, off) + bs)
  {
    RangeFacts(bs, off, n);
    var w := Whole(bs, off, n);
    Multiples(bs, w);
    assert w * bs == bs * w;
  }

  lemma OrdersTiled(bs: nat, off: nat, n: nat)
    requires bs > 0
    ensures Tiled(Orders(bs, off, n, false), off, n)
  {
    if n > 0 {
      PartEnds(bs, off, n);
      var head, full, w := Head(bs, off, n), Full(bs, off, n), Whole(bs, off, n);
      var first, whole, last := FirstOrder(bs, off), WholeOrder(bs, off + head, w), LastOrder(bs, off + full, n - full);
      PartsTiled(first, whole, last, off, n, bs, Start(bs, off), head, full);
      assert Orders(bs, off, n, false) == first + whole + last;
    }
  }

  // Byte y of the disk was moved by a command.
  predicate Transferred(cs: seq<Order>, fs: seq<Fate>, y: nat)
    requires |fs| <= |cs|
  {
    exists i :: 0 <= i < |fs| && cs[i].pos <= y < cs[i].pos + Moved(fs[i], cs[i].size)
  }

  lemma {:induction false} TiledCovers(cs: seq<Order>, off: nat, n: nat, l: nat, y: nat) returns (i: nat)
    requires Tiled(cs, off, n) && l < |cs| && off <= y < cs[l].pos
    ensures i < l && cs[i].pos <= y < cs[i].pos + cs[i].size
  {
    assert l > 0;
    var next := l;
    i := l - 1;
    assert cs[next].pos == cs[i].pos + cs[i].size;
    if y < cs[i].pos { i := TiledCovers(cs, off, n, i, y); }
  }

  lemma {:induction false} TiledRises(cs: seq<Order>, off: nat, n: nat, i: nat, l: nat)
    requires Tiled(cs, off, n) && i < l < |cs|
    ensures cs[i].pos + cs[i].size <= cs[l].pos
  {
    var before, next := l - 1, l;
    assert cs[next].pos == cs[before].pos + cs[before].size;
    if i < before { TiledRises(cs, off, n, i, before); }
  }

  // Of a range that is read -1 is reported exactly if the command that was not done is for a
  // block of which the range covers a part.  Otherwise just the bytes before the first one
  // that no command has moved are reported.
  lemma ReadPrefix(bs: nat, off: nat, n: nat, fs: seq<Fate>)
    requires bs > 0 && Ran(Orders(bs, off, n, false), fs)
    requires var cs := Orders(bs, off, n, false); fs != [] ==> Ended(fs[|fs| - 1], cs[|fs| - 1].size)
    ensures var cs := Orders(bs, off, n, false);
            var r := Outcome(cs, off, n, fs);
            && (r == -1 <==> fs != [] && !fs[|fs| - 1].Done? &&
                               (cs[|fs| - 1].pos < off || off + n < cs[|fs| - 1].pos + cs[|fs| - 1].size))
            && -1 <= r <= n
            && (forall y :: off <= y < off + r ==> Transferred(cs, fs, y))
            && (0 <= r < n ==> !Transferred(cs, fs, off + r))
  {
    var cs := Orders(bs, off, n, false);
    var r := Outcome(cs, off, n, fs);
    OrdersTiled(bs, off, n);
    if fs != [] {
      var l := |fs| - 1;
      forall y | off <= y < off + r
        ensures Transferred(cs, fs, y)
      {
        if y < cs[l].pos {
          var i := TiledCovers(cs, off, n, l, y);
          assert fs[i].Done?;
        }
      }
      if 0 <= r < n {
        forall i | 0 <= i < |fs| && cs[i].pos <= off + r < cs[i].pos + Moved(fs[i], cs[i].size)
          ensures false
        {
          if i < l { TiledRises(cs, off, n, i, l); }
        }
      }
    }
  }

  // -------------------------------------------------------------------------
  // Writing
  // -------------------------------------------------------------------------

  // `after` is `before` with data written at `at`; only seen by lemmas that ask for it.
  ghost predicate Overwritten(after: Bytes, before: Bytes, at: nat, data: Bytes)
    requires at + |data| <= |before|
  {
    forall k {:trigger Ask(Topic.Splicing, k)} :: Ask(Topic.Splicing, k) ==>
      after == Splice(before, at, data)
  }

  // A block that is overwritten in part, put back, is a splice of the part.
  lemma BlockSplice(disk: Bytes, p: nat, off: nat, pos: nat, data: Bytes, block: Bytes, after: Bytes)
    requires p + |block| <= |disk| && off + |data| <= |block| && pos == p + off
    requires block == Splice(disk[p..p + |block|], off, data)
    requires after == Splice(disk, p, block)
    ensures Overwritten(after, disk, pos, data)
  {
    assert Splice(disk, p, block) == Splice(disk, p + off, data);
  }

  lemma SpliceAppend(disk: Bytes, at: nat, a: Bytes, b: Bytes)
    requires at + |a| + |b| <= |disk|
    ensures Splice(Splice(disk, at, a), at + |a|, b) == Splice(disk, at, a + b)
  {
  }

  // One whole block, or nothing that may be relied on.
  method ReadBlock(dev: VirtioDev, target: Target, blkBuf: array<Byte>, blk: nat) returns (ok: bool)
    requires Attached(dev, target) && blk < dev.numBlocks && blkBuf != target.disk && blkBuf.Length == dev.blockSize
    modifies dev.mem, target`fates, blkBuf
    ensures Told(target) && Ended(target.Last(), dev.blockSize) && (target.Last().Done? <==> ok)
    ensures dev.mem.live == old(dev.mem.live)
    ensures BytesIn(blk, dev.blockSize) + dev.blockSize <= target.disk.Length
    ensures ok ==> blkBuf[..] == target.disk[BytesIn(blk, dev.blockSize)..BytesIn(blk, dev.blockSize) + dev.blockSize]
  {
    RangeInside(dev, target, blk, 1);
    var got := BlkRead(dev, target, blkBuf, 0, blk, 1);
    ok := got == dev.blockSize;
    assert blkBuf[0..dev.blockSize] == blkBuf[..];
  }

  // Put a block back that differs from the disk only in `bytes`.
  method PutBack(dev: VirtioDev, target: Target, blkBuf: array<Byte>, blk: nat, ghost off: nat, ghost pos: nat,
                 ghost bytes: Bytes)
    returns (ret: int)
    requires Attached(dev, target) && blk < dev.numBlocks && blkBuf != target.disk && blkBuf.Length == dev.blockSize
    requires pos == BytesIn(blk, dev.blockSize) + off && off + |bytes| <= dev.blockSize
    requires BytesIn(blk, dev.blockSize) + dev.blockSize <= target.disk.Length
    requires blkBuf[..] == Splice(target.disk[BytesIn(blk, dev.blockSize)..BytesIn(blk, dev.blockSize) + dev.blockSize],
                                  off, bytes)
    modifies dev.mem, target`fates, target.disk
    ensures Told(target) && Ended(target.Last(), 0) && (target.Last().Done? <==> ret >= 0)
    ensures dev.mem.live == old(dev.mem.live)
    ensures ret == -1 || ret == dev.blockSize
    ensures ret == -1 ==> target.disk[..] == old(target.disk[..])
    ensures ret >= 0 ==> Overwritten(target.disk[..], old(target.disk[..]), pos, bytes)
  {
    ghost var block, disk0 := blkBuf[..], target.disk[..];
    assert blkBuf[0..dev.blockSize] == block;
    ret := BlkWrite(dev, target, blkBuf, 0, blk, 1);
    if ret >= 0 {
      BlockSplice(disk0, BytesIn(blk, dev.blockSize), off, pos, bytes, block, target.disk[..]);
    }
  }

  method WritePartialBlock(dev: VirtioDev, target: Target, blk: nat, offStart: nat, data: array<Byte>, base: nat, nbytes: nat)
    returns (rc: int)
    requires Attached(dev, target) && blk < dev.numBlocks && offStart < dev.blockSize && data != target.disk
    requires base + InBlock(dev.blockSize, offStart, nbytes) <= data.Length
    modifies dev.mem, target`fates, target.disk
    ensures ToldMore(target) && dev.mem.live == old(dev.mem.live)
    ensures rc >= 0 <==> BothWork(target.fates, |old(target.fates)|)
    ensures rc >= 0 ==> |target.fates| == |old(target.fates)| + 2
    ensures rc < 0 ==> target.Faults() > old(target.Faults()) && target.disk[..] == old(target.disk[..])
    ensures rc < 0 || rc == InBlock(dev.blockSize, offStart, nbytes)
    ensures rc >= 0 ==>
      var at := BytesIn(blk, dev.blockSize) + offStart;
      && at + rc <= target.disk.Length
      && Overwritten(target.disk[..], old(target.disk[..]), at, data[base..base + rc])
  {
    var blkBuf := new Byte[dev.blockSize];
    dev.mem.live := dev.mem.live + {blkBuf};
    var n := InBlock(dev.blockSize, offStart, nbytes);
    var ok := ReadBlock(dev, target, blkBuf, blk);
    if !ok {
      dev.mem.Free(blkBuf);
      return -1;
    }
    AsyncIo.Memcpy(blkBuf, offStart, data, base, n);
    var ret := PutBack(dev, target, blkBuf, blk, offStart, BytesIn(blk, dev.blockSize) + offStart, data[base..base + n]);
    dev.mem.Free(blkBuf);
    rc := ret - dev.blockSize + n;
    assert ret >= 0 ==> rc == n;
  }

  // The first `done` bytes of the user's buffer are on the disk, and no more is changed.
  ghost predicate HasWritten(target: Target, disk0: Bytes, buf: array<Byte>, offset: nat, done: nat)
    reads buf, target.disk
  {
    && done <= buf.Length && offset + done <= |disk0| && |disk0| == target.disk.Length
    && Overwritten(target.disk[..], disk0, offset, buf[..done])
  }

  lemma WroteMore(target: Target, disk0: Bytes, before: Bytes, buf: array<Byte>, offset: nat, done: nat, pos: nat, k: nat,
                  upto: nat)
    requires upto == done + k && done + k <= buf.Length && offset + done + k <= |disk0| == |before| == target.disk.Length && pos == offset + done
    requires Overwritten(before, disk0, offset, buf[..done])
    requires Overwritten(target.disk[..], before, pos, buf[done..done + k])
    ensures HasWritten(target, disk0, buf, offset, upto)
  {
    assert Ask(Topic.Splicing, 0);
    SpliceAppend(disk0, offset, buf[..done], buf[done..done + k]);
    assert buf[..done] + buf[done..done + k] == buf[..done + k];
  }

  // How a write ends, and how many of its bytes are on the disk.
  datatype WriteEnd = WriteEnd(result: int, kept: nat)

  // The end of a write whose first `done` bytes are written, of which whole blocks reach up to
  // byte `full`; its commands are number `at` and the following ones.
  function RestRun(n: nat, done: nat, full: nat, fates: seq<Fate>, at: nat): WriteEnd {
    if full > done && !Works(fates, at) then WriteEnd(done, done)
    else
      var last := if full > done then at + 1 else at;
      if full < n && !BothWork(fates, last) then WriteEnd(-1, full) else WriteEnd(n, n)
  }

  // A write of n bytes as a function of the fates of its commands.
  function WriteRun(bs: nat, off: nat, n: nat, fates: seq<Fate>, at: nat): (e: WriteEnd)
    requires bs > 0
    ensures e.kept <= n
  {
    if n == 0 then WriteEnd(0, 0)
    else
      RangeFacts(bs, off, n);
      if off % bs != 0 && !BothWork(fates, at) then WriteEnd(-1, 0)
      else RestRun(n, Head(bs, off, n), Full(bs, off, n), fates, if off % bs != 0 then at + 2 else at)
  }

  // Partial write of the last block.  When it fails the result is -1, although `done` bytes
  // are on the disk.
  method WriteLast(dev: VirtioDev, target: Target, buf: array<Byte>, offset: nat, n: nat, done: nat, blk: nat,
                   ghost disk0: Bytes)
    returns (r: int)
    requires Attached(dev, target) && buf != target.disk && n <= buf.Length && offset + n <= dev.cap
    requires done <= n && BytesIn(blk, dev.blockSize) == offset + done && HasWritten(target, disk0, buf, offset, done)
    requires Remains(dev, n - done, blk)
    modifies dev.mem, target`fates, target.disk
    ensures ToldMore(target) && dev.mem.live == old(dev.mem.live)
    ensures r == n || (r == -1 && done < n && target.Faults() > old(target.Faults()))
    ensures r == -1 <==> done < n && !BothWork(target.fates, |old(target.fates)|)
    ensures r < 0 ==> target.disk[..] == old(target.disk[..])
    ensures r >= 0 ==> HasWritten(target, disk0, buf, offset, r)
  {
    var resid := LastBytes(dev, n - done, blk);
    if resid == 0 { return n; }
    ghost var before := target.disk[..];
    var ret := WritePartialBlock(dev, target, blk, 0, buf, done, resid);
    if ret < 0 { return -1; }
    assert ret == resid;
    WroteMore(target, disk0, before, buf, offset, done, BytesIn(blk, dev.blockSize) + 0, ret, n);
    r := n;
  }

  // Whole blocks, then the last block.  `kept` is how much is on the disk.
  method WriteBlocks(dev: VirtioDev, target: Target, buf: array<Byte>, offset: nat, n: nat, done: nat, blk: nat, nblk: nat,
                     ghost disk0: Bytes)
    returns (r: int, ghost kept: nat)
    requires Attached(dev, target) && buf != target.disk && n <= buf.Length && offset + n <= dev.cap
    requires done <= n && HasWritten(target, disk0, buf, offset, done) && Tiles(dev, offset + done, n - done, blk, nblk)
    modifies dev.mem, target`fates, target.disk
    ensures ToldMore(target) && dev.mem.live == old(dev.mem.live)
    ensures -1 <= r <= n && (r == n || target.Faults() > old(target.Faults()))
    ensures HasWritten(target, disk0, buf, offset, kept)
    ensures WriteEnd(r, kept) == RestRun(n, done, done + BytesIn(nblk, dev.blockSize), target.fates, |old(target.fates)|)
  {
    ghost var before := target.disk[..];
    var ret: int := 0;
    kept := done;
    if nblk > 0 {
      ret := BlkWrite(dev, target, buf, done, blk, nblk);
      if ret < 0 { return done, done; }
      WroteMore(target, disk0, before, buf, offset, done, BytesIn(blk, dev.blockSize), ret, done + ret);
      if ret < BytesIn(nblk, dev.blockSize) { assert false; }
    }
    r := WriteLast(dev, target, buf, offset, n, done + ret, blk + nblk, disk0);
    kept := if r < 0 then done + ret else r;
  }

  method WriteFirst(dev: VirtioDev, target: Target, buf: array<Byte>, offset: nat, n: nat, blk: nat, resid: nat)
    returns (r: int, more: bool)
    requires Attached(dev, target) && buf != target.disk && n <= buf.Length && offset + n <= dev.cap
    requires resid < dev.blockSize && BytesIn(blk, dev.blockSize) + resid == offset && (resid > 0 ==> blk < dev.numBlocks)
    modifies dev.mem, target`fates, target.disk
    ensures ToldMore(target) && dev.mem.live == old(dev.mem.live) && -1 <= r <= n
    ensures HasWritten(target, old(target.disk[..]), buf, offset, if r < 0 then 0 else r)
    ensures more ==> r == if resid == 0 then 0 else dev.blockSize - resid
    ensures !more ==> r == n || (r == -1 && target.Faults() > old(target.Faults()))
    ensures !more ==> resid != 0 && (r >= 0 ==> resid + n < dev.blockSize)
    ensures r == -1 <==> resid != 0 && !BothWork(target.fates, |old(target.fates)|)
    ensures r >= 0 ==> |target.fates| == |old(target.fates)| + if resid == 0 then 0 else 2
  {
    if resid == 0 {
      assert target.disk[..] == Splice(target.disk[..], offset, buf[..0]);
      return 0, true;
    }
    r := WritePartialBlock(dev, target, blk, resid, buf, 0, n);
    if r < 0 {
      assert target.disk[..] == Splice(target.disk[..], offset, buf[..0]);
      return -1, false;
    }
    assert buf[0..r] == buf[..r];
    more := r == dev.blockSize - resid;
  }

  method WriteRest(dev: VirtioDev, target: Target, buf: array<Byte>, offset: nat, n: nat, done: nat, blk: nat,
                   ghost disk0: Bytes)
    returns (r: int, ghost kept: nat)
    requires Attached(dev, target) && buf != target.disk && n <= buf.Length && offset + n <= dev.cap
    requires done <= n && HasWritten(target, disk0, buf, offset, done)
    requires BytesIn(blk, dev.blockSize) == offset + done && (n - done) / dev.blockSize < Cdb.CountSpan(dev.numBlocks)
    modifies dev.mem, target`fates, target.disk
    ensures ToldMore(target) && dev.mem.live == old(dev.mem.live)
    ensures -1 <= r <= n && (r == n || target.Faults() > old(target.Faults()))
    ensures HasWritten(target, disk0, buf, offset, kept)
    ensures WriteEnd(r, kept) ==
      RestRun(n, done, done + WholeBytes(n - done, dev.blockSize), target.fates, |old(target.fates)|)
  {
    TilesUp(dev, offset + done, n - done, blk);
    r, kept := WriteBlocks(dev, target, buf, offset, n, done, blk, (n - done) / dev.blockSize, disk0);
  }

  // What the results of WriteFirst mean for the whole write.
  lemma EndsFirst(bs: nat, off: nat, n: nat, fates: seq<Fate>, at: nat, r: int)
    requires bs > 0 && n > 0 && off % bs != 0
    requires r == -1 || (r == n && off % bs + n < bs)
    requires r == -1 <==> !BothWork(fates, at)
    ensures WriteRun(bs, off, n, fates, at) == WriteEnd(r, if r < 0 then 0 else r)
  {
  }

  lemma GoesOn(bs: nat, off: nat, n: nat, done: nat, before: seq<Fate>, fates: seq<Fate>, at: nat, e: WriteEnd)
    requires bs > 0 && n > 0 && done <= n && done == (if off % bs == 0 then 0 else bs - off % bs)
    requires before <= fates && |before| == at + (if off % bs == 0 then 0 else 2)
    requires off % bs != 0 ==> BothWork(before, at)
    requires e == RestRun(n, done, done + WholeBytes(n - done, bs), fates, |before|)
    ensures e == WriteRun(bs, off, n, fates, at)
  {
    assert done == Head(bs, off, n);
    if done == n { Layout.SmallRemainder(bs, 0); }
    assert Full(bs, off, n) == done + WholeBytes(n - done, bs);
  }

  // A result r >= 0 is the number of bytes on the disk; after -1 these are none, or all up to
  // the last, partial block.
  lemma WriteEnds(bs: nat, off: nat, n: nat, fates: seq<Fate>, at: nat)
    requires bs > 0
    ensures var e := WriteRun(bs, off, n, fates, at);
            && -1 <= e.result <= n && (e.result >= 0 ==> e.kept == e.result)
            && (e.result < 0 ==> e.kept == 0 || (e.kept == Full(bs, off, n) && 0 < e.kept < n))
  {
    if n > 0 { RangeFacts(bs, off, n); }
  }

  method WriteClipped(dev: VirtioDev, target: Target, buf: array<Byte>, offset: nat, n: nat)
    returns (r: int, ghost kept: nat)
    requires Attached(dev, target) && buf != target.disk && 0 < n <= buf.Length && offset + n <= dev.cap
    requires CountFits(dev, offset, n)
    modifies dev.mem, target`fates, target.disk
    ensures ToldMore(target) && dev.mem.live == old(dev.mem.live)
    ensures -1 <= r <= n && (r == n || target.Faults() > old(target.Faults()))
    ensures HasWritten(target, old(target.disk[..]), buf, offset, kept)
    ensures WriteEnd(r, kept) == WriteRun(dev.blockSize, offset, n, target.fates, |old(target.fates)|)
  {
    ghost var disk0 := target.disk[..];
    var blk, resid := BlockAt(dev, offset);
    var more;
    r, more := WriteFirst(dev, target, buf, offset, n, blk, resid);
    kept := if r < 0 then 0 else r;
    if more {
      ghost var before, done := target.fates, r;
      r, kept := WriteRest(dev, target, buf, offset, n, r, if resid != 0 then blk + 1 else blk, disk0);
      GoesOn(dev.blockSize, offset, n, done, before, target.fates, |old(target.fates)|, WriteEnd(r, kept));
    } else {
      EndsFirst(dev.blockSize, offset, n, target.fates, |old(target.fates)|, r);
    }
  }

  // The result and what is on the disk follow from the fates of the commands as in WriteRun.
  method WriteVirtioDev(dev: VirtioDev, target: Target, buf: array<Byte>, offset: nat, nbytes: nat)
    returns (r: int, ghost kept: nat)
    requires Attached(dev, target) && buf != target.disk && nbytes <= buf.Length
    requires offset <= dev.cap ==> CountFits(dev, offset, Clip(dev.cap, offset, nbytes))
    modifies dev.mem, target`fates, target.disk
    ensures ToldMore(target) && dev.mem.live == old(dev.mem.live)
    ensures offset > dev.cap ==> r == -1 && target.disk[..] == old(target.disk[..])
    ensures offset <= dev.cap ==>
      var n := Clip(dev.cap, offset, nbytes);
      && -1 <= r <= n && (r == n || target.Faults() > old(target.Faults()))
      && WriteEnd(r, kept) == WriteRun(dev.blockSize, offset, n, target.fates, |old(target.fates)|)
      && kept <= n && target.disk[..] == Splice(old(target.disk[..]), offset, buf[..kept])
      && (if r >= 0 then kept == r else kept == 0 || (kept == Full(dev.blockSize, offset, n) && 0 < kept < n))
  {
    ghost var disk0 := target.disk[..];
    kept := 0;
    if offset > dev.cap { return -1, 0; }
    assert disk0 == Splice(disk0, offset, buf[..0]);
    if nbytes == 0 { return 0, 0; }
    var n := Clip(dev.cap, offset, nbytes);
    if n == 0 { return 0, 0; }
    r, kept := WriteClipped(dev, target, buf, offset, n);
    WriteEnds(dev.blockSize, offset, n, target.fates, |old(target.fates)|);
    assert Ask(Topic.Splicing, 0);
  }

  // Of all commands of a write the first that is not done decides: -1 is returned exactly if it
  // is for a block that the range covers in part; if it is for the whole blocks, the bytes
  // before them are reported.
  lemma WriteResultExact(bs: nat, off: nat, n: nat, fates: seq<Fate>, k: nat)
    requires bs > 0 && k <= |Orders(bs, off, n, true)| && forall i :: 0 <= i < k ==> Works(fates, i)
    ensures var cs, r := Orders(bs, off, n, true), WriteRun(bs, off, n, fates, 0).result;
            && (k == |cs| ==> r == n)
            && (k < |cs| && !Works(fates, k) ==>
                  r == if cs[k].pos < off || off + n < cs[k].pos + cs[k].size then -1 else cs[k].pos - off)
  {
    if n > 0 {
      RangeFacts(bs, off, n);
      var cs := Orders(bs, off, n, true);
      var first := if off % bs != 0 then 2 else 0;
      assert |cs| > 0;
      assert off % bs != 0 ==> cs[0] == cs[1] == FirstOrder(bs, off)[0];
      assert Whole(bs, off, n) > 0 ==> cs[first] == Order(off + Head(bs, off, n), Whole(bs, off, n) * bs, false);
    }
  }

  // -------------------------------------------------------------------------
  // When a failed write leaves the disk alone
  // -------------------------------------------------------------------------

  // Whatever fails, and whatever the bytes are: after -1 the disk is as before.
  ghost predicate FailsClean(bs: nat, off: nat, n: nat, cap: nat)
    requires bs > 0 && off + n <= cap
  {
    forall fates: seq<Fate>, disk: Bytes, buf: Bytes | |disk| == cap && |buf| == n ::
      var e := WriteRun(bs, off, n, fates, 0);
      e.result < 0 ==> Splice(disk, off, buf[..e.kept]) == disk
  }

  // Everything works until the last, partial block is to be written.
  function LastFails(bs: nat, off: nat, n: nat): (fates: seq<Fate>)
    requires bs > 0
  {
    (if off % bs != 0 then [Done, Done] else []) + (if Whole(bs, off, n) > 0 then [Done] else []) + [Failed]
  }

  lemma LastFailureEnds(bs: nat, off: nat, n: nat)
    requires bs > 0 && n > 0 && 0 < Full(bs, off, n) < n
    ensures WriteRun(bs, off, n, LastFails(bs, off, n), 0) == WriteEnd(-1, Full(bs, off, n))
  {
    var w := Whole(bs, off, n);
    Multiples(bs, w);
    assert w * bs == bs * w;
    assert w > 0 <==> Full(bs, off, n) > Head(bs, off, n);
  }

  lemma FailsCleanExact(bs: nat, off: nat, n: nat, cap: nat)
    requires bs > 0 && n > 0 && off + n <= cap
    ensures FailsClean(bs, off, n, cap) <==> (off + n) % bs == 0 || off % bs + n <= bs
  {
    FullExact(bs, off, n);
    if 0 < Full(bs, off, n) < n {
      FailsDirty(bs, off, n, cap);
    } else {
      forall fates: seq<Fate>, disk: Bytes, buf: Bytes | |disk| == cap && |buf| == n
        ensures var e := WriteRun(bs, off, n, fates, 0);
                e.result < 0 ==> Splice(disk, off, buf[..e.kept]) == disk
      {
        WriteEnds(bs, off, n, fates, 0);
        assert Splice(disk, off, buf[..0]) == disk;
      }
    }
  }

  lemma FailsDirty(bs: nat, off: nat, n: nat, cap: nat)
    requires bs > 0 && off + n <= cap && 0 < Full(bs, off, n) < n
    ensures !FailsClean(bs, off, n, cap)
  {
    LastFailureEnds(bs, off, n);
    var fates, full := LastFails(bs, off, n), Full(bs, off, n);
    var disk: Bytes, buf: Bytes := seq(cap, _ => 0), seq(n, _ => 1);
    assert Splice(disk, off, buf[..full])[off] != disk[off];
    assert WriteRun(bs, off, n, fates, 0).kept == full;
  }

  // A last block that is written in part, after others.
  lemma FullExact(bs: nat, off: nat, n: nat)
    requires bs > 0 && n > 0
    ensures 0 < Full(bs, off, n) < n <==> (off + n) % bs != 0 && off % bs + n > bs
  {
    RangeFacts(bs, off, n);
    var full, w := Full(bs, off, n), Whole(bs, off, n);
    Multiples(bs, w);
    assert w * bs == bs * w;
  }

  // What was written is read back.
  method WriteThenRead(dev: VirtioDev, target: Target, data: array<Byte>, back: array<Byte>, offset: nat, nbytes: nat)
    returns (written: int, read: int)
    requires Attached(dev, target) && data != target.disk && back != target.disk && data != back
    requires nbytes <= data.Length && nbytes <= back.Length
    requires offset <= dev.cap ==> CountFits(dev, offset, Clip(dev.cap, offset, nbytes))
    modifies dev.mem, target`fates, target.disk, back
    ensures 0 <= read <= written <= nbytes ==> back[..read] == data[..read]
    ensures offset <= dev.cap && target.Faults() == old(target.Faults()) ==>
      written == read == Clip(dev.cap, offset, nbytes)
  {
    ghost var kept;
    written, kept := WriteVirtioDev(dev, target, data, offset, nbytes);
    ghost var disk1 := target.disk[..];
    read := -1;
    if written >= 0 {
      if offset <= dev.cap { WholeShrinks(dev.blockSize, offset, written, Clip(dev.cap, offset, nbytes)); }
      read := ReadVirtioDev(dev, target, back, offset, written);
    }
  }
}
