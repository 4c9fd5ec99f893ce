/** The SCSI command inside a request: written by the driver, decoded as the device does. */
module Cdb {
  import opened Common
  import opened Blocks
  import opened Endian

  const REQUEST_SIZE: nat := 51  // virtio_scsi_cmd_req
  const CDB_AT: nat := 19
  const CDB_SIZE: nat := 32

  const READ_10: Byte := 0x28
  const WRITE_10: Byte := 0x2a
  const READ_16: Byte := 0x88
  const WRITE_16: Byte := 0x8a

  const TARGET_ID: Byte := 1
  const LUN_ID: Byte := 0

  datatype RwCdb = RwCdb(wide: bool, write: bool, blk: nat, count: nat)

  // The READ and WRITE (10) and (16) layouts of clause 5 of SBC-3, with their operation codes.
  function Decode(cdb: Bytes): Option<RwCdb>
    requires |cdb| == CDB_SIZE
  {
    if cdb[0] == 0x28 || cdb[0] == 0x2a then
      Some(RwCdb(false, cdb[0] == 0x2a, FromBe32(cdb[2..6]), FromBe16(cdb[7..9])))
    else if cdb[0] == 0x88 || cdb[0] == 0x8a then
      Some(RwCdb(true, cdb[0] == 0x8a, FromBe64(cdb[2..10]), FromBe32(cdb[10..14])))
    else None
  }

  predicate Wide(numBlocks: nat) { numBlocks > 0x1_0000_0000 }

  // The largest count that the form chosen for a device can carry, plus one.
  function CountSpan(numBlocks: nat): nat {
    if Wide(numBlocks) then 0x1_0000_0000 else 0x1_0000
  }

  function BlkSpan(numBlocks: nat): nat {
    if Wide(numBlocks) then 0x1_0000_0000_0000_0000 else 0x1_0000_0000
  }

  // The address field holds the low bytes of a block number.
  function Addressed(numBlocks: nat, blk: nat): nat { blk % BlkSpan(numBlocks) }

  lemma AddressedInside(numBlocks: nat, blk: nat)
    requires blk < numBlocks < 0x1_0000_0000_0000_0000
    ensures Addressed(numBlocks, blk) == blk
  {
    SmallModulo(blk, BlkSpan(numBlocks));
  }

  // A command as the device finds it.
  function OnWire(numBlocks: nat, c: Command): Command {
    if c.Read? then Read(Addressed(numBlocks, c.blk), c.count) else Write(Addressed(numBlocks, c.blk), c.payload)
  }

  // A command written over the bytes `cdb`; the fields keep the low bytes of their values.
  function Encode(numBlocks: nat, cdb: Bytes, blk: nat, count: nat, write: bool): (r: Bytes)
    requires |cdb| == CDB_SIZE
    ensures |r| == CDB_SIZE
  {
    var b, c := blk % BlkSpan(numBlocks), count % CountSpan(numBlocks);
    if Wide(numBlocks) then
      Splice(Splice(Splice(cdb, 0, [if write then WRITE_16 else READ_16]), 2, Big(b, 8)), 10, Big(c, 4))
    else
      Splice(Splice(Splice(cdb, 0, [if write then WRITE_10 else READ_10]), 2, Big(b, 4)), 7, Big(c, 2))
  }

  // The request buffer after create_rw_cdb.
  function Request(numBlocks: nat, req: Bytes, blk: nat, count: nat, write: bool): (r: Bytes)
    requires |req| == REQUEST_SIZE
    ensures |r| == REQUEST_SIZE
  {
    [TARGET_ID, LUN_ID] + req[2..CDB_AT] + Encode(numBlocks, req[CDB_AT..], blk, count, write)
  }

  // A field written into the command, seen from the whole request.
  lemma FieldInside(head: Bytes, cdb: Bytes, at: nat, field: Bytes)
    requires at + |field| <= |cdb|
    ensures Splice(head + cdb, |head| + at, field) == head + Splice(cdb, at, field)
  {
  }

  // The address and count fields of the 16-byte form, after the operation code.
  method WriteWide(req: array<Byte>, ghost head: Bytes, ghost cdb: Bytes, b: nat, c: nat)
    requires req.Length == REQUEST_SIZE && |head| == CDB_AT && |cdb| == CDB_SIZE && req[..] == head + cdb
    requires b < 0x1_0000_0000_0000_0000 && c < 0x1_0000_0000
    modifies req
    ensures req[..] == head + Splice(Splice(cdb, 2, Big(b, 8)), 10, Big(c, 4))
  {
    FieldInside(head, cdb, 2, Big(b, 8));
    FieldInside(head, Splice(cdb, 2, Big(b, 8)), 10, Big(c, 4));
    ToBe64(req, CDB_AT + 2, b);
    ToBe32(req, CDB_AT + 10, c);
  }

  // The same of the 10-byte form.
  method WriteNarrow(req: array<Byte>, ghost head: Bytes, ghost cdb: Bytes, b: nat, c: nat)
    requires req.Length == REQUEST_SIZE && |head| == CDB_AT && |cdb| == CDB_SIZE && req[..] == head + cdb
    requires b < 0x1_0000_0000 && c < 0x1_0000
    modifies req
    ensures req[..] == head + Splice(Splice(cdb, 2, Big(b, 4)), 7, Big(c, 2))
  {
    FieldInside(head, cdb, 2, Big(b, 4));
    FieldInside(head, Splice(cdb, 2, Big(b, 4)), 7, Big(c, 2));
    ToBe32(req, CDB_AT + 2, b);
    ToBe16(req, CDB_AT + 7, c);
  }

  method CreateRwCdb(numBlocks: nat, req: array<Byte>, blk: nat, count: nat, isWrite: bool)
    requires req.Length == REQUEST_SIZE
    modifies req
    ensures req[..] == Request(numBlocks, old(req[..]), blk, count, isWrite)
  {
    ghost var cdb := req[CDB_AT..];
    ghost var head := [TARGET_ID, LUN_ID] + req[2..CDB_AT];
    req[0], req[1] := TARGET_ID, LUN_ID;
    if numBlocks > 0x1_0000_0000 {
      req[CDB_AT] := if isWrite then WRITE_16 else READ_16;
      cdb := Splice(cdb, 0, [req[CDB_AT]]);
      assert req[..] == head + cdb;
      WriteWide(req, head, cdb, blk % 0x1_0000_0000_0000_0000, count % 0x1_0000_0000);
    } else {
      req[CDB_AT] := if isWrite then WRITE_10 else READ_10;
      cdb := Splice(cdb, 0, [req[CDB_AT]]);
      assert req[..] == head + cdb;
      WriteNarrow(req, head, cdb, blk % 0x1_0000_0000, count % 0x1_0000);
    }
  }

  lemma EncodeDecodes(numBlocks: nat, cdb: Bytes, blk: nat, count: nat, write: bool)
    requires |cdb| == CDB_SIZE
    ensures Decode(Encode(numBlocks, cdb, blk, count, write))
         == Some(RwCdb(numBlocks > 0x1_0000_0000, write, Addressed(numBlocks, blk), count % CountSpan(numBlocks)))
  {
    var b, c := blk % BlkSpan(numBlocks), count % CountSpan(numBlocks);
    var r := Encode(numBlocks, cdb, blk, count, write);
    ReadersReadBack(b);
    ReadersReadBack(c);
    if Wide(numBlocks) {
      assert r[2..10] == Big(b, 8) && r[10..14] == Big(c, 4);
    } else {
      assert r[2..6] == Big(b, 4) && r[7..9] == Big(c, 2);
    }
  }

  // The device decodes what the driver meant exactly when the count fits the length field
  // of the form; the address of a block of the device always fits.
  lemma CdbRoundTrip(numBlocks: nat, cdb: Bytes, blk: nat, count: nat, write: bool)
    requires |cdb| == CDB_SIZE && blk < numBlocks < 0x1_0000_0000_0000_0000
    ensures Decode(Encode(numBlocks, cdb, blk, count, write)) == Some(RwCdb(Wide(numBlocks), write, blk, count))
       <==> count < CountSpan(numBlocks)
  {
    EncodeDecodes(numBlocks, cdb, blk, count, write);
    SmallModulo(blk, BlkSpan(numBlocks));
  }

  predicate Blank(s: Bytes) { forall i :: 0 <= i < |s| ==> s[i] == 0 }

  // A command with the unit that it is for.
  datatype Envelope = Envelope(target: Byte, lun: Byte, cdb: RwCdb)

  // What a request buffer of 51 bytes says.  Of its eight address bytes the first names the
  // target and the second the logical unit; the others are not used.  The command is in the last
  // 32 bytes.
  function Opened(req: Bytes): Option<Envelope> {
    if |req| != 51 || !Blank(req[2..8]) then None
    else
      match Decode(req[19..])
      case None => None
      case Some(cdb) => Some(Envelope(req[0], req[1], cdb))
  }

  // What the disk makes of a request buffer: it is logical unit 0 of target 1, and takes no
  // command for another.
  function CommandOf(req: Bytes): Option<RwCdb> {
    match Opened(req)
    case None => None
    case Some(e) => if e.target == 1 && e.lun == 0 then Some(e.cdb) else None
  }

  lemma RequestParts(r: Bytes, middle: Bytes, cdb: Bytes)
    requires |middle| == CDB_AT - 2 && r == [TARGET_ID, LUN_ID] + middle + cdb
    ensures r[0] == TARGET_ID && r[1] == LUN_ID && r[2..8] == middle[..6] && r[CDB_AT..] == cdb
  {
    assert r[2..CDB_AT] == middle;
    assert r[2..CDB_AT][..6] == r[2..8];
  }

  // The disk is addressed, and finds the command that was meant.
  lemma RequestDecodes(numBlocks: nat, req: Bytes, blk: nat, count: nat, write: bool)
    requires |req| == REQUEST_SIZE && count < CountSpan(numBlocks) && Blank(req[2..8])
    ensures Opened(Request(numBlocks, req, blk, count, write))
         == Some(Envelope(1, 0, RwCdb(Wide(numBlocks), write, Addressed(numBlocks, blk), count)))
    ensures CommandOf(Request(numBlocks, req, blk, count, write))
         == Some(RwCdb(Wide(numBlocks), write, Addressed(numBlocks, blk), count))
  {
    var r := Request(numBlocks, req, blk, count, write);
    RequestParts(r, req[2..CDB_AT], Encode(numBlocks, req[CDB_AT..], blk, count, write));
    assert req[2..CDB_AT][..6] == req[2..8];
    EncodeDecodes(numBlocks, req[CDB_AT..], blk, count, write);
    SmallModulo(count, CountSpan(numBlocks));
  }
}
