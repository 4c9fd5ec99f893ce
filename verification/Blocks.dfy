/**
 A disk that moves whole blocks, seen as one flat sequence of bytes, and the arithmetic of
 byte ranges that start and end inside blocks.
 */
module Blocks {
  type Byte = x: int | 0 <= x < 256

  type Bytes = seq<Byte>

  // Overwrite the bytes at `off`; everything else stays.
  function Splice(disk: Bytes, off: nat, data: Bytes): (r: Bytes)
    requires off + |data| <= |disk|
    ensures |r| == |disk|
    ensures forall x :: 0 <= x < |disk| ==>
              r[x] == if off <= x < off + |data| then data[x - off] else disk[x]
  {
    disk[..off] + data + disk[off + |data|..]
  }

  // A SCSI READ or WRITE of whole blocks.
  datatype Command = Read(blk: nat, count: nat) | Write(blk: nat, payload: Bytes)

  function Length(bs: nat, c: Command): nat {
    if c.Read? then c.count * bs else |c.payload|
  }

  predicate Fits(bs: nat, disk: Bytes, c: Command) {
    c.blk * bs + Length(bs, c) <= |disk|
  }

  // What a successful command leaves on the disk, and what it transfers to the host.
  function DiskAfter(bs: nat, disk: Bytes, c: Command): (r: Bytes)
    requires Fits(bs, disk, c)
    ensures |r| == |disk|
  {
    if c.Read? then disk else Splice(disk, c.blk * bs, c.payload)
  }

  function DataOf(bs: nat, disk: Bytes, c: Command): (r: Bytes)
    requires Fits(bs, disk, c)
  {
    if c.Read? then disk[c.blk * bs..c.blk * bs + c.count * bs] else []
  }

  // -------------------------------------------------------------------------
  // Byte ranges and blocks
  // -------------------------------------------------------------------------

  // Bytes in k blocks.
  function BytesIn(k: nat, bs: nat): nat { k * bs }

  // Number of the block that holds byte x.
  function BlockAt(bs: nat, x: nat): nat
    requires bs > 0
  {
    x / bs
  }

  // First byte of the block that holds `off`.
  function Start(bs: nat, off: nat): nat
    requires bs > 0
  {
    off / bs * bs
  }

  // Bytes of the range [off, off + n) in a first block that starts before `off`.
  function Head(bs: nat, off: nat, n: nat): nat
    requires bs > 0
  {
    var resid := off % bs;
    if resid == 0 then 0 else if resid + n <= bs then n else bs - resid
  }

  // Whole blocks after the head.
  function Whole(bs: nat, off: nat, n: nat): (r: nat)
    requires bs > 0
  {
    var h := Head(bs, off, n);
    if h < n then (n - h) / bs else 0
  }

  // Bytes up to the end of the last block that is covered to its end.
  function Full(bs: nat, off: nat, n: nat): nat
    requires bs > 0
  {
    Head(bs, off, n) + Whole(bs, off, n) * bs
  }

  // One past the last byte of the last block that the range touches.
  function End(bs: nat, off: nat, n: nat): nat
    requires bs > 0
  {
    if (off + n) % bs == 0 then off + n else ((off + n) / bs + 1) * bs
  }

  lemma Multiples(bs: int, k: int)
    requires bs > 0
    ensures k >= 1 ==> bs * k >= bs
    ensures k <= -1 ==> bs * k <= -bs
  {
  }

  lemma SameFactor(bs: nat, a: nat, b: nat)
    requires bs > 0 && a * bs == b * bs
    ensures a == b
  {
    Multiples(bs, a - b);
    assert bs * (a - b) == a * bs - b * bs;
  }

  lemma DivisionExact(bs: nat, q: nat, r: nat)
    requires r < bs
    ensures (q * bs + r) / bs == q && (q * bs + r) % bs == r
  {
    var a := q * bs + r;
    var k := a / bs - q;
    assert bs * (a / bs) + a % bs == a;
    assert bs * k == bs * (a / bs) - bs * q;
    Multiples(bs, k);
  }

  // The linear facts about one range that the rest of the proofs use.
  ghost predicate Laid(bs: nat, off: nat, n: nat)
    requires bs > 0
  {
    var base := Start(bs, off) + (if off % bs == 0 then 0 else bs) + Whole(bs, off, n) * bs;
    && Start(bs, off) + off % bs == off && off % bs < bs
    && Full(bs, off, n) <= n < Full(bs, off, n) + bs
    && off + n <= End(bs, off, n)
    && (Head(bs, off, n) < n && off % bs != 0 ==> off + Head(bs, off, n) == Start(bs, off) + bs)
    && (Full(bs, off, n) == n ==> End(bs, off, n) == base)
    && (Full(bs, off, n) < n ==>
          && (off + n) % bs == n - Full(bs, off, n)
          && (off + n) / bs * bs == off + Full(bs, off, n) == base
          && End(bs, off, n) == base + bs)
  }

  lemma Division(bs: nat, m: nat)
    requires bs > 0
    ensures m == m / bs * bs + m % bs && m % bs < bs
  {
  }

  lemma BlocksAdd(bs: nat, q: nat, c: nat, w: nat)
    requires c <= 1
    ensures (q + c + w) * bs == q * bs + (if c == 1 then bs else 0) + w * bs
  {
  }

  lemma ThreeTerms(a: nat, b: nat, c: nat, bs: nat)
    requires a <= 1 && c <= 1
    ensures (a + b + c) * bs == (if a == 1 then bs else 0) + b * bs + (if c == 1 then bs else 0)
  {
  }

  // The end of a range that reaches `rem` bytes into block b.
  lemma EndIs(bs: nat, off: nat, n: nat, b: nat, rem: nat)
    requires rem < bs && off + n == b * bs + rem
    ensures (off + n) / bs == b && (off + n) % bs == rem
    ensures End(bs, off, n) == if rem == 0 then b * bs else b * bs + bs
  {
    DivisionExact(bs, b, rem);
    BlocksAdd(bs, b, 1, 0);
  }

  lemma InsideFirstBlock(bs: nat, off: nat, n: nat)
    requires bs > 0 && (n > 0 || off % bs == 0) && Head(bs, off, n) == n
    ensures Laid(bs, off, n)
  {
    var q := off / bs;
    Division(bs, off);
    BlocksAdd(bs, q, 1, 0);
    if off % bs + n < bs {
      EndIs(bs, off, n, q, off % bs + n);
    } else {
      EndIs(bs, off, n, q + 1, 0);
    }
  }

  lemma BeyondFirstBlock(bs: nat, off: nat, n: nat)
    requires bs > 0 && Head(bs, off, n) < n
    ensures Laid(bs, off, n)
  {
    var q, h, w := off / bs, Head(bs, off, n), Whole(bs, off, n);
    var c := if off % bs == 0 then 0 else 1;
    Division(bs, off);
    Division(bs, n - h);
    BlocksAdd(bs, q, c, w);
    EndIs(bs, off, n, q + c + w, (n - h) % bs);
  }

  lemma RangeFacts(bs: nat, off: nat, n: nat)
    requires bs > 0 && (n > 0 || off % bs == 0)
    ensures Laid(bs, off, n)
  {
    if Head(bs, off, n) < n { BeyondFirstBlock(bs, off, n); } else { InsideFirstBlock(bs, off, n); }
  }

  // A range inside a disk of whole blocks touches only blocks of the disk.
  lemma EndFits(bs: nat, off: nat, n: nat, numBlocks: nat)
    requires bs > 0 && off + n <= bs * numBlocks
    ensures End(bs, off, n) <= bs * numBlocks
  {
    var q, r := (off + n) / bs, (off + n) % bs;
    if r != 0 {
      assert bs * q + r == off + n;
      var d := numBlocks - q;
      assert bs * numBlocks == bs * q + bs * d;
      Multiples(bs, d);
      assert (q + 1) * bs == bs * q + bs;
    }
  }
}
