/**
 The buffer list that a task carries to the device, and who owns which memory: a task
 frees each buffer it allocated exactly once, and never a buffer that it was given.
 */
module VirtioTasks {
  import opened Common
  import opened Blocks

  // `base` is where the buffer starts inside the array that it is part of.
  datatype VBuf = VBuf(buf: array<Byte>, base: nat, size: nat, response: bool, copy: bool, from: nat, to: nat)

  ghost function Contents(v: VBuf): (r: Bytes)
    requires v.base + v.size <= v.buf.Length
    reads v.buf
    ensures |r| == v.size
  {
    v.buf[v.base..v.base + v.size]
  }

  function Zeros(n: nat): Bytes { seq(n, _ => 0) }

  // The allocator, with a ledger of everything that it gave out and that was not freed, and a
  // count of what the host was refused: memory, or a place for a task on the ring.
  class Memory {
    ghost var live: set<object>
    ghost var refused: nat

    constructor ()
      ensures live == {} && refused == 0
    {
      live, refused := {}, 0;
    }

    // Any allocation may fail.
    method Alloc(size: nat) returns (buf: array?<Byte>)
      modifies this
      ensures Granted(this, buf != null)
      ensures buf == null ==> live == old(live)
      ensures buf != null ==> fresh(buf) && buf.Length == size && live == old(live) + {buf}
    {
      if * {
        buf := null;
        refused := refused + 1;
      } else {
        buf := new Byte[size];
        live := live + {buf};
      }
    }

    // Only what is allocated can be freed, and only once.
    method Free(buf: array<Byte>)
      requires buf in live
      modifies this`live
      ensures live == old(live) - {buf}
    {
      live := live - {buf};
    }
  }

  // Nothing was refused, or something was.
  twostate predicate Granted(mem: Memory, ok: bool)
    reads mem
  {
    if ok then mem.refused == old(mem.refused) else mem.refused > old(mem.refused)
  }

  class VirtioTask {
    const limit: nat
    var vbufs: seq<VBuf>
    var usedBytes: nat  // set by vring_get_task

    constructor (nbufs: nat)
      ensures limit == nbufs && vbufs == []
    {
      limit := nbufs;
      vbufs := [];
    }

    ghost predicate Valid()
      reads this
    {
      && |vbufs| <= limit
      && (forall k :: 0 <= k < |vbufs| ==> vbufs[k].base + vbufs[k].size <= vbufs[k].buf.Length)
      && (forall i, j :: 0 <= i < j < |vbufs| && vbufs[i].copy && vbufs[j].copy ==> vbufs[i].buf != vbufs[j].buf)
    }

    ghost function Owned(): set<object>
      reads this
    {
      {this} + Copies(vbufs)
    }

    // Allocate the structure, then its table of buffers.
    static method Create(mem: Memory, nbufs: nat) returns (task: VirtioTask?)
      modifies mem
      ensures Granted(mem, task != null)
      ensures task == null ==> mem.live == old(mem.live)
      ensures task != null ==>
        && fresh(task) && task.Valid() && task.limit == nbufs && task.vbufs == []
        && mem.live == old(mem.live) + {task}
    {
      task := null;
      if * {
        mem.refused := mem.refused + 1;
      } else {
        task := new VirtioTask(nbufs);
        mem.live := mem.live + {task};
        if * {
          mem.refused := mem.refused + 1;
          mem.live := mem.live - {task};
          task := null;
        }
      }
    }

    method Destroy(mem: Memory)
      requires Valid() && Owned() <= mem.live
      modifies mem`live
      ensures mem.live == old(mem.live) - Owned()
    {
      var i := 0;
      while i < |vbufs|
        invariant i <= |vbufs|
        invariant mem.live == old(mem.live) - Copies(vbufs[..i])
      {
        if vbufs[i].copy {
          NotYetFreed(vbufs, i);
          mem.Free(vbufs[i].buf);
        }
        CopiesSnoc(vbufs[..i], vbufs[i]);
        assert vbufs[..i] + [vbufs[i]] == vbufs[..i + 1];
        i := i + 1;
      }
      assert vbufs[..i] == vbufs;
      mem.live := mem.live - {this};
    }

    // Add a new buffer at the end of the list, or nothing when there is no memory.
    method AllocBufPart(mem: Memory, size: nat, response: bool, zero: bool, from: nat, to: nat)
      returns (data: array?<Byte>)
      requires Valid() && Owned() <= mem.live && |vbufs| < limit
      modifies this`vbufs, mem
      ensures Valid() && Granted(mem, data != null)
      ensures data == null ==> vbufs == old(vbufs) && mem.live == old(mem.live)
      ensures data != null ==>
        && fresh(data) && data.Length == size
        && vbufs == old(vbufs) + [VBuf(data, 0, size, response, true, from, to)]
        && Owned() == old(Owned()) + {data} && mem.live == old(mem.live) + {data}
        && (zero ==> data[..] == Zeros(size))
    {
      data := mem.Alloc(size);
      if data == null { return; }
      if zero {
        forall i | 0 <= i < size { data[i] := 0; }
      }
      ghost var v := VBuf(data, 0, size, response, true, from, to);
      CopiesSnoc(vbufs, v);
      CopiesAre(vbufs);
      vbufs := vbufs + [VBuf(data, 0, size, response, true, from, to)];
    }

    method AllocBuf(mem: Memory, size: nat, response: bool, zero: bool) returns (data: array?<Byte>)
      requires Valid() && Owned() <= mem.live && |vbufs| < limit
      modifies this`vbufs, mem
      ensures Valid() && Granted(mem, data != null)
      ensures data == null ==> vbufs == old(vbufs) && mem.live == old(mem.live)
      ensures data != null ==>
        && fresh(data) && data.Length == size
        && vbufs == old(vbufs) + [VBuf(data, 0, size, response, true, 0, size)]
        && Owned() == old(Owned()) + {data} && mem.live == old(mem.live) + {data}
        && (zero ==> data[..] == Zeros(size))
    {
      data := AllocBufPart(mem, size, response, zero, 0, size);
    }

    // Add a buffer of the caller.
    method AddBuf(buf: array<Byte>, base: nat, size: nat, response: bool)
      requires Valid() && |vbufs| < limit && base + size <= buf.Length
      modifies this`vbufs
      ensures Valid()
      ensures vbufs == old(vbufs) + [VBuf(buf, base, size, response, false, 0, size)]
      ensures Owned() == old(Owned())
    {
      CopiesSnoc(vbufs, VBuf(buf, base, size, response, false, 0, size));
      vbufs := vbufs + [VBuf(buf, base, size, response, false, 0, size)];
    }
  }

  // The buffers of a list that its task allocated.
  ghost function Copies(vs: seq<VBuf>): set<object> {
    if vs == [] then {}
    else Copies(vs[..|vs| - 1]) + if vs[|vs| - 1].copy then {vs[|vs| - 1].buf as object} else {}
  }

  lemma CopiesSnoc(vs: seq<VBuf>, v: VBuf)
    ensures Copies(vs + [v]) == Copies(vs) + if v.copy then {v.buf as object} else {}
  {
    assert (vs + [v])[..|vs|] == vs;
  }

  lemma {:induction false} CopiesAre(vs: seq<VBuf>)
    ensures forall k :: 0 <= k < |vs| && vs[k].copy ==> vs[k].buf in Copies(vs)
    ensures forall o :: o in Copies(vs) ==> exists k :: 0 <= k < |vs| && vs[k].copy && vs[k].buf as object == o
  {
    if vs != [] {
      var init := vs[..|vs| - 1];
      CopiesAre(init);
      forall o | o in Copies(vs)
        ensures exists k :: 0 <= k < |vs| && vs[k].copy && vs[k].buf as object == o
      {
        if o in Copies(init) {
          var k :| 0 <= k < |init| && init[k].copy && init[k].buf as object == o;
          assert vs[k] == init[k];
        }
      }
      assert forall k :: 0 <= k < |init| ==> init[k] == vs[k];
    }
  }

  // A buffer of the list is not among the buffers before it.
  lemma NotYetFreed(vs: seq<VBuf>, i: nat)
    requires i < |vs| && vs[i].copy
    requires forall j, k :: 0 <= j < k < |vs| && vs[j].copy && vs[k].copy ==> vs[j].buf != vs[k].buf
    ensures vs[i].buf as object !in Copies(vs[..i]) && vs[i].buf as object in Copies(vs)
  {
    CopiesAre(vs[..i]);
    CopiesAre(vs);
  }
}
