/** The driver object of `main.c`, the kernel allocations it owns, and the files opened on it. */
module CharDevice {
  import opened Bytes
  import opened DeviceLog
  import CB = CircularBuffer

  // ---------------------------------------------------------------------------------------
  // Kernel memory
  // ---------------------------------------------------------------------------------------

  lemma {:induction false} BoundedAbove(s: set<nat>) returns (top: nat)
    ensures forall x :: x in s ==> x < top
  {
    if s == {} {
      top := 0;
    } else {
      var y :| y in s;
      var rest := BoundedAbove(s - {y});
      top := if rest <= y then y + 1 else rest;
      assert forall x :: x in s ==> x == y || x in s - {y};
    }
  }

  lemma FreshAddressExists(s: set<nat>)
    ensures exists p: nat :: p != 0 && p !in s
  {
    var top := BoundedAbove(s);
    assert top + 1 !in s;
  }

  /** The blocks currently allocated by the module; an address may be handed out again once freed. */
  class KernelHeap {
    var blocks: map<nat, seq<byte>>

    constructor ()
      ensures blocks == map[]
    {
      blocks := map[];
    }

    method Kmalloc(size: nat, fails: bool) returns (p: nat)
      modifies this
      ensures fails ==> p == 0 && blocks == old(blocks)
      ensures !fails ==> p != 0 && p !in old(blocks) && p in blocks && |blocks[p]| == size
      ensures !fails ==> blocks == old(blocks)[p := blocks[p]]
    {
      if fails {
        return 0;
      }
      FreshAddressExists(blocks.Keys);
      p :| p != 0 && p !in blocks.Keys;
      blocks := blocks[p := seq(size, i => NUL)];
    }

    /** Only a live block may be freed, so nothing is ever freed twice. */
    method Kfree(p: nat)
      requires p in blocks
      modifies this
      ensures blocks == old(blocks) - {p}
    {
      blocks := blocks - {p};
    }

    method Memcpy(p: nat, data: seq<byte>)
      requires p in blocks && |blocks[p]| == |data|
      modifies this
      ensures blocks == old(blocks)[p := data]
    {
      blocks := blocks[p := data];
    }
  }

  /**
   * `blocks` is exactly: the fixed allocations, and one distinct block per stored entry
   * holding that entry's command.
   */
  ghost predicate Owns(stored: seq<CB.Entry>, cmds: seq<seq<byte>>, blocks: map<nat, seq<byte>>, fixed: set<nat>) {
    && |stored| == |cmds|
    && 0 !in blocks && fixed <= blocks.Keys
    && (forall i :: 0 <= i < |stored| ==>
          && stored[i].buffptr in blocks && stored[i].buffptr !in fixed
          && blocks[stored[i].buffptr] == cmds[i] && stored[i].size == |cmds[i]|)
    && (forall i, j :: 0 <= i < j < |stored| ==> stored[i].buffptr != stored[j].buffptr)
    && (forall p :: p in blocks && p !in fixed ==> exists i :: 0 <= i < |stored| && stored[i].buffptr == p)
  }

  lemma OwnsAppended(stored: seq<CB.Entry>, cmds: seq<seq<byte>>, blocks: map<nat, seq<byte>>, fixed: set<nat>,
                     p: nat, cmd: seq<byte>)
    requires Owns(stored, cmds, blocks, fixed)
    requires p != 0 && p !in blocks
    ensures Owns(stored + [CB.Entry(p, |cmd|)], cmds + [cmd], blocks[p := cmd], fixed)
  {
    var stored', blocks' := stored + [CB.Entry(p, |cmd|)], blocks[p := cmd];
    forall q | q in blocks' && q !in fixed
      ensures exists i :: 0 <= i < |stored'| && stored'[i].buffptr == q
    {
      if q == p {
        assert stored'[|stored|].buffptr == q;
      } else {
        var i :| 0 <= i < |stored| && stored[i].buffptr == q;
        assert stored'[i].buffptr == q;
      }
    }
  }

  lemma OwnsFirstFreed(stored: seq<CB.Entry>, cmds: seq<seq<byte>>, blocks: map<nat, seq<byte>>, fixed: set<nat>)
    requires Owns(stored, cmds, blocks, fixed) && stored != []
    ensures Owns(stored[1..], cmds[1..], blocks - {stored[0].buffptr}, fixed)
  {
  }

  /** Sizes recorded in the ring add up to the bytes of the commands. */
  lemma {:induction false} SizesAreLengths(stored: seq<CB.Entry>, cmds: seq<seq<byte>>, k: nat)
    requires |stored| == |cmds| && k <= |stored|
    requires forall i :: 0 <= i < |stored| ==> stored[i].size == |cmds[i]|
    ensures CB.TotalSize(stored[..k]) == |Flatten(cmds[..k])|
  {
    if k > 0 {
      SizesAreLengths(stored, cmds, k - 1);
      CB.TotalSizeStep(stored, k - 1);
      assert cmds[..k] == cmds[..k - 1] + [cmds[k - 1]];
      FlattenSnoc(cmds[..k - 1], cmds[k - 1]);
    }
  }

  /** The array behind queue `stored` when its oldest entry sits in slot `out`. */
  ghost predicate SlotTable(slots: seq<CB.Entry>, stored: seq<CB.Entry>, out: nat) {
    && |slots| == CB.SLOTS && |stored| <= CB.SLOTS && out < CB.SLOTS
    && forall i :: 0 <= i < CB.SLOTS ==>
         slots[i] == if CB.Distance(out, i) < |stored| then stored[CB.Distance(out, i)] else CB.EMPTY_SLOT
  }

  lemma ReachableSlotTable(added: seq<CB.Entry>)
    ensures SlotTable(CB.AddAll(added).entry, Latest(added, CB.SLOTS), CB.AddAll(added).outOffs)
  {
    forall i | 0 <= i < CB.SLOTS
      ensures
        var k := CB.Distance(CB.AddAll(added).outOffs, i);
        CB.AddAll(added).entry[i]
        == if k < |Latest(added, CB.SLOTS)| then Latest(added, CB.SLOTS)[k] else CB.EMPTY_SLOT
    {
      CB.SlotOfRank(added, i);
    }
  }

  /** Every non-NULL slot owns its own block, and every block but the fixed ones sits in a slot. */
  ghost predicate SlotsOwn(slots: seq<CB.Entry>, blocks: map<nat, seq<byte>>, fixed: set<nat>) {
    && 0 !in blocks && fixed <= blocks.Keys
    && (forall i :: 0 <= i < |slots| && slots[i].buffptr != 0 ==>
          slots[i].buffptr in blocks && slots[i].buffptr !in fixed)
    && (forall i, j :: 0 <= i < j < |slots| && slots[i].buffptr != 0 ==> slots[i].buffptr != slots[j].buffptr)
    && (forall p :: p in blocks && p !in fixed ==> exists i :: 0 <= i < |slots| && slots[i].buffptr == p)
  }

  lemma OwnedBySlots(slots: seq<CB.Entry>, stored: seq<CB.Entry>, out: nat, cmds: seq<seq<byte>>,
                     blocks: map<nat, seq<byte>>, fixed: set<nat>)
    requires SlotTable(slots, stored, out)
    requires Owns(stored, cmds, blocks, fixed)
    ensures SlotsOwn(slots, blocks, fixed)
  {
    forall p | p in blocks && p !in fixed
      ensures exists i :: 0 <= i < |slots| && slots[i].buffptr == p
    {
      var k :| 0 <= k < |stored| && stored[k].buffptr == p;
      var i := CB.Advance(out, k);
      assert CB.Distance(out, i) == k;
      assert slots[i].buffptr == p;
    }
  }

  /** Committing one more command: its block joins, and a full ring gives up its oldest block. */
  lemma OwnsCommitted(added: seq<CB.Entry>, committed: seq<seq<byte>>, blocks: map<nat, seq<byte>>, fixed: set<nat>,
                      p: nat, cmd: seq<byte>)
    requires |added| == |committed|
    requires Owns(Latest(added, CB.SLOTS), Latest(committed, CB.SLOTS), blocks, fixed)
    requires p != 0 && p !in blocks
    ensures
      var grown := blocks[p := cmd];
      var kept := if |added| < CB.SLOTS then grown else grown - {Latest(added, CB.SLOTS)[0].buffptr};
      Owns(Latest(added + [CB.Entry(p, |cmd|)], CB.SLOTS), Latest(committed + [cmd], CB.SLOTS), kept, fixed)
    ensures |added| >= CB.SLOTS ==>
      Latest(added, CB.SLOTS)[0].buffptr != 0 && Latest(added, CB.SLOTS)[0].buffptr in blocks
  {
    var e := CB.Entry(p, |cmd|);
    var es, cmds := Latest(added, CB.SLOTS), Latest(committed, CB.SLOTS);
    OwnsAppended(es, cmds, blocks, fixed, p, cmd);
    if |added| < CB.SLOTS {
      assert Latest(added + [e], CB.SLOTS) == es + [e] && Latest(committed + [cmd], CB.SLOTS) == cmds + [cmd];
    } else {
      OwnsFirstFreed(es + [e], cmds + [cmd], blocks[p := cmd], fixed);
      assert (es + [e])[0] == es[0];
      assert Latest(added + [e], CB.SLOTS) == (es + [e])[1..];
      assert Latest(committed + [cmd], CB.SLOTS) == (cmds + [cmd])[1..];
    }
  }

  /** The command behind a located slot, and its place in the concatenation. */
  lemma LocatedEntry(added: seq<CB.Entry>, cmds: seq<seq<byte>>, blocks: map<nat, seq<byte>>, fixed: set<nat>,
                     p: nat, slot: nat, offset: nat)
    requires Owns(Latest(added, CB.SLOTS), cmds, blocks, fixed)
    requires CB.Locates(CB.AddAll(added), p, slot, offset)
    ensures
      var r := CB.AddAll(added);
      var entry, k := r.entry[slot], CB.Distance(r.outOffs, slot);
      && k < |cmds| && entry.size == |cmds[k]|
      && entry.buffptr in blocks && blocks[entry.buffptr] == cmds[k]
      && p == |Flatten(cmds[..k])| + offset
      && p < |Flatten(cmds)|
  {
    hide CB.AddAll, CB.Contents;
    var es, k := Latest(added, CB.SLOTS), CB.Distance(CB.AddAll(added).outOffs, slot);
    CB.SlotOfRank(added, slot);
    CB.ReachableContents(added);
    SizesAreLengths(es, cmds, k);
    FlattenSplit(cmds, k);
  }

  /** What a slot's recorded size says about its command, and what walking up to it adds up to. */
  lemma SlotSizes(added: seq<CB.Entry>, cmds: seq<seq<byte>>, blocks: map<nat, seq<byte>>, fixed: set<nat>, slot: nat)
    requires Owns(Latest(added, CB.SLOTS), cmds, blocks, fixed)
    requires slot < CB.SLOTS
    ensures
      var r := CB.AddAll(added);
      var k := CB.Distance(r.outOffs, slot);
      && r.entry[slot].size == (if k < |cmds| then |cmds[k]| else 0)
      && (k <= |cmds| ==> CB.TotalSize(CB.Walk(r, k)) == |Flatten(cmds[..k])|)
  {
    hide CB.AddAll, CB.Walk, CB.TotalSize, Flatten;
    var r, es := CB.AddAll(added), Latest(added, CB.SLOTS);
    var k := CB.Distance(r.outOffs, slot);
    CB.SlotOfRank(added, slot);
    CB.ReachableContents(added);
    if k <= |cmds| {
      CB.WalkPrefix(r, k, CB.Count(r));
      SizesAreLengths(es, cmds, k);
    }
  }

  lemma SlotFreed(slots: seq<CB.Entry>, blocks: map<nat, seq<byte>>, fixed: set<nat>)
    requires SlotsOwn(slots, blocks, fixed) && slots != []
    ensures
      var p := slots[0].buffptr;
      SlotsOwn(slots[1..], if p != 0 then blocks - {p} else blocks, fixed)
  {
  }

  /** The block a ring gives up to its next addition: that of the slot about to be overwritten, when full. */
  ghost function Displaced(ring: CB.Ring): set<nat>
    requires CB.WellFormed(ring)
  {
    if ring.full then {ring.entry[ring.inOffs].buffptr} else {}
  }

  /** `cmd` went into a fresh block and that block into the ring; exactly the displaced block was freed. */
  ghost predicate Committed(ring: CB.Ring, ring': CB.Ring,
                            blocks: map<nat, seq<byte>>, blocks': map<nat, seq<byte>>, cmd: seq<byte>)
    requires CB.WellFormed(ring)
  {
    exists p: nat ::
      && p != 0 && p !in blocks
      && ring' == CB.Add(ring, CB.Entry(p, |cmd|))
      && blocks' == blocks[p := cmd] - Displaced(ring)
  }

  // ---------------------------------------------------------------------------------------
  // The device
  // ---------------------------------------------------------------------------------------

  const LOFF_LIMIT: int := 0x8000_0000_0000_0000

  /** `loff_t` */
  type loff = x: int | -LOFF_LIMIT <= x < LOFF_LIMIT

  /** Two's complement wrap-around of a 64-bit sum. */
  function WrapLoff(x: int): (r: loff)
    requires -2 * LOFF_LIMIT <= x < 2 * LOFF_LIMIT
    ensures (r - x) % 0x1_0000_0000_0000_0000 == 0
  {
    if x >= LOFF_LIMIT then x - 2 * LOFF_LIMIT
    else if x < -LOFF_LIMIT then x + 2 * LOFF_LIMIT
    else x
  }

  /** An open file description: only its position matters. */
  class File {
    var fPos: loff

    ghost predicate Valid()
      reads this
    {
      fPos >= 0
    }

    constructor ()
      ensures Valid() && fPos == 0
    {
      fPos := 0;
    }
  }

  /** `sizeof(struct aesd_circular_buffer)` on a 64-bit kernel. */
  const RING_STRUCT_SIZE: nat := 168

  /** What a read meets: an interrupted lock wait, or a failing `copy_to_user`. */
  datatype ReadEnv = ReadEnv(interrupted: bool, copyFails: bool)

  class AesdDevice {
    const heap: KernelHeap
    const circularBuffer: CB.AesdCircularBuffer
    const writeBuffer: array<byte>
    const ringBlock: nat
    const writeBlock: nat
    var writeBufferIndex: nat

    /** Every entry and every command added since initialisation. */
    ghost var added: seq<CB.Entry>
    ghost var committed: seq<seq<byte>>

    ghost predicate Valid()
      reads this, heap, circularBuffer, circularBuffer.entry, writeBuffer
    {
      && circularBuffer.Valid()
      && writeBuffer.Length == MAX_WRITE_SIZE && writeBufferIndex <= MAX_WRITE_SIZE
      && circularBuffer.Value() == CB.AddAll(added)
      && |added| == |committed|
      && (forall i :: 0 <= i < |committed| ==> |committed[i]| < MAX_WRITE_SIZE)
      && ringBlock != writeBlock
      && Owns(Latest(added, CB.SLOTS), Latest(committed, CB.SLOTS), heap.blocks, {ringBlock, writeBlock})
    }

    ghost function State(): (p: Phys)
      requires Valid()
      reads this, heap, circularBuffer, circularBuffer.entry, writeBuffer
      ensures PhysValid(p)
    {
      Phys(writeBuffer[..], writeBufferIndex, committed)
    }

    ghost function CurrentLog(): Log
      requires Valid()
      reads this, heap, circularBuffer, circularBuffer.entry, writeBuffer
    {
      Abs(State())
    }

    /** The ring in terms of the log: its queue, its oldest slot, its fullness and its sizes. */
    lemma RingFacts()
      requires Valid()
      ensures circularBuffer.Value() == CB.AddAll(added)
      ensures CB.Contents(circularBuffer.Value()) == Latest(added, CB.SLOTS)
      ensures circularBuffer.outOffs == OldestSlot(CurrentLog())
      ensures circularBuffer.inOffs == |committed| % CB.SLOTS
      ensures circularBuffer.full <==> |committed| >= CB.SLOTS
      ensures |Latest(added, CB.SLOTS)| == |Stored(CurrentLog())|
      ensures CB.TotalSize(Latest(added, CB.SLOTS)) == |Contents(CurrentLog())|
      ensures forall k :: 0 <= k <= |Stored(CurrentLog())| ==>
        CB.TotalSize(Latest(added, CB.SLOTS)[..k]) == |Flatten(Stored(CurrentLog())[..k])|
    {
      CB.ReachableRing(added);
      CB.ReachableContents(added);
      var es, cmds := Latest(added, CB.SLOTS), Latest(committed, CB.SLOTS);
      forall k | 0 <= k <= |cmds|
        ensures CB.TotalSize(es[..k]) == |Flatten(cmds[..k])|
      {
        SizesAreLengths(es, cmds, k);
      }
      assert es[..|es|] == es && cmds[..|cmds|] == cmds;
    }

    /** What a successful lookup at `p` gives a reader. */
    lemma FoundByte(p: nat, slot: nat, offset: nat, count: nat)
      requires Valid() && CB.Locates(circularBuffer.Value(), p, slot, offset)
      ensures
        var entry := circularBuffer.entry[slot];
        var piece := ReadPiece(Stored(CurrentLog()), p, count);
        && slot < CB.SLOTS && offset < entry.size
        && entry.buffptr in heap.blocks && |heap.blocks[entry.buffptr]| == entry.size
        && piece == heap.blocks[entry.buffptr][offset..Min(offset + count, entry.size)]
        && p + |piece| <= 1270
    {
      hide ReadPiece, Owns, CB.AddAll, CB.Contents;
      LocatedEntry(added, Latest(committed, CB.SLOTS), heap.blocks, {ringBlock, writeBlock}, p, slot, offset);
      ReadPieceAt(Stored(CurrentLog()), CB.Distance(circularBuffer.outOffs, slot), offset, count);
      ReadPieceIsSlice(Stored(CurrentLog()), p, count);
      ContentsBound(CurrentLog());
    }

    /** The allocating part of `aesd_init_module`, when it succeeds. */
    constructor ()
      ensures Valid() && fresh(heap) && fresh(circularBuffer) && fresh(circularBuffer.entry) && fresh(writeBuffer)
      ensures CurrentLog() == EMPTY_LOG
      ensures heap.blocks.Keys == {ringBlock, writeBlock}
    {
      var h := new KernelHeap();
      var ringAt := h.Kmalloc(RING_STRUCT_SIZE, false);
      var bufferAt := h.Kmalloc(MAX_WRITE_SIZE, false);
      var ring := new CB.AesdCircularBuffer();
      var buffer := new byte[MAX_WRITE_SIZE];
      heap, circularBuffer, writeBuffer := h, ring, buffer;
      ringBlock, writeBlock := ringAt, bufferAt;
      writeBufferIndex := 0;
      added, committed := [], [];
    }

    /** The live allocations are the two fixed blocks and, one each, the non-NULL slot pointers. */
    lemma AllocationsAreSlots()
      requires Valid()
      ensures SlotsOwn(circularBuffer.entry[..], heap.blocks, {ringBlock, writeBlock})
    {
      hide Owns, CB.AddAll, SlotTable;
      ReachableSlotTable(added);
      OwnedBySlots(circularBuffer.entry[..], Latest(added, CB.SLOTS), circularBuffer.outOffs,
                   Latest(committed, CB.SLOTS), heap.blocks, {ringBlock, writeBlock});
    }

    /** `copy_from_user(&write_buffer[write_buffer_index], ...)` of the bytes that arrive. */
    method CopyIntoWriteBuffer(data: seq<byte>)
      requires writeBufferIndex + |data| <= writeBuffer.Length
      modifies writeBuffer
      ensures writeBuffer[..] == Splice(old(writeBuffer[..]), writeBufferIndex, data)
    {
      forall i | 0 <= i < |data| {
        writeBuffer[writeBufferIndex + i] := data[i];
      }
    }

    /** Copies the gathered command into its own block and puts it in the ring, freeing what it displaces. */
    method CommitGathered(writeCount: nat, allocFails: bool) returns (ok: bool)
      requires Valid() && writeCount < MAX_WRITE_SIZE
      modifies this, heap, circularBuffer, circularBuffer.entry
      ensures Valid() && ok == !allocFails
      ensures writeBufferIndex == old(writeBufferIndex)
      ensures committed == if ok then old(committed) + [writeBuffer[..writeCount]] else old(committed)
      ensures
        if ok then
          Committed(old(circularBuffer.Value()), circularBuffer.Value(), old(heap.blocks), heap.blocks,
                    writeBuffer[..writeCount])
        else circularBuffer.Value() == old(circularBuffer.Value()) && heap.blocks == old(heap.blocks)
    {
      hide Owns, CB.AddAll, CB.Contents, CB.Add;
      var p := heap.Kmalloc(writeCount, allocFails);
      if p == 0 {
        return false;
      }
      var cmd := writeBuffer[..writeCount];
      heap.Memcpy(p, cmd);
      assert heap.blocks == old(heap.blocks)[p := cmd];
      var e := CB.Entry(p, writeCount);
      OwnsCommitted(added, committed, old(heap.blocks), {ringBlock, writeBlock}, p, cmd);
      QueueFacts();
      CB.AddEnqueues(circularBuffer.Value(), e);
      var overwritten := circularBuffer.AddEntry(e);
      if overwritten != 0 {
        heap.Kfree(overwritten);
      }
      assert heap.blocks == old(heap.blocks)[p := cmd] - Displaced(old(circularBuffer.Value()));
      CB.AddAllStep(added, e);
      added, committed := added + [e], committed + [cmd];
      ok := true;
    }

    lemma QueueFacts()
      requires circularBuffer.Valid() && circularBuffer.Value() == CB.AddAll(added)
      ensures CB.Contents(circularBuffer.Value()) == Latest(added, CB.SLOTS)
      ensures circularBuffer.full <==> |added| >= CB.SLOTS
    {
      CB.ReachableRing(added);
      CB.ReachableContents(added);
    }

    /** `aesd_write` from the lock on, for any sampled count the body can run with in bounds. */
    method WriteLocked(writeCount: nat, data: seq<byte>, env: WriteEnv) returns (r: int)
      requires Valid()
      requires WriteBody(State(), writeCount, data, env).Some?
      modifies this, heap, circularBuffer, circularBuffer.entry, writeBuffer
      ensures Valid()
      ensures Some((State(), r)) == old(WriteBody(State(), writeCount, data, env))
      ensures
        if |committed| > |old(committed)| then
          Committed(old(circularBuffer.Value()), circularBuffer.Value(), old(heap.blocks), heap.blocks,
                    committed[|committed| - 1])
        else circularBuffer.Value() == old(circularBuffer.Value()) && heap.blocks == old(heap.blocks)
    {
      hide Owns, CB.AddAll, CB.WellFormed, Committed;
      if env.interrupted {
        return ERESTARTSYS;
      }
      if |data| >= MAX_WRITE_SIZE {
        return EINVAL;
      }
      if writeCount >= MAX_WRITE_SIZE {
        return EINVAL;
      }
      if env.copyFault.Some? {
        var arrived := Min(|env.copyFault.value|, |data|);
        CopyIntoWriteBuffer(env.copyFault.value[..arrived]);
        return EFAULT;
      }
      CopyIntoWriteBuffer(data);
      if writeBuffer[writeCount - 1] == NEWLINE {
        writeBuffer[writeCount] := NUL;
        var ok := CommitGathered(writeCount, env.allocFails);
        if !ok {
          return ENOMEM;
        }
        writeBufferIndex := 0;
      } else {
        writeBufferIndex := writeBufferIndex + |data|;
      }
      r := |data|;
    }

    /** `aesd_write` called with no other writer between its sample and its lock. */
    method Write(data: seq<byte>, env: WriteEnv) returns (r: int)
      requires Valid()
      requires Defined(CurrentLog(), data, env)
      modifies this, heap, circularBuffer, circularBuffer.entry, writeBuffer
      ensures Valid()
      ensures (CurrentLog(), r) == AtomicWrite(old(CurrentLog()), data, env)
      ensures
        if |committed| > |old(committed)| then
          Committed(old(circularBuffer.Value()), circularBuffer.Value(), old(heap.blocks), heap.blocks,
                    committed[|committed| - 1])
        else circularBuffer.Value() == old(circularBuffer.Value()) && heap.blocks == old(heap.blocks)
    {
      hide WriteBody, AtomicWrite, Owns, CB.AddAll, Defined, Committed;
      ghost var before := State();
      FreshSampleDefinedIff(before, data, env);
      FreshSampleRefines(before, data, env);
      var writeCount := (writeBufferIndex + |data|) % 0x1_0000_0000;
      r := WriteLocked(writeCount, data, env);
      assert Some((State(), r)) == WriteBody(before, writeCount, data, env);
    }

    /** `aesd_read`: `out` is what reaches the user's buffer. */
    method Read(f: File, count: nat, env: ReadEnv) returns (r: int, out: seq<byte>)
      requires Valid() && f.Valid()
      modifies f
      ensures Valid() && f.Valid() && State() == old(State())
      ensures
        var piece := ReadPiece(Stored(old(CurrentLog())), old(f.fPos), count);
        if env.interrupted then r == ERESTARTSYS && out == [] && f.fPos == old(f.fPos)
        else if env.copyFails && piece != [] then r == EFAULT && out == [] && f.fPos == old(f.fPos)
        else r == |piece| && out == piece && f.fPos == old(f.fPos) + |piece|
    {
      hide ReadPiece, Owns, Flatten, CB.AddAll, CB.Contents, CB.TotalSize, CB.Locates;
      out := [];
      if env.interrupted {
        r := ERESTARTSYS;
        return;
      }
      RingFacts();
      var found := circularBuffer.FindEntryOffsetForFpos(f.fPos);
      ReadPieceIsSlice(Stored(CurrentLog()), f.fPos, count);
      if found == None {
        r := 0;
        return;
      }
      var (slot, entryOffset) := found.value;
      FoundByte(f.fPos, slot, entryOffset, count);
      var entry := circularBuffer.entry[slot];
      if entry.size == 0 {
        assert false;
      }
      var bytesToCopy := entry.size - entryOffset;
      if bytesToCopy > count {
        bytesToCopy := count;
      }
      if bytesToCopy > 0 {
        if env.copyFails {
          r := EFAULT;
          return;
        }
        out := heap.blocks[entry.buffptr][entryOffset..entryOffset + bytesToCopy];
        f.fPos := f.fPos + bytesToCopy;
      }
      r := bytesToCopy;
    }

    /** `aesd_llseek` */
    method Llseek(f: File, off: loff, whence: int, interrupted: bool) returns (newpos: loff)
      requires Valid() && f.Valid()
      modifies f
      ensures f.Valid() && Valid() && State() == old(State())
      ensures
        var target :=
          if whence == 0 then off
          else if whence == 1 then WrapLoff(old(f.fPos) + off)
          else if whence == 2 then SeekEndPosition(old(CurrentLog()))
          else EINVAL;
        if interrupted then newpos == ERESTARTSYS && f.fPos == old(f.fPos)
        else if target < 0 then newpos == EINVAL && f.fPos == old(f.fPos)
        else newpos == f.fPos == target
      ensures whence == 2 && !interrupted && Shaped(old(CurrentLog())) ==>
        (newpos == |Contents(old(CurrentLog()))| + off
         <==> off == if old(circularBuffer.full) then -|Contents(old(CurrentLog()))| else 0)
    {
      hide Owns, CB.AddAll, Flatten, Shaped;
      if Shaped(CurrentLog()) {
        SeekEndMeetsStandardIff(off);
      }
      if interrupted {
        return ERESTARTSYS;
      }
      if whence == 0 {
        newpos := off;
      } else if whence == 1 {
        newpos := WrapLoff(f.fPos + off);
      } else if whence == 2 {
        SeekEndFacts();
        newpos := circularBuffer.Size(circularBuffer.inOffs);
      } else {
        return EINVAL;
      }
      if newpos < 0 {
        return EINVAL;
      }
      f.fPos := newpos;
    }

    lemma SeekEndFacts()
      requires Valid()
      ensures CB.SizeUpTo(circularBuffer.Value(), circularBuffer.inOffs) == SeekEndPosition(CurrentLog())
      ensures |Contents(CurrentLog())| <= 1270
    {
      hide Owns, CB.AddAll, Flatten;
      RingFacts();
      ContentsBound(CurrentLog());
    }

    /**
     * What `aesd_circular_buffer_size(in_offs)` returns is where `SEEK_END` with offset `off` should go,
     * length plus `off`, exactly for `off` 0 on a ring that is not full and minus the length on a full one.
     */
    lemma SeekEndMeetsStandardIff(off: int)
      requires Valid() && Shaped(CurrentLog())
      ensures
        CB.SizeUpTo(circularBuffer.Value(), circularBuffer.inOffs) == |Contents(CurrentLog())| + off
        <==> off == if circularBuffer.full then -|Contents(CurrentLog())| else 0
      ensures circularBuffer.full ==> |Contents(CurrentLog())| >= CB.SLOTS
    {
      hide Owns, CB.AddAll, Flatten;
      RingFacts();
      SeekEndFacts();
      FullIsLong(CurrentLog());
    }

    /** `aesd_adjust_file_offset`: on success it returns the new position. */
    method AdjustFileOffset(f: File, writeCmd: nat, writeCmdOffset: nat, interrupted: bool) returns (newpos: int)
      requires Valid() && f.Valid()
      modifies f
      ensures f.Valid() && Valid() && State() == old(State())
      ensures
        var target := SeekTarget(old(CurrentLog()), writeCmd, writeCmdOffset);
        if interrupted then newpos == ERESTARTSYS && f.fPos == old(f.fPos)
        else if target.None? then newpos == EINVAL && f.fPos == old(f.fPos)
        else newpos == f.fPos == target.value
      ensures |old(circularBuffer.entry[..])| == 10
      ensures !interrupted ==>
        (newpos >= 0 <==> writeCmd < 10 && writeCmdOffset < old(circularBuffer.entry[..])[writeCmd].size)
    {
      hide Owns, CB.AddAll, CB.Contents, CB.Locates, CB.TotalSize, Flatten;
      if interrupted {
        return ERESTARTSYS;
      }
      if writeCmd >= CB.SLOTS {
        return EINVAL;
      }
      RingFacts();
      SlotSizes(added, Latest(committed, CB.SLOTS), heap.blocks, {ringBlock, writeBlock}, writeCmd);
      if writeCmdOffset >= circularBuffer.entry[writeCmd].size {
        return EINVAL;
      }
      var totalSize := circularBuffer.Size(writeCmd);
      var charOffset := totalSize + writeCmdOffset;
      SeekLocates(writeCmd, writeCmdOffset, charOffset);
      var found := circularBuffer.FindEntryOffsetForFpos(charOffset);
      if found == None {
        assert false;
      }
      CB.LocatesUnique(circularBuffer.Value(), charOffset, writeCmd, writeCmdOffset, found.value.0, found.value.1);
      newpos := totalSize + found.value.1;
      f.fPos := newpos;
    }

    /** The lookup for an accepted seek finds the very slot and offset asked for. */
    lemma SeekLocates(slot: nat, offset: nat, p: nat)
      requires Valid() && SeekTarget(CurrentLog(), slot, offset) == Some(p)
      ensures CB.Locates(circularBuffer.Value(), p, slot, offset)
      ensures p < CB.TotalSize(CB.Contents(circularBuffer.Value()))
      ensures p < 1270
    {
      hide CB.AddAll, CB.Contents, CB.Locates, CB.TotalSize, Flatten;
      RingFacts();
      var k := RankOfSlot(CurrentLog(), slot);
      CB.SlotOfRank(added, slot);
      assert CB.Advance(circularBuffer.outOffs, k) == slot;
      CB.LocatesAt(circularBuffer.Value(), p, k, offset);
      FlattenSplit(Stored(CurrentLog()), k);
      ContentsBound(CurrentLog());
    }

    /** The freeing part of `aesd_cleanup_module`: afterwards the module holds no kernel memory. */
    method Cleanup()
      requires Valid()
      modifies heap
      ensures heap.blocks == map[]
    {
      hide Owns, CB.AddAll, SlotTable;
      ghost var slots, fixed := circularBuffer.entry[..], {ringBlock, writeBlock};
      AllocationsAreSlots();
      var i := 0;
      while i < CB.SLOTS
        invariant i <= CB.SLOTS
        invariant SlotsOwn(slots[i..], heap.blocks, fixed)
      {
        assert slots[i..][0] == circularBuffer.entry[i] && slots[i..][1..] == slots[i + 1..];
        SlotFreed(slots[i..], heap.blocks, fixed);
        if circularBuffer.entry[i].buffptr != 0 {
          heap.Kfree(circularBuffer.entry[i].buffptr);
        }
        i := i + 1;
      }
      heap.Kfree(ringBlock);
      heap.Kfree(writeBlock);
      assert heap.blocks.Keys == {};
    }
  }

  /** From a successful load to unload, any run of defined writes answers as the log says and leaks nothing. */
  method ModuleLifetime(ops: seq<WriteOp>) returns (heap: KernelHeap, results: seq<int>)
    requires forall i :: 0 <= i < |ops| ==> Defined(RunWrites(EMPTY_LOG, ops[..i]), ops[i].data, ops[i].env)
    ensures results == Results(EMPTY_LOG, ops)
    ensures heap.blocks == map[]
  {
    hide Owns, CB.AddAll, CB.WellFormed, AtomicWrite, Defined, Committed;
    var dev := new AesdDevice();
    heap, results := dev.heap, [];
    var i := 0;
    while i < |ops|
      invariant i <= |ops| && heap == dev.heap
      invariant fresh(dev) && fresh(dev.heap) && fresh(dev.circularBuffer) && fresh(dev.circularBuffer.entry)
      invariant fresh(dev.writeBuffer)
      invariant dev.Valid() && Shaped(dev.CurrentLog())
      invariant dev.CurrentLog() == RunWrites(EMPTY_LOG, ops[..i])
      invariant results + Results(dev.CurrentLog(), ops[i..]) == Results(EMPTY_LOG, ops)
    {
      AtomicWriteKeepsShape(dev.CurrentLog(), ops[i].data, ops[i].env);
      var r := dev.Write(ops[i].data, ops[i].env);
      RunWritesConcat(EMPTY_LOG, ops[..i], [ops[i]]);
      RunOneWrite(RunWrites(EMPTY_LOG, ops[..i]), ops[i]);
      assert ops[..i + 1] == ops[..i] + [ops[i]];
      assert ops[i..][0] == ops[i] && ops[i..][1..] == ops[i + 1..];
      results := results + [r];
      i := i + 1;
    }
    dev.Cleanup();
  }
}
