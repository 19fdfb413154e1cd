/** The ten-slot ring of `aesd-circular-buffer.c`: first as a value, then as the object the driver updates. */
module CircularBuffer {
  import opened Bytes

  const SLOTS: nat := 10

  /** `buffptr` is a kernel address, 0 for NULL. */
  datatype Entry = Entry(buffptr: nat, size: nat)

  const EMPTY_SLOT := Entry(0, 0)

  /** A snapshot of the C structure. */
  datatype Ring = Ring(entry: seq<Entry>, inOffs: nat, outOffs: nat, full: bool)

  predicate WellFormed(r: Ring) {
    && |r.entry| == SLOTS
    && r.inOffs < SLOTS
    && r.outOffs < SLOTS
    && (r.full ==> r.inOffs == r.outOffs)
  }

  /** `(i + k) % SLOTS`, the C code's way of moving forward in the array. */
  function Advance(i: nat, k: nat): (j: nat)
    requires i < SLOTS && k <= SLOTS
    ensures j < SLOTS && j == (i + k) % SLOTS
  {
    if i + k < SLOTS then i + k else i + k - SLOTS
  }

  /** Slots passed when walking forward from `a` to `b`, wrapping at the end of the array. */
  function Distance(a: nat, b: nat): nat
    requires a < SLOTS && b < SLOTS
  {
    if a <= b then b - a else b + SLOTS - a
  }

  function Count(r: Ring): (n: nat)
    requires WellFormed(r)
    ensures n <= SLOTS
  {
    if r.full then SLOTS else Distance(r.outOffs, r.inOffs)
  }

  /** The first `n` slots met when walking forward from `outOffs`. */
  function Walk(r: Ring, n: nat): (s: seq<Entry>)
    requires WellFormed(r) && n <= SLOTS
    ensures |s| == n
  {
    seq(n, k requires 0 <= k < n => r.entry[Advance(r.outOffs, k)])
  }

  /** The bounded queue the ring stands for, oldest entry first. */
  function Contents(r: Ring): seq<Entry>
    requires WellFormed(r)
  {
    Walk(r, Count(r))
  }

  function TotalSize(es: seq<Entry>): nat {
    if es == [] then 0 else TotalSize(es[..|es| - 1]) + es[|es| - 1].size
  }

  /** All ten slots zeroed. */
  function EmptyRing(): Ring {
    Ring(seq(SLOTS, i => EMPTY_SLOT), 0, 0, false)
  }

  /** The effect of `aesd_circular_buffer_add_entry` on the structure. */
  function Add(r: Ring, e: Entry): Ring
    requires WellFormed(r)
  {
    var out := if r.full then Advance(r.outOffs, 1) else r.outOffs;
    var in' := Advance(r.inOffs, 1);
    Ring(r.entry[r.inOffs := e], in', out, r.full || in' == out)
  }

  /** Adding is enqueueing on a queue of capacity ten that drops its oldest element. */
  lemma AddEnqueues(r: Ring, e: Entry)
    requires WellFormed(r)
    ensures WellFormed(Add(r, e))
    ensures Contents(Add(r, e)) == Latest(Contents(r) + [e], SLOTS)
    ensures r.full ==> r.entry[r.inOffs] == Contents(r)[0]
  {
    var a, b := Contents(Add(r, e)), Latest(Contents(r) + [e], SLOTS);
    assert |a| == |b|;
    forall k | 0 <= k < |a| ensures a[k] == b[k] {
      assert a[k] == Add(r, e).entry[Advance(Add(r, e).outOffs, k)];
    }
  }

  /** What `aesd_circular_buffer_size` adds up: the slots from `outOffs` to `offset`, nothing on an empty ring. */
  function SizeUpTo(r: Ring, offset: nat): nat
    requires WellFormed(r) && offset < SLOTS
  {
    if !r.full && r.inOffs == r.outOffs then 0 else TotalSize(Walk(r, Distance(r.outOffs, offset)))
  }

  /** The ring after a whole run of additions since initialisation. */
  function AddAll(es: seq<Entry>): (r: Ring)
    ensures WellFormed(r)
  {
    if es == [] then EmptyRing()
    else
      AddEnqueues(AddAll(es[..|es| - 1]), es[|es| - 1]);
      Add(AddAll(es[..|es| - 1]), es[|es| - 1])
  }

  lemma AddAllStep(es: seq<Entry>, e: Entry)
    ensures AddAll(es + [e]) == Add(AddAll(es), e)
  {
  }

  function OutOffsAfter(n: nat): nat {
    if n <= SLOTS then 0 else n % SLOTS
  }

  /** Counting modulo the capacity and advancing one slot are the same. */
  lemma ModuloStep(n: nat)
    ensures (n + 1) % SLOTS == Advance(n % SLOTS, 1)
  {
  }

  lemma {:induction false} ReachableContents(es: seq<Entry>)
    ensures Contents(AddAll(es)) == Latest(es, SLOTS)
  {
    if es != [] {
      var before := es[..|es| - 1];
      var e := es[|es| - 1];
      ReachableContents(before);
      AddEnqueues(AddAll(before), e);
      assert before + [e] == es;
      assert Latest(Latest(before, SLOTS) + [e], SLOTS) == Latest(es, SLOTS);
    }
  }

  /** Closed form of every state reachable from initialisation. */
  lemma {:induction false} ReachableRing(es: seq<Entry>)
    ensures AddAll(es).inOffs == |es| % SLOTS
    ensures AddAll(es).full <==> |es| >= SLOTS
    ensures AddAll(es).outOffs == OutOffsAfter(|es|)
    ensures forall i :: |es| <= i < SLOTS ==> AddAll(es).entry[i] == EMPTY_SLOT
  {
    if es != [] {
      var before := es[..|es| - 1];
      ReachableRing(before);
      ModuloStep(|before|);
    }
  }

  /** Where a reachable ring keeps its `rank`-th oldest entry, and what every other slot holds. */
  lemma SlotOfRank(es: seq<Entry>, slot: nat)
    requires slot < SLOTS
    ensures
      var r := AddAll(es);
      var rank := Distance(r.outOffs, slot);
      if rank < |Latest(es, SLOTS)|
      then r.entry[slot] == Latest(es, SLOTS)[rank]
      else r.entry[slot] == EMPTY_SLOT
  {
    ReachableRing(es);
    ReachableContents(es);
    var r := AddAll(es);
    var rank := Distance(r.outOffs, slot);
    assert Advance(r.outOffs, rank) == slot;
    if rank < Count(r) {
      assert Contents(r)[rank] == r.entry[slot];
    }
  }

  /** `slot` and `offset` name the byte at flat position `p`. */
  predicate Locates(r: Ring, p: nat, slot: nat, offset: nat)
    requires WellFormed(r)
  {
    && slot < SLOTS
    && var rank := Distance(r.outOffs, slot);
    && rank < Count(r)
    && offset < r.entry[slot].size
    && TotalSize(Contents(r)[..rank]) + offset == p
  }

  lemma {:induction false} TotalSizeMonotone(es: seq<Entry>, i: nat, j: nat)
    requires i <= j <= |es|
    ensures TotalSize(es[..i]) <= TotalSize(es[..j])
    decreases j
  {
    if i < j {
      TotalSizeMonotone(es, i, j - 1);
      assert es[..j][..j - 1] == es[..j - 1];
    }
  }

  /** One more entry adds exactly its size. */
  lemma TotalSizeStep(es: seq<Entry>, i: nat)
    requires i < |es|
    ensures TotalSize(es[..i + 1]) == TotalSize(es[..i]) + es[i].size
  {
    assert es[..i + 1][..i] == es[..i];
  }

  /** Finding position `p` inside the entry of age `rank` locates it. */
  lemma LocatesAt(r: Ring, p: nat, rank: nat, offset: nat)
    requires WellFormed(r) && rank < Count(r)
    requires offset < Contents(r)[rank].size
    requires TotalSize(Contents(r)[..rank]) + offset == p
    ensures Locates(r, p, Advance(r.outOffs, rank), offset)
    ensures p < TotalSize(Contents(r))
  {
    var es := Contents(r);
    TotalSizeStep(es, rank);
    TotalSizeMonotone(es, rank + 1, |es|);
    assert es[..|es|] == es;
    assert Distance(r.outOffs, Advance(r.outOffs, rank)) == rank;
  }

  /** A shorter walk is a prefix of a longer one. */
  lemma WalkPrefix(r: Ring, m: nat, n: nat)
    requires WellFormed(r) && m <= n <= SLOTS
    ensures Walk(r, m) == Walk(r, n)[..m]
  {
  }

  /** One turn of the lookup loop: the slot it looks at, the slot it moves to, and when it stops. */
  lemma LoopTurn(r: Ring, k: nat)
    requires WellFormed(r) && k < Count(r)
    ensures
      var i := Advance(r.outOffs, k);
      && r.entry[i] == Contents(r)[k]
      && Advance(i, 1) == Advance(r.outOffs, k + 1)
      && (Advance(i, 1) == r.inOffs <==> k + 1 == Count(r))
  {
  }

  /** A flat position has at most one slot and byte offset. */
  lemma LocatesUnique(r: Ring, p: nat, slot: nat, offset: nat, slot': nat, offset': nat)
    requires WellFormed(r)
    requires Locates(r, p, slot, offset) && Locates(r, p, slot', offset')
    ensures slot == slot' && offset == offset'
  {
    var i, j := Distance(r.outOffs, slot), Distance(r.outOffs, slot');
    var es := Contents(r);
    assert Advance(r.outOffs, i) == slot && Advance(r.outOffs, j) == slot';
    assert es[i] == r.entry[slot] && es[j] == r.entry[slot'];
    TotalSizeStep(es, i);
    TotalSizeStep(es, j);
    if i < j {
      TotalSizeMonotone(es, i + 1, j);
    } else if j < i {
      TotalSizeMonotone(es, j + 1, i);
    }
  }

  class AesdCircularBuffer {
    const entry: array<Entry>
    var inOffs: nat
    var outOffs: nat
    var full: bool

    ghost predicate Valid()
      reads this, entry
    {
      entry.Length == SLOTS && WellFormed(Value())
    }

    ghost function Value(): Ring
      reads this, entry
    {
      Ring(entry[..], inOffs, outOffs, full)
    }

    /** `aesd_circular_buffer_init`: the whole structure zeroed. */
    constructor ()
      ensures Valid() && fresh(entry)
      ensures Value() == EmptyRing() && Contents(Value()) == []
    {
      entry := new Entry[SLOTS](_ => EMPTY_SLOT);
      inOffs, outOffs, full := 0, 0, false;
    }

    /** `aesd_circular_buffer_add_entry`: returns the displaced pointer, or NULL. */
    method AddEntry(e: Entry) returns (overwritten: nat)
      requires Valid()
      modifies this, entry
      ensures Valid()
      ensures Value() == Add(old(Value()), e)
      ensures Contents(Value()) == Latest(old(Contents(Value())) + [e], SLOTS)
      ensures overwritten == if old(full) then old(Contents(Value()))[0].buffptr else 0
    {
      AddEnqueues(Value(), e);
      overwritten := 0;
      if full {
        overwritten := entry[outOffs].buffptr;
        outOffs := Advance(outOffs, 1);
      }
      entry[inOffs] := e;
      inOffs := Advance(inOffs, 1);
      if inOffs == outOffs {
        full := true;
      }
    }

    /** `aesd_circular_buffer_find_entry_offset_for_fpos`: `None` is the NULL return. */
    method FindEntryOffsetForFpos(charOffset: nat) returns (found: Option<(nat, nat)>)
      requires Valid()
      ensures found.Some? <==> charOffset < TotalSize(Contents(Value()))
      ensures found.Some? ==> Locates(Value(), charOffset, found.value.0, found.value.1)
    {
      var bufferEmpty := inOffs == outOffs && !full;
      if bufferEmpty {
        return None;
      }
      ghost var es := Contents(Value());
      ghost var k: nat := 0;
      var totalSize := 0;
      var i := outOffs;
      assert |es| > 0 && i == Advance(outOffs, 0) && es[..0] == [];
      hide Locates, Contents, Count, Advance;
      while true
        invariant k < |es| == Count(Value()) && i == Advance(outOffs, k)
        invariant totalSize == TotalSize(es[..k]) <= charOffset
        decreases |es| - k
      {
        LoopTurn(Value(), k);
        totalSize := totalSize + entry[i].size;
        TotalSizeStep(es, k);
        if totalSize > charOffset {
          LocatesAt(Value(), charOffset, k, charOffset - (totalSize - entry[i].size));
          return Some((i, charOffset - (totalSize - entry[i].size)));
        }
        i := Advance(i, 1);
        k := k + 1;
        if i == inOffs {
          break;
        }
      }
      assert k == |es| && es[..k] == es;
      return None;
    }

    /** `aesd_circular_buffer_size`: bytes in the slots from `outOffs` up to, not including, `offset`. */
    method Size(offset: nat) returns (totalSize: nat)
      requires Valid() && offset < SLOTS
      ensures totalSize == SizeUpTo(Value(), offset)
    {
      totalSize := 0;
      if (full || inOffs != outOffs) && offset != outOffs {
        ghost var es := Walk(Value(), Distance(outOffs, offset));
        ghost var k: nat := 0;
        var i := outOffs;
        while true
          invariant k < |es| && i == Advance(outOffs, k)
          invariant totalSize == TotalSize(es[..k])
          decreases |es| - k
        {
          totalSize := totalSize + entry[i].size;
          TotalSizeStep(es, k);
          i := Advance(i, 1);
          k := k + 1;
          if i == offset {
            break;
          }
        }
        assert k == |es| && es[..k] == es;
      }
    }
  }
}
