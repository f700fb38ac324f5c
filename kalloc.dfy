// The allocator itself, as kernel/kalloc.c keeps it: a reference-count array
// that is overwritten slot by slot, and a free list that kfree pushes onto and
// kalloc pops from. Every method is proved to take the allocator from a state
// to the state the matching KallocSpec function gives.

module Kalloc {

  import opened KallocSpec

  class Allocator {
    /** PGSIZE, PHYSTOP and the end of the kernel image. */
    const L: Layout
    /** reference_count.ref_count */
    var refcount: array<u32>
    /** kmem.freelist, head first */
    var freelist: seq<nat>
    /** The junk byte last written over each page. */
    ghost var fill: map<nat, int>

    ghost predicate Valid()
      reads this
    {
      L.Valid() && refcount.Length == L.Frames() &&
      forall f :: f in freelist ==> L.IsFrame(f)
    }

    /** The allocator's state as a value. */
    ghost function Abs(): (s: State)
      reads this, refcount
      requires Valid()
      ensures WellFormed(L, s)
    {
      State(refcount[..], freelist, fill)
    }

    /** The zero-initialised globals, before kinit runs. */
    constructor (layout: Layout)
      requires layout.Valid()
      ensures Valid() && L == layout && fresh(refcount)
      ensures freelist == [] && fill == map[]
    {
      L := layout;
      refcount := new u32[layout.Frames()];
      freelist := [];
      fill := map[];
    }

    /** get_ref_count */
    function GetRefCount(pa: nat): (c: u32)
      reads this, refcount
      requires Valid() && pa < L.phystop
      ensures c == RefCount(L, Abs(), pa)
    {
      refcount[L.Index(pa)]
    }

    /** set_ref_count */
    method SetRefCount(pa: nat, v: u32)
      requires Valid() && pa < L.phystop
      modifies refcount
      ensures Valid() && Abs() == SetCount(L, old(Abs()), pa, v)
    {
      refcount[L.Index(pa)] := v;
    }

    /**
     * kfree. The address is checked against PHYSTOP before the table is read
     * (kernel/kalloc.c reads it first; see KfreeAsWritten).
     */
    method Kfree(pa: nat) returns (status: FreeStatus)
      requires Valid()
      modifies this`freelist, this`fill, refcount
      ensures Valid() && (status, Abs()) == KallocSpec.Kfree(L, old(Abs()), pa)
    {
      if pa >= L.phystop {
        return Panicked;
      }
      var c := GetRefCount(pa);
      if c > 1 {
        SetRefCount(pa, c - 1);
        return Decremented;
      }
      if pa % L.pgsize != 0 || pa < L.kend || pa >= L.phystop {
        return Panicked;
      }
      SetRefCount(pa, 0);
      fill := fill[pa := FREE_JUNK];
      freelist := [pa] + freelist;
      return Freed;
    }

    /** kalloc: the head of the free list with count 1, or 0 when the list is empty. */
    method Kalloc() returns (pa: nat)
      requires Valid()
      modifies this`freelist, this`fill, refcount
      ensures Valid() && (pa, Abs()) == KallocSpec.Kalloc(L, old(Abs()))
    {
      if freelist == [] {
        return 0;
      }
      pa := freelist[0];
      assert pa in freelist;
      freelist := freelist[1..];
      fill := fill[pa := ALLOC_JUNK];
      SetRefCount(pa, 1);
    }

    /** freerange: seed every whole page of [lo, hi) through kfree, lowest first. */
    method Freerange(lo: nat, hi: nat)
      requires Valid() && L.kend <= lo && hi <= L.phystop
      modifies this`freelist, this`fill, refcount
      ensures Valid() && Abs() == KallocSpec.Freerange(L, old(Abs()), lo, hi)
    {
      var p := L.RoundUp(lo);
      while p + L.pgsize <= hi
        invariant Valid() && p % L.pgsize == 0 && L.kend <= p
        invariant FreeFrom(L, Abs(), p, hi) == KallocSpec.Freerange(L, old(Abs()), lo, hi)
        decreases hi - p
      {
        SetRefCount(p, 1);
        var _ := Kfree(p);
        PageMath.AlignedNext(p, L.pgsize);
        p := p + L.pgsize;
      }
    }

    /** kinit: zero every count, then freerange(end, PHYSTOP). */
    method Kinit()
      requires Valid()
      modifies this`freelist, this`fill, refcount
      ensures Valid() && Abs() == KallocSpec.Kinit(L, old(Abs()))
    {
      var i := 0;
      while i < refcount.Length
        invariant Valid() && 0 <= i <= refcount.Length
        invariant forall j :: 0 <= j < i ==> refcount[j] == 0
        invariant freelist == old(freelist) && fill == old(fill)
      {
        refcount[i] := 0;
        i := i + 1;
      }
      assert refcount[..] == seq(L.Frames(), _ => 0 as u32);
      Freerange(L.kend, L.phystop);
    }
  }
}
