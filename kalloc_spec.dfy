// Abstract state and step functions of the reference-counted physical page
// allocator: one function per C function of kernel/kalloc.c, each taking the
// allocator state before the call and giving the state after it.

module KallocSpec {

  import PageMath

  /** The C `uint` that holds one reference count. */
  newtype u32 = x: int | 0 <= x < 0x1_0000_0000

  /** Junk byte a terminal `kfree` writes over the whole page. */
  const FREE_JUNK: int := 1
  /** Junk byte `kalloc` writes over the page it hands out. */
  const ALLOC_JUNK: int := 5

  /**
   * The build-time constants the allocator depends on: the page size
   * (PGSIZE), the top of physical memory (PHYSTOP) and the first address
   * after the kernel image (the linker symbol `end`).
   */
  datatype Layout = Layout(pgsize: nat, phystop: nat, kend: nat)
  {
    predicate Valid() {
      0 < pgsize && phystop % pgsize == 0 && 0 < kend <= phystop
    }

    /** Number of entries of the reference-count table, PHYSTOP/PGSIZE. */
    function Frames(): nat
      requires Valid()
    {
      phystop / pgsize
    }

    /** get_ref_count_index: the table slot of the page holding `pa`. */
    function Index(pa: nat): (i: nat)
      requires Valid()
      ensures pa < phystop <==> i < Frames()
      ensures i * pgsize <= pa < i * pgsize + pgsize
    {
      PageMath.DivBounds(pa, pgsize);
      PageMath.DivBelow(pa, phystop, pgsize);
      pa / pgsize
    }

    /** PGROUNDUP: the first page boundary at or above `x`. */
    function RoundUp(x: nat): (r: nat)
      requires Valid()
      ensures r % pgsize == 0
      ensures x <= r < x + pgsize
    {
      PageMath.DivBounds(x + pgsize - 1, pgsize);
      PageMath.MulDiv((x + pgsize - 1) / pgsize, pgsize);
      ((x + pgsize - 1) / pgsize) * pgsize
    }

    /** An address `kfree` accepts for a terminal release. */
    predicate IsFrame(pa: nat)
      requires Valid()
    {
      pa % pgsize == 0 && kend <= pa < phystop
    }
  }

  /**
   * The allocator's state: the reference-count table, the free list with its
   * head first, and the junk byte last written over each page.
   */
  datatype State = State(counts: seq<u32>, free: seq<nat>, fill: map<nat, int>)

  /** The table has one slot per page and the free list only holds valid pages. */
  predicate WellFormed(L: Layout, s: State)
    requires L.Valid()
  {
    |s.counts| == L.Frames() && forall f :: f in s.free ==> L.IsFrame(f)
  }

  ghost predicate NoDup(xs: seq<nat>) {
    forall x :: multiset(xs)[x] <= 1
  }

  /**
   * The allocator's intended invariant: no page is twice in the free list,
   * and a page is in the free list exactly when its count is 0.
   */
  ghost predicate Consistent(L: Layout, s: State)
    requires L.Valid() && WellFormed(L, s)
  {
    NoDup(s.free) &&
    forall f :: L.IsFrame(f) ==> (f in s.free <==> s.counts[L.Index(f)] == 0)
  }

  /** get_ref_count */
  function RefCount(L: Layout, s: State, pa: nat): u32
    requires L.Valid() && WellFormed(L, s) && pa < L.phystop
  {
    s.counts[L.Index(pa)]
  }

  /** set_ref_count */
  function SetCount(L: Layout, s: State, pa: nat, v: u32): (t: State)
    requires L.Valid() && WellFormed(L, s) && pa < L.phystop
    ensures WellFormed(L, t) && t.free == s.free && t.fill == s.fill
    ensures RefCount(L, t, pa) == v
    ensures forall q: nat :: q < L.phystop && L.Index(q) != L.Index(pa) ==>
      RefCount(L, t, q) == RefCount(L, s, q)
  {
    s.(counts := s.counts[L.Index(pa) := v])
  }

  datatype FreeStatus = Decremented | Freed | Panicked

  /**
   * Outcome of `kfree` as the C code orders its steps: either the table read
   * stays inside `ref_count`, or it falls past the end of the array.
   */
  datatype TableAccess = InTable(status: FreeStatus, after: State) | PastTable(index: nat)

  /**
   * kfree exactly as written: read the count first, and only in the terminal
   * branch check the address against the alignment and the managed range.
   */
  function KfreeAsWritten(L: Layout, s: State, pa: nat): (r: TableAccess)
    requires L.Valid() && WellFormed(L, s)
    ensures r.PastTable? <==> L.phystop <= pa
    ensures r.PastTable? ==> L.Frames() <= r.index
    ensures r.InTable? ==> WellFormed(L, r.after)
  {
    var i := L.Index(pa);
    if i >= |s.counts| then PastTable(i)
    else
      var c := s.counts[i];
      if c > 1 then InTable(Decremented, SetCount(L, s, pa, c - 1))
      else if pa % L.pgsize != 0 || pa < L.kend || pa >= L.phystop then InTable(Panicked, s)
      else InTable(Freed, State(s.counts[i := 0], [pa] + s.free, s.fill[pa := FREE_JUNK]))
  }

  /**
   * kfree, with the table access guarded: an address at or above PHYSTOP
   * panics before the table is touched. Otherwise it is KfreeAsWritten.
   */
  function Kfree(L: Layout, s: State, pa: nat): (r: (FreeStatus, State))
    requires L.Valid() && WellFormed(L, s)
    ensures WellFormed(L, r.1)
    ensures r.0 == Panicked <==>
      L.phystop <= pa || (RefCount(L, s, pa) <= 1 && !L.IsFrame(pa))
    ensures r.0 == Panicked ==> r.1 == s
    ensures r.0 == Decremented <==> pa < L.phystop && RefCount(L, s, pa) > 1
    ensures r.0 == Decremented ==>
      r.1.free == s.free && r.1.fill == s.fill &&
      r.1.counts == s.counts[L.Index(pa) := RefCount(L, s, pa) - 1]
    ensures r.0 == Freed ==>
      L.IsFrame(pa) && RefCount(L, s, pa) <= 1 &&
      r.1.free == [pa] + s.free && r.1.fill == s.fill[pa := FREE_JUNK] &&
      r.1.counts == s.counts[L.Index(pa) := 0]
  {
    if L.phystop <= pa then (Panicked, s)
    else match KfreeAsWritten(L, s, pa)
      case InTable(status, after) => (status, after)
      case PastTable(_) => (Panicked, s)
  }

  /** kalloc: pop the head of the free list and give it one owner, or return 0. */
  function Kalloc(L: Layout, s: State): (r: (nat, State))
    requires L.Valid() && WellFormed(L, s)
    ensures WellFormed(L, r.1)
    ensures s.free == [] ==> r == (0, s)
    ensures s.free != [] ==>
      r.0 == s.free[0] && r.0 != 0 && L.IsFrame(r.0) &&
      r.1.free == s.free[1..] && r.1.fill == s.fill[r.0 := ALLOC_JUNK] &&
      r.1.counts == s.counts[L.Index(r.0) := 1]
  {
    if s.free == [] then (0, s)
    else
      var h := s.free[0];
      assert h in s.free;
      (h, State(s.counts[L.Index(h) := 1], s.free[1..], s.fill[h := ALLOC_JUNK]))
  }

  /** One turn of freerange's loop: set the count of `p` to 1, then kfree it. */
  function SeedPage(L: Layout, s: State, p: nat): (t: State)
    requires L.Valid() && WellFormed(L, s) && L.IsFrame(p)
    ensures WellFormed(L, t)
  {
    Kfree(L, SetCount(L, s, p, 1), p).1
  }

  /** The loop of freerange from page `p` on, while `p + PGSIZE <= hi`. */
  function FreeFrom(L: Layout, s: State, p: nat, hi: nat): (t: State)
    requires L.Valid() && WellFormed(L, s)
    requires p % L.pgsize == 0 && L.kend <= p && hi <= L.phystop
    ensures WellFormed(L, t)
    decreases hi - p
  {
    PageMath.AlignedNext(p, L.pgsize);
    if p + L.pgsize <= hi then FreeFrom(L, SeedPage(L, s, p), p + L.pgsize, hi) else s
  }

  /** freerange(lo, hi) */
  function Freerange(L: Layout, s: State, lo: nat, hi: nat): (t: State)
    requires L.Valid() && WellFormed(L, s) && L.kend <= lo && hi <= L.phystop
    ensures WellFormed(L, t)
  {
    FreeFrom(L, s, L.RoundUp(lo), hi)
  }

  /** kinit: zero the whole table, then freerange(end, PHYSTOP). */
  function Kinit(L: Layout, s: State): (t: State)
    requires L.Valid() && WellFormed(L, s)
    ensures WellFormed(L, t)
  {
    Freerange(L, s.(counts := seq(L.Frames(), _ => 0 as u32)), L.kend, L.phystop)
  }
}
