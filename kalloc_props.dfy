// What the allocator guarantees, proved about the step functions of
// KallocSpec: the table index, the invariant that a page is free exactly when
// its count is 0, conservation of pages, LIFO reuse, deferred release of
// shared pages, the state kinit leaves behind, and the double free that
// kfree does not catch.

module KallocProps {

  import PageMath
  import opened KallocSpec

  /** The pages of the managed range: the aligned addresses in [end, PHYSTOP). */
  ghost function Managed(L: Layout): set<nat>
    requires L.Valid()
  {
    set f: nat | L.kend <= f < L.phystop && f % L.pgsize == 0
  }

  /** Managed pages with at least one owner. */
  ghost function Live(L: Layout, s: State): set<nat>
    requires L.Valid() && WellFormed(L, s)
  {
    set f | f in Managed(L) && s.counts[L.Index(f)] != 0
  }

  ghost function Elems(xs: seq<nat>): set<nat> {
    set x | x in xs
  }

  /**
   * The pages freerange pushes when its loop starts at `p`, in the order they
   * end up in the free list: the last page pushed comes first.
   */
  function Seeded(L: Layout, p: nat, hi: nat): seq<nat>
    requires L.Valid()
    decreases hi - p
  {
    if p + L.pgsize <= hi then Seeded(L, p + L.pgsize, hi) + [p] else []
  }

  /** The junk kfree leaves on each page of `xs`. */
  ghost function Junked(xs: seq<nat>): map<nat, int> {
    map f | f in xs :: FREE_JUNK
  }

  // ---------------------------------------------------------------------
  // The table index

  /** Two distinct pages never share a table slot. */
  lemma FrameIndexInjective(L: Layout, f: nat, g: nat)
    requires L.Valid() && L.IsFrame(f) && L.IsFrame(g) && L.Index(f) == L.Index(g)
    ensures f == g
  {
    PageMath.AlignedByIndex(f, g, L.pgsize);
  }

  /** The slot of an aligned address `p` is `i` exactly when `p` is `i` pages. */
  lemma AlignedIndex(L: Layout, p: nat, i: nat)
    requires L.Valid() && p % L.pgsize == 0
    ensures L.Index(p) == i <==> i * L.pgsize == p
  {
    PageMath.MulDiv(i, L.pgsize);
    PageMath.DivBounds(p, L.pgsize);
  }

  // ---------------------------------------------------------------------
  // Sequences without duplicates

  /** A list without duplicates has as many elements as its set of elements. */
  lemma {:induction false} NoDupCard(xs: seq<nat>)
    requires NoDup(xs)
    ensures |Elems(xs)| == |xs|
  {
    if xs != [] {
      var t := xs[1..];
      assert xs == [xs[0]] + t;
      assert multiset(xs) == multiset{xs[0]} + multiset(t);
      forall x ensures multiset(t)[x] <= 1 {
        assert multiset(t)[x] <= multiset(xs)[x];
      }
      assert multiset(xs)[xs[0]] <= 1;
      assert xs[0] !in t;
      NoDupCard(t);
      assert Elems(xs) == {xs[0]} + Elems(t);
    }
  }

  /** Pushing a page that is not yet in a duplicate-free list keeps it duplicate-free. */
  lemma PushNoDup(p: nat, xs: seq<nat>)
    requires NoDup(xs) && p !in xs
    ensures NoDup([p] + xs)
  {
    assert multiset([p] + xs) == multiset{p} + multiset(xs);
  }

  // ---------------------------------------------------------------------
  // The invariant: a page is free exactly when its count is 0

  /**
   * A release keeps the invariant as long as the page had an owner: a count
   * above 1 only drops, and a count of 1 sends a page that was not in the
   * list to its head.
   */
  lemma KfreeKeepsConsistent(L: Layout, s: State, pa: nat)
    requires L.Valid() && WellFormed(L, s) && Consistent(L, s)
    requires pa < L.phystop ==> RefCount(L, s, pa) >= 1
    ensures Consistent(L, Kfree(L, s, pa).1)
  {
    var r := Kfree(L, s, pa);
    var t := r.1;
    if r.0 == Decremented {
      forall f | L.IsFrame(f)
        ensures f in t.free <==> t.counts[L.Index(f)] == 0
      {
        if L.Index(f) == L.Index(pa) {
          assert t.counts[L.Index(f)] == RefCount(L, s, pa) - 1;
        }
      }
    } else if r.0 == Freed {
      assert pa !in s.free;
      PushNoDup(pa, s.free);
      forall f | L.IsFrame(f)
        ensures f in t.free <==> t.counts[L.Index(f)] == 0
      {
        if f != pa && L.Index(f) == L.Index(pa) {
          FrameIndexInjective(L, f, pa);
        }
      }
    }
  }

  /**
   * kalloc keeps the invariant, and the page it hands out is no longer in
   * the free list and has exactly one owner.
   */
  lemma KallocKeepsConsistent(L: Layout, s: State)
    requires L.Valid() && WellFormed(L, s) && Consistent(L, s)
    ensures Consistent(L, Kalloc(L, s).1)
    ensures s.free != [] ==>
      Kalloc(L, s).0 !in Kalloc(L, s).1.free && RefCount(L, Kalloc(L, s).1, Kalloc(L, s).0) == 1
  {
    if s.free != [] {
      var (h, t) := Kalloc(L, s);
      assert s.free == [h] + t.free;
      assert multiset(s.free) == multiset{h} + multiset(t.free);
      forall x ensures multiset(t.free)[x] <= 1 {
        assert multiset(t.free)[x] <= multiset(s.free)[x];
      }
      assert multiset(s.free)[h] <= 1;
      assert h !in t.free;
      forall f | L.IsFrame(f)
        ensures f in t.free <==> t.counts[L.Index(f)] == 0
      {
        if f != h && L.Index(f) == L.Index(h) {
          FrameIndexInjective(L, f, h);
        }
      }
    }
  }

  /**
   * Conservation: under the invariant, the pages with an owner and the pages
   * in the free list together are exactly the managed range.
   */
  lemma Conservation(L: Layout, s: State)
    requires L.Valid() && WellFormed(L, s) && Consistent(L, s)
    ensures |Live(L, s)| + |s.free| == |Managed(L)|
  {
    NoDupCard(s.free);
    var M, V, E := Managed(L), Live(L, s), Elems(s.free);
    forall f ensures f in E <==> f in M - V {
      if f in s.free {
        assert L.IsFrame(f);
      }
      if f in M {
        assert L.IsFrame(f);
      }
    }
    assert E == M - V;
    assert V <= M;
    assert M == (M - V) + V;
    assert (M - V) * V == {};
  }

  // ---------------------------------------------------------------------
  // Single operations, chained

  /**
   * A double free: releasing a page that is already free (count 0) is not
   * caught, and pushes the page onto the free list a second time.
   */
  lemma DoubleFreeDuplicates(L: Layout, s: State, pa: nat)
    requires L.Valid() && WellFormed(L, s) && Consistent(L, s)
    requires L.IsFrame(pa) && RefCount(L, s, pa) == 0
    ensures Kfree(L, s, pa).0 == Freed
    ensures multiset(Kfree(L, s, pa).1.free)[pa] == 2
    ensures !NoDup(Kfree(L, s, pa).1.free)
  {
    assert pa in s.free;
    assert multiset(Kfree(L, s, pa).1.free) == multiset{pa} + multiset(s.free);
  }

  /**
   * LIFO: the page a terminal release frees is the next one kalloc hands
   * out, and after the pair the free list is what it was before.
   */
  lemma FreeThenAllocIsLifo(L: Layout, s: State, pa: nat)
    requires L.Valid() && WellFormed(L, s) && Kfree(L, s, pa).0 == Freed
    ensures Kalloc(L, Kfree(L, s, pa).1).0 == pa
    ensures Kalloc(L, Kfree(L, s, pa).1).1.free == s.free
    ensures RefCount(L, Kalloc(L, Kfree(L, s, pa).1).1, pa) == 1
    ensures Kalloc(L, Kfree(L, s, pa).1).1.fill[pa] == ALLOC_JUNK
  {
  }

  /**
   * A page with two owners survives the first release (its count drops to 1
   * and it stays out of the free list) and is freed, exactly once, by the
   * second.
   */
  lemma SharedPageFreedOnLastRelease(L: Layout, s: State, pa: nat)
    requires L.Valid() && WellFormed(L, s) && Consistent(L, s)
    requires L.IsFrame(pa) && RefCount(L, s, pa) == 2
    ensures var (st1, s1) := Kfree(L, s, pa);
      st1 == Decremented && s1.free == s.free && pa !in s1.free && RefCount(L, s1, pa) == 1 &&
      var (st2, s2) := Kfree(L, s1, pa);
      st2 == Freed && s2.free == [pa] + s.free && RefCount(L, s2, pa) == 0 &&
      Consistent(L, s2) && multiset(s2.free)[pa] == 1
  {
    var (st1, s1) := Kfree(L, s, pa);
    KfreeKeepsConsistent(L, s, pa);
    KfreeKeepsConsistent(L, s1, pa);
    var (st2, s2) := Kfree(L, s1, pa);
    assert multiset(s2.free)[pa] <= 1;
  }

  /**
   * kfree as written reads the table before it checks the address against
   * PHYSTOP: releasing PHYSTOP itself reads one slot past the array, where
   * the guarded kfree panics and changes nothing.
   */
  lemma KfreeOverrunsTable(L: Layout, s: State)
    requires L.Valid() && WellFormed(L, s)
    ensures KfreeAsWritten(L, s, L.phystop) == PastTable(L.Frames())
    ensures Kfree(L, s, L.phystop) == (Panicked, s)
  {
  }

  // ---------------------------------------------------------------------
  // freerange and kinit

  /** The pages freerange visits from an aligned `p` are the aligned `x` with `p <= x` and `x + PGSIZE <= hi`. */
  lemma {:induction false} SeededMember(L: Layout, p: nat, hi: nat, x: nat)
    requires L.Valid() && p % L.pgsize == 0
    ensures x in Seeded(L, p, hi) <==> x % L.pgsize == 0 && p <= x && x + L.pgsize <= hi
    decreases hi - p
  {
    if p + L.pgsize <= hi {
      PageMath.AlignedNext(p, L.pgsize);
      SeededMember(L, p + L.pgsize, hi, x);
      if x % L.pgsize == 0 && p < x {
        PageMath.AlignedGap(p, x, L.pgsize);
      }
    }
  }

  /** freerange visits no page twice. */
  lemma {:induction false} SeededNoDup(L: Layout, p: nat, hi: nat)
    requires L.Valid() && p % L.pgsize == 0
    ensures NoDup(Seeded(L, p, hi))
    decreases hi - p
  {
    if p + L.pgsize <= hi {
      PageMath.AlignedNext(p, L.pgsize);
      SeededNoDup(L, p + L.pgsize, hi);
      SeededMember(L, p + L.pgsize, hi, p);
      var t := Seeded(L, p + L.pgsize, hi);
      assert multiset(t + [p]) == multiset(t) + multiset{p};
    }
  }

  /** freerange visits (hi - p) / PGSIZE pages. */
  lemma {:induction false} SeededLength(L: Layout, p: nat, hi: nat)
    requires L.Valid()
    ensures |Seeded(L, p, hi)| == if p <= hi then (hi - p) / L.pgsize else 0
    decreases hi - p
  {
    if p + L.pgsize <= hi {
      SeededLength(L, p + L.pgsize, hi);
      PageMath.DivStep(hi - p, L.pgsize);
    } else if p <= hi {
      PageMath.DivBounds(hi - p, L.pgsize);
      if (hi - p) / L.pgsize >= 1 {
        PageMath.MulMono(1, (hi - p) / L.pgsize, L.pgsize);
      }
    }
  }

  /** One turn of freerange's loop on a valid page frees it whatever its count was. */
  lemma SeedPageEffect(L: Layout, s: State, p: nat)
    requires L.Valid() && WellFormed(L, s) && L.IsFrame(p)
    ensures SeedPage(L, s, p) == State(s.counts[L.Index(p) := 0], [p] + s.free, s.fill[p := FREE_JUNK])
  {
    var k := Kfree(L, SetCount(L, s, p, 1), p);
    assert k.0 == Freed;
  }

  /** The loop of freerange pushes every page it visits, the last one ending at the head. */
  lemma {:induction false} FreeFromList(L: Layout, s: State, p: nat, hi: nat)
    requires L.Valid() && WellFormed(L, s)
    requires p % L.pgsize == 0 && L.kend <= p && hi <= L.phystop
    ensures FreeFrom(L, s, p, hi).free == Seeded(L, p, hi) + s.free
    decreases hi - p
  {
    if p + L.pgsize <= hi {
      PageMath.AlignedNext(p, L.pgsize);
      SeedPageEffect(L, s, p);
      FreeFromList(L, SeedPage(L, s, p), p + L.pgsize, hi);
    }
  }

  /** The loop of freerange sets the count of every page it visits to 0 and leaves the other slots alone. */
  lemma {:induction false} FreeFromCounts(L: Layout, s: State, p: nat, hi: nat)
    requires L.Valid() && WellFormed(L, s)
    requires p % L.pgsize == 0 && L.kend <= p && hi <= L.phystop
    ensures forall i :: 0 <= i < |s.counts| ==>
      FreeFrom(L, s, p, hi).counts[i] == if i * L.pgsize in Seeded(L, p, hi) then 0 else s.counts[i]
    decreases hi - p
  {
    if p + L.pgsize <= hi {
      var pg := L.pgsize;
      PageMath.AlignedNext(p, pg);
      var s1 := SeedPage(L, s, p);
      SeedPageEffect(L, s, p);
      FreeFromCounts(L, s1, p + pg, hi);
      var t := FreeFrom(L, s1, p + pg, hi);
      assert FreeFrom(L, s, p, hi) == t;
      assert Seeded(L, p, hi) == Seeded(L, p + pg, hi) + [p];
      forall i | 0 <= i < |s.counts|
        ensures t.counts[i] == if i * pg in Seeded(L, p, hi) then 0 else s.counts[i]
      {
        AlignedIndex(L, p, i);
      }
    }
  }

  /** The loop of freerange leaves the release junk on every page it visits. */
  lemma {:induction false} FreeFromFill(L: Layout, s: State, p: nat, hi: nat)
    requires L.Valid() && WellFormed(L, s)
    requires p % L.pgsize == 0 && L.kend <= p && hi <= L.phystop
    ensures FreeFrom(L, s, p, hi).fill == s.fill + Junked(Seeded(L, p, hi))
    decreases hi - p
  {
    if p + L.pgsize <= hi {
      PageMath.AlignedNext(p, L.pgsize);
      SeedPageEffect(L, s, p);
      FreeFromFill(L, SeedPage(L, s, p), p + L.pgsize, hi);
      var rest := Seeded(L, p + L.pgsize, hi);
      assert Seeded(L, p, hi) == rest + [p];
      assert Junked(rest + [p]) == Junked(rest)[p := FREE_JUNK];
      assert s.fill + Junked(rest + [p]) == s.fill[p := FREE_JUNK] + Junked(rest);
    }
  }

  /** An aligned address at or above `end` is at or above PGROUNDUP(end). */
  lemma AlignedAboveRoundUp(L: Layout, x: nat, f: nat)
    requires L.Valid() && f % L.pgsize == 0 && x <= f
    ensures L.RoundUp(x) <= f
  {
    if f < L.RoundUp(x) {
      PageMath.AlignedGap(f, L.RoundUp(x), L.pgsize);
    }
  }

  /** The pages freerange(end, PHYSTOP) visits are exactly the managed pages. */
  lemma SeededAreFrames(L: Layout, f: nat)
    requires L.Valid()
    ensures f in Seeded(L, L.RoundUp(L.kend), L.phystop) <==> L.IsFrame(f)
  {
    var pg := L.pgsize;
    SeededMember(L, L.RoundUp(L.kend), L.phystop, f);
    if f % pg == 0 && L.kend <= f {
      AlignedAboveRoundUp(L, L.kend, f);
    }
    if f % pg == 0 && f < L.phystop {
      PageMath.AlignedGap(f, L.phystop, pg);
    }
  }

  /**
   * kinit zeroes the table and then frees every managed page: afterwards every
   * count is 0, and the free list is the managed pages, last visited first.
   */
  lemma KinitState(L: Layout, s: State)
    requires L.Valid() && WellFormed(L, s)
    ensures Kinit(L, s).free == Seeded(L, L.RoundUp(L.kend), L.phystop) + s.free
    ensures forall i :: 0 <= i < |Kinit(L, s).counts| ==> Kinit(L, s).counts[i] == 0
    ensures Kinit(L, s).fill == s.fill + Junked(Seeded(L, L.RoundUp(L.kend), L.phystop))
  {
    var s0 := s.(counts := seq(L.Frames(), _ => 0 as u32));
    FreeFromList(L, s0, L.RoundUp(L.kend), L.phystop);
    FreeFromCounts(L, s0, L.RoundUp(L.kend), L.phystop);
    FreeFromFill(L, s0, L.RoundUp(L.kend), L.phystop);
  }

  /**
   * kinit on the zero-initialised globals puts every page of [end, PHYSTOP)
   * in the free list exactly once, so the list has one entry per managed
   * page: (PHYSTOP - PGROUNDUP(end)) / PGSIZE of them.
   */
  lemma KinitFreeList(L: Layout, s: State)
    requires L.Valid() && WellFormed(L, s) && s.free == []
    ensures forall f :: f in Kinit(L, s).free <==> L.IsFrame(f)
    ensures NoDup(Kinit(L, s).free)
    ensures |Kinit(L, s).free| == (L.phystop - L.RoundUp(L.kend)) / L.pgsize
  {
    var R := L.RoundUp(L.kend);
    KinitState(L, s);
    assert Kinit(L, s).free == Seeded(L, R, L.phystop);
    SeededNoDup(L, R, L.phystop);
    SeededLength(L, R, L.phystop);
    forall f ensures f in Kinit(L, s).free <==> L.IsFrame(f) {
      SeededAreFrames(L, f);
    }
    if L.phystop < R {
      PageMath.AlignedGap(L.phystop, R, L.pgsize);
    }
  }

  /**
   * After kinit on the zero-initialised globals the invariant holds, no
   * managed page is live, every managed page carries the release junk, and
   * the free list holds the whole managed range.
   */
  lemma KinitEffect(L: Layout, s: State)
    requires L.Valid() && WellFormed(L, s) && s.free == []
    ensures Consistent(L, Kinit(L, s))
    ensures Live(L, Kinit(L, s)) == {}
    ensures forall f :: L.IsFrame(f) ==> f in Kinit(L, s).fill && Kinit(L, s).fill[f] == FREE_JUNK
    ensures |Kinit(L, s).free| == |Managed(L)|
  {
    var t := Kinit(L, s);
    KinitState(L, s);
    KinitFreeList(L, s);
    forall f | L.IsFrame(f) ensures f in t.fill && t.fill[f] == FREE_JUNK {
      SeededAreFrames(L, f);
    }
    Conservation(L, t);
    assert Live(L, t) == {};
  }

  // ---------------------------------------------------------------------
  // A boot with four pages

  /** Four pages between `end` and PHYSTOP, and the zero-initialised globals. */
  const BOOT_LAYOUT := Layout(4096, 5 * 4096, 4096)
  const BOOT_GLOBALS := State(seq(5, _ => 0 as u32), [], map[])

  /** kinit over four pages leaves them in the free list, highest first. */
  lemma BootFreeList()
    ensures Kinit(BOOT_LAYOUT, BOOT_GLOBALS).free == [16384, 12288, 8192, 4096]
  {
    var L := BOOT_LAYOUT;
    KinitState(L, BOOT_GLOBALS);
    assert L.RoundUp(L.kend) == 4096;
    assert Seeded(L, 20480, 20480) == [];
    assert Seeded(L, 16384, 20480) == [16384];
    assert Seeded(L, 12288, 20480) == [16384, 12288];
    assert Seeded(L, 8192, 20480) == [16384, 12288, 8192];
  }

  /**
   * After kinit over four pages, kalloc hands them out highest first, a fifth
   * kalloc returns 0 and changes nothing, and a page released by its only
   * owner is the next one kalloc returns.
   */
  lemma BootWithFourPages()
    ensures
      var L := BOOT_LAYOUT;
      var s0 := Kinit(L, BOOT_GLOBALS);
      var (a, s1) := Kalloc(L, s0);
      var (b, s2) := Kalloc(L, s1);
      var (c, s3) := Kalloc(L, s2);
      var (d, s4) := Kalloc(L, s3);
      var (e, s5) := Kalloc(L, s4);
      [a, b, c, d] == [16384, 12288, 8192, 4096] && e == 0 && s5 == s4 &&
      var (st, s6) := Kfree(L, s5, c);
      st == Freed && Kalloc(L, s6).0 == c
  {
    var L := BOOT_LAYOUT;
    BootFreeList();
    var s0 := Kinit(L, BOOT_GLOBALS);
    var (a, s1) := Kalloc(L, s0);
    var (b, s2) := Kalloc(L, s1);
    var (c, s3) := Kalloc(L, s2);
    var (d, s4) := Kalloc(L, s3);
    var (e, s5) := Kalloc(L, s4);
    assert RefCount(L, s5, c) == 1;
    FreeThenAllocIsLifo(L, s5, c);
  }
}
