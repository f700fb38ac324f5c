# Reference-counted physical page allocator (xv6 copy-on-write kernel)

This project models `kernel/kalloc.c` of a copy-on-write variant of the xv6
kernel. The allocator hands out 4096-byte physical pages from a LIFO free list
(`kmem.freelist`). It keeps one reference count per page
(`reference_count.ref_count`, indexed by `pa / PGSIZE`), so a page shared
between address spaces goes back to the free list only when its last owner
releases it.

Files:

- `page_math.dfy` (module `PageMath`): facts about division by the page size.
- `kalloc_spec.dfy` (module `KallocSpec`): the layout constants (`PGSIZE`,
  `PHYSTOP`, `end`) and the allocator state as a value. There is one step
  function per C function: `Layout.Index` for `get_ref_count_index`,
  `RefCount`, `SetCount`, `Kfree`, `Kalloc`, `SeedPage` and `FreeFrom` (the
  body and the loop of `freerange`), `Freerange` and `Kinit`.
- `kalloc.dfy` (module `Kalloc`): class `Allocator`, the allocator as the C
  code keeps it. It has a `refcount: array<u32>` overwritten slot by slot and a
  `freelist: seq<nat>` (head first) that `Kfree` pushes onto and `Kalloc` pops
  from. A ghost map records the junk byte last written over each page. Each
  method is proved to move the allocator to the state its `KallocSpec` step
  function gives.
- `kalloc_props.dfy` (module `KallocProps`): what the allocator guarantees,
  proved about the step functions.

The intended invariant, `KallocSpec.Consistent`, says two things. A managed
page is in the free list exactly when its count is 0. The free list has no
duplicates. `Kfree` keeps the invariant only when the released page has count
1 or more: `kfree` does not reject a count of 0, so a double free pushes the
page a second time (`KallocProps.DoubleFreeDuplicates`). The class invariant
`Allocator.Valid` is therefore only structural: the table has `PHYSTOP/PGSIZE`
slots and every free-list entry is an aligned address in `[end, PHYSTOP)`.

A kernel `panic("kfree")` is modelled as the outcome `FreeStatus.Panicked`
with the state unchanged. `kalloc` returning 0 on an empty list is kept as the
value 0; `Layout.Valid` requires `0 < end`, so 0 is never a page.

Where the design description and the code differ, the model follows the code:

- The description names a "share" (increment) operation. `kalloc.c` has none.
  Callers increment through `set_ref_count`, which is modelled.
- The description treats a count of 0 at release as happening only during
  initialisation. The code accepts it at any time (see above).
- The description says an address at or above `PHYSTOP` is rejected on a
  terminal release. The code reads the table slot of such an address before it
  checks it (see Findings).

## Model

| member | source | states |
|---|---|---|
| KallocSpec.Layout.Index | kernel/kalloc.c:35-36 | the slot `pa / PGSIZE` lies in the `PHYSTOP/PGSIZE` table exactly when `pa < PHYSTOP`, and it is the page that contains `pa` |
| KallocSpec.Layout.RoundUp | kernel/kalloc.c:93 | PGROUNDUP gives an aligned address at or above `x` and less than one page above it |
| KallocProps.FrameIndexInjective | kernel/kalloc.c:35-36 | two aligned addresses in `[end, PHYSTOP)` with the same slot are the same page |
| Kalloc.Allocator.GetRefCount | kernel/kalloc.c:50-61 | reads the count in slot `pa / PGSIZE` of the table |
| KallocSpec.SetCount | kernel/kalloc.c:63-73 | after setting `v`, reading the count of `pa` gives `v`; every other slot, the free list and the page contents are unchanged |
| Kalloc.Allocator.SetRefCount | kernel/kalloc.c:63-73 | overwrites one array slot; the new state is `SetCount` of the old |
| KallocSpec.KfreeAsWritten | kernel/kalloc.c:113-150 | kfree in the code's order: the table is read first, so an address at or above `PHYSTOP` reads past the table (see Findings) |
| KallocSpec.Kfree | kernel/kalloc.c:113-150 | it panics exactly when `pa >= PHYSTOP`, or when the count is at most 1 and `pa` is misaligned, below `end` or at or above `PHYSTOP`; a panic changes nothing. It decrements exactly when the count is above 1, and then the list and contents stay the same. Otherwise it frees: the count becomes 0, the page gets junk 1, and `pa` goes to the head of the list with the rest in order |
| Kalloc.Allocator.Kfree | kernel/kalloc.c:113-150 | the method's status and new state are those of `KallocSpec.Kfree` |
| KallocSpec.Kalloc | kernel/kalloc.c:155-183 | on an empty list it returns 0 and changes nothing. Otherwise it returns the head, a nonzero valid page, and removes it from the list; that page gets junk 5 and count 1, and the other slots are unchanged |
| Kalloc.Allocator.Kalloc | kernel/kalloc.c:155-183 | the method's result and new state are those of `KallocSpec.Kalloc` |
| KallocSpec.SeedPage | kernel/kalloc.c:96-105 | one turn of freerange's loop (count set to 1, then kfree) keeps the state well formed |
| KallocProps.SeedPageEffect | kernel/kalloc.c:96-105 | one turn of freerange's loop on a valid page frees it: count 0, junk 1, pushed at the head |
| KallocSpec.FreeFrom | kernel/kalloc.c:94-106 | freerange's loop keeps the state well formed |
| KallocSpec.Freerange | kernel/kalloc.c:89-107 | freerange from PGROUNDUP(lo) keeps the state well formed |
| Kalloc.Allocator.Freerange | kernel/kalloc.c:89-107 | the loop's final state is `KallocSpec.Freerange` of the state before it |
| KallocSpec.Kinit | kernel/kalloc.c:75-87 | kinit (zero the table, then freerange(end, PHYSTOP)) keeps the state well formed |
| Kalloc.Allocator.Kinit | kernel/kalloc.c:75-87 | after zeroing the array and seeding the range, the state is `KallocSpec.Kinit` of the state before |
| Kalloc.Allocator.constructor | kernel/kalloc.c:21-33 | the globals before kinit: a table of `PHYSTOP/PGSIZE` slots and an empty free list |
| KallocProps.SeededMember | kernel/kalloc.c:93-94 | the pages freerange visits from an aligned `p` are the aligned `x` with `p <= x` and `x + PGSIZE <= hi` |
| KallocProps.SeededNoDup | kernel/kalloc.c:93-94 | freerange visits no page twice |
| KallocProps.SeededLength | kernel/kalloc.c:93-94 | freerange visits `(hi - p) / PGSIZE` pages |
| KallocProps.FreeFromList | kernel/kalloc.c:94-106 | freerange's loop pushes every visited page; the last visited ends up at the head, above the old list |
| KallocProps.FreeFromCounts | kernel/kalloc.c:94-106 | freerange's loop leaves count 0 on every visited page and does not change other slots |
| KallocProps.FreeFromFill | kernel/kalloc.c:94-106 | freerange's loop leaves junk 1 on every visited page and changes no other page's contents |
| KallocProps.SeededAreFrames | kernel/kalloc.c:86-94 | the pages freerange(end, PHYSTOP) visits are exactly the aligned addresses in `[end, PHYSTOP)` |
| KallocProps.KinitState | kernel/kalloc.c:75-107 | after kinit every count is 0, and the free list is the visited pages, last visited first |
| KallocProps.KinitFreeList | kernel/kalloc.c:84-106 | after kinit from an empty list, each managed page is in the list exactly once, and nothing else is; the list holds `(PHYSTOP - PGROUNDUP(end)) / PGSIZE` pages |
| KallocProps.KinitEffect | kernel/kalloc.c:84-106 | after kinit the invariant holds, no managed page is live, every managed page holds junk 1, and the list length is the number of managed pages |
| KallocProps.KfreeKeepsConsistent | kernel/kalloc.c:118-149 | a release of a page with count 1 or more keeps the invariant (free exactly when the count is 0, no duplicates) |
| KallocProps.KallocKeepsConsistent | kernel/kalloc.c:158-182 | kalloc keeps the invariant; the page it returns is no longer free and has count 1 |
| KallocProps.Conservation | kernel/kalloc.c:113-183 | under the invariant, live pages plus free-list entries equal the number of managed pages |
| KallocProps.DoubleFreeDuplicates | kernel/kalloc.c:122-148 | releasing a page whose count is already 0 is not caught: it is pushed again and appears twice in the list |
| KallocProps.FreeThenAllocIsLifo | kernel/kalloc.c:144-163 | after a terminal release of `pa`, kalloc returns `pa` with count 1 and junk 5, and the list is as before the release |
| KallocProps.SharedPageFreedOnLastRelease | kernel/kalloc.c:121-149 | a page with count 2 stays out of the list after one release with count 1. The second release puts it in the list exactly once, with count 0, and the invariant holds |
| KallocProps.KfreeOverrunsTable | kernel/kalloc.c:121-132 | releasing `PHYSTOP` reads slot `PHYSTOP/PGSIZE`, past the table, where the guarded kfree panics and changes nothing |
| KallocProps.BootFreeList | kernel/kalloc.c:75-107 | kinit over four pages leaves them in the list, highest first |
| KallocProps.BootWithFourPages | kernel/kalloc.c:75-183 | over four pages: four kallocs return four distinct pages, highest first, and a fifth returns 0 and changes nothing. After releasing one of the four, the next kalloc returns that page |

## Left out

- Spinlocks (`initlock`, `acquire`, `release`, `acquire_ref_count_lock`, `release_ref_count_lock`) and the window between the two critical sections of `kfree` and `kalloc`: the model is sequential, so the locks do nothing.
- Page contents: `memset` of 4096 bytes is modelled as one ghost junk byte per page (1 after a terminal release, 5 after an allocation).
- The intrusive `run->next` links stored inside free pages: the free list is a sequence of page addresses, head first.
- `panic` as a kernel halt: it is the outcome `Panicked` with the state left as it was.
- The linker symbol `end` and the constants `PHYSTOP`, `PGSIZE` and `PGROUNDUP` come from headers that are not part of this model. They are the parameters of `Layout`, which requires `PHYSTOP % PGSIZE == 0` and `0 < end <= PHYSTOP`.
- Addresses are unbounded naturals: the 64-bit arithmetic of `p + PGSIZE` in `freerange` is not modelled to wrap, since `PHYSTOP` lies far below 2^64. Counts are 32-bit (`u32`), as the C `uint`.
- The copy-on-write fault handler, `fork` and the page-table code that call these functions are not part of this model, nor is any "share" (increment) function: `kalloc.c` has none.
- KallocSpec.Freerange: requires `end <= lo` and `hi <= PHYSTOP`. Its only caller, `kinit`, passes `end` and `PHYSTOP`. Outside that range every page would make `kfree` panic, and that path is not modelled.
- Kalloc.Allocator.Kfree: for `pa >= PHYSTOP` it panics before reading the table, as the corrected `KallocSpec.Kfree` does. It does not read past the array as the C code does (see Findings).

## Findings

| source | as written | input that shows it | evidently intended | confidence | as-written member | corrected member |
|---|---|---|---|---|---|---|
| kernel/kalloc.c:121-132 | `kfree` reads `ref_count[pa / PGSIZE]` before checking `pa >= PHYSTOP`, and writes it back decremented if that stray value is above 1 | `kfree(PHYSTOP)`: slot `PHYSTOP/PGSIZE` is one past the end of the `PHYSTOP/PGSIZE`-slot array | an address at or above `PHYSTOP` panics without touching the table | high; not executed | KallocSpec.KfreeAsWritten (with KallocProps.KfreeOverrunsTable) | KallocSpec.Kfree |
