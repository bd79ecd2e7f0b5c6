/** The frames the bootloader leaves usable, and the kernel heap that is made of them. */
module BootHeap {
  import opened Wrappers
  import opened PageTables
  import opened Sequences
  import opened Mapper
  import opened SpaceMapper
  import opened Pages
  import opened MappedPrefix
  import FixedBlocks
  import FixedSizeBlock

  /** A range of physical addresses, without its end. */
  datatype MemoryRegion = MemoryRegion(start: nat, end: nat, usable: bool)

  /** The frames of the addresses `at`, `at + 4096`, ... below `end`. */
  function FramesFrom(at: nat, end: nat): seq<Frame>
    decreases end - at
  {
    if at >= end then [] else [at / PAGE_SIZE] + FramesFrom(at + PAGE_SIZE, end)
  }

  function UsableFrames(regions: seq<MemoryRegion>): seq<Frame> {
    if regions == [] then []
    else if regions[0].usable then FramesFrom(regions[0].start, regions[0].end) + UsableFrames(regions[1..])
    else UsableFrames(regions[1..])
  }

  /** All of a frame lies in the region. */
  predicate Holds(r: MemoryRegion, f: Frame) {
    r.usable && r.start <= f * PAGE_SIZE && (f + 1) * PAGE_SIZE <= r.end
  }

  ghost predicate Aligned(r: MemoryRegion) {
    r.start % PAGE_SIZE == 0 && r.end % PAGE_SIZE == 0
  }

  ghost predicate Disjoint(regions: seq<MemoryRegion>) {
    && (forall r | r in regions && r.usable :: Aligned(r))
    && forall i, j | 0 <= i < j < |regions| && regions[i].usable && regions[j].usable ::
         regions[i].end <= regions[j].start || regions[j].end <= regions[i].start
  }

  lemma {:induction false} FramesOfRange(at: nat, end: nat)
    requires at % PAGE_SIZE == 0 && end % PAGE_SIZE == 0
    ensures NoDuplicates(FramesFrom(at, end))
    ensures forall f :: f in FramesFrom(at, end) <==> at <= f * PAGE_SIZE && (f + 1) * PAGE_SIZE <= end
    decreases end - at
  {
    if at < end {
      FramesOfRange(at + PAGE_SIZE, end);
      var f0, rest := at / PAGE_SIZE, FramesFrom(at + PAGE_SIZE, end);
      assert f0 * PAGE_SIZE == at && f0 !in rest;
      NoDuplicatesConcat([f0], rest);
      forall f ensures f in [f0] + rest <==> at <= f * PAGE_SIZE && (f + 1) * PAGE_SIZE <= end {
        assert f in [f0] + rest <==> f == f0 || f in rest;
      }
    }
  }

  /** Every frame that lies in a usable region is handed out, once, and no other. */
  lemma {:induction false} UsableOnce(regions: seq<MemoryRegion>)
    requires Disjoint(regions)
    ensures NoDuplicates(UsableFrames(regions))
    ensures forall f :: f in UsableFrames(regions) <==> exists i :: 0 <= i < |regions| && Holds(regions[i], f)
    decreases |regions|
  {
    if regions != [] {
      var r, tail := regions[0], regions[1..];
      assert forall i | 0 <= i < |tail| :: tail[i] == regions[i + 1];
      assert forall x | x in tail :: x in regions;
      UsableOnce(tail);
      forall f ensures (exists i :: 0 <= i < |regions| && Holds(regions[i], f))
                       <==> Holds(r, f) || exists i :: 0 <= i < |tail| && Holds(tail[i], f) {
        if i :| 0 <= i < |regions| && Holds(regions[i], f) {
          if i > 0 { assert Holds(tail[i - 1], f); }
        }
        if i :| 0 <= i < |tail| && Holds(tail[i], f) {
          assert Holds(regions[i + 1], f);
        }
      }
      if r.usable {
        assert r in regions && Aligned(r);
        FramesOfRange(r.start, r.end);
        var a, b := FramesFrom(r.start, r.end), UsableFrames(tail);
        forall f | f in a ensures f !in b {
          forall i | 0 <= i < |tail| ensures !Holds(tail[i], f) {
            OneRegion(regions, 0, i + 1, f);
          }
        }
        NoDuplicatesConcat(a, b);
        forall f ensures f in a + b <==> f in a || f in b {}
      }
    }
  }

  lemma {:induction false} OneRegion(regions: seq<MemoryRegion>, i: nat, j: nat, f: Frame)
    requires Disjoint(regions) && i < j < |regions| && Holds(regions[i], f)
    ensures !Holds(regions[j], f)
  {
  }

  // ---- The heap

  const KERNEL_BASE := 0xFFFF_8000_0000_0000
  const SPACING := 16 * 1024 * 1024 * 1024 * 1024  // 16 TiB

  /** Behind the boot data, the view of physical memory, and the data of kernel threads. */
  const HEAP_START := KERNEL_BASE + SPACING + SPACING + SPACING + SPACING
  const HEAP_PAGE := 0xC_0000_0000  // its page
  const HEAP_FLAGS: set<Flag> := {Present, Writable, NoExecute, Global}
  const HEAP_TABLE_FLAGS: set<Flag> := {Present, Writable}

  /** The addresses of the heap are mapped to its frames, byte by byte, for the kernel alone, and no others are. */
  ghost predicate HeapMapped(mem: Memory, mem': Memory, root: Frame, start: nat, size: nat, frames: seq<Frame>) {
    && (forall a | start <= a < start + size ::
          (a - start) / PAGE_SIZE < |frames|
          && Walk(mem', root, PathOf(PageOfAddress(a)))
             == MappedTo(frames[(a - start) / PAGE_SIZE], [], {Present, Writable, NoExecute, Global}))
    && (forall q: seq<Index> | In(Upper, q) && !Within(start, size, q) ::
          SamePlace(Walk(mem, root, q), Walk(mem', root, q)))
  }

  /** Some address of the range is on the page. */
  ghost predicate Within(start: nat, size: nat, q: seq<Index>) {
    exists a :: start <= a < start + size && PathOf(PageOfAddress(a)) == q
  }

  /** The pages of the heap are those of its addresses, in order. */
  lemma {:induction false} HeapAddress(a: nat, n: nat)
    requires n <= PAGES - HEAP_PAGE && HEAP_START <= a < HEAP_START + n * PAGE_SIZE
    ensures (a - HEAP_START) / PAGE_SIZE < n && PageOfAddress(a) == HEAP_PAGE + (a - HEAP_START) / PAGE_SIZE
  {
  }

  lemma {:induction false} HeapPage(k: nat, n: nat)
    requires k < n && n <= PAGES - HEAP_PAGE
    ensures PageOfAddress(HEAP_START + k * PAGE_SIZE) == HEAP_PAGE + k
    ensures Within(HEAP_START, n * PAGE_SIZE, PathOf(HEAP_PAGE + k))
  {
    hide PathOf;
    HeapAddress(HEAP_START + k * PAGE_SIZE, n);
  }

  lemma {:induction false} PrefixIsHeap(mem: Memory, mem': Memory, root: Frame, frames: seq<Frame>)
    requires PrefixMapped(mem, mem', root, Upper, HEAP_PAGE, frames, HEAP_FLAGS)
    ensures HeapMapped(mem, mem', root, HEAP_START, |frames| * PAGE_SIZE, frames)
  {
    hide Walk, PathOf, PageOf, PrefixAllowed, PageOfAddress, Within;
    var size := |frames| * PAGE_SIZE;
    forall a | HEAP_START <= a < HEAP_START + size
      ensures (a - HEAP_START) / PAGE_SIZE < |frames|
      ensures Walk(mem', root, PathOf(PageOfAddress(a)))
              == MappedTo(frames[(a - HEAP_START) / PAGE_SIZE], [], HEAP_FLAGS)
    {
      HeapAddress(a, |frames|);
    }
    forall q: seq<Index> | In(Upper, q) && !Within(HEAP_START, size, q)
      ensures !(HEAP_PAGE <= PageOf(q) < HEAP_PAGE + |frames|)
    {
      PathOfPage(q);
      if HEAP_PAGE <= PageOf(q) < HEAP_PAGE + |frames| {
        HeapPage(PageOf(q) - HEAP_PAGE, |frames|);
      }
    }
  }

  /** The boot processor's tables, and the frames not yet handed out. */
  class BootMemory {
    var mem: Memory
    var iter: seq<Frame>

    constructor (mem: Memory, regions: seq<MemoryRegion>)
      ensures this.mem == mem && iter == UsableFrames(regions)
    {
      this.mem, this.iter := mem, UsableFrames(regions);
    }

    method AllocateFrame() returns (r: Option<Frame>)
      modifies this`iter
      ensures old(iter) == [] ==> r == None && iter == []
      ensures old(iter) != [] ==> r == Some(old(iter)[0]) && iter == old(iter)[1..]
    {
      if iter == [] {
        return None;
      }
      r := Some(iter[0]);
      iter := iter[1..];
    }

    /**
     Maps one frame after the other, until the frames run out or a page cannot be mapped.
     It counts the pages it has mapped.
     */
    method MapHeap(root: Frame) returns (pages: nat, ghost frames: seq<Frame>)
      requires Part(mem, root, 256, 512) && Fresh(mem, iter)
      requires |iter| <= PAGES - HEAP_PAGE
      modifies this
      ensures pages == |frames|
      ensures PrefixMapped(old(mem), mem, root, Upper, HEAP_PAGE, frames, HEAP_FLAGS)
      ensures Apart(frames, mem, iter)
      ensures forall f | f in frames :: f in old(iter)
      ensures iter == [] || (|frames| < PAGES - HEAP_PAGE
                             && Walk(old(mem), root, PathOf(HEAP_PAGE + |frames|)).MappedTo?)
    {
      hide Part, Frames, Walk, MapPage, PathOf, PrefixMapped;
      ghost var m := mem;
      pages, frames := 0, [];
      NothingMapped(mem, root, Upper, HEAP_PAGE, HEAP_FLAGS);
      while true
        invariant Part(mem, root, 256, 512) && Fresh(mem, iter)
        invariant pages == |frames| && pages + |iter| <= PAGES - HEAP_PAGE
        invariant PrefixMapped(m, mem, root, Upper, HEAP_PAGE, frames, HEAP_FLAGS)
        invariant Apart(frames, mem, iter)
        invariant forall f | f in frames :: f in old(iter)
        invariant forall f | f in iter :: f in old(iter)
        decreases |iter|
      {
        ghost var pool := iter;
        var frame := AllocateFrame();
        if frame.None? {
          break;
        }
        TailIsFresh(mem, pool);
        NextPage(m, mem, iter, root, Upper, HEAP_PAGE, frames, frame.value, HEAP_FLAGS, HEAP_TABLE_FLAGS);
        var mapping := MapPage(mem, iter, root, 256, 512, PathOf(HEAP_PAGE + pages),
                               Entry(frame.value, HEAP_FLAGS), HEAP_TABLE_FLAGS);
        OneMoreApart(mem, pool, mapping.mem, mapping.pool, frames);
        FewerApart(frames, frame.value, mapping.mem, mapping.pool);
        mem, iter := mapping.mem, mapping.pool;
        if mapping.result != Mapped {
          break;
        }
        frames := frames + [frame.value];
        pages := pages + 1;
      }
    }

    /** Maps the heap, and gives the allocator exactly the addresses that were mapped. */
    method InitHeap(root: Frame)
      returns (allocator: FixedSizeBlock.FixedSizeBlockAllocator, ghost frames: seq<Frame>)
      requires Part(mem, root, 256, 512) && Fresh(mem, iter)
      requires |iter| <= PAGES - HEAP_PAGE
      modifies this
      ensures fresh(allocator) && allocator.Valid()
      ensures var heap := allocator.fixed;
              && heap == FixedBlocks.Init(0xFFFF_C000_0000_0000, |frames| * PAGE_SIZE)
              && HeapMapped(old(mem), mem, root, heap.start, heap.size, frames)
      ensures PrefixMapped(old(mem), mem, root, Upper, HEAP_PAGE, frames, HEAP_FLAGS)
      ensures Apart(frames, mem, iter)
      ensures forall f | f in frames :: f in old(iter)
      ensures iter == [] || (|frames| < PAGES - HEAP_PAGE
                             && Walk(old(mem), root, PathOf(HEAP_PAGE + |frames|)).MappedTo?)
    {
      hide Part, Frames, Walk, PathOf, PrefixMapped, HeapMapped, FixedBlocks.Inv;
      var pages;
      pages, frames := MapHeap(root);
      PrefixIsHeap(old(mem), mem, root, frames);
      allocator := new FixedSizeBlock.FixedSizeBlockAllocator(HEAP_START, pages * PAGE_SIZE);
    }

    static lemma {:induction false} TailIsFresh(mem: Memory, pool: seq<Frame>)
      requires Fresh(mem, pool) && pool != []
      ensures Fresh(mem, pool[1..])
    {
    }
  }

  /** The pages of the heap have frames of their own, whole usable ones, and none is a table. */
  lemma {:induction false} HeapFramesAreUsable(regions: seq<MemoryRegion>, frames: seq<Frame>, mem: Memory,
                                               pool: seq<Frame>)
    requires Disjoint(regions) && Apart(frames, mem, pool)
    requires forall f | f in frames :: f in UsableFrames(regions)
    ensures forall i, j | 0 <= i < j < |frames| :: frames[i] != frames[j]
    ensures forall f | f in frames :: f !in mem && exists i :: 0 <= i < |regions| && Holds(regions[i], f)
  {
    UsableOnce(regions);
  }
}
