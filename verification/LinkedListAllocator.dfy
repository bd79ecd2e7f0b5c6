/**
 The first-fit allocator itself: a list of free regions whose nodes lie at the start of the
 regions they describe, in the same memory that the blocks in use are cut from.
 */
module LinkedListAllocator {
  import opened Wrappers
  import opened Sequences
  import opened Bits
  import opened Regions
  import opened LinkedHeap

  class Allocator {
    // Memory, word by word. A node is two words: the size of its region, and the address of
    // the next node or 0.
    var mem: map<nat, nat>
    // The address of the first node, or 0.
    var head: nat
    ghost var heap: Heap

    /** The address of node `i` of the list, or 0 at its end. */
    static function Address(free: seq<Region>, i: nat): nat {
      if i < |free| then free[i].start else 0
    }

    static predicate NodeAt(mem: map<nat, nat>, r: Region, next: nat) {
      && r.start in mem && mem[r.start] == r.size
      && r.start + 8 in mem && mem[r.start + 8] == next
    }

    /** The nodes in memory, from the head on, are those of the list. */
    static ghost predicate Linked(mem: map<nat, nat>, head: nat, free: seq<Region>) {
      head == Address(free, 0) && Nodes(mem, free)
    }

    static ghost predicate Nodes(mem: map<nat, nat>, free: seq<Region>) {
      forall i | 0 <= i < |free| :: NodeAt(mem, free[i], Address(free, i + 1))
    }

    /** Nodes stay nodes while their regions are left alone. */
    static lemma {:induction false} NodesFraming(m: map<nat, nat>, m': map<nat, nat>, free: seq<Region>)
      requires Nodes(m, free) && forall r | r in free :: r.size >= NODE_SIZE && SameWords(m, m', r)
      ensures Nodes(m', free)
    {
    }

    static lemma {:induction false} NodesCons(m: map<nat, nat>, r: Region, free: seq<Region>)
      requires Nodes(m, free) && NodeAt(m, r, Address(free, 0))
      ensures Nodes(m, [r] + free)
    {
    }

    ghost predicate Valid()
      reads this
    {
      Inv(heap) && Linked(mem, head, heap.free)
    }

    /** The words of a region are the same in two memories. */
    static ghost predicate SameWords(m: map<nat, nat>, m': map<nat, nat>, r: Region) {
      forall a | r.start <= a < r.End() :: (a in m <==> a in m') && (a in m ==> m'[a] == m[a])
    }

    constructor (start: nat, size: nat)
      requires start > 0 && start % 8 == 0 && size >= NODE_SIZE && start + size < WORD
      ensures Valid() && heap == Init(start, size)
    {
      mem := map[start := size, start + 8 := 0];
      head := start;
      heap := Init(start, size);
      InitInv(start, size);
    }

    /** What has to hold of a region before it can be put into the list. */
    static ghost predicate Fresh(h: Heap, r: Region) {
      Good(h, r) && forall o | o in h.free :: Apart(r, o) && r != o
    }

    /** Puts a region at the front of the list. Both checks hold. */
    method AddFreeRegion(addr: nat, size: nat)
      requires Linked(mem, head, heap.free) && Fresh(heap, Region(addr, size))
      requires forall r | r in heap.free :: Good(heap, r)
      requires heap.start + heap.size < WORD
      modifies this
      ensures heap == old(heap).(free := [Region(addr, size)] + old(heap).free)
      ensures Linked(mem, head, heap.free)
      ensures forall o | Apart(Region(addr, size), o) :: SameWords(old(mem), mem, o)
    {
      hide And, Good;
      ghost var free := heap.free;
      FreshIsApart(heap, Region(addr, size));
      AlreadyAligned(addr);
      assert AlignUp(addr, NODE_ALIGN) == Some(addr);
      assert size >= NODE_SIZE;
      mem := mem[addr := size][addr + 8 := head];
      head := addr;
      heap := heap.(free := [Region(addr, size)] + free);
      NodesFraming(old(mem), mem, free);
      NodesCons(mem, Region(addr, size), free);
    }

    static lemma {:induction false} FreshIsApart(h: Heap, r: Region)
      requires Fresh(h, r) && forall o | o in h.free :: Good(h, o)
      requires h.start + h.size < WORD
      ensures r.start % 8 == 0 && r.start + 7 < WORD && r.size >= NODE_SIZE
      ensures forall o | o in h.free :: Apart(r, o) && o.size >= NODE_SIZE
    {
    }

    static lemma {:induction false} AlreadyAligned(addr: nat)
      requires addr % 8 == 0 && addr + 7 < WORD
      ensures AlignUp(addr, NODE_ALIGN) == Some(addr)
    {
      hide And, Pow2;
      PowersOfTwo();
      assert IsPow2(8);
      AlignUpIsLeast(addr, 8);
    }

    /** Looks for the first region that can hold the request and takes it out of the list. */
    method TakeRegion(size: nat, align: nat) returns (fit: Fit, region: Region, ghost found: Found)
      requires Valid() && 0 < align < WORD
      modifies this
      ensures found == FindRegion(old(heap).free, 0, size, align)
      ensures fit == match found case At(_, start) => Fits(start) case NotFound => TooSmall case Panicked => Overflow
      ensures found.At? ==>
                && found.index < |old(heap).free| && region == old(heap).free[found.index]
                && heap == old(heap).(free := LinkedHeap.Drop(old(heap).free, found.index))
      ensures !found.At? ==> heap == old(heap)
      ensures Linked(mem, head, heap.free)
      ensures forall o | o in old(heap).live :: SameWords(old(mem), mem, o)
    {
      hide And, Inv, AllocFromRegion, Nodes, SameWords, LinkedHeap.Drop;
      ghost var free := heap.free;
      StartsAboveZero(heap);
      NothingWritten(mem, heap.live);
      var prev, current := 0, head;
      ghost var k := 0;
      while current != 0
        invariant k <= |free| && current == Address(free, k)
        invariant prev == if k == 0 then 0 else free[k - 1].start
        invariant heap == old(heap) && mem == old(mem) && head == old(head)
        invariant FindRegion(free, k, size, align) == FindRegion(free, 0, size, align)
        decreases |free| - k
      {
        NodeAtIndex(mem, free, k);
        region := Region(current, mem[current]);
        fit := AllocFromRegion(region, size, align);
        if fit.Fits? {
          var next := mem[current + 8];
          if prev == 0 {
            head := next;
          } else {
            mem := mem[prev + 8 := next];
          }
          heap := heap.(free := LinkedHeap.Drop(free, k));
          Unlinked(old(heap), old(mem), old(head), k);
          return fit, region, At(k, fit.start);
        }
        if fit.Overflow? {
          return Overflow, region, Panicked;
        }
        prev := current;
        current := mem[current + 8];
        k := k + 1;
      }
      return TooSmall, Region(0, 0), NotFound;
    }

    static lemma {:induction false} NodeAtIndex(m: map<nat, nat>, free: seq<Region>, k: nat)
      requires Nodes(m, free) && k < |free|
      ensures NodeAt(m, free[k], Address(free, k + 1))
    {
    }

    static lemma {:induction false} NothingWritten(m: map<nat, nat>, live: seq<Region>)
      ensures forall o | o in live :: SameWords(m, m, o)
    {
    }

    static lemma {:induction false} StartsAboveZero(h: Heap)
      requires Inv(h)
      ensures forall i | 0 <= i < |h.free| :: h.free[i].start > 0
    {
      hide AllApart, Total;
      forall i | 0 <= i < |h.free| ensures h.free[i].start > 0 {
        assert Good(h, h.free[i]);
      }
    }

    /** Passing over a node leaves a list without it. */
    static lemma {:induction false} Unlinked(h: Heap, mem: map<nat, nat>, head: nat, k: nat)
      requires Inv(h) && Linked(mem, head, h.free) && k < |h.free|
      ensures var next := Address(h.free, k + 1);
              var mem' := if k == 0 then mem else mem[h.free[k - 1].start + 8 := next];
              && Linked(mem', if k == 0 then next else head, LinkedHeap.Drop(h.free, k))
              && forall o | o in h.live :: SameWords(mem, mem', o)
    {
      hide Inv, Apart, NodeAt, SameWords;
      var next := Address(h.free, k + 1);
      var free' := LinkedHeap.Drop(h.free, k);
      var mem' := if k == 0 then mem else mem[h.free[k - 1].start + 8 := next];
      forall i | 0 <= i < |free'| ensures NodeAt(mem', free'[i], Address(free', i + 1)) {
        UnlinkedNode(h, mem, head, k, i);
      }
      AddressDrop(h.free, k, 0);
      if k > 0 {
        PrevIsApart(h, k - 1);
        forall o | o in h.live ensures SameWords(mem, mem', o) {
          Relinked(mem, h.free[k - 1], next, o);
        }
      } else {
        forall o | o in h.live ensures SameWords(mem, mem', o) {
          Relinked(mem, Region(0, 16), 0, o);
        }
      }
    }

    static lemma {:induction false} UnlinkedNode(h: Heap, mem: map<nat, nat>, head: nat, k: nat, i: nat)
      requires Inv(h) && Linked(mem, head, h.free) && k < |h.free| && i < |h.free| - 1
      ensures var free' := LinkedHeap.Drop(h.free, k);
              NodeAt(if k == 0 then mem else mem[h.free[k - 1].start + 8 := Address(h.free, k + 1)],
                     free'[i], Address(free', i + 1))
    {
      hide Inv, Apart, NodeAt, SameWords, Linked, Address;
      var j := if i < k then i else i + 1;
      AddressDrop(h.free, k, i + 1);
      LinkedNode(h, mem, head, j);
      if k > 0 {
        PrevIsApart(h, k - 1);
        NodeRelinked(mem, h.free[k - 1], Address(h.free, k + 1), h.free[j], Address(h.free, j + 1));
      }
    }

    static lemma {:induction false} LinkedNode(h: Heap, mem: map<nat, nat>, head: nat, j: nat)
      requires Linked(mem, head, h.free) && j < |h.free|
      ensures NodeAt(mem, h.free[j], Address(h.free, j + 1))
    {
    }

    static lemma {:induction false} AddressDrop(free: seq<Region>, k: nat, i: nat)
      requires k < |free|
      ensures Address(LinkedHeap.Drop(free, k), i) == if i < k then Address(free, i) else Address(free, i + 1)
    {
    }

    /** Writing the second word of a node relinks that node and leaves the others. */
    static lemma {:induction false} NodeRelinked(m: map<nat, nat>, p: Region, v: nat, r: Region, next: nat)
      requires NodeAt(m, r, next) && p.size >= NODE_SIZE && r.size >= NODE_SIZE
      requires r == p || Apart(p, r)
      ensures NodeAt(m[p.start + 8 := v], r, if r == p then v else next)
    {
    }

    static lemma {:induction false} Relinked(m: map<nat, nat>, p: Region, v: nat, o: Region)
      requires p.size >= NODE_SIZE
      ensures Apart(p, o) ==> SameWords(m, m[p.start + 8 := v], o)
      ensures SameWords(m, m, o)
    {
    }

    static lemma {:induction false} PrevIsApart(h: Heap, p: nat)
      requires Inv(h) && p < |h.free|
      ensures h.free[p].size >= NODE_SIZE
      ensures forall j | 0 <= j < |h.free| && j != p ::
                h.free[p] != h.free[j] && Apart(h.free[p], h.free[j]) && h.free[j].size >= NODE_SIZE
      ensures forall o | o in h.live :: Apart(h.free[p], o)
    {
      hide Total;
      AllApartParts(h.free, h.live);
      assert Good(h, h.free[p]);
      forall j | 0 <= j < |h.free| && j != p ensures Apart(h.free[p], h.free[j]) && h.free[j].size >= NODE_SIZE {
        assert Good(h, h.free[j]) && h.free[j] != h.free[p];
      }
    }

    /** A block for a layout; the blocks in use keep their contents. */
    method AllocBlock(layout: Layout) returns (r: AllocResult)
      requires Valid() && ValidLayout(layout)
      modifies this
      ensures Valid() && heap == Step(old(heap), Allocate(layout))
      ensures SizeAlign(layout).None? ==> r == Panic
      ensures SizeAlign(layout).Some? ==>
                var (size, align) := SizeAlign(layout).value;
                && IsPow2(align) && align < WORD
                && (heap, r) == Alloc(old(heap), size, align)
      ensures forall o | o in old(heap).live :: SameWords(old(mem), mem, o)
    {
      hide And, Inv, AllocFromRegion, Linked, Fresh, Good, Alloc, SameWords, Apart, SizeAlign, LinkedHeap.Drop;
      ghost var h := heap;
      NothingWritten(mem, h.live);
      if SizeAlign(layout).None? {
        return Panic;
      }
      SizeAlignIsGood(layout);
      var (size, align) := SizeAlign(layout).value;
      AllocKeepsInv(h, size, align);
      NoneFound(h, size, align);
      BoundsFit(h);
      var fit, region;
      ghost var found;
      fit, region, found := TakeRegion(size, align);
      match fit {
        case TooSmall => return Null;
        case Overflow => return Panic;
        case Fits(start) =>
          CutFacts(h, found, size, align);
          var excess := region.End() - (start + size);
          ghost var m := mem;
          NothingWritten(m, h.live);
          if excess > 0 {
            AddFreeRegion(start + size, excess);
          }
          SameWordsAgain(old(mem), m, mem, h.live);
          heap := heap.(live := heap.live + [Region(start, size)], lost := heap.lost + (start - region.start));
          assert heap == Alloc(h, size, align).0;
          return Block(start);
      }
    }

    static lemma {:induction false} NoneFound(h: Heap, size: nat, align: nat)
      requires IsPow2(align) && align < WORD
      ensures FindRegion(h.free, 0, size, align).NotFound? ==> Alloc(h, size, align) == (h, Null)
      ensures FindRegion(h.free, 0, size, align).Panicked? ==> Alloc(h, size, align) == (h, Panic)
    {
    }

    static lemma {:induction false} BoundsFit(h: Heap)
      requires Inv(h)
      ensures h.start + h.size < WORD
    {
    }

    /** The rest of the region that is cut can go back into the list. */
    static lemma {:induction false} RestIsFresh(h: Heap, k: nat, start: nat, size: nat)
      requires Inv(h) && k < |h.free| && h.free[k].start <= start && start % 8 == 0 && size % 8 == 0
      requires start + size + NODE_SIZE <= h.free[k].End()
      ensures var h', rest := h.(free := LinkedHeap.Drop(h.free, k)),
                              Region(start + size, h.free[k].End() - (start + size));
              Fresh(h', rest) && forall o | o in h.live :: Apart(rest, o)
    {
      hide Total;
      var r, h' := h.free[k], h.(free := LinkedHeap.Drop(h.free, k));
      var rest := Region(start + size, r.End() - (start + size));
      AllApartParts(h.free, h.live);
      DropElements(h.free, k);
      assert Good(h, r) && Good(h', rest);
      forall o | o in h'.free || o in h.live ensures Apart(rest, o) && rest != o {
        assert Apart(r, o) && Good(h, o);
        Inside(r, rest, o);
      }
    }

    static lemma {:induction false} OthersAreGood(h: Heap, k: nat)
      requires Inv(h) && k < |h.free|
      ensures var h' := h.(free := LinkedHeap.Drop(h.free, k));
              forall o | o in h'.free :: Good(h', o)
    {
      hide Total;
      AllApartParts(h.free, h.live);
      DropElements(h.free, k);
      var h' := h.(free := LinkedHeap.Drop(h.free, k));
      forall o | o in h'.free ensures Good(h', o) {
        assert o in h.free && Good(h, o);
      }
    }

    static lemma {:induction false} CutFacts(h: Heap, found: Found, size: nat, align: nat)
      requires Inv(h) && IsPow2(align) && align < WORD && align % 8 == 0 && size >= NODE_SIZE && size % 8 == 0
      requires found == FindRegion(h.free, 0, size, align) && found.At?
      ensures found.index < |h.free|
      ensures h.free[found.index].start <= found.start && found.start + size <= h.free[found.index].End()
      ensures var r, h' := h.free[found.index], h.(free := LinkedHeap.Drop(h.free, found.index));
              var rest := Region(found.start + size, r.End() - (found.start + size));
              && (forall o | o in h'.free :: Good(h', o))
              && (rest.size > 0 ==> Fresh(h', rest) && forall o | o in h.live :: Apart(rest, o))
              && Alloc(h, size, align)
                 == (h.(free := (if rest.size > 0 then [rest] else []) + h'.free,
                        live := h.live + [Region(found.start, size)],
                        lost := h.lost + (found.start - r.start)), Block(found.start))
    {
      FoundIsFirst(h.free, 0, size, align);
      FitIsInside(h.free[found.index], size, align);
      EightDivides(found.start, align);
      OthersAreGood(h, found.index);
      if found.start + size < h.free[found.index].End() {
        RestIsFresh(h, found.index, found.start, size);
      }
      hide Fresh, Good, Apart, IsPow2, Inv, LinkedHeap.Drop, AllocFromRegion;
    }

    static lemma {:induction false} SameWordsAgain(m0: map<nat, nat>, m1: map<nat, nat>, m2: map<nat, nat>,
                                                   live: seq<Region>)
      requires forall o | o in live :: SameWords(m0, m1, o) && SameWords(m1, m2, o)
      ensures forall o | o in live :: SameWords(m0, m2, o)
    {
    }

    /** Takes back a block with the layout it was given for. */
    method DeallocBlock(ptr: nat, layout: Layout, ghost k: nat)
      requires Valid() && ValidLayout(layout) && SizeAlign(layout).Some?
      requires k < |heap.live| && heap.live[k] == Region(ptr, SizeAlign(layout).value.0)
      modifies this
      ensures Valid() && heap == Step(old(heap), Free(k))
      ensures forall o | o in old(heap).live && o != old(heap).live[k] :: SameWords(old(mem), mem, o)
    {
      hide And, Total;
      DeallocKeepsInv(heap, k);
      AllApartParts(heap.free, heap.live);
      var size := SizeAlign(layout).value.0;
      AddFreeRegion(ptr, size);
      heap := heap.(live := LinkedHeap.Drop(heap.live, k));
    }

    /** The owner of a block may write to any word of it. */
    method WriteWord(a: nat, value: nat, ghost k: nat)
      requires Valid() && k < |heap.live| && a % 8 == 0
      requires heap.live[k].start <= a && a + 8 <= heap.live[k].End()
      modifies this`mem
      ensures Valid() && mem == old(mem)[a := value]
    {
      hide Total;
      AllApartParts(heap.free, heap.live);
      mem := mem[a := value];
      forall i | 0 <= i < |heap.free| ensures NodeAt(mem, heap.free[i], Address(heap.free, i + 1)) {
        assert Apart(heap.free[i], heap.live[k]) && Good(heap, heap.free[i]);
      }
    }
  }
}
