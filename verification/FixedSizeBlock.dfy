/**
 The kernel's allocator itself: nine lists whose links lie in the free blocks, a fallback
 heap that answers from outside, and a counter of the bytes that wait in the lists.
 */
module FixedSizeBlock {
  import opened Wrappers
  import opened Regions
  import opened FixedBlocks

  class FixedSizeBlockAllocator {
    // Memory, by the addresses of list nodes: the address of the next node, or 0.
    var mem: map<nat, nat>
    // The address of the first block of every list, or 0.
    var listHeads: seq<nat>
    var blockFree: nat
    // What the fallback heap tells about itself.
    var fallbackSize: nat
    var fallbackUsed: nat
    ghost var fixed: Fixed

    static function Address(list: seq<Region>, i: nat): nat {
      if i < |list| then list[i].start else 0
    }

    /** The nodes of a list, from `head` on, are its blocks. */
    static ghost predicate Chain(mem: map<nat, nat>, head: nat, list: seq<Region>) {
      && head == Address(list, 0)
      && forall k | 0 <= k < |list| :: list[k].start in mem && mem[list[k].start] == Address(list, k + 1)
    }

    ghost predicate Linked()
      reads this
    {
      && |listHeads| == CLASSES && |fixed.lists| == CLASSES
      && forall i | 0 <= i < CLASSES :: Chain(mem, listHeads[i], fixed.lists[i])
    }

    ghost predicate Valid()
      reads this
    {
      && Inv(fixed) && Linked()
      && blockFree == fixed.blockFree && fallbackSize == fixed.size && fallbackUsed == fixed.used
    }

    constructor (start: nat, size: nat)
      requires start > 0
      ensures Valid() && fixed == Init(start, size)
    {
      mem := map[];
      listHeads := [0, 0, 0, 0, 0, 0, 0, 0, 0];
      blockFree, fallbackSize, fallbackUsed := 0, size, 0;
      fixed := Init(start, size);
      InitInv(start, size);
    }

    method BytesUsed() returns (r: nat)
      requires Valid()
      ensures r == UsedBytes(fixed)
    {
      CounterIsBelowUsed(fixed);
      r := fallbackUsed - blockFree;
    }

    method BytesFree() returns (r: nat)
      requires Valid()
      ensures r == FreeBytes(fixed)
    {
      r := fallbackSize - fallbackUsed + blockFree;
    }

    static lemma {:induction false} CounterIsBelowUsed(s: Fixed)
      requires Inv(s)
      ensures s.blockFree <= s.used
    {
      PooledWithin(s.lists);
    }

    /** What the fallback heap answers, taken into account. */
    method FallbackAlloc(ghost index: nat, answer: Option<Region>) returns (ptr: nat)
      requires |fixed.lists| == CLASSES
      modifies this`fallbackUsed, this`fixed
      ensures (fixed, ptr) == FromFallback(old(fixed), index, answer)
      ensures fallbackUsed == old(fallbackUsed) + if answer.Some? then answer.value.size else 0
    {
      if answer.None? {
        return 0;
      }
      fallbackUsed := fallbackUsed + answer.value.size;
      fixed := FromFallback(fixed, index, answer).0;
      return answer.value.start;
    }

    /** The words of a region are the same in two memories. */
    static ghost predicate SameWords(m: map<nat, nat>, m': map<nat, nat>, r: Region) {
      forall a | r.start <= a < r.End() :: (a in m <==> a in m') && (a in m ==> m'[a] == m[a])
    }

    /** A block for a layout; the blocks in use keep their contents. */
    method AllocBlock(layout: Layout, answer: Option<Region>) returns (ptr: nat)
      requires Valid() && Sensible(fixed, Allocate(layout, answer))
      modifies this
      ensures Valid() && fixed == Step(old(fixed), Allocate(layout, answer))
      ensures ptr == 0 <==> fixed == old(fixed)
      ensures ptr != 0 ==> fixed.live == old(fixed).live + [fixed.live[|old(fixed).live|]]
                           && fixed.live[|old(fixed).live|].region.start == ptr
      ensures forall u | u in old(fixed).live :: SameWords(old(mem), mem, u.region)
    {
      hide Disjoint, Serves, Pooled, Total, Flat, RegionsOf, BlockSize, ListIndexFrom, Within;
      ghost var s := fixed;
      StepKeepsInv(s, Allocate(layout, answer));
      var index := ListIndex(layout);
      if index < CLASSES && listHeads[index] != 0 {
        assert Chain(mem, listHeads[index], s.lists[index]);
        CounterCovers(s, index);
        var node := listHeads[index];
        listHeads := listHeads[index := mem[node]];
        mem := mem[node := 0];
        blockFree := blockFree - BlockSize(index);
        fixed := Alloc(s, layout, answer).0;
        ListedAboveZero(s, index);
        Popped(old(mem), node, s.lists[index]);
        NotListed(fixed, |s.live|);
        ChainsKept(fixed, old(mem), mem, listHeads, |s.live|, node);
        LiveKept(fixed, old(mem), mem, |s.live|, node);
        forall u | u in s.live ensures SameWords(old(mem), mem, u.region) {
          var j :| 0 <= j < |s.live| && s.live[j] == u;
          assert fixed.live[j] == u;
        }
        return node;
      }
      if index < CLASSES {
        assert Chain(mem, listHeads[index], s.lists[index]);
        ListedAboveZero(s, index);
      }
      AnswerAboveZero(s, layout, answer);
      ptr := FallbackAlloc(index, answer);
    }

    static lemma {:induction false} AnswerAboveZero(s: Fixed, layout: Layout, answer: Option<Region>)
      requires Inv(s) && Grants(s, Asked(layout), answer)
      ensures answer.Some? ==> answer.value.start > 0
    {
    }

    static lemma {:induction false} ListedAboveZero(s: Fixed, i: nat)
      requires Inv(s) && i < CLASSES
      ensures forall k | 0 <= k < |s.lists[i]| :: s.lists[i][k].start > 0
    {
      hide Serves, Pooled, Total, Flat, RegionsOf;
      forall k | 0 <= k < |s.lists[i]| ensures s.lists[i][k].start > 0 {
        InFlat(s.lists, i, s.lists[i][k]);
        assert s.lists[i][k] in Granted(s);
      }
    }

    static lemma {:induction false} Popped(m: map<nat, nat>, head: nat, list: seq<Region>)
      requires Chain(m, head, list) && list != []
      ensures head in m && Chain(m, m[head], list[1..])
    {
    }

    /** Takes back a block; the other blocks in use keep their contents. */
    method DeallocBlock(ptr: nat, layout: Layout, ghost k: nat, granted: nat)
      requires Valid() && Sensible(fixed, Free(k, layout)) && fixed.live[k].region == Region(ptr, granted)
      modifies this
      ensures Valid() && fixed == Step(old(fixed), Free(k, layout))
      ensures forall u | u in fixed.live :: SameWords(old(mem), mem, u.region)
    {
      hide Disjoint, Serves, Pooled, Total, Flat, RegionsOf, BlockSize, ListIndexFrom, Within;
      ghost var s := fixed;
      StepKeepsInv(s, Free(k, layout));
      UsedCovers(s, k);
      var index := ListIndex(layout);
      if index < CLASSES {
        // a node fits into every block
        BlockHoldsNode(index);
        assert 8 <= BlockSize(index);
        NotListed(s, k);
        LiveKept(s, mem, mem[ptr := listHeads[index]], k, ptr);
        mem := mem[ptr := listHeads[index]];
        listHeads := listHeads[index := ptr];
        blockFree := blockFree + BlockSize(index);
        fixed := Dealloc(s, k, layout);
        forall i | 0 <= i < CLASSES ensures Chain(mem, listHeads[i], fixed.lists[i]) {
          assert Chain(old(mem), old(listHeads)[i], s.lists[i]);
          Kept(old(mem), old(listHeads)[i], s.lists[i], ptr, old(listHeads)[index]);
          Pushed(mem, old(listHeads)[index], s.lists[index], Region(ptr, granted));
        }
      } else {
        fallbackUsed := fallbackUsed - granted;
        fixed := Dealloc(s, k, layout);
      }
    }

    static lemma {:induction false} BlockHoldsNode(i: nat)
      requires i < CLASSES
      ensures BlockSize(i) >= 8
    {
    }

    /** A block in use is apart from every block in a list. */
    static lemma {:induction false} NotListed(s: Fixed, k: nat)
      requires Inv(s) && k < |s.live|
      ensures s.live[k].region.size > 0
      ensures forall i, j | 0 <= i < CLASSES && 0 <= j < |s.lists[i]| ::
                s.lists[i][j].size > 0 && Apart(s.lists[i][j], s.live[k].region)
    {
      hide Serves, Pooled, Total, Flat, RegionsOf;
      var r := s.live[k].region;
      LiveIsGranted(s.live, k);
      assert r in Granted(s);
      forall i, j | 0 <= i < CLASSES && 0 <= j < |s.lists[i]|
        ensures s.lists[i][j].size > 0 && Apart(s.lists[i][j], r)
      {
        var l := s.lists[i][j];
        InFlat(s.lists, i, l);
        TwoOwners(s, l, r);
      }
    }

    static lemma {:induction false} LiveIsGranted(live: seq<Used>, k: nat)
      requires k < |live|
      ensures live[k].region in RegionsOf(live)
    {
      hide RegionsOf;
      RegionsLess(live, k);
      assert multiset(RegionsOf(live))[live[k].region] >= 1;
    }

    static lemma {:induction false} TwoOwners(s: Fixed, l: Region, r: Region)
      requires Disjoint(s) && l in Flat(s.lists) && r in RegionsOf(s.live)
      ensures l.size > 0 && Apart(l, r)
    {
      assert l in Granted(s) && r in Granted(s);
      assert l == r ==> Granted(s)[l] >= 2;
    }

    /** Two blocks in use are apart. */
    static lemma {:induction false} LiveApart(s: Fixed, j: nat, k: nat)
      requires Inv(s) && j < |s.live| && k < |s.live| && j != k
      ensures Apart(s.live[j].region, s.live[k].region)
    {
      hide Serves, Pooled, Total, Flat, RegionsOf, Within;
      var a, b := s.live[j].region, s.live[k].region;
      var rest := Without(s.live, k);
      RegionsLess(s.live, k);
      assert rest[if j < k then j else j - 1] == s.live[j];
      LiveIsGranted(rest, if j < k then j else j - 1);
      LiveIsGranted(s.live, j);
      LiveIsGranted(s.live, k);
      assert a in Granted(s) && b in Granted(s);
      assert a == b ==> multiset(RegionsOf(s.live))[a] >= 2;
      assert Granted(s)[a] >= multiset(RegionsOf(s.live))[a];
    }

    /** A write into one block in use leaves the words of the others. */
    static lemma {:induction false} LiveKept(s: Fixed, m: map<nat, nat>, m': map<nat, nat>, k: nat, a: nat)
      requires Inv(s) && k < |s.live| && s.live[k].region.start <= a < s.live[k].region.End()
      requires a in m' && m' == m[a := m'[a]]
      ensures forall j | 0 <= j < |s.live| && j != k :: SameWords(m, m', s.live[j].region)
    {
      hide Inv;
      forall j | 0 <= j < |s.live| && j != k ensures SameWords(m, m', s.live[j].region) {
        LiveApart(s, j, k);
      }
    }

    /** It leaves the lists as well. */
    static lemma {:induction false} ChainsKept(s: Fixed, m: map<nat, nat>, m': map<nat, nat>, heads: seq<nat>,
                                               k: nat, a: nat)
      requires Inv(s) && k < |s.live| && s.live[k].region.start <= a < s.live[k].region.End()
      requires a in m' && m' == m[a := m'[a]]
      requires |heads| == CLASSES && forall i | 0 <= i < CLASSES :: Chain(m, heads[i], s.lists[i])
      ensures forall i | 0 <= i < CLASSES :: Chain(m', heads[i], s.lists[i])
    {
      hide Disjoint, Serves, Pooled, Total, Flat, RegionsOf;
      NotListed(s, k);
      forall i | 0 <= i < CLASSES ensures Chain(m', heads[i], s.lists[i]) {
        Kept(m, heads[i], s.lists[i], a, m'[a]);
      }
    }

    /** The owner of a block may write to any word of it. */
    method WriteWord(a: nat, value: nat, ghost k: nat)
      requires Valid() && k < |fixed.live| && a % 8 == 0
      requires fixed.live[k].region.start <= a && a + 8 <= fixed.live[k].region.End()
      modifies this`mem
      ensures Valid() && mem == old(mem)[a := value]
      ensures forall j | 0 <= j < |fixed.live| && j != k :: SameWords(old(mem), mem, fixed.live[j].region)
    {
      hide Inv;
      mem := mem[a := value];
      FixedLists(fixed);
      ChainsKept(fixed, old(mem), mem, listHeads, k, a);
      LiveKept(fixed, old(mem), mem, k, a);
    }

    static lemma {:induction false} FixedLists(s: Fixed)
      requires Inv(s)
      ensures |s.lists| == CLASSES
    {
    }

    static lemma {:induction false} Kept(m: map<nat, nat>, head: nat, list: seq<Region>, ptr: nat, v: nat)
      requires Chain(m, head, list) && forall j | 0 <= j < |list| :: list[j].start != ptr
      ensures Chain(m[ptr := v], head, list)
    {
    }

    static lemma {:induction false} Pushed(m: map<nat, nat>, head: nat, list: seq<Region>, r: Region)
      requires r.start in m && m[r.start] == head
      ensures Chain(m, head, list) ==> Chain(m, r.start, [r] + list)
    {
    }
  }
}
