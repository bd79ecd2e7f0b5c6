/**
 The first-fit heap as a transition system: the list of free regions, the blocks in use,
 and how many bytes have been given up to alignment.
 */
module LinkedHeap {
  import opened Wrappers
  import opened Sequences
  import opened Bits
  import opened Regions

  const NODE_SIZE := 16
  const NODE_ALIGN := 8

  /**
   The size and alignment of a block that can hold a list node; none if the alignment of a
   node makes the layout too large.
   */
  function SizeAlign(l: Layout): Option<(nat, nat)>
    requires 0 < l.align && l.size + l.align <= MAX_SIZE
  {
    var align := if l.align < NODE_ALIGN then NODE_ALIGN else l.align;
    if l.size + align > MAX_SIZE then None
    else
      var padded := AlignUp(l.size, align).value;
      Some((if padded < NODE_SIZE then NODE_SIZE else padded, align))
  }

  lemma {:induction false} SmallPowers(n: nat)
    requires IsPow2(n)
    ensures n < 8 ==> n == 1 || n == 2 || n == 4
    ensures n >= 8 ==> n % 8 == 0
  {
    var k: nat :| k < 64 && Pow2(k) == n;
    if k >= 3 {
      Pow2Sum(3, k - 3);
      assert Pow2(3) == 8;
      assert n == 8 * Pow2(k - 3);
    } else {
      assert k == 0 || k == 1 || k == 2;
    }
  }

  lemma {:induction false} EightDivides(a: nat, align: nat)
    requires align > 0 && align % 8 == 0 && a % align == 0
    ensures a % 8 == 0
  {
    var q, m := a / align, align / 8;
    assert a == q * align;
    assert align == 8 * m;
    assert a == 8 * (q * m);
  }

  lemma {:induction false} AlignUpFits(addr: nat, align: nat)
    requires 0 < align < WORD
    ensures AlignUp(addr, align).Some? <==> addr + align - 1 < WORD
  {
  }

  /** The adjusted size and alignment hold the layout, and a node. */
  lemma {:induction false} SizeAlignIsGood(l: Layout)
    requires ValidLayout(l) && SizeAlign(l).Some?
    ensures var (size, align) := SizeAlign(l).value;
            && size >= l.size && size >= NODE_SIZE && size % 8 == 0
            && IsPow2(align) && align >= l.align && align % 8 == 0 && align <= MAX_SIZE
            && forall a: nat | a % align == 0 :: a % l.align == 0
  {
    hide Pow2, And, AlignUp;
    var align := if l.align < NODE_ALIGN then NODE_ALIGN else l.align;
    AlignUpFits(l.size, align);
    SmallPowers(l.align);
    PowersOfTwo();
    assert IsPow2(8);
    SmallPowers(align);
    AlignUpIsLeast(l.size, align);
    EightDivides(AlignUp(l.size, align).value, align);
    if l.align < 8 {
      forall a: nat | a % 8 == 0 ensures a % l.align == 0 {
        DividesEight(a, l.align);
      }
    }
  }

  /** And they are no larger than that: the alignment of one of the two, the next multiple of it, or a node. */
  lemma {:induction false} SizeAlignIsLeast(l: Layout)
    requires ValidLayout(l)
    ensures var align := if l.align <= 8 then 8 else l.align;
            && (SizeAlign(l).Some? <==> l.size + align <= MAX_SIZE)
            && (SizeAlign(l).Some? ==>
                  && SizeAlign(l).value.1 == align
                  && SizeAlign(l).value.0
                     == if Ceiling(l.size, align) <= 16 then 16 else Ceiling(l.size, align))
  {
    hide Pow2, And, AlignUp, Ceiling;
    var align := if l.align < NODE_ALIGN then NODE_ALIGN else l.align;
    PowersOfTwo();
    assert IsPow2(8);
    if l.size + align <= MAX_SIZE {
      AlignUpIsCeiling(l.size, align);
    }
  }

  lemma {:induction false} DividesEight(a: nat, d: nat)
    requires a % 8 == 0 && (d == 1 || d == 2 || d == 4)
    ensures a % d == 0
  {
    var q := a / 8;
    assert a == 8 * q;
    if d == 1 {
    } else if d == 2 {
      assert a == 2 * (4 * q);
    } else {
      assert a == 4 * (2 * q);
    }
  }

  // ---- Finding a region

  /** Rounding up may overflow, which stops the kernel. */
  datatype Fit = Fits(start: nat) | TooSmall | Overflow

  function AllocFromRegion(r: Region, size: nat, align: nat): Fit
    requires 0 < align < WORD
  {
    match AlignUp(r.start, align)
    case None => Overflow
    case Some(allocStart) =>
      var allocEnd := allocStart + size;
      if allocEnd >= WORD then TooSmall
      else if allocEnd > r.End() then TooSmall
      else if 0 < r.End() - allocEnd < NODE_SIZE then TooSmall
      else Fits(allocStart)
  }

  datatype Found = NotFound | At(index: nat, start: nat) | Panicked

  /** The first region of the list, from `from` on, that is not too small. */
  function FindRegion(free: seq<Region>, from: nat, size: nat, align: nat): Found
    requires from <= |free| && 0 < align < WORD
    decreases |free| - from
  {
    if from == |free| then NotFound
    else
      match AllocFromRegion(free[from], size, align)
      case Fits(start) => At(from, start)
      case Overflow => Panicked
      case TooSmall => FindRegion(free, from + 1, size, align)
  }

  /**
   The region found is the first that can hold the request; none is found exactly when
   every region is too small.
   */
  lemma {:induction false} FoundIsFirst(free: seq<Region>, from: nat, size: nat, align: nat)
    requires from <= |free| && 0 < align < WORD
    ensures var found := FindRegion(free, from, size, align);
            && (found.At? ==>
                  && from <= found.index < |free|
                  && AllocFromRegion(free[found.index], size, align) == Fits(found.start)
                  && forall i | from <= i < found.index :: AllocFromRegion(free[i], size, align) == TooSmall)
            && (found.NotFound? <==>
                  forall i | from <= i < |free| :: AllocFromRegion(free[i], size, align) == TooSmall)
    decreases |free| - from
  {
    if from < |free| {
      FoundIsFirst(free, from + 1, size, align);
    }
  }

  /** What a fit means: a block at the least aligned address, and a rest that can be a region. */
  lemma {:induction false} FitIsInside(r: Region, size: nat, align: nat)
    requires IsPow2(align) && align < WORD && AllocFromRegion(r, size, align).Fits?
    ensures var a := AllocFromRegion(r, size, align).start;
            && a % align == 0 && r.start <= a < r.start + align
            && a + size <= r.End() && (a + size == r.End() || a + size + NODE_SIZE <= r.End())
  {
    AlignUpIsLeast(r.start, align);
  }

  /** A block that starts at `a` ends with the region, or leaves room for a node. */
  predicate LeavesRoom(r: Region, a: nat, size: nat) {
    a + size == r.End() || a + size + 16 <= r.End()
  }

  /** The region can hold a block at its first aligned address. */
  predicate Room(r: Region, size: nat, align: nat)
    requires align > 0
  {
    LeavesRoom(r, Ceiling(r.start, align), size)
  }

  /** A region is used exactly when it has room at its first aligned address, and there. */
  lemma {:induction false} RegionFits(r: Region, size: nat, align: nat)
    requires IsPow2(align) && align < WORD && r.End() < WORD
    ensures AllocFromRegion(r, size, align)
            == if r.start + align - 1 >= WORD then Overflow
               else if Room(r, size, align) then Fits(Ceiling(r.start, align))
               else TooSmall
  {
    hide Pow2, And, AlignUp, Ceiling;
    AlignUpFits(r.start, align);
    if r.start + align - 1 < WORD {
      AlignUpIsCeiling(r.start, align);
    }
  }

  // ---- The heap

  /** `lost` is auxiliary: the bytes between the start of a region and the block taken from it. */
  datatype Heap = Heap(start: nat, size: nat, free: seq<Region>, live: seq<Region>, lost: nat)

  datatype AllocResult = Null | Block(start: nat) | Panic

  function Drop(s: seq<Region>, k: nat): seq<Region>
    requires k < |s|
  {
    s[..k] + s[k + 1..]
  }

  /** The list after a block has been cut out of region `k`. */
  function Cut(free: seq<Region>, k: nat, start: nat, size: nat): seq<Region>
    requires k < |free| && start + size <= free[k].End()
  {
    var end := free[k].End();
    (if start + size < end then [Region(start + size, end - (start + size))] else []) + Drop(free, k)
  }

  ghost function Alloc(h: Heap, size: nat, align: nat): (Heap, AllocResult)
    requires IsPow2(align) && align < WORD
  {
    var found := FindRegion(h.free, 0, size, align);
    FoundIsFirst(h.free, 0, size, align);
    match found
    case NotFound => (h, Null)
    case Panicked => (h, Panic)
    case At(k, start) =>
      FitIsInside(h.free[k], size, align);
      (h.(free := Cut(h.free, k, start, size),
          live := h.live + [Region(start, size)],
          lost := h.lost + (start - h.free[k].start)), Block(start))
  }

  /** Region `k` is the first for which rounding up overflows, or that has room. */
  ghost predicate Decides(free: seq<Region>, k: nat, size: nat, align: nat)
    requires k <= |free| && align > 0
  {
    && (k < |free| ==> free[k].start + align - 1 >= WORD || Room(free[k], size, align))
    && forall j | 0 <= j < k :: free[j].start + align - 1 < WORD && !Room(free[j], size, align)
  }

  /**
   What an allocation does, told from the list alone: it takes the first region with room,
   gives out its first aligned address, and puts what is behind the block to the front; it
   fails exactly when there is none.
   */
  lemma {:induction false} AllocOutcome(h: Heap, size: nat, align: nat, k: nat)
    requires IsPow2(align) && align < WORD && k <= |h.free| && forall r | r in h.free :: r.End() < WORD
    requires Decides(h.free, k, size, align)
    ensures var (h', result) := Alloc(h, size, align);
            if k == |h.free| then h' == h && result == Null
            else if h.free[k].start + align - 1 >= WORD then h' == h && result == Panic
            else
              var r, a := h.free[k], Ceiling(h.free[k].start, align);
              && result == Block(a) && a + size <= r.End()
              && h'.live == h.live + [Region(a, size)]
              && h'.free == (if a + size == r.End() then [] else [Region(a + size, r.End() - (a + size))])
                            + h.free[..k] + h.free[k + 1..]
              && h'.lost == h.lost + a - r.start
              && h'.start == h.start && h'.size == h.size
  {
    hide Pow2, AllocFromRegion, Ceiling, FindRegion;
    forall j | 0 <= j < |h.free|
      ensures AllocFromRegion(h.free[j], size, align)
              == if h.free[j].start + align - 1 >= WORD then Overflow
                 else if Room(h.free[j], size, align) then Fits(Ceiling(h.free[j].start, align))
                 else TooSmall
    {
      RegionFits(h.free[j], size, align);
    }
    FirstDecides(h.free, 0, size, align, k);
    FoundIsFirst(h.free, 0, size, align);
    if k < |h.free| && FindRegion(h.free, 0, size, align).At? {
      FitIsInside(h.free[k], size, align);
    }
  }

  /** The search stops at the first region that is not too small. */
  lemma {:induction false} FirstDecides(free: seq<Region>, from: nat, size: nat, align: nat, k: nat)
    requires from <= k <= |free| && 0 < align < WORD
    requires forall j | from <= j < k :: AllocFromRegion(free[j], size, align) == TooSmall
    requires k < |free| ==> AllocFromRegion(free[k], size, align) != TooSmall
    ensures FindRegion(free, from, size, align)
            == if k == |free| then NotFound
               else match AllocFromRegion(free[k], size, align)
                    case Fits(start) => At(k, start)
                    case _ => Panicked
    decreases k - from
  {
    if from < k {
      FirstDecides(free, from + 1, size, align, k);
    }
  }

  ghost function Dealloc(h: Heap, k: nat): Heap
    requires k < |h.live|
  {
    h.(free := [h.live[k]] + h.free, live := Drop(h.live, k))
  }

  /** Aligned for a node, large enough for one, and inside the heap. */
  ghost predicate Good(h: Heap, r: Region) {
    r.start % 8 == 0 && r.size >= NODE_SIZE && h.start <= r.start && r.End() <= h.start + h.size
  }

  ghost predicate AllApart(s: seq<Region>) {
    NoDuplicates(s) && forall a, b | a in s && b in s && a != b :: Apart(a, b)
  }

  ghost predicate Inv(h: Heap) {
    && h.start > 0 && h.start + h.size < WORD
    && (forall r | r in h.free :: Good(h, r))
    && (forall r | r in h.live :: Good(h, r) && r.size % 8 == 0)
    && AllApart(h.free + h.live)
    && Total(h.free) + Total(h.live) + h.lost == h.size
  }

  lemma {:induction false} TotalDrop(s: seq<Region>, k: nat)
    requires k < |s|
    ensures Total(Drop(s, k)) + s[k].size == Total(s)
  {
    assert s == s[..k] + ([s[k]] + s[k + 1..]);
    TotalConcat(s[..k], [s[k]] + s[k + 1..]);
    TotalConcat(s[..k], s[k + 1..]);
  }

  /** The list without one of its regions. */
  lemma {:induction false} DropElements(s: seq<Region>, k: nat)
    requires k < |s| && NoDuplicates(s)
    ensures NoDuplicates(Drop(s, k))
    ensures forall r :: r in Drop(s, k) <==> r in s && r != s[k]
  {
  }

  lemma {:induction false} AllApartParts(a: seq<Region>, b: seq<Region>)
    requires AllApart(a + b)
    ensures AllApart(a) && AllApart(b)
    ensures forall x, y | x in a && y in b :: x != y && Apart(x, y)
  {
    var s := a + b;
    assert forall i | 0 <= i < |a| :: s[i] == a[i];
    assert forall i | 0 <= i < |b| :: s[|a| + i] == b[i];
    forall x, y | x in a && y in b ensures x != y && Apart(x, y) {
      var i :| 0 <= i < |a| && a[i] == x;
      var j :| 0 <= j < |b| && b[j] == y;
      assert s[i] != s[|a| + j];
    }
  }

  lemma {:induction false} AllApartJoined(a: seq<Region>, b: seq<Region>)
    requires AllApart(a) && AllApart(b)
    requires forall x, y | x in a && y in b :: x != y && Apart(x, y)
    ensures AllApart(a + b)
  {
    NoDuplicatesConcat(a, b);
  }

  /** Regions inside a region that is apart from others are apart from them too. */
  lemma {:induction false} Inside(r: Region, part: Region, other: Region)
    requires Apart(r, other) && r.start <= part.start && part.End() <= r.End() && part.size > 0 && other.size > 0
    ensures Apart(part, other) && part != other
  {
  }

  lemma {:induction false} CutKeepsApart(h: Heap, k: nat, start: nat, size: nat)
    requires Inv(h) && k < |h.free| && h.free[k].start <= start && size > 0 && start + size <= h.free[k].End()
    ensures AllApart(Cut(h.free, k, start, size) + (h.live + [Region(start, size)]))
  {
    var r, block := h.free[k], Region(start, size);
    var rest := Region(start + size, r.End() - (start + size));
    AllApartParts(h.free, h.live);
    DropElements(h.free, k);
    var others := Drop(h.free, k);
    forall o | o in others || o in h.live
      ensures Apart(block, o) && block != o && (rest.size > 0 ==> Apart(rest, o) && rest != o)
    {
      assert Apart(r, o) && Good(h, o);
      Inside(r, block, o);
      if rest.size > 0 { Inside(r, rest, o); }
    }
    AllApartJoined(h.live, [block]);
    var free' := Cut(h.free, k, start, size);
    assert AllApart(others);
    if rest.size > 0 {
      AllApartJoined([rest], others);
      assert free' == [rest] + others;
    } else {
      assert free' == others;
    }
    AllApartJoined(free', h.live + [block]);
  }

  lemma {:induction false} CutTotals(h: Heap, k: nat, start: nat, size: nat)
    requires k < |h.free| && h.free[k].start <= start && start + size <= h.free[k].End()
    ensures Total(Cut(h.free, k, start, size)) + Total(h.live + [Region(start, size)]) + (start - h.free[k].start)
            == Total(h.free) + Total(h.live)
  {
    var r, block := h.free[k], Region(start, size);
    var rest := Region(start + size, r.End() - (start + size));
    TotalDrop(h.free, k);
    TotalConcat(h.live, [block]);
    TotalConcat([rest], Drop(h.free, k));
    assert Total([block]) == size && Total([rest]) == rest.size;
    assert [] + Drop(h.free, k) == Drop(h.free, k);
  }

  lemma {:induction false} CutIsGood(h: Heap, k: nat, start: nat, size: nat)
    requires Inv(h) && k < |h.free| && h.free[k].start <= start && start % 8 == 0
    requires size >= NODE_SIZE && size % 8 == 0
    requires start + size == h.free[k].End() || start + size + NODE_SIZE <= h.free[k].End()
    ensures forall r | r in Cut(h.free, k, start, size) :: Good(h, r)
    ensures Good(h, Region(start, size))
  {
    assert Good(h, h.free[k]);
    AllApartParts(h.free, h.live);
    DropElements(h.free, k);
  }

  lemma {:induction false} AllocKeepsInv(h: Heap, size: nat, align: nat)
    requires Inv(h) && IsPow2(align) && align < WORD && align % 8 == 0 && size >= NODE_SIZE && size % 8 == 0
    ensures Inv(Alloc(h, size, align).0)
  {
    hide Cut, Total, AllApart, AllocFromRegion, Pow2;
    FoundIsFirst(h.free, 0, size, align);
    var found := FindRegion(h.free, 0, size, align);
    if found.At? {
      var k, start := found.index, found.start;
      FitIsInside(h.free[k], size, align);
      EightDivides(start, align);
      CutKeepsApart(h, k, start, size);
      CutTotals(h, k, start, size);
      CutIsGood(h, k, start, size);
      var h' := Alloc(h, size, align).0;
      assert forall r | r in h'.free :: Good(h', r) by {
        assert forall r | r in h'.free :: Good(h, r);
      }
      assert forall r | r in h'.live :: r in h.live || r == Region(start, size);
      assert forall r :: Good(h', r) <==> Good(h, r);
    }
  }

  lemma {:induction false} DeallocKeepsInv(h: Heap, k: nat)
    requires Inv(h) && k < |h.live|
    ensures Inv(Dealloc(h, k))
  {
    var r, others := h.live[k], Drop(h.live, k);
    AllApartParts(h.free, h.live);
    DropElements(h.live, k);
    AllApartJoined([r], h.free);
    AllApartJoined([r] + h.free, others);
    TotalDrop(h.live, k);
    TotalConcat([r], h.free);
    assert Total([r]) == r.size;
  }

  /** Giving a block back and asking for the same again gives the same block, and the list as it was. */
  lemma {:induction false} FreedIsReused(h: Heap, k: nat, size: nat, align: nat)
    requires Inv(h) && k < |h.live| && h.live[k].size == size
    requires IsPow2(align) && h.live[k].start % align == 0 && h.live[k].start + align - 1 < WORD
    ensures align < WORD
    ensures var (h', result) := Alloc(Dealloc(h, k), size, align);
            && result == Block(h.live[k].start) && h'.free == h.free && h'.lost == h.lost
            && h'.live == Drop(h.live, k) + [h.live[k]]
  {
    hide Pow2, AllocFromRegion, Ceiling;
    var r, h1 := h.live[k], Dealloc(h, k);
    assert Good(h, r);
    CeilingOfMultiple(r.start, align);
    assert h1.free[0] == r && Decides(h1.free, 0, size, align);
    assert forall o | o in h1.free :: Good(h, o) by {
      assert forall o | o in h1.free :: o == r || o in h.free;
    }
    AllocOutcome(h1, size, align, 0);
    assert [] + h1.free[..0] + h1.free[1..] == h.free;
  }

  // ---- Runs

  datatype Op = Allocate(layout: Layout) | Free(index: nat)

  ghost predicate Sensible(h: Heap, op: Op) {
    match op
    case Allocate(layout) => ValidLayout(layout)
    case Free(k) => k < |h.live|
  }

  ghost function Step(h: Heap, op: Op): Heap
    requires Sensible(h, op)
  {
    match op
    case Allocate(layout) =>
      if SizeAlign(layout).None? then h
      else
        SizeAlignIsGood(layout);
        Alloc(h, SizeAlign(layout).value.0, SizeAlign(layout).value.1).0
    case Free(k) => Dealloc(h, k)
  }

  lemma {:induction false} StepKeepsInv(h: Heap, op: Op)
    requires Inv(h) && Sensible(h, op)
    ensures Inv(Step(h, op)) && Step(h, op).start == h.start && Step(h, op).size == h.size
  {
    hide Inv;
    match op
    case Allocate(layout) =>
      if SizeAlign(layout).Some? {
        SizeAlignIsGood(layout);
        AllocKeepsInv(h, SizeAlign(layout).value.0, SizeAlign(layout).value.1);
      }
    case Free(k) => DeallocKeepsInv(h, k);
  }

  ghost predicate Legal(h: Heap, ops: seq<Op>)
    decreases |ops|
  {
    ops != [] ==> Sensible(h, ops[0]) && Legal(Step(h, ops[0]), ops[1..])
  }

  ghost function Run(h: Heap, ops: seq<Op>): Heap
    requires Legal(h, ops)
    decreases |ops|
  {
    if ops == [] then h else Run(Step(h, ops[0]), ops[1..])
  }

  function Init(start: nat, size: nat): Heap {
    Heap(start, size, [Region(start, size)], [], 0)
  }

  lemma {:induction false} InitInv(start: nat, size: nat)
    requires start > 0 && start % 8 == 0 && size >= NODE_SIZE && start + size < WORD
    ensures Inv(Init(start, size))
  {
  }

  /**
   Over every run: free regions and blocks in use are pairwise apart, inside the heap and
   fit for a node; and free bytes, used bytes and lost bytes add up to the heap.
   */
  lemma {:induction false} InvForever(h: Heap, ops: seq<Op>)
    requires Inv(h) && Legal(h, ops)
    ensures Inv(Run(h, ops)) && Run(h, ops).start == h.start && Run(h, ops).size == h.size
    decreases |ops|
  {
    hide Inv, Step;
    if ops != [] {
      StepKeepsInv(h, ops[0]);
      InvForever(Step(h, ops[0]), ops[1..]);
    }
  }

  /** A block meets its layout, and is apart from every other block and every free region. */
  lemma {:induction false} BlockMeetsLayout(h: Heap, layout: Layout)
    requires Inv(h) && ValidLayout(layout) && SizeAlign(layout).Some?
    requires IsPow2(SizeAlign(layout).value.1) && SizeAlign(layout).value.1 < WORD
    requires Alloc(h, SizeAlign(layout).value.0, SizeAlign(layout).value.1).1.Block?
    ensures var (h', r) := Alloc(h, SizeAlign(layout).value.0, SizeAlign(layout).value.1);
            && r.start % layout.align == 0
            && exists b :: b in h'.live && b.start == r.start && b.size >= layout.size
                 && h.start <= b.start && b.End() <= h.start + h.size
                 && (forall o | o in h.live || o in h'.free :: Apart(b, o))
  {
    hide Pow2, And, AlignUp, Cut, Total;
    SizeAlignIsGood(layout);
    var (size, align) := SizeAlign(layout).value;
    AllocKeepsInv(h, size, align);
    var (h', r) := Alloc(h, size, align);
    var b := Region(r.start, size);
    FoundIsFirst(h.free, 0, size, align);
    FitIsInside(h.free[FindRegion(h.free, 0, size, align).index], size, align);
    assert h'.live == h.live + [b] && b in h'.live;
    AllApartParts(h'.free, h'.live);
    AllApartParts(h.live, [b]);
    assert Good(h', b);
  }

  /** With alignments of at most a node's, nothing is lost. */
  lemma {:induction false} NothingLost(h: Heap, ops: seq<Op>)
    requires Inv(h) && Legal(h, ops)
    requires forall op | op in ops && op.Allocate? :: op.layout.align <= NODE_ALIGN
    ensures Run(h, ops).lost == h.lost
    decreases |ops|
  {
    hide Inv, Step;
    if ops != [] {
      StepKeepsInv(h, ops[0]);
      StepLosesNothing(h, ops[0]);
      NothingLost(Step(h, ops[0]), ops[1..]);
    }
  }

  lemma {:induction false} StepLosesNothing(h: Heap, op: Op)
    requires Inv(h) && Sensible(h, op)
    requires op.Allocate? ==> op.layout.align <= NODE_ALIGN
    ensures Step(h, op).lost == h.lost
  {
    hide Pow2, And, Cut, Total, AllApart;
    if op.Allocate? && SizeAlign(op.layout).Some? {
      SizeAlignIsGood(op.layout);
      var (size, align) := SizeAlign(op.layout).value;
      assert align == 8;
      FoundIsFirst(h.free, 0, size, align);
      var found := FindRegion(h.free, 0, size, align);
      if found.At? {
        var r := h.free[found.index];
        assert Good(h, r);
        FitIsInside(r, size, align);
      }
    }
  }
}
