/**
 The kernel's allocator as a transition system: nine lists of blocks of fixed sizes, filled
 from a fallback heap that is outside this model. Where the fallback heap puts a block, and
 how much it grants, is up to it, within its contract.
 */
module FixedBlocks {
  import opened Wrappers
  import opened Bits
  import opened Regions

  const CLASSES := 9

  /** 8, 16, ..., 2048. */
  function BlockSize(i: nat): (size: nat)
    requires i < CLASSES
    ensures size >= 8
  {
    if i == 0 then 8 else 2 * BlockSize(i - 1)
  }

  function Required(l: Layout): nat {
    if l.size < l.align then l.align else l.size
  }

  /** The first class whose blocks are large enough, and aligned enough. */
  function ListIndexFrom(required: nat, from: nat): (i: nat)
    requires from <= CLASSES
    ensures from <= i <= CLASSES
    ensures i < CLASSES ==> BlockSize(i) >= required
    ensures forall j | from <= j < i :: BlockSize(j) < required
    decreases CLASSES - from
  {
    if from == CLASSES || BlockSize(from) >= required then from else ListIndexFrom(required, from + 1)
  }

  /** `CLASSES` when there is no such class. */
  function ListIndex(l: Layout): nat {
    ListIndexFrom(Required(l), 0)
  }

  /** A block in use, and the class it was taken for. */
  datatype Used = Used(region: Region, index: nat)

  /**
   `used` is what the fallback heap says it has given out. `lists` and `live` hold the
   regions it granted; a list hands out its first block first.
   */
  datatype Fixed = Fixed(start: nat, size: nat, used: nat, lists: seq<seq<Region>>, blockFree: nat, live: seq<Used>)

  function Flat(lists: seq<seq<Region>>): seq<Region> {
    if lists == [] then [] else lists[0] + Flat(lists[1..])
  }

  function RegionsOf(live: seq<Used>): seq<Region> {
    if live == [] then [] else [live[0].region] + RegionsOf(live[1..])
  }

  /** What the fallback heap has given out and not got back. */
  ghost function Granted(s: Fixed): multiset<Region> {
    multiset(Flat(s.lists)) + multiset(RegionsOf(s.live))
  }

  ghost predicate Within(s: Fixed, r: Region) {
    r.size > 0 && s.start <= r.start && r.End() <= s.start + s.size
  }

  ghost predicate Disjoint(s: Fixed) {
    && (forall r | r in Granted(s) :: Granted(s)[r] == 1 && Within(s, r))
    && forall a, b | a in Granted(s) && b in Granted(s) && a != b :: Apart(a, b)
  }

  /** A region fit for class `i`: it is aligned to the block size, and holds a block. */
  ghost predicate Serves(r: Region, i: nat) {
    i < CLASSES && r.start % BlockSize(i) == 0 && r.size >= BlockSize(i)
  }

  /** The bytes in the lists, by their block sizes. */
  function Pooled(lists: seq<seq<Region>>): nat
    requires |lists| <= CLASSES
  {
    if lists == [] then 0
    else |lists[|lists| - 1]| * BlockSize(|lists| - 1) + Pooled(lists[..|lists| - 1])
  }

  ghost predicate Inv(s: Fixed) {
    && s.start > 0 && |s.lists| == CLASSES
    && (forall i, r | 0 <= i < CLASSES && r in s.lists[i] :: Serves(r, i))
    && (forall u | u in s.live :: u.index <= CLASSES && (u.index < CLASSES ==> Serves(u.region, u.index)))
    && Disjoint(s)
    && s.used == Total(Flat(s.lists)) + Total(RegionsOf(s.live))
    && s.used <= s.size
    && s.blockFree == Pooled(s.lists)
  }

  // ---- The fallback heap

  /** The contract: a block of its own, large and aligned enough, inside the heap. */
  ghost predicate Grants(s: Fixed, layout: Layout, answer: Option<Region>) {
    answer.Some? ==>
      var r := answer.value;
      && Within(s, r) && r.size >= layout.size && layout.align > 0 && r.start % layout.align == 0
      && (forall o | o in Granted(s) :: Apart(r, o) && r != o)
      && s.used + r.size <= s.size
  }

  /** The layout that the fallback heap is asked for. */
  function Asked(layout: Layout): Layout {
    var i := ListIndex(layout);
    if i < CLASSES then Layout(BlockSize(i), BlockSize(i)) else layout
  }

  // ---- Steps

  function FromFallback(s: Fixed, index: nat, answer: Option<Region>): (Fixed, nat) {
    match answer
    case None => (s, 0)
    case Some(r) => (s.(used := s.used + r.size, live := s.live + [Used(r, index)]), r.start)
  }

  /** The state afterwards, and the address handed out, 0 for none. */
  function Alloc(s: Fixed, layout: Layout, answer: Option<Region>): (Fixed, nat)
    requires |s.lists| == CLASSES
    requires ListIndex(layout) < CLASSES && s.lists[ListIndex(layout)] != [] ==>
               s.blockFree >= BlockSize(ListIndex(layout))
  {
    var i := ListIndex(layout);
    if i < CLASSES && s.lists[i] != [] then
      var r := s.lists[i][0];
      (s.(lists := s.lists[i := s.lists[i][1..]],
          blockFree := s.blockFree - BlockSize(i),
          live := s.live + [Used(r, i)]), r.start)
    else FromFallback(s, i, answer)
  }

  function Without(live: seq<Used>, k: nat): seq<Used>
    requires k < |live|
  {
    live[..k] + live[k + 1..]
  }

  /** Block `k` of those in use comes back, with a layout of its class. */
  function Dealloc(s: Fixed, k: nat, layout: Layout): Fixed
    requires |s.lists| == CLASSES && k < |s.live|
    requires ListIndex(layout) == s.live[k].index && s.used >= s.live[k].region.size
  {
    var i, r := ListIndex(layout), s.live[k].region;
    if i < CLASSES then
      s.(lists := s.lists[i := [r] + s.lists[i]],
         blockFree := s.blockFree + BlockSize(i),
         live := Without(s.live, k))
    else s.(used := s.used - r.size, live := Without(s.live, k))
  }

  // ---- Lists and sums

  lemma {:induction false} FlatUpdate(lists: seq<seq<Region>>, i: nat, l: seq<Region>)
    requires i < |lists|
    ensures multiset(Flat(lists[i := l])) + multiset(lists[i]) == multiset(Flat(lists)) + multiset(l)
    ensures Total(Flat(lists[i := l])) + Total(lists[i]) == Total(Flat(lists)) + Total(l)
    decreases |lists|
  {
    hide Total;
    var lists' := lists[i := l];
    var rest, rest' := Flat(lists[1..]), Flat(lists'[1..]);
    assert Flat(lists) == lists[0] + rest && Flat(lists') == lists'[0] + rest';
    hide Flat;
    TotalConcat(lists[0], rest);
    TotalConcat(lists'[0], rest');
    if i > 0 {
      assert lists'[1..] == lists[1..][i - 1 := l];
      FlatUpdate(lists[1..], i - 1, l);
      Beside(multiset(lists[0]), multiset(rest'), multiset(lists[i]), multiset(rest), multiset(l));
    } else {
      assert lists'[1..] == lists[1..];
      Exchanged(multiset(l), multiset(rest), multiset(lists[0]));
    }
  }

  lemma {:induction false} Beside(a: multiset<Region>, b: multiset<Region>, x: multiset<Region>, c: multiset<Region>,
                                  y: multiset<Region>)
    requires b + x == c + y
    ensures (a + b) + x == (a + c) + y
  {
    assert (a + b) + x == a + (b + x);
  }

  lemma {:induction false} Exchanged(a: multiset<Region>, b: multiset<Region>, c: multiset<Region>)
    ensures (a + b) + c == (c + b) + a
  {
  }

  lemma {:induction false} RegionsConcat(a: seq<Used>, b: seq<Used>)
    ensures RegionsOf(a + b) == RegionsOf(a) + RegionsOf(b)
    decreases |a|
  {
    if a == [] {
      assert a + b == b;
    } else {
      assert (a + b)[1..] == a[1..] + b;
      RegionsConcat(a[1..], b);
    }
  }

  /** One more block in use. */
  lemma {:induction false} RegionsMore(live: seq<Used>, u: Used)
    ensures multiset(RegionsOf(live + [u])) == multiset(RegionsOf(live)) + multiset{u.region}
    ensures Total(RegionsOf(live + [u])) == Total(RegionsOf(live)) + u.region.size
  {
    RegionsConcat(live, [u]);
    assert RegionsOf([u]) == [u.region];
    TotalConcat(RegionsOf(live), [u.region]);
    assert Total([u.region]) == u.region.size;
  }

  /** One block less. */
  lemma {:induction false} RegionsLess(live: seq<Used>, k: nat)
    requires k < |live|
    ensures multiset(RegionsOf(live)) == multiset(RegionsOf(Without(live, k))) + multiset{live[k].region}
    ensures Total(RegionsOf(live)) == Total(RegionsOf(Without(live, k))) + live[k].region.size
  {
    var a, b, u := live[..k], live[k + 1..], live[k];
    assert live == a + ([u] + b);
    RegionsConcat(a, [u] + b);
    RegionsConcat([u], b);
    RegionsConcat(a, b);
    assert RegionsOf([u]) == [u.region];
    TotalConcat(RegionsOf(a), RegionsOf([u] + b));
    TotalConcat([u.region], RegionsOf(b));
    TotalConcat(RegionsOf(a), RegionsOf(b));
    assert Total([u.region]) == u.region.size;
  }

  lemma {:induction false} PooledUpdate(lists: seq<seq<Region>>, i: nat, l: seq<Region>)
    requires i < |lists| <= CLASSES
    ensures Pooled(lists[i := l]) + |lists[i]| * BlockSize(i) == Pooled(lists) + |l| * BlockSize(i)
    decreases |lists|
  {
    var n, lists' := |lists| - 1, lists[i := l];
    if i < n {
      assert lists'[..n] == lists[..n][i := l];
      PooledUpdate(lists[..n], i, l);
    } else {
      assert lists'[..n] == lists[..n];
    }
  }

  /** The lists hold at least what their block sizes say. */
  lemma {:induction false} PooledWithin(lists: seq<seq<Region>>)
    requires |lists| <= CLASSES
    requires forall i, r | 0 <= i < |lists| && r in lists[i] :: Serves(r, i)
    ensures Pooled(lists) <= Total(Flat(lists))
    decreases |lists|
  {
    if lists != [] {
      var n := |lists| - 1;
      PooledWithin(lists[..n]);
      FlatLast(lists[..n], lists[n]);
      assert lists == lists[..n] + [lists[n]];
      TotalConcat(Flat(lists[..n]), lists[n]);
      TotalAtLeast(lists[n], BlockSize(n));
    }
  }

  lemma {:induction false} FlatLast(lists: seq<seq<Region>>, l: seq<Region>)
    ensures Flat(lists + [l]) == Flat(lists) + l
    decreases |lists|
  {
    if lists == [] {
      assert lists + [l] == [l];
      assert [l][1..] == [];
    } else {
      assert (lists + [l])[1..] == lists[1..] + [l];
      FlatLast(lists[1..], l);
    }
  }

  lemma {:induction false} TotalAtLeast(s: seq<Region>, size: nat)
    requires forall r | r in s :: r.size >= size
    ensures Total(s) >= |s| * size
    decreases |s|
  {
    if s != [] {
      TotalAtLeast(s[1..], size);
    }
  }

  lemma {:induction false} InFlat(lists: seq<seq<Region>>, i: nat, r: Region)
    requires i < |lists| && r in lists[i]
    ensures r in Flat(lists)
    decreases |lists|
  {
    if i > 0 { InFlat(lists[1..], i - 1, r); }
  }

  // ---- What the steps keep

  /** The counter does not underflow when a block is taken from a list. */
  lemma {:induction false} CounterCovers(s: Fixed, i: nat)
    requires Inv(s) && i < CLASSES && s.lists[i] != []
    ensures s.blockFree >= BlockSize(i)
  {
    hide Disjoint, Serves, Pooled, BlockSize;
    PooledUpdate(s.lists, i, s.lists[i][1..]);
    assert |s.lists[i]| * BlockSize(i) == |s.lists[i][1..]| * BlockSize(i) + BlockSize(i);
  }

  lemma {:induction false} PopKeepsInv(s: Fixed, i: nat)
    requires Inv(s) && i < CLASSES && s.lists[i] != [] && s.blockFree >= BlockSize(i)
    ensures Inv(s.(lists := s.lists[i := s.lists[i][1..]], blockFree := s.blockFree - BlockSize(i),
                   live := s.live + [Used(s.lists[i][0], i)]))
  {
    hide Flat, RegionsOf, Total, Pooled, Apart, BlockSize;
    var r, l := s.lists[i][0], s.lists[i][1..];
    var s' := s.(lists := s.lists[i := l], blockFree := s.blockFree - BlockSize(i), live := s.live + [Used(r, i)]);
    FlatUpdate(s.lists, i, l);
    RegionsMore(s.live, Used(r, i));
    PooledUpdate(s.lists, i, l);
    OneShorter(s.lists[i]);
    assert |s.lists[i]| * BlockSize(i) == |l| * BlockSize(i) + BlockSize(i);
    Cancel(multiset(Flat(s'.lists)), multiset(Flat(s.lists)), multiset(l), multiset{r});
    assert Granted(s') == Granted(s);
    assert r in s.lists[i] && Serves(r, i);
    forall j, x | 0 <= j < CLASSES && x in s'.lists[j] ensures Serves(x, j) {
      assert x in s.lists[j];
    }
  }

  lemma {:induction false} Cancel(a: multiset<Region>, b: multiset<Region>, l: multiset<Region>, x: multiset<Region>)
    requires a + (l + x) == b + l
    ensures a + x == b
  {
    forall e ensures (a + x)[e] == b[e] {
      assert (a + (l + x))[e] == (b + l)[e];
    }
  }

  lemma {:induction false} OneShorter(s: seq<Region>)
    requires s != []
    ensures multiset(s) == multiset(s[1..]) + multiset{s[0]}
    ensures Total(s) == Total(s[1..]) + s[0].size
  {
    assert s == [s[0]] + s[1..];
  }

  lemma {:induction false} PushKeepsInv(s: Fixed, i: nat, k: nat)
    requires Inv(s) && i < CLASSES && k < |s.live| && s.live[k].index == i
    ensures Inv(s.(lists := s.lists[i := [s.live[k].region] + s.lists[i]], blockFree := s.blockFree + BlockSize(i),
                   live := Without(s.live, k)))
  {
    hide Flat, RegionsOf, Total, Pooled, Apart, BlockSize;
    var u := s.live[k];
    var l := [u.region] + s.lists[i];
    var s' := s.(lists := s.lists[i := l], blockFree := s.blockFree + BlockSize(i), live := Without(s.live, k));
    FlatUpdate(s.lists, i, l);
    RegionsLess(s.live, k);
    PooledUpdate(s.lists, i, l);
    OneShorter(l);
    assert l[1..] == s.lists[i];
    assert |l| * BlockSize(i) == |s.lists[i]| * BlockSize(i) + BlockSize(i);
    Cancel(multiset(Flat(s.lists)), multiset(Flat(s'.lists)), multiset(s.lists[i]), multiset{u.region});
    assert Granted(s') == Granted(s);
    assert u in s.live && Serves(u.region, i);
    forall j, x | 0 <= j < CLASSES && x in s'.lists[j] ensures Serves(x, j) {
      assert x in s.lists[j] || (j == i && x == u.region);
    }
    assert forall v | v in s'.live :: v in s.live;
  }

  lemma {:induction false} FallbackKeepsInv(s: Fixed, index: nat, layout: Layout, answer: Option<Region>)
    requires Inv(s) && index <= CLASSES && Grants(s, layout, answer)
    requires index < CLASSES ==> layout == Layout(BlockSize(index), BlockSize(index))
    ensures Inv(FromFallback(s, index, answer).0)
  {
    hide Flat, RegionsOf, Total, Pooled, Apart, BlockSize;
    if answer.Some? {
      var r := answer.value;
      var s' := FromFallback(s, index, answer).0;
      RegionsMore(s.live, Used(r, index));
      assert Granted(s') == Granted(s) + multiset{r};
      assert r !in Granted(s);
      forall o | o in Granted(s') ensures Granted(s')[o] == 1 && Within(s', o) {
        assert o == r || o in Granted(s);
      }
      forall a, b | a in Granted(s') && b in Granted(s') && a != b ensures Apart(a, b) {
        ApartEitherWay(a, b);
        assert a == r || a in Granted(s);
        assert b == r || b in Granted(s);
      }
    }
  }

  lemma {:induction false} ApartEitherWay(a: Region, b: Region)
    ensures Apart(a, b) <==> Apart(b, a)
  {
  }

  lemma {:induction false} ReturnKeepsInv(s: Fixed, k: nat)
    requires Inv(s) && k < |s.live| && s.used >= s.live[k].region.size
    ensures Inv(s.(used := s.used - s.live[k].region.size, live := Without(s.live, k)))
  {
    hide Flat, RegionsOf, Total, Pooled, Apart, BlockSize;
    var r := s.live[k].region;
    var s' := s.(used := s.used - r.size, live := Without(s.live, k));
    RegionsLess(s.live, k);
    assert Granted(s) == Granted(s') + multiset{r};
    forall o | o in Granted(s') ensures Granted(s')[o] == 1 && Within(s', o) {
      assert o in Granted(s);
    }
    assert forall v | v in s'.live :: v in s.live;
  }

  lemma {:induction false} UsedCovers(s: Fixed, k: nat)
    requires Inv(s) && k < |s.live|
    ensures s.used >= s.live[k].region.size
  {
    RegionsLess(s.live, k);
  }

  // ---- Runs

  datatype Op = Allocate(layout: Layout, answer: Option<Region>) | Free(k: nat, layout: Layout)

  /** The fallback heap keeps its contract, and blocks come back with a layout of their class. */
  ghost predicate Sensible(s: Fixed, op: Op) {
    match op
    case Allocate(layout, answer) => Grants(s, Asked(layout), answer)
    case Free(k, layout) => k < |s.live| && ListIndex(layout) == s.live[k].index
  }

  ghost function Step(s: Fixed, op: Op): Fixed
    requires Inv(s) && Sensible(s, op)
  {
    match op
    case Allocate(layout, answer) =>
      if ListIndex(layout) < CLASSES && s.lists[ListIndex(layout)] != [] then
        CounterCovers(s, ListIndex(layout));
        Alloc(s, layout, answer).0
      else Alloc(s, layout, answer).0
    case Free(k, layout) =>
      UsedCovers(s, k);
      Dealloc(s, k, layout)
  }

  lemma {:induction false} StepKeepsInv(s: Fixed, op: Op)
    requires Inv(s) && Sensible(s, op)
    ensures Inv(Step(s, op)) && Step(s, op).start == s.start && Step(s, op).size == s.size
  {
    hide Disjoint, Serves, Pooled, Total, Flat, RegionsOf, Grants;
    match op
    case Allocate(layout, answer) =>
      var i := ListIndex(layout);
      if i < CLASSES && s.lists[i] != [] {
        CounterCovers(s, i);
        PopKeepsInv(s, i);
      } else {
        FallbackKeepsInv(s, i, Asked(layout), answer);
      }
    case Free(k, layout) =>
      UsedCovers(s, k);
      if ListIndex(layout) < CLASSES { PushKeepsInv(s, ListIndex(layout), k); } else { ReturnKeepsInv(s, k); }
  }

  ghost predicate Legal(s: Fixed, ops: seq<Op>)
    requires Inv(s)
    decreases |ops|
  {
    ops != [] ==>
      Sensible(s, ops[0]) && (StepKeepsInv(s, ops[0]); Legal(Step(s, ops[0]), ops[1..]))
  }

  ghost function Run(s: Fixed, ops: seq<Op>): Fixed
    requires Inv(s) && Legal(s, ops)
    decreases |ops|
  {
    if ops == [] then s
    else
      StepKeepsInv(s, ops[0]);
      Run(Step(s, ops[0]), ops[1..])
  }

  function UsedBytes(s: Fixed): int { s.used - s.blockFree }

  function FreeBytes(s: Fixed): int { s.size - s.used + s.blockFree }

  function Empty(): (lists: seq<seq<Region>>)
    ensures |lists| == CLASSES && forall i | 0 <= i < CLASSES :: lists[i] == []
  {
    [[], [], [], [], [], [], [], [], []]
  }

  function Init(start: nat, size: nat): Fixed {
    Fixed(start, size, 0, Empty(), 0, [])
  }

  lemma {:induction false} InitInv(start: nat, size: nat)
    requires start > 0
    ensures Inv(Init(start, size))
  {
    EmptyLists(Empty());
  }

  lemma {:induction false} EmptyLists(lists: seq<seq<Region>>)
    requires |lists| <= CLASSES && forall i | 0 <= i < |lists| :: lists[i] == []
    ensures Flat(lists) == [] && Pooled(lists) == 0
    decreases |lists|
  {
    if lists != [] {
      var n := |lists| - 1;
      EmptyLists(lists[..n]);
      FlatLast(lists[..n], lists[n]);
      assert lists == lists[..n] + [lists[n]];
    }
  }

  /**
   Over every run: blocks in lists, blocks in use and the rest of the fallback heap are
   pairwise apart, the counter is the sum over the lists, and used and free bytes add up to
   the heap, neither of them negative.
   */
  lemma {:induction false} InvForever(s: Fixed, ops: seq<Op>)
    requires Inv(s) && Legal(s, ops)
    ensures var s' := Run(s, ops);
            && Inv(s') && s'.size == s.size
            && UsedBytes(s') >= Total(RegionsOf(s'.live)) && FreeBytes(s') >= 0
            && UsedBytes(s') + FreeBytes(s') == s.size
    decreases |ops|
  {
    hide Disjoint, Serves, Step;
    if ops == [] {
      assert forall i, r | 0 <= i < CLASSES && r in s.lists[i] :: Serves(r, i);
      PooledWithin(s.lists);
    } else {
      StepKeepsInv(s, ops[0]);
      InvForever(Step(s, ops[0]), ops[1..]);
    }
  }

  lemma {:induction false} BlockSizeIsPow2(i: nat)
    requires i < CLASSES
    ensures BlockSize(i) == Pow2(i + 3)
  {
    if i == 0 {
      assert Pow2(3) == 8;
    } else {
      BlockSizeIsPow2(i - 1);
    }
  }

  /** The larger of two powers of two is a multiple of the smaller. */
  lemma {:induction false} Pow2Divides(a: nat, j: nat, k: nat)
    requires j <= k && a % Pow2(k) == 0
    ensures a % Pow2(j) == 0
  {
    Pow2Sum(k - j, j);
    var q := a / Pow2(k);
    assert a == q * Pow2(k) == (q * Pow2(k - j)) * Pow2(j);
    DivModUnique(a, Pow2(j), q * Pow2(k - j), 0);
  }

  lemma {:induction false} Pow2Monotone(j: nat, k: nat)
    requires Pow2(j) <= Pow2(k)
    ensures j <= k
    decreases j
  {
    if k == 0 {
    } else if j > 0 {
      Pow2Monotone(j - 1, k - 1);
    }
  }

  /** Every block handed out, from a list or from the fallback heap, meets its layout. */
  lemma {:induction false} BlockMeetsLayout(s: Fixed, layout: Layout, answer: Option<Region>)
    requires Inv(s) && ValidLayout(layout) && Sensible(s, Allocate(layout, answer))
    requires Step(s, Allocate(layout, answer)) != s
    ensures var s' := Step(s, Allocate(layout, answer));
            && |s'.live| == |s.live| + 1
            && s'.live[|s.live|].index == ListIndex(layout)
            && s'.live[|s.live|].region.size >= layout.size
            && s'.live[|s.live|].region.start % layout.align == 0
  {
    hide Disjoint, Pooled, Total, Flat, RegionsOf, Pow2;
    var i, s' := ListIndex(layout), Step(s, Allocate(layout, answer));
    var r := s'.live[|s.live|].region;
    if i < CLASSES {
      if s.lists[i] != [] { assert s.lists[i][0] in s.lists[i]; }
      assert Serves(r, i);
      var j: nat :| j < 64 && Pow2(j) == layout.align;
      BlockSizeIsPow2(i);
      Pow2Monotone(j, i + 3);
      Pow2Divides(r.start, j, i + 3);
    }
  }

  // ---- What one call does

  const SIZES: seq<nat> := [8, 16, 32, 64, 128, 256, 512, 1024, 2048]

  /** Class `i` is the first whose blocks are as large and as aligned as asked for; 9 stands for none. */
  predicate IsClass(layout: Layout, i: nat) {
    && i <= 9
    && (i < 9 ==> SIZES[i] >= layout.size && SIZES[i] >= layout.align)
    && forall j | 0 <= j < i :: SIZES[j] < layout.size || SIZES[j] < layout.align
  }

  lemma {:induction false} BlockSizes()
    ensures forall i | 0 <= i < 9 :: BlockSize(i) == SIZES[i]
  {
    assert BlockSize(3) == 64;
    assert BlockSize(6) == 512;
  }

  lemma {:induction false} ClassIsIndex(layout: Layout, i: nat)
    requires IsClass(layout, i)
    ensures ListIndex(layout) == i
  {
    hide BlockSize, ListIndexFrom;
    BlockSizes();
    var k := ListIndexFrom(Required(layout), 0);
    assert forall j | 0 <= j < k :: SIZES[j] == BlockSize(j);
    assert i < 9 ==> BlockSize(i) >= Required(layout);
    assert k < 9 ==> SIZES[k] >= Required(layout);
  }

  /**
   What an allocation does, told from the lists alone: it takes the first block of the list
   of its class, whatever the fallback heap would answer; only if that list is empty, or
   there is no class, it gives out what the fallback heap grants, if that grants anything.
   */
  lemma {:induction false} AllocOutcome(s: Fixed, layout: Layout, answer: Option<Region>, i: nat)
    requires Inv(s) && IsClass(layout, i)
    ensures |s.lists| == 9
    ensures ListIndex(layout) < CLASSES && s.lists[ListIndex(layout)] != [] ==>
              s.blockFree >= BlockSize(ListIndex(layout))
    ensures Sensible(s, Allocate(layout, answer)) ==>
              Step(s, Allocate(layout, answer)) == Alloc(s, layout, answer).0
    ensures var (s', ptr) := Alloc(s, layout, answer);
            && s'.start == s.start && s'.size == s.size
            && if i < 9 && s.lists[i] != [] then
                 && ptr == s.lists[i][0].start && s'.live == s.live + [Used(s.lists[i][0], i)]
                 && s'.lists == s.lists[i := s.lists[i][1..]]
                 && s'.blockFree == s.blockFree - SIZES[i] && s'.used == s.used
               else
                 && s'.lists == s.lists && s'.blockFree == s.blockFree
                 && ptr == (if answer.Some? then answer.value.start else 0)
                 && s'.live == s.live + (if answer.Some? then [Used(answer.value, i)] else [])
                 && s'.used == s.used + if answer.Some? then answer.value.size else 0
  {
    hide BlockSize, ListIndexFrom, Disjoint, Serves, Pooled, Total, Flat, RegionsOf;
    BlockSizes();
    ClassIsIndex(layout, i);
    if i < 9 && s.lists[i] != [] {
      CounterCovers(s, i);
    }
  }

  /**
   What a free does: a block of a class becomes the first of its list, and of the bytes in
   use those of a block of the class are free again; any other block goes back to the
   fallback heap.
   */
  lemma {:induction false} FreeOutcome(s: Fixed, k: nat, layout: Layout, i: nat)
    requires Inv(s) && k < |s.live| && IsClass(layout, i) && s.live[k].index == i
    ensures |s.lists| == 9 && Sensible(s, Free(k, layout))
    ensures var s' := Step(s, Free(k, layout));
            && s'.live == s.live[..k] + s.live[k + 1..]
            && if i < 9 then
                 && s'.lists == s.lists[i := [s.live[k].region] + s.lists[i]] && s'.used == s.used
                 && UsedBytes(s') == UsedBytes(s) - SIZES[i] && FreeBytes(s') == FreeBytes(s) + SIZES[i]
               else
                 && s'.lists == s.lists && s'.used == s.used - s.live[k].region.size
                 && UsedBytes(s') == UsedBytes(s) - s.live[k].region.size
                 && FreeBytes(s') == FreeBytes(s) + s.live[k].region.size
  {
    hide BlockSize, ListIndexFrom, Disjoint, Serves, Pooled, Total, Flat, RegionsOf;
    BlockSizes();
    ClassIsIndex(layout, i);
  }

  /** The operation is on another class. */
  predicate Elsewhere(op: Op, i: nat) {
    ListIndex(op.layout) != i
  }

  /**
   The block that was freed last in a class is the next one handed out for it, whatever
   happens in other classes in between, and whatever the fallback heap answers.
   */
  lemma {:induction false} FreedIsNext(s: Fixed, k: nat, layout: Layout, ops: seq<Op>, next: Layout,
                                       answer: Option<Region>, i: nat)
    requires Inv(s) && k < |s.live| && i < 9 && IsClass(layout, i) && IsClass(next, i) && s.live[k].index == i
    requires Sensible(s, Free(k, layout)) && Inv(Step(s, Free(k, layout)))
    requires Legal(Step(s, Free(k, layout)), ops) && forall op | op in ops :: Elsewhere(op, i)
    ensures var s' := Run(Step(s, Free(k, layout)), ops);
            && |s'.lists| == CLASSES && ListIndex(next) == i && s'.lists[i] != [] && s'.blockFree >= BlockSize(i)
            && Alloc(s', next, answer).1 == s.live[k].region.start
            && |Alloc(s', next, answer).0.live| == |s'.live| + 1
            && Alloc(s', next, answer).0.live[|s'.live|] == Used(s.live[k].region, i)
  {
    hide BlockSize, ListIndexFrom, Disjoint, Serves, Pooled, Total, Flat, RegionsOf, Step, Run, Alloc, Inv;
    var s1 := Step(s, Free(k, layout));
    FreeOutcome(s, k, layout, i);
    InvForever(s1, ops);
    HasLists(s1);
    ListUntouched(s1, ops, i);
    HasLists(Run(s1, ops));
    ClassIsIndex(next, i);
    AllocOutcome(Run(s1, ops), next, answer, i);
  }

  lemma {:induction false} HasLists(s: Fixed)
    requires Inv(s)
    ensures |s.lists| == CLASSES
  {
  }

  lemma {:induction false} ListUntouched(s: Fixed, ops: seq<Op>, i: nat)
    requires Inv(s) && Legal(s, ops) && i < CLASSES && forall op | op in ops :: Elsewhere(op, i)
    ensures Inv(Run(s, ops)) && |s.lists| == CLASSES && |Run(s, ops).lists| == CLASSES
    ensures Run(s, ops).lists[i] == s.lists[i]
    decreases |ops|
  {
    hide BlockSize, ListIndexFrom, Disjoint, Serves, Pooled, Total, Flat, RegionsOf;
    if ops != [] {
      StepKeepsInv(s, ops[0]);
      StepElsewhere(s, ops[0], i);
      ListUntouched(Step(s, ops[0]), ops[1..], i);
    }
  }

  lemma {:induction false} StepElsewhere(s: Fixed, op: Op, i: nat)
    requires Inv(s) && Sensible(s, op) && i < CLASSES && Elsewhere(op, i)
    ensures |s.lists| == CLASSES && |Step(s, op).lists| == CLASSES && Step(s, op).lists[i] == s.lists[i]
  {
    hide BlockSize, ListIndexFrom, Disjoint, Serves, Pooled, Total, Flat, RegionsOf, Grants;
  }
}
