/**
 The address spaces of the kernel as a transition system. Every space has a level-4 table
 of its own; its upper half is copied, entry by entry, from the space it was created in,
 so that the kernel's tables are shared, and its lower half is private. Nothing keeps a
 space from mapping pages in its upper half.
 */
module AddressSpaces {
  import opened PageTables
  import opened Sequences
  import opened Mapper
  import opened SpaceMapper
  import opened FreeOrder
  import opened UpperHalves

  /**
   `pool` are the frames the frame allocator can hand out, `kernel` the level-4 table the
   kernel booted with, `live` the level-4 tables of the spaces made since. `base` is
   auxiliary: the tables that belong to no space alone, those there were before the first
   space and those made in upper halves since.
   */
  datatype State = State(mem: Memory, pool: seq<Frame>, kernel: Frame, live: set<Frame>, base: set<Frame>)

  datatype Op =
    | Create(from: Frame)
    | TakeFrame
    | Map(root: Frame, page: seq<Index>, leaf: Entry, parent: set<Flag>)
    | Drop(root: Frame)

  /** The table frames that belong to one space alone. */
  ghost function Private(mem: Memory, root: Frame): set<Frame> {
    Frames(mem, root, 0, 256)
  }

  ghost predicate Space(mem: Memory, base: set<Frame>, root: Frame) {
    Part(mem, root, 0, 256) && Upper(mem, root) <= base
  }

  ghost predicate Inv(s: State) {
    && s.kernel in s.base
    && s.base <= s.mem.Keys
    && Upper(s.mem, s.kernel) <= s.base
    && Fresh(s.mem, s.pool)
    && (forall r | r in s.live :: Space(s.mem, s.base, r))
    && (forall r | r in s.live :: Private(s.mem, r) !! s.base)
    && (forall r, q | r in s.live && q in s.live && r != q :: Private(s.mem, r) !! Private(s.mem, q))
    && forall f | f in s.mem && f !in s.base :: Owner(s, f)
  }

  /** The level-4 tables. */
  ghost function Roots(s: State): set<Frame> {
    s.live + {s.kernel}
  }

  /** Every space has the upper entries of the kernel. */
  ghost predicate Shares(s: State) {
    forall r, i | r in s.live && 256 <= i < 512 :: SameEntry(s.mem, s.kernel, r, i)
  }

  ghost predicate SameEntry(mem: Memory, kernel: Frame, r: Frame, i: nat)
    requires i < 512
  {
    kernel in mem && r in mem && mem[r][i] == mem[kernel][i]
  }

  /** No table frame is forgotten: it belongs to a live space. */
  ghost predicate Owner(s: State, f: Frame) {
    exists r :: r in s.live && f in Private(s.mem, r)
  }

  /** The first half is unused, the second is that of `t`. */
  function HalfCopy(t: Table): (c: Table)
    ensures forall i | 0 <= i < 256 :: c[i] == UNUSED
    ensures forall i | 256 <= i < 512 :: c[i] == t[i]
  {
    Zeroed()[..256] + t[256..]
  }

  ghost function Step(s: State, op: Op): State
    requires Inv(s)
  {
    match op
    case Create(from) =>
      if (from != s.kernel && from !in s.live) || s.pool == [] then s
      else s.(mem := s.mem[s.pool[0] := HalfCopy(s.mem[from])], pool := s.pool[1..], live := s.live + {s.pool[0]})
    case TakeFrame =>
      if s.pool == [] then s else s.(pool := s.pool[1..])
    case Map(root, page, leaf, parent) =>
      if root !in s.live || !MayMap(page, 0, 512, leaf, parent) then s
      else if page[0] < 256 then
        var m := MapPage(s.mem, s.pool, root, 0, 256, page, leaf, parent);
        s.(mem := m.mem, pool := m.pool)
      else if Uppers(s.mem, Roots(s)) then
        var m := After(s.mem, s.pool, root, page, leaf, parent);
        UpperAfter(s.mem, s.pool, Roots(s), root, page, leaf, parent, root);
        s.(mem := m.mem, pool := m.pool, base := s.base + TakenFrames(s.pool, m.pool))
      else s
    case Drop(root) =>
      if root !in s.live then s
      else s.(mem := s.mem - Private(s.mem, root),
              pool := s.pool + DropOrder(s.mem, root),
              live := s.live - {root})
  }

  /** The frames that dropping a space hands back, in that order. */
  ghost function DropOrder(mem: Memory, root: Frame): seq<Frame>
    requires root in mem
  {
    FreedBy(mem, mem[root], 256, 4) + [root]
  }

  /** Dropping a space hands back its own table frames, each once, and no other frame. */
  lemma {:induction false} DropFrees(mem: Memory, root: Frame)
    requires Part(mem, root, 0, 256)
    ensures NoDuplicates(DropOrder(mem, root))
    ensures Elements(DropOrder(mem, root)) == Private(mem, root)
  {
    var below := FreedBy(mem, mem[root], 256, 4);
    FreedByExactly(mem, mem[root], 256, 4);
    assert root !in Elements(below);
    NoDuplicatesConcat(below, [root]);
    ElementsOfConcat(below, [root]);
  }

  /** Dropping a space hands a table back only after every table it leads to. */
  lemma {:induction false} DropChildrenFirst(mem: Memory, root: Frame, i: nat, parent: Frame, child: Frame)
    requires root in mem && i < 256 && Edge(parent, child) in Edges(mem, mem[root][i], 4)
    ensures Before(DropOrder(mem, root), child, parent)
  {
    hide Edges, Freed;
    ChildrenFirst(mem, mem[root][i], 4, parent, child);
    var a, b := FreedByPart(mem, mem[root], i, 256, 4);
    BeforeExtended(a, Freed(mem, mem[root][i], 4), b + [root], child, parent);
    assert DropOrder(mem, root) == a + Freed(mem, mem[root][i], 4) + (b + [root]);
  }

  lemma {:induction false} SpaceFraming(mem: Memory, mem': Memory, base: set<Frame>, root: Frame)
    requires Space(mem, base, root)
    requires Same(mem, mem', base) && Same(mem, mem', Private(mem, root))
    ensures Space(mem', base, root)
    ensures Private(mem', root) == Private(mem, root)
  {
    hide OwnedBy, Trees, Clean;
    PartFraming(mem, mem', root, 0, 256);
    OwnedByFraming(mem, mem', mem[root], 256, 512, 4);
  }

  /**
   A change to memory that keeps the shared tables and the tables of every space in
   `kept` keeps those spaces.
   */
  lemma {:induction false} KeptSpaces(s: State, mem': Memory, kept: set<Frame>)
    requires Inv(s) && kept <= s.live
    requires Same(s.mem, mem', s.base)
    requires forall r | r in kept :: Same(s.mem, mem', Private(s.mem, r))
    ensures Upper(mem', s.kernel) == Upper(s.mem, s.kernel)
    ensures forall r | r in kept :: Space(mem', s.base, r) && Private(mem', r) == Private(s.mem, r)
  {
    hide Owned, OwnedBy, Trees, Clean, Part, Private;
    OwnedByFraming(s.mem, mem', s.mem[s.kernel], 256, 512, 4);
    forall r | r in kept ensures Space(mem', s.base, r) && Private(mem', r) == Private(s.mem, r) {
      SpaceFraming(s.mem, mem', s.base, r);
    }
  }

  /** Only the space `r` was made, changed or dropped. */
  ghost predicate Only(s: State, s': State, r: Frame) {
    && s'.kernel == s.kernel && s'.base == s.base
    && (forall q | q != r :: q in s'.live <==> q in s.live)
    && Same(s.mem, s'.mem, s.base)
    && forall q | q in s.live && q != r :: Same(s.mem, s'.mem, Private(s.mem, q))
  }

  ghost predicate OwnedByOther(s: State, r: Frame, f: Frame) {
    exists q :: q in s.live && q != r && f in Private(s.mem, q)
  }

  lemma {:induction false} Reestablish(s: State, s': State, r: Frame)
    requires Inv(s) && Only(s, s', r)
    requires Fresh(s'.mem, s'.pool)
    requires r in s'.live ==>
               && Space(s'.mem, s.base, r)
               && Private(s'.mem, r) !! s.base
               && forall q | q in s.live && q != r :: Private(s'.mem, r) !! Private(s.mem, q)
    requires forall f | f in s'.mem && f !in s.base ::
               (r in s'.live && f in Private(s'.mem, r)) || OwnedByOther(s, r, f)
    ensures Inv(s')
  {
    hide Owned, OwnedBy, Tree, Trees, Clean, Space, Private;
    var kept := s.live - {r};
    KeptSpaces(s, s'.mem, kept);
    forall q | q in s'.live ensures Space(s'.mem, s'.base, q) {
      assert q == r || q in kept;
    }
    forall q | q in s'.live ensures Private(s'.mem, q) !! s'.base {
      assert q == r || q in kept;
    }
    forall q, p | q in s'.live && p in s'.live && q != p
      ensures Private(s'.mem, q) !! Private(s'.mem, p)
    {
      assert q == r || q in kept;
      assert p == r || p in kept;
    }
    forall f | f in s'.mem && f !in s'.base ensures Owner(s', f) {
      if !(r in s'.live && f in Private(s'.mem, r)) {
        assert OwnedByOther(s, r, f);
        var q :| q in s.live && q != r && f in Private(s.mem, q);
        assert q in kept && q in s'.live && f in Private(s'.mem, q);
      }
    }
  }

  lemma {:induction false} FindOwner(s: State, r: Frame, f: Frame)
    requires Inv(s) && f in s.mem && f !in s.base
    ensures (r in s.live && f in Private(s.mem, r)) || OwnedByOther(s, r, f)
  {
  }

  lemma {:induction false} AllInMemory(s: State)
    requires Inv(s)
    ensures forall q | q in s.live :: q in s.mem && Private(s.mem, q) <= s.mem.Keys
  {
    hide OwnedBy, Trees, Clean;
    forall q | q in s.live ensures q in s.mem && Private(s.mem, q) <= s.mem.Keys {
      assert Space(s.mem, s.base, q);
      FramesInMemory(s.mem, q, 0, 256);
    }
  }

  lemma {:induction false} CreatedSpace(mem: Memory, base: set<Frame>, from: Frame, root: Frame)
    requires from in mem && root in mem && Upper(mem, from) <= base
    requires forall i | 0 <= i < 256 :: mem[root][i] == UNUSED
    requires forall i | 256 <= i < 512 :: mem[root][i] == mem[from][i]
    ensures Space(mem, base, root)
    ensures Private(mem, root) == {root}
  {
    assert Upper(mem, root) == Upper(mem, from);
  }

  lemma {:induction false} CreateKeepsInv(s: State, from: Frame)
    requires Inv(s)
    ensures Inv(Step(s, Create(from)))
  {
    hide Owned, OwnedBy, Tree, Trees, Clean, Part, Private, FreedBy;
    var s' := Step(s, Create(from));
    if s' != s {
      var r := s.pool[0];
      AllInMemory(s);
      assert r !in s.mem;
      FromInMemory(s, from);
      OwnedByFraming(s.mem, s'.mem, s.mem[from], 256, 512, 4);
      CreatedSpace(s'.mem, s.base, from, r);
      assert Fresh(s'.mem, s'.pool);
      forall f | f in s'.mem && f !in s.base && f != r ensures OwnedByOther(s, r, f) {
        FindOwner(s, r, f);
      }
      Reestablish(s, s', r);
    }
  }

  lemma {:induction false} FromInMemory(s: State, from: Frame)
    requires Inv(s) && from in Roots(s)
    ensures from in s.mem && Upper(s.mem, from) <= s.base
  {
    assert from != s.kernel ==> Space(s.mem, s.base, from);
  }

  lemma {:induction false} MapLowerKeepsInv(s: State, root: Frame, page: seq<Index>, leaf: Entry, parent: set<Flag>)
    requires Inv(s) && root in s.live && MayMap(page, 0, 256, leaf, parent)
    ensures Inv(Step(s, Map(root, page, leaf, parent)))
  {
    hide Owned, OwnedBy, Tree, Trees, Clean, Part, Frames, FreedBy, MapPage, Uppers;
    var s' := Step(s, Map(root, page, leaf, parent));
    assert Space(s.mem, s.base, root);
    MapPageExtends(s.mem, s.pool, root, 0, 256, page, leaf, parent);
    MapPageKeepsPart(s.mem, s.pool, root, 0, 256, page, leaf, parent);
    AllInMemory(s);
    forall f | f in s'.mem && f !in s.base
      ensures f in Private(s'.mem, root) || OwnedByOther(s, root, f)
    {
      if f in s.mem { FindOwner(s, root, f); }
    }
    LowerKeepsUpper(s.mem, s'.mem, root, s.base);
    Reestablish(s, s', root);
  }

  lemma {:induction false} LowerKeepsUpper(mem: Memory, mem': Memory, root: Frame, base: set<Frame>)
    requires root in mem && root in mem' && Upper(mem, root) <= base && Same(mem, mem', base)
    requires forall i | 256 <= i < 512 :: mem'[root][i] == mem[root][i]
    ensures Upper(mem', root) == Upper(mem, root)
  {
    hide Owned;
    OwnedByFraming(mem, mem', mem[root], 256, 512, 4);
  }

  // ---- Mapping in the upper half

  /** The step maps a page of an upper half. */
  predicate InUpper(op: Op) {
    op.Map? && |op.page| == 4 && op.page[0] >= 256
  }

  /** Such a step is made by a live space, over upper halves that are trees. */
  ghost predicate MapsInUpper(s: State, op: Op) {
    && InUpper(op) && op.root in s.live && MayMap(op.page, 256, 512, op.leaf, op.parent)
    && Uppers(s.mem, Roots(s))
  }

  /** It changes no lower-half table, except that a level-4 table holds both halves. */
  lemma {:induction false} UpperKeepsLower(s: State, op: Op, q: Frame)
    requires Inv(s) && MapsInUpper(s, op) && q in s.live
    ensures var s' := Step(s, op);
            && Part(s'.mem, q, 0, 256) && Private(s'.mem, q) == Private(s.mem, q)
            && Same(s.mem, s'.mem, Private(s.mem, q) - {op.root})
            && q in s.mem && q in s'.mem && s'.mem[q][..256] == s.mem[q][..256]
  {
    hide Owned, OwnedBy, Tree, Trees, Clean, MapPage, Meet, Uppers, Upper, Part, After;
    UpperPart(s, op);
    SpaceFacts(s, op.root);
    SpaceFacts(s, q);
    OthersAfter(s.mem, s.pool, Roots(s), op.root, op.page, op.leaf, op.parent, Private(s.mem, q));
    var m := After(s.mem, s.pool, op.root, op.page, op.leaf, op.parent);
    assert Step(s, op).mem == m.mem;
    assert q != op.root ==> Private(s.mem, q) !! Private(s.mem, op.root);
    assert Same(s.mem, m.mem, Private(s.mem, q) - {q});
    forall i | 0 <= i < 256 ensures m.mem[q][i] == s.mem[q][i] {
      if q == op.root { assert m.mem[q][..256][i] == s.mem[q][..256][i]; }
    }
    LowerPartFraming(s.mem, m.mem, q);
  }

  lemma {:induction false} UpperPart(s: State, op: Op)
    requires MapsInUpper(s, op)
    ensures Part(s.mem, op.root, 256, 512)
  {
    hide Part, Meet, Upper;
  }

  lemma {:induction false} SpaceFacts(s: State, q: Frame)
    requires Inv(s) && q in s.live
    ensures Part(s.mem, q, 0, 256) && Upper(s.mem, q) <= s.base
    ensures q in s.mem && q in Private(s.mem, q) && Private(s.mem, q) <= s.mem.Keys
    ensures Private(s.mem, q) - {q} == OwnedBy(s.mem, s.mem[q], 0, 256, 4)
    ensures Private(s.mem, q) !! s.base
  {
    hide OwnedBy, Trees, Clean;
    assert Space(s.mem, s.base, q);
    FramesInMemory(s.mem, q, 0, 256);
  }

  lemma {:induction false} LowerPartFraming(mem: Memory, mem': Memory, q: Frame)
    requires Part(mem, q, 0, 256) && q in mem'
    requires Same(mem, mem', OwnedBy(mem, mem[q], 0, 256, 4))
    requires forall i | 0 <= i < 256 :: mem'[q][i] == mem[q][i]
    ensures Part(mem', q, 0, 256) && Frames(mem', q, 0, 256) == Frames(mem, q, 0, 256)
  {
    hide Owned, Tree, Clean;
    TreesFraming(mem, mem', mem[q], 0, 256, 4);
    forall i | 0 <= i < 256
      ensures Clean(mem', mem'[q][i], 4) && Tree(mem', mem'[q][i], 4)
      ensures Owned(mem', mem'[q][i], 4) == Owned(mem, mem[q][i], 4)
    {
      assert Owned(mem, mem[q][i], 4) <= OwnedBy(mem, mem[q], 0, 256, 4);
      OwnedFraming(mem, mem', mem[q][i], 4);
      TreeFraming(mem, mem', mem[q][i], 4);
      CleanFraming(mem, mem', mem[q][i], 4);
    }
  }

  lemma {:induction false} MapUpperKeepsInv(s: State, op: Op)
    requires Inv(s) && MapsInUpper(s, op)
    ensures Inv(Step(s, op)) && Uppers(Step(s, op).mem, Roots(s))
  {
    hide Owned, OwnedBy, Tree, Trees, Clean, Part, Frames, MapPage, Meet, Uppers, Private, Upper;
    var s', roots := Step(s, op), Roots(s);
    EntryAfter(s.mem, s.pool, roots, op.root, op.page, op.leaf, op.parent);
    MapKeepsUppers(s.mem, s.pool, roots, op.root, op.page, op.leaf, op.parent);
    AllInMemory(s);
    UpperAfter(s.mem, s.pool, roots, op.root, op.page, op.leaf, op.parent, s.kernel);
    forall q | q in s.live
      ensures Space(s'.mem, s'.base, q) && Private(s'.mem, q) == Private(s.mem, q) && Private(s.mem, q) !! s'.base
    {
      assert Space(s.mem, s.base, q);
      UpperKeepsLower(s, op, q);
      UpperAfter(s.mem, s.pool, roots, op.root, op.page, op.leaf, op.parent, q);
    }
    forall f | f in s'.mem && f !in s'.base ensures Owner(s', f) {
      assert Owner(s, f);
      var q :| q in s.live && f in Private(s.mem, q);
      assert f in Private(s'.mem, q);
    }
  }

  lemma {:induction false} MapKeepsInv(s: State, root: Frame, page: seq<Index>, leaf: Entry, parent: set<Flag>)
    requires Inv(s)
    ensures Inv(Step(s, Map(root, page, leaf, parent)))
  {
    hide Owned, OwnedBy, Tree, Trees, Clean, Part, Frames, FreedBy, MapPage, Uppers, Upper;
    var op := Map(root, page, leaf, parent);
    if root in s.live && MayMap(page, 0, 256, leaf, parent) {
      MapLowerKeepsInv(s, root, page, leaf, parent);
    } else if MapsInUpper(s, op) {
      MapUpperKeepsInv(s, op);
    }
  }

  lemma {:induction false} DropKeepsInv(s: State, root: Frame)
    requires Inv(s)
    ensures Inv(Step(s, Drop(root)))
  {
    hide Owned, OwnedBy, Tree, Trees, Clean, Part, Frames, DropOrder;
    if root in s.live {
      var s' := Step(s, Drop(root));
      assert Space(s.mem, s.base, root);
      DropFrees(s.mem, root);
      AllInMemory(s);
      forall q | q in s.live && q != root ensures Same(s.mem, s'.mem, Private(s.mem, q)) {
        assert Private(s.mem, q) !! Private(s.mem, root);
      }
      forall f | f in s'.mem && f !in s.base ensures OwnedByOther(s, root, f) {
        FindOwner(s, root, f);
      }
      NoDuplicatesConcat(s.pool, DropOrder(s.mem, root));
      Reestablish(s, s', root);
    }
  }

  lemma {:induction false} StepKeepsInv(s: State, op: Op)
    requires Inv(s)
    ensures Inv(Step(s, op))
  {
    match op
    case Create(from) => CreateKeepsInv(s, from);
    case TakeFrame =>
      hide Owned, OwnedBy, Tree, Trees, Clean, Space, Frames;
      assert Fresh(s.mem, s.pool) && forall q | q in s.live :: Space(s.mem, s.base, q);
    case Map(root, page, leaf, parent) => MapKeepsInv(s, root, page, leaf, parent);
    case Drop(root) => DropKeepsInv(s, root);
  }

  predicate Targets(op: Op, root: Frame) {
    (op.Map? || op.Drop?) && op.root == root
  }

  /**
   A step leaves the tables alone that belong to a space it does not name; and those of the
   kernel, unless it maps in an upper half.
   */
  lemma {:induction false} StepKeepsOthers(s: State, op: Op, q: Frame)
    requires Inv(s) && !Targets(op, q)
    ensures !InUpper(op) ==> Same(s.mem, Step(s, op).mem, s.base) && Step(s, op).base == s.base
    ensures q in s.live ==> q in Step(s, op).live && Same(s.mem, Step(s, op).mem, Private(s.mem, q))
  {
    hide Owned, OwnedBy, Tree, Trees, Clean, Part, Frames, MapPage, DropOrder, Uppers, Upper;
    AllInMemory(s);
    if op.Map? && op.root in s.live && MayMap(op.page, 0, 256, op.leaf, op.parent) {
      assert Space(s.mem, s.base, op.root);
      MapPageExtends(s.mem, s.pool, op.root, 0, 256, op.page, op.leaf, op.parent);
      assert Private(s.mem, op.root) !! s.base;
      assert q in s.live ==> Private(s.mem, op.root) !! Private(s.mem, q);
    } else if MapsInUpper(s, op) && q in s.live {
      UpperKeepsLower(s, op, q);
      assert Private(s.mem, op.root) !! Private(s.mem, q);
      RootIsPrivate(s, op.root);
    }
  }

  lemma {:induction false} RootIsPrivate(s: State, r: Frame)
    requires Inv(s) && r in s.live
    ensures r in Private(s.mem, r)
  {
    assert Space(s.mem, s.base, r);
  }

  /** No step but one that maps in an upper half changes where an upper-half address of the kernel leads. */
  lemma {:induction false} StepKeepsKernel(s: State, op: Op, page: seq<Index>)
    requires Inv(s) && !InUpper(op) && |page| == 4 && page[0] >= 256
    ensures Walk(Step(s, op).mem, s.kernel, page) == Walk(s.mem, s.kernel, page)
  {
    hide Trees, Tree, Clean, Space, MapPage, DropOrder, Uppers;
    var other: Frame := if op.Map? || op.Drop? then op.root + 1 else 0;
    StepKeepsOthers(s, op, other);
    assert Owned(s.mem, s.mem[s.kernel][page[0]], 4) <= OwnedBy(s.mem, s.mem[s.kernel], 256, 512, 4);
    TranslateFraming(s.mem, Step(s, op).mem, s.mem[s.kernel][page[0]], 4, page[1..]);
  }

  /**
   A step on one space changes no lower-half translation in another, nor an upper-half one,
   unless it maps there.
   */
  lemma {:induction false} StepIsolates(s: State, op: Op, q: Frame, page: seq<Index>)
    requires Inv(s) && q in s.live && !Targets(op, q) && |page| == 4
    requires page[0] < 256 || !InUpper(op)
    ensures q in Step(s, op).live
    ensures Walk(Step(s, op).mem, q, page) == Walk(s.mem, q, page)
  {
    hide Owned, OwnedBy, Trees, Tree, Clean, MapPage, DropOrder, Translate, Uppers;
    StepKeepsOthers(s, op, q);
    assert Space(s.mem, s.base, q);
    RootIsPrivate(s, q);
    if page[0] < 256 {
      WalkFraming(s.mem, Step(s, op).mem, q, 0, 256, page);
    } else {
      WalkFraming(s.mem, Step(s, op).mem, q, 256, 512, page);
    }
  }

  /** Every live space translates an upper-half address as the kernel does. */
  lemma {:induction false} SharesUpperHalf(s: State, q: Frame, page: seq<Index>)
    requires Inv(s) && Shares(s) && q in s.live && |page| == 4 && page[0] >= 256
    ensures Walk(s.mem, q, page) == Walk(s.mem, s.kernel, page)
  {
    hide Inv, Translate;
    assert SameEntry(s.mem, s.kernel, q, page[0]);
  }

  lemma {:induction false} StepKeepsShares(s: State, op: Op)
    requires Inv(s) && Shares(s) && !InUpper(op)
    ensures Shares(Step(s, op))
  {
    hide Owned, OwnedBy, Tree, Trees, Clean, Part, Frames, MapPage, DropOrder, Uppers, Upper;
    var s' := Step(s, op);
    AllInMemory(s);
    StepKeepsInv(s, op);
    AllInMemory(s');
    var other: Frame := if op.Map? || op.Drop? then op.root + 1 else 0;
    StepKeepsOthers(s, op, other);
    forall r, i | r in s'.live && 256 <= i < 512 ensures SameEntry(s'.mem, s'.kernel, r, i) {
      if r in s.live {
        assert SameEntry(s.mem, s.kernel, r, i);
        RootIsPrivate(s, r);
        if op.Map? && op.root == r {
          assert Space(s.mem, s.base, r);
          if MayMap(op.page, 0, 256, op.leaf, op.parent) {
            MapPageExtends(s.mem, s.pool, r, 0, 256, op.page, op.leaf, op.parent);
          }
        } else {
          StepKeepsOthers(s, op, r);
        }
      } else {
        assert op.Create? && r == s.pool[0];
        assert op.from in s.live ==> SameEntry(s.mem, s.kernel, op.from, i);
        assert s.kernel != r;
      }
    }
  }

  /** The upper halves are trees that meet nowhere or in whole level-3 tables. */
  ghost predicate UpperTrees(s: State) {
    Uppers(s.mem, Roots(s))
  }

  /** The upper entries of a space, after a step that maps in no upper half, are those of a space before. */
  lemma {:induction false} StepCopies(s: State, op: Op, r: Frame)
    requires Inv(s) && !InUpper(op) && r in Roots(Step(s, op))
    ensures Origin(s.mem, Step(s, op).mem, Roots(s), r)
    ensures r in Roots(s) || r !in s.mem
  {
    hide Owned, OwnedBy, Tree, Trees, Clean, Part, Frames, MapPage, DropOrder, Uppers, Upper, Private;
    var s' := Step(s, op);
    AllInMemory(s);
    var other: Frame := if op.Map? || op.Drop? then op.root + 1 else 0;
    StepKeepsOthers(s, op, other);
    if r in Roots(s) {
      FromInMemory(s, r);
      if r in s.live { RootIsPrivate(s, r); }
      if op.Map? && op.root == r && r in s.live && MayMap(op.page, 0, 256, op.leaf, op.parent) {
        assert Space(s.mem, s.base, r);
        MapPageExtends(s.mem, s.pool, r, 0, 256, op.page, op.leaf, op.parent);
      } else if r in s.live {
        StepKeepsOthers(s, op, if op.Map? && op.root == r then r + 1 else r);
      }
      assert Copied(s.mem, s'.mem, r, r);
    } else {
      FromInMemory(s, op.from);
      assert Copied(s.mem, s'.mem, op.from, r);
    }
  }

  lemma {:induction false} StepKeepsUpperTrees(s: State, op: Op)
    requires Inv(s) && UpperTrees(s)
    ensures UpperTrees(Step(s, op))
  {
    hide Owned, OwnedBy, Tree, Trees, Clean, Part, Frames, MapPage, DropOrder, Uppers, Upper, Private, Origin;
    if MapsInUpper(s, op) {
      MapUpperKeepsInv(s, op);
    } else if !InUpper(op) {
      var s' := Step(s, op);
      forall r | r in Roots(s') ensures Origin(s.mem, s'.mem, Roots(s), r) {
        StepCopies(s, op, r);
      }
      forall r, q | r in Roots(s') && q in Roots(s) ensures r !in Upper(s.mem, q) {
        StepCopies(s, op, r);
        FromInMemory(s, q);
        NoRootBelow(s, r, q);
      }
      UppersFraming(s.mem, Roots(s), s'.mem, Roots(s'));
    }
  }

  lemma {:induction false} NoRootBelow(s: State, r: Frame, q: Frame)
    requires UpperTrees(s) && q in Roots(s) && (r in Roots(s) || r !in s.mem)
    requires Upper(s.mem, q) <= s.base <= s.mem.Keys
    ensures r !in Upper(s.mem, q)
  {
    hide Upper, Part, Meet;
  }

  // ---- What such a step does to the others

  ghost function ResultOf(s: State, op: Op): MapResult
    requires MapsInUpper(s, op)
  {
    UpperPart(s, op);
    After(s.mem, s.pool, op.root, op.page, op.leaf, op.parent).result
  }

  /** The space is the one that maps, or its entry leads to the same level-3 table. */
  predicate Concerns(s: State, op: Op, q: Frame)
    requires InUpper(op) && op.root in s.mem && q in s.mem
  {
    Linked(s.mem, op.root, q, op.page[0])
  }

  /**
   Mapping a page of an upper half maps it in every space whose entry leads to the same
   level-3 table; no other walk ends elsewhere, and none in a lower half.
   */
  lemma {:induction false} UpperStepWalks(s: State, op: Op, q: Frame, p: seq<Index>)
    requires Inv(s) && MapsInUpper(s, op) && q in Roots(s) && |p| == 4
    ensures q in s.mem && op.root in s.mem
    ensures var s' := Step(s, op);
            if p[0] < 256 then q in s.live ==> Walk(s'.mem, q, p) == Walk(s.mem, q, p)
            else if !Concerns(s, op, q) || p[0] != op.page[0] then Walk(s'.mem, q, p) == Walk(s.mem, q, p)
            else if p == op.page && ResultOf(s, op) == Mapped then
              Walk(s'.mem, q, p) == MappedTo(op.leaf.frame, [], op.leaf.flags)
            else Walk(s'.mem, q, p) == Passed(op.page, p, op.parent, Walk(s.mem, q, p))
  {
    hide Owned, OwnedBy, Tree, Trees, Clean, MapPage, Meet, Uppers, Upper, Part, Translate, Linked;
    UpperPart(s, op);
    FromInMemory(s, q);
    SpaceFacts(s, op.root);
    if p[0] >= 256 {
      MapUpperWalks(s.mem, s.pool, Roots(s), op.root, op.page, op.leaf, op.parent, q, p);
    } else if q in s.live {
      SpaceFacts(s, q);
      UpperKeepsLower(s, op, q);
      var s' := Step(s, op);
      assert s'.mem[q][p[0]] == s.mem[q][..256][p[0]];
      LowerWalkFraming(s.mem, s'.mem, q, p);
    }
  }

  lemma {:induction false} LowerWalkFraming(mem: Memory, mem': Memory, q: Frame, p: seq<Index>)
    requires |p| == 4 && p[0] < 256 && q in mem && q in mem' && mem'[q][p[0]] == mem[q][p[0]]
    requires Same(mem, mem', OwnedBy(mem, mem[q], 0, 256, 4))
    ensures Walk(mem', q, p) == Walk(mem, q, p)
  {
    hide Owned, Translate;
    assert Owned(mem, mem[q][p[0]], 4) <= OwnedBy(mem, mem[q], 0, 256, 4);
    TranslateFraming(mem, mem', mem[q][p[0]], 4, p[1..]);
  }

  /**
   A page that one space maps in its upper half is seen by the kernel and by every other
   space exactly if the kernel has a level-3 table there; if it has none, from then on the
   space that mapped it has an upper half of its own.
   */
  lemma {:induction false} UpperMapSeen(s: State, op: Op, q: Frame)
    requires Inv(s) && Shares(s) && MapsInUpper(s, op) && q in Roots(s) && q != op.root
    requires ResultOf(s, op) == Mapped
    ensures var s' := Step(s, op);
            && s.kernel in s.mem
            && Walk(s.mem, q, op.page) == NotMapped
            && Walk(s'.mem, op.root, op.page) == MappedTo(op.leaf.frame, [], op.leaf.flags)
            && (Walk(s'.mem, q, op.page) != NotMapped <==> s.mem[s.kernel][op.page[0]].IsTable(4))
            && (Walk(s'.mem, q, op.page) != NotMapped ==>
                  Walk(s'.mem, q, op.page) == Walk(s'.mem, op.root, op.page))
            && (Walk(s'.mem, q, op.page) == NotMapped ==> !Shares(s'))
  {
    hide Owned, OwnedBy, Tree, Trees, Clean, MapPage, Meet, Uppers, Upper, Part, Translate, Inv, Step;
    FromInMemory(s, s.kernel);
    UpperStepWalks(s, op, q, op.page);
    UpperStepWalks(s, op, op.root, op.page);
    UpperPart(s, op);
    MapPageResult(s.mem, s.pool, op.root, 256, 512, op.page, op.leaf, op.parent);
    assert SameEntry(s.mem, s.kernel, op.root, op.page[0]);
    assert q != s.kernel ==> SameEntry(s.mem, s.kernel, q, op.page[0]);
    StepKeepsInv(s, op);
    RootsStay(s, op);
    if Shares(Step(s, op)) {
      SharesUpperHalf(Step(s, op), op.root, op.page);
      if q != s.kernel { SharesUpperHalf(Step(s, op), q, op.page); }
    }
  }

  /**
   So three free frames are enough for a space to give the kernel, and every other space, a
   page of its own choice at any unmapped address below one of the kernel's level-3 tables.
   */
  lemma {:induction false} UpperMapReaches(s: State, op: Op, q: Frame)
    requires Inv(s) && Shares(s) && MapsInUpper(s, op) && q in Roots(s) && s.kernel in s.mem
    requires s.mem[s.kernel][op.page[0]].IsTable(4) && Walk(s.mem, s.kernel, op.page) == NotMapped
    requires |s.pool| >= 3
    ensures Walk(Step(s, op).mem, q, op.page) == MappedTo(op.leaf.frame, [], op.leaf.flags)
  {
    hide Owned, OwnedBy, Tree, Trees, Clean, MapTo, Meet, Uppers, Upper, Part, Translate, Inv, Step;
    UpperPart(s, op);
    FromInMemory(s, op.root);
    assert SameEntry(s.mem, s.kernel, op.root, op.page[0]);
    TreeOfPart(s.mem, op.root, op.page[0]);
    MapToSucceeds(s.mem, s.pool, s.mem[op.root][op.page[0]], 4, op.page[1..], op.leaf, op.parent);
    UpperStepWalks(s, op, op.root, op.page);
    if q != op.root {
      UpperMapSeen(s, op, q);
    }
  }

  lemma {:induction false} RootsStay(s: State, op: Op)
    requires Inv(s) && MapsInUpper(s, op)
    ensures Step(s, op).live == s.live && Step(s, op).kernel == s.kernel
  {
  }

  /** Both halves of a space together are a tree. */
  lemma {:induction false} WholePart(s: State, r: Frame)
    requires Inv(s) && UpperTrees(s) && r in s.live
    ensures Part(s.mem, r, 0, 512)
  {
    hide Part, Meet, Upper;
    SpaceFacts(s, r);
    BothHalves(s.mem, r);
  }

  ghost function Run(s: State, ops: seq<Op>): State
    requires Inv(s)
    decreases |ops|
  {
    if ops == [] then s
    else
      StepKeepsInv(s, ops[0]);
      Run(Step(s, ops[0]), ops[1..])
  }

  lemma {:induction false} RunKeepsInv(s: State, ops: seq<Op>)
    requires Inv(s)
    ensures Inv(Run(s, ops)) && Run(s, ops).kernel == s.kernel
    decreases |ops|
  {
    hide Inv, Uppers, Upper, MapPage;
    if ops != [] {
      StepKeepsInv(s, ops[0]);
      RunKeepsInv(Step(s, ops[0]), ops[1..]);
    }
  }

  ghost predicate LowerOnly(ops: seq<Op>) {
    forall op | op in ops :: !InUpper(op)
  }

  /**
   Over every run that maps in lower halves only: the kernel's tables stay where they are,
   and every space alive at the end translates every upper-half address as the kernel did
   at the start.
   */
  lemma {:induction false} UpperHalfForever(s: State, ops: seq<Op>, q: Frame, page: seq<Index>)
    requires Inv(s) && Shares(s) && LowerOnly(ops) && |page| == 4 && page[0] >= 256
    ensures Shares(Run(s, ops)) && Run(s, ops).base == s.base
    ensures Walk(Run(s, ops).mem, s.kernel, page) == Walk(s.mem, s.kernel, page)
    ensures q in Run(s, ops).live ==> Walk(Run(s, ops).mem, q, page) == Walk(s.mem, s.kernel, page)
    decreases |ops|
  {
    hide Inv, Walk, Owned, OwnedBy, Trees, Clean, Translate, MapPage, Shares, Uppers;
    if ops == [] {
      if q in s.live { SharesUpperHalf(s, q, page); }
    } else {
      StepKeepsInv(s, ops[0]);
      StepKeepsShares(s, ops[0]);
      StepKeepsKernel(s, ops[0], page);
      StepKeepsOthers(s, ops[0], if ops[0].Map? || ops[0].Drop? then ops[0].root + 1 else 0);
      UpperHalfForever(Step(s, ops[0]), ops[1..], q, page);
    }
  }

  /**
   A run that never names a space changes none of its lower-half translations, wherever the
   others map; and none at all, if they map in their lower halves only.
   */
  lemma {:induction false} IsolatedForever(s: State, ops: seq<Op>, q: Frame, page: seq<Index>)
    requires Inv(s) && q in s.live && |page| == 4
    requires forall op | op in ops :: !Targets(op, q)
    requires page[0] < 256 || LowerOnly(ops)
    ensures q in Run(s, ops).live
    ensures Walk(Run(s, ops).mem, q, page) == Walk(s.mem, q, page)
    decreases |ops|
  {
    hide Inv, Walk, Step;
    if ops != [] {
      StepKeepsInv(s, ops[0]);
      StepIsolates(s, ops[0], q, page);
      IsolatedForever(Step(s, ops[0]), ops[1..], q, page);
    }
  }

  /** Over every run, tables of different spaces are never shared in the lower half. */
  lemma {:induction false} PrivateForever(s: State, ops: seq<Op>, q: Frame, r: Frame)
    requires Inv(s) && q in Run(s, ops).live && r in Run(s, ops).live && q != r
    ensures Private(Run(s, ops).mem, q) !! Private(Run(s, ops).mem, r)
  {
    hide Owned, OwnedBy, Trees, Clean, Frames, Space, Step, Upper;
    RunKeepsInv(s, ops);
  }

  /**
   Once every space is dropped, the only tables left are those that belong to no space
   alone: those of the kernel, and any that were made in upper halves.
   */
  lemma {:induction false} NothingLeaks(s: State, ops: seq<Op>)
    requires Inv(s) && Run(s, ops).live == {}
    ensures Run(s, ops).mem.Keys == Run(s, ops).base
    ensures Shares(s) && LowerOnly(ops) ==> Run(s, ops).base == s.base
  {
    hide Owned, OwnedBy, Trees, Clean, Frames, Space, Step, Upper, Shares;
    RunKeepsInv(s, ops);
    assert forall f | f in Run(s, ops).mem && f !in Run(s, ops).base :: Owner(Run(s, ops), f);
    if Shares(s) && LowerOnly(ops) {
      UpperHalfForever(s, ops, 0, [256, 0, 0, 0]);
    }
  }

  /** Before the first space is made, any kernel tables will do, shared as they may be. */
  lemma {:induction false} BootInv(mem: Memory, pool: seq<Frame>, kernel: Frame)
    requires kernel in mem && Upper(mem, kernel) <= mem.Keys
    requires Fresh(mem, pool)
    ensures Inv(State(mem, pool, kernel, {}, mem.Keys)) && Shares(State(mem, pool, kernel, {}, mem.Keys))
  {
  }

  lemma {:induction false} RunConcat(s: State, ops: seq<Op>, more: seq<Op>)
    requires Inv(s)
    ensures Inv(Run(s, ops))
    ensures Run(s, ops + more) == Run(Run(s, ops), more)
    decreases |ops|
  {
    hide Inv, Step;
    if ops == [] {
      assert ops + more == more;
    } else {
      StepKeepsInv(s, ops[0]);
      RunConcat(Step(s, ops[0]), ops[1..], more);
      assert (ops + more)[1..] == ops[1..] + more;
    }
  }

  lemma {:induction false} RunThen(s: State, ops: seq<Op>, op: Op)
    requires Inv(s)
    ensures Inv(Run(s, ops))
    ensures Run(s, ops + [op]) == Step(Run(s, ops), op)
  {
    hide Inv, Step;
    RunConcat(s, ops, [op]);
    StepKeepsInv(Run(s, ops), op);
    assert [op][1..] == [];
  }
}
