/**
 The upper halves of level-4 tables, which lead to the kernel's tables: what mapping a page
 there does in one space, and in the others.
 */
module UpperHalves {
  import opened PageTables
  import opened Sequences
  import opened Mapper
  import opened SpaceMapper

  /** Both entries lead to the same table. */
  predicate SameTable(a: Entry, b: Entry) {
    a.IsTable(4) && b.IsTable(4) && a.frame == b.frame
  }

  /** The tables below the upper half of a level-4 table. */
  ghost function Upper(mem: Memory, root: Frame): set<Frame> {
    if root in mem then OwnedBy(mem, mem[root], 256, 512, 4) else {}
  }

  /** Two upper entries lead to the same table, if they have the same index, or share no table. */
  ghost predicate Meet(mem: Memory, r: Frame, i: nat, q: Frame, j: nat)
    requires r in mem && q in mem && i < 512 && j < 512
  {
    || (i == j && SameTable(mem[r][i], mem[q][j]))
    || Owned(mem, mem[r][i], 4) !! Owned(mem, mem[q][j], 4)
  }

  /** The upper halves of level-4 tables are trees, which have their level-3 tables in common or nothing. */
  ghost predicate Uppers(mem: Memory, roots: set<Frame>) {
    && (forall r | r in roots :: Part(mem, r, 256, 512))
    && (forall r, q | r in roots && q in roots :: q !in Upper(mem, r))
    && forall r, q, i, j | r in roots && q in roots && 256 <= i < 512 && 256 <= j < 512 :: Meet(mem, r, i, q, j)
  }

  lemma {:induction false} SameTableSame(mem: Memory, a: Entry, b: Entry)
    requires SameTable(a, b)
    ensures Owned(mem, a, 4) == Owned(mem, b, 4)
    ensures Tree(mem, a, 4) == Tree(mem, b, 4)
    ensures Clean(mem, a, 4) == Clean(mem, b, 4)
    ensures forall path: seq<Index> | |path| == 3 :: Translate(mem, a, 4, path) == Translate(mem, b, 4, path)
  {
  }

  /** Two halves that are trees, and share no table, are a tree together. */
  lemma {:induction false} BothHalves(mem: Memory, r: Frame)
    requires Part(mem, r, 0, 256) && Part(mem, r, 256, 512)
    requires OwnedBy(mem, mem[r], 0, 256, 4) !! Upper(mem, r)
    ensures Part(mem, r, 0, 512)
  {
    hide Owned, Tree, Clean;
    var t := mem[r];
    forall i, j | 0 <= i < j < 512 ensures Owned(mem, t[i], 4) !! Owned(mem, t[j], 4) {
      if i < 256 <= j {
        assert Owned(mem, t[i], 4) <= OwnedBy(mem, t, 0, 256, 4);
        assert Owned(mem, t[j], 4) <= Upper(mem, r);
      }
    }
    forall f | f in OwnedBy(mem, t, 0, 512, 4) ensures f != r {
      var i :| 0 <= i < 512 && f in Owned(mem, t[i], 4);
      assert i < 256 ==> f in OwnedBy(mem, t, 0, 256, 4);
      assert i >= 256 ==> f in OwnedBy(mem, t, 256, 512, 4);
    }
  }

  // ---- One entry after a page was mapped

  /** The root, the entries above the page, and the frames that became tables. */
  ghost predicate MapsUpper(mem: Memory, pool: seq<Frame>, roots: set<Frame>, root: Frame, page: seq<Index>,
                            leaf: Entry, parent: set<Flag>) {
    && Uppers(mem, roots) && root in roots && Fresh(mem, pool)
    && MayMap(page, 256, 512, leaf, parent)
  }

  ghost function After(mem: Memory, pool: seq<Frame>, root: Frame, page: seq<Index>, leaf: Entry,
                       parent: set<Flag>): Mapping
    requires Part(mem, root, 256, 512) && MayMap(page, 256, 512, leaf, parent)
  {
    MapPage(mem, pool, root, 256, 512, page, leaf, parent)
  }

  ghost function TakenFrames(pool: seq<Frame>, pool': seq<Frame>): set<Frame>
    requires |pool'| <= |pool|
  {
    Elements(pool[..|pool| - |pool'|])
  }

  /** What becomes of the entry itself, and of memory elsewhere. */
  lemma {:induction false} EntryAfter(mem: Memory, pool: seq<Frame>, roots: set<Frame>, root: Frame,
                                      page: seq<Index>, leaf: Entry, parent: set<Flag>)
    requires MapsUpper(mem, pool, roots, root, page, leaf, parent)
    ensures var m, i := After(mem, pool, root, page, leaf, parent), page[0];
            && |m.pool| <= |pool|
            && var taken, e, e' := TakenFrames(pool, m.pool), mem[root][i], m.mem[root][i];
            && m.mem.Keys == mem.Keys + taken && taken !! mem.Keys && Fresh(m.mem, m.pool)
            && Owned(mem, e, 4) <= Upper(mem, root) && root !in Owned(mem, e, 4)
            && m.mem[root] == mem[root][i := e']
            && (forall f | f in mem && f !in Owned(mem, e, 4) && f != root :: m.mem[f] == mem[f])
            && Owned(m.mem, e', 4) == Owned(mem, e, 4) + taken
            && Tree(m.mem, e', 4) && Clean(m.mem, e', 4)
            && (e.IsTable(4) ==> SameTable(e, e'))
  {
    hide Owned, OwnedBy, Tree, Trees, Clean;
    var o, t, i := Below(mem, pool, root, 256, 512, page, leaf, parent), mem[root], page[0];
    var m2 := o.mem[root := t[i := o.entry]];
    assert Part(mem, root, 256, 512);
    TreeOfPart(mem, root, i);
    BelowReplaces(mem, pool, root, 256, 512, page, leaf, parent);
    ReplacedEntry(mem, o.mem, root, t, 256, i, 512, o.entry, 4);
    CleanFraming(o.mem, m2, o.entry, 4);
    MapPageKeepsPart(mem, pool, root, 256, 512, page, leaf, parent);
    FramesInMemory(mem, root, 256, 512);
  }

  /** Tables that are not below the root keep their entries, and the root keeps its lower ones. */
  lemma {:induction false} OthersAfter(mem: Memory, pool: seq<Frame>, roots: set<Frame>, root: Frame,
                                       page: seq<Index>, leaf: Entry, parent: set<Flag>, kept: set<Frame>)
    requires MapsUpper(mem, pool, roots, root, page, leaf, parent)
    requires kept <= mem.Keys && kept !! Upper(mem, root)
    ensures var m := After(mem, pool, root, page, leaf, parent);
            && Same(mem, m.mem, kept - {root})
            && root in mem && root in m.mem && m.mem[root][..256] == mem[root][..256]
  {
    hide Owned, Upper, Tree, Clean, Trees, MapPage, Meet;
    assert Part(mem, root, 256, 512);
    EntryAfter(mem, pool, roots, root, page, leaf, parent);
  }

  lemma {:induction false} TreeOfPart(mem: Memory, root: Frame, i: nat)
    requires Part(mem, root, 256, 512) && 256 <= i < 512
    ensures Tree(mem, mem[root][i], 4) && Clean(mem, mem[root][i], 4)
    ensures Owned(mem, mem[root][i], 4) <= Upper(mem, root) && Owned(mem, mem[root][i], 4) <= mem.Keys
    ensures root !in Owned(mem, mem[root][i], 4)
  {
    hide Owned, Tree, Clean;
    TreeInMemory(mem, mem[root][i], 4);
  }

  /** The root itself, or a root whose entry leads to the same table. */
  predicate Linked(mem: Memory, root: Frame, q: Frame, i: nat)
    requires root in mem && q in mem && i < 512
  {
    q == root || SameTable(mem[q][i], mem[root][i])
  }

  /** What becomes of any entry: more tables below it, or nothing. */
  lemma {:induction false} AnyEntryAfter(mem: Memory, pool: seq<Frame>, roots: set<Frame>, root: Frame,
                                         page: seq<Index>, leaf: Entry, parent: set<Flag>, q: Frame, j: nat)
    requires MapsUpper(mem, pool, roots, root, page, leaf, parent) && q in roots && 256 <= j < 512
    ensures var m, i := After(mem, pool, root, page, leaf, parent), page[0];
            && |m.pool| <= |pool|
            && q in mem && root in mem && q in m.mem
            && var taken, c := TakenFrames(pool, m.pool), m.mem[q][j];
            && Tree(m.mem, c, 4) && Clean(m.mem, c, 4)
            && Owned(m.mem, c, 4)
               == Owned(mem, mem[q][j], 4) + (if j == i && Linked(mem, root, q, i) then taken else {})
            && (j != i || q != root ==> c == mem[q][j])
            && (j != i || !Linked(mem, root, q, i) ==> Same(mem, m.mem, Owned(mem, c, 4)))
            && (mem[q][j].IsTable(4) ==> SameTable(mem[q][j], c))
            && (!mem[q][j].IsTable(4) && c.IsTable(4) ==> c.frame in taken)
            && Owned(mem, mem[q][j], 4) <= mem.Keys && taken !! mem.Keys
  {
    hide OwnedBy, Trees, MapPage;
    var m, i := After(mem, pool, root, page, leaf, parent), page[0];
    EntryAfter(mem, pool, roots, root, page, leaf, parent);
    assert Part(mem, q, 256, 512) && Part(mem, root, 256, 512);
    TreeOfPart(mem, root, i);
    TreeOfPart(mem, q, j);
    assert q !in Upper(mem, root) && root !in Upper(mem, q);
    var e, c := mem[root][i], mem[q][j];
    if q != root || j != i {
      assert m.mem[q][j] == c;
      assert Meet(mem, root, i, q, j);
      if j == i && SameTable(c, e) {
        SameTableSame(mem, c, e);
        SameTableSame(m.mem, c, m.mem[root][i]);
      } else {
        assert Owned(mem, c, 4) !! Owned(mem, e, 4);
        OwnedFraming(mem, m.mem, c, 4);
        TreeFraming(mem, m.mem, c, 4);
        CleanFraming(mem, m.mem, c, 4);
      }
    }
  }

  /** What becomes of the tables below a root: the new ones are added, or nothing is. */
  lemma {:induction false} UpperAfter(mem: Memory, pool: seq<Frame>, roots: set<Frame>, root: Frame,
                                      page: seq<Index>, leaf: Entry, parent: set<Flag>, q: Frame)
    requires MapsUpper(mem, pool, roots, root, page, leaf, parent) && q in roots
    ensures var m := After(mem, pool, root, page, leaf, parent);
            && |m.pool| <= |pool|
            && var taken := TakenFrames(pool, m.pool);
            && Upper(mem, q) <= Upper(m.mem, q) <= Upper(mem, q) + taken
            && (q == root ==> Upper(m.mem, q) == Upper(mem, q) + taken)
            && Part(m.mem, q, 256, 512)
  {
    hide Owned, OwnedBy, Tree, Trees, Clean, MapPage, Linked, Meet;
    var m, i := After(mem, pool, root, page, leaf, parent), page[0];
    EntryAfter(mem, pool, roots, root, page, leaf, parent);
    var taken := TakenFrames(pool, m.pool);
    assert q in mem && q in m.mem;
    forall j | 256 <= j < 512
      ensures Owned(mem, mem[q][j], 4) <= Owned(m.mem, m.mem[q][j], 4) <= Owned(mem, mem[q][j], 4) + taken
      ensures Tree(m.mem, m.mem[q][j], 4) && Clean(m.mem, m.mem[q][j], 4)
    {
      AnyEntryAfter(mem, pool, roots, root, page, leaf, parent, q, j);
    }
    UpperBounds(mem, m.mem, q, taken);
    if q == root {
      assert Owned(m.mem, m.mem[root][i], 4) <= Upper(m.mem, root) by { OneEntryOwned(m.mem, root, i); }
    }
    forall j, k | 256 <= j < k < 512 ensures Owned(m.mem, m.mem[q][j], 4) !! Owned(m.mem, m.mem[q][k], 4) {
      EntriesApart(mem, pool, roots, root, page, leaf, parent, q, j, q, k);
    }
    SeparateTrees(m.mem, q);
  }

  lemma {:induction false} OneEntryOwned(mem: Memory, root: Frame, i: nat)
    requires root in mem && 256 <= i < 512
    ensures Owned(mem, mem[root][i], 4) <= Upper(mem, root)
  {
    hide Owned;
  }

  lemma {:induction false} SeparateTrees(mem: Memory, q: Frame)
    requires q in mem && forall j | 256 <= j < 512 :: Tree(mem, mem[q][j], 4)
    requires forall j, k | 256 <= j < k < 512 :: Owned(mem, mem[q][j], 4) !! Owned(mem, mem[q][k], 4)
    ensures Trees(mem, mem[q], 256, 512, 4)
  {
    hide Owned, Tree;
  }

  lemma {:induction false} UpperBounds(mem: Memory, mem': Memory, q: Frame, taken: set<Frame>)
    requires q in mem && q in mem'
    requires forall j | 256 <= j < 512 ::
               Owned(mem, mem[q][j], 4) <= Owned(mem', mem'[q][j], 4) <= Owned(mem, mem[q][j], 4) + taken
    ensures Upper(mem, q) <= Upper(mem', q) <= Upper(mem, q) + taken
  {
    hide Owned;
  }

  lemma {:induction false} MeetsItself(mem: Memory, r: Frame, i: nat)
    requires r in mem && i < 512
    ensures Meet(mem, r, i, r, i)
  {
  }

  /** Entries that shared no table still share none, and those that led to one table still do. */
  lemma {:induction false} EntriesApart(mem: Memory, pool: seq<Frame>, roots: set<Frame>, root: Frame,
                                        page: seq<Index>, leaf: Entry, parent: set<Flag>, r: Frame, j: nat,
                                        q: Frame, k: nat)
    requires MapsUpper(mem, pool, roots, root, page, leaf, parent)
    requires r in roots && q in roots && 256 <= j < 512 && 256 <= k < 512
    ensures var m := After(mem, pool, root, page, leaf, parent);
            && r in m.mem && q in m.mem && Meet(m.mem, r, j, q, k)
            && (j != k ==> Owned(m.mem, m.mem[r][j], 4) !! Owned(m.mem, m.mem[q][k], 4))
  {
    hide Owned, OwnedBy, Tree, Trees, Clean, MapPage;
    AnyEntryAfter(mem, pool, roots, root, page, leaf, parent, r, j);
    AnyEntryAfter(mem, pool, roots, root, page, leaf, parent, q, k);
    assert Meet(mem, r, j, q, k);
    if r == q && j == k {
      MeetsItself(After(mem, pool, root, page, leaf, parent).mem, r, j);
    }
  }

  /** The upper halves are still trees with their level-3 tables in common or nothing. */
  lemma {:induction false} MapKeepsUppers(mem: Memory, pool: seq<Frame>, roots: set<Frame>, root: Frame,
                                          page: seq<Index>, leaf: Entry, parent: set<Flag>)
    requires MapsUpper(mem, pool, roots, root, page, leaf, parent)
    ensures var m := After(mem, pool, root, page, leaf, parent); Uppers(m.mem, roots)
  {
    hide Owned, OwnedBy, Tree, Trees, Clean, MapPage, Meet, Upper, Linked;
    var m := After(mem, pool, root, page, leaf, parent);
    EntryAfter(mem, pool, roots, root, page, leaf, parent);
    forall r | r in roots ensures Part(m.mem, r, 256, 512) {
      UpperAfter(mem, pool, roots, root, page, leaf, parent, r);
    }
    forall r, q | r in roots && q in roots ensures q !in Upper(m.mem, r) {
      UpperAfter(mem, pool, roots, root, page, leaf, parent, r);
      assert Part(mem, q, 256, 512);
    }
    forall r, q, j, k | r in roots && q in roots && 256 <= j < 512 && 256 <= k < 512 ensures Meet(m.mem, r, j, q, k) {
      EntriesApart(mem, pool, roots, root, page, leaf, parent, r, j, q, k);
    }
  }

  /**
   A page that was mapped is mapped for every root whose entry leads to the same table;
   every other page of those ends where it did, and nothing changes for the other roots.
   */
  lemma {:induction false} MapUpperWalks(mem: Memory, pool: seq<Frame>, roots: set<Frame>, root: Frame,
                                         page: seq<Index>, leaf: Entry, parent: set<Flag>, q: Frame, p: seq<Index>)
    requires MapsUpper(mem, pool, roots, root, page, leaf, parent)
    requires q in roots && |p| == 4 && p[0] >= 256
    ensures var m := After(mem, pool, root, page, leaf, parent);
            && q in mem && root in mem
            && if !Linked(mem, root, q, page[0]) || p[0] != page[0] then Walk(m.mem, q, p) == Walk(mem, q, p)
               else if p == page && m.result == Mapped then Walk(m.mem, q, p) == MappedTo(leaf.frame, [], leaf.flags)
               else Walk(m.mem, q, p) == Passed(page, p, parent, Walk(mem, q, p))
  {
    hide Owned, OwnedBy, Tree, Trees, Clean, MapPage, Meet, Upper, Translate;
    var m, i := After(mem, pool, root, page, leaf, parent), page[0];
    EntryAfter(mem, pool, roots, root, page, leaf, parent);
    AnyEntryAfter(mem, pool, roots, root, page, leaf, parent, q, p[0]);
    if !Linked(mem, root, q, i) || p[0] != i {
      TranslateFraming(mem, m.mem, mem[q][p[0]], 4, p[1..]);
      assert m.mem[q][p[0]] == mem[q][p[0]];
    } else {
      MapPageWalks(mem, pool, root, 256, 512, page, leaf, parent, p);
      if q != root {
        SameTableSame(mem, mem[q][i], mem[root][i]);
        SameTableSame(m.mem, m.mem[q][i], m.mem[root][i]);
      }
    }
  }

  // ---- Other changes

  /** The upper entries of `r` are those `q` had, over tables that are still there. */
  ghost predicate Copied(mem: Memory, mem': Memory, q: Frame, r: Frame) {
    && q in mem && r in mem'
    && (forall i | 256 <= i < 512 :: mem'[r][i] == mem[q][i])
    && Same(mem, mem', Upper(mem, q))
  }

  lemma {:induction false} CopiedEntry(mem: Memory, mem': Memory, roots: set<Frame>, q: Frame, r: Frame, i: nat)
    requires Uppers(mem, roots) && q in roots && Copied(mem, mem', q, r) && 256 <= i < 512
    ensures Owned(mem', mem'[r][i], 4) == Owned(mem, mem[q][i], 4)
    ensures Tree(mem', mem'[r][i], 4) && Clean(mem', mem'[r][i], 4)
  {
    hide Owned, OwnedBy, Tree, Trees, Clean;
    var e := mem[q][i];
    assert Part(mem, q, 256, 512);
    TreeOfPart(mem, q, i);
    OwnedFraming(mem, mem', e, 4);
    TreeFraming(mem, mem', e, 4);
    CleanFraming(mem, mem', e, 4);
  }

  lemma {:induction false} CopiedUpper(mem: Memory, mem': Memory, roots: set<Frame>, q: Frame, r: Frame)
    requires Uppers(mem, roots) && q in roots && Copied(mem, mem', q, r)
    ensures Upper(mem', r) == Upper(mem, q)
  {
    hide Owned, Tree, Trees, Clean, Meet;
    forall i | 256 <= i < 512 ensures Owned(mem', mem'[r][i], 4) == Owned(mem, mem[q][i], 4) {
      CopiedEntry(mem, mem', roots, q, r, i);
    }
  }

  /** Whose entries were copied. */
  ghost predicate Origin(mem: Memory, mem': Memory, roots: set<Frame>, r: Frame) {
    exists q :: q in roots && Copied(mem, mem', q, r)
  }

  lemma {:induction false} UppersFraming(mem: Memory, roots: set<Frame>, mem': Memory, roots': set<Frame>)
    requires Uppers(mem, roots)
    requires forall r | r in roots' :: Origin(mem, mem', roots, r)
    requires forall r, q | r in roots' && q in roots :: r !in Upper(mem, q)
    ensures Uppers(mem', roots')
  {
    hide Owned, OwnedBy, Tree, Trees, Clean, Meet, Upper, Copied;
    forall r | r in roots' ensures Part(mem', r, 256, 512) {
      var q :| q in roots && Copied(mem, mem', q, r);
      CopiedPart(mem, mem', roots, q, r);
    }
    forall r, p | r in roots' && p in roots' ensures p !in Upper(mem', r) {
      var q :| q in roots && Copied(mem, mem', q, r);
      CopiedUpper(mem, mem', roots, q, r);
    }
    forall r, p, i, j | r in roots' && p in roots' && 256 <= i < 512 && 256 <= j < 512 ensures Meet(mem', r, i, p, j) {
      var q :| q in roots && Copied(mem, mem', q, r);
      var o :| o in roots && Copied(mem, mem', o, p);
      CopiedMeet(mem, mem', roots, q, r, i, o, p, j);
    }
  }

  lemma {:induction false} CopiedMeet(mem: Memory, mem': Memory, roots: set<Frame>, q: Frame, r: Frame, i: nat,
                                      o: Frame, p: Frame, j: nat)
    requires Uppers(mem, roots) && q in roots && Copied(mem, mem', q, r) && o in roots && Copied(mem, mem', o, p)
    requires 256 <= i < 512 && 256 <= j < 512
    ensures Meet(mem', r, i, p, j)
  {
    hide Owned, OwnedBy, Tree, Trees, Clean, Upper;
    CopiedEntry(mem, mem', roots, q, r, i);
    CopiedEntry(mem, mem', roots, o, p, j);
    assert Meet(mem, q, i, o, j);
  }

  lemma {:induction false} CopiedPart(mem: Memory, mem': Memory, roots: set<Frame>, q: Frame, r: Frame)
    requires Uppers(mem, roots) && q in roots && Copied(mem, mem', q, r) && r !in Upper(mem, q)
    ensures Part(mem', r, 256, 512)
  {
    hide Owned, OwnedBy, Tree, Clean, Meet;
    CopiedUpper(mem, mem', roots, q, r);
    forall i | 256 <= i < 512
      ensures Owned(mem', mem'[r][i], 4) == Owned(mem, mem[q][i], 4)
      ensures Tree(mem', mem'[r][i], 4) && Clean(mem', mem'[r][i], 4)
    {
      CopiedEntry(mem, mem', roots, q, r, i);
    }
    assert Part(mem, q, 256, 512);
  }
}
