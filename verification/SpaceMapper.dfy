/**
 Mapping a page in a level-4 table of which the entries `lo..hi` are separate trees: the
 lower half of a user's table, or the upper half of the kernel's.
 */
module SpaceMapper {
  import opened PageTables
  import opened Sequences
  import opened Mapper

  /** The walk of the hardware from a level-4 table. */
  function Walk(mem: Memory, root: Frame, page: seq<Index>): Target
    requires |page| == 4
  {
    if root in mem then Translate(mem, mem[root][page[0]], 4, page[1..]) else NotMapped
  }

  /** The level-4 table and the tables below its entries `lo..hi`. */
  ghost function Frames(mem: Memory, root: Frame, lo: nat, hi: nat): set<Frame>
    requires lo <= hi <= 512
  {
    if root in mem then {root} + OwnedBy(mem, mem[root], lo, hi, 4) else {}
  }

  ghost predicate Part(mem: Memory, root: Frame, lo: nat, hi: nat) {
    && lo <= hi <= 512
    && root in mem
    && Trees(mem, mem[root], lo, hi, 4)
    && root !in OwnedBy(mem, mem[root], lo, hi, 4)
    && forall i | lo <= i < hi :: Clean(mem, mem[root][i], 4)
  }

  datatype Mapping = Mapping(mem: Memory, pool: seq<Frame>, result: MapResult)

  predicate MayMap(page: seq<Index>, lo: nat, hi: nat, leaf: Entry, parent: set<Flag>) {
    |page| == 4 && lo <= page[0] < hi && Present in leaf.flags && TableFlags(parent)
  }

  function Below(mem: Memory, pool: seq<Frame>, root: Frame, lo: nat, hi: nat, page: seq<Index>,
                       leaf: Entry, parent: set<Flag>): Outcome
    requires Part(mem, root, lo, hi) && MayMap(page, lo, hi, leaf, parent)
  {
    MapTo(mem, pool, mem[root][page[0]], 4, page[1..], leaf, parent)
  }

  function MapPage(mem: Memory, pool: seq<Frame>, root: Frame, lo: nat, hi: nat, page: seq<Index>,
                         leaf: Entry, parent: set<Flag>): Mapping
    requires Part(mem, root, lo, hi) && MayMap(page, lo, hi, leaf, parent)
  {
    var o := Below(mem, pool, root, lo, hi, page, leaf, parent);
    Mapping(o.mem[root := mem[root][page[0] := o.entry]], o.pool, o.result)
  }

  lemma {:induction false} FramesInMemory(mem: Memory, root: Frame, lo: nat, hi: nat)
    requires Part(mem, root, lo, hi)
    ensures Frames(mem, root, lo, hi) <= mem.Keys
  {
    forall i | lo <= i < hi ensures Owned(mem, mem[root][i], 4) <= mem.Keys {
      TreeInMemory(mem, mem[root][i], 4);
    }
  }

  lemma {:induction false} PartFraming(mem: Memory, mem': Memory, root: Frame, lo: nat, hi: nat)
    requires Part(mem, root, lo, hi)
    requires Same(mem, mem', Frames(mem, root, lo, hi))
    ensures Part(mem', root, lo, hi)
    ensures Frames(mem', root, lo, hi) == Frames(mem, root, lo, hi)
  {
    TreesFraming(mem, mem', mem[root], lo, hi, 4);
    forall i | lo <= i < hi ensures Clean(mem', mem'[root][i], 4) {
      assert Owned(mem, mem[root][i], 4) <= OwnedBy(mem, mem[root], lo, hi, 4);
      CleanFraming(mem, mem', mem[root][i], 4);
    }
  }

  lemma {:induction false} WalkFraming(mem: Memory, mem': Memory, root: Frame, lo: nat, hi: nat, page: seq<Index>)
    requires lo <= hi <= 512 && |page| == 4 && lo <= page[0] < hi && root in mem
    requires Same(mem, mem', Frames(mem, root, lo, hi))
    ensures Walk(mem', root, page) == Walk(mem, root, page)
  {
    assert Owned(mem, mem[root][page[0]], 4) <= OwnedBy(mem, mem[root], lo, hi, 4);
    TranslateFraming(mem, mem', mem[root][page[0]], 4, page[1..]);
  }

  lemma {:induction false} BelowReplaces(mem: Memory, pool: seq<Frame>, root: Frame, lo: nat, hi: nat,
                                         page: seq<Index>, leaf: Entry, parent: set<Flag>)
    requires Part(mem, root, lo, hi) && MayMap(page, lo, hi, leaf, parent) && Fresh(mem, pool)
    ensures var o, e := Below(mem, pool, root, lo, hi, page, leaf, parent), mem[root][page[0]];
            && Extends(mem, pool, e, 4, o)
            && Owned(mem, e, 4) <= OwnedBy(mem, mem[root], lo, hi, 4)
            && Replacing(mem, o.mem, root, mem[root], lo, page[0], hi, o.entry, 4)
  {
    hide Owned, Tree, Clean, MapTo;
    var o, t, i := Below(mem, pool, root, lo, hi, page, leaf, parent), mem[root], page[0];
    MapToExtends(mem, pool, t[i], 4, page[1..], leaf, parent);
    assert Owned(mem, t[i], 4) <= OwnedBy(mem, t, lo, hi, 4);
    assert root !in Taken(pool, o);
  }

  /** What mapping a page does to the tables: only those below the level-4 table change. */
  lemma {:induction false} MapPageExtends(mem: Memory, pool: seq<Frame>, root: Frame, lo: nat, hi: nat,
                                          page: seq<Index>, leaf: Entry, parent: set<Flag>)
    requires Part(mem, root, lo, hi) && MayMap(page, lo, hi, leaf, parent) && Fresh(mem, pool)
    ensures var m := MapPage(mem, pool, root, lo, hi, page, leaf, parent);
            && |m.pool| <= |pool| && m.pool == pool[|pool| - |m.pool|..]
            && var taken := Elements(pool[..|pool| - |m.pool|]);
            && m.mem.Keys == mem.Keys + taken
            && Frames(m.mem, root, lo, hi) == Frames(mem, root, lo, hi) + taken
            && (forall f | f in mem && f !in Frames(mem, root, lo, hi) :: m.mem[f] == mem[f])
            && (forall i | 0 <= i < 512 && i != page[0] :: m.mem[root][i] == mem[root][i])
  {
    hide Owned, OwnedBy, Tree, Trees, Clean, MapTo;
    var o := Below(mem, pool, root, lo, hi, page, leaf, parent);
    BelowReplaces(mem, pool, root, lo, hi, page, leaf, parent);
    Replace(mem, o.mem, root, mem[root], lo, page[0], hi, o.entry, 4);
    var before, own := OwnedBy(mem, mem[root], lo, hi, 4), Owned(mem, mem[root][page[0]], 4);
    assert before - own + (own + Taken(pool, o)) == before + Taken(pool, o);
  }

  /** The tables stay separate trees, and the frames left are still free. */
  lemma {:induction false} MapPageKeepsPart(mem: Memory, pool: seq<Frame>, root: Frame, lo: nat, hi: nat,
                                            page: seq<Index>, leaf: Entry, parent: set<Flag>)
    requires Part(mem, root, lo, hi) && MayMap(page, lo, hi, leaf, parent) && Fresh(mem, pool)
    ensures var m := MapPage(mem, pool, root, lo, hi, page, leaf, parent);
            Part(m.mem, root, lo, hi) && Fresh(m.mem, m.pool)
  {
    hide Owned, Tree, Trees, Clean, MapTo, OwnedBy;
    var o, t, i := Below(mem, pool, root, lo, hi, page, leaf, parent), mem[root], page[0];
    var t': Table := t[i := o.entry];
    var m2 := o.mem[root := t'];
    BelowReplaces(mem, pool, root, lo, hi, page, leaf, parent);
    Replace(mem, o.mem, root, t, lo, i, hi, o.entry, 4);
    ReplacedEntry(mem, o.mem, root, t, lo, i, hi, o.entry, 4);
    CleanFraming(o.mem, m2, o.entry, 4);
    forall j | lo <= j < hi && j != i ensures Clean(m2, t[j], 4) {
      KeptEntry(mem, o.mem, root, t, lo, i, hi, o.entry, 4, j);
      CleanFraming(mem, m2, t[j], 4);
    }
    assert forall f | f in o.pool :: f !in pool[..Count(pool, o)];
  }

  /** What mapping a page does to the walk along `q`. */
  lemma {:induction false} MapPageWalks(mem: Memory, pool: seq<Frame>, root: Frame, lo: nat, hi: nat,
                                        page: seq<Index>, leaf: Entry, parent: set<Flag>, q: seq<Index>)
    requires Part(mem, root, lo, hi) && MayMap(page, lo, hi, leaf, parent) && Fresh(mem, pool)
    requires |q| == 4 && lo <= q[0] < hi
    ensures var m := MapPage(mem, pool, root, lo, hi, page, leaf, parent);
            if q == page && m.result == Mapped then Walk(m.mem, root, q) == MappedTo(leaf.frame, [], leaf.flags)
            else Walk(m.mem, root, q) == Passed(page, q, parent, Walk(mem, root, q))
  {
    hide Owned, Tree, Clean, MapTo, OwnedBy, Translate, Passed;
    var o, t, i := Below(mem, pool, root, lo, hi, page, leaf, parent), mem[root], page[0];
    var m2 := o.mem[root := t[i := o.entry]];
    BelowReplaces(mem, pool, root, lo, hi, page, leaf, parent);
    RestOfPath(mem, t[q[0]], 4, q[1..]);
    PassedBelow(page, q, parent, Walk(mem, root, q));
    if q[0] == i {
      assert q == [i] + q[1..] && page == [i] + page[1..];
      ReplacedEntry(mem, o.mem, root, t, lo, i, hi, o.entry, 4);
      TranslateFraming(o.mem, m2, o.entry, 4, q[1..]);
      MapToTranslates(mem, pool, t[i], 4, page[1..], leaf, parent, q[1..]);
    } else {
      KeptEntry(mem, o.mem, root, t, lo, i, hi, o.entry, 4, q[0]);
      TranslateFraming(mem, m2, t[q[0]], 4, q[1..]);
    }
  }

  /** Which result mapping a page gives, told from the walk before it. */
  lemma {:induction false} MapPageResult(mem: Memory, pool: seq<Frame>, root: Frame, lo: nat, hi: nat,
                                         page: seq<Index>, leaf: Entry, parent: set<Flag>)
    requires Part(mem, root, lo, hi) && MayMap(page, lo, hi, leaf, parent)
    ensures var m, before := MapPage(mem, pool, root, lo, hi, page, leaf, parent), Walk(mem, root, page);
            && (m.result == PageAlreadyMapped <==> before.MappedTo? && before.rest == [])
            && (m.result == ParentEntryHugePage <==> before.MappedTo? && before.rest != [])
            && (m.result == FrameAllocationFailed ==> m.pool == [])
  {
    MapToResult(mem, pool, mem[root][page[0]], 4, page[1..], leaf, parent);
  }

  // ---- What the processor allows

  /** The entries that lead from the level-4 table to the table of a page. */
  function WayTo(mem: Memory, root: Frame, page: seq<Index>): (w: seq<Entry>)
    requires |page| == 4
  {
    if root in mem then Way(mem, mem[root][page[0]], 4, page[1..]) else []
  }

  /** All entries on the way have the flags: without them the processor refuses, whatever the page allows. */
  predicate Allows(mem: Memory, root: Frame, page: seq<Index>, need: set<Flag>)
    requires |page| == 4
  {
    forall k | 0 <= k < |WayTo(mem, root, page)| :: need <= WayTo(mem, root, page)[k].flags
  }

  /** The way leads through the same tables, which allow what they did. */
  predicate WayGrows(mem: Memory, mem': Memory, root: Frame, page: seq<Index>)
    requires |page| == 4
  {
    var before, after := WayTo(mem, root, page), WayTo(mem', root, page);
    && |after| == |before|
    && forall k | 0 <= k < |before| :: after[k].frame == before[k].frame && before[k].flags <= after[k].flags
  }

  /** No entry on the way forbids execution, if it was not there and did so before. */
  predicate ForbidsNoMore(mem: Memory, mem': Memory, root: Frame, page: seq<Index>)
    requires |page| == 4
  {
    var before, after := WayTo(mem, root, page), WayTo(mem', root, page);
    forall k | 0 <= k < |after| && NoExecute in after[k].flags :: k < |before| && NoExecute in before[k].flags
  }

  /**
   The tables on the way to any page, after one was mapped: those of both ways have the
   flags asked for in addition to their own, new ones have just those, all others are as
   they were.
   */
  lemma {:induction false} MapPageWays(mem: Memory, pool: seq<Frame>, root: Frame, lo: nat, hi: nat,
                                       page: seq<Index>, leaf: Entry, parent: set<Flag>, q: seq<Index>)
    requires Part(mem, root, lo, hi) && MayMap(page, lo, hi, leaf, parent) && Fresh(mem, pool)
    requires |q| == 4 && lo <= q[0] < hi
    ensures var m := MapPage(mem, pool, root, lo, hi, page, leaf, parent);
            if q[0] == page[0] then
              WayAfter(WayTo(mem, root, q), WayTo(m.mem, root, q), page[1..], q[1..], parent, pool)
            else WayTo(m.mem, root, q) == WayTo(mem, root, q)
  {
    hide Owned, Tree, Clean, MapTo, OwnedBy, Way, WayAfter;
    var o, t, i := Below(mem, pool, root, lo, hi, page, leaf, parent), mem[root], page[0];
    var m2 := o.mem[root := t[i := o.entry]];
    BelowReplaces(mem, pool, root, lo, hi, page, leaf, parent);
    if q[0] == i {
      ReplacedEntry(mem, o.mem, root, t, lo, i, hi, o.entry, 4);
      WayFraming(o.mem, m2, o.entry, 4, q[1..]);
      MapToWays(mem, pool, t[i], 4, page[1..], leaf, parent, q[1..]);
    } else {
      KeptEntry(mem, o.mem, root, t, lo, i, hi, o.entry, 4, q[0]);
      WayFraming(mem, m2, t[q[0]], 4, q[1..]);
    }
  }

  /** A mapped page has three tables on its way, all of which have the flags asked for. */
  lemma {:induction false} MapPageAllows(mem: Memory, pool: seq<Frame>, root: Frame, lo: nat, hi: nat,
                                         page: seq<Index>, leaf: Entry, parent: set<Flag>)
    requires Part(mem, root, lo, hi) && MayMap(page, lo, hi, leaf, parent) && Fresh(mem, pool)
    ensures var m := MapPage(mem, pool, root, lo, hi, page, leaf, parent);
            m.result == Mapped ==> |WayTo(m.mem, root, page)| == 3 && Allows(m.mem, root, page, parent)
  {
    hide Owned, Tree, Clean, MapTo, OwnedBy, Way, Translate, MapPage, Part;
    MapPageWays(mem, pool, root, lo, hi, page, leaf, parent, page);
    MapPageWalks(mem, pool, root, lo, hi, page, leaf, parent, page);
  }

  /** No page loses anything, and none that can be executed stops being so. */
  lemma {:induction false} MapPageTakesNothing(mem: Memory, pool: seq<Frame>, root: Frame, lo: nat, hi: nat,
                                               page: seq<Index>, leaf: Entry, parent: set<Flag>, q: seq<Index>)
    requires Part(mem, root, lo, hi) && MayMap(page, lo, hi, leaf, parent) && Fresh(mem, pool)
    requires |q| == 4 && lo <= q[0] < hi
    ensures var m := MapPage(mem, pool, root, lo, hi, page, leaf, parent);
            && (Walk(mem, root, q).MappedTo? ==> WayGrows(mem, m.mem, root, q))
            && (NoExecute !in parent ==> ForbidsNoMore(mem, m.mem, root, q))
  {
    hide Owned, Tree, Clean, MapTo, OwnedBy, Way, Translate, MapPage, Part;
    MapPageWays(mem, pool, root, lo, hi, page, leaf, parent, q);
    if Walk(mem, root, q).MappedTo? {
      MapPageResult(mem, pool, root, lo, hi, page, leaf, parent);
      MapPageWalks(mem, pool, root, lo, hi, page, leaf, parent, q);
      SameLength(mem, MapPage(mem, pool, root, lo, hi, page, leaf, parent).mem, root, q);
    }
  }

  lemma {:induction false} SameLength(mem: Memory, mem': Memory, root: Frame, q: seq<Index>)
    requires |q| == 4 && Walk(mem, root, q).MappedTo? && SamePlace(Walk(mem, root, q), Walk(mem', root, q))
    ensures |WayTo(mem', root, q)| == |WayTo(mem, root, q)|
  {
  }
}
