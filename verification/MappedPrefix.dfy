/**
 Loops that map one page after the other: what holds when some pages of a range have been
 mapped, in one half of the address space or in both.
 */
module MappedPrefix {
  import opened PageTables
  import opened Sequences
  import opened Mapper
  import opened SpaceMapper
  import opened Pages

  datatype Half = Lower | Upper | Whole

  /** The entries of a level-4 table for a half, and its pages. */
  function Lo(half: Half): nat { if half.Upper? then 256 else 0 }
  function Hi(half: Half): nat { if half.Lower? then 256 else 512 }
  function FirstPage(half: Half): nat { if half.Upper? then PAGES / 2 else 0 }
  function LastPage(half: Half): nat { if half.Lower? then PAGES / 2 else PAGES }

  ghost predicate In(half: Half, q: seq<Index>) {
    |q| == 4 && Lo(half) <= q[0] < Hi(half)
  }

  lemma {:induction false} PageInHalf(half: Half, page: nat)
    requires FirstPage(half) <= page < LastPage(half)
    ensures In(half, PathOf(page)) && PageOf(PathOf(page)) == page
  {
    LowerHalf(page);
    PageOfPath(page);
  }

  /**
   Pages `start`, `start + 1`, ... are mapped to `frames`, in order, and every other walk
   of the half ends where it did.
   */
  ghost predicate PrefixMapped(mem: Memory, mem': Memory, root: Frame, half: Half, start: nat, frames: seq<Frame>,
                               flags: set<Flag>) {
    && FirstPage(half) <= start && start + |frames| <= LastPage(half)
    && (forall k | 0 <= k < |frames| ::
          Walk(mem', root, PathOf(start + k)) == MappedTo(frames[k], [], flags))
    && (forall q: seq<Index> | In(half, q) && !(start <= PageOf(q) < start + |frames|) ::
          SamePlace(Walk(mem, root, q), Walk(mem', root, q)))
    && PrefixAllowed(mem, mem', root, half, start, |frames|, flags)
  }

  /** What the tables on the way to a page can forbid, besides execution. */
  const ACCESS: set<Flag> := {Present, Writable, UserAccessible}

  /** The tables on the way to a page allow what a leaf with these flags does. */
  ghost predicate AllowsPage(mem: Memory, root: Frame, page: nat, flags: set<Flag>)
    requires page < PAGES
  {
    Allows(mem, root, PathOf(page), flags * ACCESS)
  }

  /**
   The tables on the way to the mapped pages allow what the pages do. On the way to other
   pages that are mapped they allow what they did, and none that is new forbids execution.
   */
  ghost predicate PrefixAllowed(mem: Memory, mem': Memory, root: Frame, half: Half, start: nat, n: nat,
                                flags: set<Flag>)
    requires FirstPage(half) <= start && start + n <= LastPage(half)
  {
    && (forall page: nat | start <= page < start + n :: AllowsPage(mem', root, page, flags))
    && (forall q: seq<Index> | In(half, q) :: ForbidsNoMore(mem, mem', root, q))
    && (forall q: seq<Index> | In(half, q) && Walk(mem, root, q).MappedTo? :: WayGrows(mem, mem', root, q))
  }

  /** One step that takes nothing from any page. */
  ghost predicate TakesNothing(mem: Memory, mem': Memory, root: Frame, half: Half) {
    && (forall q: seq<Index> | In(half, q) :: ForbidsNoMore(mem, mem', root, q))
    && (forall q: seq<Index> | In(half, q) && Walk(mem, root, q).MappedTo? :: WayGrows(mem, mem', root, q))
  }

  lemma {:induction false} AllowsGrow(mem: Memory, mem': Memory, root: Frame, q: seq<Index>, need: set<Flag>)
    requires |q| == 4 && WayGrows(mem, mem', root, q) && Allows(mem, root, q, need)
    ensures Allows(mem', root, q, need)
  {
    hide WayTo;
  }

  lemma {:induction false} WayGrowsThen(mem: Memory, m0: Memory, m1: Memory, root: Frame, q: seq<Index>)
    requires |q| == 4
    ensures WayGrows(mem, m0, root, q) && WayGrows(m0, m1, root, q) ==> WayGrows(mem, m1, root, q)
    ensures ForbidsNoMore(mem, m0, root, q) && ForbidsNoMore(m0, m1, root, q) ==> ForbidsNoMore(mem, m1, root, q)
  {
    hide WayTo;
  }

  lemma {:induction false} StillAllowed(mem: Memory, m0: Memory, m1: Memory, root: Frame, half: Half, start: nat,
                                        frames: seq<Frame>, flags: set<Flag>)
    requires PrefixMapped(mem, m0, root, half, start, frames, flags) && TakesNothing(m0, m1, root, half)
    ensures PrefixAllowed(mem, m1, root, half, start, |frames|, flags)
  {
    hide Walk, PathOf, PageOf, Allows, WayGrows, ForbidsNoMore;
    forall page: nat | start <= page < start + |frames| ensures AllowsPage(m1, root, page, flags) {
      PageInHalf(half, page);
      assert AllowsPage(m0, root, page, flags);
      assert Walk(m0, root, PathOf(page)) == MappedTo(frames[page - start], [], flags);
      AllowsGrow(m0, m1, root, PathOf(page), flags * ACCESS);
    }
    forall q: seq<Index> | In(half, q)
      ensures ForbidsNoMore(mem, m1, root, q)
      ensures Walk(mem, root, q).MappedTo? ==> WayGrows(mem, m1, root, q)
    {
      WayGrowsThen(mem, m0, m1, root, q);
      if Walk(mem, root, q).MappedTo? {
        StillMapped(mem, m0, root, half, start, frames, flags, q);
      }
    }
  }

  lemma {:induction false} StillMapped(mem: Memory, mem': Memory, root: Frame, half: Half, start: nat,
                                       frames: seq<Frame>, flags: set<Flag>, q: seq<Index>)
    requires PrefixMapped(mem, mem', root, half, start, frames, flags) && In(half, q)
    requires Walk(mem, root, q).MappedTo?
    ensures Walk(mem', root, q).MappedTo?
  {
    hide Walk, PathOf, PageOf, PrefixAllowed;
    PathOfPage(q);
    if start <= PageOf(q) < start + |frames| {
      var k := PageOf(q) - start;
      assert Walk(mem', root, PathOf(start + k)) == MappedTo(frames[k], [], flags);
    } else {
      assert SamePlace(Walk(mem, root, q), Walk(mem', root, q));
    }
  }

  lemma {:induction false} NothingMapped(mem: Memory, root: Frame, half: Half, start: nat, flags: set<Flag>)
    requires FirstPage(half) <= start <= LastPage(half)
    ensures PrefixMapped(mem, mem, root, half, start, [], flags)
  {
    hide WayTo;
  }

  /** One more page: the walk of the next page is the leaf, the others are kept. */
  lemma {:induction false} OneMore(mem: Memory, m0: Memory, m1: Memory, root: Frame, half: Half, start: nat,
                                   frames: seq<Frame>, frame: Frame, flags: set<Flag>)
    requires PrefixMapped(mem, m0, root, half, start, frames, flags)
    requires start + |frames| < LastPage(half)
    requires var page := PathOf(start + |frames|);
             forall q: seq<Index> | In(half, q) ::
               if q == page then Walk(m1, root, q) == MappedTo(frame, [], flags)
               else SamePlace(Walk(m0, root, q), Walk(m1, root, q))
    requires TakesNothing(m0, m1, root, half)
    requires AllowsPage(m1, root, start + |frames|, flags)
    ensures PrefixMapped(mem, m1, root, half, start, frames + [frame], flags)
  {
    hide Walk, PathOf, PageOf, Allows, ForbidsNoMore, WayGrows;
    StillAllowed(mem, m0, m1, root, half, start, frames, flags);
    var n, frames' := |frames|, frames + [frame];
    PageInHalf(half, start + n);
    forall k | 0 <= k < n + 1
      ensures Walk(m1, root, PathOf(start + k)) == MappedTo(frames'[k], [], flags)
    {
      PageInHalf(half, start + k);
      if k < n {
        assert SamePlace(Walk(m0, root, PathOf(start + k)), Walk(m1, root, PathOf(start + k)));
      }
    }
    forall q: seq<Index> | In(half, q) && !(start <= PageOf(q) < start + n + 1)
      ensures SamePlace(Walk(mem, root, q), Walk(m1, root, q))
    {
      assert SamePlace(Walk(m0, root, q), Walk(m1, root, q));
    }
  }

  /** A page that cannot be mapped changes no walk. */
  lemma {:induction false} NoneMore(mem: Memory, m0: Memory, m1: Memory, root: Frame, half: Half, start: nat,
                                    frames: seq<Frame>, flags: set<Flag>)
    requires PrefixMapped(mem, m0, root, half, start, frames, flags)
    requires forall q: seq<Index> | In(half, q) :: SamePlace(Walk(m0, root, q), Walk(m1, root, q))
    requires TakesNothing(m0, m1, root, half)
    ensures PrefixMapped(mem, m1, root, half, start, frames, flags)
  {
    hide Walk, PathOf, PageOf, Allows, ForbidsNoMore, WayGrows;
    StillAllowed(mem, m0, m1, root, half, start, frames, flags);
    forall k | 0 <= k < |frames|
      ensures Walk(m1, root, PathOf(start + k)) == MappedTo(frames[k], [], flags)
    {
      PageInHalf(half, start + k);
      assert SamePlace(Walk(m0, root, PathOf(start + k)), Walk(m1, root, PathOf(start + k)));
    }
    forall q: seq<Index> | In(half, q) && !(start <= PageOf(q) < start + |frames|)
      ensures SamePlace(Walk(mem, root, q), Walk(m1, root, q))
    {
      assert SamePlace(Walk(m0, root, q), Walk(m1, root, q));
    }
  }

  /** The page after the ones already mapped is mapped as well, or was mapped before, or memory ran out. */
  lemma {:induction false} NextPage(mem: Memory, m0: Memory, pool: seq<Frame>, root: Frame, half: Half, start: nat,
                                    frames: seq<Frame>, frame: Frame, flags: set<Flag>, parent: set<Flag>)
    requires Part(m0, root, Lo(half), Hi(half)) && Fresh(m0, pool)
    requires PrefixMapped(mem, m0, root, half, start, frames, flags) && start + |frames| < LastPage(half)
    requires Present in flags && TableFlags(parent) && flags * ACCESS <= parent && NoExecute !in parent
    ensures var page := PathOf(start + |frames|);
            && MayMap(page, Lo(half), Hi(half), Entry(frame, flags), parent)
            && var m := MapPage(m0, pool, root, Lo(half), Hi(half), page, Entry(frame, flags), parent);
            && |m.pool| <= |pool| && m.pool == pool[|pool| - |m.pool|..]
            && (forall f | f in m.mem :: f in m0 || f in pool)
            && (forall f | f in m0 :: f in m.mem)
            && Part(m.mem, root, Lo(half), Hi(half)) && Fresh(m.mem, m.pool)
            && PrefixMapped(mem, m.mem, root, half, start, if m.result == Mapped then frames + [frame] else frames,
                            flags)
            && (m.result == PageAlreadyMapped || m.result == ParentEntryHugePage <==> Walk(mem, root, page).MappedTo?)
            && (m.result == FrameAllocationFailed ==> m.pool == [])
  {
    hide Part, Frames, Walk, MapPage, PathOf, PageOf, WayGrows, ForbidsNoMore, WayTo;
    PageInHalf(half, start + |frames|);
    var path, leaf := PathOf(start + |frames|), Entry(frame, flags);
    var lo, hi := Lo(half), Hi(half);
    assert SamePlace(Walk(mem, root, path), Walk(m0, root, path));
    MapPageExtends(m0, pool, root, lo, hi, path, leaf, parent);
    MapPageKeepsPart(m0, pool, root, lo, hi, path, leaf, parent);
    MapPageResult(m0, pool, root, lo, hi, path, leaf, parent);
    var m := MapPage(m0, pool, root, lo, hi, path, leaf, parent);
    forall q: seq<Index> | In(half, q)
      ensures if q == path && m.result == Mapped then Walk(m.mem, root, q) == MappedTo(frame, [], flags)
              else SamePlace(Walk(m0, root, q), Walk(m.mem, root, q))
    {
      MapPageWalks(m0, pool, root, lo, hi, path, leaf, parent, q);
    }
    assert TakesNothing(m0, m.mem, root, half) by {
      forall q: seq<Index> | In(half, q)
        ensures ForbidsNoMore(m0, m.mem, root, q)
        ensures Walk(m0, root, q).MappedTo? ==> WayGrows(m0, m.mem, root, q)
      {
        MapPageTakesNothing(m0, pool, root, lo, hi, path, leaf, parent, q);
      }
    }
    MapPageAllows(m0, pool, root, lo, hi, path, leaf, parent);
    if m.result == Mapped {
      OneMore(mem, m0, m.mem, root, half, start, frames, frame, flags);
    } else {
      NoneMore(mem, m0, m.mem, root, half, start, frames, flags);
    }
  }

  /** Frames taken for data: each once, none of them a table, none to be handed out again. */
  ghost predicate Apart(frames: seq<Frame>, mem: Memory, pool: seq<Frame>) {
    NoDuplicates(frames) && forall f | f in frames :: f !in mem && f !in pool
  }

  /** The first free frame, taken for data before a page is mapped, stays apart. */
  lemma {:induction false} OneMoreApart(mem: Memory, pool: seq<Frame>, mem': Memory, pool': seq<Frame>,
                                        frames: seq<Frame>)
    requires Fresh(mem, pool) && pool != [] && Apart(frames, mem, pool)
    requires forall f | f in mem' :: f in mem || f in pool[1..]
    requires forall f | f in pool' :: f in pool[1..]
    ensures Apart(frames + [pool[0]], mem', pool')
  {
    var frame := pool[0];
    assert frame !in pool[1..] && frame in pool && frame !in frames;
    NoDuplicatesConcat(frames, [frame]);
    forall f | f in frames ensures f !in mem' && f !in pool' {
      assert f !in pool[1..] by { assert forall g | g in pool[1..] :: g in pool; }
    }
  }

  lemma {:induction false} FewerApart(frames: seq<Frame>, frame: Frame, mem: Memory, pool: seq<Frame>)
    requires Apart(frames + [frame], mem, pool)
    ensures Apart(frames, mem, pool) && frame !in frames
  {
    var all := frames + [frame];
    assert forall i | 0 <= i < |frames| :: all[i] == frames[i] && all[i] != all[|frames|];
  }
}
