/** The operations on the page tables of user tasks, as the kernel carries them out. */
module UserPageTable {
  import opened PageTables
  import opened Sequences
  import opened Mapper
  import opened SpaceMapper
  import opened FreeOrder
  import opened UpperHalves
  import opened AddressSpaces
  import opened Wrappers

  class Paging {
    // The tables in physical memory, by frame.
    var mem: Memory
    // The frames the frame allocator will hand out, first one first; freed frames go last.
    var pool: seq<Frame>
    // The level-4 table the kernel booted with, and those of the user tasks.
    var kernel: Frame
    ghost var live: set<Frame>
    ghost var base: set<Frame>

    ghost function Abs(): State
      reads this
    {
      State(mem, pool, kernel, live, base)
    }

    ghost predicate Valid()
      reads this
    {
      Inv(Abs()) && UpperTrees(Abs())
    }

    constructor (mem: Memory, pool: seq<Frame>, kernel: Frame)
      requires Part(mem, kernel, 256, 512) && Fresh(mem, pool)
      ensures Valid() && Shares(Abs()) && Abs() == State(mem, pool, kernel, {}, mem.Keys)
    {
      this.mem, this.pool, this.kernel := mem, pool, kernel;
      this.live, this.base := {}, mem.Keys;
      FramesInMemory(mem, kernel, 256, 512);
      BootInv(mem, pool, kernel);
      BootUpperTrees(mem, pool, kernel);
    }

    /** A new level-4 table that shares the upper half of `table`; none without memory. */
    method NewFrom(table: Frame) returns (r: Option<Frame>)
      requires Valid() && (table == kernel || table in live)
      modifies this
      ensures Valid() && Abs() == Step(old(Abs()), Create(table))
      ensures r == if old(pool) == [] then None else Some(old(pool)[0])
    {
      hide Owned, OwnedBy, Tree, Trees, Clean, Frames, MapPage, DropOrder, Part;
      StepKeepsInv(Abs(), Create(table));
      StepKeepsUpperTrees(Abs(), Create(table));
      if pool == [] {
        return None;
      }
      var frame := pool[0];
      AllInMemory(Abs());
      assert frame !in mem && table in mem;
      pool := pool[1..];
      mem := mem[frame := Zeroed()];
      for index := 256 to 512
        invariant pool == old(pool)[1..] && kernel == old(kernel) && live == old(live) && base == old(base)
        invariant frame in mem && table in mem && mem[table] == old(mem)[table]
        invariant mem == old(mem)[frame := mem[frame]]
        invariant mem[frame] == Zeroed()[..256] + mem[table][256..index] + Zeroed()[index..]
      {
        mem := mem[frame := mem[frame][index := mem[table][index]]];
      }
      assert mem[frame] == HalfCopy(old(mem)[table]);
      live := live + {frame};
      return Some(frame);
    }

    method DeallocateFrame(frame: Frame)
      requires frame in mem
      modifies this`mem, this`pool
      ensures mem == old(mem) - {frame} && pool == old(pool) + [frame]
    {
      mem := mem - {frame};
      pool := pool + [frame];
    }

    /**
     Frees the tables below an entry, then the table it leads to. Every table is still in
     memory when it is read.
     */
    method UnmapWorker(entry: Entry, level: nat)
      requires 2 <= level <= 4 && Tree(mem, entry, level)
      modifies this`mem, this`pool
      ensures mem == old(mem) - Owned(old(mem), entry, level)
      ensures pool == old(pool) + Freed(old(mem), entry, level)
      decreases level
    {
      hide Owned, OwnedBy, Tree, Trees, Freed, FreedBy;
      EntryFreed(mem, entry, level);
      if Present !in entry.flags || HugePage in entry.flags {
        return;
      }
      ghost var t := mem[entry.frame];
      if level != 2 {
        for i := 0 to 512
          invariant mem == old(mem) - OwnedBy(old(mem), t, 0, i, level - 1)
          invariant pool == old(pool) + FreedBy(old(mem), t, i, level - 1)
          invariant entry.frame in mem && mem[entry.frame] == t
        {
          OneEntryFreed(old(mem), t, i, 512, level - 1);
          UnmapWorker(mem[entry.frame][i], level - 1);
        }
      }
      DeallocateFrame(entry.frame);
    }

    /** What is freed for an entry, in terms of the table it leads to. */
    static lemma {:induction false} EntryFreed(m: Memory, e: Entry, level: nat)
      requires 2 <= level && Tree(m, e, level)
      ensures !e.IsTable(level) ==> Owned(m, e, level) == {} && Freed(m, e, level) == []
      ensures e.IsTable(level) ==>
                && e.frame in m
                && e.frame !in OwnedBy(m, m[e.frame], 0, 512, level - 1)
                && Trees(m, m[e.frame], 0, 512, level - 1)
                && OwnedBy(m, m[e.frame], 0, 0, level - 1) == {}
                && FreedBy(m, m[e.frame], 0, level - 1) == []
                && Owned(m, e, level)
                   == (if level == 2 then {} else OwnedBy(m, m[e.frame], 0, 512, level - 1)) + {e.frame}
                && Freed(m, e, level) == (if level == 2 then [] else FreedBy(m, m[e.frame], 512, level - 1)) + [e.frame]
    {
    }

    /** When the entries before `i` are done, entry `i` is still as it was; then it is done too. */
    static lemma {:induction false} OneEntryFreed(m: Memory, t: Table, i: nat, hi: nat, level: nat)
      requires i < hi <= 512 && Trees(m, t, 0, hi, level)
      ensures var m1 := m - OwnedBy(m, t, 0, i, level);
              && Tree(m1, t[i], level)
              && Owned(m1, t[i], level) <= OwnedBy(m, t, 0, hi, level)
              && m1 - Owned(m1, t[i], level) == m - OwnedBy(m, t, 0, i + 1, level)
              && FreedBy(m, t, i, level) + Freed(m1, t[i], level) == FreedBy(m, t, i + 1, level)
    {
      hide Owned, Tree, Freed;
      var m1 := m - OwnedBy(m, t, 0, i, level);
      TreeInMemory(m, t[i], level);
      forall f | f in OwnedBy(m, t, 0, i, level) ensures f !in Owned(m, t[i], level) {
        var j :| 0 <= j < i && f in Owned(m, t[j], level);
        assert Owned(m, t[j], level) !! Owned(m, t[i], level);
      }
      TreeFraming(m, m1, t[i], level);
      OwnedFraming(m, m1, t[i], level);
      FreedFraming(m, m1, t[i], level);
      assert OwnedBy(m, t, 0, i + 1, level) == OwnedBy(m, t, 0, i, level) + Owned(m, t[i], level);
    }

    /** Frees the tables of the lower half, then the level-4 table itself. */
    method FreeTables(root: Frame)
      requires Part(mem, root, 0, 256)
      modifies this`mem, this`pool
      ensures mem == old(mem) - Private(old(mem), root)
      ensures pool == old(pool) + DropOrder(old(mem), root)
    {
      hide Owned, OwnedBy, Tree, Trees, Clean, Freed, FreedBy;
      ghost var m, t := mem, mem[root];
      NothingFreed(m, t);
      for i := 0 to 256
        invariant mem == m - OwnedBy(m, t, 0, i, 4)
        invariant pool == old(pool) + FreedBy(m, t, i, 4)
        invariant root in mem && mem[root] == t
      {
        OneEntryFreed(m, t, i, 256, 4);
        UnmapWorker(mem[root][i], 4);
      }
      DeallocateFrame(root);
    }

    static lemma {:induction false} NothingFreed(m: Memory, t: Table)
      ensures OwnedBy(m, t, 0, 0, 4) == {} && FreedBy(m, t, 0, 4) == []
    {
    }

    method DropSpace(root: Frame)
      requires Valid() && root in live
      modifies this
      ensures Valid() && Abs() == Step(old(Abs()), Drop(root))
    {
      hide Owned, OwnedBy, Trees, Clean, Frames, DropOrder;
      StepKeepsInv(Abs(), Drop(root));
      StepKeepsUpperTrees(Abs(), Drop(root));
      assert Space(mem, base, root);
      FreeTables(root);
      live := live - {root};
    }

    /** Maps one page of a space, in either half. */
    method MapUserPage(root: Frame, page: seq<Index>, leaf: Entry, parent: set<Flag>) returns (r: MapResult)
      requires Valid() && root in live && MayMap(page, 0, 512, leaf, parent)
      modifies this
      ensures Valid() && Abs() == Step(old(Abs()), Map(root, page, leaf, parent))
      ensures Part(old(mem), root, 0, 512)
      ensures Mapping(mem, pool, r) == MapPage(old(mem), old(pool), root, 0, 512, page, leaf, parent)
    {
      hide Owned, OwnedBy, Trees, Clean, Frames, MapTo, Uppers, Upper, Part;
      StepKeepsInv(Abs(), Map(root, page, leaf, parent));
      StepKeepsUpperTrees(Abs(), Map(root, page, leaf, parent));
      WholePart(Abs(), root);
      ghost var half := if page[0] < 256 then (0, 256) else (256, 512);
      HalfPart(Abs(), root, half.0, half.1);
      assert MapPage(mem, pool, root, 0, 512, page, leaf, parent)
          == MapPage(mem, pool, root, half.0, half.1, page, leaf, parent);
      var m := MapPage(mem, pool, root, 0, 512, page, leaf, parent);
      if page[0] >= 256 {
        EntryAfter(mem, pool, Roots(Abs()), root, page, leaf, parent);
        base := base + TakenFrames(pool, m.pool);
      }
      mem, pool, r := m.mem, m.pool, m.result;
    }

    static lemma {:induction false} HalfPart(s: State, r: Frame, lo: nat, hi: nat)
      requires Inv(s) && UpperTrees(s) && r in s.live && ((lo == 0 && hi == 256) || (lo == 256 && hi == 512))
      ensures Part(s.mem, r, lo, hi)
    {
      hide Part, Meet, Upper;
      SpaceFacts(s, r);
    }

    static lemma {:induction false} BootUpperTrees(mem: Memory, pool: seq<Frame>, kernel: Frame)
      requires Part(mem, kernel, 256, 512)
      ensures UpperTrees(State(mem, pool, kernel, {}, mem.Keys))
    {
    }

    /** A frame for data: it leaves the pool and becomes no table. */
    method AllocateFrame() returns (r: Option<Frame>)
      requires Valid()
      modifies this
      ensures Valid() && Abs() == Step(old(Abs()), TakeFrame)
      ensures r == if old(pool) == [] then None else Some(old(pool)[0])
    {
      hide Owned, OwnedBy, Trees, Clean, Frames;
      StepKeepsInv(Abs(), TakeFrame);
      StepKeepsUpperTrees(Abs(), TakeFrame);
      if pool == [] {
        return None;
      }
      r := Some(pool[0]);
      pool := pool[1..];
    }
  }
}
