/**
 Mapping one page: the walk that the paging library performs below an entry, creating the
 missing tables out of the frames its allocator hands out. The frames still to be handed
 out are `pool`, first one first.
 */
module Mapper {
  import opened PageTables
  import opened Sequences

  datatype MapResult = Mapped | PageAlreadyMapped | ParentEntryHugePage | FrameAllocationFailed

  /** What the walk leaves: the entry it started at, memory, the frames not yet handed out. */
  datatype Outcome = Outcome(entry: Entry, mem: Memory, pool: seq<Frame>, result: MapResult)

  /** The pool holds frames that are free, each once. */
  ghost predicate Fresh(mem: Memory, pool: seq<Frame>) {
    && NoDuplicates(pool)
    && forall f | f in pool :: f !in mem
  }

  /** The flags a caller may ask for on the tables it passes through. */
  predicate TableFlags(flags: set<Flag>) {
    Present in flags && HugePage !in flags
  }

  function MapTo(mem: Memory, pool: seq<Frame>, e: Entry, level: nat, path: seq<Index>,
                 leaf: Entry, parent: set<Flag>): (o: Outcome)
    requires |path| + 1 == level
    requires Tree(mem, e, level) && Clean(mem, e, level) && TableFlags(parent)
    decreases level
  {
    if level == 1 then
      if e == UNUSED then Outcome(leaf, mem, pool, Mapped)
      else Outcome(e, mem, pool, PageAlreadyMapped)
    else if e == UNUSED then
      if pool == [] then Outcome(e, mem, pool, FrameAllocationFailed)
      else Stored(Entry(pool[0], parent), Zeroed(), path[0],
                  MapTo(mem[pool[0] := Zeroed()], pool[1..], UNUSED, level - 1, path[1..], leaf, parent))
    else if HugePage in e.flags then
      Outcome(Entry(e.frame, e.flags + parent), mem, pool, ParentEntryHugePage)
    else
      Child(mem, e, level, path[0]);
      Stored(Entry(e.frame, e.flags + parent), mem[e.frame], path[0],
             MapTo(mem, pool, mem[e.frame][path[0]], level - 1, path[1..], leaf, parent))
  }

  /** The child entry is written back into table `t`, to which `e` leads. */
  function Stored(e: Entry, t: Table, i: Index, o: Outcome): Outcome {
    Outcome(e, o.mem[e.frame := t[i := o.entry]], o.pool, o.result)
  }

  /** How many frames a walk took. */
  ghost function Count(pool: seq<Frame>, o: Outcome): int {
    |pool| - |o.pool|
  }

  ghost function Taken(pool: seq<Frame>, o: Outcome): set<Frame>
    requires 0 <= Count(pool, o)
  {
    Elements(pool[..Count(pool, o)])
  }

  /**
   Replacing entry `i` of a table whose entries `lo..hi` are separate trees by an entry
   over new tables keeps them separate trees; the others keep what is below them.
   `m0` is memory before the change, `m1` memory when the tables below `c` are done.
   */
  ghost predicate Replacing(m0: Memory, m1: Memory, frame: Frame, t: Table, lo: nat, i: nat, hi: nat, c: Entry,
                            level: nat) {
    && lo <= i < hi <= 512
    && Trees(m0, t, lo, hi, level)
    && frame !in OwnedBy(m0, t, lo, hi, level)
    && m0.Keys <= m1.Keys
    && (forall f | f in m0 && f !in Owned(m0, t[i], level) && f != frame :: m1[f] == m0[f])
    && Tree(m1, c, level)
    && frame !in Owned(m1, c, level)
    && (forall f | f in Owned(m1, c, level) && f in m0 :: f in Owned(m0, t[i], level))
  }

  lemma {:induction false} ReplacedEntry(m0: Memory, m1: Memory, frame: Frame, t: Table, lo: nat, i: nat, hi: nat,
                                         c: Entry, level: nat)
    requires Replacing(m0, m1, frame, t, lo, i, hi, c, level)
    ensures var m2 := m1[frame := t[i := c]];
            && Same(m1, m2, Owned(m1, c, level))
            && Owned(m2, c, level) == Owned(m1, c, level)
            && Tree(m2, c, level)
  {
    var m2 := m1[frame := t[i := c]];
    TreeInMemory(m1, c, level);
    OwnedFraming(m1, m2, c, level);
    TreeFraming(m1, m2, c, level);
  }

  lemma {:induction false} KeptEntry(m0: Memory, m1: Memory, frame: Frame, t: Table, lo: nat, i: nat, hi: nat,
                                     c: Entry, level: nat, j: nat)
    requires Replacing(m0, m1, frame, t, lo, i, hi, c, level)
    requires lo <= j < hi && j != i
    ensures var m2 := m1[frame := t[i := c]];
            && Same(m0, m2, Owned(m0, t[j], level))
            && Owned(m2, t[j], level) == Owned(m0, t[j], level)
            && Tree(m2, t[j], level)
            && Owned(m0, t[j], level) !! Owned(m0, t[i], level)
            && Owned(m0, t[j], level) !! Owned(m1, c, level)
  {
    var m2 := m1[frame := t[i := c]];
    TreeInMemory(m0, t[j], level);
    assert Owned(m0, t[j], level) !! Owned(m0, t[i], level);
    assert Owned(m0, t[j], level) <= OwnedBy(m0, t, lo, hi, level);
    OwnedFraming(m0, m2, t[j], level);
    TreeFraming(m0, m2, t[j], level);
  }

  lemma {:induction false} Replace(m0: Memory, m1: Memory, frame: Frame, t: Table, lo: nat, i: nat, hi: nat, c: Entry,
                                   level: nat)
    requires Replacing(m0, m1, frame, t, lo, i, hi, c, level)
    ensures var m2 := m1[frame := t[i := c]];
            && Trees(m2, t[i := c], lo, hi, level)
            && frame !in OwnedBy(m2, t[i := c], lo, hi, level)
            && OwnedBy(m2, t[i := c], lo, hi, level)
                == OwnedBy(m0, t, lo, hi, level) - Owned(m0, t[i], level) + Owned(m1, c, level)
  {
    var t': Table := t[i := c];
    var m2 := m1[frame := t'];
    ReplacedEntry(m0, m1, frame, t, lo, i, hi, c, level);
    forall j | lo <= j < hi && j != i
      ensures Owned(m2, t'[j], level) == Owned(m0, t[j], level)
      ensures Tree(m2, t'[j], level)
      ensures Owned(m0, t[j], level) !! Owned(m0, t[i], level)
      ensures Owned(m0, t[j], level) !! Owned(m1, c, level)
    {
      KeptEntry(m0, m1, frame, t, lo, i, hi, c, level, j);
    }
    OwnedReplaced(m0, m1, m2, t, lo, i, hi, c, level);
  }

  lemma {:induction false} OwnedReplaced(m0: Memory, m1: Memory, m2: Memory, t: Table, lo: nat, i: nat, hi: nat,
                                         c: Entry, level: nat)
    requires lo <= i < hi <= 512
    requires Owned(m2, c, level) == Owned(m1, c, level)
    requires forall j | lo <= j < hi && j != i ::
               && Owned(m2, t[j], level) == Owned(m0, t[j], level)
               && Owned(m0, t[j], level) !! Owned(m0, t[i], level)
    ensures OwnedBy(m2, t[i := c], lo, hi, level)
            == OwnedBy(m0, t, lo, hi, level) - Owned(m0, t[i], level) + Owned(m1, c, level)
  {
    var t': Table := t[i := c];
    forall f | f in OwnedBy(m0, t, lo, hi, level) && f !in Owned(m0, t[i], level)
      ensures f in OwnedBy(m2, t', lo, hi, level)
    {
      var j :| lo <= j < hi && f in Owned(m0, t[j], level);
      assert f in Owned(m2, t'[j], level);
    }
    forall f | f in Owned(m1, c, level) ensures f in OwnedBy(m2, t', lo, hi, level) {
      assert f in Owned(m2, t'[i], level);
    }
    forall f | f in OwnedBy(m2, t', lo, hi, level) && f !in Owned(m1, c, level)
      ensures f in OwnedBy(m0, t, lo, hi, level) && f !in Owned(m0, t[i], level)
    {
      var j :| lo <= j < hi && f in Owned(m2, t'[j], level);
      assert f in Owned(m0, t[j], level);
    }
  }

  /** What mapping a page does to the tables. */
  ghost predicate Extends(mem: Memory, pool: seq<Frame>, e: Entry, level: nat, o: Outcome) {
    && 0 <= Count(pool, o)
    && o.pool == pool[Count(pool, o)..]
    && o.mem.Keys == mem.Keys + Taken(pool, o)
    && (forall f | f in mem && f !in Owned(mem, e, level) :: o.mem[f] == mem[f])
    && Owned(o.mem, o.entry, level) == Owned(mem, e, level) + Taken(pool, o)
    && Tree(o.mem, o.entry, level)
    && Clean(o.mem, o.entry, level)
  }

  lemma {:induction false} StoredExtends(mem: Memory, pool: seq<Frame>, e: Entry, e': Entry, level: nat, i: Index,
                                         o: Outcome)
    requires e.IsTable(level) && e'.IsTable(level) && e'.frame == e.frame
    requires Tree(mem, e, level) && Clean(mem, e, level)
    requires Fresh(mem, pool)
    requires Extends(mem, pool, mem[e.frame][i], level - 1, o)
    ensures Extends(mem, pool, e, level, Stored(e', mem[e.frame], i, o))
  {
    var m2 := o.mem[e.frame := mem[e.frame][i := o.entry]];
    StoredTree(mem, pool, e, e', level, i, o);
    StoredClean(mem, pool, e, e', level, i, o);
    hide Owned, OwnedBy, Tree, Trees, Clean;
    Child(mem, e, level, i);
    TreeInMemory(mem, e, level);
  }

  lemma {:induction false} StoredReplaces(mem: Memory, pool: seq<Frame>, e: Entry, level: nat, i: Index, o: Outcome)
    requires e.IsTable(level) && Tree(mem, e, level) && Fresh(mem, pool)
    requires Extends(mem, pool, mem[e.frame][i], level - 1, o)
    ensures Replacing(mem, o.mem, e.frame, mem[e.frame], 0, i, 512, o.entry, level - 1)
  {
  }

  lemma {:induction false} StoredTree(mem: Memory, pool: seq<Frame>, e: Entry, e': Entry, level: nat, i: Index,
                                      o: Outcome)
    requires e.IsTable(level) && e'.IsTable(level) && e'.frame == e.frame
    requires Tree(mem, e, level) && Fresh(mem, pool)
    requires Extends(mem, pool, mem[e.frame][i], level - 1, o)
    ensures var m2 := o.mem[e.frame := mem[e.frame][i := o.entry]];
            Tree(m2, e', level) && Owned(m2, e', level) == Owned(mem, e, level) + Taken(pool, o)
  {
    hide Trees, Clean;
    var t := mem[e.frame];
    StoredReplaces(mem, pool, e, level, i, o);
    Child(mem, e, level, i);
    Replace(mem, o.mem, e.frame, t, 0, i, 512, o.entry, level - 1);
    var before, own := OwnedBy(mem, t, 0, 512, level - 1), Owned(mem, t[i], level - 1);
    assert own <= before;
    assert before - own + (own + Taken(pool, o)) == before + Taken(pool, o);
  }

  lemma {:induction false} StoredClean(mem: Memory, pool: seq<Frame>, e: Entry, e': Entry, level: nat, i: Index,
                                       o: Outcome)
    requires e.IsTable(level) && e'.IsTable(level) && e'.frame == e.frame
    requires Tree(mem, e, level) && Clean(mem, e, level) && Fresh(mem, pool)
    requires Extends(mem, pool, mem[e.frame][i], level - 1, o)
    ensures Clean(o.mem[e.frame := mem[e.frame][i := o.entry]], e', level)
  {
    hide Owned, OwnedBy, Trees;
    var t := mem[e.frame];
    var t': Table := t[i := o.entry];
    var m2 := o.mem[e.frame := t'];
    StoredReplaces(mem, pool, e, level, i, o);
    forall j | 0 <= j < 512 ensures Clean(m2, t'[j], level - 1) {
      if j == i {
        ReplacedEntry(mem, o.mem, e.frame, t, 0, i, 512, o.entry, level - 1);
        CleanFraming(o.mem, m2, o.entry, level - 1);
      } else {
        KeptEntry(mem, o.mem, e.frame, t, 0, i, 512, o.entry, level - 1, j);
        Child(mem, e, level, j);
        CleanFraming(mem, m2, t[j], level - 1);
      }
    }
  }

  lemma {:induction false} FreshExtends(mem: Memory, pool: seq<Frame>, parent: set<Flag>, level: nat, o: Outcome)
    requires level > 1 && TableFlags(parent)
    requires Fresh(mem, pool) && pool != []
    requires Extends(mem[pool[0] := Zeroed()], pool[1..], Entry(pool[0], parent), level, o)
    ensures Extends(mem, pool, UNUSED, level, o)
  {
    var n := Count(pool[1..], o);
    var m0 := mem[pool[0] := Zeroed()];
    assert pool[1..][n..] == pool[n + 1..];
    assert pool[..n + 1] == [pool[0]] + pool[1..][..n];
    ElementsOfConcat([pool[0]], pool[1..][..n]);
    ZeroedTable(m0, Entry(pool[0], parent), level);
    hide Owned, OwnedBy, Tree, Trees, Clean;
  }

  lemma {:induction false} ZeroedOwnsNothing(mem: Memory, lo: nat, level: nat)
    requires lo <= 512
    ensures OwnedBy(mem, Zeroed(), lo, 512, level) == {}
    ensures Trees(mem, Zeroed(), lo, 512, level)
    ensures forall i | 0 <= i < 512 :: Clean(mem, Zeroed()[i], level)
  {
  }

  /**
   Every frame taken ends up as a table below the entry, whether or not the page could be
   mapped, and no table elsewhere changes.
   */
  lemma {:induction false} MapToExtends(mem: Memory, pool: seq<Frame>, e: Entry, level: nat, path: seq<Index>,
                                        leaf: Entry, parent: set<Flag>)
    requires |path| + 1 == level
    requires Tree(mem, e, level) && Clean(mem, e, level) && TableFlags(parent)
    requires Fresh(mem, pool) && Present in leaf.flags
    ensures Extends(mem, pool, e, level, MapTo(mem, pool, e, level, path, leaf, parent))
    decreases level
  {
    if level == 1 || (e == UNUSED && pool == []) || HugePage in e.flags {
      MapToHere(mem, pool, e, level, path, leaf, parent);
    } else if e == UNUSED {
      MapToFresh(mem, pool, level, path, leaf, parent);
    } else {
      Child(mem, e, level, path[0]);
      var o := MapTo(mem, pool, mem[e.frame][path[0]], level - 1, path[1..], leaf, parent);
      MapToExtends(mem, pool, mem[e.frame][path[0]], level - 1, path[1..], leaf, parent);
      StoredExtends(mem, pool, e, Entry(e.frame, e.flags + parent), level, path[0], o);
    }
  }

  lemma {:induction false} MapToHere(mem: Memory, pool: seq<Frame>, e: Entry, level: nat, path: seq<Index>,
                                     leaf: Entry, parent: set<Flag>)
    requires |path| + 1 == level
    requires Tree(mem, e, level) && Clean(mem, e, level) && TableFlags(parent)
    requires Present in leaf.flags
    requires level == 1 || (e == UNUSED && pool == []) || HugePage in e.flags
    ensures Extends(mem, pool, e, level, MapTo(mem, pool, e, level, path, leaf, parent))
  {
    var o := MapTo(mem, pool, e, level, path, leaf, parent);
    assert pool[..0] == [];
    assert o.mem == mem && o.pool == pool;
    assert o.entry == e || !o.entry.IsTable(level);
    if o.entry != e {
      assert !e.IsTable(level) && Owned(mem, e, level) == {} == Owned(mem, o.entry, level);
    }
  }

  lemma {:induction false} MapToFresh(mem: Memory, pool: seq<Frame>, level: nat, path: seq<Index>, leaf: Entry,
                                      parent: set<Flag>)
    requires |path| + 1 == level > 1
    requires TableFlags(parent)
    requires Fresh(mem, pool) && pool != [] && Present in leaf.flags
    ensures Extends(mem, pool, UNUSED, level, MapTo(mem, pool, UNUSED, level, path, leaf, parent))
    decreases level, 0
  {
    var e' := Entry(pool[0], parent);
    var m0 := mem[pool[0] := Zeroed()];
    ZeroedTable(m0, e', level);
    ZeroedOwnsNothing(m0, 0, level - 1);
    var o := MapTo(m0, pool[1..], UNUSED, level - 1, path[1..], leaf, parent);
    MapToExtends(m0, pool[1..], UNUSED, level - 1, path[1..], leaf, parent);
    hide Owned, OwnedBy, Tree, Trees, Clean, Extends;
    assert Fresh(m0, pool[1..]);
    StoredExtends(m0, pool[1..], e', e', level, path[0], o);
    FreshExtends(mem, pool, parent, level, Stored(e', Zeroed(), path[0], o));
  }

  lemma {:induction false} ZeroedTable(mem: Memory, e: Entry, level: nat)
    requires e.IsTable(level) && e.frame in mem && mem[e.frame] == Zeroed()
    ensures Tree(mem, e, level) && Clean(mem, e, level) && Owned(mem, e, level) == {e.frame}
  {
    ZeroedOwnsNothing(mem, 0, level - 1);
  }

  /** Two walks end at the same place; only a huge page may have picked up flags. */
  ghost predicate SamePlace(a: Target, b: Target) {
    a == b || (a.MappedTo? && b.MappedTo? && a.rest != [] && b == a.(flags := b.flags) && a.flags <= b.flags)
  }

  /** The walk along `q` ends at a huge page, which the walk along `path` comes to as well. */
  predicate Passes(path: seq<Index>, q: seq<Index>, t: Target)
    requires |path| == |q|
  {
    && t.MappedTo? && t.rest != [] && |t.rest| <= |q|
    && q[..|q| - |t.rest|] == path[..|q| - |t.rest|]
  }

  /** A walk afterwards: a huge page that was passed has picked up the flags of the tables. */
  function Passed(path: seq<Index>, q: seq<Index>, parent: set<Flag>, t: Target): (t': Target)
    requires |path| == |q|
    ensures SamePlace(t, t')
  {
    if Passes(path, q, t) then t.(flags := t.flags + parent) else t
  }

  /** What mapping a page at `path` does to the walk along `q`. */
  ghost predicate Translates(mem: Memory, e: Entry, level: nat, path: seq<Index>, leaf: Entry, parent: set<Flag>,
                             o: Outcome, q: seq<Index>)
    requires |path| + 1 == level && |q| + 1 == level
  {
    Translate(o.mem, o.entry, level, q)
    == if q == path && o.result == Mapped then MappedTo(leaf.frame, [], leaf.flags)
       else Passed(path, q, parent, Translate(mem, e, level, q))
  }

  lemma {:induction false} RestOfPath(mem: Memory, e: Entry, level: nat, q: seq<Index>)
    requires |q| + 1 == level
    ensures var t := Translate(mem, e, level, q); t.MappedTo? ==> |t.rest| <= |q|
    decreases level
  {
    if e.IsTable(level) && e.frame in mem {
      RestOfPath(mem, mem[e.frame][q[0]], level - 1, q[1..]);
    }
  }

  /** A walk that goes through a table passes a huge page below it, if the other one goes there too. */
  lemma {:induction false} PassedBelow(path: seq<Index>, q: seq<Index>, parent: set<Flag>, t: Target)
    requires |path| == |q| > 0 && (t.MappedTo? ==> |t.rest| < |q|)
    ensures Passed(path, q, parent, t) == if q[0] == path[0] then Passed(path[1..], q[1..], parent, t) else t
  {
    if t.MappedTo? && t.rest != [] {
      var n := |q| - |t.rest|;
      assert q[..n] == [q[0]] + q[1..][..n - 1] && path[..n] == [path[0]] + path[1..][..n - 1];
      assert q[..n][0] == q[0] && path[..n][0] == path[0];
      if q[0] == path[0] && q[..n] == path[..n] {
        assert q[..n][1..] == q[1..][..n - 1] && path[..n][1..] == path[1..][..n - 1];
      }
    }
  }

  lemma {:induction false} StoredTranslates(mem: Memory, pool: seq<Frame>, e: Entry, e': Entry, level: nat,
                                            path: seq<Index>, leaf: Entry, parent: set<Flag>, o: Outcome,
                                            q: seq<Index>)
    requires |path| + 1 == level && |q| + 1 == level
    requires e.IsTable(level) && e'.IsTable(level) && e'.frame == e.frame
    requires Tree(mem, e, level)
    requires Fresh(mem, pool)
    requires Extends(mem, pool, mem[e.frame][path[0]], level - 1, o)
    requires Translates(mem, mem[e.frame][path[0]], level - 1, path[1..], leaf, parent, o, q[1..])
    ensures Translates(mem, e, level, path, leaf, parent, Stored(e', mem[e.frame], path[0], o), q)
  {
    var t, i := mem[e.frame], path[0];
    var t': Table := t[i := o.entry];
    var m2 := o.mem[e.frame := t'];
    Child(mem, e, level, i);
    assert Trees(mem, t, 0, 512, level - 1);
    TreeInMemory(mem, e, level);
    assert Replacing(mem, o.mem, e.frame, t, 0, i, 512, o.entry, level - 1);
    RestOfPath(mem, t[q[0]], level - 1, q[1..]);
    PassedBelow(path, q, parent, Translate(mem, e, level, q));
    if q[0] == i {
      ReplacedEntry(mem, o.mem, e.frame, t, 0, i, 512, o.entry, level - 1);
      TranslateFraming(o.mem, m2, o.entry, level - 1, q[1..]);
      assert path == [i] + path[1..] && q == [i] + q[1..];
    } else {
      KeptEntry(mem, o.mem, e.frame, t, 0, i, 512, o.entry, level - 1, q[0]);
      TranslateFraming(mem, m2, t[q[0]], level - 1, q[1..]);
    }
  }

  /**
   A mapped page ends at its leaf entry; every other page ends where it did before, and a
   huge page that was in the way has picked up the flags of the tables.
   */
  lemma {:induction false} MapToTranslates(mem: Memory, pool: seq<Frame>, e: Entry, level: nat, path: seq<Index>,
                                           leaf: Entry, parent: set<Flag>, q: seq<Index>)
    requires |path| + 1 == level && |q| + 1 == level
    requires Tree(mem, e, level) && Clean(mem, e, level) && TableFlags(parent)
    requires Fresh(mem, pool) && Present in leaf.flags
    ensures Translates(mem, e, level, path, leaf, parent, MapTo(mem, pool, e, level, path, leaf, parent), q)
    decreases level
  {
    if level == 1 || (e == UNUSED && pool == []) || HugePage in e.flags {
      assert level == 1 ==> path == q == [];
    } else if e == UNUSED {
      var e' := Entry(pool[0], parent);
      var m0 := mem[pool[0] := Zeroed()];
      ZeroedOwnsNothing(m0, 0, level - 1);
      ZeroedTable(m0, e', level);
      var o := MapTo(m0, pool[1..], UNUSED, level - 1, path[1..], leaf, parent);
      assert Fresh(m0, pool[1..]);
      MapToTranslates(m0, pool[1..], UNUSED, level - 1, path[1..], leaf, parent, q[1..]);
      MapToExtends(m0, pool[1..], UNUSED, level - 1, path[1..], leaf, parent);
      StoredTranslates(m0, pool[1..], e', e', level, path, leaf, parent, o, q);
      assert Translate(m0, e', level, q) == NotMapped;
    } else {
      Child(mem, e, level, path[0]);
      var o := MapTo(mem, pool, mem[e.frame][path[0]], level - 1, path[1..], leaf, parent);
      MapToTranslates(mem, pool, mem[e.frame][path[0]], level - 1, path[1..], leaf, parent, q[1..]);
      MapToExtends(mem, pool, mem[e.frame][path[0]], level - 1, path[1..], leaf, parent);
      StoredTranslates(mem, pool, e, Entry(e.frame, e.flags + parent), level, path, leaf, parent, o, q);
    }
  }

  /** Which result a walk gives, told from the translation before it. */
  lemma {:induction false} MapToResult(mem: Memory, pool: seq<Frame>, e: Entry, level: nat, path: seq<Index>,
                                       leaf: Entry, parent: set<Flag>)
    requires |path| + 1 == level
    requires Tree(mem, e, level) && Clean(mem, e, level) && TableFlags(parent)
    ensures var o := MapTo(mem, pool, e, level, path, leaf, parent);
            var before := Translate(mem, e, level, path);
            && (o.result == PageAlreadyMapped <==> before.MappedTo? && before.rest == [])
            && (o.result == ParentEntryHugePage <==> before.MappedTo? && before.rest != [])
            && (o.result == FrameAllocationFailed ==> o.pool == [])
    decreases level
  {
    if level == 1 || (e == UNUSED && pool == []) || HugePage in e.flags {
    } else if e == UNUSED {
      ZeroedOwnsNothing(mem[pool[0] := Zeroed()], 0, level - 1);
      MapToResult(mem[pool[0] := Zeroed()], pool[1..], UNUSED, level - 1, path[1..], leaf, parent);
    } else {
      Child(mem, e, level, path[0]);
      MapToResult(mem, pool, mem[e.frame][path[0]], level - 1, path[1..], leaf, parent);
    }
  }

  /** A page that is not mapped can be, if there is a frame for every table on the way. */
  lemma {:induction false} MapToSucceeds(mem: Memory, pool: seq<Frame>, e: Entry, level: nat, path: seq<Index>,
                                         leaf: Entry, parent: set<Flag>)
    requires |path| + 1 == level
    requires Tree(mem, e, level) && Clean(mem, e, level) && TableFlags(parent)
    requires Translate(mem, e, level, path) == NotMapped && |pool| + 1 >= level
    ensures MapTo(mem, pool, e, level, path, leaf, parent).result == Mapped
    decreases level
  {
    if level > 1 && e == UNUSED {
      var m0 := mem[pool[0] := Zeroed()];
      MapToSucceeds(m0, pool[1..], UNUSED, level - 1, path[1..], leaf, parent);
    } else if level > 1 {
      Child(mem, e, level, path[0]);
      MapToSucceeds(mem, pool, mem[e.frame][path[0]], level - 1, path[1..], leaf, parent);
    }
  }

  // ---- The tables on the way

  /** The entries that lead from table to table on the way to a page. */
  function Way(mem: Memory, e: Entry, level: nat, path: seq<Index>): (w: seq<Entry>)
    requires |path| + 1 == level
    ensures |w| <= |path|
    ensures Translate(mem, e, level, path).MappedTo? ==>
              |w| + |Translate(mem, e, level, path).rest| == |path|
    decreases level
  {
    if e.IsTable(level) && e.frame in mem then
      [e] + Way(mem, mem[e.frame][path[0]], level - 1, path[1..])
    else []
  }

  lemma {:induction false} WayFraming(mem: Memory, mem': Memory, e: Entry, level: nat, path: seq<Index>)
    requires |path| + 1 == level
    requires Same(mem, mem', Owned(mem, e, level))
    ensures Way(mem', e, level, path) == Way(mem, e, level, path)
    decreases level
  {
    if e.IsTable(level) {
      var c := mem[e.frame][path[0]];
      assert Owned(mem, c, level - 1) <= Owned(mem, e, level);
      WayFraming(mem, mem', c, level - 1, path[1..]);
    }
  }

  /**
   What the entries on the way to one page become when another is mapped: those that both
   ways have in common pick up the flags of the tables, the others stay, and new ones have
   just these flags.
   */
  ghost predicate WayAfter(before: seq<Entry>, after: seq<Entry>, path: seq<Index>, q: seq<Index>, parent: set<Flag>,
                           pool: seq<Frame>)
    requires |path| == |q|
  {
    && |before| <= |after| <= |q|
    && (forall k | 0 <= k < |before| ::
          after[k] == Entry(before[k].frame, before[k].flags + if q[..k] == path[..k] then parent else {}))
    && (forall k | |before| <= k < |after| :: after[k].flags == parent && after[k].frame in pool)
  }

  ghost predicate Ways(mem: Memory, pool: seq<Frame>, e: Entry, level: nat, path: seq<Index>, parent: set<Flag>,
                       o: Outcome, q: seq<Index>)
    requires |path| + 1 == level && |q| + 1 == level
  {
    WayAfter(Way(mem, e, level, q), Way(o.mem, o.entry, level, q), path, q, parent, pool)
  }

  /** One level up: the entry itself is common to all ways below it. */
  lemma {:induction false} WayAfterBelow(before: seq<Entry>, after: seq<Entry>, path: seq<Index>, q: seq<Index>,
                                         parent: set<Flag>, pool: seq<Frame>, e: Entry)
    requires |path| == |q| > 0
    requires if q[0] == path[0] then WayAfter(before, after, path[1..], q[1..], parent, pool)
             else after == before && |before| < |q|
    ensures WayAfter([e] + before, [Entry(e.frame, e.flags + parent)] + after, path, q, parent, pool)
  {
    forall k | 0 < k < |[e] + before|
      ensures q[..k] == path[..k] <==> q[0] == path[0] && q[1..][..k - 1] == path[1..][..k - 1]
    {
      assert q[..k] == [q[0]] + q[1..][..k - 1] && path[..k] == [path[0]] + path[1..][..k - 1];
      assert q[..k][0] == q[0] && path[..k][0] == path[0];
      assert q[..k][1..] == q[1..][..k - 1] && path[..k][1..] == path[1..][..k - 1];
    }
  }

  lemma {:induction false} StoredWays(mem: Memory, pool: seq<Frame>, e: Entry, level: nat, path: seq<Index>,
                                      parent: set<Flag>, o: Outcome, q: seq<Index>)
    requires |path| + 1 == level && |q| + 1 == level && TableFlags(parent)
    requires e.IsTable(level) && Tree(mem, e, level) && Fresh(mem, pool)
    requires Extends(mem, pool, mem[e.frame][path[0]], level - 1, o)
    requires Ways(mem, pool, mem[e.frame][path[0]], level - 1, path[1..], parent, o, q[1..])
    ensures Ways(mem, pool, e, level, path, parent,
                 Stored(Entry(e.frame, e.flags + parent), mem[e.frame], path[0], o), q)
  {
    hide WayAfter;
    var t, i, e' := mem[e.frame], path[0], Entry(e.frame, e.flags + parent);
    var m2 := o.mem[e.frame := t[i := o.entry]];
    var c := t[q[0]];
    var before := Way(mem, c, level - 1, q[1..]);
    Child(mem, e, level, i);
    assert Trees(mem, t, 0, 512, level - 1);
    TreeInMemory(mem, e, level);
    assert Replacing(mem, o.mem, e.frame, t, 0, i, 512, o.entry, level - 1);
    if q[0] == i {
      ReplacedEntry(mem, o.mem, e.frame, t, 0, i, 512, o.entry, level - 1);
      WayFraming(o.mem, m2, o.entry, level - 1, q[1..]);
      WayAfterBelow(before, Way(o.mem, o.entry, level - 1, q[1..]), path, q, parent, pool, e);
    } else {
      KeptEntry(mem, o.mem, e.frame, t, 0, i, 512, o.entry, level - 1, q[0]);
      WayFraming(mem, m2, c, level - 1, q[1..]);
      WayAfterBelow(before, before, path, q, parent, pool, e);
    }
  }

  /** What mapping a page does to the tables on the way to any page. */
  lemma {:induction false} MapToWays(mem: Memory, pool: seq<Frame>, e: Entry, level: nat, path: seq<Index>,
                                     leaf: Entry, parent: set<Flag>, q: seq<Index>)
    requires |path| + 1 == level && |q| + 1 == level
    requires Tree(mem, e, level) && Clean(mem, e, level) && TableFlags(parent)
    requires Fresh(mem, pool) && Present in leaf.flags
    ensures Ways(mem, pool, e, level, path, parent, MapTo(mem, pool, e, level, path, leaf, parent), q)
    decreases level
  {
    if level == 1 || (e == UNUSED && pool == []) || HugePage in e.flags {
    } else if e == UNUSED {
      var e' := Entry(pool[0], parent);
      var m0 := mem[pool[0] := Zeroed()];
      ZeroedOwnsNothing(m0, 0, level - 1);
      ZeroedTable(m0, e', level);
      var o := MapTo(m0, pool[1..], UNUSED, level - 1, path[1..], leaf, parent);
      assert Fresh(m0, pool[1..]);
      MapToWays(m0, pool[1..], UNUSED, level - 1, path[1..], leaf, parent, q[1..]);
      MapToExtends(m0, pool[1..], UNUSED, level - 1, path[1..], leaf, parent);
      StoredWays(m0, pool[1..], e', level, path, parent, o, q);
      assert Entry(e'.frame, e'.flags + parent) == e';
      assert Way(m0, e', level, q) == [e'];
      FreshWay(Way(Stored(e', Zeroed(), path[0], o).mem, e', level, q), path, q, parent, pool, e');
    } else {
      Child(mem, e, level, path[0]);
      var o := MapTo(mem, pool, mem[e.frame][path[0]], level - 1, path[1..], leaf, parent);
      MapToWays(mem, pool, mem[e.frame][path[0]], level - 1, path[1..], leaf, parent, q[1..]);
      MapToExtends(mem, pool, mem[e.frame][path[0]], level - 1, path[1..], leaf, parent);
      StoredWays(mem, pool, e, level, path, parent, o, q);
    }
  }

  lemma {:induction false} FreshWay(after: seq<Entry>, path: seq<Index>, q: seq<Index>, parent: set<Flag>,
                                    pool: seq<Frame>, e: Entry)
    requires |path| == |q| && pool != [] && e == Entry(pool[0], parent)
    requires WayAfter([e], after, path, q, parent, pool[1..])
    ensures WayAfter([], after, path, q, parent, pool)
  {
    assert parent + parent == parent && parent + {} == parent;
    assert after[0].flags == parent;
  }
}
