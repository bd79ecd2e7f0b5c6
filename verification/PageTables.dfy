/**
 The 4-level page tables of the kernel, as a map from physical frames to tables of 512
 entries. A table is reached from an entry by the entry's frame, so several entries (of
 one or of several address spaces) may lead to the same table; the predicates below say
 when they do not.

 An entry of a level-`n` table is called an entry of level `n`; a page is named by the
 table indices of its walk, highest level first.
 */
module PageTables {

  type Frame = nat

  type Index = i: nat | i < 512

  datatype Flag =
    | Present
    | Writable
    | UserAccessible
    | Accessed
    | Dirty
    | HugePage
    | Global
    | Bit10
    | NoExecute

  datatype Entry = Entry(frame: Frame, flags: set<Flag>) {

    /** The entry leads to a table one level down. */
    predicate IsTable(level: nat) {
      level > 1 && Present in flags && HugePage !in flags
    }
  }

  const UNUSED := Entry(0, {})

  type Table = t: seq<Entry> | |t| == 512 witness seq(512, _ => UNUSED)

  /** A table with every entry unused. */
  function Zeroed(): (t: Table)
    ensures forall i | 0 <= i < 512 :: t[i] == UNUSED
  {
    seq(512, _ => UNUSED)
  }

  type Memory = map<Frame, Table>

  /** Where a walk ends: at a page, inside which `rest` still names the offset. */
  datatype Target = NotMapped | MappedTo(frame: Frame, rest: seq<Index>, flags: set<Flag>)

  /** The walk of the hardware below one entry. */
  function Translate(mem: Memory, e: Entry, level: nat, path: seq<Index>): Target
    requires |path| + 1 == level
    decreases level
  {
    if Present !in e.flags then NotMapped
    else if !e.IsTable(level) then MappedTo(e.frame, path, e.flags)
    else if e.frame !in mem then NotMapped
    else Translate(mem, mem[e.frame][path[0]], level - 1, path[1..])
  }

  /** The table frames below an entry. */
  ghost function Owned(mem: Memory, e: Entry, level: nat): set<Frame>
    decreases level, 0
  {
    if !e.IsTable(level) then {}
    else if e.frame !in mem then {e.frame}
    else {e.frame} + OwnedBy(mem, mem[e.frame], 0, 512, level - 1)
  }

  /** The table frames below the entries `lo..hi` of a table. */
  ghost function OwnedBy(mem: Memory, t: Table, lo: nat, hi: nat, level: nat): set<Frame>
    requires lo <= hi <= 512
    decreases level, 1
  {
    set i, f | lo <= i < hi && f in Owned(mem, t[i], level) :: f
  }

  /** No table below the entry is reached twice, and every one of them is in memory. */
  ghost predicate Tree(mem: Memory, e: Entry, level: nat)
    decreases level, 0
  {
    e.IsTable(level) ==>
      && e.frame in mem
      && e.frame !in OwnedBy(mem, mem[e.frame], 0, 512, level - 1)
      && Trees(mem, mem[e.frame], 0, 512, level - 1)
  }

  ghost predicate Trees(mem: Memory, t: Table, lo: nat, hi: nat, level: nat)
    requires lo <= hi <= 512
    decreases level, 1
  {
    && (forall i | lo <= i < hi :: Tree(mem, t[i], level))
    && (forall i, j | lo <= i < j < hi :: Owned(mem, t[i], level) !! Owned(mem, t[j], level))
  }

  /** Every entry below is either all zero or present: nothing is hidden. */
  ghost predicate Clean(mem: Memory, e: Entry, level: nat)
    decreases level
  {
    && (e == UNUSED || Present in e.flags)
    && (e.IsTable(level) && e.frame in mem ==>
          forall i | 0 <= i < 512 :: Clean(mem, mem[e.frame][i], level - 1))
  }

  ghost predicate Same(mem: Memory, mem': Memory, frames: set<Frame>) {
    && frames <= mem.Keys
    && frames <= mem'.Keys
    && forall f | f in frames :: mem'[f] == mem[f]
  }

  lemma {:induction false} Child(mem: Memory, e: Entry, level: nat, i: nat)
    requires e.IsTable(level) && e.frame in mem && i < 512
    ensures Owned(mem, mem[e.frame][i], level - 1) <= Owned(mem, e, level)
    ensures e.frame in Owned(mem, e, level)
    ensures Tree(mem, e, level) ==> Tree(mem, mem[e.frame][i], level - 1)
    ensures Tree(mem, e, level) ==> e.frame !in Owned(mem, mem[e.frame][i], level - 1)
    ensures Clean(mem, e, level) ==> Clean(mem, mem[e.frame][i], level - 1)
  {
    assert Owned(mem, mem[e.frame][i], level - 1) <= OwnedBy(mem, mem[e.frame], 0, 512, level - 1);
    if Tree(mem, e, level) {
      assert Trees(mem, mem[e.frame], 0, 512, level - 1);
    }
  }

  lemma {:induction false} TreeInMemory(mem: Memory, e: Entry, level: nat)
    requires Tree(mem, e, level)
    ensures Owned(mem, e, level) <= mem.Keys
    decreases level
  {
    if e.IsTable(level) {
      var t := mem[e.frame];
      forall i | 0 <= i < 512 ensures Owned(mem, t[i], level - 1) <= mem.Keys {
        TreeInMemory(mem, t[i], level - 1);
      }
    }
  }

  lemma {:induction false} OwnedFraming(mem: Memory, mem': Memory, e: Entry, level: nat)
    requires Same(mem, mem', Owned(mem, e, level))
    ensures Owned(mem', e, level) == Owned(mem, e, level)
    decreases level, 0
  {
    if e.IsTable(level) {
      OwnedByFraming(mem, mem', mem[e.frame], 0, 512, level - 1);
    }
  }

  lemma {:induction false} OwnedByFraming(mem: Memory, mem': Memory, t: Table, lo: nat, hi: nat, level: nat)
    requires lo <= hi <= 512
    requires Same(mem, mem', OwnedBy(mem, t, lo, hi, level))
    ensures forall i | lo <= i < hi :: Owned(mem', t[i], level) == Owned(mem, t[i], level)
    ensures OwnedBy(mem', t, lo, hi, level) == OwnedBy(mem, t, lo, hi, level)
    decreases level, 1
  {
    forall i | lo <= i < hi ensures Owned(mem', t[i], level) == Owned(mem, t[i], level) {
      OwnedFraming(mem, mem', t[i], level);
    }
  }

  lemma {:induction false} TreeFraming(mem: Memory, mem': Memory, e: Entry, level: nat)
    requires Same(mem, mem', Owned(mem, e, level))
    ensures Tree(mem', e, level) == Tree(mem, e, level)
    decreases level, 0
  {
    if e.IsTable(level) {
      TreesFraming(mem, mem', mem[e.frame], 0, 512, level - 1);
    }
  }

  lemma {:induction false} TreesFraming(mem: Memory, mem': Memory, t: Table, lo: nat, hi: nat, level: nat)
    requires lo <= hi <= 512
    requires Same(mem, mem', OwnedBy(mem, t, lo, hi, level))
    ensures OwnedBy(mem', t, lo, hi, level) == OwnedBy(mem, t, lo, hi, level)
    ensures Trees(mem', t, lo, hi, level) == Trees(mem, t, lo, hi, level)
    decreases level, 1
  {
    OwnedByFraming(mem, mem', t, lo, hi, level);
    forall i | lo <= i < hi ensures Tree(mem', t[i], level) == Tree(mem, t[i], level) {
      TreeFraming(mem, mem', t[i], level);
    }
  }

  lemma {:induction false} CleanFraming(mem: Memory, mem': Memory, e: Entry, level: nat)
    requires Same(mem, mem', Owned(mem, e, level))
    ensures Clean(mem', e, level) == Clean(mem, e, level)
    decreases level
  {
    if e.IsTable(level) {
      var t := mem[e.frame];
      forall i | 0 <= i < 512 ensures Clean(mem', t[i], level - 1) == Clean(mem, t[i], level - 1) {
        assert Owned(mem, t[i], level - 1) <= Owned(mem, e, level);
        CleanFraming(mem, mem', t[i], level - 1);
      }
    }
  }

  /**
   Where a walk ends depends only on the tables below its entry, which may be the root of
   any graph, shared or not.
   */
  lemma {:induction false} TranslateFraming(mem: Memory, mem': Memory, e: Entry, level: nat, path: seq<Index>)
    requires |path| + 1 == level
    requires Same(mem, mem', Owned(mem, e, level))
    ensures Translate(mem', e, level, path) == Translate(mem, e, level, path)
    decreases level
  {
    if e.IsTable(level) {
      var c := mem[e.frame][path[0]];
      assert Owned(mem, c, level - 1) <= Owned(mem, e, level);
      TranslateFraming(mem, mem', c, level - 1, path[1..]);
    }
  }
}
