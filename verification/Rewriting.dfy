/**
 The two passes over the boot page tables that rewrite entries in place: clearing what the
 bootloader left mapped in the lower half, and making the kernel's half global. Neither
 needs the tables to be a tree; a table may even be reached at several levels.
 */
module Rewriting {
  import opened PageTables
  import opened SpaceMapper

  /** Entry `i` of the table at `frame`, without the flag PRESENT or with the flag GLOBAL. */
  function Unpresent(mem: Memory, frame: Frame, i: Index): Memory
    requires frame in mem
  {
    mem[frame := mem[frame][i := mem[frame][i].(flags := mem[frame][i].flags - {Present})]]
  }

  function Globalized(mem: Memory, frame: Frame, i: Index): Memory
    requires frame in mem
  {
    mem[frame := mem[frame][i := mem[frame][i].(flags := mem[frame][i].flags + {Global})]]
  }

  /**
   The pass that clears entry `i` of a table of the given level. It does not look at
   HUGE_PAGE: below an entry that is not global it always goes on to the next level.
   */
  function ClearLeaf(mem: Memory, frame: Frame, i: Index, level: nat): (m: Memory)
    requires level >= 1
    ensures m.Keys == mem.Keys
    decreases level, 0
  {
    if frame !in mem || Present !in mem[frame][i].flags then mem
    else if Global in mem[frame][i].flags || level == 1 then Unpresent(mem, frame, i)
    else ClearLeaves(mem, mem[frame][i].frame, 0, 512, level - 1)
  }

  function ClearLeaves(mem: Memory, frame: Frame, lo: nat, hi: nat, level: nat): (m: Memory)
    requires level >= 1 && lo <= hi <= 512
    ensures m.Keys == mem.Keys
    decreases level, 1, hi
  {
    if lo == hi then mem else ClearLeaf(ClearLeaves(mem, frame, lo, hi - 1, level), frame, hi - 1, level)
  }

  function GlobalizeLeaf(mem: Memory, frame: Frame, i: Index, level: nat): (m: Memory)
    requires level >= 1
    ensures m.Keys == mem.Keys
    decreases level, 0
  {
    if frame !in mem || Present !in mem[frame][i].flags then mem
    else if HugePage in mem[frame][i].flags || level == 1 then Globalized(mem, frame, i)
    else GlobalizeLeaves(Globalized(mem, frame, i), mem[frame][i].frame, 0, 512, level - 1)
  }

  function GlobalizeLeaves(mem: Memory, frame: Frame, lo: nat, hi: nat, level: nat): (m: Memory)
    requires level >= 1 && lo <= hi <= 512
    ensures m.Keys == mem.Keys
    decreases level, 1, hi
  {
    if lo == hi then mem else GlobalizeLeaf(GlobalizeLeaves(mem, frame, lo, hi - 1, level), frame, hi - 1, level)
  }

  // ---- Clearing the lower half

  /** Entries differ at most by a lost PRESENT. */
  ghost predicate Fewer(m: Memory, m': Memory) {
    && m'.Keys == m.Keys
    && forall f, i | f in m && 0 <= i < 512 :: Lost(m[f][i], m'[f][i])
  }

  ghost predicate Lost(e: Entry, e': Entry) {
    e' == e || e' == e.(flags := e.flags - {Present})
  }

  /** No page translates below the entry. */
  ghost predicate Dead(mem: Memory, e: Entry, level: nat) {
    forall path: seq<Index> | |path| + 1 == level :: Translate(mem, e, level, path) == NotMapped
  }

  /** The same, told along the tables. */
  ghost predicate AllDead(mem: Memory, e: Entry, level: nat)
    decreases level
  {
    Present in e.flags ==>
      e.IsTable(level) && (e.frame in mem ==> forall i | 0 <= i < 512 :: AllDead(mem, mem[e.frame][i], level - 1))
  }

  ghost predicate DeadEntries(mem: Memory, frame: Frame, lo: nat, hi: nat, level: nat)
    requires frame in mem && lo <= hi <= 512
  {
    forall i {:trigger mem[frame][i]} | lo <= i < hi :: AllDead(mem, mem[frame][i], level)
  }

  lemma {:induction false} AllDeadWalk(mem: Memory, e: Entry, level: nat, path: seq<Index>)
    requires |path| + 1 == level && AllDead(mem, e, level)
    ensures Translate(mem, e, level, path) == NotMapped
    decreases level
  {
    if e.IsTable(level) && e.frame in mem {
      AllDeadWalk(mem, mem[e.frame][path[0]], level - 1, path[1..]);
    }
  }

  lemma {:induction false} LivePath(mem: Memory, e: Entry, level: nat) returns (path: seq<Index>)
    requires level >= 1 && !AllDead(mem, e, level)
    ensures |path| + 1 == level && Translate(mem, e, level, path) != NotMapped
    decreases level
  {
    if e.IsTable(level) {
      var i: Index :| !AllDead(mem, mem[e.frame][i], level - 1);
      var rest := LivePath(mem, mem[e.frame][i], level - 1);
      path := [i] + rest;
      assert path[1..] == rest;
    } else {
      path := seq(level - 1, _ => 0);
    }
  }

  lemma {:induction false} DeadIsAllDead(mem: Memory, e: Entry, level: nat)
    requires level >= 1
    ensures Dead(mem, e, level) <==> AllDead(mem, e, level)
  {
    if AllDead(mem, e, level) {
      forall path: seq<Index> | |path| + 1 == level ensures Translate(mem, e, level, path) == NotMapped {
        AllDeadWalk(mem, e, level, path);
      }
    } else {
      var path := LivePath(mem, e, level);
    }
  }

  lemma {:induction false} AllDeadFewer(m: Memory, m': Memory, e: Entry, e': Entry, level: nat)
    requires Fewer(m, m') && Lost(e, e') && AllDead(m, e, level)
    ensures AllDead(m', e', level)
    decreases level
  {
    if Present in e'.flags && e.frame in m {
      forall i | 0 <= i < 512 ensures AllDead(m', m'[e.frame][i], level - 1) {
        AllDeadFewer(m, m', m[e.frame][i], m'[e.frame][i], level - 1);
      }
    }
  }

  lemma {:induction false} ClearLeafFewer(mem: Memory, frame: Frame, i: Index, level: nat)
    requires level >= 1
    ensures Fewer(mem, ClearLeaf(mem, frame, i, level))
    decreases level, 0
  {
    if frame in mem && Present in mem[frame][i].flags && Global !in mem[frame][i].flags && level > 1 {
      ClearLeavesFewer(mem, mem[frame][i].frame, 0, 512, level - 1);
    }
  }

  lemma {:induction false} ClearLeavesFewer(mem: Memory, frame: Frame, lo: nat, hi: nat, level: nat)
    requires level >= 1 && lo <= hi <= 512
    ensures Fewer(mem, ClearLeaves(mem, frame, lo, hi, level))
    decreases level, 1, hi
  {
    if lo < hi {
      ClearLeavesFewer(mem, frame, lo, hi - 1, level);
      ClearLeafFewer(ClearLeaves(mem, frame, lo, hi - 1, level), frame, hi - 1, level);
    }
  }

  /** Going down entries that are present and not global never meets a huge page that is not global. */
  ghost predicate NoHuge(mem: Memory, e: Entry, level: nat)
    decreases level
  {
    Present in e.flags && Global !in e.flags && level > 1 ==>
      HugePage !in e.flags && (e.frame in mem ==> forall i | 0 <= i < 512 :: NoHuge(mem, mem[e.frame][i], level - 1))
  }

  lemma {:induction false} NoHugeFewer(m: Memory, m': Memory, e: Entry, e': Entry, level: nat)
    requires Fewer(m, m') && Lost(e, e') && NoHuge(m, e, level)
    ensures NoHuge(m', e', level)
    decreases level
  {
    if Present in e'.flags && Global !in e'.flags && level > 1 && e.frame in m {
      forall i | 0 <= i < 512 ensures NoHuge(m', m'[e.frame][i], level - 1) {
        NoHugeFewer(m, m', m[e.frame][i], m'[e.frame][i], level - 1);
      }
    }
  }

  lemma {:induction false} ClearLeafKills(mem: Memory, frame: Frame, i: Index, level: nat)
    requires level >= 1 && frame in mem && NoHuge(mem, mem[frame][i], level)
    ensures AllDead(ClearLeaf(mem, frame, i, level), ClearLeaf(mem, frame, i, level)[frame][i], level)
    decreases level, 0
  {
    var e := mem[frame][i];
    if Present in e.flags && Global !in e.flags && level > 1 {
      var m' := ClearLeaves(mem, e.frame, 0, 512, level - 1);
      ClearLeavesFewer(mem, e.frame, 0, 512, level - 1);
      assert Lost(e, m'[frame][i]);
      if e.frame in mem {
        ClearLeavesKills(mem, e.frame, 0, 512, level - 1);
      }
    }
  }

  lemma {:induction false} ClearLeavesKills(mem: Memory, frame: Frame, lo: nat, hi: nat, level: nat)
    requires level >= 1 && lo <= hi <= 512 && frame in mem
    requires forall i | lo <= i < hi :: NoHuge(mem, mem[frame][i], level)
    ensures DeadEntries(ClearLeaves(mem, frame, lo, hi, level), frame, lo, hi, level)
    decreases level, 1, hi
  {
    hide AllDead, NoHuge, ClearLeaf;
    if lo < hi {
      var m0 := ClearLeaves(mem, frame, lo, hi - 1, level);
      var m' := ClearLeaf(m0, frame, hi - 1, level);
      ClearLeavesKills(mem, frame, lo, hi - 1, level);
      ClearLeavesFewer(mem, frame, lo, hi - 1, level);
      NoHugeFewer(mem, m0, mem[frame][hi - 1], m0[frame][hi - 1], level);
      ClearLeafKills(m0, frame, hi - 1, level);
      ClearLeafFewer(m0, frame, hi - 1, level);
      forall i | lo <= i < hi - 1 ensures AllDead(m', m'[frame][i], level) {
        AllDeadFewer(m0, m', m0[frame][i], m'[frame][i], level);
      }
    }
  }

  // ---- Which tables the clearing pass touches

  /** The frames it goes through below an entry, huge pages taken for tables included. */
  ghost function Visited(mem: Memory, e: Entry, level: nat): set<Frame>
    decreases level, 0
  {
    if Present in e.flags && Global !in e.flags && level > 1 then
      {e.frame} + (if e.frame in mem then VisitedBy(mem, mem[e.frame], 0, 512, level - 1) else {})
    else {}
  }

  ghost function VisitedBy(mem: Memory, t: Table, lo: nat, hi: nat, level: nat): set<Frame>
    requires lo <= hi <= 512
    decreases level, 1
  {
    set i, f | lo <= i < hi && f in Visited(mem, t[i], level) :: f
  }

  lemma {:induction false} VisitedFewer(m: Memory, m': Memory, e: Entry, e': Entry, level: nat)
    requires Fewer(m, m') && Lost(e, e')
    ensures Visited(m', e', level) <= Visited(m, e, level)
    decreases level
  {
    if Present in e'.flags && Global !in e'.flags && level > 1 && e.frame in m {
      var t, t' := m[e.frame], m'[e.frame];
      forall i | 0 <= i < 512 ensures Visited(m', t'[i], level - 1) <= Visited(m, t[i], level - 1) {
        VisitedFewer(m, m', t[i], t'[i], level - 1);
      }
    }
  }

  ghost predicate Outside(m: Memory, m': Memory, frames: set<Frame>) {
    m'.Keys == m.Keys && forall f | f in m && f !in frames :: m'[f] == m[f]
  }

  lemma {:induction false} ClearLeafOutside(mem: Memory, frame: Frame, i: Index, level: nat)
    requires level >= 1 && frame in mem
    ensures var m' := ClearLeaf(mem, frame, i, level);
            && Outside(mem, m', {frame} + Visited(mem, mem[frame][i], level))
            && (frame !in Visited(mem, mem[frame][i], level) ==>
                  forall j | 0 <= j < 512 && j != i :: m'[frame][j] == mem[frame][j])
    decreases level, 0
  {
    var e := mem[frame][i];
    if Present in e.flags && Global !in e.flags && level > 1 && e.frame in mem {
      ClearLeavesOutside(mem, e.frame, 0, 512, level - 1);
    } else if Present in e.flags && Global !in e.flags && level > 1 {
      ClearLeavesMissing(mem, e.frame, 0, 512, level - 1);
    }
  }

  lemma {:induction false} ClearLeavesMissing(mem: Memory, frame: Frame, lo: nat, hi: nat, level: nat)
    requires level >= 1 && lo <= hi <= 512 && frame !in mem
    ensures ClearLeaves(mem, frame, lo, hi, level) == mem
    decreases hi
  {
    if lo < hi { ClearLeavesMissing(mem, frame, lo, hi - 1, level); }
  }

  lemma {:induction false} ClearLeavesOutside(mem: Memory, frame: Frame, lo: nat, hi: nat, level: nat)
    requires level >= 1 && lo <= hi <= 512 && frame in mem
    ensures var m', visited := ClearLeaves(mem, frame, lo, hi, level), VisitedBy(mem, mem[frame], lo, hi, level);
            && Outside(mem, m', {frame} + visited)
            && (frame !in visited ==> forall j | 0 <= j < 512 && !(lo <= j < hi) :: m'[frame][j] == mem[frame][j])
    decreases level, 1, hi
  {
    hide Visited, VisitedBy, ClearLeaf, Fewer;
    if lo < hi {
      var m0 := ClearLeaves(mem, frame, lo, hi - 1, level);
      ClearLeavesOutside(mem, frame, lo, hi - 1, level);
      ClearLeavesFewer(mem, frame, lo, hi - 1, level);
      FewerEntry(mem, m0, frame, hi - 1);
      VisitedFewer(mem, m0, mem[frame][hi - 1], m0[frame][hi - 1], level);
      ClearLeafOutside(m0, frame, hi - 1, level);
      VisitedByNext(mem, mem[frame], lo, hi, level);
    }
  }

  lemma {:induction false} FewerEntry(m: Memory, m': Memory, frame: Frame, i: Index)
    requires Fewer(m, m') && frame in m
    ensures Lost(m[frame][i], m'[frame][i])
  {
  }

  lemma {:induction false} VisitedByNext(mem: Memory, t: Table, lo: nat, hi: nat, level: nat)
    requires lo < hi <= 512
    ensures VisitedBy(mem, t, lo, hi, level) == VisitedBy(mem, t, lo, hi - 1, level) + Visited(mem, t[hi - 1], level)
  {
  }

  // ---- When a huge page survives

  /** Every table it goes through is in memory and is only gone through at one level. */
  ghost predicate Leveled(mem: Memory, e: Entry, level: nat, levels: map<Frame, nat>)
    decreases level
  {
    Present in e.flags && Global !in e.flags && level > 1 ==>
      && e.frame in mem
      && e.frame in levels && levels[e.frame] == level - 1
      && forall i | 0 <= i < 512 :: Leveled(mem, mem[e.frame][i], level - 1, levels)
  }

  lemma {:induction false} LeveledFewer(m: Memory, m': Memory, e: Entry, e': Entry, level: nat,
                                        levels: map<Frame, nat>)
    requires Fewer(m, m') && Lost(e, e') && Leveled(m, e, level, levels)
    ensures Leveled(m', e', level, levels)
    decreases level
  {
    if Present in e'.flags && Global !in e'.flags && level > 1 {
      forall i | 0 <= i < 512 ensures Leveled(m', m'[e.frame][i], level - 1, levels) {
        LeveledFewer(m, m', m[e.frame][i], m'[e.frame][i], level - 1, levels);
      }
    }
  }

  /** Entries that it goes through, above level 1 and not global, are kept. */
  ghost predicate KeepsPassed(m: Memory, m': Memory, levels: map<Frame, nat>) {
    && m'.Keys == m.Keys
    && forall f, i | f in m && f in levels && levels[f] > 1 && 0 <= i < 512 ::
         Global in m[f][i].flags || m'[f][i] == m[f][i]
  }

  ghost predicate AllLeveled(mem: Memory, frame: Frame, lo: nat, hi: nat, level: nat, levels: map<Frame, nat>)
    requires frame in mem && lo <= hi <= 512
  {
    forall i {:trigger mem[frame][i]} | lo <= i < hi :: Leveled(mem, mem[frame][i], level, levels)
  }

  lemma {:induction false} ClearLeafKeepsPassed(mem: Memory, frame: Frame, i: Index, level: nat,
                                                levels: map<Frame, nat>)
    requires level >= 1 && frame in mem && frame in levels && levels[frame] == level
    requires Leveled(mem, mem[frame][i], level, levels)
    ensures KeepsPassed(mem, ClearLeaf(mem, frame, i, level), levels)
    decreases level, 0
  {
    var e := mem[frame][i];
    if Present in e.flags && Global !in e.flags && level > 1 {
      ClearLeavesKeepsPassed(mem, e.frame, 0, 512, level - 1, levels);
    }
  }

  lemma {:induction false} ClearLeavesKeepsPassed(mem: Memory, frame: Frame, lo: nat, hi: nat, level: nat,
                                                  levels: map<Frame, nat>)
    requires level >= 1 && lo <= hi <= 512 && frame in mem && frame in levels && levels[frame] == level
    requires AllLeveled(mem, frame, lo, hi, level, levels)
    ensures KeepsPassed(mem, ClearLeaves(mem, frame, lo, hi, level), levels)
    decreases level, 1, hi
  {
    hide Leveled, ClearLeaf;
    if lo < hi {
      var m0 := ClearLeaves(mem, frame, lo, hi - 1, level);
      ClearLeavesKeepsPassed(mem, frame, lo, hi - 1, level, levels);
      ClearLeavesFewer(mem, frame, lo, hi - 1, level);
      LeveledFewer(mem, m0, mem[frame][hi - 1], m0[frame][hi - 1], level, levels);
      ClearLeafKeepsPassed(m0, frame, hi - 1, level, levels);
    }
  }

  /** A huge page that it takes for a table still translates afterwards. */
  lemma {:induction false} HugeSurvives(m: Memory, m': Memory, e: Entry, level: nat, levels: map<Frame, nat>)
    requires Leveled(m, e, level, levels) && KeepsPassed(m, m', levels) && !NoHuge(m, e, level)
    ensures !AllDead(m', e, level)
    decreases level
  {
    if HugePage !in e.flags {
      var i :| 0 <= i < 512 && !NoHuge(m, m[e.frame][i], level - 1);
      HugeSurvives(m, m', m[e.frame][i], level - 1, levels);
      assert m'[e.frame][i] == m[e.frame][i];
    }
  }

  // ---- fix_bootloader_pollution

  /** The entries of the lower half of a level-4 table. */
  function FixBootloaderPollution(mem: Memory, root: Frame): Memory {
    ClearLeaves(mem, root, 0, 256, 4)
  }

  ghost predicate LowerUnmapped(mem: Memory, root: Frame) {
    forall page: seq<Index> | |page| == 4 && page[0] < 256 :: Walk(mem, root, page) == NotMapped
  }

  lemma {:induction false} LowerUnmappedIsDead(mem: Memory, root: Frame)
    requires root in mem
    ensures LowerUnmapped(mem, root) <==> DeadEntries(mem, root, 0, 256, 4)
  {
    hide AllDead, Translate;
    if DeadEntries(mem, root, 0, 256, 4) {
      forall page: seq<Index> | |page| == 4 && page[0] < 256 ensures Walk(mem, root, page) == NotMapped {
        AllDeadWalk(mem, mem[root][page[0]], 4, page[1..]);
      }
    }
    if !DeadEntries(mem, root, 0, 256, 4) {
      var i: Index :| i < 256 && !AllDead(mem, mem[root][i], 4);
      var rest := LivePath(mem, mem[root][i], 4);
      assert ([i] + rest)[1..] == rest;
      assert Walk(mem, root, [i] + rest) != NotMapped;
    }
  }

  /** Without huge pages to pass, afterwards no lower-half address translates, however tables are shared. */
  lemma {:induction false} PollutionFixed(mem: Memory, root: Frame)
    requires root in mem && forall i | 0 <= i < 256 :: NoHuge(mem, mem[root][i], 4)
    ensures LowerUnmapped(FixBootloaderPollution(mem, root), root)
  {
    hide AllDead, NoHuge, ClearLeaves, Walk;
    LowerUnmappedIsDead(FixBootloaderPollution(mem, root), root);
    ClearLeavesKills(mem, root, 0, 256, 4);
  }

  /**
   Afterwards no lower-half address translates if and only if the pass met no huge page
   that is not global.
   */
  lemma {:induction false} PollutionFixedExactly(mem: Memory, root: Frame, levels: map<Frame, nat>)
    requires root in mem && root in levels && levels[root] == 4
    requires AllLeveled(mem, root, 0, 256, 4, levels)
    ensures LowerUnmapped(FixBootloaderPollution(mem, root), root)
            <==> forall i | 0 <= i < 256 :: NoHuge(mem, mem[root][i], 4)
  {
    hide AllDead, NoHuge, Leveled, ClearLeaves, Walk;
    var m' := FixBootloaderPollution(mem, root);
    LowerUnmappedIsDead(m', root);
    if forall i | 0 <= i < 256 :: NoHuge(mem, mem[root][i], 4) {
      PollutionFixed(mem, root);
    } else {
      var i :| 0 <= i < 256 && !NoHuge(mem, mem[root][i], 4);
      ClearLeavesKeepsPassed(mem, root, 0, 256, 4, levels);
      HugeSurvives(mem, m', mem[root][i], 4, levels);
      HugeIsPassed(mem, mem[root][i], 4);
      assert m'[root][i] == mem[root][i];
    }
  }

  lemma {:induction false} HugeIsPassed(mem: Memory, e: Entry, level: nat)
    requires !NoHuge(mem, e, level)
    ensures Present in e.flags && Global !in e.flags && level > 1
  {
  }

  /** One 1 GiB page in the lower half is enough for the pass to leave an address mapped. */
  lemma {:induction false} HugePageStaysMapped()
    ensures exists mem: Memory, root: Frame ::
              root in mem && !LowerUnmapped(FixBootloaderPollution(mem, root), root)
  {
    hide ClearLeaves;
    var t4: Table := Zeroed()[0 := Entry(2, {Present})];
    var t3: Table := Zeroed()[0 := Entry(8, {Present, HugePage})];
    var mem: Memory := map[1 := t4, 2 := t3, 8 := Zeroed()];
    var levels := map[1 := 4, 2 := 3, 8 := 2];
    assert forall i | 0 <= i < 512 :: Leveled(mem, Zeroed()[i], 2, levels);
    assert forall i | 0 <= i < 512 :: Leveled(mem, t3[i], 3, levels);
    assert AllLeveled(mem, 1, 0, 256, 4, levels);
    assert !NoHuge(mem, t3[0], 3);
    assert !NoHuge(mem, mem[1][0], 4);
    PollutionFixedExactly(mem, 1, levels);
    assert 1 in mem && !LowerUnmapped(FixBootloaderPollution(mem, 1), 1);
  }

  /** No address of the upper half changes where it leads. */
  lemma {:induction false} PollutionFixKeepsUpper(mem: Memory, root: Frame, page: seq<Index>)
    requires root in mem && |page| == 4 && page[0] >= 256
    requires var upper := OwnedBy(mem, mem[root], 256, 512, 4);
             && upper <= mem.Keys && root !in upper
             && VisitedBy(mem, mem[root], 0, 256, 4) !! upper + {root}
    ensures Walk(FixBootloaderPollution(mem, root), root, page) == Walk(mem, root, page)
  {
    hide Visited, Owned, ClearLeaves, Translate;
    var m' := FixBootloaderPollution(mem, root);
    ClearLeavesOutside(mem, root, 0, 256, 4);
    assert Owned(mem, mem[root][page[0]], 4) <= OwnedBy(mem, mem[root], 256, 512, 4);
    TranslateFraming(mem, m', mem[root][page[0]], 4, page[1..]);
  }

  // ---- globalize_kernelspace

  function GlobalizeKernelspace(mem: Memory, root: Frame): Memory {
    GlobalizeLeaves(mem, root, 256, 512, 4)
  }

  /** Entries differ at most by a gained GLOBAL. */
  ghost predicate Gained(e: Entry, e': Entry) {
    e' == e || e' == e.(flags := e.flags + {Global})
  }

  ghost predicate MoreGlobal(m: Memory, m': Memory) {
    && m'.Keys == m.Keys
    && forall f, i | f in m && 0 <= i < 512 :: Gained(m[f][i], m'[f][i])
  }

  /** Every present entry reached is global. */
  ghost predicate AllGlobal(mem: Memory, e: Entry, level: nat)
    decreases level
  {
    Present in e.flags ==>
      && Global in e.flags
      && (e.IsTable(level) && e.frame in mem ==> forall i | 0 <= i < 512 :: AllGlobal(mem, mem[e.frame][i], level - 1))
  }

  ghost predicate GlobalEntries(mem: Memory, frame: Frame, lo: nat, hi: nat, level: nat)
    requires frame in mem && lo <= hi <= 512
  {
    forall i {:trigger mem[frame][i]} | lo <= i < hi :: AllGlobal(mem, mem[frame][i], level)
  }

  lemma {:induction false} AllGlobalMore(m: Memory, m': Memory, e: Entry, e': Entry, level: nat)
    requires MoreGlobal(m, m') && Gained(e, e') && AllGlobal(m, e, level)
    ensures AllGlobal(m', e', level)
    decreases level
  {
    if Present in e.flags && e.IsTable(level) && e.frame in m {
      forall i | 0 <= i < 512 ensures AllGlobal(m', m'[e.frame][i], level - 1) {
        AllGlobalMore(m, m', m[e.frame][i], m'[e.frame][i], level - 1);
      }
    }
  }

  lemma {:induction false} GlobalizeLeafMore(mem: Memory, frame: Frame, i: Index, level: nat)
    requires level >= 1
    ensures MoreGlobal(mem, GlobalizeLeaf(mem, frame, i, level))
    decreases level, 0
  {
    if frame in mem && Present in mem[frame][i].flags && HugePage !in mem[frame][i].flags && level > 1 {
      GlobalizeLeavesMore(Globalized(mem, frame, i), mem[frame][i].frame, 0, 512, level - 1);
    }
  }

  lemma {:induction false} GlobalizeLeavesMore(mem: Memory, frame: Frame, lo: nat, hi: nat, level: nat)
    requires level >= 1 && lo <= hi <= 512
    ensures MoreGlobal(mem, GlobalizeLeaves(mem, frame, lo, hi, level))
    decreases level, 1, hi
  {
    if lo < hi {
      GlobalizeLeavesMore(mem, frame, lo, hi - 1, level);
      GlobalizeLeafMore(GlobalizeLeaves(mem, frame, lo, hi - 1, level), frame, hi - 1, level);
    }
  }

  lemma {:induction false} GlobalizeLeafGlobal(mem: Memory, frame: Frame, i: Index, level: nat)
    requires level >= 1 && frame in mem
    ensures AllGlobal(GlobalizeLeaf(mem, frame, i, level), GlobalizeLeaf(mem, frame, i, level)[frame][i], level)
    decreases level, 0
  {
    var e := mem[frame][i];
    if Present in e.flags && HugePage !in e.flags && level > 1 {
      var m1 := Globalized(mem, frame, i);
      var m' := GlobalizeLeaves(m1, e.frame, 0, 512, level - 1);
      GlobalizeLeavesMore(m1, e.frame, 0, 512, level - 1);
      assert Gained(m1[frame][i], m'[frame][i]);
      if e.frame in mem {
        GlobalizeLeavesGlobal(m1, e.frame, 0, 512, level - 1);
      }
    }
  }

  lemma {:induction false} GlobalizeLeavesGlobal(mem: Memory, frame: Frame, lo: nat, hi: nat, level: nat)
    requires level >= 1 && lo <= hi <= 512 && frame in mem
    ensures GlobalEntries(GlobalizeLeaves(mem, frame, lo, hi, level), frame, lo, hi, level)
    decreases level, 1, hi
  {
    hide AllGlobal, GlobalizeLeaf;
    if lo < hi {
      var m0 := GlobalizeLeaves(mem, frame, lo, hi - 1, level);
      var m' := GlobalizeLeaf(m0, frame, hi - 1, level);
      GlobalizeLeavesGlobal(mem, frame, lo, hi - 1, level);
      GlobalizeLeafGlobal(m0, frame, hi - 1, level);
      GlobalizeLeafMore(m0, frame, hi - 1, level);
      forall i {:trigger m'[frame][i]} | lo <= i < hi - 1 ensures AllGlobal(m', m'[frame][i], level) {
        AllGlobalMore(m0, m', m0[frame][i], m'[frame][i], level);
      }
    }
  }

  /** Two walks end at the same frame and offset; the second may be global. */
  ghost predicate SameFrame(a: Target, b: Target) {
    a == b || (a.MappedTo? && b == a.(flags := a.flags + {Global}))
  }

  lemma {:induction false} TranslateMore(m: Memory, m': Memory, e: Entry, e': Entry, level: nat, path: seq<Index>)
    requires |path| + 1 == level && MoreGlobal(m, m') && Gained(e, e')
    ensures SameFrame(Translate(m, e, level, path), Translate(m', e', level, path))
    decreases level
  {
    if e.IsTable(level) && e.frame in m {
      TranslateMore(m, m', m[e.frame][path[0]], m'[e.frame][path[0]], level - 1, path[1..]);
    }
  }

  /** What is reached through global entries is global itself. */
  lemma {:induction false} AllGlobalWalk(mem: Memory, e: Entry, level: nat, path: seq<Index>)
    requires |path| + 1 == level && AllGlobal(mem, e, level) && Translate(mem, e, level, path).MappedTo?
    ensures Global in Translate(mem, e, level, path).flags
    decreases level
  {
    if e.IsTable(level) && e.frame in mem {
      AllGlobalWalk(mem, mem[e.frame][path[0]], level - 1, path[1..]);
    }
  }

  /** The flag does not decide which tables are below an entry. */
  lemma {:induction false} OwnedMore(m: Memory, m': Memory, e: Entry, e': Entry, level: nat)
    requires MoreGlobal(m, m') && Gained(e, e')
    ensures Owned(m', e', level) == Owned(m, e, level)
    decreases level, 0
  {
    if e.IsTable(level) && e.frame in m {
      OwnedByMore(m, m', m[e.frame], m'[e.frame], 0, 512, level - 1);
    }
  }

  lemma {:induction false} OwnedByMore(m: Memory, m': Memory, t: Table, t': Table, lo: nat, hi: nat, level: nat)
    requires MoreGlobal(m, m') && lo <= hi <= 512 && forall i | 0 <= i < 512 :: Gained(t[i], t'[i])
    ensures OwnedBy(m', t', lo, hi, level) == OwnedBy(m, t, lo, hi, level)
    decreases level, 1
  {
    hide Owned;
    forall i | lo <= i < hi ensures Owned(m', t'[i], level) == Owned(m, t[i], level) {
      OwnedMore(m, m', t[i], t'[i], level);
    }
  }

  lemma {:induction false} OwnedByNext(mem: Memory, t: Table, lo: nat, hi: nat, level: nat)
    requires lo < hi <= 512
    ensures OwnedBy(mem, t, lo, hi, level) == OwnedBy(mem, t, lo, hi - 1, level) + Owned(mem, t[hi - 1], level)
  {
  }

  lemma {:induction false} GlobalizeLeafOutside(mem: Memory, frame: Frame, i: Index, level: nat)
    requires level >= 1 && frame in mem
    ensures var m', owned := GlobalizeLeaf(mem, frame, i, level), Owned(mem, mem[frame][i], level);
            && Outside(mem, m', {frame} + owned)
            && (frame !in owned ==> forall j | 0 <= j < 512 && j != i :: m'[frame][j] == mem[frame][j])
    decreases level, 0
  {
    hide OwnedBy, GlobalizeLeaves;
    var e := mem[frame][i];
    if e.IsTable(level) {
      var m1 := Globalized(mem, frame, i);
      if e.frame in mem {
        GlobalizeLeavesOutside(m1, e.frame, 0, 512, level - 1);
        OwnedByMore(mem, m1, mem[e.frame], m1[e.frame], 0, 512, level - 1);
      } else {
        GlobalizeLeavesMissing(m1, e.frame, 0, 512, level - 1);
      }
    }
  }

  lemma {:induction false} GlobalizeLeavesMissing(mem: Memory, frame: Frame, lo: nat, hi: nat, level: nat)
    requires level >= 1 && lo <= hi <= 512 && frame !in mem
    ensures GlobalizeLeaves(mem, frame, lo, hi, level) == mem
    decreases hi
  {
    if lo < hi { GlobalizeLeavesMissing(mem, frame, lo, hi - 1, level); }
  }

  lemma {:induction false} GlobalizeLeavesOutside(mem: Memory, frame: Frame, lo: nat, hi: nat, level: nat)
    requires level >= 1 && lo <= hi <= 512 && frame in mem
    ensures var m', owned := GlobalizeLeaves(mem, frame, lo, hi, level), OwnedBy(mem, mem[frame], lo, hi, level);
            && Outside(mem, m', {frame} + owned)
            && (frame !in owned ==> forall j | 0 <= j < 512 && !(lo <= j < hi) :: m'[frame][j] == mem[frame][j])
    decreases level, 1, hi
  {
    hide Owned, OwnedBy, GlobalizeLeaf;
    if lo < hi {
      var m0 := GlobalizeLeaves(mem, frame, lo, hi - 1, level);
      GlobalizeLeavesOutside(mem, frame, lo, hi - 1, level);
      GlobalizeLeavesMore(mem, frame, lo, hi - 1, level);
      OwnedMore(mem, m0, mem[frame][hi - 1], m0[frame][hi - 1], level);
      GlobalizeLeafOutside(m0, frame, hi - 1, level);
      OwnedByNext(mem, mem[frame], lo, hi, level);
    }
  }

  /**
   Afterwards every present entry reached from the upper half is global, and so is every
   page there; no address, of either half, leads to another frame or has other flags.
   */
  lemma {:induction false} KernelspaceGlobalized(mem: Memory, root: Frame, page: seq<Index>)
    requires root in mem && |page| == 4
    ensures GlobalEntries(GlobalizeKernelspace(mem, root), root, 256, 512, 4)
    ensures var before, after := Walk(mem, root, page), Walk(GlobalizeKernelspace(mem, root), root, page);
            && SameFrame(before, after)
            && (page[0] >= 256 && before.MappedTo? ==> after == before.(flags := before.flags + {Global}))
  {
    hide AllGlobal, GlobalizeLeaves, Translate;
    var m' := GlobalizeKernelspace(mem, root);
    GlobalizeLeavesGlobal(mem, root, 256, 512, 4);
    GlobalizeLeavesMore(mem, root, 256, 512, 4);
    TranslateMore(mem, m', mem[root][page[0]], m'[root][page[0]], 4, page[1..]);
    if page[0] >= 256 && Walk(mem, root, page).MappedTo? {
      AllGlobalWalk(m', m'[root][page[0]], 4, page[1..]);
    }
  }

  /** No address of the lower half becomes global, if the halves share no tables. */
  lemma {:induction false} GlobalizeKeepsLower(mem: Memory, root: Frame, page: seq<Index>)
    requires root in mem && |page| == 4 && page[0] < 256
    requires var lower := OwnedBy(mem, mem[root], 0, 256, 4);
             && lower <= mem.Keys && root !in lower
             && OwnedBy(mem, mem[root], 256, 512, 4) !! lower + {root}
    ensures Walk(GlobalizeKernelspace(mem, root), root, page) == Walk(mem, root, page)
  {
    hide Owned, GlobalizeLeaves, Translate;
    var m' := GlobalizeKernelspace(mem, root);
    GlobalizeLeavesOutside(mem, root, 256, 512, 4);
    assert Owned(mem, mem[root][page[0]], 4) <= OwnedBy(mem, mem[root], 0, 256, 4);
    TranslateFraming(mem, m', mem[root][page[0]], 4, page[1..]);
  }

  // ---- The passes, in place

  /** The tables the boot processor works on. */
  class BootTables {
    var mem: Memory

    constructor (mem: Memory)
      ensures this.mem == mem
    {
      this.mem := mem;
    }

    method ClearEntry(frame: Frame, i: Index, level: nat)
      requires level >= 1 && frame in mem
      modifies this
      ensures mem == ClearLeaf(old(mem), frame, i, level)
      decreases level
    {
      var entry := mem[frame][i];
      if Present !in entry.flags {
        return;
      }
      if Global !in entry.flags && level > 1 {
        var lower := level - 1;
        if entry.frame !in mem {
          ClearLeavesMissing(mem, entry.frame, 0, 512, lower);
          return;
        }
        for e := 0 to 512
          invariant entry.frame in mem
          invariant mem == ClearLeaves(old(mem), entry.frame, 0, e, lower)
        {
          ClearEntry(entry.frame, e, lower);
        }
      } else {
        mem := mem[frame := mem[frame][i := entry.(flags := entry.flags - {Present})]];
      }
    }

    method FixPollution(root: Frame)
      requires root in mem
      modifies this
      ensures mem == FixBootloaderPollution(old(mem), root)
    {
      hide ClearLeaf, ClearLeaves;
      ClearLeavesNone(mem, root, 0, 4);
      for x4 := 0 to 512 / 2
        invariant root in mem
        invariant mem == ClearLeaves(old(mem), root, 0, x4, 4)
      {
        ClearLeavesNext(old(mem), root, 0, x4, 4);
        ClearEntry(root, x4, 4);
      }
    }

    method GlobalizeEntry(frame: Frame, i: Index, level: nat)
      requires level >= 1 && frame in mem
      modifies this
      ensures mem == GlobalizeLeaf(old(mem), frame, i, level)
      decreases level
    {
      var entry := mem[frame][i];
      if Present !in entry.flags {
        return;
      }
      if Global !in entry.flags {
        mem := mem[frame := mem[frame][i := entry.(flags := entry.flags + {Global})]];
      }
      SetTwice(old(mem), frame, i);
      if HugePage in entry.flags {
        return;
      }
      if level > 1 {
        var lower := level - 1;
        ghost var m1 := mem;
        if entry.frame !in mem {
          GlobalizeLeavesMissing(mem, entry.frame, 0, 512, lower);
          return;
        }
        for e := 0 to 512
          invariant entry.frame in mem
          invariant mem == GlobalizeLeaves(m1, entry.frame, 0, e, lower)
        {
          GlobalizeEntry(entry.frame, e, lower);
        }
      }
    }

    static lemma {:induction false} ClearLeavesNone(m: Memory, frame: Frame, lo: nat, level: nat)
      requires level >= 1 && lo <= 512
      ensures ClearLeaves(m, frame, lo, lo, level) == m
    {
    }

    static lemma {:induction false} ClearLeavesNext(m: Memory, frame: Frame, lo: nat, i: Index, level: nat)
      requires level >= 1 && lo <= i
      ensures ClearLeaves(m, frame, lo, i + 1, level) == ClearLeaf(ClearLeaves(m, frame, lo, i, level), frame, i, level)
    {
    }

    static lemma {:induction false} GlobalizeLeavesNone(m: Memory, frame: Frame, lo: nat, level: nat)
      requires level >= 1 && lo <= 512
      ensures GlobalizeLeaves(m, frame, lo, lo, level) == m
    {
    }

    static lemma {:induction false} GlobalizeLeavesNext(m: Memory, frame: Frame, lo: nat, i: Index, level: nat)
      requires level >= 1 && lo <= i
      ensures GlobalizeLeaves(m, frame, lo, i + 1, level)
              == GlobalizeLeaf(GlobalizeLeaves(m, frame, lo, i, level), frame, i, level)
    {
    }

    static lemma {:induction false} SetTwice(m: Memory, frame: Frame, i: Index)
      requires frame in m
      ensures Global in m[frame][i].flags ==> Globalized(m, frame, i) == m
    {
      if Global in m[frame][i].flags {
        assert m[frame][i].flags + {Global} == m[frame][i].flags;
        assert m[frame][i := m[frame][i]] == m[frame];
      }
    }

    method GlobalizeKernel(root: Frame)
      requires root in mem
      modifies this
      ensures mem == GlobalizeKernelspace(old(mem), root)
    {
      hide GlobalizeLeaf, GlobalizeLeaves;
      GlobalizeLeavesNone(mem, root, 256, 4);
      for x4 := 512 / 2 to 512
        invariant root in mem
        invariant mem == GlobalizeLeaves(old(mem), root, 256, x4, 4)
      {
        GlobalizeLeavesNext(old(mem), root, 256, x4, 4);
        GlobalizeEntry(root, x4, 4);
      }
    }
  }
}
