/**
 The order in which dropping an address space hands its table frames back to the frame
 allocator, and what that order promises.
 */
module FreeOrder {
  import opened PageTables
  import opened Sequences

  /** The frames handed back for one entry: the tables below it, then its own. */
  ghost function Freed(mem: Memory, e: Entry, level: nat): seq<Frame>
    decreases level, 0
  {
    if !e.IsTable(level) then []
    else if level == 2 || e.frame !in mem then [e.frame]
    else FreedBy(mem, mem[e.frame], 512, level - 1) + [e.frame]
  }

  /** The frames handed back for the first `n` entries of a table. */
  ghost function FreedBy(mem: Memory, t: Table, n: nat, level: nat): seq<Frame>
    requires n <= 512
    decreases level, 1, n
  {
    if n == 0 then [] else FreedBy(mem, t, n - 1, level) + Freed(mem, t[n - 1], level)
  }

  lemma {:induction false} FreedFraming(mem: Memory, mem': Memory, e: Entry, level: nat)
    requires Same(mem, mem', Owned(mem, e, level))
    ensures Freed(mem', e, level) == Freed(mem, e, level)
    decreases level, 0
  {
    if e.IsTable(level) && level != 2 {
      FreedByFraming(mem, mem', mem[e.frame], 512, level - 1);
    }
  }

  lemma {:induction false} FreedByFraming(mem: Memory, mem': Memory, t: Table, n: nat, level: nat)
    requires n <= 512
    requires Same(mem, mem', OwnedBy(mem, t, 0, n, level))
    ensures FreedBy(mem', t, n, level) == FreedBy(mem, t, n, level)
    decreases level, 1, n
  {
    if n > 0 {
      assert OwnedBy(mem, t, 0, n - 1, level) <= OwnedBy(mem, t, 0, n, level);
      assert Owned(mem, t[n - 1], level) <= OwnedBy(mem, t, 0, n, level);
      FreedByFraming(mem, mem', t, n - 1, level);
      FreedFraming(mem, mem', t[n - 1], level);
    }
  }

  /** Every table frame below the entry is handed back once, and nothing else is. */
  lemma {:induction false} FreedExactly(mem: Memory, e: Entry, level: nat)
    requires Tree(mem, e, level)
    ensures NoDuplicates(Freed(mem, e, level))
    ensures Elements(Freed(mem, e, level)) == Owned(mem, e, level)
    decreases level, 0
  {
    if e.IsTable(level) && level == 2 {
      assert OwnedBy(mem, mem[e.frame], 0, 512, 1) == {};
    } else if e.IsTable(level) {
      var below := FreedBy(mem, mem[e.frame], 512, level - 1);
      FreedByExactly(mem, mem[e.frame], 512, level - 1);
      assert e.frame !in Elements(below);
      NoDuplicatesConcat(below, [e.frame]);
      ElementsOfConcat(below, [e.frame]);
    }
  }

  lemma {:induction false} FreedByExactly(mem: Memory, t: Table, n: nat, level: nat)
    requires n <= 512 && Trees(mem, t, 0, n, level)
    ensures NoDuplicates(FreedBy(mem, t, n, level))
    ensures Elements(FreedBy(mem, t, n, level)) == OwnedBy(mem, t, 0, n, level)
    decreases level, 1, n
  {
    if n > 0 {
      var a, b := FreedBy(mem, t, n - 1, level), Freed(mem, t[n - 1], level);
      FreedByExactly(mem, t, n - 1, level);
      FreedExactly(mem, t[n - 1], level);
      assert forall x | x in a :: x !in b by {
        forall x | x in Elements(a) ensures x !in Elements(b) {
          var i :| 0 <= i < n - 1 && x in Owned(mem, t[i], level);
          assert Owned(mem, t[i], level) !! Owned(mem, t[n - 1], level);
        }
      }
      NoDuplicatesConcat(a, b);
      ElementsOfConcat(a, b);
      assert OwnedBy(mem, t, 0, n, level) == OwnedBy(mem, t, 0, n - 1, level) + Owned(mem, t[n - 1], level);
    }
  }

  datatype Edge = Edge(parent: Frame, child: Frame)

  /** The pairs of a table and a table it leads to, below an entry. */
  ghost function Edges(mem: Memory, e: Entry, level: nat): set<Edge>
    decreases level, 0
  {
    if !e.IsTable(level) || e.frame !in mem then {}
    else EdgesFrom(e.frame, mem[e.frame], level - 1) + EdgesBelow(mem, mem[e.frame], level - 1)
  }

  ghost function EdgesFrom(parent: Frame, t: Table, level: nat): set<Edge> {
    set i | 0 <= i < 512 && t[i].IsTable(level) :: Edge(parent, t[i].frame)
  }

  ghost function EdgesBelow(mem: Memory, t: Table, level: nat): set<Edge>
    decreases level, 1
  {
    set i, p | 0 <= i < 512 && p in Edges(mem, t[i], level) :: p
  }

  ghost predicate Before<T(!new)>(s: seq<T>, x: T, y: T) {
    exists i, j :: 0 <= i < j < |s| && s[i] == x && s[j] == y
  }

  lemma {:induction false} BeforeExtended<T(!new)>(a: seq<T>, s: seq<T>, b: seq<T>, x: T, y: T)
    requires Before(s, x, y)
    ensures Before(a + s + b, x, y)
  {
    var i, j :| 0 <= i < j < |s| && s[i] == x && s[j] == y;
    assert (a + s + b)[|a| + i] == x && (a + s + b)[|a| + j] == y;
  }

  lemma {:induction false} FreedByPart(mem: Memory, t: Table, i: nat, n: nat,
                                       level: nat) returns (a: seq<Frame>, b: seq<Frame>)
    requires i < n <= 512
    ensures FreedBy(mem, t, n, level) == a + Freed(mem, t[i], level) + b
    decreases n
  {
    if i == n - 1 {
      a, b := FreedBy(mem, t, n - 1, level), [];
    } else {
      a, b := FreedByPart(mem, t, i, n - 1, level);
      b := b + Freed(mem, t[n - 1], level);
    }
  }

  /** A table is handed back only after every table it leads to. */
  lemma {:induction false} ChildrenFirst(mem: Memory, e: Entry, level: nat, parent: Frame, child: Frame)
    requires Edge(parent, child) in Edges(mem, e, level)
    ensures Before(Freed(mem, e, level), child, parent)
    decreases level
  {
    var t := mem[e.frame];
    var s := Freed(mem, e, level);
    if i :| 0 <= i < 512 && t[i].IsTable(level - 1) && Edge(parent, child) == Edge(e.frame, t[i].frame) {
      var a, b := FreedByPart(mem, t, i, 512, level - 1);
      var own := Freed(mem, t[i], level - 1);
      assert own[|own| - 1] == child;
      assert s == a + own + b + [e.frame];
      assert s[|a| + |own| - 1] == child && s[|s| - 1] == parent;
    } else {
      var i :| 0 <= i < 512 && Edge(parent, child) in Edges(mem, t[i], level - 1);
      ChildrenFirst(mem, t[i], level - 1, parent, child);
      var a, b := FreedByPart(mem, t, i, 512, level - 1);
      BeforeExtended(a, Freed(mem, t[i], level - 1), b + [e.frame], child, parent);
      assert s == a + Freed(mem, t[i], level - 1) + (b + [e.frame]);
    }
  }
}
