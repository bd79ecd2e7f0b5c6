/**
 Listing what the page tables map: a walk over all four levels that yields one range for
 every page of any size, and the joining of ranges that touch and agree. Ranges are in
 page numbers, so that the gap between the two halves of the address space is not seen.
 */
module PageRanges {
  import opened PageTables
  import opened Pages
  import opened Mapper
  import opened SpaceMapper
  import opened Wrappers

  /** The pages `from..to`, without the last. */
  datatype Range = Range(from: nat, to: nat, flags: set<Flag>)

  /** How many pages an entry of a level stands for. */
  function Span(level: nat): (n: nat)
    ensures n > 0
  {
    if level <= 1 then 1 else if level == 2 then 512 else if level == 3 then 0x4_0000 else 0x800_0000
  }

  // ---- The walk

  /**
   The ranges below one entry, whose first page is `base`; `above` are the flags that the
   entries above it have in common. Level 4 is not tested for huge pages, and a 4 KiB page
   keeps its own flags.
   */
  function Found(mem: Memory, e: Entry, level: nat, base: nat, above: set<Flag>): seq<Range>
    requires 1 <= level <= 4
    decreases level, 0
  {
    if Present !in e.flags then []
    else if level == 1 then [Range(base, base + 1, e.flags)]
    else
      var common := Common(e, level, above);
      if Present !in common then []
      else if level < 4 && HugePage in e.flags then [Range(base, base + Span(level), common)]
      else if e.frame !in mem then []
      else FoundIn(mem, mem[e.frame], level - 1, base, common, 512)
  }

  function Common(e: Entry, level: nat, above: set<Flag>): set<Flag> {
    if level >= 4 then e.flags else e.flags * above
  }

  /** The ranges below the first `n` entries of a table. */
  function FoundIn(mem: Memory, t: Table, level: nat, base: nat, above: set<Flag>, n: nat): seq<Range>
    requires 1 <= level <= 4 && n <= 512
    decreases level, 1, n
  {
    if n == 0 then []
    else FoundIn(mem, t, level, base, above, n - 1) + Found(mem, t[n - 1], level, base + (n - 1) * Span(level), above)
  }

  /** The flags of one page, by a walk for that page alone; `page` counts from the entry's first. */
  function FlagsBelow(mem: Memory, e: Entry, level: nat, above: set<Flag>, page: nat): Option<set<Flag>>
    requires 1 <= level <= 4 && page < Span(level)
    decreases level
  {
    if Present !in e.flags then None
    else if level == 1 then Some(e.flags)
    else
      var common := Common(e, level, above);
      if Present !in common then None
      else if level < 4 && HugePage in e.flags then Some(common)
      else if e.frame !in mem then None
      else
        FlagsBelow(mem, mem[e.frame][page / Span(level - 1)], level - 1, common, page % Span(level - 1))
  }

  function FlagsAt(mem: Memory, root: Frame, page: nat): Option<set<Flag>>
    requires root in mem && page < PAGES
  {
    FlagsBelow(mem, mem[root][page / Span(4)], 4, {}, page % Span(4))
  }

  /** The flags a list of ranges gives a page. */
  function Lookup(s: seq<Range>, page: nat): Option<set<Flag>> {
    if s == [] then None
    else if s[0].from <= page < s[0].to then Some(s[0].flags)
    else Lookup(s[1..], page)
  }

  /** Non-empty ranges in increasing order, without overlap, inside `lo..hi`. */
  ghost predicate Ascending(s: seq<Range>, lo: nat, hi: nat) {
    && (forall i | 0 <= i < |s| :: lo <= s[i].from < s[i].to <= hi)
    && (forall i, j | 0 <= i < j < |s| :: s[i].to <= s[j].from)
  }

  lemma {:induction false} AscendingConcat(a: seq<Range>, b: seq<Range>, lo: nat, mid: nat, hi: nat)
    requires lo <= mid <= hi
    requires Ascending(a, lo, mid) && Ascending(b, mid, hi)
    ensures Ascending(a + b, lo, hi)
  {
  }

  lemma {:induction false} LookupOutside(s: seq<Range>, lo: nat, hi: nat, page: nat)
    requires Ascending(s, lo, hi) && !(lo <= page < hi)
    ensures Lookup(s, page) == None
    decreases |s|
  {
    if s != [] { LookupOutside(s[1..], lo, hi, page); }
  }

  lemma {:induction false} LookupConcat(a: seq<Range>, b: seq<Range>, page: nat)
    ensures Lookup(a + b, page) == if Lookup(a, page).Some? then Lookup(a, page) else Lookup(b, page)
    decreases |a|
  {
    if a == [] {
      assert a + b == b;
    } else {
      assert (a + b)[1..] == a[1..] + b;
      LookupConcat(a[1..], b, page);
    }
  }

  lemma {:induction false} FoundAscending(mem: Memory, e: Entry, level: nat, base: nat, above: set<Flag>)
    requires 1 <= level <= 4
    ensures Ascending(Found(mem, e, level, base, above), base, base + Span(level))
    decreases level, 0
  {
    hide FoundIn;
    if level > 1 && e.frame in mem {
      FoundInAscending(mem, mem[e.frame], level - 1, base, Common(e, level, above), 512);
      assert 512 * Span(level - 1) == Span(level);
    }
  }

  lemma {:induction false} OneSpanMore(n: int, span: int)
    ensures (n + 1) * span == n * span + span
  {
  }

  lemma {:induction false} SpansOrdered(i: int, n: int, span: int)
    requires i < n && span >= 0
    ensures i * span + span <= n * span
  {
    assert n * span - i * span == (n - i) * span;
    assert (n - i) * span >= span by {
      assert (n - i) * span == (n - i - 1) * span + span;
    }
  }

  lemma {:induction false} NothingAscending(lo: nat, hi: nat)
    ensures Ascending([], lo, hi)
  {
  }

  lemma {:induction false} FoundInAscending(mem: Memory, t: Table, level: nat, base: nat, above: set<Flag>, n: nat)
    requires 1 <= level <= 4 && n <= 512
    ensures Ascending(FoundIn(mem, t, level, base, above, n), base, base + n * Span(level))
    decreases level, 1, n
  {
    hide Span, Found, Ascending;
    NothingAscending(base, base + n * Span(level));
    if n > 0 {
      var mid := base + (n - 1) * Span(level);
      FoundInAscending(mem, t, level, base, above, n - 1);
      FoundAscending(mem, t[n - 1], level, mid, above);
      OneSpanMore(n - 1, Span(level));
      AscendingConcat(FoundIn(mem, t, level, base, above, n - 1), Found(mem, t[n - 1], level, mid, above),
                      base, mid, mid + Span(level));
    }
  }

  /** The ranges below an entry give each of its pages the flags of the walk for that page. */
  lemma {:induction false} FoundFlags(mem: Memory, e: Entry, level: nat, base: nat, above: set<Flag>, page: nat)
    requires 1 <= level <= 4 && page < Span(level)
    ensures Lookup(Found(mem, e, level, base, above), base + page) == FlagsBelow(mem, e, level, above, page)
    decreases level, 0
  {
    hide FoundIn;
    if level > 1 && e.frame in mem {
      var i, rest := page / Span(level - 1), page % Span(level - 1);
      Digit(level, page);
      FoundInFlags(mem, mem[e.frame], level - 1, base, Common(e, level, above), 512, i, rest);
    }
  }

  lemma {:induction false} Digit(level: nat, page: nat)
    requires 2 <= level <= 4 && page < Span(level)
    ensures var i, rest := page / Span(level - 1), page % Span(level - 1);
            i < 512 && page == i * Span(level - 1) + rest
  {
  }

  lemma {:induction false} FoundInFlags(mem: Memory, t: Table, level: nat, base: nat, above: set<Flag>, n: nat,
                                        i: nat, rest: nat)
    requires 1 <= level <= 4 && i < n <= 512 && rest < Span(level)
    ensures Lookup(FoundIn(mem, t, level, base, above, n), base + (i * Span(level) + rest))
            == FlagsBelow(mem, t[i], level, above, rest)
    decreases level, 1, n
  {
    hide Span, Found, FlagsBelow, Ascending, FoundIn, Lookup;
    FoundInNext(mem, t, level, base, above, n - 1);
    var mid, page := base + (n - 1) * Span(level), base + (i * Span(level) + rest);
    var a, b := FoundIn(mem, t, level, base, above, n - 1), Found(mem, t[n - 1], level, mid, above);
    LookupConcat(a, b, page);
    FoundInAscending(mem, t, level, base, above, n - 1);
    FoundAscending(mem, t[n - 1], level, mid, above);
    if i == n - 1 {
      assert page == mid + rest;
      LookupOutside(a, base, mid, page);
      FoundFlags(mem, t[i], level, mid, above, rest);
    } else {
      SpansOrdered(i, n - 1, Span(level));
      assert page < mid;
      FoundInFlags(mem, t, level, base, above, n - 1, i, rest);
      LookupOutside(b, mid, mid + Span(level), page);
    }
  }

  lemma {:induction false} FlagsFound(mem: Memory, root: Frame, page: nat)
    requires root in mem && page < PAGES
    ensures Lookup(FoundIn(mem, mem[root], 4, 0, {}, 512), page) == FlagsAt(mem, root, page)
  {
    hide FoundIn;
    FoundInFlags(mem, mem[root], 4, 0, {}, 512, page / Span(4), page % Span(4));
  }

  // ---- What the hardware makes of the same tables

  function PathBelow(level: nat, page: nat): (path: seq<Index>)
    requires 1 <= level <= 4 && page < Span(level)
    ensures |path| + 1 == level
  {
    if level == 1 then [] else [page / Span(level - 1)] + PathBelow(level - 1, page % Span(level - 1))
  }

  /** The flags that all entries on the way to a page have, down to the one that maps it. */
  function FlagsOnTheWay(mem: Memory, e: Entry, level: nat, path: seq<Index>): set<Flag>
    requires |path| + 1 == level
    decreases level
  {
    if e.IsTable(level) && e.frame in mem then
      e.flags * FlagsOnTheWay(mem, mem[e.frame][path[0]], level - 1, path[1..])
    else e.flags
  }

  lemma {:induction false} FoundIsTranslated(mem: Memory, e: Entry, level: nat, above: set<Flag>, page: nat)
    requires 1 <= level <= 4 && page < Span(level)
    requires level == 4 ==> HugePage !in e.flags
    requires level < 4 ==> Present in above
    ensures var target := Translate(mem, e, level, PathBelow(level, page));
            && (FlagsBelow(mem, e, level, above, page).Some? <==> target.MappedTo?)
            && (target.MappedTo? ==>
                  FlagsBelow(mem, e, level, above, page).value
                  == if target.rest == [] then target.flags
                     else Common(e, level, above) * FlagsOnTheWay(mem, e, level, PathBelow(level, page)))
    decreases level
  {
    if e.IsTable(level) && e.frame in mem {
      Digit(level, page);
      var i, rest := page / Span(level - 1), page % Span(level - 1);
      FoundIsTranslated(mem, mem[e.frame][i], level - 1, Common(e, level, above), rest);
      assert PathBelow(level, page)[1..] == PathBelow(level - 1, rest);
    }
  }

  lemma {:induction false} OnTheWayWithin(mem: Memory, e: Entry, level: nat, path: seq<Index>)
    requires |path| + 1 == level
    ensures FlagsOnTheWay(mem, e, level, path) <= e.flags
  {
  }

  /**
   A page is listed exactly when the hardware translates it. The flags of a 4 KiB page are
   those of its entry; of a larger one, those that all entries on the way have.
   */
  lemma {:induction false} ListedIsMapped(mem: Memory, root: Frame, page: nat)
    requires root in mem && page < PAGES
    requires forall i | 0 <= i < 512 :: HugePage !in mem[root][i].flags
    ensures var target, flags := Walk(mem, root, PathOf(page)), FlagsAt(mem, root, page);
            && (flags.Some? <==> target.MappedTo?)
            && (target.MappedTo? ==>
                  flags.value
                  == if target.rest == [] then target.flags
                     else FlagsOnTheWay(mem, mem[root][PathOf(page)[0]], 4, PathOf(page)[1..]))
  {
    hide FlagsBelow, Translate;
    var i, rest := page / Span(4), page % Span(4);
    FoundIsTranslated(mem, mem[root][i], 4, {}, rest);
    PathsAgree(page);
    assert PathOf(page)[1..] == PathBelow(4, rest);
    OnTheWayWithin(mem, mem[root][i], 4, PathBelow(4, rest));
  }

  lemma {:induction false} PathsAgree(page: nat)
    requires page < PAGES
    ensures PathOf(page) == [page / Span(4)] + PathBelow(4, page % Span(4))
  {
    hide PathOf;
    var r3 := page % 0x800_0000;
    var r2 := r3 % 0x4_0000;
    var path: seq<Index> := [page / 0x800_0000, r3 / 0x4_0000, r2 / 512, r2 % 512];
    assert PathBelow(1, r2 % 512 % 1) == [];
    assert PathBelow(2, r2 % 512) == [r2 % 512];
    assert PathBelow(3, r2) == [r2 / 512, r2 % 512];
    assert PathBelow(4, r3) == [r3 / 0x4_0000, r2 / 512, r2 % 512];
    assert PageOf(path) == page;
    PathOfPage(path);
  }

  // ---- Joining ranges

  const REMOVED: set<Flag> := {Accessed, Dirty, HugePage}

  function Strip(s: seq<Range>): (r: seq<Range>)
    ensures |r| == |s|
    ensures forall i | 0 <= i < |s| :: r[i] == s[i].(flags := s[i].flags - REMOVED)
  {
    if s == [] then [] else [s[0].(flags := s[0].flags - REMOVED)] + Strip(s[1..])
  }

  predicate Joins(a: Range, b: Range) {
    a.to == b.from && a.flags == b.flags
  }

  /** Goes through the list with the range it is still extending in hand. */
  function Coalesced(last: Range, rest: seq<Range>): seq<Range>
    decreases |rest|
  {
    if rest == [] then [last]
    else if Joins(last, rest[0]) then Coalesced(Range(last.from, rest[0].to, last.flags), rest[1..])
    else [last] + Coalesced(rest[0], rest[1..])
  }

  function Coalesce(s: seq<Range>): seq<Range> {
    if s == [] then [] else Coalesced(s[0], s[1..])
  }

  /** No two neighbours could be joined. */
  ghost predicate Apart(s: seq<Range>) {
    forall i | 0 <= i < |s| - 1 :: !Joins(s[i], s[i + 1])
  }

  /** Joining the first two ranges keeps a list ascending. */
  lemma {:induction false} JoinedAscending(last: Range, rest: seq<Range>, lo: nat, hi: nat)
    requires rest != [] && Ascending([last] + rest, lo, hi) && Joins(last, rest[0])
    ensures Ascending([Range(last.from, rest[0].to, last.flags)] + rest[1..], lo, hi)
  {
    var s := [last] + rest;
    var s' := [Range(last.from, rest[0].to, last.flags)] + rest[1..];
    assert s[0] == last && s[1] == rest[0];
    assert forall k | 1 <= k < |s'| :: s'[k] == s[k + 1];
  }

  lemma {:induction false} CoalescedNormal(last: Range, rest: seq<Range>, lo: nat, hi: nat)
    requires Ascending([last] + rest, lo, hi)
    ensures var r := Coalesced(last, rest);
            && Ascending(r, lo, hi) && Apart(r)
            && |r| > 0 && r[0].from == last.from && r[0].flags == last.flags
    decreases |rest|
  {
    var s := [last] + rest;
    assert s[0] == last;
    if rest != [] {
      var next := rest[0];
      assert s[1] == next && forall k | 0 <= k < |rest| :: s[k + 1] == rest[k];
      assert [next] + rest[1..] == rest;
      if Joins(last, next) {
        var joined := Range(last.from, next.to, last.flags);
        JoinedAscending(last, rest, lo, hi);
        CoalescedNormal(joined, rest[1..], lo, hi);
      } else {
        TailAscending(s, lo, hi);
        assert s[1..] == rest;
        CoalescedNormal(next, rest[1..], last.to, hi);
        var r := Coalesced(next, rest[1..]);
        AscendingConcat([last], r, lo, last.to, hi);
        assert forall k | 0 < k < |r| :: ([last] + r)[k] == r[k - 1] && ([last] + r)[k + 1] == r[k];
      }
    }
  }

  lemma {:induction false} CoalescedLookup(last: Range, rest: seq<Range>, lo: nat, hi: nat, page: nat)
    requires Ascending([last] + rest, lo, hi)
    ensures Lookup(Coalesced(last, rest), page) == Lookup([last] + rest, page)
    decreases |rest|
  {
    var s := [last] + rest;
    assert s[1..] == rest;
    if rest != [] {
      var next := rest[0];
      assert s[1] == next && forall k | 0 <= k < |rest| :: s[k + 1] == rest[k];
      assert [next] + rest[1..] == rest;
      if Joins(last, next) {
        var joined := Range(last.from, next.to, last.flags);
        var s' := [joined] + rest[1..];
        JoinedAscending(last, rest, lo, hi);
        CoalescedLookup(joined, rest[1..], lo, hi, page);
        assert s'[1..] == rest[1..];
      } else {
        CoalescedLookup(next, rest[1..], lo, hi, page);
        LookupConcat([last], Coalesced(next, rest[1..]), page);
        LookupConcat([last], rest, page);
      }
    }
  }

  /**
   A list is determined by the flags it gives each page, if its ranges ascend and none can
   be joined to the next: there is only one way to list a page table.
   */
  lemma {:induction false} NormalIsUnique(s: seq<Range>, t: seq<Range>, lo: nat, hi: nat)
    requires Ascending(s, lo, hi) && Apart(s)
    requires Ascending(t, lo, hi) && Apart(t)
    requires forall page: nat :: Lookup(s, page) == Lookup(t, page)
    ensures s == t
    decreases |s|
  {
    if s != [] { FirstIsListed(s); }
    if t != [] { FirstIsListed(t); }
    assert s == [] <==> t == [];
    if s != [] {
      FirstIsSmallest(s, t, lo, hi);
      FirstIsSmallest(t, s, lo, hi);
      FirstIsLongest(s, t, lo, hi);
      FirstIsLongest(t, s, lo, hi);
      assert s[0] == t[0];
      forall page: nat ensures Lookup(s[1..], page) == Lookup(t[1..], page) {
        if s[0].from <= page < s[0].to {
          TailAscending(s, lo, hi);
          TailAscending(t, lo, hi);
          LookupOutside(s[1..], s[0].to, hi, page);
          LookupOutside(t[1..], t[0].to, hi, page);
        } else {
          assert Lookup(s, page) == Lookup(t, page);
        }
      }
      NormalIsUnique(s[1..], t[1..], lo, hi);
      assert s == [s[0]] + s[1..] && t == [t[0]] + t[1..];
    }
  }

  lemma {:induction false} TailAscending(s: seq<Range>, lo: nat, hi: nat)
    requires s != [] && Ascending(s, lo, hi)
    ensures Ascending(s[1..], s[0].to, hi)
  {
  }

  lemma {:induction false} FirstIsListed(s: seq<Range>)
    requires s != [] && s[0].from < s[0].to
    ensures Lookup(s, s[0].from) == Some(s[0].flags)
  {
  }

  lemma {:induction false} FirstIsSmallest(s: seq<Range>, t: seq<Range>, lo: nat, hi: nat)
    requires s != [] && t != [] && Ascending(s, lo, hi) && Ascending(t, lo, hi)
    requires forall page: nat :: Lookup(s, page) == Lookup(t, page)
    ensures s[0].from <= t[0].from
  {
    FirstIsListed(t);
    assert Ascending(s, s[0].from, hi);
    if t[0].from < s[0].from {
      LookupOutside(s, s[0].from, hi, t[0].from);
    }
  }

  /** The page after the first range is unlisted or has other flags. */
  lemma {:induction false} NextDiffers(s: seq<Range>, lo: nat, hi: nat)
    requires s != [] && Ascending(s, lo, hi) && Apart(s)
    ensures Lookup(s, s[0].to) != Some(s[0].flags)
  {
    var page, tail := s[0].to, s[1..];
    if tail != [] {
      assert tail[0] == s[1] && !Joins(s[0], s[1]);
      TailAscending(s, lo, hi);
      if tail[0].from > page {
        TailAscending(tail, page, hi);
        LookupOutside(tail[1..], tail[0].to, hi, page);
      }
    }
  }

  lemma {:induction false} FirstIsLongest(s: seq<Range>, t: seq<Range>, lo: nat, hi: nat)
    requires s != [] && t != [] && Ascending(s, lo, hi) && Ascending(t, lo, hi) && Apart(s)
    requires s[0].from == t[0].from
    requires forall page: nat :: Lookup(s, page) == Lookup(t, page)
    ensures s[0].to >= t[0].to && s[0].flags == t[0].flags
  {
    FirstIsListed(s);
    FirstIsListed(t);
    NextDiffers(s, lo, hi);
    assert Lookup(s, s[0].to) == Lookup(t, s[0].to);
  }

  // ---- explore_page_ranges

  ghost function Listed(mem: Memory, root: Frame): seq<Range>
    requires root in mem
  {
    Coalesce(Strip(FoundIn(mem, mem[root], 4, 0, {}, 512)))
  }

  lemma {:induction false} StripLookup(s: seq<Range>, page: nat)
    ensures Lookup(Strip(s), page)
            == match Lookup(s, page) case None => None case Some(flags) => Some(flags - REMOVED)
    decreases |s|
  {
    if s != [] {
      StripLookup(s[1..], page);
      assert Strip(s)[1..] == Strip(s[1..]);
    }
  }

  /**
   The list ascends, none of its ranges can be joined to the next, and it gives every page
   the flags found by a walk for that page.
   */
  lemma {:induction false} ListedPages(mem: Memory, root: Frame, page: nat)
    requires root in mem && page < PAGES
    ensures Ascending(Listed(mem, root), 0, PAGES) && Apart(Listed(mem, root))
    ensures Lookup(Listed(mem, root), page)
            == match FlagsAt(mem, root, page) case None => None case Some(flags) => Some(flags - REMOVED)
  {
    hide FoundIn, FlagsAt, Coalesced;
    var found := FoundIn(mem, mem[root], 4, 0, {}, 512);
    var s := Strip(found);
    FoundInAscending(mem, mem[root], 4, 0, {}, 512);
    FlagsFound(mem, root, page);
    StripLookup(found, page);
    if s != [] {
      assert [s[0]] + s[1..] == s;
      CoalescedNormal(s[0], s[1..], 0, PAGES);
      CoalescedLookup(s[0], s[1..], 0, PAGES, page);
    }
  }

  lemma {:induction false} OnTheWay(mem: Memory, e: Entry, level: nat, path: seq<Index>, flag: Flag)
    requires |path| + 1 == level && Translate(mem, e, level, path).MappedTo?
    ensures flag in FlagsOnTheWay(mem, e, level, path)
            <==> flag in Translate(mem, e, level, path).flags && OnAll(Way(mem, e, level, path), flag)
    decreases level
  {
    if e.IsTable(level) && e.frame in mem {
      OnTheWay(mem, mem[e.frame][path[0]], level - 1, path[1..], flag);
      OnAllMore(e, Way(mem, mem[e.frame][path[0]], level - 1, path[1..]), flag);
    }
  }

  predicate OnAll(way: seq<Entry>, flag: Flag) {
    forall k | 0 <= k < |way| :: flag in way[k].flags
  }

  lemma {:induction false} OnAllMore(e: Entry, way: seq<Entry>, flag: Flag)
    ensures OnAll([e] + way, flag) <==> flag in e.flags && OnAll(way, flag)
  {
    var all := [e] + way;
    assert all[0] == e && forall k | 0 <= k < |way| :: way[k] == all[k + 1];
    if OnAll(way, flag) && flag in e.flags {
      forall k | 0 <= k < |all| ensures flag in all[k].flags {
        assert k > 0 ==> all[k] == way[k - 1];
      }
    }
  }

  /**
   The list, flag by flag: the pages are those that the hardware translates; none is listed
   as accessed, dirty or huge; all other flags are those of the entry that maps the page,
   without those that a table on the way to a larger page lacks.
   */
  lemma {:induction false} ListedFlag(mem: Memory, root: Frame, page: nat, flag: Flag)
    requires root in mem && page < PAGES
    requires forall i | 0 <= i < 512 :: HugePage !in mem[root][i].flags
    ensures var target, listed := Walk(mem, root, PathOf(page)), Lookup(Listed(mem, root), page);
            && (listed.Some? <==> target.MappedTo?)
            && (listed.Some? ==>
                  (flag in listed.value
                   <==> flag !in {Accessed, Dirty, HugePage} && flag in target.flags
                        && (target.rest != [] ==> OnAll(WayTo(mem, root, PathOf(page)), flag))))
  {
    hide Listed, FlagsAt, Lookup, PathOf, OnAll;
    ListedPages(mem, root, page);
    ListedIsMapped(mem, root, page);
    var path := PathOf(page);
    if Walk(mem, root, path).MappedTo? {
      OnTheWay(mem, mem[root][path[0]], 4, path[1..], flag);
    }
  }

  /** No other list of joined ranges gives every page those flags. */
  lemma {:induction false} OnlyListing(mem: Memory, root: Frame, s: seq<Range>)
    requires root in mem && Ascending(s, 0, PAGES) && Apart(s)
    requires forall page: nat | page < PAGES ::
               Lookup(s, page)
               == match FlagsAt(mem, root, page) case None => None case Some(flags) => Some(flags - REMOVED)
    ensures s == Listed(mem, root)
  {
    hide FlagsAt, Listed, Apart;
    ListedPages(mem, root, 0);
    forall page: nat ensures Lookup(s, page) == Lookup(Listed(mem, root), page) {
      if page < PAGES {
        ListedPages(mem, root, page);
      } else {
        LookupOutside(s, 0, PAGES, page);
        LookupOutside(Listed(mem, root), 0, PAGES, page);
      }
    }
    NormalIsUnique(s, Listed(mem, root), 0, PAGES);
  }

  lemma {:induction false} FoundInNext(mem: Memory, t: Table, level: nat, base: nat, above: set<Flag>, n: nat)
    requires 1 <= level <= 4 && n < 512
    ensures FoundIn(mem, t, level, base, above, 0) == []
    ensures FoundIn(mem, t, level, base, above, n + 1)
            == FoundIn(mem, t, level, base, above, n) + Found(mem, t[n], level, base + n * Span(level), above)
  {
  }

  method ExplorePageRanges(mem: Memory, root: Frame) returns (out: seq<Range>)
    requires root in mem
    ensures out == Listed(mem, root)
  {
    hide FoundIn;
    var found: seq<Range> := [];
    FoundInNext(mem, mem[root], 4, 0, {}, 0);
    for i4 := 0 to 512
      invariant found == FoundIn(mem, mem[root], 4, 0, {}, i4)
    {
      FoundInNext(mem, mem[root], 4, 0, {}, i4);
      var below := ExploreEntry4(mem, mem[root][i4], i4 * 0x800_0000);
      found := found + below;
    }
    out := Coalesce(Strip(found));
  }

  method ExploreEntry4(mem: Memory, x4: Entry, start4: nat) returns (out: seq<Range>)
    ensures out == Found(mem, x4, 4, start4, {})
  {
    hide FoundIn;
    out := [];
    if Present !in x4.flags || x4.frame !in mem { return; }
    var t := mem[x4.frame];
    FoundInNext(mem, t, 3, start4, x4.flags, 0);
    for i3 := 0 to 512
      invariant out == FoundIn(mem, t, 3, start4, x4.flags, i3)
    {
      FoundInNext(mem, t, 3, start4, x4.flags, i3);
      var x3 := t[i3];
      var x3f := x3.flags * x4.flags;
      if Present !in x3f { continue; }
      var start3 := start4 + i3 * 0x4_0000;
      if HugePage in x3.flags {
        out := out + [Range(start3, start3 + 0x4_0000, x3f)];
        continue;
      }
      var below := ExploreTable2(mem, x3.frame, start3, x3f);
      out := out + below;
    }
  }

  method ExploreTable2(mem: Memory, frame: Frame, start3: nat, x3f: set<Flag>) returns (out: seq<Range>)
    ensures out == if frame in mem then FoundIn(mem, mem[frame], 2, start3, x3f, 512) else []
  {
    hide FoundIn;
    out := [];
    if frame !in mem { return; }
    var t := mem[frame];
    FoundInNext(mem, t, 2, start3, x3f, 0);
    for i2 := 0 to 512
      invariant out == FoundIn(mem, t, 2, start3, x3f, i2)
    {
      FoundInNext(mem, t, 2, start3, x3f, i2);
      var x2 := t[i2];
      var x2f := x2.flags * x3f;
      if Present !in x2f { continue; }
      var start2 := start3 + i2 * 512;
      if HugePage in x2.flags {
        out := out + [Range(start2, start2 + 512, x2f)];
        continue;
      }
      if x2.frame in mem {
        var t1 := mem[x2.frame];
        ghost var before := out;
        FoundInNext(mem, t1, 1, start2, x2f, 0);
        for i1 := 0 to 512
          invariant out == before + FoundIn(mem, t1, 1, start2, x2f, i1)
        {
          FoundInNext(mem, t1, 1, start2, x2f, i1);
          var x1f := t1[i1].flags;
          if Present !in x1f { continue; }
          var start1 := start2 + i1;
          out := out + [Range(start1, start1 + 1, x1f)];
        }
      }
    }
  }
}
