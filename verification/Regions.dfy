/** Regions of memory, and the layouts that blocks are asked for with. */
module Regions {
  import opened Bits

  datatype Region = Region(start: nat, size: nat) {
    function End(): nat { start + size }
  }

  predicate Apart(a: Region, b: Region) {
    a.End() <= b.start || b.End() <= a.start
  }

  function Total(s: seq<Region>): nat {
    if s == [] then 0 else s[0].size + Total(s[1..])
  }

  lemma {:induction false} TotalConcat(a: seq<Region>, b: seq<Region>)
    ensures Total(a + b) == Total(a) + Total(b)
    decreases |a|
  {
    if a == [] {
      assert a + b == b;
    } else {
      assert (a + b)[1..] == a[1..] + b;
      TotalConcat(a[1..], b);
    }
  }

  const MAX_SIZE := 0x8000_0000_0000_0000  // 2^63

  datatype Layout = Layout(size: nat, align: nat)

  /** What every layout promises: rounded up to its alignment, the size stays below 2^63. */
  ghost predicate ValidLayout(l: Layout) {
    IsPow2(l.align) && l.size + l.align <= MAX_SIZE
  }
}
