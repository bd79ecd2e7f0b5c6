/** Page numbers and the table indices of their walks. */
module Pages {
  import opened PageTables

  const PAGE_SIZE := 4096
  const PAGES := 0x10_0000_0000  // 2^36

  /** The indices that the hardware takes from a page number, nine bits each. */
  function PathOf(page: nat): (path: seq<Index>)
    requires page < PAGES
    ensures |path| == 4
  {
    [page / 0x800_0000, page / 0x4_0000 % 512, page / 512 % 512, page % 512]
  }

  /** The page of a 64-bit address; the sign bits do not count. */
  function PageOfAddress(a: nat): (page: nat)
    ensures page < PAGES
  {
    a % 0x1_0000_0000_0000 / PAGE_SIZE
  }

  function PageOf(path: seq<Index>): (page: nat)
    requires |path| == 4
    ensures page < PAGES
  {
    (path[0] as int) * 0x800_0000 + (path[1] as int) * 0x4_0000 + (path[2] as int) * 512 + path[3] as int
  }

  lemma {:induction false} PageOfPath(page: nat)
    requires page < PAGES
    ensures PageOf(PathOf(page)) == page
  {
    var a, b := page / 512, page / 0x4_0000;
    assert b == a / 512;
    assert page / 0x800_0000 == b / 512;
  }

  lemma {:induction false} PathOfPage(path: seq<Index>)
    requires |path| == 4
    ensures PathOf(PageOf(path)) == path
  {
    var c: int := (path[0] as int) * 512 + path[1] as int;
    var b: int := c * 512 + path[2] as int;
    var a: int := b * 512 + path[3] as int;
    assert a == PageOf(path);
    assert a / 512 == b && a % 512 == path[3];
    assert b / 512 == c && b % 512 == path[2];
    assert c / 512 == path[0] && c % 512 == path[1];
    assert a / 0x4_0000 == c;
    assert a / 0x800_0000 == path[0];
  }

  /** The lower half of the address space is the lower half of the level-4 table. */
  lemma {:induction false} LowerHalf(page: nat)
    requires page < PAGES
    ensures PathOf(page)[0] < 256 <==> page < PAGES / 2
  {
  }
}
