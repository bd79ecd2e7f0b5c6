/** Loading the segments of an ELF program into the lower half of an address space. */
module ElfLoader {
  import opened Wrappers
  import opened PageTables
  import opened Sequences
  import opened Mapper
  import opened SpaceMapper
  import opened UpperHalves
  import opened AddressSpaces
  import opened Pages
  import opened UserPageTable
  import opened MappedPrefix
  import UserMemory

  type Byte = b: nat | b < 256

  // ---- The file

  const SIZEOF_EHDR := 64
  const SIZEOF_PHDR := 56

  /** The bytes of a little-endian number, least significant first. */
  function LittleEndian(s: seq<Byte>): nat {
    if s == [] then 0 else s[0] as nat + 256 * LittleEndian(s[1..])
  }

  function PhOff(data: seq<Byte>): nat
    requires |data| >= SIZEOF_EHDR
  {
    LittleEndian(data[32..40])
  }

  function PhNum(data: seq<Byte>): nat
    requires |data| >= SIZEOF_EHDR
  {
    LittleEndian(data[56..58])
  }

  const MAGIC: seq<Byte> := [0x7f, 0x45, 0x4c, 0x46]

  /** The checks made when a file is taken for a program. */
  predicate IsElf(data: seq<Byte>) {
    && |data| > SIZEOF_EHDR
    && data[..4] == MAGIC
    && PhOff(data) + PhNum(data) * SIZEOF_PHDR < UserMemory.ADDRESSES
    && PhOff(data) + PhNum(data) * SIZEOF_PHDR < |data|
  }

  /** A program header: whether it is to be loaded, what it allows, and where it is. */
  datatype ProgramHeader = ProgramHeader(load: bool, x: bool, w: bool, r: bool, offset: nat, filesz: nat,
                                         vaddr: nat, memsz: nat)

  function HeaderAt(data: seq<Byte>, i: nat): ProgramHeader
    requires IsElf(data) && i < PhNum(data)
  {
    HeadersInFile(data, i);
    var b := data[PhOff(data) + i * SIZEOF_PHDR..][..SIZEOF_PHDR];
    var flags := LittleEndian(b[4..8]);
    ProgramHeader(LittleEndian(b[0..4]) == 1, flags % 2 == 1, flags / 2 % 2 == 1, flags / 4 % 2 == 1,
                  LittleEndian(b[8..16]), LittleEndian(b[32..40]), LittleEndian(b[16..24]), LittleEndian(b[40..48]))
  }

  /** The bytes of the file for a header; slicing past the end panics. */
  function ProgramData(data: seq<Byte>, h: ProgramHeader): Option<seq<Byte>> {
    if h.offset > |data| || h.filesz > |data| - h.offset then None
    else Some(data[h.offset..][..h.filesz])
  }

  /** The header table that is read lies in the file. */
  lemma {:induction false} HeadersInFile(data: seq<Byte>, i: nat)
    requires IsElf(data) && i < PhNum(data)
    ensures PhOff(data) + (i + 1) * SIZEOF_PHDR < |data|
  {
  }

  // ---- Copying a page

  /** The bytes of a page whose first byte is at `index` of the file's data; zeros outside of it. */
  function Window(data: seq<Byte>, index: int): (page: seq<Byte>)
    ensures |page| == PAGE_SIZE
    ensures forall i | 0 <= i < PAGE_SIZE :: page[i] == if 0 <= index + i < |data| then data[index + i] else 0
  {
    seq(PAGE_SIZE, (i: nat) => if 0 <= index + i < |data| then data[index + i] else 0)
  }

  function Max(a: int, b: int): int { if a > b then a else b }
  function Min(a: int, b: int): int { if a < b then a else b }

  /** The bytes of a frame in physical memory. */
  function FrameBytes(ram: seq<Byte>, frame: Frame): seq<Byte>
    requires (frame + 1) * PAGE_SIZE <= |ram|
  {
    ram[frame * PAGE_SIZE..][..PAGE_SIZE]
  }

  /** Clears a frame and copies what the file has for it; it stays in the frame and in the data. */
  method CopyPage(ram: array<Byte>, frame: Frame, data: seq<Byte>, fileIndex: int)
    requires (frame + 1) * PAGE_SIZE <= ram.Length
    modifies ram
    ensures FrameBytes(ram[..], frame) == Window(data, fileIndex)
    ensures forall i | 0 <= i < ram.Length && i / PAGE_SIZE != frame :: ram[i] == old(ram[i])
  {
    var at := frame * PAGE_SIZE;
    for i := 0 to PAGE_SIZE
      invariant forall j | at <= j < at + i :: ram[j] == 0
      invariant forall j | 0 <= j < ram.Length && !(at <= j < at + PAGE_SIZE) :: ram[j] == old(ram[j])
    {
      ram[at + i] := 0;
    }
    var dataStart := Max(fileIndex, 0);
    var dataEnd := Min(fileIndex + PAGE_SIZE, |data|);
    var off := Max(-fileIndex, 0);
    if dataStart <= dataEnd {
      for i := 0 to dataEnd - dataStart
        invariant forall j | at <= j < at + off && j < at + PAGE_SIZE :: ram[j] == 0
        invariant forall j | at + off <= j < at + off + i :: ram[j] == data[dataStart + (j - off - at)]
        invariant forall j | at + off + i <= j < at + PAGE_SIZE :: ram[j] == 0
        invariant forall j | 0 <= j < ram.Length && !(at <= j < at + PAGE_SIZE) :: ram[j] == old(ram[j])
      {
        ram[at + off + i] := data[dataStart + i];
      }
    }
    assert forall i | 0 <= i < PAGE_SIZE :: FrameBytes(ram[..], frame)[i] == ram[at + i];
  }

  // ---- Mounting a segment

  /** Where a header's segment lies in the page grid. */
  function FromPage(vaddr: nat): nat { vaddr / PAGE_SIZE }
  function ToPage(vaddr: nat, memsz: nat): nat requires memsz > 0 { (vaddr + memsz - 1) / PAGE_SIZE }
  function FileIndex(vaddr: nat): int { FromPage(vaddr) * PAGE_SIZE - vaddr }

  /** The pages of a header's segment. */
  function PagesOf(h: ProgramHeader): UserMemory.PageRange
    requires h.memsz > 0
  {
    UserMemory.PageRange(FromPage(h.vaddr), ToPage(h.vaddr, h.memsz) + 1)
  }

  function SegmentFlags(h: ProgramHeader): set<Flag> {
    {Present, UserAccessible} + (if h.x then {} else {NoExecute}) + (if h.w then {Writable} else {})
  }

  /** A segment is for user programs; they may write to it or execute it as its header says, and nothing more. */
  lemma {:induction false} SegmentFlagsAre(h: ProgramHeader, flag: Flag)
    ensures flag in SegmentFlags(h) <==>
              match flag
              case Present => true
              case UserAccessible => true
              case Writable => h.w
              case NoExecute => !h.x
              case _ => false
  {
  }

  /** The frames hold, each, the same window of the data. */
  ghost predicate Imaged(ram: seq<Byte>, frames: seq<Frame>, data: seq<Byte>, index: int) {
    forall f | f in frames :: (f + 1) * PAGE_SIZE <= |ram| && FrameBytes(ram, f) == Window(data, index)
  }

  /** No byte outside of the frames has changed. */
  ghost predicate OnlyFrames(before: seq<Byte>, after: seq<Byte>, frames: seq<Frame>) {
    |after| == |before| && forall i | 0 <= i < |before| && i / PAGE_SIZE !in frames :: after[i] == before[i]
  }

  /** Frames that no one wrote to hold what they did. */
  lemma {:induction false} ImagesKept(before: seq<Byte>, after: seq<Byte>, written: seq<Frame>, frames: seq<Frame>,
                                      data: seq<Byte>, index: int)
    requires Imaged(before, frames, data, index) && OnlyFrames(before, after, written)
    requires forall f | f in frames :: f !in written
    ensures Imaged(after, frames, data, index)
  {
  }

  lemma {:induction false} OneMoreWritten(a: seq<Byte>, b: seq<Byte>, c: seq<Byte>, frames: seq<Frame>,
                                          more: seq<Frame>)
    requires OnlyFrames(a, b, frames) && OnlyFrames(b, c, more)
    ensures OnlyFrames(a, c, frames + more)
  {
  }

  /** Every frame that can be handed out is part of physical memory. */
  ghost predicate InRam(pool: seq<Frame>, ram: nat) {
    forall f | f in pool :: (f + 1) * PAGE_SIZE <= ram
  }

  lemma {:induction false} StillFree(mem: Memory, pool: seq<Frame>, mem': Memory, pool': seq<Frame>, ram: nat)
    requires InRam(pool, ram) && UserMemory.NoNewFrames(mem, pool, mem', pool')
    ensures InRam(pool', ram) && forall f | f in pool' :: f in pool
  {
  }

  lemma {:induction false} FrameInRam(pool: seq<Frame>, f: Frame, ram: nat)
    requires InRam(pool, ram) && f in pool
    ensures (f + 1) * PAGE_SIZE <= ram
  {
  }

  /** The `n` pages from `start` are not mapped. */
  ghost predicate WereUnmapped(mem: Memory, root: Frame, start: nat, n: nat)
    requires start + n <= PAGES
  {
    forall page | start <= page < start + n :: !IsMapped(mem, root, page)
  }

  ghost predicate IsMapped(mem: Memory, root: Frame, page: nat)
    requires page < PAGES
  {
    Walk(mem, root, PathOf(page)).MappedTo?
  }

  /** The segment lies in the lower half and may be read. */
  predicate Loadable(h: ProgramHeader) {
    h.memsz > 0 && h.r && h.vaddr + h.memsz < UserMemory.USER_END
  }

  /** A 64-bit number as an address: bit 47 is the sign, unless all bits above it are set already. */
  function VirtAddr(a: nat): Option<nat> {
    if a < UserMemory.USER_END then Some(a)
    else if a < UserMemory.CANONICAL then Some(a + (UserMemory.ADDRESSES - UserMemory.CANONICAL))
    else if UserMemory.ADDRESSES - UserMemory.USER_END <= a < UserMemory.ADDRESSES then Some(a)
    else None
  }

  /** The addresses of a segment and of its end are valid ones, and neither is the kernel's. */
  lemma {:induction false} LoadableExactly(h: ProgramHeader)
    requires h.vaddr < UserMemory.ADDRESSES && h.memsz > 0
    ensures Loadable(h) <==>
              && h.r
              && VirtAddr(h.vaddr).Some?
              && UserMemory.CheckAddrUserspace(VirtAddr(h.vaddr).value).Ok?
              && var to := VirtAddr(h.vaddr).value + h.memsz;
                 VirtAddr(to).Some? && UserMemory.CheckAddrUserspace(VirtAddr(to).value).Ok?
  {
  }

  /**
   Gives every page of a segment a frame, maps it, and fills it. Everything but `Ok` is a
   panic of the kernel; `Err` is the reason why a page could not be mapped.
   */
  method MountSegment(p: Paging, root: Frame, ram: array<Byte>, h: ProgramHeader, data: seq<Byte>)
    returns (r: UserMemory.CallResult<()>, ghost frames: seq<Frame>, ghost ops: seq<Op>)
    requires p.Valid() && root in p.live && InRam(p.pool, ram.Length)
    requires h.memsz > 0
    modifies p, ram
    ensures p.Valid() && p.Abs() == Run(old(p.Abs()), ops) && UserMemory.MapsOnly(ops, root, PAGES / 2)
    ensures p.live == old(p.live) && UserMemory.NoNewFrames(old(p.mem), old(p.pool), p.mem, p.pool)
    ensures OnlyFrames(old(ram[..]), ram[..], frames)
    ensures UserMemory.OwnFrames(old(p.pool), p.Abs(), frames)
    ensures r.Panics? <==> !Loadable(h)
    ensures r.Panics? ==> ops == []
    ensures !r.Panics? ==>
              && UserMemory.Stopped(r, old(p.mem), p.Abs(), root, PagesOf(h), frames, SegmentFlags(h))
              && WereUnmapped(old(p.mem), root, FromPage(h.vaddr), |frames|)
              && Imaged(ram[..], frames, data, FileIndex(h.vaddr))
  {
    hide Part, Frames, Walk, PathOf, PageOf, Inv, Step, PrefixMapped, FrameBytes, Window, OnlyFrames, Imaged,
      SegmentFlags, UserMemory.NoNewFrames, UpperTrees, WereUnmapped, InRam, Roots;
    frames, ops := [], [];
    ghost var s, bytes := p.Abs(), ram[..];
    NothingWritten(bytes, data, FileIndex(h.vaddr));
    UserMemory.NoneNew(s.mem, s.pool);
    if h.vaddr + h.memsz >= UserMemory.USER_END || !h.r {
      return UserMemory.Panics, frames, ops;
    }
    var fromPage, end := FromPage(h.vaddr), ToPage(h.vaddr, h.memsz) + 1;
    var flags, index := SegmentFlags(h), FileIndex(h.vaddr);
    PresentInFlags(h);
    NothingMapped(s.mem, root, Whole, fromPage, flags);
    NoneUnmapped(s.mem, root, fromPage);
    for page := fromPage to end
      invariant p.Valid()
      invariant p.Abs() == Run(s, ops) && UserMemory.MapsOnly(ops, root, PAGES / 2)
      invariant page == fromPage + |frames|
      invariant p.live == s.live
      invariant PrefixMapped(s.mem, p.mem, root, Whole, fromPage, frames, flags)
      invariant UserMemory.OwnFrames(s.pool, p.Abs(), frames)
      invariant UserMemory.NoNewFrames(s.mem, s.pool, p.mem, p.pool)
      invariant WereUnmapped(s.mem, root, fromPage, |frames|)
      invariant OnlyFrames(bytes, ram[..], frames)
      invariant Imaged(ram[..], frames, data, index)
    {
      var result, frame;
      result, frame, ops := UserMemory.MapFresh(p, root, fromPage, frames, page, flags,
                                                flags * UserMemory.PARENT_FLAGS, s, ops, PAGES / 2);
      if result == FrameAllocationFailed {
        return UserMemory.Err(UserMemory.Capabilities.NoMemory), frames, ops;
      } else if result != Mapped {
        return UserMemory.Err(UserMemory.Capabilities.MemoryAlreadyMapped), frames, ops;
      }
      FrameInRam(s.pool, frame, ram.Length);
      ghost var was := ram[..];
      CopyPage(ram, frame, data, index);
      OneMoreImaged(bytes, was, ram[..], frames, frame, data, index);
      OneMoreUnmapped(s.mem, root, fromPage, |frames|);
      frames := frames + [frame];
    }
    return UserMemory.Ok(()), frames, ops;
  }

  lemma {:induction false} OneMoreUnmapped(mem: Memory, root: Frame, start: nat, n: nat)
    requires start + n < PAGES && WereUnmapped(mem, root, start, n)
    requires !Walk(mem, root, PathOf(start + n)).MappedTo?
    ensures WereUnmapped(mem, root, start, n + 1)
  {
  }

  lemma {:induction false} NoneUnmapped(mem: Memory, root: Frame, start: nat)
    requires start <= PAGES
    ensures WereUnmapped(mem, root, start, 0)
  {
  }

  lemma {:induction false} PresentInFlags(h: ProgramHeader)
    ensures Present in SegmentFlags(h) && TableFlags(SegmentFlags(h) * UserMemory.PARENT_FLAGS)
  {
  }

  lemma {:induction false} NothingWritten(ram: seq<Byte>, data: seq<Byte>, index: int)
    ensures OnlyFrames(ram, ram, []) && Imaged(ram, [], data, index)
  {
  }

  lemma {:induction false} OneMoreImaged(ram: seq<Byte>, was: seq<Byte>, now: seq<Byte>, frames: seq<Frame>,
                                         frame: Frame, data: seq<Byte>, index: int)
    requires OnlyFrames(ram, was, frames) && Imaged(was, frames, data, index) && frame !in frames
    requires |now| == |was| && forall i | 0 <= i < |was| && i / PAGE_SIZE != frame :: now[i] == was[i]
    requires (frame + 1) * PAGE_SIZE <= |now| && FrameBytes(now, frame) == Window(data, index)
    ensures OnlyFrames(ram, now, frames + [frame]) && Imaged(now, frames + [frame], data, index)
  {
    hide FrameBytes, Window;
    assert OnlyFrames(was, now, [frame]);
    OneMoreWritten(ram, was, now, frames, [frame]);
    ImagesKept(was, now, [frame], frames, data, index);
  }

  // ---- Mounting a program

  /** The headers among the first `n` that are mounted. */
  function Mountable(file: seq<Byte>, n: nat): seq<ProgramHeader>
    requires IsElf(file) && n <= PhNum(file)
  {
    if n == 0 then [] else
      var h := HeaderAt(file, n - 1);
      Mountable(file, n - 1) + if h.load && h.memsz > 0 then [h] else []
  }

  /** Every loadable header with a size in memory is mounted, and no other one. */
  lemma {:induction false} MountableAre(file: seq<Byte>, n: nat, h: ProgramHeader)
    requires IsElf(file) && n <= PhNum(file)
    ensures h in Mountable(file, n) <==> exists i :: 0 <= i < n && HeaderAt(file, i) == h && h.load && h.memsz > 0
    decreases n
  {
    hide HeaderAt, IsElf;
    if n > 0 {
      MountableAre(file, n - 1, h);
      assert h in Mountable(file, n) <==>
             h in Mountable(file, n - 1) || (HeaderAt(file, n - 1) == h && h.load && h.memsz > 0);
    }
  }

  /** A segment in memory: its header, the bytes the file has for it, and the frames of its pages. */
  datatype Segment = Segment(header: ProgramHeader, data: seq<Byte>, frames: seq<Frame>)

  /** The page is one of the segment's. */
  predicate Covers(g: Segment, page: nat) {
    FromPage(g.header.vaddr) <= page < FromPage(g.header.vaddr) + |g.frames|
  }

  ghost predicate Mounted(mem: Memory, root: Frame, ram: seq<Byte>, g: Segment) {
    && Loadable(g.header)
    && FromPage(g.header.vaddr) + |g.frames| == ToPage(g.header.vaddr, g.header.memsz) + 1
    && (forall page: nat | Covers(g, page) :: MapsTo(mem, root, g, page))
    && Imaged(ram, g.frames, g.data, FileIndex(g.header.vaddr))
  }

  ghost predicate MapsTo(mem: Memory, root: Frame, g: Segment, page: nat)
    requires Covers(g, page)
  {
    && page < PAGES
    && Walk(mem, root, PathOf(page)) == MappedTo(g.frames[page - FromPage(g.header.vaddr)], [], SegmentFlags(g.header))
    && AllowsPage(mem, root, page, SegmentFlags(g.header))
  }

  lemma {:induction false} JustMounted(mem: Memory, s: State, root: Frame, ram: seq<Byte>, g: Segment)
    requires Loadable(g.header)
    requires UserMemory.Stopped(UserMemory.Ok(()), mem, s, root, PagesOf(g.header), g.frames, SegmentFlags(g.header))
    requires Imaged(ram, g.frames, g.data, FileIndex(g.header.vaddr))
    ensures Mounted(s.mem, root, ram, g)
  {
    hide Walk, PathOf, PageOf, Imaged, SegmentFlags;
    forall page: nat | Covers(g, page) ensures MapsTo(s.mem, root, g, page) {
      var k := page - FromPage(g.header.vaddr);
      assert Walk(s.mem, root, PathOf(FromPage(g.header.vaddr) + k))
          == MappedTo(g.frames[k], [], SegmentFlags(g.header));
    }
  }

  /** What is mounted later takes no page and no frame of a mounted segment. */
  lemma {:induction false} StillMounted(mem: Memory, mem': Memory, root: Frame, ram: seq<Byte>, ram': seq<Byte>,
                                        g: Segment, start: nat, frames: seq<Frame>, flags: set<Flag>)
    requires Mounted(mem, root, ram, g)
    requires PrefixMapped(mem, mem', root, Whole, start, frames, flags)
    requires start + |frames| <= PAGES && WereUnmapped(mem, root, start, |frames|)
    requires OnlyFrames(ram, ram', frames) && forall f | f in g.frames :: f !in frames
    ensures Mounted(mem', root, ram', g)
    ensures forall page: nat | Covers(g, page) :: !(start <= page < start + |frames|)
  {
    hide Walk, PathOf, PageOf, Imaged, SegmentFlags, OnlyFrames, Allows, WayGrows, ForbidsNoMore;
    ImagesKept(ram, ram', frames, g.frames, g.data, FileIndex(g.header.vaddr));
    forall page: nat | Covers(g, page)
      ensures MapsTo(mem', root, g, page) && !(start <= page < start + |frames|)
    {
      assert MapsTo(mem, root, g, page);
      assert IsMapped(mem, root, page);
      PageInHalf(Whole, page);
      assert SamePlace(Walk(mem, root, PathOf(page)), Walk(mem', root, PathOf(page)));
      AllowsGrow(mem, mem', root, PathOf(page), SegmentFlags(g.header) * ACCESS);
    }
  }

  /**
   The segments are in memory, no two share a page or a frame, and every other page is as
   it was.
   */
  ghost predicate AllMounted(mem: Memory, mem': Memory, pool: seq<Frame>, root: Frame, ram: seq<Byte>,
                             gs: seq<Segment>) {
    && (forall g | g in gs :: Mounted(mem', root, ram, g) && Apart(g.frames, mem', pool))
    && (forall i, j | 0 <= i < j < |gs| :: Disjoint(gs[i], gs[j]))
    && (forall q: seq<Index> | In(Whole, q) && !Taken(gs, PageOf(q)) ::
          SamePlace(Walk(mem, root, q), Walk(mem', root, q)))
  }

  ghost predicate Disjoint(g: Segment, h: Segment) {
    && (forall page: nat | Covers(g, page) :: !Covers(h, page))
    && (forall f | f in g.frames :: f !in h.frames)
  }

  ghost predicate Taken(gs: seq<Segment>, page: nat) {
    exists g | g in gs :: Covers(g, page)
  }

  lemma {:induction false} OneMoreMounted(mem: Memory, m0: Memory, pool0: seq<Frame>, m1: Memory, pool1: seq<Frame>,
                                          root: Frame, ram0: seq<Byte>, ram1: seq<Byte>, gs: seq<Segment>, h: Segment)
    requires AllMounted(mem, m0, pool0, root, ram0, gs)
    requires UserMemory.NoNewFrames(m0, pool0, m1, pool1)
    requires Mounted(m1, root, ram1, h) && OnlyFrames(ram0, ram1, h.frames)
    requires Apart(h.frames, m1, pool1) && forall f | f in h.frames :: f in pool0
    requires var start := FromPage(h.header.vaddr);
             && WereUnmapped(m0, root, start, |h.frames|)
             && PrefixMapped(m0, m1, root, Whole, start, h.frames, SegmentFlags(h.header))
    ensures AllMounted(mem, m1, pool1, root, ram1, gs + [h])
  {
    hide Walk, PathOf, PageOf, Imaged, SegmentFlags, OnlyFrames, Mounted, WereUnmapped, Loadable;
    var all, start := gs + [h], FromPage(h.header.vaddr);
    forall g | g in gs
      ensures Mounted(m1, root, ram1, g) && Apart(g.frames, m1, pool1) && Disjoint(g, h)
    {
      assert Mounted(m0, root, ram0, g) && Apart(g.frames, m0, pool0);
      StillMounted(m0, m1, root, ram0, ram1, g, start, h.frames, SegmentFlags(h.header));
    }
    forall q: seq<Index> | In(Whole, q) && !Taken(all, PageOf(q))
      ensures SamePlace(Walk(mem, root, q), Walk(m1, root, q))
    {
      assert h in all && !Covers(h, PageOf(q));
      assert forall g | g in gs :: g in all;
      assert SamePlace(Walk(mem, root, q), Walk(m0, root, q));
      assert SamePlace(Walk(m0, root, q), Walk(m1, root, q));
    }
  }

  /** A header whose bytes are not in the file, or whose segment may not be mounted. */
  ghost predicate Bad(file: seq<Byte>, i: nat)
    requires IsElf(file) && i < PhNum(file)
  {
    var h := HeaderAt(file, i);
    ProgramData(file, h).None? || (h.load && h.memsz > 0 && !Loadable(h))
  }

  /** The segments are those of the headers, with their bytes. */
  ghost predicate FromHeaders(file: seq<Byte>, n: nat, gs: seq<Segment>)
    requires IsElf(file) && n <= PhNum(file)
  {
    var hs := Mountable(file, n);
    |gs| == |hs| && forall k | 0 <= k < |gs| :: gs[k].header == hs[k] && ProgramData(file, hs[k]) == Some(gs[k].data)
  }

  predicate HasPage(h: ProgramHeader, page: nat) {
    h.memsz > 0 && FromPage(h.vaddr) <= page <= ToPage(h.vaddr, h.memsz)
  }

  /** The page was mapped before anything was mounted, or one of the headers has it. */
  ghost predicate InUse(mem: Memory, root: Frame, hs: seq<ProgramHeader>, page: nat)
    requires page < PAGES
  {
    IsMapped(mem, root, page) || exists h | h in hs :: HasPage(h, page)
  }

  /** A page of header `k` is in use before it, by a header before it at the latest. */
  ghost predicate ClashAt(mem: Memory, root: Frame, hs: seq<ProgramHeader>, k: nat)
    requires k < |hs|
  {
    exists page: nat :: page < PAGES && HasPage(hs[k], page) && InUse(mem, root, hs[..k], page)
  }

  ghost predicate Clash(mem: Memory, root: Frame, hs: seq<ProgramHeader>) {
    exists k | 0 <= k < |hs| :: ClashAt(mem, root, hs, k)
  }

  /** When some segments are mounted, the pages that are mapped are those in use. */
  lemma {:induction false} MappedIsInUse(mem: Memory, m0: Memory, pool: seq<Frame>, root: Frame, ram: seq<Byte>,
                                         gs: seq<Segment>, hs: seq<ProgramHeader>, page: nat)
    requires AllMounted(mem, m0, pool, root, ram, gs) && page < PAGES
    requires |gs| == |hs| && forall k | 0 <= k < |gs| :: gs[k].header == hs[k]
    ensures IsMapped(m0, root, page) <==> InUse(mem, root, hs, page)
  {
    hide Walk, PathOf, PageOf, Imaged, SegmentFlags, Apart;
    PageInHalf(Whole, page);
    if k :| 0 <= k < |hs| && HasPage(hs[k], page) {
      var g := gs[k];
      assert g in gs && Mounted(m0, root, ram, g) && Covers(g, page) && MapsTo(m0, root, g, page);
    } else {
      forall g | g in gs ensures !Covers(g, page) {
        var k :| 0 <= k < |gs| && gs[k] == g;
        assert !HasPage(hs[k], page) && Mounted(m0, root, ram, g);
      }
      assert !Taken(gs, PageOf(PathOf(page)));
      assert SamePlace(Walk(mem, root, PathOf(page)), Walk(m0, root, PathOf(page)));
    }
  }

  /** A segment whose pages were not mapped clashes with nothing. */
  lemma {:induction false} StillNoClash(mem: Memory, m0: Memory, pool: seq<Frame>, root: Frame, ram: seq<Byte>,
                                        gs: seq<Segment>, hs: seq<ProgramHeader>, h: ProgramHeader)
    requires AllMounted(mem, m0, pool, root, ram, gs) && !Clash(mem, root, hs) && Loadable(h)
    requires |gs| == |hs| && forall k | 0 <= k < |gs| :: gs[k].header == hs[k]
    requires WereUnmapped(m0, root, FromPage(h.vaddr), ToPage(h.vaddr, h.memsz) + 1 - FromPage(h.vaddr))
    ensures !Clash(mem, root, hs + [h])
  {
    hide AllMounted, IsMapped, InUse;
    var all := hs + [h];
    forall k | 0 <= k < |all| ensures !ClashAt(mem, root, all, k) {
      if k < |hs| {
        assert all[..k] == hs[..k] && !ClashAt(mem, root, hs, k);
      } else {
        assert all[..k] == hs;
        forall page: nat | page < PAGES && HasPage(h, page) ensures !InUse(mem, root, hs, page) {
          MappedIsInUse(mem, m0, pool, root, ram, gs, hs, page);
        }
      }
    }
  }

  /** A segment that could not be mounted because of a page that is mapped clashes. */
  lemma {:induction false} MappedIsClash(mem: Memory, m0: Memory, pool: seq<Frame>, root: Frame, ram: seq<Byte>,
                                         gs: seq<Segment>, hs: seq<ProgramHeader>, h: ProgramHeader, page: nat)
    requires AllMounted(mem, m0, pool, root, ram, gs) && page < PAGES && HasPage(h, page)
    requires |gs| == |hs| && forall k | 0 <= k < |gs| :: gs[k].header == hs[k]
    requires IsMapped(m0, root, page)
    ensures Clash(mem, root, hs + [h])
  {
    hide AllMounted, IsMapped, InUse;
    MappedIsInUse(mem, m0, pool, root, ram, gs, hs, page);
    var all := hs + [h];
    assert all[..|hs|] == hs && all[|hs|] == h;
    assert ClashAt(mem, root, all, |hs|);
  }

  lemma {:induction false} MoreClash(mem: Memory, root: Frame, file: seq<Byte>, n: nat, m: nat)
    requires IsElf(file) && n <= m <= PhNum(file) && Clash(mem, root, Mountable(file, n))
    ensures Clash(mem, root, Mountable(file, m))
    decreases m
  {
    hide HeaderAt, IsElf, InUse;
    if n < m {
      MoreClash(mem, root, file, n, m - 1);
      var hs, all := Mountable(file, m - 1), Mountable(file, m);
      var k :| 0 <= k < |hs| && ClashAt(mem, root, hs, k);
      assert all[..|hs|] == hs && all[..k] == hs[..k];
      assert ClashAt(mem, root, all, k);
    }
  }

  lemma {:induction false} HasHeader(file: seq<Byte>)
    requires IsElf(file)
    ensures |file| > SIZEOF_EHDR
  {
  }

  lemma {:induction false} NoClash(mem: Memory, root: Frame)
    ensures !Clash(mem, root, [])
  {
  }

  lemma {:induction false} NoneMounted(mem: Memory, pool: seq<Frame>, root: Frame, ram: seq<Byte>)
    ensures AllMounted(mem, mem, pool, root, ram, [])
  {
  }

  /** The segments of the headers so far, and the next one. */
  lemma {:induction false} HeaderMounted(r: UserMemory.CallResult<()>, mem: Memory, m0: Memory,
                                         pool0: seq<Frame>, s: State, root: Frame, ram0: seq<Byte>, ram: seq<Byte>,
                                         file: seq<Byte>, i: nat, gs: seq<Segment>, g: Segment)
    requires IsElf(file) && i < PhNum(file) && g.header == HeaderAt(file, i) && g.header.load && Loadable(g.header)
    requires FromHeaders(file, i, gs) && ProgramData(file, g.header) == Some(g.data)
    requires AllMounted(mem, m0, pool0, root, ram0, gs) && !Clash(mem, root, Mountable(file, i))
    requires r.Ok? && UserMemory.Stopped(r, m0, s, root, PagesOf(g.header), g.frames, SegmentFlags(g.header))
    requires WereUnmapped(m0, root, FromPage(g.header.vaddr), |g.frames|)
    requires UserMemory.OwnFrames(pool0, s, g.frames) && UserMemory.NoNewFrames(m0, pool0, s.mem, s.pool)
    requires Imaged(ram, g.frames, g.data, FileIndex(g.header.vaddr)) && OnlyFrames(ram0, ram, g.frames)
    ensures FromHeaders(file, i + 1, gs + [g]) && !Clash(mem, root, Mountable(file, i + 1))
    ensures AllMounted(mem, s.mem, s.pool, root, ram, gs + [g])
  {
    hide Walk, PathOf, PageOf, PrefixMapped, Imaged, SegmentFlags, OnlyFrames, UserMemory.NoNewFrames, Mounted,
      WereUnmapped, HeaderAt, IsElf, AllMounted, Clash, ProgramData, Apart;
    StillNoClash(mem, m0, pool0, root, ram0, gs, Mountable(file, i), g.header);
    JustMounted(m0, s, root, ram, g);
    OneMoreMounted(mem, m0, pool0, s.mem, s.pool, root, ram0, ram, gs, g);
  }

  lemma {:induction false} HeaderClashes(mem: Memory, m0: Memory, pool0: seq<Frame>, s: State, root: Frame,
                                         ram0: seq<Byte>, file: seq<Byte>, i: nat, gs: seq<Segment>,
                                         frames: seq<Frame>)
    requires IsElf(file) && i < PhNum(file) && HeaderAt(file, i).load && Loadable(HeaderAt(file, i))
    requires FromHeaders(file, i, gs) && AllMounted(mem, m0, pool0, root, ram0, gs)
    requires var h := HeaderAt(file, i);
             UserMemory.Stopped(UserMemory.Err(UserMemory.Capabilities.MemoryAlreadyMapped), m0, s, root, PagesOf(h),
                                frames, SegmentFlags(h))
    ensures Clash(mem, root, Mountable(file, PhNum(file)))
  {
    hide Walk, PathOf, PageOf, PrefixMapped, SegmentFlags, HeaderAt, IsElf, AllMounted, Clash, ProgramData;
    HasHeader(file);
    var h := HeaderAt(file, i);
    assert Mountable(file, i + 1) == Mountable(file, i) + [h];
    assert IsMapped(m0, root, FromPage(h.vaddr) + |frames|);
    MappedIsClash(mem, m0, pool0, root, ram0, gs, Mountable(file, i), h, FromPage(h.vaddr) + |frames|);
    MoreClash(mem, root, file, i + 1, PhNum(file));
  }

  /** Mounts every loadable segment of a file; everything but `Ok` is a panic of the kernel. */
  method MountInto(p: Paging, root: Frame, ram: array<Byte>, file: seq<Byte>)
    returns (r: UserMemory.CallResult<()>, ghost gs: seq<Segment>, ghost ops: seq<Op>)
    requires p.Valid() && root in p.live && InRam(p.pool, ram.Length)
    requires IsElf(file)
    modifies p, ram
    ensures p.Valid() && p.Abs() == Run(old(p.Abs()), ops) && UserMemory.MapsOnly(ops, root, PAGES / 2)
    ensures r.Ok? ==> FromHeaders(file, PhNum(file), gs) && forall i | 0 <= i < PhNum(file) :: !Bad(file, i)
    ensures r.Ok? ==> AllMounted(old(p.mem), p.mem, p.pool, root, ram[..], gs)
    ensures r.Panics? ==> exists i | 0 <= i < PhNum(file) :: Bad(file, i)
    ensures r.Ok? ==> !Clash(old(p.mem), root, Mountable(file, PhNum(file)))
    ensures r.Err? ==> if r.error == UserMemory.Capabilities.MemoryAlreadyMapped
                       then Clash(old(p.mem), root, Mountable(file, PhNum(file)))
                       else r.error == UserMemory.Capabilities.NoMemory && p.pool == []
  {
    hide Part, Frames, Walk, PathOf, PageOf, Inv, Step, Run, PrefixMapped, FrameBytes, Window, OnlyFrames, Imaged,
      SegmentFlags, UserMemory.NoNewFrames, Mounted, WereUnmapped, InRam, HeaderAt, IsElf, AllMounted, Clash,
      UpperTrees, Roots, UserMemory.PageBefore, UserMemory.OwnFrames, UserMemory.Stopped, ProgramData;
    gs, ops := [], [];
    ghost var s := p.Abs();
    UserMemory.NoSteps(s, root);
    NoneMounted(s.mem, s.pool, root, ram[..]);
    NoClash(s.mem, root);
    HasHeader(file);
    for i := 0 to PhNum(file)
      invariant p.Valid() && p.live == s.live
      invariant p.Abs() == Run(s, ops) && UserMemory.MapsOnly(ops, root, PAGES / 2)
      invariant InRam(p.pool, ram.Length)
      invariant FromHeaders(file, i, gs) && forall j | 0 <= j < i :: !Bad(file, j)
      invariant AllMounted(s.mem, p.mem, p.pool, root, ram[..], gs)
      invariant !Clash(s.mem, root, Mountable(file, i))
    {
      var h := HeaderAt(file, i);
      var d := ProgramData(file, h);
      if d.None? {
        assert Bad(file, i);
        return UserMemory.Panics, gs, ops;
      }
      if h.load && h.memsz > 0 {
        ghost var m0, pool0, bytes, frames, more := p.mem, p.pool, ram[..], [], [];
        r, frames, more := MountSegment(p, root, ram, h, d.value);
        RunConcat(s, ops, more);
        ops := ops + more;
        if !r.Ok? {
          assert r.Panics? ==> Bad(file, i);
          if r.Err? {
            UserMemory.StoppedWithin(r, m0, p.Abs(), root, PagesOf(h), frames, SegmentFlags(h));
          }
          if r == UserMemory.Err(UserMemory.Capabilities.MemoryAlreadyMapped) {
            HeaderClashes(s.mem, m0, pool0, p.Abs(), root, bytes, file, i, gs, frames);
          }
          return r, gs, ops;
        }
        ghost var g := Segment(h, d.value, frames);
        HeaderMounted(r, s.mem, m0, pool0, p.Abs(), root, bytes, ram[..], file, i, gs, g);
        StillFree(m0, pool0, p.mem, p.pool, ram.Length);
        gs := gs + [g];
      } else {
        assert Mountable(file, i + 1) == Mountable(file, i);
      }
    }
    return UserMemory.Ok(()), gs, ops;
  }

  // ---- What a program finds in its memory

  /** The byte that a segment has at an address: that of the file, and zeros after those. */
  function SegmentByte(data: seq<Byte>, vaddr: nat, a: nat): Byte
    requires a >= vaddr
  {
    if a - vaddr < |data| then data[a - vaddr] else 0
  }

  /** The byte that is loaded there. */
  function LoadedByte(data: seq<Byte>, vaddr: nat, a: nat): Byte {
    Window(data, FileIndex(vaddr))[a % PAGE_SIZE]
  }

  ghost predicate RightImage(data: seq<Byte>, vaddr: nat, memsz: nat) {
    forall a: nat | vaddr <= a < vaddr + memsz :: LoadedByte(data, vaddr, a) == SegmentByte(data, vaddr, a)
  }

  /**
   The segment is on one page, or has no bytes of the file; or it goes over the end of its
   first page by less than a page, with nothing of the file on the second.
   */
  predicate OneWindow(vaddr: nat, memsz: nat, filesz: nat)
    requires memsz > 0
  {
    || FromPage(vaddr) == ToPage(vaddr, memsz)
    || filesz == 0
    || (memsz <= PAGE_SIZE && filesz <= PAGE_SIZE - vaddr % PAGE_SIZE)
  }

  /** The first page is right, wherever the segment starts. */
  lemma {:induction false} FirstPageIsRight(data: seq<Byte>, vaddr: nat, a: nat)
    requires vaddr <= a && a / PAGE_SIZE == FromPage(vaddr)
    ensures LoadedByte(data, vaddr, a) == SegmentByte(data, vaddr, a)
  {
  }

  lemma {:induction false} OneWindowIsRight(data: seq<Byte>, vaddr: nat, memsz: nat)
    requires memsz > 0 && OneWindow(vaddr, memsz, |data|)
    ensures RightImage(data, vaddr, memsz)
  {
  }

  /** A file with one byte set, and an address where it is not seen, or seen again. */
  lemma {:induction false} OtherwiseWrong(vaddr: nat, memsz: nat, filesz: nat) returns (data: seq<Byte>)
    requires memsz > 0 && !OneWindow(vaddr, memsz, filesz)
    ensures |data| == filesz && !RightImage(data, vaddr, memsz)
  {
    var one: Byte := 1;
    var none: seq<Byte> := seq(filesz, (i: nat) => 0);
    var a;
    if memsz > PAGE_SIZE {
      data, a := none[0 := one], vaddr + PAGE_SIZE;
      assert FileIndex(vaddr) + a % PAGE_SIZE == 0;
    } else {
      var k := PAGE_SIZE - vaddr % PAGE_SIZE;
      data, a := none[k := one], vaddr + k;
      assert a % PAGE_SIZE == 0;
    }
    assert LoadedByte(data, vaddr, a) != SegmentByte(data, vaddr, a);
  }

  /**
   The segments of a shape are loaded right, whatever the file holds, exactly when every
   page gets the same window of it anyway: pages after the first get the first one's bytes
   again.
   */
  lemma {:induction false} ImageExactly(vaddr: nat, memsz: nat, filesz: nat)
    requires memsz > 0
    ensures (forall data: seq<Byte> | |data| == filesz :: RightImage(data, vaddr, memsz))
            <==> OneWindow(vaddr, memsz, filesz)
  {
    if OneWindow(vaddr, memsz, filesz) {
      forall data: seq<Byte> | |data| == filesz ensures RightImage(data, vaddr, memsz) {
        OneWindowIsRight(data, vaddr, memsz);
      }
    } else {
      var data := OtherwiseWrong(vaddr, memsz, filesz);
    }
  }

  /** Where a mounted segment of such a shape is mapped, physical memory holds its bytes. */
  lemma {:induction false} MountedByte(mem: Memory, root: Frame, ram: seq<Byte>, g: Segment, a: nat)
    requires Mounted(mem, root, ram, g) && g.header.vaddr <= a < g.header.vaddr + g.header.memsz
    requires OneWindow(g.header.vaddr, g.header.memsz, |g.data|)
    ensures a / PAGE_SIZE < PAGES
    ensures var t := Walk(mem, root, PathOf(a / PAGE_SIZE));
            && t.MappedTo? && t.rest == [] && t.flags == SegmentFlags(g.header)
            && AllowsPage(mem, root, a / PAGE_SIZE, t.flags)
            && (t.frame + 1) * PAGE_SIZE <= |ram|
            && ram[t.frame * PAGE_SIZE + a % PAGE_SIZE] == SegmentByte(g.data, g.header.vaddr, a)
  {
    hide Walk, PathOf, SegmentFlags, Window;
    var page := a / PAGE_SIZE;
    assert Covers(g, page) && MapsTo(mem, root, g, page);
    var f := g.frames[page - FromPage(g.header.vaddr)];
    assert f in g.frames;
    assert FrameBytes(ram, f)[a % PAGE_SIZE] == ram[f * PAGE_SIZE + a % PAGE_SIZE];
    OneWindowIsRight(g.data, g.header.vaddr, g.header.memsz);
  }
}
