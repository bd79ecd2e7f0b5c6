/**
 The system calls that map memory into the address space of the current task, page by
 page. A call that fails half way keeps the pages it has mapped.
 */
module UserMemory {
  import opened PageTables
  import opened Sequences
  import opened Mapper
  import opened SpaceMapper
  import opened UpperHalves
  import opened AddressSpaces
  import opened Pages
  import opened MappedPrefix
  import opened UserPageTable
  import Capabilities
  import opened Wrappers

  type SyscallError = Capabilities.SyscallError

  /** A system call returns, or its arithmetic panics. */
  datatype CallResult<+T> = Ok(value: T) | Err(error: SyscallError) | Panics

  /** The pages `start..end`, without the last. */
  datatype PageRange = PageRange(start: nat, end: nat)

  const ADDRESSES := 0x1_0000_0000_0000_0000  // 2^64
  const CANONICAL := 0x1_0000_0000_0000       // 2^48
  const USER_END := 0x8000_0000_0000          // 2^47

  /** The bit that addresses of the kernel have set. */
  function CheckAddrUserspace(addr: nat): (r: CallResult<()>)
    requires addr < ADDRESSES
  {
    if addr >= ADDRESSES / 2 then Err(Capabilities.WrongParameters) else Ok(())
  }

  function ParsePageRange(at: nat, len: nat): CallResult<PageRange>
    requires at < ADDRESSES && len < ADDRESSES
  {
    if CheckAddrUserspace(at).Err? then Err(Capabilities.WrongParameters)
    else if at + len >= ADDRESSES || at + len == 0 then Panics
    else if CheckAddrUserspace(at + len - 1).Err? then Err(Capabilities.WrongParameters)
    else if at >= CANONICAL then Panics
    else if at % PAGE_SIZE != 0 then Err(Capabilities.WrongParameters)
    else if at + len >= CANONICAL then Panics
    else if (at + len) % PAGE_SIZE != 0 then Err(Capabilities.WrongParameters)
    else Ok(PageRange(at / PAGE_SIZE, (at + len) / PAGE_SIZE))
  }

  /**
   A range is accepted exactly when both ends are page-aligned and below 2^48; its pages are
   those of its addresses. From 2^47 on these are addresses of the upper half, without the
   sign bits.
   */
  lemma {:induction false} ParsedRange(at: nat, len: nat)
    requires 0 < len < ADDRESSES && at < ADDRESSES
    ensures ParsePageRange(at, len).Ok? <==> at % PAGE_SIZE == 0 && len % PAGE_SIZE == 0 && at + len < CANONICAL
    ensures at + len < CANONICAL && !ParsePageRange(at, len).Ok? ==>
              ParsePageRange(at, len) == Err(Capabilities.WrongParameters)
    ensures ParsePageRange(at, len).Ok? ==>
              var r := ParsePageRange(at, len).value;
              && r.start < r.end < PAGES
              && (forall a: nat :: at <= a < at + len <==> r.start <= a / PAGE_SIZE < r.end)
              && (r.end - r.start) * PAGE_SIZE == len
  {
  }

  /** An accepted range stays in the lower half exactly when it ends at 2^47 or below. */
  lemma {:induction false} AcceptedStaysLower(at: nat, len: nat)
    requires 0 < len < ADDRESSES && at < ADDRESSES && ParsePageRange(at, len).Ok?
    ensures var r := ParsePageRange(at, len).value;
            (forall page: nat | r.start <= page < r.end :: In(Lower, PathOf(page))) <==> at + len <= USER_END
  {
    hide PathOf;
    ParsedRange(at, len);
    var r := ParsePageRange(at, len).value;
    forall page: nat | r.start <= page < r.end ensures In(Lower, PathOf(page)) <==> page < PAGES / 2 {
      LowerHalf(page);
    }
    LowerHalf(r.end - 1);
  }

  /** The first page above: a user may ask for it, and it is page 0 of the upper half. */
  lemma {:induction false} FirstUpperPage()
    ensures ParsePageRange(USER_END, PAGE_SIZE) == Ok(PageRange(PAGES / 2, PAGES / 2 + 1))
    ensures PathOf(PAGES / 2) == [256, 0, 0, 0]
  {
  }

  /** Read, write and execute, bits 0, 1 and 2; without read there is no mapping. */
  function FlagsOf(perms: nat): CallResult<set<Flag>> {
    if perms % 2 == 0 then Err(Capabilities.WrongParameters)
    else
      Ok({Present, UserAccessible}
         + (if perms / 2 % 2 == 1 then {Writable} else {})
         + (if perms / 4 % 2 == 0 then {NoExecute} else {}))
  }

  /** What each bit gives: a page can be written or executed only if that was asked for, and always read. */
  lemma {:induction false} PermissionsAre(perms: nat, flag: Flag)
    ensures FlagsOf(perms).Ok? <==> perms % 2 == 1
    ensures !FlagsOf(perms).Ok? ==> FlagsOf(perms) == Err(Capabilities.WrongParameters)
    ensures FlagsOf(perms).Ok? ==>
              (flag in FlagsOf(perms).value <==>
                 match flag
                 case Present => true
                 case UserAccessible => true
                 case Writable => perms % 4 >= 2
                 case NoExecute => perms % 8 < 4
                 case _ => false)
  {
    assert perms % 4 == perms % 2 + 2 * (perms / 2 % 2);
    assert perms % 8 == perms % 4 + 4 * (perms / 4 % 2);
  }

  const PARENT_FLAGS: set<Flag> := {Present, UserAccessible, Writable}

  /** The steps of a mapping call: it takes frames, and maps pages of one space, all before `end`. */
  ghost predicate MapsOnly(ops: seq<Op>, root: Frame, end: nat) {
    forall op | op in ops :: op.TakeFrame? || (op.Map? && op.root == root && PageBefore(op.page, end))
  }

  ghost predicate PageBefore(path: seq<Index>, end: nat) {
    exists page: nat :: page < end && page < PAGES && path == PathOf(page)
  }

  /** A call whose range stays in the lower half makes no step that maps in an upper half. */
  lemma {:induction false} LowerCall(ops: seq<Op>, root: Frame)
    requires MapsOnly(ops, root, PAGES / 2)
    ensures LowerOnly(ops)
  {
    hide PathOf;
    forall op | op in ops ensures !InUpper(op) {
      if op.Map? {
        var page: nat :| page < PAGES / 2 && op.page == PathOf(page);
        LowerHalf(page);
      }
    }
  }

  /**
   Maps one page of the current task to a given frame. Told in `PrefixMapped`: the pages
   mapped so far, and this one if it can be mapped.
   */
  method MapNext(p: Paging, root: Frame, ghost mem: Memory, start: nat, ghost frames: seq<Frame>, page: nat,
                 frame: Frame, flags: set<Flag>, parent: set<Flag>, ghost s: State, ghost ops: seq<Op>, ghost end: nat)
    returns (r: MapResult, ghost ops': seq<Op>)
    requires p.Valid() && root in p.live && Present in flags && TableFlags(parent)
    requires flags * ACCESS <= parent && NoExecute !in parent
    requires page == start + |frames| < PAGES && page < end
    requires PrefixMapped(mem, p.mem, root, Whole, start, frames, flags)
    requires Inv(s) && p.Abs() == Run(s, ops) && MapsOnly(ops, root, end)
    modifies p
    ensures p.Valid() && p.live == old(p.live)
    ensures p.Abs() == Run(s, ops') && MapsOnly(ops', root, end)
    ensures forall f | f in p.pool :: f in old(p.pool)
    ensures PrefixMapped(mem, p.mem, root, Whole, start, if r == Mapped then frames + [frame] else frames, flags)
    ensures forall f | f in p.mem :: f in old(p.mem) || f in old(p.pool)
    ensures r == PageAlreadyMapped || r == ParentEntryHugePage <==> Walk(mem, root, PathOf(page)).MappedTo?
    ensures r == FrameAllocationFailed ==> p.pool == []
  {
    hide Part, Frames, Walk, MapPage, PathOf, PrefixMapped;
    WholePart(p.Abs(), root);
    NextPage(mem, p.mem, p.pool, root, Whole, start, frames, frame, flags, parent);
    var path, leaf := PathOf(page), Entry(frame, flags);
    RunThen(s, ops, Map(root, path, leaf, parent));
    ops' := ops + [Map(root, path, leaf, parent)];
    r := p.MapUserPage(root, path, leaf, parent);
  }

  /**
   How a mapping loop over `range` ends: with every page mapped; or before the first page
   that could not be, because it was mapped already or because memory ran out.
   */
  ghost predicate Stopped(r: CallResult<()>, mem: Memory, p: State, root: Frame, range: PageRange,
                          frames: seq<Frame>, flags: set<Flag>) {
    && PrefixMapped(mem, p.mem, root, Whole, range.start, frames, flags)
    && range.start + |frames| <= range.end <= PAGES
    && match r
       case Ok(_) => range.start + |frames| == range.end
       case Panics => false
       case Err(e) =>
         && range.start + |frames| < range.end
         && if e == Capabilities.MemoryAlreadyMapped then Walk(mem, root, PathOf(range.start + |frames|)).MappedTo?
            else e == Capabilities.NoMemory && p.pool == []
  }

  /** The pages mapped by an anonymous mapping have free frames of their own, which become no tables. */
  ghost predicate OwnFrames(pool: seq<Frame>, p: State, frames: seq<Frame>) {
    Apart(frames, p.mem, p.pool) && forall f | f in frames :: f in pool
  }

  lemma {:induction false} NoSteps(s: State, root: Frame)
    requires Inv(s)
    ensures Run(s, []) == s && forall end :: MapsOnly([], root, end)
  {
  }

  lemma {:induction false} PoolIsFresh(s: State)
    requires Inv(s)
    ensures Fresh(s.mem, s.pool)
  {
  }

  /** Frames are handed out, and some of them become tables; no others appear. */
  ghost predicate NoNewFrames(mem: Memory, pool: seq<Frame>, mem': Memory, pool': seq<Frame>) {
    && (forall f | f in pool' :: f in pool)
    && (forall f | f in mem' :: f in mem || f in pool)
  }

  lemma {:induction false} NoneNew(mem: Memory, pool: seq<Frame>)
    ensures NoNewFrames(mem, pool, mem, pool)
  {
  }

  lemma {:induction false} TakeFrameStep(s: State)
    requires Inv(s)
    ensures Step(s, TakeFrame) == if s.pool == [] then s else s.(pool := s.pool[1..])
  {
  }

  /**
   Takes a frame, and maps the next page to it. `s` is the state before the first page was
   mapped, `frames` are those of the pages mapped since.
   */
  method MapFresh(p: Paging, root: Frame, start: nat, ghost frames: seq<Frame>, page: nat, flags: set<Flag>,
                  parent: set<Flag>, ghost s: State, ghost ops: seq<Op>, ghost end: nat)
    returns (r: MapResult, frame: Frame, ghost ops': seq<Op>)
    requires p.Valid() && root in p.live && Present in flags && TableFlags(parent)
    requires flags * ACCESS <= parent && NoExecute !in parent
    requires page == start + |frames| < PAGES && page < end
    requires Inv(s) && p.Abs() == Run(s, ops) && MapsOnly(ops, root, end)
    requires PrefixMapped(s.mem, p.mem, root, Whole, start, frames, flags)
    requires OwnFrames(s.pool, p.Abs(), frames) && NoNewFrames(s.mem, s.pool, p.mem, p.pool)
    modifies p
    ensures p.Valid() && p.live == old(p.live)
    ensures p.Abs() == Run(s, ops') && MapsOnly(ops', root, end)
    ensures var frames' := if r == Mapped then frames + [frame] else frames;
            PrefixMapped(s.mem, p.mem, root, Whole, start, frames', flags) && OwnFrames(s.pool, p.Abs(), frames')
    ensures NoNewFrames(s.mem, s.pool, p.mem, p.pool)
    ensures r == Mapped ==> frame !in frames && frame in s.pool
    ensures r == FrameAllocationFailed ==> p.pool == []
    ensures r == Mapped ==> !Walk(s.mem, root, PathOf(page)).MappedTo?
    ensures r == PageAlreadyMapped || r == ParentEntryHugePage ==> Walk(s.mem, root, PathOf(page)).MappedTo?
  {
    hide Part, Frames, Walk, PathOf, PageOf, Inv, Step, PrefixMapped, UpperTrees;
    ghost var s0 := p.Abs();
    PoolIsFresh(s0);
    RunThen(s, ops, TakeFrame);
    ops' := ops + [TakeFrame];
    var next := p.AllocateFrame();
    TakeFrameStep(s0);
    if next.None? {
      return FrameAllocationFailed, 0, ops';
    }
    frame := next.value;
    assert frame in s0.pool;
    r, ops' := MapNext(p, root, s.mem, start, frames, page, frame, flags, parent, s, ops', end);
    OneMoreApart(s0.mem, s0.pool, p.mem, p.pool, frames);
    FewerApart(frames, frame, p.mem, p.pool);
  }

  /** The loop of an anonymous mapping: a frame for every page, then the page. */
  method MapVirtRange(p: Paging, root: Frame, range: PageRange, flags: set<Flag>)
    returns (r: CallResult<()>, ghost frames: seq<Frame>, ghost ops: seq<Op>)
    requires p.Valid() && root in p.live && Present in flags && range.start <= range.end <= PAGES
    modifies p
    ensures p.Valid() && p.Abs() == Run(old(p.Abs()), ops) && MapsOnly(ops, root, range.end)
    ensures Stopped(r, old(p.mem), p.Abs(), root, range, frames, flags)
    ensures OwnFrames(old(p.pool), p.Abs(), frames)
  {
    hide Part, Frames, Walk, PathOf, PageOf, Inv, Step, FlagsOf, PrefixMapped, UpperTrees, NoNewFrames;
    frames, ops := [], [];
    ghost var s := p.Abs();
    NothingMapped(s.mem, root, Whole, range.start, flags);
    NoneNew(s.mem, s.pool);
    for page := range.start to range.end
      invariant p.Valid()
      invariant p.Abs() == Run(s, ops) && MapsOnly(ops, root, range.end)
      invariant page == range.start + |frames|
      invariant p.live == s.live
      invariant PrefixMapped(s.mem, p.mem, root, Whole, range.start, frames, flags)
      invariant OwnFrames(s.pool, p.Abs(), frames) && NoNewFrames(s.mem, s.pool, p.mem, p.pool)
    {
      var result, frame;
      result, frame, ops := MapFresh(p, root, range.start, frames, page, flags, PARENT_FLAGS, s, ops, range.end);
      if result == FrameAllocationFailed {
        return Err(Capabilities.NoMemory), frames, ops;
      } else if result != Mapped {
        return Err(Capabilities.MemoryAlreadyMapped), frames, ops;
      }
      frames := frames + [frame];
    }
    return Ok(()), frames, ops;
  }

  /** Maps a range to frames that no one else uses. */
  method MapVirt(p: Paging, root: Frame, caps: seq<Capabilities.Capability>, at: nat, len: nat, perms: nat)
    returns (r: CallResult<()>, ghost frames: seq<Frame>, ghost ops: seq<Op>)
    requires p.Valid() && root in p.live && at < ADDRESSES && len < ADDRESSES
    modifies p
    ensures p.Valid() && p.Abs() == Run(old(p.Abs()), ops) && MapsOnly(ops, root, (at + len) / PAGE_SIZE)
    ensures var range, flags := ParsePageRange(at, len), FlagsOf(perms);
            if !range.Ok? then r == (if range.Panics? then Panics else Err(range.error)) && ops == []
            else if !Capabilities.MayMapVirt(caps) then r == Err(Capabilities.WrongCapability) && ops == []
            else if !flags.Ok? then r == Err(Capabilities.WrongParameters) && ops == []
            else
              && Stopped(r, old(p.mem), p.Abs(), root, range.value, frames, flags.value + {Bit10})
              && OwnFrames(old(p.pool), p.Abs(), frames)
  {
    hide Inv, Stopped, OwnFrames, Step;
    var range := ParsePageRange(at, len);
    if range.Panics? { return Panics, [], []; }
    if range.Err? { return Err(range.error), [], []; }
    if !Capabilities.MayMapVirt(caps) { return Err(Capabilities.WrongCapability), [], []; }
    var flags := FlagsOf(perms);
    if !flags.Ok? { return Err(Capabilities.WrongParameters), [], []; }
    r, frames, ops := MapVirtRange(p, root, range.value, flags.value + {Bit10});
  }

  /** The frames `first`, `first + 1`, ... */
  ghost predicate Consecutive(frames: seq<Frame>, first: Frame) {
    forall k | 0 <= k < |frames| :: frames[k] == first + k
  }

  lemma {:induction false} OneMoreConsecutive(frames: seq<Frame>, first: Frame)
    ensures Consecutive([], first)
    ensures Consecutive(frames, first) ==> Consecutive(frames + [first + |frames|], first)
  {
  }

  method MapPhysRange(p: Paging, root: Frame, range: PageRange, first: Frame, flags: set<Flag>)
    returns (r: CallResult<()>, ghost frames: seq<Frame>, ghost ops: seq<Op>)
    requires p.Valid() && root in p.live && Present in flags && range.start <= range.end <= PAGES
    modifies p
    ensures p.Valid() && p.Abs() == Run(old(p.Abs()), ops) && MapsOnly(ops, root, range.end)
    ensures Stopped(r, old(p.mem), p.Abs(), root, range, frames, flags)
    ensures Consecutive(frames, first)
  {
    hide Part, Frames, Walk, PathOf, PageOf, Inv, Step, Run, FlagsOf, PrefixMapped, Consecutive, MapsOnly;
    frames, ops := [], [];
    ghost var s := p.Abs();
    NoSteps(s, root);
    NothingMapped(s.mem, root, Whole, range.start, flags);
    OneMoreConsecutive([], first);
    for page := range.start to range.end
      invariant p.Valid()
      invariant p.Abs() == Run(s, ops) && MapsOnly(ops, root, range.end)
      invariant page == range.start + |frames|
      invariant p.live == s.live
      invariant PrefixMapped(s.mem, p.mem, root, Whole, range.start, frames, flags)
      invariant Consecutive(frames, first)
    {
      OneMoreConsecutive(frames, first);
      var frame := first + (page - range.start);
      var result;
      result, ops := MapNext(p, root, s.mem, range.start, frames, page, frame, flags, PARENT_FLAGS, s, ops, range.end);
      if result == FrameAllocationFailed {
        return Err(Capabilities.NoMemory), frames, ops;
      } else if result != Mapped {
        return Err(Capabilities.MemoryAlreadyMapped), frames, ops;
      }
      frames := frames + [frame];
    }
    return Ok(()), frames, ops;
  }

  /** Maps a range to the physical range of the same length at `physAt`. */
  method MapPhys(p: Paging, root: Frame, caps: seq<Capabilities.Capability>, at: nat, len: nat, perms: nat,
                 physAt: nat)
    returns (r: CallResult<()>, ghost frames: seq<Frame>, ghost ops: seq<Op>)
    requires p.Valid() && root in p.live && at < ADDRESSES && len < ADDRESSES
    modifies p
    ensures p.Valid() && p.Abs() == Run(old(p.Abs()), ops) && MapsOnly(ops, root, (at + len) / PAGE_SIZE)
    ensures var range, flags, from := ParsePageRange(at, len), FlagsOf(perms), physAt % Capabilities.PHYSICAL;
            if !range.Ok? then r == (if range.Panics? then Panics else Err(range.error)) && ops == []
            else if from + len >= Capabilities.PHYSICAL || from + len == 0 then r == Panics && ops == []
            else if from % PAGE_SIZE != 0 then r == Err(Capabilities.WrongParameters) && ops == []
            else if !Capabilities.MayMapPhys(caps, from, from + len - 1) then
              r == Err(Capabilities.WrongCapability) && ops == []
            else if !flags.Ok? then r == Err(Capabilities.WrongParameters) && ops == []
            else
              && Stopped(r, old(p.mem), p.Abs(), root, range.value, frames, flags.value)
              && Consecutive(frames, from / PAGE_SIZE)
              && (forall k | 0 <= k < |frames| ::
                    from <= frames[k] * PAGE_SIZE && (frames[k] + 1) * PAGE_SIZE <= from + len)
  {
    hide Inv, Stopped, OwnFrames, Step;
    var parsed := ParsePageRange(at, len);
    if parsed.Panics? { return Panics, [], []; }
    if parsed.Err? { return Err(parsed.error), [], []; }
    var from := physAt % Capabilities.PHYSICAL;
    if from + len >= Capabilities.PHYSICAL || from + len == 0 { return Panics, [], []; }
    var to := from + len - 1;
    if from % PAGE_SIZE != 0 || (to + 1) % PAGE_SIZE != 0 { return Err(Capabilities.WrongParameters), [], []; }
    if !Capabilities.MayMapPhys(caps, from, to) { return Err(Capabilities.WrongCapability), [], []; }
    var flags := FlagsOf(perms);
    if !flags.Ok? { return Err(Capabilities.WrongParameters), [], []; }
    r, frames, ops := MapPhysRange(p, root, parsed.value, from / PAGE_SIZE, flags.value);
    StoppedWithin(r, old(p.mem), p.Abs(), root, parsed.value, frames, flags.value);
  }

  lemma {:induction false} StoppedWithin(r: CallResult<()>, mem: Memory, p: State, root: Frame, range: PageRange,
                                         frames: seq<Frame>, flags: set<Flag>)
    requires Stopped(r, mem, p, root, range, frames, flags)
    ensures range.start + |frames| <= range.end
    ensures r.Err? && r.error != Capabilities.MemoryAlreadyMapped ==> r.error == Capabilities.NoMemory && p.pool == []
  {
  }

  // ---- The stack of a new task

  const STACK_PAGE := 0x4_0000  // page of 0x4000_0000
  const STACK_FLAGS: set<Flag> := {Present, Writable, NoExecute, UserAccessible}

  /** From an address on, the bytes of the frames can be read and written by the user, and not be executed. */
  ghost predicate StackMapped(mem: Memory, root: Frame, start: nat, stack: seq<Frame>) {
    forall a: nat | start <= a < start + |stack| * PAGE_SIZE ::
      && (a - start) / PAGE_SIZE < |stack|
      && Walk(mem, root, PathOf(PageOfAddress(a)))
         == MappedTo(stack[(a - start) / PAGE_SIZE], [], {Present, Writable, UserAccessible, NoExecute})
      && Allows(mem, root, PathOf(PageOfAddress(a)), {Present, Writable, UserAccessible})
  }

  lemma {:induction false} PrefixIsStack(mem: Memory, mem': Memory, root: Frame, stack: seq<Frame>)
    requires PrefixMapped(mem, mem', root, Whole, STACK_PAGE, stack, STACK_FLAGS) && |stack| <= 17
    ensures StackMapped(mem', root, STACK_PAGE * PAGE_SIZE, stack)
  {
    hide Walk, PathOf, PageOf, Allows, ForbidsNoMore, WayGrows;
    var start := STACK_PAGE * PAGE_SIZE;
    assert STACK_FLAGS * ACCESS == ACCESS;
    forall a: nat | start <= a < start + |stack| * PAGE_SIZE
      ensures (a - start) / PAGE_SIZE < |stack|
      ensures Walk(mem', root, PathOf(PageOfAddress(a))) == MappedTo(stack[(a - start) / PAGE_SIZE], [], STACK_FLAGS)
      ensures Allows(mem', root, PathOf(PageOfAddress(a)), ACCESS)
    {
      assert PageOfAddress(a) == STACK_PAGE + (a - start) / PAGE_SIZE;
      assert AllowsPage(mem', root, PageOfAddress(a), STACK_FLAGS);
    }
  }

  /** Maps the pages of a task's stack to the frames that hold it; false if the kernel panics. */
  method MountUserStack(p: Paging, root: Frame, stack: seq<Frame>) returns (ok: bool, ghost ops: seq<Op>)
    requires p.Valid() && root in p.live && |stack| <= 17
    requires forall q: seq<Index> | In(Lower, q) :: Walk(p.mem, root, q) == NotMapped
    modifies p
    ensures p.Valid() && p.Abs() == Run(old(p.Abs()), ops) && MapsOnly(ops, root, STACK_PAGE + |stack|)
    ensures ok ==> StackMapped(p.mem, root, 0x4000_0000, stack)
    ensures ok ==> PrefixMapped(old(p.mem), p.mem, root, Whole, STACK_PAGE, stack, STACK_FLAGS)
    ensures !ok ==> p.pool == []
  {
    hide Part, Frames, Walk, PathOf, Inv, Step, Run, PrefixMapped, MapsOnly, StackMapped;
    ops := [];
    ghost var s := p.Abs();
    NoSteps(s, root);
    NothingMapped(s.mem, root, Whole, STACK_PAGE, STACK_FLAGS);
    for i := 0 to |stack|
      invariant p.Valid() && p.live == s.live
      invariant p.Abs() == Run(s, ops) && MapsOnly(ops, root, STACK_PAGE + |stack|)
      invariant PrefixMapped(s.mem, p.mem, root, Whole, STACK_PAGE, stack[..i], STACK_FLAGS)
    {
      var result;
      PageInHalf(Whole, STACK_PAGE + i);
      assert stack[..i + 1] == stack[..i] + [stack[i]];
      result, ops := MapNext(p, root, s.mem, STACK_PAGE, stack[..i], STACK_PAGE + i, stack[i], STACK_FLAGS,
                             PARENT_FLAGS, s, ops, STACK_PAGE + |stack|);
      if result != Mapped {
        return false, ops;
      }
    }
    assert stack[..|stack|] == stack;
    PrefixIsStack(s.mem, p.mem, root, stack);
    return true, ops;
  }

  /** A new space maps nothing in its lower half, and has no tables there. */
  lemma {:induction false} CreatedMapsNothing(s: State, from: Frame, q: seq<Index>)
    requires Inv(s) && s.pool != [] && (from == s.kernel || from in s.live) && In(Lower, q)
    ensures s.pool[0] in Step(s, Create(from)).live
    ensures Walk(Step(s, Create(from)).mem, s.pool[0], q) == NotMapped
    ensures WayTo(Step(s, Create(from)).mem, s.pool[0], q) == []
  {
  }
}
