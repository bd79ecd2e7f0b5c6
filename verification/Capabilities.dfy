/** Capabilities, and the errors of system calls. */
module Capabilities {

  datatype Perm = Duplicate | Shareable | Transfer

  datatype CapabilityType =
    | MapPhysical(from: nat, to: nat)  // both ends are part of the range
    | MapVirtualToRam
    | ProcessSpawn
    | ChannelCreate

  datatype Capability = Capability(perms: set<Perm>, ctype: CapabilityType)

  datatype SyscallError =
    | NotImplemented
    | WrongParameters
    | NoMemory
    | WrongDescriptor
    | FsNotExecutable
    | WrongCapability
    | WrongCapabilityPerms
    | WrongProcess
    | MemoryAlreadyMapped

  datatype Result<+T> = Ok(value: T) | Err(error: SyscallError)

  const PHYSICAL := 0x10_0000_0000_0000  // 2^52

  /** The capability is for a physical range that holds `from..to`, both included. */
  predicate Covers(c: CapabilityType, from: nat, to: nat) {
    c.MapPhysical? && c.from <= from && c.to >= to
  }

  predicate MayMapPhys(caps: seq<Capability>, from: nat, to: nat) {
    exists i :: 0 <= i < |caps| && Covers(caps[i].ctype, from, to)
  }

  predicate MayMapVirt(caps: seq<Capability>) {
    exists i :: 0 <= i < |caps| && caps[i].ctype == MapVirtualToRam
  }

  /** `c` is `g`, or `g` with its physical range cut down to a range that is not empty. */
  predicate Derives(c: Capability, g: Capability) {
    && c.perms == g.perms
    && if g.ctype.MapPhysical? then
         c.ctype.MapPhysical? && g.ctype.from <= c.ctype.from <= c.ctype.to <= g.ctype.to
       else c.ctype == g.ctype
  }

  /** It can be handed on, but never be in two hands. */
  predicate Linear(c: Capability) {
    Duplicate !in c.perms && Shareable !in c.perms
  }
}
