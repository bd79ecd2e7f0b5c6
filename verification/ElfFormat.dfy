/**
 The layout of ELF files, written out as an encoder of headers, against which the reading
 of headers is proved: the fields of `Elf64_Ehdr` and `Elf64_Phdr` in the System V gABI,
 chapters 4 and 5, in little-endian order.
 */
module ElfFormat {
  import opened Wrappers
  import ElfLoader

  type Byte = ElfLoader.Byte

  /** The `k` lowest bytes of a number, the lowest one first. */
  function Bytes(n: nat, k: nat): (s: seq<Byte>)
    ensures |s| == k
    decreases k
  {
    if k == 0 then [] else [n % 256] + Bytes(n / 256, k - 1)
  }

  function Power(k: nat): nat {
    if k == 0 then 1 else 256 * Power(k - 1)
  }

  lemma {:induction false} Powers()
    ensures Power(2) == 0x1_0000 && Power(4) == 0x1_0000_0000 && Power(8) == 0x1_0000_0000_0000_0000
  {
    assert Power(4) == 256 * Power(3);
    assert Power(6) == 256 * Power(5) && Power(7) == 256 * Power(6) && Power(8) == 256 * Power(7);
    assert Power(5) == 256 * Power(4) && Power(3) == 256 * Power(2);
  }

  lemma {:induction false} BytesRead(n: nat, k: nat)
    requires n < Power(k)
    ensures ElfLoader.LittleEndian(Bytes(n, k)) == n
    decreases k
  {
    if k > 0 {
      BytesRead(n / 256, k - 1);
      assert Bytes(n, k)[1..] == Bytes(n / 256, k - 1);
    }
  }

  /** The fields of a program header; of its flags, the lowest three are execute, write and read. */
  datatype Phdr = Phdr(ptype: nat, x: bool, w: bool, r: bool, otherFlags: nat, offset: nat, vaddr: nat, paddr: nat,
                       filesz: nat, memsz: nat, align: nat) {

    function Flags(): nat {
      (if x then 1 else 0) + (if w then 2 else 0) + (if r then 4 else 0) + 8 * otherFlags
    }

    predicate InRange() {
      && ptype < 0x1_0000_0000 && Flags() < 0x1_0000_0000
      && offset < 0x1_0000_0000_0000_0000 && vaddr < 0x1_0000_0000_0000_0000
      && paddr < 0x1_0000_0000_0000_0000 && filesz < 0x1_0000_0000_0000_0000
      && memsz < 0x1_0000_0000_0000_0000 && align < 0x1_0000_0000_0000_0000
    }

    function Encoded(): (s: seq<Byte>)
      ensures |s| == 56
    {
      Bytes(ptype, 4) + Bytes(Flags(), 4) + Bytes(offset, 8) + Bytes(vaddr, 8) + Bytes(paddr, 8) + Bytes(filesz, 8)
      + Bytes(memsz, 8) + Bytes(align, 8)
    }
  }

  /** Where the fields are in the encoding. */
  lemma {:induction false} Fields(h: Phdr)
    ensures var s := h.Encoded();
            && s[0..4] == Bytes(h.ptype, 4) && s[4..8] == Bytes(h.Flags(), 4)
            && s[8..16] == Bytes(h.offset, 8) && s[16..24] == Bytes(h.vaddr, 8)
            && s[32..40] == Bytes(h.filesz, 8) && s[40..48] == Bytes(h.memsz, 8)
  {
    hide Bytes;
  }

  /** A program header is read as it was written. */
  lemma {:induction false} HeaderRoundTrip(file: seq<Byte>, i: nat, h: Phdr)
    requires ElfLoader.IsElf(file) && i < ElfLoader.PhNum(file) && h.InRange()
    requires ElfLoader.PhOff(file) + i * 56 + 56 <= |file|
    requires file[ElfLoader.PhOff(file) + i * 56..][..56] == h.Encoded()
    ensures ElfLoader.HeaderAt(file, i)
            == ElfLoader.ProgramHeader(h.ptype == 1, h.x, h.w, h.r, h.offset, h.filesz, h.vaddr, h.memsz)
  {
    hide Bytes, ElfLoader.LittleEndian, ElfLoader.PhOff, ElfLoader.PhNum, ElfLoader.IsElf, Power;
    Fields(h);
    Powers();
    BytesRead(h.ptype, 4);
    BytesRead(h.Flags(), 4);
    BytesRead(h.offset, 8);
    BytesRead(h.vaddr, 8);
    BytesRead(h.filesz, 8);
    BytesRead(h.memsz, 8);
    FlagBits(h);
  }

  lemma {:induction false} FlagBits(h: Phdr)
    ensures var f := h.Flags(); (f % 2 == 1) == h.x && (f / 2 % 2 == 1) == h.w && (f / 4 % 2 == 1) == h.r
  {
  }

  /**
   A file whose header has its program headers at `off`, `n` of them, is accepted exactly
   if it is longer than the header, starts with the magic number, and the table ends before
   the file does.
   */
  lemma {:induction false} FileAccepted(file: seq<Byte>, off: nat, n: nat)
    requires 64 <= |file| < 0x1_0000_0000_0000_0000 && off < 0x1_0000_0000_0000_0000 && n < 0x1_0000
    requires file[32..40] == Bytes(off, 8) && file[56..58] == Bytes(n, 2)
    ensures ElfLoader.PhOff(file) == off && ElfLoader.PhNum(file) == n
    ensures ElfLoader.IsElf(file) <==>
              && |file| > 64 && file[0] == 0x7f && file[1] == 'E' as nat && file[2] == 'L' as nat
              && file[3] == 'F' as nat && off + n * 56 < |file|
  {
    hide Bytes, ElfLoader.LittleEndian, Power;
    Powers();
    BytesRead(off, 8);
    BytesRead(n, 2);
    var start := file[..4];
    assert start == [file[0], file[1], file[2], file[3]];
  }

  /** The bytes of a program are those from its offset on, if the file has so many; else slicing panics. */
  lemma {:induction false} DataRead(file: seq<Byte>, h: ElfLoader.ProgramHeader)
    ensures ElfLoader.ProgramData(file, h).Some? <==> h.offset + h.filesz <= |file|
    ensures ElfLoader.ProgramData(file, h).Some? ==>
              var data := ElfLoader.ProgramData(file, h).value;
              |data| == h.filesz && forall j | 0 <= j < h.filesz :: data[j] == file[h.offset + j]
  {
  }
}
