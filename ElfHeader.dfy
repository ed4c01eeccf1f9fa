/** The header-table accessors of the `ELF` reader (include/elf_utils.h).

    The mapped image is a byte sequence; header fields are little-endian
    unsigned integers at the offsets the System V gABI gives for ELF-64
    ("ELF Header", "Sections", "Program Header"). Accessors yield offsets
    into the image. */
module ElfHeader {
  import opened Wrappers
  import opened Remote

  /** Size of `Elf64_Ehdr`. */
  const EHDR_SIZE: nat := 64
  /** Offsets of `e_phoff`, `e_shoff`, `e_phentsize`, `e_shentsize` and
      `e_shstrndx` in `Elf64_Ehdr`. */
  const E_PHOFF: nat := 32
  const E_SHOFF: nat := 40
  const E_PHENTSIZE: nat := 54
  const E_SHENTSIZE: nat := 58
  const E_SHSTRNDX: nat := 62
  /** Offset of `sh_offset` in `Elf64_Shdr`, and the end of that field. */
  const SH_OFFSET: nat := 24
  const SH_OFFSET_END: nat := 32

  /** An `ELF` object: the mapped file and the indices of the sections
      `Parse` records (-1 while unknown). */
  datatype Elf = Elf(image: seq<byte>, dynamicIdx: int, dynstrIdx: int, dynsymIdx: int, strtabIdx: int, symtabIdx: int)

  /** The `ELF()` constructor: nothing mapped, every index -1. */
  function NewElf(): (e: Elf)
    ensures e.image == []
    ensures e.dynamicIdx < 0 && e.dynstrIdx < 0 && e.dynsymIdx < 0 && e.strtabIdx < 0 && e.symtabIdx < 0
  {
    Elf([], -1, -1, -1, -1, -1)
  }

  /** The unsigned number whose little-endian bytes are `bs`. */
  function LittleEndian(bs: seq<byte>): nat
  {
    if bs == [] then 0 else bs[0] + 256 * LittleEndian(bs[1..])
  }

  function Pow256(n: nat): (p: nat)
    ensures p >= 1
  {
    if n == 0 then 1 else 256 * Pow256(n - 1)
  }

  /** Reading back the bytes a word is stored as gives the word. */
  lemma {:induction false} LittleEndianOfLowBytes(w: nat, n: nat)
    requires w < Pow256(n)
    ensures LittleEndian(LowBytes(w, n)) == w
  {
    if n > 0 {
      assert w / 256 < Pow256(n - 1);
      LittleEndianOfLowBytes(w / 256, n - 1);
      assert LowBytes(w, n)[1..] == LowBytes(w / 256, n - 1);
    }
  }

  /** The `width`-byte field at `off`. */
  function Field(e: Elf, off: nat, width: nat): nat
    requires off + width <= |e.image|
  {
    LittleEndian(e.image[off..off + width])
  }

  /** A field stored as the low bytes of a value reads back as that value. */
  lemma FieldReadsStored(e: Elf, off: nat, width: nat, v: nat)
    requires off + width <= |e.image|
    requires v < Pow256(width) && e.image[off..off + width] == LowBytes(v, width)
    ensures Field(e, off, width) == v
  {
    LittleEndianOfLowBytes(v, width);
  }

  function PhOff(e: Elf): nat requires |e.image| >= EHDR_SIZE { Field(e, E_PHOFF, 8) }
  function ShOff(e: Elf): nat requires |e.image| >= EHDR_SIZE { Field(e, E_SHOFF, 8) }
  function PhEntSize(e: Elf): nat requires |e.image| >= EHDR_SIZE { Field(e, E_PHENTSIZE, 2) }
  function ShEntSize(e: Elf): nat requires |e.image| >= EHDR_SIZE { Field(e, E_SHENTSIZE, 2) }
  function ShStrNdx(e: Elf): nat requires |e.image| >= EHDR_SIZE { Field(e, E_SHSTRNDX, 2) }

  /** `phdr(idx)`: a negative index raises FatalException before the header
      is looked at; otherwise entry `idx` of the program-header table. */
  function Phdr(e: Elf, idx: int): (r: Result<nat>)
    requires idx >= 0 ==> |e.image| >= EHDR_SIZE
    ensures r.Err? <==> idx < 0
    ensures r.Err? ==> r.error == Fatal
  {
    if idx < 0 then Err(Fatal) else Ok(PhOff(e) + idx * PhEntSize(e))
  }

  /** `shdr(idx)`, the same for the section-header table. */
  function Shdr(e: Elf, idx: int): (r: Result<nat>)
    requires idx >= 0 ==> |e.image| >= EHDR_SIZE
    ensures r.Err? <==> idx < 0
    ensures r.Err? ==> r.error == Fatal
  {
    if idx < 0 then Err(Fatal) else Ok(ShOff(e) + idx * ShEntSize(e))
  }

  /** Section header `idx` lies in the image far enough to hold `sh_offset`. */
  predicate SectionReadable(e: Elf, idx: int)
  {
    && idx >= 0
    && |e.image| >= EHDR_SIZE
    && ShOff(e) + idx * ShEntSize(e) + SH_OFFSET_END <= |e.image|
  }

  /** `sh_offset` of section `idx`. */
  function SectionOffset(e: Elf, idx: int): nat
    requires SectionReadable(e, idx)
  {
    var at := ShOff(e) + idx * ShEntSize(e);
    Field(e, at + SH_OFFSET, 8)
  }

  /** `strtab(off)`: `off` bytes into the section-name string table, the
      section whose index the header's `e_shstrndx` holds. It never
      raises. */
  function StrTab(e: Elf, off: int): (r: int)
    requires |e.image| >= EHDR_SIZE && SectionReadable(e, ShStrNdx(e))
    ensures DynStr(e.(dynstrIdx := ShStrNdx(e)), off) == Ok(r)
  {
    // `e_shstrndx` is unsigned, so the index check in `shdr` always passes.
    SectionOffset(e, ShStrNdx(e)) + off
  }

  /** `dynstr(off)`: `off` bytes into the section `Parse` recorded as
      `.dynstr`; raises through `shdr` while that index is unknown. */
  function DynStr(e: Elf, off: int): (r: Result<int>)
    requires e.dynstrIdx >= 0 ==> SectionReadable(e, e.dynstrIdx)
    ensures r.Err? <==> e.dynstrIdx < 0
    ensures r.Err? ==> r.error == Fatal
  {
    var sh :- Shdr(e, e.dynstrIdx);
    Ok(SectionOffset(e, e.dynstrIdx) + off)
  }

  /** The string-table accessor resolves to the file offset stored in the
      `sh_offset` of section `e_shstrndx`, plus `off`, whatever that
      section's header says otherwise. */
  lemma StrTabMeaning(e: Elf, off: int, shoff: nat)
    requires |e.image| >= EHDR_SIZE && SectionReadable(e, ShStrNdx(e))
    requires shoff < Pow256(8)
    requires var at := ShOff(e) + ShStrNdx(e) * ShEntSize(e) + SH_OFFSET;
      e.image[at..at + 8] == LowBytes(shoff, 8)
    ensures StrTab(e, off) == shoff + off
  {
    var at := ShOff(e) + ShStrNdx(e) * ShEntSize(e) + SH_OFFSET;
    FieldReadsStored(e, at, 8, shoff);
  }

  /** Before `Parse` records a `.dynstr` index, `dynstr` raises
      FatalException, whatever image is mapped. */
  lemma DynStrBeforeParse(image: seq<byte>, off: int)
    ensures DynStr(NewElf(), off) == Err(Fatal)
    ensures DynStr(NewElf().(image := image), off) == Err(Fatal)
  {
  }

  /** Against a header that stores `e_phoff` and `e_phentsize` at their
      gABI offsets, program header `idx` starts at the table offset plus
      `idx` entry sizes. */
  lemma PhdrEntryAt(e: Elf, idx: nat, phoff: nat, phentsize: nat)
    requires |e.image| >= EHDR_SIZE
    requires phoff < Pow256(8) && phentsize < Pow256(2)
    requires e.image[E_PHOFF..E_PHOFF + 8] == LowBytes(phoff, 8)
    requires e.image[E_PHENTSIZE..E_PHENTSIZE + 2] == LowBytes(phentsize, 2)
    ensures Phdr(e, idx) == Ok(phoff + idx * phentsize)
  {
    FieldReadsStored(e, E_PHOFF, 8, phoff);
    FieldReadsStored(e, E_PHENTSIZE, 2, phentsize);
    var size := PhEntSize(e);
    assert Phdr(e, idx) == Ok(PhOff(e) + idx * size);
  }

  /** The same for section header `idx`, `e_shoff` and `e_shentsize`. */
  lemma ShdrEntryAt(e: Elf, idx: nat, shoff: nat, shentsize: nat)
    requires |e.image| >= EHDR_SIZE
    requires shoff < Pow256(8) && shentsize < Pow256(2)
    requires e.image[E_SHOFF..E_SHOFF + 8] == LowBytes(shoff, 8)
    requires e.image[E_SHENTSIZE..E_SHENTSIZE + 2] == LowBytes(shentsize, 2)
    ensures Shdr(e, idx) == Ok(shoff + idx * shentsize)
  {
    FieldReadsStored(e, E_SHOFF, 8, shoff);
    FieldReadsStored(e, E_SHENTSIZE, 2, shentsize);
    var size := ShEntSize(e);
    assert Shdr(e, idx) == Ok(ShOff(e) + idx * size);
  }
}
