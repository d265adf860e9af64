/** ELF program headers (`src/loader/formats/elf.h`, `src/loader/formats/elfloader.c`). */
module Elf {
  import opened Words

  const PT_LOAD: Word := 1

  /** Bit 1 of a word, PF_W in `p_flags`: the code tests `p_flags & PF_W`. */
  predicate BitOne(w: Word) {
    w / 2 % 2 == 1
  }

  lemma BitOneIsMask(w: Word)
    ensures BitOne(w) <==> And(w, 2) != 0
  {
    AndTwo(w);
  }

  /** The fields of `struct elf32_phdr` that the loader reads; `p_offset` is signed. */
  datatype Phdr = Phdr(pType: Word, pOffset: int, pVaddr: Word, pFilesz: Word, pMemsz: Word, pFlags: Word)

  /** elf_phdr_phys_address. */
  function PhysAddress(memory: Word, h: Phdr): Word {
    ToWord(memory + h.pOffset)
  }
}
