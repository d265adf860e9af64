/** The extent of a loaded ELF image (elf_process_pheaders of `src/loader/formats/elfloader.c`). */
module ElfBounds {
  import opened Words
  import opened Elf

  /** The four bounds of `struct elf_file`, zero after kzalloc. */
  datatype Bounds = Bounds(virtualBase: Word, virtualEnd: Word, physicalBase: Word, physicalEnd: Word)

  const NO_BOUNDS: Bounds := Bounds(0, 0, 0, 0)

  /** The end address of a header, with wrap-around. */
  function End(h: Phdr): Word {
    ToWord(h.pVaddr + h.pFilesz)
  }

  function PhysEnd(memory: Word, h: Phdr): Word {
    ToWord(memory + h.pOffset + h.pFilesz)
  }

  /** elf_process_phdr_pt_load. */
  function LoadStep(memory: Word, b: Bounds, h: Phdr): Bounds {
    var b1 := if b.virtualBase >= h.pVaddr || b.virtualBase == 0
              then b.(virtualBase := h.pVaddr, physicalBase := PhysAddress(memory, h)) else b;
    if b1.virtualEnd <= End(h) || b1.virtualEnd == 0
    then b1.(virtualEnd := End(h), physicalEnd := PhysEnd(memory, h)) else b1
  }

  /** elf_process_pheader, for all headers in order. */
  function BoundsOf(memory: Word, headers: seq<Phdr>): Bounds {
    if headers == [] then NO_BOUNDS
    else
      var b := BoundsOf(memory, headers[..|headers| - 1]);
      var h := headers[|headers| - 1];
      if h.pType == PT_LOAD then LoadStep(memory, b, h) else b
  }

  /** The PT_LOAD entries, in order. */
  function Loads(headers: seq<Phdr>): (loads: seq<Phdr>)
    ensures forall i :: 0 <= i < |loads| ==> loads[i].pType == 1
    ensures forall h :: h in loads <==> h in headers && h.pType == 1
  {
    if headers == [] then []
    else
      var front := Loads(headers[..|headers| - 1]);
      var h := headers[|headers| - 1];
      if h.pType == PT_LOAD then front + [h] else front
  }

  lemma {:induction false} OnlyLoadsMatter(memory: Word, headers: seq<Phdr>)
    ensures BoundsOf(memory, Loads(headers)) == BoundsOf(memory, headers)
  {
    if headers != [] {
      var front := headers[..|headers| - 1];
      var h := headers[|headers| - 1];
      OnlyLoadsMatter(memory, front);
      if h.pType == PT_LOAD {
        assert Loads(headers)[..|Loads(headers)| - 1] == Loads(front);
      }
    }
  }

  /** `k` is the last entry with the least virtual address. */
  ghost predicate LastLeast(loads: seq<Phdr>, k: int) {
    && 0 <= k < |loads|
    && (forall i :: 0 <= i < |loads| ==> loads[k].pVaddr <= loads[i].pVaddr)
    && (forall i :: k < i < |loads| ==> loads[k].pVaddr < loads[i].pVaddr)
  }

  /** `k` is the last entry with the greatest end. */
  ghost predicate LastGreatest(loads: seq<Phdr>, k: int) {
    && 0 <= k < |loads|
    && (forall i :: 0 <= i < |loads| ==> End(loads[i]) <= End(loads[k]))
    && (forall i :: k < i < |loads| ==> End(loads[i]) < End(loads[k]))
  }

  ghost predicate AllLoads(loads: seq<Phdr>) {
    forall i :: 0 <= i < |loads| ==> loads[i].pType == 1
  }

  /** The end is the greatest end address, and the physical end that of the last entry with it. */
  lemma {:induction false} EndIsGreatest(memory: Word, loads: seq<Phdr>) returns (k: int)
    requires AllLoads(loads) && loads != []
    ensures LastGreatest(loads, k)
    ensures var b := BoundsOf(memory, loads);
            && b.virtualEnd == ToWord(loads[k].pVaddr + loads[k].pFilesz)
            && b.physicalEnd == ToWord(memory + loads[k].pOffset + loads[k].pFilesz)
  {
    var n := |loads| - 1;
    var front := loads[..n];
    k := n;
    if n > 0 {
      var j := EndIsGreatest(memory, front);
      LastGreatestNext(loads, j);
      if End(loads[n]) < End(loads[j]) {
        k := j;
      }
    }
  }

  lemma LastGreatestNext(loads: seq<Phdr>, j: int)
    requires loads != [] && LastGreatest(loads[..|loads| - 1], j)
    ensures var n := |loads| - 1;
            LastGreatest(loads, if End(loads[n]) < End(loads[j]) then j else n)
  {
    var front := loads[..|loads| - 1];
    assert forall i :: 0 <= i < |front| ==> front[i] == loads[i];
  }

  /** Without zero addresses the base is the least address, and the physical base that of the
      last entry with it. */
  lemma {:induction false} BaseIsLeast(memory: Word, loads: seq<Phdr>) returns (k: int)
    requires AllLoads(loads) && loads != []
    requires forall i :: 0 <= i < |loads| ==> loads[i].pVaddr != 0
    ensures LastLeast(loads, k)
    ensures var b := BoundsOf(memory, loads);
            b.virtualBase == loads[k].pVaddr && b.physicalBase == ToWord(memory + loads[k].pOffset)
  {
    var n := |loads| - 1;
    var front := loads[..n];
    k := n;
    if n > 0 {
      var j := BaseIsLeast(memory, front);
      assert forall i :: 0 <= i < n ==> front[i] == loads[i];
      if loads[n].pVaddr > loads[j].pVaddr {
        k := j;
      }
    }
  }

  predicate HasZero(loads: seq<Phdr>) {
    exists i :: 0 <= i < |loads| && loads[i].pVaddr == 0
  }

  /** A base of 0 reads as "not set": it survives only if the last entry is at 0. */
  lemma {:induction false} BaseZero(memory: Word, loads: seq<Phdr>)
    requires AllLoads(loads) && loads != []
    ensures BoundsOf(memory, loads).virtualBase == 0 <==> loads[|loads| - 1].pVaddr == 0
  {
    var n := |loads| - 1;
    if n > 0 {
      BaseZero(memory, loads[..n]);
    }
  }

  /** The base is the least address exactly when no entry, or the last entry, is at address 0. */
  lemma BaseExact(memory: Word, loads: seq<Phdr>)
    requires AllLoads(loads) && loads != []
    ensures (forall i :: 0 <= i < |loads| ==> BoundsOf(memory, loads).virtualBase <= loads[i].pVaddr)
            <==> !HasZero(loads) || loads[|loads| - 1].pVaddr == 0
  {
    BaseZero(memory, loads);
    if !HasZero(loads) {
      var k := BaseIsLeast(memory, loads);
    }
  }

  /** With a constant distance of file offset and address, and no wrap-around, the physical span
      equals the virtual span. */
  lemma SpansEqual(memory: Word, loads: seq<Phdr>, distance: int)
    requires AllLoads(loads) && loads != []
    requires forall i :: 0 <= i < |loads| ==>
               loads[i].pVaddr != 0 && loads[i].pVaddr + loads[i].pFilesz < WORD_LIMIT
               && loads[i].pOffset - loads[i].pVaddr == distance
    ensures var b := BoundsOf(memory, loads);
            ToWord(b.physicalEnd - b.physicalBase) == ToWord(b.virtualEnd - b.virtualBase)
    ensures BoundsOf(memory, loads).virtualBase <= BoundsOf(memory, loads).virtualEnd
  {
    var j := BaseIsLeast(memory, loads);
    var k := EndIsGreatest(memory, loads);
    SpanOfTwo(memory, loads[j], loads[k]);
    assert End(loads[j]) <= End(loads[k]);
  }

  lemma SpanOfTwo(memory: Word, first: Phdr, last: Phdr)
    requires first.pVaddr + first.pFilesz < WORD_LIMIT && last.pVaddr + last.pFilesz < WORD_LIMIT
    requires first.pOffset - first.pVaddr == last.pOffset - last.pVaddr
    ensures ToWord(PhysEnd(memory, last) - PhysAddress(memory, first)) == ToWord(End(last) - first.pVaddr)
    ensures first.pVaddr <= End(first)
  {
    var p, q := memory + first.pOffset, memory + last.pOffset + last.pFilesz;
    WordDifference(q, p);
    assert q - p == last.pVaddr + last.pFilesz - first.pVaddr;
    assert End(last) == last.pVaddr + last.pFilesz && End(first) == first.pVaddr + first.pFilesz;
  }

  // ---------------------------------------------------------------- the code

  class ElfFile {
    const memory: Word
    var virtualBase: Word
    var virtualEnd: Word
    var physicalBase: Word
    var physicalEnd: Word

    ghost function Value(): Bounds
      reads this
    {
      Bounds(virtualBase, virtualEnd, physicalBase, physicalEnd)
    }

    /** elf_load's zeroed structure, with the file's contents at `memory`. */
    constructor (memory: Word)
      ensures this.memory == memory && Value() == NO_BOUNDS
    {
      this.memory := memory;
      virtualBase, virtualEnd, physicalBase, physicalEnd := 0, 0, 0, 0;
    }

    /** elf_process_phdr_pt_load. */
    method ProcessPtLoad(h: Phdr)
      modifies this
      ensures Value() == LoadStep(memory, old(Value()), h)
    {
      if virtualBase >= h.pVaddr || virtualBase == 0 {
        virtualBase := h.pVaddr;
        physicalBase := PhysAddress(memory, h);
      }
      var endVirtual := ToWord(h.pVaddr + h.pFilesz);
      if virtualEnd <= endVirtual || virtualEnd == 0 {
        virtualEnd := endVirtual;
        physicalEnd := ToWord(memory + h.pOffset + h.pFilesz);
      }
    }

    /** elf_process_pheaders, with elf_process_pheader. */
    method ProcessHeaders(headers: seq<Phdr>) returns (res: int)
      requires Value() == NO_BOUNDS
      modifies this
      ensures res == 0 && Value() == BoundsOf(memory, headers)
    {
      res := 0;
      var i := 0;
      while i < |headers|
        invariant 0 <= i <= |headers|
        invariant Value() == BoundsOf(memory, headers[..i])
      {
        if headers[i].pType == PT_LOAD {
          ProcessPtLoad(headers[i]);
        }
        assert headers[..i + 1][..i] == headers[..i];
        i := i + 1;
      }
      assert headers[..|headers|] == headers;
    }
  }
}
