/**
 The self-programming flash of an AVR, as the boot loaders see it through
 boot_page_erase, boot_page_fill, boot_page_write and pgm_read_byte.

 `cells` is the whole memory, `buffer` the temporary page buffer, whose length is
 SPM_PAGESIZE.  Programming can only clear bits: a page write combines each cell with
 the buffer bit by bit, so a page holds what was filled only if it was erased before.
 A page write also empties the buffer.
 */
module Flash {
  import opened Bytes

  /** The start of the page of `page` bytes that holds `addr`. */
  function PageBase(addr: nat, page: nat): (base: nat)
    requires page > 0
    ensures base <= addr < base + page
  {
    if addr < page then 0 else page + PageBase(addr - page, page)
  }

  /** `addr` is a multiple of `page`. */
  predicate Aligned(addr: nat, page: nat)
    requires page > 0
  {
    PageBase(addr, page) == addr
  }

  lemma {:induction false} AlignedIsBase(addr: nat, base: nat, page: nat)
    requires page > 0 && Aligned(base, page) && base <= addr < base + page
    ensures PageBase(addr, page) == base
  {
    if base >= page {
      AlignedIsBase(addr - page, base - page, page);
    }
  }

  lemma {:induction false} BaseIsAligned(addr: nat, page: nat)
    requires page > 0
    ensures Aligned(PageBase(addr, page), page)
  {
    if addr >= page {
      BaseIsAligned(addr - page, page);
    }
  }

  lemma NextAligned(addr: nat, page: nat)
    requires page > 0
    ensures Aligned(0, page)
    ensures Aligned(addr, page) ==> Aligned(addr + page, page)
  {
  }

  /** Two aligned addresses less than a page apart are equal. */
  lemma AlignedApart(a: nat, b: nat, page: nat)
    requires page > 0 && Aligned(a, page) && Aligned(b, page) && a < b
    ensures a + page <= b
  {
    if b < a + page {
      AlignedIsBase(b, a, page);
    }
  }

  lemma {:induction false} EvenBase(addr: nat, page: nat)
    requires page > 0 && page % 2 == 0
    ensures PageBase(addr, page) % 2 == 0
  {
    if addr >= page { EvenBase(addr - page, page); }
  }

  lemma EvenOffset(addr: nat, page: nat)
    requires page > 0 && page % 2 == 0 && addr % 2 == 0
    ensures (addr - PageBase(addr, page)) % 2 == 0
  {
    hide PageBase;
    EvenBase(addr, page);
  }

  function BitAnd(a: byte, b: byte): (r: byte)
    ensures a == 0xFF ==> r == b
    ensures b == 0xFF ==> r == a
  {
    if a == 0xFF then b else if b == 0xFF then a else ((a as bv8) & (b as bv8)) as int
  }

  datatype Memory = Memory(cells: seq<byte>, buffer: seq<byte>) {
    /** SPM_PAGESIZE: even, and at most 256 so that a word counter fits a byte. */
    predicate Valid() {
      && 2 <= |buffer| <= 0x100
      && |buffer| % 2 == 0
      && Aligned(|cells|, |buffer|)
    }

    predicate BufferBlank() {
      buffer == Blank(|buffer|)
    }

    predicate SameShape(other: Memory) {
      |cells| == |other.cells| && |buffer| == |other.buffer|
    }

    /** boot_page_erase: every cell of the page of `addr` becomes 0xFF.  Outside the memory: no effect. */
    function Erase(addr: nat): (m: Memory)
      requires Valid()
      ensures m.Valid() && SameShape(m) && m.buffer == buffer
    {
      var base := PageBase(addr, |buffer|);
      this.(cells := seq(|cells|, i requires 0 <= i < |cells| =>
        if base <= i < base + |buffer| then 0xFF else cells[i]))
    }

    /** boot_page_fill: loads the word (lo, hi) into the buffer at the word offset of `addr`. */
    function Fill(addr: nat, lo: byte, hi: byte): (m: Memory)
      requires Valid()
      ensures m.Valid() && SameShape(m) && m.cells == cells
    {
      var off := addr - PageBase(addr, |buffer|);
      var even := off - off % 2;
      this.(buffer := buffer[even := lo][even + 1 := hi])
    }

    /** boot_page_write: programs the page of `addr` from the buffer and empties the buffer. */
    function Write(addr: nat): (m: Memory)
      requires Valid()
      ensures m.Valid() && SameShape(m) && m.BufferBlank()
    {
      var base := PageBase(addr, |buffer|);
      Memory(
        seq(|cells|, i requires 0 <= i < |cells| =>
          if base <= i < base + |buffer| then BitAnd(cells[i], buffer[i - base]) else cells[i]),
        Blank(|buffer|))
    }

    /** pgm_read_byte.  Outside the memory the read yields 0xFF. */
    function Read(addr: nat): byte {
      if addr < |cells| then cells[addr] else 0xFF
    }
  }
}
