/** The loop with which the boot loaders erase the application section: each page is erased and written again. */
module ChipErase {
  import opened Bytes
  import opened Flash

  /** Erases and rewrites each page from `addr` up to `limit`. */
  function EraseFrom(flash: Memory, addr: nat, limit: nat): (m: Memory)
    requires flash.Valid()
    ensures m.Valid() && m.SameShape(flash)
    decreases limit - addr
  {
    if addr >= limit then flash
    else EraseFrom(flash.Erase(addr).Write(addr), addr + |flash.buffer|, limit)
  }

  ghost predicate ApplicationBlank(m: Memory, limit: nat)
    requires limit <= |m.cells|
  {
    forall i :: 0 <= i < limit ==> m.cells[i] == 0xFF
  }

  /** From the second page on, every page is erased and stays so. */
  lemma {:induction false} EraseRest(m: Memory, addr: nat, limit: nat)
    requires m.Valid() && m.BufferBlank() && addr <= limit <= |m.cells|
    requires Aligned(addr, |m.buffer|) && Aligned(limit, |m.buffer|)
    ensures var e := EraseFrom(m, addr, limit);
      && e.BufferBlank()
      && forall i :: 0 <= i < |m.cells| ==> e.cells[i] == if addr <= i < limit then 0xFF else m.cells[i]
    decreases limit - addr
  {
    hide PageBase;
    if addr < limit {
      AlignedApart(addr, limit, |m.buffer|);
      NextAligned(addr, |m.buffer|);
      EraseRest(m.Erase(addr).Write(addr), addr + |m.buffer|, limit);
    }
  }

  /** A chip erase commits whatever the page buffer held to the first page. */
  lemma EraseLeaves(m: Memory, limit: nat)
    requires m.Valid() && 0 < limit <= |m.cells| && Aligned(limit, |m.buffer|)
    ensures var e := EraseFrom(m, 0, limit);
      && e.BufferBlank()
      && forall i :: 0 <= i < |m.cells| ==>
           e.cells[i] == if i < |m.buffer| then m.buffer[i] else if i < limit then 0xFF else m.cells[i]
  {
    hide PageBase;
    NextAligned(0, |m.buffer|);
    AlignedApart(0, limit, |m.buffer|);
    FirstPage(m);
    var first := m.Erase(0).Write(0);
    hide Memory.Erase, Memory.Write;
    assert EraseFrom(m, 0, limit) == EraseFrom(first, |m.buffer|, limit);
    EraseRest(first, |m.buffer|, limit);
  }

  lemma FirstPage(m: Memory)
    requires m.Valid()
    ensures var first := m.Erase(0).Write(0);
      forall i :: 0 <= i < |m.cells| ==> first.cells[i] == if i < |m.buffer| then m.buffer[i] else m.cells[i]
  {
  }

  /** So the application section is blank after a chip erase exactly when the page buffer was empty before it. */
  lemma EraseBlanks(m: Memory, limit: nat)
    requires m.Valid() && 0 < limit <= |m.cells| && Aligned(limit, |m.buffer|)
    ensures ApplicationBlank(EraseFrom(m, 0, limit), limit) <==> m.BufferBlank()
  {
    hide PageBase, EraseFrom;
    EraseLeaves(m, limit);
    NextAligned(0, |m.buffer|);
    AlignedApart(0, limit, |m.buffer|);
    var e := EraseFrom(m, 0, limit);
    if ApplicationBlank(e, limit) {
      forall i | 0 <= i < |m.buffer| ensures m.buffer[i] == 0xFF {
        assert e.cells[i] == 0xFF;
      }
    }
  }

  lemma {:induction false} EraseEmpties(m: Memory, addr: nat, limit: nat)
    requires m.Valid() && m.BufferBlank()
    ensures EraseFrom(m, addr, limit).BufferBlank()
    decreases limit - addr
  {
    hide PageBase, Memory.Erase;
    if addr < limit { EraseEmpties(m.Erase(addr).Write(addr), addr + |m.buffer|, limit); }
  }

  /** An erase that reaches a page ends with a page write, which empties the buffer. */
  lemma EraseWrites(m: Memory, addr: nat, limit: nat)
    requires m.Valid() && addr < limit
    ensures EraseFrom(m, addr, limit).BufferBlank()
  {
    hide PageBase, Memory.Erase;
    EraseEmpties(m.Erase(addr).Write(addr), addr + |m.buffer|, limit);
  }
}
