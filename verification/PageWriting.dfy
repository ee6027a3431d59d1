/** What filling the page buffer word by word and writing the page leaves in flash; and the EEPROM. */
module PageWriting {
  import opened Bytes
  import opened Flash

  /** The words of `s` filled into the buffer from `addr` on; an odd last byte is left out. */
  function FillWords(m: Memory, addr: nat, s: seq<byte>): (r: Memory)
    requires m.Valid()
    ensures r.Valid() && r.SameShape(m) && r.cells == m.cells
    decreases |s|
  {
    if |s| < 2 then m else FillWords(m.Fill(addr, s[0], s[1]), addr + 2, s[2..])
  }

  lemma {:induction false} FillWordsAt(m: Memory, addr: nat, base: nat, s: seq<byte>)
    requires m.Valid() && Aligned(base, |m.buffer|) && base <= addr && addr - base + |s| <= |m.buffer|
    requires (addr - base) % 2 == 0
    ensures forall i :: 0 <= i < |m.buffer| ==>
      FillWords(m, addr, s).buffer[i] == BufferByte(m.buffer[i], addr - base, s, i)
    decreases |s|
  {
    hide PageBase;
    if |s| >= 2 {
      AlignedIsBase(addr, base, |m.buffer|);
      var f := m.Fill(addr, s[0], s[1]);
      FillWordsAt(f, addr + 2, base, s[2..]);
      forall i | 0 <= i < |m.buffer|
        ensures FillWords(m, addr, s).buffer[i] == BufferByte(m.buffer[i], addr - base, s, i)
      {
        assert FillWords(f, addr + 2, s[2..]).buffer[i] == BufferByte(f.buffer[i], addr + 2 - base, s[2..], i);
      }
    }
  }

  /** Buffer byte `i`, which was `before`, after the words of `s` have been filled in from offset `off` on. */
  function BufferByte(before: byte, off: nat, s: seq<byte>, i: nat): byte {
    if off <= i < off + |s| / 2 * 2 then s[i - off] else before
  }

  /** The flash after a block write of `s` at `addr`. */
  function Written(m: Memory, addr: nat, s: seq<byte>): (r: Memory)
    requires m.Valid()
    ensures r.Valid() && r.SameShape(m)
  {
    FillWords(m.Erase(addr), addr, s).Write(addr)
  }

  lemma ErasedByteWritten(m: Memory, f: Memory, addr: nat, x: nat)
    requires m.Valid() && f.Valid() && f.SameShape(m) && f.cells == m.Erase(addr).cells && x < |m.cells|
    requires PageBase(addr, |m.buffer|) <= x < PageBase(addr, |m.buffer|) + |m.buffer|
    ensures f.Write(addr).cells[x] == f.buffer[x - PageBase(addr, |m.buffer|)]
  {
    hide PageBase;
  }

  /** The page that is written holds the words of `s`, and elsewhere what the page buffer held before. */
  lemma WrittenPage(m: Memory, addr: nat, s: seq<byte>)
    requires m.Valid() && addr % 2 == 0 && addr - PageBase(addr, |m.buffer|) + |s| <= |m.buffer|
    ensures var r := Written(m, addr, s);
      forall x :: PageBase(addr, |m.buffer|) <= x < PageBase(addr, |m.buffer|) + |m.buffer| && x < |m.cells| ==>
        r.cells[x] ==
        if addr <= x < addr + |s| / 2 * 2 then s[x - addr] else m.buffer[x - PageBase(addr, |m.buffer|)]
  {
    hide PageBase, FillWords, Memory.Erase, Memory.Write, Aligned;
    var base := PageBase(addr, |m.buffer|);
    BaseIsAligned(addr, |m.buffer|);
    EvenOffset(addr, |m.buffer|);
    var e := m.Erase(addr);
    FillWordsAt(e, addr, base, s);
    var f := FillWords(e, addr, s);
    forall x | base <= x < base + |m.buffer| && x < |m.cells|
      ensures f.Write(addr).cells[x] == if addr <= x < addr + |s| / 2 * 2 then s[x - addr] else m.buffer[x - base]
    {
      ErasedByteWritten(m, f, addr, x);
      assert f.buffer[x - base] == BufferByte(e.buffer[x - base], addr - base, s, x - base);
    }
  }

  lemma WrittenElsewhere(m: Memory, addr: nat, s: seq<byte>, x: nat)
    requires m.Valid() && x < |m.cells|
    requires !(PageBase(addr, |m.buffer|) <= x < PageBase(addr, |m.buffer|) + |m.buffer|)
    ensures Written(m, addr, s).cells[x] == m.cells[x]
  {
    hide PageBase, FillWords;
  }

  // ----- EEPROM

  /** eeprom_write_byte and eeprom_read_byte; nothing is there outside the memory. */
  function EepromWrite(eeprom: seq<byte>, addr: nat, b: byte): (r: seq<byte>)
    ensures |r| == |eeprom|
  {
    if addr < |eeprom| then eeprom[addr := b] else eeprom
  }

  function EepromRead(eeprom: seq<byte>, addr: nat): byte {
    if addr < |eeprom| then eeprom[addr] else 0xFF
  }

  /** `eeprom` with `s` from address `a` on. */
  function Overlay(eeprom: seq<byte>, a: nat, s: seq<byte>): (r: seq<byte>)
    requires a + |s| <= |eeprom|
    ensures |r| == |eeprom| && r[a..a + |s|] == s
  {
    eeprom[..a] + s + eeprom[a + |s|..]
  }

  lemma OverlayStep(eeprom: seq<byte>, a: nat, s: seq<byte>)
    requires a + |s| <= |eeprom| && s != []
    ensures Overlay(eeprom[a := s[0]], a + 1, s[1..]) == Overlay(eeprom, a, s)
  {
  }

  lemma OverlayNothing(eeprom: seq<byte>, a: nat, s: seq<byte>)
    requires a <= |eeprom| && s == []
    ensures Overlay(eeprom, a, s) == eeprom
  {
  }
}
