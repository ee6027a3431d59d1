/**
 What a DFU programming download leaves in flash.

 The word loop is characterised for every start address and length by `Target`; from that
 follows exactly which address ranges are programmed correctly, and that a programmed range
 reads back unchanged.
 */
module DfuProgramming {
  import opened Bytes
  import opened ChipErase
  import opened Flash
  import opened Endpoint
  import opened PageWriting
  import opened Dfu

  // ----- where the word loop puts them

  /**
   The index of the byte that ends up at address `x` when a stream is programmed from
   address `a` on: pages are counted from `a`, so what lies before `a`'s offset in a page
   comes from the far end of the same page-sized portion of the stream.
   */
  function Source(x: nat, a: nat, page: nat): int
    requires page > 0
  {
    x - a + if x - PageBase(x, page) < a - PageBase(a, page) then page else 0
  }

  /** Byte `j` of the first `cur` bytes of `s`; elsewhere `under`. */
  function ByteAt(s: seq<byte>, cur: nat, j: int, under: byte): byte
    requires cur <= |s|
  {
    if 0 <= j < cur then s[j] else under
  }

  /** What the page of `x` gets where nothing is filled in: in the first page what the buffer held before, `left`. */
  function Under(left: seq<byte>, x: nat, a: nat, page: nat): byte
    requires page > 0 && |left| == page
  {
    if PageBase(a, page) <= x < PageBase(a, page) + page then left[x - PageBase(a, page)] else 0xFF
  }

  /** The length of the pages a stream of `n` bytes occupies; even an empty one erases a page. */
  function Extent(n: nat, page: nat): nat
    requires page > 0
  {
    PageBase(if n == 0 then 0 else n - 1, page) + page
  }

  predicate Touched(x: nat, a: nat, n: nat, page: nat)
    requires page > 0
  {
    PageBase(a, page) <= x < PageBase(a, page) + Extent(n, page)
  }

  /** The flash after `s` is programmed from `a` on, with `left` in the buffer before. */
  function Target(cells: seq<byte>, left: seq<byte>, a: nat, s: seq<byte>): (r: seq<byte>)
    requires |left| > 0
    ensures |r| == |cells|
  {
    seq(|cells|, x requires 0 <= x < |cells| =>
      if !Touched(x, a, |s|, |left|) then cells[x]
      else if s == [] then 0xFF
      else ByteAt(s, |s|, Source(x, a, |left|), Under(left, x, a, |left|)))
  }

  /** And the buffer: without a word there is no page write. */
  function BufferAfter(left: seq<byte>, s: seq<byte>): seq<byte> {
    if s == [] then left else Blank(|left|)
  }

  /** The same index for the byte at buffer offset `off` of the page at `base`. */
  function Slot(off: nat, a: nat, base: nat, page: nat): int
    requires page > 0
  {
    base + off - a + if off < a - PageBase(a, page) then page else 0
  }

  lemma SourceInPage(x: nat, a: nat, base: nat, page: nat)
    requires page > 0 && Aligned(base, page) && base <= x < base + page
    ensures Source(x, a, page) == Slot(x - base, a, base, page)
  {
    AlignedIsBase(x, base, page);
  }

  /** Pages already written hold bytes of the stream that have already been read. */
  lemma SourceBefore(x: nat, a: nat, base: nat, page: nat)
    requires page > 0 && Aligned(base, page) && PageBase(a, page) <= x < base
    ensures 0 <= Source(x, a, page) < base - PageBase(a, page)
  {
    var pb := PageBase(x, page);
    BaseIsAligned(x, page);
    BaseIsAligned(a, page);
    AlignedApart(pb, base, page);
    if pb < PageBase(a, page) {
      AlignedApart(pb, PageBase(a, page), page);
    }
  }

  /**
   The loop's view of the memory, `cur` bytes of `s` into the stream, in the page at `base`:
   earlier pages are written, this one is erased and what it will hold is in the buffer.
   */
  ghost predicate Progress(m: Memory, cells: seq<byte>, left: seq<byte>, a: nat, s: seq<byte>, base: nat, cur: nat)
    requires m.Valid() && |left| == |m.buffer|
  {
    var page := |m.buffer|;
    && cur <= |s|
    && |m.cells| == |cells|
    && (forall x :: 0 <= x < |cells| ==> m.cells[x] == CellDuring(cells[x], left, x, a, s, base, cur))
    && (forall off :: 0 <= off < page ==>
          m.buffer[off] == ByteAt(s, cur, Slot(off, a, base, page), Under(left, base + off, a, page)))
  }

  function CellDuring(cell: byte, left: seq<byte>, x: nat, a: nat, s: seq<byte>, base: nat, cur: nat): byte
    requires |left| > 0 && cur <= |s|
  {
    if base <= x < base + |left| then 0xFF
    else if PageBase(a, |left|) <= x < base then ByteAt(s, cur, Source(x, a, |left|), Under(left, x, a, |left|))
    else cell
  }

  /** The loop is somewhere in the page at `base`. */
  predicate InPage(a: nat, base: nat, cur: nat, page: nat) {
    && page > 0 && page % 2 == 0 && a % 2 == 0 && cur % 2 == 0
    && Aligned(base, page)
    && PageBase(a, page) <= base
    && base - PageBase(a, page) <= cur < base - PageBase(a, page) + page
  }

  lemma EvenGap(x: nat, y: nat)
    requires x % 2 == 0 && y % 2 == 0
    ensures (x + y) % 2 == 0
    ensures x < y ==> x + 1 < y
  {
  }

  /**
   The offset of a byte of the stream in the page at `base`, where `even` is that of the next word, `first` that of
   the start.
   */
  lemma SlotExact(a: nat, base: nat, cur: nat, page: nat, even: nat, off: nat)
    requires page > 0 && off < page && even + 1 < page
    requires var first := a - PageBase(a, page);
      || (a + cur == base + even && first <= even)
      || (a + cur == base + page + even && even + 1 < first)
    ensures Slot(off, a, base, page) == cur <==> off == even
    ensures Slot(off, a, base, page) == cur + 1 <==> off == even + 1
  {
    hide PageBase;
  }

  /** The buffer offset that the next word goes to, and that only that word goes to. */
  lemma FillOffset(a: nat, base: nat, cur: nat, page: nat)
    requires InPage(a, base, cur, page)
    ensures var even := a + cur - PageBase(a + cur, page);
      && even % 2 == 0 && even + 1 < page
      && forall off :: 0 <= off < page ==>
           && (Slot(off, a, base, page) == cur <==> off == even)
           && (Slot(off, a, base, page) == cur + 1 <==> off == even + 1)
  {
    hide PageBase, Slot;
    var addr := a + cur;
    EvenGap(a, cur);
    EvenOffset(a, page);
    EvenOffset(addr, page);
    NextAligned(base, page);
    if addr < base + page { AlignedIsBase(addr, base, page); } else { AlignedIsBase(addr, base + page, page); }
    var even, first := addr - PageBase(addr, page), a - PageBase(a, page);
    EvenGap(even, page);
    EvenGap(even, first);
    forall off | 0 <= off < page
      ensures (Slot(off, a, base, page) == cur <==> off == even) &&
        (Slot(off, a, base, page) == cur + 1 <==> off == even + 1)
    {
      SlotExact(a, base, cur, page, even, off);
    }
  }

  lemma FillStep(m: Memory, cells: seq<byte>, left: seq<byte>, a: nat, s: seq<byte>, base: nat, cur: nat)
    requires m.Valid() && |left| == |m.buffer| && Progress(m, cells, left, a, s, base, cur)
    requires InPage(a, base, cur, |m.buffer|)
    requires cur + 2 <= |s|
    ensures Progress(m.Fill(a + cur, s[cur], s[cur + 1]), cells, left, a, s, base, cur + 2)
  {
    hide PageBase, Slot, Under;
    var page := |m.buffer|;
    var f := m.Fill(a + cur, s[cur], s[cur + 1]);
    FillOffset(a, base, cur, page);
    forall x | 0 <= x < |cells|
      ensures f.cells[x] == CellDuring(cells[x], left, x, a, s, base, cur + 2)
    {
      if PageBase(a, page) <= x < base { SourceBefore(x, a, base, page); }
    }
    forall off | 0 <= off < page
      ensures f.buffer[off] == ByteAt(s, cur + 2, Slot(off, a, base, page), Under(left, base + off, a, page))
    {
      assert m.buffer[off] == ByteAt(s, cur, Slot(off, a, base, page), Under(left, base + off, a, page));
    }
  }

  function CellAfter(cell: byte, left: seq<byte>, x: nat, a: nat, s: seq<byte>, base: nat, cur: nat): byte
    requires |left| > 0 && cur <= |s|
  {
    if PageBase(a, |left|) <= x < base + |left| then ByteAt(s, cur, Source(x, a, |left|), Under(left, x, a, |left|))
      else cell
  }

  /** After the page write the pages up to and including this one hold their share of the stream. */
  lemma WriteStep(m: Memory, cells: seq<byte>, left: seq<byte>, a: nat, s: seq<byte>, base: nat, cur: nat, addr: nat)
    requires m.Valid() && |left| == |m.buffer| && Progress(m, cells, left, a, s, base, cur)
    requires Aligned(base, |m.buffer|) && PageBase(a, |m.buffer|) <= base <= addr < base + |m.buffer|
    ensures forall x :: 0 <= x < |cells| ==>
      m.Write(addr).cells[x] == CellAfter(cells[x], left, x, a, s, base, cur)
  {
    hide PageBase, Slot, Source, Under;
    var page := |m.buffer|;
    var w := m.Write(addr);
    AlignedIsBase(addr, base, page);
    forall x | 0 <= x < |cells|
      ensures w.cells[x] == CellAfter(cells[x], left, x, a, s, base, cur)
    {
      assert m.cells[x] == CellDuring(cells[x], left, x, a, s, base, cur);
      if base <= x < base + page {
        SourceInPage(x, a, base, page);
        assert m.buffer[x - base] ==
          ByteAt(s, cur, Slot(x - base, a, base, page), Under(left, base + (x - base), a, page));
      }
    }
  }

  /** Erasing the next page puts the loop at its beginning. */
  lemma EraseStep(m: Memory, cells: seq<byte>, left: seq<byte>, a: nat, s: seq<byte>, base: nat, cur: nat, addr: nat)
    requires m.Valid() && |left| == |m.buffer| && m.BufferBlank() && |m.cells| == |cells| && cur <= |s|
    requires Aligned(base, |m.buffer|) && PageBase(a, |m.buffer|) <= base
    requires base + |m.buffer| <= addr < base + 2 * |m.buffer| && cur == base + |m.buffer| - PageBase(a, |m.buffer|)
    requires forall x :: 0 <= x < |cells| ==> m.cells[x] == CellAfter(cells[x], left, x, a, s, base, cur)
    ensures Progress(m.Erase(addr), cells, left, a, s, base + |m.buffer|, cur)
  {
    hide PageBase, Source;
    NextAligned(base, |m.buffer|);
    AlignedIsBase(addr, base + |m.buffer|, |m.buffer|);
    var e := m.Erase(addr);
    forall off | 0 <= off < |m.buffer|
      ensures e.buffer[off] ==
        ByteAt(s, cur, Slot(off, a, base + |m.buffer|, |m.buffer|), Under(left, base + |m.buffer| + off, a, |m.buffer|))
    {
    }
  }

  /** One iteration of the word loop, for a host that still has bytes to send. */
  lemma ProgramOne(m: Memory, ep: Out, addr: nat, start: nat, inPage: nat, words: nat)
    returns (lo: byte, hi: byte, rest: Out)
    requires m.Valid() && words > 0 && NoneEmpty(ep.pending) && |ep.Stream()| >= 2 * words
    ensures NoneEmpty(rest.pending) && |rest.Stream()| >= 2 * (words - 1)
    ensures WordBytes(ep, words) == [lo, hi] + WordBytes(rest, words - 1)
    ensures var f := m.Fill(addr, lo, hi);
      ProgramWords(m, ep, addr, start, inPage, words) ==
      if words == 1 then Programmed(f.Write(start), rest, true)
      else if inPage + 1 == |m.buffer| / 2 then
        ProgramWords(f.Write(start).Erase(addr + 2), rest, addr + 2, addr + 2, 0, words - 1)
      else ProgramWords(f, rest, addr + 2, start, inPage + 1, words - 1)
  {
    hide Memory.Erase, Memory.Fill, Memory.Write;
    var e := if ep.bank == [] then ep.Next() else ep;
    lo, hi, rest := e.Head(), e.Tail().Head(), e.Tail().Tail();
  }

  /** The final page write. */
  lemma LastStep(f: Memory, a: nat, base: nat, start: nat, cells: seq<byte>, left: seq<byte>, s: seq<byte>)
    requires f.Valid() && |left| == |f.buffer| && |f.cells| == |cells| && Progress(f, cells, left, a, s, base, |s|)
    requires Aligned(base, |f.buffer|) && PageBase(a, |f.buffer|) <= base
    requires Aligned(base - PageBase(a, |f.buffer|), |f.buffer|)
    requires start - a == base - PageBase(a, |f.buffer|) < |s| <= start - a + |f.buffer|
    ensures f.Write(start).cells == Target(cells, left, a, s)
  {
    hide Source, PageBase, Memory.Write, Progress, Under;
    WriteStep(f, cells, left, a, s, base, |s|, start);
    AlignedIsBase(|s| - 1, start - a, |f.buffer|);
    assert f.Write(start).cells == Target(cells, left, a, s);
  }

  /** The word loop, entered anywhere in a page, completes and leaves `Target`. */
  lemma {:induction false} ProgramPlaces(m: Memory, ep: Out, a: nat, base: nat, start: nat, inPage: nat, cur: nat,
                                         words: nat, cells: seq<byte>, left: seq<byte>, s: seq<byte>)
    requires m.Valid() && |left| == |m.buffer| && InPage(a, base, cur, |m.buffer|)
    requires Aligned(base - PageBase(a, |m.buffer|), |m.buffer|)
    requires start - a == base - PageBase(a, |m.buffer|) && a + cur == start + 2 * inPage
    requires words > 0 && NoneEmpty(ep.pending) && |ep.Stream()| >= 2 * words
    requires |s| == cur + 2 * words && s[cur..] == WordBytes(ep, words)
    requires |m.cells| == |cells| && Progress(m, cells, left, a, s, base, cur)
    ensures var r := ProgramWords(m, ep, a + cur, start, inPage, words);
      && r.complete && r.flash.BufferBlank()
      && r.flash.cells == Target(cells, left, a, s)
    decreases words
  {
    hide PageBase, Memory.Erase, Memory.Fill, Memory.Write, ProgramWords, WordBytes, Out.Stream, Progress, CellAfter,
      Target;
    var page := |m.buffer|;
    var lo, hi, rest := ProgramOne(m, ep, a + cur, start, inPage, words);
    assert s[cur..][0] == lo && s[cur..][1] == hi;
    assert s[cur..][2..] == s[cur + 2..];
    FillStep(m, cells, left, a, s, base, cur);
    var f := m.Fill(a + cur, lo, hi);
    if words == 1 {
      LastStep(f, a, base, start, cells, left, s);
    } else if inPage + 1 == page / 2 {
      WriteStep(f, cells, left, a, s, base, cur + 2, start);
      var w := f.Write(start);
      EraseStep(w, cells, left, a, s, base, cur + 2, a + cur + 2);
      NextAligned(base, page);
      NextAligned(base - PageBase(a, page), page);
      ProgramPlaces(w.Erase(a + cur + 2), rest, a, base + page, a + cur + 2, 0, cur + 2, words - 1, cells, left, s);
    } else {
      ProgramPlaces(f, rest, a, base, start, inPage + 1, cur + 2, words - 1, cells, left, s);
    }
  }

  // ----- the download request

  const FLASH: byte := 0x00
  const EEPROM: byte := 0x01

  /** A programming download: command, fillers, memory contents, file suffix. */
  datatype Image = Image(start: word16, end: word16, filler: seq<byte>, align: seq<byte>, data: seq<byte>,
    suffix: seq<byte>) {
    predicate Valid() {
      && start <= end
      && |filler| == FILLER_SIZE && |align| == start % ENDPOINT_SIZE && |suffix| == SUFFIX_SIZE
      && |data| == end - start + 1
      && Size() < 0x1_0000
    }

    /** The first packet; `memory` selects the flash or the EEPROM. */
    function First(memory: byte): seq<byte> {
      [COMMAND_PROG_START, memory, start / 0x100, start % 0x100, end / 0x100, end % 0x100] + filler
    }

    function Rest(): seq<byte> {
      align + data + suffix
    }

    /** The length of the whole request. */
    function Size(): nat {
      6 + |filler| + |align| + |data| + |suffix|
    }

    /** The request of a host that sends `sent` after the first packet, and then leaves. */
    function Partly(memory: byte, sent: seq<byte>, stray: byte): Request
      requires Valid()
    {
      Request(REQ_DNLOAD, Size(), Packets(First(memory) + sent, ENDPOINT_SIZE), stray)
    }

    function ToRequest(memory: byte, stray: byte): Request
      requires Valid()
    {
      Partly(memory, Rest(), stray)
    }
  }

  lemma {:induction false} DiscardBank(ep: Out, n: nat)
    requires n <= |ep.bank|
    ensures Discard(ep, n) == Out(ep.bank[n..], ep.pending)
    decreases n
  {
    if n != 0 { DiscardBank(ep.Tail(), n - 1); }
  }

  lemma LoadFive(c: Command, b: seq<byte>, pending: seq<seq<byte>>)
    requires |c.data| == 5 && |b| >= 6
    ensures LoadCommand(c, Out(b, pending)).ep == Out(b[6..], pending)
    ensures LoadCommand(c, Out(b, pending)).sent.code == b[0]
    ensures LoadCommand(c, Out(b, pending)).sent.data == b[1..6]
    ensures c.dataSize >= 6 ==> LoadCommand(c, Out(b, pending)).sent.dataSize == c.dataSize - 6
  {
  }

  /** The endpoint when the word loop starts: one byte too few is discarded when there is an alignment filler. */
  function AtData(im: Image): Out
    requires im.Valid()
  {
    var rest := Packets(im.Rest(), ENDPOINT_SIZE);
    if im.align == [] then Out([], rest) else Out(rest[0][|im.align| - 1..], rest[1..])
  }

  lemma FillersDiscarded(im: Image)
    requires im.Valid()
    ensures NoneEmpty(AtData(im).pending)
    ensures AtData(im).Stream() == (if im.align == [] then [] else [im.align[|im.align| - 1]]) + (im.data + im.suffix)
    ensures im.align == [] ==> Paired(AtData(im))
    ensures Discard(Discard(Out(im.filler, Packets(im.Rest(), ENDPOINT_SIZE)), FILLER_SIZE),
      im.start % ENDPOINT_SIZE) == AtData(im)
  {
    var rest := Packets(im.Rest(), ENDPOINT_SIZE);
    DiscardBank(Out(im.filler, rest), FILLER_SIZE);
    hide Flatten, Packets;
    if im.align == [] {
      FullPackets(im.Rest(), ENDPOINT_SIZE);
      assert im.Rest() == im.data + im.suffix;
    } else {
      DiscardAlignment(im);
    }
  }

  lemma DiscardAlignment(im: Image)
    requires im.Valid() && im.align != []
    ensures AtData(im).Stream() == [im.align[|im.align| - 1]] + (im.data + im.suffix)
    ensures Discard(Out([], Packets(im.Rest(), ENDPOINT_SIZE)), |im.align|) == AtData(im)
  {
    var rest := Packets(im.Rest(), ENDPOINT_SIZE);
    var k := |im.align|;
    assert |rest[0]| >= k;
    hide Packets;
    SkipInFirst(rest, k - 1);
    hide Flatten;
    DiscardBank(Out([], rest).Next(), k - 1);
    AlignmentLeft(im);
  }

  lemma AlignmentLeft(im: Image)
    requires im.Valid() && im.align != []
    ensures im.Rest()[|im.align| - 1..] == [im.align[|im.align| - 1]] + (im.data + im.suffix)
  {
    var k := |im.align|;
    assert im.align == im.align[..k - 1] + [im.align[k - 1]];
  }

  /** The flash address of the image, as the device computes it. */
  function Address(d: Device, im: Image): nat {
    d.flash64KBPage * 0x1_0000 + im.start
  }

  /** An unlocked device that takes commands. */
  predicate Open(d: Device, im: Image) {
    d.Valid() && im.Valid() && !d.isSecure && !d.waitForExit
  }

  /** And the image lies in its flash. */
  predicate Ready(d: Device, im: Image) {
    && Open(d, im)
    && Address(d, im) + |im.data| <= |d.flash.cells|
  }

  /** The device once the programming command itself has been processed. */
  function Started(d: Device, im: Image, memory: byte): Device
    requires Open(d, im)
  {
    d.(sent := Command(COMMAND_PROG_START, [memory, im.start / 0x100, im.start % 0x100, im.end / 0x100, im.end % 0x100],
                       im.Size() - 6),
       startAddr := im.start, endAddr := im.end, state := DnloadIdle,
       flash := if memory == FLASH then d.flash.Erase(Address(d, im)) else d.flash)
  }

  lemma FirstPacket(im: Image, memory: byte, sent: seq<byte>)
    requires im.Valid()
    ensures var first := im.First(memory);
      && Packets(first + sent, ENDPOINT_SIZE) == [first] + Packets(sent, ENDPOINT_SIZE)
      && |first| == ENDPOINT_SIZE && first[0] == COMMAND_PROG_START && first[6..] == im.filler
      && first[1..6] == [memory, im.start / 0x100, im.start % 0x100, im.end / 0x100, im.end % 0x100]
  {
    var first := im.First(memory);
    assert (first + sent)[..ENDPOINT_SIZE] == first && (first + sent)[ENDPOINT_SIZE..] == sent;
  }

  lemma DownloadStarts(d: Device, im: Image, memory: byte, sent: seq<byte>, stray: byte)
    requires Open(d, im) && (memory == FLASH || memory == EEPROM)
    ensures Started(d, im, memory).Valid()
    ensures Handle(d, im.Partly(memory, sent, stray)).device ==
      ReceiveData(Started(d, im, memory), Out(im.filler, Packets(sent, ENDPOINT_SIZE)))
  {
    hide ReceiveData, Memory.Erase, PageBase, LoadCommand, Packets, Flatten, Image.First, MemRead, MemWrite, MemInfo,
      HandleUpload;
    FirstPacket(im, memory, sent);
    var first, pending := im.First(memory), Packets(sent, ENDPOINT_SIZE);
    assert Out([], [first] + pending).Next() == Out(first, pending);
    LoadFive(d.sent.(dataSize := im.Size()), first, pending);
  }

  lemma SameWord(m: Memory, addr: nat, lo: byte, hi: byte)
    requires m.Valid() && addr % 2 == 1
    ensures m.Fill(addr, lo, hi) == m.Fill(addr - 1, lo, hi)
    ensures m.Erase(addr) == m.Erase(addr - 1)
    ensures m.Write(addr) == m.Write(addr - 1)
  {
    hide PageBase;
    var page := |m.buffer|;
    EvenBase(addr, page);
    BaseIsAligned(addr, page);
    AlignedIsBase(addr - 1, PageBase(addr, page), page);
  }

  /** Programming from an odd address uses the words it lies in. */
  lemma {:induction false} OddAddress(m: Memory, ep: Out, addr: nat, start: nat, inPage: nat, words: nat)
    requires m.Valid() && addr % 2 == 1 && start % 2 == 1
    ensures ProgramWords(m, ep, addr, start, inPage, words) == ProgramWords(m, ep, addr - 1, start - 1, inPage, words)
    decreases words
  {
    hide PageBase, Memory.Erase, Memory.Fill, Memory.Write, Memory.Valid, Memory.SameShape, Out.Head, Out.Tail,
      Out.Next;
    if words != 0 && !(ep.bank == [] && ep.pending == []) {
      var e := if ep.bank == [] then ep.Next() else ep;
      var lo, hi, rest := e.Head(), e.Tail().Head(), e.Tail().Tail();
      var f := m.Fill(addr, lo, hi);
      SameWord(m, addr, lo, hi);
      SameWord(f, start, 0, 0);
      var w := f.Write(start);
      SameWord(w, addr + 2, 0, 0);
      if words > 1 {
        if inPage + 1 == |m.buffer| / 2 {
          OddAddress(w.Erase(addr + 2), rest, addr + 2, addr + 2, 0, words - 1);
        } else {
          OddAddress(f, rest, addr + 2, start, inPage + 1, words - 1);
        }
      }
    }
  }

  /** From an erased first page the word loop leaves `Target`. */
  lemma ProgramAll(m: Memory, ep: Out, a: nat, words: nat)
    requires m.Valid() && a % 2 == 0 && NoneEmpty(ep.pending) && |ep.Stream()| >= 2 * words
    ensures var r := ProgramWords(m.Erase(a), ep, a, a, 0, words);
      var s := WordBytes(ep, words);
      r.complete && r.flash == Memory(Target(m.cells, m.buffer, a, s), BufferAfter(m.buffer, s))
  {
    hide WordBytes;
    var page := |m.buffer|;
    var base := PageBase(a, page);
    var s := WordBytes(ep, words);
    var e := m.Erase(a);
    BaseIsAligned(a, page);
    assert PageBase(0, page) == 0;
    hide PageBase, Source;
    if words == 0 {
      assert e.cells == Target(m.cells, m.buffer, a, s);
    } else {
      assert Progress(e, m.cells, m.buffer, a, s, base, 0);
      assert Aligned(base - base, page);
      assert s[0..] == s;
      hide Progress, Target;
      ProgramPlaces(e, ep, a, base, a, 0, 0, words, m.cells, m.buffer, s);
    }
  }

  /** And from an odd address, the same as from the even one below it. */
  lemma ProgramAny(m: Memory, ep: Out, a: nat, words: nat)
    requires m.Valid() && NoneEmpty(ep.pending) && |ep.Stream()| >= 2 * words
    ensures var r := ProgramWords(m.Erase(a), ep, a, a, 0, words);
      var s := WordBytes(ep, words);
      r.complete && r.flash == Memory(Target(m.cells, m.buffer, a - a % 2, s), BufferAfter(m.buffer, s))
  {
    hide ProgramWords, Target, Memory.Erase, PageBase, WordBytes, Out.Stream;
    ProgramAll(m, ep, a - a % 2, words);
    if a % 2 == 1 {
      SameWord(m, a, 0, 0);
      OddAddress(m.Erase(a), ep, a, a, 0, words);
    }
  }

  /** The bytes of the request that reach the flash. */
  function Delivered(im: Image): (s: seq<byte>)
    requires im.Valid()
    ensures |s| == |im.data| / 2 * 2
  {
    FillersDiscarded(im);
    WordBytes(AtData(im), |im.data| / 2)
  }

  /** The device after a programming download, whatever the range. */
  function Final(d: Device, im: Image): Device
    requires Ready(d, im)
  {
    var a := Address(d, im);
    Started(d, im, FLASH).(
      startAddr := im.end,
      flash := Memory(Target(d.flash.cells, d.flash.buffer, a - a % 2, Delivered(im)),
        BufferAfter(d.flash.buffer, Delivered(im))))
  }

  lemma DownloadPlaces(d: Device, im: Image, stray: byte)
    requires Ready(d, im)
    ensures Handle(d, im.ToRequest(FLASH, stray)).device == Final(d, im)
  {
    hide ProgramWords, Target, Handle, Memory.Erase, Discard, AtData, PageBase, Packets, WordBytes, Out.Stream,
      Image.Rest, Flatten;
    DownloadStarts(d, im, FLASH, im.Rest(), stray);
    FillersDiscarded(im);
    ProgramAny(d.flash, AtData(im), Address(d, im), |im.data| / 2);
    var e := Started(d, im, FLASH);
    assert e.FlashAddress() == Address(d, im) && e.RangeSize() == |im.data|;
    var p := ProgramWords(e.flash, AtData(im), Address(d, im), Address(d, im), 0, |im.data| / 2);
    assert p.flash == Final(d, im).flash;
    assert ReceiveData(e, Out(im.filler, Packets(im.Rest(), ENDPOINT_SIZE))) ==
      e.(flash := p.flash, startAddr := im.end);
  }

  /** The ranges that are programmed as sent. */
  predicate Programmable(d: Device, im: Image)
    requires Ready(d, im)
  {
    var page := |d.flash.buffer|;
    var offset := Address(d, im) - PageBase(Address(d, im), page);
    && |im.data| % 2 == 0
    && im.start % ENDPOINT_SIZE == 0
    && (offset == 0 || offset + |im.data| <= page)
  }

  /**
   What a correct download leaves: the data in its range, in the rest of its first page what the page buffer held
   before, 0xFF in the rest of its other pages, and everything else unchanged.
   */
  function Expected(d: Device, im: Image): (cells: seq<byte>)
    requires Ready(d, im)
    ensures |cells| == |d.flash.cells|
  {
    var a := Address(d, im);
    seq(|d.flash.cells|, x requires 0 <= x < |d.flash.cells| =>
      if a <= x < a + |im.data| then im.data[x - a]
      else if Touched(x, a, |im.data|, |d.flash.buffer|) then Under(d.flash.buffer, x, a, |d.flash.buffer|)
      else d.flash.cells[x])
  }

  lemma DeliveredAligned(im: Image)
    requires im.Valid() && im.align == []
    ensures Delivered(im) == im.data[..|im.data| / 2 * 2]
  {
    hide WordBytes, AtData, Out.Stream, Packets, Image.First, Image.Rest;
    FillersDiscarded(im);
    var ep := AtData(im);
    PairedWords(ep, |im.data| / 2);
    assert ep.Stream() == im.data + im.suffix;
    assert Delivered(im) == WordBytes(ep, |im.data| / 2);
  }

  lemma TargetIsExpected(d: Device, im: Image)
    requires Ready(d, im) && Programmable(d, im)
    ensures Target(d.flash.cells, d.flash.buffer, Address(d, im), im.data) == Expected(d, im)
  {
    var a := Address(d, im);
    var page := |d.flash.buffer|;
    var first := PageBase(a, page);
    assert a > first ==> Extent(|im.data|, page) == page;
    BaseIsAligned(a, page);
    hide PageBase;
    forall x | 0 <= x < |d.flash.cells|
      ensures Target(d.flash.cells, d.flash.buffer, a, im.data)[x] == Expected(d, im)[x]
    {
      if a > first && first <= x < first + page {
        AlignedIsBase(x, first, page);
      }
    }
    assert Target(d.flash.cells, d.flash.buffer, a, im.data) == Expected(d, im);
  }

  lemma AddressParity(d: Device, im: Image)
    ensures Address(d, im) % 2 == im.start % 2
    ensures im.start % ENDPOINT_SIZE == 0 ==> im.start % 2 == 0
  {
    assert Address(d, im) == 2 * (d.flash64KBPage * 0x8000) + im.start;
  }

  lemma FinalExpected(d: Device, im: Image)
    requires Ready(d, im) && Programmable(d, im)
    ensures Final(d, im).flash == Memory(Expected(d, im), Blank(|d.flash.buffer|))
  {
    hide Target, Expected, PageBase, Delivered, Address, Device.Valid, Image.Size;
    AddressParity(d, im);
    DeliveredAligned(im);
    assert im.data != [] && im.data[..|im.data| / 2 * 2] == im.data;
    TargetIsExpected(d, im);
  }

  lemma ProgramWorks(d: Device, im: Image, stray: byte)
    requires Ready(d, im) && Programmable(d, im)
    ensures var r := Handle(d, im.ToRequest(FLASH, stray)).device;
      && r.flash.cells == Expected(d, im) && r.flash.BufferBlank()
      && r == Started(d, im, FLASH).(startAddr := im.end, flash := r.flash)
  {
    hide Handle, Target, Expected, PageBase, Delivered, Programmable, Image.ToRequest, Memory.Erase;
    DownloadPlaces(d, im, stray);
    FinalExpected(d, im);
  }

  /** The request leaves the data in its range. */
  predicate Written(d: Device, im: Image)
    requires Ready(d, im)
  {
    var m := Handle(d, im.ToRequest(FLASH, 0)).device.flash;
    forall i :: 0 <= i < |im.data| ==> m.Read(Address(d, im) + i) == im.data[i]
  }

  function WithCells(d: Device, cells: seq<byte>): Device {
    d.(flash := d.flash.(cells := cells))
  }

  predicate SameRange(im: Image, other: Image) {
    other.Valid() && im.start == other.start && im.end == other.end
  }

  /** The range of `im` is programmed as sent whatever the data, the fillers and the old contents of the flash. */
  ghost predicate AlwaysWritten(d: Device, im: Image)
    requires Ready(d, im)
  {
    forall cells: seq<byte>, other: Image ::
      |cells| == |d.flash.cells| && SameRange(im, other) ==> Written(WithCells(d, cells), other)
  }

  /** All 0xFF but for `b` at index `t` of the data. */
  function AllButOne(im: Image, t: nat, b: byte): (r: Image)
    requires im.Valid() && t < |im.data|
    ensures SameRange(im, r) && r.data[t] == b
  {
    Image(im.start, im.end, Blank(|im.filler|), Blank(|im.align|), Blank(|im.data|)[t := b], Blank(|im.suffix|))
  }

  /** A byte of the data that does not arrive when the range is not `Programmable`. */
  function Victim(d: Device, im: Image): (t: nat)
    requires Ready(d, im) && !Programmable(d, im)
    ensures t < |im.data|
  {
    var page := |d.flash.buffer|;
    var a := Address(d, im);
    if im.start % 2 == 1 then |im.data| - 1
    else if im.start % ENDPOINT_SIZE != 0 then 0
    else if |im.data| % 2 == 1 then |im.data| - 1
    else page - (a - PageBase(a, page))
  }

  /** With a misaligned start the first byte to reach the flash is the last alignment filler. */
  lemma FirstDelivered(im: Image)
    requires im.Valid() && im.align != [] && |im.data| >= 2
    ensures Delivered(im)[0] == im.align[|im.align| - 1]
  {
    FillersDiscarded(im);
    var ep := AtData(im);
    assert ep.bank != [] && ep.Stream()[0] == ep.bank[0];
  }

  /** An image whose victim differs from 0xFF and from what the page buffer has in its place. */
  function Witness(d: Device, im: Image): (z: Image)
    requires Ready(d, im) && !Programmable(d, im)
    ensures SameRange(im, z)
  {
    var t := Victim(d, im);
    AllButOne(im, t, if Under(d.flash.buffer, Address(d, im) + t, Address(d, im) - Address(d, im) % 2,
      |d.flash.buffer|) == 0 then 1 else 0)
  }

  lemma VictimSource(d: Device, im: Image, z: Image, b: byte)
    requires Ready(d, im) && !Programmable(d, im) && z == AllButOne(im, Victim(d, im), b)
    ensures var a := Address(d, im);
      var j := Source(a + Victim(d, im), a - a % 2, |d.flash.buffer|);
      0 <= j < |Delivered(z)| ==> Delivered(z)[j] == 0xFF
  {
    hide PageBase, Delivered, Image.First, Image.Rest, Address, Device.Valid, Image.Size;
    var page := |d.flash.buffer|;
    var a := Address(d, im);
    AddressParity(d, im);
    if im.start % 2 == 0 {
      if im.start % ENDPOINT_SIZE != 0 {
        if |z.data| >= 2 { FirstDelivered(z); }
      } else {
        DeliveredAligned(z);
        BaseIsAligned(a, page);
        NextAligned(PageBase(a, page), page);
      }
    }
  }

  lemma OtherReady(d: Device, im: Image, cells: seq<byte>, other: Image)
    requires Ready(d, im) && |cells| == |d.flash.cells| && SameRange(im, other)
    ensures var e := WithCells(d, cells);
      && Ready(e, other) && Address(e, other) == Address(d, im)
      && (Programmable(e, other) <==> Programmable(d, im))
  {
  }

  lemma VictimLost(d: Device, im: Image, e: Device, z: Image)
    requires Ready(d, im) && !Programmable(d, im)
    requires e == WithCells(d, Blank(|d.flash.cells|)) && z == Witness(d, im) && Ready(e, z)
    ensures Final(e, z).flash.cells[Address(d, im) + Victim(d, im)] != z.data[Victim(d, im)]
  {
    hide PageBase, Delivered, Source, Touched, Image.First, Under, Victim, Programmable;
    VictimSource(d, im, z, z.data[Victim(d, im)]);
  }

  /** A range is always programmed as sent exactly when it is `Programmable`. */
  lemma ProgramExact(d: Device, im: Image)
    requires Ready(d, im)
    ensures AlwaysWritten(d, im) <==> Programmable(d, im)
  {
    hide Handle, PageBase, Programmable, Final, Image.First, Device.Valid, Written;
    if Programmable(d, im) {
      forall cells: seq<byte>, other: Image | |cells| == |d.flash.cells| && SameRange(im, other)
        ensures Ready(WithCells(d, cells), other) && Written(WithCells(d, cells), other)
      {
        OtherReady(d, im, cells, other);
        WrittenWhenProgrammable(WithCells(d, cells), other);
      }
    } else {
      var e := WithCells(d, Blank(|d.flash.cells|));
      var z := Witness(d, im);
      OtherReady(d, im, e.flash.cells, z);
      NotWritten(d, im, e, z);
    }
  }

  lemma WrittenWhenProgrammable(d: Device, im: Image)
    requires Ready(d, im) && Programmable(d, im)
    ensures Written(d, im)
  {
    hide Handle, PageBase;
    ProgramWorks(d, im, 0);
  }

  lemma NotWritten(d: Device, im: Image, e: Device, z: Image)
    requires Ready(d, im) && !Programmable(d, im)
    requires e == WithCells(d, Blank(|d.flash.cells|)) && z == Witness(d, im) && Ready(e, z)
    ensures !Written(e, z)
  {
    hide Handle, PageBase, Image.First, Programmable, Victim, Under, Delivered, Target;
    VictimLost(d, im, e, z);
    DownloadPlaces(e, z, 0);
    var t := Victim(d, im);
    assert |Final(e, z).flash.cells| == |d.flash.cells|;
    hide Final, Witness;
    assert Final(e, z).flash.Read(Address(e, z) + t) != z.data[t];
  }

  // ----- reading back

  lemma {:induction false} SendWordsStream(m: Memory, ep: In, addr: nat, words: nat)
    requires addr + 2 * words <= |m.cells|
    ensures SendWords(m, ep, addr, words).Stream() == ep.Stream() + m.cells[addr..addr + 2 * words]
    decreases words
  {
    hide In.Stream;
    if words != 0 {
      var w := [m.Read(addr), m.Read(addr + 1)];
      var next := ep.Ready(ENDPOINT_SIZE).Put(w);
      assert next.Stream() == ep.Stream() + w;
      hide In.Ready, In.Put;
      SendWordsStream(m, next, addr + 2, words - 1);
      assert w + m.cells[addr + 2..addr + 2 * words] == m.cells[addr..addr + 2 * words];
    }
  }

  /** A download that carries a command and its five parameters only. */
  function CommandRequest(code: byte, parameters: seq<byte>): Request {
    Request(REQ_DNLOAD, 6, [[code] + parameters], 0)
  }

  lemma CommandRuns(d: Device, code: byte, parameters: seq<byte>)
    requires d.Valid() && !d.waitForExit && |parameters| == 5
    ensures var r := Process(d.(sent := Command(code, parameters, 0)), 0);
      Handle(d, CommandRequest(code, parameters)) ==
        Reply(if r.state == DnloadIdle then r.(state := DfuIdle) else r, [])
  {
    hide LoadCommand, ReceiveData, PageBase, MemProg, MemRead, MemInfo, EraseFrom;
    var packet := [code] + parameters;
    LoadFive(d.sent.(dataSize := 6), packet, []);
    assert packet[6..] == [] && packet[1..6] == parameters;
    assert CommandRequest(code, parameters).packets[1..] == [];
  }

  const SHOW_FLASH: byte := 0x00
  const SHOW_EEPROM: byte := 0x02

  /** The download that announces a read of the given range. */
  function Display(memory: byte, start: word16, end: word16): Request {
    CommandRequest(COMMAND_DISP_DATA, [memory, start / 0x100, start % 0x100, end / 0x100, end % 0x100])
  }

  lemma DisplayPrepares(d: Device, memory: byte, start: word16, end: word16)
    requires d.Valid() && !d.isSecure && !d.waitForExit && (memory == SHOW_FLASH || memory == SHOW_EEPROM)
    ensures Handle(d, Display(memory, start, end)).device ==
      d.(sent := Command(COMMAND_DISP_DATA, [memory, start / 0x100, start % 0x100, end / 0x100, end % 0x100], 0),
         startAddr := start, endAddr := end, state := UploadIdle)
  {
    hide Handle, PageBase;
    CommandRuns(d, COMMAND_DISP_DATA, [memory, start / 0x100, start % 0x100, end / 0x100, end % 0x100]);
  }

  /** What a display command for `memory` and an upload send back. */
  function Uploaded(d: Device, memory: byte, start: word16, end: word16, length: word16): (r: Reply)
    requires d.Valid()
    ensures r.device.Valid()
  {
    Handle(Handle(d, Display(memory, start, end)).device, Request(REQ_UPLOAD, length, [], 0))
  }

  lemma UploadReads(d: Device, length: word16)
    requires d.Valid() && d.state == UploadIdle && d.OneByte(SHOW_FLASH)
    requires d.FlashAddress() + d.RangeSize() <= |d.flash.cells|
    ensures var reply := Handle(d, Request(REQ_UPLOAD, length, [], 0));
      && Flatten(reply.packets) == d.flash.cells[d.FlashAddress()..d.FlashAddress() + d.RangeSize() / 2 * 2]
      && reply.device.state == DfuIdle && reply.device.flash == d.flash && reply.device.eeprom == d.eeprom
  {
    hide SendWords, HandleDownload, PageBase, Flatten;
    SendWordsStream(d.flash, In([], []), d.FlashAddress(), d.RangeSize() / 2);
    var sent := SendWords(d.flash, In([], []), d.FlashAddress(), d.RangeSize() / 2);
    ClearSends(sent);
    ClearSends(In([], []));
  }

  lemma ClearSends(ep: In)
    ensures Flatten(ep.Clear().sent) == ep.Stream()
    ensures ep == In([], []) ==> ep.Stream() == []
  {
    assert ep.Clear().Stream() == Flatten(ep.Clear().sent);
  }

  /** They return the words of the range, and the device to dfuIDLE; but nothing of a whole 64 KB. */
  lemma DisplayReads(d: Device, start: word16, end: word16, length: word16)
    requires d.Valid() && !d.isSecure && !d.waitForExit && start <= end
    requires d.flash64KBPage * 0x1_0000 + end < |d.flash.cells|
    ensures var reply := Uploaded(d, SHOW_FLASH, start, end, length);
      var a := d.flash64KBPage * 0x1_0000 + start;
      && Flatten(reply.packets) ==
        (if end - start == 0xFFFF then [] else d.flash.cells[a..a + (end - start + 1) / 2 * 2])
      && reply.device.state == DfuIdle && reply.device.flash == d.flash && reply.device.eeprom == d.eeprom
  {
    hide Handle, PageBase, Flatten;
    DisplayPrepares(d, SHOW_FLASH, start, end);
    UploadReads(Handle(d, Display(SHOW_FLASH, start, end)).device, length);
  }

  /** So a range is returned exactly when its length is even and below 64 KB, a condition on the command alone. */
  lemma DisplayExact(d: Device, start: word16, end: word16, length: word16)
    requires d.Valid() && !d.isSecure && !d.waitForExit && start <= end
    requires d.flash64KBPage * 0x1_0000 + end < |d.flash.cells|
    ensures var a := d.flash64KBPage * 0x1_0000 + start;
      var n := end - start + 1;
      Flatten(Uploaded(d, SHOW_FLASH, start, end, length).packets) == d.flash.cells[a..a + n] <==>
        n % 2 == 0 && n < 0x1_0000
  {
    hide Uploaded, Flatten, PageBase;
    DisplayReads(d, start, end, length);
  }

  lemma ExpectedData(d: Device, im: Image)
    requires Ready(d, im)
    ensures Expected(d, im)[Address(d, im)..Address(d, im) + |im.data|] == im.data
  {
    hide PageBase, Under, Touched;
  }

  /** What was programmed reads back. */
  lemma ReadBack(d: Device, im: Image, stray: byte, length: word16)
    requires Ready(d, im) && Programmable(d, im)
    ensures var programmed := Handle(d, im.ToRequest(FLASH, stray)).device;
      var reply := Uploaded(programmed, SHOW_FLASH, im.start, im.end, length);
      Flatten(reply.packets) == im.data && reply.device.state == DfuIdle && reply.device.flash == programmed.flash
  {
    hide Handle, PageBase, Uploaded, Expected, Flatten, Image.ToRequest, Memory.Erase;
    ProgramWorks(d, im, stray);
    ExpectedData(d, im);
    DisplayReads(Handle(d, im.ToRequest(FLASH, stray)).device, im.start, im.end, length);
  }

  // ----- EEPROM

  lemma FirstByte(ep: Out)
    requires NoneEmpty(ep.pending) && ep.Stream() != []
    ensures ep.bank == [] ==> ep.pending != []
    ensures var e := if ep.bank == [] then ep.Next() else ep;
      && e.bank != [] && NoneEmpty(e.pending) && e.Head() == ep.Stream()[0] && e.Tail().Stream() == ep.Stream()[1..]
      && e.Tail().pending == e.pending
  {
    var e := if ep.bank == [] then ep.Next() else ep;
    assert e.bank == [e.bank[0]] + e.bank[1..];
  }

  lemma {:induction false} StoreBytesStores(eeprom: seq<byte>, ep: Out, addr: word16, n: nat)
    requires NoneEmpty(ep.pending) && |ep.Stream()| >= n && addr + n <= |eeprom| && addr + n <= 0x1_0000
    ensures var r := StoreBytes(eeprom, ep, addr, n);
      r.complete && r.eeprom == Overlay(eeprom, addr, ep.Stream()[..n])
    decreases n
  {
    hide Overlay, Out.Stream, Out.Tail, Out.Head, NoneEmpty;
    var s := ep.Stream();
    if n == 0 {
      OverlayNothing(eeprom, addr, s[..0]);
    } else {
      FirstByte(ep);
      var e := if ep.bank == [] then ep.Next() else ep;
      OverlayStep(eeprom, addr, s[..n]);
      assert s[..n][1..] == s[1..][..n - 1];
      if n > 1 {
        StoreBytesStores(EepromWrite(eeprom, addr, s[0]), e.Tail(), addr + 1, n - 1);
      } else {
        OverlayNothing(EepromWrite(eeprom, addr, s[0]), addr + 1, s[..n][1..]);
      }
    }
  }

  /** An EEPROM download stores its data; with a misaligned start, shifted by one filler byte. */
  lemma EepromStored(d: Device, im: Image, stray: byte)
    requires Open(d, im) && im.end < |d.eeprom|
    ensures var r := Handle(d, im.ToRequest(EEPROM, stray)).device;
      && r.flash == d.flash && r.state == DnloadIdle && !r.isSecure && !r.waitForExit
      && r.eeprom == Overlay(d.eeprom, im.start,
           if im.align == [] then im.data else [im.align[|im.align| - 1]] + im.data[..|im.data| - 1])
  {
    hide Discard, AtData, StoreBytes, Overlay, Packets, Out.Stream, Image.Rest, PageBase, Handle;
    DownloadStarts(d, im, EEPROM, im.Rest(), stray);
    FillersDiscarded(im);
    var n := |im.data|;
    assert Started(d, im, EEPROM).RangeSize() == n;
    StoreBytesStores(d.eeprom, AtData(im), im.start, n);
    var s := AtData(im).Stream();
    if im.align == [] {
      assert s[..n] == im.data;
    } else {
      assert s[..n] == [im.align[|im.align| - 1]] + im.data[..n - 1];
    }
  }

  lemma {:induction false} SendBytesStream(eeprom: seq<byte>, ep: In, addr: word16, n: nat)
    requires addr + n <= |eeprom| && addr + n <= 0x1_0000
    ensures SendBytes(eeprom, ep, addr, n).Stream() == ep.Stream() + eeprom[addr..addr + n]
    decreases n
  {
    hide In.Stream;
    if n == 0 {
      assert ep.Stream() + eeprom[addr..addr] == ep.Stream();
    } else {
      var next := ep.Ready(ENDPOINT_SIZE).Put([eeprom[addr]]);
      assert eeprom[addr..addr + n] == [eeprom[addr]] + eeprom[addr + 1..addr + n];
      if n > 1 {
        SendBytesStream(eeprom, next, addr + 1, n - 1);
      } else {
        assert eeprom[addr + 1..addr + n] == [];
      }
    }
  }

  /** The same for the EEPROM, where every byte of the range is returned, but again nothing of a whole 64 KB. */
  lemma EepromReads(d: Device, start: word16, end: word16, length: word16)
    requires d.Valid() && !d.isSecure && !d.waitForExit && start <= end < |d.eeprom|
    ensures var reply := Uploaded(d, SHOW_EEPROM, start, end, length);
      && Flatten(reply.packets) == (if end - start == 0xFFFF then [] else d.eeprom[start..end + 1])
      && reply.device.state == DfuIdle && reply.device.eeprom == d.eeprom
  {
    hide SendBytes, HandleDownload, PageBase;
    DisplayPrepares(d, SHOW_EEPROM, start, end);
    var n := if end - start == 0xFFFF then 0 else end - start + 1;
    SendBytesStream(d.eeprom, In([], []), start, n);
    var sent := SendBytes(d.eeprom, In([], []), start, n);
    assert sent.Clear().Stream() == Flatten(sent.Clear().sent);
  }

  /** The request leaves the data in its range of the EEPROM. */
  predicate InEeprom(d: Device, im: Image)
    requires Open(d, im) && im.end < |d.eeprom|
  {
    var eeprom := Handle(d, im.ToRequest(EEPROM, 0)).device.eeprom;
    im.end < |eeprom| && eeprom[im.start..im.end + 1] == im.data
  }

  /**
   A range of the EEPROM is stored as sent, whatever the data and the fillers, exactly when its start is aligned to
   a packet.
   */
  lemma EepromExact(d: Device, im: Image)
    requires Open(d, im) && im.end < |d.eeprom|
    ensures (forall other: Image :: SameRange(im, other) ==> InEeprom(d, other)) <==> im.start % ENDPOINT_SIZE == 0
  {
    hide Handle, Overlay, PageBase;
    if im.start % ENDPOINT_SIZE == 0 {
      forall other: Image | SameRange(im, other)
        ensures InEeprom(d, other)
      {
        EepromStored(d, other, 0);
      }
    } else {
      var z := AllButOne(im, 0, 0);
      EepromStored(d, z, 0);
      assert Handle(d, z.ToRequest(EEPROM, 0)).device.eeprom[im.start..im.end + 1][0] == 0xFF;
      assert !InEeprom(d, z);
    }
  }

  /** Every EEPROM image with an aligned start reads back. */
  lemma EepromReadBack(d: Device, im: Image, stray: byte, length: word16)
    requires Open(d, im) && im.end < |d.eeprom| && im.start % ENDPOINT_SIZE == 0
    ensures Flatten(Uploaded(Handle(d, im.ToRequest(EEPROM, stray)).device, SHOW_EEPROM, im.start, im.end,
      length).packets) == im.data
  {
    hide Handle, Flatten, Packets, PageBase, Uploaded;
    EepromStored(d, im, stray);
    EepromReads(Handle(d, im.ToRequest(EEPROM, stray)).device, im.start, im.end, length);
  }
}
