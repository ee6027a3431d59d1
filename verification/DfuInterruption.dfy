/** DFU programming downloads whose host leaves before the end, and what they do to a later chip erase. */
module DfuInterruption {
  import opened Bytes
  import opened ChipErase
  import opened Flash
  import opened Endpoint
  import opened Dfu
  import opened DfuProgramming
  import opened DfuSecurity

  // ----- the word loop cut off

  /** One iteration of the word loop for a host that leaves before the loop is over. */
  lemma CutStep(m: Memory, ep: Out, addr: nat, start: nat, inPage: nat, words: nat)
    returns (lo: byte, hi: byte, rest: Out)
    requires m.Valid() && AllWords(ep) != [] && |AllWords(ep)| < 2 * words
    ensures AllWords(ep) == [lo, hi] + AllWords(rest)
    ensures var f := m.Fill(addr, lo, hi);
      ProgramWords(m, ep, addr, start, inPage, words) ==
      if inPage + 1 == |m.buffer| / 2 then
        ProgramWords(f.Write(start).Erase(addr + 2), rest, addr + 2, addr + 2, 0, words - 1)
      else ProgramWords(f, rest, addr + 2, start, inPage + 1, words - 1)
  {
    hide Memory.Erase, Memory.Fill, Memory.Write;
    var e := if ep.bank == [] then ep.Next() else ep;
    lo, hi, rest := e.Head(), e.Tail().Head(), e.Tail().Tail();
  }

  /**
   The word loop, entered anywhere in a page, when the host leaves: it ends there, full pages are written, and
   what has come of the page begun is in the buffer.
   */
  lemma {:induction false} ProgramCut(m: Memory, ep: Out, a: nat, base: nat, start: nat, inPage: nat, cur: nat,
                                      words: nat, cells: seq<byte>, left: seq<byte>, s: seq<byte>)
    requires m.Valid() && |left| == |m.buffer| && InPage(a, base, cur, |m.buffer|)
    requires Aligned(base - PageBase(a, |m.buffer|), |m.buffer|)
    requires start - a == base - PageBase(a, |m.buffer|) && a + cur == start + 2 * inPage
    requires |AllWords(ep)| < 2 * words
    requires cur <= |s| && s[cur..] == AllWords(ep)
    requires |m.cells| == |cells| && Progress(m, cells, left, a, s, base, cur)
    ensures var r := ProgramWords(m, ep, a + cur, start, inPage, words);
      && !r.complete
      && Progress(r.flash, cells, left, a, s, PageBase(a, |m.buffer|) + PageBase(|s|, |m.buffer|), |s|)
    decreases words
  {
    hide PageBase, Memory.Erase, Memory.Fill, Memory.Write, ProgramWords, AllWords, Progress, CellAfter;
    var page := |m.buffer|;
    var first := PageBase(a, page);
    if AllWords(ep) == [] {
      assert |s| == cur;
      NothingMore(ep, m, a + cur, start, inPage, words);
      AlignedIsBase(cur, base - first, page);
    } else {
      var lo, hi, rest := CutStep(m, ep, a + cur, start, inPage, words);
      assert s[cur..][0] == lo && s[cur..][1] == hi;
      assert s[cur..][2..] == s[cur + 2..];
      FillStep(m, cells, left, a, s, base, cur);
      var f := m.Fill(a + cur, lo, hi);
      if inPage + 1 == page / 2 {
        WriteStep(f, cells, left, a, s, base, cur + 2, start);
        var w := f.Write(start);
        EraseStep(w, cells, left, a, s, base, cur + 2, a + cur + 2);
        NextAligned(base, page);
        NextAligned(base - first, page);
        ProgramCut(w.Erase(a + cur + 2), rest, a, base + page, a + cur + 2, 0, cur + 2, words - 1, cells, left, s);
      } else {
        ProgramCut(f, rest, a, base, start, inPage + 1, cur + 2, words - 1, cells, left, s);
      }
    }
  }

  lemma NothingMore(ep: Out, m: Memory, addr: nat, start: nat, inPage: nat, words: nat)
    requires m.Valid() && AllWords(ep) == [] && words > 0
    ensures ProgramWords(m, ep, addr, start, inPage, words) == Programmed(m, ep, false)
  {
  }

  /** The page that a stream of `n` bytes from `a` on has reached. */
  function PageReached(a: nat, n: nat, page: nat): nat
    requires page > 0
  {
    PageBase(a, page) + PageBase(n, page)
  }

  lemma ErasedProgress(m: Memory, a: nat, s: seq<byte>)
    requires m.Valid()
    ensures Progress(m.Erase(a), m.cells, m.buffer, a, s, PageBase(a, |m.buffer|), 0)
  {
    hide PageBase, Source, Slot;
  }

  /** From an erased first page. */
  lemma ProgramCutAll(m: Memory, ep: Out, a: nat, words: nat)
    requires m.Valid() && a % 2 == 0 && |AllWords(ep)| < 2 * words
    ensures var r := ProgramWords(m.Erase(a), ep, a, a, 0, words);
      var s := AllWords(ep);
      !r.complete && Progress(r.flash, m.cells, m.buffer, a, s, PageReached(a, |s|, |m.buffer|), |s|)
  {
    hide ProgramWords, AllWords, Progress, Memory.Erase;
    var s := AllWords(ep);
    var page := |m.buffer|;
    var base := PageBase(a, page);
    BaseIsAligned(a, page);
    assert Aligned(base - base, page);
    hide PageBase;
    var e := m.Erase(a);
    ErasedProgress(m, a, s);
    assert s[0..] == s;
    ProgramCut(e, ep, a, base, a, 0, 0, words, m.cells, m.buffer, s);
  }

  /** And from an odd address, the same as from the even one below it. */
  lemma ProgramCutAny(m: Memory, ep: Out, a: nat, words: nat)
    requires m.Valid() && |AllWords(ep)| < 2 * words
    ensures var r := ProgramWords(m.Erase(a), ep, a, a, 0, words);
      var even, s := a - a % 2, AllWords(ep);
      !r.complete && Progress(r.flash, m.cells, m.buffer, even, s, PageReached(even, |s|, |m.buffer|), |s|)
  {
    hide ProgramWords, AllWords, Memory.Erase, PageBase, Progress;
    ProgramCutAll(m, ep, a - a % 2, words);
    if a % 2 == 1 {
      SameWord(m, a, 0, 0);
      OddAddress(m.Erase(a), ep, a, a, 0, words);
    }
  }

  // ----- the page buffer

  /** What has come of the page begun. */
  function Tail(s: seq<byte>, page: nat): seq<byte>
    requires page > 0
  {
    s[PageBase(|s|, page)..]
  }

  /** The buffer offset of byte `j` of the stream, in the page at `base`. */
  lemma OffsetOf(j: nat, a: nat, base: nat, page: nat) returns (off: nat)
    requires page > 0 && PageBase(a, page) <= base && base - PageBase(a, page) <= j < base - PageBase(a, page) + page
    ensures off < page && Slot(off, a, base, page) == j
  {
    hide PageBase;
    off := if a + j - base < page then a + j - base else a + j - base - page;
  }

  lemma SlotInPage(off: nat, a: nat, base: nat, page: nat)
    requires page > 0 && off < page && PageBase(a, page) <= base
    ensures base - PageBase(a, page) <= Slot(off, a, base, page)
  {
    hide PageBase;
  }

  lemma BufferHolds(m: Memory, cells: seq<byte>, a: nat, s: seq<byte>, base: nat, off: nat)
    requires m.Valid() && Progress(m, cells, Blank(|m.buffer|), a, s, base, |s|) && off < |m.buffer|
    ensures m.buffer[off] == ByteAt(s, |s|, Slot(off, a, base, |m.buffer|), 0xFF)
  {
    hide PageBase, Slot;
  }

  /** A buffer that was empty before is empty again exactly when nothing but 0xFF has come of the page begun. */
  lemma TailInBuffer(m: Memory, cells: seq<byte>, a: nat, s: seq<byte>)
    requires m.Valid() && Progress(m, cells, Blank(|m.buffer|), a, s, PageReached(a, |s|, |m.buffer|), |s|)
    ensures m.BufferBlank() <==> Tail(s, |m.buffer|) == Blank(|Tail(s, |m.buffer|)|)
  {
    hide PageBase, Progress, Slot, Memory.Valid;
    var page := |m.buffer|;
    var done := PageBase(|s|, page);
    var base := PageReached(a, |s|, page);
    var tail := Tail(s, page);
    if m.BufferBlank() {
      forall i | 0 <= i < |tail| ensures tail[i] == 0xFF {
        var off := OffsetOf(done + i, a, base, page);
        BufferHolds(m, cells, a, s, base, off);
        assert m.buffer[off] == s[done + i];
      }
      assert tail == Blank(|tail|);
    } else if tail == Blank(|tail|) {
      forall off | 0 <= off < page ensures m.buffer[off] == 0xFF {
        BufferHolds(m, cells, a, s, base, off);
        SlotInPage(off, a, base, page);
        var j := Slot(off, a, base, page);
        if j < |s| { assert s[j] == tail[j - done]; }
      }
      assert false;
    }
  }

  // ----- the request

  /** What reaches the word loop of a programming request whose host sends `sent` after the first packet. */
  function Arrived(im: Image, sent: seq<byte>): seq<byte> {
    AllWords(Discard(Discard(Out(im.filler, Packets(sent, ENDPOINT_SIZE)), FILLER_SIZE), im.start % ENDPOINT_SIZE))
  }

  /** The device `e` that a programming request leaves when only `s` of it reaches the word loop. */
  ghost predicate CutOff(d: Device, im: Image, s: seq<byte>, e: Device)
    requires Ready(d, im)
  {
    var a := Address(d, im) - Address(d, im) % 2;
    && e == Started(d, im, FLASH).(flash := e.flash) && e.flash.Valid() && e.flash.SameShape(d.flash)
    && Progress(e.flash, d.flash.cells, d.flash.buffer, a, s, PageReached(a, |s|, |d.flash.buffer|), |s|)
  }

  /** A programming request that is cut off, whatever its start and wherever it stops. */
  lemma InterruptedFills(d: Device, im: Image, sent: seq<byte>, stray: byte)
    requires Ready(d, im) && |Arrived(im, sent)| < 2 * (|im.data| / 2)
    ensures CutOff(d, im, Arrived(im, sent), Handle(d, im.Partly(FLASH, sent, stray)).device)
  {
    hide ProgramWords, Handle, Memory.Erase, PageBase, Discard, Packets, AllWords, Progress, Image.Partly, PageReached,
         Device.Valid;
    DownloadStarts(d, im, FLASH, sent, stray);
    var ep := Discard(Discard(Out(im.filler, Packets(sent, ENDPOINT_SIZE)), FILLER_SIZE), im.start % ENDPOINT_SIZE);
    ProgramCutAny(d.flash, ep, Address(d, im), |im.data| / 2);
    var e := Started(d, im, FLASH);
    assert e.FlashAddress() == Address(d, im) && e.RangeSize() == |im.data|;
    hide Address, Device.FlashAddress, Device.RangeSize, Started;
    assert ReceiveData(e, Out(im.filler, Packets(sent, ENDPOINT_SIZE))) ==
      e.(flash := ProgramWords(e.flash, ep, Address(d, im), Address(d, im), 0, |im.data| / 2).flash);
  }

  /**
   An open device with an empty page buffer, and a programming request that is cut off anywhere.  A chip erase after
   it leaves the application section blank, and the blank check that follows passes, exactly when nothing but 0xFF had
   come of the page begun.
   */
  lemma EraseAfterInterruption(d: Device, im: Image, sent: seq<byte>, stray: byte)
    requires Ready(d, im) && d.flash.BufferBlank() && d.bootStart <= 0x100_0000
    requires |Arrived(im, sent)| < 2 * (|im.data| / 2)
    ensures var cut := Handle(d, im.Partly(FLASH, sent, stray)).device;
      var erased := Handle(cut, CommandRequest(COMMAND_WRITE, CHIP_ERASE)).device;
      var checked := Handle(erased, CommandRequest(COMMAND_DISP_DATA, BLANK_CHECK)).device;
      var tail := Tail(Arrived(im, sent), |d.flash.buffer|);
      && (ApplicationBlank(erased.flash, erased.bootStart) <==> tail == Blank(|tail|))
      && (checked.state == DfuError <==> tail != Blank(|tail|))
  {
    hide Handle, PageBase, Progress, Arrived, Memory.BufferBlank, Image.Partly, ApplicationBlank, Tail;
    InterruptedFills(d, im, sent, stray);
    var cut := Handle(d, im.Partly(FLASH, sent, stray)).device;
    BlankBuffer(d.flash);
    TailInBuffer(cut.flash, d.flash.cells, Address(d, im) - Address(d, im) % 2, Arrived(im, sent));
    EraseRequestExact(cut);
  }

  lemma BlankBuffer(m: Memory)
    ensures m.BufferBlank() ==> m.buffer == Blank(|m.buffer|)
  {
  }

  /** With an aligned start the data arrives as it is sent; an odd last byte is completed with a zero. */
  lemma AlignedArrives(im: Image, k: nat)
    requires im.Valid() && im.align == [] && k <= |im.data|
    ensures Arrived(im, im.data[..k]) == Padded(im.data[..k])
  {
    hide AllWords, Packets;
    var packets := Packets(im.data[..k], ENDPOINT_SIZE);
    DiscardBank(Out(im.filler, packets), FILLER_SIZE);
    assert im.filler[FILLER_SIZE..] == [];
    PacketWords(im.data[..k], ENDPOINT_SIZE);
  }

  /** So a host that leaves after `k` bytes of the data, an even number, can tell from these bytes. */
  lemma EraseAfterAligned(d: Device, im: Image, k: nat, stray: byte)
    requires Ready(d, im) && d.flash.BufferBlank() && d.bootStart <= 0x100_0000
    requires im.align == [] && k % 2 == 0 && k + 2 <= |im.data|
    ensures var cut := Handle(d, im.Partly(FLASH, im.data[..k], stray)).device;
      var erased := Handle(cut, CommandRequest(COMMAND_WRITE, CHIP_ERASE)).device;
      var checked := Handle(erased, CommandRequest(COMMAND_DISP_DATA, BLANK_CHECK)).device;
      var tail := im.data[PageBase(k, |d.flash.buffer|)..k];
      checked.state == DfuError <==> tail != Blank(|tail|)
  {
    hide Handle, PageBase, Arrived, Memory.BufferBlank, Image.Partly, ApplicationBlank;
    AlignedArrives(im, k);
    EraseAfterInterruption(d, im, im.data[..k], stray);
    assert Tail(im.data[..k], |d.flash.buffer|) == im.data[PageBase(k, |d.flash.buffer|)..k];
  }

  // ----- runs without interruption

  /** The word loop of a host that delivers all its words writes every page it fills. */
  lemma {:induction false} CompleteEmpties(m: Memory, ep: Out, addr: nat, start: nat, inPage: nat, words: nat)
    requires m.Valid() && NoneEmpty(ep.pending) && |ep.Stream()| >= 2 * words
    ensures var r := ProgramWords(m, ep, addr, start, inPage, words);
      r.complete && (words > 0 || m.BufferBlank() ==> r.flash.BufferBlank())
    decreases words
  {
    hide PageBase, Memory.Erase, Memory.Fill, Out.Stream, WordBytes, Memory.BufferBlank;
    if words > 0 {
      var lo, hi, rest := ProgramOne(m, ep, addr, start, inPage, words);
      var f := m.Fill(addr, lo, hi);
      if words > 1 {
        if inPage + 1 == |m.buffer| / 2 {
          CompleteEmpties(f.Write(start).Erase(addr + 2), rest, addr + 2, addr + 2, 0, words - 1);
        } else {
          CompleteEmpties(f, rest, addr + 2, start, inPage + 1, words - 1);
        }
      }
    }
  }

  /** The host sends at least as many bytes as the data phase takes, if it is one for the flash. */
  predicate Enough(d: Device, ep: Out)
    requires d.Valid()
  {
    d.state == DnloadIdle && d.sent.dataSize != 0 && d.OneByte(FLASH) ==>
      var e := Discard(Discard(ep, FILLER_SIZE), d.startAddr % ENDPOINT_SIZE);
      NoneEmpty(e.pending) && |e.Stream()| >= 2 * (d.RangeSize() / 2)
  }

  /** A request in which no flash download is cut off. */
  predicate DeliversAll(d: Device, request: Request)
    requires d.Valid()
  {
    request.code == REQ_DNLOAD ==>
      var c := d.(sent := d.sent.(dataSize := request.length));
      var e := if c.waitForExit then Process(c, request.stray).(waitForExit := false) else c;
      e.sent.dataSize != 0 && request.packets != [] ==>
        var l := LoadCommand(e.sent, Out([], request.packets).Next());
        Enough(Process(e.(sent := l.sent), request.stray), l.ep)
  }

  lemma ProcessKeepsEmpty(d: Device, stray: byte)
    requires d.Valid() && d.flash.BufferBlank()
    ensures Process(d, stray).flash.BufferBlank()
  {
    hide PageBase, EraseFrom, FirstNonBlank;
    EraseEmpties(d.flash, 0, d.bootStart);
  }

  lemma FinishKeepsEmpty(d: Device, ep: Out)
    requires d.Valid() && d.flash.BufferBlank() && Enough(d, ep)
    ensures FinishDownload(d, ep).flash.BufferBlank()
  {
    hide PageBase, Discard, ProgramWords, StoreBytes, Memory.BufferBlank;
    if d.state == DnloadIdle && d.sent.dataSize != 0 && d.OneByte(FLASH) {
      var e := Discard(Discard(ep, FILLER_SIZE), d.startAddr % ENDPOINT_SIZE);
      CompleteEmpties(d.flash, e, d.FlashAddress(), d.FlashAddress(), 0, d.RangeSize() / 2);
    }
  }

  lemma StaysEmptyStep(d: Device, request: Request)
    requires d.Valid() && d.flash.BufferBlank() && DeliversAll(d, request)
    ensures Handle(d, request).device.flash.BufferBlank()
  {
    hide PageBase, Process, FinishDownload, LoadCommand, Memory.BufferBlank, Enough;
    if request.code == REQ_DNLOAD {
      var c := d.(sent := d.sent.(dataSize := request.length));
      ProcessKeepsEmpty(c, request.stray);
      var e := if c.waitForExit then Process(c, request.stray).(waitForExit := false) else c;
      if e.sent.dataSize == 0 {
        NothingToDeliver(e, Out([], request.packets));
        FinishKeepsEmpty(e, Out([], request.packets));
      } else if request.packets != [] {
        var l := LoadCommand(e.sent, Out([], request.packets).Next());
        ProcessKeepsEmpty(e.(sent := l.sent), request.stray);
        FinishKeepsEmpty(Process(e.(sent := l.sent), request.stray), l.ep);
      }
    }
  }

  lemma NothingToDeliver(d: Device, ep: Out)
    requires d.Valid() && d.sent.dataSize == 0
    ensures Enough(d, ep)
  {
  }

  predicate AllDelivered(d: Device, requests: seq<Request>)
    requires d.Valid()
    decreases |requests|
  {
    requests == [] || (DeliversAll(d, requests[0]) && AllDelivered(Handle(d, requests[0]).device, requests[1..]))
  }

  /** Over every run in which no flash download is cut off, an empty page buffer stays empty. */
  lemma {:induction false} StaysEmpty(d: Device, requests: seq<Request>)
    requires d.Valid() && d.flash.BufferBlank() && AllDelivered(d, requests)
    ensures Run(d, requests).device.flash.BufferBlank()
    decreases |requests|
  {
    hide Handle, Device.Valid, DeliversAll, Memory.BufferBlank;
    if requests != [] {
      StaysEmptyStep(d, requests[0]);
      StaysEmpty(Handle(d, requests[0]).device, requests[1..]);
    }
  }

  lemma {:induction false} BootSectionKept(d: Device, requests: seq<Request>)
    requires d.Valid()
    ensures Run(d, requests).device.bootStart == d.bootStart
    decreases |requests|
  {
    hide Handle, Device.Valid;
    if requests != [] {
      BootSectionKept(Handle(d, requests[0]).device, requests[1..]);
    }
  }

  /** So a chip erase at the end of such a run leaves the application section blank. */
  lemma EraseAfterRun(d: Device, requests: seq<Request>)
    requires d.Valid() && d.flash.BufferBlank() && AllDelivered(d, requests) && d.bootStart <= 0x100_0000
    requires !Run(d, requests).device.waitForExit
    ensures var erased := Handle(Run(d, requests).device, CommandRequest(COMMAND_WRITE, CHIP_ERASE)).device;
      ApplicationBlank(erased.flash, erased.bootStart)
  {
    hide Handle, Run, AllDelivered, ApplicationBlank;
    StaysEmpty(d, requests);
    BootSectionKept(d, requests);
    EraseRequestExact(Run(d, requests).device);
  }

  /** A programming request that is sent whole is delivered. */
  lemma ImageDelivers(d: Device, im: Image, stray: byte)
    requires Ready(d, im)
    ensures DeliversAll(d, im.ToRequest(FLASH, stray))
  {
    hide PageBase, LoadCommand, Packets, Flatten, Image.First, Image.Rest, Discard, AtData, Out.Stream, Memory.Erase;
    FirstPacket(im, FLASH, im.Rest());
    var first, pending := im.First(FLASH), Packets(im.Rest(), ENDPOINT_SIZE);
    assert Out([], [first] + pending).Next() == Out(first, pending);
    LoadFive(d.sent.(dataSize := im.Size()), first, pending);
    FillersDiscarded(im);
  }
}
