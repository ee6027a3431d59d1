/**
 The HID loader end to end: the host cuts the image into blocks and sends those that hold data,
 the boot loader turns each report back into a page write.
 */
module HidLoader {
  import opened Bytes
  import opened Flash
  import opened Endpoint
  import opened PageWriting
  import opened IntelHex

  const ENDPOINT_SIZE: nat := 8
  const START_APPLICATION: word16 := 0xFFFF

  // ----- the boot loader

  datatype Device = Device(flash: Memory, running: bool)

  /** The word loop of a page, from word `w` on; None if the host stops sending and the device waits for ever. */
  function FillPage(m: Memory, ep: Out, addr: nat, w: nat): (r: Option<Memory>)
    requires m.Valid() && w <= |m.buffer| / 2
    ensures r.Some? ==> r.value.Valid() && r.value.SameShape(m)
    decreases |m.buffer| / 2 - w
  {
    if w == |m.buffer| / 2 then Some(m)
    else if ep.bank == [] && ep.pending == [] then None
    else
      var e := if ep.bank == [] then ep.Next() else ep;
      FillPage(m.Fill(addr + 2 * w, e.Head(), e.Tail().Head()), e.Tail().Tail(), addr, w + 1)
  }

  /** The destination: on parts of more than 64 KB the host sends the address without its low byte. */
  function PageAddress(word: word16, large: bool): nat {
    if large then word * 0x100 else word
  }

  /** HID_REQ_SetReport. */
  function HandleReport(d: Device, packets: seq<seq<byte>>, large: bool): (r: Option<Device>)
    requires d.flash.Valid()
    ensures r.Some? ==> r.value.flash.Valid() && r.value.flash.SameShape(d.flash)
  {
    if packets == [] then None
    else
      var ep := Out([], packets).Next();
      var word := Word(ep.Head(), ep.Tail().Head());
      if word == START_APPLICATION then Some(d.(running := false))
      else
        var addr := PageAddress(word, large);
        var m := FillPage(d.flash.Erase(addr), ep.Tail().Tail(), addr, 0);
        if m.None? then None else Some(d.(flash := m.value.Write(addr)))
  }

  lemma {:induction false} FillPageFills(m: Memory, ep: Out, addr: nat, w: nat)
    requires m.Valid() && w <= |m.buffer| / 2 && NoneEmpty(ep.pending) && |ep.Stream()| >= 2 * (|m.buffer| / 2 - w)
    ensures FillPage(m, ep, addr, w) == Some(FillWords(m, addr + 2 * w, WordBytes(ep, |m.buffer| / 2 - w)))
    decreases |m.buffer| / 2 - w
  {
    hide PageBase, Memory.Fill, WordBytes, Out.Stream, NoneEmpty, Out.Head, Out.Tail;
    var n := |m.buffer| / 2 - w;
    if n > 0 {
      WordStep(ep, n);
      var e := if ep.bank == [] then ep.Next() else ep;
      var lo, hi, rest := e.Head(), e.Tail().Head(), e.Tail().Tail();
      FillPageFills(m.Fill(addr + 2 * w, lo, hi), rest, addr, w + 1);
      var s := [lo, hi] + WordBytes(rest, n - 1);
      assert s[2..] == WordBytes(rest, n - 1);
    }
  }

  lemma ReportStream(lo: byte, hi: byte, data: seq<byte>)
    requires |data| % 2 == 0 && |data| > 6
    ensures var packets := Packets([lo, hi] + data, ENDPOINT_SIZE);
      && packets != []
      && var ep := Out([], packets).Next();
      && ep.Head() == lo && ep.Tail().Head() == hi
      && var rest := ep.Tail().Tail();
      && NoneEmpty(rest.pending) && Paired(rest) && rest.Stream() == data
  {
    var report := [lo, hi] + data;
    var packets := Packets(report, ENDPOINT_SIZE);
    FullPackets(report, ENDPOINT_SIZE);
    assert packets[0] == report[..ENDPOINT_SIZE];
    var ep := Out([], packets).Next();
    assert ep.Stream() == report;
    hide Packets;
    TakeWord(ep);
    assert ep.Tail().Tail().Stream() == report[2..] == data;
  }

  lemma PageFilled(m: Memory, ep: Out, addr: nat)
    requires m.Valid() && NoneEmpty(ep.pending) && Paired(ep) && |ep.Stream()| == |m.buffer|
    ensures FillPage(m, ep, addr, 0) == Some(FillWords(m, addr, ep.Stream()))
  {
    hide PageBase, FillWords, FillPage, Out.Stream, WordBytes, Paired, NoneEmpty;
    var words := |m.buffer| / 2;
    FillPageFills(m, ep, addr, 0);
    PairedWords(ep, words);
    assert 2 * words == |m.buffer|;
    assert WordBytes(ep, words) == ep.Stream();
  }

  /** A whole page report is a block write at the address it names. */
  lemma ReportHandled(d: Device, lo: byte, hi: byte, data: seq<byte>, large: bool)
    requires d.flash.Valid() && |data| == |d.flash.buffer| > 6 && Word(lo, hi) != START_APPLICATION
    ensures HandleReport(d, Packets([lo, hi] + data, ENDPOINT_SIZE), large) ==
      Some(d.(flash := Written(d.flash, PageAddress(Word(lo, hi), large), data)))
  {
    hide PageBase, Memory.Erase, Memory.Write, FillWords, FillPage, Packets, Paired, NoneEmpty, Out.Stream,
      PageAddress, Out.Head, Out.Tail;
    ReportStream(lo, hi, data);
    var addr := PageAddress(Word(lo, hi), large);
    PageFilled(d.flash.Erase(addr), Out([], Packets([lo, hi] + data, ENDPOINT_SIZE)).Next().Tail().Tail(), addr);
  }

  // ----- the host

  /** A part of the command line: its flash size and its page size. */
  datatype Part = Part(code: nat, block: nat) {
    predicate Known() {
      || (block == 128 && (code == 0x2000 || code == 0x4000 || code == 0x8000))
      || (block == 256 && (code == 0x1_0000 || code == 0x2_0000))
    }

    /** FLASHEND > 0xFFFF on the device. */
    predicate Large() {
      code > 0x1_0000
    }
  }

  predicate Within(mask: seq<bool>, begin: nat, end: nat)
    requires |mask| == MEMORY
  {
    begin < MEMORY && end < MEMORY && exists i :: begin <= i <= end && mask[i]
  }

  /** The byte the image has at an address. */
  function ImageByte(l: Loader, x: nat): byte
    requires l.Valid()
  {
    if x < MEMORY && l.mask[x] then l.image[x] else 0xFF
  }

  /** ihex_get_data: a block that reaches the end of the image comes out blank. */
  function GetData(l: Loader, addr: nat, len: nat): (r: seq<byte>)
    requires l.Valid()
    ensures |r| == len
  {
    if addr + len >= MEMORY then Blank(len) else seq<byte>(len, i requires 0 <= i < len => ImageByte(l, addr + i))
  }

  predicate Sends(l: Loader, part: Part, addr: nat)
    requires l.Valid()
  {
    addr == 0 || Within(l.mask, addr, addr + part.block - 1)
  }

  function Lo(part: Part, addr: nat): byte {
    if part.code < 0x1_0000 then addr % 0x100 else addr / 0x100 % 0x100
  }

  function Hi(part: Part, addr: nat): byte {
    if part.code < 0x1_0000 then addr / 0x100 % 0x100 else addr / 0x1_0000 % 0x100
  }

  function BlockReport(l: Loader, part: Part, addr: nat): seq<byte>
    requires l.Valid()
  {
    [Lo(part, addr), Hi(part, addr)] + GetData(l, addr, part.block)
  }

  /** The block loop of the host, run against the device from block `addr` on. */
  function Program(d: Device, l: Loader, part: Part, addr: nat): (r: Option<Device>)
    requires d.flash.Valid() && l.Valid() && part.block > 0
    ensures r.Some? ==> r.value.flash.Valid() && r.value.flash.SameShape(d.flash)
    decreases part.code - addr
  {
    if addr >= part.code then Some(d)
    else if !Sends(l, part, addr) then Program(d, l, part, addr + part.block)
    else
      var h := HandleReport(d, Packets(BlockReport(l, part, addr), ENDPOINT_SIZE), part.Large());
      if h.None? then None else Program(h.value, l, part, addr + part.block)
  }

  /** Where the device puts the block for `addr`: not where it belongs on a part of exactly 64 KB. */
  function Destination(part: Part, addr: nat): nat {
    if part.code == 0x1_0000 then addr / 0x100 else addr
  }

  lemma AddressArrives(part: Part, addr: nat)
    requires part.Known() && addr < part.code && Aligned(addr, part.block)
    ensures Word(Lo(part, addr), Hi(part, addr)) != START_APPLICATION
    ensures PageAddress(Word(Lo(part, addr), Hi(part, addr)), part.Large()) == Destination(part, addr)
  {
    if part.block == 256 { MultipleOf256(addr); }
    hide PageBase;
  }

  lemma {:induction false} MultipleOf256(addr: nat)
    requires Aligned(addr, 256)
    ensures addr % 256 == 0
  {
    if addr >= 256 { MultipleOf256(addr - 256); }
  }

  /** The device fits the part. */
  predicate Fits(d: Device, part: Part) {
    && part.Known()
    && d.flash.Valid() && |d.flash.cells| == part.code && |d.flash.buffer| == part.block
  }

  /** One block that is sent. */
  lemma BlockSent(d: Device, l: Loader, part: Part, addr: nat)
    requires Fits(d, part) && l.Valid() && addr < part.code && Aligned(addr, part.block)
    ensures HandleReport(d, Packets(BlockReport(l, part, addr), ENDPOINT_SIZE), part.Large()) ==
      Some(d.(flash := Written(d.flash, Destination(part, addr), GetData(l, addr, part.block))))
  {
    hide PageBase, HandleReport, Packets, GetData, Written;
    AddressArrives(part, addr);
    ReportHandled(d, Lo(part, addr), Hi(part, addr), GetData(l, addr, part.block), part.Large());
  }

  // ----- what the flash ends up with

  /** A cell after the block loop has run from block `addr` on, when blocks arrive where they belong. */
  function CellAfter(cell: byte, l: Loader, part: Part, addr: nat, x: nat): byte
    requires l.Valid() && part.block > 0
  {
    var page := PageBase(x, part.block);
    if page >= addr && Sends(l, part, page) then GetData(l, page, part.block)[x - page] else cell
  }

  lemma PageSent(m: Memory, addr: nat, data: seq<byte>, x: nat)
    requires m.Valid() && m.BufferBlank() && Aligned(addr, |m.buffer|) && addr % 2 == 0 && |data| == |m.buffer|
    requires x < |m.cells|
    ensures Written(m, addr, data).cells[x] == if addr <= x < addr + |data| then data[x - addr] else m.cells[x]
    ensures Written(m, addr, data).BufferBlank()
  {
    if addr <= x < addr + |data| {
      WrittenPage(m, addr, data);
    } else {
      WrittenElsewhere(m, addr, data, x);
    }
    hide FillWords, PageBase;
  }

  lemma {:induction false} BlocksLand(d: Device, l: Loader, part: Part, addr: nat, x: nat)
    requires Fits(d, part) && d.flash.BufferBlank() && l.Valid() && part.code != 0x1_0000
    requires Aligned(addr, part.block) && x < part.code
    ensures var r := Program(d, l, part, addr);
      && r.Some? && r.value.running == d.running && r.value.flash.BufferBlank()
      && r.value.flash.cells[x] == CellAfter(d.flash.cells[x], l, part, addr, x)
    decreases part.code - addr
  {
    hide PageBase, HandleReport, Packets, GetData, Written, Within, Memory.Valid, Memory.BufferBlank, Lo, Hi;
    var page := PageBase(x, part.block);
    BaseIsAligned(x, part.block);
    if addr < part.code {
      NextAligned(addr, part.block);
      if page > addr { AlignedApart(addr, page, part.block); }
      if Sends(l, part, addr) {
        var h := d.(flash := Written(d.flash, addr, GetData(l, addr, part.block)));
        BlockSent(d, l, part, addr);
        EvenBase(addr, part.block);
        PageSent(d.flash, addr, GetData(l, addr, part.block), x);
        BlocksLand(h, l, part, addr + part.block, x);
        if addr <= x < addr + part.block { AlignedIsBase(x, addr, part.block); }
      } else {
        BlocksLand(d, l, part, addr + part.block, x);
      }
    }
  }

  /** What the flash should hold: the image in every page that is sent, and elsewhere what it held. */
  function Wanted(l: Loader, part: Part, cell: byte, x: nat): byte
    requires l.Valid() && part.block > 0
  {
    if Sends(l, part, PageBase(x, part.block)) then ImageByte(l, x) else cell
  }

  /** Programming works for this image on this part, whatever the flash held before. */
  ghost predicate Delivers(d: Device, l: Loader, part: Part)
    requires Fits(d, part) && l.Valid()
  {
    forall cells: seq<byte> :: |cells| == part.code ==> Right(d.(flash := d.flash.(cells := cells)), l, part)
  }

  predicate Right(d: Device, l: Loader, part: Part)
    requires Fits(d, part) && l.Valid()
  {
    var r := Program(d, l, part, 0);
    && r.Some? && r.value.running == d.running && r.value.flash.BufferBlank()
    && forall x :: 0 <= x < part.code ==> r.value.flash.cells[x] == Wanted(l, part, d.flash.cells[x], x)
  }

  /** The images that can be programmed: all on parts below 64 KB, and few others. */
  predicate Deliverable(l: Loader, part: Part)
    requires l.Valid()
  {
    if part.code < 0x1_0000 then true
    else if part.code == 0x1_0000 then forall x :: 0x100 <= x < MEMORY ==> !l.mask[x]
    else forall x :: 0xFF00 <= x < MEMORY ==> ImageByte(l, x) == 0xFF
  }

  /** A block is sent as the image has it, unless it is the last one of the 64 KB image. */
  lemma DataSent(l: Loader, part: Part, x: nat)
    requires l.Valid() && part.Known() && x < part.code && Sends(l, part, PageBase(x, part.block))
    ensures var page := PageBase(x, part.block);
      GetData(l, page, part.block)[x - page] == if page + part.block >= MEMORY then 0xFF else ImageByte(l, x)
    ensures var page := PageBase(x, part.block);
      page + part.block <= MEMORY && (page + part.block == MEMORY ==> 0xFF00 <= page)
  {
    hide PageBase;
  }

  lemma BlocksRight(d: Device, l: Loader, part: Part)
    requires Fits(d, part) && d.flash.BufferBlank() && l.Valid() && part.code != 0x1_0000 && Deliverable(l, part)
    ensures Right(d, l, part)
  {
    hide PageBase, Program, GetData, Sends;
    NextAligned(0, part.block);
    forall x | 0 <= x < part.code
      ensures var r := Program(d, l, part, 0);
        r.Some? && r.value.running == d.running && r.value.flash.BufferBlank() &&
        r.value.flash.cells[x] == Wanted(l, part, d.flash.cells[x], x)
    {
      BlocksLand(d, l, part, 0, x);
      BaseIsAligned(x, part.block);
      if Sends(l, part, PageBase(x, part.block)) { DataSent(l, part, x); }
    }
    BlocksLand(d, l, part, 0, 0);
  }

  /** On a 128 KB part the last block of the image is always written blank. */
  lemma LastBlockBlank(d: Device, l: Loader, part: Part, x: nat)
    requires Fits(d, part) && d.flash.BufferBlank() && l.Valid() && part.code == 0x2_0000
    requires 0xFF00 <= x < MEMORY && ImageByte(l, x) != 0xFF
    ensures !Right(d, l, part)
  {
    PageOfLast(x);
    hide PageBase, Program, GetData;
    NextAligned(0, part.block);
    BlocksLand(d, l, part, 0, x);
    assert Sends(l, part, 0xFF00);
    DataSent(l, part, x);
  }

  lemma PageOfLast(x: nat)
    requires 0xFF00 <= x < MEMORY
    ensures PageBase(x, 256) == 0xFF00
  {
    assert MEMORY == 255 * 256 + 256;
    TimesAligned(255, 256);
    AlignedIsBase(x, 0xFF00, 256);
  }

  lemma {:induction false} TimesAligned(k: nat, page: nat)
    requires page > 0
    ensures Aligned(k * page, page)
  {
    if k > 0 {
      TimesAligned(k - 1, page);
      NextAligned((k - 1) * page, page);
      assert k * page == (k - 1) * page + page;
    }
  }

  /** On a 64 KB part nothing but the first page is ever written. */
  lemma {:induction false} OnlyFirstPage(d: Device, l: Loader, part: Part, addr: nat, x: nat)
    requires Fits(d, part) && l.Valid() && part.code == 0x1_0000 && Aligned(addr, part.block)
    requires part.block <= x < part.code
    ensures Program(d, l, part, addr).Some? ==> Program(d, l, part, addr).value.flash.cells[x] == d.flash.cells[x]
    decreases part.code - addr
  {
    hide HandleReport, Packets, GetData, Written, Within;
    if addr < part.code {
      NextAligned(addr, part.block);
      if Sends(l, part, addr) {
        BlockSent(d, l, part, addr);
        var h := d.(flash := Written(d.flash, Destination(part, addr), GetData(l, addr, part.block)));
        assert Destination(part, addr) < part.block && PageBase(Destination(part, addr), part.block) == 0;
        WrittenElsewhere(d.flash, Destination(part, addr), GetData(l, addr, part.block), x);
        OnlyFirstPage(h, l, part, addr + part.block, x);
      } else {
        OnlyFirstPage(d, l, part, addr + part.block, x);
      }
    }
  }

  lemma {:induction false} NothingMore(d: Device, l: Loader, part: Part, addr: nat)
    requires Fits(d, part) && l.Valid() && part.code == 0x1_0000 && Deliverable(l, part) && addr >= part.block
    ensures Program(d, l, part, addr) == Some(d)
    decreases part.code - addr
  {
    hide PageBase, HandleReport, Packets;
    if addr < part.code {
      assert !Sends(l, part, addr);
      NothingMore(d, l, part, addr + part.block);
    }
  }

  lemma FirstPageRight(d: Device, l: Loader, part: Part)
    requires Fits(d, part) && d.flash.BufferBlank() && l.Valid() && part.code == 0x1_0000 && Deliverable(l, part)
    ensures Right(d, l, part)
  {
    hide PageBase, HandleReport, Packets, GetData, Written;
    NextAligned(0, part.block);
    BlockSent(d, l, part, 0);
    var data := GetData(l, 0, part.block);
    var h := d.(flash := Written(d.flash, 0, data));
    NothingMore(h, l, part, part.block);
    assert Program(d, l, part, 0) == Some(h);
    forall x | 0 <= x < part.code
      ensures h.flash.cells[x] == Wanted(l, part, d.flash.cells[x], x) && h.flash.BufferBlank()
    {
      PageSent(d.flash, 0, data, x);
      BaseIsAligned(x, part.block);
      if x < part.block {
        AlignedIsBase(x, 0, part.block);
        DataSent(l, part, x);
      } else {
        AlignedApart(0, PageBase(x, part.block), part.block);
        assert !Sends(l, part, PageBase(x, part.block));
      }
    }
    PageSent(d.flash, 0, data, 0);
  }

  lemma FirstPageWrong(d: Device, l: Loader, part: Part, x: nat)
    requires Fits(d, part) && d.flash.BufferBlank() && l.Valid() && part.code == 0x1_0000
    requires 0x100 <= x < MEMORY && l.mask[x]
    ensures !Right(d.(flash := d.flash.(cells := seq<byte>(part.code, _ => 0xFF - ImageByte(l, x)))), l, part)
  {
    hide PageBase, Program, GetData;
    var e := d.(flash := d.flash.(cells := seq<byte>(part.code, _ => 0xFF - ImageByte(l, x))));
    NextAligned(0, part.block);
    OnlyFirstPage(e, l, part, 0, x);
    var page := PageBase(x, part.block);
    BaseIsAligned(x, part.block);
    if page + part.block > MEMORY {
      TimesAligned(256, 256);
      AlignedApart(page, MEMORY, part.block);
    }
    assert Sends(l, part, page);
    assert Wanted(l, part, e.flash.cells[x], x) == ImageByte(l, x) != 0xFF - ImageByte(l, x);
  }

  /** Exactly the `Deliverable` images are programmed correctly, on every part the host knows. */
  lemma DeliversExactly(d: Device, l: Loader, part: Part)
    requires Fits(d, part) && d.flash.BufferBlank() && l.Valid()
    ensures Delivers(d, l, part) <==> Deliverable(l, part)
  {
    hide PageBase, Program, Right;
    if Deliverable(l, part) {
      forall cells: seq<byte> | |cells| == part.code
        ensures Right(d.(flash := d.flash.(cells := cells)), l, part)
      {
        var e := d.(flash := d.flash.(cells := cells));
        if part.code == 0x1_0000 { FirstPageRight(e, l, part); } else { BlocksRight(e, l, part); }
      }
    } else if part.code == 0x1_0000 {
      var x :| 0x100 <= x < MEMORY && l.mask[x];
      FirstPageWrong(d, l, part, x);
    } else {
      var x :| 0xFF00 <= x < MEMORY && ImageByte(l, x) != 0xFF;
      LastBlockBlank(d, l, part, x);
      assert d.(flash := d.flash.(cells := d.flash.cells)) == d;
    }
  }

  // ----- from text to flash

  /** An erased part below 64 KB ends up with exactly the image of the file that was read. */
  lemma HexToFlash(text: string, d: Device, part: Part)
    requires Fits(d, part) && d.flash.BufferBlank() && part.code < 0x1_0000
    requires d.flash.cells == Blank(part.code) && d.running
    requires Read(Empty(), text).Loaded?
    ensures var l := Read(Empty(), text).loader;
      var r := Program(d, l, part, 0);
      && r.Some? && r.value.running
      && r.value.flash.cells == l.image[..part.code]
  {
    hide PageBase, Program, Read, Records;
    ReadExact(text);
    var l := Read(Empty(), text).loader;
    BlocksRight(d, l, part);
    var cells := Program(d, l, part, 0).value.flash.cells;
    forall x | 0 <= x < part.code
      ensures cells[x] == l.image[x]
    {
      var page := PageBase(x, part.block);
      if !Sends(l, part, page) {
        UnsentUnmasked(l, part, x);
      }
      assert !l.mask[x] ==> l.image[x] == 0xFF;
    }
  }

  lemma UnsentUnmasked(l: Loader, part: Part, x: nat)
    requires l.Valid() && part.Known() && part.code < 0x1_0000 && x < part.code
    requires !Sends(l, part, PageBase(x, part.block))
    ensures !l.mask[x]
  {
    hide PageBase;
  }

  /** The report that starts the application stops the boot loader and leaves the flash alone. */
  lemma StartReport(d: Device, data: seq<byte>, large: bool)
    requires d.flash.Valid() && |data| > 6
    ensures HandleReport(d, Packets([0xFF, 0xFF] + data, ENDPOINT_SIZE), large) == Some(d.(running := false))
  {
    var report := [0xFF, 0xFF] + data;
    var packets := Packets(report, ENDPOINT_SIZE);
    assert packets[0] == report[..ENDPOINT_SIZE];
    hide FillPage, Packets;
  }
}
