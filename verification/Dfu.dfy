/**
 The DFU class boot loader: its variables, the function that specifies each routine, and
 the routines themselves as methods that update the variables in place.
 */
module Dfu {
  import opened Bytes
  import opened ChipErase
  import opened Flash
  import opened Endpoint
  import opened PageWriting

  const ENDPOINT_SIZE: nat := 32
  const FILLER_SIZE: nat := 26
  const SUFFIX_SIZE: nat := 16

  const COMMAND_PROG_START: byte := 0x01
  const COMMAND_DISP_DATA: byte := 0x03
  const COMMAND_WRITE: byte := 0x04
  const COMMAND_READ: byte := 0x05
  const COMMAND_CHANGE_BASE_ADDR: byte := 0x06

  const BOOTLOADER_INFO: seq<byte> := [0x20, 0xDC, 0xFB]

  /** The states the boot loader ever enters, and the status codes it ever reports. */
  datatype State = DfuIdle | DnloadIdle | UploadIdle | DfuError {
    function Code(): byte {
      match this
      case DfuIdle => 2
      case DnloadIdle => 5
      case UploadIdle => 9
      case DfuError => 10
    }
  }

  datatype Status = Ok | ErrWrite | ErrCheckErased {
    function Code(): byte {
      match this
      case Ok => 0
      case ErrWrite => 3
      case ErrCheckErased => 5
    }
  }

  datatype Command = Command(code: byte, data: seq<byte>, dataSize: word16)

  /** The boot loader's static variables together with the memories it works on. */
  datatype Device = Device(
    isSecure: bool, runBootloader: bool, waitForExit: bool,
    state: State, status: Status, sent: Command, responseByte: byte,
    flash64KBPage: byte, startAddr: word16, endAddr: word16,
    appStart: word16, magicBootKey: bool,
    flash: Memory, eeprom: seq<byte>, bootStart: nat, signature: seq<byte>)
  {
    predicate Valid() {
      && flash.Valid()
      && |sent.data| == 5
      && |signature| == 3
      && 0 < bootStart <= |flash.cells|
      && Aligned(bootStart, |flash.buffer|)
    }

    predicate OneByte(b: byte)
      requires |sent.data| == 5
    {
      sent.data[0] == b
    }

    predicate TwoByte(b: byte, c: byte)
      requires |sent.data| == 5
    {
      sent.data[0] == b && sent.data[1] == c
    }

    /** CurrFlashAddress.Long: the 64 KB page number above the 16-bit start address. */
    function FlashAddress(): nat {
      flash64KBPage * 0x1_0000 + startAddr
    }

    /** BytesRemaining, computed in 16 bits. */
    function RangeSize(): word16 {
      Wrap16(endAddr - startAddr + 1)
    }
  }

  const REQ_DNLOAD: byte := 0x01
  const REQ_UPLOAD: byte := 0x02
  const REQ_GETSTATUS: byte := 0x03
  const REQ_CLRSTATUS: byte := 0x04
  const REQ_GETSTATE: byte := 0x05
  const REQ_ABORT: byte := 0x06

  /**
   A class request to the interface: bRequest, wLength and, for a download, its data packets.
   `stray` is the byte found where a read command indexes past the end of its table.
   */
  datatype Request = Request(code: byte, length: word16, packets: seq<seq<byte>>, stray: byte)

  // ----- DiscardFillerBytes

  function Discard(ep: Out, n: nat): Out
    decreases n, ep
  {
    if n == 0 then ep
    else if ep.bank != [] then Discard(ep.Tail(), n - 1)
    else if ep.pending == [] then ep
    else Discard(ep.Next(), n - 1)
  }

  // ----- the data phase of a programming download

  datatype Programmed = Programmed(flash: Memory, ep: Out, complete: bool)

  /**
   The word loop: `addr` is the next word's address, `pageStart` where the current page
   began, `inPage` how many of its words are in the buffer, `words` how many are to come.
   */
  function ProgramWords(flash: Memory, ep: Out, addr: nat, pageStart: nat, inPage: nat, words: nat): (r: Programmed)
    requires flash.Valid()
    ensures r.flash.Valid() && r.flash.SameShape(flash)
    decreases words
  {
    if words == 0 then Programmed(flash, ep, true)
    else if ep.bank == [] && ep.pending == [] then Programmed(flash, ep, false)
    else
      var e := if ep.bank == [] then ep.Next() else ep;
      var filled := flash.Fill(addr, e.Head(), e.Tail().Head());
      var rest := e.Tail().Tail();
      if inPage + 1 == |flash.buffer| / 2 || words == 1 then
        var written := filled.Write(pageStart);
        if words == 1 then Programmed(written, rest, true)
        else ProgramWords(written.Erase(addr + 2), rest, addr + 2, addr + 2, 0, words - 1)
      else
        ProgramWords(filled, rest, addr + 2, pageStart, inPage + 1, words - 1)
  }

  datatype Stored = Stored(eeprom: seq<byte>, ep: Out, addr: word16, complete: bool)

  function StoreBytes(eeprom: seq<byte>, ep: Out, addr: word16, bytes: nat): (r: Stored)
    ensures |r.eeprom| == |eeprom|
    decreases bytes
  {
    if bytes == 0 then Stored(eeprom, ep, addr, true)
    else if ep.bank == [] && ep.pending == [] then Stored(eeprom, ep, addr, false)
    else
      var e := if ep.bank == [] then ep.Next() else ep;
      StoreBytes(EepromWrite(eeprom, addr, e.Head()), e.Tail(), Wrap16(addr + 1), bytes - 1)
  }

  /** What a download does to memory once the command has put the device in dfuDNLOAD_IDLE. */
  function ReceiveData(d: Device, ep: Out): (r: Device)
    requires d.Valid()
    ensures r.Valid() && r.bootStart == d.bootStart && r.isSecure == d.isSecure
  {
    var e := Discard(Discard(ep, FILLER_SIZE), d.startAddr % ENDPOINT_SIZE);
    if d.OneByte(0x00) then
      var p := ProgramWords(d.flash, e, d.FlashAddress(), d.FlashAddress(), 0, d.RangeSize() / 2);
      if p.complete then d.(flash := p.flash, startAddr := d.endAddr) else d.(flash := p.flash)
    else
      var s := StoreBytes(d.eeprom, e, d.startAddr, d.RangeSize());
      d.(eeprom := s.eeprom, startAddr := s.addr)
  }

  // ----- command processing

  function LoadAddresses(d: Device): (r: Device)
    requires d.Valid()
    ensures r.Valid() && r.bootStart == d.bootStart && r.sent == d.sent
  {
    var a := d.sent.data;
    d.(startAddr := Word(a[2], a[1]), endAddr := Word(a[4], a[3]))
  }

  function MemProg(d: Device): (r: Device)
    requires d.Valid()
    ensures r.Valid() && r.bootStart == d.bootStart && r.sent == d.sent
  {
    if d.OneByte(0x00) then
      var l := LoadAddresses(d);
      l.(flash := l.flash.Erase(l.FlashAddress()), state := DnloadIdle)
    else if d.OneByte(0x01) then LoadAddresses(d).(state := DnloadIdle)
    else d
  }

  /** The least address from `from` on, below `limit`, that does not hold 0xFF; `limit` if there is none. */
  function FirstNonBlank(cells: seq<byte>, from: nat, limit: nat): (addr: nat)
    requires from <= limit <= |cells|
    ensures from <= addr <= limit
    ensures forall i :: from <= i < addr ==> cells[i] == 0xFF
    ensures addr < limit ==> cells[addr] != 0xFF
    decreases limit - from
  {
    if from == limit || cells[from] != 0xFF then from else FirstNonBlank(cells, from + 1, limit)
  }

  function MemRead(d: Device): (r: Device)
    requires d.Valid()
    ensures r.Valid() && r.bootStart == d.bootStart && r.sent == d.sent
  {
    if d.OneByte(0x00) || d.OneByte(0x02) then LoadAddresses(d).(state := UploadIdle)
    else if d.OneByte(0x01) then
      var a := FirstNonBlank(d.flash.cells, 0, d.bootStart);
      if a < d.bootStart then
        d.(flash64KBPage := a / 0x1_0000 % 0x100, startAddr := a % 0x1_0000, state := DfuError,
          status := ErrCheckErased)
      else d
    else d
  }

  function MemWrite(d: Device): (r: Device)
    requires d.Valid()
    ensures r.Valid() && r.bootStart == d.bootStart && r.sent == d.sent
  {
    var a := d.sent.data;
    if d.OneByte(0x03) then
      var w := d.(waitForExit := true);
      if d.sent.dataSize != 0 then
        if a[1] == 0x01 then w.(appStart := Word(a[4], a[3])) else w
      else if a[1] == 0x00 then w.(magicBootKey := true)
      else w.(runBootloader := false)
    else if d.TwoByte(0x00, 0xFF) then
      d.(flash := EraseFrom(d.flash, 0, d.bootStart), isSecure := false)
    else d
  }

  function TableByte(table: seq<byte>, i: int, stray: byte): byte {
    if 0 <= i < |table| then table[i] else stray
  }

  function MemInfo(d: Device, stray: byte): (r: Device)
    requires d.Valid()
    ensures r.Valid() && r.bootStart == d.bootStart && r.sent == d.sent
  {
    var i: int := d.sent.data[1];
    if d.OneByte(0x00) then d.(responseByte := TableByte(BOOTLOADER_INFO, i, stray))
    else if d.OneByte(0x01) then d.(responseByte := TableByte(d.signature, i - 0x30, stray))
    else d
  }

  /** The commands secure mode lets through: the chip erase and the information reads. */
  predicate Permitted(d: Device)
    requires d.Valid()
  {
    (d.sent.code == COMMAND_WRITE && d.TwoByte(0x00, 0xFF)) || d.sent.code == COMMAND_READ
  }

  function Process(d: Device, stray: byte): (r: Device)
    requires d.Valid()
    ensures r.Valid() && r.bootStart == d.bootStart && r.sent == d.sent && (r.isSecure ==> d.isSecure)
  {
    if d.isSecure && !Permitted(d) then d.(state := DfuError, status := ErrWrite)
    else if d.sent.code == COMMAND_PROG_START then MemProg(d)
    else if d.sent.code == COMMAND_DISP_DATA then MemRead(d)
    else if d.sent.code == COMMAND_WRITE then MemWrite(d)
    else if d.sent.code == COMMAND_READ then MemInfo(d, stray)
    else if d.sent.code == COMMAND_CHANGE_BASE_ADDR && d.TwoByte(0x03, 0x00) then
      d.(flash64KBPage := d.sent.data[2])
    else d
  }

  // ----- requests

  function Reset(secure: bool, flash: Memory, eeprom: seq<byte>, bootStart: nat, signature: seq<byte>): Device {
    Device(secure, true, false, DfuIdle, Ok, Command(0, [0, 0, 0, 0, 0], 0), 0, 0, 0, 0, 0, false,
           flash, eeprom, bootStart, signature)
  }

  datatype Loaded = Loaded(sent: Command, ep: Out)

  /** The parameter loop: at most five bytes, and only what the first packet holds. */
  function LoadParameters(c: Command, ep: Out, i: nat): (r: Loaded)
    requires |c.data| == 5 && i <= 5
    ensures |r.sent.data| == 5
    decreases 5 - i
  {
    if i == 5 || ep.bank == [] then Loaded(c, ep)
    else
      LoadParameters(
        c.(data := c.data[i := ep.Head()], dataSize := Wrap16(c.dataSize - 1)), ep.Tail(), i + 1)
  }

  function LoadCommand(c: Command, ep: Out): (r: Loaded)
    requires |c.data| == 5
    ensures |r.sent.data| == 5
  {
    LoadParameters(c.(code := ep.Head(), dataSize := Wrap16(c.dataSize - 1)), ep.Tail(), 0)
  }

  function FinishDownload(d: Device, ep: Out): (r: Device)
    requires d.Valid()
    ensures r.Valid() && r.bootStart == d.bootStart && r.isSecure == d.isSecure
  {
    if d.state != DnloadIdle then d
    else if d.sent.dataSize == 0 then d.(state := DfuIdle)
    else ReceiveData(d, ep)
  }

  /** `d.sent.dataSize` already holds the request's wLength. */
  function HandleDownload(d: Device, request: Request): (r: Device)
    requires d.Valid()
    ensures r.Valid() && r.bootStart == d.bootStart
  {
    var e := if d.waitForExit then Process(d, request.stray).(waitForExit := false) else d;
    if e.sent.dataSize == 0 then FinishDownload(e, Out([], request.packets))
    else if request.packets == [] then e
    else
      var l := LoadCommand(e.sent, Out([], request.packets).Next());
      FinishDownload(Process(e.(sent := l.sent), request.stray), l.ep)
  }

  function SendWords(flash: Memory, ep: In, addr: nat, words: nat): In
    decreases words
  {
    if words == 0 then ep
    else SendWords(flash, ep.Ready(ENDPOINT_SIZE).Put([flash.Read(addr), flash.Read(addr + 1)]), addr + 2, words - 1)
  }

  function SendBytes(eeprom: seq<byte>, ep: In, addr: word16, bytes: nat): In
    decreases bytes
  {
    if bytes == 0 then ep
    else SendBytes(eeprom, ep.Ready(ENDPOINT_SIZE).Put([EepromRead(eeprom, addr)]), Wrap16(addr + 1), bytes - 1)
  }

  datatype Reply = Reply(device: Device, packets: seq<seq<byte>>)

  function HandleUpload(d: Device): (r: Reply)
    requires d.Valid()
    ensures r.device.Valid() && r.device.bootStart == d.bootStart && r.device.isSecure == d.isSecure
  {
    var ep := In([], []);
    if d.state != UploadIdle then
      if d.state == DfuError && d.OneByte(0x01) then
        Reply(d, ep.Put([d.startAddr % 0x100, d.startAddr / 0x100]).Clear().sent)
      else Reply(d, ep.Put([d.responseByte]).Clear().sent)
    else if d.OneByte(0x00) then
      Reply(d.(startAddr := d.endAddr, state := DfuIdle),
            SendWords(d.flash, ep, d.FlashAddress(), d.RangeSize() / 2).Clear().sent)
    else if d.OneByte(0x02) then
      Reply(d.(startAddr := Wrap16(d.endAddr + 1), state := DfuIdle),
            SendBytes(d.eeprom, ep, d.startAddr, d.RangeSize()).Clear().sent)
    else Reply(d.(state := DfuIdle), ep.Clear().sent)
  }

  /** EVENT_USB_Device_ControlRequest: the next state and the packets sent back. */
  function Handle(d: Device, request: Request): (r: Reply)
    requires d.Valid()
    ensures r.device.Valid() && r.device.bootStart == d.bootStart
  {
    var c := d.(sent := d.sent.(dataSize := request.length));
    if request.code == REQ_DNLOAD then Reply(HandleDownload(c, request), [])
    else if request.code == REQ_UPLOAD then HandleUpload(c)
    else if request.code == REQ_GETSTATUS then Reply(c, [[d.status.Code(), 0, 0, 0, d.state.Code(), 0]])
    else if request.code == REQ_CLRSTATUS then Reply(c.(status := Ok), [])
    else if request.code == REQ_GETSTATE then Reply(c, [[d.state.Code()]])
    else if request.code == REQ_ABORT then Reply(c.(state := DfuIdle), [])
    else Reply(c, [])
  }

  // ----- the routines

  class Bootloader {
    var isSecure: bool
    var runBootloader: bool
    var waitForExit: bool
    var state: State
    var status: Status
    var sent: Command
    var responseByte: byte
    var flash64KBPage: byte
    var startAddr: word16
    var endAddr: word16
    var appStart: word16
    var magicBootKey: bool
    var flash: Memory
    var eeprom: seq<byte>
    var bootStart: nat
    var signature: seq<byte>
    var outEp: Out
    var inEp: In

    function View(): Device
      reads this
    {
      Device(isSecure, runBootloader, waitForExit, state, status, sent, responseByte, flash64KBPage,
             startAddr, endAddr, appStart, magicBootKey, flash, eeprom, bootStart, signature)
    }

    /** The variables as the C start-up code leaves them; `secure` is SECURE_MODE. */
    constructor (secure: bool, flash: Memory, eeprom: seq<byte>, bootStart: nat, signature: seq<byte>)
      ensures View() == Reset(secure, flash, eeprom, bootStart, signature)
    {
      isSecure, runBootloader, waitForExit := secure, true, false;
      state, status := DfuIdle, Ok;
      sent := Command(0, [0, 0, 0, 0, 0], 0);
      responseByte, flash64KBPage, startAddr, endAddr := 0, 0, 0, 0;
      appStart, magicBootKey := 0, false;
      this.flash, this.eeprom, this.bootStart, this.signature := flash, eeprom, bootStart, signature;
      outEp, inEp := Out([], []), In([], []);
    }

    method DiscardFillerBytes(count: byte)
      modifies this`outEp
      ensures outEp == Discard(old(outEp), count)
    {
      var n: nat := count;
      while n != 0
        invariant Discard(outEp, n) == Discard(old(outEp), count)
      {
        n := n - 1;
        if outEp.bank == [] {
          if outEp.pending == [] { return; }
          outEp := outEp.Next();
        } else {
          outEp := outEp.Tail();
        }
      }
    }

    method LoadStartEndAddresses()
      requires View().Valid()
      modifies this`startAddr, this`endAddr
      ensures View() == LoadAddresses(old(View()))
    {
      startAddr := Word(sent.data[2], sent.data[1]);
      endAddr := Word(sent.data[4], sent.data[3]);
    }

    method ProcessMemProgCommand()
      requires View().Valid()
      modifies this`startAddr, this`endAddr, this`flash, this`state
      ensures View() == MemProg(old(View()))
    {
      hide PageBase;
      if sent.data[0] == 0x00 || sent.data[0] == 0x01 {
        LoadStartEndAddresses();
        if sent.data[0] == 0x00 {
          flash := flash.Erase(flash64KBPage * 0x1_0000 + startAddr);
        }
        state := DnloadIdle;
      }
    }

    method ProcessMemReadCommand()
      requires View().Valid()
      modifies this`startAddr, this`endAddr, this`flash64KBPage, this`state, this`status
      ensures View() == MemRead(old(View()))
    {
      hide PageBase;
      if sent.data[0] == 0x00 || sent.data[0] == 0x02 {
        LoadStartEndAddresses();
        state := UploadIdle;
      } else if sent.data[0] == 0x01 {
        var addr := 0;
        while addr < bootStart
          invariant addr <= bootStart
          invariant FirstNonBlank(flash.cells, addr, bootStart) == FirstNonBlank(flash.cells, 0, bootStart)
          invariant View() == old(View())
        {
          if flash.Read(addr) != 0xFF {
            flash64KBPage := addr / 0x1_0000 % 0x100;
            startAddr := addr % 0x1_0000;
            state := DfuError;
            status := ErrCheckErased;
            break;
          }
          addr := addr + 1;
        }
      }
    }

    method EraseApplication()
      requires View().Valid()
      modifies this`flash
      ensures flash == EraseFrom(old(flash), 0, bootStart)
    {
      hide PageBase, Memory.Erase, Memory.Write;
      var addr := 0;
      while addr < bootStart
        invariant flash.Valid() && EraseFrom(flash, addr, bootStart) == EraseFrom(old(flash), 0, bootStart)
      {
        flash := flash.Erase(addr);
        flash := flash.Write(addr);
        addr := addr + |flash.buffer|;
      }
    }

    method ProcessWriteCommand()
      requires View().Valid()
      modifies this`waitForExit, this`appStart, this`magicBootKey, this`runBootloader, this`flash, this`isSecure
      ensures View() == MemWrite(old(View()))
    {
      hide EraseFrom, PageBase;
      if sent.data[0] == 0x03 {
        waitForExit := true;
        if sent.dataSize != 0 {
          if sent.data[1] == 0x01 {
            appStart := Word(sent.data[4], sent.data[3]);
          }
        } else if sent.data[1] == 0x00 {
          magicBootKey := true;
        } else {
          runBootloader := false;
        }
      } else if sent.data[0] == 0x00 && sent.data[1] == 0xFF {
        EraseApplication();
        isSecure := false;
      }
    }

    method ProcessReadCommand(stray: byte)
      requires View().Valid()
      modifies this`responseByte
      ensures View() == MemInfo(old(View()), stray)
    {
      var i: int := sent.data[1];
      if sent.data[0] == 0x00 {
        responseByte := TableByte(BOOTLOADER_INFO, i, stray);
      } else if sent.data[0] == 0x01 {
        responseByte := TableByte(signature, i - 0x30, stray);
      }
    }

    method ProcessBootloaderCommand(stray: byte)
      requires View().Valid()
      modifies this
      ensures View() == Process(old(View()), stray) && outEp == old(outEp) && inEp == old(inEp)
    {
      hide MemProg, MemRead, MemWrite, MemInfo, PageBase;
      if isSecure {
        var erase := sent.code == COMMAND_WRITE && sent.data[0] == 0x00 && sent.data[1] == 0xFF;
        if !(erase || sent.code == COMMAND_READ) {
          state := DfuError;
          status := ErrWrite;
          return;
        }
      }
      if sent.code == COMMAND_PROG_START {
        ProcessMemProgCommand();
      } else if sent.code == COMMAND_DISP_DATA {
        ProcessMemReadCommand();
      } else if sent.code == COMMAND_WRITE {
        ProcessWriteCommand();
      } else if sent.code == COMMAND_READ {
        ProcessReadCommand(stray);
      } else if sent.code == COMMAND_CHANGE_BASE_ADDR {
        if sent.data[0] == 0x03 && sent.data[1] == 0x00 {
          flash64KBPage := sent.data[2];
        }
      }
    }

    /** The firmware branch of a download; `attached` is false when the host left in the middle. */
    method WriteFlash() returns (attached: bool)
      requires View().Valid()
      modifies this`flash, this`outEp, this`startAddr
      ensures var p := ProgramWords(old(flash), old(outEp), old(View().FlashAddress()), old(View().FlashAddress()),
                                    0, old(View().RangeSize()) / 2);
        && flash == p.flash && outEp == p.ep && attached == p.complete
        && startAddr == if attached then endAddr else old(startAddr)
    {
      hide Memory.Erase, Memory.Fill, Memory.Write, PageBase;
      var words: nat := Wrap16(endAddr - startAddr + 1) / 2;
      var addr: nat := flash64KBPage * 0x1_0000 + startAddr;
      var pageStart := addr;
      var inPage := 0;
      ghost var goal := ProgramWords(flash, outEp, addr, pageStart, inPage, words);
      while words != 0
        invariant flash.Valid() && startAddr == old(startAddr)
        invariant ProgramWords(flash, outEp, addr, pageStart, inPage, words) == goal
      {
        words := words - 1;
        if outEp.bank == [] {
          if outEp.pending == [] { return false; }
          outEp := outEp.Next();
        }
        flash := flash.Fill(addr, outEp.Head(), outEp.Tail().Head());
        outEp := outEp.Tail().Tail();
        inPage := inPage + 1;
        addr := addr + 2;
        if inPage == |flash.buffer| / 2 || words == 0 {
          flash := flash.Write(pageStart);
          if words != 0 {
            pageStart := addr;
            inPage := 0;
            flash := flash.Erase(addr);
          }
        }
      }
      startAddr := endAddr;
      return true;
    }

    method WriteEeprom() returns (attached: bool)
      modifies this`eeprom, this`outEp, this`startAddr
      ensures var s := StoreBytes(old(eeprom), old(outEp), old(startAddr), old(View().RangeSize()));
        eeprom == s.eeprom && outEp == s.ep && startAddr == s.addr && attached == s.complete
    {
      hide PageBase;
      var bytes: nat := Wrap16(endAddr - startAddr + 1);
      ghost var goal := StoreBytes(eeprom, outEp, startAddr, bytes);
      while bytes != 0
        invariant StoreBytes(eeprom, outEp, startAddr, bytes) == goal
      {
        bytes := bytes - 1;
        if outEp.bank == [] {
          if outEp.pending == [] { return false; }
          outEp := outEp.Next();
        }
        eeprom := EepromWrite(eeprom, startAddr, outEp.Head());
        outEp := outEp.Tail();
        startAddr := Wrap16(startAddr + 1);
      }
      return true;
    }

    /** The data phase: fillers, memory contents, file suffix. */
    method ReceiveFirmware()
      requires View().Valid()
      modifies this`flash, this`eeprom, this`outEp, this`startAddr
      ensures View() == ReceiveData(old(View()), old(outEp))
    {
      hide Discard, ProgramWords, StoreBytes, PageBase;
      DiscardFillerBytes(FILLER_SIZE);
      DiscardFillerBytes(startAddr % ENDPOINT_SIZE);
      var attached;
      if sent.data[0] == 0x00 {
        attached := WriteFlash();
      } else {
        attached := WriteEeprom();
      }
      if !attached { return; }
      DiscardFillerBytes(SUFFIX_SIZE);
    }

    /** The command of a download: its first byte, and as parameters what else the first packet holds. */
    method ReadCommand()
      requires |sent.data| == 5
      modifies this`sent, this`outEp
      ensures Loaded(sent, outEp) == LoadCommand(old(sent), old(outEp))
    {
      sent := sent.(code := outEp.Head(), dataSize := Wrap16(sent.dataSize - 1));
      outEp := outEp.Tail();
      var i := 0;
      while i < 5 && outEp.bank != []
        invariant 0 <= i <= 5 && |sent.data| == 5
        invariant LoadParameters(sent, outEp, i) == LoadCommand(old(sent), old(outEp))
      {
        sent := sent.(data := sent.data[i := outEp.Head()], dataSize := Wrap16(sent.dataSize - 1));
        outEp := outEp.Tail();
        i := i + 1;
      }
    }

    method FinishDownloadRequest()
      requires View().Valid()
      modifies this`flash, this`eeprom, this`outEp, this`startAddr, this`state
      ensures View() == FinishDownload(old(View()), old(outEp))
    {
      hide PageBase;
      if state == DnloadIdle {
        if sent.dataSize == 0 {
          state := DfuIdle;
        } else {
          ReceiveFirmware();
        }
      }
    }

    /** The command of a download, read and carried out. */
    method RunCommand(stray: byte)
      requires View().Valid()
      modifies this
      ensures var l := LoadCommand(old(sent), old(outEp));
        View() == Process(old(View()).(sent := l.sent), stray) && outEp == l.ep
    {
      hide Process, LoadCommand, PageBase;
      ReadCommand();
      ProcessBootloaderCommand(stray);
    }

    method DownloadRequest(request: Request)
      requires View().Valid()
      modifies this
      ensures View() == HandleDownload(old(View()), request)
    {
      hide Process, FinishDownload, LoadCommand, PageBase, Aligned, Memory.Valid;
      outEp := Out([], request.packets);
      if waitForExit {
        ProcessBootloaderCommand(request.stray);
        waitForExit := false;
      }
      if sent.dataSize != 0 {
        if outEp.pending == [] { return; }
        outEp := outEp.Next();
        RunCommand(request.stray);
      }
      FinishDownloadRequest();
    }

    method UploadFlash()
      requires View().Valid()
      modifies this`inEp, this`startAddr
      ensures inEp == SendWords(flash, old(inEp), old(View().FlashAddress()), old(View().RangeSize()) / 2)
      ensures startAddr == endAddr
    {
      hide In.Ready, In.Put, PageBase;
      var words: nat := Wrap16(endAddr - startAddr + 1) / 2;
      var addr: nat := flash64KBPage * 0x1_0000 + startAddr;
      ghost var goal := SendWords(flash, inEp, addr, words);
      while words != 0
        invariant SendWords(flash, inEp, addr, words) == goal
      {
        words := words - 1;
        inEp := inEp.Ready(ENDPOINT_SIZE);
        inEp := inEp.Put([flash.Read(addr), flash.Read(addr + 1)]);
        addr := addr + 2;
      }
      startAddr := endAddr;
    }

    method UploadEeprom()
      requires View().Valid()
      modifies this`inEp, this`startAddr
      ensures inEp == SendBytes(eeprom, old(inEp), old(startAddr), old(View().RangeSize()))
      ensures startAddr == Wrap16(endAddr + 1)
    {
      hide In.Ready, In.Put, PageBase;
      var bytes: nat := Wrap16(endAddr - startAddr + 1);
      ghost var goal := SendBytes(eeprom, inEp, startAddr, bytes);
      while bytes != 0
        invariant SendBytes(eeprom, inEp, startAddr, bytes) == goal
        invariant Wrap16(startAddr + bytes) == Wrap16(endAddr + 1)
      {
        bytes := bytes - 1;
        inEp := inEp.Ready(ENDPOINT_SIZE);
        inEp := inEp.Put([EepromRead(eeprom, startAddr)]);
        startAddr := Wrap16(startAddr + 1);
      }
    }

    method UploadRequest()
      requires View().Valid()
      modifies this
      ensures Reply(View(), inEp.sent) == HandleUpload(old(View()))
    {
      hide SendWords, SendBytes, PageBase, In.Put, In.Clear;
      inEp := In([], []);
      if state != UploadIdle {
        if state == DfuError && sent.data[0] == 0x01 {
          inEp := inEp.Put([startAddr % 0x100, startAddr / 0x100]);
        } else {
          inEp := inEp.Put([responseByte]);
        }
      } else {
        if sent.data[0] == 0x00 {
          UploadFlash();
        } else if sent.data[0] == 0x02 {
          UploadEeprom();
        }
        state := DfuIdle;
      }
      inEp := inEp.Clear();
    }

    /** EVENT_USB_Device_ControlRequest. */
    method ControlRequest(request: Request) returns (reply: seq<seq<byte>>)
      requires View().Valid()
      modifies this
      ensures Reply(View(), reply) == Handle(old(View()), request)
    {
      hide HandleDownload, HandleUpload, PageBase;
      reply := [];
      sent := sent.(dataSize := request.length);
      if request.code == REQ_DNLOAD {
        DownloadRequest(request);
      } else if request.code == REQ_UPLOAD {
        UploadRequest();
        reply := inEp.sent;
      } else if request.code == REQ_GETSTATUS {
        reply := [[status.Code(), 0, 0, 0, state.Code(), 0]];
      } else if request.code == REQ_CLRSTATUS {
        status := Ok;
      } else if request.code == REQ_GETSTATE {
        reply := [[state.Code()]];
      } else if request.code == REQ_ABORT {
        state := DfuIdle;
      }
    }
  }
}
