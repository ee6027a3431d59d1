/**
 The CDC class boot loader: its command loop, block writes and reads of flash and EEPROM with an
 auto-incremented address, and the packets of a response.
 */
module Cdc {
  import opened Bytes
  import opened ChipErase
  import opened Flash
  import opened Endpoint
  import opened PageWriting

  const ENDPOINT_SIZE: nat := 16
  const TYPE_FLASH: byte := 70
  const TYPE_EEPROM: byte := 69

  // The commands are ASCII letters.
  const CMD_EXIT: byte := 69
  const CMD_DEVICE: byte := 84
  const CMD_ENTER: byte := 80
  const CMD_LEAVE: byte := 76
  const CMD_DEVICES: byte := 116
  const CMD_AUTO: byte := 97
  const CMD_ADDRESS: byte := 65
  const CMD_TYPE: byte := 112
  const CMD_IDENTIFIER: byte := 83
  const CMD_VERSION: byte := 86
  const CMD_SIGNATURE: byte := 115
  const CMD_ERASE: byte := 101
  const CMD_LOCK: byte := 108
  const CMD_READ_BITS: seq<byte> := [114, 70, 78, 81]
  const CMD_BLOCK_SIZE: byte := 98
  const CMD_READ: byte := 103
  const CMD_WRITE: byte := 66
  const CMD_HIGH: byte := 67
  const CMD_LOW: byte := 99
  const CMD_COMMIT: byte := 109
  const CMD_READ_WORD: byte := 82
  const CMD_STORE: byte := 68
  const CMD_LOAD: byte := 100
  const ESCAPE: byte := 27
  const YES: byte := 89
  const SERIAL: byte := 83

  const REPLY_OK: byte := 13
  const REPLY_ERROR: byte := 63

  /** What the boot loader tells of itself and of its part: identifier, version and signature in the order sent. */
  datatype Info = Info(identifier: seq<byte>, version: seq<byte>, signature: seq<byte>)

  /**
   The variables, the memories and the endpoints.  `fuse` is what the next read of the lock or fuse bits gives,
   `locks` are the lock bits that have been set, `bootStart` is where the application section ends.
   */
  datatype Device = Device(
    running: bool, currAddress: word32, flash: Memory, eeprom: seq<byte>, locks: seq<byte>,
    outEp: Out, inEp: In, fuse: byte, bootStart: nat, info: Info)

  // ----- the endpoints

  /** FetchNextCommandByte: empty packets are passed over, and a host that has left yields zeros. */
  function Ready(ep: Out): Out
    decreases |ep.pending|
  {
    if ep.bank != [] || ep.pending == [] then ep else Ready(ep.Next())
  }

  lemma {:induction false} ReadyStream(ep: Out)
    ensures Ready(ep).Stream() == ep.Stream()
    ensures ep.Stream() != [] ==> Ready(ep).bank != []
    decreases |ep.pending|
  {
    if ep.bank == [] && ep.pending != [] { ReadyStream(ep.Next()); }
  }

  function Fetched(ep: Out): byte {
    Ready(ep).Head()
  }

  function Rest(ep: Out): Out {
    Ready(ep).Tail()
  }

  lemma FetchStream(ep: Out)
    requires ep.Stream() != []
    ensures ep.Stream() == [Fetched(ep)] + Rest(ep).Stream()
    ensures Fetched(ep) == ep.Stream()[0] && Rest(ep).Stream() == ep.Stream()[1..]
  {
    ReadyStream(ep);
    var e := Ready(ep);
    assert e.bank == [e.bank[0]] + e.bank[1..];
  }

  /** WriteNextResponseByte. */
  function Respond(ep: In, b: byte): (r: In)
    ensures r.Stream() == ep.Stream() + [b]
  {
    ep.Ready(ENDPOINT_SIZE).Put([b])
  }

  function RespondAll(ep: In, response: seq<byte>): In
    decreases |response|
  {
    if response == [] then ep else RespondAll(Respond(ep, response[0]), response[1..])
  }

  /** The end of CDC_Task: a full last packet is followed by an empty one. */
  function EndResponse(ep: In): In {
    if |ep.bank| == ENDPOINT_SIZE then ep.Clear().Clear() else ep.Clear()
  }

  predicate FilledPackets(ep: In) {
    |ep.bank| <= ENDPOINT_SIZE && forall i :: 0 <= i < |ep.sent| ==> |ep.sent[i]| == ENDPOINT_SIZE
  }

  lemma {:induction false} ResponsePackets(ep: In, response: seq<byte>)
    requires FilledPackets(ep)
    ensures var r := RespondAll(ep, response);
      FilledPackets(r) && r.Stream() == ep.Stream() + response
    decreases |response|
  {
    if response == [] {
      assert ep.Stream() + response == ep.Stream();
    } else {
      var next := Respond(ep, response[0]);
      ResponsePackets(next, response[1..]);
      hide Respond, In.Stream;
      assert ep.Stream() + [response[0]] + response[1..] == ep.Stream() + response;
    }
  }

  // ----- addresses

  /** Command 'A' on a 16-bit int: the shifted high byte is sign-extended into the 32-bit counter. */
  function SetAddress(hi: byte, lo: byte): (a: word32)
    ensures a % 2 == 0
  {
    var shifted := hi as int * 0x200 % 0x1_0000;
    (if shifted < 0x8000 then shifted else shifted + (TWO32 - 0x1_0000)) + lo as int * 2
  }

  /** So the address is the one the host meant exactly for the first 32 KB. */
  lemma AddressExact(hi: byte, lo: byte)
    ensures SetAddress(hi, lo) == hi as int * 0x200 + lo as int * 2 <==> hi < 0x40
  {
  }

  /** CurrAddress += 2. */
  function Bump(a: word32): word32 {
    if a + 2 < TWO32 then a + 2 else a + 2 - TWO32
  }

  // ----- block writes

  datatype Filling = Filling(flash: Memory, addr: word32, ep: Out)

  /** The flash loop of a block write: a word is filled in with every second byte. */
  function FillLoop(flash: Memory, addr: word32, high: bool, low: byte, ep: Out, n: nat): (r: Filling)
    requires flash.Valid()
    ensures r.flash.Valid() && r.flash.SameShape(flash) && r.flash.cells == flash.cells
    decreases n
  {
    if n == 0 then Filling(flash, addr, ep)
    else if high then FillLoop(flash.Fill(addr, low, Fetched(ep)), Bump(addr), false, low, Rest(ep), n - 1)
    else FillLoop(flash, addr, true, Fetched(ep), Rest(ep), n - 1)
  }

  datatype Storing = Storing(eeprom: seq<byte>, addr: word32, ep: Out)

  function StoreLoop(eeprom: seq<byte>, addr: word32, ep: Out, n: nat): (r: Storing)
    ensures |r.eeprom| == |eeprom|
    decreases n
  {
    if n == 0 then Storing(eeprom, addr, ep)
    else StoreLoop(EepromWrite(eeprom, addr / 2, Fetched(ep)), Bump(addr), Rest(ep), n - 1)
  }

  // ----- block reads

  datatype Sending = Sending(addr: word32, ep: In)

  function ReadLoop(flash: Memory, addr: word32, high: bool, ep: In, n: nat): Sending
    decreases n
  {
    if n == 0 then Sending(addr, ep)
    else
      var e := Respond(ep, flash.Read(if high && addr % 2 == 0 then addr + 1 else addr));
      ReadLoop(flash, if high then Bump(addr) else addr, !high, e, n - 1)
  }

  function LoadLoop(eeprom: seq<byte>, addr: word32, ep: In, n: nat): Sending
    decreases n
  {
    if n == 0 then Sending(addr, ep)
    else LoadLoop(eeprom, Bump(addr), Respond(ep, EepromRead(eeprom, addr / 2)), n - 1)
  }

  /** ReadWriteMemoryBlock. */
  function Block(d: Device, command: byte): (r: Device)
    requires d.flash.Valid()
    ensures r.flash.Valid() && r.flash.SameShape(d.flash)
  {
    var e1 := Rest(d.outEp);
    var e2 := Rest(e1);
    var n: nat := Word(Fetched(e1), Fetched(d.outEp));
    var memory := Fetched(e2);
    var e3 := Rest(e2);
    if memory != TYPE_EEPROM && memory != TYPE_FLASH then d.(outEp := e3, inEp := Respond(d.inEp, REPLY_ERROR))
    else if command == CMD_READ then
      var s := if memory == TYPE_FLASH then ReadLoop(d.flash, d.currAddress, false, d.inEp, n)
               else LoadLoop(d.eeprom, d.currAddress, d.inEp, n);
      d.(currAddress := s.addr, outEp := e3, inEp := s.ep)
    else if memory == TYPE_FLASH then
      var f := FillLoop(d.flash.Erase(d.currAddress), d.currAddress, false, 0, e3, n);
      d.(currAddress := f.addr, flash := f.flash.Write(d.currAddress), outEp := f.ep, inEp := Respond(d.inEp, REPLY_OK))
    else
      var s := StoreLoop(d.eeprom, d.currAddress, e3, n);
      d.(currAddress := s.addr, eeprom := s.eeprom, outEp := s.ep, inEp := Respond(d.inEp, REPLY_OK))
  }

  /** The commands that only answer. */
  function Answers(d: Device, c: byte): Option<seq<byte>> {
    if c == CMD_ENTER || c == CMD_LEAVE then Some([REPLY_OK])
    else if c == CMD_DEVICES then Some([0x44, 0x00])
    else if c == CMD_AUTO then Some([YES])
    else if c == CMD_TYPE then Some([SERIAL])
    else if c == CMD_IDENTIFIER then Some(d.info.identifier)
    else if c == CMD_VERSION then Some(d.info.version)
    else if c == CMD_SIGNATURE then Some(d.info.signature)
    else if c in CMD_READ_BITS then Some([d.fuse])
    else if c == CMD_BLOCK_SIZE then Some([YES, |d.flash.buffer| / 0x100 % 0x100, |d.flash.buffer| % 0x100])
    else if c == CMD_READ_WORD then Some([d.flash.Read(d.currAddress + 1), d.flash.Read(d.currAddress)])
    else if c == ESCAPE then Some([])
    else None
  }

  /** What the commands do that take one byte, `b`. */
  function TakeByte(d: Device, c: byte, b: byte): (r: Option<Device>)
    requires d.flash.Valid()
    ensures r.Some? ==> r.value.flash.Valid() && r.value.flash.SameShape(d.flash) && r.value.inEp == d.inEp
  {
    if c == CMD_DEVICE then Some(d)
    else if c == CMD_LOCK then Some(d.(locks := d.locks + [b]))
    else if c == CMD_HIGH then Some(d.(flash := d.flash.Fill(d.currAddress, b, 0)))
    else if c == CMD_LOW then
      var odd := if d.currAddress % 2 == 0 then d.currAddress + 1 else d.currAddress;
      Some(d.(flash := d.flash.Fill(odd, b, 0), currAddress := Bump(d.currAddress)))
    else if c == CMD_STORE then
      Some(d.(eeprom := EepromWrite(d.eeprom, d.currAddress / 2, b), currAddress := Bump(d.currAddress)))
    else None
  }

  /** What the commands do that take none; None for those that are not known. */
  function Act(d: Device, c: byte): (r: Option<Device>)
    requires d.flash.Valid()
    ensures r.Some? ==> r.value.flash.Valid() && r.value.flash.SameShape(d.flash) && r.value.inEp == d.inEp
  {
    if c == CMD_EXIT then Some(d.(running := false))
    else if c == CMD_ERASE then Some(d.(flash := EraseFrom(d.flash, 0, d.bootStart)))
    else if c == CMD_COMMIT then Some(d.(flash := d.flash.Write(d.currAddress)))
    else None
  }

  /** A command of CDC_Task, up to the end of its response. */
  function Command(d: Device): (r: Device)
    requires d.flash.Valid()
    ensures r.flash.Valid() && r.flash.SameShape(d.flash)
  {
    var c := Fetched(d.outEp);
    var q := d.(outEp := Rest(d.outEp));
    var e := Rest(q.outEp);
    var taken := TakeByte(q.(outEp := e), c, Fetched(q.outEp));
    if Answers(q, c).Some? then q.(inEp := RespondAll(d.inEp, Answers(q, c).value))
    else if taken.Some? then taken.value.(inEp := Respond(d.inEp, REPLY_OK))
    else if Act(q, c).Some? then Act(q, c).value.(inEp := Respond(d.inEp, REPLY_OK))
    else if c == CMD_ADDRESS then
      q.(currAddress := SetAddress(Fetched(q.outEp), Fetched(e)), outEp := Rest(e), inEp := Respond(d.inEp, REPLY_OK))
    else if c == CMD_WRITE || c == CMD_READ then Block(q, c)
    else if c == CMD_LOAD then
      q.(currAddress := Bump(d.currAddress), inEp := Respond(d.inEp, EepromRead(d.eeprom, d.currAddress / 2)))
    else q.(inEp := Respond(d.inEp, REPLY_ERROR))
  }

  /** CDC_Task. */
  function Task(d: Device): (r: Device)
    requires d.flash.Valid()
    ensures r.flash.Valid() && r.flash.SameShape(d.flash)
  {
    var q := Command(d);
    q.(inEp := EndResponse(q.inEp))
  }

  /** The device with the host's next bytes in `ep` and nothing sent yet. */
  function Given(d: Device, ep: Out): Device {
    d.(outEp := ep, inEp := In([], []))
  }

  /** A command to set the address, then another one. */
  function Tasks(d: Device, a: Out, ep: Out): (r: Device)
    requires d.flash.Valid()
    ensures r.flash.Valid() && r.flash.SameShape(d.flash)
  {
    Task(Given(Task(Given(d, a)), ep))
  }

  /** What it has sent back. */
  function Answer(d: Device): seq<byte> {
    Flatten(d.inEp.sent)
  }

  lemma EndSends(ep: In)
    ensures Flatten(EndResponse(ep).sent) == ep.Stream()
  {
    var e := EndResponse(ep);
    assert e.Stream() == ep.Stream();
    assert e.bank == [] && Flatten(e.sent) + [] == Flatten(e.sent);
  }

  lemma {:induction false} ReadPackets(m: Memory, addr: word32, high: bool, ep: In, n: nat)
    requires FilledPackets(ep)
    ensures FilledPackets(ReadLoop(m, addr, high, ep, n).ep)
    decreases n
  {
    hide FilledPackets, Respond;
    if n > 0 {
      var b := m.Read(if high && addr % 2 == 0 then addr + 1 else addr);
      RespondPackets(ep, b);
      ReadPackets(m, if high then Bump(addr) else addr, !high, Respond(ep, b), n - 1);
    }
  }

  lemma {:induction false} LoadPackets(eeprom: seq<byte>, addr: word32, ep: In, n: nat)
    requires FilledPackets(ep)
    ensures FilledPackets(LoadLoop(eeprom, addr, ep, n).ep)
    decreases n
  {
    hide FilledPackets, Respond;
    if n > 0 {
      var b := EepromRead(eeprom, addr / 2);
      RespondPackets(ep, b);
      LoadPackets(eeprom, Bump(addr), Respond(ep, b), n - 1);
    }
  }

  lemma RespondPackets(ep: In, b: byte)
    requires FilledPackets(ep)
    ensures FilledPackets(Respond(ep, b))
  {
  }

  lemma CommandPackets(d: Device)
    requires d.flash.Valid() && FilledPackets(d.inEp)
    ensures FilledPackets(Command(d).inEp)
  {
    hide FilledPackets, Respond, RespondAll, ReadLoop, LoadLoop, FillLoop, StoreLoop, Fetched, Rest, PageBase,
         SetAddress, EraseFrom;
    forall b: byte ensures FilledPackets(Respond(d.inEp, b)) { RespondPackets(d.inEp, b); }
    forall s: seq<byte> ensures FilledPackets(RespondAll(d.inEp, s)) { ResponsePackets(d.inEp, s); }
    forall n: nat ensures FilledPackets(ReadLoop(d.flash, d.currAddress, false, d.inEp, n).ep)
                  ensures FilledPackets(LoadLoop(d.eeprom, d.currAddress, d.inEp, n).ep)
    {
      ReadPackets(d.flash, d.currAddress, false, d.inEp, n);
      LoadPackets(d.eeprom, d.currAddress, d.inEp, n);
    }
  }

  /**
   Whatever the device, the command and its length: the response arrives whole and in order, in full packets and one
   short packet at the end, the only way a host can tell that it is over.
   */
  lemma ResponseTerminates(d: Device, ep: Out)
    requires d.flash.Valid()
    ensures var sent := Task(Given(d, ep)).inEp.sent;
      && Flatten(sent) == Command(Given(d, ep)).inEp.Stream()
      && |sent| > 0 && |sent[|sent| - 1]| < ENDPOINT_SIZE
      && forall i :: 0 <= i < |sent| - 1 ==> |sent[i]| == ENDPOINT_SIZE
  {
    hide Command, Flatten;
    CommandPackets(Given(d, ep));
    EndSends(Command(Given(d, ep)).inEp);
  }

  lemma AddressSet(d: Device, hi: byte, lo: byte, ep: Out)
    requires d.flash.Valid() && ep.Stream() == [CMD_ADDRESS, hi, lo]
    ensures var r := Task(Given(d, ep));
      && r.currAddress == SetAddress(hi, lo) && r.flash == d.flash && r.eeprom == d.eeprom && Answer(r) == [REPLY_OK]
  {
    hide Fetched, Rest, Out.Stream, EndResponse, SetAddress, PageBase;
    FetchStream(ep);
    assert Rest(ep).Stream() == [hi, lo];
    FetchStream(Rest(ep));
    assert Rest(Rest(ep)).Stream() == [lo];
    FetchStream(Rest(Rest(ep)));
    EndSends(Command(Given(d, ep)).inEp);
  }

  // ----- what a block write leaves

  lemma {:induction false} FillLoopFills(m: Memory, addr: word32, low: byte, ep: Out, n: nat)
    requires m.Valid() && n <= |ep.Stream()| && addr + n < TWO32
    ensures var r := FillLoop(m, addr, false, low, ep, n);
      && r.flash == FillWords(m, addr, ep.Stream()[..n]) && r.addr == addr + n / 2 * 2
      && r.ep.Stream() == ep.Stream()[n..]
    decreases n
  {
    hide Fetched, Rest, Out.Stream, Memory.Fill, PageBase;
    var s := ep.Stream();
    if n > 0 {
      FetchStream(ep);
      var e1 := Rest(ep);
      if n == 1 {
        assert FillLoop(m, addr, true, Fetched(ep), e1, 0) == Filling(m, addr, e1);
      } else {
        FetchStream(e1);
        var e2 := Rest(e1);
        assert s == [s[0], s[1]] + e2.Stream() && Fetched(ep) == s[0] && Fetched(e1) == s[1];
        assert s[..n][2..] == e2.Stream()[..n - 2] && s[n..] == e2.Stream()[n - 2..];
        FillLoopFills(m.Fill(addr, s[0], s[1]), addr + 2, s[0], e2, n - 2);
        assert FillLoop(m, addr, false, low, ep, n) == FillLoop(m, addr, true, s[0], e1, n - 1);
      }
    }
  }

  /** Blocks of even length that do not cross a page boundary. */
  predicate Writable(m: Memory, addr: nat, n: nat)
    requires m.Valid()
  {
    n % 2 == 0 && addr - PageBase(addr, |m.buffer|) + n <= |m.buffer|
  }

  /** The bytes of a block write. */
  function WriteBytes(memory: byte, data: seq<byte>): seq<byte>
    requires |data| < 0x1_0000
  {
    [CMD_WRITE] + Header(|data|, memory) + data
  }

  function Header(n: word16, memory: byte): seq<byte> {
    [n / 0x100, n % 0x100, memory]
  }

  lemma HeaderRead(ep: Out, command: byte, n: word16, memory: byte, more: seq<byte>)
    requires ep.Stream() == [command] + Header(n, memory) + more
    ensures Fetched(ep) == command
    ensures var e1 := Rest(Rest(ep));
      var e2 := Rest(e1);
      Word(Fetched(e1), Fetched(Rest(ep))) == n && Fetched(e2) == memory && Rest(e2).Stream() == more
  {
    hide Fetched, Rest, Out.Stream;
    var hi, lo := n / 0x100, n % 0x100;
    assert Word(lo, hi) == n;
    FetchOne(ep, command, [hi, lo, memory] + more);
    FetchOne(Rest(ep), hi, [lo, memory] + more);
    FetchOne(Rest(Rest(ep)), lo, [memory] + more);
    FetchOne(Rest(Rest(Rest(ep))), memory, more);
  }

  lemma FetchOne(ep: Out, b: byte, more: seq<byte>)
    requires ep.Stream() == [b] + more
    ensures Fetched(ep) == b && Rest(ep).Stream() == more
  {
    hide Fetched, Rest, Out.Stream;
    FetchStream(ep);
    assert ([b] + more)[1..] == more;
  }

  /** A flash block command, however its bytes are packed, erases and writes one page with all its words. */
  lemma BlockWrites(d: Device, data: seq<byte>, w: Out)
    requires d.flash.Valid() && |data| < 0x1_0000 && d.currAddress + |data| < TWO32
    requires w.Stream() == WriteBytes(TYPE_FLASH, data)
    ensures var r := Task(Given(d, w));
      && r.flash == Written(d.flash, d.currAddress, data) && r.eeprom == d.eeprom
      && r.currAddress == d.currAddress + |data| / 2 * 2 && Answer(r) == [REPLY_OK]
  {
    hide FillLoop, Fetched, Rest, Out.Stream, PageBase, FillWords, Memory.Erase, Memory.Write, EndResponse;
    HeaderRead(w, CMD_WRITE, |data|, TYPE_FLASH, data);
    FillLoopFills(d.flash.Erase(d.currAddress), d.currAddress, 0, Rest(Rest(Rest(Rest(w)))), |data|);
    assert data[..|data|] == data;
    EndSends(Command(Given(d, w)).inEp);
  }

  /** The block `data`, written at the address `hi`, `lo` by the two commands, is in the flash. */
  predicate Stored(d: Device, hi: byte, lo: byte, data: seq<byte>, a: Out, w: Out)
    requires d.flash.Valid()
  {
    var m := Tasks(d, a, w).flash;
    forall i :: 0 <= i < |data| ==> m.Read(SetAddress(hi, lo) + i) == data[i]
  }

  /** It is so whatever its bytes, their packets and the old contents of the flash. */
  ghost predicate AlwaysStored(d: Device, hi: byte, lo: byte, n: word16)
    requires d.flash.Valid()
  {
    forall cells: seq<byte>, data: seq<byte>, a: Out, w: Out ::
      |cells| == |d.flash.cells| && |data| == n && a.Stream() == [CMD_ADDRESS, hi, lo] &&
        w.Stream() == WriteBytes(TYPE_FLASH, data) ==>
        Stored(WithCells(d, cells), hi, lo, data, a, w)
  }

  function WithCells(d: Device, cells: seq<byte>): Device {
    d.(flash := d.flash.(cells := cells))
  }

  lemma StoredWritten(d: Device, hi: byte, lo: byte, data: seq<byte>, a: Out, w: Out)
    requires d.flash.Valid() && |data| < 0x1_0000 && SetAddress(hi, lo) + |data| < TWO32
    requires a.Stream() == [CMD_ADDRESS, hi, lo] && w.Stream() == WriteBytes(TYPE_FLASH, data)
    ensures Stored(d, hi, lo, data, a, w) <==>
      forall i :: 0 <= i < |data| ==> Written(d.flash, SetAddress(hi, lo), data).Read(SetAddress(hi, lo) + i) == data[i]
  {
    hide Task, Written, SetAddress, Out.Stream, PageBase;
    AddressSet(d, hi, lo, a);
    BlockWrites(Task(Given(d, a)), data, w);
  }

  /** A block is always stored as sent exactly when it is `Writable`. */
  lemma BlockWriteExact(d: Device, hi: byte, lo: byte, n: word16)
    requires d.flash.Valid() && SetAddress(hi, lo) + n <= |d.flash.cells| < TWO32
    ensures AlwaysStored(d, hi, lo, n) <==> Writable(d.flash, SetAddress(hi, lo), n)
  {
    hide PageBase, Written, Stored, Out.Stream, WriteBytes;
    var addr := SetAddress(hi, lo);
    hide SetAddress;
    if Writable(d.flash, addr, n) {
      forall cells: seq<byte>, data: seq<byte>, a: Out, w: Out
        | |cells| == |d.flash.cells| && |data| == n && a.Stream() == [CMD_ADDRESS, hi, lo] &&
          w.Stream() == WriteBytes(TYPE_FLASH, data)
        ensures Stored(WithCells(d, cells), hi, lo, data, a, w)
      {
        StoredWritten(WithCells(d, cells), hi, lo, data, a, w);
        WrittenPage(d.flash.(cells := cells), addr, data);
      }
    } else {
      var a, w := NotStored(d, hi, lo, n);
    }
  }

  /** A block of zeros, or of ones where the page buffer holds a zero in the place of the odd last byte. */
  function Witness(d: Device, hi: byte, lo: byte, n: word16): (s: seq<byte>)
    requires d.flash.Valid() && n > 0
    ensures |s| == n
  {
    var m := d.flash;
    var off := SetAddress(hi, lo) - PageBase(SetAddress(hi, lo), |m.buffer|);
    seq<byte>(n, _ => if off + n <= |m.buffer| && m.buffer[off + n - 1] == 0 then 1 else 0)
  }

  /** Otherwise the first byte of the next page, or the odd last byte, is not written. */
  lemma NotStored(d: Device, hi: byte, lo: byte, n: word16) returns (a: Out, w: Out)
    requires d.flash.Valid() && SetAddress(hi, lo) + n <= |d.flash.cells| < TWO32
    requires !Writable(d.flash, SetAddress(hi, lo), n)
    ensures n > 0
    ensures var data := Witness(d, hi, lo, n);
      && a.Stream() == [CMD_ADDRESS, hi, lo] && w.Stream() == WriteBytes(TYPE_FLASH, data)
      && !Stored(WithCells(d, Blank(|d.flash.cells|)), hi, lo, data, a, w)
  {
    hide PageBase, Written, Stored, WriteBytes;
    var addr := SetAddress(hi, lo);
    var data := Witness(d, hi, lo, n);
    var bytes := WriteBytes(TYPE_FLASH, data);
    a, w := Out([], Packets([CMD_ADDRESS, hi, lo], ENDPOINT_SIZE)), Out([], Packets(bytes, ENDPOINT_SIZE));
    hide SetAddress, Out.Stream, Packets;
    var m := d.flash;
    var base := PageBase(addr, |m.buffer|);
    var blank := m.(cells := Blank(|m.cells|));
    var t := if addr - base + n > |m.buffer| then |m.buffer| - (addr - base) else n - 1;
    if addr - base + n > |m.buffer| {
      WrittenElsewhere(blank, addr, data, addr + t);
    } else {
      WrittenPage(blank, addr, data);
    }
    assert Written(blank, addr, data).Read(addr + t) != data[t];
    StoredWritten(WithCells(d, Blank(|m.cells|)), hi, lo, data, a, w);
  }

  // ----- round trips

  lemma {:induction false} ReadLoopReads(m: Memory, addr: word32, ep: In, n: nat)
    requires addr % 2 == 0 && addr + n <= |m.cells| && addr + n < TWO32
    ensures var r := ReadLoop(m, addr, false, ep, n);
      r.addr == addr + n / 2 * 2 && r.ep.Stream() == ep.Stream() + m.cells[addr..addr + n]
    decreases n
  {
    hide Respond, In.Stream;
    if n == 0 {
      assert ep.Stream() + m.cells[addr..addr + n] == ep.Stream();
    } else {
      var e1 := Respond(ep, m.Read(addr));
      if n == 1 {
        assert ReadLoop(m, addr, true, e1, 0) == Sending(addr, e1);
        assert m.cells[addr..addr + 1] == [m.cells[addr]];
      } else {
        var e2 := Respond(e1, m.Read(addr + 1));
        assert ReadLoop(m, addr, false, ep, n) == ReadLoop(m, addr, true, e1, n - 1);
        ReadLoopReads(m, addr + 2, e2, n - 2);
        assert m.cells[addr..addr + n] == [m.cells[addr], m.cells[addr + 1]] + m.cells[addr + 2..addr + n];
        assert e2.Stream() == ep.Stream() + [m.cells[addr], m.cells[addr + 1]];
      }
    }
  }

  lemma {:induction false} StoreLoopStores(eeprom: seq<byte>, addr: word32, ep: Out, n: nat)
    requires addr % 2 == 0 && n <= |ep.Stream()| && addr / 2 + n <= |eeprom| && addr + 2 * n < TWO32
    ensures var r := StoreLoop(eeprom, addr, ep, n);
      r.addr == addr + 2 * n && r.ep.Stream() == ep.Stream()[n..] &&
        r.eeprom == Overlay(eeprom, addr / 2, ep.Stream()[..n])
    decreases n
  {
    hide Fetched, Rest, Out.Stream, Overlay;
    var a := addr / 2;
    var s := ep.Stream();
    if n == 0 {
      OverlayNothing(eeprom, a, s[..0]);
    } else {
      FetchStream(ep);
      StoreLoopStores(eeprom[a := s[0]], addr + 2, Rest(ep), n - 1);
      assert s[..n][1..] == Rest(ep).Stream()[..n - 1] && s[n..] == Rest(ep).Stream()[n - 1..];
      OverlayStep(eeprom, a, s[..n]);
    }
  }

  lemma {:induction false} LoadLoopLoads(eeprom: seq<byte>, addr: word32, ep: In, n: nat)
    requires addr % 2 == 0 && addr / 2 + n <= |eeprom| && addr + 2 * n < TWO32
    ensures var r := LoadLoop(eeprom, addr, ep, n);
      r.addr == addr + 2 * n && r.ep.Stream() == ep.Stream() + eeprom[addr / 2..addr / 2 + n]
    decreases n
  {
    hide Respond, In.Stream;
    var a := addr / 2;
    if n == 0 {
      assert ep.Stream() + eeprom[a..a] == ep.Stream();
    } else {
      var e := Respond(ep, eeprom[a]);
      LoadLoopLoads(eeprom, addr + 2, e, n - 1);
      assert eeprom[a..a + n] == [eeprom[a]] + eeprom[a + 1..a + n];
    }
  }

  lemma BlockReads(d: Device, n: word16, r: Out)
    requires d.flash.Valid() && d.currAddress % 2 == 0 && d.currAddress + n <= |d.flash.cells|
    requires d.currAddress + n < TWO32
    requires r.Stream() == [CMD_READ] + Header(n, TYPE_FLASH)
    ensures var q := Task(Given(d, r));
      && Answer(q) == d.flash.cells[d.currAddress..d.currAddress + n] && q.flash == d.flash && q.eeprom == d.eeprom
      && q.currAddress == d.currAddress + n / 2 * 2
  {
    hide ReadLoop, Fetched, Rest, Out.Stream, PageBase, EndResponse;
    assert [CMD_READ] + Header(n, TYPE_FLASH) + [] == [CMD_READ] + Header(n, TYPE_FLASH);
    HeaderRead(r, CMD_READ, n, TYPE_FLASH, []);
    ReadLoopReads(d.flash, d.currAddress, In([], []), n);
    assert In([], []).Stream() == [];
    EndSends(Command(Given(d, r)).inEp);
  }

  /** A writable block reads back as it was written, and the address has moved past it both times. */
  lemma FlashRoundTrip(d: Device, hi: byte, lo: byte, data: seq<byte>, a: Out, w: Out, r: Out)
    requires d.flash.Valid() && |data| < 0x1_0000
    requires SetAddress(hi, lo) + |data| <= |d.flash.cells| < TWO32 && Writable(d.flash, SetAddress(hi, lo), |data|)
    requires a.Stream() == [CMD_ADDRESS, hi, lo]
    requires w.Stream() == WriteBytes(TYPE_FLASH, data) && r.Stream() == [CMD_READ] + Header(|data|, TYPE_FLASH)
    ensures var d1 := Tasks(d, a, w);
      var d2 := Tasks(d1, a, r);
      && Answer(d1) == [REPLY_OK] && Answer(d2) == data
      && d1.currAddress == d2.currAddress == SetAddress(hi, lo) + |data|
      && d2.flash == d1.flash && d1.eeprom == d.eeprom
  {
    hide Task, Written, WriteBytes, Out.Stream, PageBase, Answer;
    var addr := SetAddress(hi, lo);
    hide SetAddress;
    AddressSet(d, hi, lo, a);
    BlockWrites(Task(Given(d, a)), data, w);
    var d1 := Tasks(d, a, w);
    WrittenPage(d.flash, addr, data);
    assert d1.flash.cells[addr..addr + |data|] == data;
    AddressSet(d1, hi, lo, a);
    BlockReads(Task(Given(d1, a)), |data|, r);
  }

  lemma EepromBlockWrites(d: Device, data: seq<byte>, w: Out)
    requires d.flash.Valid() && d.currAddress % 2 == 0 && |data| < 0x1_0000
    requires d.currAddress / 2 + |data| <= |d.eeprom| && d.currAddress + 2 * |data| < TWO32
    requires w.Stream() == WriteBytes(TYPE_EEPROM, data)
    ensures var r := Task(Given(d, w));
      && r.eeprom == Overlay(d.eeprom, d.currAddress / 2, data) && r.flash == d.flash
      && r.currAddress == d.currAddress + 2 * |data| && Answer(r) == [REPLY_OK]
  {
    hide StoreLoop, Fetched, Rest, Out.Stream, PageBase, Overlay, EndResponse;
    HeaderRead(w, CMD_WRITE, |data|, TYPE_EEPROM, data);
    StoreLoopStores(d.eeprom, d.currAddress, Rest(Rest(Rest(Rest(w)))), |data|);
    assert data[..|data|] == data;
    EndSends(Command(Given(d, w)).inEp);
  }

  lemma EepromBlockReads(d: Device, n: word16, r: Out)
    requires d.flash.Valid() && d.currAddress % 2 == 0 && d.currAddress / 2 + n <= |d.eeprom|
    requires d.currAddress + 2 * n < TWO32
    requires r.Stream() == [CMD_READ] + Header(n, TYPE_EEPROM)
    ensures var q := Task(Given(d, r));
      && Answer(q) == d.eeprom[d.currAddress / 2..d.currAddress / 2 + n] && q.flash == d.flash && q.eeprom == d.eeprom
      && q.currAddress == d.currAddress + 2 * n
  {
    hide LoadLoop, Fetched, Rest, Out.Stream, PageBase, EndResponse;
    assert [CMD_READ] + Header(n, TYPE_EEPROM) + [] == [CMD_READ] + Header(n, TYPE_EEPROM);
    HeaderRead(r, CMD_READ, n, TYPE_EEPROM, []);
    LoadLoopLoads(d.eeprom, d.currAddress, In([], []), n);
    assert In([], []).Stream() == [];
    EndSends(Command(Given(d, r)).inEp);
  }

  /** So does every EEPROM block, at two address units per byte. */
  lemma EepromRoundTrip(d: Device, hi: byte, lo: byte, data: seq<byte>, a: Out, w: Out, r: Out)
    requires d.flash.Valid() && |data| < 0x1_0000
    requires SetAddress(hi, lo) / 2 + |data| <= |d.eeprom| && SetAddress(hi, lo) + 2 * |data| < TWO32
    requires a.Stream() == [CMD_ADDRESS, hi, lo]
    requires w.Stream() == WriteBytes(TYPE_EEPROM, data) && r.Stream() == [CMD_READ] + Header(|data|, TYPE_EEPROM)
    ensures var d1 := Tasks(d, a, w);
      var d2 := Tasks(d1, a, r);
      && Answer(d1) == [REPLY_OK] && Answer(d2) == data
      && d1.currAddress == d2.currAddress == SetAddress(hi, lo) + 2 * |data|
      && d2.eeprom == d1.eeprom && d1.flash == d.flash
  {
    hide Task, WriteBytes, Out.Stream, PageBase, Answer, Overlay, SetAddress;
    AddressSet(d, hi, lo, a);
    EepromBlockWrites(Task(Given(d, a)), data, w);
    var d1 := Tasks(d, a, w);
    AddressSet(d1, hi, lo, a);
    EepromBlockReads(Task(Given(d1, a)), |data|, r);
  }

  // ----- the routines

  class Bootloader {
    var running: bool
    var currAddress: word32
    var flash: Memory
    var eeprom: seq<byte>
    var locks: seq<byte>
    var outEp: Out
    var inEp: In
    var fuse: byte
    const bootStart: nat
    const info: Info

    constructor (flash: Memory, eeprom: seq<byte>, host: Out, fuse: byte, bootStart: nat, info: Info)
      ensures View() == Device(true, 0, flash, eeprom, [], host, In([], []), fuse, bootStart, info)
    {
      running, currAddress, this.flash, this.eeprom, locks := true, 0, flash, eeprom, [];
      outEp, inEp, this.fuse, this.bootStart, this.info := host, In([], []), fuse, bootStart, info;
    }

    function View(): Device
      reads this
    {
      Device(running, currAddress, flash, eeprom, locks, outEp, inEp, fuse, bootStart, info)
    }

    method FetchNextCommandByte() returns (b: byte)
      modifies this`outEp
      ensures b == Fetched(old(outEp)) && outEp == Rest(old(outEp))
    {
      while outEp.bank == []
        invariant Ready(outEp) == Ready(old(outEp))
        decreases |outEp.pending|
      {
        if outEp.pending == [] { return 0; }
        outEp := outEp.Next();
      }
      b := outEp.Head();
      outEp := outEp.Tail();
    }

    method WriteNextResponseByte(b: byte)
      modifies this`inEp
      ensures inEp == Respond(old(inEp), b)
    {
      if |inEp.bank| == ENDPOINT_SIZE {
        inEp := inEp.Clear();
      }
      inEp := inEp.Put([b]);
    }

    /** Command 'A'. */
    method SetCurrAddress()
      modifies this`outEp, this`currAddress
      ensures currAddress == SetAddress(Fetched(old(outEp)), Fetched(Rest(old(outEp)))) &&
        outEp == Rest(Rest(old(outEp)))
    {
      var hi := FetchNextCommandByte();
      var shifted := hi as int * 0x200 % 0x1_0000;
      currAddress := if shifted < 0x8000 then shifted else shifted + (TWO32 - 0x1_0000);
      var lo := FetchNextCommandByte();
      currAddress := currAddress + lo as int * 2;
    }

    /** The end of CDC_Task. */
    method FinishResponse()
      modifies this`inEp
      ensures inEp == EndResponse(old(inEp))
    {
      var full := |inEp.bank| == ENDPOINT_SIZE;
      inEp := inEp.Clear();
      if full {
        inEp := inEp.Clear();
      }
    }

    method ReadBlock(size: word16, memory: byte)
      requires memory == TYPE_FLASH || memory == TYPE_EEPROM
      modifies this`currAddress, this`inEp
      ensures Sending(currAddress, inEp) ==
        if memory == TYPE_FLASH then ReadLoop(flash, old(currAddress), false, old(inEp), size)
        else LoadLoop(eeprom, old(currAddress), old(inEp), size)
    {
      hide Respond;
      var high := false;
      var n: nat := size;
      while n != 0
        invariant memory == TYPE_FLASH ==>
          ReadLoop(flash, currAddress, high, inEp, n) == ReadLoop(flash, old(currAddress), false, old(inEp), size)
        invariant memory != TYPE_FLASH ==>
          LoadLoop(eeprom, currAddress, inEp, n) == LoadLoop(eeprom, old(currAddress), old(inEp), size)
      {
        n := n - 1;
        if memory == TYPE_FLASH {
          WriteNextResponseByte(flash.Read(if high && currAddress % 2 == 0 then currAddress + 1 else currAddress));
          if high {
            currAddress := Bump(currAddress);
          }
          high := !high;
        } else {
          WriteNextResponseByte(EepromRead(eeprom, currAddress / 2));
          currAddress := Bump(currAddress);
        }
      }
    }

    method WriteFlashBlock(size: word16)
      requires flash.Valid()
      modifies this`currAddress, this`outEp, this`flash
      ensures flash.Valid()
      ensures var f := FillLoop(old(flash).Erase(old(currAddress)), old(currAddress), false, 0, old(outEp), size);
        currAddress == f.addr && outEp == f.ep && flash == f.flash.Write(old(currAddress))
    {
      hide PageBase, Memory.Erase, Memory.Fill, Memory.Write, Fetched, Rest;
      var pageStart := currAddress;
      flash := flash.Erase(pageStart);
      var high := false;
      var low: byte := 0;
      var n: nat := size;
      ghost var goal := FillLoop(flash, currAddress, high, low, outEp, n);
      while n != 0
        invariant flash.Valid() && FillLoop(flash, currAddress, high, low, outEp, n) == goal
      {
        n := n - 1;
        if high {
          var b := FetchNextCommandByte();
          flash := flash.Fill(currAddress, low, b);
          currAddress := Bump(currAddress);
        } else {
          low := FetchNextCommandByte();
        }
        high := !high;
      }
      flash := flash.Write(pageStart);
    }

    method WriteEepromBlock(size: word16)
      modifies this`currAddress, this`outEp, this`eeprom
      ensures Storing(eeprom, currAddress, outEp) == StoreLoop(old(eeprom), old(currAddress), old(outEp), size)
    {
      hide Fetched, Rest;
      var n: nat := size;
      while n != 0
        invariant StoreLoop(eeprom, currAddress, outEp, n) == StoreLoop(old(eeprom), old(currAddress), old(outEp), size)
      {
        n := n - 1;
        var b := FetchNextCommandByte();
        eeprom := EepromWrite(eeprom, currAddress / 2, b);
        currAddress := Bump(currAddress);
      }
    }

    method ReadWriteMemoryBlock(command: byte)
      requires flash.Valid()
      modifies this
      ensures View() == Block(old(View()), command)
    {
      hide Fetched, Rest, Respond, FillLoop, StoreLoop, ReadLoop, LoadLoop, Memory.Valid;
      var hi := FetchNextCommandByte();
      var lo := FetchNextCommandByte();
      var size := Word(lo, hi);
      var memory := FetchNextCommandByte();
      if memory != TYPE_EEPROM && memory != TYPE_FLASH {
        WriteNextResponseByte(REPLY_ERROR);
        return;
      }
      if command == CMD_READ {
        ReadBlock(size, memory);
      } else {
        if memory == TYPE_FLASH {
          WriteFlashBlock(size);
        } else {
          WriteEepromBlock(size);
        }
        WriteNextResponseByte(REPLY_OK);
      }
    }

    method WriteResponse(bytes: seq<byte>)
      modifies this`inEp
      ensures inEp == RespondAll(old(inEp), bytes)
    {
      hide Respond;
      var i := 0;
      while i < |bytes|
        invariant 0 <= i <= |bytes| && RespondAll(inEp, bytes[i..]) == RespondAll(old(inEp), bytes)
      {
        assert bytes[i..][1..] == bytes[i + 1..];
        WriteNextResponseByte(bytes[i]);
        i := i + 1;
      }
    }

    /** The chip erase. */
    method EraseApplication()
      requires flash.Valid()
      modifies this`flash
      ensures flash.Valid() && flash == EraseFrom(old(flash), 0, bootStart)
    {
      hide PageBase, Memory.Erase, Memory.Write;
      var addr := 0;
      while addr < bootStart
        invariant 0 <= addr && flash.Valid() && |flash.buffer| == |old(flash).buffer|
        invariant EraseFrom(flash, addr, bootStart) == EraseFrom(old(flash), 0, bootStart)
        decreases bootStart - addr
      {
        flash := flash.Erase(addr);
        flash := flash.Write(addr);
        addr := addr + |flash.buffer|;
      }
    }

    /** The commands that take one byte; `known` is false for any other. */
    method RunByteCommand(c: byte) returns (known: bool)
      requires flash.Valid()
      modifies this
      ensures var q := old(View()).(outEp := Rest(old(outEp)));
        var r := TakeByte(q, c, Fetched(old(outEp)));
        if known then r == Some(View()) else r.None? && View() == old(View())
    {
      hide Fetched, Rest, Memory.Fill, PageBase;
      if c != CMD_DEVICE && c != CMD_LOCK && c != CMD_HIGH && c != CMD_LOW && c != CMD_STORE { return false; }
      var b := FetchNextCommandByte();
      if c == CMD_LOCK {
        locks := locks + [b];
      } else if c == CMD_HIGH {
        flash := flash.Fill(currAddress, b, 0);
      } else if c == CMD_LOW {
        flash := flash.Fill(if currAddress % 2 == 0 then currAddress + 1 else currAddress, b, 0);
        currAddress := Bump(currAddress);
      } else if c == CMD_STORE {
        eeprom := EepromWrite(eeprom, currAddress / 2, b);
        currAddress := Bump(currAddress);
      }
      known := true;
    }

    /** The commands that take none; `known` is false for any other. */
    method RunPlainCommand(c: byte) returns (known: bool)
      requires flash.Valid()
      modifies this
      ensures if known then Act(old(View()), c) == Some(View()) else Act(old(View()), c).None? && View() == old(View())
    {
      hide Memory.Write, PageBase, EraseFrom;
      if c == CMD_EXIT {
        running := false;
      } else if c == CMD_ERASE {
        EraseApplication();
      } else if c == CMD_COMMIT {
        flash := flash.Write(currAddress);
      } else {
        return false;
      }
      known := true;
    }

    method RunCommand()
      requires flash.Valid()
      modifies this
      ensures View() == Command(old(View()))
    {
      hide Fetched, Rest, Respond, RespondAll, Block, SetAddress, Memory.Valid, TakeByte, Act, Bump;
      var c := FetchNextCommandByte();
      var answer := Answers(View(), c);
      if answer.Some? {
        WriteResponse(answer.value);
        return;
      }
      var known := RunByteCommand(c);
      if !known { known := RunPlainCommand(c); }
      if known {
        WriteNextResponseByte(REPLY_OK);
      } else if c == CMD_ADDRESS {
        SetCurrAddress();
        WriteNextResponseByte(REPLY_OK);
      } else if c == CMD_WRITE || c == CMD_READ {
        ReadWriteMemoryBlock(c);
      } else if c == CMD_LOAD {
        WriteNextResponseByte(EepromRead(eeprom, currAddress / 2));
        currAddress := Bump(currAddress);
      } else {
        WriteNextResponseByte(REPLY_ERROR);
      }
    }

    /** CDC_Task, for a command that has arrived. */
    method RunTask()
      requires flash.Valid()
      modifies this
      ensures View() == Task(old(View()))
    {
      hide Command, EndResponse, Memory.Valid;
      RunCommand();
      FinishResponse();
    }
  }

  // ----- the chip erase

  /** It leaves the application section blank exactly when the page buffer was empty: byte-wise writes can fill it. */
  lemma EraseCommandExact(d: Device, ep: Out)
    requires d.flash.Valid() && 0 < d.bootStart <= |d.flash.cells| && Aligned(d.bootStart, |d.flash.buffer|)
    requires ep.Stream() == [CMD_ERASE]
    ensures ApplicationBlank(Task(Given(d, ep)).flash, d.bootStart) <==> d.flash.BufferBlank()
  {
    hide Fetched, Rest, Out.Stream, PageBase, EraseFrom, ApplicationBlank, Memory.BufferBlank;
    FetchStream(ep);
    EraseBlanks(d.flash, d.bootStart);
  }

  // ----- the page buffer over runs of commands

  /** The memory type of a block command. */
  function BlockType(ep: Out): byte {
    Fetched(Rest(Rest(Rest(ep))))
  }

  /** Whether the page buffer is empty after a command, told from its bytes and from whether it was before. */
  function EmptyAfter(empty: bool, ep: Out): bool {
    var c := Fetched(ep);
    if c == CMD_HIGH || c == CMD_LOW then false
    else if c == CMD_COMMIT || c == CMD_ERASE || (c == CMD_WRITE && BlockType(ep) == TYPE_FLASH) then true
    else empty
  }

  /** A byte-wise write puts a zero into the high half of its word. */
  lemma FillShows(m: Memory, addr: nat, b: byte)
    requires m.Valid()
    ensures !m.Fill(addr, b, 0).BufferBlank()
  {
    hide PageBase;
    var off := addr - PageBase(addr, |m.buffer|);
    assert m.Fill(addr, b, 0).buffer[off - off % 2 + 1] == 0;
  }

  lemma BlockBuffer(d: Device, command: byte)
    requires d.flash.Valid() && (command == CMD_WRITE || command == CMD_READ)
    ensures var flash := Block(d, command).flash;
      if command == CMD_WRITE && Fetched(Rest(Rest(d.outEp))) == TYPE_FLASH then flash.BufferBlank()
      else flash == d.flash
  {
    hide PageBase, Fetched, Rest, FillLoop, StoreLoop, ReadLoop, LoadLoop, Respond, Memory.Erase;
  }

  lemma BufferStep(d: Device, ep: Out)
    requires d.flash.Valid() && d.bootStart > 0
    ensures Task(Given(d, ep)).flash.BufferBlank() <==> EmptyAfter(d.flash.BufferBlank(), ep)
    ensures Task(Given(d, ep)).bootStart == d.bootStart
  {
    hide PageBase, Fetched, Rest, Block, Respond, RespondAll, SetAddress, EraseFrom, EndResponse, Memory.Fill,
         Memory.BufferBlank;
    var q := Given(d, Rest(ep));
    BlockBuffer(q, CMD_WRITE);
    BlockBuffer(q, CMD_READ);
    EraseWrites(d.flash, 0, d.bootStart);
    var b := Fetched(Rest(ep));
    FillShows(d.flash, d.currAddress, b);
    FillShows(d.flash, d.currAddress + 1, b);
    BlockKeeps(q, CMD_WRITE);
    BlockKeeps(q, CMD_READ);
  }

  lemma BlockKeeps(d: Device, command: byte)
    requires d.flash.Valid()
    ensures Block(d, command).bootStart == d.bootStart
  {
    hide PageBase, Fetched, Rest, FillLoop, StoreLoop, ReadLoop, LoadLoop, Respond, Memory.Erase, Memory.Write;
  }

  /** The device after the commands that arrive through `eps`, one after the other. */
  function TaskRun(d: Device, eps: seq<Out>): (r: Device)
    requires d.flash.Valid()
    ensures r.flash.Valid() && r.flash.SameShape(d.flash)
    decreases |eps|
  {
    if eps == [] then d else TaskRun(Task(Given(d, eps[0])), eps[1..])
  }

  function EmptyRun(empty: bool, eps: seq<Out>): bool
    decreases |eps|
  {
    if eps == [] then empty else EmptyRun(EmptyAfter(empty, eps[0]), eps[1..])
  }

  /** Over every run of commands, what the host sends tells exactly whether the page buffer is empty. */
  lemma {:induction false} BufferRun(d: Device, eps: seq<Out>)
    requires d.flash.Valid() && d.bootStart > 0
    ensures TaskRun(d, eps).flash.BufferBlank() <==> EmptyRun(d.flash.BufferBlank(), eps)
    ensures TaskRun(d, eps).bootStart == d.bootStart
    decreases |eps|
  {
    hide Task, EmptyAfter, Memory.BufferBlank, Memory.Valid;
    if eps != [] {
      BufferStep(d, eps[0]);
      BufferRun(Task(Given(d, eps[0])), eps[1..]);
    }
  }

  /** And so whether an erase command after it leaves the application section blank. */
  lemma EraseAfterRun(d: Device, eps: seq<Out>, ep: Out)
    requires d.flash.Valid() && 0 < d.bootStart <= |d.flash.cells| && Aligned(d.bootStart, |d.flash.buffer|)
    requires ep.Stream() == [CMD_ERASE]
    ensures ApplicationBlank(Task(Given(TaskRun(d, eps), ep)).flash, d.bootStart) <==>
      EmptyRun(d.flash.BufferBlank(), eps)
  {
    hide Task, TaskRun, EmptyRun, Memory.BufferBlank, ApplicationBlank, PageBase, Out.Stream;
    BufferRun(d, eps);
    EraseCommandExact(TaskRun(d, eps), ep);
  }

  /** One byte written to the flash page, of whatever value, and the section is not blank after an erase. */
  lemma ByteThenErase(d: Device, c: byte, b: byte, w: Out, ep: Out)
    requires d.flash.Valid() && 0 < d.bootStart <= |d.flash.cells| && Aligned(d.bootStart, |d.flash.buffer|)
    requires (c == CMD_HIGH || c == CMD_LOW) && w.Stream() == [c, b] && ep.Stream() == [CMD_ERASE]
    ensures !ApplicationBlank(Task(Given(TaskRun(d, [w]), ep)).flash, d.bootStart)
  {
    hide Task, TaskRun, Memory.BufferBlank, ApplicationBlank, PageBase, Out.Stream, Fetched;
    FetchStream(w);
    EraseAfterRun(d, [w], ep);
    assert [w][1..] == [] && EmptyRun(false, []) == false;
  }
}
