/**
 The frame protocol of the FPGA programmer: bytes are collected in a ring until a
 length-prefixed frame is complete, which is then taken out, carried out and acknowledged.
 */
module FpgaProgrammer {
  import opened Bytes
  import R = RingBuffer

  const START_CONFIG: byte := 0x01
  const DOWNLOAD_DATA: byte := 0x02
  const SPI_DATA: byte := 0x03
  const SPI_SELECT: byte := 0x04
  const USART_DATA: byte := 0x05
  const USE_USART: byte := 0x06
  const USE_SPI: byte := 0x07
  const FPGA_RESET: byte := 0x08
  const FPGA_START: byte := 0x09
  const END_COMMANDS: byte := 0x0A
  const ACK: byte := 0x80
  const NAK: byte := 0x81
  const RING_SIZE: nat := 128

  /**
   What the programmer does to the FPGA and its lines: a data byte sent on the channel of its
   command, the select line switched, or the one action of a command without data.
   */
  datatype Effect = Sent(channel: byte, b: byte) | Select(on: bool) | Action(cmd: byte)

  predicate IsData(cmd: byte) {
    cmd == DOWNLOAD_DATA || cmd == SPI_DATA || cmd == USART_DATA
  }

  /** What the FPGA answers: whether it came up for configuration, its DONE and its INIT_B pin. */
  datatype Pins = Pins(configured: bool, done: bool, initB: bool)

  // ----- frames

  datatype Frame = Frame(cmd: byte, payload: seq<byte>) {
    /** A frame that fits the ring and whose first byte starts a frame. */
    predicate Sendable() {
      cmd < END_COMMANDS && |payload| <= RING_SIZE - 2
    }

    /** The payload the command expects: any for data, one byte for a select, none for the rest. */
    predicate WellFormed() {
      && Sendable()
      && (cmd == SPI_SELECT ==> |payload| == 1)
      && (cmd in {START_CONFIG, USE_SPI, USE_USART, FPGA_RESET, FPGA_START} ==> payload == [])
    }

    function Encoding(): seq<byte>
      requires |payload| < 0x100
    {
      [cmd, |payload|] + payload
    }
  }

  function Each(cmd: byte, payload: seq<byte>): (e: seq<Effect>)
    ensures |e| == |payload|
  {
    seq(|payload|, i requires 0 <= i < |payload| => Sent(cmd, payload[i]))
  }

  /** What a frame asks for. */
  function EffectsOf(f: Frame): seq<Effect>
    requires f.WellFormed()
  {
    if IsData(f.cmd) then Each(f.cmd, f.payload)
    else if f.cmd == SPI_SELECT then [Select(f.payload[0] != 0)]
    else if f.cmd == 0 then []
    else [Action(f.cmd)]
  }

  predicate Accepted(f: Frame, pins: Pins) {
    if f.cmd == START_CONFIG then pins.configured
    else if f.cmd == DOWNLOAD_DATA then pins.done || pins.initB
    else 0 < f.cmd < END_COMMANDS
  }

  // ----- serial.c

  datatype Prog = Prog(rx: seq<byte>, frameSize: byte, effects: seq<Effect>, tx: seq<byte>)

  /** serialAddByte. */
  function AddByte(s: Prog, b: byte): Prog {
    if |s.rx| == 0 && b >= END_COMMANDS then s
    else
      var size := if |s.rx| == 1 then (b + 2) % 0x100 else s.frameSize;
      var rx := s.rx + [b];
      s.(rx := rx, frameSize := if |rx| == size then 0 else size)
  }

  predicate Completes(s: Prog, b: byte) {
    && !(|s.rx| == 0 && b >= END_COMMANDS)
    && |s.rx| + 1 == if |s.rx| == 1 then (b + 2) % 0x100 else s.frameSize
  }

  datatype Processed = Processed(prog: Prog, ok: bool)

  /** The data loop: `n` bytes taken out of the ring, and sent if the command is one for data. */
  function Drain(s: Prog, cmd: byte, n: nat): (r: Prog)
    requires n <= |s.rx|
    ensures r == Prog(s.rx[n..], s.frameSize, r.effects, s.tx)
    decreases n, s
  {
    if n == 0 then s
    else
      Drain(s.(rx := s.rx[1..], effects := if IsData(cmd) then s.effects + [Sent(cmd, s.rx[0])] else s.effects), cmd,
        n - 1)
  }

  /** serialProcess; None if it takes more bytes out of the ring than there are. */
  function Process(s: Prog, pins: Pins): Option<Processed> {
    if |s.rx| < 2 then None
    else
      var cmd, size := s.rx[0], s.rx[1];
      var t := s.(rx := s.rx[2..]);
      if cmd == START_CONFIG then Some(Processed(t.(effects := t.effects + [Action(cmd)]), pins.configured))
      else if cmd == USE_SPI || cmd == USE_USART || cmd == FPGA_RESET || cmd == FPGA_START then
        Some(Processed(t.(effects := t.effects + [Action(cmd)]), true))
      else if cmd == SPI_SELECT then
        if t.rx == [] then None
        else Some(Processed(t.(rx := t.rx[1..], effects := t.effects + [Select(t.rx[0] != 0)]), true))
      else if size > |t.rx| then None
      else Some(Processed(Drain(t, cmd, size), if cmd == DOWNLOAD_DATA then pins.done || pins.initB else IsData(cmd)))
  }

  /** One received byte, as appUsbDataReceived handles it; None also if the ring has no room for it. */
  function Handle(s: Prog, b: byte, pins: Pins): Option<Prog> {
    var t := AddByte(s, b);
    if |t.rx| > RING_SIZE then None
    else if !Completes(s, b) then Some(t)
    else
      var p := Process(t, pins);
      if p.None? then None
      else Some(p.value.prog.(tx := p.value.prog.tx + [if p.value.ok then ACK else NAK, 0]))
  }

  function Feed(s: Prog, bytes: seq<byte>, pins: Pins): Option<Prog>
    decreases |bytes|
  {
    if bytes == [] then Some(s)
    else
      var t := Handle(s, bytes[0], pins);
      if t.None? then None else Feed(t.value, bytes[1..], pins)
  }

  // ----- one frame

  /** The ring while frame `f` is being received, `k` of its bytes in. */
  function Partial(s: Prog, f: Frame, k: nat): Prog
    requires f.Sendable() && k <= |f.Encoding()|
  {
    s.(rx := f.Encoding()[..k], frameSize := if k < 2 || k == |f.Encoding()| then 0 else |f.payload| + 2)
  }

  predicate Idle(s: Prog) {
    s.rx == [] && s.frameSize == 0
  }

  lemma ByteOfFrame(s: Prog, f: Frame, k: nat)
    requires Idle(s) && f.Sendable() && k < |f.Encoding()|
    ensures AddByte(Partial(s, f, k), f.Encoding()[k]) == Partial(s, f, k + 1)
    ensures Completes(Partial(s, f, k), f.Encoding()[k]) <==> k + 1 == |f.Encoding()|
    ensures |Partial(s, f, k + 1).rx| == k + 1 <= RING_SIZE
  {
    assert f.Encoding()[..k] + [f.Encoding()[k]] == f.Encoding()[..k + 1];
  }

  lemma {:induction false} FeedFrame(s: Prog, f: Frame, k: nat, pins: Pins)
    requires Idle(s) && f.Sendable() && k < |f.Encoding()|
    ensures Feed(Partial(s, f, k), f.Encoding()[k..], pins) ==
      match Process(Partial(s, f, |f.Encoding()|), pins)
      case None => None
      case Some(p) => Some(p.prog.(tx := p.prog.tx + [if p.ok then ACK else NAK, 0]))
    decreases |f.Encoding()| - k
  {
    hide Process, Partial, AddByte, Completes, Frame.Encoding;
    var e := f.Encoding();
    ByteOfFrame(s, f, k);
    assert e[k..][0] == e[k] && e[k..][1..] == e[k + 1..];
    if k + 1 == |e| {
      assert e[k + 1..] == [];
    } else {
      FeedFrame(s, f, k + 1, pins);
    }
  }

  lemma {:induction false} DrainAll(s: Prog, cmd: byte, n: nat)
    requires n <= |s.rx|
    ensures Drain(s, cmd, n) ==
      s.(rx := s.rx[n..], effects := if IsData(cmd) then s.effects + Each(cmd, s.rx[..n]) else s.effects)
    decreases n
  {
    if n == 0 {
      assert s.rx[0..] == s.rx && s.effects + Each(cmd, s.rx[..0]) == s.effects;
    } else {
      var t := s.(rx := s.rx[1..], effects := if IsData(cmd) then s.effects + [Sent(cmd, s.rx[0])] else s.effects);
      DrainAll(t, cmd, n - 1);
      assert s.rx[1..][n - 1..] == s.rx[n..];
      assert [Sent(cmd, s.rx[0])] + Each(cmd, t.rx[..n - 1]) == Each(cmd, s.rx[..n]);
      assert s.effects + [Sent(cmd, s.rx[0])] + Each(cmd, t.rx[..n - 1]) == s.effects +
        ([Sent(cmd, s.rx[0])] + Each(cmd, t.rx[..n - 1]));
    }
  }

  /** The state after a frame has been carried out and acknowledged. */
  function Served(s: Prog, f: Frame, pins: Pins): Prog
    requires f.WellFormed()
  {
    s.(effects := s.effects + EffectsOf(f), tx := s.tx + [if Accepted(f, pins) then ACK else NAK, 0])
  }

  lemma ProcessWhole(s: Prog, f: Frame, pins: Pins)
    requires Idle(s) && f.Sendable()
    ensures var p := Process(Partial(s, f, |f.Encoding()|), pins);
      && (p.Some? && Idle(p.value.prog) <==> f.WellFormed())
      && (f.WellFormed() ==>
            p == Some(Processed(s.(effects := s.effects + EffectsOf(f)), Accepted(f, pins))))
  {
    var e := f.Encoding();
    var t := s.(rx := f.payload);
    assert e[..|e|] == e && e[2..] == f.payload;
    DrainAll(t, f.cmd, |f.payload|);
    assert f.payload[..|f.payload|] == f.payload;
    assert s.effects + [] == s.effects;
    hide Drain, Each;
  }

  /** A frame longer than the ring is never completed. */
  lemma {:induction false} TooLong(s: Prog, f: Frame, k: nat, pins: Pins)
    requires f.cmd < END_COMMANDS && RING_SIZE - 2 < |f.payload| < 0x100 && k <= RING_SIZE
    requires s.rx == f.Encoding()[..k] && s.frameSize == if k < 2 then 0 else (|f.payload| + 2) % 0x100
    ensures Feed(s, f.Encoding()[k..], pins) == None
    decreases RING_SIZE - k
  {
    var e := f.Encoding();
    assert e[k..][0] == e[k] && e[k..][1..] == e[k + 1..];
    assert e[..k] + [e[k]] == e[..k + 1];
    if k < RING_SIZE {
      assert !Completes(s, e[k]);
      TooLong(AddByte(s, e[k]), f, k + 1, pins);
    }
  }

  /**
   A frame that reaches an idle parser is carried out and acknowledged and leaves the parser idle
   exactly when it fits the ring and its payload is what its command expects.
   */
  lemma FrameServed(s: Prog, f: Frame, pins: Pins)
    requires Idle(s) && f.cmd < END_COMMANDS && |f.payload| < 0x100
    ensures f.WellFormed() ==> Feed(s, f.Encoding(), pins) == Some(Served(s, f, pins))
    ensures Feed(s, f.Encoding(), pins).Some? && Idle(Feed(s, f.Encoding(), pins).value) <==> f.WellFormed()
  {
    assert f.Encoding()[..0] == [] && f.Encoding()[0..] == f.Encoding();
    if f.Sendable() {
      assert Partial(s, f, 0) == s;
      FeedFrame(s, f, 0, pins);
      ProcessWhole(s, f, pins);
    } else {
      TooLong(s, f, 0, pins);
    }
    hide Process, Feed, EffectsOf;
  }

  // ----- streams of frames

  /** A frame, the bytes that follow it before the next one, and the answers of the FPGA. */
  datatype Item = Item(frame: Frame, gap: seq<byte>, pins: Pins) {
    predicate Valid() {
      frame.WellFormed() && forall i :: 0 <= i < |gap| ==> gap[i] >= END_COMMANDS
    }
  }

  predicate AllValid(items: seq<Item>) {
    items == [] || (items[0].Valid() && AllValid(items[1..]))
  }

  function FeedItems(s: Prog, items: seq<Item>): Option<Prog>
    requires AllValid(items)
    decreases |items|
  {
    if items == [] then Some(s)
    else
      var t := Feed(s, items[0].frame.Encoding() + items[0].gap, items[0].pins);
      if t.None? then None else FeedItems(t.value, items[1..])
  }

  function ServedAll(s: Prog, items: seq<Item>): Prog
    requires AllValid(items)
    decreases |items|
  {
    if items == [] then s else ServedAll(Served(s, items[0].frame, items[0].pins), items[1..])
  }

  lemma {:induction false} FeedAppend(s: Prog, a: seq<byte>, b: seq<byte>, pins: Pins)
    requires Feed(s, a, pins).Some?
    ensures Feed(s, a + b, pins) == Feed(Feed(s, a, pins).value, b, pins)
    decreases |a|
  {
    hide Handle;
    if a == [] {
      assert a + b == b;
    } else {
      assert (a + b)[1..] == a[1..] + b;
      FeedAppend(Handle(s, a[0], pins).value, a[1..], b, pins);
    }
  }

  lemma {:induction false} GapSkipped(s: Prog, gap: seq<byte>, pins: Pins)
    requires Idle(s) && forall i :: 0 <= i < |gap| ==> gap[i] >= END_COMMANDS
    ensures Feed(s, gap, pins) == Some(s)
    decreases |gap|
  {
    if gap != [] { GapSkipped(s, gap[1..], pins); }
  }

  /** Every stream of well-formed frames, with any filler between them, is carried out frame by frame and in order. */
  lemma {:induction false} FramesServed(s: Prog, items: seq<Item>)
    requires Idle(s) && AllValid(items)
    ensures FeedItems(s, items) == Some(ServedAll(s, items)) && Idle(ServedAll(s, items))
    ensures |ServedAll(s, items).tx| == |s.tx| + 2 * |items|
    decreases |items|
  {
    if items != [] {
      var it := items[0];
      FrameServed(s, it.frame, it.pins);
      FeedAppend(s, it.frame.Encoding(), it.gap, it.pins);
      GapSkipped(Served(s, it.frame, it.pins), it.gap, it.pins);
      hide Feed, Frame.Encoding, EffectsOf;
      FramesServed(Served(s, it.frame, it.pins), items[1..]);
    }
  }

  // ----- the routines

  class Programmer {
    const buffer: R.Ring
    var frameSize: byte
    var effects: seq<Effect>
    var tx: seq<byte>

    ghost predicate Valid()
      reads this, buffer
    {
      buffer.Valid() && buffer.data.Length == RING_SIZE
    }

    ghost function View(): Prog
      requires Valid()
      reads this, buffer, buffer.data
    {
      Prog(buffer.Contents(), frameSize, effects, tx)
    }

    /** serialInit. */
    constructor ()
      ensures Valid() && Idle(View()) && View() == Prog([], 0, [], [])
    {
      var storage := new byte[RING_SIZE](i => 0);
      buffer := new R.Ring(storage);
      frameSize := 0;
      effects, tx := [], [];
    }

    method SerialAddByte(b: byte) returns (complete: bool)
      requires Valid() && |AddByte(View(), b).rx| <= RING_SIZE
      modifies this`frameSize, buffer`inPos, buffer`count, buffer.data
      ensures Valid() && View() == AddByte(old(View()), b) && complete == Completes(old(View()), b)
    {
      var size := buffer.GetCount();
      if size == 0 {
        if b >= END_COMMANDS {
          return false;
        }
      } else if size == 1 {
        frameSize := (b + 2) % 0x100;
      }
      buffer.Insert(b);
      size := buffer.GetCount();
      if size == frameSize {
        frameSize := 0;
        return true;
      }
      return false;
    }

    /** The loop of a command with data, and of an unknown one. */
    method DrainPayload(cmd: byte, size: byte)
      requires Valid() && size <= |buffer.Contents()|
      modifies this`effects, buffer`outPos, buffer`count
      ensures Valid() && View() == Drain(old(View()), cmd, size)
    {
      var n: nat := size;
      while n != 0
        invariant Valid() && n <= |buffer.Contents()|
        invariant Drain(View(), cmd, n) == Drain(old(View()), cmd, size)
      {
        ghost var before := View();
        var b := buffer.Remove();
        assert buffer.Contents() == before.rx[1..] && b == before.rx[0];
        if IsData(cmd) {
          effects := effects + [Sent(cmd, b)];
        }
        n := n - 1;
      }
    }

    method SerialProcess(pins: Pins) returns (ok: bool)
      requires Valid() && Process(View(), pins).Some?
      modifies this`effects, buffer`outPos, buffer`count
      ensures Valid() && Process(old(View()), pins) == Some(Processed(View(), ok))
    {
      hide Drain;
      ghost var all := buffer.Contents();
      var cmd := buffer.Remove();
      var size := buffer.Remove();
      assert cmd == all[0] && size == all[1] && buffer.Contents() == all[2..];
      if cmd == START_CONFIG {
        effects := effects + [Action(cmd)];
        return pins.configured;
      } else if cmd == DOWNLOAD_DATA {
        DrainPayload(cmd, size);
        if pins.done {
          return true;
        }
        if !pins.initB {
          return false;
        }
      } else if cmd == USE_SPI || cmd == USE_USART || cmd == FPGA_RESET || cmd == FPGA_START {
        effects := effects + [Action(cmd)];
      } else if cmd == SPI_DATA || cmd == USART_DATA {
        DrainPayload(cmd, size);
      } else if cmd == SPI_SELECT {
        var prop := buffer.Remove();
        assert prop == all[2] && buffer.Contents() == all[2..][1..];
        effects := effects + [Select(prop != 0)];
      } else {
        DrainPayload(cmd, size);
        return false;
      }
      return true;
    }

    /** appUsbDataReceived, for bytes that neither overrun nor underrun the ring. */
    method UsbDataReceived(bytes: seq<byte>, pins: Pins)
      requires Valid() && Feed(View(), bytes, pins).Some?
      modifies this, buffer`inPos, buffer`outPos, buffer`count, buffer.data
      ensures Valid() && Some(View()) == Feed(old(View()), bytes, pins)
    {
      hide Process, AddByte, Completes;
      var i := 0;
      while i < |bytes|
        invariant 0 <= i <= |bytes| && Valid()
        invariant Feed(View(), bytes[i..], pins) == Feed(old(View()), bytes, pins)
      {
        assert bytes[i..][0] == bytes[i] && bytes[i..][1..] == bytes[i + 1..];
        var complete := SerialAddByte(bytes[i]);
        if complete {
          var ok := SerialProcess(pins);
          tx := tx + [if ok then ACK else NAK, 0];
        }
        i := i + 1;
      }
    }
  }
}
