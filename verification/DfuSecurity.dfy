/** Chip erase, blank check and secure mode of the DFU boot loader, over every run of requests. */
module DfuSecurity {
  import opened Bytes
  import opened ChipErase
  import opened Flash
  import opened Dfu
  import opened DfuProgramming

  // ----- chip erase and blank check

  const BLANK_CHECK: seq<byte> := [0x01, 0, 0, 0, 0]
  const CHIP_ERASE: seq<byte> := [0x00, 0xFF, 0, 0, 0]

  /**
   The blank check reports an error exactly when some application byte is not blank; the
   device then holds the least such address, and an upload returns its low 16 bits.
   */
  lemma BlankCheckExact(d: Device, length: word16)
    requires d.Valid() && !d.isSecure && !d.waitForExit && d.state != DnloadIdle && d.bootStart <= 0x100_0000
    ensures var r := Handle(d, CommandRequest(COMMAND_DISP_DATA, BLANK_CHECK)).device;
      if ApplicationBlank(d.flash, d.bootStart) then r == d.(sent := Command(COMMAND_DISP_DATA, BLANK_CHECK, 0))
      else
        var a := r.FlashAddress();
        && r.state == DfuError && r.status == ErrCheckErased && r.flash == d.flash
        && a < d.bootStart && d.flash.cells[a] != 0xFF && ApplicationBlank(d.flash, a)
        && Handle(r, Request(REQ_UPLOAD, length, [], 0)).packets == [[r.startAddr % 0x100, r.startAddr / 0x100]]
  {
    hide PageBase, HandleDownload;
    CommandRuns(d, COMMAND_DISP_DATA, BLANK_CHECK);
    var a := FirstNonBlank(d.flash.cells, 0, d.bootStart);
    hide FirstNonBlank;
    if a < d.bootStart {
      assert !ApplicationBlank(d.flash, d.bootStart);
      assert Handle(d, CommandRequest(COMMAND_DISP_DATA, BLANK_CHECK)).device.FlashAddress() == a;
    }
  }

  /** With an empty page buffer a chip erase unlocks the device, and a blank check then finds nothing. */
  lemma EraseThenBlankCheck(d: Device)
    requires d.Valid() && !d.waitForExit && d.flash.BufferBlank() && d.bootStart <= 0x100_0000
    ensures var e := Handle(d, CommandRequest(COMMAND_WRITE, CHIP_ERASE)).device;
      && !e.isSecure && e.state == (if d.state == DnloadIdle then DfuIdle else d.state) && e.eeprom == d.eeprom
      && Handle(e, CommandRequest(COMMAND_DISP_DATA, BLANK_CHECK)).device ==
        e.(sent := Command(COMMAND_DISP_DATA, BLANK_CHECK, 0))
  {
    hide PageBase, Handle, EraseFrom;
    CommandRuns(d, COMMAND_WRITE, CHIP_ERASE);
    EraseBlanks(d.flash, d.bootStart);
    BlankCheckExact(Handle(d, CommandRequest(COMMAND_WRITE, CHIP_ERASE)).device, 0);
  }

  /** What a chip erase request and a blank check after it do, whatever is in the page buffer. */
  lemma EraseRequestExact(d: Device)
    requires d.Valid() && !d.waitForExit && d.bootStart <= 0x100_0000
    ensures var e := Handle(d, CommandRequest(COMMAND_WRITE, CHIP_ERASE)).device;
      && !e.isSecure && !e.waitForExit && e.bootStart == d.bootStart && e.state != DnloadIdle &&
        e.flash.SameShape(d.flash)
      && (ApplicationBlank(e.flash, e.bootStart) <==> d.flash.BufferBlank())
      && (d.state != DfuError ==>
            (Handle(e, CommandRequest(COMMAND_DISP_DATA, BLANK_CHECK)).device.state == DfuError <==>
              !d.flash.BufferBlank()))
  {
    hide PageBase, Handle, EraseFrom;
    CommandRuns(d, COMMAND_WRITE, CHIP_ERASE);
    EraseBlanks(d.flash, d.bootStart);
    BlankCheckExact(Handle(d, CommandRequest(COMMAND_WRITE, CHIP_ERASE)).device, 0);
  }

  // ----- secure mode

  datatype Outcome = Outcome(device: Device, replies: seq<seq<seq<byte>>>)

  function Run(d: Device, requests: seq<Request>): (r: Outcome)
    requires d.Valid()
    ensures r.device.Valid()
    decreases |requests|
  {
    if requests == [] then Outcome(d, [])
    else
      var h := Handle(d, requests[0]);
      var rest := Run(h.device, requests[1..]);
      Outcome(rest.device, [h.packets] + rest.replies)
  }

  predicate Locked(d: Device) {
    && d.Valid() && d.isSecure && !d.waitForExit && d.flash.BufferBlank()
    && (d.state == DfuIdle || d.state == DfuError)
  }

  /** Start-up with SECURE_MODE set. */
  lemma ResetLocked(flash: Memory, eeprom: seq<byte>, bootStart: nat, signature: seq<byte>)
    requires flash.Valid() && flash.BufferBlank() && |signature| == 3
    requires 0 < bootStart <= |flash.cells| && Aligned(bootStart, |flash.buffer|)
    ensures Locked(Reset(true, flash, eeprom, bootStart, signature))
  {
  }

  lemma LockedProcess(d: Device, stray: byte)
    requires Locked(d)
    ensures var r := Process(d, stray);
      && r.eeprom == d.eeprom && !r.waitForExit && r.bootStart == d.bootStart && r.flash.SameShape(d.flash)
      && (r.state == d.state || r.state == DfuError)
      && (r.isSecure ==> r.flash == d.flash)
      && (!r.isSecure ==> r.flash == EraseFrom(d.flash, 0, d.bootStart))
  {
    hide PageBase, EraseFrom, MemProg, MemRead;
  }

  /** One request to a locked device: either nothing in memory changes, or the application is erased. */
  lemma LockedStep(d: Device, request: Request)
    requires Locked(d)
    ensures var r := Handle(d, request).device;
      && r.eeprom == d.eeprom && r.bootStart == d.bootStart && r.flash.SameShape(d.flash)
      && (r.isSecure ==> Locked(r) && r.flash == d.flash)
      && (!r.isSecure ==> ApplicationBlank(r.flash, r.bootStart))
  {
    hide PageBase, EraseFrom, Process, LoadCommand;
    if request.code == REQ_DNLOAD && request.length != 0 && request.packets != [] {
      var c := d.(sent := d.sent.(dataSize := request.length));
      var l := LoadCommand(c.sent, Endpoint.Out([], request.packets).Next());
      LockedProcess(c.(sent := l.sent), request.stray);
    }
    EraseBlanks(d.flash, d.bootStart);
  }

  lemma OpenStep(d: Device, request: Request)
    requires d.Valid() && !d.isSecure
    ensures !Handle(d, request).device.isSecure
  {
    hide PageBase, LoadCommand, Process, FinishDownload, HandleUpload;
  }

  /** Secure mode, once left, is never entered again. */
  lemma {:induction false} StaysOpen(d: Device, requests: seq<Request>)
    requires d.Valid() && !d.isSecure
    ensures !Run(d, requests).device.isSecure
    decreases |requests|
  {
    hide Handle, Device.Valid;
    if requests != [] {
      OpenStep(d, requests[0]);
      StaysOpen(Handle(d, requests[0]).device, requests[1..]);
    }
  }

  /**
   In every run of a locked device: as long as it is locked, its state is dfuIDLE or dfuERROR
   and neither memory has changed; and if it ends up unlocked, there was one request before
   which that held and after which the whole application section was blank.
   */
  lemma {:induction false} SecureRun(d: Device, requests: seq<Request>)
    requires Locked(d)
    ensures var r := Run(d, requests).device;
      if r.isSecure then Locked(r) && r.flash == d.flash && r.eeprom == d.eeprom
      else exists k :: 0 <= k < |requests| && Unlocks(d, requests, k)
    decreases |requests|
  {
    hide Handle, Device.Valid, ApplicationBlank;
    if requests != [] {
      var h := Handle(d, requests[0]).device;
      LockedStep(d, requests[0]);
      if h.isSecure {
        SecureRun(h, requests[1..]);
        if !Run(d, requests).device.isSecure {
          var k :| 0 <= k < |requests| - 1 && Unlocks(h, requests[1..], k);
          assert requests[..k + 1][1..] == requests[1..][..k];
          assert Unlocks(d, requests, k + 1);
        }
      } else {
        StaysOpen(h, requests[1..]);
        assert requests[..0] == [];
        assert Unlocks(d, requests, 0);
      }
    }
  }

  /** Request `k` is the one that unlocks the device. */
  ghost predicate Unlocks(d: Device, requests: seq<Request>, k: nat)
    requires Locked(d) && k < |requests|
  {
    var before := Run(d, requests[..k]).device;
    var after := Handle(before, requests[k]).device;
    && Locked(before) && before.flash == d.flash && before.eeprom == d.eeprom
    && !after.isSecure && after.eeprom == d.eeprom && after.bootStart == d.bootStart
    && |after.flash.cells| == |d.flash.cells|
    && ApplicationBlank(after.flash, d.bootStart)
  }

  /** Two devices that differ at most in what their memories contain. */
  predicate SameButMemory(d: Device, e: Device) {
    e == d.(flash := e.flash, eeprom := e.eeprom)
  }

  lemma NoLeakProcess(d: Device, e: Device, stray: byte)
    requires Locked(d) && Locked(e) && SameButMemory(d, e)
    ensures SameButMemory(Process(d, stray), Process(e, stray))
  {
    hide PageBase, EraseFrom, MemProg, MemRead;
  }

  lemma NoLeakDownload(d: Device, e: Device, request: Request)
    requires Locked(d) && Locked(e) && SameButMemory(d, e)
    ensures SameButMemory(HandleDownload(d, request), HandleDownload(e, request))
  {
    hide PageBase, LoadCommand, Process, Memory.Valid;
    if d.sent.dataSize != 0 && request.packets != [] {
      var l := LoadCommand(d.sent, Endpoint.Out([], request.packets).Next());
      LockedProcess(d.(sent := l.sent), request.stray);
      LockedProcess(e.(sent := l.sent), request.stray);
      NoLeakProcess(d.(sent := l.sent), e.(sent := l.sent), request.stray);
    }
  }

  lemma NoLeakStep(d: Device, e: Device, request: Request)
    requires Locked(d) && Locked(e) && SameButMemory(d, e)
    ensures SameButMemory(Handle(d, request).device, Handle(e, request).device)
    ensures Handle(d, request).packets == Handle(e, request).packets
  {
    hide PageBase, HandleDownload, Memory.Valid;
    var c := d.sent.(dataSize := request.length);
    NoLeakDownload(d.(sent := c), e.(sent := c), request);
  }

  /** Nothing a locked device sends depends on the contents of its flash or its EEPROM. */
  lemma {:induction false} NoLeak(d: Device, e: Device, requests: seq<Request>)
    requires Locked(d) && Locked(e) && SameButMemory(d, e) && Run(d, requests).device.isSecure
    ensures Run(e, requests).device.isSecure && Run(e, requests).replies == Run(d, requests).replies
    decreases |requests|
  {
    hide Handle, Device.Valid;
    if requests != [] {
      var h := Handle(d, requests[0]).device;
      var g := Handle(e, requests[0]).device;
      if !h.isSecure {
        StaysOpen(h, requests[1..]);
      }
      LockedStep(d, requests[0]);
      LockedStep(e, requests[0]);
      NoLeakStep(d, e, requests[0]);
      NoLeak(h, g, requests[1..]);
    }
  }

  // ----- reads past a table

  /** A read command, as the device loads it, stays inside the table it names. */
  predicate InsideTable(d: Device, request: Request)
    requires d.Valid()
  {
    request.code == REQ_DNLOAD && request.length != 0 && request.packets != [] ==>
      var c := LoadCommand(d.sent.(dataSize := request.length), Endpoint.Out([], request.packets).Next()).sent;
      c.code == COMMAND_READ ==>
        (c.data[0] == 0x00 ==> c.data[1] < |BOOTLOADER_INFO|) &&
          (c.data[0] == 0x01 ==> 0x30 <= c.data[1] < 0x30 + |d.signature|)
  }

  /**
   The byte found past a table does not matter to a locked device exactly then: otherwise the host can have it
   sent.
   */
  lemma StrayExact(d: Device, request: Request, other: byte)
    requires Locked(d)
    ensures InsideTable(d, request) ==> Handle(d, request.(stray := other)) == Handle(d, request)
    ensures !InsideTable(d, request) ==>
      var aborted := Handle(Handle(d, request).device, Request(REQ_ABORT, 0, [], 0)).device;
      Handle(aborted, Request(REQ_UPLOAD, 1, [], 0)).packets == [[request.stray]]
  {
    hide PageBase, LoadCommand, EraseFrom, MemProg, MemRead;
  }

  predicate AllInside(d: Device, requests: seq<Request>)
    requires d.Valid()
    decreases |requests|
  {
    requests == [] || (InsideTable(d, requests[0]) && AllInside(Handle(d, requests[0]).device, requests[1..]))
  }

  predicate SameButStray(requests: seq<Request>, others: seq<Request>) {
    && |others| == |requests|
    && forall i :: 0 <= i < |requests| ==> others[i] == requests[i].(stray := others[i].stray)
  }

  /** So over every run of such reads a locked device does the same whatever lies behind its tables. */
  lemma {:induction false} StrayNeverSent(d: Device, requests: seq<Request>, others: seq<Request>)
    requires Locked(d) && AllInside(d, requests) && SameButStray(requests, others) && Run(d, requests).device.isSecure
    ensures Run(d, others) == Run(d, requests)
    decreases |requests|
  {
    hide Handle, InsideTable, Device.Valid;
    if requests != [] {
      var h := Handle(d, requests[0]).device;
      if !h.isSecure {
        StaysOpen(h, requests[1..]);
      }
      LockedStep(d, requests[0]);
      StrayExact(d, requests[0], others[0].stray);
      StrayNeverSent(h, requests[1..], others[1..]);
    }
  }

  /** And what it sends depends on no memory at all. */
  lemma NoLeakInside(d: Device, e: Device, requests: seq<Request>, others: seq<Request>)
    requires Locked(d) && Locked(e) && SameButMemory(d, e) && Run(d, requests).device.isSecure
    requires AllInside(d, requests) && SameButStray(requests, others)
    ensures Run(e, others).device.isSecure && Run(e, others).replies == Run(d, requests).replies
  {
    hide Run, AllInside, Locked;
    StrayNeverSent(d, requests, others);
    NoLeak(d, e, others);
  }
}
