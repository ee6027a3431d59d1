/** The routines of the HID loader, host and device, on their arrays and variables. */
module HidRoutines {
  import opened Bytes
  import opened Flash
  import opened Endpoint
  import opened IntelHex
  import opened HidLoader

  class HexReader {
    const image: array<byte>
    const mask: array<bool>
    var ended: bool
    var count: nat
    var ext: nat

    ghost predicate Valid() {
      image.Length == MEMORY && mask.Length == MEMORY
    }

    ghost function View(): (l: Loader)
      requires Valid()
      reads this, image, mask
      ensures l.Valid()
    {
      Loader(image[..], mask[..], ended, count, ext)
    }

    constructor ()
      ensures Valid() && fresh(image) && fresh(mask)
    {
      image := new byte[MEMORY](_ => 0);
      mask := new bool[MEMORY](_ => false);
      ended, count, ext := false, 0, 0;
    }

    /** The data bytes of a record; `ok` is false if one of them is not a number. */
    method StoreRecord(line: string, base: nat, len: nat, sum: nat) returns (total: nat, ok: bool)
      requires Valid() && base + len < MEMORY && |line| >= 11 + 2 * len
      modifies image, mask
      ensures Storing(View(), total, ok) == StoreData(old(View()), line, base, 0, len, sum)
    {
      hide Byte;
      ghost var goal := StoreData(View(), line, base, 0, len, sum);
      total := sum;
      var num := 0;
      while num != len
        invariant 0 <= num <= len
        invariant StoreData(View(), line, base, num, len, total) == goal
      {
        ghost var before := View();
        var b := Byte(line[9 + 2 * num..]);
        if b.None? { return total, false; }
        image[base + num] := b.value;
        mask[base + num] := true;
        assert View() == before.(image := before.image[base + num := b.value], mask := before.mask[base + num := true]);
        total := total + b.value;
        num := num + 1;
      }
      ok := true;
    }

    /** `inside` is false for a record that the code stores outside the image; nothing is stored here then. */
    method ParseHexLine(line: string) returns (ok: bool, inside: bool)
      requires Valid()
      modifies this, image, mask
      ensures if inside then Parsed(View(), ok) == ParseLine(old(View()), line) else ParseLine(old(View()), line).Wild?
    {
      hide Byte, Half, StoreData, Extended;
      inside := true;
      if |line| < 11 || line[0] != ':' { return false, true; }
      var len := Byte(line[1..]);
      if len.None? || |line| < 11 + 2 * len.value as int { return false, true; }
      var addr := Half(line[3..]);
      if addr.None? { return false, true; }
      var code := Byte(line[7..]);
      if code.None? || !Accepted(addr.value, ext, len.value) { return false, true; }
      var sum := len.value + addr.value / 0x100 + addr.value % 0x100 + code.value;
      if code.value != 0 {
        if code.value == 1 {
          ended := true;
        } else if (code.value == 2 || code.value == 4) && len.value == 2 {
          var v := Extended(line, sum);
          if v.Some? {
            ext := v.value as int * (if code.value == 2 then 0x10 else 0x1_0000);
          }
        }
        return true, true;
      }
      if Wraps(addr.value, ext, len.value) { return false, false; }
      count := count + len.value;
      var total, stored := StoreRecord(line, addr.value + ext, len.value, sum);
      if !stored { return false, true; }
      var c := Byte(line[9 + 2 * len.value..]);
      return c.Some? && (total + c.value) % 0x100 == 0, true;
    }

    method Clear()
      requires Valid()
      modifies this, image, mask
      ensures View() == Empty()
    {
      count, ended, ext := 0, false, 0;
      var i := 0;
      while i < MEMORY
        invariant 0 <= i <= MEMORY && count == 0 && !ended && ext == 0
        invariant forall k :: 0 <= k < i ==> image[k] == 0xFF && !mask[k]
      {
        image[i] := 0xFF;
        mask[i] := false;
        i := i + 1;
      }
      assert image[..] == Empty().image && mask[..] == Empty().mask;
    }

    /** read_intel_hex, given the text of the file if it can be opened; None if the code stores outside the image. */
    method ReadIntelHex(file: Option<string>) returns (result: Option<int>)
      requires Valid()
      modifies this, image, mask
      ensures file.None? ==> result == Some(-1) && View() == Empty()
      ensures file.Some? ==>
        var r := Read(Empty(), file.value);
        && result == (if r.Loaded? then Some(r.loader.count as int) else if r.Failed? then Some(-2) else None)
        && (r.Loaded? ==> View() == r.loader)
    {
      hide ParseLine, LineLength;
      Clear();
      if file.None? { return Some(-1); }
      var rest := file.value;
      while rest != []
        invariant Read(View(), rest) == Read(Empty(), file.value)
        decreases |rest|
      {
        var n := LineLength(rest, BUFFER - 1);
        var ok, inside := ParseHexLine(rest[..n]);
        if !inside { return None; }
        if !ok { return Some(-2); }
        rest := rest[n..];
        if ended { break; }
      }
      return Some(count);
    }

    method BytesWithinRange(begin: int, end: int) returns (found: bool)
      requires Valid()
      ensures found <==> 0 <= begin && 0 <= end && Within(mask[..], begin, end)
    {
      if begin < 0 || begin >= MEMORY || end < 0 || end >= MEMORY { return false; }
      var i := begin;
      while i <= end
        invariant begin <= i && (i <= end || i == end + 1 || i == begin)
        invariant forall k :: begin <= k < i && k <= end ==> !mask[k]
        decreases end - i
      {
        if mask[i] {
          assert mask[..][i];
          return true;
        }
        i := i + 1;
      }
      return false;
    }

    method GetBlock(addr: nat, len: nat) returns (bytes: seq<byte>)
      requires Valid()
      ensures bytes == GetData(View(), addr, len)
    {
      bytes := [];
      var i := 0;
      if addr + len >= MEMORY {
        while i < len
          invariant 0 <= i <= len && bytes == Blank(i)
        {
          bytes := bytes + [0xFF];
          i := i + 1;
        }
        return;
      }
      while i < len
        invariant 0 <= i <= len && |bytes| == i
        invariant forall k :: 0 <= k < i ==> bytes[k] == ImageByte(View(), addr + k)
      {
        if mask[addr + i] {
          bytes := bytes + [image[addr + i]];
        } else {
          bytes := bytes + [0xFF];
        }
        i := i + 1;
      }
    }
  }

  class Bootloader {
    var flash: Memory
    var running: bool
    var outEp: Out

    constructor (flash: Memory)
      ensures View() == Device(flash, true)
    {
      this.flash, running, outEp := flash, true, Out([], []);
    }

    function View(): Device
      reads this
    {
      Device(flash, running)
    }

    /** `done` is false if the host stops sending inside the report, and the device waits for ever. */
    method SetReport(packets: seq<seq<byte>>, large: bool) returns (done: bool)
      requires flash.Valid()
      modifies this
      ensures flash.Valid() && done == HandleReport(old(View()), packets, large).Some?
      ensures done ==> Some(View()) == HandleReport(old(View()), packets, large)
    {
      hide PageBase, Memory.Erase, Memory.Fill, Memory.Write;
      if packets == [] { return false; }
      outEp := Out([], packets).Next();
      var word := Word(outEp.Head(), outEp.Tail().Head());
      outEp := outEp.Tail().Tail();
      if word == START_APPLICATION {
        running := false;
      } else {
        done := FillAndWrite(PageAddress(word, large));
        return;
      }
      done := true;
    }

    method FillAndWrite(addr: nat) returns (done: bool)
      requires flash.Valid()
      modifies this`flash, this`outEp
      ensures flash.Valid()
      ensures var m := FillPage(old(flash).Erase(addr), old(outEp), addr, 0);
        done == m.Some? && (done ==> flash == m.value.Write(addr))
    {
      hide PageBase, Memory.Erase, Memory.Fill, Memory.Write;
      flash := flash.Erase(addr);
      ghost var goal := FillPage(flash, outEp, addr, 0);
      var w := 0;
      while w < |flash.buffer| / 2
        invariant flash.Valid() && 0 <= w <= |flash.buffer| / 2
        invariant FillPage(flash, outEp, addr, w) == goal
      {
        if outEp.bank == [] {
          if outEp.pending == [] { return false; }
          outEp := outEp.Next();
        }
        flash := flash.Fill(addr + 2 * w, outEp.Head(), outEp.Tail().Head());
        outEp := outEp.Tail().Tail();
        w := w + 1;
      }
      flash := flash.Write(addr);
      done := true;
    }
  }

  /** The block loop of main, each report answered by the device; `done` is false if the device waits for ever. */
  method ProgramPart(reader: HexReader, device: Bootloader, part: Part) returns (done: bool)
    requires reader.Valid() && device.flash.Valid() && part.block > 0
    modifies device
    ensures done == Program(old(device.View()), reader.View(), part, 0).Some?
    ensures done ==> Some(device.View()) == Program(old(device.View()), reader.View(), part, 0)
  {
    hide HandleReport, Packets, GetData, Within;
    ghost var l := reader.View();
    var addr := 0;
    while addr < part.code
      invariant device.flash.Valid() && reader.View() == l && addr >= 0
      invariant Program(device.View(), l, part, addr) == Program(old(device.View()), l, part, 0)
    {
      var used := true;
      if addr > 0 {
        used := reader.BytesWithinRange(addr, addr + part.block - 1);
      }
      assert used == Sends(l, part, addr);
      if used {
        var data := reader.GetBlock(addr, part.block);
        var sent := device.SetReport(Packets([Lo(part, addr), Hi(part, addr)] + data, ENDPOINT_SIZE), part.Large());
        if !sent { return false; }
      }
      addr := addr + part.block;
    }
    done := true;
  }
}
