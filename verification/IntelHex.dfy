/**
 The Intel HEX reader of the host loader: lines are parsed in place into a 64 KB image and a
 mask of the bytes that were given.  A field is read as sscanf's %x reads it: as many hex digits
 as its width allows, at least one.
 */
module IntelHex {
  import opened Bytes

  const MEMORY: nat := 0x1_0000
  const BUFFER: nat := 1024

  // ----- fields

  function Digit(c: char): Option<nat> {
    if '0' <= c <= '9' then Some((c - '0') as int)
    else if 'a' <= c <= 'f' then Some((c - 'a') as int + 10)
    else if 'A' <= c <= 'F' then Some((c - 'A') as int + 10)
    else None
  }

  /** The value of the leading hex digits of `s`, at most `width` of them, after `acc`. */
  function Scan(s: string, width: nat, acc: nat): nat
    decreases width, s
  {
    if width == 0 || s == [] || Digit(s[0]).None? then acc
    else Scan(s[1..], width - 1, acc * 16 + Digit(s[0]).value)
  }

  /** sscanf with a %x of the given width. */
  function Field(s: string, width: nat): Option<nat> {
    if width == 0 || s == [] || Digit(s[0]).None? then None else Some(Scan(s, width, 0))
  }

  /** What `width` more digits make of a bound. */
  function Limit(bound: nat, width: nat): (limit: nat)
    ensures limit >= bound
    decreases width, bound
  {
    if width == 0 then bound else Limit(bound * 16, width - 1)
  }

  lemma {:induction false} ScanLess(s: string, width: nat, acc: nat, bound: nat)
    requires acc < bound
    ensures Scan(s, width, acc) < Limit(bound, width)
    decreases width
  {
    if width != 0 && s != [] && Digit(s[0]).Some? {
      ScanLess(s[1..], width - 1, acc * 16 + Digit(s[0]).value, bound * 16);
    }
  }

  lemma ScanBound(s: string)
    ensures Scan(s, 2, 0) < 0x100 && Scan(s, 4, 0) < 0x1_0000
  {
    ScanLess(s, 2, 0, 1);
    ScanLess(s, 4, 0, 1);
    assert Limit(1, 2) == 0x100 && Limit(1, 4) == 0x1_0000;
  }

  function Byte(s: string): (r: Option<byte>)
    ensures r.Some? <==> Field(s, 2).Some?
    ensures r.Some? ==> r.value == Field(s, 2).value
  {
    ScanBound(s);
    if Field(s, 2).None? then None else Some(Field(s, 2).value)
  }

  function Half(s: string): (r: Option<word16>)
    ensures r.Some? <==> Field(s, 4).Some?
    ensures r.Some? ==> r.value == Field(s, 4).value
  {
    ScanBound(s);
    if Field(s, 4).None? then None else Some(Field(s, 4).value)
  }

  // ----- the loader's variables

  datatype Loader = Loader(image: seq<byte>, mask: seq<bool>, ended: bool, count: nat, ext: nat) {
    predicate Valid() {
      |image| == MEMORY && |mask| == MEMORY
    }
  }

  function Empty(): (l: Loader)
    ensures l.Valid()
  {
    Loader(Blank(MEMORY), seq(MEMORY, _ => false), false, 0, 0)
  }

  /** `Wild` is a data record that is stored outside the image. */
  datatype Parsed = Parsed(loader: Loader, ok: bool) | Wild

  /** The bound on a record, tested in 32 bits: the sum of the three can wrap around. */
  predicate Accepted(addr: word16, ext: nat, len: byte) {
    (addr + ext + len) % TWO32 < MEMORY
  }

  predicate Wraps(addr: word16, ext: nat, len: byte) {
    addr + ext + len >= TWO32
  }

  /** Where byte `num` of a data record goes. */
  function Index(addr: word16, ext: nat, num: nat): nat {
    (addr + ext + num) % TWO32
  }

  /** The values `ext` takes: a segment or a linear base. */
  predicate IsBase(ext: nat) {
    exists v: word16 :: ext == v * 0x10 || ext == v * 0x1_0000
  }

  /** An accepted record is stored inside the image exactly when its sum did not wrap around. */
  lemma InsideExact(addr: word16, ext: nat, len: byte)
    requires Accepted(addr, ext, len) && IsBase(ext)
    ensures (forall num :: 0 <= num < len ==> Index(addr, ext, num) < MEMORY) <==> !Wraps(addr, ext, len)
    ensures Wraps(addr, ext, len) <==> ext == 0xFFFF_0000 && addr as int + len as int >= 0x1_0000
  {
    var v: word16 :| ext == v * 0x10 || ext == v * 0x1_0000;
    if Wraps(addr, ext, len) {
      assert ext == 0xFFFF_0000;
      assert Index(addr, ext, 0) == addr + ext;
    } else {
      assert addr + ext + len < MEMORY;
      forall num | 0 <= num < len ensures Index(addr, ext, num) < MEMORY {
        assert addr + ext + num < MEMORY;
      }
    }
  }

  datatype Storing = Storing(loader: Loader, sum: nat, ok: bool)

  /** The data loop: byte `num` of `len` is read from the line and stored at `base` plus `num`. */
  function StoreData(l: Loader, line: string, base: nat, num: nat, len: nat, sum: nat): (r: Storing)
    requires l.Valid() && num <= len && base + len < MEMORY && |line| >= 11 + 2 * len
    ensures r.loader.Valid()
    decreases len - num
  {
    if num == len then Storing(l, sum, true)
    else
      var b := Byte(line[9 + 2 * num..]);
      if b.None? then Storing(l, sum, false)
      else
        StoreData(l.(image := l.image[base + num := b.value], mask := l.mask[base + num := true]),
                  line, base, num + 1, len, sum + b.value)
  }

  /** An extended address record: the new base if its field and its checksum can be read and agree. */
  function Extended(line: string, sum: nat): Option<word16>
    requires |line| >= 15
  {
    var v, c := Half(line[9..]), Byte(line[13..]);
    if v.None? || c.None? || (sum + v.value / 0x100 + v.value % 0x100 + c.value) % 0x100 != 0 then None else v
  }

  function ParseData(l: Loader, line: string, base: nat, len: nat, sum: nat): (r: Parsed)
    requires l.Valid() && base + len < MEMORY && |line| >= 11 + 2 * len
    ensures r.Parsed? && r.loader.Valid()
  {
    var s := StoreData(l.(count := l.count + len), line, base, 0, len, sum);
    if !s.ok then Parsed(s.loader, false)
    else
      var c := Byte(line[9 + 2 * len..]);
      Parsed(s.loader, c.Some? && (s.sum + c.value) % 0x100 == 0)
  }

  /** parse_hex_line. */
  function ParseLine(l: Loader, line: string): (r: Parsed)
    requires l.Valid()
    ensures r.Parsed? ==> r.loader.Valid()
  {
    if |line| < 11 || line[0] != ':' then Parsed(l, false)
    else
      var len, addr, code := Byte(line[1..]), Half(line[3..]), Byte(line[7..]);
      if len.None? || |line| < 11 + 2 * len.value || addr.None? || code.None? then Parsed(l, false)
      else if !Accepted(addr.value, l.ext, len.value) then Parsed(l, false)
      else
        var sum := len.value + addr.value / 0x100 + addr.value % 0x100 + code.value;
        if code.value == 0 && Wraps(addr.value, l.ext, len.value) then Wild
        else if code.value == 0 then ParseData(l, line, addr.value + l.ext, len.value, sum)
        else if code.value == 1 then Parsed(l.(ended := true), true)
        else if (code.value == 2 || code.value == 4) && len.value == 2 && Extended(line, sum).Some? then
          Parsed(l.(ext := Extended(line, sum).value * (if code.value == 2 then 0x10 else 0x1_0000)), true)
        else Parsed(l, true)
  }

  // ----- lines

  /** The length of what fgets returns: up to and including a newline, at most what the buffer holds. */
  function LineLength(text: string, limit: nat): (n: nat)
    ensures n <= |text| && n <= limit
    ensures text != [] && limit > 0 ==> n > 0
    decreases limit, text
  {
    if text == [] || limit == 0 then 0
    else if text[0] == '\n' then 1
    else 1 + LineLength(text[1..], limit - 1)
  }

  datatype Outcome = Loaded(loader: Loader) | Failed | Strayed

  /** read_intel_hex on the text of a file, from variables `l`. */
  function Read(l: Loader, text: string): (r: Outcome)
    requires l.Valid()
    ensures r.Loaded? ==> r.loader.Valid()
    decreases |text|
  {
    if text == [] then Loaded(l)
    else
      var n := LineLength(text, BUFFER - 1);
      var p := ParseLine(l, text[..n]);
      if p.Wild? then Strayed
      else if !p.ok then Failed
      else if p.loader.ended then Loaded(p.loader)
      else Read(p.loader, text[n..])
  }

  // ----- what a text means

  /** The bytes a data record gives, and where. */
  datatype Data = Data(base: nat, bytes: seq<byte>)

  datatype Record = Bad | Outside | End | Skip | Base(ext: nat) | Give(data: Data)

  function DataBytes(line: string, num: nat, len: nat): (r: Option<seq<byte>>)
    requires num <= len && |line| >= 11 + 2 * len
    ensures r.Some? ==> |r.value| == len - num
    decreases len - num
  {
    if num == len then Some([])
    else
      var b, rest := Byte(line[9 + 2 * num..]), DataBytes(line, num + 1, len);
      if b.None? || rest.None? then None else Some([b.value] + rest.value)
  }

  function Sum(bytes: seq<byte>): nat {
    if bytes == [] then 0 else bytes[0] + Sum(bytes[1..])
  }

  /** A data record counts only if all its bytes can be read and they add up to zero with the checksum. */
  function DataMeaning(line: string, base: nat, len: nat, sum: nat): Record
    requires |line| >= 11 + 2 * len
  {
    var d, c := DataBytes(line, 0, len), Byte(line[9 + 2 * len..]);
    if d.None? || c.None? || (sum + Sum(d.value) + c.value) % 0x100 != 0 then Bad else Give(Data(base, d.value))
  }

  function Meaning(ext: nat, line: string): (r: Record)
    ensures r.Give? ==> r.data.base + |r.data.bytes| < MEMORY
  {
    if |line| < 11 || line[0] != ':' then Bad
    else
      var len, addr, code := Byte(line[1..]), Half(line[3..]), Byte(line[7..]);
      if len.None? || |line| < 11 + 2 * len.value || addr.None? || code.None? then Bad
      else if !Accepted(addr.value, ext, len.value) then Bad
      else
        var sum := len.value + addr.value / 0x100 + addr.value % 0x100 + code.value;
        if code.value == 0 && Wraps(addr.value, ext, len.value) then Outside
        else if code.value == 0 then DataMeaning(line, addr.value + ext, len.value, sum)
        else if code.value == 1 then End
        else if (code.value == 2 || code.value == 4) && len.value == 2 && Extended(line, sum).Some? then
          Base(Extended(line, sum).value * (if code.value == 2 then 0x10 else 0x1_0000))
        else Skip
  }

  /** The data records of a text, in order, if it is accepted. */
  function Records(ext: nat, text: string): Option<seq<Data>>
    decreases |text|
  {
    if text == [] then Some([])
    else
      var n := LineLength(text, BUFFER - 1);
      match Meaning(ext, text[..n])
      case Bad => None
      case Outside => None
      case End => Some([])
      case Skip => Records(ext, text[n..])
      case Base(e) => Records(e, text[n..])
      case Give(d) =>
        var rest := Records(ext, text[n..]);
        if rest.None? then None else Some([d] + rest.value)
  }

  /** A base from the end of the image on, but for the last one, makes every line bad: the end record too. */
  lemma BeyondIsBad(ext: nat, line: string)
    requires MEMORY <= ext <= 0xFFFE_0000
    ensures Meaning(ext, line).Bad?
  {
    hide Byte, Half;
  }

  lemma DeadEnd(ext: nat, text: string)
    requires IsBase(ext) && MEMORY <= ext < 0xFFFF_0000
    ensures Records(ext, text).Some? <==> text == []
  {
    hide Meaning, LineLength;
    if text != [] {
      LastBase(ext);
      BeyondIsBad(ext, text[..LineLength(text, BUFFER - 1)]);
    }
  }

  lemma LastBase(ext: nat)
    requires IsBase(ext) && ext < 0xFFFF_0000
    ensures ext <= 0xFFFE_0000
  {
  }

  /** Some data record of a text, before any bad line, lies outside the image. */
  predicate Strays(ext: nat, text: string)
    decreases |text|
  {
    text != [] &&
    var n := LineLength(text, BUFFER - 1);
    match Meaning(ext, text[..n])
    case Bad => false
    case Outside => true
    case End => false
    case Skip => Strays(ext, text[n..])
    case Base(e) => Strays(e, text[n..])
    case Give(_) => Strays(ext, text[n..])
  }

  /** The last byte given for address `i`. */
  function Lookup(records: seq<Data>, i: nat): Option<byte>
    decreases |records|
  {
    if records == [] then None
    else
      var d := records[|records| - 1];
      if d.base <= i < d.base + |d.bytes| then Some(d.bytes[i - d.base]) else Lookup(records[..|records| - 1], i)
  }

  function Total(records: seq<Data>): nat
    decreases |records|
  {
    if records == [] then 0 else Total(records[..|records| - 1]) + |records[|records| - 1].bytes|
  }

  /** The image holds, and the mask marks, exactly what the records give. */
  ghost predicate Shows(l: Loader, records: seq<Data>)
    requires l.Valid()
  {
    && l.count == Total(records)
    && forall i :: 0 <= i < MEMORY ==>
         && l.mask[i] == Lookup(records, i).Some?
         && l.image[i] == if Lookup(records, i).Some? then Lookup(records, i).value else 0xFF
  }

  /** The image and the mask with the bytes of `d` put in. */
  function Put(l: Loader, d: Data): (r: Loader)
    requires l.Valid()
    ensures r.Valid()
  {
    l.(image := seq(MEMORY, i requires 0 <= i < MEMORY => if d.base <= i < d.base + |d.bytes| then d.bytes[i - d.base]
      else l.image[i]),
       mask := seq(MEMORY, i requires 0 <= i < MEMORY => l.mask[i] || d.base <= i < d.base + |d.bytes|))
  }

  lemma {:induction false} StoreDataPuts(l: Loader, line: string, base: nat, num: nat, len: nat, sum: nat)
    requires l.Valid() && num <= len && base + len < MEMORY && |line| >= 11 + 2 * len
    ensures var r, d := StoreData(l, line, base, num, len, sum), DataBytes(line, num, len);
      && (r.ok <==> d.Some?)
      && (r.ok ==> r.loader == Put(l, Data(base + num, d.value)) && r.sum == sum + Sum(d.value))
    decreases len - num
  {
    hide Byte, Put;
    if num == len {
      PutNothing(l, base + num);
    } else {
      var b := Byte(line[9 + 2 * num..]);
      if b.Some? {
        var next := l.(image := l.image[base + num := b.value], mask := l.mask[base + num := true]);
        StoreDataPuts(next, line, base, num + 1, len, sum + b.value);
        var d := DataBytes(line, num + 1, len);
        if d.Some? {
          PutOne(l, base + num, b.value, d.value);
          assert ([b.value] + d.value)[1..] == d.value;
        }
      }
    }
  }

  lemma PutNothing(l: Loader, base: nat)
    requires l.Valid()
    ensures Put(l, Data(base, [])) == l
  {
    assert Put(l, Data(base, [])).image == l.image;
    assert Put(l, Data(base, [])).mask == l.mask;
  }

  lemma PutOne(l: Loader, base: nat, b: byte, rest: seq<byte>)
    requires l.Valid() && base < MEMORY
    ensures Put(l.(image := l.image[base := b], mask := l.mask[base := true]), Data(base + 1, rest)) ==
      Put(l, Data(base, [b] + rest))
  {
    var m := l.(image := l.image[base := b], mask := l.mask[base := true]);
    assert Put(m, Data(base + 1, rest)).image == Put(l, Data(base, [b] + rest)).image;
    assert Put(m, Data(base + 1, rest)).mask == Put(l, Data(base, [b] + rest)).mask;
  }

  lemma DataMeans(l: Loader, line: string, base: nat, len: nat, sum: nat)
    requires l.Valid() && base + len < MEMORY && |line| >= 11 + 2 * len
    ensures var p, m := ParseData(l, line, base, len, sum), DataMeaning(line, base, len, sum);
      if m.Bad? then !p.ok else m.Give? && p == Parsed(Put(l, m.data).(count := l.count + |m.data.bytes|), true)
  {
    hide Byte, Put, StoreData, DataBytes;
    var counted := l.(count := l.count + len);
    StoreDataPuts(counted, line, base, 0, len, sum);
    PutKeeps(l, counted, base, line, len);
  }

  /** What parsing a line does is what the line means. */
  lemma ParseMeans(l: Loader, line: string)
    requires l.Valid()
    ensures var p := ParseLine(l, line);
      match Meaning(l.ext, line)
      case Bad => p.Parsed? && !p.ok
      case Outside => p.Wild?
      case End => p == Parsed(l.(ended := true), true)
      case Skip => p == Parsed(l, true)
      case Base(e) => p == Parsed(l.(ext := e), true)
      case Give(d) => p == Parsed(Put(l, d).(count := l.count + |d.bytes|), true)
  {
    hide Byte, Half, Put, ParseData, DataMeaning, Extended, Accepted, Wraps;
    if |line| >= 11 && line[0] == ':' {
      var len, addr, code := Byte(line[1..]), Half(line[3..]), Byte(line[7..]);
      if len.Some? && |line| >= 11 + 2 * len.value as int && addr.Some? && code.Some? && code.value == 0 {
        ParseFitting(l, line, addr.value, len.value, code.value);
      }
    }
  }

  lemma ParseFitting(l: Loader, line: string, addr: word16, len: byte, code: byte)
    requires l.Valid() && |line| >= 11 + 2 * len
    ensures Accepted(addr, l.ext, len) && !Wraps(addr, l.ext, len) ==>
      && addr + l.ext + len < MEMORY
      && var sum := len + addr / 0x100 + addr % 0x100 + code;
      var p, m := ParseData(l, line, addr + l.ext, len, sum), DataMeaning(line, addr + l.ext, len, sum);
      if m.Bad? then !p.ok else m.Give? && p == Parsed(Put(l, m.data).(count := l.count + |m.data.bytes|), true)
  {
    if Accepted(addr, l.ext, len) && !Wraps(addr, l.ext, len) {
      DataMeans(l, line, addr + l.ext, len, len + addr / 0x100 + addr % 0x100 + code);
    }
  }

  lemma PutKeeps(l: Loader, counted: Loader, base: nat, line: string, len: nat)
    requires l.Valid() && counted == l.(count := l.count + len) && |line| >= 11 + 2 * len
    ensures DataBytes(line, 0, len).Some? ==>
      var d := Data(base, DataBytes(line, 0, len).value);
      Put(counted, d) == Put(l, d).(count := l.count + |d.bytes|)
  {
  }

  lemma PutShows(l: Loader, records: seq<Data>, d: Data)
    requires l.Valid() && Shows(l, records)
    ensures Shows(Put(l, d).(count := l.count + |d.bytes|), records + [d])
  {
    assert (records + [d])[..|records|] == records;
  }

  /** A text is accepted exactly when every line up to the end record is, and then the loader shows its records. */
  lemma {:induction false} ReadShows(l: Loader, before: seq<Data>, text: string)
    requires l.Valid() && !l.ended && Shows(l, before)
    ensures Read(l, text).Loaded? <==> Records(l.ext, text).Some?
    ensures Read(l, text).Strayed? <==> Strays(l.ext, text)
    ensures Read(l, text).Loaded? ==> Shows(Read(l, text).loader, before + Records(l.ext, text).value)
    decreases |text|
  {
    hide Meaning, ParseLine, Shows, Put, LineLength;
    if text == [] {
      assert before + [] == before;
    } else {
      var n := LineLength(text, BUFFER - 1);
      var line := text[..n];
      ParseMeans(l, line);
      var q := ParseLine(l, line);
      var p := if q.Parsed? then q.loader else l;
      match Meaning(l.ext, line)
      case Bad =>
      case Outside =>
      case End =>
        assert before + [] == before;
        ShowsSame(l, p, before);
      case Skip =>
        ReadShows(l, before, text[n..]);
      case Base(e) =>
        ShowsSame(l, p, before);
        ReadShows(p, before, text[n..]);
      case Give(d) =>
        PutShows(l, before, d);
        PutFields(l, d);
        ReadShows(p, before + [d], text[n..]);
        var rest := Records(l.ext, text[n..]);
        if rest.Some? {
          assert before + [d] + rest.value == before + ([d] + rest.value);
        }
    }
  }

  lemma ShowsSame(l: Loader, p: Loader, records: seq<Data>)
    requires l.Valid() && Shows(l, records) && p == l.(ended := p.ended, ext := p.ext)
    ensures Shows(p, records)
  {
  }

  lemma PutFields(l: Loader, d: Data)
    requires l.Valid()
    ensures Put(l, d).ext == l.ext && Put(l, d).ended == l.ended
  {
  }

  /** read_intel_hex on any text. */
  lemma ReadExact(text: string)
    ensures Read(Empty(), text).Loaded? <==> Records(0, text).Some?
    ensures Read(Empty(), text).Strayed? <==> Strays(0, text)
    ensures Read(Empty(), text).Loaded? ==> Shows(Read(Empty(), text).loader, Records(0, text).value)
  {
    hide Read, Records, Strays;
    assert Shows(Empty(), []);
    ReadShows(Empty(), [], text);
    if Records(0, text).Some? {
      assert [] + Records(0, text).value == Records(0, text).value;
    }
  }
}
