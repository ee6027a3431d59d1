/** Printing records as Intel HEX, and reading them back. */
module HexPrinting {
  import opened Bytes
  import opened IntelHex

  function HexDigit(d: nat): (c: char)
    requires d < 16
    ensures Digit(c) == Some(d) && c != '\n'
  {
    if d < 10 then '0' + d as char else 'A' + (d - 10) as char
  }

  function Hex2(b: byte): string {
    [HexDigit(b / 16), HexDigit(b % 16)]
  }

  function Hex4(w: word16): string {
    Hex2(w / 0x100) + Hex2(w % 0x100)
  }

  function HexBytes(bytes: seq<byte>): (s: string)
    ensures |s| == 2 * |bytes|
  {
    if bytes == [] then [] else Hex2(bytes[0]) + HexBytes(bytes[1..])
  }

  /** The byte that brings a sum to zero. */
  function Negated(sum: nat): (c: byte)
    ensures (sum + c) % 0x100 == 0
  {
    if sum % 0x100 == 0 then 0 else 0x100 - sum % 0x100
  }

  function Checksum(code: byte, addr: word16, payload: seq<byte>): byte {
    Negated(|payload| + addr / 0x100 + addr % 0x100 + code + Sum(payload))
  }

  /** The bytes of a record as they are printed: length, address, type, payload and checksum. */
  function RecordBytes(code: byte, addr: word16, payload: seq<byte>, checksum: byte): (b: seq<byte>)
    requires |payload| < 0x100
    ensures |b| == |payload| + 5
  {
    [|payload|, addr / 0x100, addr % 0x100, code] + payload + [checksum]
  }

  /** A record without its newline, with whatever checksum. */
  function RecordLine(code: byte, addr: word16, payload: seq<byte>, checksum: byte): string
    requires |payload| < 0x100
  {
    ":" + HexBytes(RecordBytes(code, addr, payload, checksum))
  }

  function Line(code: byte, addr: word16, payload: seq<byte>): string
    requires |payload| < 0x100
  {
    RecordLine(code, addr, payload, Checksum(code, addr, payload))
  }

  lemma ByteReads(b: byte, rest: string)
    ensures Byte(Hex2(b) + rest) == Some(b)
  {
    var s := Hex2(b) + rest;
    assert s[0] == HexDigit(b / 16) && s[1..][0] == HexDigit(b % 16);
    assert Scan(s, 2, 0) == Scan(s[1..], 1, b / 16) == Scan(s[1..][1..], 0, b / 16 * 16 + b % 16);
  }

  lemma HalfReads(w: word16, rest: string)
    ensures Half(Hex4(w) + rest) == Some(w)
  {
    var hi, lo := w / 0x100, w % 0x100;
    var s := Hex4(w) + rest;
    var s1 := s[1..];
    var s2 := s1[1..];
    var s3 := s2[1..];
    assert s[0] == HexDigit(hi / 16) && s1[0] == HexDigit(hi % 16) && s2[0] == HexDigit(lo / 16) &&
      s3[0] == HexDigit(lo % 16);
    assert Scan(s, 4, 0) == Scan(s1, 3, hi / 16);
    assert Scan(s1, 3, hi / 16) == Scan(s2, 2, hi);
    assert Scan(s2, 2, hi) == Scan(s3, 1, hi * 16 + lo / 16);
    assert Scan(s3, 1, hi * 16 + lo / 16) == (hi * 16 + lo / 16) * 16 + lo % 16;
  }

  lemma {:induction false} HexBytesFrom(bytes: seq<byte>, k: nat)
    requires k <= |bytes|
    ensures HexBytes(bytes)[2 * k..] == HexBytes(bytes[k..])
    decreases k
  {
    if k == 0 {
      assert bytes[0..] == bytes;
    } else {
      HexBytesFrom(bytes[1..], k - 1);
      assert HexBytes(bytes)[2 * k..] == HexBytes(bytes[1..])[2 * (k - 1)..];
      assert bytes[1..][k - 1..] == bytes[k..];
    }
  }

  lemma DropPrefix(h: string, t: string, j: nat)
    requires j <= |h|
    ensures (":" + h + t)[1 + j..] == h[j..] + t
  {
  }

  lemma HexBytesHead(bytes: seq<byte>, k: nat, tail: string)
    requires k < |bytes|
    ensures HexBytes(bytes[k..]) + tail == Hex2(bytes[k]) + (HexBytes(bytes[k + 1..]) + tail)
  {
    var rest := HexBytes(bytes[k + 1..]);
    assert bytes[k..][1..] == bytes[k + 1..];
    assert HexBytes(bytes[k..]) == Hex2(bytes[k]) + rest;
  }

  lemma TextAt(bytes: seq<byte>, k: nat, tail: string)
    requires k < |bytes|
    ensures (":" + HexBytes(bytes) + tail)[1 + 2 * k..] == Hex2(bytes[k]) + (HexBytes(bytes[k + 1..]) + tail)
  {
    hide HexBytes, Hex2;
    DropPrefix(HexBytes(bytes), tail, 2 * k);
    HexBytesFrom(bytes, k);
    HexBytesHead(bytes, k, tail);
  }

  /** Any byte, and any pair of bytes, of a printed record reads back from its place. */
  lemma FieldAt(bytes: seq<byte>, k: nat, tail: string)
    requires k < |bytes|
    ensures var s := ":" + HexBytes(bytes) + tail;
      && Byte(s[1 + 2 * k..]) == Some(bytes[k])
      && (k + 1 < |bytes| ==> Half(s[1 + 2 * k..]) == Some(Word(bytes[k + 1], bytes[k])))
  {
    hide Byte, Half, Hex2, HexBytes;
    TextAt(bytes, k, tail);
    var rest := HexBytes(bytes[k + 1..]);
    ByteReads(bytes[k], rest + tail);
    if k + 1 < |bytes| {
      PairAt(bytes, k, rest, tail);
    }
  }

  lemma PairAt(bytes: seq<byte>, k: nat, rest: string, tail: string)
    requires k + 1 < |bytes| && rest == HexBytes(bytes[k + 1..])
    ensures Half(Hex2(bytes[k]) + (rest + tail)) == Some(Word(bytes[k + 1], bytes[k]))
  {
    hide Half, Hex2;
    var w := Word(bytes[k + 1], bytes[k]);
    assert bytes[k + 1..][1..] == bytes[k + 2..];
    var more := HexBytes(bytes[k + 2..]);
    assert rest == Hex2(bytes[k + 1]) + more;
    assert w / 0x100 == bytes[k] && w % 0x100 == bytes[k + 1];
    HalfReads(w, more + tail);
    assert Hex4(w) + (more + tail) == Hex2(bytes[k]) + (rest + tail);
  }

  // ----- records

  const NL: string := "\n"

  lemma {:induction false} PayloadReads(bytes: seq<byte>, payload: seq<byte>, num: nat)
    requires |bytes| == |payload| + 5 && bytes[4..4 + |payload|] == payload && num <= |payload|
    ensures DataBytes(":" + HexBytes(bytes) + NL, num, |payload|) == Some(payload[num..])
    decreases |payload| - num
  {
    hide Byte, Half;
    if num < |payload| {
      FieldAt(bytes, 4 + num, NL);
      assert bytes[4 + num] == bytes[4..4 + |payload|][num];
      PayloadReads(bytes, payload, num + 1);
      assert payload[num..] == [payload[num]] + payload[num + 1..];
    } else {
      assert payload[num..] == [];
    }
  }

  /** Only the checksum brings the sum of a record to zero. */
  lemma ChecksumOnly(code: byte, addr: word16, payload: seq<byte>, c: byte)
    ensures (|payload| + addr / 0x100 + addr % 0x100 + code + Sum(payload) + c) % 0x100 == 0 <==>
      c == Checksum(code, addr, payload)
  {
    OnlyNegated(|payload| + addr / 0x100 + addr % 0x100 + code + Sum(payload), c);
  }

  lemma OnlyNegated(sum: nat, c: byte)
    ensures (sum + c) % 0x100 == 0 <==> c == Negated(sum)
  {
    var q, r := sum / 0x100, sum % 0x100;
    assert sum + c == 0x100 * q + (r + c);
    assert (sum + c) % 0x100 == (r + c) % 0x100;
  }

  lemma RecordIndex(code: byte, addr: word16, payload: seq<byte>, c: byte)
    requires |payload| < 0x100
    ensures var b, n := RecordBytes(code, addr, payload, c), |payload|;
      && b[0] == n && b[1] == addr / 0x100 && b[2] == addr % 0x100 && b[3] == code
      && b[4..4 + n] == payload && b[4 + n] == c
      && (n == 2 ==> b[4] == payload[0] && b[5] == payload[1])
  {
  }

  /** The fields of a printed record. */
  lemma LineReads(code: byte, addr: word16, payload: seq<byte>, c: byte)
    requires |payload| < 0x100
    ensures var s := RecordLine(code, addr, payload, c) + NL;
      && |s| == 12 + 2 * |payload| && s[0] == ':'
      && Byte(s[1..]) == Some(|payload|) && Half(s[3..]) == Some(addr) && Byte(s[7..]) == Some(code)
      && DataBytes(s, 0, |payload|) == Some(payload)
      && Byte(s[9 + 2 * |payload|..]) == Some(c)
      && (|payload| == 2 ==> Half(s[9..]) == Some(Word(payload[1], payload[0])))
  {
    hide Byte, Half, Hex2, HexBytes, DataBytes, RecordBytes;
    var b := RecordBytes(code, addr, payload, c);
    RecordIndex(code, addr, payload, c);
    FieldsRead(b);
    FieldAt(b, 4 + |payload|, NL);
    PayloadReads(b, payload, 0);
    assert payload[0..] == payload;
    if |payload| == 2 {
      FieldAt(b, 4, NL);
    }
  }

  lemma FieldsRead(b: seq<byte>)
    requires |b| >= 5
    ensures var s := ":" + HexBytes(b) + NL;
      Byte(s[1..]) == Some(b[0]) && Half(s[3..]) == Some(Word(b[2], b[1])) && Byte(s[7..]) == Some(b[3])
  {
    hide Byte, Half, HexBytes, Word;
    FieldAt(b, 0, NL);
    FieldAt(b, 1, NL);
    FieldAt(b, 3, NL);
  }

  // ----- the checksum

  /** What a record means, given whether its checksum is right. */
  function RecordMeaning(ext: nat, code: byte, addr: word16, payload: seq<byte>, good: bool): Record {
    if code == 0 then if good then Give(Data(addr + ext, payload)) else Bad
    else if code == 1 then End
    else if (code == 2 || code == 4) && |payload| == 2 && good then
      Base(Word(payload[1], payload[0]) * (if code == 2 then 0x10 else 0x1_0000))
    else Skip
  }

  /** The checksum of every record that passes the bound; a wrong one makes the line bad exactly when it gives data. */
  lemma ChecksumExact(ext: nat, code: byte, addr: word16, payload: seq<byte>, c: byte)
    requires |payload| < 0x100 && Accepted(addr, ext, |payload|) && !(code == 0 && Wraps(addr, ext, |payload|))
    ensures Meaning(ext, RecordLine(code, addr, payload, c) + NL) ==
      RecordMeaning(ext, code, addr, payload, c == Checksum(code, addr, payload))
    ensures c != Checksum(code, addr, payload) ==>
      (Meaning(ext, RecordLine(code, addr, payload, c) + NL).Bad? <==> code == 0)
  {
    hide Byte, Half, DataBytes, RecordLine, Checksum, Accepted, Wraps;
    LineReads(code, addr, payload, c);
    ChecksumOnly(code, addr, payload, c);
    if |payload| == 2 {
      SumPair(payload[0], payload[1]);
      assert payload == [payload[0], payload[1]];
    }
  }

  lemma SumPair(a: byte, b: byte)
    ensures Sum([a, b]) == a as int + b as int
  {
    assert [a, b][1..] == [b] && [b][1..] == [];
    assert Sum([b]) == b;
  }

  // ----- files

  datatype Item = DataItem(addr: word16, bytes: seq<byte>) | Segment(base: word16) | Linear(base: word16) {
    predicate Valid() {
      DataItem? ==> |bytes| < 0x100
    }

    function Text(): string
      requires Valid()
    {
      match this
      case DataItem(addr, bytes) => Line(0, addr, bytes)
      case Segment(v) => Line(2, 0, [v / 0x100, v % 0x100])
      case Linear(v) => Line(4, 0, [v / 0x100, v % 0x100])
    }

    /** The address base after this record. */
    function NextBase(ext: nat): nat {
      match this
      case DataItem(_, _) => ext
      case Segment(v) => v * 0x10
      case Linear(v) => v * 0x1_0000
    }

    /** The record lies below the last byte of the memory. */
    predicate Fits(ext: nat) {
      if DataItem? then addr + ext + |bytes| < MEMORY else ext + 2 < MEMORY
    }
  }

  lemma ItemMeans(item: Item, ext: nat)
    requires item.Valid() && item.Fits(ext)
    ensures Meaning(ext, item.Text() + NL) ==
      if item.DataItem? then Give(Data(item.addr + ext, item.bytes)) else Base(item.NextBase(ext))
  {
    hide Meaning, RecordLine, Checksum;
    match item
    case DataItem(addr, bytes) =>
      ChecksumExact(ext, 0, addr, bytes, Checksum(0, addr, bytes));
    case Segment(v) =>
      BaseMeans(2, v, ext);
    case Linear(v) =>
      BaseMeans(4, v, ext);
  }

  lemma BaseMeans(code: byte, v: word16, ext: nat)
    requires (code == 2 || code == 4) && ext + 2 < MEMORY
    ensures Meaning(ext, Line(code, 0, [v / 0x100, v % 0x100]) + NL) == Base(v * if code == 2 then 0x10 else 0x1_0000)
  {
    hide Meaning, RecordLine, Checksum;
    var payload := [v / 0x100, v % 0x100];
    ChecksumExact(ext, code, 0, payload, Checksum(code, 0, payload));
    assert Word(v % 0x100, v / 0x100) == v;
  }

  lemma EndMeans(ext: nat)
    requires ext < MEMORY
    ensures Meaning(ext, Line(1, 0, []) + NL) == End
  {
    hide Meaning, RecordLine, Checksum;
    ChecksumExact(ext, 1, 0, [], Checksum(1, 0, []));
  }

  lemma {:induction false} NoNewline(bytes: seq<byte>, i: nat)
    requires i < 2 * |bytes|
    ensures HexBytes(bytes)[i] != '\n'
  {
    if i >= 2 {
      NoNewline(bytes[1..], i - 2);
    }
  }

  lemma {:induction false} LineEnds(s: string, rest: string, limit: nat)
    requires |s| < limit && forall i :: 0 <= i < |s| ==> s[i] != '\n'
    ensures LineLength(s + NL + rest, limit) == |s| + 1
    decreases |s|
  {
    if s != [] {
      assert (s + NL + rest)[1..] == s[1..] + NL + rest;
      LineEnds(s[1..], rest, limit - 1);
    }
  }

  /** `line` and what follows it are the first line of a text and its rest. */
  predicate Splits(line: string, rest: string) {
    var n := LineLength(line + NL + rest, BUFFER - 1);
    (line + NL + rest)[..n] == line + NL && (line + NL + rest)[n..] == rest
  }

  /** A printed record is one line of the file. */
  lemma LineSplits(code: byte, addr: word16, payload: seq<byte>, c: byte, rest: string)
    requires |payload| < 0x100
    ensures Splits(RecordLine(code, addr, payload, c), rest)
  {
    var b := RecordBytes(code, addr, payload, c);
    var s := RecordLine(code, addr, payload, c);
    forall i | 0 <= i < |s| ensures s[i] != '\n' {
      if i > 0 { NoNewline(b, i - 1); }
    }
    LineEnds(s, rest, BUFFER - 1);
  }

  predicate AllValid(items: seq<Item>) {
    items == [] || (items[0].Valid() && AllValid(items[1..]))
  }

  /** A file: one record a line, then the end record. */
  function File(items: seq<Item>): string
    requires AllValid(items)
    decreases |items|
  {
    if items == [] then Line(1, 0, []) + NL else items[0].Text() + NL + File(items[1..])
  }

  predicate AllFit(ext: nat, items: seq<Item>)
    decreases |items|
  {
    if items == [] then ext < MEMORY
    else items[0].Fits(ext) && AllFit(items[0].NextBase(ext), items[1..])
  }

  /** Where the data of a list of records goes. */
  function Placed(ext: nat, items: seq<Item>): seq<Data>
    decreases |items|
  {
    if items == [] then []
    else
      (if items[0].DataItem? then [Data(items[0].addr + ext, items[0].bytes)] else []) +
      Placed(items[0].NextBase(ext), items[1..])
  }

  /** A text whose first line is `line`: its records are what that line means, then the rest. */
  lemma FirstLine(ext: nat, line: string, rest: string)
    requires Splits(line, rest) && !Meaning(ext, line + NL).Bad? && !Meaning(ext, line + NL).Outside?
    ensures var m := Meaning(ext, line + NL);
      Records(ext, line + NL + rest) ==
      if m.End? then Some([])
      else if m.Skip? then Records(ext, rest)
      else if m.Base? then Records(m.ext, rest)
      else if Records(ext, rest).None? then None
      else Some([m.data] + Records(ext, rest).value)
  {
    hide Meaning, LineLength;
  }

  lemma ItemSplits(item: Item, rest: string)
    requires item.Valid()
    ensures Splits(item.Text(), rest)
  {
    hide RecordLine, LineLength, Checksum;
    match item
    case DataItem(addr, bytes) =>
      LineSplits(0, addr, bytes, Checksum(0, addr, bytes), rest);
    case Segment(v) =>
      var p := [v / 0x100, v % 0x100];
      LineSplits(2, 0, p, Checksum(2, 0, p), rest);
    case Linear(v) =>
      var p := [v / 0x100, v % 0x100];
      LineSplits(4, 0, p, Checksum(4, 0, p), rest);
  }

  /** A printed file has the records it was printed from. */
  lemma {:induction false} FileRecords(ext: nat, items: seq<Item>)
    requires AllValid(items) && AllFit(ext, items)
    ensures Records(ext, File(items)) == Some(Placed(ext, items))
    decreases |items|
  {
    hide Records, Meaning, RecordLine, Checksum, LineLength, Splits;
    if items == [] {
      var s := Line(1, 0, []);
      LineSplits(1, 0, [], Checksum(1, 0, []), []);
      EndMeans(ext);
      FirstLine(ext, s, []);
      assert s + NL + [] == s + NL;
    } else {
      var it := items[0];
      var rest := File(items[1..]);
      ItemMeans(it, ext);
      ItemSplits(it, rest);
      FirstLine(ext, it.Text(), rest);
      FileRecords(it.NextBase(ext), items[1..]);
      if !it.DataItem? {
        assert [] + Placed(it.NextBase(ext), items[1..]) == Placed(it.NextBase(ext), items[1..]);
      }
    }
  }

  /** Any list of records that fits, printed and read back, gives the image and the mask of its data. */
  lemma PrintThenRead(items: seq<Item>)
    requires AllValid(items) && AllFit(0, items)
    ensures var r := Read(Empty(), File(items));
      r.Loaded? && Shows(r.loader, Placed(0, items))
  {
    hide Read, Records, File, Placed, Shows;
    FileRecords(0, items);
    ReadExact(File(items));
  }

  // ----- whole images

  /** The masked bytes of an image below address `n`, one record each. */
  function Dump(image: seq<byte>, mask: seq<bool>, n: nat): (items: seq<Item>)
    requires |image| == |mask| == MEMORY && n < MEMORY
    decreases n, image
  {
    if n == 0 then []
    else if mask[n - 1] then Dump(image, mask, n - 1) + [DataItem(n - 1, [image[n - 1]])]
    else Dump(image, mask, n - 1)
  }

  predicate DataBelow(items: seq<Item>)
    decreases |items|
  {
    items == [] || (items[0].DataItem? && |items[0].bytes| == 1 && items[0].addr + 1 < MEMORY && DataBelow(items[1..]))
  }

  lemma {:induction false} DataFits(items: seq<Item>)
    requires DataBelow(items)
    ensures AllValid(items) && AllFit(0, items)
    decreases |items|
  {
    if items != [] { DataFits(items[1..]); }
  }

  lemma {:induction false} DataAppend(items: seq<Item>, it: Item)
    requires DataBelow(items) && DataBelow([it])
    ensures DataBelow(items + [it])
    ensures Placed(0, items + [it]) == Placed(0, items) + [Data(it.addr, it.bytes)]
    decreases |items|
  {
    if items == [] {
      assert items + [it] == [it];
      assert [it][1..] == [];
    } else {
      assert (items + [it])[1..] == items[1..] + [it];
      DataAppend(items[1..], it);
    }
  }

  lemma OneBelow(it: Item)
    requires it.DataItem? && |it.bytes| == 1 && it.addr + 1 < MEMORY
    ensures DataBelow([it])
  {
    assert [it][1..] == [];
  }

  lemma LookupAppend(records: seq<Data>, d: Data, i: nat)
    ensures Lookup(records + [d], i) == if d.base <= i < d.base + |d.bytes| then Some(d.bytes[i - d.base])
      else Lookup(records, i)
  {
    assert (records + [d])[..|records|] == records;
  }

  lemma DumpNext(before: seq<Item>, b: byte, n: nat, i: nat)
    requires DataBelow(before) && 0 < n < MEMORY
    ensures var items := before + [DataItem(n - 1, [b])];
      && DataBelow(items)
      && Lookup(Placed(0, items), i) == if i == n - 1 then Some(b) else Lookup(Placed(0, before), i)
  {
    var it := DataItem(n - 1, [b]);
    OneBelow(it);
    DataAppend(before, it);
    hide Placed, DataBelow, Lookup;
    LookupAppend(Placed(0, before), Data(n - 1, [b]), i);
  }

  lemma {:induction false} DumpPlaces(image: seq<byte>, mask: seq<bool>, n: nat, i: nat)
    requires |image| == |mask| == MEMORY && n < MEMORY
    ensures DataBelow(Dump(image, mask, n))
    ensures Lookup(Placed(0, Dump(image, mask, n)), i) == if i < n && mask[i] then Some(image[i]) else None
    decreases n
  {
    if n > 0 {
      hide Placed, DataBelow, Lookup;
      DumpPlaces(image, mask, n - 1, i);
      if mask[n - 1] {
        DumpNext(Dump(image, mask, n - 1), image[n - 1], n, i);
      }
    }
  }

  lemma DumpShown(image: seq<byte>, mask: seq<bool>, l: Loader, i: nat)
    requires |image| == |mask| == MEMORY && !mask[MEMORY - 1] && i < MEMORY
    requires l.Valid() && Shows(l, Placed(0, Dump(image, mask, MEMORY - 1)))
    ensures l.mask[i] == mask[i] && l.image[i] == if mask[i] then image[i] else 0xFF
  {
    hide Placed, Dump, Lookup, Shows, DataBelow;
    DumpPlaces(image, mask, MEMORY - 1, i);
    ShownAt(l, Placed(0, Dump(image, mask, MEMORY - 1)), i);
  }

  /** Every image that leaves out the last address survives being printed and read. */
  lemma ImageRoundTrip(image: seq<byte>, mask: seq<bool>)
    requires |image| == |mask| == MEMORY && !mask[MEMORY - 1]
    ensures var items := Dump(image, mask, MEMORY - 1);
      && AllValid(items)
      && var r := Read(Empty(), File(items));
      && r.Loaded? && r.loader.mask == mask
      && forall i :: 0 <= i < MEMORY ==> r.loader.image[i] == if mask[i] then image[i] else 0xFF
  {
    hide Read, File, Placed, Dump, Lookup, Shows, DataBelow, AllFit, AllValid, Empty;
    var items := Dump(image, mask, MEMORY - 1);
    DumpPlaces(image, mask, MEMORY - 1, 0);
    DataFits(items);
    PrintThenRead(items);
    var l := Read(Empty(), File(items)).loader;
    forall i | 0 <= i < MEMORY
      ensures l.mask[i] == mask[i] && l.image[i] == if mask[i] then image[i] else 0xFF
    {
      DumpShown(image, mask, l, i);
    }
  }

  lemma ShownAt(l: Loader, records: seq<Data>, i: nat)
    requires l.Valid() && Shows(l, records) && i < MEMORY
    ensures l.mask[i] == Lookup(records, i).Some?
    ensures l.image[i] == if Lookup(records, i).Some? then Lookup(records, i).value else 0xFF
  {
  }

  lemma {:induction false} RecordsBelow(ext: nat, text: string)
    requires Records(ext, text).Some?
    ensures forall k :: 0 <= k < |Records(ext, text).value| ==>
      Records(ext, text).value[k].base + |Records(ext, text).value[k].bytes| < MEMORY
    decreases |text|
  {
    hide Meaning, LineLength;
    if text != [] {
      var n := LineLength(text, BUFFER - 1);
      var m := Meaning(ext, text[..n]);
      if m.Skip? || m.Give? {
        RecordsBelow(ext, text[n..]);
      } else if m.Base? {
        RecordsBelow(m.ext, text[n..]);
      }
    }
  }

  lemma {:induction false} LookupBelow(records: seq<Data>, i: nat)
    requires forall k :: 0 <= k < |records| ==> records[k].base + |records[k].bytes| <= i
    ensures Lookup(records, i) == None
    decreases |records|
  {
    if records != [] { LookupBelow(records[..|records| - 1], i); }
  }

  /** And no file can give the last address, because a record must end below it. */
  lemma LastByteUnreachable(text: string)
    requires Read(Empty(), text).Loaded?
    ensures !Read(Empty(), text).loader.mask[MEMORY - 1]
  {
    hide Read, Records;
    ReadExact(text);
    RecordsBelow(0, text);
    LookupBelow(Records(0, text).value, MEMORY - 1);
  }

  /**
   A linear base of 0xFFFF and a byte at 0xFFFF: the sum wraps around, the bound accepts it, and it is stored
   outside.
   */
  lemma CanStray(b: byte)
    ensures Read(Empty(), Linear(0xFFFF).Text() + NL + (DataItem(0xFFFF, [b]).Text() + NL + "")).Strayed?
  {
    hide Read, RecordLine, Checksum, LineLength, Meaning;
    var base, data := Linear(0xFFFF), DataItem(0xFFFF, [b]);
    var rest := data.Text() + NL + "";
    ItemMeans(base, 0);
    OutsideMeans(b);
    ItemSplits(base, rest);
    ItemSplits(data, "");
    ReadExact(base.Text() + NL + rest);
  }

  lemma OutsideMeans(b: byte)
    ensures Meaning(0xFFFF_0000, Line(0, 0xFFFF, [b]) + NL) == Outside
  {
    hide Byte, Half, RecordLine, Checksum;
    LineReads(0, 0xFFFF, [b], Checksum(0, 0xFFFF, [b]));
  }

  /** A base record with a wrong checksum is passed over: the text is accepted and its data lands at the old base. */
  lemma BadBaseIgnored(ext: nat, code: byte, v: word16, c: byte, addr: word16, bytes: seq<byte>)
    requires (code == 2 || code == 4) && |bytes| < 0x100 && ext + 2 < MEMORY && addr + ext + |bytes| < MEMORY
    requires c != Checksum(code, 0, [v / 0x100, v % 0x100])
    ensures var base := RecordLine(code, 0, [v / 0x100, v % 0x100], c);
      Records(ext, base + NL + (Line(0, addr, bytes) + NL + "")) == Some([Data(addr + ext, bytes)])
  {
    hide RecordLine, Checksum, LineLength, Meaning, Splits;
    var p := [v / 0x100, v % 0x100];
    var data := Line(0, addr, bytes);
    var rest := data + NL + "";
    ChecksumExact(ext, code, 0, p, c);
    LineSplits(code, 0, p, c, rest);
    FirstLine(ext, RecordLine(code, 0, p, c), rest);
    ChecksumExact(ext, 0, addr, bytes, Checksum(0, addr, bytes));
    LineSplits(0, addr, bytes, Checksum(0, addr, bytes), "");
    FirstLine(ext, data, "");
    assert [Data(addr + ext, bytes)] + [] == [Data(addr + ext, bytes)];
    assert Records(ext, "") == Some([]);
  }

  /** After a base record beyond the image, be it a segment or a linear one but the last, nothing more is accepted. */
  lemma BaseEndsFile(ext: nat, item: Item, rest: string)
    requires !item.DataItem? && item.Fits(ext) && MEMORY <= item.NextBase(ext) < 0xFFFF_0000
    ensures Records(ext, item.Text() + NL + rest).Some? <==> rest == []
  {
    hide Meaning, Records, RecordLine, Checksum, Splits;
    ItemMeans(item, ext);
    ItemSplits(item, rest);
    FirstLine(ext, item.Text(), rest);
    DeadEnd(item.NextBase(ext), rest);
  }
}
