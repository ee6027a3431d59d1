/**
 The wire between the firmware and the ASIC, and the reply that carries a nonce to the host:
 every job arrives as it was sent, and every nonce is decoded as it was reported.
 */
module AsicLink {
  import opened Bytes

  // ----- the job, bit by bit

  /** The two data lines: both low between bits, one of them high for a bit, both high when idle. */
  datatype Level = Low | P | N | Both

  predicate Bit0(word: bv32) {
    word & 1 == 1
  }

  function Shifted(word: bv32): bv32 {
    word >> 1
  }

  /** send32: the lowest `n` bits of a word, least significant first. */
  function Levels(word: bv32, n: nat): (s: seq<Level>)
    ensures |s| == 2 * n
    decreases n, word
  {
    if n == 0 then [] else [Low, if Bit0(word) then P else N] + Levels(Shifted(word), n - 1)
  }

  function AllLevels(words: seq<bv32>): (s: seq<Level>)
    ensures |s| == 64 * |words|
  {
    if words == [] then [] else Levels(words[0], 32) + AllLevels(words[1..])
  }

  lemma LevelsStep(line: seq<Level>, word: bv32, n: nat)
    ensures n > 0 ==>
      line + Levels(word, n) == line + [Low] + [if Bit0(word) then P else N] + Levels(Shifted(word), n - 1)
    ensures n == 0 ==> line + Levels(word, n) == line
  {
  }

  lemma AllLevelsStep(line: seq<Level>, words: seq<bv32>)
    ensures words != [] ==> line + AllLevels(words) == line + Levels(words[0], 32) + AllLevels(words[1..])
    ensures words == [] ==> line + AllLevels(words) == line
  {
    hide Levels;
  }

  class DataPort {
    /** The levels the port has shown. */
    var line: seq<Level>

    constructor ()
      ensures line == []
    {
      line := [];
    }

    method Send32(word: bv32)
      modifies this
      ensures line == old(line) + Levels(word, 32)
    {
      hide Bit0, Shifted, Levels;
      ghost var goal := line + Levels(word, 32);
      var w := word;
      var i := 0;
      while i < 32
        invariant 0 <= i <= 32
        invariant line + Levels(w, 32 - i) == goal
      {
        LevelsStep(line, w, 32 - i);
        line := line + [Low];
        if Bit0(w) {
          line := line + [P];
        } else {
          line := line + [N];
        }
        w := Shifted(w);
        i := i + 1;
      }
      LevelsStep(line, w, 0);
    }

    method Send(buffer: seq<bv32>)
      modifies this
      ensures line == old(line) + AllLevels(buffer)
    {
      hide Levels, AllLevels;
      var i := 0;
      while i < |buffer|
        invariant 0 <= i <= |buffer|
        invariant line + AllLevels(buffer[i..]) == old(line) + AllLevels(buffer)
      {
        assert buffer[i..][1..] == buffer[i + 1..];
        AllLevelsStep(line, buffer[i..]);
        Send32(buffer[i]);
        i := i + 1;
      }
      AllLevelsStep(line, buffer[i..]);
    }
  }

  /** What a receiver shifts in from `n` bits, least significant first. */
  function ReadBits(s: seq<Level>, n: nat): bv32
    requires |s| >= 2 * n
    decreases n, s
  {
    if n == 0 then 0 else (if s[1] == P then 1 else 0) | (ReadBits(s[2..], n - 1) << 1)
  }

  function ReadWords(s: seq<Level>, n: nat): (words: seq<bv32>)
    requires |s| >= 64 * n
    ensures |words| == n
  {
    if n == 0 then [] else [ReadBits(s, 32)] + ReadWords(s[64..], n - 1)
  }

  function Mask(n: nat): bv32 {
    if n == 0 then 0 else (Mask(n - 1) << 1) | 1
  }

  lemma MaskStep(word: bv32, m: bv32)
    ensures (word & 1) | (((word >> 1) & m) << 1) == word & ((m << 1) | 1)
    ensures word & 1 == 0 || word & 1 == 1
  {
  }

  lemma {:induction false} BitsArrive(word: bv32, n: nat, more: seq<Level>)
    ensures ReadBits(Levels(word, n) + more, n) == word & Mask(n)
    decreases n
  {
    if n != 0 {
      var s := Levels(word, n) + more;
      assert s[2..] == Levels(Shifted(word), n - 1) + more;
      BitsArrive(Shifted(word), n - 1, more);
      MaskStep(word, Mask(n - 1));
    }
  }

  lemma FullMask()
    ensures Mask(32) == 0xFFFF_FFFF
  {
    assert Mask(8) == 0xFF;
    assert Mask(16) == 0xFFFF;
    assert Mask(24) == 0xFF_FFFF;
  }

  /** Every word sent is received. */
  lemma {:induction false} WordsArrive(words: seq<bv32>, more: seq<Level>)
    ensures ReadWords(AllLevels(words) + more, |words|) == words
    decreases |words|
  {
    if words != [] {
      var rest := AllLevels(words[1..]) + more;
      assert AllLevels(words) + more == Levels(words[0], 32) + rest;
      assert (Levels(words[0], 32) + rest)[64..] == rest;
      BitsArrive(words[0], 32, rest);
      FullMask();
      WordsArrive(words[1..], more);
    }
  }

  // ----- bytes and words

  /** A 32-bit value as it lies in the memory of the firmware and of the host. */
  function LeBytes(w: word32): (b: seq<byte>)
    ensures |b| == 4 && FromLe(b) == w
  {
    var w1 := w / 0x100;
    var w2 := w1 / 0x100;
    [w % 0x100, w1 % 0x100, w2 % 0x100, w2 / 0x100]
  }

  function FromLe(b: seq<byte>): word32
    requires |b| == 4
  {
    b[0] as int + 0x100 * (b[1] as int + 0x100 * (b[2] as int + 0x100 * b[3] as int))
  }

  lemma Digits(q: nat, r: byte)
    ensures (q * 0x100 + r) / 0x100 == q && (q * 0x100 + r) % 0x100 == r
  {
  }

  /** The words of an array of 32-bit values that was filled byte by byte. */
  function Words(b: seq<byte>): (w: seq<bv32>)
    requires |b| % 4 == 0
    ensures |w| == |b| / 4
  {
    if b == [] then [] else [FromLe(b[..4]) as bv32] + Words(b[4..])
  }

  // ----- the nonce

  /** What the SPI interrupt assembles from the bytes that arrive: the first one ends up on top. */
  function Report(bytes: seq<byte>): word32
  {
    if bytes == [] then 0
    else (Report(bytes[..|bytes| - 1]) * 0x100 + bytes[|bytes| - 1]) % TWO32
  }

  /** The byte reversal of appService, byte by byte as it shifts. */
  function Reversed(n0: word32): word32 {
    var n1 := n0 / 0x100;
    var n2 := n1 / 0x100;
    var n3 := n2 / 0x100;
    ((n0 % 0x100 * 0x100 + n1 % 0x100) * 0x100 + n2 % 0x100) * 0x100 + n3
  }

  function NonceOf(report: word32): word32 {
    (Reversed(report) - 0xC0) % TWO32
  }

  datatype HostState = HostState(state: byte, nonceValid: byte, nonce: word32)

  /** The seven bytes of a status reply, and what the driver reads from them. */
  function StateReply(cmd: byte, s: HostState): (r: seq<byte>)
    ensures |r| == 7
  {
    [cmd, s.state, s.nonceValid] + LeBytes(s.nonce)
  }

  function HostDecode(buffer: seq<byte>): HostState
    requires |buffer| == 7
  {
    HostState(buffer[1], buffer[2], FromLe(buffer[3..7]))
  }

  lemma ReplyDecodes(cmd: byte, s: HostState)
    ensures HostDecode(StateReply(cmd, s)) == s
  {
    assert StateReply(cmd, s)[3..7] == LeBytes(s.nonce);
  }

  lemma ReportReversed(b0: byte, b1: byte, b2: byte, b3: byte)
    ensures Reversed(Report([b0, b1, b2, b3])) == FromLe([b0, b1, b2, b3])
  {
    var r := [b0, b1, b2, b3];
    var r1, r2 := b0 as int * 0x100 + b1, (b0 as int * 0x100 + b1) * 0x100 + b2;
    assert r[..3] == [b0, b1, b2] && [b0, b1, b2][..2] == [b0, b1] && [b0, b1][..1] == [b0];
    assert Report([b0]) == b0;
    assert Report([b0, b1]) == r1;
    assert Report([b0, b1, b2]) == r2;
    assert Report(r) == r2 * 0x100 + b3;
    hide Report;
    Digits(r2, b3);
    Digits(r1, b2);
    Digits(b0, b1);
  }

  /** The nonce the host sees, in terms of the bytes the ASIC shifted out. */
  lemma NonceArrives(b0: byte, b1: byte, b2: byte, b3: byte, state: byte)
    ensures HostDecode(StateReply(83, HostState(state, 1, NonceOf(Report([b0, b1, b2, b3]))))).nonce
         == (b0 as int + 0x100 * b1 as int + 0x1_0000 * b2 as int + 0x100_0000 * b3 as int - 0xC0) % TWO32
  {
    hide Report, Reversed;
    ReportReversed(b0, b1, b2, b3);
    ReplyDecodes(83, HostState(state, 1, NonceOf(Report([b0, b1, b2, b3]))));
  }
}
