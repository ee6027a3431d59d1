/**
 The SHA-256 precalculation of the miner: the textbook version and the shipped version, which
 leaves the registers where they are and renames them instead, against the round function of
 section 6.2.2 of FIPS 180-4.
 */
module Sha256 {
  // ----- 32-bit operations

  function Xor(x: bv32, y: bv32): bv32 { x ^ y }
  function And(x: bv32, y: bv32): bv32 { x & y }
  function Or(x: bv32, y: bv32): bv32 { x | y }
  function Not(x: bv32): bv32 { !x }
  function Add(x: bv32, y: bv32): bv32 { x + y }
  function Rotr(x: bv32, n: bv8): bv32 requires 0 < n < 32 { (x >> n) | (x << (32 - n)) }

  lemma XorComm(x: bv32, y: bv32)
    ensures Xor(x, y) == Xor(y, x)
  {
  }

  lemma AddComm(x: bv32, y: bv32)
    ensures Add(x, y) == Add(y, x)
  {
  }

  lemma AddAssoc(x: bv32, y: bv32, z: bv32)
    ensures Add(x, Add(y, z)) == Add(Add(x, y), z)
  {
    assert Add(y, z) == y + z && Add(x, y) == x + y;
    assert Add(x, y + z) == Add(x + y, z);
  }

  // ----- the standard

  datatype Registers = Registers(a: bv32, b: bv32, c: bv32, d: bv32, e: bv32, f: bv32, g: bv32, h: bv32) {
    function ToSeq(): seq<bv32> {
      [a, b, c, d, e, f, g, h]
    }
  }

  function BigSigma0(x: bv32): bv32 {
    Xor(Xor(Rotr(x, 2), Rotr(x, 13)), Rotr(x, 22))
  }

  function BigSigma1(x: bv32): bv32 {
    Xor(Xor(Rotr(x, 6), Rotr(x, 11)), Rotr(x, 25))
  }

  function Ch(x: bv32, y: bv32, z: bv32): bv32 {
    Xor(And(x, y), And(Not(x), z))
  }

  function Maj(x: bv32, y: bv32, z: bv32): bv32 {
    Xor(Xor(And(x, y), And(x, z)), And(y, z))
  }

  const K: seq<bv32> := [0x428a2f98, 0x71374491, 0xb5c0fbcf]

  function T1(r: Registers, k: bv32, w: bv32): bv32 {
    Add(Add(Add(Add(r.h, BigSigma1(r.e)), Ch(r.e, r.f, r.g)), k), w)
  }

  function T2(r: Registers): bv32 {
    Add(BigSigma0(r.a), Maj(r.a, r.b, r.c))
  }

  function Round(r: Registers, k: bv32, w: bv32): Registers {
    Registers(Add(T1(r, k, w), T2(r)), r.a, r.b, r.c, Add(r.d, T1(r, k, w)), r.e, r.f, r.g)
  }

  function Initial(midstate: seq<bv32>): (r: Registers)
    requires |midstate| == 8
    ensures r.ToSeq() == midstate
  {
    Registers(midstate[0], midstate[1], midstate[2], midstate[3], midstate[4], midstate[5], midstate[6], midstate[7])
  }

  /** The working variables after `n` rounds. */
  function Rounds(midstate: seq<bv32>, data: seq<bv32>, n: nat): Registers
    requires |midstate| == 8 && n <= |data| && n <= 3
    decreases n, midstate
  {
    if n == 0 then Initial(midstate) else Round(Rounds(midstate, data, n - 1), K[n - 1], data[n - 1])
  }

  // ----- avalon.c

  function Rotate(x: bv32, y: bv8): bv32
    requires 0 < y < 32
  {
    (x << y) | (x >> (32 - y))
  }

  lemma RotateIsRotr(x: bv32)
    ensures Rotate(x, 26) == Rotr(x, 6) && Rotate(x, 21) == Rotr(x, 11) && Rotate(x, 7) == Rotr(x, 25)
    ensures Rotate(x, 30) == Rotr(x, 2) && Rotate(x, 19) == Rotr(x, 13) && Rotate(x, 10) == Rotr(x, 22)
  {
  }

  lemma ChooseForm(x: bv32, y: bv32, z: bv32)
    ensures Xor(z, And(Xor(y, z), x)) == Ch(x, y, z)
  {
    calc {
      Xor(z, And(Xor(y, z), x));
      Xor(z, And(y ^ z, x));
      Xor(z, (y ^ z) & x);
      z ^ ((y ^ z) & x);
      (x & y) ^ (!x & z);
      Xor(x & y, !x & z);
      Xor(And(x, y), !x & z);
      Xor(And(x, y), And(!x, z));
      Xor(And(x, y), And(Not(x), z));
    }
  }

  lemma MajorityForm(x: bv32, y: bv32, z: bv32)
    ensures Or(And(z, Or(x, y)), And(x, y)) == Maj(x, y, z)
  {
    calc {
      Or(And(z, Or(x, y)), And(x, y));
      Or(And(z, x | y), And(x, y));
      Or(z & (x | y), x & y);
      (z & (x | y)) | (x & y);
      (x & y) ^ (x & z) ^ (y & z);
      Xor((x & y) ^ (x & z), y & z);
      Xor(Xor(x & y, x & z), y & z);
      Xor(Xor(And(x, y), And(x, z)), And(y, z));
    }
  }

  /** The order in which the shipped version adds the five terms of T1. */
  lemma SumForm(h: bv32, s: bv32, c: bv32, k: bv32, w: bv32)
    ensures Add(s, Add(Add(Add(c, k), w), h)) == Add(Add(Add(Add(h, s), c), k), w)
  {
    hide Add;
    var t := Add(Add(c, k), w);
    AddComm(t, h);
    AddAssoc(s, h, t);
    AddComm(s, h);
    AddAssoc(Add(h, s), Add(c, k), w);
    AddAssoc(Add(h, s), c, k);
  }

  /** The six words that asicPrecalc leaves: the new `a` and `e` of each round, the last round first. */
  function Precalc(midstate: seq<bv32>, data: seq<bv32>): (p: seq<bv32>)
    requires |midstate| == 8 && |data| == 3
    ensures |p| == 6
  {
    var r1, r2, r3 := Rounds(midstate, data, 1), Rounds(midstate, data, 2), Rounds(midstate, data, 3);
    [r3.a, r2.a, r1.a, r3.e, r2.e, r1.e]
  }

  /** The whole working state after three rounds can be read off the six words and the midstate. */
  lemma PrecalcResumes(midstate: seq<bv32>, data: seq<bv32>)
    requires |midstate| == 8 && |data| == 3
    ensures var p := Precalc(midstate, data);
      Rounds(midstate, data, 3) == Registers(p[0], p[1], p[2], midstate[0], p[3], p[4], p[5], midstate[4])
  {
    hide T1, T2, Add;
    assert Rounds(midstate, data, 1) == Round(Initial(midstate), K[0], data[0]);
    assert Rounds(midstate, data, 2) == Round(Rounds(midstate, data, 1), K[1], data[1]);
    assert Rounds(midstate, data, 3) == Round(Rounds(midstate, data, 2), K[2], data[2]);
  }

  /** The words that `n` rounds have put into `precalc`. */
  ghost function Filled(precalc: seq<bv32>, midstate: seq<bv32>, data: seq<bv32>, n: nat): (p: seq<bv32>)
    requires |precalc| == 6 && |midstate| == 8 && |data| == 3 && n <= 3
    ensures |p| == 6
    decreases n, midstate
  {
    if n == 0 then precalc
    else
      var r := Rounds(midstate, data, n);
      Filled(precalc, midstate, data, n - 1)[3 - n := r.a][6 - n := r.e]
  }

  lemma FilledAll(precalc: seq<bv32>, midstate: seq<bv32>, data: seq<bv32>)
    requires |precalc| == 6 && |midstate| == 8 && |data| == 3
    ensures Filled(precalc, midstate, data, 3) == Precalc(midstate, data)
  {
    hide Rounds;
    assert Filled(precalc, midstate, data, 0) == precalc;
    var p1 := Filled(precalc, midstate, data, 1);
    var p2 := Filled(precalc, midstate, data, 2);
    assert p2 == p1[1 := Rounds(midstate, data, 2).a][4 := Rounds(midstate, data, 2).e];
  }

  /** The array holds the registers in order. */
  ghost predicate Holds(m: array<bv32>, r: Registers)
    reads m
  {
    && m.Length == 8
    && m[0] == r.a && m[1] == r.b && m[2] == r.c && m[3] == r.d
    && m[4] == r.e && m[5] == r.f && m[6] == r.g && m[7] == r.h
  }

  /** The version that shifts all registers along in every round. */
  method AsicPrecalcShifting(midstate: array<bv32>, data: array<bv32>, precalc: array<bv32>)
    requires midstate.Length == 8 && data.Length == 3 && precalc.Length == 6 && precalc != midstate && precalc != data
    modifies precalc
    ensures precalc[..] == Precalc(midstate[..], data[..])
  {
    hide Round;
    ghost var mid, dat, before := midstate[..], data[..], precalc[..];
    var m := new bv32[8](i requires 0 <= i < 8 reads midstate => midstate[i]);
    assert m[..] == mid;
    var n := 0;
    while n < 3
      invariant 0 <= n <= 3 && midstate[..] == mid && data[..] == dat
      invariant Holds(m, Rounds(mid, dat, n))
      invariant precalc[..] == Filled(before, mid, dat, n)
    {
      ShiftingRound(m, K[n], data[n], Rounds(mid, dat, n));
      precalc[2 - n] := m[0];
      precalc[5 - n] := m[4];
      n := n + 1;
    }
    FilledAll(before, mid, dat);
  }

  method RoundSums(m: array<bv32>, k: bv32, w: bv32, ghost r: Registers) returns (t1: bv32, t2: bv32)
    requires Holds(m, r)
    ensures t1 == T1(r, k, w) && t2 == T2(r)
  {
    hide Xor, And, Not, Add, Rotate, Rotr;
    RotateIsRotr(r.e);
    RotateIsRotr(r.a);
    var s1 := Xor(Xor(Rotate(m[4], 26), Rotate(m[4], 21)), Rotate(m[4], 7));
    var ch := Xor(And(m[4], m[5]), And(Not(m[4]), m[6]));
    t1 := Add(Add(Add(Add(m[7], s1), ch), k), w);
    var s0 := Xor(Xor(Rotate(m[0], 30), Rotate(m[0], 19)), Rotate(m[0], 10));
    var maj := Xor(Xor(And(m[0], m[1]), And(m[0], m[2])), And(m[1], m[2]));
    t2 := Add(s0, maj);
  }

  method ShiftingRound(m: array<bv32>, k: bv32, w: bv32, ghost r: Registers)
    requires Holds(m, r)
    modifies m
    ensures Holds(m, Round(r, k, w))
  {
    hide T1, T2, Add, Holds;
    var t1, t2 := RoundSums(m, k, w, r);
    ShiftRegisters(m, t1, t2, r);
  }

  method ShiftRegisters(m: array<bv32>, t1: bv32, t2: bv32, ghost r: Registers)
    requires Holds(m, r)
    modifies m
    ensures Holds(m, Registers(Add(t1, t2), r.a, r.b, r.c, Add(r.d, t1), r.e, r.f, r.g))
  {
    hide Add;
    m[7] := m[6];
    m[6] := m[5];
    m[5] := m[4];
    m[4] := Add(m[3], t1);
    m[3] := m[2];
    m[2] := m[1];
    m[1] := m[0];
    m[0] := Add(t1, t2);
  }

  // ----- the shipped version

  /** r(x): the slot that holds register `x` after `n` rounds. */
  function Slot(x: nat, n: nat): (i: nat)
    requires x < 8 && n < 8
    ensures i < 8
  {
    if x >= n then x - n else x - n + 8
  }

  ghost predicate Renamed(m: seq<bv32>, r: Registers, n: nat) {
    |m| == 8 && n < 8 && forall x :: 0 <= x < 8 ==> m[Slot(x, n)] == r.ToSeq()[x]
  }

  lemma RenamedSlots(m: seq<bv32>, r: Registers, n: nat)
    requires |m| == 8 && n <= 3
    ensures Renamed(m, r, n) <==>
      && m[Slot(0, n)] == r.a && m[Slot(1, n)] == r.b && m[Slot(2, n)] == r.c && m[3 - n] == r.d
      && m[4 - n] == r.e && m[5 - n] == r.f && m[6 - n] == r.g && m[7 - n] == r.h
  {
    var s := r.ToSeq();
    assert Slot(3, n) == 3 - n && Slot(4, n) == 4 - n && Slot(5, n) == 5 - n && Slot(6, n) == 6 - n &&
      Slot(7, n) == 7 - n;
    assert s[0] == r.a && s[1] == r.b && s[2] == r.c && s[3] == r.d && s[4] == r.e && s[5] == r.f && s[6] == r.g &&
      s[7] == r.h;
  }

  method AsicPrecalc(midstate: array<bv32>, data: array<bv32>, precalc: array<bv32>)
    requires midstate.Length == 8 && data.Length == 3 && precalc.Length == 6 && precalc != midstate && precalc != data
    modifies precalc
    ensures precalc[..] == Precalc(midstate[..], data[..])
  {
    hide Round, Renamed;
    ghost var mid, dat, before := midstate[..], data[..], precalc[..];
    var m := new bv32[8](i requires 0 <= i < 8 reads midstate => midstate[i]);
    assert m[..] == mid;
    RenamedSlots(m[..], Initial(mid), 0);
    var n := 0;
    while n < 3
      invariant 0 <= n <= 3 && midstate[..] == mid && data[..] == dat
      invariant Renamed(m[..], Rounds(mid, dat, n), n)
      invariant precalc[..] == Filled(before, mid, dat, n)
    {
      RotatingRound(m, n, K[n], data[n], Rounds(mid, dat, n));
      precalc[2 - n] := m[7 - n];
      precalc[5 - n] := m[3 - n];
      n := n + 1;
    }
    FilledAll(before, mid, dat);
  }

  /** One round in place: only the slots that become `a` and `e` change. */
  method RotatingRound(m: array<bv32>, n: nat, k: bv32, w: bv32, ghost r: Registers)
    requires m.Length == 8 && n < 3 && Renamed(m[..], r, n)
    modifies m
    ensures Renamed(m[..], Round(r, k, w), n + 1)
    ensures m[7 - n] == Round(r, k, w).a && m[3 - n] == Round(r, k, w).e
  {
    hide Add, T1, T2, Renamed;
    RenamedSlots(m[..], r, n);
    var t1 := RotatingT1(m, n, k, w, r);
    m[7 - n] := t1;
    m[3 - n] := Add(m[3 - n], m[7 - n]);
    var t2 := RotatingT2(m, n, r);
    m[7 - n] := Add(m[7 - n], t2);
    RenamedSlots(m[..], Round(r, k, w), n + 1);
  }

  method RotatingT1(m: array<bv32>, n: nat, k: bv32, w: bv32, ghost r: Registers) returns (t1: bv32)
    requires m.Length == 8 && n < 3
    requires m[4 - n] == r.e && m[5 - n] == r.f && m[6 - n] == r.g && m[7 - n] == r.h
    ensures t1 == T1(r, k, w)
  {
    hide Xor, And, Or, Not, Add, Rotate, Rotr, BigSigma1, Ch;
    var x := Xor(m[5 - n], m[6 - n]);
    x := And(x, m[4 - n]);
    x := Xor(m[6 - n], x);
    x := Add(x, k);
    x := Add(x, w);
    x := Add(x, m[7 - n]);
    var y := Rotate(m[4 - n], 26);
    var z := Rotate(m[4 - n], 21);
    z := Xor(y, z);
    y := Rotate(m[4 - n], 7);
    z := Xor(y, z);
    t1 := Add(z, x);
    ChooseForm(r.e, r.f, r.g);
    Sigma1Form(r.e);
    SumForm(r.h, BigSigma1(r.e), Ch(r.e, r.f, r.g), k, w);
  }

  method RotatingT2(m: array<bv32>, n: nat, ghost r: Registers) returns (t2: bv32)
    requires m.Length == 8 && n < 3
    requires m[Slot(0, n)] == r.a && m[Slot(1, n)] == r.b && m[Slot(2, n)] == r.c
    ensures t2 == T2(r)
  {
    hide Xor, And, Or, Not, Add, Rotate, Rotr, BigSigma0, Maj;
    var x := Rotate(m[Slot(0, n)], 30);
    var y := Rotate(m[Slot(0, n)], 19);
    y := Xor(y, x);
    x := Rotate(m[Slot(0, n)], 10);
    y := Xor(x, y);
    x := Or(m[Slot(0, n)], m[Slot(1, n)]);
    x := And(m[Slot(2, n)], x);
    var z := And(m[Slot(0, n)], m[Slot(1, n)]);
    x := Or(x, z);
    t2 := Add(y, x);
    MajorityForm(r.a, r.b, r.c);
    Sigma0Form(r.a);
  }

  lemma Sigma1Form(x: bv32)
    ensures Xor(Rotate(x, 7), Xor(Rotate(x, 26), Rotate(x, 21))) == BigSigma1(x)
  {
    hide Xor, Rotate, Rotr;
    RotateIsRotr(x);
    XorComm(Rotate(x, 7), Xor(Rotate(x, 26), Rotate(x, 21)));
  }

  lemma Sigma0Form(x: bv32)
    ensures Xor(Rotate(x, 10), Xor(Rotate(x, 19), Rotate(x, 30))) == BigSigma0(x)
  {
    hide Xor, Rotate, Rotr;
    RotateIsRotr(x);
    XorComm(Rotate(x, 19), Rotate(x, 30));
    XorComm(Rotate(x, 10), Xor(Rotate(x, 30), Rotate(x, 19)));
  }
}
