/** USB endpoint banks, as the firmware reads and fills them through the Endpoint_* calls. */
module Endpoint {
  import opened Bytes

  function Flatten(packets: seq<seq<byte>>): seq<byte> {
    if packets == [] then [] else packets[0] + Flatten(packets[1..])
  }

  lemma {:induction false} FlattenAppend(a: seq<seq<byte>>, b: seq<byte>)
    ensures Flatten(a + [b]) == Flatten(a) + b
  {
    if a == [] {
      assert [b][1..] == [];
    } else {
      assert (a + [b])[1..] == a[1..] + [b];
      FlattenAppend(a[1..], b);
    }
  }

  lemma SkipInFirst(packets: seq<seq<byte>>, k: nat)
    requires packets != [] && k <= |packets[0]|
    ensures packets[0][k..] + Flatten(packets[1..]) == Flatten(packets)[k..]
  {
  }

  /** The packets of a data stage: full ones of `size` bytes, then what is left over. */
  function Packets(data: seq<byte>, size: nat): (packets: seq<seq<byte>>)
    requires size > 0
    ensures Flatten(packets) == data
    ensures forall i :: 0 <= i < |packets| ==> 0 < |packets[i]| <= size
  {
    if |data| == 0 then []
    else if |data| <= size then
      assert [data][1..] == [];
      [data]
    else
      var rest := Packets(data[size..], size);
      assert ([data[..size]] + rest)[1..] == rest;
      [data[..size]] + rest
  }

  /**
   An OUT endpoint: the unread bytes of the packet in the bank, and the packets the host
   will still send.  Waiting for a packet when none is pending means the host has gone: the
   firmware then sees DEVICE_STATE_Unattached.
   */
  datatype Out = Out(bank: seq<byte>, pending: seq<seq<byte>>) {
    /** Everything the host has still to deliver. */
    function Stream(): seq<byte> {
      bank + Flatten(pending)
    }

    /** Endpoint_ClearOUT, then the wait for the next packet. */
    function Next(): (r: Out)
      requires pending != []
      ensures r.Stream() == Flatten(pending)
    {
      Out(pending[0], pending[1..])
    }

    /** Endpoint_Read_8.  An empty bank reads as zero. */
    function Head(): byte {
      if bank == [] then 0 else bank[0]
    }

    function Tail(): Out {
      if bank == [] then this else Out(bank[1..], pending)
    }
  }

  /** An IN endpoint: the packets already sent and the bytes waiting in the bank. */
  datatype In = In(sent: seq<seq<byte>>, bank: seq<byte>) {
    function Stream(): seq<byte> {
      Flatten(sent) + bank
    }

    /** Endpoint_ClearIN. */
    function Clear(): (r: In)
      ensures r.Stream() == Stream()
      ensures sent == [] ==> r.sent == [bank]
    {
      FlattenAppend(sent, bank);
      In(sent + [bank], [])
    }

    /** Sends the bank first if it already holds `size` bytes, as every writing loop does. */
    function Ready(size: nat): (r: In)
      ensures r.Stream() == Stream()
    {
      if |bank| == size then Clear() else this
    }

    /** Endpoint_Write_8 and Endpoint_Write_16_LE. */
    function Put(bytes: seq<byte>): (r: In)
      ensures r.Stream() == Stream() + bytes
      ensures bank == [] ==> r.bank == bytes
    {
      In(sent, bank + bytes)
    }
  }

  // ----- reading words

  predicate NoneEmpty(packets: seq<seq<byte>>) {
    forall i :: 0 <= i < |packets| ==> packets[i] != []
  }

  /** The bytes that `words` successive word reads return, fetching packets as the programming loops do. */
  function WordBytes(ep: Out, words: nat): (s: seq<byte>)
    requires NoneEmpty(ep.pending) && |ep.Stream()| >= 2 * words
    ensures |s| == 2 * words
    decreases words
  {
    if words == 0 then []
    else
      var e := if ep.bank == [] then ep.Next() else ep;
      var rest := e.Tail().Tail();
      assert |rest.Stream()| >= |ep.Stream()| - 2;
      [e.Head(), e.Tail().Head()] + WordBytes(rest, words - 1)
  }

  /** Every packet but the last has an even length, so no word is cut in two. */
  predicate Paired(ep: Out) {
    && (ep.pending != [] ==> |ep.bank| % 2 == 0)
    && forall i :: 0 <= i < |ep.pending| - 1 ==> |ep.pending[i]| % 2 == 0
  }

  lemma WordStep(ep: Out, words: nat)
    requires NoneEmpty(ep.pending) && words > 0 && |ep.Stream()| >= 2 * words
    ensures ep.bank == [] ==> ep.pending != []
    ensures var e := if ep.bank == [] then ep.Next() else ep;
      var rest := e.Tail().Tail();
      && NoneEmpty(rest.pending) && |rest.Stream()| >= 2 * (words - 1)
      && WordBytes(ep, words) == [e.Head(), e.Tail().Head()] + WordBytes(rest, words - 1)
  {
  }

  /** The bytes that word reads return until the host has nothing more to send; a word that is cut off ends in zero. */
  function AllWords(ep: Out): (s: seq<byte>)
    ensures |s| % 2 == 0
    decreases |ep.pending|, |ep.bank|
  {
    if ep.bank == [] && ep.pending == [] then []
    else
      var e := if ep.bank == [] then ep.Next() else ep;
      [e.Head(), e.Tail().Head()] + AllWords(e.Tail().Tail())
  }

  /** `s` as words. */
  function Padded(s: seq<byte>): seq<byte> {
    if |s| % 2 == 0 then s else s + [0]
  }

  lemma PaddedStep(b: seq<byte>)
    requires |b| >= 2
    ensures Padded(b) == [b[0], b[1]] + Padded(b[2..])
  {
    assert b == [b[0], b[1]] + b[2..];
    assert |b[2..]| % 2 == |b| % 2;
  }

  lemma NextWord(b: seq<byte>, pending: seq<seq<byte>>)
    requires b != []
    ensures |b| == 1 ==> AllWords(Out(b, pending)) == [b[0], 0] + AllWords(Out([], pending))
    ensures |b| >= 2 ==> AllWords(Out(b, pending)) == [b[0], b[1]] + AllWords(Out(b[2..], pending))
  {
    var e := Out(b, pending);
    if |b| >= 2 { TakeWord(e); } else { assert e.Tail().Tail() == Out([], pending); }
  }

  lemma {:induction false} BankWords(b: seq<byte>, pending: seq<seq<byte>>)
    ensures b != [] ==> AllWords(Out(b, pending)) == Padded(b) + AllWords(Out([], pending))
    decreases |b|
  {
    hide AllWords, Padded;
    if |b| == 1 {
      NextWord(b, pending);
      assert Padded(b) == [b[0], 0] by { assert b + [0] == [b[0], 0]; OddPadded(b); }
    } else if |b| >= 2 {
      NextWord(b, pending);
      PaddedStep(b);
      BankWords(b[2..], pending);
      OddPadded([]);
    }
  }

  lemma OddPadded(b: seq<byte>)
    ensures |b| == 1 ==> Padded(b) == b + [0]
    ensures b == [] ==> Padded(b) == []
  {
  }

  lemma PaddedJoin(a: seq<byte>, b: seq<byte>)
    requires |a| % 2 == 0 || b == []
    ensures Padded(a + b) == Padded(a) + Padded(b)
  {
    assert |a + b| == |a| + |b|;
    if b == [] { assert a + b == a; }
  }

  /** Bytes sent in packets of even size arrive as words. */
  lemma {:induction false} PacketWords(data: seq<byte>, size: nat)
    requires size > 0 && size % 2 == 0
    ensures AllWords(Out([], Packets(data, size))) == Padded(data)
    decreases |data|
  {
    if data != [] {
      var first, rest := data[..if |data| <= size then |data| else size],
        data[if |data| <= size then |data| else size..];
      PacketWords(rest, size);
      assert Packets(data, size) == [first] + Packets(rest, size);
      BankWords(first, Packets(rest, size));
      assert Out([], [first] + Packets(rest, size)).Next() == Out(first, Packets(rest, size));
      assert AllWords(Out([], [first] + Packets(rest, size))) == AllWords(Out(first, Packets(rest, size)));
      hide Packets, AllWords;
      assert data == first + rest;
      PaddedJoin(first, rest);
    }
  }

  lemma TakeWord(ep: Out)
    requires |ep.bank| >= 2
    ensures ep.Tail().Tail() == Out(ep.bank[2..], ep.pending)
    ensures ep.Head() == ep.bank[0] && ep.Tail().Head() == ep.bank[1]
    ensures ep.Stream() == [ep.bank[0], ep.bank[1]] + ep.Tail().Tail().Stream()
  {
    assert ep.bank == [ep.bank[0], ep.bank[1]] + ep.bank[2..];
  }

  lemma PairedBank(ep: Out)
    requires NoneEmpty(ep.pending) && |ep.Stream()| >= 2 && Paired(ep)
    ensures ep.bank == [] ==> ep.pending != []
    ensures var e := if ep.bank == [] then ep.Next() else ep;
      && |e.bank| >= 2 && NoneEmpty(e.pending) && Paired(e) && e.Stream() == ep.Stream()
  {
  }

  lemma {:induction false} PairedWords(ep: Out, words: nat)
    requires NoneEmpty(ep.pending) && |ep.Stream()| >= 2 * words && Paired(ep)
    ensures forall i :: 0 <= i < 2 * words ==> WordBytes(ep, words)[i] == ep.Stream()[i]
    decreases words
  {
    hide Out.Stream, Out.Head, Out.Tail;
    if words != 0 {
      PairedBank(ep);
      var e := if ep.bank == [] then ep.Next() else ep;
      TakeWord(e);
      PairedWords(Out(e.bank[2..], e.pending), words - 1);
    }
  }

  lemma {:induction false} FullPackets(data: seq<byte>, size: nat)
    requires size > 0
    ensures forall i :: 0 <= i < |Packets(data, size)| - 1 ==> |Packets(data, size)[i]| == size
    decreases |data|
  {
    if |data| > size { FullPackets(data[size..], size); }
  }
}
