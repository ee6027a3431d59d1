/**
 The byte ring buffer of the firmware: the routines on a storage array, and the promise that
 one inserter and one remover may run at the same time.
 */
module RingBuffer {
  import opened Bytes

  /** Position `z` of a ring of `size` slots, for `z` less than twice around. */
  function Around(z: int, size: nat): int {
    if z < size then z else z - size
  }

  /** The `n` bytes of a ring from slot `out` on. */
  function Queue(store: seq<byte>, out: nat, n: nat): (q: seq<byte>)
    requires out < |store| && n <= |store|
    ensures |q| == n
  {
    if out + n <= |store| then store[out..out + n] else store[out..] + store[..out + n - |store|]
  }

  lemma QueuePush(store: seq<byte>, out: nat, n: nat, x: byte)
    requires out < |store| && n < |store|
    ensures Queue(store[Around(out + n, |store|) := x], out, n + 1) == Queue(store, out, n) + [x]
  {
  }

  lemma QueuePop(store: seq<byte>, out: nat, n: nat)
    requires out < |store| && 0 < n <= |store|
    ensures Queue(store, out, n) == [store[out]] + Queue(store, Around(out + 1, |store|), n - 1)
  {
  }

  class Ring {
    const data: array<byte>
    var inPos: nat
    var outPos: nat
    var count: word16

    ghost predicate Valid()
      reads this
    {
      && 0 < data.Length < 0x1_0000
      && inPos < data.Length && outPos < data.Length && count <= data.Length
      && inPos == Around(outPos + count, data.Length)
    }

    ghost function Contents(): (s: seq<byte>)
      requires Valid()
      reads this, data
      ensures |s| == count
    {
      Queue(data[..], outPos, count)
    }

    /** RingBuffer_InitBuffer. */
    constructor (storage: array<byte>)
      requires 0 < storage.Length < 0x1_0000
      ensures data == storage && Valid() && Contents() == []
    {
      data := storage;
      inPos, outPos, count := 0, 0, 0;
    }

    method GetCount() returns (n: word16)
      requires Valid()
      ensures n == |Contents()|
    {
      n := count;
    }

    method GetFreeCount() returns (n: word16)
      requires Valid()
      ensures n == data.Length - |Contents()|
    {
      n := data.Length - count;
    }

    method IsEmpty() returns (empty: bool)
      requires Valid()
      ensures empty <==> Contents() == []
    {
      empty := count == 0;
    }

    method IsFull() returns (full: bool)
      requires Valid()
      ensures full <==> |Contents()| == data.Length
    {
      full := count == data.Length;
    }

    /** Appends when there is room.  A full buffer is not checked for: its oldest byte is lost. */
    method Insert(x: byte)
      requires Valid()
      modifies this`inPos, this`count, data
      ensures outPos == old(outPos)
      ensures old(count) < data.Length ==> Valid() && Contents() == old(Contents()) + [x]
      ensures old(count) == data.Length ==> !Valid() && data[..] == old(data[..])[outPos := x]
    {
      if count < data.Length { QueuePush(data[..], outPos, count, x); }
      data[inPos] := x;
      inPos := inPos + 1;
      if inPos == data.Length {
        inPos := 0;
      }
      count := Wrap16(count + 1);
    }

    /** Takes the oldest byte.  An empty buffer is not checked for: its count wraps around. */
    method Remove() returns (x: byte)
      requires Valid()
      modifies this`outPos, this`count
      ensures inPos == old(inPos)
      ensures old(count) > 0 ==> Valid() && [x] + Contents() == old(Contents())
      ensures old(count) == 0 ==> count == 0xFFFF
    {
      if count > 0 { QueuePop(data[..], outPos, count); }
      x := data[outPos];
      outPos := outPos + 1;
      if outPos == data.Length {
        outPos := 0;
      }
      count := Wrap16(count - 1);
    }

    method Peek() returns (x: byte)
      requires Valid()
      ensures |Contents()| > 0 ==> x == Contents()[0]
    {
      x := data[outPos];
    }
  }

  // ----- one inserter and one remover, interleaved

  /** The shared variables. */
  datatype Shared = Shared(store: seq<byte>, inPos: nat, outPos: nat, count: int)

  /** Where the inserting and the removing thread stand; each state names the statement that comes next. */
  datatype Inserter = Idle | Store(x: byte) | AdvanceIn | WrapIn | CountUp
  datatype Remover = Waiting | Load | AdvanceOut(y: byte) | WrapOut(y: byte) | CountDown(y: byte)

  /** The bytes given to Insert and returned by Remove so far are kept beside the program's state. */
  datatype System = System(ring: Shared, inserter: Inserter, remover: Remover, inserted: seq<byte>, removed: seq<byte>)

  datatype Step = StartInsert(x: byte) | StartRemove | Inserting | Removing

  /** A thread starts only after it has seen room, or data, as the documentation asks. */
  predicate Enabled(s: System, step: Step) {
    match step
    case StartInsert(_) => s.inserter.Idle? && s.ring.count < |s.ring.store|
    case StartRemove => s.remover.Waiting? && s.ring.count > 0
    case Inserting => !s.inserter.Idle?
    case Removing => !s.remover.Waiting?
  }

  function Apply(s: System, step: Step): System
    requires Enabled(s, step)
  {
    var r := s.ring;
    match step
    case StartInsert(x) => s.(inserter := Store(x), inserted := s.inserted + [x])
    case StartRemove => s.(remover := Load)
    case Inserting => (
      match s.inserter
      case Store(x) => s.(ring := r.(store := Put(r.store, r.inPos, x)), inserter := AdvanceIn)
      case AdvanceIn => s.(ring := r.(inPos := r.inPos + 1), inserter := WrapIn)
      case WrapIn => s.(ring := r.(inPos := if r.inPos == |r.store| then 0 else r.inPos), inserter := CountUp)
      case CountUp => s.(ring := r.(count := r.count + 1), inserter := Idle))
    case Removing => (
      match s.remover
      case Load => s.(remover := AdvanceOut(Get(r.store, r.outPos)))
      case AdvanceOut(y) => s.(ring := r.(outPos := r.outPos + 1), remover := WrapOut(y))
      case WrapOut(y) => s.(ring := r.(outPos := if r.outPos == |r.store| then 0 else r.outPos),
        remover := CountDown(y))
      case CountDown(y) => s.(ring := r.(count := r.count - 1), remover := Waiting, removed := s.removed + [y]))
  }

  /** Accesses through a pointer; outside the storage they are undefined, and `NoClash` shows that they never are. */
  function Put(store: seq<byte>, i: nat, x: byte): seq<byte> {
    if i < |store| then store[i := x] else store
  }

  function Get(store: seq<byte>, i: nat): byte {
    if i < |store| then store[i] else 0
  }

  /** How many bytes have been stored, and how many loaded. */
  function Stored(s: System): int {
    |s.inserted| - if s.inserter.Store? then 1 else 0
  }

  function Loaded(s: System): int {
    |s.removed| + Released(s)
  }

  /** One while a stored byte is not yet counted, and one while a loaded byte still is. */
  function Uncounted(s: System): int {
    if s.inserter.AdvanceIn? || s.inserter.WrapIn? || s.inserter.CountUp? then 1 else 0
  }

  function Released(s: System): int {
    if s.remover.Waiting? || s.remover.Load? then 0 else 1
  }

  /** Where the next byte will be stored and loaded once the pending pointer moves are done. */
  function NextIn(s: System): int {
    var r := s.ring;
    if s.inserter.AdvanceIn? then Around(r.inPos + 1, |r.store|)
    else if s.inserter.WrapIn? then Around(r.inPos, |r.store|)
    else r.inPos
  }

  function NextOut(s: System): int {
    var r := s.ring;
    if s.remover.AdvanceOut? then Around(r.outPos + 1, |r.store|)
    else if s.remover.WrapOut? then Around(r.outPos, |r.store|)
    else r.outPos
  }

  ghost predicate Positions(s: System) {
    var r := s.ring;
    var size := |r.store|;
    && 0 < size
    && (if s.inserter.WrapIn? then 0 < r.inPos <= size else r.inPos < size)
    && (if s.remover.WrapOut? then 0 < r.outPos <= size else r.outPos < size)
    && 0 <= Loaded(s) <= Stored(s) - Uncounted(s) && Stored(s) - Loaded(s) + Released(s) <= size
    && NextIn(s) == Around(NextOut(s) + (Stored(s) - Loaded(s)), size)
    && r.count == (Stored(s) - Uncounted(s)) - (Loaded(s) - Released(s))
    && (s.inserter.Store? ==> r.count < size && s.inserted != [] && s.inserter.x == s.inserted[|s.inserted| - 1])
    && (s.remover.Load? ==> r.count > 0)
  }

  ghost predicate Carried(s: System)
    requires Positions(s)
  {
    && s.removed == s.inserted[..|s.removed|]
    && (Released(s) == 1 ==> s.remover.y == s.inserted[|s.removed|])
    && Queue(s.ring.store, NextOut(s), Stored(s) - Loaded(s)) == s.inserted[Loaded(s)..Stored(s)]
  }

  ghost predicate Invariant(s: System) {
    Positions(s) && Carried(s)
  }

  function Start(storage: seq<byte>): System {
    System(Shared(storage, 0, 0, 0), Idle, Waiting, [], [])
  }

  lemma BusyPositions(s: System, step: Step)
    requires Positions(s) && ((step.Inserting? && s.inserter.Store?) || (step.Removing? && s.remover.Load?))
    ensures Positions(Apply(s, step))
  {
  }

  lemma StoreKeeps(s: System)
    requires Invariant(s) && s.inserter.Store?
    ensures Invariant(Apply(s, Inserting))
  {
    hide Queue;
    var t := Apply(s, Inserting);
    BusyPositions(s, Inserting);
    QueuePush(s.ring.store, NextOut(s), Stored(s) - Loaded(s), s.inserter.x);
    assert t.inserted[Loaded(t)..Stored(t)] == s.inserted[Loaded(s)..Stored(s)] + [s.inserter.x];
  }

  lemma InsertingKeeps(s: System)
    requires Invariant(s) && Enabled(s, Inserting)
    ensures Invariant(Apply(s, Inserting))
  {
    hide Queue;
    if s.inserter.Store? { StoreKeeps(s); }
  }

  lemma LoadKeeps(s: System)
    requires Invariant(s) && s.remover.Load?
    ensures Invariant(Apply(s, Removing))
  {
    hide Queue;
    var t := Apply(s, Removing);
    BusyPositions(s, Removing);
    var n := Stored(s) - Loaded(s);
    var q := Queue(s.ring.store, NextOut(s), n);
    QueuePop(s.ring.store, NextOut(s), n);
    assert NextOut(t) == Around(NextOut(s) + 1, |s.ring.store|) && Loaded(t) == Loaded(s) + 1 && Stored(t) == Stored(s);
    hide Positions, NextIn, NextOut, Around;
    assert q == s.inserted[Loaded(s)..Stored(s)];
    assert q[0] == s.inserted[Loaded(s)] && q[1..] == t.inserted[Loaded(t)..Stored(t)];
  }

  /** The steps of a removal after the load move no byte of the queue. */
  lemma AfterLoadKeeps(s: System)
    requires Invariant(s) && Enabled(s, Removing) && !s.remover.Load?
    ensures Invariant(Apply(s, Removing))
  {
    hide Queue;
    var t := Apply(s, Removing);
    assert Positions(t) && NextOut(t) == NextOut(s) && Loaded(t) == Loaded(s) && Stored(t) == Stored(s);
    hide Positions, NextIn, NextOut, Around;
    if s.remover.CountDown? {
      assert s.inserted[..|s.removed| + 1] == s.inserted[..|s.removed|] + [s.inserted[|s.removed|]];
    }
  }

  lemma RemovingKeeps(s: System)
    requires Invariant(s) && Enabled(s, Removing)
    ensures Invariant(Apply(s, Removing))
  {
    hide Invariant, Apply;
    if s.remover.Load? { LoadKeeps(s); } else { AfterLoadKeeps(s); }
  }

  lemma StartingKeeps(s: System, step: Step)
    requires Invariant(s) && Enabled(s, step) && (step.StartInsert? || step.StartRemove?)
    ensures Invariant(Apply(s, step))
  {
    hide Queue;
    var t := Apply(s, step);
    assert Positions(t);
    assert t.inserted[..|s.removed|] == s.inserted[..|s.removed|];
    assert t.inserted[Loaded(s)..Stored(s)] == s.inserted[Loaded(s)..Stored(s)];
  }

  /** The state after a run, if every step of it was enabled when its turn came. */
  function After(s: System, steps: seq<Step>): Option<System>
    decreases |steps|
  {
    if steps == [] then Some(s)
    else if Enabled(s, steps[0]) then After(Apply(s, steps[0]), steps[1..])
    else None
  }

  lemma {:induction false} RunKeeps(s: System, steps: seq<Step>)
    requires Invariant(s) && After(s, steps).Some?
    ensures Invariant(After(s, steps).value)
    ensures |After(s, steps).value.ring.store| == |s.ring.store|
    decreases |steps|
  {
    hide Invariant;
    if steps != [] {
      match steps[0] {
        case Inserting => InsertingKeeps(s);
        case Removing => RemovingKeeps(s);
        case _ => StartingKeeps(s, steps[0]);
      }
      RunKeeps(Apply(s, steps[0]), steps[1..]);
    }
  }

  /** `s` is reached from an empty ring over `storage` by some interleaving of the two threads. */
  predicate Reached(storage: seq<byte>, steps: seq<Step>, s: System) {
    storage != [] && After(Start(storage), steps) == Some(s)
  }

  lemma ReachedInvariant(storage: seq<byte>, steps: seq<Step>, s: System)
    requires Reached(storage, steps, s)
    ensures Invariant(s) && |s.ring.store| == |storage|
  {
    RunKeeps(Start(storage), steps);
  }

  /** What is removed is, in order, what was inserted, with nothing skipped and little left behind. */
  lemma Fifo(storage: seq<byte>, steps: seq<Step>, s: System)
    requires Reached(storage, steps, s)
    ensures s.removed <= s.inserted
    ensures |s.inserted| - |s.removed| <= |storage| + 1
  {
    ReachedInvariant(storage, steps, s);
  }

  /** The two threads never access the same slot at the same time, nor anything outside the storage. */
  lemma NoClash(storage: seq<byte>, steps: seq<Step>, s: System)
    requires Reached(storage, steps, s)
    ensures s.inserter.Store? ==> s.ring.inPos < |storage|
    ensures s.remover.Load? ==> s.ring.outPos < |storage|
    ensures s.inserter.Store? && s.remover.Load? ==> s.ring.inPos != s.ring.outPos
  {
    ReachedInvariant(storage, steps, s);
  }

  /** Count is the distance between the pointers, corrected by what the two threads have still to do. */
  lemma CountIsDistance(storage: seq<byte>, steps: seq<Step>, s: System)
    requires Reached(storage, steps, s)
    ensures 0 <= s.ring.count <= |storage|
    ensures NextIn(s) == Around(NextOut(s) + s.ring.count + Uncounted(s) - Released(s), |storage|)
  {
    ReachedInvariant(storage, steps, s);
  }

  /** When neither thread is busy, the ring holds exactly what was inserted and not yet removed. */
  lemma Quiescent(storage: seq<byte>, steps: seq<Step>, s: System)
    requires Reached(storage, steps, s) && s.inserter.Idle? && s.remover.Waiting?
    ensures s.ring.outPos < |s.ring.store| && 0 <= s.ring.count <= |s.ring.store|
    ensures s.inserted == s.removed + Queue(s.ring.store, s.ring.outPos, s.ring.count)
  {
    ReachedInvariant(storage, steps, s);
  }
}
