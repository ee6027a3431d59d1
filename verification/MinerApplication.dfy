/** The miner's routines, working in place on the receive ring, the timer and the data port. */
module MinerApplication {
  import opened Bytes
  import opened Sha256
  import opened AsicLink
  import opened Miner
  import R = RingBuffer
  import T = Timer

  class Application {
    const buffer: R.Ring
    const workTimer: T.Timer
    const port: DataPort
    var work: Work
    var status: HostState
    var report: word32
    var reportValid: bool
    var spie: bool
    var tx: seq<byte>

    ghost predicate Valid()
      reads this, buffer
    {
      buffer.Valid() && buffer.data.Length == RX_SIZE
    }

    ghost function View(): App
      requires Valid()
      reads this, buffer, buffer.data, workTimer, port
    {
      App(buffer.Contents(), work, status, workTimer.View(), report, reportValid, spie, tx, port.line)
    }

    /** The static variables, then appInit. */
    constructor ()
      ensures Valid() && View() == Fresh()
    {
      var storage := new byte[RX_SIZE](i => 0);
      buffer := new R.Ring(storage);
      workTimer := new T.Timer();
      port := new DataPort();
      work := Work([], [], []);
      status := HostState(RESET, 0, 0);
      report, reportValid, spie := 0, false, true;
      tx := [];
    }

    /** sendCmdReply with the state structure as its data. */
    method SendStatus(cmd: byte)
      requires Valid()
      modifies this`tx
      ensures tx == old(tx) + StateReply(cmd, status)
    {
      tx := tx + StateReply(cmd, status);
    }

    method PushWork(w: Work)
      requires w.Valid()
      modifies port
      ensures port.line == old(port.line) + AllLevels(JobWords(w)) + [Both]
    {
      hide AllLevels;
      port.Send(CLOCK_CONFIG);
      port.Send(w.data);
      port.Send(w.precalc[1..]);
      port.Send(w.midstate);
      port.Send(w.precalc[..1]);
      port.Send([0]);
      JoinLevels(w);
      port.line := port.line + [Both];
    }

    /** The bytes of a job frame, taken out of the ring one by one. */
    method TakeBytes(n: nat) returns (bytes: seq<byte>)
      requires Valid() && n <= |buffer.Contents()|
      modifies buffer`outPos, buffer`count
      ensures Valid() && bytes == old(buffer.Contents())[..n] && buffer.Contents() == old(buffer.Contents())[n..]
    {
      bytes := [];
      ghost var all := buffer.Contents();
      var i := 0;
      while i < n
        invariant 0 <= i <= n && Valid()
        invariant bytes == all[..i] && buffer.Contents() == all[i..]
      {
        var b := buffer.Remove();
        bytes := bytes + [b];
        i := i + 1;
      }
    }

    /** Takes a whole job frame out of the ring. */
    method TakeFrame() returns (midstate: seq<byte>, data: seq<byte>)
      requires Valid() && |buffer.Contents()| > JOB_SIZE && buffer.Contents()[0] == CMD_W
      modifies buffer`outPos, buffer`count
      ensures Valid() && |midstate| == 32 && |data| == 12
      ensures Front(old(buffer.Contents())) == Some(Job(midstate + data))
      ensures buffer.Contents() == old(buffer.Contents())[1 + JOB_SIZE..]
    {
      ghost var all := buffer.Contents();
      var cmd := buffer.Remove();
      assert buffer.Contents() == all[1..];
      midstate := TakeBytes(32);
      data := TakeBytes(12);
      assert all[1..][32..][12..] == all[1 + JOB_SIZE..];
      assert midstate + data == all[1..1 + JOB_SIZE];
    }

    method RunJob(midstate: seq<byte>, data: seq<byte>, now: word32)
      requires Valid() && |midstate| == 32 && |data| == 12
      modifies this, workTimer, port
      ensures Valid() && View() == Execute(old(View()), Job(midstate + data), now)
    {
      hide Precalc, JobWords, AllLevels, Words, StateReply;
      assert (midstate + data)[..32] == midstate && (midstate + data)[32..] == data;
      var precalc := Precalculate(Words(midstate), Words(data));
      work := Work(Words(midstate), Words(data), precalc);
      status := HostState(WORKING, 0, 0);
      reportValid := false;
      PushWork(work);
      workTimer.Set(now, TIMEOUT);
      SendStatus(CMD_W);
    }

    method Precalculate(midstate: seq<bv32>, data: seq<bv32>) returns (p: seq<bv32>)
      requires |midstate| == 8 && |data| == 3
      ensures p == Precalc(midstate, data)
    {
      var m := new bv32[8](i requires 0 <= i < 8 => midstate[i]);
      var d := new bv32[3](i requires 0 <= i < 3 => data[i]);
      var r := new bv32[6](i => 0);
      assert m[..] == midstate && d[..] == data;
      AsicPrecalc(m, d, r);
      p := r[..];
    }

    method SerialProcess(now: word32)
      requires Valid()
      modifies this, buffer`outPos, buffer`count, workTimer, port
      ensures Valid() && View() == Process(old(View()), now)
    {
      hide StateReply, WorkOf, AllLevels;
      var count := buffer.GetCount();
      if count == 0 {
        return;
      }
      ghost var before := View();
      var cmd := buffer.Peek();
      if cmd == CMD_W {
        if count > JOB_SIZE {
          var midstate, data := TakeFrame();
          RunJob(midstate, data, now);
        }
      } else {
        var b := buffer.Remove();
        assert before.rx[1..] == buffer.Contents() && Front(before.rx) == Some(Plain(cmd));
        if cmd == CMD_R || cmd == CMD_A {
          reportValid := false;
          status := status.(state := RESET);
          SendStatus(cmd);
        } else if cmd == CMD_I {
          tx := tx + [CMD_I] + IDENTITY;
        } else if cmd == CMD_S {
          SendStatus(cmd);
        }
      }
    }

    /** The receive loop, for bytes that fit. */
    method BufferBytes(chunk: seq<byte>)
      requires Valid() && |buffer.Contents()| + |chunk| <= RX_SIZE
      modifies buffer`inPos, buffer`count, buffer.data
      ensures Valid() && buffer.Contents() == old(buffer.Contents()) + chunk
    {
      ghost var before := buffer.Contents();
      var i := 0;
      while i < |chunk|
        invariant 0 <= i <= |chunk| && Valid()
        invariant buffer.Contents() == before + chunk[..i]
      {
        buffer.Insert(chunk[i]);
        i := i + 1;
        assert before + chunk[..i] == before + chunk[..i - 1] + [chunk[i - 1]];
      }
      assert chunk[..i] == chunk;
    }

    /** appUsbDataReceived. */
    method UsbDataReceived(chunk: seq<byte>, now: word32)
      requires Valid() && |buffer.Contents()| + |chunk| <= RX_SIZE
      modifies this, buffer`inPos, buffer`outPos, buffer`count, buffer.data, workTimer, port
      ensures Valid() && View() == Receive(old(View()), chunk, now)
    {
      hide Process;
      BufferBytes(chunk);
      SerialProcess(now);
    }

    /** The first half of appService. */
    method ServeReport()
      requires Valid()
      modifies this, workTimer
      ensures Valid() && View() == TakeReport(old(View()))
    {
      hide StateReply, NonceOf;
      if reportValid {
        var nonce := report;
        reportValid := false;
        workTimer.Stop();
        reportValid := false;
        spie := true;
        status := HostState(RESET, 1, NonceOf(nonce));
        SendStatus(CMD_S);
      }
    }

    /** The second half. */
    method ServeTimeout(now: word32)
      requires Valid()
      modifies this, workTimer
      ensures Valid() && View() == CheckTimeout(old(View()), now)
    {
      hide StateReply, T.Due;
      var expired := workTimer.Expired(now);
      if expired {
        reportValid := false;
        status := HostState(RESET, 0, 0);
        SendStatus(CMD_S);
      }
    }

    /** appService with no interrupt in it; `Miner.ServiceSettles` relates it to the runs that have one. */
    method Service(now: word32)
      requires Valid()
      modifies this, workTimer
      ensures Valid() && View() == Serve(old(View()), now)
    {
      hide TakeReport, CheckTimeout;
      ServeReport();
      ServeTimeout(now);
    }

    /** ISR(SPI_STC_vect): `bytes` are those that arrive before the wait for the next one times out. */
    method SpiInterrupt(bytes: seq<byte>)
      requires Valid() && spie && bytes != []
      modifies this
      ensures Valid() && View() == Interrupt(old(View()), bytes)
    {
      spie := false;
      report := bytes[0];
      var count := 1;
      assert bytes[..1] == [bytes[0]] && [bytes[0]][..0] == [];
      while count != 4
        invariant 1 <= count <= 4 && count <= |bytes| && !spie
        invariant report == Report(bytes[..count])
        invariant View() == old(View()).(spie := false, report := report)
        decreases 4 - count
      {
        if count == |bytes| {
          break;
        }
        assert bytes[..count + 1][..count] == bytes[..count];
        report := (report * 0x100 + bytes[count]) % TWO32;
        count := count + 1;
      }
      assert bytes[..|bytes|] == bytes;
      reportValid := true;
    }
  }

  /** Sending pieces one after the other is sending them all. */
  lemma {:induction false} LevelsAppend(a: seq<bv32>, b: seq<bv32>)
    ensures AllLevels(a + b) == AllLevels(a) + AllLevels(b)
  {
    if a == [] {
      assert a + b == b;
    } else {
      assert (a + b)[1..] == a[1..] + b;
      LevelsAppend(a[1..], b);
    }
  }

  lemma JoinLevels(w: Work)
    requires w.Valid()
    ensures AllLevels(JobWords(w)) ==
      AllLevels(CLOCK_CONFIG) + AllLevels(w.data) + AllLevels(w.precalc[1..]) + AllLevels(w.midstate) +
        AllLevels(w.precalc[..1]) + AllLevels([0])
  {
    hide AllLevels;
    LevelsAppend(CLOCK_CONFIG, w.data);
    LevelsAppend(CLOCK_CONFIG + w.data, w.precalc[1..]);
    LevelsAppend(CLOCK_CONFIG + w.data + w.precalc[1..], w.midstate);
    LevelsAppend(CLOCK_CONFIG + w.data + w.precalc[1..] + w.midstate, w.precalc[..1]);
    LevelsAppend(CLOCK_CONFIG + w.data + w.precalc[1..] + w.midstate + w.precalc[..1], [0]);
  }
}
