/**
 The miner's application: the command parser over the receive ring, the job and its timeout,
 and the path of a nonce from the SPI interrupt to the host, over every run of events.
 */
module Miner {
  import opened Bytes
  import opened Sha256
  import opened AsicLink
  import T = Timer

  const RX_SIZE: nat := 128
  const JOB_SIZE: nat := 44
  const TIMEOUT: word32 := 16000

  // The commands, and the two values of the state byte, are ASCII letters.
  const CMD_A: byte := 65
  const CMD_I: byte := 73
  const CMD_R: byte := 82
  const CMD_S: byte := 83
  const CMD_W: byte := 87
  const RESET: byte := 82
  const WORKING: byte := 87

  /** Version 1, "MiniOne", serial 0x20130712. */
  const IDENTITY: seq<byte> := [1, 77, 105, 110, 105, 79, 110, 101, 0, 0x12, 0x07, 0x13, 0x20]
  const CLOCK_CONFIG: seq<bv32> := [0x0403_0007, 0x0000_0172]

  datatype Work = Work(midstate: seq<bv32>, data: seq<bv32>, precalc: seq<bv32>) {
    predicate Valid() {
      |midstate| == 8 && |data| == 3 && |precalc| == 6
    }
  }

  /**
   The application's variables and those of the ASIC driver.  `spie` is the SPI interrupt
   enable, `tx` all that was written for the host and `line` all levels of the data port.
   */
  datatype App = App(
    rx: seq<byte>, work: Work, status: HostState, timer: T.State,
    report: word32, reportValid: bool, spie: bool, tx: seq<byte>, line: seq<Level>)

  // ----- the command parser

  datatype Command = Plain(code: byte) | Job(payload: seq<byte>) {
    function Length(): nat {
      if Plain? then 1 else 1 + JOB_SIZE
    }

    /** R, A and a job reset the ASIC, and with it the report flag. */
    predicate Resets() {
      Job? || code == CMD_R || code == CMD_A
    }
  }

  /** The command at the front of the received bytes, if it is complete. */
  function Front(rx: seq<byte>): (c: Option<Command>)
    ensures c.Some? ==> c.value.Length() <= |rx|
  {
    if rx == [] then None
    else if rx[0] != CMD_W then Some(Plain(rx[0]))
    else if |rx| > JOB_SIZE then Some(Job(rx[1..1 + JOB_SIZE]))
    else None
  }

  datatype Parsed = Parsed(commands: seq<Command>, rest: seq<byte>)

  /** All commands of a byte stream, taken at once. */
  function Parse(stream: seq<byte>): Parsed
    decreases |stream|
  {
    var c := Front(stream);
    if c.None? then Parsed([], stream)
    else
      var p := Parse(stream[c.value.Length()..]);
      Parsed([c.value] + p.commands, p.rest)
  }

  lemma FrontKeeps(rx: seq<byte>, more: seq<byte>)
    requires Front(rx).Some?
    ensures Front(rx + more) == Front(rx)
    ensures (rx + more)[Front(rx).value.Length()..] == rx[Front(rx).value.Length()..] + more
  {
    if rx[0] == CMD_W {
      assert (rx + more)[1..1 + JOB_SIZE] == rx[1..1 + JOB_SIZE];
    }
  }

  // ----- commands and service

  function Reply(a: App, cmd: byte): App {
    a.(tx := a.tx + StateReply(cmd, a.status))
  }

  /** The twenty words of a job, in the order pushWork sends them. */
  function JobWords(w: Work): (s: seq<bv32>)
    requires w.Valid()
    ensures |s| == 20
  {
    CLOCK_CONFIG + w.data + w.precalc[1..] + w.midstate + w.precalc[..1] + [0]
  }

  function WorkOf(payload: seq<byte>): (w: Work)
    requires |payload| == JOB_SIZE
    ensures w.Valid()
  {
    var midstate, data := Words(payload[..32]), Words(payload[32..]);
    Work(midstate, data, Precalc(midstate, data))
  }

  predicate WellFormed(c: Command) {
    c.Job? ==> |c.payload| == JOB_SIZE
  }

  /** A command up to the resets of the ASIC: a job is taken over, an abort shows the reset state. */
  function Start(a: App, c: Command): App
    requires WellFormed(c)
  {
    if c.Job? then a.(work := WorkOf(c.payload), status := HostState(WORKING, 0, 0))
    else if c.code == CMD_A then a.(status := a.status.(state := RESET))
    else if c.code == CMD_I then a.(tx := a.tx + [CMD_I] + IDENTITY)
    else if c.code == CMD_S then Reply(a, CMD_S)
    else a
  }

  /** What is left to do after them: a job is sent and timed, and all three are answered. */
  function Finish(a: App, c: Command, now: word32): App
    requires a.work.Valid() || !c.Job?
  {
    if c.Job? then
      Reply(a.(line := a.line + AllLevels(JobWords(a.work)) + [Both], timer := T.Armed(now, TIMEOUT)), CMD_W)
    else if c.code == CMD_R then Reply(a.(status := a.status.(state := RESET)), CMD_R)
    else Reply(a, c.code)
  }

  /** A command without an interruption. */
  function Execute(a: App, c: Command, now: word32): App
    requires WellFormed(c)
  {
    if c.Resets() then Finish(Start(a, c).(reportValid := false), c, now) else Start(a, c)
  }

  /** serialProcess: at most one command. */
  function Process(a: App, now: word32): App {
    var c := Front(a.rx);
    if c.None? then a else Execute(a.(rx := a.rx[c.value.Length()..]), c.value, now)
  }

  /** appUsbDataReceived. */
  function Receive(a: App, chunk: seq<byte>, now: word32): App {
    Process(a.(rx := a.rx + chunk), now)
  }

  /** The first half of appService: a report becomes a nonce. */
  function TakeReport(a: App): App {
    if !a.reportValid then a
    else
      Reply(a.(reportValid := false, spie := true, timer := a.timer.(active := false),
               status := HostState(RESET, 1, NonceOf(a.report))), CMD_S)
  }

  /** The second half: a job that has run too long is given up. */
  function CheckTimeout(a: App, now: word32): App {
    if !T.Due(a.timer, now) then a
    else
      Reply(a.(reportValid := false, timer := a.timer.(active := false), status := HostState(RESET, 0, 0)), CMD_S)
  }

  function Serve(a: App, now: word32): App {
    CheckTimeout(TakeReport(a), now)
  }

  /** The SPI interrupt: it disables itself and collects up to four bytes. */
  function Interrupt(a: App, bytes: seq<byte>): App {
    if !a.spie then a
    else a.(spie := false, reportValid := true, report := Report(if |bytes| > 4 then bytes[..4] else bytes))
  }

  /** After appInit: the interrupt is enabled and no timer runs. */
  function Fresh(): App {
    App([], Work([], [], []), HostState(RESET, 0, 0), T.State(false, 0, 0), 0, false, true, [], [])
  }

  // ----- runs

  /**
   Where the main program is, between two of its accesses to the report flag and the interrupt enable:
   the SPI interrupt can come at each of these points.  `clears` counts the calls of asicStop, asicReset and
   asicResetSpi still to come, each of which clears the flag.
   */
  datatype Point =
    | Idle
    | Fetch                               // appService has seen the flag
    | Enable(nonce: word32, clears: nat)  // it has read the nonce
    | Publish(nonce: word32)              // it has enabled the interrupt
    | Timeout                             // it is at the timer
    | GiveUp(clears: nat)                 // which has expired
    | Acting(command: Command, clears: nat)

  /** `Advance` takes the main program to its next point. */
  datatype Event = Received(chunk: seq<byte>) | Service | Advance | Spi(bytes: seq<byte>) | Tick

  /**
   A run: the application, the main program's point, the true time, and what has happened so far.
   `since` is when the last job was sent; `lost` records that a command or a timeout cleared the flag of
   a waiting report.
   */
  datatype Run = Run(
    app: App, point: Point, now: nat, received: seq<byte>, executed: seq<Command>, since: nat,
    jobs: nat, timeouts: nat, nonces: nat, lost: bool)

  function Begin(): Run {
    Run(Fresh(), Idle, 0, [], [], 0, 0, 0, 0, false)
  }

  /** The main loop calls one routine at a time, and the receive ring has room for what arrives. */
  predicate Fits(r: Run, e: Event) {
    && (e.Received? || e.Service? ==> r.point.Idle?)
    && (e.Received? ==> |r.app.rx| + |e.chunk| <= RX_SIZE)
  }

  /** asicReset or asicStop, and asicResetSpi. */
  function Clears(c: Command): nat {
    if c.Plain? && c.code == CMD_A then 1 else 2
  }

  /** appUsbDataReceived, up to the resets of the command it finds. */
  function Accept(r: Run, chunk: seq<byte>): Run {
    var q := r.(app := r.app.(rx := r.app.rx + chunk), received := r.received + chunk);
    var c := Front(q.app.rx);
    if c.None? then q
    else
      q.(app := Start(q.app.(rx := q.app.rx[c.value.Length()..]), c.value), executed := r.executed + [c.value],
         point := if c.value.Resets() then Acting(c.value, Clears(c.value)) else Idle)
  }

  /** A reset of the ASIC that clears the flag, whatever it shows. */
  function Clear(r: Run, next: Point): Run {
    r.(app := r.app.(reportValid := false), point := next, lost := r.lost || r.app.reportValid)
  }

  function Move(r: Run): Run {
    var a := r.app;
    match r.point
    case Idle => r
    case Fetch =>
      r.(app := a.(reportValid := false, timer := a.timer.(active := false)), point := Enable(a.report, 2))
    case Enable(nonce, clears) =>
      if clears > 0 then Clear(r, Enable(nonce, clears - 1))
      else r.(app := a.(spie := true, status := a.status.(state := RESET)), point := Publish(nonce))
    case Publish(nonce) =>
      r.(app := Reply(a.(status := HostState(a.status.state, 1, NonceOf(nonce))), CMD_S), point := Timeout,
        nonces := r.nonces + 1)
    case Timeout =>
      if T.Due(a.timer, T.Clock(r.now)) then
        r.(app := a.(timer := a.timer.(active := false)), point := GiveUp(2), timeouts := r.timeouts + 1)
      else r.(point := Idle)
    case GiveUp(clears) =>
      if clears > 0 then Clear(r, GiveUp(clears - 1))
      else r.(app := Reply(a.(status := HostState(RESET, 0, 0)), CMD_S), point := Idle)
    case Acting(c, clears) =>
      if clears > 0 then Clear(r, Acting(c, clears - 1))
      else if c.Job? && !a.work.Valid() then r.(point := Idle)  // never: the job has been taken over
      else
        var q := r.(app := Finish(a, c, T.Clock(r.now)), point := Idle);
        if c.Job? then q.(since := r.now, jobs := r.jobs + 1) else q
  }

  function Step(r: Run, e: Event): Run {
    match e
    case Received(chunk) => Accept(r, chunk)
    case Service => r.(point := if r.app.reportValid then Fetch else Timeout)
    case Advance => Move(r)
    case Spi(bytes) => r.(app := Interrupt(r.app, bytes))
    case Tick => r.(now := r.now + 1)
  }

  /** The state after a run without overrun, if it is one. */
  function After(r: Run, events: seq<Event>): Option<Run>
    decreases |events|
  {
    if events == [] then Some(r)
    else if Fits(r, events[0]) then After(Step(r, events[0]), events[1..])
    else None
  }

  predicate Invariant(r: Run) {
    var a := r.app;
    && |a.rx| <= RX_SIZE
    && (a.status.state == RESET || a.status.state == WORKING)
    && (a.status.state == WORKING ==> a.status.nonceValid == 0 && a.status.nonce == 0 && !r.point.Publish?)
    && (a.status.state == WORKING && (r.point.Idle? || r.point.Fetch? || r.point.Timeout?) ==> a.timer.active)
    && (a.timer.active ==> a.timer.interval == TIMEOUT && a.timer.start == T.Clock(r.since))
    && r.since <= r.now
    && r.timeouts + (if a.timer.active then 1 else 0) <= r.jobs
    && (a.reportValid ==> !a.spie)
    && Reporting(r)
    && (r.point.Acting? ==>
          && r.point.command.Resets() && (r.point.command.Job? ==> a.work.Valid())
          && (r.point.command == Plain(CMD_A) ==> a.status.state == RESET))
  }

  /** The flag, the interrupt enable and the point where both can be off without a loss. */
  predicate Reporting(r: Run) {
    && (r.point.Fetch? ==> r.app.reportValid)
    && (r.point.Enable? ==> !r.app.spie && !r.app.reportValid && !r.lost)
    && (r.point.Publish? ==> !r.lost)
    && (!r.point.Enable? ==> (r.lost <==> !r.app.spie && !r.app.reportValid))
  }

  lemma AcceptKeeps(r: Run, chunk: seq<byte>)
    requires Invariant(r) && Fits(r, Received(chunk))
    ensures Invariant(Accept(r, chunk))
  {
    hide StateReply, WorkOf, T.Clock;
  }

  lemma ActingKeeps(r: Run)
    requires Invariant(r) && r.point.Acting?
    ensures Invariant(Move(r))
  {
    hide StateReply, AllLevels, JobWords, T.Clock;
  }

  lemma ServiceKeeps(r: Run)
    requires Invariant(r) && !r.point.Acting?
    ensures Invariant(Move(r))
  {
    T.DueIsActive(r.app.timer, T.Clock(r.now));
    hide StateReply, NonceOf, Finish, T.Due, T.Clock;
  }

  lemma StepKeeps(r: Run, e: Event)
    requires Invariant(r) && Fits(r, e)
    ensures Invariant(Step(r, e))
  {
    hide Accept, Move, Report, T.Clock;
    match e
    case Received(chunk) => AcceptKeeps(r, chunk);
    case Advance => if r.point.Acting? { ActingKeeps(r); } else { ServiceKeeps(r); }
    case _ =>
  }

  lemma {:induction false} RunKeeps(r: Run, events: seq<Event>)
    requires Invariant(r) && After(r, events).Some?
    ensures Invariant(After(r, events).value)
    decreases |events|
  {
    hide Invariant, Step, Fits;
    if events != [] {
      StepKeeps(r, events[0]);
      RunKeeps(Step(r, events[0]), events[1..]);
    }
  }

  /** `r` is the state after some run from power-up. */
  predicate Reached(events: seq<Event>, r: Run) {
    After(Begin(), events) == Some(r)
  }

  lemma ReachedInvariant(events: seq<Event>, r: Run)
    requires Reached(events, r)
    ensures Invariant(r)
  {
    RunKeeps(Begin(), events);
  }

  // ----- without interruption

  /** How many moves the main program is away from its loop. */
  function Distance(p: Point): nat {
    match p
    case Idle => 0
    case Fetch => 10
    case Enable(_, clears) => 7 + clears
    case Publish(_) => 6
    case Timeout => 5
    case GiveUp(clears) => 1 + clears
    case Acting(_, clears) => 1 + clears
  }

  /** The routine at work runs to its end with nothing in between. */
  function Settle(r: Run): Run
    decreases Distance(r.point)
  {
    if r.point.Idle? then r else Settle(Move(r))
  }

  /** A command has been started and all its resets are still to come. */
  predicate Resetting(r: Run) {
    && r.point.Acting? && r.point.clears == Clears(r.point.command)
    && (r.point.command.Job? ==> r.app.work.Valid())
  }

  lemma SettleClears(r: Run)
    ensures r.point.GiveUp? && r.point.clears == 2 ==>
      Settle(r).app == Reply(r.app.(reportValid := false, status := HostState(RESET, 0, 0)), CMD_S)
    ensures Resetting(r) ==>
      Settle(r).app == Finish(r.app.(reportValid := false), r.point.command, T.Clock(r.now))
    ensures r.point.Enable? && r.point.clears == 2 ==>
      Settle(r) == Settle(Move(Move(Move(r))))
  {
    hide StateReply, Finish, NonceOf, T.Due, T.Clock;
    var m := Move(r);
    assert !r.point.Idle? ==> Settle(r) == Settle(m);
    assert !m.point.Idle? ==> Settle(m) == Settle(Move(m));
    assert !Move(m).point.Idle? ==> Settle(Move(m)) == Settle(Move(Move(m)));
  }

  lemma SettleTimeout(r: Run)
    requires r.point.Timeout?
    ensures Settle(r).app == CheckTimeout(r.app, T.Clock(r.now))
  {
    hide StateReply, T.Due, T.Clock;
    SettleClears(Move(r));
    assert Settle(r) == Settle(Move(r));
  }

  /** The routines of the application are these moves with no interrupt between them. */
  lemma ServiceSettles(r: Run)
    requires r.point.Idle?
    ensures Settle(Step(r, Service)).app == Serve(r.app, T.Clock(r.now))
  {
    hide StateReply, NonceOf, CheckTimeout, T.Clock;
    var q := Step(r, Service);
    if r.app.reportValid {
      var e := Move(q);
      assert Settle(q) == Settle(e);
      SettleClears(e);
      var p := Move(Move(Move(e)));
      assert p.point == Publish(r.app.report) && Settle(p) == Settle(Move(p));
      SettleTimeout(Move(p));
    } else {
      SettleTimeout(q);
    }
  }

  lemma ReceiveSettles(r: Run, chunk: seq<byte>)
    requires r.point.Idle?
    ensures Settle(Step(r, Received(chunk))).app == Receive(r.app, chunk, T.Clock(r.now))
  {
    hide StateReply, WorkOf, Finish, Front, Move, T.Clock;
    var q := Accept(r, chunk);
    if q.point.Acting? {
      SettleClears(q);
    }
  }

  // ----- the timeout

  /** Between two calls of its routines: a job at work has its timeout armed and shows no nonce. */
  lemma WorkingIsTimed(events: seq<Event>, r: Run)
    requires Reached(events, r)
    ensures r.app.status.state == WORKING && r.point.Idle? ==> r.app.timer == T.State(true, T.Clock(r.since), TIMEOUT)
    ensures r.app.status.state == WORKING ==> r.app.status.nonceValid == 0 && r.app.status.nonce == 0
    ensures r.timeouts <= r.jobs
  {
    ReachedInvariant(events, r);
  }

  /** What can happen while a routine is at work. */
  predicate Within(events: seq<Event>) {
    forall i :: 0 <= i < |events| ==> events[i].Advance? || events[i].Spi? || events[i].Tick?
  }

  lemma {:induction false} TimePasses(r: Run, events: seq<Event>)
    requires After(r, events).Some?
    ensures r.now <= After(r, events).value.now
    decreases |events|
  {
    if events != [] {
      assert r.now <= Step(r, events[0]).now by {
        hide StateReply, NonceOf, Report, WorkOf, AllLevels, JobWords, T.Due, T.Clock, Front;
      }
      TimePasses(Step(r, events[0]), events[1..]);
    }
  }

  /** A service call that has to end in the reset state; `tx` is what was sent before a job is given up. */
  predicate Overdue(r: Run, since: nat, giving: bool, tx: seq<byte>) {
    && r.since == since && since + TIMEOUT < r.now && !r.point.Acting?
    && (r.point.Idle? ==> r.app.status.state == RESET)
    && (giving ==>
          || (r.point.Timeout? && r.app.status.state == WORKING && r.app.tx == tx)
          || (r.point.GiveUp? && r.app.tx == tx)
          || (r.point.Idle? && r.app.tx == tx + StateReply(CMD_S, HostState(RESET, 0, 0))))
  }

  lemma OverdueStep(r: Run, e: Event, since: nat, giving: bool, tx: seq<byte>)
    requires Invariant(r) && Overdue(r, since, giving, tx) && r.now - since < TWO32
    requires e.Advance? || e.Spi? || e.Tick?
    ensures Overdue(Step(r, e), since, giving, tx)
  {
    if r.app.timer.active {
      T.DueExactly(r.app.timer, since, r.now);
    }
    hide StateReply, NonceOf, Report, AllLevels, JobWords, T.Due, T.Clock;
  }

  lemma {:induction false} OverdueRun(r: Run, events: seq<Event>, since: nat, giving: bool, tx: seq<byte>)
    requires Invariant(r) && Overdue(r, since, giving, tx) && Within(events) && After(r, events).Some?
    requires After(r, events).value.now - since < TWO32
    ensures Overdue(After(r, events).value, since, giving, tx)
    decreases |events|
  {
    hide Invariant, Overdue, Step;
    if events != [] {
      TimePasses(r, events);
      StepKeeps(r, events[0]);
      OverdueStep(r, events[0], since, giving, tx);
      OverdueRun(Step(r, events[0]), events[1..], since, giving, tx);
    }
  }

  /** A service call more than the timeout after the last job ends in reset, whatever interrupts it. */
  lemma TimeoutResets(events: seq<Event>, r: Run, call: seq<Event>, s: Run)
    requires Reached(events, r) && r.point.Idle? && TIMEOUT < r.now - r.since
    requires Within(call) && After(Step(r, Service), call) == Some(s) && s.point.Idle? && s.now - r.since < TWO32
    ensures s.app.status.state == RESET
    ensures r.app.status.state == WORKING && !r.app.reportValid ==>
      s.app.tx == r.app.tx + StateReply(CMD_S, HostState(RESET, 0, 0))
  {
    ReachedInvariant(events, r);
    StepKeeps(r, Service);
    OverdueRun(Step(r, Service), call, r.since, r.app.status.state == WORKING && !r.app.reportValid, r.app.tx);
  }

  /** A service call that leaves a job alone: nothing changes but by the interrupt. */
  predicate Early(q: Run, r: Run) {
    && (q.point.Timeout? || q.point.Idle?) && q.since == r.since && q.timeouts == r.timeouts
    && q.app == r.app.(report := q.app.report, reportValid := q.app.reportValid, spie := q.app.spie)
  }

  lemma {:induction false} EarlyRun(q: Run, events: seq<Event>, r: Run)
    requires Invariant(r) && r.app.timer.active && r.since <= q.now && Early(q, r) && Within(events)
    requires After(q, events).Some?
    requires After(q, events).value.now - r.since < TIMEOUT
    ensures Early(After(q, events).value, r)
    decreases |events|
  {
    if events != [] {
      TimePasses(q, events);
      T.DueExactly(r.app.timer, r.since, q.now);
      assert Early(Step(q, events[0]), r) by { hide Report, T.Due, T.Clock; }
      hide Step, Early;
      EarlyRun(Step(q, events[0]), events[1..], r);
    }
  }

  /** And none before the timeout gives a job up. */
  lemma NoEarlyTimeout(events: seq<Event>, r: Run, call: seq<Event>, s: Run)
    requires Reached(events, r) && r.point.Idle? && r.app.status.state == WORKING && !r.app.reportValid
    requires Within(call) && After(Step(r, Service), call) == Some(s) && s.now - r.since < TIMEOUT
    ensures Early(s, r)
  {
    ReachedInvariant(events, r);
    EarlyRun(Step(r, Service), call, r);
  }

  // ----- reports

  /**
   At every point of every run: a report can still arrive, or is waiting, or is being taken, exactly when neither
   a command nor a timeout has ever cleared the flag of a waiting report.
   */
  lemma ReportsUnlessLost(events: seq<Event>, r: Run)
    requires Reached(events, r)
    ensures (r.app.spie || r.app.reportValid || r.point.Enable?) <==> !r.lost
  {
    ReachedInvariant(events, r);
  }

  /** After that it never reports a nonce again, whatever happens. */
  lemma {:induction false} LostForever(r: Run, events: seq<Event>)
    requires Invariant(r) && r.lost && After(r, events).Some?
    ensures After(r, events).value.lost && After(r, events).value.nonces == r.nonces
    decreases |events|
  {
    if events != [] {
      var s := Step(r, events[0]);
      StepKeeps(r, events[0]);
      assert s.lost && s.nonces == r.nonces by {
        hide StateReply, NonceOf, Report, WorkOf, AllLevels, JobWords, T.Due, T.Clock, Front;
      }
      hide Step, Invariant;
      LostForever(s, events[1..]);
    }
  }

  /** A service call that has seen the flag, on its way to publishing the report. */
  predicate Delivering(q: Run, r: Run, report: word32) {
    var sent := r.app.tx + StateReply(CMD_S, HostState(RESET, 1, NonceOf(report)));
    || (q.point.Fetch? && q.app.report == report && q.app.tx == r.app.tx && q.nonces == r.nonces)
    || (q.point.Enable? && q.point.nonce == report && !q.app.timer.active && q.app.tx == r.app.tx &&
      q.nonces == r.nonces)
    || (q.point == Publish(report) && q.app.status.state == RESET && !q.app.timer.active && q.app.tx == r.app.tx
        && q.nonces == r.nonces)
    || (q.point.Timeout? && !q.app.timer.active && q.app.tx == sent && q.nonces == r.nonces + 1)
    || (q.point.Idle? && q.app.tx == sent && q.nonces == r.nonces + 1)
  }

  lemma DeliveringStep(q: Run, e: Event, r: Run, report: word32)
    requires Invariant(q) && Delivering(q, r, report) && (e.Advance? || e.Spi? || e.Tick?)
    ensures Delivering(Step(q, e), r, report)
  {
    T.DueIsActive(q.app.timer, T.Clock(q.now));
    hide StateReply, NonceOf, Report, Finish, T.Due, T.Clock;
  }

  lemma {:induction false} DeliveringRun(q: Run, events: seq<Event>, r: Run, report: word32)
    requires Invariant(q) && Delivering(q, r, report) && Within(events) && After(q, events).Some?
    ensures Delivering(After(q, events).value, r, report)
    decreases |events|
  {
    hide Invariant, Delivering, Step;
    if events != [] {
      StepKeeps(q, events[0]);
      DeliveringStep(q, events[0], r, report);
      DeliveringRun(Step(q, events[0]), events[1..], r, report);
    }
  }

  /**
   In every run, from any state between two calls with a report waiting: a service call, whatever interrupts it, sends
   the host exactly one reply, the nonce of that report.
   */
  lemma ReportServed(events: seq<Event>, r: Run, call: seq<Event>, s: Run)
    requires Reached(events, r) && r.point.Idle? && r.app.reportValid
    requires Within(call) && After(Step(r, Service), call) == Some(s) && s.point.Idle?
    ensures s.app.tx == r.app.tx + StateReply(CMD_S, HostState(RESET, 1, NonceOf(r.app.report)))
    ensures s.nonces == r.nonces + 1
  {
    ReachedInvariant(events, r);
    StepKeeps(r, Service);
    hide StateReply, NonceOf;
    DeliveringRun(Step(r, Service), call, r, r.app.report);
  }

  /**
   With the interrupt enabled, four bytes from the ASIC are such a report.  The reply to it decodes to the nonce these
   bytes stand for.
   */
  lemma NonceReported(events: seq<Event>, r: Run, b: seq<byte>, call: seq<Event>, s: Run)
    requires Reached(events, r) && r.point.Idle? && r.app.spie && |b| == 4
    requires Within(call) && After(Step(Step(r, Spi(b)), Service), call) == Some(s) && s.point.Idle?
    ensures r.app.tx <= s.app.tx && s.nonces == r.nonces + 1
    ensures var reply := s.app.tx[|r.app.tx|..];
      && |reply| == 7 && HostDecode(reply).state == RESET && HostDecode(reply).nonceValid == 1
      && HostDecode(reply).nonce
         == (b[0] as int + 0x100 * b[1] as int + 0x1_0000 * b[2] as int + 0x100_0000 * b[3] as int - 0xC0) % TWO32
  {
    hide Report, NonceOf, HostDecode, StateReply, After;
    var q := Step(r, Spi(b));
    assert q.app.report == Report(b) && q.app.reportValid;
    AfterOne(r, Spi(b));
    AfterAppend(Begin(), events, [Spi(b)]);
    ReportServed(events + [Spi(b)], q, call, s);
    assert b == [b[0], b[1], b[2], b[3]];
    NonceArrives(b[0], b[1], b[2], b[3], RESET);
    ReplyDecodes(CMD_S, HostState(RESET, 1, NonceOf(Report(b))));
  }

  lemma {:induction false} AfterAppend(r: Run, a: seq<Event>, b: seq<Event>)
    requires After(r, a).Some?
    ensures After(r, a + b) == After(After(r, a).value, b)
    decreases |a|
  {
    hide Step, Fits;
    if a == [] {
      assert a + b == b;
    } else {
      assert (a + b)[0] == a[0] && (a + b)[1..] == a[1..] + b;
      AfterAppend(Step(r, a[0]), a[1..], b);
    }
  }

  lemma AfterOne(r: Run, e: Event)
    requires Fits(r, e)
    ensures After(r, [e]) == Some(Step(r, e))
  {
    hide Step, Fits;
    assert [e][1..] == [];
  }

  lemma AfterTwo(r: Run, e: Event, f: Event)
    requires Fits(r, e) && Fits(Step(r, e), f)
    ensures After(r, [e, f]) == Some(Step(Step(r, e), f))
  {
    hide Step, Fits;
    AfterOne(r, e);
    AfterOne(Step(r, e), f);
    AfterAppend(r, [e], [f]);
    assert [e] + [f] == [e, f];
  }

  /** The bytes of a command that resets the ASIC: R, A or a whole job frame. */
  predicate ResetFrame(frame: seq<byte>) {
    frame == [CMD_R] || frame == [CMD_A] || (|frame| == 1 + JOB_SIZE && frame[0] == CMD_W)
  }

  /** Every command that resets the ASIC loses a report that has arrived before it. */
  lemma LostByCommand(r: Run, frame: seq<byte>, bytes: seq<byte>)
    requires Invariant(r) && r.point.Idle? && r.app.rx == [] && r.app.spie && ResetFrame(frame)
    ensures var q := After(r, [Spi(bytes), Received(frame)]);
      q.Some? && Step(q.value, Advance).lost
  {
    hide Report, Front, Start, ResetFrame, Finish, Reply;
    var q := Step(r, Spi(bytes));
    assert q.app.rx + frame == frame;
    FrameResets(frame);
    StartKeepsReport(q.app.(rx := frame[Front(frame).value.Length()..]), Front(frame).value);
    AfterTwo(r, Spi(bytes), Received(frame));
  }

  lemma FrameResets(frame: seq<byte>)
    requires ResetFrame(frame)
    ensures Front(frame).Some? && WellFormed(Front(frame).value) && Front(frame).value.Resets() && |frame| <= RX_SIZE
  {
  }

  lemma StartKeepsReport(a: App, c: Command)
    requires WellFormed(c)
    ensures Start(a, c).reportValid == a.reportValid
  {
    hide WorkOf, StateReply;
  }

  /** So does a service call that finds a job overdue, for a report that arrives just after it has looked for one. */
  lemma LostByTimeout(r: Run, bytes: seq<byte>)
    requires Invariant(r) && r.point.Idle? && r.app.spie && r.app.timer.active && TIMEOUT < r.now - r.since < TWO32
    ensures var q := After(r, [Service, Spi(bytes)]);
      q.Some? && Step(Step(q.value, Advance), Advance).lost
  {
    T.DueExactly(r.app.timer, r.since, r.now);
    AfterTwo(r, Service, Spi(bytes));
    hide Report, T.Due, T.Clock;
  }

  /** The run of a job and nothing else. */
  function JobRun(payload: seq<byte>): seq<Event> {
    [Received([CMD_W] + payload), Advance] + [Advance, Advance]
  }

  /** It ends with the job at work, the interrupt enabled and the timeout armed. */
  lemma JobRuns(payload: seq<byte>)
    requires |payload| == JOB_SIZE
    ensures var r := After(Begin(), JobRun(payload));
      && r.Some? && r.value.point.Idle? && r.value.app.rx == [] && r.value.app.status.state == WORKING
      && r.value.app.spie && r.value.app.timer.active && r.value.now == r.value.since == 0
  {
    hide WorkOf, AllLevels, JobWords, StateReply, Report;
    var b := Begin();
    var frame := [CMD_W] + payload;
    assert b.app.rx + frame == frame && frame[1..1 + JOB_SIZE] == payload;
    AfterTwo(b, Received(frame), Advance);
    var r := Step(Step(b, Received(frame)), Advance);
    AfterTwo(r, Advance, Advance);
    AfterAppend(b, [Received(frame), Advance], [Advance, Advance]);
  }

  lemma {:induction false} Ticking(r: Run, n: nat)
    ensures After(r, seq(n, _ => Tick)) == Some(r.(now := r.now + n))
    decreases n
  {
    if n > 0 {
      var ticks := seq(n, _ => Tick);
      assert ticks[1..] == seq(n - 1, _ => Tick) && ticks[0] == Tick;
      Ticking(Step(r, Tick), n - 1);
    }
  }

  /** Runs from power-up that lose the report of their first job: to a reset command, and to the timeout. */
  lemma ReportCanBeLost(payload: seq<byte>, bytes: seq<byte>)
    requires |payload| == JOB_SIZE
    ensures var q := After(Begin(), JobRun(payload) + [Spi(bytes), Received([CMD_R])]);
      q.Some? && Step(q.value, Advance).lost
    ensures var q := After(Begin(), JobRun(payload) + seq(TIMEOUT + 1, _ => Tick) + [Service, Spi(bytes)]);
      q.Some? && Step(Step(q.value, Advance), Advance).lost
  {
    hide Step, Fits, JobRun, Begin;
    JobRuns(payload);
    var b, job, ticks := Begin(), JobRun(payload), seq(TIMEOUT + 1, _ => Tick);
    var r := After(b, job).value;
    ReachedInvariant(job, r);
    AfterAppend(b, job, [Spi(bytes), Received([CMD_R])]);
    LostByCommand(r, [CMD_R], bytes);
    Ticking(r, TIMEOUT + 1);
    AfterAppend(b, job, ticks);
    var late := r.(now := r.now + TIMEOUT + 1);
    ReachedInvariant(job + ticks, late);
    AfterAppend(b, job + ticks, [Service, Spi(bytes)]);
    LostByTimeout(late, bytes);
  }

  // ----- the stream of commands

  ghost predicate ParsedSoFar(r: Run) {
    forall more: seq<byte> :: Parse(r.received + more) ==
      Parsed(r.executed + Parse(r.app.rx + more).commands, Parse(r.app.rx + more).rest)
  }

  /** What a receive call leaves in the ring. */
  function Left(rx: seq<byte>): seq<byte> {
    if Front(rx).None? then rx else rx[Front(rx).value.Length()..]
  }

  lemma ReceiveLeaves(r: Run, chunk: seq<byte>)
    ensures var s := Step(r, Received(chunk));
      && s.app.rx == Left(r.app.rx + chunk) && s.received == r.received + chunk
      && s.executed == r.executed + (if Front(r.app.rx + chunk).Some? then [Front(r.app.rx + chunk).value] else [])
  {
    hide WorkOf, StateReply, Front, Command.Length;
  }

  lemma ParseFront(rx: seq<byte>, more: seq<byte>)
    requires Front(rx).Some?
    ensures Parse(rx + more) == Parsed([Front(rx).value] + Parse(Left(rx) + more).commands, Parse(Left(rx) + more).rest)
  {
    FrontKeeps(rx, more);
    hide Front;
  }

  lemma MoveLeaves(r: Run)
    ensures Move(r).received == r.received && Move(r).executed == r.executed && Move(r).app.rx == r.app.rx
  {
    hide StateReply, NonceOf, AllLevels, JobWords, T.Due, T.Clock, T.Armed;
  }

  lemma StepParses(r: Run, e: Event)
    requires ParsedSoFar(r)
    ensures ParsedSoFar(Step(r, e))
  {
    MoveLeaves(r);
    hide Parse, Front, Accept, Move;
    if e.Received? {
      var s := Step(r, e);
      var rx := r.app.rx + e.chunk;
      ReceiveLeaves(r, e.chunk);
      hide Step;
      forall more: seq<byte>
        ensures Parse(s.received + more) ==
          Parsed(s.executed + Parse(s.app.rx + more).commands, Parse(s.app.rx + more).rest)
      {
        assert s.received + more == r.received + (e.chunk + more);
        assert r.app.rx + (e.chunk + more) == rx + more;
        if Front(rx).Some? {
          ParseFront(rx, more);
          assert r.executed + ([Front(rx).value] + Parse(s.app.rx + more).commands) ==
                 s.executed + Parse(s.app.rx + more).commands;
        }
      }
    }
  }

  lemma {:induction false} RunParses(r: Run, events: seq<Event>)
    requires ParsedSoFar(r) && After(r, events).Some?
    ensures ParsedSoFar(After(r, events).value)
    decreases |events|
  {
    hide ParsedSoFar, Step;
    if events != [] {
      StepParses(r, events[0]);
      RunParses(Step(r, events[0]), events[1..]);
    }
  }

  /**
   However the host's bytes are cut into pieces and whatever else happens in between: the commands
   executed, followed by those still to come from what is buffered and what is still to be sent,
   are the commands of the whole stream.
   */
  lemma StreamParsed(events: seq<Event>, r: Run, more: seq<byte>)
    requires Reached(events, r)
    ensures Parse(r.received + more).commands == r.executed + Parse(r.app.rx + more).commands
    ensures Parse(r.received + more).rest == Parse(r.app.rx + more).rest
  {
    var b := Begin();
    forall m: seq<byte>
      ensures Parse(b.received + m) == Parsed(b.executed + Parse(b.app.rx + m).commands, Parse(b.app.rx + m).rest)
    {
      assert b.received + m == m && b.app.rx + m == m;
      assert [] + Parse(m).commands == Parse(m).commands;
    }
    RunParses(b, events);
  }

  /** The main loop has caught up with the host exactly when no complete command is left in the ring. */
  lemma CaughtUp(events: seq<Event>, r: Run)
    requires Reached(events, r)
    ensures Front(r.app.rx).None? <==> r.executed == Parse(r.received).commands
  {
    hide Front;
    StreamParsed(events, r, []);
    assert r.received + [] == r.received && r.app.rx + [] == r.app.rx;
    var p := Parse(r.app.rx).commands;
    assert Front(r.app.rx).None? <==> p == [];
    assert r.executed + p == r.executed <==> p == [] by { assert |r.executed + p| == |r.executed| + |p|; }
  }

  /**
   A call leaves none behind exactly when its bytes complete no more than one: it executes one, and waits for the
   next call.
   */
  lemma BacklogExact(r: Run, chunk: seq<byte>)
    ensures Front(Step(r, Received(chunk)).app.rx).None? <==> |Parse(r.app.rx + chunk).commands| <= 1
  {
    ReceiveLeaves(r, chunk);
    hide Front, Step;
    var rx := r.app.rx + chunk;
    if Front(rx).Some? {
      assert Parse(rx).commands == [Front(rx).value] + Parse(Left(rx)).commands;
      assert Front(Left(rx)).None? <==> Parse(Left(rx)).commands == [];
    }
  }

  /** Two commands in one call: the second stays in the ring. */
  lemma SecondWaits()
    ensures var r := After(Begin(), [Received([CMD_S, CMD_S])]);
      r.Some? && r.value.point.Idle? && r.value.executed == [Plain(CMD_S)] && r.value.app.rx == [CMD_S]
  {
    var b := Begin();
    AfterOne(b, Received([CMD_S, CMD_S]));
    assert b.app.rx + [CMD_S, CMD_S] == [CMD_S, CMD_S];
  }

  // ----- from the host to the ASIC

  /** The frame that mmo_scanhash writes. */
  function HostFrame(midstate: seq<byte>, data: seq<byte>): seq<byte> {
    [CMD_W] + midstate + data
  }

  /** What the ASIC can tell from the twenty words of a job: the working state after three rounds. */
  function Resumed(words: seq<bv32>): Registers
    requires |words| == 20
  {
    Registers(words[18], words[5], words[6], words[10], words[7], words[8], words[9], words[14])
  }

  lemma JobCarriesState(w: Work)
    requires w.Valid() && w.precalc == Precalc(w.midstate, w.data)
    ensures var words := JobWords(w);
      && words[..2] == CLOCK_CONFIG && words[2..5] == w.data && words[10..18] == w.midstate && words[19] == 0
      && Resumed(words) == Rounds(w.midstate, w.data, 3)
  {
    hide Rounds, Precalc;
    PrecalcResumes(w.midstate, w.data);
  }

  /** A job frame, sent by the host to an idle parser, reaches the ASIC bit by bit and starts the timeout. */
  lemma HostJobArrives(a: App, midstate: seq<byte>, data: seq<byte>, now: word32)
    requires |midstate| == 32 && |data| == 12 && a.rx == []
    ensures var b := Receive(a, HostFrame(midstate, data), now);
      && b.rx == [] && b.status == HostState(WORKING, 0, 0) && b.timer == T.Armed(now, TIMEOUT)
      && b.tx == a.tx + StateReply(CMD_W, b.status)
      && |b.line| == |a.line| + 2 * 640 + 1 && a.line <= b.line
      && var words := ReadWords(b.line[|a.line|..], 20);
      && words[..2] == CLOCK_CONFIG && words[2..5] == Words(data) && words[10..18] == Words(midstate) && words[19] == 0
      && Resumed(words) == Rounds(Words(midstate), Words(data), 3)
  {
    hide Rounds, AllLevels, Words, Front, JobWords, StateReply, Precalc, HostFrame, ReadWords, Resumed;
    var frame := HostFrame(midstate, data);
    FrameParsed(midstate, data);
    var b := Receive(a, frame, now);
    assert a.rx + frame == frame;
    assert b == Execute(a.(rx := []), Job(midstate + data), now);
    var w := WorkOf(midstate + data);
    assert b.line[|a.line|..] == AllLevels(JobWords(w)) + [Both];
    WordsArrive(JobWords(w), [Both]);
    JobCarriesState(w);
  }

  lemma FrameParsed(midstate: seq<byte>, data: seq<byte>)
    requires |midstate| == 32 && |data| == 12
    ensures var frame := HostFrame(midstate, data);
      Front(frame) == Some(Job(midstate + data)) && frame[1 + JOB_SIZE..] == []
    ensures WorkOf(midstate + data).midstate == Words(midstate) && WorkOf(midstate + data).data == Words(data)
  {
    hide Words, Precalc;
    assert HostFrame(midstate, data)[1..1 + JOB_SIZE] == midstate + data;
    assert (midstate + data)[..32] == midstate && (midstate + data)[32..] == data;
  }
}
