/** The driver of the miner on the host: the poll loop that waits for the answer to a job. */
module Driver {
  import opened Bytes
  import opened AsicLink
  import opened Miner

  /**
   One turn of the loop of mmo_scanhash: new work ends it before it reads, or it reads an answer and new work
   may end it after that.
   */
  datatype Poll = NewWork | Answer(bytes: seq<byte>, newWork: bool)

  /** An answer with a nonce, or one that shows the device has given up. */
  predicate Decides(p: Poll) {
    p.Answer? && |p.bytes| == 7 && (HostDecode(p.bytes).nonceValid == 1 || HostDecode(p.bytes).state == RESET)
  }

  predicate Ends(p: Poll) {
    p.NewWork? || Decides(p) || p.newWork
  }

  predicate FirstEnd(polls: seq<Poll>, i: nat) {
    i < |polls| && Ends(polls[i]) && forall j :: 0 <= j < i ==> !Ends(polls[j])
  }

  /** What the driver returns for the turn that ends its loop. */
  function Verdict(p: Poll): word32 {
    if !Decides(p) then 0
    else if HostDecode(p.bytes).nonceValid == 1 then HostDecode(p.bytes).nonce
    else 0xFFFF_FFFF
  }

  /** The loop of mmo_scanhash over the turns it can take: the first that ends it decides. */
  method HostScan(polls: seq<Poll>) returns (nonceCount: word32)
    ensures forall i: nat :: FirstEnd(polls, i) ==> nonceCount == Verdict(polls[i])
    ensures (forall i :: 0 <= i < |polls| ==> !Ends(polls[i])) ==> nonceCount == 0
  {
    nonceCount := 0;
    var i := 0;
    while i < |polls|
      invariant 0 <= i <= |polls| && nonceCount == 0
      invariant forall j :: 0 <= j < i ==> !Ends(polls[j])
    {
      if polls[i].NewWork? {
        return;
      }
      if |polls[i].bytes| == 7 {
        var s := HostDecode(polls[i].bytes);
        if s.nonceValid == 1 {
          return s.nonce;
        } else if s.state == RESET {
          return 0xFFFF_FFFF;
        }
      }
      if polls[i].newWork {
        return;
      }
      i := i + 1;
    }
  }

  /** The host passes over the acknowledgement of its job and takes the nonce of the report. */
  lemma HostFindsNonce(a: App, reply: seq<byte>)
    requires a.reportValid && TakeReport(a).tx == a.tx + reply
    ensures var polls := [Answer(StateReply(CMD_W, HostState(WORKING, 0, 0)), false), Answer(reply, false)];
      FirstEnd(polls, 1) && Verdict(polls[1]) == NonceOf(a.report)
  {
    var ack, s := HostState(WORKING, 0, 0), HostState(RESET, 1, NonceOf(a.report));
    assert TakeReport(a).tx[|a.tx|..] == reply && reply == StateReply(CMD_S, s);
    ReplyDecodes(CMD_W, ack);
    ReplyDecodes(CMD_S, s);
    hide StateReply, HostDecode, NonceOf;
  }

  // ----- successive calls

  /** A reply of the device, and the job it belongs to. */
  datatype Reply = Reply(bytes: seq<byte>, job: nat)

  predicate Deciding(r: Reply) {
    Decides(Answer(r.bytes, false))
  }

  /** What happens in a call: a reply arrives, the loop reads the first one unread, or new work ends it. */
  datatype Turn = Arrive(reply: Reply) | Look(newWork: bool) | Halt

  datatype Result = Result(answer: Option<Reply>, unread: seq<Reply>)

  function Arrivals(turns: seq<Turn>): seq<Reply>
    decreases |turns|
  {
    if turns == [] then []
    else (if turns[0].Arrive? then [turns[0].reply] else []) + Arrivals(turns[1..])
  }

  /**
   The reply that decides a call of mmo_scanhash, and what is unread after it; a read with nothing there gives
   nothing.
   */
  function Scan(unread: seq<Reply>, turns: seq<Turn>): Result
    decreases |turns|
  {
    if turns == [] then Result(None, unread)
    else
      var rest := turns[1..];
      match turns[0]
      case Arrive(r) => Scan(unread + [r], rest)
      case Halt => Result(None, unread + Arrivals(rest))
      case Look(newWork) =>
        var left := if unread == [] then [] else unread[1..];
        if unread != [] && Deciding(unread[0]) then Result(Some(unread[0]), left + Arrivals(rest))
        else if newWork then Result(None, left + Arrivals(rest))
        else Scan(left, rest)
  }

  /** The turns as the loop of `HostScan` sees them. */
  function Polls(unread: seq<Reply>, turns: seq<Turn>): seq<Poll>
    decreases |turns|
  {
    if turns == [] then []
    else
      match turns[0]
      case Arrive(r) => Polls(unread + [r], turns[1..])
      case Halt => [NewWork] + Polls(unread, turns[1..])
      case Look(newWork) =>
        [Answer(if unread == [] then [] else unread[0].bytes, newWork)]
        + Polls(if unread == [] then [] else unread[1..], turns[1..])
  }

  /** The deciding reply is the one whose verdict `HostScan` returns. */
  lemma {:induction false} ScanDecides(unread: seq<Reply>, turns: seq<Turn>)
    ensures var a := Scan(unread, turns).answer;
      forall i: nat :: FirstEnd(Polls(unread, turns), i) ==>
        Verdict(Polls(unread, turns)[i]) == if a.Some? then Verdict(Answer(a.value.bytes, false)) else 0
    decreases |turns|
  {
    hide HostDecode;
    if turns != [] {
      match turns[0]
      case Arrive(r) => ScanDecides(unread + [r], turns[1..]);
      case Halt => EndsFirst(Polls(unread, turns));
      case Look(newWork) =>
        var left := if unread == [] then [] else unread[1..];
        ScanDecides(left, turns[1..]);
        var polls, later := Polls(unread, turns), Polls(left, turns[1..]);
        assert polls[1..] == later;
        if Ends(polls[0]) {
          EndsFirst(polls);
        } else {
          forall i: nat | FirstEnd(polls, i)
            ensures i > 0 && FirstEnd(later, i - 1) && later[i - 1] == polls[i]
          {
            EndsLater(polls, i);
          }
        }
    }
  }

  lemma EndsFirst(polls: seq<Poll>)
    requires polls != [] && Ends(polls[0])
    ensures forall i: nat :: FirstEnd(polls, i) ==> i == 0
  {
    hide Ends;
  }

  lemma EndsLater(polls: seq<Poll>, i: nat)
    requires FirstEnd(polls, i) && !Ends(polls[0])
    ensures i > 0 && FirstEnd(polls[1..], i - 1)
  {
    hide Ends;
    forall j | 0 <= j < i - 1 ensures !Ends(polls[1..][j]) {
      assert polls[1..][j] == polls[j + 1];
    }
  }

  lemma ArrivalsLater(turns: seq<Turn>)
    requires turns != []
    ensures Arrivals(turns) == (if turns[0].Arrive? then [turns[0].reply] else []) + Arrivals(turns[1..])
    ensures !turns[0].Arrive? ==> Arrivals(turns) == Arrivals(turns[1..])
  {
  }

  /** All that is on the line in a call: what is unread before it and what arrives in it. */
  function Line(unread: seq<Reply>, turns: seq<Turn>): seq<Reply> {
    unread + Arrivals(turns)
  }

  /** A call reads the line in order: `n` replies, none of them deciding but the last, if it is the answer. */
  predicate ReadsTo(line: seq<Reply>, r: Result, n: nat) {
    && n <= |line| && r.unread == line[n..]
    && (forall j :: 0 <= j < (if r.answer.Some? then n - 1 else n) ==> !Deciding(line[j]))
    && (r.answer.Some? ==> n > 0 && line[n - 1] == r.answer.value && Deciding(line[n - 1]))
  }

  lemma ReadsOneMore(head: Reply, line: seq<Reply>, r: Result, n: nat)
    requires ReadsTo(line, r, n) && !Deciding(head)
    ensures ReadsTo([head] + line, r, n + 1)
  {
    hide Deciding;
    assert ([head] + line)[n + 1..] == line[n..];
  }

  lemma {:induction false} ScanReads(unread: seq<Reply>, turns: seq<Turn>) returns (n: nat)
    ensures ReadsTo(Line(unread, turns), Scan(unread, turns), n)
    decreases |turns|
  {
    hide Deciding, ReadsTo, Arrivals;
    var line := Line(unread, turns);
    n := 0;
    if turns == [] {
      NoArrivals(turns);
      assert line == unread;
      ReadsNone(line);
    } else {
      var rest := turns[1..];
      ArrivalsLater(turns);
      match turns[0]
      case Arrive(r) =>
        n := ScanReads(unread + [r], rest);
        assert unread + [r] + Arrivals(rest) == line;
      case Halt =>
        ReadsNone(line);
      case Look(newWork) =>
        if unread == [] {
          assert [] + Arrivals(rest) == line;
          if newWork { ReadsNone(line); } else { n := ScanReads([], rest); }
        } else {
          var later := unread[1..] + Arrivals(rest);
          assert line == [unread[0]] + later;
          if Deciding(unread[0]) {
            n := 1;
            ReadsAnswer(unread[0], later);
          } else if newWork {
            n := 1;
            ReadsNone(later);
            ReadsOneMore(unread[0], later, Result(None, later), 0);
          } else {
            n := ScanReads(unread[1..], rest);
            ReadsOneMore(unread[0], later, Scan(unread[1..], rest), n);
            n := n + 1;
          }
        }
    }
  }

  lemma NoArrivals(turns: seq<Turn>)
    requires turns == []
    ensures Arrivals(turns) == []
  {
  }

  lemma ReadsNone(line: seq<Reply>)
    ensures ReadsTo(line, Result(None, line), 0)
  {
  }

  lemma ReadsAnswer(head: Reply, later: seq<Reply>)
    requires Deciding(head)
    ensures ReadsTo([head] + later, Result(Some(head), later), 1)
  {
    hide Deciding;
    assert ([head] + later)[1..] == later;
  }

  /** The device answers its jobs one after the other. */
  predicate InOrder(replies: seq<Reply>) {
    forall i, k :: 0 <= i < k < |replies| ==> replies[i].job <= replies[k].job
  }

  predicate AllUpTo(replies: seq<Reply>, job: nat) {
    forall i :: 0 <= i < |replies| ==> replies[i].job <= job
  }

  /** Every deciding reply is one of `job`. */
  predicate OwnDecisions(replies: seq<Reply>, job: nat) {
    forall i :: 0 <= i < |replies| && Deciding(replies[i]) ==> replies[i].job == job
  }

  /**
   The answer to a call belongs to its job exactly when no deciding reply of an earlier one is on the line, be it unread
   before the call or arriving in it.
   */
  lemma AnswerExact(unread: seq<Reply>, turns: seq<Turn>, job: nat)
    requires InOrder(Line(unread, turns)) && AllUpTo(Line(unread, turns), job)
    ensures var a := Scan(unread, turns).answer;
      a.Some? ==> (a.value.job == job <==> OwnDecisions(Line(unread, turns), job))
  {
    hide Scan, Deciding, Line;
    var n := ScanReads(unread, turns);
    var line, a := Line(unread, turns), Scan(unread, turns).answer;
    if a.Some? && a.value.job == job {
      forall i | 0 <= i < |line| && Deciding(line[i]) ensures line[i].job == job {
        assert i >= n - 1;
      }
    }
  }

  function Decisions(replies: seq<Reply>): nat
    decreases |replies|
  {
    if replies == [] then 0 else (if Deciding(replies[0]) then 1 else 0) + Decisions(replies[1..])
  }

  lemma {:induction false} DecisionsAppend(a: seq<Reply>, b: seq<Reply>)
    ensures Decisions(a + b) == Decisions(a) + Decisions(b)
    decreases |a|
  {
    hide Deciding;
    if a == [] {
      assert a + b == b;
    } else {
      assert (a + b)[1..] == a[1..] + b;
      DecisionsAppend(a[1..], b);
    }
  }

  /** A call uses up one deciding reply if it is answered, and none otherwise. */
  lemma {:induction false} DecisionsKept(unread: seq<Reply>, turns: seq<Turn>)
    ensures var r := Scan(unread, turns);
      Decisions(unread) + Decisions(Arrivals(turns)) == (if r.answer.Some? then 1 else 0) + Decisions(r.unread)
    decreases |turns|
  {
    hide Deciding;
    if turns != [] {
      var rest := turns[1..];
      var left := if unread == [] then [] else unread[1..];
      ArrivalsLater(turns);
      DecisionsAppend(unread, Arrivals(rest));
      DecisionsAppend(left, Arrivals(rest));
      match turns[0]
      case Arrive(r) =>
        DecisionsAppend(unread, [r]);
        DecisionsAppend([r], Arrivals(rest));
        DecisionsKept(unread + [r], rest);
      case Halt =>
      case Look(newWork) =>
        DecisionsKept(left, rest);
    }
  }

  /** The answers of successive calls. */
  function Session(unread: seq<Reply>, calls: seq<seq<Turn>>): seq<Option<Reply>>
    decreases |calls|
  {
    if calls == [] then []
    else
      var r := Scan(unread, calls[0]);
      [r.answer] + Session(r.unread, calls[1..])
  }

  function AllArrivals(calls: seq<seq<Turn>>): seq<Reply>
    decreases |calls|
  {
    if calls == [] then [] else Arrivals(calls[0]) + AllArrivals(calls[1..])
  }

  /** No reply arrives before the call that sends its job, the first of which is `job`. */
  predicate NotBefore(calls: seq<seq<Turn>>, job: nat)
    decreases |calls|
  {
    calls == [] || (AllUpTo(Arrivals(calls[0]), job) && NotBefore(calls[1..], job + 1))
  }

  /** No answered call has a deciding reply of an earlier job on its line. */
  predicate Clean(unread: seq<Reply>, calls: seq<seq<Turn>>, job: nat)
    decreases |calls|
  {
    calls == [] ||
    var r := Scan(unread, calls[0]);
    (r.answer.Some? ==> OwnDecisions(Line(unread, calls[0]), job)) && Clean(r.unread, calls[1..], job + 1)
  }

  predicate AllBelong(answers: seq<Option<Reply>>, job: nat)
    decreases |answers|
  {
    answers == [] || ((answers[0].Some? ==> answers[0].value.job == job) && AllBelong(answers[1..], job + 1))
  }

  /** What the later calls see is the rest of the same stream. */
  lemma StreamAfter(unread: seq<Reply>, calls: seq<seq<Turn>>) returns (n: nat)
    requires calls != []
    ensures ReadsTo(Line(unread, calls[0]), Scan(unread, calls[0]), n)
    ensures var stream := unread + AllArrivals(calls);
      && stream == Line(unread, calls[0]) + AllArrivals(calls[1..])
      && n <= |stream| && Scan(unread, calls[0]).unread + AllArrivals(calls[1..]) == stream[n..]
  {
    hide Scan, Deciding, Arrivals;
    n := ScanReads(unread, calls[0]);
    var line, later := Line(unread, calls[0]), AllArrivals(calls[1..]);
    assert unread + AllArrivals(calls) == line + later;
    assert (line + later)[n..] == line[n..] + later;
  }

  lemma Narrowed(stream: seq<Reply>, line: seq<Reply>, n: nat)
    requires InOrder(stream) && n <= |stream| && line <= stream
    ensures InOrder(stream[n..]) && InOrder(line)
  {
    forall i, k | 0 <= i < k < |stream[n..]| ensures stream[n..][i].job <= stream[n..][k].job {
      assert stream[n..][i] == stream[n + i] && stream[n..][k] == stream[n + k];
    }
    forall i, k | 0 <= i < k < |line| ensures line[i].job <= line[k].job {
      assert line[i] == stream[i] && line[k] == stream[k];
    }
  }

  lemma UnreadUpTo(unread: seq<Reply>, turns: seq<Turn>, job: nat, n: nat)
    requires AllUpTo(unread, job) && AllUpTo(Arrivals(turns), job)
    ensures AllUpTo(Line(unread, turns), job)
    ensures ReadsTo(Line(unread, turns), Scan(unread, turns), n) ==> AllUpTo(Scan(unread, turns).unread, job + 1)
  {
    hide Scan, Deciding, Arrivals;
  }

  /**
   Over any number of calls, whenever the replies arrive: every answer is that of the job of its call exactly when
   all calls are clean.
   */
  lemma {:induction false} SessionExact(unread: seq<Reply>, calls: seq<seq<Turn>>, job: nat)
    requires InOrder(unread + AllArrivals(calls)) && AllUpTo(unread, job) && NotBefore(calls, job)
    ensures AllBelong(Session(unread, calls), job) <==> Clean(unread, calls, job)
    decreases |calls|
  {
    hide Scan, Arrivals, OwnDecisions, InOrder, AllUpTo, Line, ReadsTo, AllArrivals;
    if calls != [] {
      var n := StreamAfter(unread, calls);
      Narrowed(unread + AllArrivals(calls), Line(unread, calls[0]), n);
      UnreadUpTo(unread, calls[0], job, n);
      AnswerExact(unread, calls[0], job);
      var r := Scan(unread, calls[0]);
      SessionExact(r.unread, calls[1..], job + 1);
      assert Session(unread, calls)[1..] == Session(r.unread, calls[1..]);
    }
  }

  predicate AllAnswered(unread: seq<Reply>, calls: seq<seq<Turn>>)
    decreases |calls|
  {
    calls == [] || (Scan(unread, calls[0]).answer.Some? && AllAnswered(Scan(unread, calls[0]).unread, calls[1..]))
  }

  /** No deciding reply is of a job before `job`, and no job has two. */
  predicate OneEach(replies: seq<Reply>, job: nat) {
    && (forall i :: 0 <= i < |replies| && Deciding(replies[i]) ==> job <= replies[i].job)
    && (forall i, k :: 0 <= i < k < |replies| && Deciding(replies[i]) && Deciding(replies[k]) ==>
          replies[i].job != replies[k].job)
  }

  lemma OneEachNext(stream: seq<Reply>, line: seq<Reply>, job: nat, n: nat)
    requires OneEach(stream, job) && line <= stream && AllUpTo(line, job)
    requires 0 < n <= |line| && Deciding(line[n - 1])
    ensures OwnDecisions(line, job) && OneEach(stream[n..], job + 1)
  {
    hide Deciding;
    forall i | 0 <= i < |line| && Deciding(line[i]) ensures line[i].job == job {
      assert line[i] == stream[i];
    }
    assert stream[n - 1] == line[n - 1];
    forall i | 0 <= i < |stream[n..]| && Deciding(stream[n..][i]) ensures job + 1 <= stream[n..][i].job {
      assert stream[n..][i] == stream[n + i];
    }
    forall i, k | 0 <= i < k < |stream[n..]| && Deciding(stream[n..][i]) && Deciding(stream[n..][k])
      ensures stream[n..][i].job != stream[n..][k].job
    {
      assert stream[n..][i] == stream[n + i] && stream[n..][k] == stream[n + k];
    }
  }

  /** They are when every call is answered and every job decided at most once, with nothing left of jobs before them. */
  lemma {:induction false} OneEachIsClean(unread: seq<Reply>, calls: seq<seq<Turn>>, job: nat)
    requires AllAnswered(unread, calls) && OneEach(unread + AllArrivals(calls), job)
    requires AllUpTo(unread, job) && NotBefore(calls, job)
    ensures Clean(unread, calls, job)
    decreases |calls|
  {
    hide Scan, Arrivals, OwnDecisions, AllUpTo, Line, AllArrivals, OneEach, Deciding;
    if calls != [] {
      var n := StreamAfter(unread, calls);
      UnreadUpTo(unread, calls[0], job, n);
      OneEachNext(unread + AllArrivals(calls), Line(unread, calls[0]), job, n);
      OneEachIsClean(Scan(unread, calls[0]).unread, calls[1..], job + 1);
    }
  }

  /** A nonce reply of job 0. */
  function FirstNonce(nonce: word32): Reply {
    Reply(StateReply(CMD_S, HostState(RESET, 1, nonce)), 0)
  }

  /**
   New work ends the first call before its nonce arrives.  The second call returns that nonce for its own job, whether
   it arrives before that call or in it.
   */
  lemma StaleNonce(nonce: word32)
    ensures var reply := FirstNonce(nonce);
      && Session([], [[Halt, Arrive(reply)], [Look(false)]]) == [None, Some(reply)]
      && Session([], [[Halt], [Arrive(reply), Look(false)]]) == [None, Some(reply)]
  {
    var reply := FirstNonce(nonce);
    ReplyDecodes(CMD_S, HostState(RESET, 1, nonce));
    assert Deciding(reply);
    hide FirstNonce, Deciding;
    var look: seq<Turn>, late: seq<Turn> := [Look(false)], [Arrive(reply), Look(false)];
    var early: seq<Turn>, halt: seq<Turn>, arrive: seq<Turn> := [Halt, Arrive(reply)], [Halt], [Arrive(reply)];
    assert look[1..] == [] && Scan([reply], look) == Result(Some(reply), []);
    assert early[1..] == arrive && arrive[1..] == [] && Arrivals(arrive) == [reply];
    assert Scan([], early) == Result(None, [reply]);
    assert halt[1..] == [] && Scan([], halt) == Result(None, []);
    assert late[1..] == look && [] + [reply] == [reply] && Scan([], late) == Scan([reply], look);
    TwoCalls([], early, look);
    TwoCalls([], halt, late);
  }

  lemma TwoCalls(unread: seq<Reply>, first: seq<Turn>, second: seq<Turn>)
    ensures var r := Scan(unread, first);
      Session(unread, [first, second]) == [r.answer, Scan(r.unread, second).answer]
  {
    hide Scan;
    var calls: seq<seq<Turn>>, last: seq<seq<Turn>> := [first, second], [second];
    assert calls[1..] == last && last[1..] == [];
    var unread1 := Scan(unread, first).unread;
    assert Session(unread1, last) == [Scan(unread1, second).answer];
  }
}
