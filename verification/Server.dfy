/** The event loop's part in a connection's life: how long to wait, and a run from accept to close (src/server.cpp). */
module Server {
  import opened Text
  import opened Messages
  import opened Framing
  import opened RequestParsing
  import opened InputGrowth
  import opened Responses
  import opened Exchange
  import opened Session
  import opened Connections

  const MILLISECOND: int := 1_000_000
  const MAX_POLL_WAIT: int := 1000 * MILLISECOND

  /** `wake` is the earliest of one second from now, every deadline, and the end of an accept pause. */
  ghost predicate IsWake(wake: int, now: int, deadlines: seq<Option<int>>, acceptPausedUntil: int) {
    && wake <= now + 1_000_000_000
    && (forall i | 0 <= i < |deadlines| :: deadlines[i].Some? ==> wake <= deadlines[i].value)
    && (acceptPausedUntil > now ==> wake <= acceptPausedUntil)
    && (|| wake == now + 1_000_000_000
        || (exists i :: 0 <= i < |deadlines| && deadlines[i] == Some(wake))
        || (acceptPausedUntil > now && wake == acceptPausedUntil))
  }

  /** A poll that times out wakes at or after the wake time, and less than a millisecond late: it never spins. */
  method PollTimeoutMs(now: int, deadlines: seq<Option<int>>, acceptPausedUntil: int)
    returns (ms: nat, ghost wake: int)
    ensures IsWake(wake, now, deadlines, acceptPausedUntil)
    ensures wake <= now ==> ms == 0
    ensures wake > now ==> wake <= now + ms * 1_000_000 < wake + 1_000_000
    ensures ms <= 1000
    ensures deadlines == [] && acceptPausedUntil <= now ==> ms == 1000
  {
    var earliest := now + MAX_POLL_WAIT;
    for i := 0 to |deadlines|
      invariant IsWake(earliest, now, deadlines[..i], now)
    {
      if deadlines[i].Some? && deadlines[i].value < earliest {
        earliest := deadlines[i].value;
        assert deadlines[..i + 1][i] == Some(earliest);
      } else {
        assert forall k | 0 <= k < i :: deadlines[..i][k] == deadlines[..i + 1][k];
      }
    }
    assert deadlines[..|deadlines|] == deadlines;
    if acceptPausedUntil > now && acceptPausedUntil < earliest {
      earliest := acceptPausedUntil;
    }
    wake := earliest;
    if earliest <= now {
      return 0, wake;
    }
    ms := (earliest - now + MILLISECOND - 1) / MILLISECOND;
  }

  /** What one turn of the loop brings a connection: what poll reported, and the time. */
  datatype Turn = Turn(ready: Ready, now: int)

  predicate Reported(r: Ready) {
    r.invalid || r.error || r.readable || r.hangup || r.writable
  }

  /** The wire carries a prefix of what the received bytes call for, and after that a 408 for an unfinished request. */
  ghost predicate Faithful(service: Service, limits: Limits, id: nat, received: string, sent: string) {
    var number := |ExpectedReplies(service, limits, received)| + 1;
    var late := if Unfinished(limits, received) then Serialize(Numbered(id, number, TimeoutReply())) else "";
    sent <= Expected(service, limits, id, received) + late
  }

  lemma RunIsFaithful(config: Config, service: Service, id: nat, c: Conn)
    requires config.limits.maxHeaderBytes >= 1 && c.Inv(config, service, id)
    ensures Faithful(service, config.limits, id, c.parser.fed, c.sent)
    ensures !c.timedOut ==> c.sent <= Expected(service, config.limits, id, c.parser.fed)
    ensures c.Completed() && !c.timedOut ==> c.sent == Expected(service, config.limits, id, c.parser.fed)
    ensures c.AtRest(config) && c.phase == Active && c.Pending() == 0 ==>
              c.sent == Expected(service, config.limits, id, c.parser.fed)
  {
    hide Conn.Inv, Expected, ExpectedReplies, Serialize, Numbered, TimeoutReply, Unfinished;
    SentIsExpected(config, service, id, c);
    ResponsesAreExpected(config, service, id, c);
    TimeoutIsDeserved(config, service, id, c);
    if c.Completed() {
      CloseIsComplete(config, service, id, c);
    }
    if c.AtRest(config) && c.phase == Active && c.Pending() == 0 {
      NothingOwed(config, service, id, c);
    }
  }

  /** No turn reported an error on the socket. */
  predicate Untroubled(turns: seq<Turn>) {
    forall i | 0 <= i < |turns| :: !turns[i].ready.invalid && !turns[i].ready.error
  }

  // ---------------------------------------------------------------- time

  /** What one turn did to a connection: its state before, after the reported events, and after the deadline check. */
  datatype Moment = Moment(now: int, before: Conn, events: Conn, after: Conn, late: bool) {
    /** Bytes went over the connection in either direction, or the client finished. */
    predicate Traffic() {
      || events.sent != before.sent || events.parser.fed != before.parser.fed
      || events.peerFinished != before.peerFinished
    }

    /** Since when the connection is waiting, if it was waiting since `s` before this turn. */
    function SinceEvents(s: int): int {
      if events.phase == Draining then (if before.phase == Draining then s else now)
      else if Traffic() then now else s
    }

    function SinceAfter(s: int): int {
      if late then now else SinceEvents(s)
    }

    /** A silent client is told 408 exactly if it left a request unfinished, and is otherwise closed as idle. */
    ghost predicate Judged(limits: Limits) {
      var silent := late && events.phase == Active && events.Pending() <= 0;
      && (after.timedOut && !before.timedOut <==> silent && Unfinished(limits, events.parser.fed))
      && (after.cause == Idle && before.cause != Idle <==> silent && !Unfinished(limits, events.parser.fed))
    }

    /** A deadline is handled exactly when the wait has lasted as long as the phase allows. */
    predicate Timely(config: Config, s: int) {
      late <==>
        || ((events.phase == Active || events.phase == Closing) && now - SinceEvents(s) >= config.idleTimeout)
        || (events.phase == Draining && now - SinceEvents(s) >= config.lingerTimeout)
    }
  }

  /** The fields from which the deadline is computed say since when the connection is waiting. */
  ghost predicate Clocked(c: Connection, s: int)
    reads c
  {
    && (c.phase == Active || c.phase == Closing ==> c.lastActivity == s)
    && (c.phase == Draining ==> c.lingerDeadline == s + c.config.lingerTimeout)
  }

  /** The log of a run: each turn starts where the one before it ended. */
  ghost predicate Chained(log: seq<Moment>, first: Conn, last: Conn) {
    if log == [] then first == last
    else log[|log| - 1].after == last && Chained(log[..|log| - 1], first, log[|log| - 1].before)
  }

  ghost function Since(accepted: int, log: seq<Moment>): int {
    if log == [] then accepted else log[|log| - 1].SinceAfter(Since(accepted, log[..|log| - 1]))
  }

  ghost predicate AllTimely(config: Config, accepted: int, log: seq<Moment>) {
    forall i | 0 <= i < |log| :: log[i].Timely(config, Since(accepted, log[..i]))
  }

  ghost predicate AllJudged(limits: Limits, log: seq<Moment>) {
    forall i | 0 <= i < |log| :: log[i].Judged(limits)
  }

  function CountLate(log: seq<Moment>): nat {
    if log == [] then 0 else CountLate(log[..|log| - 1]) + if log[|log| - 1].late then 1 else 0
  }

  /** Nothing happened after turn `j` up to turn `i`: no traffic, no deadline, and not yet draining. */
  ghost predicate QuietBetween(log: seq<Moment>, j: int, i: int) {
    && -1 <= j < i < |log|
    && (forall k | j < k <= i :: !log[k].Traffic() && log[k].events.phase != Draining)
    && (forall k | j < k < i :: !log[k].late)
  }

  lemma {:induction false} SinceQuiet(accepted: int, log: seq<Moment>, j: int, i: nat)
    requires i < |log| && QuietBetween(log, j, i)
    requires j == -1 || log[j].late || (log[j].Traffic() && log[j].events.phase != Draining)
    ensures Since(accepted, log[..i]) == if j == -1 then accepted else log[j].now
    decreases i
  {
    if i > 0 {
      assert log[..i][..i - 1] == log[..i - 1] && log[..i][i - 1] == log[i - 1];
      if j < i - 1 {
        SinceQuiet(accepted, log, j, i - 1);
      }
    }
  }

  /**
   In every run, an open connection that is not draining has a deadline handled in a turn if and only if it has then
   been silent for the idle timeout, counted from its last traffic or deadline, or from when it was accepted.
   */
  lemma SilenceIsTimed(config: Config, accepted: int, log: seq<Moment>, j: int, i: nat)
    requires AllTimely(config, accepted, log) && i < |log| && QuietBetween(log, j, i)
    requires j == -1 || log[j].late || (log[j].Traffic() && log[j].events.phase != Draining)
    requires log[i].events.phase != Closed
    ensures log[i].late <==> log[i].now - (if j == -1 then accepted else log[j].now) >= config.idleTimeout
  {
    SinceQuiet(accepted, log, j, i);
    assert log[i].Timely(config, Since(accepted, log[..i]));
  }

  /** The connection began to drain in turn `j` and has done nothing else up to turn `i`. */
  ghost predicate DrainsSince(log: seq<Moment>, j: nat, i: nat) {
    && j < i < |log|
    && log[j].after.phase == Draining && log[j].before.phase != Draining
    && (log[j].late || log[j].after == log[j].events)
    && (forall k | j < k <= i :: log[k].before.phase == Draining && log[k].events.phase == Draining)
    && (forall k | j < k < i :: !log[k].late)
  }

  lemma {:induction false} SinceDraining(accepted: int, log: seq<Moment>, j: nat, i: nat)
    requires DrainsSince(log, j, i)
    ensures Since(accepted, log[..i]) == log[j].now
    decreases i
  {
    assert log[..i][..i - 1] == log[..i - 1] && log[..i][i - 1] == log[i - 1];
    if j < i - 1 {
      SinceDraining(accepted, log, j, i - 1);
    }
  }

  /** In every run, a draining connection is given up in a turn if and only if it has drained for the linger timeout. */
  lemma LingerIsTimed(config: Config, accepted: int, log: seq<Moment>, j: nat, i: nat)
    requires AllTimely(config, accepted, log) && DrainsSince(log, j, i)
    ensures log[i].late <==> log[i].now - log[j].now >= config.lingerTimeout
  {
    SinceDraining(accepted, log, j, i);
    assert log[i].Timely(config, Since(accepted, log[..i]));
  }

  // ---------------------------------------------------------------- a run

  /** The reported events, if there are any. */
  method TakeEvents(c: Connection, ready: Ready, now: int, ghost s: int) returns (ghost m: Moment)
    requires c.Settled() && Clocked(c, s)
    modifies c, c.parser, c.socket
    ensures c.Settled() && Clocked(c, m.SinceEvents(s))
    ensures m == Moment(now, old(c.AsConn()), c.AsConn(), c.AsConn(), false)
    ensures c.timers == old(c.timers) && Connection.Rank(c.phase) <= Connection.Rank(old(c.phase))
    ensures old(c.phase) != Closed && (ready.invalid || ready.error) ==> c.phase == Closed
    ensures c.socket.recvCalls == old(c.socket.recvCalls) + if old(c.Reads(ready)) then 1 else 0
    ensures (ready.readable || ready.hangup || ready.writable) && old(c.Writes(ready)) ==>
              || old(c.socket.sendCalls) < c.socket.sendCalls
              || (old(c.Reads(ready)) && c.socket.lastRecv == RecvError)
    ensures !Reported(ready) ==> c.AsConn() == old(c.AsConn()) && c.socket.sendCalls == old(c.socket.sendCalls)
    ensures c.timedOut == old(c.timedOut) && (c.cause == Idle <==> old(c.cause) == Idle)
    ensures c.socket.healthy && !ready.invalid && !ready.error && c.cause == Aborted ==> old(c.cause) == Aborted
  {
    hide Conn.Inv, Conn.AtRest, View.Inv, View.Starved, WantsInput;
    ReceivedIsFed(c);
    ghost var before := c.AsConn();
    if Reported(ready) {
      c.OnPollEvents(ready, now);
      ReceivedIsFed(c);
    }
    m := Moment(now, before, c.AsConn(), c.AsConn(), false);
  }

  lemma ReceivedIsFed(c: Connection)
    requires c.Settled()
    ensures c.socket.received == c.AsConn().parser.fed
  {
    hide Conn.Inv, Conn.AtRest;
  }

  /** The deadline, if it has passed. */
  method TakeDeadline(c: Connection, now: int, ghost s: int) returns (late: bool)
    requires c.Settled() && Clocked(c, s)
    modifies c, c.parser, c.socket
    ensures c.Settled() && Clocked(c, if late then now else s)
    ensures late <==> old(|| ((c.phase == Active || c.phase == Closing) && now - s >= c.config.idleTimeout)
                          || (c.phase == Draining && now - s >= c.config.lingerTimeout))
    ensures !late ==> c.AsConn() == old(c.AsConn()) && c.socket.sendCalls == old(c.socket.sendCalls)
    ensures var silent := late && old(c.phase == Active && c.PendingOutput() <= 0);
            && (c.timedOut && !old(c.timedOut) <==> silent && old(Unfinished(c.config.limits, c.parser.fed)))
            && (c.cause == Idle && old(c.cause) != Idle <==> silent && !old(Unfinished(c.config.limits, c.parser.fed)))
    ensures late ==> c.timers == old(c.timers) + 1 && Connection.Rank(c.phase) < Connection.Rank(old(c.phase))
    ensures c.socket.recvCalls == old(c.socket.recvCalls) && old(c.socket.sendCalls) <= c.socket.sendCalls
    ensures c.socket.lastRecv == old(c.socket.lastRecv)
    ensures c.config.idleTimeout > 0 && c.config.lingerTimeout > 0 && c.phase != Closed ==>
              c.Deadline().Some? && c.Deadline().value > now
  {
    hide Connection.Settled, Connection.AsConn, Unfinished, TimeoutReply;
    var deadline := c.Deadline();
    late := c.phase != Closed && deadline.Some? && now >= deadline.value;
    if late {
      c.OnDeadline(now);
    }
  }

  /** One connection's part of a turn: what poll reported, then the deadline if it has passed. */
  method TakeTurn(c: Connection, turn: Turn, ghost s: int) returns (late: bool, ghost m: Moment)
    requires c.Settled() && Clocked(c, s)
    modifies c, c.parser, c.socket
    ensures c.Settled() && Clocked(c, m.SinceAfter(s))
    ensures m.now == turn.now && m.before == old(c.AsConn()) && m.after == c.AsConn() && m.late == late
    ensures m.Timely(c.config, s) && m.Judged(c.config.limits) && (!late ==> m.after == m.events)
    ensures !Reported(turn.ready) ==>
              m.events == m.before && (!late ==> c.socket.sendCalls == old(c.socket.sendCalls))
    ensures c.timers == old(c.timers) + if late then 1 else 0
    ensures Connection.Rank(c.phase) <= Connection.Rank(m.events.phase) <= Connection.Rank(old(c.phase))
    ensures late ==> Connection.Rank(c.phase) < Connection.Rank(m.events.phase)
    ensures old(c.phase) != Closed && (turn.ready.invalid || turn.ready.error) ==> m.events.phase == Closed
    ensures c.socket.recvCalls == old(c.socket.recvCalls) + if old(c.Reads(turn.ready)) then 1 else 0
    ensures turn.ready.writable && old(c.Writes(turn.ready)) ==>
              || old(c.socket.sendCalls) < c.socket.sendCalls
              || (old(c.Reads(turn.ready)) && c.socket.lastRecv == RecvError)
    ensures c.config.idleTimeout > 0 && c.config.lingerTimeout > 0 && c.phase != Closed ==>
              c.Deadline().Some? && c.Deadline().value > turn.now
    ensures c.socket.healthy && !turn.ready.invalid && !turn.ready.error && !late && c.cause == Aborted ==>
              old(c.cause) == Aborted
  {
    hide Connection.Settled, Connection.WantsToRead, Unfinished;
    m := TakeEvents(c, turn.ready, turn.now, s);
    ghost var seen := m.SinceEvents(s);
    late := TakeDeadline(c, turn.now, seen);
    m := m.(after := c.AsConn(), late := late);
  }

  const NOTHING := Ready(false, false, false, false, false)

  /**
   From one poll to the next. If a poll times out at the deadline of this connection, whatever the others wait for and
   however late it returns, the turn that follows handles that deadline, and the next timeout is again positive.
   */
  method SleepToDeadline(c: Connection, others: seq<Option<int>>, acceptPausedUntil: int, now: int, delay: nat,
                         ghost s: int)
    returns (ms: nat, ghost wake: int, late: bool, next: nat)
    requires c.Settled() && Clocked(c, s) && c.phase != Closed
    modifies c, c.parser, c.socket
    ensures IsWake(wake, now, [old(c.Deadline())] + others, acceptPausedUntil)
    ensures wake == old(c.Deadline()).value ==> late
    ensures late ==> old(c.Deadline()).value <= now + ms * 1_000_000 + delay
    ensures c.config.idleTimeout > 0 && c.config.lingerTimeout > 0 ==> next > 0
  {
    hide Connection.Settled;
    ms, wake := PollTimeoutMs(now, [c.Deadline()] + others, acceptPausedUntil);
    var woken := now + ms * MILLISECOND + delay;
    ghost var m: Moment;
    late, m := TakeTurn(c, Turn(NOTHING, woken), s);
    ghost var after: int;
    next, after := PollTimeoutMs(woken, [c.Deadline()], woken);
  }

  /**
   A whole connection, for every schedule of readiness, short reads, short writes and timeouts. It says only what
   the received bytes call for; closed in an orderly way, or open with nothing left to write, it has said all of it;
   still open, it waits for something it will act on. It handles at most two deadlines, each exactly when it is due by
   the log of the run. It throws away no input unless it drains, then no more than the discard limit while it stays
   open and one read more when it closes. If no call fails and no deadline passes, every close is an orderly one.
   */
  method Serve(config: Config, service: Service, id: nat, accepted: int, turns: seq<Turn>,
               healthy: bool, plan: seq<RecvResult>)
    returns (received: string, sent: string, phase: Phase, events: (bool, bool), deadlines: nat,
             discarded: nat, ghost last: Conn, ghost log: seq<Moment>)
    ensures last.Inv(config, service, id) && received == last.parser.fed && sent == last.sent && phase == last.phase
    ensures config.limits.maxHeaderBytes >= 1 ==>
              && Faithful(service, config.limits, id, received, sent)
              && (last.Completed() && !last.timedOut ==> sent == Expected(service, config.limits, id, received))
              && (phase == Active && last.Pending() == 0 ==> sent == Expected(service, config.limits, id, received))
    ensures events == (last.ReadsWhenReadable(config), last.WritesWhenWritable())
    ensures config.limits.maxBodyBytes >= 1 && config.outputHighWater >= 1 && phase != Closed ==>
              events != (false, false)
    ensures Chained(log, Fresh(), last) && |log| == |turns|
    ensures forall i | 0 <= i < |turns| :: log[i].now == turns[i].now
    ensures AllTimely(config, accepted, log) && AllJudged(config.limits, log) && deadlines == CountLate(log) <= 2
    ensures healthy && Untroubled(turns) && deadlines == 0 && phase == Closed ==> last.Completed() && !last.timedOut
    ensures discarded <= config.maxLingerBytes + 16384
    ensures phase == Draining ==> discarded <= config.maxLingerBytes
    ensures phase == Active || phase == Closing ==> discarded == 0
  {
    hide Conn.Inv, View.Inv, View.Starved, Expected, ExpectedReplies, RequestParser.AsView, Faithful, Chained,
         AllTimely, AllJudged, Since, CountLate, Moment.Timely, Moment.Judged, Moment.SinceAfter;
    var socket := new Socket(healthy, false, plan);
    var c := new Connection(socket, config, service, id, accepted);
    deadlines, log := 0, [];
    NoTurnYet(config, accepted, Fresh());
    for i := 0 to |turns|
      invariant c.Settled() && c.config == config && c.service == service && c.id == id && c.socket.healthy == healthy
      invariant fresh(c) && fresh(c.parser) && fresh(c.socket)
      invariant |log| == i && forall k | 0 <= k < i :: log[k].now == turns[k].now
      invariant Chained(log, Fresh(), c.AsConn()) && AllTimely(config, accepted, log) && AllJudged(config.limits, log)
      invariant Clocked(c, Since(accepted, log))
      invariant deadlines == c.timers == CountLate(log)
      invariant healthy && Untroubled(turns) && deadlines == 0 ==> c.cause != Aborted
    {
      ghost var m: Moment;
      var late: bool;
      late, m := TakeTurn(c, turns[i], Since(accepted, log));
      OneMoreTurn(config, accepted, Fresh(), log, m);
      log := log + [m];
      if late {
        deadlines := deadlines + 1;
      }
    }
    c.TimersBounded();
    last := c.AsConn();
    received, sent, phase, events := c.socket.received, c.socket.sent, c.phase, c.PollEvents();
    discarded := c.socket.discarded;
    Outcome(c);
    if phase != Closed && config.limits.maxBodyBytes >= 1 && config.outputHighWater >= 1 {
      NoDeadlock(config, service, id, last);
    }
    if config.limits.maxHeaderBytes >= 1 {
      RunIsFaithful(config, service, id, last);
    }
  }

  lemma NoTurnYet(config: Config, accepted: int, first: Conn)
    ensures Chained([], first, first) && AllTimely(config, accepted, []) && Since(accepted, []) == accepted
    ensures AllJudged(config.limits, [])
    ensures CountLate([]) == 0
  {
  }

  lemma OneMoreTurn(config: Config, accepted: int, first: Conn, log: seq<Moment>, m: Moment)
    requires Chained(log, first, m.before) && AllTimely(config, accepted, log) && AllJudged(config.limits, log)
    requires m.Timely(config, Since(accepted, log)) && m.Judged(config.limits)
    ensures var more := log + [m];
            && Chained(more, first, m.after) && AllTimely(config, accepted, more) && AllJudged(config.limits, more)
            && Since(accepted, more) == m.SinceAfter(Since(accepted, log))
            && CountLate(more) == CountLate(log) + if m.late then 1 else 0
  {
    hide Moment.Timely, Moment.Judged, Moment.SinceAfter;
    var more := log + [m];
    assert more[..|log|] == log && more[|log|] == m;
    forall i | 0 <= i < |more| ensures more[i].Timely(config, Since(accepted, more[..i])) {
      if i < |log| {
        assert more[..i] == log[..i] && more[i] == log[i];
      }
    }
  }

  /** What the fields of a settled connection say about it: what it polls for is what it would do. */
  lemma Outcome(c: Connection)
    requires c.Settled()
    ensures var last := c.AsConn();
            && last.Inv(c.config, c.service, c.id) && last.AtRest(c.config) && c.socket.received == last.parser.fed
            && c.PollEvents() == (last.ReadsWhenReadable(c.config), last.WritesWhenWritable())
            && c.PollEvents() == (c.Reads(READABLE), c.Writes(WRITABLE)) && c.Reads(HANGUP) == c.Reads(READABLE)
            && (last.phase == Closed <==> last.cause != NotClosed) && (last.timedOut ==> last.timers >= 1)
            && (last.cause == FinalSent ==> c.peerFinished || c.socket.shutTried)
  {
    hide View.Inv, View.Starved, Wire, Replies, Conn.Backlog, Conn.Answers;
    PollsForWhatItDoes(c.config, c.AsConn());
  }

  const READABLE := Ready(false, false, true, false, false)
  const WRITABLE := Ready(false, false, false, false, true)
  const HANGUP := Ready(false, false, false, true, false)

  // ---------------------------------------------------------------- settings that make a connection wait for nothing

  lemma StillOpen(c: Connection, n: nat)
    requires c.Settled() && c.socket.received == Unended(n) && 1 <= n <= c.config.limits.maxHeaderBytes
    requires !c.timedOut && !c.peerFinished && c.cause != Aborted
    ensures c.phase == Active && c.cause == NotClosed && c.PendingOutput() == 0 && c.parser.Buffered() == n
  {
    hide Conn.Inv, View.Inv, View.Starved;
    Outcome(c);
    UnendedQuiet(c.config, c.service, c.id, c.AsConn(), n);
  }

  /** A connection that has read `k` letters and waits for the end of its first head. */
  ghost predicate Letters(c: Connection, k: nat)
    reads c, c.parser, c.socket
  {
    && c.Settled() && c.phase == Active && !c.peerFinished && !c.timedOut && c.cause == NotClosed
    && c.PendingOutput() == 0 && c.parser.Buffered() == k && c.socket.healthy && c.socket.received == Unended(k)
  }

  method ReadLetter(c: Connection, k: nat, now: int)
    requires Letters(c, k) && k < c.config.limits.maxHeaderBytes && c.config.outputHighWater >= 1
    requires c.socket.plan != [] && c.socket.plan[0] == Data("a")
    modifies c, c.parser, c.socket
    ensures Letters(c, k + 1) && c.socket.plan == old(c.socket.plan[1..])
  {
    hide Connection.Settled, Connection.AsConn;
    c.OnPollEvents(READABLE, now);
    assert Unended(k) + "a" == Unended(k + 1);
    StillOpen(c, k + 1);
  }

  /**
   The settings that Session.NoDeadlockIff excludes do stop a real connection. Without a high-water mark it never
   reads; without room for a body, a head as long as the limit, still without its end, leaves no room to read on.
   */
  method WaitsForNothing(config: Config, service: Service, id: nat, now: int) returns (c: Connection)
    requires config.limits.maxBodyBytes == 0 || config.outputHighWater == 0
    ensures fresh(c) && c.config == config && c.Settled() && c.phase == Active && c.PollEvents() == (false, false)
  {
    hide Conn.Inv, View.Inv, View.Starved;
    var n := config.limits.maxHeaderBytes;
    var socket := new Socket(true, false, seq(n, i => Data("a")));
    c := new Connection(socket, config, service, id, now);
    if config.outputHighWater == 0 {
      return;
    }
    for k := 0 to n
      invariant fresh(c) && fresh(c.parser) && fresh(c.socket) && c.config == config
      invariant Letters(c, k) && c.socket.plan == seq(n - k, i => Data("a"))
    {
      ReadLetter(c, k, now);
    }
  }
}
