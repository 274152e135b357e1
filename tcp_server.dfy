/**
 * One pass of the stream server's accept loop: everything it does with one
 * accepted connection, from the greeting to `closesocket(clientSocket)`.
 *
 * The exchange is checked against the connection's phase machine
 * (`Step`/`Conforms`), and the properties the protocol promises are proved
 * once for every trace that machine accepts.
 */
module TcpServer {
  import opened Basics
  import opened Wire
  import opened Commands
  import opened Arith
  import opened Transport

  /** One call the server makes on the accepted socket, with its outcome. */
  datatype Event =
    | Sent(bytes: seq<byte>)              // `send` of these bytes
    | SendFailed(bytes: seq<byte>)        // `send` of these bytes returned a negative count
    | Recv(len: nat, result: Delivery)    // `recv` into a `len`-byte buffer
    | Closed                              // `closesocket(clientSocket)`

  /** Why an exchange ended without completing. */
  datatype Failure = GreetingNotSent | NoCommand | OperandsMisframed

  /** How one exchange ended: completed (with the result, when arithmetic was done) or aborted. */
  datatype Outcome = Done(answer: Option<int32>) | Aborted(failure: Failure)

  // ---------------------------------------------------------------------------
  // The connection's phase machine
  // ---------------------------------------------------------------------------

  datatype Phase =
    | Accepted                       // connection accepted, nothing sent
    | Greeted                        // greeting sent
    | Resolved(command: byte)        // upper-cased command received
    | AwaitingOperands(command: byte) // arithmetic token sent
    | ResultReady(result: int32)     // 8 operand bytes received, result computed
    | Finishing                      // nothing left to do but close
    | Released                       // connection closed

  /** The phase after `e`, or None when `e` is not allowed in phase `p`. */
  function Step(p: Phase, e: Event): Option<Phase>
  {
    match p
    case Accepted =>
      if e == Sent(GREETING) then Some(Greeted)
      else if e == SendFailed(GREETING) then Some(Finishing)
      else None
    case Greeted =>
      if e.Recv? && e.len == 1 then
        if Count(e.result, 1) > 0 then Some(Resolved(ToUpper(Received(e.result, 1)[0])))
        else Some(Finishing)
      else None
    case Resolved(c) =>
      if e == Sent(Dispatch(c).token) then
        if Dispatch(c).operationRequired then Some(AwaitingOperands(c)) else Some(Finishing)
      else None
    case AwaitingOperands(c) =>
      if e.Recv? && e.len == 8 then
        if Count(e.result, 8) == 8 then
          var (n1, n2) := DecodePair(Received(e.result, 8));
          Some(ResultReady(Compute(c, n1, n2)))
        else Some(Finishing)
      else None
    case ResultReady(v) =>
      if e == Sent(EncodeInt32(v)) then Some(Finishing) else None
    case Finishing =>
      if e == Closed then Some(Released) else None
    case Released =>
      None
  }

  /** The phase reached from `p` after the events of `t`, or None if some event is not allowed. */
  function Run(p: Phase, t: seq<Event>): Option<Phase>
    decreases |t|
  {
    if t == [] then Some(p)
    else match Step(p, t[0])
      case None => None
      case Some(q) => Run(q, t[1..])
  }

  /** A whole exchange on one connection, from acceptance to close, as the phase machine allows it. */
  predicate Conforms(t: seq<Event>) {
    Run(Accepted, t) == Some(Released)
  }

  // ---------------------------------------------------------------------------
  // Properties of every conforming exchange
  // ---------------------------------------------------------------------------

  lemma {:induction false} RunSnoc(p: Phase, t: seq<Event>, e: Event)
    ensures Run(p, t + [e]) == match Run(p, t) case None => None case Some(q) => Step(q, e)
    decreases |t|
  {
    if t == [] {
      assert (t + [e])[1..] == [];
    } else {
      assert (t + [e])[1..] == t[1..] + [e];
      match Step(p, t[0])
      case None =>
      case Some(q) => RunSnoc(q, t[1..], e);
    }
  }

  lemma {:induction false} RunAppend(p: Phase, s: seq<Event>, t: seq<Event>)
    ensures Run(p, s + t) == match Run(p, s) case None => None case Some(q) => Run(q, t)
    decreases |s|
  {
    if s != [] {
      assert (s + t)[0] == s[0];
      assert (s + t)[1..] == s[1..] + t;
      match Step(p, s[0])
      case None =>
      case Some(q) => RunAppend(q, s[1..], t);
    } else {
      assert s + t == t;
    }
  }

  /** From Finishing, the only way to end is one close. */
  lemma FinishingThenClose(t: seq<Event>)
    requires Run(Finishing, t) == Some(Released)
    ensures t == [Closed]
  {
    assert t != [] && t[0] == Closed;
    assert Run(Released, t[1..]) == Some(Released);
  }

  /**
   * How each phase is reached from acceptance: which events came first, and
   * the command and result a phase carries as functions of what was received.
   */
  lemma {:induction false} Reached(s: seq<Event>, p: Phase)
    requires Run(Accepted, s) == Some(p)
    ensures p == Accepted ==> s == []
    ensures p == Greeted ==> s == [Sent(GREETING)]
    ensures p.Resolved? || p.AwaitingOperands? || p.ResultReady? ==>
              |s| >= 3 - (if p.Resolved? then 1 else 0) && s[0] == Sent(GREETING) && s[1].Recv? && s[1].len == 1 &&
              Count(s[1].result, 1) == 1
    ensures p.Resolved? ==> |s| == 2 && p.command == ToUpper(Received(s[1].result, 1)[0])
    ensures p.AwaitingOperands? ==>
              |s| == 3 && p.command == ToUpper(Received(s[1].result, 1)[0]) &&
              Dispatch(p.command).operationRequired && s[2] == Sent(Dispatch(p.command).token)
    ensures p.ResultReady? ==>
              |s| == 4 && s[3].Recv? && s[3].len == 8 && Count(s[3].result, 8) == 8 &&
              var c := ToUpper(Received(s[1].result, 1)[0]);
              var (n1, n2) := DecodePair(Received(s[3].result, 8));
              Dispatch(c).operationRequired && s[2] == Sent(Dispatch(c).token) &&
              p.result == Compute(c, n1, n2)
    decreases |s|
  {
    if s != [] {
      var s', e := s[..|s| - 1], s[|s| - 1];
      assert s == s' + [e];
      RunSnoc(Accepted, s', e);
      var q := Run(Accepted, s').value;
      Reached(s', q);
    }
  }

  /** A close is always the last event. */
  lemma {:induction false} CloseIsLast(p: Phase, t: seq<Event>, i: nat)
    requires Run(p, t) == Some(Released)
    requires i < |t| && t[i] == Closed
    ensures i == |t| - 1
    decreases i
  {
    var q := Step(p, t[0]).value;
    if i == 0 {
      assert p == Finishing;
      FinishingThenClose(t);
    } else {
      CloseIsLast(q, t[1..], i - 1);
    }
  }

  /** After the termination token the server does nothing but close: no receive, no send. */
  lemma {:induction false} NothingAfterTermination(p: Phase, t: seq<Event>, i: nat)
    requires Run(p, t) == Some(Released)
    requires i < |t| && t[i] == Sent(TERMINE)
    ensures t[i + 1..] == [Closed]
    decreases i
  {
    var q := Step(p, t[0]).value;
    if i == 0 {
      assert GREETING != TERMINE;
      assert p.Resolved? by {
        if p.ResultReady? { assert |EncodeInt32(p.result)| != |TERMINE|; }
      }
      assert q == Finishing;
      FinishingThenClose(t[1..]);
    } else {
      NothingAfterTermination(q, t[1..], i - 1);
      assert t[i + 1..] == t[1..][i..];
    }
  }

  /** Every conforming exchange starts with the greeting; if that send fails, the connection is only closed. */
  lemma GreetingFirst(t: seq<Event>)
    requires Conforms(t)
    ensures |t| >= 2 && t[|t| - 1] == Closed
    ensures t[0] == Sent(GREETING) || t == [SendFailed(GREETING), Closed]
  {
    var s := t[..|t| - 1];
    assert t == s + [t[|t| - 1]];
    RunSnoc(Accepted, s, t[|t| - 1]);
    var q := Run(Accepted, s).value;
    assert q == Finishing;
    Reached(s, q);
    assert s != [];
    assert t[0] == s[0];
    if t[0] != Sent(GREETING) {
      assert Step(Accepted, t[0]) == Some(Finishing);
      FinishingThenClose(t[1..]);
      assert t == [t[0]] + t[1..];
    }
  }

  /**
   * A 4-byte result is sent only right after an 8-byte operand receive, and it
   * is the computation of the received command on the received operands.
   */
  lemma ResultFollowsOperands(t: seq<Event>, i: nat)
    requires Conforms(t)
    requires i < |t| && t[i].Sent? && |t[i].bytes| == 4
    ensures i == 4 && t[1].Recv? && t[3].Recv? && t[3].len == 8 && Count(t[3].result, 8) == 8
    ensures Count(t[1].result, 1) == 1
    ensures var c := ToUpper(Received(t[1].result, 1)[0]);
            var (n1, n2) := DecodePair(Received(t[3].result, 8));
            Dispatch(c).operationRequired && t[i].bytes == EncodeInt32(Compute(c, n1, n2))
  {
    RunAppend(Accepted, t[..i], t[i..]);
    assert t == t[..i] + t[i..];
    var p := Run(Accepted, t[..i]).value;
    assert t[i..][0] == t[i];
    Reached(t[..i], p);
  }

  // ---------------------------------------------------------------------------
  // The exchange as the server code performs it
  // ---------------------------------------------------------------------------

  /**
   * The body of the accept loop for one connection. `greetingSend` is what the
   * greeting's `send` returns; `commandIn` and `operandsIn` are the outcomes of
   * the two `recv` calls. The token and result sends are not checked by the
   * code, so they appear in the trace as sent.
   */
  method ServeConnection(greetingSend: int, commandIn: Delivery, operandsIn: Delivery)
    returns (trace: seq<Event>, outcome: Outcome)
    ensures Conforms(trace)
    ensures greetingSend < 0 ==> trace == [SendFailed(GREETING), Closed] && outcome == Aborted(GreetingNotSent)
    ensures greetingSend >= 0 ==> |trace| >= 3 && trace[0] == Sent(GREETING) && trace[1] == Recv(1, commandIn)
    ensures greetingSend >= 0 && Count(commandIn, 1) <= 0 ==> outcome == Aborted(NoCommand)
    ensures greetingSend >= 0 && Count(commandIn, 1) > 0 ==>
              var resolution := Dispatch(Received(commandIn, 1)[0]);
              |trace| >= 4 && trace[2] == Sent(resolution.token) &&
              (!resolution.operationRequired ==> |trace| == 4) &&
              (resolution.operationRequired ==> |trace| == (if Count(operandsIn, 8) == 8 then 6 else 5)) &&
              (!resolution.operationRequired ==> outcome == Done(None)) &&
              (resolution.operationRequired ==> trace[3] == Recv(8, operandsIn)) &&
              (resolution.operationRequired && Count(operandsIn, 8) != 8 ==> outcome == Aborted(OperandsMisframed)) &&
              (resolution.operationRequired && Count(operandsIn, 8) == 8 ==>
                 var (n1, n2) := DecodePair(Received(operandsIn, 8));
                 outcome == Done(Some(Compute(ToUpper(Received(commandIn, 1)[0]), n1, n2))) &&
                 trace[4] == Sent(EncodeInt32(outcome.answer.value)))
  {
    if greetingSend < 0 {
      Append([], SendFailed(GREETING), Accepted);
      Append([SendFailed(GREETING)], Closed, Finishing);
      trace := [SendFailed(GREETING), Closed];
      outcome := Aborted(GreetingNotSent);
      return;
    }
    trace := [Sent(GREETING)];
    // the phase the exchange is in: Run(Accepted, trace) == Some(phase) after each call
    ghost var phase := Greeted;
    assert Run(Accepted, trace) == Some(phase);

    var bytesReceived := Count(commandIn, 1);
    Append(trace, Recv(1, commandIn), phase);
    trace, phase := trace + [Recv(1, commandIn)], Step(phase, Recv(1, commandIn)).value;
    outcome := Aborted(NoCommand);
    if bytesReceived > 0 {
      var command := ToUpper(Received(commandIn, 1)[0]);
      var resolution := Dispatch(command);
      DispatchIgnoresCase(Received(commandIn, 1)[0]);
      Append(trace, Sent(resolution.token), phase);
      trace, phase := trace + [Sent(resolution.token)], Step(phase, Sent(resolution.token)).value;
      outcome := Done(None);
      if resolution.operationRequired {
        var events, answer := ServeOperands(command, operandsIn);
        RunAppend(Accepted, trace, events);
        trace, phase := trace + events, Finishing;
        outcome := if answer.Some? then Done(answer) else Aborted(OperandsMisframed);
      }
    }
    Append(trace, Closed, phase);
    trace := trace + [Closed];
  }

  /**
   * The arithmetic branch: an 8-byte receive for the operands and, when all 8
   * bytes arrive, the computation sent back as 4 bytes.
   */
  method ServeOperands(command: byte, operandsIn: Delivery) returns (events: seq<Event>, answer: Option<int32>)
    ensures Run(AwaitingOperands(command), events) == Some(Finishing)
    ensures answer.Some? <==> Count(operandsIn, 8) == 8
    ensures |events| == (if answer.Some? then 2 else 1) && events[0] == Recv(8, operandsIn)
    ensures answer.Some? ==>
              var (n1, n2) := DecodePair(Received(operandsIn, 8));
              answer.value == Compute(command, n1, n2) && events[1] == Sent(EncodeInt32(answer.value))
  {
    events := [Recv(8, operandsIn)];
    answer := None;
    if Count(operandsIn, 8) == 8 {
      var (n1, n2) := DecodePair(Received(operandsIn, 8));
      var risultato := Compute(command, n1, n2);
      var reply := Sent(EncodeInt32(risultato));
      assert Run(ResultReady(risultato), [reply]) == Some(Finishing) by {
        assert [reply][1..] == [];
      }
      events := events + [reply];
      answer := Some(risultato);
      assert events[1..] == [reply];
    } else {
      assert events[1..] == [];
    }
  }

  /** Appending an allowed event to a trace that has reached `phase` moves it one step on. */
  lemma Append(trace: seq<Event>, e: Event, phase: Phase)
    requires Run(Accepted, trace) == Some(phase)
    requires Step(phase, e).Some?
    ensures Run(Accepted, trace + [e]) == Step(phase, e)
  {
    RunSnoc(Accepted, trace, e);
  }
}
