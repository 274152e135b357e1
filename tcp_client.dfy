/**
 * The stream client's protocol, from the greeting receive to the exit code:
 * greeting, one command byte, the server's token, and for arithmetic the
 * operand pair and the 4-byte result.
 */
module TcpClient {
  import opened Basics
  import opened Wire
  import opened Commands
  import opened Transport

  /** `BUFFERSIZE`; the client receives text into a buffer of one byte less, keeping room for a NUL. */
  const BUFFERSIZE: nat := 512
  const TEXT_LEN: nat := BUFFERSIZE - 1

  /** One call the client makes on its connected socket, with its outcome. */
  datatype Call =
    | Recv(len: nat, result: Delivery)       // `recv` into a `len`-byte buffer
    | Send(bytes: seq<byte>, returned: int)  // `send` of these bytes, and what it returned

  /** The client gives up with -1 exactly when one of its first three calls fails. */
  predicate EarlyFailure(greetingIn: Delivery, commandSend: int, tokenIn: Delivery) {
    Count(greetingIn, TEXT_LEN) <= 0 || commandSend != 1 || Count(tokenIn, TEXT_LEN) <= 0
  }

  /**
   * `main` after `connect`. Each socket call's outcome and each terminal read
   * is a parameter: `commandInput` is None when `scanf` reads no character,
   * `operandInput` is None when it does not read two integers.
   */
  method RunClient(greetingIn: Delivery, commandInput: Option<byte>, commandSend: int, tokenIn: Delivery,
                   operandInput: Option<(int32, int32)>, operandsSend: int, resultIn: Delivery)
    returns (calls: seq<Call>, exitCode: int, answer: Option<int32>)
    // exit code: -1 for the early failures, 0 otherwise
    ensures exitCode == (if EarlyFailure(greetingIn, commandSend, tokenIn) then -1 else 0)
    // no greeting: nothing is sent
    ensures Count(greetingIn, TEXT_LEN) <= 0 ==> calls == [Recv(TEXT_LEN, greetingIn)]
    // otherwise exactly one command byte goes out, the fallback when no character was read
    ensures Count(greetingIn, TEXT_LEN) > 0 ==>
              |calls| >= 2 && calls[0] == Recv(TEXT_LEN, greetingIn) &&
              calls[1] == Send([CommandToSend(commandInput)], commandSend)
    ensures Count(greetingIn, TEXT_LEN) > 0 && commandSend != 1 ==> |calls| == 2
    ensures Count(greetingIn, TEXT_LEN) > 0 && commandSend == 1 ==> |calls| >= 3 && calls[2] == Recv(TEXT_LEN, tokenIn)
    // operands are sent exactly when the token names an operation and two integers were read
    ensures |calls| > 3 <==>
              !EarlyFailure(greetingIn, commandSend, tokenIn) &&
              ClientProceeds(Received(tokenIn, TEXT_LEN)) && operandInput.Some?
    ensures |calls| > 3 ==>
              calls[3] == Send(EncodePair(operandInput.value.0, operandInput.value.1), operandsSend) &&
              (|calls| == 5 <==> operandsSend == 8) &&
              (|calls| == 5 ==> calls[4] == Recv(4, resultIn))
    ensures |calls| <= 5
    // a result is accepted only as exactly 4 bytes, read big-endian
    ensures answer.Some? <==> |calls| == 5 && Count(resultIn, 4) == 4
    ensures answer.Some? ==> answer.value == DecodeInt32(Received(resultIn, 4))
  {
    answer := None;
    calls := [Recv(TEXT_LEN, greetingIn)];
    var bytesReceived := Count(greetingIn, TEXT_LEN);
    if bytesReceived <= 0 {
      return calls, -1, answer;
    }

    var command := CommandToSend(commandInput);
    calls := calls + [Send([command], commandSend)];
    if commandSend != 1 {
      return calls, -1, answer;
    }

    calls := calls + [Recv(TEXT_LEN, tokenIn)];
    bytesReceived := Count(tokenIn, TEXT_LEN);
    if bytesReceived <= 0 {
      return calls, -1, answer;
    }
    var buffer := Received(tokenIn, TEXT_LEN);

    if ClientProceeds(buffer) {
      if operandInput.Some? {
        var operandCalls;
        operandCalls, answer := SendOperands(operandInput.value, operandsSend, resultIn);
        calls := calls + operandCalls;
      }
    }
    return calls, 0, answer;
  }

  /**
   * The arithmetic branch once two integers were read: one 8-byte message with
   * both operands, then, if all 8 bytes went out, a 4-byte receive for the result.
   */
  method SendOperands(operands: (int32, int32), operandsSend: int, resultIn: Delivery)
    returns (calls: seq<Call>, answer: Option<int32>)
    ensures |calls| >= 1 && calls[0] == Send(EncodePair(operands.0, operands.1), operandsSend)
    ensures |calls| == (if operandsSend == 8 then 2 else 1)
    ensures |calls| == 2 ==> calls[1] == Recv(4, resultIn)
    ensures answer.Some? <==> operandsSend == 8 && Count(resultIn, 4) == 4
    ensures answer.Some? ==> answer.value == DecodeInt32(Received(resultIn, 4))
  {
    var (n1, n2) := operands;
    calls := [Send(EncodePair(n1, n2), operandsSend)];
    answer := None;
    if operandsSend == 8 {
      calls := calls + [Recv(4, resultIn)];
      if Count(resultIn, 4) == 4 {
        answer := Some(DecodeInt32(Received(resultIn, 4)));
      }
    }
  }
}
