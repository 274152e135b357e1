/**
 * The datagram client's protocol: one command datagram, the server's token,
 * and for arithmetic the operand datagram and the 4-byte result. There is no
 * greeting. Every `recvfrom` stores its sender in `sad`, the address later
 * datagrams are sent to.
 */
module UdpClient {
  import opened Basics
  import opened Wire
  import opened Commands
  import opened Transport

  /** `BUFFERSIZE`; the token is received into a buffer of one byte less, keeping room for a NUL. */
  const BUFFERSIZE: nat := 512
  const TEXT_LEN: nat := BUFFERSIZE - 1

  /** One call the client makes on its socket, with its outcome. */
  datatype Call =
    | SendTo(datagram: Outgoing, returned: int)  // `sendto`, and what it returned
    | RecvFrom(len: nat, result: Arrival)        // `recvfrom` into a `len`-byte buffer

  /** The client gives up with -1 exactly when the command send or the token receive fails. */
  predicate EarlyFailure(commandSend: int, tokenIn: Arrival) {
    commandSend != 1 || DatagramCount(tokenIn, TEXT_LEN) <= 0
  }

  /**
   * `main` once the socket exists, with `sad` set to `server`. Each socket
   * call's outcome and each terminal read is a parameter, as for the stream client.
   */
  method RunClient(server: Addr, commandInput: Option<byte>, commandSend: int, tokenIn: Arrival,
                   operandInput: Option<(int32, int32)>, operandsSend: int, resultIn: Arrival)
    returns (calls: seq<Call>, exitCode: int, answer: Option<int32>)
    ensures exitCode == (if EarlyFailure(commandSend, tokenIn) then -1 else 0)
    // the first action is the command datagram, to the server's address
    ensures |calls| >= 1 && calls[0] == SendTo(Outgoing(server, [CommandToSend(commandInput)]), commandSend)
    ensures commandSend != 1 ==> |calls| == 1
    ensures commandSend == 1 ==> |calls| >= 2 && calls[1] == RecvFrom(TEXT_LEN, tokenIn)
    // operands are sent exactly when the token names an operation and two integers were read
    ensures |calls| > 2 <==>
              !EarlyFailure(commandSend, tokenIn) &&
              ClientProceeds(DatagramBytes(tokenIn, TEXT_LEN)) && operandInput.Some?
    // ... and they go to whoever sent the token
    ensures |calls| > 2 ==>
              tokenIn.Datagram? &&
              calls[2] == SendTo(Outgoing(tokenIn.from, EncodePair(operandInput.value.0, operandInput.value.1)),
                                 operandsSend) &&
              (|calls| == 4 <==> operandsSend == 8) &&
              (|calls| == 4 ==> calls[3] == RecvFrom(4, resultIn))
    ensures |calls| <= 4
    // a result is accepted only as exactly 4 bytes, read big-endian
    ensures answer.Some? <==> |calls| == 4 && DatagramCount(resultIn, 4) == 4
    ensures answer.Some? ==> answer.value == DecodeInt32(DatagramBytes(resultIn, 4))
  {
    var sad := server;
    answer := None;
    var command := CommandToSend(commandInput);
    calls := [SendTo(Outgoing(sad, [command]), commandSend)];
    if commandSend != 1 {
      return calls, -1, answer;
    }

    calls := calls + [RecvFrom(TEXT_LEN, tokenIn)];
    var bytesReceived := DatagramCount(tokenIn, TEXT_LEN);
    if tokenIn.Datagram? {
      sad := tokenIn.from;
    }
    if bytesReceived <= 0 {
      return calls, -1, answer;
    }
    var buffer := DatagramBytes(tokenIn, TEXT_LEN);

    if ClientProceeds(buffer) {
      if operandInput.Some? {
        var operandCalls;
        operandCalls, answer, sad := SendOperands(sad, operandInput.value, operandsSend, resultIn);
        calls := calls + operandCalls;
      }
    }
    return calls, 0, answer;
  }

  /**
   * The arithmetic branch once two integers were read: one 8-byte datagram
   * with both operands to `sad`, then, if all 8 bytes went out, a 4-byte
   * `recvfrom` for the result, which stores its sender in `sad` again.
   */
  method SendOperands(sad: Addr, operands: (int32, int32), operandsSend: int, resultIn: Arrival)
    returns (calls: seq<Call>, answer: Option<int32>, sadAfter: Addr)
    ensures |calls| >= 1 && calls[0] == SendTo(Outgoing(sad, EncodePair(operands.0, operands.1)), operandsSend)
    ensures |calls| == (if operandsSend == 8 then 2 else 1)
    ensures |calls| == 2 ==> calls[1] == RecvFrom(4, resultIn)
    ensures sadAfter == if |calls| == 2 && resultIn.Datagram? then resultIn.from else sad
    ensures answer.Some? <==> operandsSend == 8 && DatagramCount(resultIn, 4) == 4
    ensures answer.Some? ==> answer.value == DecodeInt32(DatagramBytes(resultIn, 4))
  {
    var (n1, n2) := operands;
    calls := [SendTo(Outgoing(sad, EncodePair(n1, n2)), operandsSend)];
    answer, sadAfter := None, sad;
    if operandsSend == 8 {
      calls := calls + [RecvFrom(4, resultIn)];
      if resultIn.Datagram? {
        sadAfter := resultIn.from;
      }
      if DatagramCount(resultIn, 4) == 4 {
        answer := Some(DecodeInt32(DatagramBytes(resultIn, 4)));
      }
    }
  }
}
