/**
 * A client and a server run against each other over a transport that delivers
 * each message whole, by itself, to the matching receive. These compositions
 * show the two halves of the protocol fit: the client gets the server's
 * computation on exactly the operands it sent.
 */
module Sessions {
  import opened Basics
  import opened Wire
  import opened Commands
  import opened Arith
  import opened Transport
  import TcpServer
  import TcpClient
  import UdpServer
  import UdpClient

  /**
   * One connection: the server's greeting, the client's command, the token,
   * and for arithmetic the operands and the result. The operand bytes the
   * server reads are fixed before it runs (it reads nothing, a closed
   * connection, when the client sends none), and the ensures show they are
   * exactly what the client sends.
   */
  method TcpSession(commandInput: Option<byte>, operandInput: Option<(int32, int32)>)
    returns (serverTrace: seq<TcpServer.Event>, outcome: TcpServer.Outcome,
             clientCalls: seq<TcpClient.Call>, exitCode: int, answer: Option<int32>)
    ensures TcpServer.Conforms(serverTrace)
    ensures exitCode == 0
    // the operands cross the connection unchanged, and only when both sides expect them
    ensures |clientCalls| > 3 <==> Dispatch(CommandToSend(commandInput)).operationRequired && operandInput.Some?
    ensures |clientCalls| > 3 ==>
              |serverTrace| == 6 && clientCalls[3].Send? &&
              serverTrace[3] == TcpServer.Recv(8, Delivered(clientCalls[3].bytes))
    // arithmetic: the client gets the server's computation on its operands
    ensures Dispatch(CommandToSend(commandInput)).operationRequired && operandInput.Some? ==>
              var (n1, n2) := operandInput.value;
              answer == Some(Compute(ToUpper(CommandToSend(commandInput)), n1, n2)) &&
              outcome == TcpServer.Done(answer)
    // arithmetic without operands: the client closes and the server sends no result
    ensures Dispatch(CommandToSend(commandInput)).operationRequired && operandInput.None? ==>
              answer == None && outcome == TcpServer.Aborted(TcpServer.OperandsMisframed)
    // termination: one token, no operands, no result
    ensures !Dispatch(CommandToSend(commandInput)).operationRequired ==>
              answer == None && outcome == TcpServer.Done(None) && |clientCalls| == 3 &&
              serverTrace == [TcpServer.Sent(GREETING), TcpServer.Recv(1, Delivered([CommandToSend(commandInput)])),
                              TcpServer.Sent(TERMINE), TcpServer.Closed]
  {
    var c := CommandToSend(commandInput);
    serverTrace, outcome := TcpServerSide(c, operandInput);
    var resultIn := Delivered([]);
    if |serverTrace| == 6 {
      resultIn := Delivered(serverTrace[4].bytes);
    }
    StreamTextArrivesWhole(c);
    clientCalls, exitCode, answer :=
      TcpClient.RunClient(Delivered(serverTrace[0].bytes), commandInput, 1, Delivered(serverTrace[2].bytes),
                          operandInput, 8, resultIn);
    if |serverTrace| == 6 {
      DecodeEncode(outcome.answer.value);
    }
  }

  /**
   * The server's side of a connection with a client that sends command `c`,
   * then the operands if it has them, or else closes its end.
   */
  method TcpServerSide(c: byte, operandInput: Option<(int32, int32)>)
    returns (trace: seq<TcpServer.Event>, outcome: TcpServer.Outcome)
    ensures TcpServer.Conforms(trace)
    ensures |trace| >= 4 && trace[0] == TcpServer.Sent(GREETING) && trace[2] == TcpServer.Sent(Dispatch(c).token)
    ensures Dispatch(c).operationRequired && operandInput.Some? ==>
              var (n1, n2) := operandInput.value;
              |trace| == 6 && trace[3] == TcpServer.Recv(8, Delivered(EncodePair(n1, n2))) &&
              outcome == TcpServer.Done(Some(Compute(ToUpper(c), n1, n2))) &&
              trace[4] == TcpServer.Sent(EncodeInt32(outcome.answer.value))
    ensures Dispatch(c).operationRequired && operandInput.None? ==>
              |trace| == 5 && outcome == TcpServer.Aborted(TcpServer.OperandsMisframed)
    ensures !Dispatch(c).operationRequired ==>
              outcome == TcpServer.Done(None) &&
              trace == [TcpServer.Sent(GREETING), TcpServer.Recv(1, Delivered([c])), TcpServer.Sent(TERMINE), TcpServer.Closed]
  {
    var expectsOperands := Dispatch(c).operationRequired && operandInput.Some?;
    var operandBytes := if expectsOperands then EncodePair(operandInput.value.0, operandInput.value.1) else [];
    trace, outcome := TcpServer.ServeConnection(|GREETING|, Delivered([c]), Delivered(operandBytes));
    if expectsOperands {
      PairRoundTrip(operandInput.value.0, operandInput.value.1);
    } else if !Dispatch(c).operationRequired {
      TcpServer.GreetingFirst(trace);
    }
  }

  /**
   * The greeting and a token each fit the client's text buffer, so one
   * receive reads them whole, and the client recognises the token as an
   * operation exactly when the server expects operands.
   */
  lemma StreamTextArrivesWhole(c: byte)
    ensures Count(Delivered(GREETING), TcpClient.TEXT_LEN) > 0
    ensures Count(Delivered(Dispatch(c).token), TcpClient.TEXT_LEN) > 0
    ensures ClientProceeds(Received(Delivered(Dispatch(c).token), TcpClient.TEXT_LEN)) <==> Dispatch(c).operationRequired
  {
    ClientAgreesWithServer(c);
  }

  /** The same for a token datagram from `from`. */
  lemma DatagramTextArrivesWhole(c: byte, from: Addr)
    ensures DatagramCount(Datagram(from, Dispatch(c).token), UdpClient.TEXT_LEN) > 0
    ensures ClientProceeds(DatagramBytes(Datagram(from, Dispatch(c).token), UdpClient.TEXT_LEN)) <==>
              Dispatch(c).operationRequired
  {
    ClientAgreesWithServer(c);
  }

  /**
   * One command to a fresh datagram server, from a client at `me` to a server
   * at `srv`. Each datagram reaches its destination whole, and the server's
   * replies come from `srv`.
   */
  method UdpSession(me: Addr, srv: Addr, commandInput: Option<byte>, operandInput: Option<(int32, int32)>)
    returns (server: UdpServer.Server, clientCalls: seq<UdpClient.Call>, exitCode: int, answer: Option<int32>)
    ensures fresh(server)
    ensures exitCode == 0
    ensures |clientCalls| > 2 <==> Dispatch(CommandToSend(commandInput)).operationRequired && operandInput.Some?
    // the server's replies all go back to the client: the token, and for arithmetic the result
    ensures server.sent == ExpectedReplies(me, CommandToSend(commandInput), operandInput)
    // for arithmetic the client gets the server's computation on its operands
    ensures answer == if Dispatch(CommandToSend(commandInput)).operationRequired && operandInput.Some?
                      then Some(Compute(ToUpper(CommandToSend(commandInput)), operandInput.value.0, operandInput.value.1))
                      else None
  {
    var c := CommandToSend(commandInput);
    server := ServeOneCommand(me, c, operandInput);
    var token := server.sent[0].payload;
    var resultIn := if |server.sent| == 2 then Datagram(srv, server.sent[1].payload) else RecvFromError;
    DatagramTextArrivesWhole(c, srv);
    clientCalls, exitCode, answer :=
      UdpClient.RunClient(srv, commandInput, 1, Datagram(srv, token), operandInput, 8, resultIn);
    if |server.sent| == 2 {
      var (n1, n2) := operandInput.value;
      DecodeEncode(Compute(ToUpper(c), n1, n2));
    }
  }

  /** The datagrams a client at `me` sends for command `c`: the command, then the operands if it has them. */
  function ClientDatagrams(me: Addr, c: byte, operandInput: Option<(int32, int32)>): seq<Arrival> {
    if Dispatch(c).operationRequired && operandInput.Some? then
      [Datagram(me, [c]), Datagram(me, EncodePair(operandInput.value.0, operandInput.value.1))]
    else [Datagram(me, [c])]
  }

  /** What a server whose `client_addr` is `me` replies to those datagrams. */
  function ExpectedReplies(me: Addr, c: byte, operandInput: Option<(int32, int32)>): seq<Outgoing> {
    if Dispatch(c).operationRequired && operandInput.Some? then
      [Outgoing(me, Dispatch(c).token),
       Outgoing(me, EncodeInt32(Compute(ToUpper(c), operandInput.value.0, operandInput.value.1)))]
    else [Outgoing(me, Dispatch(c).token)]
  }

  /** The datagram server's loop replies to one client's datagrams with the token and, for arithmetic, the result. */
  lemma {:induction false} OneClientServed(me: Addr, c: byte, operandInput: Option<(int32, int32)>)
    ensures UdpServer.ServeAll(me, ClientDatagrams(me, c, operandInput)).0 == ExpectedReplies(me, c, operandInput)
  {
    var arrivals := ClientDatagrams(me, c, operandInput);
    if Dispatch(c).operationRequired && operandInput.Some? {
      var (n1, n2) := operandInput.value;
      UdpServer.ArithmeticExchange(me, me, c, me, n1, n2, []);
      assert arrivals == [Datagram(me, [c]), Datagram(me, EncodePair(n1, n2))] + [];
    } else if Dispatch(c).operationRequired {
      assert arrivals[1..] == [];
    } else {
      UdpServer.TerminationIsSingleReply(me, me, c, []);
      assert arrivals == [Datagram(me, [c])] + [];
    }
  }

  /** The server's side of a session: a fresh server receives the client's datagrams. */
  method ServeOneCommand(me: Addr, c: byte, operandInput: Option<(int32, int32)>) returns (server: UdpServer.Server)
    ensures fresh(server)
    ensures server.sent == ExpectedReplies(me, c, operandInput)
  {
    server := new UdpServer.Server(me);
    server.Serve(ClientDatagrams(me, c, operandInput));
    OneClientServed(me, c, operandInput);
  }
}
