# Remote calculator protocol, modelled in Dafny

The repository holds four C programs: a stream (TCP) client and server, and a
datagram (UDP) client and server. They all speak one small request/response
protocol:

1. over TCP only, the server greets every accepted connection with the text
   `connessione avvenuta`;
2. the client sends one command byte, read from the terminal, or `X` when no
   character can be read;
3. the server upper-cases the byte and answers with a token: `ADDIZIONE`,
   `SOTTRAZIONE`, `MOLTIPLICAZIONE`, `DIVISIONE` for `A`, `S`, `M`, `D`, and
   `TERMINE PROCESSO CLIENT` for anything else;
4. the client goes on only when the token names one of the four operations.
   It then sends both operands in one 8-byte message, each as a 32-bit integer
   in network byte order (most significant byte first);
5. the server computes on C `int`, where division by zero gives 0, and answers
   with the 4-byte result in network byte order.

This project models that protocol. Everything a socket call or the terminal
returns is a parameter, so each program becomes a deterministic function or
method of those outcomes.

| file | module | what it models |
|---|---|---|
| `basics.dfy` | `Basics` | bytes, 32-bit signed integers, `Option` |
| `wire.dfy` | `Wire` | the ASCII tokens, what `strcmp` sees in a NUL-terminated buffer, `htonl`/`ntohl`, the 8-byte operand block |
| `commands.dfy` | `Commands` | `toupper`, the server's token table, the client's fallback command and its token test |
| `arith.dfy` | `Arith` | the `switch` that computes `risultato`, C's truncating division, two's-complement wraparound |
| `transport.dfy` | `Transport` | what one `recv` or `recvfrom` returns into a buffer of a given size |
| `tcp_server.dfy` | `TcpServer` | one pass of the accept loop, checked against a state machine for a connection's life |
| `udp_server.dfy` | `UdpServer` | the receive loop as a class whose `clientAddr` every `recvfrom` overwrites, run over a finite list of datagrams |
| `tcp_client.dfy` | `TcpClient` | the stream client from the greeting to its exit code |
| `udp_client.dfy` | `UdpClient` | the datagram client from the command to its exit code |
| `sessions.dfy` | `Sessions` | each client run against its server over a transport that delivers every message whole |

Modelling decisions:

- A receive into an `n`-byte buffer returns at most `n` bytes. A longer
  message or datagram is cut to its first `n` bytes, as POSIX `recvfrom`
  does. `recv` failing is `RecvError`; a peer that has closed its end delivers
  no bytes.
- The client tests the token the way `strcmp` does: it looks at the received
  bytes up to the first NUL (`Wire.CString`). A token with no NUL is compared
  as it is (`Wire.CStringOfText`).
- Signed overflow in `+`, `-` and `*` is modelled as two's-complement
  wraparound. C leaves it undefined; `Arith.ComputeAsWritten` keeps C's rule
  and `Arith.ComputeAgreesWhereDefined` shows the two agree wherever C defines
  a result.
- The datagram server sends the result to the sender of the operand
  datagram, not to the sender of the command. The second `recvfrom`
  overwrites `client_addr` (UDP/server-udp_G3.c:113, used at :133). The
  comment at UDP/server-udp_G3.c:111 expects the operands to come from the
  same client, but nothing in the code checks it. The model follows the code: `UdpServer.ArithmeticExchange`
  states it with two possibly different peers `p` and `q`.
- In the same way, the datagram client sends its operands to whoever sent
  the token, because its `recvfrom` overwrites `sad` (UDP/client-udp_G3.c:105,
  used at :125).

## Model

| member | source | states |
|---|---|---|
| Wire.CString | TCP/client-tcp_G3.c:139-144 | the text `strcmp` compares is a prefix of the received bytes with no NUL in it, ending at the first NUL or at the end |
| Wire.Ascii | TCP/server-tcp_G3.c:105-106 | a text message goes on the wire as its `strlen` bytes, one per character, with no NUL |
| Wire.TokensHaveNoNul | TCP/server-tcp_G3.c:119-126 | the greeting and the five tokens contain no NUL byte, so `strcmp` on the receiving side reads them whole |
| Wire.EncodeInt32 | TCP/server-tcp_G3.c:153-155 | `htonl` gives 4 bytes whose big-endian value is the two's-complement bit pattern of the integer |
| Wire.DecodeInt32 | TCP/server-tcp_G3.c:137-138 | `ntohl` gives the integer whose bit pattern is the big-endian value of the 4 bytes |
| Wire.BigEndianInjective | TCP/server-tcp_G3.c:137-138 | two byte strings of one length with the same big-endian value are the same bytes |
| Wire.DecodeEncode | TCP/server-tcp_G3.c:153-155 | `ntohl(htonl(x)) == x` for every 32-bit integer |
| Wire.EncodeDecode | TCP/client-tcp_G3.c:163-165 | every 4-byte block is the encoding of the integer it decodes to |
| Wire.EncodePair | TCP/client-tcp_G3.c:152-158 | the operand message is 8 bytes, its first 4 bytes decode to `n1` and its last 4 to `n2` |
| Wire.PairRoundTrip | TCP/server-tcp_G3.c:135-138 | the server decodes exactly the client's `(n1, n2)`, in order |
| Wire.DecodePair | TCP/server-tcp_G3.c:137-138 | the two `ntohl` calls read the 8-byte block as two integers whose encodings are its first and last 4 bytes |
| Wire.PairDecodeEncode | TCP/server-tcp_G3.c:135-138 | every 8-byte block is the encoding of the pair it decodes to |
| Commands.CommandToSend | TCP/client-tcp_G3.c:121 | the command sent is the character read, or `X` when none is read, which the server answers with termination |
| Commands.ToUpper | TCP/server-tcp_G3.c:118 | `toupper` in the "C" locale maps `a`..`z` to `A`..`Z` and leaves every other byte unchanged |
| Commands.Dispatch | TCP/server-tcp_G3.c:118-126 | arithmetic is required exactly for `A`, `S`, `M`, `D` in either case, exactly then the token is one of the four operation names, and otherwise the token is the termination text |
| Commands.DispatchTable | UDP/server-udp_G3.c:93-101 | the table: each letter in both cases selects its operation name, and `X` selects termination |
| Commands.DispatchIgnoresCase | UDP/server-udp_G3.c:93 | a command byte and its upper-case form select the same token |
| Commands.DispatchDistinguishesOperations | TCP/server-tcp_G3.c:123-126 | two commands that require arithmetic and share a token are the same letter, so the token tells the client which operation runs |
| Commands.ClientProceeds | TCP/client-tcp_G3.c:143-144 | the `strcmp` chain on the NUL-terminated buffer: a buffer without a NUL names an operation exactly when it equals one of the four names |
| Commands.ClientAgreesWithServer | TCP/client-tcp_G3.c:143-144 | the client sends operands for a token exactly when the server that sent it waits for operands |
| Commands.FallbackTerminates | UDP/client-udp_G3.c:91 | the fallback command ends the exchange on both sides |
| Arith.Wrap | TCP/server-tcp_G3.c:143-145 | the 32-bit result is congruent to the mathematical one modulo 2^32 |
| Arith.WrapInRange | TCP/server-tcp_G3.c:143-145 | wraparound leaves every representable value unchanged |
| Arith.Compute | TCP/server-tcp_G3.c:139-149 | `A`, `S`, `M` give the sum, difference and product modulo 2^32, and any command outside the switch leaves the result at 0; division is stated by `Arith.ComputeQuotient` |
| Arith.TruncDiv | TCP/server-tcp_G3.c:147 | C's `/`: the remainder is smaller than the divisor in magnitude and has the sign of the dividend |
| Arith.TruncDivUnique | TCP/server-tcp_G3.c:147 | those remainder conditions single out one quotient |
| Arith.TruncDivBound | TCP/server-tcp_G3.c:147 | the quotient is no larger than the dividend in magnitude, and at most half of it when the divisor is not ±1 |
| Arith.ComputeRing | TCP/server-tcp_G3.c:142-145 | `A`, `S`, `M` give the exact sum, difference and product whenever it fits in 32 bits |
| Arith.ComputeQuotient | TCP/server-tcp_G3.c:139-149 | `D` by 0 gives 0; otherwise the truncated quotient, exact except that INT32_MIN / -1 gives INT32_MIN |
| Arith.CInt | TCP/server-tcp_G3.c:143-147 | C defines an `int` expression's value exactly when it fits in 32 bits, and then it is that value |
| Arith.ComputeAsWritten | UDP/server-udp_G3.c:117-128 | under C's rules `+`, `-`, `*` are defined exactly when the value fits in 32 bits and are then that value; division by zero is not attempted and leaves 0, as does any other command |
| Arith.DivisionUndefinedOnlyAtOverflow | TCP/server-tcp_G3.c:147 | under C's rules the division branch is undefined for exactly one operand pair, INT32_MIN and -1 |
| Arith.ComputeAgreesWhereDefined | UDP/server-udp_G3.c:120-128 | the wraparound model equals C's result wherever C defines one |
| Transport.Truncate | TCP/client-tcp_G3.c:106 | a receive into an `n`-byte buffer returns a prefix of at most `n` bytes, and all of a shorter message |
| Transport.Count | TCP/server-tcp_G3.c:115 | `recv` returns -1 exactly on error, never more than the buffer size, and otherwise the number of bytes placed |
| Transport.DatagramCount | UDP/server-udp_G3.c:90 | `recvfrom` returns -1 exactly on error, never more than the buffer size, and otherwise the number of bytes placed |
| Transport.Received | TCP/client-tcp_G3.c:106 | the bytes `recv` places are a prefix of the message, as many as it returns, and all of a message that fits |
| Transport.DatagramBytes | UDP/client-udp_G3.c:105 | the bytes `recvfrom` places are a prefix of the datagram, as many as it returns, and all of a datagram that fits |
| TcpServer.ServeConnection | TCP/server-tcp_G3.c:104-165 | one connection follows the state machine: greeting, 1-byte command, token, 8-byte operands, result, close; a failed greeting send leads straight to close; a failed or empty command receive ends with close; operands not received as exactly 8 bytes get no result; the result is the computation on the decoded operands |
| TcpServer.ServeOperands | TCP/server-tcp_G3.c:132-159 | the arithmetic branch takes the state machine from waiting for operands to finishing; a result exists exactly when the receive returns 8 bytes, and it is the computation on the decoded operands, sent as its 4-byte encoding |
| TcpServer.RunAppend | TCP/server-tcp_G3.c:104-165 | running the state machine over two traces one after the other is running it over their concatenation |
| TcpServer.Reached | TCP/server-tcp_G3.c:115-139 | each phase is reached only after its events, and the command and result a phase holds are the upper-cased received byte and the computation on the received operands |
| TcpServer.CloseIsLast | TCP/server-tcp_G3.c:165 | in a complete exchange the close is the last event |
| TcpServer.NothingAfterTermination | TCP/server-tcp_G3.c:129-165 | after the termination token the only event is the close: no receive, no send |
| TcpServer.GreetingFirst | TCP/server-tcp_G3.c:105-165 | every complete exchange starts with the greeting and ends with a close; if the greeting send fails, the close is all that follows |
| TcpServer.ResultFollowsOperands | TCP/server-tcp_G3.c:135-155 | a 4-byte message is sent only right after an 8-byte operand receive, after an arithmetic command, and it encodes the computation on those operands |
| UdpServer.HandleCommand | UDP/server-udp_G3.c:84-141 | one pass makes the operand receive exactly after a command byte that requires arithmetic, and leaves `client_addr` at the sender of the last datagram it received (a failed receive leaves it unchanged); a reply is sent exactly when the command `recvfrom` returns a byte, and it is that byte's token, sent to the command's sender; a second reply is sent exactly when the command requires arithmetic and the operand `recvfrom` returns 8 bytes, and it is the encoded computation on the decoded operands, sent to the operand datagram's sender |
| UdpServer.AddrAfter | UDP/server-udp_G3.c:90 | a `recvfrom` that returns a datagram overwrites `client_addr` with its sender; a failed one leaves it as it was |
| UdpServer.ServeAll | UDP/server-udp_G3.c:83-142 | the loop over a list of arrivals sends at most one reply per `recvfrom`; `UdpServer.RepliesGoToSenders` and the exchange lemmas state what it sends |
| UdpServer.RepliesGoToSenders | UDP/server-udp_G3.c:90-133 | the server only ever sends to an address some received datagram came from |
| UdpServer.TerminationIsSingleReply | UDP/server-udp_G3.c:105-142 | a command without arithmetic gets exactly the termination token, sent to its sender, and the next datagram is read as a command |
| UdpServer.NoCommandNoReply | UDP/server-udp_G3.c:90-140 | a failed or empty command receive sends nothing |
| UdpServer.ArithmeticExchange | UDP/server-udp_G3.c:105-133 | the token goes to the command's sender and the encoded result to the operand datagram's sender, which may be a different peer |
| UdpServer.MisframedOperandsNoResult | UDP/server-udp_G3.c:113-136 | an operand datagram shorter than 8 bytes gets no result, and the loop waits for a new command |
| UdpServer.FailedOperandsNoResult | UDP/server-udp_G3.c:113-136 | a failed operand `recvfrom` gets no result, `client_addr` stays the command's sender, and the loop waits for a new command |
| UdpServer.SequentialPeers | UDP/server-udp_G3.c:83-142 | two peers served one after the other each get their own token and result, in order |
| UdpServer.Server.Serve | UDP/server-udp_G3.c:83-142 | the loop over a list of arrivals appends exactly the replies `ServeAll` gives and leaves `client_addr` where `ServeAll` leaves it |
| UdpServer.Server.HandleNext | UDP/server-udp_G3.c:84-137 | one pass of the loop body sends `HandleCommand`'s replies, uses the receives it says, and leaves `clientAddr` at the sender of the last datagram it received |
| TcpClient.RunClient | TCP/client-tcp_G3.c:104-180 | exit code -1 exactly when the greeting receive, the command send or the token receive fails, otherwise 0; nothing is sent without a greeting; one command byte, the fallback if none was read; operands sent as one 8-byte big-endian message exactly when the token names an operation and two integers were read; a result accepted only as exactly 4 bytes, decoded big-endian |
| TcpClient.SendOperands | TCP/client-tcp_G3.c:152-172 | one 8-byte send of both operands; the result receive happens only after a whole send, and a result exists exactly when it returns 4 bytes |
| UdpClient.RunClient | UDP/client-udp_G3.c:87-147 | the first action is the command datagram to the server; exit code -1 exactly when that send or the token receive fails; operands go as one 8-byte datagram to the token's sender exactly when the token names an operation and two integers were read; a result accepted only as exactly 4 bytes |
| UdpClient.SendOperands | UDP/client-udp_G3.c:119-139 | one 8-byte datagram of both operands to `sad`; the result `recvfrom` happens only after a whole send, overwrites `sad` with its sender, and yields a result exactly when it returns 4 bytes |
| Sessions.TcpSession | TCP/client-tcp_G3.c:104-180 | against the stream server, the client exits with 0; the server receives exactly the operand bytes the client sends; for arithmetic the client receives the server's computation on its operands |
| Sessions.TcpServerSide | TCP/server-tcp_G3.c:104-165 | the stream server's trace and outcome for a client that sends one command, then its operands or nothing |
| Sessions.OneClientServed | UDP/server-udp_G3.c:83-142 | one client's command and operand datagrams get the token and, for arithmetic, the result, both sent back to that client |
| Sessions.ServeOneCommand | UDP/server-udp_G3.c:83-142 | a fresh server fed one client's datagrams sends back exactly the token and, for arithmetic, the result |
| Sessions.UdpSession | UDP/client-udp_G3.c:87-147 | against the datagram server, the client exits with 0, every reply goes back to it, and for arithmetic it receives the server's computation on its operands |

## Left out

- Socket setup and teardown (`WSAStartup`, `gethostbyname`, `socket`, `bind`, `listen`, `accept`, `connect`, `closesocket`, `ClearWinSock`) and `ErrorHandler`: they are calls into the platform with no protocol logic. A close appears in the stream server's trace as one event.
- Terminal input and output: `printf`, the server-name prompt and the port parsing are not modelled. Each `scanf` result is a parameter, with None where the read fails.
- `scanf("%d")` on text that does not fit in an `int`: C leaves it undefined, so operands are taken as 32-bit values.
- Byte stream reassembly: each `recv` returns one message, possibly cut to the buffer size. Partial reads, and messages that arrive together in one `recv`, are not modelled.
- Winsock's `recvfrom` on a datagram larger than the buffer, which fails instead of truncating: the model cuts the datagram to the buffer size, as POSIX does.
- The servers' infinite loops: the stream server is modelled one connection at a time. The datagram server is modelled over a finite list of arrivals and stops when the list runs out, possibly while waiting for operands.
- Concurrency and timing: datagrams from several peers are modelled only by the order in which they arrive.
- `toupper` on a `char` with the high bit set (a negative value, undefined in C) and locales other than "C": the model upper-cases `a`..`z` only.
- The return values of the stream server's token and result `send` and the datagram server's `sendto`: the code does not check them, so the model records those messages as sent.
- Arith.Compute: does not model C's undefined behaviour on signed overflow in `+`, `-`, `*` and INT32_MIN / -1. These results wrap modulo 2^32; `Arith.ComputeAsWritten` keeps C's rule and reports None there.
- The buffer's NUL terminator (`buffer[bytes_received] = '\0'`) is not stored. `Wire.CString` gives the text `strcmp` then reads.

## Findings

| source | as written | input that shows it | evidently intended | confidence | as-written member | corrected member |
|---|---|---|---|---|---|---|
| TCP/server-tcp_G3.c:147 and UDP/server-udp_G3.c:125 | `if (n2 != 0) { risultato = n1 / n2; }` guards only the zero divisor, but `INT_MIN / -1` overflows, which C leaves undefined (on x86 the division traps and the server process dies) | command `D`, operands -2147483648 and -1 | every operand pair gets a defined 32-bit result, with the overflowing quotient wrapping to INT32_MIN as `+`, `-` and `*` wrap | high for the undefined behaviour; not executed | Arith.DivisionUndefinedOnlyAtOverflow | Arith.ComputeQuotient |
