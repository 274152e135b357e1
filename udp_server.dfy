/**
 * The datagram server's receive loop. One socket serves every peer in turn;
 * `client_addr` lives across iterations and every `recvfrom` that gets a
 * datagram overwrites it with the sender's address, so each reply goes to
 * whoever sent the datagram received last.
 */
module UdpServer {
  import opened Basics
  import opened Wire
  import opened Commands
  import opened Arith
  import opened Transport

  // ---------------------------------------------------------------------------
  // What the loop does with a finite list of incoming datagrams
  // ---------------------------------------------------------------------------

  /** The effect of one pass of the loop: replies sent, receives consumed, and `client_addr` afterwards. */
  datatype Pass = Pass(replies: seq<Outgoing>, consumed: nat, addr: Addr)

  /** `client_addr` after a `recvfrom` that returned `a`: overwritten only when a datagram arrived. */
  function AddrAfter(addr: Addr, a: Arrival): (r: Addr)
    ensures a.Datagram? ==> r == a.from
    ensures a.RecvFromError? ==> r == addr
  {
    if a.Datagram? then a.from else addr
  }

  /**
   * One pass of the loop over the arrivals still to come, starting with
   * `client_addr == addr`. When arithmetic is required but no further datagram
   * arrives, the pass ends with the server still waiting in `recvfrom`.
   */
  function HandleCommand(addr: Addr, arrivals: seq<Arrival>): (r: Pass)
    requires arrivals != []
    ensures 1 <= r.consumed <= |arrivals| && r.consumed <= 2
    // the operand `recvfrom` happens exactly after a command byte that requires arithmetic
    ensures r.consumed ==
              if DatagramCount(arrivals[0], 1) > 0 && Dispatch(Truncate(arrivals[0].payload, 1)[0]).operationRequired &&
                 |arrivals| >= 2
              then 2 else 1
    // each `recvfrom` that gets a datagram overwrites `client_addr` with its sender
    ensures r.addr ==
              if r.consumed == 2 then AddrAfter(AddrAfter(addr, arrivals[0]), arrivals[1])
              else AddrAfter(addr, arrivals[0])
    ensures |r.replies| <= r.consumed
    ensures |r.replies| > 0 ==> arrivals[0].Datagram? && r.replies[0].to == arrivals[0].from
    ensures |r.replies| == 2 ==>
              arrivals[1].Datagram? && r.replies[1].to == arrivals[1].from && |r.replies[1].payload| == 4
    // a command byte gets its token back; a whole 8-byte operand datagram gets the result
    ensures |r.replies| > 0 <==> DatagramCount(arrivals[0], 1) > 0
    ensures |r.replies| > 0 ==> r.replies[0].payload == Dispatch(Truncate(arrivals[0].payload, 1)[0]).token
    ensures |r.replies| == 2 <==>
              DatagramCount(arrivals[0], 1) > 0 && Dispatch(Truncate(arrivals[0].payload, 1)[0]).operationRequired &&
              |arrivals| >= 2 && DatagramCount(arrivals[1], 8) == 8
    ensures |r.replies| == 2 ==>
              var operands := DecodePair(Truncate(arrivals[1].payload, 8));
              r.replies[1].payload ==
                EncodeInt32(Compute(ToUpper(Truncate(arrivals[0].payload, 1)[0]), operands.0, operands.1))
  {
    var command := arrivals[0];
    var addr1 := AddrAfter(addr, command);
    if DatagramCount(command, 1) <= 0 then Pass([], 1, addr1)
    else
      var c := ToUpper(Truncate(command.payload, 1)[0]);
      var resolution := Dispatch(c);
      var tokenReply := Outgoing(addr1, resolution.token);
      if !resolution.operationRequired || |arrivals| == 1 then Pass([tokenReply], 1, addr1)
      else
        var operands := arrivals[1];
        var addr2 := AddrAfter(addr1, operands);
        if DatagramCount(operands, 8) == 8 then
          var (n1, n2) := DecodePair(Truncate(operands.payload, 8));
          Pass([tokenReply, Outgoing(addr2, EncodeInt32(Compute(c, n1, n2)))], 2, addr2)
        else Pass([tokenReply], 2, addr2)
  }

  /** Everything the loop sends while it works through `arrivals`, and `client_addr` at the end. */
  function ServeAll(addr: Addr, arrivals: seq<Arrival>): (r: (seq<Outgoing>, Addr))
    // at most one reply per `recvfrom`
    ensures |r.0| <= |arrivals|
    decreases |arrivals|
  {
    if arrivals == [] then ([], addr)
    else
      var pass := HandleCommand(addr, arrivals);
      var rest := ServeAll(pass.addr, arrivals[pass.consumed..]);
      (pass.replies + rest.0, rest.1)
  }

  /** The addresses datagrams arrived from. */
  function Senders(arrivals: seq<Arrival>): set<Addr> {
    set j | 0 <= j < |arrivals| && arrivals[j].Datagram? :: arrivals[j].from
  }

  // ---------------------------------------------------------------------------
  // Properties of the loop
  // ---------------------------------------------------------------------------

  /** The server never sends to an address no datagram came from. */
  lemma {:induction false} RepliesGoToSenders(addr: Addr, arrivals: seq<Arrival>)
    ensures forall o | o in ServeAll(addr, arrivals).0 :: o.to in Senders(arrivals)
    decreases |arrivals|
  {
    if arrivals != [] {
      var pass := HandleCommand(addr, arrivals);
      var rest := arrivals[pass.consumed..];
      RepliesGoToSenders(pass.addr, rest);
      forall o | o in ServeAll(addr, arrivals).0
        ensures o.to in Senders(arrivals)
      {
        if o in pass.replies {
          var k :| 0 <= k < |pass.replies| && pass.replies[k] == o;
          assert arrivals[k].Datagram? && o.to == arrivals[k].from;
        } else {
          assert o in ServeAll(pass.addr, rest).0;
          assert o.to in Senders(rest);
          var j :| 0 <= j < |rest| && rest[j].Datagram? && rest[j].from == o.to;
          assert arrivals[pass.consumed + j] == rest[j];
        }
      }
    }
  }

  /**
   * A command that needs no arithmetic gets exactly one reply, the termination
   * token, sent to its sender; the next datagram is read as a new command.
   */
  lemma TerminationIsSingleReply(addr: Addr, from: Addr, c: byte, rest: seq<Arrival>)
    requires !Dispatch(c).operationRequired
    ensures ServeAll(addr, [Datagram(from, [c])] + rest).0 ==
              [Outgoing(from, TERMINE)] + ServeAll(from, rest).0
  {
    var arrivals := [Datagram(from, [c])] + rest;
    DispatchIgnoresCase(c);
    assert arrivals[1..] == rest;
  }

  /** A failed or empty command receive sends nothing, and the loop goes on waiting for a command. */
  lemma NoCommandNoReply(addr: Addr, a: Arrival, rest: seq<Arrival>)
    requires DatagramCount(a, 1) <= 0
    ensures ServeAll(addr, [a] + rest).0 == ServeAll(AddrAfter(addr, a), rest).0
  {
    assert ([a] + rest)[1..] == rest;
  }

  /**
   * An arithmetic exchange: the token goes to the sender of the command, and
   * the 4-byte big-endian result to the sender of the operand datagram, which
   * need not be the same peer.
   */
  lemma {:induction false} ArithmeticExchange(addr: Addr, p: Addr, c: byte, q: Addr, n1: int32, n2: int32,
                                               rest: seq<Arrival>)
    requires Dispatch(c).operationRequired
    ensures ServeAll(addr, [Datagram(p, [c]), Datagram(q, EncodePair(n1, n2))] + rest).0 ==
              [Outgoing(p, Dispatch(c).token), Outgoing(q, EncodeInt32(Compute(ToUpper(c), n1, n2)))] +
              ServeAll(q, rest).0
  {
    var arrivals := [Datagram(p, [c]), Datagram(q, EncodePair(n1, n2))] + rest;
    DispatchIgnoresCase(c);
    PairRoundTrip(n1, n2);
    assert arrivals[2..] == rest;
  }

  /** An operand datagram shorter than 8 bytes gets no result; the loop goes back to waiting for a command. */
  lemma MisframedOperandsNoResult(addr: Addr, p: Addr, c: byte, q: Addr, payload: seq<byte>, rest: seq<Arrival>)
    requires Dispatch(c).operationRequired
    requires |payload| < 8
    ensures ServeAll(addr, [Datagram(p, [c]), Datagram(q, payload)] + rest).0 ==
              [Outgoing(p, Dispatch(c).token)] + ServeAll(q, rest).0
  {
    var arrivals := [Datagram(p, [c]), Datagram(q, payload)] + rest;
    DispatchIgnoresCase(c);
    assert arrivals[2..] == rest;
  }

  /** A failed operand receive gets no result either, and the loop goes back to waiting for a command. */
  lemma FailedOperandsNoResult(addr: Addr, p: Addr, c: byte, rest: seq<Arrival>)
    requires Dispatch(c).operationRequired
    ensures ServeAll(addr, [Datagram(p, [c]), RecvFromError] + rest).0 ==
              [Outgoing(p, Dispatch(c).token)] + ServeAll(p, rest).0
  {
    var arrivals := [Datagram(p, [c]), RecvFromError] + rest;
    DispatchIgnoresCase(c);
    assert arrivals[2..] == rest;
  }

  /** A complete arithmetic exchange as a peer sends it: the command datagram, then the operand datagram. */
  function Exchange(peer: Addr, c: byte, n1: int32, n2: int32): seq<Arrival> {
    [Datagram(peer, [c]), Datagram(peer, EncodePair(n1, n2))]
  }

  /** The replies that peer should get: the operation's token and the encoded result. */
  function ExchangeReplies(peer: Addr, c: byte, n1: int32, n2: int32): seq<Outgoing> {
    [Outgoing(peer, Dispatch(c).token), Outgoing(peer, EncodeInt32(Compute(ToUpper(c), n1, n2)))]
  }

  /** Two peers served one after the other each get their own token and result. */
  lemma {:induction false} SequentialPeers(addr: Addr, p: Addr, c1: byte, n1: int32, n2: int32,
                                           q: Addr, c2: byte, m1: int32, m2: int32)
    requires Dispatch(c1).operationRequired && Dispatch(c2).operationRequired
    ensures ServeAll(addr, Exchange(p, c1, n1, n2) + Exchange(q, c2, m1, m2)).0 ==
              ExchangeReplies(p, c1, n1, n2) + ExchangeReplies(q, c2, m1, m2)
  {
    var second := Exchange(q, c2, m1, m2);
    assert ServeAll(p, second).0 == ExchangeReplies(q, c2, m1, m2) by {
      ArithmeticExchange(p, q, c2, q, m1, m2, []);
      assert second + [] == second;
    }
    ArithmeticExchange(addr, p, c1, p, n1, n2, second);
  }

  /** ServeAll on a non-empty list: the pass `HandleCommand` makes, then the rest of the list. */
  lemma ServeAllStep(addr: Addr, arrivals: seq<Arrival>, pass: Pass)
    requires arrivals != [] && pass == HandleCommand(addr, arrivals)
    ensures pass.consumed <= |arrivals|
    ensures ServeAll(addr, arrivals).0 == pass.replies + ServeAll(pass.addr, arrivals[pass.consumed..]).0
    ensures ServeAll(addr, arrivals).1 == ServeAll(pass.addr, arrivals[pass.consumed..]).1
  {
  }

  /**
   * One pass of the loop keeps "sent so far, then what the rest of the list
   * will send" equal to everything the whole list sends.
   */
  lemma PassKeepsTotal(all: seq<Outgoing>, before: seq<Outgoing>, addr: Addr, arrivals: seq<Arrival>, i: nat,
                       pass: Pass, after: seq<Outgoing>, next: nat, addrAfter: Addr)
    requires i < |arrivals| && pass == HandleCommand(addr, arrivals[i..])
    requires all == before + ServeAll(addr, arrivals[i..]).0
    requires after == before + pass.replies && next == i + pass.consumed && addrAfter == pass.addr
    ensures next <= |arrivals|
    ensures all == after + ServeAll(addrAfter, arrivals[next..]).0
    ensures ServeAll(addr, arrivals[i..]).1 == ServeAll(addrAfter, arrivals[next..]).1
  {
    ServeAllStep(addr, arrivals[i..], pass);
    assert arrivals[i..][pass.consumed..] == arrivals[next..];
    var rest := ServeAll(addrAfter, arrivals[next..]).0;
    assert before + (pass.replies + rest) == after + rest;
  }

  // ---------------------------------------------------------------------------
  // The loop as the server code runs it
  // ---------------------------------------------------------------------------

  class Server {
    /** `client_addr`: the sender of the last datagram received. */
    var clientAddr: Addr
    /** Every datagram handed to `sendto`, in order. */
    var sent: seq<Outgoing>

    constructor (initial: Addr)
      ensures clientAddr == initial && sent == []
    {
      clientAddr := initial;
      sent := [];
    }

    /**
     * The `while(1)` loop run over a finite list of `recvfrom` outcomes. It stops
     * when the list is used up, possibly while waiting for operands.
     */
    method Serve(arrivals: seq<Arrival>)
      modifies this
      ensures sent == old(sent) + ServeAll(old(clientAddr), arrivals).0
      ensures clientAddr == ServeAll(old(clientAddr), arrivals).1
    {
      var i := 0;
      while i < |arrivals|
        invariant 0 <= i <= |arrivals|
        invariant old(sent) + ServeAll(old(clientAddr), arrivals).0 == sent + ServeAll(clientAddr, arrivals[i..]).0
        invariant ServeAll(old(clientAddr), arrivals).1 == ServeAll(clientAddr, arrivals[i..]).1
        decreases |arrivals| - i
      {
        ghost var before, addr, start := sent, clientAddr, i;
        i := HandleNext(arrivals, i);
        PassKeepsTotal(old(sent) + ServeAll(old(clientAddr), arrivals).0, before, addr, arrivals, start,
                       HandleCommand(addr, arrivals[start..]), sent, i, clientAddr);
      }
    }

    /**
     * One pass of the loop body: receive a command at `arrivals[i]`, reply with
     * the token, and for arithmetic receive the operands and reply with the result.
     */
    method HandleNext(arrivals: seq<Arrival>, i: nat) returns (next: nat)
      requires i < |arrivals|
      modifies this
      ensures var pass := HandleCommand(old(clientAddr), arrivals[i..]);
              sent == old(sent) + pass.replies && next == i + pass.consumed && clientAddr == pass.addr
      // `client_addr` is the sender of the last datagram this pass received
      ensures clientAddr == if next == i + 2 then AddrAfter(AddrAfter(old(clientAddr), arrivals[i]), arrivals[i + 1])
                            else AddrAfter(old(clientAddr), arrivals[i])
    {
      next := i;
      var command := arrivals[next];
      next := next + 1;
      var bytesReceived := DatagramCount(command, 1);
      if command.Datagram? {
        clientAddr := command.from;
      }
      if bytesReceived > 0 {
        var c := ToUpper(Truncate(command.payload, 1)[0]);
        var resolution := Dispatch(c);
        sent := sent + [Outgoing(clientAddr, resolution.token)];
        // with no datagram left the server stays blocked in `recvfrom` for the operands
        if resolution.operationRequired && next < |arrivals| {
          var operands := arrivals[next];
          next := next + 1;
          if operands.Datagram? {
            clientAddr := operands.from;
          }
          if DatagramCount(operands, 8) == 8 {
            var (n1, n2) := DecodePair(Truncate(operands.payload, 8));
            var risultato := Compute(c, n1, n2);
            sent := sent + [Outgoing(clientAddr, EncodeInt32(risultato))];
          }
        }
      }
      assert arrivals[i..][0] == arrivals[i];
      assert next > i + 1 ==> arrivals[i..][1] == arrivals[i + 1];
    }
  }
}
