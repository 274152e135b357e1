/**
 * The command byte and what the two ends make of it: the server upper-cases
 * the byte and maps it to an operation token; the client decides from the
 * token whether to send operands.
 */
module Commands {
  import opened Basics
  import opened Wire

  /** The four command letters, as the servers compare them after `toupper`. */
  const CMD_ADD: byte := 'A' as int as byte
  const CMD_SUB: byte := 'S' as int as byte
  const CMD_MUL: byte := 'M' as int as byte
  const CMD_DIV: byte := 'D' as int as byte

  /** The command both clients send when no command character can be read. */
  const CMD_FALLBACK: byte := 'X' as int as byte

  /**
   * The command byte a client sends: the character read from the terminal, or
   * the fallback when none could be read, which the servers treat as termination.
   */
  function CommandToSend(input: Option<byte>): (c: byte)
    ensures input.Some? ==> c == input.value
    ensures input.None? ==> c == CMD_FALLBACK && !Dispatch(c).operationRequired
  {
    if input.Some? then input.value else CMD_FALLBACK
  }

  predicate IsLower(c: byte) {
    'a' as int <= c as int <= 'z' as int
  }

  /** `toupper` in the "C" locale: only `a`..`z` change. */
  function ToUpper(c: byte): (r: byte)
    ensures !IsLower(r)
    ensures IsLower(c) ==> r as int == c as int - 0x20
    ensures !IsLower(c) ==> r == c
  {
    if IsLower(c) then c - 0x20 else c
  }

  /** What the server decides for one command: the token it sends, and `operation_required`. */
  datatype Resolution = Resolution(token: seq<byte>, operationRequired: bool)

  /** The server's if-chain on the upper-cased command; anything unrecognised means termination. */
  function Dispatch(received: byte): (r: Resolution)
    ensures r.operationRequired <==> ToUpper(received) in {CMD_ADD, CMD_SUB, CMD_MUL, CMD_DIV}
    ensures r.operationRequired <==> IsArithmeticToken(r.token)
    ensures !r.operationRequired ==> r.token == TERMINE
  {
    var command := ToUpper(received);
    if command == CMD_ADD then Resolution(ADDIZIONE, true)
    else if command == CMD_SUB then Resolution(SOTTRAZIONE, true)
    else if command == CMD_MUL then Resolution(MOLTIPLICAZIONE, true)
    else if command == CMD_DIV then Resolution(DIVISIONE, true)
    else Resolution(TERMINE, false)
  }

  /** The mapping table, in both cases of each letter. */
  lemma DispatchTable()
    ensures Dispatch('A' as int as byte) == Dispatch('a' as int as byte) == Resolution(ADDIZIONE, true)
    ensures Dispatch('S' as int as byte) == Dispatch('s' as int as byte) == Resolution(SOTTRAZIONE, true)
    ensures Dispatch('M' as int as byte) == Dispatch('m' as int as byte) == Resolution(MOLTIPLICAZIONE, true)
    ensures Dispatch('D' as int as byte) == Dispatch('d' as int as byte) == Resolution(DIVISIONE, true)
    ensures Dispatch(CMD_FALLBACK) == Resolution(TERMINE, false)
  {
  }

  /** A lower-case command selects the same token as its upper-case letter. */
  lemma DispatchIgnoresCase(c: byte)
    ensures Dispatch(c) == Dispatch(ToUpper(c))
    ensures IsLower(c) ==> Dispatch(c) == Dispatch(c - 0x20)
  {
  }

  /** Distinct commands that require arithmetic are announced by distinct tokens. */
  lemma {:induction false} DispatchDistinguishesOperations(c1: byte, c2: byte)
    requires Dispatch(c1).operationRequired
    requires Dispatch(c1).token == Dispatch(c2).token
    ensures ToUpper(c1) == ToUpper(c2)
  {
    assert ADDIZIONE[0] != DIVISIONE[0];
  }

  /** The client's test: the received buffer, read up to its first NUL, is one of the four names. */
  predicate ClientProceeds(received: seq<byte>)
    // a buffer without a NUL is compared whole
    ensures 0 !in received ==> (ClientProceeds(received) <==> IsArithmeticToken(received))
  {
    IsArithmeticToken(CString(received))
  }

  /** The client sends operands exactly when the server is waiting for them. */
  lemma ClientAgreesWithServer(c: byte)
    ensures ClientProceeds(Dispatch(c).token) <==> Dispatch(c).operationRequired
  {
    TokensHaveNoNul();
    CStringOfText(Dispatch(c).token);
  }

  /** The fallback command makes every server terminate the exchange. */
  lemma FallbackTerminates()
    ensures !Dispatch(CMD_FALLBACK).operationRequired
    ensures !ClientProceeds(Dispatch(CMD_FALLBACK).token)
  {
    ClientAgreesWithServer(CMD_FALLBACK);
  }
}
