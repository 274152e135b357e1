/**
 * The arithmetic both servers perform on the decoded operands: the `switch`
 * on the upper-cased command that sets `risultato`, which starts at 0.
 */
module Arith {
  import opened Basics
  import opened Commands

  function Abs(x: int): nat {
    if x < 0 then -x else x
  }

  predicate InInt32(x: int) {
    INT32_MIN as int <= x <= INT32_MAX as int
  }

  // ---------------------------------------------------------------------------
  // Two's-complement wraparound
  // ---------------------------------------------------------------------------

  /** The 32-bit two's-complement value of `x`: the `int32` congruent to `x` modulo 2^32. */
  function Wrap(x: int): (r: int32)
    ensures r as int % TWO32 == x % TWO32
  {
    var m := x % TWO32;
    if m < 0x8000_0000 then m as int32 else (m - TWO32) as int32
  }

  /** Two `int32` values that agree modulo 2^32 are equal. */
  lemma Int32Congruent(a: int32, b: int32)
    requires a as int % TWO32 == b as int % TWO32
    ensures a == b
  {
    var d := a as int - b as int;
    assert -TWO32 < d < TWO32;
    assert d % TWO32 == 0 by {
      assert a as int == (a as int / TWO32) * TWO32 + a as int % TWO32;
      assert b as int == (b as int / TWO32) * TWO32 + b as int % TWO32;
      assert d == (a as int / TWO32 - b as int / TWO32) * TWO32;
    }
  }

  /** Wraparound leaves every representable value unchanged. */
  lemma WrapInRange(x: int)
    requires InInt32(x)
    ensures Wrap(x) as int == x
  {
    Int32Congruent(Wrap(x), x as int32);
  }

  // ---------------------------------------------------------------------------
  // C integer division
  // ---------------------------------------------------------------------------

  lemma AbsMul(x: int, y: int)
    ensures Abs(x * y) == Abs(x) * Abs(y)
  {
    if x < 0 && y < 0 { assert x * y == (-x) * (-y); }
    else if x < 0 { assert x * y == -((-x) * y); }
    else if y < 0 { assert x * y == -(x * (-y)); }
  }

  lemma MulAtLeast(x: nat, y: nat)
    requires x >= 1
    ensures x * y >= y
  {
    assert x * y == (x - 1) * y + y;
  }

  /** Quotient and remainder of |a| by |b|, given the signs of `a` and `b`. */
  lemma {:induction false} TruncDivFacts(a: int, b: int)
    requires b != 0
    ensures var m := Abs(a) / Abs(b);
            var q := if (a < 0) == (b < 0) then m else -m;
            Abs(a - q * b) < Abs(b) && (a - q * b == 0 || (a - q * b < 0 <==> a < 0))
  {
    var aa: int, bb: int := Abs(a), Abs(b);
    var m: int, rr: int := aa / bb, aa % bb;
    assert aa == m * bb + rr && 0 <= rr < bb;
    var q := if (a < 0) == (b < 0) then m else -m;
    if a >= 0 && b > 0 {
      assert q * b == m * bb;
    } else if a >= 0 {
      assert b == -bb;
      assert q * b == m * bb;
    } else if b > 0 {
      assert a == -aa;
      assert q * b == -(m * bb);
    } else {
      assert a == -aa && b == -bb;
      assert q * b == -(m * bb);
    }
  }

  /**
   * The mathematical value of C's `a / b`: the quotient with any fractional part
   * discarded (section 6.5.5 of ISO/IEC 9899:2011), so the remainder
   * `a - q * b` is smaller than `b` in magnitude and has the sign of `a`.
   */
  function TruncDiv(a: int, b: int): (q: int)
    requires b != 0
    ensures Abs(a - q * b) < Abs(b)
    ensures a - q * b == 0 || (a - q * b < 0 <==> a < 0)
  {
    TruncDivFacts(a, b);
    if (a < 0) == (b < 0) then Abs(a) / Abs(b) else -(Abs(a) / Abs(b))
  }

  /** Two numbers on the same side of zero as `a`, each smaller than `m` in magnitude, differ by less than `m`. */
  lemma SameSideClose(a: int, x: int, y: int, m: int)
    requires Abs(x) < m && Abs(y) < m
    requires x == 0 || (x < 0 <==> a < 0)
    requires y == 0 || (y < 0 <==> a < 0)
    ensures Abs(x - y) < m
  {
  }

  lemma MulSub(q: int, p: int, b: int)
    ensures (q - p) * b == q * b - p * b
  {
  }

  /** The remainder conditions single out one quotient: the one TruncDiv gives. */
  lemma {:induction false} TruncDivUnique(a: int, b: int, q: int)
    requires b != 0
    requires Abs(a - q * b) < Abs(b)
    requires a - q * b == 0 || (a - q * b < 0 <==> a < 0)
    ensures q == TruncDiv(a, b)
  {
    var p := TruncDiv(a, b);
    var pb, qb := p * b, q * b;
    var rp, rq := a - pb, a - qb;
    // both remainders lie on the side of a, so they differ by less than |b|
    SameSideClose(a, rp, rq, Abs(b));
    var d := q - p;
    MulSub(q, p, b);
    var db := d * b;
    assert rp - rq == db;
    if d != 0 {
      AbsMul(d, b);
      MulAtLeast(Abs(d), Abs(b));
    }
  }

  /** The quotient is never larger in magnitude than the dividend, and at most half of it when |b| > 1. */
  lemma {:induction false} TruncDivBound(a: int, b: int)
    requires b != 0
    ensures Abs(TruncDiv(a, b)) <= Abs(a)
    ensures Abs(b) > 1 ==> 2 * Abs(TruncDiv(a, b)) <= Abs(a)
  {
    var aa, bb := Abs(a), Abs(b);
    var m := aa / bb;
    assert Abs(TruncDiv(a, b)) == m;
    assert aa == m * bb + aa % bb;
    MulAtLeast(bb, m);
    assert m * bb == bb * m;
    if bb > 1 {
      MulAtLeast(bb - 1, m);
      assert bb * m == (bb - 1) * m + m;
    }
  }

  // ---------------------------------------------------------------------------
  // The arithmetic engine
  // ---------------------------------------------------------------------------

  /**
   * `risultato` after the server's `switch (command)`: `+`, `-` and `*` on C
   * `int`, and `/` only when the divisor is not zero. This model reduces every
   * result modulo 2^32, including the one quotient C leaves undefined,
   * INT32_MIN / -1.
   */
  function Compute(command: byte, n1: int32, n2: int32): (r: int32)
    ensures command == CMD_ADD ==> r as int % TWO32 == (n1 as int + n2 as int) % TWO32
    ensures command == CMD_SUB ==> r as int % TWO32 == (n1 as int - n2 as int) % TWO32
    ensures command == CMD_MUL ==> r as int % TWO32 == (n1 as int * n2 as int) % TWO32
    // any other command byte leaves `risultato` at its initial 0
    ensures command !in {CMD_ADD, CMD_SUB, CMD_MUL, CMD_DIV} ==> r == 0
  {
    if command == CMD_ADD then Wrap(n1 as int + n2 as int)
    else if command == CMD_SUB then Wrap(n1 as int - n2 as int)
    else if command == CMD_MUL then Wrap(n1 as int * n2 as int)
    else if command == CMD_DIV then (if n2 != 0 then Wrap(TruncDiv(n1 as int, n2 as int)) else 0)
    else 0
  }

  /** A, S and M give the exact sum, difference and product whenever it fits in 32 bits. */
  lemma ComputeRing(n1: int32, n2: int32)
    ensures InInt32(n1 as int + n2 as int) ==> Compute(CMD_ADD, n1, n2) as int == n1 as int + n2 as int
    ensures InInt32(n1 as int - n2 as int) ==> Compute(CMD_SUB, n1, n2) as int == n1 as int - n2 as int
    ensures InInt32(n1 as int * n2 as int) ==> Compute(CMD_MUL, n1, n2) as int == n1 as int * n2 as int
  {
    if InInt32(n1 as int + n2 as int) { WrapInRange(n1 as int + n2 as int); }
    if InInt32(n1 as int - n2 as int) { WrapInRange(n1 as int - n2 as int); }
    if InInt32(n1 as int * n2 as int) { WrapInRange(n1 as int * n2 as int); }
  }

  /** Division by zero answers 0; otherwise the truncated quotient, exact except for INT32_MIN / -1. */
  lemma {:induction false} ComputeQuotient(n1: int32, n2: int32)
    ensures n2 == 0 ==> Compute(CMD_DIV, n1, n2) == 0
    ensures n2 != 0 && !(n1 == INT32_MIN && n2 == -1) ==>
              Compute(CMD_DIV, n1, n2) as int == TruncDiv(n1 as int, n2 as int)
    ensures n1 == INT32_MIN && n2 == -1 ==> Compute(CMD_DIV, n1, n2) == INT32_MIN
  {
    if n2 != 0 {
      var q := TruncDiv(n1 as int, n2 as int);
      if n1 == INT32_MIN && n2 == -1 {
        TruncDivUnique(n1 as int, n2 as int, 0x8000_0000);
      } else {
        TruncDivBound(n1 as int, n2 as int);
        if n1 == INT32_MIN && n2 == 1 {
          TruncDivUnique(n1 as int, n2 as int, n1 as int);
        }
        assert InInt32(q);
        WrapInRange(q);
      }
    }
  }

  // ---------------------------------------------------------------------------
  // The switch as C defines it
  // ---------------------------------------------------------------------------

  /** C's value for an `int` expression whose mathematical value is `x`; None when C leaves it undefined. */
  function CInt(x: int): (r: Option<int32>)
    ensures r.Some? <==> InInt32(x)
    ensures r.Some? ==> r.value as int == x
  {
    if InInt32(x) then Some(x as int32) else None
  }

  /** The server's `switch (command)` under C's rules: None where the expression overflows. */
  function ComputeAsWritten(command: byte, n1: int32, n2: int32): (r: Option<int32>)
    // `+`, `-` and `*` are defined exactly when the value fits in 32 bits, and are then that value
    ensures command == CMD_ADD ==> (r.Some? <==> InInt32(n1 as int + n2 as int))
    ensures command == CMD_SUB ==> (r.Some? <==> InInt32(n1 as int - n2 as int))
    ensures command == CMD_MUL ==> (r.Some? <==> InInt32(n1 as int * n2 as int))
    ensures command == CMD_ADD && r.Some? ==> r.value as int == n1 as int + n2 as int
    ensures command == CMD_SUB && r.Some? ==> r.value as int == n1 as int - n2 as int
    ensures command == CMD_MUL && r.Some? ==> r.value as int == n1 as int * n2 as int
    // no division by zero is attempted, and other commands keep the initial 0
    ensures command == CMD_DIV && n2 == 0 ==> r == Some(0)
    ensures command !in {CMD_ADD, CMD_SUB, CMD_MUL, CMD_DIV} ==> r == Some(0)
  {
    if command == CMD_ADD then CInt(n1 as int + n2 as int)
    else if command == CMD_SUB then CInt(n1 as int - n2 as int)
    else if command == CMD_MUL then CInt(n1 as int * n2 as int)
    else if command == CMD_DIV then (if n2 != 0 then CInt(TruncDiv(n1 as int, n2 as int)) else Some(0))
    else Some(0)
  }

  /** Under C's rules the division branch is undefined for exactly one pair of operands. */
  lemma {:induction false} DivisionUndefinedOnlyAtOverflow(n1: int32, n2: int32)
    ensures ComputeAsWritten(CMD_DIV, n1, n2).None? <==> n1 == INT32_MIN && n2 == -1
  {
    ComputeQuotient(n1, n2);
    if n2 != 0 && n1 == INT32_MIN && n2 == -1 {
      TruncDivUnique(n1 as int, n2 as int, 0x8000_0000);
    }
  }

  /** Compute agrees with C wherever C defines the result. */
  lemma {:induction false} ComputeAgreesWhereDefined(command: byte, n1: int32, n2: int32)
    requires ComputeAsWritten(command, n1, n2).Some?
    ensures Compute(command, n1, n2) == ComputeAsWritten(command, n1, n2).value
  {
    ComputeRing(n1, n2);
    if command == CMD_DIV && n2 != 0 {
      DivisionUndefinedOnlyAtOverflow(n1, n2);
      ComputeQuotient(n1, n2);
    }
  }
}
