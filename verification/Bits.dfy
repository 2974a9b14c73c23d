/** C's bitwise operators on mathematical integers: two's complement of
    unbounded width, bit by bit. */
module Bits {
  datatype BitOp = And | Xor | Or

  function Bitwise(op: BitOp, a: int, b: int): int
    decreases (if a < 0 then -a else a) + (if b < 0 then -b else b)
  {
    if (a == 0 || a == -1) && (b == 0 || b == -1) then
      -BitOf(op, -a, -b)
    else
      2 * Bitwise(op, a / 2, b / 2) + BitOf(op, a % 2, b % 2)
  }

  function BitOf(op: BitOp, a: int, b: int): int {
    match op
    case And => if a == 1 && b == 1 then 1 else 0
    case Xor => if a == b then 0 else 1
    case Or => if a == 1 || b == 1 then 1 else 0
  }

  /** Bit k of a, negative numbers going on in ones. */
  function Bit(a: int, k: nat): int
    decreases k
  {
    if k == 0 then a % 2 else Bit(a / 2, k - 1)
  }

  lemma {:induction false} SignBits(a: int, k: nat)
    requires a == 0 || a == -1
    ensures Bit(a, k) == -a
    decreases k
  {
    if k == 0 {
    } else {
      SignBits(a / 2, k - 1);
    }
  }

  lemma LowBit(rest: int, low: int)
    requires 0 <= low <= 1
    ensures (2 * rest + low) % 2 == low && (2 * rest + low) / 2 == rest
  {
  }

  /** Every bit of the result is the operator on the two operands' bits. */
  lemma {:induction false} BitwiseActsOnEachBit(op: BitOp, a: int, b: int, k: nat)
    ensures Bit(Bitwise(op, a, b), k) == BitOf(op, Bit(a, k), Bit(b, k))
    decreases k
  {
    if (a == 0 || a == -1) && (b == 0 || b == -1) {
      SignBits(a, k);
      SignBits(b, k);
      SignBits(Bitwise(op, a, b), k);
    } else {
      var rest, low := Bitwise(op, a / 2, b / 2), BitOf(op, a % 2, b % 2);
      LowBit(rest, low);
      if k > 0 {
        BitwiseActsOnEachBit(op, a / 2, b / 2, k - 1);
      }
    }
  }

  predicate IsPowerOfTwo(n: nat) {
    n == 1 || (n > 0 && n % 2 == 0 && IsPowerOfTwo(n / 2))
  }

  lemma {:induction false} AndZero(x: nat)
    ensures Bitwise(And, x, 0) == 0
    decreases x
  {
    if x == 0 {
    } else {
      AndZero(x / 2);
    }
  }

  lemma ModHalves(x: nat, m: nat)
    requires m > 0
    ensures x % (2 * m) == 2 * ((x / 2) % m) + x % 2
  {
    var h := x / 2;
    var q, r := h / m, h % m;
    assert h == q * m + r;
    assert x == q * (2 * m) + (2 * r + x % 2) by {
      assert q * (2 * m) == 2 * (q * m);
    }
    RemainderIs(x, 2 * m, q, 2 * r + x % 2);
  }

  lemma RemainderIs(x: nat, d: nat, q: nat, r: nat)
    requires d > 0 && r < d && x == q * d + r
    ensures x % d == r
  {
    var e := x / d - q;
    assert x == (x / d) * d + x % d;
    assert e * d == (x / d) * d - q * d;
    assert e * d == r - x % d;
    Multiples(e, d);
  }

  lemma Multiples(e: int, d: int)
    requires d > 0
    ensures e >= 1 ==> e * d >= d
    ensures e <= -1 ==> e * d <= -d
  {
  }

  /** Masking with a power of two less one is the remainder. */
  lemma {:induction false} MaskIsMod(x: nat, n: nat)
    requires IsPowerOfTwo(n)
    ensures Bitwise(And, x, n - 1) == x % n
    decreases n
  {
    if n == 1 {
      AndZero(x);
    } else {
      MaskIsMod(x / 2, n / 2);
      ModHalves(x, n / 2);
      assert (n - 1) / 2 == n / 2 - 1 && (n - 1) % 2 == 1;
    }
  }
}
