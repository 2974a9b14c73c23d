/** C's integer operators on mathematical integers. */
module ArithValues {
  import opened Options
  import opened ArithTokens
  import Bits

  function Pow2(n: nat): nat {
    if n == 0 then 1 else 2 * Pow2(n - 1)
  }

  /** Shifts by a negative count are undefined in C; here they give 0. */
  function Shift(op: BinOp, a: int, n: int): int {
    if n < 0 then 0
    else if op == Shl then a * Pow2(n)
    else FloorDiv(a, Pow2(n))
  }

  function FloorDiv(a: int, d: nat): int {
    if d == 0 then 0 else a / d
  }

  /** C division truncates toward zero, and % takes the dividend's sign. */
  function TruncDiv(a: int, b: int): int
    requires b != 0
  {
    var q := (if a < 0 then -a else a) / (if b < 0 then -b else b);
    if (a < 0) == (b < 0) then q else -q
  }

  function TruncMod(a: int, b: int): int
    requires b != 0
  {
    a - TruncDiv(a, b) * b
  }

  lemma TimesDivisor(a: int, b: int, m: nat, n: nat, q: int)
    requires b != 0 && m == (if a < 0 then -a else a) && n == (if b < 0 then -b else b) && q == m / n
    ensures TruncDiv(a, b) * b == if a < 0 then -(q * n) else q * n
  {
    assert TruncDiv(a, b) == if (a < 0) == (b < 0) then q else -q;
    if b < 0 {
      assert q * n == -(q * b);
    }
  }

  /** The remainder is that of the absolute values, with the dividend's sign:
      smaller than the divisor. */
  lemma TruncModIsCRemainder(a: int, b: int)
    requires b != 0
    ensures var r := (if a < 0 then -a else a) % (if b < 0 then -b else b);
            TruncMod(a, b) == (if a < 0 then -r else r) && 0 <= r < (if b < 0 then -b else b)
    ensures a == TruncDiv(a, b) * b + TruncMod(a, b)
  {
    hide TruncDiv;
    var m, n := if a < 0 then -a else a, if b < 0 then -b else b;
    var q := m / n;
    TimesDivisor(a, b, m, n, q);
    assert m == q * n + m % n;
  }

  function Truth(b: bool): int { if b then 1 else 0 }

  datatype Outcome = Value(v: int) | Error(msg: string)

  function Apply(op: BinOp, a: int, b: int): Outcome {
    match op
    case Mul => Value(a * b)
    case Div => if b == 0 then Error("Division by zero") else Value(TruncDiv(a, b))
    case Mod => if b == 0 then Error("Modulo by zero") else Value(TruncMod(a, b))
    case Add => Value(a + b)
    case Sub => Value(a - b)
    case Shl | Shr => Value(Shift(op, a, b))
    case Lt => Value(Truth(a < b))
    case Gt => Value(Truth(a > b))
    case Le => Value(Truth(a <= b))
    case Ge => Value(Truth(a >= b))
    case Eq => Value(Truth(a == b))
    case Ne => Value(Truth(a != b))
    case BitAnd => Value(Bits.Bitwise(Bits.And, a, b))
    case BitXor => Value(Bits.Bitwise(Bits.Xor, a, b))
    case BitOr => Value(Bits.Bitwise(Bits.Or, a, b))
    case LogAnd => Value(Truth(a != 0 && b != 0))
    case LogOr => Value(Truth(a != 0 || b != 0))
  }

  datatype UnaryOp = Plus | Minus | Complement | Not

  function ApplyUnary(op: UnaryOp, a: int): int {
    match op
    case Plus => a
    case Minus => -a
    case Complement => -a - 1
    case Not => Truth(a == 0)
  }

  /** The value "x op= v" stores, from the old value of x. */
  function ApplyAssign(op: Option<BinOp>, old_: int, v: int): Outcome {
    match op
    case None => Value(v)
    case Some(Div) => if v == 0 then Error("Division by zero in assignment") else Value(TruncDiv(old_, v))
    case Some(Mod) => if v == 0 then Error("Modulo by zero in assignment") else Value(TruncMod(old_, v))
    case Some(b) => if HasAssign(b) then Apply(b, old_, v) else Value(v)
  }

  /** Variables by the number their text reads as. */
  datatype Vars = Vars(values: map<string, int>, readOnly: set<string>)

  function ReadVar(st: Vars, x: string): int {
    if x in st.values then st.values[x] else 0
  }

  /** A write to an existing read-only variable is silently refused. */
  function WriteVar(st: Vars, x: string, v: int): Vars {
    if x in st.values && x in st.readOnly then st else st.(values := st.values[x := v])
  }
}
