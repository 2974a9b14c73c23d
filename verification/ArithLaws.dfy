/** What each operator gives, stated by its text and without the evaluator's own
    tables: integer laws for the operators, grouping for the precedence levels. */
module ArithLaws {
  import opened Options
  import opened Strings
  import opened Bits
  import opened ArithTokens
  import opened ArithValues
  import opened ArithParser
  import opened ArithTrees
  import opened ArithRuns
  import opened ArithResults

  // -------------------------------------------------------------- the laws

  /** a doubled n times. */
  function Doubled(a: int, n: nat): int {
    if n == 0 then a else 2 * Doubled(a, n - 1)
  }

  /** a halved n times, rounding down each time. */
  function Halved(a: int, n: nat): int {
    if n == 0 then a else Halved(a, n - 1) / 2
  }

  /** r is a remainder of a by b: smaller than b, and of a's sign. */
  predicate Remainder(a: int, b: int, r: int) {
    && (b > 0 ==> -b < r < b) && (b < 0 ==> b < r < -b)
    && (a >= 0 ==> r >= 0) && (a <= 0 ==> r <= 0)
  }

  predicate Quotient(a: int, b: int, q: int, r: int) {
    a == q * b + r
  }

  function OneIf(b: bool): Outcome { Value(if b then 1 else 0) }

  /** What "a sym b" gives, by the operator's text. */
  ghost predicate Law(sym: string, a: int, b: int, out: Outcome) {
    && (sym == "*" ==> out == Value(a * b))
    && (sym == "+" ==> out == Value(a + b))
    && (sym == "-" ==> out == Value(a - b))
    && (sym == "/" ==> if b == 0 then out == Error("Division by zero")
                       else out.Value? && Remainder(a, b, a - out.v * b))
    && (sym == "%" ==> if b == 0 then out == Error("Modulo by zero")
                       else out.Value? && Remainder(a, b, out.v) && exists q :: Quotient(a, b, q, out.v))
    && (sym == "<<" && b >= 0 ==> out == Value(Doubled(a, b)))
    && (sym == ">>" && b >= 0 ==> out == Value(Halved(a, b)))
    && (sym == "<" ==> out == OneIf(a < b))
    && (sym == ">" ==> out == OneIf(a > b))
    && (sym == "<=" ==> out == OneIf(a <= b))
    && (sym == ">=" ==> out == OneIf(a >= b))
    && (sym == "==" ==> out == OneIf(a == b))
    && (sym == "!=" ==> out == OneIf(a != b))
    && (sym == "&&" ==> out == OneIf(a != 0 && b != 0))
    && (sym == "||" ==> out == OneIf(a != 0 || b != 0))
    && (sym == "&" ==> out.Value? && forall k :: Bit(out.v, k) == 1 <==> Bit(a, k) == 1 && Bit(b, k) == 1)
    && (sym == "|" ==> out.Value? && forall k :: Bit(out.v, k) == 1 <==> Bit(a, k) == 1 || Bit(b, k) == 1)
    && (sym == "^" ==> out.Value? && forall k :: Bit(out.v, k) == 1 <==> Bit(a, k) != Bit(b, k))
  }

  /** Every operator has a law. */
  lemma SymbolsHaveLaws(op: BinOp)
    ensures Symbol(op) in {"*", "/", "%", "+", "-", "<<", ">>", "<", ">", "<=", ">=", "==", "!=", "&", "^", "|",
                           "&&", "||"}
  {
  }

  lemma OperatorsKeepTheirLaws(op: BinOp, a: int, b: int)
    ensures Law(Symbol(op), a, b, Apply(op, a, b))
  {
    hide Bitwise, Bit, TruncDiv, TruncMod, Shift, Doubled, Halved, Remainder;
    match op {
      case Div | Mod =>
        if b != 0 {
          DivisionLaw(a, b);
        }
      case Shl | Shr =>
        if b >= 0 {
          ShiftLaws(a, b);
        }
      case BitAnd => BitLaws(a, b);
      case BitXor => BitLaws(a, b);
      case BitOr => BitLaws(a, b);
      case _ =>
    }
  }

  lemma DivisionLaw(a: int, b: int)
    requires b != 0
    ensures Remainder(a, b, a - TruncDiv(a, b) * b) && Remainder(a, b, TruncMod(a, b))
    ensures Quotient(a, b, TruncDiv(a, b), TruncMod(a, b))
  {
    hide TruncDiv, TruncMod;
    TruncModIsCRemainder(a, b);
  }

  lemma ShiftLaws(a: int, n: int)
    requires n >= 0
    ensures Shift(Shl, a, n) == Doubled(a, n) && Shift(Shr, a, n) == Halved(a, n)
  {
    DoubledIs(a, n);
    HalvedIs(a, n);
  }

  lemma {:induction false} DoubledIs(a: int, n: nat)
    ensures Doubled(a, n) == a * Pow2(n)
  {
    if n == 0 {
    } else {
      DoubledIs(a, n - 1);
      assert 2 * (a * Pow2(n - 1)) == a * (2 * Pow2(n - 1));
    }
  }

  lemma {:induction false} HalvedIs(a: int, n: nat)
    ensures Pow2(n) > 0 && Halved(a, n) == a / Pow2(n)
  {
    if n == 0 {
    } else {
      HalvedIs(a, n - 1);
      HalfOfQuotient(a, Pow2(n - 1));
    }
  }

  lemma HalfOfQuotient(a: int, d: nat)
    requires d > 0
    ensures (a / d) / 2 == a / (2 * d)
  {
    var q, r := a / d, a % d;
    var h, s := q / 2, q % 2;
    assert a == q * d + r && q == 2 * h + s;
    Regroup(h, s, d);
    assert s == 0 || s == 1;
    assert s * d == if s == 0 then 0 else d;
    FloorIs(a, 2 * d, h, (if s == 0 then 0 else d) + r);
  }

  lemma Regroup(h: int, s: int, d: int)
    ensures (2 * h + s) * d == h * (2 * d) + s * d
  {
    assert (2 * h) * d == 2 * (h * d) == h * (2 * d);
  }

  lemma FloorIs(a: int, d: nat, q: int, r: int)
    requires d > 0 && 0 <= r < d && a == q * d + r
    ensures a / d == q
  {
    assert a == (a / d) * d + a % d;
    Multiples(a / d - q, d);
    assert (a / d - q) * d == (a / d) * d - q * d;
  }

  lemma BitLaws(a: int, b: int)
    ensures forall k :: Bit(Bitwise(And, a, b), k) == 1 <==> Bit(a, k) == 1 && Bit(b, k) == 1
    ensures forall k :: Bit(Bitwise(Or, a, b), k) == 1 <==> Bit(a, k) == 1 || Bit(b, k) == 1
    ensures forall k :: Bit(Bitwise(Xor, a, b), k) == 1 <==> Bit(a, k) != Bit(b, k)
  {
    hide Bitwise, Bit;
    forall k: nat
      ensures Bit(Bitwise(And, a, b), k) == 1 <==> Bit(a, k) == 1 && Bit(b, k) == 1
      ensures Bit(Bitwise(Or, a, b), k) == 1 <==> Bit(a, k) == 1 || Bit(b, k) == 1
      ensures Bit(Bitwise(Xor, a, b), k) == 1 <==> Bit(a, k) != Bit(b, k)
    {
      BitwiseActsOnEachBit(And, a, b, k);
      BitwiseActsOnEachBit(Or, a, b, k);
      BitwiseActsOnEachBit(Xor, a, b, k);
    }
  }

  // -------------------------------------------------------------- on text

  /** For all trees l and r with values: the text of "l op r" evaluates to what
      the operator's text says of the two values. */
  lemma OperatorsOnText(op: BinOp, l: Tree, r: Tree, s: string, st: Vars)
    requires Undecided(Binary(op, l, r), st) && Writes(s, Print(Binary(op, l, r), 0))
    requires Denote(l, st).out.Value? && Denote(r, Denote(l, st).st).out.Value?
    ensures var ml := Denote(l, st); var mr := Denote(r, ml.st);
            Law(Symbol(op), ml.out.v, mr.out.v, Evaluate(s, st).0) && Evaluate(s, st).1 == mr.st
  {
    hide Evaluate, Denote, Undecided, Writes, Print, Apply, Law;
    var ml := Denote(l, st);
    SpelledTreesEvaluate(Binary(op, l, r), s, st);
    BinaryMeans(op, l, r, st);
    OperatorsKeepTheirLaws(op, ml.out.v, Denote(r, ml.st).out.v);
  }

  /** What "sym a" gives, by the operator's text. */
  ghost predicate UnaryLaw(sym: string, a: int, v: int) {
    && (sym == "+" ==> v == a)
    && (sym == "-" ==> v == -a)
    && (sym == "!" ==> v == if a == 0 then 1 else 0)
    && (sym == "~" ==> forall k :: Bit(v, k) == 1 <==> Bit(a, k) != 1)
  }

  lemma {:induction false} ComplementFlips(a: int, k: nat)
    ensures Bit(-a - 1, k) == 1 - Bit(a, k)
    decreases k
  {
    if k == 0 {
    } else {
      assert (-a - 1) / 2 == -(a / 2) - 1;
      ComplementFlips(a / 2, k - 1);
    }
  }

  lemma UnariesKeepTheirLaws(sym: string, op: UnaryOp, a: int)
    requires Spells(sym, UnaryToken(op))
    ensures sym in {"+", "-", "!", "~"} && UnaryLaw(sym, a, ApplyUnary(op, a))
  {
    hide Bit;
    forall k: nat ensures Bit(-a - 1, k) == 1 <==> Bit(a, k) != 1 {
      ComplementFlips(a, k);
      BitIsBit(a, k);
    }
  }

  lemma {:induction false} BitIsBit(a: int, k: nat)
    ensures 0 <= Bit(a, k) <= 1
    decreases k
  {
    if k == 0 {
    } else {
      BitIsBit(a / 2, k - 1);
    }
  }

  lemma UnariesOnText(sym: string, op: UnaryOp, a: Tree, s: string, st: Vars)
    requires Spells(sym, UnaryToken(op)) && Undecided(a, st) && Writes(s, Print(Unary(op, a), 0))
    requires Denote(a, st).out.Value?
    ensures var m, got := Denote(a, st), Evaluate(s, st);
            got.0.Value? && UnaryLaw(sym, m.out.v, got.0.v) && got.1 == m.st
  {
    hide Evaluate, Denote, Undecided, Writes, Print, ApplyUnary, UnaryLaw, Spells;
    UnaryMeans(op, a, st);
    SpelledTreesEvaluate(Unary(op, a), s, st);
    UnariesKeepTheirLaws(sym, op, Denote(a, st).out.v);
  }

  lemma UnaryMeans(op: UnaryOp, a: Tree, st: Vars)
    ensures Undecided(Unary(op, a), st) == Undecided(a, st)
    ensures Denote(a, st).out.Value? ==>
      Denote(Unary(op, a), st) == Denote(a, st).(out := Value(ApplyUnary(op, Denote(a, st).out.v)))
  {
    hide ApplyUnary;
  }

  /** A variable reads as its value, or as 0. */
  lemma VariablesOnText(x: string, s: string, st: Vars)
    requires Writes(s, [Variable(x)])
    ensures Evaluate(s, st) == (Value(if x in st.values then st.values[x] else 0), st)
  {
    hide Evaluate, Writes;
    assert Print(Var(x), 0) == [Variable(x)];
    SpelledTreesEvaluate(Var(x), s, st);
  }

  /** What "x sym= v" gives when x holds old: the operator's law, with error
      texts of its own. */
  ghost predicate AssignLaw(op: Option<BinOp>, old_: int, v: int, out: Outcome) {
    match op
    case None => out == Value(v)
    case Some(b) =>
      if Symbol(b) == "/" && v == 0 then out == Error("Division by zero in assignment")
      else if Symbol(b) == "%" && v == 0 then out == Error("Modulo by zero in assignment")
      else Law(Symbol(b), old_, v, out)
  }

  lemma AssignmentsKeepTheirLaws(op: Option<BinOp>, old_: int, v: int)
    requires op.Some? ==> HasAssign(op.value)
    ensures AssignLaw(op, old_, v, ApplyAssign(op, old_, v))
  {
    hide Law, TruncDiv, TruncMod;
    if op.Some? {
      OperatorsKeepTheirLaws(op.value, old_, v);
    }
  }

  /** An assignment takes the old value after its right side, gives and stores
      what the operator's text says; an error stores nothing. */
  lemma AssignmentsOnText(op: Option<BinOp>, x: string, rhs: Tree, s: string, st: Vars)
    requires Undecided(rhs, st) && Writes(s, Print(Set(op, x, rhs), 0)) && (op.Some? ==> HasAssign(op.value))
    requires var m := Denote(rhs, st); m.out.Value? && !(x in m.st.values && x in m.st.readOnly)
    ensures var m, got := Denote(rhs, st), Evaluate(s, st);
            var old_ := if x in m.st.values then m.st.values[x] else 0;
            && AssignLaw(op, old_, m.out.v, got.0)
            && got.1 == if got.0.Value? then m.st.(values := m.st.values[x := got.0.v]) else m.st
  {
    hide Evaluate, Writes, Print, ApplyAssign, AssignLaw, Law;
    var m := Denote(rhs, st);
    SpelledTreesEvaluate(Set(op, x, rhs), s, st);
    AssignmentsKeepTheirLaws(op, ReadVar(m.st, x), m.out.v);
    SetMeans(op, x, rhs, st);
  }

  lemma SetMeans(op: Option<BinOp>, x: string, rhs: Tree, st: Vars)
    requires Denote(rhs, st).out.Value?
    ensures var m := Denote(rhs, st);
            var v := ApplyAssign(op, ReadVar(m.st, x), m.out.v);
            Denote(Set(op, x, rhs), st) == if v.Error? then m.(out := v) else Meaning(v, WriteVar(m.st, x, v.v))
  {
    hide ApplyAssign, ReadVar, WriteVar;
  }

  // ---------------------------------------------------------------- grouping

  /** The binary operators, from the loosest to the tightest. */
  const LEVELS: seq<set<string>> :=
    [{"||"}, {"&&"}, {"|"}, {"^"}, {"&"}, {"==", "!="}, {"<", ">", "<=", ">="}, {"<<", ">>"}, {"+", "-"},
     {"*", "/", "%"}]

  predicate AtLevel(op: BinOp, k: nat) {
    k < |LEVELS| && Symbol(op) in LEVELS[k]
  }

  lemma LevelsOrderPrecedence(op1: BinOp, k1: nat, op2: BinOp, k2: nat)
    requires AtLevel(op1, k1) && AtLevel(op2, k2)
    ensures Precedence(Infix(op1)) >= Precedence(Infix(op2)) <==> k1 >= k2
  {
    LevelIs(op1, k1);
    LevelIs(op2, k2);
  }

  lemma LevelIs(op: BinOp, k: nat)
    requires AtLevel(op, k)
    ensures Precedence(Infix(op)) == k + 4
  {
  }

  /** The tokens of "a op1 b op2 c". */
  function TwoOperators(op1: BinOp, op2: BinOp, a: Tree, b: Tree, c: Tree): seq<Token> {
    Print(a, 14) + ([Infix(op1)] + (Print(b, 14) + ([Infix(op2)] + Print(c, 14))))
  }

  /** "a op1 b op2 c", the operands numbers, variables or signed: grouped to the
      left when op1's level is at least op2's, and to the right otherwise. */
  lemma TextsGroupByLevel(op1: BinOp, k1: nat, op2: BinOp, k2: nat, a: Tree, b: Tree, c: Tree, s: string, st: Vars)
    requires AtLevel(op1, k1) && AtLevel(op2, k2) && Level(a) >= 14 && Level(b) >= 14 && Level(c) >= 14
    requires Writes(s, TwoOperators(op1, op2, a, b, c))
    ensures var e := if k1 >= k2 then Binary(op2, Binary(op1, a, b), c) else Binary(op1, a, Binary(op2, b, c));
            Evaluate(s, st) == Final(Exec(e, st))
  {
    hide Evaluate, Writes, Exec, Final, AtLevel, TwoOperators, Print;
    LevelsOrderPrecedence(op1, k1, op2, k2);
    var e := if k1 >= k2 then Binary(op2, Binary(op1, a, b), c) else Binary(op1, a, Binary(op2, b, c));
    GroupPrints(op1, op2, a, b, c);
    EveryTextEnds(e, s, st);
  }

  lemma GroupPrints(op1: BinOp, op2: BinOp, a: Tree, b: Tree, c: Tree)
    requires Level(a) >= 14 && Level(b) >= 14 && Level(c) >= 14
    ensures if Precedence(Infix(op1)) >= Precedence(Infix(op2))
            then Print(Binary(op2, Binary(op1, a, b), c), 0) == TwoOperators(op1, op2, a, b, c)
            else Print(Binary(op1, a, Binary(op2, b, c)), 0) == TwoOperators(op1, op2, a, b, c)
  {
    hide Print, Bare, Precedence, Level;
    if Precedence(Infix(op1)) >= Precedence(Infix(op2)) {
      GroupLeft(op1, op2, a, b, c);
      Reassociate(Print(a, 14), [Infix(op1)], Print(b, 14), [Infix(op2)] + Print(c, 14));
    } else {
      GroupRight(op1, op2, a, b, c);
    }
  }

  lemma Reassociate(x: seq<Token>, u: seq<Token>, y: seq<Token>, z: seq<Token>)
    ensures (x + (u + y)) + z == x + (u + (y + z))
  {
    assert (u + y) + z == u + (y + z);
    assert (x + (u + y)) + z == x + ((u + y) + z);
  }

  lemma GroupLeft(op1: BinOp, op2: BinOp, a: Tree, b: Tree, c: Tree)
    requires Level(a) >= 14 && Level(b) >= 14 && Level(c) >= 14
    requires Precedence(Infix(op1)) >= Precedence(Infix(op2))
    ensures Print(Binary(op2, Binary(op1, a, b), c), 0) ==
            (Print(a, 14) + ([Infix(op1)] + Print(b, 14))) + ([Infix(op2)] + Print(c, 14))
  {
    hide Print, Bare, Precedence;
    OperatorLevels(op1);
    OperatorLevels(op2);
    var p1, p2 := Precedence(Infix(op1)), Precedence(Infix(op2));
    BinaryPrints(op1, a, b, p2);
    BinaryPrints(op2, Binary(op1, a, b), c, 0);
    TightPrints(a, p1);
    TightPrints(b, p1 + 1);
    TightPrints(c, p2 + 1);
  }

  lemma GroupRight(op1: BinOp, op2: BinOp, a: Tree, b: Tree, c: Tree)
    requires Level(a) >= 14 && Level(b) >= 14 && Level(c) >= 14
    requires Precedence(Infix(op1)) < Precedence(Infix(op2))
    ensures Print(Binary(op1, a, Binary(op2, b, c)), 0) ==
            Print(a, 14) + ([Infix(op1)] + (Print(b, 14) + ([Infix(op2)] + Print(c, 14))))
  {
    hide Print, Bare, Precedence;
    OperatorLevels(op1);
    OperatorLevels(op2);
    var p1, p2 := Precedence(Infix(op1)), Precedence(Infix(op2));
    BinaryPrints(op2, b, c, p1 + 1);
    BinaryPrints(op1, a, Binary(op2, b, c), 0);
    TightPrints(a, p1);
    TightPrints(b, p2);
    TightPrints(c, p2 + 1);
  }

  lemma BinaryPrints(op: BinOp, l: Tree, r: Tree, level: nat)
    requires level <= Precedence(Infix(op))
    ensures var prec := Precedence(Infix(op));
            Print(Binary(op, l, r), level) == Print(l, prec) + ([Infix(op)] + Print(r, prec + 1))
  {
    PrintsBare(Binary(op, l, r), level);
  }

  lemma TightPrints(a: Tree, level: nat)
    requires Level(a) >= 14 >= level
    ensures Print(a, level) == Print(a, 14)
  {
    hide Bare;
  }

  /** The tokens of "x = a op b ? c : d, e". */
  function LooserTokens(op: BinOp, x: string, a: Tree, b: Tree, c: Tree, d: Tree, e: Tree): seq<Token> {
    var binary := Print(a, 14) + ([Infix(op)] + Print(b, 14));
    var cond := binary + ([Question] + (Print(c, 14) + ([Colon] + Print(d, 14))));
    [Variable(x)] + ([Assign(None)] + (cond + ([Comma] + Print(e, 14))))
  }

  /** Conditionals bind looser than every binary operator, and an assignment
      takes all that follows it: "x = a op b ? c : d, e" is
      "x = (((a op b) ? c : d), e)". */
  lemma TextsGroupLooser(op: BinOp, x: string, a: Tree, b: Tree, c: Tree, d: Tree, e: Tree, s: string, st: Vars)
    requires Level(a) >= 14 && Level(b) >= 14 && Level(c) >= 14 && Level(d) >= 14 && Level(e) >= 14
    requires Writes(s, LooserTokens(op, x, a, b, c, d, e))
    ensures Evaluate(s, st) == Final(Exec(Set(None, x, Both(Cond(Binary(op, a, b), c, d), e)), st))
  {
    hide Evaluate, Writes, Exec, Final;
    LooserPrints(op, x, a, b, c, d, e);
    EveryTextEnds(Set(None, x, Both(Cond(Binary(op, a, b), c, d), e)), s, st);
  }

  lemma LooserPrints(op: BinOp, x: string, a: Tree, b: Tree, c: Tree, d: Tree, e: Tree)
    requires Level(a) >= 14 && Level(b) >= 14 && Level(c) >= 14 && Level(d) >= 14 && Level(e) >= 14
    ensures Print(Set(None, x, Both(Cond(Binary(op, a, b), c, d), e)), 0) == LooserTokens(op, x, a, b, c, d, e)
  {
    hide Print, Bare, Precedence;
    var binary := Binary(op, a, b);
    var prec := Precedence(Infix(op));
    OperatorLevels(op);
    BinaryPrints(op, a, b, 4);
    TightPrints(a, prec);
    TightPrints(b, prec + 1);
    LooserAre(x, binary, c, d, e);
    TightPrints(c, 0);
    TightPrints(d, 3);
    TightPrints(e, 2);
  }

  lemma OperatorLevels(op: BinOp)
    ensures 4 <= Precedence(Infix(op)) <= 13
  {
  }

  lemma LooserAre(x: string, binary: Tree, c: Tree, d: Tree, e: Tree)
    ensures Print(Set(None, x, Both(Cond(binary, c, d), e)), 0) ==
            var cond := Print(binary, 4) + ([Question] + (Print(c, 0) + ([Colon] + Print(d, 3))));
            [Variable(x)] + ([Assign(None)] + (cond + ([Comma] + Print(e, 2))))
  {
    var cond := Cond(binary, c, d);
    PrintsBare(cond, 1);
    PrintsBare(Both(cond, e), 0);
  }

  // ---------------------------------------------------------------- examples

  lemma FiveMinusThree(st: Vars)
    ensures Evaluate("5-3", st) == (Value(2), st)
  {
    var texts, toks := ["5", "-", "3"], [Number(5), Infix(Sub), Number(3)];
    assert Print(Binary(Sub, Num(5), Num(3)), 0) == toks;
    OneDigit('5');
    OneDigit('3');
    PunctuationStops("-", Infix(Sub), '3');
    hide Print, SpellsNumber, ValueOf, Evaluate, Law;
    TightWrites(texts, toks);
    assert Concat(texts) == "5-3";
    OperatorsOnText(Sub, Num(5), Num(3), "5-3", st);
    DifferenceLaw(5, 3, Evaluate("5-3", st).0);
  }

  lemma DifferenceLaw(a: int, b: int, out: Outcome)
    requires Law("-", a, b, out)
    ensures out == Value(a - b)
  {
  }
}
