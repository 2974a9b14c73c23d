/** What arithmetic expressions mean, how they are printed with only the
    parentheses the precedence table asks for, and the proof that the
    evaluator gives a printed tree the tree's meaning (section 2.6.4 of the
    POSIX.1-2017 Shell Command Language). */
module ArithTrees {
  import opened Options
  import opened ArithTokens
  import opened ArithValues
  import opened ArithParser

  datatype Tree =
    | Num(n: nat)
    | Var(x: string)
    | Unary(uop: UnaryOp, e: Tree)
    | Binary(op: BinOp, l: Tree, r: Tree)
    | Cond(c: Tree, yes: Tree, no: Tree)
    | Set(compound: Option<BinOp>, y: string, rhs: Tree)
    | Both(first: Tree, second: Tree)

  // ------------------------------------------------------------- the meaning

  /** A value or an error, and the variables after it. */
  datatype Meaning = Meaning(out: Outcome, st: Vars)

  /** Operands left to right, each seeing the assignments before it; both
      branches of a conditional are evaluated; an assignment evaluates its
      right side before it reads the old value; "first, second" keeps the
      first value. The first error ends it. */
  function Denote(e: Tree, st: Vars): Meaning {
    match e
    case Num(n) => Meaning(Value(n), st)
    case Var(x) => Meaning(Value(ReadVar(st, x)), st)
    case Unary(op, a) =>
      var m := Denote(a, st);
      m.(out := MapValue(op, m.out))
    case Binary(op, l, r) =>
      var ml := Denote(l, st);
      if ml.out.Error? then ml
      else
        var mr := Denote(r, ml.st);
        if mr.out.Error? then mr else mr.(out := Apply(op, ml.out.v, mr.out.v))
    case Cond(c, yes, no) =>
      var mc := Denote(c, st);
      if mc.out.Error? then mc
      else
        var my := Denote(yes, mc.st);
        if my.out.Error? then my
        else
          var mn := Denote(no, my.st);
          if mn.out.Error? then mn else mn.(out := if mc.out.v != 0 then my.out else mn.out)
    case Set(op, x, rhs) =>
      var m := Denote(rhs, st);
      if m.out.Error? then m
      else
        var v := ApplyAssign(op, ReadVar(m.st, x), m.out.v);
        if v.Error? then m.(out := v) else Meaning(v, WriteVar(m.st, x, v.v))
    case Both(a, b) =>
      var ma := Denote(a, st);
      if ma.out.Error? then ma
      else
        var mb := Denote(b, ma.st);
        if mb.out.Error? then mb else mb.(out := ma.out)
  }

  /** A left side that settles "||" or "&&" on its own. */
  predicate Decided(op: BinOp, v: int) {
    (op == LogOr && v != 0) || (op == LogAnd && v == 0)
  }

  /** Evaluating e meets no "||" or "&&" that its left side decides. */
  predicate Undecided(e: Tree, st: Vars) {
    match e
    case Num(_) | Var(_) => true
    case Unary(_, a) => Undecided(a, st)
    case Binary(op, l, r) =>
      var ml := Denote(l, st);
      Undecided(l, st) && (ml.out.Value? ==> !Decided(op, ml.out.v) && Undecided(r, ml.st))
    case Cond(c, yes, no) =>
      var mc := Denote(c, st);
      var my := Denote(yes, mc.st);
      && Undecided(c, st)
      && (mc.out.Value? ==> Undecided(yes, mc.st) && (my.out.Value? ==> Undecided(no, my.st)))
    case Set(_, _, rhs) => Undecided(rhs, st)
    case Both(a, b) =>
      var ma := Denote(a, st);
      Undecided(a, st) && (ma.out.Value? ==> Undecided(b, ma.st))
  }

  // ---------------------------------------------------------------- printing

  /** How tightly a tree's text holds together. */
  function Level(e: Tree): nat {
    match e
    case Num(_) | Var(_) => 15
    case Unary(_, _) => 14
    case Binary(op, _, _) => Precedence(Infix(op))
    case Cond(_, _, _) => 3
    case Set(_, _, _) => 0
    case Both(_, _) => 1
  }

  function UnaryToken(op: UnaryOp): Token {
    match op
    case Plus => Infix(Add)
    case Minus => Infix(Sub)
    case Complement => Tilde
    case Not => Bang
  }

  /** e without parentheses of its own. */
  function Bare(e: Tree): seq<Token>
    decreases e, 0
  {
    match e
    case Num(n) => [Number(n)]
    case Var(x) => [Variable(x)]
    case Unary(op, a) => [UnaryToken(op)] + Print(a, 14)
    case Binary(op, l, r) =>
      Print(l, Precedence(Infix(op))) + ([Infix(op)] + Print(r, Precedence(Infix(op)) + 1))
    case Cond(c, yes, no) => Print(c, 4) + ([Question] + (Print(yes, 0) + ([Colon] + Print(no, 3))))
    case Set(op, x, rhs) => [Variable(x)] + ([Assign(op)] + Print(rhs, 0))
    case Both(a, b) => Print(a, 1) + ([Comma] + Print(b, 2))
  }

  /** e where at least the given level is needed. */
  function Print(e: Tree, level: nat): seq<Token>
    decreases e, 1
  {
    if Level(e) < level then [LParen] + (Bare(e) + [RParen]) else Bare(e)
  }

  /** What may follow the bare text of e without being drawn into it. */
  predicate Follows(e: Tree, next: Token) {
    && !next.Assign?
    && match e
       case Num(_) | Var(_) | Unary(_, _) => true
       case Binary(op, _, _) => Precedence(next) <= Precedence(Infix(op))
       case Cond(_, _, _) => Precedence(next) < 3
       case Set(_, _, _) => Precedence(next) < 0
       case Both(_, _) => Precedence(next) <= 1
  }

  predicate FollowsAt(e: Tree, level: nat, next: Token) {
    !next.Assign? && (Level(e) >= level ==> Follows(e, next))
  }

  /** got is what parsing a text of meaning m at minimum min up to q returns:
      the loop goes on from m's value, and an error is passed on as it is. */
  ghost predicate Continues(got: Parsed, m: Meaning, s: string, q: nat, min: nat)
    requires q <= |s|
  {
    match m.out
    case Value(v) => got == ParseLoop(s, v, q, m.st, min)
    case Error(_) => got.out == m.out && got.st == m.st
  }

  // -------------------------------------------------- one step of the parser

  lemma LoopStops(s: string, v: int, q: nat, st: Vars, min: nat)
    requires q <= |s| && Precedence(NextToken(s, q).tok) < min
    ensures ParseLoop(s, v, q, st, min) == Parsed(Value(v), q, st)
  {
  }

  lemma StartsWithOperand(s: string, p: nat, st: Vars, min: nat, r: Parsed)
    requires p <= |s| && UnaryOf(NextToken(s, p).tok).None? && r == ParsePrimary(s, p, st)
    ensures ParseExpression(s, p, st, min) ==
            if r.out.Error? then r else ParseLoop(s, r.out.v, r.pos, r.st, min)
  {
  }

  lemma StartsWithUnary(s: string, p: nat, st: Vars, min: nat, op: UnaryOp, r: Parsed)
    requires p <= |s| && NextToken(s, p).tok == UnaryToken(op)
    requires r == ParseExpression(s, NextToken(s, p).pos, st, 14)
    ensures ParseExpression(s, p, st, min) ==
            if r.out.Error? then r else ParseLoop(s, ApplyUnary(op, r.out.v), r.pos, r.st, min)
  {
  }

  lemma LoopTakesInfix(s: string, v: int, p: nat, st: Vars, min: nat, op: BinOp, r: Parsed)
    requires p <= |s| && NextToken(s, p).tok == Infix(op) && min <= Precedence(Infix(op))
    requires !Decided(op, v)
    requires r == ParseExpression(s, NextToken(s, p).pos, st, Precedence(Infix(op)) + 1)
    ensures ParseLoop(s, v, p, st, min) ==
            if r.out.Error? then r
            else if Apply(op, v, r.out.v).Error? then r.(out := Apply(op, v, r.out.v))
            else ParseLoop(s, Apply(op, v, r.out.v).v, r.pos, r.st, min)
  {
    hide ParseExpression, NextToken, Apply;
  }

  lemma LoopTakesQuestion(s: string, v: int, p: nat, st: Vars, min: nat, yes: Parsed)
    requires p <= |s| && NextToken(s, p).tok == Question && min <= 3
    requires yes == ParseExpression(s, NextToken(s, p).pos, st, 0)
    ensures yes.out.Error? ==> ParseLoop(s, v, p, st, min) == yes
    ensures yes.out.Value? && NextToken(s, yes.pos).tok == Colon ==>
      var no := ParseExpression(s, NextToken(s, yes.pos).pos, yes.st, 3);
      ParseLoop(s, v, p, st, min) ==
        if no.out.Error? then no
        else ParseLoop(s, if v != 0 then yes.out.v else no.out.v, no.pos, no.st, min)
  {
    hide ParseExpression, NextToken, Apply;
  }

  lemma LoopTakesComma(s: string, v: int, p: nat, st: Vars, min: nat, r: Parsed)
    requires p <= |s| && NextToken(s, p).tok == Comma && min <= 1
    requires r == ParseExpression(s, NextToken(s, p).pos, st, 2)
    ensures ParseLoop(s, v, p, st, min) == if r.out.Error? then r else ParseLoop(s, v, r.pos, r.st, min)
  {
    hide ParseExpression, NextToken;
  }

  lemma LoopReturnsDecided(s: string, v: int, p: nat, st: Vars, min: nat, op: BinOp)
    requires p <= |s| && NextToken(s, p).tok == Infix(op) && min <= Precedence(Infix(op)) && Decided(op, v)
    ensures ParseLoop(s, v, p, st, min) == Parsed(Value(v), NextToken(s, p).pos, st)
  {
    hide ParseExpression, NextToken;
  }

  lemma TakeOne(s: string, p: nat, t: Token, rest: seq<Token>, q: nat)
    requires p <= |s| && Lexes(s, p, [t] + rest, q)
    ensures NextToken(s, p).tok == t && Lexes(s, NextToken(s, p).pos, rest, q)
  {
    assert ([t] + rest)[1..] == rest;
  }

  /** An inner text followed by something that ends it is parsed completely. */
  lemma Completes(got: Parsed, m: Meaning, s: string, q: nat, min: nat)
    requires q <= |s| && Continues(got, m, s, q, min) && Precedence(NextToken(s, q).tok) < min
    ensures got.out == m.out && got.st == m.st
    ensures m.out.Value? ==> got.pos == q
  {
    if m.out.Value? {
      LoopStops(s, m.out.v, q, m.st, min);
    }
  }

  predicate StartsOperand(t: Token) {
    t.Number? || t.Variable? || t.LParen? || t.Tilde? || t.Bang?
  }

  /** No right side of "||" or "&&" starts with a plus or minus sign. */
  predicate SignFree(e: Tree) {
    match e
    case Num(_) | Var(_) => true
    case Unary(_, a) => SignFree(a)
    case Binary(op, l, r) =>
      && SignFree(l) && SignFree(r)
      && (op == LogOr || op == LogAnd ==> StartsOperand(FirstToken(r, Precedence(Infix(op)) + 1)))
    case Cond(c, yes, no) => SignFree(c) && SignFree(yes) && SignFree(no)
    case Set(_, _, rhs) => SignFree(rhs)
    case Both(a, b) => SignFree(a) && SignFree(b)
  }

  /** The first token of e as printed for a level. */
  function FirstToken(e: Tree, level: nat): Token {
    if Level(e) < level then LParen
    else match e
      case Num(n) => Number(n)
      case Var(x) => Variable(x)
      case Unary(op, _) => UnaryToken(op)
      case Binary(op, l, _) => FirstToken(l, Precedence(Infix(op)))
      case Cond(c, _, _) => FirstToken(c, 4)
      case Set(_, x, _) => Variable(x)
      case Both(a, _) => FirstToken(a, 1)
  }

  lemma {:induction false} FirstTokenIsFirst(e: Tree, level: nat)
    ensures Print(e, level) != [] && Print(e, level)[0] == FirstToken(e, level)
    decreases e
  {
    match e {
      case Binary(op, l, _) => FirstTokenIsFirst(l, Precedence(Infix(op)));
      case Cond(c, _, _) => FirstTokenIsFirst(c, 4);
      case Both(a, _) => FirstTokenIsFirst(a, 1);
      case _ =>
    }
  }
}
