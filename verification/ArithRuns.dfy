/** What the evaluator does with the text of any tree. When the left side of
    "||" or "&&" decides, the routine that met the operator returns, and the
    routine that called it goes on with what follows; a right side that starts
    with a sign is then added to, or subtracted from, what that routine holds. */
module ArithRuns {
  import opened Options
  import opened ArithTokens
  import opened ArithValues
  import opened ArithParser
  import opened ArithTrees

  /** How a tree's evaluation ends: with a meaning, or cut short by a decided
      operator with a value, a store and what is left of the tree: nothing that
      could be taken up, or a tree that starts with a sign. */
  datatype Ending =
    | Done(m: Meaning)
    | Cut(v: int, st: Vars, tail: Option<Tree>)

  function Size(e: Tree): (n: nat)
    ensures n > 0
  {
    match e
    case Num(_) | Var(_) => 1
    case Unary(_, a) => 1 + Size(a)
    case Binary(_, l, r) => 1 + Size(l) + Size(r)
    case Cond(c, yes, no) => 1 + Size(c) + Size(yes) + Size(no)
    case Set(_, _, rhs) => 1 + Size(rhs)
    case Both(a, b) => 1 + Size(a) + Size(b)
  }

  /** The text of t starts with a plus or minus sign. */
  predicate SignLed(t: Tree) {
    match t
    case Unary(op, _) => op == Plus || op == Minus
    case Binary(op, l, _) => Level(l) >= Precedence(Infix(op)) && SignLed(l)
    case Cond(c, _, _) => Level(c) >= 4 && SignLed(c)
    case Both(a, _) => Level(a) >= 1 && SignLed(a)
    case _ => false
  }

  function SignOf(t: Tree): (op: BinOp)
    requires SignLed(t)
    ensures op == Add || op == Sub
  {
    match t
    case Unary(op, _) => if op == Plus then Add else Sub
    case Binary(_, l, _) => SignOf(l)
    case Cond(c, _, _) => SignOf(c)
    case Both(a, _) => SignOf(a)
  }

  /** What a decided operator can leave of a tree of the given level and size. */
  predicate Fits(tail: Option<Tree>, level: nat, size: nat) {
    tail.Some? ==> SignLed(tail.value) && Level(tail.value) >= level && Size(tail.value) < size
  }

  predicate Leaves(r: Ending, level: nat, size: nat) {
    r.Cut? ==> Fits(r.tail, level, size)
  }

  // ----------------------------------------------------------- evaluating

  /** The evaluation of e by one routine. */
  function Exec(e: Tree, st: Vars): (r: Ending)
    ensures r.Cut? ==> Level(e) < 6
    ensures Leaves(r, Level(e), Size(e))
    decreases Size(e), 1
  {
    match e
    case Num(n) => Done(Meaning(Value(n), st))
    case Var(x) => Done(Meaning(Value(ReadVar(st, x)), st))
    case Unary(op, a) =>
      var m := ExecPrinted(a, 14, st).m;
      Done(m.(out := MapValue(op, m.out)))
    case Binary(op, l, r) => ExecInfix(op, ExecPrinted(l, Precedence(Infix(op)), st), r)
    case Cond(c, yes, no) => ExecCond(ExecPrinted(c, 4, st), yes, no)
    case Set(op, x, rhs) => ExecSet(op, x, ExecPrinted(rhs, 0, st), Size(rhs))
    case Both(a, b) => ExecBoth(ExecPrinted(a, 1, st), b)
  }

  /** e as printed for a level: parentheses must find their end. */
  function ExecPrinted(e: Tree, level: nat, st: Vars): (r: Ending)
    ensures r.Cut? ==> level <= Level(e) < 6
    ensures Leaves(r, Level(e), Size(e))
    decreases Size(e), 2
  {
    var r := Exec(e, st);
    if Level(e) < level && r.Cut? then Done(Meaning(Error("Expected ')'"), r.st)) else r
  }

  /** An operator and its right side after a left side. */
  function ExecInfix(op: BinOp, left: Ending, r: Tree): (res: Ending)
    requires StandsLeft(left, Precedence(Infix(op))) && (left.Cut? ==> Precedence(Infix(op)) < 6)
    ensures res.Cut? ==> Precedence(Infix(op)) < 6
    ensures Leaves(res, Precedence(Infix(op)), Size(r) + SizeLeft(left) + 2)
    decreases Size(r), 3
  {
    var prec := Precedence(Infix(op));
    match left
    case Cut(v, st, tail) =>
      Cut(v, st, match tail case None => None case Some(t) => Some(Binary(op, t, r)))
    case Done(ml) =>
      if ml.out.Error? then left
      else if Decided(op, ml.out.v) then
        Cut(ml.out.v, ml.st, if Level(r) > prec && SignLed(r) then Some(r) else None)
      else
        match ExecPrinted(r, prec + 1, ml.st)
        case Done(mr) => Done(if mr.out.Error? then mr else mr.(out := Apply(op, ml.out.v, mr.out.v)))
        case Cut(v, st, tail) =>
          var w := Apply(op, ml.out.v, v);
          if w.Error? then Done(Meaning(w, st)) else Resume(w.v, st, tail)
  }

  /** The size of what a left side left over. */
  function SizeLeft(left: Ending): nat {
    if left.Cut? && left.tail.Some? then Size(left.tail.value) else 0
  }

  /** A left side that may stand before an operator of the given level. */
  predicate StandsLeft(left: Ending, level: nat) {
    Leaves(left, level, SizeLeft(left) + 1)
  }

  /** The branches after a condition. */
  function ExecCond(left: Ending, yes: Tree, no: Tree): (res: Ending)
    requires StandsLeft(left, 4)
    ensures Leaves(res, 3, SizeLeft(left) + Size(yes) + Size(no) + 2)
    decreases Size(yes) + Size(no), 3
  {
    match left
    case Cut(v, st, tail) =>
      Cut(v, st, match tail case None => None case Some(t) => Some(Cond(t, yes, no)))
    case Done(mc) =>
      if mc.out.Error? then left
      else
        match ExecPrinted(yes, 0, mc.st)
        case Cut(_, st, _) => Done(Meaning(Error("Expected ':' in ternary expression"), st))
        case Done(my) =>
          if my.out.Error? then Done(my)
          else
            match ExecPrinted(no, 3, my.st)
            case Done(mn) => Done(if mn.out.Error? then mn else mn.(out := if mc.out.v != 0 then my.out else mn.out))
            case Cut(v, st, tail) => Resume(if mc.out.v != 0 then my.out.v else v, st, tail)
  }

  /** An assignment after its right side. */
  function ExecSet(op: Option<BinOp>, x: string, right: Ending, size: nat): (res: Ending)
    requires Leaves(right, 0, size)
    ensures Leaves(res, 0, size)
    decreases SizeLeft(right), 3
  {
    match right
    case Done(m) =>
      if m.out.Error? then right
      else
        var v := ApplyAssign(op, ReadVar(m.st, x), m.out.v);
        Done(if v.Error? then m.(out := v) else Meaning(v, WriteVar(m.st, x, v.v)))
    case Cut(v, st, tail) =>
      var w := ApplyAssign(op, ReadVar(st, x), v);
      if w.Error? then Done(Meaning(w, st)) else Resume(w.v, WriteVar(st, x, w.v), tail)
  }

  /** The second side of a comma after the first. */
  function ExecBoth(left: Ending, b: Tree): (res: Ending)
    requires StandsLeft(left, 1)
    ensures Leaves(res, 1, SizeLeft(left) + Size(b) + 2)
    decreases Size(b), 3
  {
    match left
    case Cut(v, st, tail) =>
      Cut(v, st, match tail case None => None case Some(t) => Some(Both(t, b)))
    case Done(ma) =>
      if ma.out.Error? then left
      else
        match ExecPrinted(b, 2, ma.st)
        case Done(mb) => Done(if mb.out.Error? then mb else mb.(out := ma.out))
        case Cut(_, st, tail) => Resume(ma.out.v, st, tail)
  }

  /** The calling routine holds v and finds what a decided operator left. */
  function Resume(v: int, st: Vars, tail: Option<Tree>): (res: Ending)
    requires tail.Some? ==> SignLed(tail.value)
    ensures tail.Some? && res.Cut? ==> Level(tail.value) < 6
    ensures res.Cut? && res.tail.Some? ==> tail.Some?
    ensures tail.Some? ==> Leaves(res, Level(tail.value), Size(tail.value))
    decreases if tail.Some? then Size(tail.value) else 0, 2
  {
    match tail
    case None => Cut(v, st, None)
    case Some(t) => ExecSum(v, st, t)
  }

  /** The text of t, its sign taken for an operator after v. */
  function ExecSum(v: int, st: Vars, t: Tree): (res: Ending)
    requires SignLed(t)
    ensures res.Cut? ==> Level(t) < 6
    ensures Leaves(res, Level(t), Size(t))
    decreases Size(t), 1
  {
    if Level(t) >= 13 then
      var m := ExecFactor(t, st).m;
      Done(if m.out.Error? then m else m.(out := Apply(SignOf(t), v, m.out.v)))
    else match t
      case Binary(op, l, r) => ExecInfix(op, ExecSum(v, st, l), r)
      case Cond(c, yes, no) => ExecCond(ExecSum(v, st, c), yes, no)
      case Both(a, b) => ExecBoth(ExecSum(v, st, a), b)
  }

  /** The text of t without its sign, up to the last multiplication. */
  function ExecFactor(t: Tree, st: Vars): (res: Ending)
    requires SignLed(t) && Level(t) >= 13
    ensures res.Done?
    decreases Size(t), 0
  {
    match t
    case Unary(_, a) => ExecPrinted(a, 14, st)
    case Binary(op, l, r) => ExecInfix(op, ExecFactor(l, st), r)
  }

  // ------------------------------------------------------ on the text itself

  /** got is what a routine returns for the text of a tree with that ending,
      up to q: it goes on from the meaning's value, or it has stopped in front
      of what is left. */
  ghost predicate Matches(got: Parsed, r: Ending, s: string, q: nat, min: nat)
    requires q <= |s|
  {
    match r
    case Done(m) => Continues(got, m, s, q, min)
    case Cut(v, st, tail) =>
      && got.out == Value(v) && got.st == st && got.pos <= |s|
      && StandsBefore(s, got.pos, tail, q)
  }

  ghost predicate StandsBefore(s: string, p: nat, tail: Option<Tree>, q: nat)
    requires p <= |s| && q <= |s|
  {
    match tail
    case None => StartsOperand(NextToken(s, p).tok)
    case Some(t) => SignLed(t) && Lexes(s, p, Bare(t), q)
  }

  lemma {:induction false} SignComesFirst(t: Tree)
    requires SignLed(t)
    ensures Bare(t) != [] && Bare(t)[0] == Infix(SignOf(t)) && FirstToken(t, 0) == Infix(SignOf(t))
    decreases t
  {
    match t {
      case Unary(op, _) =>
      case Binary(op, l, _) => SignComesFirst(l);
      case Cond(c, _, _) => SignComesFirst(c);
      case Both(a, _) => SignComesFirst(a);
    }
  }

  /** A tree starts with a sign or with an operand. */
  lemma {:induction false} SignOrOperand(e: Tree, level: nat)
    ensures StartsOperand(FirstToken(e, level)) <==> !(Level(e) >= level && SignLed(e))
    decreases e
  {
    match e {
      case Num(_) =>
      case Var(_) =>
      case Unary(_, _) =>
      case Binary(op, l, _) => SignOrOperand(l, Precedence(Infix(op)));
      case Cond(c, _, _) => SignOrOperand(c, 4);
      case Set(_, _, _) =>
      case Both(a, _) => SignOrOperand(a, 1);
    }
  }

  /** What stands before a tail: a sign or an operand. */
  lemma CutToken(s: string, p: nat, tail: Option<Tree>, q: nat)
    requires p <= |s| && q <= |s| && StandsBefore(s, p, tail, q)
    ensures var t := NextToken(s, p).tok; StartsOperand(t) || t == Infix(Add) || t == Infix(Sub)
  {
    hide NextToken, Bare;
    if tail.Some? {
      SignComesFirst(tail.value);
    }
  }

  lemma FollowsFromLevel(t: Tree, level: nat, next: Token)
    requires Level(t) >= level && Precedence(next) < level && !next.Assign?
    ensures Follows(t, next)
  {
  }

  /** A loop at what is left: a sign takes it up, an operand ends it. */
  lemma LoopResumes(v: int, st: Vars, tail: Option<Tree>, s: string, p: nat, q: nat, min: nat, level: nat)
    requires p <= |s| && q <= |s| && StandsBefore(s, p, tail, q)
    requires min <= level <= 5 && Precedence(NextToken(s, q).tok) < level && !NextToken(s, q).tok.Assign?
    requires tail.Some? ==> Level(tail.value) >= level
    ensures Matches(ParseLoop(s, v, p, st, min), Resume(v, st, tail), s, q, min)
    decreases if tail.Some? then Size(tail.value) else 0, 2
  {
    hide ParseLoop, ParseExpression, NextToken, ExecSum, Bare, Follows;
    match tail {
      case None => LoopStops(s, v, p, st, min);
      case Some(t) =>
        FollowsFromLevel(t, level, NextToken(s, q).tok);
        RunsSum(v, st, t, s, p, q, min);
    }
  }

  /** The text of e, wherever it stands. */
  lemma {:induction false} RunsBare(e: Tree, s: string, p: nat, q: nat, st: Vars, min: nat)
    requires p <= |s| && q <= |s| && Lexes(s, p, Bare(e), q)
    requires min <= Level(e) && Follows(e, NextToken(s, q).tok)
    ensures Matches(ParseExpression(s, p, st, min), Exec(e, st), s, q, min)
    decreases Size(e), 1
  {
    hide ParseExpression, ParseLoop, NextToken, Print, ExecInfix, ExecCond, ExecBoth, ExecSet, ExecPrinted;
    match e {
      case Num(n) => RunsNumber(s, p, q, n, st, min);
      case Var(x) => RunsVariable(s, p, q, x, st, min);
      case Unary(op, a) => RunsUnary(op, a, s, p, q, st, min);
      case Binary(op, l, r) => RunsBinary(op, l, r, s, p, q, st, min);
      case Cond(c, yes, no) => RunsTernary(c, yes, no, s, p, q, st, min);
      case Set(op, x, rhs) => RunsSet(op, x, rhs, s, p, q, st);
      case Both(a, b) =>
        var q1 := LexesSplit(s, p, Print(a, 1), [Comma] + Print(b, 2), q);
        TakeOne(s, q1, Comma, Print(b, 2), q);
        RunsPrinted(a, 1, s, p, q1, st, min);
        RunsBoth(ParseExpression(s, p, st, min), ExecPrinted(a, 1, st), b, s, q1, q, min);
    }
  }

  lemma {:induction false} RunsBinary(op: BinOp, l: Tree, r: Tree, s: string, p: nat, q: nat, st: Vars, min: nat)
    requires p <= |s| && q <= |s| && Lexes(s, p, Bare(Binary(op, l, r)), q)
    requires min <= Precedence(Infix(op)) && Follows(Binary(op, l, r), NextToken(s, q).tok)
    ensures Matches(ParseExpression(s, p, st, min), Exec(Binary(op, l, r), st), s, q, min)
    decreases Size(Binary(op, l, r)), 0
  {
    hide ParseExpression, ParseLoop, NextToken, Print, ExecInfix, ExecPrinted;
    var prec := Precedence(Infix(op));
    var q1 := LexesSplit(s, p, Print(l, prec), [Infix(op)] + Print(r, prec + 1), q);
    TakeOne(s, q1, Infix(op), Print(r, prec + 1), q);
    RunsPrinted(l, prec, s, p, q1, st, min);
    RunsInfix(op, ParseExpression(s, p, st, min), ExecPrinted(l, prec, st), r, s, q1, q, min);
  }

  lemma {:induction false} RunsTernary(c: Tree, yes: Tree, no: Tree, s: string, p: nat, q: nat, st: Vars, min: nat)
    requires p <= |s| && q <= |s| && Lexes(s, p, Bare(Cond(c, yes, no)), q)
    requires min <= 3 && Follows(Cond(c, yes, no), NextToken(s, q).tok)
    ensures Matches(ParseExpression(s, p, st, min), Exec(Cond(c, yes, no), st), s, q, min)
    decreases Size(Cond(c, yes, no)), 0
  {
    hide ParseExpression, ParseLoop, NextToken, Print, ExecCond, ExecPrinted;
    var q1 := LexesSplit(s, p, Print(c, 4), [Question] + (Print(yes, 0) + ([Colon] + Print(no, 3))), q);
    TakeOne(s, q1, Question, Print(yes, 0) + ([Colon] + Print(no, 3)), q);
    RunsPrinted(c, 4, s, p, q1, st, min);
    RunsCond(ParseExpression(s, p, st, min), ExecPrinted(c, 4, st), yes, no, s, q1, q, min);
  }

  /** e as printed for a level, at any minimum up to it. */
  lemma {:induction false} RunsPrinted(e: Tree, level: nat, s: string, p: nat, q: nat, st: Vars, min: nat)
    requires p <= |s| && q <= |s| && Lexes(s, p, Print(e, level), q)
    requires min <= level && FollowsAt(e, level, NextToken(s, q).tok)
    ensures Matches(ParseExpression(s, p, st, min), ExecPrinted(e, level, st), s, q, min)
    decreases Size(e), 2
  {
    hide Exec, ParseExpression, ParseLoop, NextToken, Bare;
    if Level(e) < level {
      TakeOne(s, p, LParen, Bare(e) + [RParen], q);
      var open := NextToken(s, p).pos;
      var mid := LexesSplit(s, open, Bare(e), [RParen], q);
      TakeOne(s, mid, RParen, [], q);
      assert Lexes(s, NextToken(s, mid).pos, [], q);
      FollowsFromLevel0(e);
      RunsBare(e, s, open, mid, st, 0);
      RunsParens(s, p, open, mid, q, st, min, Exec(e, st));
    } else {
      RunsBare(e, s, p, q, st, min);
    }
  }

  lemma FollowsFromLevel0(e: Tree)
    ensures Follows(e, RParen) && Follows(e, Colon)
  {
  }

  /** Inside parentheses a cut routine does not find the closing one. */
  lemma RunsParens(s: string, p: nat, open: nat, mid: nat, q: nat, st: Vars, min: nat, r: Ending)
    requires p <= |s| && open <= |s| && mid <= |s| && q <= |s|
    requires NextToken(s, p) == Lexed(LParen, open) && NextToken(s, mid) == Lexed(RParen, q)
    requires Matches(ParseExpression(s, open, st, 0), r, s, mid, 0)
    ensures Matches(ParseExpression(s, p, st, min),
                    if r.Cut? then Done(Meaning(Error("Expected ')'"), r.st)) else r, s, q, min)
  {
    hide ParseExpression, ParseLoop, NextToken, StandsBefore;
    var inner := ParseExpression(s, open, st, 0);
    if r.Cut? {
      CutToken(s, inner.pos, r.tail, mid);
    } else {
      Completes(inner, r.m, s, mid, 0);
    }
    StartsWithOperand(s, p, st, min, ParsePrimary(s, p, st));
  }

  lemma RunsNumber(s: string, p: nat, q: nat, n: nat, st: Vars, min: nat)
    requires p <= |s| && q <= |s| && Lexes(s, p, [Number(n)], q)
    ensures ParseExpression(s, p, st, min) == ParseLoop(s, n, q, st, min)
  {
    hide ParseExpression, ParseLoop, NextToken;
    assert [Number(n)] == [Number(n)] + [];
    TakeOne(s, p, Number(n), [], q);
    StartsWithOperand(s, p, st, min, ParsePrimary(s, p, st));
  }

  lemma RunsVariable(s: string, p: nat, q: nat, x: string, st: Vars, min: nat)
    requires p <= |s| && q <= |s| && Lexes(s, p, [Variable(x)], q) && !NextToken(s, q).tok.Assign?
    ensures ParseExpression(s, p, st, min) == ParseLoop(s, ReadVar(st, x), q, st, min)
  {
    hide ParseExpression, ParseLoop, NextToken;
    assert [Variable(x)] == [Variable(x)] + [];
    TakeOne(s, p, Variable(x), [], q);
    StartsWithOperand(s, p, st, min, ParsePrimary(s, p, st));
  }

  lemma {:induction false} RunsUnary(op: UnaryOp, a: Tree, s: string, p: nat, q: nat, st: Vars, min: nat)
    requires p <= |s| && q <= |s| && Lexes(s, p, Bare(Unary(op, a)), q) && !NextToken(s, q).tok.Assign?
    ensures Matches(ParseExpression(s, p, st, min), Exec(Unary(op, a), st), s, q, min)
    decreases Size(a), 3
  {
    hide ParseExpression, ParseLoop, NextToken, ExecPrinted, Print;
    TakeOne(s, p, UnaryToken(op), Print(a, 14), q);
    var p1 := NextToken(s, p).pos;
    TightFollows(a, NextToken(s, q).tok);
    RunsPrinted(a, 14, s, p1, q, st, 14);
    var got, r := ParseExpression(s, p1, st, 14), ExecPrinted(a, 14, st);
    Completes(got, r.m, s, q, 14);
    StartsWithUnary(s, p, st, min, op, got);
  }

  lemma TightFollows(a: Tree, next: Token)
    requires !next.Assign?
    ensures FollowsAt(a, 14, next)
  {
  }

  /** An operator and its right side, after a left side that ends at q1. */
  lemma {:induction false} RunsInfix(op: BinOp, got: Parsed, left: Ending, r: Tree, s: string, q1: nat, q: nat,
                                     min: nat)
    requires q1 <= |s| && q <= |s| && NextToken(s, q1).tok == Infix(op)
    requires Lexes(s, NextToken(s, q1).pos, Print(r, Precedence(Infix(op)) + 1), q)
    requires StandsLeft(left, Precedence(Infix(op))) && (left.Cut? ==> Precedence(Infix(op)) < 6)
    requires Matches(got, left, s, q1, min) && min <= Precedence(Infix(op))
    requires !NextToken(s, q).tok.Assign? && Precedence(NextToken(s, q).tok) <= Precedence(Infix(op))
    ensures Matches(got, ExecInfix(op, left, r), s, q, min)
    decreases Size(r), 4
  {
    hide ParseExpression, ParseLoop, NextToken, ExecPrinted, Print, StandsBefore, SignLed;
    var prec, p2 := Precedence(Infix(op)), NextToken(s, q1).pos;
    match left {
      case Cut(v, st, tail) => JoinsInfix(op, tail, r, s, got.pos, q1, q);
      case Done(ml) =>
        if ml.out.Value? {
          if Decided(op, ml.out.v) {
            LoopReturnsDecided(s, ml.out.v, q1, ml.st, min, op);
            DecidedLeaves(op, r, s, p2, q);
          } else {
            RunsRight(op, ml.out.v, ml.st, r, s, q1, q, min);
          }
        }
    }
  }

  /** The tail of a left side, the operator and the right side are the text of one tree. */
  lemma JoinsInfix(op: BinOp, tail: Option<Tree>, r: Tree, s: string, p: nat, q1: nat, q: nat)
    requires p <= |s| && q1 <= |s| && q <= |s| && StandsBefore(s, p, tail, q1)
    requires NextToken(s, q1).tok == Infix(op)
    requires Lexes(s, NextToken(s, q1).pos, Print(r, Precedence(Infix(op)) + 1), q)
    requires tail.Some? ==> Level(tail.value) >= Precedence(Infix(op))
    ensures StandsBefore(s, p, if tail.Some? then Some(Binary(op, tail.value, r)) else None, q)
  {
    hide NextToken;
    if tail.Some? {
      var right := [Infix(op)] + Print(r, Precedence(Infix(op)) + 1);
      PrintsBare(tail.value, Precedence(Infix(op)));
      assert right[1..] == Print(r, Precedence(Infix(op)) + 1);
      LexesJoin(s, p, Bare(tail.value), q1, right, q);
    }
  }

  lemma DecidedLeaves(op: BinOp, r: Tree, s: string, p: nat, q: nat)
    requires p <= |s| && q <= |s| && Lexes(s, p, Print(r, Precedence(Infix(op)) + 1), q)
    ensures StandsBefore(s, p, if Level(r) > Precedence(Infix(op)) && SignLed(r) then Some(r) else None, q)
  {
    hide NextToken, Bare;
    var level := Precedence(Infix(op)) + 1;
    SignOrOperand(r, level);
    FirstTokenIsFirst(r, level);
  }

  /** The right side of an operator the left side v does not decide. */
  lemma {:induction false} RunsRight(op: BinOp, v: int, st: Vars, r: Tree, s: string, q1: nat, q: nat, min: nat)
    requires q1 <= |s| && q <= |s| && NextToken(s, q1).tok == Infix(op) && !Decided(op, v)
    requires Lexes(s, NextToken(s, q1).pos, Print(r, Precedence(Infix(op)) + 1), q)
    requires min <= Precedence(Infix(op)) && !NextToken(s, q).tok.Assign?
    requires Precedence(NextToken(s, q).tok) <= Precedence(Infix(op))
    ensures Matches(ParseLoop(s, v, q1, st, min), ExecInfix(op, Done(Meaning(Value(v), st)), r), s, q, min)
    decreases Size(r), 3
  {
    hide ParseExpression, ParseLoop, NextToken, ExecPrinted, Print, StandsBefore, Apply, Resume;
    var prec, p2 := Precedence(Infix(op)), NextToken(s, q1).pos;
    var got, right := ParseExpression(s, p2, st, prec + 1), ExecPrinted(r, prec + 1, st);
    RightFollows(r, prec + 1, NextToken(s, q).tok);
    RunsPrinted(r, prec + 1, s, p2, q, st, prec + 1);
    LoopTakesInfix(s, v, q1, st, min, op, got);
    match right {
      case Done(mr) => Completes(got, mr, s, q, prec + 1);
      case Cut(v2, st2, tail) =>
        var w := Apply(op, v, v2);
        if w.Value? {
          LoopResumes(w.v, st2, tail, s, got.pos, q, min, prec + 1);
        }
    }
  }

  lemma RightFollows(r: Tree, level: nat, next: Token)
    requires !next.Assign? && Precedence(next) < level
    ensures FollowsAt(r, level, next)
  {
    if Level(r) >= level {
      FollowsFromLevel(r, level, next);
    }
  }

  /** The branches after a condition that ends at q1. */
  lemma {:induction false} RunsCond(got: Parsed, left: Ending, yes: Tree, no: Tree, s: string, q1: nat, q: nat,
                                    min: nat)
    requires q1 <= |s| && q <= |s| && NextToken(s, q1).tok == Question
    requires Lexes(s, NextToken(s, q1).pos, Print(yes, 0) + ([Colon] + Print(no, 3)), q)
    requires StandsLeft(left, 4)
    requires Matches(got, left, s, q1, min) && min <= 3
    requires !NextToken(s, q).tok.Assign? && Precedence(NextToken(s, q).tok) < 3
    ensures Matches(got, ExecCond(left, yes, no), s, q, min)
    decreases Size(yes) + Size(no), 3
  {
    hide ParseExpression, ParseLoop, NextToken, ExecPrinted, Print, StandsBefore, Resume;
    var p2 := NextToken(s, q1).pos;
    match left {
      case Cut(v, st, tail) => JoinsCond(tail, yes, no, s, got.pos, q1, q);
      case Done(mc) =>
        if mc.out.Value? {
          var q2 := LexesSplit(s, p2, Print(yes, 0), [Colon] + Print(no, 3), q);
          TakeOne(s, q2, Colon, Print(no, 3), q);
          FollowsFromLevel0(yes);
          RunsPrinted(yes, 0, s, p2, q2, mc.st, 0);
          var gotYes, my := ParseExpression(s, p2, mc.st, 0), ExecPrinted(yes, 0, mc.st);
          if my.Cut? {
            CutToken(s, gotYes.pos, my.tail, q2);
            LoopLosesColon(s, mc.out.v, q1, mc.st, min, gotYes);
          } else {
            Completes(gotYes, my.m, s, q2, 0);
            LoopTakesQuestion(s, mc.out.v, q1, mc.st, min, gotYes);
            if my.m.out.Value? {
              RunsSecondBranch(mc, my.m, no, s, q1, q2, q, min);
            }
          }
        }
    }
  }

  lemma JoinsCond(tail: Option<Tree>, yes: Tree, no: Tree, s: string, p: nat, q1: nat, q: nat)
    requires p <= |s| && q1 <= |s| && q <= |s| && StandsBefore(s, p, tail, q1)
    requires NextToken(s, q1).tok == Question
    requires Lexes(s, NextToken(s, q1).pos, Print(yes, 0) + ([Colon] + Print(no, 3)), q)
    requires tail.Some? ==> Level(tail.value) >= 4
    ensures StandsBefore(s, p, if tail.Some? then Some(Cond(tail.value, yes, no)) else None, q)
  {
    hide NextToken;
    if tail.Some? {
      var right := [Question] + (Print(yes, 0) + ([Colon] + Print(no, 3)));
      PrintsBare(tail.value, 4);
      assert right[1..] == Print(yes, 0) + ([Colon] + Print(no, 3));
      LexesJoin(s, p, Bare(tail.value), q1, right, q);
    }
  }

  lemma LoopLosesColon(s: string, v: int, p: nat, st: Vars, min: nat, yes: Parsed)
    requires p <= |s| && NextToken(s, p).tok == Question && min <= 3
    requires yes == ParseExpression(s, NextToken(s, p).pos, st, 0)
    requires yes.out.Value? && !NextToken(s, yes.pos).tok.Colon?
    ensures var got := ParseLoop(s, v, p, st, min);
            got.out == Error("Expected ':' in ternary expression") && got.st == yes.st
  {
    hide ParseExpression, NextToken;
  }

  lemma {:induction false} RunsSecondBranch(mc: Meaning, my: Meaning, no: Tree, s: string, q1: nat, q2: nat, q: nat,
                                            min: nat)
    requires q1 <= |s| && q2 <= |s| && q <= |s| && NextToken(s, q2).tok == Colon && min <= 3
    requires Lexes(s, NextToken(s, q2).pos, Print(no, 3), q) && mc.out.Value? && my.out.Value?
    requires !NextToken(s, q).tok.Assign? && Precedence(NextToken(s, q).tok) < 3
    ensures var gotNo := ParseExpression(s, NextToken(s, q2).pos, my.st, 3);
            var v := if mc.out.v != 0 then my.out else gotNo.out;
            match ExecPrinted(no, 3, my.st)
            case Done(mn) => gotNo.out == mn.out && gotNo.st == mn.st && (mn.out.Value? ==> gotNo.pos == q)
            case Cut(w, st, tail) =>
              gotNo.out == Value(w) &&
              Matches(ParseLoop(s, v.v, gotNo.pos, gotNo.st, min), Resume(v.v, st, tail), s, q, min)
    decreases Size(no), 3
  {
    hide ParseExpression, ParseLoop, NextToken, ExecPrinted, Print, StandsBefore, Resume;
    var p3 := NextToken(s, q2).pos;
    RightFollows(no, 3, NextToken(s, q).tok);
    RunsPrinted(no, 3, s, p3, q, my.st, 3);
    var gotNo, right := ParseExpression(s, p3, my.st, 3), ExecPrinted(no, 3, my.st);
    match right {
      case Done(mn) => Completes(gotNo, mn, s, q, 3);
      case Cut(w, st, tail) => LoopResumes(if mc.out.v != 0 then my.out.v else w, st, tail, s, gotNo.pos, q, min, 3);
    }
  }

  /** An assignment, its right side first. */
  lemma {:induction false} RunsSet(op: Option<BinOp>, x: string, rhs: Tree, s: string, p: nat, q: nat, st: Vars)
    requires p <= |s| && q <= |s| && Lexes(s, p, Bare(Set(op, x, rhs)), q)
    requires Follows(Set(op, x, rhs), NextToken(s, q).tok)
    ensures Matches(ParseExpression(s, p, st, 0), Exec(Set(op, x, rhs), st), s, q, 0)
    decreases Size(rhs), 3
  {
    hide ParseExpression, ParseLoop, NextToken, ExecPrinted, Print, StandsBefore, Resume, ApplyAssign, ReadVar,
         WriteVar;
    TakeOne(s, p, Variable(x), [Assign(op)] + Print(rhs, 0), q);
    var p1 := NextToken(s, p).pos;
    TakeOne(s, p1, Assign(op), Print(rhs, 0), q);
    var p2 := NextToken(s, p1).pos;
    RightFollows(rhs, 0, NextToken(s, q).tok);
    RunsPrinted(rhs, 0, s, p2, q, st, 0);
    var got, right := ParseExpression(s, p2, st, 0), ExecPrinted(rhs, 0, st);
    StartsWithOperand(s, p, st, 0, ParsePrimary(s, p, st));
    match right {
      case Done(m) => Completes(got, m, s, q, 0);
      case Cut(v, st1, tail) =>
        var w := ApplyAssign(op, ReadVar(st1, x), v);
        if w.Value? {
          LoopResumes(w.v, WriteVar(st1, x, w.v), tail, s, got.pos, q, 0, 0);
        }
    }
  }

  /** The second side of a comma, after a first side that ends at q1. */
  lemma {:induction false} RunsBoth(got: Parsed, left: Ending, b: Tree, s: string, q1: nat, q: nat, min: nat)
    requires q1 <= |s| && q <= |s| && NextToken(s, q1).tok == Comma
    requires Lexes(s, NextToken(s, q1).pos, Print(b, 2), q)
    requires StandsLeft(left, 1)
    requires Matches(got, left, s, q1, min) && min <= 1
    requires !NextToken(s, q).tok.Assign? && Precedence(NextToken(s, q).tok) <= 1
    ensures Matches(got, ExecBoth(left, b), s, q, min)
    decreases Size(b), 3
  {
    hide ParseExpression, ParseLoop, NextToken, ExecPrinted, Print, StandsBefore, Resume;
    var p2 := NextToken(s, q1).pos;
    match left {
      case Cut(v, st, tail) => JoinsBoth(tail, b, s, got.pos, q1, q);
      case Done(ma) =>
        if ma.out.Value? {
          RightFollows(b, 2, NextToken(s, q).tok);
          RunsPrinted(b, 2, s, p2, q, ma.st, 2);
          var gotB, right := ParseExpression(s, p2, ma.st, 2), ExecPrinted(b, 2, ma.st);
          LoopTakesComma(s, ma.out.v, q1, ma.st, min, gotB);
          match right {
            case Done(mb) => Completes(gotB, mb, s, q, 2);
            case Cut(_, st, tail) => LoopResumes(ma.out.v, st, tail, s, gotB.pos, q, min, 2);
          }
        }
    }
  }

  lemma JoinsBoth(tail: Option<Tree>, b: Tree, s: string, p: nat, q1: nat, q: nat)
    requires p <= |s| && q1 <= |s| && q <= |s| && StandsBefore(s, p, tail, q1)
    requires NextToken(s, q1).tok == Comma
    requires Lexes(s, NextToken(s, q1).pos, Print(b, 2), q)
    requires tail.Some? ==> Level(tail.value) >= 1
    ensures StandsBefore(s, p, if tail.Some? then Some(Both(tail.value, b)) else None, q)
  {
    hide NextToken;
    if tail.Some? {
      var right := [Comma] + Print(b, 2);
      PrintsBare(tail.value, 1);
      assert right[1..] == Print(b, 2);
      LexesJoin(s, p, Bare(tail.value), q1, right, q);
    }
  }

  /** The loop that holds v takes up a tree that starts with a sign. */
  lemma {:induction false} RunsSum(v: int, st: Vars, t: Tree, s: string, p: nat, q: nat, min: nat)
    requires p <= |s| && q <= |s| && SignLed(t) && Lexes(s, p, Bare(t), q)
    requires min <= 12 && min <= Level(t) && Follows(t, NextToken(s, q).tok) && Precedence(NextToken(s, q).tok) < 13
    ensures Matches(ParseLoop(s, v, p, st, min), ExecSum(v, st, t), s, q, min)
    decreases Size(t), 1
  {
    hide ParseExpression, ParseLoop, NextToken, Print, ExecInfix, ExecCond, ExecBoth, ExecFactor, Apply;
    if Level(t) >= 13 {
      RunsTerm(v, st, t, s, p, q, min);
    } else {
      match t {
        case Binary(op, l, r) =>
          var prec := Precedence(Infix(op));
          var q1 := LexesSplit(s, p, Print(l, prec), [Infix(op)] + Print(r, prec + 1), q);
          TakeOne(s, q1, Infix(op), Print(r, prec + 1), q);
          PrintsBare(l, prec);
          FollowsFromLevelLeft(l, Infix(op));
          RunsSum(v, st, l, s, p, q1, min);
          RunsInfix(op, ParseLoop(s, v, p, st, min), ExecSum(v, st, l), r, s, q1, q, min);
        case Cond(c, yes, no) =>
          var q1 := LexesSplit(s, p, Print(c, 4), [Question] + (Print(yes, 0) + ([Colon] + Print(no, 3))), q);
          TakeOne(s, q1, Question, Print(yes, 0) + ([Colon] + Print(no, 3)), q);
          PrintsBare(c, 4);
          FollowsFromLevelLeft(c, Question);
          RunsSum(v, st, c, s, p, q1, min);
          RunsCond(ParseLoop(s, v, p, st, min), ExecSum(v, st, c), yes, no, s, q1, q, min);
        case Both(a, b) =>
          var q1 := LexesSplit(s, p, Print(a, 1), [Comma] + Print(b, 2), q);
          TakeOne(s, q1, Comma, Print(b, 2), q);
          PrintsBare(a, 1);
          FollowsFromLevelLeft(a, Comma);
          RunsSum(v, st, a, s, p, q1, min);
          RunsBoth(ParseLoop(s, v, p, st, min), ExecSum(v, st, a), b, s, q1, q, min);
      }
    }
  }

  lemma {:induction false} RunsTerm(v: int, st: Vars, t: Tree, s: string, p: nat, q: nat, min: nat)
    requires p <= |s| && q <= |s| && SignLed(t) && Level(t) >= 13 && Lexes(s, p, Bare(t), q)
    requires min <= 12 && Follows(t, NextToken(s, q).tok) && Precedence(NextToken(s, q).tok) < 13
    ensures Matches(ParseLoop(s, v, p, st, min), ExecSum(v, st, t), s, q, min)
    decreases Size(t), 0, 1
  {
    hide ParseExpression, ParseLoop, NextToken, Bare, ExecFactor, Apply;
    SignComesFirst(t);
    var op, p1 := SignOf(t), NextToken(s, p).pos;
    RunsFactor(t, s, p1, q, st);
    var got := ParseExpression(s, p1, st, 13);
    Completes(got, ExecFactor(t, st).m, s, q, 13);
    LoopTakesInfix(s, v, p, st, min, op, got);
    SumsDoNotFail(op, v, got.out);
  }

  lemma PrintsBare(e: Tree, level: nat)
    requires Level(e) >= level
    ensures Print(e, level) == Bare(e)
  {
  }

  /** A left operand may be followed by its operator. */
  lemma FollowsFromLevelLeft(l: Tree, next: Token)
    requires next.Infix? || next.Question? || next.Comma?
    requires Level(l) >= Precedence(next) && (next.Question? ==> Level(l) >= 4)
    ensures Follows(l, next)
  {
  }

  lemma SumsDoNotFail(op: BinOp, v: int, out: Outcome)
    requires op == Add || op == Sub
    ensures out.Value? ==> Apply(op, v, out.v).Value?
  {
  }

  /** The text behind the sign, up to the last multiplication. */
  lemma {:induction false} RunsFactor(t: Tree, s: string, p: nat, q: nat, st: Vars)
    requires p <= |s| && q <= |s| && SignLed(t) && Level(t) >= 13
    requires Bare(t) != [] && Lexes(s, p, Bare(t)[1..], q) && Follows(t, NextToken(s, q).tok)
    ensures Matches(ParseExpression(s, p, st, 13), ExecFactor(t, st), s, q, 13)
    decreases Size(t), 0, 0
  {
    hide ParseExpression, ParseLoop, NextToken, Print, ExecInfix, ExecPrinted;
    match t {
      case Unary(op, a) =>
        assert Bare(t)[1..] == Print(a, 14);
        TightFollows(a, NextToken(s, q).tok);
        RunsPrinted(a, 14, s, p, q, st, 13);
      case Binary(op, l, r) =>
        PrintsBare(l, 13);
        SignComesFirst(l);
        assert Bare(t)[1..] == Bare(l)[1..] + ([Infix(op)] + Print(r, 14));
        var q1 := LexesSplit(s, p, Bare(l)[1..], [Infix(op)] + Print(r, 14), q);
        TakeOne(s, q1, Infix(op), Print(r, 14), q);
        FollowsFromLevelLeft(l, Infix(op));
        RunsFactor(l, s, p, q1, st);
        RunsInfix(op, ParseExpression(s, p, st, 13), ExecFactor(l, st), r, s, q1, q, 13);
    }
  }
}
