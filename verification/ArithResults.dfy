/** What the text of a tree evaluates to, and how that compares with the
    tree's plain meaning and with C's (section 2.6.4 of the POSIX.1-2017 Shell
    Command Language). */
module ArithResults {
  import opened Options
  import opened Strings
  import opened ArithTokens
  import opened ArithValues
  import opened ArithParser
  import opened ArithTrees
  import opened ArithRuns

  // --------------------------------------------------- the text of any tree

  /** The outcome and the variables of a whole evaluation. */
  function Final(r: Ending): (Outcome, Vars) {
    match r
    case Done(m) => (m.out, m.st)
    case Cut(_, st, _) => (Error("Unexpected tokens after expression"), st)
  }

  /** Whatever reads as the printed tokens of a tree and then as the end
      evaluates to the tree's ending. */
  lemma TextEnds(e: Tree, s: string, q: nat, st: Vars)
    requires q <= |s| && Lexes(s, 0, Print(e, 0), q) && NextToken(s, q).tok.Eof?
    ensures Evaluate(s, st) == Final(Exec(e, st))
  {
    hide ParseExpression, ParseLoop, Exec, NextToken, Print, Bare, StandsBefore;
    FirstTokenIsFirst(e, 0);
    FirstIsNotEnd(e, 0);
    RightFollows(e, 0, Eof);
    RunsPrinted(e, 0, s, 0, q, st, 0);
    var got, r := ParseExpression(s, 0, st, 0), Exec(e, st);
    match r {
      case Done(m) => Completes(got, m, s, q, 0);
      case Cut(_, _, tail) => CutToken(s, got.pos, tail, q);
    }
  }

  lemma FirstIsNotEnd(e: Tree, level: nat)
    ensures FirstToken(e, level) != Eof
  {
  }

  /** For every tree, store and way to write the tree's tokens, with or without
      blanks, with no condition: the text evaluates to the tree's ending. */
  lemma EveryTextEnds(e: Tree, s: string, st: Vars)
    requires Writes(s, Print(e, 0))
    ensures Evaluate(s, st) == Final(Exec(e, st))
  {
    hide ParseExpression, NextToken, Writes, Print, Exec, Evaluate, Final;
    var q := WritingReadsBack(s, Print(e, 0));
    TextEnds(e, s, q, st);
  }

  // ------------------------------------------------------ one step at a time

  lemma PrintedIs(e: Tree, level: nat, st: Vars)
    ensures ExecPrinted(e, level, st) ==
            if Level(e) < level && Exec(e, st).Cut? then Done(Meaning(Error("Expected ')'"), Exec(e, st).st))
            else Exec(e, st)
  {
    hide Exec;
  }

  lemma BinaryIs(op: BinOp, l: Tree, r: Tree, st: Vars)
    ensures Exec(Binary(op, l, r), st) == ExecInfix(op, ExecPrinted(l, Precedence(Infix(op)), st), r)
  {
    hide ExecPrinted, ExecInfix;
  }

  lemma CondIs(c: Tree, yes: Tree, no: Tree, st: Vars)
    ensures Exec(Cond(c, yes, no), st) == ExecCond(ExecPrinted(c, 4, st), yes, no)
  {
    hide ExecPrinted, ExecCond;
  }

  lemma SetIs(op: Option<BinOp>, x: string, rhs: Tree, st: Vars)
    ensures Exec(Set(op, x, rhs), st) == ExecSet(op, x, Exec(rhs, st), Size(rhs))
  {
    hide ExecSet;
    PrintedIs(rhs, 0, st);
  }

  lemma BothIs(a: Tree, b: Tree, st: Vars)
    ensures Exec(Both(a, b), st) == ExecBoth(ExecPrinted(a, 1, st), b)
  {
    hide ExecPrinted, ExecBoth;
  }

  /** The right side r of an operator whose left side was evaluated to ml. */
  lemma InfixAfter(op: BinOp, ml: Meaning, r: Tree)
    requires ml.out.Value? && !Decided(op, ml.out.v)
    ensures ExecInfix(op, Done(ml), r) ==
            match ExecPrinted(r, Precedence(Infix(op)) + 1, ml.st)
            case Done(mr) => Done(if mr.out.Error? then mr else mr.(out := Apply(op, ml.out.v, mr.out.v)))
            case Cut(v, st, tail) =>
              var w := Apply(op, ml.out.v, v);
              if w.Error? then Done(Meaning(w, st)) else Resume(w.v, st, tail)
  {
    hide ExecPrinted, Apply, Resume;
  }

  lemma CondAfter(mc: Meaning, my: Meaning, yes: Tree, no: Tree)
    requires mc.out.Value? && my.out.Value? && ExecPrinted(yes, 0, mc.st) == Done(my)
    ensures ExecCond(Done(mc), yes, no) ==
            match ExecPrinted(no, 3, my.st)
            case Done(mn) => Done(if mn.out.Error? then mn else mn.(out := if mc.out.v != 0 then my.out else mn.out))
            case Cut(v, st, tail) => Resume(if mc.out.v != 0 then my.out.v else v, st, tail)
  {
    hide ExecPrinted, Resume;
  }

  lemma BothAfter(ma: Meaning, b: Tree)
    requires ma.out.Value?
    ensures ExecBoth(Done(ma), b) ==
            match ExecPrinted(b, 2, ma.st)
            case Done(mb) => Done(if mb.out.Error? then mb else mb.(out := ma.out))
            case Cut(_, st, tail) => Resume(ma.out.v, st, tail)
  {
    hide ExecPrinted, Resume;
  }

  // ------------------------------------------------- no left side decides

  /** Then the ending is the plain meaning. */
  lemma {:induction false} UndecidedEnds(e: Tree, st: Vars)
    requires Undecided(e, st)
    ensures Exec(e, st) == Done(Denote(e, st))
    decreases e
  {
    match e {
      case Num(_) =>
      case Var(_) =>
      case Unary(_, a) => UndecidedEnds(a, st);
      case Binary(op, l, r) =>
        UndecidedEnds(l, st);
        if Denote(l, st).out.Value? {
          UndecidedEnds(r, Denote(l, st).st);
        }
        InfixEnds(op, l, r, st);
      case Cond(c, yes, no) =>
        UndecidedEnds(c, st);
        var mc := Denote(c, st);
        if mc.out.Value? {
          UndecidedEnds(yes, mc.st);
          if Denote(yes, mc.st).out.Value? {
            UndecidedEnds(no, Denote(yes, mc.st).st);
          }
        }
        CondEnds(c, yes, no, st, mc, Denote(yes, mc.st));
      case Set(_, _, rhs) => UndecidedEnds(rhs, st);
      case Both(a, b) =>
        UndecidedEnds(a, st);
        if Denote(a, st).out.Value? {
          UndecidedEnds(b, Denote(a, st).st);
        }
        BothEnds(a, b, st, Denote(a, st));
    }
  }

  lemma InfixEnds(op: BinOp, l: Tree, r: Tree, st: Vars)
    requires Exec(l, st) == Done(Denote(l, st))
    requires var ml := Denote(l, st);
             ml.out.Value? ==> !Decided(op, ml.out.v) && Exec(r, ml.st) == Done(Denote(r, ml.st))
    ensures Exec(Binary(op, l, r), st) == Done(Denote(Binary(op, l, r), st))
  {
    hide Exec, ExecPrinted, ExecInfix, Denote, Apply;
    var ml := Denote(l, st);
    PrintedIs(l, Precedence(Infix(op)), st);
    BinaryIs(op, l, r, st);
    BinaryMeans(op, l, r, st);
    if ml.out.Value? {
      PrintedIs(r, Precedence(Infix(op)) + 1, ml.st);
      InfixAfter(op, ml, r);
    } else {
      ErrorStays(op, ml, r);
    }
  }

  lemma CondEnds(c: Tree, yes: Tree, no: Tree, st: Vars, mc: Meaning, my: Meaning)
    requires mc == Denote(c, st) && my == Denote(yes, mc.st) && Exec(c, st) == Done(mc)
    requires mc.out.Value? ==> Exec(yes, mc.st) == Done(my)
    requires mc.out.Value? && my.out.Value? ==> Exec(no, my.st) == Done(Denote(no, my.st))
    ensures Exec(Cond(c, yes, no), st) == Done(Denote(Cond(c, yes, no), st))
  {
    hide Exec, ExecPrinted, Apply, ApplyAssign, Resume;
    CondIs(c, yes, no, st);
    PrintedIs(c, 4, st);
    PrintedIs(yes, 0, mc.st);
    PrintedIs(no, 3, my.st);
  }

  lemma BothEnds(a: Tree, b: Tree, st: Vars, ma: Meaning)
    requires ma == Denote(a, st) && Exec(a, st) == Done(ma)
    requires ma.out.Value? ==> Exec(b, ma.st) == Done(Denote(b, ma.st))
    ensures Exec(Both(a, b), st) == Done(Denote(Both(a, b), st))
  {
    hide Exec, ExecPrinted, Apply, ApplyAssign, Resume;
    BothIs(a, b, st);
    PrintedIs(a, 1, st);
    PrintedIs(b, 2, ma.st);
  }

  lemma ErrorStays(op: BinOp, ml: Meaning, r: Tree)
    requires ml.out.Error?
    ensures ExecInfix(op, Done(ml), r) == Done(ml)
  {
  }

  lemma BinaryMeans(op: BinOp, l: Tree, r: Tree, st: Vars)
    ensures var ml := Denote(l, st); var mr := Denote(r, ml.st);
            Denote(Binary(op, l, r), st) ==
            if ml.out.Error? then ml else if mr.out.Error? then mr else mr.(out := Apply(op, ml.out.v, mr.out.v))
  {
    hide Apply;
  }

  /** Parsing the bare text of e, wherever it stands. */
  lemma ParsesBare(e: Tree, s: string, p: nat, q: nat, st: Vars, min: nat)
    requires p <= |s| && q <= |s| && Lexes(s, p, Bare(e), q)
    requires Undecided(e, st) && min <= Level(e) && Follows(e, NextToken(s, q).tok)
    ensures Continues(ParseExpression(s, p, st, min), Denote(e, st), s, q, min)
  {
    hide ParseExpression, ParseLoop, NextToken, Bare, Exec, Denote, Undecided;
    UndecidedEnds(e, st);
    RunsBare(e, s, p, q, st, min);
  }

  /** An assignment: its right side, then the old value, then the write. */
  lemma ParsesSet(op: Option<BinOp>, x: string, rhs: Tree, s: string, p: nat, q: nat, st: Vars)
    requires p <= |s| && q <= |s| && Lexes(s, p, Bare(Set(op, x, rhs)), q)
    requires Undecided(rhs, st) && Follows(Set(op, x, rhs), NextToken(s, q).tok)
    ensures Continues(ParseExpression(s, p, st, 0), Denote(Set(op, x, rhs), st), s, q, 0)
  {
    hide ParseExpression, ParseLoop, NextToken, Bare, Denote;
    ParsesBare(Set(op, x, rhs), s, p, q, st, 0);
  }

  /** The evaluator consumes exactly the printed tokens of a tree and returns
      its value and variables, or its first error; what follows must only not
      start with a token that belongs to the expression. */
  lemma PrintedTreesParse(e: Tree, s: string, q: nat, st: Vars)
    requires q <= |s| && Lexes(s, 0, Print(e, 0), q) && Undecided(e, st)
    requires !NextToken(s, q).tok.Assign? && Precedence(NextToken(s, q).tok) < 0
    ensures var got, m := ParseExpression(s, 0, st, 0), Denote(e, st);
            && got.out == m.out && got.st == m.st
            && (m.out.Value? ==> got.pos == q)
  {
    hide ParseExpression, ParseLoop, NextToken, Bare, Denote, Undecided;
    FollowsFromLevel(e, 0, NextToken(s, q).tok);
    ParsesBare(e, s, 0, q, st, 0);
    Completes(ParseExpression(s, 0, st, 0), Denote(e, st), s, q, 0);
  }

  /** The evaluation accepts whatever follows the tree as long as the next
      token reads as the end of the input, which an unknown character does. */
  lemma TextEvaluates(e: Tree, s: string, q: nat, st: Vars)
    requires q <= |s| && Lexes(s, 0, Print(e, 0), q) && Undecided(e, st) && NextToken(s, q).tok.Eof?
    ensures Evaluate(s, st) == (Denote(e, st).out, Denote(e, st).st)
  {
    hide Evaluate, NextToken, Denote, Exec, Print, Undecided;
    UndecidedEnds(e, st);
    TextEnds(e, s, q, st);
  }

  /** End to end, on text: any spelling of the printed tokens, spaces between
      them, evaluates to what the tree means. */
  lemma SpelledTreesEvaluate(e: Tree, s: string, st: Vars)
    requires Undecided(e, st) && Writes(s, Print(e, 0))
    ensures Evaluate(s, st) == (Denote(e, st).out, Denote(e, st).st)
  {
    hide Evaluate, Writes, Denote, Exec, Print, Undecided;
    UndecidedEnds(e, st);
    EveryTextEnds(e, s, st);
  }

  // --------------------------------------- decided, and no sign to take up

  /** Nothing is left that any routine could take up. */
  predicate Fails(r: Ending) {
    match r
    case Done(m) => m.out.Error?
    case Cut(_, _, tail) => tail.None?
  }

  lemma FailsPrinted(e: Tree, level: nat, st: Vars)
    requires Fails(Exec(e, st))
    ensures Fails(ExecPrinted(e, level, st))
  {
    hide Exec, ExecPrinted;
    PrintedIs(e, level, st);
  }

  predicate InfixFails(op: BinOp, left: Ending, r: Tree) {
    match left
    case Cut(_, _, tail) => tail.None?
    case Done(ml) =>
      ml.out.Value? ==>
        var prec := Precedence(Infix(op));
        if Decided(op, ml.out.v) then !(Level(r) > prec && SignLed(r)) else Fails(ExecPrinted(r, prec + 1, ml.st))
  }

  lemma FailsInfix(op: BinOp, left: Ending, r: Tree)
    requires StandsLeft(left, Precedence(Infix(op))) && (left.Cut? ==> Precedence(Infix(op)) < 6)
    requires InfixFails(op, left, r)
    ensures Fails(ExecInfix(op, left, r))
  {
    hide ExecPrinted, Apply, ExecSum;
  }

  predicate CondFails(left: Ending, yes: Tree, no: Tree) {
    match left
    case Cut(_, _, tail) => tail.None?
    case Done(mc) =>
      mc.out.Value? ==>
        match ExecPrinted(yes, 0, mc.st)
        case Cut(_, _, _) => true
        case Done(my) => my.out.Value? ==> Fails(ExecPrinted(no, 3, my.st))
  }

  lemma FailsCond(left: Ending, yes: Tree, no: Tree)
    requires StandsLeft(left, 4) && CondFails(left, yes, no)
    ensures Fails(ExecCond(left, yes, no))
  {
    hide ExecPrinted, ExecSum;
  }

  lemma FailsSet(op: Option<BinOp>, x: string, right: Ending, size: nat)
    requires Leaves(right, 0, size) && Fails(right)
    ensures Fails(ExecSet(op, x, right, size))
  {
    hide ApplyAssign, ReadVar, WriteVar, ExecSum;
  }

  predicate BothFails(left: Ending, b: Tree) {
    match left
    case Cut(_, _, tail) => tail.None?
    case Done(ma) => ma.out.Value? ==> Fails(ExecPrinted(b, 2, ma.st))
  }

  lemma FailsBoth(left: Ending, b: Tree)
    requires StandsLeft(left, 1) && BothFails(left, b)
    ensures Fails(ExecBoth(left, b))
  {
    hide ExecPrinted, ExecSum;
  }

  lemma {:induction false} SignFreeFails(e: Tree, st: Vars)
    requires SignFree(e) && !Undecided(e, st)
    ensures Fails(Exec(e, st))
    decreases e, 1
  {
    hide ExecInfix, ExecCond, ExecBoth, ExecSet, Denote;
    match e {
      case Unary(_, a) => SignFreeFails(a, st); FailsPrinted(a, 14, st);
      case Binary(op, l, r) => SignFreeInfix(op, l, r, st);
      case Cond(c, yes, no) => SignFreeCond(c, yes, no, st);
      case Set(op, x, rhs) =>
        SignFreeFails(rhs, st);
        SetIs(op, x, rhs, st);
        FailsSet(op, x, Exec(rhs, st), Size(rhs));
      case Both(a, b) => SignFreeBoth(a, b, st);
    }
  }

  lemma {:induction false} SignFreeInfix(op: BinOp, l: Tree, r: Tree, st: Vars)
    requires SignFree(Binary(op, l, r)) && !Undecided(Binary(op, l, r), st)
    ensures Fails(Exec(Binary(op, l, r), st))
    decreases Binary(op, l, r), 0
  {
    hide Exec, ExecPrinted, ExecInfix, Denote;
    var prec := Precedence(Infix(op));
    BinaryIs(op, l, r, st);
    if !Undecided(l, st) {
      SignFreeFails(l, st);
      FailsPrinted(l, prec, st);
    } else {
      UndecidedEnds(l, st);
      PrintedIs(l, prec, st);
      var ml := Denote(l, st);
      if Decided(op, ml.out.v) {
        SignOrOperand(r, prec + 1);
      } else {
        SignFreeFails(r, ml.st);
        FailsPrinted(r, prec + 1, ml.st);
      }
    }
    FailsInfix(op, ExecPrinted(l, prec, st), r);
  }

  lemma {:induction false} SignFreeCond(c: Tree, yes: Tree, no: Tree, st: Vars)
    requires SignFree(Cond(c, yes, no)) && !Undecided(Cond(c, yes, no), st)
    ensures Fails(Exec(Cond(c, yes, no), st))
    decreases Cond(c, yes, no), 0
  {
    hide Exec, ExecPrinted, ExecCond, Denote;
    CondIs(c, yes, no, st);
    if !Undecided(c, st) {
      SignFreeFails(c, st);
      FailsPrinted(c, 4, st);
    } else {
      UndecidedEnds(c, st);
      PrintedIs(c, 4, st);
      var mc := Denote(c, st);
      if !Undecided(yes, mc.st) {
        SignFreeFails(yes, mc.st);
        FailsPrinted(yes, 0, mc.st);
      } else {
        UndecidedEnds(yes, mc.st);
        PrintedIs(yes, 0, mc.st);
        SignFreeFails(no, Denote(yes, mc.st).st);
        FailsPrinted(no, 3, Denote(yes, mc.st).st);
      }
    }
    FailsCond(ExecPrinted(c, 4, st), yes, no);
  }

  lemma {:induction false} SignFreeBoth(a: Tree, b: Tree, st: Vars)
    requires SignFree(Both(a, b)) && !Undecided(Both(a, b), st)
    ensures Fails(Exec(Both(a, b), st))
    decreases Both(a, b), 0
  {
    hide Exec, ExecPrinted, ExecBoth, Denote;
    BothIs(a, b, st);
    if !Undecided(a, st) {
      SignFreeFails(a, st);
      FailsPrinted(a, 1, st);
    } else {
      UndecidedEnds(a, st);
      PrintedIs(a, 1, st);
      SignFreeFails(b, Denote(a, st).st);
      FailsPrinted(b, 2, Denote(a, st).st);
    }
    FailsBoth(ExecPrinted(a, 1, st), b);
  }

  /** got failed, or stopped before the operand of a decided operator. */
  ghost predicate Stuck(got: Parsed, s: string) {
    got.out.Error? || (got.pos <= |s| && StartsOperand(NextToken(s, got.pos).tok))
  }

  lemma StuckBare(e: Tree, s: string, p: nat, q: nat, st: Vars, min: nat)
    requires p <= |s| && q <= |s| && Lexes(s, p, Bare(e), q)
    requires !Undecided(e, st) && SignFree(e) && min <= Level(e) && Follows(e, NextToken(s, q).tok)
    ensures Stuck(ParseExpression(s, p, st, min), s)
  {
    hide ParseExpression, ParseLoop, NextToken, Bare, Exec, Undecided, SignFree;
    SignFreeFails(e, st);
    RunsBare(e, s, p, q, st, min);
  }

  /** When no right side of "||" or "&&" starts with a sign, the text of a tree
      has a value exactly when nothing in it fails and no left side decides;
      a decided operator ends the evaluation as an error, wherever it stands. */
  lemma DecidedIsAnError(e: Tree, s: string, st: Vars)
    requires SignFree(e) && Writes(s, Print(e, 0))
    ensures Evaluate(s, st).0.Value? <==> Undecided(e, st) && Denote(e, st).out.Value?
  {
    hide Evaluate, Writes, Denote, Exec, Print, Undecided, SignFree;
    EveryTextEnds(e, s, st);
    if Undecided(e, st) {
      UndecidedEnds(e, st);
    } else {
      SignFreeFails(e, st);
    }
  }

  /** A decided operator is an error, sign or no sign, when it forms the whole
      text, and directly under parentheses. */
  lemma CutIsAnErrorThere(e: Tree, level: nat, st: Vars)
    requires Exec(e, st).Cut?
    ensures Final(Exec(e, st)) == (Error("Unexpected tokens after expression"), Exec(e, st).st)
    ensures level > Level(e) ==> ExecPrinted(e, level, st) == Done(Meaning(Error("Expected ')'"), Exec(e, st).st))
  {
    hide Exec;
  }

  /** And as a first branch. */
  lemma CutFirstBranchIsAnError(c: Tree, yes: Tree, no: Tree, st: Vars)
    requires Exec(c, st).Done? && Exec(c, st).m.out.Value? && Exec(yes, Exec(c, st).m.st).Cut?
    ensures Exec(Cond(c, yes, no), st) ==
            Done(Meaning(Error("Expected ':' in ternary expression"), Exec(yes, Exec(c, st).m.st).st))
  {
    hide Exec, ExecPrinted;
    CondIs(c, yes, no, st);
    PrintedIs(c, 4, st);
    PrintedIs(yes, 0, Exec(c, st).m.st);
  }

  /** A decided operator that forms the whole text fails however its right side
      starts: "l || r" and "l && r" have a value exactly when l does not decide
      and neither side fails. */
  lemma ShortCircuitIsAnError(op: BinOp, l: Tree, r: Tree, s: string, st: Vars)
    requires op == LogOr || op == LogAnd
    requires var m := Denote(l, st);
             Undecided(l, st) && (m.out.Value? && !Decided(op, m.out.v) ==> Undecided(r, m.st))
    requires Writes(s, Print(Binary(op, l, r), 0))
    ensures Evaluate(s, st) ==
      var ml, m := Denote(l, st), Denote(Binary(op, l, r), st);
      if ml.out.Value? && Decided(op, ml.out.v) then (Error("Unexpected tokens after expression"), ml.st)
      else (m.out, m.st)
  {
    hide Evaluate, Denote, Writes, Print;
    UndecidedEnds(l, st);
    EveryTextEnds(Binary(op, l, r), s, st);
    if !(Denote(l, st).out.Value? && Decided(op, Denote(l, st).out.v)) {
      UndecidedEnds(Binary(op, l, r), st);
    }
  }

  // -------------------------------------------- decided, and a sign follows

  /** The tree of the text of t with x before it: t's sign becomes an operator. */
  function Regrafted(x: Tree, t: Tree): (e: Tree)
    requires SignLed(t)
    ensures Level(e) == if Level(t) >= 13 then 12 else Level(t)
    ensures Size(e) <= Size(x) + Size(t)
  {
    if Level(t) >= 13 then Binary(SignOf(t), x, Factor(t))
    else match t
      case Binary(op, l, r) => Binary(op, Regrafted(x, l), r)
      case Cond(c, yes, no) => Cond(Regrafted(x, c), yes, no)
      case Both(a, b) => Both(Regrafted(x, a), b)
  }

  /** t without its sign, which stands before its first factor. */
  function Factor(t: Tree): (e: Tree)
    requires SignLed(t) && Level(t) >= 13
    ensures Size(e) < Size(t)
  {
    match t
    case Unary(_, a) => a
    case Binary(op, l, r) => Binary(op, Factor(l), r)
  }

  lemma {:induction false} FactorRuns(t: Tree, st: Vars)
    requires SignLed(t) && Level(t) >= 13
    ensures ExecPrinted(Factor(t), 13, st) == ExecFactor(t, st)
    decreases t
  {
    match t {
      case Unary(_, a) =>
      case Binary(op, l, r) => FactorRuns(l, st);
    }
  }

  /** Taking up a tree that starts with a sign is evaluating the regrafted tree. */
  lemma {:induction false} RegraftRuns(x: Tree, t: Tree, st: Vars)
    requires SignLed(t) && Exec(x, st).Done?
    ensures Exec(Regrafted(x, t), st) ==
            var m := Exec(x, st).m;
            if m.out.Error? then Done(m) else ExecSum(m.out.v, m.st, t)
    decreases t
  {
    hide Exec, ExecPrinted, ExecInfix, ExecCond, ExecBoth, ExecFactor;
    var m := Exec(x, st).m;
    if Level(t) >= 13 {
      RegraftTerm(x, t, st);
    } else {
      match t {
        case Binary(op, l, r) =>
          RegraftRuns(x, l, st);
          BinaryIs(op, Regrafted(x, l), r, st);
          PrintedIs(Regrafted(x, l), Precedence(Infix(op)), st);
          if m.out.Error? {
            ErrorStays(op, m, r);
          }
        case Cond(c, yes, no) =>
          RegraftRuns(x, c, st);
          CondIs(Regrafted(x, c), yes, no, st);
          PrintedIs(Regrafted(x, c), 4, st);
          if m.out.Error? {
            CondErrorStays(m, yes, no);
          }
        case Both(a, b) =>
          RegraftRuns(x, a, st);
          BothIs(Regrafted(x, a), b, st);
          PrintedIs(Regrafted(x, a), 1, st);
          if m.out.Error? {
            BothErrorStays(m, b);
          }
      }
    }
  }

  lemma CondErrorStays(m: Meaning, yes: Tree, no: Tree)
    requires m.out.Error?
    ensures ExecCond(Done(m), yes, no) == Done(m)
  {
  }

  lemma BothErrorStays(m: Meaning, b: Tree)
    requires m.out.Error?
    ensures ExecBoth(Done(m), b) == Done(m)
  {
  }

  lemma RegraftTerm(x: Tree, t: Tree, st: Vars)
    requires SignLed(t) && Level(t) >= 13 && Exec(x, st).Done?
    ensures Exec(Regrafted(x, t), st) ==
            var m := Exec(x, st).m;
            if m.out.Error? then Done(m) else ExecSum(m.out.v, m.st, t)
  {
    hide Exec, ExecPrinted, ExecInfix, ExecFactor, Factor, Apply;
    var m, op := Exec(x, st).m, SignOf(t);
    BinaryIs(op, x, Factor(t), st);
    PrintedIs(x, 12, st);
    if m.out.Error? {
      ErrorStays(op, m, Factor(t));
    } else {
      FactorRuns(t, m.st);
      InfixAfter(op, m, Factor(t));
    }
  }

  /** h is the part of e that was evaluated before a decided operator cut e
      short, leaving t. */
  ghost predicate CutsAt(e: Tree, h: Tree, t: Tree, st: Vars) {
    var r := Exec(e, st);
    r.Cut? && r.tail == Some(t) && SignLed(t) && Exec(h, st) == Done(Meaning(Value(r.v), r.st))
  }

  lemma DecidedCuts(op: BinOp, l: Tree, r: Tree, st: Vars)
    requires Exec(l, st).Done? && Exec(l, st).m.out.Value? && Decided(op, Exec(l, st).m.out.v)
    requires Level(r) > Precedence(Infix(op)) && SignLed(r)
    ensures CutsAt(Binary(op, l, r), l, r, st)
  {
    hide Exec, ExecPrinted;
    BinaryIs(op, l, r, st);
    PrintedIs(l, Precedence(Infix(op)), st);
  }

  lemma LeftCuts(op: BinOp, l: Tree, r: Tree, h: Tree, t: Tree, st: Vars)
    requires CutsAt(l, h, t, st) && Level(l) >= Precedence(Infix(op))
    ensures CutsAt(Binary(op, l, r), h, Binary(op, t, r), st)
  {
    hide Exec, ExecPrinted;
    BinaryIs(op, l, r, st);
    PrintedIs(l, Precedence(Infix(op)), st);
    TailLevel(l, st);
  }

  lemma TailLevel(e: Tree, st: Vars)
    ensures Leaves(Exec(e, st), Level(e), Size(e))
  {
  }

  // The four places where a routine takes up what a cut one left.

  lemma AssignmentTakesUp(op: Option<BinOp>, x: string, rhs: Tree, h: Tree, t: Tree, st: Vars)
    requires CutsAt(rhs, h, t, st)
    ensures Exec(Set(op, x, rhs), st) == Exec(Regrafted(Set(op, x, h), t), st)
  {
    hide Exec, ApplyAssign, ReadVar, WriteVar;
    SetIs(op, x, rhs, st);
    SetIs(op, x, h, st);
    RegraftRuns(Set(op, x, h), t, st);
  }

  lemma SecondBranchTakesUp(c: Tree, yes: Tree, no: Tree, h: Tree, t: Tree, st: Vars)
    requires Exec(c, st).Done? && Exec(c, st).m.out.Value?
    requires var mc := Exec(c, st).m; Exec(yes, mc.st).Done? && Exec(yes, mc.st).m.out.Value?
    requires CutsAt(no, h, t, Exec(yes, Exec(c, st).m.st).m.st) && Level(no) >= 3
    ensures Exec(Cond(c, yes, no), st) == Exec(Regrafted(Cond(c, yes, h), t), st)
  {
    hide Exec, ExecPrinted, ExecCond;
    var mc := Exec(c, st).m;
    var my := Exec(yes, mc.st).m;
    PrintedIs(c, 4, st);
    PrintedIs(yes, 0, mc.st);
    CondIs(c, yes, no, st);
    CondIs(c, yes, h, st);
    PrintedIs(no, 3, my.st);
    PrintedIs(h, 3, my.st);
    CondAfter(mc, my, yes, no);
    CondAfter(mc, my, yes, h);
    RegraftRuns(Cond(c, yes, h), t, st);
  }

  lemma RightSideTakesUp(op: BinOp, a: Tree, r: Tree, h: Tree, t: Tree, st: Vars)
    requires Exec(a, st).Done? && Exec(a, st).m.out.Value? && !Decided(op, Exec(a, st).m.out.v)
    requires CutsAt(r, h, t, Exec(a, st).m.st) && Level(r) > Precedence(Infix(op))
    ensures Exec(Binary(op, a, r), st) == Exec(Regrafted(Binary(op, a, h), t), st)
  {
    hide Exec, ExecPrinted, ExecInfix, ExecSum, Regrafted, Apply;
    var prec, ma := Precedence(Infix(op)), Exec(a, st).m;
    PrintedIs(a, prec, st);
    BinaryIs(op, a, r, st);
    BinaryIs(op, a, h, st);
    PrintedIs(r, prec + 1, ma.st);
    PrintedIs(h, prec + 1, ma.st);
    InfixAfter(op, ma, r);
    InfixAfter(op, ma, h);
    RegraftRuns(Binary(op, a, h), t, st);
  }

  lemma SecondSideTakesUp(a: Tree, b: Tree, h: Tree, t: Tree, st: Vars)
    requires Exec(a, st).Done? && Exec(a, st).m.out.Value?
    requires CutsAt(b, h, t, Exec(a, st).m.st) && Level(b) >= 2
    ensures Exec(Both(a, b), st) == Exec(Regrafted(Both(a, h), t), st)
  {
    hide Exec, ExecPrinted, ExecBoth;
    var ma := Exec(a, st).m;
    PrintedIs(a, 1, st);
    BothIs(a, b, st);
    BothIs(a, h, st);
    PrintedIs(b, 2, ma.st);
    PrintedIs(h, 2, ma.st);
    BothAfter(ma, b);
    BothAfter(ma, h);
    RegraftRuns(Both(a, h), t, st);
  }

  /** Every cut has a head: a tree that ends with the value and the store at
      which the routine stopped. */
  lemma {:induction false} CutHasHead(e: Tree, st: Vars) returns (h: Tree)
    requires Exec(e, st).Cut?
    ensures var r := Exec(e, st);
            Exec(h, st) == Done(Meaning(Value(r.v), r.st)) && Size(h) + SizeLeft(r) < Size(e)
    decreases Size(e), 2
  {
    hide Exec, ExecPrinted, ExecInfix, ExecCond, ExecSet, ExecBoth, Resume;
    h := e;
    match e {
      case Num(_) => NeverCut(e, st);
      case Var(_) => NeverCut(e, st);
      case Unary(_, _) => NeverCut(e, st);
      case Binary(op, l, r) => h := InfixHasHead(op, l, r, st);
      case Cond(c, yes, no) => h := CondHasHead(c, yes, no, st);
      case Set(op, x, rhs) =>
        SetIs(op, x, rhs, st);
        var right := Exec(rhs, st);
        SetCut(op, x, right, Size(rhs));
        var h1 := CutHasHead(rhs, st);
        SetIs(op, x, h1, st);
        SetDone(op, x, right.v, right.st, Size(h1));
        h := HeadOf(e, Set(op, x, h1), right.tail, st);
      case Both(a, b) => h := BothHasHead(a, b, st);
    }
  }

  lemma NeverCut(e: Tree, st: Vars)
    ensures Level(e) >= 6 ==> Exec(e, st).Done?
  {
  }

  /** x was evaluated when what was left of e was taken up. */
  lemma {:induction false} HeadOf(e: Tree, x: Tree, tail: Option<Tree>, st: Vars) returns (h: Tree)
    requires Exec(x, st).Done? && Exec(x, st).m.out.Value? && (tail.Some? ==> SignLed(tail.value))
    requires Exec(e, st) == Resume(Exec(x, st).m.out.v, Exec(x, st).m.st, tail) && Exec(e, st).Cut?
    requires Size(x) + (if tail.Some? then Size(tail.value) else 0) < Size(e)
    ensures var r := Exec(e, st);
            Exec(h, st) == Done(Meaning(Value(r.v), r.st)) && Size(h) + SizeLeft(r) < Size(e)
    decreases Size(e), 0
  {
    hide Exec, ExecSum;
    match tail {
      case None => h := x;
      case Some(t) =>
        RegraftRuns(x, t, st);
        h := CutHasHead(Regrafted(x, t), st);
    }
  }

  lemma SetCut(op: Option<BinOp>, x: string, right: Ending, size: nat)
    requires Leaves(right, 0, size) && ExecSet(op, x, right, size).Cut?
    ensures right.Cut?
    ensures var w := ApplyAssign(op, ReadVar(right.st, x), right.v);
            w.Value? && ExecSet(op, x, right, size) == Resume(w.v, WriteVar(right.st, x, w.v), right.tail)
  {
    hide ApplyAssign, ReadVar, WriteVar, Resume;
  }

  lemma SetDone(op: Option<BinOp>, x: string, v: int, st: Vars, size: nat)
    ensures ExecSet(op, x, Done(Meaning(Value(v), st)), size) ==
            var w := ApplyAssign(op, ReadVar(st, x), v);
            Done(if w.Error? then Meaning(w, st) else Meaning(w, WriteVar(st, x, w.v)))
  {
    hide ApplyAssign, ReadVar, WriteVar;
  }

  lemma {:induction false} InfixHasHead(op: BinOp, l: Tree, r: Tree, st: Vars) returns (h: Tree)
    requires Exec(Binary(op, l, r), st).Cut?
    ensures var e := Exec(Binary(op, l, r), st);
            Exec(h, st) == Done(Meaning(Value(e.v), e.st)) && Size(h) + SizeLeft(e) < Size(Binary(op, l, r))
    decreases Size(Binary(op, l, r)), 1
  {
    hide Exec, ExecPrinted, Resume, Apply;
    var prec := Precedence(Infix(op));
    BinaryIs(op, l, r, st);
    PrintedIs(l, prec, st);
    var left := ExecPrinted(l, prec, st);
    if left.Cut? {
      h := CutHasHead(l, st);
    } else {
      var ml := left.m;
      if Decided(op, ml.out.v) {
        h := l;
      } else {
        InfixAfter(op, ml, r);
        PrintedIs(r, prec + 1, ml.st);
        var right := Exec(r, ml.st);
        var h1 := CutHasHead(r, ml.st);
        BinaryIs(op, l, h1, st);
        PrintedIs(h1, prec + 1, ml.st);
        InfixAfter(op, ml, h1);
        TailLevel(r, ml.st);
        h := HeadOf(Binary(op, l, r), Binary(op, l, h1), right.tail, st);
      }
    }
  }

  lemma {:induction false} CondHasHead(c: Tree, yes: Tree, no: Tree, st: Vars) returns (h: Tree)
    requires Exec(Cond(c, yes, no), st).Cut?
    ensures var e := Exec(Cond(c, yes, no), st);
            Exec(h, st) == Done(Meaning(Value(e.v), e.st)) && Size(h) + SizeLeft(e) < Size(Cond(c, yes, no))
    decreases Size(Cond(c, yes, no)), 1
  {
    hide Exec, ExecPrinted, Resume;
    CondIs(c, yes, no, st);
    PrintedIs(c, 4, st);
    var left := ExecPrinted(c, 4, st);
    if left.Cut? {
      h := CutHasHead(c, st);
    } else {
      var mc := left.m;
      PrintedIs(yes, 0, mc.st);
      var my := ExecPrinted(yes, 0, mc.st).m;
      CondAfter(mc, my, yes, no);
      PrintedIs(no, 3, my.st);
      var right := Exec(no, my.st);
      var h1 := CutHasHead(no, my.st);
      CondIs(c, yes, h1, st);
      CondAfter(mc, my, yes, h1);
      PrintedIs(h1, 3, my.st);
      TailLevel(no, my.st);
      h := HeadOf(Cond(c, yes, no), Cond(c, yes, h1), right.tail, st);
    }
  }

  lemma {:induction false} BothHasHead(a: Tree, b: Tree, st: Vars) returns (h: Tree)
    requires Exec(Both(a, b), st).Cut?
    ensures var e := Exec(Both(a, b), st);
            Exec(h, st) == Done(Meaning(Value(e.v), e.st)) && Size(h) + SizeLeft(e) < Size(Both(a, b))
    decreases Size(Both(a, b)), 1
  {
    hide Exec, ExecPrinted, Resume;
    BothIs(a, b, st);
    PrintedIs(a, 1, st);
    var left := ExecPrinted(a, 1, st);
    if left.Cut? {
      h := CutHasHead(a, st);
    } else {
      var ma := left.m;
      BothAfter(ma, b);
      PrintedIs(b, 2, ma.st);
      var right := Exec(b, ma.st);
      var h1 := CutHasHead(b, ma.st);
      BothIs(a, h1, st);
      BothAfter(ma, h1);
      PrintedIs(h1, 2, ma.st);
      TailLevel(b, ma.st);
      h := HeadOf(Both(a, b), Both(a, h1), right.tail, st);
    }
  }

  // ------------------------------------------------- silent wrong values

  /** The text of e evaluates to the plain meaning of another tree that ends alike. */
  lemma EndsAlike(e: Tree, other: Tree, s: string, st: Vars)
    requires Exec(e, st) == Exec(other, st) && Undecided(other, st) && Writes(s, Print(e, 0))
    ensures Evaluate(s, st) == (Denote(other, st).out, Denote(other, st).st)
  {
    hide Exec, Denote, Undecided, Evaluate, Writes, Print;
    UndecidedEnds(other, st);
    EveryTextEnds(e, s, st);
  }

  predicate Deciding(op: BinOp, l: Tree, st: Vars) {
    Undecided(l, st) && Denote(l, st).out.Value? && Decided(op, Denote(l, st).out.v)
  }

  lemma DecidingCuts(op: BinOp, l: Tree, r: Tree, st: Vars)
    requires Deciding(op, l, st) && SignLed(r) && Level(r) > Precedence(Infix(op))
    ensures CutsAt(Binary(op, l, r), l, r, st)
  {
    hide Exec, Denote, Undecided, CutsAt;
    UndecidedEnds(l, st);
    DecidedCuts(op, l, r, st);
  }

  /** For every decided l and every r that starts with a sign: "x = l || r",
      with any assignment operator, is "(x = l) + r'" or "(x = l) - r'". */
  lemma DecidedAssignment(aop: Option<BinOp>, x: string, op: BinOp, l: Tree, r: Tree, s: string, st: Vars)
    requires Deciding(op, l, st) && SignLed(r) && Level(r) > Precedence(Infix(op))
    requires Undecided(Regrafted(Set(aop, x, l), r), st)
    requires Writes(s, Print(Set(aop, x, Binary(op, l, r)), 0))
    ensures var m := Denote(Regrafted(Set(aop, x, l), r), st); Evaluate(s, st) == (m.out, m.st)
  {
    hide Exec, Denote, Undecided, Evaluate, Writes, Print, CutsAt, Regrafted;
    DecidingCuts(op, l, r, st);
    AssignmentTakesUp(aop, x, Binary(op, l, r), l, r, st);
    EndsAlike(Set(aop, x, Binary(op, l, r)), Regrafted(Set(aop, x, l), r), s, st);
  }

  /** "c ? yes : l || r" is "(c ? yes : l) + r'" or "- r'", whichever branch is chosen. */
  lemma DecidedSecondBranch(c: Tree, yes: Tree, op: BinOp, l: Tree, r: Tree, s: string, st: Vars)
    requires Undecided(c, st) && Denote(c, st).out.Value?
    requires var mc := Denote(c, st); Undecided(yes, mc.st) && Denote(yes, mc.st).out.Value?
    requires Deciding(op, l, Denote(yes, Denote(c, st).st).st) && SignLed(r) && Level(r) > Precedence(Infix(op)) >= 3
    requires Undecided(Regrafted(Cond(c, yes, l), r), st)
    requires Writes(s, Print(Cond(c, yes, Binary(op, l, r)), 0))
    ensures var m := Denote(Regrafted(Cond(c, yes, l), r), st); Evaluate(s, st) == (m.out, m.st)
  {
    hide Exec, Denote, Undecided, Evaluate, Writes, Print, CutsAt, Regrafted, Deciding;
    var mc := Denote(c, st);
    UndecidedEnds(c, st);
    UndecidedEnds(yes, mc.st);
    DecidingCuts(op, l, r, Denote(yes, mc.st).st);
    SecondBranchTakesUp(c, yes, Binary(op, l, r), l, r, st);
    EndsAlike(Cond(c, yes, Binary(op, l, r)), Regrafted(Cond(c, yes, l), r), s, st);
  }

  /** "a || l && r" is "(a || l) + r'" or "- r'". */
  lemma DecidedRightSide(a: Tree, l: Tree, r: Tree, s: string, st: Vars)
    requires Undecided(a, st) && Denote(a, st).out.Value? && !Decided(LogOr, Denote(a, st).out.v)
    requires Deciding(LogAnd, l, Denote(a, st).st) && SignLed(r) && Level(r) > 5
    requires Undecided(Regrafted(Binary(LogOr, a, l), r), st)
    requires Writes(s, Print(Binary(LogOr, a, Binary(LogAnd, l, r)), 0))
    ensures var m := Denote(Regrafted(Binary(LogOr, a, l), r), st); Evaluate(s, st) == (m.out, m.st)
  {
    hide Exec, Denote, Undecided, Evaluate, Writes, Print, CutsAt, Regrafted, Deciding;
    UndecidedEnds(a, st);
    DecidingCuts(LogAnd, l, r, Denote(a, st).st);
    RightSideTakesUp(LogOr, a, Binary(LogAnd, l, r), l, r, st);
    EndsAlike(Binary(LogOr, a, Binary(LogAnd, l, r)), Regrafted(Binary(LogOr, a, l), r), s, st);
  }

  /** "a, l || r" is "(a, l) + r'" or "- r'". */
  lemma DecidedSecondSide(a: Tree, op: BinOp, l: Tree, r: Tree, s: string, st: Vars)
    requires Undecided(a, st) && Denote(a, st).out.Value?
    requires Deciding(op, l, Denote(a, st).st) && SignLed(r) && Level(r) > Precedence(Infix(op)) >= 2
    requires Undecided(Regrafted(Both(a, l), r), st)
    requires Writes(s, Print(Both(a, Binary(op, l, r)), 0))
    ensures var m := Denote(Regrafted(Both(a, l), r), st); Evaluate(s, st) == (m.out, m.st)
  {
    hide Exec, Denote, Undecided, Evaluate, Writes, Print, CutsAt, Regrafted, Deciding;
    UndecidedEnds(a, st);
    DecidingCuts(op, l, r, Denote(a, st).st);
    SecondSideTakesUp(a, Binary(op, l, r), l, r, st);
    EndsAlike(Both(a, Binary(op, l, r)), Regrafted(Both(a, l), r), s, st);
  }

  /** When l decides, "x = l || -r" assigns the value of l and then evaluates
      to that value minus r. */
  lemma SignAfterDecisionIsSubtraction(x: string, l: Tree, r: Tree, s: string, st: Vars)
    requires Undecided(l, st) && Denote(l, st).out.Value? && Decided(LogOr, Denote(l, st).out.v)
    requires Undecided(r, WriteVar(Denote(l, st).st, x, Denote(l, st).out.v))
    requires Writes(s, Print(Set(None, x, Binary(LogOr, l, Unary(Minus, r))), 0))
    ensures Evaluate(s, st) ==
      var m := Denote(Binary(Sub, Set(None, x, l), r), st);
      (m.out, m.st)
  {
    hide Denote, Evaluate, Writes, Print;
    AssignmentMeans(x, l, st);
    assert Regrafted(Set(None, x, l), Unary(Minus, r)) == Binary(Sub, Set(None, x, l), r);
    DecidedAssignment(None, x, LogOr, l, Unary(Minus, r), s, st);
  }

  lemma AssignmentMeans(x: string, l: Tree, st: Vars)
    requires Denote(l, st).out.Value?
    ensures Denote(Set(None, x, l), st) ==
            Meaning(Denote(l, st).out, WriteVar(Denote(l, st).st, x, Denote(l, st).out.v))
  {
  }

  /** "x=1||-5" is 1 in C and leaves x at 1; here it is -4. */
  lemma SilentWrongValue()
    ensures Evaluate("x=1||-5", Vars(map[], {})) == (Value(-4), Vars(map["x" := 1], {}))
    ensures Evaluate(Spaced(["x", "=", "1", "||", "-", "5"]), Vars(map[], {})) == (Value(-4), Vars(map["x" := 1], {}))
  {
    var st := Vars(map[], {});
    var texts := ["x", "=", "1", "||", "-", "5"];
    SetOneOrMinusFive();
    assert Denote(Num(1), st) == Meaning(Value(1), st);
    hide Denote, Print, Writes, Spaced, Evaluate;
    SignAfterDecisionIsSubtraction("x", Num(1), Num(5), "x=1||-5", st);
    SignAfterDecisionIsSubtraction("x", Num(1), Num(5), Spaced(texts), st);
    OneMinusFive();
  }

  lemma SetOneOrMinusFive()
    ensures var toks := Print(Set(None, "x", Binary(LogOr, Num(1), Unary(Minus, Num(5)))), 0);
            Writes("x=1||-5", toks) && Writes(Spaced(["x", "=", "1", "||", "-", "5"]), toks)
  {
    hide *;
    var texts := ["x", "=", "1", "||", "-", "5"];
    var toks := [Variable("x"), Assign(None), Number(1), Infix(LogOr), Infix(Sub), Number(5)];
    SetOneOrMinusFivePrints();
    SetOneOrMinusFiveSpelled(texts, toks);
    SpacedWrites(texts, toks);
    TightWrites(texts, toks);
    assert Concat(texts) == "x=1||-5" by { ConcatSix(texts); }
  }

  lemma SetOneOrMinusFivePrints()
    ensures Print(Set(None, "x", Binary(LogOr, Num(1), Unary(Minus, Num(5)))), 0) ==
            [Variable("x"), Assign(None), Number(1), Infix(LogOr), Infix(Sub), Number(5)]
  {
  }

  lemma SetOneOrMinusFiveSpelled(texts: seq<string>, toks: seq<Token>)
    requires texts == ["x", "=", "1", "||", "-", "5"]
    requires toks == [Variable("x"), Assign(None), Number(1), Infix(LogOr), Infix(Sub), Number(5)]
    ensures forall i :: 0 <= i < |texts| ==> texts[i] != "" && Spells(texts[i], toks[i])
    ensures forall i :: 0 <= i < |texts| - 1 ==> Stops(texts[i], toks[i], texts[i + 1][0])
  {
    OneDigit('1');
    OneDigit('5');
    hide SpellsNumber, ValueOf;
    PunctuationStops("=", Assign(None), '1');
    PunctuationStops("||", Infix(LogOr), '-');
    PunctuationStops("-", Infix(Sub), '5');
  }

  lemma ConcatSix(texts: seq<string>)
    requires |texts| == 6
    ensures Concat(texts) == texts[0] + texts[1] + texts[2] + texts[3] + texts[4] + texts[5]
  {
    assert Concat(texts[5..]) == texts[5];
    assert Concat(texts[4..]) == texts[4] + Concat(texts[4..][1..]) && texts[4..][1..] == texts[5..];
    assert Concat(texts[3..]) == texts[3] + Concat(texts[3..][1..]) && texts[3..][1..] == texts[4..];
    assert Concat(texts[2..]) == texts[2] + Concat(texts[2..][1..]) && texts[2..][1..] == texts[3..];
    assert Concat(texts[1..]) == texts[1] + Concat(texts[1..][1..]) && texts[1..][1..] == texts[2..];
  }

  lemma OneDigit(c: char)
    requires '0' <= c <= '9'
    ensures SpellsNumber([c], DigitValue(c))
  {
    assert [c][..0] == "";
    assert AppendDigit(0, 10, c) == DigitValue(c);
  }

  lemma OneMinusFive()
    ensures Denote(Binary(Sub, Set(None, "x", Num(1)), Num(5)), Vars(map[], {})) ==
            Meaning(Value(-4), Vars(map["x" := 1], {}))
  {
    var st := Vars(map[], {});
    AssignmentMeans("x", Num(1), st);
    DifferenceMeans(Set(None, "x", Num(1)), Num(5), st);
  }

  lemma DifferenceMeans(l: Tree, r: Tree, st: Vars)
    requires Denote(l, st).out.Value?
    ensures var ml := Denote(l, st); var mr := Denote(r, ml.st);
            Denote(Binary(Sub, l, r), st) ==
            if mr.out.Error? then mr else mr.(out := Value(ml.out.v - mr.out.v))
  {
    hide *;
    BinaryMeans(Sub, l, r, st);
    SubApplies(Denote(l, st).out.v, Denote(r, Denote(l, st).st).out);
  }

  lemma SubApplies(a: int, b: Outcome)
    ensures b.Value? ==> Apply(Sub, a, b.v) == Value(a - b.v)
  {
  }

  /** "0||0&&-5" is 0 in C; here it is -5. */
  lemma SilentWrongRightSide(st: Vars)
    ensures Evaluate("0||0&&-5", st) == (Value(-5), st)
    ensures Evaluate(Spaced(["0", "||", "0", "&&", "-", "5"]), st) == (Value(-5), st)
  {
    var texts, zero, five := ["0", "||", "0", "&&", "-", "5"], Num(0), Num(5);
    ZeroOrZeroAndMinusFive();
    assert Denote(zero, st) == Meaning(Value(0), st);
    assert Regrafted(Binary(LogOr, zero, zero), Unary(Minus, five)) == Binary(Sub, Binary(LogOr, zero, zero), five);
    ZeroMinusFive(st);
    hide Denote, Print, Writes, Spaced, Evaluate, Regrafted;
    DecidedRightSide(zero, zero, Unary(Minus, five), "0||0&&-5", st);
    DecidedRightSide(zero, zero, Unary(Minus, five), Spaced(texts), st);
  }

  lemma ZeroOrZeroAndMinusFive()
    ensures var toks := Print(Binary(LogOr, Num(0), Binary(LogAnd, Num(0), Unary(Minus, Num(5)))), 0);
            Writes("0||0&&-5", toks) && Writes(Spaced(["0", "||", "0", "&&", "-", "5"]), toks)
  {
    hide *;
    var texts := ["0", "||", "0", "&&", "-", "5"];
    var toks := [Number(0), Infix(LogOr), Number(0), Infix(LogAnd), Infix(Sub), Number(5)];
    ZeroOrZeroAndMinusFivePrints();
    ZeroOrZeroAndMinusFiveSpelled(texts, toks);
    SpacedWrites(texts, toks);
    TightWrites(texts, toks);
    assert Concat(texts) == "0||0&&-5" by { ConcatSix(texts); }
  }

  lemma ZeroOrZeroAndMinusFivePrints()
    ensures Print(Binary(LogOr, Num(0), Binary(LogAnd, Num(0), Unary(Minus, Num(5)))), 0) ==
            [Number(0), Infix(LogOr), Number(0), Infix(LogAnd), Infix(Sub), Number(5)]
  {
  }

  lemma ZeroOrZeroAndMinusFiveSpelled(texts: seq<string>, toks: seq<Token>)
    requires texts == ["0", "||", "0", "&&", "-", "5"]
    requires toks == [Number(0), Infix(LogOr), Number(0), Infix(LogAnd), Infix(Sub), Number(5)]
    ensures forall i :: 0 <= i < |texts| ==> texts[i] != "" && Spells(texts[i], toks[i])
    ensures forall i :: 0 <= i < |texts| - 1 ==> Stops(texts[i], toks[i], texts[i + 1][0])
  {
    OneDigit('0');
    OneDigit('5');
    hide SpellsNumber, ValueOf;
    PunctuationStops("||", Infix(LogOr), '0');
    PunctuationStops("&&", Infix(LogAnd), '-');
    PunctuationStops("-", Infix(Sub), '5');
  }

  lemma ZeroMinusFive(st: Vars)
    ensures var e := Binary(Sub, Binary(LogOr, Num(0), Num(0)), Num(5));
            Denote(e, st) == Meaning(Value(-5), st) && Undecided(e, st)
  {
    BinaryMeans(LogOr, Num(0), Num(0), st);
    DifferenceMeans(Binary(LogOr, Num(0), Num(0)), Num(5), st);
  }

  // --------------------------------------------------------- C's own meaning

  /** C's meaning: "||" and "&&" evaluate their right side only when the left
      one does not decide, "?:" only the chosen branch, and "first, second" has
      the second value. */
  function MeaningInC(e: Tree, st: Vars): Meaning {
    match e
    case Num(n) => Meaning(Value(n), st)
    case Var(x) => Meaning(Value(ReadVar(st, x)), st)
    case Unary(op, a) =>
      var m := MeaningInC(a, st);
      m.(out := MapValue(op, m.out))
    case Binary(op, l, r) =>
      var ml := MeaningInC(l, st);
      if ml.out.Error? then ml
      else if Decided(op, ml.out.v) then ml.(out := Value(Truth(ml.out.v != 0)))
      else
        var mr := MeaningInC(r, ml.st);
        if mr.out.Error? then mr else mr.(out := Apply(op, ml.out.v, mr.out.v))
    case Cond(c, yes, no) =>
      var mc := MeaningInC(c, st);
      if mc.out.Error? then mc else MeaningInC(if mc.out.v != 0 then yes else no, mc.st)
    case Set(op, x, rhs) =>
      var m := MeaningInC(rhs, st);
      if m.out.Error? then m
      else
        var v := ApplyAssign(op, ReadVar(m.st, x), m.out.v);
        if v.Error? then m.(out := v) else Meaning(v, WriteVar(m.st, x, v.v))
    case Both(a, b) =>
      var ma := MeaningInC(a, st);
      if ma.out.Error? then ma else MeaningInC(b, ma.st)
  }

  /** Along the evaluation of e, what C would skip neither fails nor assigns,
      and the two sides of a comma have the same value. */
  predicate Harmless(e: Tree, st: Vars) {
    match e
    case Num(_) | Var(_) => true
    case Unary(_, a) => Harmless(a, st)
    case Binary(op, l, r) =>
      var ml := Denote(l, st);
      && Harmless(l, st)
      && (ml.out.Value? ==> if Decided(op, ml.out.v) then Silent(Denote(r, ml.st), ml.st) else Harmless(r, ml.st))
    case Cond(c, yes, no) =>
      var mc := Denote(c, st);
      var my := Denote(yes, mc.st);
      && Harmless(c, st)
      && (mc.out.Value? && mc.out.v != 0 ==>
            Harmless(yes, mc.st) && (my.out.Value? ==> Silent(Denote(no, my.st), my.st)))
      && (mc.out.Value? && mc.out.v == 0 ==> Silent(my, mc.st) && Harmless(no, mc.st))
    case Set(_, _, rhs) => Harmless(rhs, st)
    case Both(a, b) =>
      var ma := Denote(a, st);
      var mb := Denote(b, ma.st);
      Harmless(a, st) && (ma.out.Value? ==> Harmless(b, ma.st) && (mb.out.Value? ==> mb.out == ma.out))
  }

  predicate Silent(m: Meaning, st: Vars) {
    m.out.Value? && m.st == st
  }

  lemma {:induction false} HarmlessMeansC(e: Tree, st: Vars)
    requires Harmless(e, st)
    ensures Denote(e, st) == MeaningInC(e, st)
    decreases e
  {
    match e {
      case Num(_) =>
      case Var(_) =>
      case Unary(_, a) => HarmlessMeansC(a, st);
      case Binary(op, l, r) =>
        HarmlessMeansC(l, st);
        var ml := Denote(l, st);
        if ml.out.Value? && !Decided(op, ml.out.v) {
          HarmlessMeansC(r, ml.st);
        }
      case Cond(c, yes, no) =>
        HarmlessMeansC(c, st);
        var mc := Denote(c, st);
        if mc.out.Value? {
          HarmlessMeansC(if mc.out.v != 0 then yes else no, mc.st);
        }
      case Set(_, _, rhs) => HarmlessMeansC(rhs, st);
      case Both(a, b) =>
        HarmlessMeansC(a, st);
        if Denote(a, st).out.Value? {
          HarmlessMeansC(b, Denote(a, st).st);
        }
    }
  }

  /** End to end: the text of a tree evaluates to what it means in C when no
      left side decides and what C skips is harmless. */
  lemma EvaluatesAsC(e: Tree, s: string, st: Vars)
    requires Undecided(e, st) && Harmless(e, st) && Writes(s, Print(e, 0))
    ensures Evaluate(s, st) == (MeaningInC(e, st).out, MeaningInC(e, st).st)
  {
    hide Evaluate, Denote, MeaningInC, Writes, Print;
    HarmlessMeansC(e, st);
    SpelledTreesEvaluate(e, s, st);
  }

  /** A single "?:" whose parts are harmless: choosing the first branch, it
      means what C says exactly when that branch fails or the skipped one
      neither fails nor assigns. */
  lemma SkippedBranchShows(c: Tree, yes: Tree, no: Tree, st: Vars)
    requires Harmless(c, st) && Denote(c, st).out.Value? && Denote(c, st).out.v != 0 && Harmless(yes, Denote(c, st).st)
    ensures var my := Denote(yes, Denote(c, st).st);
            Denote(Cond(c, yes, no), st) == MeaningInC(Cond(c, yes, no), st) <==>
            my.out.Error? || Silent(Denote(no, my.st), my.st)
  {
    hide *;
    HarmlessMeansC(c, st);
    HarmlessMeansC(yes, Denote(c, st).st);
    var mc := Denote(c, st);
    var my := Denote(yes, mc.st);
    var mn := Denote(no, my.st);
    CondDenotes(c, yes, no, st, mc, my, mn);
    CondInC(c, yes, no, st, mc);
    SilentIs(mn, my.st);
  }

  lemma CondDenotes(c: Tree, yes: Tree, no: Tree, st: Vars, mc: Meaning, my: Meaning, mn: Meaning)
    requires mc == Denote(c, st) && mc.out.Value? && mc.out.v != 0
    requires my == Denote(yes, mc.st) && mn == Denote(no, my.st)
    ensures Denote(Cond(c, yes, no), st) ==
            if my.out.Error? then my else if mn.out.Error? then mn else mn.(out := my.out)
  {
    hide Apply, ApplyAssign, ReadVar, WriteVar, MapValue;
  }

  /** The same for a condition that chooses the second branch, when the first
      one, which runs first, leaves the store as it was: it shows exactly when
      it fails, unless the second branch fails alike. */
  lemma SkippedFirstBranchShows(c: Tree, yes: Tree, no: Tree, st: Vars)
    requires Harmless(c, st) && Denote(c, st).out == Value(0)
    requires Harmless(no, Denote(c, st).st) && Denote(yes, Denote(c, st).st).st == Denote(c, st).st
    ensures var mc := Denote(c, st); var my := Denote(yes, mc.st);
            Denote(Cond(c, yes, no), st) == MeaningInC(Cond(c, yes, no), st) <==>
            my.out.Value? || my == Denote(no, mc.st)
  {
    hide *;
    HarmlessMeansC(c, st);
    HarmlessMeansC(no, Denote(c, st).st);
    var mc := Denote(c, st);
    CondDenotesSecond(c, yes, no, st, mc, Denote(yes, mc.st));
    CondInCSecond(c, yes, no, st, mc);
  }

  lemma CondDenotesSecond(c: Tree, yes: Tree, no: Tree, st: Vars, mc: Meaning, my: Meaning)
    requires mc == Denote(c, st) && mc.out == Value(0) && my == Denote(yes, mc.st)
    ensures Denote(Cond(c, yes, no), st) == if my.out.Error? then my else Denote(no, my.st)
  {
    hide Apply, ApplyAssign, ReadVar, WriteVar, MapValue;
  }

  lemma CondInCSecond(c: Tree, yes: Tree, no: Tree, st: Vars, mc: Meaning)
    requires mc == MeaningInC(c, st) && mc.out == Value(0)
    ensures MeaningInC(Cond(c, yes, no), st) == MeaningInC(no, mc.st)
  {
    hide Apply, ApplyAssign, ReadVar, WriteVar, MapValue;
  }

  lemma CondInC(c: Tree, yes: Tree, no: Tree, st: Vars, mc: Meaning)
    requires mc == MeaningInC(c, st) && mc.out.Value? && mc.out.v != 0
    ensures MeaningInC(Cond(c, yes, no), st) == MeaningInC(yes, mc.st)
  {
    hide Apply, ApplyAssign, ReadVar, WriteVar, MapValue;
  }

  lemma SilentIs(m: Meaning, st: Vars)
    ensures Silent(m, st) <==> m.out.Value? && m.st == st
  {
  }

  /** A comma whose sides are harmless means what C says exactly when the first
      side fails, the second one does, or both have the same value. */
  lemma CommaShows(a: Tree, b: Tree, st: Vars)
    requires Harmless(a, st) && (Denote(a, st).out.Value? ==> Harmless(b, Denote(a, st).st))
    ensures var ma := Denote(a, st); var mb := Denote(b, ma.st);
            Denote(Both(a, b), st) == MeaningInC(Both(a, b), st) <==>
            ma.out.Error? || mb.out.Error? || ma.out == mb.out
  {
    HarmlessMeansC(a, st);
    if Denote(a, st).out.Value? {
      HarmlessMeansC(b, Denote(a, st).st);
    }
  }

  /** The comma operator has the value of its first side, with the assignments
      of both; in C it has the value of its second side. */
  lemma CommaKeepsTheLeftValue(l: Tree, r: Tree, s: string, st: Vars)
    requires Undecided(Both(l, r), st) && Writes(s, Print(Both(l, r), 0))
    ensures Evaluate(s, st) ==
      var ml := Denote(l, st);
      if ml.out.Error? then (ml.out, ml.st)
      else
        var mr := Denote(r, ml.st);
        if mr.out.Error? then (mr.out, mr.st) else (ml.out, mr.st)
  {
    hide Evaluate, Writes, Print;
    SpelledTreesEvaluate(Both(l, r), s, st);
  }

  // ---------------------------------------- a condition on the text alone

  predicate NoSet(e: Tree) {
    match e
    case Num(_) | Var(_) => true
    case Unary(_, a) => NoSet(a)
    case Binary(_, l, r) => NoSet(l) && NoSet(r)
    case Cond(c, yes, no) => NoSet(c) && NoSet(yes) && NoSet(no)
    case Set(_, _, _) => false
    case Both(a, b) => NoSet(a) && NoSet(b)
  }

  predicate NoDivision(e: Tree) {
    match e
    case Num(_) | Var(_) => true
    case Unary(_, a) => NoDivision(a)
    case Binary(op, l, r) => op != Div && op != Mod && NoDivision(l) && NoDivision(r)
    case Cond(c, yes, no) => NoDivision(c) && NoDivision(yes) && NoDivision(no)
    case Set(op, _, rhs) => op != Some(Div) && op != Some(Mod) && NoDivision(rhs)
    case Both(a, b) => NoDivision(a) && NoDivision(b)
  }

  /** What C may skip in e does not assign, nor, if so asked, divide; and e has
      no comma. */
  predicate Branches(e: Tree, noDivision: bool) {
    match e
    case Num(_) | Var(_) => true
    case Unary(_, a) => Branches(a, noDivision)
    case Binary(op, l, r) =>
      && Branches(l, noDivision) && Branches(r, noDivision)
      && (op == LogOr || op == LogAnd ==> NoSet(r) && (noDivision ==> NoDivision(r)))
    case Cond(c, yes, no) =>
      && Branches(c, noDivision) && Branches(yes, noDivision) && Branches(no, noDivision)
      && NoSet(yes) && NoSet(no) && (noDivision ==> NoDivision(yes) && NoDivision(no))
    case Set(_, _, rhs) => Branches(rhs, noDivision)
    case Both(_, _) => false
  }

  lemma {:induction false} NoSetKeepsVars(e: Tree, st: Vars)
    requires NoSet(e)
    ensures Denote(e, st).st == st
    decreases e
  {
    match e {
      case Num(_) =>
      case Var(_) =>
      case Unary(_, a) => NoSetKeepsVars(a, st);
      case Binary(_, l, r) => NoSetKeepsVars(l, st); NoSetKeepsVars(r, st);
      case Cond(c, yes, no) => NoSetKeepsVars(c, st); NoSetKeepsVars(yes, st); NoSetKeepsVars(no, st);
      case Both(a, b) => NoSetKeepsVars(a, st); NoSetKeepsVars(b, st);
    }
  }

  lemma {:induction false} NoDivisionNeverFails(e: Tree, st: Vars)
    requires NoDivision(e)
    ensures Denote(e, st).out.Value?
    decreases e
  {
    match e {
      case Num(_) =>
      case Var(_) =>
      case Unary(_, a) => NoDivisionNeverFails(a, st);
      case Binary(_, l, r) => NoDivisionNeverFails(l, st); NoDivisionNeverFails(r, Denote(l, st).st);
      case Cond(c, yes, no) =>
        NoDivisionNeverFails(c, st);
        NoDivisionNeverFails(yes, Denote(c, st).st);
        NoDivisionNeverFails(no, Denote(yes, Denote(c, st).st).st);
      case Set(_, _, rhs) => NoDivisionNeverFails(rhs, st);
      case Both(a, b) => NoDivisionNeverFails(a, st); NoDivisionNeverFails(b, Denote(a, st).st);
    }
  }

  /** The two conditions on the text: such a tree is harmless in every store
      when it does not divide in what C may skip, and otherwise wherever it
      does not fail. */
  lemma {:induction false} BothBranchesAreInvisible(e: Tree, st: Vars, noDivision: bool)
    requires Branches(e, noDivision)
    requires noDivision || Denote(e, st).out.Value?
    ensures Harmless(e, st) && Denote(e, st) == MeaningInC(e, st)
    decreases e
  {
    match e {
      case Num(_) =>
      case Var(_) =>
      case Unary(_, a) => BothBranchesAreInvisible(a, st, noDivision);
      case Binary(op, l, r) =>
        BothBranchesAreInvisible(l, st, noDivision);
        var ml := Denote(l, st);
        if ml.out.Value? {
          BothBranchesAreInvisible(r, ml.st, noDivision);
          if Decided(op, ml.out.v) {
            Skips(r, ml.st, noDivision);
          }
        }
      case Cond(c, yes, no) =>
        BothBranchesAreInvisible(c, st, noDivision);
        var mc := Denote(c, st);
        if mc.out.Value? {
          NoSetKeepsVars(yes, mc.st);
          Skips(yes, mc.st, noDivision);
          Skips(no, mc.st, noDivision);
          BothBranchesAreInvisible(yes, mc.st, noDivision);
          BothBranchesAreInvisible(no, mc.st, noDivision);
        }
      case Set(_, _, rhs) => BothBranchesAreInvisible(rhs, st, noDivision);
    }
    HarmlessMeansC(e, st);
  }

  lemma Skips(e: Tree, st: Vars, noDivision: bool)
    requires NoSet(e) && (noDivision ==> NoDivision(e))
    requires noDivision || Denote(e, st).out.Value?
    ensures Silent(Denote(e, st), st)
  {
    NoSetKeepsVars(e, st);
    if noDivision {
      NoDivisionNeverFails(e, st);
    }
  }

  /** Otherwise it shows: "1 ? 2 : 1 / 0" is 2 in C and an error here, and
      "1 ? 2 : (x = 3)" leaves x assigned here. */
  lemma BothBranchesShow()
    ensures var st := Vars(map[], {});
            && MeaningInC(Cond(Num(1), Num(2), Binary(Div, Num(1), Num(0))), st).out == Value(2)
            && Denote(Cond(Num(1), Num(2), Binary(Div, Num(1), Num(0))), st).out == Error("Division by zero")
            && MeaningInC(Cond(Num(1), Num(2), Set(None, "x", Num(3))), st).st == st
            && Denote(Cond(Num(1), Num(2), Set(None, "x", Num(3))), st).st == Vars(map["x" := 3], {})
  {
    var st := Vars(map[], {});
    var division := Binary(Div, Num(1), Num(0));
    assert Denote(division, st).out == Error("Division by zero");
    assert Denote(Set(None, "x", Num(3)), st) == Meaning(Value(3), Vars(map["x" := 3], {}));
  }

  /** Being harmless is not necessary: in "0 ? (x = 1) : (x = 2)" the chosen
      branch overwrites what the skipped one left. */
  lemma BranchesCanCancel()
    ensures var e, st := Cond(Num(0), Set(None, "x", Num(1)), Set(None, "x", Num(2))), Vars(map[], {});
            !Harmless(e, st) && Denote(e, st) == MeaningInC(e, st)
  {
    var st := Vars(map[], {});
    assert Denote(Set(None, "x", Num(1)), st) == Meaning(Value(1), Vars(map["x" := 1], {}));
    assert map["x" := 1]["x" := 2] == map["x" := 2];
  }

  // --------------------------------------- characters and read-only names

  /** A character no token starts with ends the expression like the end of the
      input: what follows is not looked at. */
  lemma UnknownCharacterEnds(e: Tree, s: string, q: nat, st: Vars)
    requires q < |s| && Lexes(s, 0, Print(e, 0), q) && Undecided(e, st)
    requires !IsSpace(s[q]) && !IsDigit(s[q]) && !IsNameStart(s[q])
    requires s[q] !in "()+-*/%~!<>=&^|?:,"
    ensures Evaluate(s, st) == (Denote(e, st).out, Denote(e, st).st)
  {
    hide Evaluate, Denote, Undecided, Print;
    UnknownReadsAsEnd(s, q);
    TextEvaluates(e, s, q, st);
  }

  lemma UnknownReadsAsEnd(s: string, q: nat)
    requires q < |s| && !IsSpace(s[q]) && !IsDigit(s[q]) && !IsNameStart(s[q])
    requires s[q] !in "()+-*/%~!<>=&^|?:,"
    ensures NextToken(s, q) == Lexed(Eof, q + 1)
  {
    var known := "()+-*/%~!<>=&^|?:,";
    assert forall i :: 0 <= i < |known| ==> s[q] != known[i];
    NotKnown(s[q], At(s, q + 1), At(s, q + 2));
  }

  lemma NotKnown(c: char, c1: char, c2: char)
    requires c !in "()+-*/%~!<>=&^|?:,"
    ensures Operator(c, c1, c2) == (Eof, 1)
  {
    var known := "()+-*/%~!<>=&^|?:,";
    assert known[0] == '(' && known[1] == ')' && known[2] == '+' && known[3] == '-' && known[4] == '*';
    assert known[5] == '/' && known[6] == '%' && known[7] == '~' && known[8] == '!' && known[9] == '<';
    assert known[10] == '>' && known[11] == '=' && known[12] == '&' && known[13] == '^' && known[14] == '|';
    assert known[15] == '?' && known[16] == ':' && known[17] == ',';
  }

  /** An assignment to a set read-only variable has the assigned value and
      leaves the variable alone. */
  lemma ReadOnlyWriteIsDropped(op: Option<BinOp>, x: string, rhs: Tree, s: string, st: Vars)
    requires Undecided(rhs, st) && Writes(s, Print(Set(op, x, rhs), 0))
    requires var m := Denote(rhs, st); m.out.Value? && x in m.st.values && x in m.st.readOnly
    ensures var m := Denote(rhs, st);
            Evaluate(s, st) == (ApplyAssign(op, ReadVar(m.st, x), m.out.v), m.st)
  {
    hide Evaluate, Writes, Print, Apply, ApplyAssign;
    SpelledTreesEvaluate(Set(op, x, rhs), s, st);
  }
}
