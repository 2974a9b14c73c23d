/** The precedence-climbing evaluator (parse_expression, parse_primary and
    arithmetic_evaluate, src/arithmetic.c): it evaluates while it parses. The
    functions say what each routine returns, where it leaves the position and
    the variables; the class is the C code. */
module ArithParser {
  import opened Options
  import opened Strings
  import opened ArithTokens
  import opened ArithValues

  /** What a routine returns, the position after it and the variables. */
  datatype Parsed = Parsed(out: Outcome, pos: nat, st: Vars)

  function UnaryOf(t: Token): Option<UnaryOp> {
    match t
    case Infix(Add) => Some(Plus)
    case Infix(Sub) => Some(Minus)
    case Tilde => Some(Complement)
    case Bang => Some(Not)
    case _ => None
  }

  function MapValue(op: UnaryOp, out: Outcome): Outcome {
    match out
    case Value(v) => Value(ApplyUnary(op, v))
    case Error(_) => out
  }

  function ParseExpression(s: string, p: nat, st: Vars, min: nat): (r: Parsed)
    requires p <= |s|
    ensures p <= r.pos <= |s|
    ensures r.out.Value? ==> r.pos > p
    decreases |s| - p, 2
  {
    var t := NextToken(s, p);
    var op := UnaryOf(t.tok);
    var left :=
      if op.Some? then
        var e := ParseExpression(s, t.pos, st, 14);
        e.(out := MapValue(op.value, e.out))
      else ParsePrimary(s, p, st);
    if left.out.Error? then left else ParseLoop(s, left.out.v, left.pos, left.st, min)
  }

  /** The loop over infix operators, holding the value so far. */
  function ParseLoop(s: string, left: int, p: nat, st: Vars, min: nat): (r: Parsed)
    requires p <= |s|
    ensures p <= r.pos <= |s|
    decreases |s| - p, 0
  {
    var t := NextToken(s, p);
    var prec := Precedence(t.tok);
    if prec < min then Parsed(Value(left), p, st)
    else match t.tok
      case Comma =>
        var right := ParseExpression(s, t.pos, st, prec + 1);
        if right.out.Error? then right else ParseLoop(s, left, right.pos, right.st, min)
      case Question =>
        var yes := ParseExpression(s, t.pos, st, 0);
        if yes.out.Error? then yes
        else
          var colon := NextToken(s, yes.pos);
          if !colon.tok.Colon? then Parsed(Error("Expected ':' in ternary expression"), colon.pos, yes.st)
          else
            var no := ParseExpression(s, colon.pos, yes.st, prec);
            if no.out.Error? then no
            else ParseLoop(s, if left != 0 then yes.out.v else no.out.v, no.pos, no.st, min)
      case Infix(op) =>
        if (op == LogOr && left != 0) || (op == LogAnd && left == 0) then Parsed(Value(left), t.pos, st)
        else
          var right := ParseExpression(s, t.pos, st, prec + 1);
          if right.out.Error? then right
          else
            var v := Apply(op, left, right.out.v);
            if v.Error? then right.(out := v) else ParseLoop(s, v.v, right.pos, right.st, min)
      case _ => Parsed(Value(left), p, st)
  }

  function ParsePrimary(s: string, p: nat, st: Vars): (r: Parsed)
    requires p <= |s|
    ensures p <= r.pos <= |s|
    ensures r.out.Value? ==> r.pos > p
    decreases |s| - p, 1
  {
    var t := NextToken(s, p);
    match t.tok
    case Number(n) => Parsed(Value(n), t.pos, st)
    case Variable(x) =>
      var next := NextToken(s, t.pos);
      if !next.tok.Assign? then Parsed(Value(ReadVar(st, x)), t.pos, st)
      else
        var right := ParseExpression(s, next.pos, st, 0);
        if right.out.Error? then right
        else
          var v := ApplyAssign(next.tok.compound, ReadVar(right.st, x), right.out.v);
          if v.Error? then right.(out := v)
          else right.(out := v, st := WriteVar(right.st, x, v.v))
    case LParen =>
      var e := ParseExpression(s, t.pos, st, 0);
      if e.out.Error? then e
      else
        var close := NextToken(s, e.pos);
        if close.tok.RParen? then e.(pos := close.pos) else Parsed(Error("Expected ')'"), close.pos, e.st)
    case _ => Parsed(Error("Expected number, variable, or '('"), t.pos, st)
  }

  /** The evaluation of fully expanded text: the result and the variables. */
  function Evaluate(s: string, st: Vars): (Outcome, Vars) {
    if s == "" then (Value(0), st)
    else
      var e := ParseExpression(s, 0, st, 0);
      if e.out.Value? && !NextToken(s, e.pos).tok.Eof? then (Error("Unexpected tokens after expression"), e.st)
      else (e.out, e.st)
  }

  // -------------------------------------------------------------- the C code

  /** string_substring, where an end of -1 is the end of the string. */
  function Substring(s: string, begin: nat, end: int): string
    requires begin <= |s| && (end == -1 || begin <= end <= |s|)
  {
    s[begin..if end == -1 then |s| else end]
  }

  /** The position is -1 after a name that ends the input, which is what the
      C library's search returns there; it counts as the end. */
  class MathParser {
    const input: string
    var pos: int
    var vars: Vars

    constructor (input: string, vars: Vars)
      ensures this.input == input && this.vars == vars && pos == 0
    {
      this.input, this.vars, this.pos := input, vars, 0;
    }

    ghost predicate InRange()
      reads this
    {
      -1 <= pos <= |input|
    }

    /** The position in the text that pos stands for. */
    ghost function Here(): (p: nat)
      requires InRange()
      reads this
      ensures p <= |input|
    {
      if pos == -1 then |input| else pos
    }

    method SkipWhitespace()
      requires InRange()
      modifies `pos
      ensures pos == if old(pos) == -1 then -1 else SpacesEnd(input, old(pos))
    {
      while pos < |input| && IsSpace(At(input, pos))
        invariant InRange()
        invariant old(pos) == -1 ==> pos == -1
        invariant old(pos) >= 0 ==> pos >= 0 && SpacesEnd(input, pos) == SpacesEnd(input, old(pos))
      {
        pos := pos + 1;
      }
    }

    /** The digit loop of one base. */
    method ReadDigits(base: nat) returns (value: nat)
      requires 0 <= pos <= |input|
      modifies `pos
      ensures pos == DigitsEnd(input, old(pos), base)
      ensures value == DigitsValue(input, old(pos), base, 0)
    {
      hide AppendDigit, IsDigitOf;
      value := 0;
      while pos < |input|
        invariant 0 <= pos <= |input|
        invariant DigitsEnd(input, pos, base) == DigitsEnd(input, old(pos), base)
        invariant DigitsValue(input, pos, base, value) == DigitsValue(input, old(pos), base, 0)
      {
        var h := input[pos];
        if !IsDigitOf(h, base) {
          break;
        }
        value := AppendDigit(value, base, h);
        pos := pos + 1;
      }
    }

    /** The next token. At -1 that is the end of the input, after which the
        position is 0. */
    method GetToken() returns (t: Token)
      requires InRange()
      modifies `pos
      ensures t == NextToken(input, old(Here())).tok
      ensures InRange() && (!t.Eof? ==> Here() == NextToken(input, old(Here())).pos)
      ensures t.Eof? && old(pos) == -1 ==> pos == 0
    {
      hide SpacesEnd, DigitsEnd, DigitsValue, Operator;
      SkipWhitespace();
      if |input| == pos {
        return Eof;
      }
      var c := At(input, pos);
      if pos == -1 {
        NoTokenAtTheEnd();
      }
      if IsDigit(c) {
        var value := 0;
        if c == '0' && pos + 1 < |input| {
          var next := input[pos + 1];
          if next == 'x' || next == 'X' {
            pos := pos + 2;
            value := ReadDigits(16);
          } else if '0' <= next <= '7' {
            pos := pos + 1;
            value := ReadDigits(8);
          } else {
            pos := pos + 1;
          }
        } else {
          value := ReadDigits(10);
        }
        return Number(value);
      }
      if IsNameStart(c) {
        var end := FindNameEnd();
        t := Variable(Substring(input, pos, end));
        pos := end;
        return;
      }
      t := GetOperator();
    }

    /** string_find_first_not_of_predicate_at: -1 when the run of name
        characters reaches the end. */
    method FindNameEnd() returns (end: int)
      requires 0 <= pos <= |input|
      ensures end == if NameEnd(input, pos) == |input| then -1 else NameEnd(input, pos)
    {
      for i := pos to |input|
        invariant NameEnd(input, i) == NameEnd(input, pos)
      {
        if !IsNameChar(input[i]) {
          return i;
        }
      }
      end := -1;
    }

    /** The switch over punctuation, consuming the longest operator. */
    method GetOperator() returns (t: Token)
      requires -1 <= pos < |input|
      modifies `pos
      ensures var r := Operator(At(input, old(pos)), At(input, old(pos) + 1), At(input, old(pos) + 2));
              t == r.0 && pos == old(pos) + r.1
    {
      var c := At(input, pos);
      pos := pos + 1;
      match c {
        case '(' => t := LParen;
        case ')' => t := RParen;
        case '+' => t := OrAssign(Add);
        case '-' => t := OrAssign(Sub);
        case '*' => t := OrAssign(Mul);
        case '/' => t := OrAssign(Div);
        case '%' => t := OrAssign(Mod);
        case '^' => t := OrAssign(BitXor);
        case '~' => t := Tilde;
        case '!' =>
          if At(input, pos) == '=' {
            t, pos := Infix(Ne), pos + 1;
          } else {
            t := Bang;
          }
        case '<' =>
          if At(input, pos) == '<' {
            pos := pos + 1;
            t := OrAssign(Shl);
          } else if At(input, pos) == '=' {
            t, pos := Infix(Le), pos + 1;
          } else {
            t := Infix(Lt);
          }
        case '>' =>
          if At(input, pos) == '>' {
            pos := pos + 1;
            t := OrAssign(Shr);
          } else if At(input, pos) == '=' {
            t, pos := Infix(Ge), pos + 1;
          } else {
            t := Infix(Gt);
          }
        case '=' =>
          if At(input, pos) == '=' {
            t, pos := Infix(Eq), pos + 1;
          } else {
            t := Assign(None);
          }
        case '&' =>
          if At(input, pos) == '&' {
            t, pos := Infix(LogAnd), pos + 1;
          } else {
            t := OrAssign(BitAnd);
          }
        case '|' =>
          if At(input, pos) == '|' {
            t, pos := Infix(LogOr), pos + 1;
          } else {
            t := OrAssign(BitOr);
          }
        case '?' => t := Question;
        case ':' => t := Colon;
        case ',' => t := Comma;
        case _ => t := Eof;
      }
    }

    lemma NoTokenAtTheEnd()
      ensures NextToken(input, |input|) == Lexed(Eof, |input|)
      ensures forall c1, c2 :: Operator('\0', c1, c2) == (Eof, 1)
    {
    }

    /** op, or "op=" when an equals sign follows. */
    method OrAssign(op: BinOp) returns (t: Token)
      modifies `pos
      ensures if At(input, old(pos)) == '=' then t == Assign(Some(op)) && pos == old(pos) + 1
              else t == Infix(op) && pos == old(pos)
    {
      if At(input, pos) == '=' {
        pos := pos + 1;
        return Assign(Some(op));
      }
      t := Infix(op);
    }

    ghost predicate Returns(out: Outcome, r: Parsed)
      reads this
    {
      out == r.out && vars == r.st && InRange() && (out.Value? ==> Here() == r.pos)
    }

    method Expression(min: nat) returns (out: Outcome)
      requires InRange()
      modifies this
      ensures Returns(out, ParseExpression(input, old(Here()), old(vars), min))
      decreases |input| - Here(), 2
    {
      hide ParseLoop, ParsePrimary, NextToken;
      var savedPos := pos;
      var token := GetToken();
      var op := UnaryOf(token);
      if op.Some? {
        out := Expression(14);
        if out.Error? {
          return;
        }
        out := OperatorLoop(ApplyUnary(op.value, out.v), min);
      } else {
        pos := savedPos;
        out := Primary();
        if out.Error? {
          return;
        }
        out := OperatorLoop(out.v, min);
      }
    }

    /** The loop of parse_expression over infix operators, from its first operand. */
    method OperatorLoop(first: int, min: nat) returns (out: Outcome)
      requires InRange()
      modifies this
      ensures Returns(out, ParseLoop(input, first, old(Here()), old(vars), min))
      decreases |input| - Here(), 0
    {
      hide ParseExpression, ParsePrimary, NextToken, Apply;
      var left := first;
      ghost var want := ParseLoop(input, left, Here(), vars, min);
      while true
        invariant InRange() && old(Here()) <= Here()
        invariant want == ParseLoop(input, left, Here(), vars, min)
        decreases |input| - Here()
      {
        var savedPos := pos;
        var token := GetToken();
        var prec := Precedence(token);
        if prec < min {
          pos := savedPos;
          return Value(left);
        }
        match token {
          case Comma =>
            out := Expression(prec + 1);
            if out.Error? {
              return;
            }
          case Question =>
            var yes := Expression(0);
            if yes.Error? {
              return yes;
            }
            token := GetToken();
            if !token.Colon? {
              return Error("Expected ':' in ternary expression");
            }
            var no := Expression(prec);
            if no.Error? {
              return no;
            }
            left := if left != 0 then yes.v else no.v;
          case Infix(binary) =>
            if binary == LogOr && left != 0 {
              return Value(left);
            }
            if binary == LogAnd && left == 0 {
              return Value(left);
            }
            out := Expression(prec + 1);
            if out.Error? {
              return;
            }
            out := Apply(binary, left, out.v);
            if out.Error? {
              return;
            }
            left := out.v;
        }
      }
    }

    method Primary() returns (out: Outcome)
      requires InRange()
      modifies this
      ensures Returns(out, ParsePrimary(input, old(Here()), old(vars)))
      decreases |input| - Here(), 1
    {
      var token := GetToken();
      match token {
        case Number(n) =>
          return Value(n);
        case Variable(x) =>
          var savedPos := pos;
          var next := GetToken();
          pos := savedPos;
          if !next.Assign? {
            return Value(ReadVar(vars, x));
          }
          var assign := GetToken();
          out := Expression(0);
          if out.Error? {
            return;
          }
          out := ApplyAssign(assign.compound, ReadVar(vars, x), out.v);
          if out.Value? {
            vars := WriteVar(vars, x, out.v);
          }
        case LParen =>
          out := Expression(0);
          if out.Error? {
            return;
          }
          token := GetToken();
          if !token.RParen? {
            return Error("Expected ')'");
          }
        case _ =>
          return Error("Expected number, variable, or '('");
      }
    }
  }

  /** arithmetic_evaluate after expansion. */
  method ArithmeticEvaluate(expanded: string, vars: Vars) returns (out: Outcome, after: Vars)
    ensures (out, after) == Evaluate(expanded, vars)
  {
    if expanded == "" {
      return Value(0), vars;
    }
    var parser := new MathParser(expanded, vars);
    out := parser.Expression(0);
    var token := parser.GetToken();
    if !token.Eof? && out.Value? {
      out := Error("Unexpected tokens after expression");
    }
    after := parser.vars;
  }
}
