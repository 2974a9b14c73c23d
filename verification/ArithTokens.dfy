/** The arithmetic tokenizer (get_token, src/arithmetic.c) and its operator table. */
module ArithTokens {
  import opened Options
  import opened Strings

  datatype BinOp =
    | Mul | Div | Mod | Add | Sub | Shl | Shr
    | Lt | Gt | Le | Ge | Eq | Ne
    | BitAnd | BitXor | BitOr | LogAnd | LogOr

  /** Assign(None) is "=", Assign(Some(op)) the compound "op=". Plus and minus
      are Infix(Add) and Infix(Sub) also where they are unary. */
  datatype Token =
    | Number(value: nat)
    | Variable(name: string)
    | LParen | RParen
    | Tilde | Bang
    | Infix(op: BinOp)
    | Question | Colon | Comma
    | Assign(compound: Option<BinOp>)
    | Eof

  /** Higher binds tighter; -1 for what is no infix operator. */
  function Precedence(t: Token): (p: int)
    ensures -1 <= p <= 13
  {
    match t
    case Comma => 1
    case Question => 3
    case Infix(op) =>
      (match op
       case LogOr => 4
       case LogAnd => 5
       case BitOr => 6
       case BitXor => 7
       case BitAnd => 8
       case Eq | Ne => 9
       case Lt | Gt | Le | Ge => 10
       case Shl | Shr => 11
       case Add | Sub => 12
       case Mul | Div | Mod => 13)
    case _ => -1
  }

  // -------------------------------------------------------------- characters

  /** string_at: NUL outside the string. */
  function At(s: string, i: int): char {
    if 0 <= i < |s| then s[i] else '\0'
  }

  predicate IsSpace(c: char) {
    c == ' ' || c == '\t' || c == '\n' || c == '\r' || c == 11 as char || c == 12 as char
  }

  /** The value of a hexadecimal digit, 16 for any other character. */
  function DigitValue(c: char): nat {
    if '0' <= c <= '9' then c as int - '0' as int
    else if 'a' <= c <= 'f' then c as int - 'a' as int + 10
    else if 'A' <= c <= 'F' then c as int - 'A' as int + 10
    else 16
  }

  predicate IsDigitOf(c: char, base: nat) { DigitValue(c) < base <= 16 }

  // -------------------------------------------------------------------- runs

  function SpacesEnd(s: string, p: nat): (q: nat)
    requires p <= |s|
    ensures p <= q <= |s| && (q < |s| ==> !IsSpace(s[q]))
    decreases |s| - p
  {
    if p < |s| && IsSpace(s[p]) then SpacesEnd(s, p + 1) else p
  }

  function DigitsEnd(s: string, p: nat, base: nat): (q: nat)
    requires p <= |s|
    ensures p <= q <= |s|
    ensures p < |s| && IsDigitOf(s[p], base) ==> q > p
    decreases |s| - p
  {
    if p < |s| && IsDigitOf(s[p], base) then DigitsEnd(s, p + 1, base) else p
  }

  function AppendDigit(value: nat, base: nat, c: char): nat {
    value * base + DigitValue(c)
  }

  /** Reading the digit run at p onto the accumulated value. */
  function DigitsValue(s: string, p: nat, base: nat, value: nat): nat
    requires p <= |s|
    decreases |s| - p
  {
    if p < |s| && IsDigitOf(s[p], base) then DigitsValue(s, p + 1, base, AppendDigit(value, base, s[p])) else value
  }

  // ------------------------------------------------------------------ tokens

  /** A token and the position after it. */
  datatype Lexed = Lexed(tok: Token, pos: nat)

  function LexNumber(s: string, p: nat): (r: Lexed)
    requires p < |s| && IsDigit(s[p])
    ensures r.tok.Number? && p < r.pos <= |s|
  {
    if s[p] == '0' && p + 1 < |s| then
      var next := s[p + 1];
      if next == 'x' || next == 'X' then Lexed(Number(DigitsValue(s, p + 2, 16, 0)), DigitsEnd(s, p + 2, 16))
      else if '0' <= next <= '7' then Lexed(Number(DigitsValue(s, p + 1, 8, 0)), DigitsEnd(s, p + 1, 8))
      else Lexed(Number(0), p + 1)
    else
      Lexed(Number(DigitsValue(s, p, 10, 0)), DigitsEnd(s, p, 10))
  }

  /** An operator and its number of characters; an unknown character reads as
      the end of input, one character long. */
  function Operator(c: char, c1: char, c2: char): (r: (Token, nat))
    ensures 1 <= r.1 <= 3 && (r.1 >= 2 ==> c1 != '\0') && (r.1 == 3 ==> c2 != '\0')
  {
    match c
    case '(' => (LParen, 1)
    case ')' => (RParen, 1)
    case '+' => if c1 == '=' then (Assign(Some(Add)), 2) else (Infix(Add), 1)
    case '-' => if c1 == '=' then (Assign(Some(Sub)), 2) else (Infix(Sub), 1)
    case '*' => if c1 == '=' then (Assign(Some(Mul)), 2) else (Infix(Mul), 1)
    case '/' => if c1 == '=' then (Assign(Some(Div)), 2) else (Infix(Div), 1)
    case '%' => if c1 == '=' then (Assign(Some(Mod)), 2) else (Infix(Mod), 1)
    case '~' => (Tilde, 1)
    case '!' => if c1 == '=' then (Infix(Ne), 2) else (Bang, 1)
    case '<' =>
      if c1 == '<' then (if c2 == '=' then (Assign(Some(Shl)), 3) else (Infix(Shl), 2))
      else if c1 == '=' then (Infix(Le), 2) else (Infix(Lt), 1)
    case '>' =>
      if c1 == '>' then (if c2 == '=' then (Assign(Some(Shr)), 3) else (Infix(Shr), 2))
      else if c1 == '=' then (Infix(Ge), 2) else (Infix(Gt), 1)
    case '=' => if c1 == '=' then (Infix(Eq), 2) else (Assign(None), 1)
    case '&' =>
      if c1 == '&' then (Infix(LogAnd), 2) else if c1 == '=' then (Assign(Some(BitAnd)), 2) else (Infix(BitAnd), 1)
    case '^' => if c1 == '=' then (Assign(Some(BitXor)), 2) else (Infix(BitXor), 1)
    case '|' =>
      if c1 == '|' then (Infix(LogOr), 2) else if c1 == '=' then (Assign(Some(BitOr)), 2) else (Infix(BitOr), 1)
    case '?' => (Question, 1)
    case ':' => (Colon, 1)
    case ',' => (Comma, 1)
    case _ => (Eof, 1)
  }

  /** The token at p without leading white space. */
  function LexHere(s: string, p: nat): (r: Lexed)
    requires p <= |s|
    ensures p <= r.pos <= |s|
    ensures r.pos == p ==> r.tok.Eof? && p == |s|
  {
    if p == |s| then Lexed(Eof, p)
    else if IsDigit(s[p]) then LexNumber(s, p)
    else if IsNameStart(s[p]) then Lexed(Variable(s[p..NameEnd(s, p)]), NameEnd(s, p))
    else
      var r := Operator(s[p], At(s, p + 1), At(s, p + 2));
      assert r.1 >= 2 ==> p + 1 < |s|;
      assert r.1 == 3 ==> p + 2 < |s|;
      Lexed(r.0, p + r.1)
  }

  /** get_token: progress is made except at the end of the input. */
  function NextToken(s: string, p: nat): (r: Lexed)
    requires p <= |s|
    ensures p <= r.pos <= |s|
    ensures !r.tok.Eof? ==> r.pos > p
  {
    LexHere(s, SpacesEnd(s, p))
  }

  /** From p, s reads as toks and leaves the position at q. */
  ghost predicate Lexes(s: string, p: nat, toks: seq<Token>, q: nat)
    requires p <= |s|
    decreases |toks|
  {
    if toks == [] then q == p
    else NextToken(s, p).tok == toks[0] && Lexes(s, NextToken(s, p).pos, toks[1..], q)
  }

  lemma {:induction false} LexesWithin(s: string, p: nat, toks: seq<Token>, q: nat)
    requires p <= |s| && Lexes(s, p, toks, q)
    ensures p <= q <= |s|
    decreases |toks|
  {
    if toks == [] {
    } else {
      LexesWithin(s, NextToken(s, p).pos, toks[1..], q);
    }
  }

  lemma {:induction false} LexesSplit(s: string, p: nat, a: seq<Token>, b: seq<Token>, q: nat) returns (mid: nat)
    requires p <= |s| && Lexes(s, p, a + b, q)
    ensures p <= mid <= |s| && Lexes(s, p, a, mid) && Lexes(s, mid, b, q)
    decreases |a|
  {
    if a == [] {
      assert a + b == b;
      mid := p;
    } else {
      assert (a + b)[1..] == a[1..] + b;
      mid := LexesSplit(s, NextToken(s, p).pos, a[1..], b, q);
    }
  }

  lemma {:induction false} LexesJoin(s: string, p: nat, a: seq<Token>, mid: nat, b: seq<Token>, q: nat)
    requires p <= |s| && mid <= |s| && Lexes(s, p, a, mid) && Lexes(s, mid, b, q)
    ensures Lexes(s, p, a + b, q)
    decreases |a|
  {
    hide NextToken;
    if a == [] {
      assert a + b == b;
    } else {
      assert (a + b)[1..] == a[1..] + b;
      LexesJoin(s, NextToken(s, p).pos, a[1..], mid, b, q);
    }
  }

  // --------------------------------------------------------------- spellings

  function Symbol(op: BinOp): string {
    match op
    case Mul => "*" case Div => "/" case Mod => "%" case Add => "+" case Sub => "-"
    case Shl => "<<" case Shr => ">>" case Lt => "<" case Gt => ">" case Le => "<=" case Ge => ">="
    case Eq => "==" case Ne => "!=" case BitAnd => "&" case BitXor => "^" case BitOr => "|"
    case LogAnd => "&&" case LogOr => "||"
  }

  /** The operators with a compound assignment. */
  predicate HasAssign(op: BinOp) {
    match op
    case Lt | Gt | Le | Ge | Eq | Ne | LogAnd | LogOr => false
    case _ => true
  }

  predicate IsName(x: string) {
    x != "" && IsNameStart(x[0]) && forall i :: 0 <= i < |x| ==> IsNameChar(x[i])
  }

  predicate IsRun(digits: string, base: nat) {
    digits != "" && forall i :: 0 <= i < |digits| ==> IsDigitOf(digits[i], base)
  }

  /** The value of a digit string, most significant digit first. */
  function ValueOf(digits: string, base: nat): nat {
    if digits == "" then 0
    else AppendDigit(ValueOf(digits[..|digits|-1], base), base, digits[|digits|-1])
  }

  /** The base a numeral is written in. */
  function BaseOf(text: string): nat {
    if |text| > 1 && text[0] == '0' then (if text[1] == 'x' || text[1] == 'X' then 16 else 8) else 10
  }

  /** Decimal without a leading zero, octal with one, hexadecimal after 0x or 0X. */
  predicate SpellsNumber(text: string, n: nat) {
    match BaseOf(text)
    case 16 => IsRun(text[2..], 16) && ValueOf(text[2..], 16) == n
    case 8 => IsRun(text[1..], 8) && ValueOf(text[1..], 8) == n
    case _ => IsRun(text, 10) && ValueOf(text, 10) == n
  }

  /** text is a way to write t. */
  predicate Spells(text: string, t: Token) {
    match t
    case Number(n) => SpellsNumber(text, n)
    case Variable(x) => IsName(x) && text == x
    case LParen => text == "("
    case RParen => text == ")"
    case Tilde => text == "~"
    case Bang => text == "!"
    case Infix(op) => text == Symbol(op)
    case Question => text == "?"
    case Colon => text == ":"
    case Comma => text == ","
    case Assign(None) => text == "="
    case Assign(Some(op)) => HasAssign(op) && text == Symbol(op) + "="
    case Eof => false
  }

  predicate IsPunctuation(t: Token) { !t.Number? && !t.Variable? }

  /** c does not continue text, a spelling of t: it is no digit of the numeral's
      base and no name character, and makes no longer operator. A lone zero is
      also continued by x and by octal digits. */
  ghost predicate Stops(text: string, t: Token, c: char) {
    match t
    case Number(_) =>
      if text == "0" then c != 'x' && c != 'X' && !IsDigitOf(c, 8) else !IsDigitOf(c, BaseOf(text))
    case Variable(_) => !IsNameChar(c)
    case _ => forall u: Token :: IsPunctuation(u) ==> !Spells(text + [c], u)
  }

  /** Blanks and the end of the input continue nothing. */
  lemma BlanksStop(text: string, t: Token, c: char)
    requires Spells(text, t) && (IsSpace(c) || c == '\0')
    ensures Stops(text, t, c)
  {
    if IsPunctuation(t) {
      forall u: Token | IsPunctuation(u) ensures !Spells(text + [c], u) {
        NoBlankInPunctuation(text + [c], u);
      }
    }
  }

  lemma NoBlankInPunctuation(w: string, u: Token)
    requires w != "" && (IsSpace(w[|w|-1]) || w[|w|-1] == '\0')
    ensures IsPunctuation(u) ==> !Spells(w, u)
  {
  }

  // -------------------------------------------------------------- numerals

  function DigitChar(d: nat): (c: char)
    requires d < 16
    ensures DigitValue(c) == d && !IsSpace(c)
    ensures d < 10 ==> IsDigit(c)
  {
    if d < 10 then (d + '0' as int) as char else (d - 10 + 'a' as int) as char
  }

  predicate IsBase(base: nat) { base == 8 || base == 10 || base == 16 }

  lemma Division(n: nat, base: nat)
    requires IsBase(base)
    ensures n / base * base + n % base == n && n % base < base
    ensures n >= base ==> 0 < n / base < n
  {
    if base == 8 {
    } else if base == 10 {
    } else {
    }
  }

  /** n in the given base, without a leading zero unless n is 0. */
  function Digits(n: nat, base: nat): (s: string)
    requires IsBase(base)
    ensures |s| > 0 && forall i :: 0 <= i < |s| ==> IsDigitOf(s[i], base)
    ensures n > 0 ==> s[0] != '0'
    ensures n < base ==> |s| == 1
  {
    if n < base then [DigitChar(n)]
    else
      Division(n, base);
      Digits(n / base, base) + [DigitChar(n % base)]
  }

  lemma {:induction false} DigitsDenote(n: nat, base: nat)
    requires IsBase(base)
    ensures ValueOf(Digits(n, base), base) == n
    decreases n
  {
    var d := Digits(n, base);
    if n < base {
      assert d[..0] == "";
    } else {
      Division(n, base);
      DigitsDenote(n / base, base);
      assert d[..|d|-1] == Digits(n / base, base);
    }
  }

  /** Every number is spelled by its decimal digits, by its octal digits after a
      zero, and by its hexadecimal digits after 0x. */
  lemma DigitsSpell(n: nat)
    ensures Spells(Digits(n, 10), Number(n))
    ensures Spells("0" + Digits(n, 8), Number(n))
    ensures Spells("0x" + Digits(n, 16), Number(n))
  {
    DigitsDenote(n, 10);
    DigitsDenote(n, 8);
    DigitsDenote(n, 16);
    var octal, hexadecimal := "0" + Digits(n, 8), "0x" + Digits(n, 16);
    assert octal[1..] == Digits(n, 8) && hexadecimal[2..] == Digits(n, 16);
    assert octal[1] == Digits(n, 8)[0] && hexadecimal[1] == 'x';
    assert IsDigitOf(octal[1], 8);
    OctalDigit(octal[1]);
  }

  function Power(base: nat, n: nat): nat {
    if n == 0 then 1 else base * Power(base, n - 1)
  }

  /** A numeral is positional: its first digit counts by the power of the base
      that the number of digits after it gives. */
  lemma {:induction false} NumeralsArePositional(c: char, rest: string, base: nat)
    ensures ValueOf([c] + rest, base) == DigitValue(c) * Power(base, |rest|) + ValueOf(rest, base)
    decreases |rest|
  {
    hide DigitValue;
    var all := [c] + rest;
    if rest == "" {
      assert all[..0] == "";
      assert AppendDigit(0, base, c) == DigitValue(c);
    } else {
      var init, last := rest[..|rest|-1], rest[|rest|-1];
      NumeralsArePositional(c, init, base);
      assert all[..|all|-1] == [c] + init && all[|all|-1] == last;
      AppendToPositional(DigitValue(c), Power(base, |init|), ValueOf(init, base), base, last);
    }
  }

  lemma AppendToPositional(d: nat, p: nat, v: nat, base: nat, last: char)
    ensures AppendDigit(d * p + v, base, last) == d * (base * p) + AppendDigit(v, base, last)
  {
    hide DigitValue;
    assert (d * p + v) * base == (d * p) * base + v * base;
    assert (d * p) * base == d * (p * base);
  }

  /** The digits, one by one. */
  lemma DigitsByName(c: char)
    ensures forall i :: 0 <= i < 10 ==> DigitValue("0123456789"[i]) == i
    ensures forall i :: 0 <= i < 6 ==> DigitValue("abcdef"[i]) == 10 + i == DigitValue("ABCDEF"[i])
    ensures c !in "0123456789abcdefABCDEF" ==> DigitValue(c) == 16
  {
    var known := "0123456789abcdefABCDEF";
    assert '0' <= c <= '9' ==> known[c as int - '0' as int] == c;
    assert 'a' <= c <= 'f' ==> known[10 + c as int - 'a' as int] == c;
    assert 'A' <= c <= 'F' ==> known[16 + c as int - 'A' as int] == c;
  }

  /** What may stand between tokens, one by one. */
  lemma BlanksByName(c: char)
    ensures IsSpace(c) <==> c in " \t\n\r" || c == 11 as char || c == 12 as char
  {
    var known := " \t\n\r";
    assert known[0] == ' ' && known[1] == '\t' && known[2] == '\n' && known[3] == '\r';
  }

  predicate Stands(s: string, p: nat, text: string) {
    p + |text| <= |s| && s[p..p + |text|] == text
  }

  lemma {:induction false} DigitsEndAt(s: string, p: nat, q: nat, base: nat)
    requires p <= q <= |s| && (forall i :: p <= i < q ==> IsDigitOf(s[i], base))
    requires q < |s| ==> !IsDigitOf(s[q], base)
    ensures DigitsEnd(s, p, base) == q
    decreases q - p
  {
    if p == q {
    } else {
      DigitsEndAt(s, p + 1, q, base);
    }
  }

  /** Accumulating left to right computes the value of the run. */
  lemma {:induction false} DigitsValueAt(s: string, p: nat, k: nat, q: nat, base: nat)
    requires p <= k <= q <= |s| && (forall i :: p <= i < q ==> IsDigitOf(s[i], base))
    requires q < |s| ==> !IsDigitOf(s[q], base)
    ensures DigitsValue(s, k, base, ValueOf(s[p..k], base)) == ValueOf(s[p..q], base)
    decreases q - k
  {
    hide AppendDigit, DigitValue;
    if k == q {
    } else {
      assert s[p..k+1][..k-p] == s[p..k];
      DigitsValueAt(s, p, k + 1, q, base);
    }
  }

  /** A run of digits is read to its end, in front of anything that is no digit of its base. */
  lemma RunReadsBack(s: string, p: nat, digits: string, base: nat)
    requires IsRun(digits, base) && Stands(s, p, digits) && !IsDigitOf(At(s, p + |digits|), base)
    ensures DigitsEnd(s, p, base) == p + |digits| && DigitsValue(s, p, base, 0) == ValueOf(digits, base)
  {
    hide DigitValue, AppendDigit;
    var q := p + |digits|;
    forall i | p <= i < q ensures IsDigitOf(s[i], base) {
      assert s[i] == s[p..q][i - p];
    }
    DigitsEndAt(s, p, q, base);
    assert s[p..p] == "";
    DigitsValueAt(s, p, p, q, base);
  }

  /** Decimal, leading-zero octal and hexadecimal numbers are read back, in
      front of anything that does not continue them. */
  lemma NumberReadsBack(s: string, p: nat, text: string, n: nat)
    requires SpellsNumber(text, n) && Stands(s, p, text) && Stops(text, Number(n), At(s, p + |text|))
    ensures LexHere(s, p) == Lexed(Number(n), p + |text|)
  {
    hide DigitsEnd, DigitsValue, ValueOf;
    var q, base := p + |text|, BaseOf(text);
    assert text != "" && s[p] == s[p..q][0] == text[0];
    if base == 10 {
      DecimalReadsBack(s, p, text, n);
    } else {
      assert s[p + 1] == s[p..q][1] == text[1];
      var k := if base == 16 then 2 else 1;
      assert s[p + k..q] == text[k..];
      RunReadsBack(s, p + k, text[k..], base);
      assert IsDigitOf(text[k], base);
      OctalDigit(text[1]);
    }
  }

  lemma DecimalReadsBack(s: string, p: nat, text: string, n: nat)
    requires SpellsNumber(text, n) && BaseOf(text) == 10 && Stands(s, p, text)
    requires Stops(text, Number(n), At(s, p + |text|))
    ensures LexHere(s, p) == Lexed(Number(n), p + |text|)
  {
    hide DigitsEnd, DigitsValue;
    assert s[p] == s[p..p + |text|][0] == text[0];
    assert IsDigitOf(text[0], 10);
    if text == "0" {
      ZeroIs();
      OctalDigit(At(s, p + 1));
      if p + 1 == |s| {
        RunReadsBack(s, p, text, 10);
      } else {
        assert LexHere(s, p) == Lexed(Number(0), p + 1);
      }
    } else {
      RunReadsBack(s, p, text, 10);
    }
  }

  lemma ZeroIs()
    ensures ValueOf("0", 10) == 0
  {
    assert "0"[..0] == "";
    assert AppendDigit(0, 10, '0') == 0;
  }

  lemma OctalDigit(c: char)
    ensures IsDigitOf(c, 8) <==> '0' <= c <= '7'
    ensures IsDigitOf(c, 8) ==> c != 'x' && c != 'X'
  {
  }

  /** A name is read whole, in front of anything that is no name character. */
  lemma NameReadsBack(s: string, p: nat, x: string)
    requires IsName(x) && Stands(s, p, x) && !IsNameChar(At(s, p + |x|))
    ensures LexHere(s, p) == Lexed(Variable(x), p + |x|)
  {
    var q := p + |x|;
    assert forall i :: 0 <= i < |x| ==> s[p + i] == s[p..q][i];
    assert forall i :: p <= i < q ==> IsNameChar(s[i]) by {
      forall i | p <= i < q ensures IsNameChar(s[i]) {
        assert s[i] == s[p + (i - p)];
      }
    }
    NameEndAt(s, p, q);
    assert s[p] == x[0];
  }

  /** An operator is read as it is spelled, in front of anything that does not
      make it a longer one. */
  lemma OperatorReadsBack(s: string, p: nat, text: string, t: Token)
    requires Spells(text, t) && IsPunctuation(t) && Stands(s, p, text) && Stops(text, t, At(s, p + |text|))
    ensures LexHere(s, p) == Lexed(t, p + |text|)
  {
    hide Operator, Spells, NameEnd, LexNumber, Stops;
    OperatorSize(text, t);
    assert s[p..p + |text|] == text;
    assert s[p] == text[0];
    assert |text| >= 2 ==> s[p + 1] == text[1];
    assert |text| >= 3 ==> s[p + 2] == text[2];
    match |text| {
      case 1 => OneCharacter(text, t, At(s, p + 1), At(s, p + 2));
      case 2 => TwoCharacters(text, t, At(s, p + 2));
      case _ => ThreeCharacters(text, t);
    }
  }

  lemma OperatorSize(text: string, t: Token)
    requires Spells(text, t) && IsPunctuation(t)
    ensures 1 <= |text| <= 3 && !IsDigit(text[0]) && !IsNameStart(text[0])
  {
  }

  /** The one-character operators that an equals sign makes longer. */
  predicate GrowsWithEquals(t: Token) {
    t.Infix? || t.Bang? || t.Assign?
  }

  lemma EqualsGrows(text: string, t: Token) returns (u: Token)
    requires Spells(text, t) && |text| == 1 && GrowsWithEquals(t)
    ensures IsPunctuation(u) && Spells(text + ['='], u)
  {
    match t {
      case Infix(op) => u := if HasAssign(op) then Assign(Some(op)) else Infix(if op == Lt then Le else Ge);
      case Bang => u := Infix(Ne);
      case Assign(_) => u := Infix(Eq);
    }
  }

  predicate Doubles(t: Token) {
    t == Infix(Lt) || t == Infix(Gt) || t == Infix(BitAnd) || t == Infix(BitOr)
  }

  lemma DoubledGrows(text: string, t: Token) returns (u: Token)
    requires Spells(text, t) && |text| == 1 && Doubles(t)
    ensures IsPunctuation(u) && Spells(text + [text[0]], u)
  {
    match t {
      case Infix(op) =>
        u := Infix(if op == Lt then Shl else if op == Gt then Shr else if op == BitAnd then LogAnd else LogOr);
    }
  }

  lemma StopsEquals(text: string, t: Token, c: char)
    requires Spells(text, t) && IsPunctuation(t) && |text| == 1 && Stops(text, t, c)
    ensures GrowsWithEquals(t) ==> c != '='
    ensures Doubles(t) ==> c != text[0]
  {
    hide Spells;
    if GrowsWithEquals(t) && c == '=' {
      var u := EqualsGrows(text, t);
      assert false;
    }
    if Doubles(t) && c == text[0] {
      var u := DoubledGrows(text, t);
      assert false;
    }
  }

  lemma OneCharacter(text: string, t: Token, c1: char, c2: char)
    requires Spells(text, t) && IsPunctuation(t) && |text| == 1 && Stops(text, t, c1)
    ensures Operator(text[0], c1, c2) == (t, 1)
  {
    StopsEquals(text, t, c1);
    hide Stops;
  }

  lemma TwoCharacters(text: string, t: Token, c2: char)
    requires Spells(text, t) && IsPunctuation(t) && |text| == 2 && Stops(text, t, c2)
    ensures Operator(text[0], text[1], c2) == (t, 2)
  {
    var w := text + [c2];
    assert !Spells(w, Assign(Some(Shl))) && !Spells(w, Assign(Some(Shr)));
    assert w[0] == text[0] && w[1] == text[1] && w[2] == c2;
  }

  lemma ThreeCharacters(text: string, t: Token)
    requires Spells(text, t) && IsPunctuation(t) && |text| == 3
    ensures Operator(text[0], text[1], text[2]) == (t, 3)
  {
  }

  /** The k characters at p spell the operator u. */
  predicate SpelledAt(s: string, p: nat, k: nat, u: Token) {
    p + k <= |s| && IsPunctuation(u) && Spells(s[p..p + k], u)
  }

  /** Longest match: when an operator's spelling stands at p and no longer
      spelling does, it is that operator's token. */
  lemma LongestOperatorWins(s: string, p: nat, text: string, t: Token)
    requires Spells(text, t) && IsPunctuation(t) && Stands(s, p, text)
    requires forall k: nat, u: Token :: |text| < k ==> !SpelledAt(s, p, k, u)
    ensures LexHere(s, p) == Lexed(t, p + |text|)
  {
    hide Spells, LexHere;
    var q := p + |text|;
    if q == |s| {
      BlanksStop(text, t, At(s, q));
    } else {
      var k := |text| + 1;
      assert s[p..p + k] == text + [s[q]];
      forall u: Token | IsPunctuation(u) ensures !Spells(text + [s[q]], u) {
        assert !SpelledAt(s, p, k, u);
      }
    }
    OperatorReadsBack(s, p, text, t);
  }

  /** Any token, in front of anything that does not continue it. */
  lemma TokenReadsBack(s: string, p: nat, text: string, t: Token)
    requires Spells(text, t) && Stands(s, p, text) && Stops(text, t, At(s, p + |text|))
    ensures LexHere(s, p) == Lexed(t, p + |text|)
  {
    hide LexHere;
    match t {
      case Number(n) => NumberReadsBack(s, p, text, n);
      case Variable(x) => NameReadsBack(s, p, x);
      case _ => OperatorReadsBack(s, p, text, t);
    }
  }

  lemma FirstCharacter(text: string, t: Token)
    requires Spells(text, t)
    ensures text != "" && !IsSpace(text[0])
  {
    if t.Number? && BaseOf(text) == 10 {
      assert IsDigitOf(text[0], 10);
    }
  }

  // ----------------------------------------------------------- written texts

  predicate Blank(gap: string) { forall i :: 0 <= i < |gap| ==> IsSpace(gap[i]) }

  /** Each text after its gap. */
  function Written(gaps: seq<string>, texts: seq<string>): string
    requires |gaps| == |texts|
  {
    if texts == [] then "" else gaps[0] + texts[0] + Written(gaps[1..], texts[1..])
  }

  /** The texts spell the tokens, and where no blank stands between two of them
      the second does not continue the first. */
  ghost predicate Apart(gaps: seq<string>, texts: seq<string>, toks: seq<Token>) {
    && |gaps| == |texts| == |toks|
    && (forall i :: 0 <= i < |texts| ==> Spells(texts[i], toks[i]) && Blank(gaps[i]))
    && (forall i :: 0 <= i < |texts| - 1 ==> ApartAt(gaps, texts, toks, i))
  }

  ghost predicate ApartAt(gaps: seq<string>, texts: seq<string>, toks: seq<Token>, i: nat)
    requires |gaps| == |texts| == |toks| && i < |texts| - 1
  {
    gaps[i + 1] != "" || (texts[i + 1] != "" && Stops(texts[i], toks[i], texts[i + 1][0]))
  }

  /** s is a way to write the tokens, with or without blanks. */
  ghost predicate Writes(s: string, toks: seq<Token>) {
    exists gaps, texts, tail :: Apart(gaps, texts, toks) && Blank(tail) && s == Written(gaps, texts) + tail
  }

  lemma EndReadsBack(s: string, p: nat)
    requires p <= |s| && Blank(s[p..])
    ensures NextToken(s, p) == Lexed(Eof, |s|)
  {
    SpacesEndAt(s, p, |s|);
  }

  lemma {:induction false} SpacesEndAt(s: string, p: nat, q: nat)
    requires p <= q <= |s| && Blank(s[p..q]) && (q < |s| ==> !IsSpace(s[q]))
    ensures SpacesEnd(s, p) == q
    decreases q - p
  {
    if p == q {
    } else {
      assert s[p] == s[p..q][0];
      assert s[p + 1..q] == s[p..q][1..];
      SpacesEndAt(s, p + 1, q);
    }
  }

  /** What stands after the first text of a writing. */
  lemma FirstStops(gaps: seq<string>, texts: seq<string>, toks: seq<Token>, tail: string)
    requires Apart(gaps, texts, toks) && texts != [] && Blank(tail)
    ensures var rest := Written(gaps[1..], texts[1..]) + tail;
            Stops(texts[0], toks[0], At(rest, 0))
    ensures Apart(gaps[1..], texts[1..], toks[1..])
  {
    hide Spells, Stops;
    var rest := Written(gaps[1..], texts[1..]) + tail;
    forall i | 0 <= i < |texts| - 2 ensures ApartAt(gaps[1..], texts[1..], toks[1..], i) {
      assert ApartAt(gaps, texts, toks, i + 1);
    }
    assert |texts| > 1 ==> ApartAt(gaps, texts, toks, 0);
    if |texts| == 1 {
      assert rest == tail;
      BlanksStop(texts[0], toks[0], At(rest, 0));
    } else if gaps[1] != "" {
      assert rest[0] == gaps[1][0];
      BlanksStop(texts[0], toks[0], rest[0]);
    } else {
      assert rest[0] == texts[1][0];
    }
  }

  /** Tokens written with or without blanks are read back, then comes the end
      of the input. */
  lemma {:induction false} WrittenReadsBack(s: string, p: nat, gaps: seq<string>, texts: seq<string>, toks: seq<Token>,
                                            tail: string)
    requires Apart(gaps, texts, toks) && Blank(tail) && p <= |s| && s[p..] == Written(gaps, texts) + tail
    ensures |tail| <= |s| && Lexes(s, p, toks, |s| - |tail|)
    ensures NextToken(s, |s| - |tail|) == Lexed(Eof, |s|)
    decreases |toks|
  {
    hide NextToken, Spells, Stops, LexHere;
    if toks == [] {
      assert s[p..] == tail;
      EndReadsBack(s, p);
    } else {
      var gap, text, rest := gaps[0], texts[0], Written(gaps[1..], texts[1..]) + tail;
      FirstStops(gaps, texts, toks, tail);
      FirstCharacter(text, toks[0]);
      StandsAfter(s, p, gap, text, rest);
      var q := p + |gap|;
      SpacesEndAt(s, p, q);
      TokenReadsBack(s, q, text, toks[0]);
      TokenAfterBlanks(s, p, q);
      WrittenReadsBack(s, q + |text|, gaps[1..], texts[1..], toks[1..], tail);
    }
  }

  lemma TokenAfterBlanks(s: string, p: nat, q: nat)
    requires p <= |s| && q == SpacesEnd(s, p)
    ensures NextToken(s, p) == LexHere(s, q)
  {
  }

  /** A gap, text and rest make up s from p on. */
  lemma StandsAfter(s: string, p: nat, gap: string, text: string, rest: string)
    requires p <= |s| && s[p..] == gap + text + rest && text != ""
    ensures var q := p + |gap|;
            && q + |text| <= |s| && s[p..q] == gap && Stands(s, q, text) && s[q + |text|..] == rest
            && q < |s| && s[q] == text[0] && At(s, q + |text|) == At(rest, 0)
  {
    var q, tail := p + |gap|, s[p..];
    assert |tail| == |gap| + |text| + |rest|;
    assert tail[..|gap|] == gap && tail[|gap|..|gap| + |text|] == text && tail[|gap| + |text|..] == rest;
    assert s[p..q] == tail[..|gap|];
    assert s[q..q + |text|] == tail[|gap|..|gap| + |text|];
    assert s[q + |text|..] == tail[|gap| + |text|..];
    assert s[q] == s[q..q + |text|][0];
    assert rest != "" ==> s[q + |text|] == rest[0];
  }

  /** The texts one after another, a space before each. */
  function Spaced(texts: seq<string>): string {
    if texts == [] then "" else " " + texts[0] + Spaced(texts[1..])
  }

  /** With a space before each text nothing can run together. */
  lemma {:induction false} SpacedIsWritten(texts: seq<string>)
    ensures Spaced(texts) == Written(seq(|texts|, _ => " "), texts)
  {
    if texts == [] {
    } else {
      SpacedIsWritten(texts[1..]);
      assert seq(|texts|, _ => " ")[1..] == seq(|texts| - 1, _ => " ");
    }
  }

  lemma SpacedApart(texts: seq<string>, toks: seq<Token>)
    requires |texts| == |toks| && forall i :: 0 <= i < |texts| ==> Spells(texts[i], toks[i])
    ensures Apart(seq(|texts|, _ => " "), texts, toks) && Spaced(texts) == Written(seq(|texts|, _ => " "), texts)
  {
    hide Spells, Stops;
    SpacedIsWritten(texts);
  }

  lemma SpacedWrites(texts: seq<string>, toks: seq<Token>)
    requires |texts| == |toks| && forall i :: 0 <= i < |texts| ==> Spells(texts[i], toks[i])
    ensures Writes(Spaced(texts), toks)
  {
    hide Spells, Stops, Apart;
    SpacedApart(texts, toks);
    assert Blank("") && Spaced(texts) == Written(seq(|texts|, _ => " "), texts) + "";
  }

  /** Tokens written with spaces between them are read back, then comes the
      end of the input. */
  lemma SpacedReadsBack(s: string, texts: seq<string>, toks: seq<Token>)
    requires |texts| == |toks| && forall i :: 0 <= i < |texts| ==> Spells(texts[i], toks[i])
    requires s == Spaced(texts)
    ensures Lexes(s, 0, toks, |s|)
    ensures NextToken(s, |s|) == Lexed(Eof, |s|)
  {
    hide Spells, Stops, NextToken, Apart, Lexes;
    SpacedApart(texts, toks);
    assert s[0..] == Written(seq(|texts|, _ => " "), texts) + "";
    WrittenReadsBack(s, 0, seq(|texts|, _ => " "), texts, toks, "");
  }

  /** An operator is only made longer by one of these characters. */
  lemma PunctuationStops(text: string, t: Token, c: char)
    requires IsPunctuation(t) && Spells(text, t) && c !in "=<>&|"
    ensures Stops(text, t, c)
  {
    forall u: Token | IsPunctuation(u) ensures !Spells(text + [c], u) {
      LongerEnds(text + [c], u);
    }
  }

  lemma LongerEnds(w: string, u: Token)
    requires |w| >= 2 && w[|w|-1] !in "=<>&|"
    ensures IsPunctuation(u) ==> !Spells(w, u)
  {
    var ends := "=<>&|";
    assert ends[0] == '=' && ends[1] == '<' && ends[2] == '>' && ends[3] == '&' && ends[4] == '|';
  }

  /** Without any blank, where each text stops before the next. */
  lemma TightWrites(texts: seq<string>, toks: seq<Token>)
    requires |texts| == |toks| && forall i :: 0 <= i < |texts| ==> texts[i] != "" && Spells(texts[i], toks[i])
    requires forall i :: 0 <= i < |texts| - 1 ==> Stops(texts[i], toks[i], texts[i + 1][0])
    ensures Writes(Concat(texts), toks)
  {
    hide Spells, Stops, Apart;
    TightApart(texts, toks);
    TightIsWritten(texts);
    assert Blank("") && Concat(texts) == Written(seq(|texts|, _ => ""), texts) + "";
  }

  lemma TightApart(texts: seq<string>, toks: seq<Token>)
    requires |texts| == |toks| && forall i :: 0 <= i < |texts| ==> texts[i] != "" && Spells(texts[i], toks[i])
    requires forall i :: 0 <= i < |texts| - 1 ==> Stops(texts[i], toks[i], texts[i + 1][0])
    ensures Apart(seq(|texts|, _ => ""), texts, toks)
  {
    hide Spells, Stops;
    var gaps := seq(|texts|, _ => "");
    forall i | 0 <= i < |texts| - 1 ensures ApartAt(gaps, texts, toks, i) {
      assert Stops(texts[i], toks[i], texts[i + 1][0]);
    }
  }

  lemma {:induction false} TightIsWritten(texts: seq<string>)
    ensures Concat(texts) == Written(seq(|texts|, _ => ""), texts)
  {
    if texts == [] {
    } else {
      TightIsWritten(texts[1..]);
      assert seq(|texts|, _ => "")[1..] == seq(|texts| - 1, _ => "");
    }
  }

  /** However the tokens are written, they are read back. */
  lemma WritingReadsBack(s: string, toks: seq<Token>) returns (q: nat)
    requires Writes(s, toks)
    ensures q <= |s| && Lexes(s, 0, toks, q) && NextToken(s, q) == Lexed(Eof, |s|)
  {
    hide Spells, Stops, NextToken, Lexes;
    var gaps, texts, tail :| Apart(gaps, texts, toks) && Blank(tail) && s == Written(gaps, texts) + tail;
    assert s[0..] == s;
    WrittenReadsBack(s, 0, gaps, texts, toks, tail);
    q := |s| - |tail|;
  }
}
