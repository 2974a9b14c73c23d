/** Reading the descriptor text of "n>&text" (parse_fd_number, src/exec_redirect.c). */
module FdNumber {
  import opened Strings

  const INT_MAX: int := 2147483647

  /** What the text asks for: nothing legal, closing the target, or a source
      descriptor, possibly closed after use. */
  datatype FdText = Bad | CloseTarget | Source(fd: nat, move: bool)

  predicate IsBlank(c: char) { c == ' ' || c == '\t' }
  predicate AllBlank(s: string) { forall i :: 0 <= i < |s| ==> IsBlank(s[i]) }
  predicate AllDigits(s: string) { forall i :: 0 <= i < |s| ==> IsDigit(s[i]) }

  function DigitsValue(s: string): nat
    requires AllDigits(s)
  {
    if s == [] then 0 else DigitsValue(s[..|s|-1]) * 10 + (s[|s|-1] as int - '0' as int)
  }

  /** The index of the first non-blank at or after i. */
  function BlanksEnd(s: string, i: nat): (e: nat)
    requires i <= |s|
    ensures i <= e <= |s| && AllBlank(s[i..e]) && (e < |s| ==> !IsBlank(s[e]))
    decreases |s| - i
  {
    if i < |s| && IsBlank(s[i]) then BlanksEnd(s, i + 1) else i
  }

  function DigitsEnd(s: string, i: nat): (e: nat)
    requires i <= |s|
    ensures i <= e <= |s| && AllDigits(s[i..e]) && (e < |s| ==> !IsDigit(s[e]))
    decreases |s| - i
  {
    if i < |s| && IsDigit(s[i]) then DigitsEnd(s, i + 1) else i
  }

  /** Where the number proper starts: after a lone "-" and the blanks that follow it. */
  function NumberStart(s: string): (i: nat)
    ensures i <= |s|
  {
    if s != "" && s[0] == '-' && (|s| == 1 || IsBlank(s[1])) then BlanksEnd(s, 1) else 0
  }

  function ParseNumber(s: string, start: nat): FdText
    requires start < |s|
  {
    if s[start] == '-' then Bad
    else
      var first := if s[start] == '+' then start + 1 else start;
      var last := DigitsEnd(s, first);
      if last == first || DigitsValue(s[first..last]) > INT_MAX then Bad
      else
        var move := last < |s| && s[last] == '-';
        if BlanksEnd(s, if move then last + 1 else last) < |s| then Bad
        else Source(DigitsValue(s[first..last]), move)
  }

  function ParseFd(s: string): FdText {
    if s == "" || IsBlank(s[0]) then Bad
    else if NumberStart(s) == |s| then CloseTarget
    else ParseNumber(s, NumberStart(s))
  }

  // ------------------------------------------------------------ the grammar

  /** s spells r: [first, last) are the digits, after an optional "+"; start > 0
      is the form the C code's fall-through after a lone "-" lets in; the rest
      is the move marker and trailing blanks. */
  ghost predicate Spelled(s: string, r: FdText, start: nat, first: nat, last: nat) {
    match r
    case Bad => false
    case CloseTarget => s != "" && s[0] == '-' && AllBlank(s[1..])
    case Source(n, move) =>
      && start <= first < last <= |s|
      && (start == 0 || (start > 1 && s[0] == '-' && AllBlank(s[1..start])))
      && (first == start || (first == start + 1 && s[start] == '+'))
      && AllDigits(s[first..last]) && DigitsValue(s[first..last]) == n <= 2147483647
      && (if move then last < |s| && s[last] == '-' && AllBlank(s[last+1..]) else AllBlank(s[last..]))
  }

  lemma {:induction false} BlanksEndIs(s: string, i: nat, e: nat)
    requires i <= e <= |s| && AllBlank(s[i..e]) && (e < |s| ==> !IsBlank(s[e]))
    ensures BlanksEnd(s, i) == e
    decreases e - i
  {
    if i == e {
    } else {
      assert s[i] == s[i..e][0];
      assert s[i+1..e] == s[i..e][1..];
      BlanksEndIs(s, i + 1, e);
    }
  }

  lemma {:induction false} DigitsEndIs(s: string, i: nat, e: nat)
    requires i <= e <= |s| && AllDigits(s[i..e]) && (e < |s| ==> !IsDigit(s[e]))
    ensures DigitsEnd(s, i) == e
    decreases e - i
  {
    if i == e {
    } else {
      assert s[i] == s[i..e][0];
      assert s[i+1..e] == s[i..e][1..];
      DigitsEndIs(s, i + 1, e);
    }
  }

  /** Every spelling is read as what it spells. */
  lemma SpelledIsRead(s: string, r: FdText, start: nat, first: nat, last: nat)
    requires Spelled(s, r, start, first, last)
    ensures ParseFd(s) == r
  {
    match r {
      case CloseTarget =>
        assert |s| > 1 ==> s[1] == s[1..][0];
        assert s[1..|s|] == s[1..];
        BlanksEndIs(s, 1, |s|);
      case Source(n, move) =>
        SpelledDigits(s, n, move, start, first, last);
        if start > 0 {
          assert s[1] == s[1..start][0];
          BlanksEndIs(s, 1, start);
        }
    }
  }

  lemma SpelledDigits(s: string, n: nat, move: bool, start: nat, first: nat, last: nat)
    requires Spelled(s, Source(n, move), start, first, last)
    ensures IsDigit(s[first]) && !IsBlank(s[start]) && ParseNumber(s, start) == Source(n, move)
  {
    var rest := if move then last + 1 else last;
    assert s[first] == s[first..last][0];
    assert last < |s| && !move ==> s[last] == s[last..][0];
    DigitsEndIs(s, first, last);
    assert s[rest..|s|] == s[rest..];
    BlanksEndIs(s, rest, |s|);
  }

  /** Every text that is not refused has a spelling. */
  lemma ReadIsSpelled(s: string) returns (start: nat, first: nat, last: nat)
    requires ParseFd(s) != Bad
    ensures Spelled(s, ParseFd(s), start, first, last)
  {
    start := NumberStart(s);
    first, last := start, start;
    if start == |s| {
      assert s[1..|s|] == s[1..];
    } else {
      first, last := NumberIsSpelled(s, start);
    }
  }

  lemma NumberIsSpelled(s: string, start: nat) returns (first: nat, last: nat)
    requires start == NumberStart(s) < |s| && ParseNumber(s, start) != Bad
    ensures Spelled(s, ParseNumber(s, start), start, first, last)
  {
    hide DigitsValue, AllDigits;
    first := if s[start] == '+' then start + 1 else start;
    last := DigitsEnd(s, first);
    Suffix(s, last);
    if last < |s| {
      Suffix(s, last + 1);
    }
  }

  lemma Suffix(s: string, i: nat)
    requires i <= |s|
    ensures s[i..|s|] == s[i..]
  {
  }

  /** The C parser accepts exactly the grammar, and no text has two readings. */
  lemma ParsesExactlyTheGrammar(s: string, r: FdText)
    requires r != Bad
    ensures ParseFd(s) == r <==> exists start, first, last :: Spelled(s, r, start, first, last)
  {
    if ParseFd(s) == r {
      var start, first, last := ReadIsSpelled(s);
    }
    forall start, first, last | Spelled(s, r, start, first, last)
      ensures ParseFd(s) == r
    {
      SpelledIsRead(s, r, start, first, last);
    }
  }

  /** The code's own comment says text after a lone "-" is refused; it is not:
      after the blanks, a number is read as if the "-" were not there. */
  lemma LoneMinusThenNumberIsAccepted(blanks: string, n: nat)
    requires blanks != "" && AllBlank(blanks) && n <= INT_MAX
    ensures ParseFd("-" + blanks + Decimal(n)) == Source(n, false)
  {
    var s := "-" + blanks + Decimal(n);
    var start := 1 + |blanks|;
    assert s[1..start] == blanks;
    assert s[start..|s|] == Decimal(n);
    SpelledIsRead(s, Source(n, false), start, start, |s|);
  }

  lemma BlanksByName(c: char)
    ensures IsBlank(c) <==> c in " \t"
  {
    assert " \t"[0] == ' ' && " \t"[1] == '\t';
  }

  lemma TwelveIsRead()
    ensures ParseFd("12") == Source(12, false)
  {
    var s := "12";
    DigitsPrefix(s, 0, 0);
    DigitsPrefix(s, 0, 1);
    assert s[0..2] == s && s[0..0] == "";
    assert AllDigits(s) && DigitsValue(s[0..2]) == 12;
    SpelledIsRead(s, Source(12, false), 0, 0, 2);
  }

  // ------------------------------------------------------- decimal spelling

  function Decimal(n: nat): (s: string)
    ensures s != "" && AllDigits(s) && DigitsValue(s) == n
  {
    var d := [(n % 10 + '0' as int) as char];
    if n < 10 then
      assert d[..0] == "";
      d
    else
      var s := Decimal(n / 10) + d;
      assert s[..|s|-1] == Decimal(n / 10);
      s
  }

  /** A literal descriptor number, printed with "%d" and read back. */
  lemma DecimalRoundTrip(n: nat, move: bool)
    requires n <= INT_MAX
    ensures ParseFd(Decimal(n) + if move then "-" else "") == Source(n, move)
  {
    var s := Decimal(n) + if move then "-" else "";
    var last := |Decimal(n)|;
    assert s[0..last] == Decimal(n);
    SpelledIsRead(s, Source(n, move), 0, 0, last);
  }

  // ------------------------------------------------------------ the C parser

  lemma DigitsPrefix(s: string, i: nat, k: nat)
    requires i <= k < |s| && AllDigits(s[i..k+1])
    ensures AllDigits(s[i..k]) && IsDigit(s[k])
    ensures DigitsValue(s[i..k+1]) == DigitsValue(s[i..k]) * 10 + (s[k] as int - '0' as int)
  {
    assert s[i..k+1][..k-i] == s[i..k];
    assert s[i..k+1][k-i] == s[k];
  }

  lemma {:induction false} PrefixValueLe(s: string, i: nat, k: nat, e: nat)
    requires i <= k <= e <= |s| && AllDigits(s[i..e])
    ensures AllDigits(s[i..k]) && DigitsValue(s[i..k]) <= DigitsValue(s[i..e])
    decreases e - k
  {
    if k == e {
    } else {
      DigitsPrefix(s, i, e - 1);
      PrefixValueLe(s, i, k, e - 1);
    }
  }

  /** The digit loop: stops at the first non-digit or on overflow. */
  method ReadDigits(str: string, first: nat) returns (p: nat, val: nat)
    requires first < |str| && IsDigit(str[first])
    ensures var last := DigitsEnd(str, first);
            if DigitsValue(str[first..last]) > INT_MAX then val > INT_MAX
            else p == last && val == DigitsValue(str[first..last])
  {
    p, val := first, 0;
    ghost var last := DigitsEnd(str, first);
    while p < |str| && IsDigit(str[p])
      invariant first <= p <= last && DigitsEnd(str, p) == last
      invariant AllDigits(str[first..p]) && val == DigitsValue(str[first..p]) <= INT_MAX
    {
      PrefixValueLe(str, first, p + 1, last);
      DigitsPrefix(str, first, p);
      val := val * 10 + (str[p] as int - '0' as int);
      if val > INT_MAX {
        return;
      }
      p := p + 1;
    }
  }

  method SkipBlanks(str: string, i: nat) returns (p: nat)
    requires i <= |str|
    ensures p == BlanksEnd(str, i)
  {
    p := i;
    while p < |str| && IsBlank(str[p])
      invariant i <= p <= |str| && BlanksEnd(str, i) == BlanksEnd(str, p)
    {
      p := p + 1;
    }
  }

  /** str is the text up to its NUL; p is the C pointer, |str| its end. */
  method ParseFdNumber(str: string) returns (r: FdText)
    ensures r == ParseFd(str)
  {
    hide AllBlank;
    var p := 0;
    if str == "" || IsBlank(str[0]) {
      return Bad;
    }
    if str[0] == '-' && (|str| == 1 || IsBlank(str[1])) {
      p := SkipBlanks(str, 1);
      if p == |str| {
        return CloseTarget;
      }
    }
    r := ReadNumber(str, p);
  }

  /** The rest of parse_fd_number, from the number on. */
  method ReadNumber(str: string, start: nat) returns (r: FdText)
    requires start < |str|
    ensures r == ParseNumber(str, start)
  {
    hide AllBlank, AllDigits, BlanksEnd;
    var p := start;
    if str[p] == '-' {
      return Bad;
    }
    if str[p] == '+' {
      p := p + 1;
    }
    if p == |str| || !IsDigit(str[p]) {
      return Bad;
    }
    var val;
    p, val := ReadDigits(str, p);
    if val > INT_MAX {
      return Bad;
    }
    var sawMinus := false;
    if p < |str| && str[p] == '-' {
      sawMinus := true;
      p := p + 1;
    }
    p := SkipBlanks(str, p);
    if p < |str| {
      return Bad;
    }
    r := Source(val, sawMinus);
  }
}
