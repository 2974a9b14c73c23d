/** Here-document expansion (expand_heredoc, src/exec_frame_expander.c;
    section 2.7.4 of the POSIX.1-2017 Shell Command Language). Command and
    arithmetic substitutions are left as they stand, as in the code. */
module HereDoc {
  import opened Options
  import opened Strings

  /** expand_parameter: None where the C function returns NULL. */
  type Lookup = string -> Option<string>

  predicate IsSpecial(c: char) { c in "?$!#@*-0" }
  predicate Escapable(c: char) { c == '$' || c == '`' || c == '\\' || c == '\n' }

  function ValueOf(lookup: Lookup, name: string): string {
    match lookup(name)
    case Some(v) => v
    case None => ""
  }

  /** Scanning from j at the given brace depth: the index after the brace that
      closes it, or None when the text ends first. */
  function BraceClose(t: string, j: nat, depth: nat): (r: Option<nat>)
    requires j <= |t| && depth > 0
    ensures r.Some? ==> j < r.value <= |t| && t[r.value - 1] == '}'
    decreases |t| - j
  {
    if j == |t| then None
    else if t[j] == '{' then BraceClose(t, j + 1, depth + 1)
    else if t[j] == '}' then (if depth == 1 then Some(j + 1) else BraceClose(t, j + 1, depth - 1))
    else BraceClose(t, j + 1, depth)
  }

  /** What one step of the scan appends, and where it goes on. */
  datatype Step = Step(text: string, next: nat)

  function DollarStep(t: string, i: nat, lookup: Lookup): (r: Step)
    requires i < |t| && t[i] == '$'
    ensures i < r.next <= |t|
  {
    if i + 1 == |t| then Step("$", i + 1)
    else
      var next := t[i + 1];
      if next == '{' then
        match BraceClose(t, i + 2, 1)
        case Some(j) => Step(ValueOf(lookup, t[i + 2..j - 1]), j)
        case None => Step("$", i + 1)
      else if IsSpecial(next) then Step(ValueOf(lookup, [next]), i + 2)
      else if IsNameChar(next) then Step(ValueOf(lookup, t[i + 1..NameEnd(t, i + 1)]), NameEnd(t, i + 1))
      else Step("$", i + 1)
  }

  function NextStep(t: string, i: nat, lookup: Lookup): (r: Step)
    requires i < |t|
    ensures i < r.next <= |t|
  {
    if t[i] == '\\' && i + 1 < |t| && Escapable(t[i + 1]) then
      Step(if t[i + 1] == '\n' then "" else [t[i + 1]], i + 2)
    else if t[i] == '$' then DollarStep(t, i, lookup)
    else Step([t[i]], i + 1)
  }

  function Expand(t: string, i: nat, lookup: Lookup): string
    requires i <= |t|
    decreases |t| - i
  {
    if i == |t| then ""
    else
      var s := NextStep(t, i, lookup);
      s.text + Expand(t, s.next, lookup)
  }

  // --------------------------------------------------------------- templates

  /** Literal text; a parameter written "${name}" or "$name"; a continuation, a
      backslash before a newline that joins two lines; or a character that is
      special elsewhere, written as it is. */
  datatype Segment =
    | Literal(text: string)
    | Reference(name: string, braced: bool)
    | Continuation
    | Plain(c: char)

  /** A backslash before each of "$", backquote and backslash. */
  function Escape(text: string): string {
    if text == "" then "" else EscapedChar(text[0]) + Escape(text[1..])
  }

  function Written(s: Segment): string {
    match s
    case Literal(text) => Escape(text)
    case Reference(name, braced) => if braced then "${" + (name + "}") else "$" + name
    case Continuation => "\\\n"
    case Plain(c) => [c]
  }

  function Encode(template: seq<Segment>): string {
    if template == [] then "" else Written(template[0]) + Encode(template[1..])
  }

  function Rendered(s: Segment, lookup: Lookup): string {
    match s
    case Literal(text) => text
    case Reference(name, _) => ValueOf(lookup, name)
    case Continuation => ""
    case Plain(c) => [c]
  }

  function Render(template: seq<Segment>, lookup: Lookup): string {
    if template == [] then "" else Rendered(template[0], lookup) + Render(template[1..], lookup)
  }

  /** A name that needs no braces before rest. */
  predicate Separable(name: string, rest: string) {
    || (|name| == 1 && name[0] in "?$!#@*-0")
    || (name != "" && name[0] != '0' && (forall k :: 0 <= k < |name| ==> IsNameChar(name[k]))
        && (rest == "" || !IsNameChar(rest[0])))
  }

  /** How many braces s opens beyond those it closes. */
  function Opened(s: string): int {
    if s == "" then 0
    else Opened(s[..|s|-1]) + (if s[|s|-1] == '{' then 1 else if s[|s|-1] == '}' then -1 else 0)
  }

  /** No brace in rest closes one opened before it. */
  ghost predicate Unclosed(rest: string) {
    forall k :: 0 <= k <= |rest| ==> Opened(rest[..k]) >= 0
  }

  /** What may follow a special character that stands for itself: anything after
      a backquote; after a backslash all but "$", backquote, backslash and
      newline; after a "$" all that starts no parameter, and a brace nothing
      closes. */
  ghost predicate StandsForItself(c: char, rest: string) {
    || c == '`'
    || (c == '\\' && (rest == "" || rest[0] !in "$`\\\n"))
    || (c == '$' && (rest == "" || (rest[0] == '{' && Unclosed(rest[1..])) || !StartsParameter(rest[0])))
  }

  predicate StartsParameter(c: char) {
    || c in "{?$!#@*-_"
    || '0' <= c <= '9' || 'a' <= c <= 'z' || 'A' <= c <= 'Z'
  }

  /** The braces of a braced name match. */
  ghost predicate Balanced(name: string) {
    Unclosed(name) && Opened(name) == 0
  }

  /** A braced name's braces match; an unbraced one ends where rest begins. */
  ghost predicate Readable(s: Segment, rest: string) {
    match s
    case Literal(_) => true
    case Reference(name, braced) => if braced then Balanced(name) else Separable(name, rest)
    case Continuation => true
    case Plain(c) => StandsForItself(c, rest)
  }

  ghost predicate WellFormed(template: seq<Segment>) {
    template == [] || (Readable(template[0], Encode(template[1..])) && WellFormed(template[1..]))
  }

  /** Scanning on from k finds the brace at close, when those before it match. */
  lemma {:induction false} BraceCloseAt(t: string, start: nat, k: nat, depth: nat, close: nat)
    requires start <= k <= close < |t| && t[close] == '}'
    requires Balanced(t[start..close]) && depth == 1 + Opened(t[start..k])
    ensures depth > 0 && BraceClose(t, k, depth) == Some(close + 1)
    decreases close - k
  {
    assert t[start..close][..k - start] == t[start..k];
    if k == close {
    } else {
      assert t[start..k + 1][..k - start] == t[start..k];
      assert t[start..close][..k + 1 - start] == t[start..k + 1];
      BraceCloseAt(t, start, k + 1, 1 + Opened(t[start..k + 1]), close);
    }
  }

  ghost predicate StandsAt(t: string, i: nat, w: string) {
    i + |w| <= |t| && t[i..i + |w|] == w
  }

  lemma StandsSplit(t: string, i: nat, a: string, b: string)
    requires StandsAt(t, i, a + b)
    ensures StandsAt(t, i, a) && StandsAt(t, i + |a|, b)
  {
    var w := t[i..i + |a| + |b|];
    assert w[..|a|] == t[i..i + |a|];
    assert w[|a|..] == t[i + |a|..i + |a| + |b|];
  }

  lemma SuffixSplit(t: string, i: nat, a: string, b: string)
    requires i <= |t| && t[i..] == a + b
    ensures StandsAt(t, i, a) && i + |a| <= |t| && t[i + |a|..] == b
  {
    assert t[i..][..|a|] == t[i..i + |a|];
    assert t[i..][|a|..] == t[i + |a|..];
  }

  lemma StandsChar(t: string, i: nat, w: string, k: nat)
    requires StandsAt(t, i, w) && k < |w|
    ensures i + k < |t| && t[i + k] == w[k]
  {
    assert t[i..i + |w|][k] == t[i + k];
  }

  lemma ExpandOne(t: string, i: nat, lookup: Lookup)
    requires i < |t|
    ensures var s := NextStep(t, i, lookup); Expand(t, i, lookup) == s.text + Expand(t, s.next, lookup)
  {
  }

  function EscapedChar(c: char): string {
    if c == '$' || c == '`' || c == '\\' then ['\\', c] else [c]
  }

  lemma EscapedStep(t: string, i: nat, c: char, lookup: Lookup)
    requires StandsAt(t, i, EscapedChar(c))
    ensures NextStep(t, i, lookup) == Step([c], i + |EscapedChar(c)|)
  {
    StandsChar(t, i, EscapedChar(c), 0);
    if |EscapedChar(c)| == 2 {
      StandsChar(t, i, EscapedChar(c), 1);
    }
  }

  /** Expansion undoes escaping, wherever the escaped text stands. */
  lemma {:induction false} EscapedExpands(t: string, i: nat, text: string, lookup: Lookup)
    requires StandsAt(t, i, Escape(text))
    ensures Expand(t, i, lookup) == text + Expand(t, i + |Escape(text)|, lookup)
    decreases |text|
  {
    hide NextStep, StandsAt, Expand, EscapedChar;
    StandsInside(t, i, Escape(text));
    var after := Expand(t, i + |Escape(text)|, lookup);
    if text == "" {
      assert "" + after == after;
    } else {
      var w, rest := EscapedChar(text[0]), Escape(text[1..]);
      StandsSplit(t, i, w, rest);
      StandsInside(t, i, w);
      EscapedStep(t, i, text[0], lookup);
      ExpandOne(t, i, lookup);
      EscapedExpands(t, i + |w|, text[1..], lookup);
      ConsAppend(text, after);
    }
  }

  lemma ConsAppend(text: string, after: string)
    requires text != ""
    ensures [text[0]] + (text[1..] + after) == text + after
  {
  }

  lemma StandsInside(t: string, i: nat, w: string)
    requires StandsAt(t, i, w)
    ensures i + |w| <= |t| && t[i..i + |w|] == w
  {
  }

  lemma ReferenceStep(t: string, i: nat, name: string, braced: bool, lookup: Lookup)
    requires StandsAt(t, i, Written(Reference(name, braced)))
    requires if braced then Balanced(name) else Separable(name, t[i + |Written(Reference(name, braced))|..])
    ensures NextStep(t, i, lookup) == Step(ValueOf(lookup, name), i + |Written(Reference(name, braced))|)
  {
    if braced {
      BracedStep(t, i, name, lookup);
    } else {
      UnbracedStep(t, i, name, lookup);
    }
  }

  lemma BracedStep(t: string, i: nat, name: string, lookup: Lookup)
    requires StandsAt(t, i, "${" + (name + "}")) && Balanced(name)
    ensures NextStep(t, i, lookup) == Step(ValueOf(lookup, name), i + |name| + 3)
  {
    hide NextStep, StandsAt;
    var close := i + 2 + |name|;
    StandsSplit(t, i, "${", name + "}");
    StandsSplit(t, i + 2, name, "}");
    StandsChar(t, i, "${", 0);
    StandsChar(t, i, "${", 1);
    StandsChar(t, close, "}", 0);
    StandsInside(t, i + 2, name);
    StandsInside(t, close, "}");
    assert t[i + 2..i + 2] == "";
    BraceCloseAt(t, i + 2, i + 2, 1, close);
    DollarIs(t, i, lookup);
  }

  lemma DollarIs(t: string, i: nat, lookup: Lookup)
    requires i < |t| && t[i] == '$'
    ensures NextStep(t, i, lookup) == DollarStep(t, i, lookup)
  {
  }

  lemma UnbracedStep(t: string, i: nat, name: string, lookup: Lookup)
    requires StandsAt(t, i, "$" + name) && Separable(name, t[i + |"$" + name|..])
    ensures NextStep(t, i, lookup) == Step(ValueOf(lookup, name), i + |name| + 1)
  {
    hide NextStep;
    var e := i + 1 + |name|;
    StandsSplit(t, i, "$", name);
    StandsChar(t, i, "$", 0);
    StandsChar(t, i + 1, name, 0);
    DollarIs(t, i, lookup);
    if IsSpecial(name[0]) {
      assert name == [name[0]];
    } else {
      forall k | i + 1 <= k < e ensures IsNameChar(t[k]) {
        StandsChar(t, i + 1, name, k - i - 1);
      }
      assert e < |t| ==> t[e] == t[e..][0];
      NameEndAt(t, i + 1, e);
    }
  }

  lemma SegmentExpands(t: string, i: nat, s: Segment, lookup: Lookup)
    requires StandsAt(t, i, Written(s)) && Readable(s, t[i + |Written(s)|..])
    ensures i + |Written(s)| <= |t|
    ensures Expand(t, i, lookup) == Rendered(s, lookup) + Expand(t, i + |Written(s)|, lookup)
  {
    hide NextStep, Expand, Escape, StandsForItself, Balanced, Separable, StandsAt;
    StandsInside(t, i, Written(s));
    match s {
      case Literal(text) => EscapedExpands(t, i, text, lookup);
      case Reference(name, braced) =>
        ReferenceStep(t, i, name, braced, lookup);
        ExpandOne(t, i, lookup);
      case Continuation =>
        ContinuationStep(t, i, lookup);
        ExpandOne(t, i, lookup);
      case Plain(c) =>
        PlainStep(t, i, c, lookup);
        ExpandOne(t, i, lookup);
    }
  }

  lemma ContinuationStep(t: string, i: nat, lookup: Lookup)
    requires StandsAt(t, i, "\\\n")
    ensures i + 2 <= |t| && NextStep(t, i, lookup) == Step("", i + 2)
  {
    StandsInside(t, i, "\\\n");
    StandsChar(t, i, "\\\n", 0);
    StandsChar(t, i, "\\\n", 1);
  }

  lemma PlainStep(t: string, i: nat, c: char, lookup: Lookup)
    requires StandsAt(t, i, [c]) && StandsForItself(c, t[i + 1..])
    ensures i + 1 <= |t| && NextStep(t, i, lookup) == Step([c], i + 1)
  {
    hide Unclosed, StartsParameter;
    StandsInside(t, i, [c]);
    StandsChar(t, i, [c], 0);
    var rest := t[i + 1..];
    if rest != "" {
      assert t[i + 1] == rest[0];
    }
    if c == '\\' && rest != "" {
      NotEscapable(rest[0]);
    }
    if c == '$' {
      DollarIs(t, i, lookup);
      if rest != "" {
        if rest[0] == '{' && Unclosed(rest[1..]) {
          assert rest[1..] == t[i + 2..];
          NeverCloses(t, i + 2, i + 2, 1);
        } else {
          NoParameter(rest[0]);
        }
      }
    }
  }

  lemma NotEscapable(c: char)
    requires c !in "$`\\\n"
    ensures !Escapable(c)
  {
    var known := "$`\\\n";
    assert known[0] == '$' && known[1] == '`' && known[2] == '\\' && known[3] == '\n';
  }

  lemma NoParameter(c: char)
    requires !StartsParameter(c)
    ensures c != '{' && !IsSpecial(c) && !IsNameChar(c)
  {
    var known := "{?$!#@*-_";
    assert known[0] == '{' && known[8] == '_';
    assert forall i :: 1 <= i < 8 ==> known[i] == "?$!#@*-0"[i - 1];
  }

  /** Scanning on from k, with as many braces open as were opened since start. */
  lemma {:induction false} NeverCloses(t: string, start: nat, k: nat, depth: nat)
    requires start <= k <= |t| && Unclosed(t[start..]) && depth == 1 + Opened(t[start..k])
    ensures depth > 0 && BraceClose(t, k, depth) == None
    decreases |t| - k
  {
    assert t[start..][..k - start] == t[start..k];
    if k == |t| {
    } else {
      assert t[start..k + 1][..k - start] == t[start..k];
      assert t[start..][..k + 1 - start] == t[start..k + 1];
      NeverCloses(t, start, k + 1, 1 + Opened(t[start..k + 1]));
    }
  }

  lemma {:induction false} TemplateExpands(t: string, i: nat, template: seq<Segment>, lookup: Lookup)
    requires i <= |t| && t[i..] == Encode(template) && WellFormed(template)
    ensures Expand(t, i, lookup) == Render(template, lookup)
    decreases |template|
  {
    hide Expand, Readable, Written, Rendered, StandsAt;
    if template == [] {
      ExpandEnd(t, lookup);
    } else {
      var w := Written(template[0]);
      SuffixSplit(t, i, w, Encode(template[1..]));
      SegmentExpands(t, i, template[0], lookup);
      TemplateExpands(t, i + |w|, template[1..], lookup);
    }
  }

  lemma ExpandEnd(t: string, lookup: Lookup)
    ensures Expand(t, |t|, lookup) == ""
  {
  }

  /** A template written out and expanded is its literals and its values. */
  lemma TemplateRoundTrip(template: seq<Segment>, lookup: Lookup)
    requires WellFormed(template)
    ensures Expand(Encode(template), 0, lookup) == Render(template, lookup)
  {
    var t := Encode(template);
    assert t[0..] == t;
    TemplateExpands(t, 0, template, lookup);
  }

  /** Any text survives escaping and expansion. */
  lemma EscapeRoundTrip(text: string, lookup: Lookup)
    ensures Expand(Escape(text), 0, lookup) == text
  {
    var t := Escape(text);
    assert t[0..|t|] == t;
    EscapedExpands(t, 0, text, lookup);
    assert Expand(t, |t|, lookup) == "";
    assert text + "" == text;
  }

  // -------------------------------------------------------------- the C code

  /** The brace-matching loop: the position it stops at and the depth there. */
  method MatchBraces(t: string, start: nat) returns (j: nat, depth: nat)
    requires start <= |t|
    ensures start <= j <= |t|
    ensures BraceClose(t, start, 1) == if depth == 0 then Some(j) else None
  {
    j, depth := start, 1;
    while j < |t| && depth > 0
      invariant start <= j <= |t|
      invariant if depth > 0 then BraceClose(t, j, depth) == BraceClose(t, start, 1)
                else BraceClose(t, start, 1) == Some(j)
    {
      if t[j] == '{' {
        depth := depth + 1;
      } else if t[j] == '}' {
        depth := depth - 1;
      }
      j := j + 1;
    }
  }

  /** The "$" branch of the scan, at i: what to append and where to go on. */
  method ExpandDollar(t: string, i: nat, lookup: Lookup) returns (text: string, next: nat)
    requires i < |t| && t[i] == '$'
    ensures Step(text, next) == DollarStep(t, i, lookup)
  {
    text, next := "$", i + 1;
    if i + 1 == |t| {
      return;
    }
    var c := t[i + 1];
    if c == '(' {
      return;
    }
    if c == '{' {
      var j, depth := MatchBraces(t, i + 2);
      if depth == 0 {
        return ValueOf(lookup, t[i + 2..j - 1]), j;
      }
      return;
    }
    if IsNameChar(c) || c == '?' || c == '$' || c == '!' || c == '#' || c == '@' || c == '*' || c == '-' || c == '0' {
      next := i + 1;
      var name := "";
      if IsSpecial(t[next]) {
        name := [t[next]];
        next := next + 1;
      } else {
        while next < |t| && IsNameChar(t[next])
          invariant i + 1 <= next <= |t| && NameEnd(t, i + 1) == NameEnd(t, next)
          invariant name == t[i + 1..next]
        {
          name := name + [t[next]];
          next := next + 1;
        }
      }
      return ValueOf(lookup, name), next;
    }
  }

  /** One turn of the scan loop, at i. */
  method ScanOne(t: string, i: nat, lookup: Lookup) returns (text: string, next: nat)
    requires i < |t|
    ensures Step(text, next) == NextStep(t, i, lookup)
  {
    var c := t[i];
    if c == '\\' && i + 1 < |t| {
      var escaped := t[i + 1];
      if escaped == '$' || escaped == '`' || escaped == '\\' || escaped == '\n' {
        return if escaped != '\n' then [escaped] else "", i + 2;
      }
      return [c], i + 1;
    } else if c == '$' {
      text, next := ExpandDollar(t, i, lookup);
    } else {
      return [c], i + 1;
    }
  }

  method ExpandHeredoc(body: string, isQuoted: bool, lookup: Lookup) returns (result: string)
    ensures result == if isQuoted then body else Expand(body, 0, lookup)
  {
    hide NextStep, Expand;
    if isQuoted {
      return body;
    }
    result := "";
    var i := 0;
    ghost var whole := Expand(body, 0, lookup);
    assert "" + whole == whole;
    while i < |body|
      invariant i <= |body|
      invariant result + Expand(body, i, lookup) == whole
    {
      ExpandOne(body, i, lookup);
      var text, next := ScanOne(body, i, lookup);
      ghost var rest := Expand(body, next, lookup);
      assert result + (text + rest) == (result + text) + rest;
      result := result + text;
      i := next;
    }
    ExpandEnd(body, lookup);
  }
}
