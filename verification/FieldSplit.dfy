/** Field splitting (expand_field_split, src/exec_frame_expander.c; section
    2.6.5 of the POSIX.1-2017 Shell Command Language). */
module FieldSplit {
  import opened Strings

  // --------------------------------------------------------- library searches

  /** string_find_first_of_at */
  function FindFirstOf(t: string, chars: string, i: nat): (k: int)
    requires i <= |t|
    ensures k == -1 || i <= k < |t|
    ensures k >= 0 ==> t[k] in chars
    ensures forall j :: i <= j < (if k < 0 then |t| else k) ==> t[j] !in chars
    decreases |t| - i
  {
    if i == |t| then -1 else if t[i] in chars then i else FindFirstOf(t, chars, i + 1)
  }

  /** string_find_first_not_of_at */
  function FindFirstNotOf(t: string, chars: string, i: nat): (k: int)
    requires i <= |t|
    ensures k == -1 || i <= k < |t|
    ensures k >= 0 ==> t[k] !in chars
    ensures forall j :: i <= j < (if k < 0 then |t| else k) ==> t[j] in chars
    decreases |t| - i
  {
    if i == |t| then -1 else if t[i] !in chars then i else FindFirstNotOf(t, chars, i + 1)
  }

  predicate IsWhitespace(c: char) { c == ' ' || c == '\t' || c == '\n' }

  /** Delimiters that collapse, and delimiters that count. */
  predicate Soft(c: char, ifs: string) { c in ifs && IsWhitespace(c) }
  predicate Hard(c: char, ifs: string) { c in ifs && !IsWhitespace(c) }

  // ---------------------------------------------------- what the code returns

  /** The end of the field starting at i. */
  function FieldEnd(t: string, ifs: string, i: nat): (e: nat)
    requires i <= |t|
    ensures i <= e <= |t| && (e < |t| ==> t[e] in ifs) && (forall j :: i <= j < e ==> t[j] !in ifs)
    decreases |t| - i
  {
    if i < |t| && t[i] !in ifs then FieldEnd(t, ifs, i + 1) else i
  }

  /** The end of the run of soft delimiters at i. */
  function SoftEnd(t: string, ifs: string, i: nat): (e: nat)
    requires i <= |t|
    ensures i <= e <= |t| && (e < |t| ==> !Soft(t[e], ifs)) && (forall j :: i <= j < e ==> Soft(t[j], ifs))
    decreases |t| - i
  {
    if i < |t| && Soft(t[i], ifs) then SoftEnd(t, ifs, i + 1) else i
  }

  /** The fields from a field start at i. */
  function Fields(t: string, ifs: string, i: nat): seq<string>
    requires i < |t|
    decreases |t| - i, 1
  {
    var e := FieldEnd(t, ifs, i);
    [t[i..e]] + (if e == |t| then [] else Delimiters(t, ifs, e))
  }

  /** The fields from a delimiter at i: a counted delimiter that another
      delimiter or the end follows leaves an empty field. */
  function Delimiters(t: string, ifs: string, i: nat): seq<string>
    requires i < |t| && t[i] in ifs
    decreases |t| - i, 0
  {
    var k := SoftEnd(t, ifs, i);
    if k == |t| then []
    else if Hard(t[k], ifs) then
      if k + 1 == |t| then [""]
      else if t[k + 1] in ifs then [""] + Delimiters(t, ifs, k + 1)
      else Fields(t, ifs, k + 1)
    else Fields(t, ifs, k)
  }

  function Split(t: string, ifs: string): seq<string> {
    if t == "" then []
    else if ifs == "" then [t]
    else
      var i := SoftEnd(t, ifs, 0);
      if i == |t| then [] else Fields(t, ifs, i)
  }

  // ---------------------------------------------------- the documented rules

  /** docs/field-splitting.md: soft delimiters around a counted one are ignored,
      and a counted delimiter at the end leaves an empty field. */
  function DocFields(t: string, ifs: string, i: nat): seq<string>
    requires i < |t|
    decreases |t| - i, 1
  {
    var e := FieldEnd(t, ifs, i);
    [t[i..e]] + (if e == |t| then [] else DocDelimiters(t, ifs, e))
  }

  function DocDelimiters(t: string, ifs: string, i: nat): seq<string>
    requires i < |t| && t[i] in ifs
    decreases |t| - i, 0
  {
    var k := SoftEnd(t, ifs, i);
    if k == |t| then []
    else if Hard(t[k], ifs) then
      var n := SoftEnd(t, ifs, k + 1);
      if n == |t| then [""] else DocFields(t, ifs, n)
    else DocFields(t, ifs, k)
  }

  function DocSplit(t: string, ifs: string): seq<string> {
    if t == "" then []
    else if ifs == "" then [t]
    else
      var i := SoftEnd(t, ifs, 0);
      if i == |t| then [] else DocFields(t, ifs, i)
  }

  /** At k a counted delimiter, then soft ones, then the next field: "a : b". */
  predicate Glitch(t: string, ifs: string, k: nat) {
    && k + 1 < |t| && Hard(t[k], ifs) && Soft(t[k + 1], ifs)
    && var n := SoftEnd(t, ifs, k + 1); n < |t| && t[n] !in ifs
  }

  function Glitches(t: string, ifs: string, i: nat): nat
    requires i <= |t|
    decreases |t| - i
  {
    if i == |t| then 0 else (if Glitch(t, ifs, i) then 1 else 0) + Glitches(t, ifs, i + 1)
  }

  lemma {:induction false} NoGlitchBetween(t: string, ifs: string, i: nat, j: nat)
    requires i <= j <= |t| && forall k :: i <= k < j ==> !Hard(t[k], ifs)
    ensures Glitches(t, ifs, i) == Glitches(t, ifs, j)
    decreases j - i
  {
    if i == j {
    } else {
      NoGlitchBetween(t, ifs, i + 1, j);
    }
  }

  lemma SoftRunSkips(t: string, ifs: string, i: nat, n: nat)
    requires i < |t| && t[i] in ifs && n == SoftEnd(t, ifs, i)
    ensures Glitches(t, ifs, i) == Glitches(t, ifs, n)
    ensures n < |t| && t[n] in ifs ==> Delimiters(t, ifs, i) == Delimiters(t, ifs, n)
    ensures n < |t| && t[n] in ifs ==> SoftEnd(t, ifs, n) == n && FieldEnd(t, ifs, n) == n
  {
    NoGlitchBetween(t, ifs, i, n);
  }

  lemma {:induction false} CompareFields(t: string, ifs: string, i: nat)
    requires i < |t|
    ensures |Fields(t, ifs, i)| == |DocFields(t, ifs, i)| + Glitches(t, ifs, i)
    ensures Glitches(t, ifs, i) == 0 ==> Fields(t, ifs, i) == DocFields(t, ifs, i)
    decreases |t| - i, 1
  {
    var e := FieldEnd(t, ifs, i);
    NoGlitchBetween(t, ifs, i, e);
    if e == |t| {
    } else {
      CompareDelimiters(t, ifs, e);
    }
  }

  lemma {:induction false} CompareDelimiters(t: string, ifs: string, i: nat)
    requires i < |t| && t[i] in ifs
    ensures |Delimiters(t, ifs, i)| == |DocDelimiters(t, ifs, i)| + Glitches(t, ifs, i)
    ensures Glitches(t, ifs, i) == 0 ==> Delimiters(t, ifs, i) == DocDelimiters(t, ifs, i)
    decreases |t| - i, 0
  {
    hide Soft, Hard, Glitch, Delimiters, DocDelimiters, Fields, DocFields, Glitches;
    var k := SoftEnd(t, ifs, i);
    SoftRunSkips(t, ifs, i, k);
    DelimitersSkip(t, ifs, i, k);
    if k < |t| && Hard(t[k], ifs) && k + 1 < |t| {
      CompareAfterHard(t, ifs, k);
    } else if k < |t| {
      HardOrField(t, ifs, i, k);
      if !Hard(t[k], ifs) {
        CompareFields(t, ifs, k);
      }
    } else {
      NoGlitchAtTheEnd(t, ifs);
    }
  }

  lemma NoGlitchAtTheEnd(t: string, ifs: string)
    ensures Glitches(t, ifs, |t|) == 0
  {
  }

  /** What comes after the soft delimiters at i. */
  lemma DelimitersSkip(t: string, ifs: string, i: nat, k: nat)
    requires i < |t| && t[i] in ifs && k == SoftEnd(t, ifs, i)
    ensures k == |t| ==> Delimiters(t, ifs, i) == [] == DocDelimiters(t, ifs, i)
    ensures k < |t| && Hard(t[k], ifs) ==>
      Delimiters(t, ifs, i) == Delimiters(t, ifs, k) && DocDelimiters(t, ifs, i) == DocDelimiters(t, ifs, k)
    ensures k + 1 == |t| && Hard(t[k], ifs) ==> Delimiters(t, ifs, i) == [""] == DocDelimiters(t, ifs, i)
    ensures k < |t| && !Hard(t[k], ifs) ==>
      Delimiters(t, ifs, i) == Fields(t, ifs, k) && DocDelimiters(t, ifs, i) == DocFields(t, ifs, k)
    ensures k + 1 < |t| && Hard(t[k], ifs) ==>
      Delimiters(t, ifs, i) == if t[k + 1] in ifs then [""] + Delimiters(t, ifs, k + 1) else Fields(t, ifs, k + 1)
    ensures k + 1 < |t| && Hard(t[k], ifs) ==>
      var n := SoftEnd(t, ifs, k + 1);
      DocDelimiters(t, ifs, i) == if n == |t| then [""] else DocFields(t, ifs, n)
  {
    hide Fields, DocFields;
    if k < |t| && Hard(t[k], ifs) {
      assert SoftEnd(t, ifs, k) == k;
    }
  }

  lemma HardOrField(t: string, ifs: string, i: nat, k: nat)
    requires i < |t| && t[i] in ifs && k == SoftEnd(t, ifs, i) && k < |t|
    ensures !Hard(t[k], ifs) ==> k > i
    ensures k + 1 == |t| && Hard(t[k], ifs) ==> Glitches(t, ifs, k) == 0
  {
    assert k + 1 == |t| ==> Glitches(t, ifs, k + 1) == 0;
  }

  lemma {:induction false} CompareAfterHard(t: string, ifs: string, k: nat)
    requires k + 1 < |t| && Hard(t[k], ifs)
    ensures var code := if t[k + 1] in ifs then [""] + Delimiters(t, ifs, k + 1) else Fields(t, ifs, k + 1);
            var n := SoftEnd(t, ifs, k + 1);
            var doc := if n == |t| then [""] else DocFields(t, ifs, n);
            && |code| == |doc| + Glitches(t, ifs, k)
            && (Glitches(t, ifs, k) == 0 ==> code == doc)
    decreases |t| - k - 1, 2
  {
    var n := SoftEnd(t, ifs, k + 1);
    if t[k + 1] !in ifs {
      CompareFields(t, ifs, k + 1);
    } else {
      SoftRunSkips(t, ifs, k + 1, n);
      if n < |t| {
        assert t[n..n] == "";
        if t[n] in ifs {
          CompareDelimiters(t, ifs, n);
        } else {
          CompareFields(t, ifs, n);
        }
      }
    }
  }

  /** The code adds one empty field per glitch, so it follows the documented
      rules exactly for the texts without one. */
  lemma FollowsTheRulesExactly(t: string, ifs: string)
    ensures ifs != "" ==> |Split(t, ifs)| == |DocSplit(t, ifs)| + Glitches(t, ifs, 0)
    ensures Split(t, ifs) == DocSplit(t, ifs) <==> ifs == "" || Glitches(t, ifs, 0) == 0
  {
    if t != "" && ifs != "" {
      var i := SoftEnd(t, ifs, 0);
      NoGlitchBetween(t, ifs, 0, i);
      if i < |t| {
        CompareFields(t, ifs, i);
      }
    }
  }

  /** IFS values of one kind never glitch. */
  lemma {:induction false} OneKindNeverGlitches(t: string, ifs: string, i: nat)
    requires i <= |t|
    requires (forall c :: c in ifs ==> IsWhitespace(c)) || (forall c :: c in ifs ==> !IsWhitespace(c))
    ensures Glitches(t, ifs, i) == 0
    decreases |t| - i
  {
    if i == |t| {
    } else {
      OneKindNeverGlitches(t, ifs, i + 1);
    }
  }

  // ------------------------------------------------------------ conservation

  /** t from i on without its delimiters. */
  function Kept(t: string, ifs: string, i: nat): string
    requires i <= |t|
    decreases |t| - i
  {
    if i == |t| then "" else (if t[i] in ifs then "" else [t[i]]) + Kept(t, ifs, i + 1)
  }

  ghost predicate Clean(fields: seq<string>, ifs: string) {
    forall k, j :: 0 <= k < |fields| && 0 <= j < |fields[k]| ==> fields[k][j] !in ifs
  }

  lemma ConcatCons(f: string, rest: seq<string>)
    ensures Concat([f] + rest) == f + Concat(rest)
  {
    assert ([f] + rest)[1..] == rest;
  }

  lemma {:induction false} KeptField(t: string, ifs: string, i: nat, e: nat)
    requires i <= e <= |t| && forall j :: i <= j < e ==> t[j] !in ifs
    ensures Kept(t, ifs, i) == t[i..e] + Kept(t, ifs, e)
    decreases e - i
  {
    if i < e {
      KeptField(t, ifs, i + 1, e);
      var rest := Kept(t, ifs, e);
      assert t[i..e] == [t[i]] + t[i + 1..e];
      assert [t[i]] + (t[i + 1..e] + rest) == t[i..e] + rest;
    } else {
      assert t[i..e] == "";
    }
  }

  lemma {:induction false} KeptDelimiters(t: string, ifs: string, i: nat, e: nat)
    requires i <= e <= |t| && forall j :: i <= j < e ==> t[j] in ifs
    ensures Kept(t, ifs, i) == Kept(t, ifs, e)
    decreases e - i
  {
    if i == e {
    } else {
      KeptDelimiters(t, ifs, i + 1, e);
    }
  }

  lemma {:induction false} FieldsConserve(t: string, ifs: string, i: nat)
    requires i < |t|
    ensures Clean(Fields(t, ifs, i), ifs) && Concat(Fields(t, ifs, i)) == Kept(t, ifs, i)
    decreases |t| - i, 1
  {
    var e := FieldEnd(t, ifs, i);
    KeptField(t, ifs, i, e);
    var rest := if e == |t| then [] else Delimiters(t, ifs, e);
    ConcatCons(t[i..e], rest);
    if e == |t| {
    } else {
      DelimitersConserve(t, ifs, e);
    }
  }

  lemma {:induction false} DelimitersConserve(t: string, ifs: string, i: nat)
    requires i < |t| && t[i] in ifs
    ensures Clean(Delimiters(t, ifs, i), ifs) && Concat(Delimiters(t, ifs, i)) == Kept(t, ifs, i)
    decreases |t| - i, 0
  {
    hide Soft, Hard, Kept, Fields, Clean;
    var k := SoftEnd(t, ifs, i);
    SoftIsDelimiter(t, ifs, i, k);
    KeptDelimiters(t, ifs, i, k);
    if k < |t| && Hard(t[k], ifs) {
      HardConserve(t, ifs, k);
    } else if k < |t| {
      FieldsConserve(t, ifs, k);
    } else {
      NothingConserved(t, ifs);
    }
  }

  lemma NothingConserved(t: string, ifs: string)
    ensures Clean([], ifs) && Concat([]) == Kept(t, ifs, |t|)
  {
  }

  lemma SoftIsDelimiter(t: string, ifs: string, i: nat, k: nat)
    requires i < |t| && t[i] in ifs && k == SoftEnd(t, ifs, i)
    ensures forall j :: i <= j < k ==> t[j] in ifs
    ensures k < |t| && !Hard(t[k], ifs) ==> k > i
  {
  }

  lemma {:induction false} HardConserve(t: string, ifs: string, k: nat)
    requires k < |t| && Hard(t[k], ifs)
    ensures var fields := if k + 1 == |t| then [""]
                          else if t[k + 1] in ifs then [""] + Delimiters(t, ifs, k + 1)
                          else Fields(t, ifs, k + 1);
            Clean(fields, ifs) && Concat(fields) == Kept(t, ifs, k)
    decreases |t| - k - 1, 2
  {
    hide Fields, Delimiters;
    if k + 1 == |t| {
      ConcatCons("", []);
      assert [""] + [] == [""];
    } else if t[k + 1] in ifs {
      DelimitersConserve(t, ifs, k + 1);
      ConcatCons("", Delimiters(t, ifs, k + 1));
    } else {
      FieldsConserve(t, ifs, k + 1);
    }
  }

  /** For every text and IFS: no field holds a delimiter, and the fields in
      order are the text without its delimiters. */
  lemma SplittingConserves(t: string, ifs: string)
    ensures Clean(Split(t, ifs), ifs) && Concat(Split(t, ifs)) == Kept(t, ifs, 0)
  {
    if t != "" {
      if ifs == "" {
        KeptField(t, ifs, 0, |t|);
        assert t[0..|t|] == t;
        ConcatCons(t, []);
        assert [t] + [] == [t];
      } else {
        var i := SoftEnd(t, ifs, 0);
        KeptDelimiters(t, ifs, 0, i);
        if i < |t| {
          FieldsConserve(t, ifs, i);
        }
      }
    }
  }

  // ------------------------------------------------- counted delimiters only

  function CountDelimiters(t: string, ifs: string, i: nat): nat
    requires i <= |t|
    decreases |t| - i
  {
    if i == |t| then 0 else (if t[i] in ifs then 1 else 0) + CountDelimiters(t, ifs, i + 1)
  }

  lemma {:induction false} CountSkips(t: string, ifs: string, i: nat, e: nat)
    requires i <= e <= |t| && forall j :: i <= j < e ==> t[j] !in ifs
    ensures CountDelimiters(t, ifs, i) == CountDelimiters(t, ifs, e)
    decreases e - i
  {
    if i == e {
    } else {
      CountSkips(t, ifs, i + 1, e);
    }
  }

  ghost predicate AllHard(ifs: string) {
    ifs != "" && forall c :: c in ifs ==> !IsWhitespace(c)
  }

  /** With counted delimiters only, the field start after a delimiter at i. */
  lemma {:induction false} HardFields(t: string, ifs: string, i: nat)
    requires i < |t| && AllHard(ifs)
    ensures |Fields(t, ifs, i)| == CountDelimiters(t, ifs, i) + 1
    ensures |ifs| == 1 ==> Join(Fields(t, ifs, i), ifs) == t[i..]
    decreases |t| - i, 1
  {
    var e := FieldEnd(t, ifs, i);
    CountSkips(t, ifs, i, e);
    if e < |t| {
      var rest := Delimiters(t, ifs, e);
      HardDelimiters(t, ifs, e);
      assert ([t[i..e]] + rest)[1..] == rest;
      if |ifs| == 1 {
        assert t[e] == ifs[0];
        assert t[i..] == t[i..e] + ifs + t[e + 1..];
      }
    } else {
      assert t[i..e] == t[i..];
    }
  }

  lemma {:induction false} HardDelimiters(t: string, ifs: string, i: nat)
    requires i < |t| && t[i] in ifs && AllHard(ifs)
    ensures |Delimiters(t, ifs, i)| == CountDelimiters(t, ifs, i)
    ensures |ifs| == 1 ==> Join(Delimiters(t, ifs, i), ifs) == t[i + 1..]
    decreases |t| - i, 0
  {
    assert SoftEnd(t, ifs, i) == i;
    if i + 1 < |t| {
      if t[i + 1] in ifs {
        var rest := Delimiters(t, ifs, i + 1);
        HardDelimiters(t, ifs, i + 1);
        assert ([""] + rest)[1..] == rest;
        if |ifs| == 1 {
          assert t[i + 1..] == "" + ifs + t[i + 2..];
        }
      } else {
        HardFields(t, ifs, i + 1);
      }
    } else {
      assert CountDelimiters(t, ifs, i + 1) == 0;
    }
  }

  /** Without whitespace in IFS every delimiter counts, and for a one-character
      IFS joining the fields gives the text back. */
  lemma HardSplitCountsAndJoins(t: string, ifs: string)
    requires t != "" && AllHard(ifs)
    ensures |Split(t, ifs)| == CountDelimiters(t, ifs, 0) + 1
    ensures |ifs| == 1 ==> Join(Split(t, ifs), ifs) == t
  {
    assert SoftEnd(t, ifs, 0) == 0;
    HardFields(t, ifs, 0);
    assert t[0..] == t;
  }

  // ---------------------------------------------------- soft delimiters only

  ghost predicate AllSoft(ifs: string) {
    ifs != "" && forall c :: c in ifs ==> IsWhitespace(c)
  }

  /** [a, b) is a longest non-empty stretch of t without delimiters. */
  ghost predicate MaximalRun(t: string, ifs: string, a: nat, b: nat) {
    && a < b <= |t|
    && (forall j :: a <= j < b ==> t[j] !in ifs)
    && (a > 0 ==> t[a - 1] in ifs)
    && (b < |t| ==> t[b] in ifs)
  }

  /** The runs are the fields in order, and together hold every character from
      i on that is not a delimiter. */
  ghost predicate RunsFrom(t: string, ifs: string, i: nat, runs: seq<(nat, nat)>, fields: seq<string>)
    requires i <= |t|
    decreases |runs|
  {
    if runs == [] then fields == [] && forall j :: i <= j < |t| ==> t[j] in ifs
    else
      var (a, b) := runs[0];
      && fields != []
      && i <= a && MaximalRun(t, ifs, a, b) && fields[0] == t[a..b]
      && (forall j :: i <= j < a ==> t[j] in ifs)
      && RunsFrom(t, ifs, b, runs[1..], fields[1..])
  }

  lemma {:induction false} SoftFieldsAreRuns(t: string, ifs: string, i: nat) returns (runs: seq<(nat, nat)>)
    requires i < |t| && AllSoft(ifs) && t[i] !in ifs && (i > 0 ==> t[i - 1] in ifs)
    ensures RunsFrom(t, ifs, i, runs, Fields(t, ifs, i))
    decreases |t| - i
  {
    var e := FieldEnd(t, ifs, i);
    var more: seq<(nat, nat)> := [];
    if e == |t| {
    } else {
      var k := SoftEnd(t, ifs, e);
      if k < |t| {
        more := SoftFieldsAreRuns(t, ifs, k);
        WidenRuns(t, ifs, e, k, more, Fields(t, ifs, k));
      }
    }
    runs := [(i, e)] + more;
    assert runs[1..] == more;
    assert Fields(t, ifs, i)[1..] == if e == |t| then [] else Delimiters(t, ifs, e);
  }

  lemma WidenRuns(t: string, ifs: string, e: nat, k: nat, runs: seq<(nat, nat)>, fields: seq<string>)
    requires e <= k <= |t| && RunsFrom(t, ifs, k, runs, fields) && forall j :: e <= j < k ==> t[j] in ifs
    ensures RunsFrom(t, ifs, e, runs, fields)
  {
  }

  /** With whitespace only, the fields are exactly the maximal stretches
      without delimiters; a blank text has none. */
  lemma SoftSplitIsTheRuns(t: string, ifs: string) returns (runs: seq<(nat, nat)>)
    requires AllSoft(ifs)
    ensures RunsFrom(t, ifs, 0, runs, Split(t, ifs))
    ensures Split(t, ifs) == [] <==> forall j :: 0 <= j < |t| ==> t[j] in ifs
  {
    runs := [];
    if t != "" {
      var i := SoftEnd(t, ifs, 0);
      if i < |t| {
        runs := SoftFieldsAreRuns(t, ifs, i);
        WidenRuns(t, ifs, 0, i, runs, Fields(t, ifs, i));
        assert t[i] !in ifs;
      }
    }
  }

  // -------------------------------------------------------------- the C code

  /** Under the default IFS (space, tab, newline) the fields are exactly the
      longest stretches without those three characters. */
  lemma DefaultIfsSplitsAtBlanks(t: string) returns (runs: seq<(nat, nat)>)
    ensures RunsFrom(t, " \t\n", 0, runs, Split(t, " \t\n"))
  {
    var ifs := " \t\n";
    assert ifs[0] == ' ' && ifs[1] == '\t' && ifs[2] == '\n';
    runs := SoftSplitIsTheRuns(t, ifs);
  }

  /** Every other character counts each time it occurs. */
  lemma OtherCharactersCount(t: string, c: char)
    requires t != "" && c != ' ' && c != '\t' && c != '\n'
    ensures |Split(t, [c])| == CountDelimiters(t, [c], 0) + 1 && Join(Split(t, [c]), [c]) == t
  {
    HardSplitCountsAndJoins(t, [c]);
  }

  /** What is still to come at position i between fields. */
  function Resume(t: string, ifs: string, i: nat): seq<string>
    requires i <= |t|
  {
    if i == |t| then [] else if t[i] in ifs then Delimiters(t, ifs, i) else Fields(t, ifs, i)
  }

  lemma SoftResume(t: string, ifs: string, i: nat)
    requires i < |t|
    ensures Resume(t, ifs, i) == Resume(t, ifs, SoftEnd(t, ifs, i))
  {
  }

  lemma HardResume(t: string, ifs: string, i: nat)
    requires i < |t| && Hard(t[i], ifs)
    ensures Resume(t, ifs, i) ==
            (if i + 1 == |t| || t[i + 1] in ifs then [""] else []) + Resume(t, ifs, i + 1)
  {
    assert SoftEnd(t, ifs, i) == i;
  }

  /** The search for a character outside the soft delimiters finds SoftEnd. */
  lemma FindNotSoft(t: string, ifs: string, soft: string, i: nat)
    requires i <= |t| && forall c :: c in soft <==> Soft(c, ifs)
    ensures var k := FindFirstNotOf(t, soft, i);
            SoftEnd(t, ifs, i) == if k < 0 then |t| else k
    decreases |t| - i
  {
    if i < |t| && Soft(t[i], ifs) {
      FindNotSoft(t, ifs, soft, i + 1);
    }
  }

  lemma FindFieldEnd(t: string, ifs: string, i: nat)
    requires i <= |t|
    ensures var k := FindFirstOf(t, ifs, i);
            FieldEnd(t, ifs, i) == if k < 0 then |t| else k
    decreases |t| - i
  {
    if i < |t| && t[i] !in ifs {
      FindFieldEnd(t, ifs, i + 1);
    }
  }

  lemma FindHere(t: string, chars: string, i: nat)
    requires i < |t|
    ensures FindFirstOf(t, chars, i) == i <==> t[i] in chars
  {
  }

  lemma NoSoftDelimiters(t: string, ifs: string, i: nat)
    requires i <= |t| && forall c :: !Soft(c, ifs)
    ensures SoftEnd(t, ifs, i) == i
  {
  }

  ghost predicate SplitsIfs(ifs: string, soft: string, hard: string) {
    forall c :: (c in soft <==> Soft(c, ifs)) && (c in hard <==> Hard(c, ifs))
  }

  lemma EmptySoft(t: string, ifs: string, soft: string, hard: string, i: nat)
    requires SplitsIfs(ifs, soft, hard) && soft == "" && i <= |t|
    ensures SoftEnd(t, ifs, i) == i
  {
    assert forall c :: c !in soft;
    NoSoftDelimiters(t, ifs, i);
  }

  /** The run of counted delimiters at i, each ending a field; inDelimiter is
      false when the next field starts right behind one of them. */
  method ConsumeHard(text: string, ifs: string, hard: string, start: nat, before: seq<string>)
    returns (i: nat, fields: seq<string>, inDelimiter: bool)
    requires start < |text| && forall c :: c in hard <==> Hard(c, ifs)
    ensures start <= i <= |text| && (Hard(text[start], ifs) ==> i > start)
    ensures fields + Resume(text, ifs, i) == before + Resume(text, ifs, start)
    ensures !inDelimiter ==> i < |text| && text[i] !in ifs
    ensures !Hard(text[start], ifs) ==> i == start
  {
    hide Resume, FindFirstOf;
    i, fields, inDelimiter := start, before, true;
    FindHere(text, hard, start);
    while i < |text| && FindFirstOf(text, hard, i) == i
      invariant start <= i <= |text|
      invariant fields + Resume(text, ifs, i) == before + Resume(text, ifs, start)
      invariant Hard(text[start], ifs) ==> i > start || FindFirstOf(text, hard, i) == i
      invariant !Hard(text[start], ifs) ==> i == start
      invariant inDelimiter
    {
      FindHere(text, hard, i);
      HardResume(text, ifs, i);
      i := i + 1;
      if i < |text| {
        FindHere(text, ifs, i);
      }
      ghost var rest := Resume(text, ifs, i);
      if i >= |text| || FindFirstOf(text, ifs, i) == i {
        assert (fields + [""]) + rest == fields + ([""] + rest);
        fields := fields + [""];
      } else {
        assert [] + rest == rest;
        inDelimiter := false;
        break;
      }
    }
  }

  lemma DelimitersResume(t: string, ifs: string, i: nat)
    requires i <= |t|
    ensures i < |t| && t[i] in ifs ==> Resume(t, ifs, i) == Delimiters(t, ifs, i)
    ensures i < |t| && t[i] !in ifs ==> Resume(t, ifs, i) == Fields(t, ifs, i)
    ensures i == |t| ==> Resume(t, ifs, i) == []
  {
  }

  /** The delimiter loop: from a delimiter at start to the next field start
      (done false) or to the end of all fields (done true). */
  method SkipDelimiters(text: string, ifs: string, soft: string, hard: string, start: nat, before: seq<string>)
    returns (i: nat, fields: seq<string>, done: bool)
    requires start < |text| && text[start] in ifs && SplitsIfs(ifs, soft, hard)
    ensures start < i <= |text|
    ensures done ==> fields == before + Delimiters(text, ifs, start)
    ensures !done ==> i < |text| && fields + Fields(text, ifs, i) == before + Delimiters(text, ifs, start)
  {
    hide Delimiters, Fields, FindFirstOf, FindFirstNotOf, SoftEnd, Resume;
    i, fields := start, before;
    ghost var total := before + Resume(text, ifs, start);
    DelimitersResume(text, ifs, start);
    var inDelimiter := true;
    while inDelimiter && i < |text|
      invariant start <= i <= |text|
      invariant fields + Resume(text, ifs, i) == total
      invariant if inDelimiter then i < |text| ==> text[i] in ifs else start < i < |text| && text[i] !in ifs
      decreases |text| - i, inDelimiter
    {
      SoftResume(text, ifs, i);
      if soft != "" {
        FindNotSoft(text, ifs, soft, i);
        var afterWs := FindFirstNotOf(text, soft, i);
        if afterWs != -1 {
          i := afterWs;
        } else {
          DelimitersResume(text, ifs, |text|);
          return |text|, fields, true;
        }
      } else {
        EmptySoft(text, ifs, soft, hard, i);
      }
      i, fields, inDelimiter := ConsumeHard(text, ifs, hard, i, fields);
      if i < |text| {
        FindHere(text, ifs, i);
        if FindFirstOf(text, ifs, i) != i {
          inDelimiter := false;
        }
      }
    }
    DelimitersResume(text, ifs, i);
    done := inDelimiter;
  }

  /** expand_field_split, the value of IFS given. */
  method ExpandFieldSplit(text: string, ifs: string) returns (fields: seq<string>)
    ensures fields == Split(text, ifs)
  {
    hide Delimiters, FindFirstOf, FindFirstNotOf, FieldEnd, SoftEnd;
    fields := [];
    if text == "" {
      return;
    }
    if ifs == "" {
      return [text];
    }
    var soft, hard := "", "";
    for k := 0 to |ifs|
      invariant forall c :: c in soft <==> c in ifs[..k] && IsWhitespace(c)
      invariant forall c :: c in hard <==> c in ifs[..k] && !IsWhitespace(c)
    {
      assert ifs[..k + 1] == ifs[..k] + [ifs[k]];
      if IsWhitespace(ifs[k]) {
        soft := soft + [ifs[k]];
      } else {
        hard := hard + [ifs[k]];
      }
    }
    assert ifs[..|ifs|] == ifs;
    assert SplitsIfs(ifs, soft, hard);
    var i := 0;
    FindNotSoft(text, ifs, soft, 0);
    if soft != "" {
      var first := FindFirstNotOf(text, soft, 0);
      if first == -1 {
        return;
      }
      i := first;
    } else {
      EmptySoft(text, ifs, soft, hard, 0);
    }
    while i < |text|
      invariant i <= |text|
      invariant if i < |text| then fields + Fields(text, ifs, i) == Split(text, ifs) else fields == Split(text, ifs)
    {
      FindFieldEnd(text, ifs, i);
      var fieldEnd := FindFirstOf(text, ifs, i);
      if fieldEnd == -1 {
        fieldEnd := |text|;
      }
      ghost var before := fields;
      fields := fields + [text[i..fieldEnd]];
      ghost var rest := if fieldEnd == |text| then [] else Delimiters(text, ifs, fieldEnd);
      assert before + ([text[i..fieldEnd]] + rest) == fields + rest;
      i := fieldEnd;
      if i >= |text| {
        break;
      }
      var done;
      i, fields, done := SkipDelimiters(text, ifs, soft, hard, i, fields);
      if done {
        return;
      }
    }
  }
}
