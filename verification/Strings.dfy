/** Characters and strings as several parts of the shell read them. */
module Strings {
  predicate IsDigit(c: char) { '0' <= c <= '9' }
  predicate IsNameStart(c: char) { 'a' <= c <= 'z' || 'A' <= c <= 'Z' || c == '_' }
  predicate IsNameChar(c: char) { IsNameStart(c) || IsDigit(c) }

  /** The borders of the character classes. */
  lemma CharactersByName()
    ensures forall c :: c in "09" ==> IsDigit(c) && IsNameChar(c) && !IsNameStart(c)
    ensures forall c :: c in "azAZ_" ==> IsNameStart(c) && IsNameChar(c) && !IsDigit(c)
    ensures forall c :: c in "/:@[`{- \t\n\0" ==> !IsNameChar(c) && !IsDigit(c) && !IsNameStart(c)
  {
  }

  /** The end of the run of name characters at p. */
  function NameEnd(s: string, p: nat): (q: nat)
    requires p <= |s|
    ensures p <= q <= |s|
    ensures p < |s| && IsNameChar(s[p]) ==> q > p
    decreases |s| - p
  {
    if p < |s| && IsNameChar(s[p]) then NameEnd(s, p + 1) else p
  }

  lemma {:induction false} NameEndAt(s: string, p: nat, q: nat)
    requires p <= q <= |s| && (forall i :: p <= i < q ==> IsNameChar(s[i]))
    requires q < |s| ==> !IsNameChar(s[q])
    ensures NameEnd(s, p) == q
    decreases q - p
  {
    if p == q {
    } else {
      NameEndAt(s, p + 1, q);
    }
  }

  function Concat(parts: seq<string>): string {
    if parts == [] then "" else parts[0] + Concat(parts[1..])
  }

  /** The parts with sep between them. */
  function Join(parts: seq<string>, sep: string): string {
    if parts == [] then ""
    else if |parts| == 1 then parts[0]
    else parts[0] + (sep + Join(parts[1..], sep))
  }
}
