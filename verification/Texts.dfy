/** Characters and strings, as the scripts see them; all classes of characters are ASCII. */
module Texts {
  predicate IsSpace(c: char) {
    '\t' <= c <= '\r' || 28 as char <= c <= ' '
  }

  predicate IsDigit(c: char) {
    '0' <= c <= '9'
  }

  predicate IsWordChar(c: char) {
    IsDigit(c) || 'a' <= c <= 'z' || 'A' <= c <= 'Z' || c == '_'
  }

  /** The classes by code: white space includes the four separators. */
  lemma {:induction false} ClassesExact(c: char)
    ensures IsSpace(c) <==> c as int in {9, 10, 11, 12, 13, 28, 29, 30, 31, 32}
    ensures IsDigit(c) <==> 48 <= c as int < 58
    ensures IsWordChar(c) <==>
            48 <= c as int < 58 || 65 <= c as int < 91 || 97 <= c as int < 123 || c as int == 95
  {
  }

  function Top(s: string): char
    requires s != []
  {
    s[|s| - 1]
  }

  function Front(s: string): string
    requires s != []
  {
    s[..|s| - 1]
  }

  function StripLeft(s: string): string {
    if s != [] && IsSpace(s[0]) then StripLeft(s[1..]) else s
  }

  function StripRight(s: string): string {
    if s != [] && IsSpace(Top(s)) then StripRight(Front(s)) else s
  }

  lemma {:induction false} StripRightSpaces(s: string)
    ensures StripRight(s) <= s
    ensures forall j :: |StripRight(s)| <= j < |s| ==> IsSpace(s[j])
  {
    if s != [] && IsSpace(Top(s)) { StripRightSpaces(Front(s)); }
  }

  lemma {:induction false} StripRightAppend(u: string, v: string)
    requires u != [] && !IsSpace(Top(u)) && forall j :: 0 <= j < |v| ==> IsSpace(v[j])
    ensures StripRight(u + v) == u
  {
    if v == [] { assert u + v == u; }
    else {
      assert Front(u + v) == u + Front(v);
      StripRightAppend(u, Front(v));
    }
  }

  function Strip(s: string): string {
    StripRight(StripLeft(s))
  }

  ghost predicate AllSpace(s: string) {
    forall i :: 0 <= i < |s| ==> IsSpace(s[i])
  }

  lemma {:induction false} StripLeftAppend(u: string, v: string)
    requires AllSpace(u) && (v == [] || !IsSpace(v[0]))
    ensures StripLeft(u + v) == v
  {
    if u == [] {
      assert u + v == v;
    } else {
      assert (u + v)[1..] == u[1..] + v;
      StripLeftAppend(u[1..], v);
    }
  }

  /** Stripping takes away the white space around a text, and nothing else. */
  lemma {:induction false} StripExact(before: string, s: string, after: string)
    requires AllSpace(before) && s != [] && !IsSpace(s[0]) && !IsSpace(Top(s)) && AllSpace(after)
    ensures Strip(before + s + after) == s
  {
    assert before + s + after == before + (s + after);
    StripLeftAppend(before, s + after);
    StripRightAppend(s, after);
  }
}
