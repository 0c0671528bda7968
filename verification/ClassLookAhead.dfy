/** What cpplint reads ahead at a class head. */
module ClassLookAhead {
  // Whether the head stands inside a template argument list, and the line on which its braces are
  // balanced for the first time.  Both read the lines that follow the head, whatever preprocessor
  // branch they are in.

  import opened BracketGrammar
  import opened ExpressionMatching
  import opened ExpressionScan
  import opened Texts
  import opened Wrappers

  // ---------------------------------------------------------------- template arguments

  predicate IsTelling(c: char) {
    IsEnding(c) || IsArgument(c) || c == '<'
  }

  /** Not a template argument list. */
  predicate IsEnding(c: char) {
    c == '{' || c == '}' || c == ';'
  }

  /** A template argument list. */
  predicate IsArgument(c: char) {
    c == '>' || c == '=' || c == '[' || c == ']' || c == '.'
  }

  /** The next character that tells something, or the end of the line. */
  function NextTelling(line: string, pos: nat): (k: nat)
    ensures k < |line| ==> pos <= k && IsTelling(line[k])
    ensures forall j :: pos <= j < k && j < |line| ==> !IsTelling(line[j])
    ensures pos >= |line| || k <= |line|
    decreases |line| - pos
  {
    if pos >= |line| || IsTelling(line[pos]) then pos else NextTelling(line, pos + 1)
  }

  lemma {:induction false} CloseFromForward(lines: seq<string>, l: nat, out: Outcome)
    requires l < |lines| && (out.Closed? ==> out.pos <= |lines[l]|)
    ensures match CloseFrom(lines, l, out)
            case Found(m, q) => l <= m < |lines| && q <= |lines[m]| && (m == l ==> out.Closed? && q == out.pos)
            case Missing(_) => true
    decreases |lines| - l
  {
    if out.Open? && out.stack != [] && l < |lines| - 1 {
      CloseFromForward(lines, l + 1, EndScan(lines[l + 1], 0, out.stack));
    }
  }

  /** CloseExpression ends further on than it began. */
  lemma {:induction false} CloseForward(lines: seq<string>, l: nat, p: nat)
    requires InText(lines, l, p)
    ensures match Close(lines, l, p)
            case Found(m, q) => m < |lines| && q <= |lines[m]| && (l < m || (l == m && p < q))
            case Missing(_) => true
  {
    CloseFromForward(lines, l, EndScan(lines[l], p, []));
  }

  /** Whether (l, pos) is inside a template argument list, as far as the text after it tells. */
  function InTemplate(lines: seq<string>, l: nat, pos: nat): bool
    decreases |lines| - l, if l < |lines| then |lines[l]| - pos else 0
  {
    if l >= |lines| then false
    else
      var k := NextTelling(lines[l], pos);
      if k >= |lines[l]| then InTemplate(lines, l + 1, 0)
      else if IsEnding(lines[l][k]) then false
      else if IsArgument(lines[l][k]) then true
      else
        CloseForward(lines, l, k);
        match Close(lines, l, k)
        case Missing(_) => false
        case Found(m, q) => InTemplate(lines, m, q)
  }

  /** The first character that tells something decides; a '<' is passed over up to its other end. */
  lemma {:induction false} TellsExact(lines: seq<string>, l: nat, pos: nat, k: nat)
    requires l < |lines| && pos <= k < |lines[l]| && forall j :: pos <= j < k ==> lines[l][j] !in "{};=[].<>"
    ensures lines[l][k] in ">=[]." ==> InTemplate(lines, l, pos)
    ensures lines[l][k] in "{};" ==> !InTemplate(lines, l, pos)
    ensures lines[l][k] == '<' ==>
              InTemplate(lines, l, pos) == match Close(lines, l, k)
                                           case Missing(_) => false
                                           case Found(m, q) => InTemplate(lines, m, q)
  {
    CloseForward(lines, l, k);
    if lines[l][k] in "{};=[].<>" { NextTellingIs(lines[l], pos, k); }
  }

  lemma {:induction false} NextTellingIs(line: string, pos: nat, k: nat)
    requires pos <= k < |line| && IsTelling(line[k]) && forall j :: pos <= j < k ==> !IsTelling(line[j])
    ensures NextTelling(line, pos) == k
    decreases k - pos
  {
    if pos < k { NextTellingIs(line, pos + 1, k); }
  }

  /** A line that tells nothing is passed over, and the end of the file says no. */
  lemma {:induction false} NothingTells(lines: seq<string>, l: nat, pos: nat)
    requires l < |lines| && forall j :: pos <= j < |lines[l]| ==> lines[l][j] !in "{};=[].<>"
    ensures InTemplate(lines, l, pos) == (l + 1 < |lines| && InTemplate(lines, l + 1, 0))
  {
    assert NextTelling(lines[l], pos) >= |lines[l]|;
  }

  /** InTemplateArgumentList, started on the first of the lines. */
  method InTemplateArgumentList(lines: seq<string>, start: nat) returns (inside: bool)
    ensures inside == InTemplate(lines, 0, start)
  {
    var l: nat, pos: nat := 0, start;
    while l < |lines|
      invariant InTemplate(lines, l, pos) == InTemplate(lines, 0, start)
      decreases |lines| - l, if l < |lines| then |lines[l]| - pos else 0
    {
      var line := lines[l];
      if pos >= |line| {
        l, pos := l + 1, 0;
        continue;
      }
      var k := NextTelling(line, pos);
      if k == |line| {   // the match ends on the last character, and the next one is on the next line
        l, pos := l + 1, 0;
        continue;
      }
      if IsEnding(line[k]) {
        return false;
      }
      if IsArgument(line[k]) {
        return true;
      }
      CloseForward(lines, l, k);
      var closing, endLine, endPos := CloseExpression(lines, l, k);
      if endPos < 0 {
        return false;
      }
      l, pos := endLine, endPos;
    }
    inside := false;
  }

  // ---------------------------------------------------------------- the end of a class

  function Count(c: char, s: string): nat {
    if s == [] then 0 else Count(c, s[1..]) + if s[0] == c then 1 else 0
  }

  function DepthChange(line: string): int {
    Count('{', line) - Count('}', line)
  }

  /** The first line from i on after which the braces are balanced. */
  function Balanced(lines: seq<string>, i: nat, depth: int): (k: Option<nat>)
    ensures k.Some? ==> i <= k.value < |lines|
    decreases |lines| - i
  {
    if i >= |lines| then None
    else
      var after := depth + DepthChange(lines[i]);
      if after == 0 then Some(i) else Balanced(lines, i + 1, after)
  }

  /** The opening braces of the first n lines less the closing ones. */
  function Net(lines: seq<string>, n: nat): int
    requires n <= |lines|
  {
    if n == 0 then 0 else Net(lines, n - 1) + DepthChange(lines[n - 1])
  }

  lemma {:induction false} BalancedFrom(lines: seq<string>, i: nat, k: nat)
    requires i <= |lines|
    ensures Balanced(lines, i, Net(lines, i)) == Some(k)
       <==> i <= k < |lines| && Net(lines, k + 1) == 0 && forall j :: i < j <= k ==> Net(lines, j) != 0
    decreases |lines| - i
  {
    if i < |lines| {
      BalancedFrom(lines, i + 1, k);
    }
  }

  /** The class ends with the first line up to and including which the braces are balanced. */
  lemma {:induction false} EndOfClassExact(lines: seq<string>, k: nat)
    ensures Balanced(lines, 0, 0) == Some(k)
       <==> k < |lines| && Net(lines, k + 1) == 0 && forall j :: 0 < j <= k ==> Net(lines, j) != 0
  {
    BalancedFrom(lines, 0, k);
  }

  /** The search for the end of a class that starts on the first of the lines. */
  method FindEndOfClass(lines: seq<string>) returns (end: Option<nat>)
    ensures end == Balanced(lines, 0, 0)
  {
    var depth := 0;
    for i := 0 to |lines|
      invariant Balanced(lines, i, depth) == Balanced(lines, 0, 0)
    {
      depth := depth + Count('{', lines[i]) - Count('}', lines[i]);
      if depth == 0 {
        return Some(i);
      }
    }
    end := None;
  }
}
