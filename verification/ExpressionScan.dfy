/**
 cpplint's two line scanners, FindEndOfExpressionInLine and FindStartOfExpressionInLine, with
 their heuristics for <<, ->, >=, operator< and semicolons.  Each scanner is a method working
 in place on the caller's stack, proved against a step function.  What the
 steps amount to over a whole text is in ScanLaws.
 */
module ExpressionScan {
  import opened BracketGrammar
  import opened Texts

  /** The nesting stack handed from line to line; its top is the last item. */
  class CharStack {
    var items: string

    constructor ()
      ensures items == []
    {
      items := [];
    }

    method Push(c: char)
      modifies this
      ensures items == old(items) + [c]
    {
      items := items + [c];
    }

    method Pop()
      requires items != []
      modifies this
      ensures items == Front(old(items))
    {
      items := items[..|items| - 1];
    }

    /** Pops as long as c is on top. */
    method DropTops(c: char)
      modifies this
      ensures items == WithoutTops(old(items), c)
    {
      while items != [] && items[|items| - 1] == c
        invariant WithoutTops(items, c) == WithoutTops(old(items), c)
        decreases |items|
      {
        Pop();
      }
    }
  }

  function WithoutTops(s: string, c: char): string {
    if s != [] && Top(s) == c then WithoutTops(Front(s), c) else s
  }

  // ---------------------------------------------------------------- look-behinds

  /** The search \boperator\s*$ succeeds on s. */
  predicate EndsWithOperator(s: string) {
    var u := StripRight(s);
    && |u| >= 8
    && u[|u| - 8..] == "operator"
    && (|u| == 8 || !IsWordChar(u[|u| - 9]))
  }

  /** s ends with the word operator and then white space only. */
  ghost predicate OperatorBefore(s: string) {
    exists k :: 0 <= k <= |s| - 8 && IsOperatorAt(s, k)
  }

  ghost predicate IsOperatorAt(s: string, k: nat) {
    && k + 8 <= |s| && s[k..k + 8] == "operator" && (k == 0 || !IsWordChar(s[k - 1]))
    && forall j :: k + 8 <= j < |s| ==> IsSpace(s[j])
  }

  /** The word operator followed by spaces ends s; k is where it begins. */
  lemma {:induction false} OperatorStart(s: string) returns (k: nat)
    requires EndsWithOperator(s)
    ensures IsOperatorAt(s, k)
  {
    StripRightSpaces(s);
    k := |StripRight(s)| - 8;
  }

  lemma {:induction false} OperatorExact(s: string)
    ensures EndsWithOperator(s) <==> OperatorBefore(s)
  {
    if EndsWithOperator(s) {
      var k := OperatorStart(s);
    }
    if OperatorBefore(s) {
      var k :| 0 <= k <= |s| - 8 && IsOperatorAt(s, k);
      assert s[k + 7] == s[k..k + 8][7] == 'r';
      assert s == s[..k + 8] + s[k + 8..];
      StripRightAppend(s[..k + 8], s[k + 8..]);
      assert s[..k + 8][k..] == s[k..k + 8];
    }
  }

  /** The match <[<=] succeeds at position i. */
  predicate StartsShiftOrLess(line: string, i: nat)
    requires i < |line|
  {
    line[i] == '<' && i + 1 < |line| && (line[i + 1] == '<' || line[i + 1] == '=')
  }

  /** The second '<' of a shift. */
  predicate AfterLess(line: string, i: nat)
    requires i < |line|
  {
    i > 0 && line[i - 1] == '<'
  }

  /** Forward, a '<' at i is the name of an operator function. */
  predicate OperatorLess(line: string, i: nat)
    requires i < |line|
  {
    i > 0 && EndsWithOperator(line[..i])
  }

  /** Forward, a '>' at i is ignored.  The search for operator stops one character early. */
  predicate IgnoredGreater(line: string, i: nat)
    requires i < |line|
  {
    i > 0 && (line[i - 1] == '-' || EndsWithOperator(line[..i - 1]))
  }

  /** A '<' that the forward scanner does not push. */
  predicate SkippedOpen(line: string, i: nat)
    requires i < |line|
  {
    AfterLess(line, i) || OperatorLess(line, i)
  }

  /** A '>' that the backward scanner does not push; it then also passes over line[i - 1]. */
  predicate SkippedClose(line: string, i: nat)
    requires i < |line|
  {
    && i > 0
    && (|| line[i - 1] == '-'
        || (IsSpace(line[i - 1]) && i + 2 < |line| && line[i + 1] == '=' && IsSpace(line[i + 2]))
        || EndsWithOperator(line[..i]))
  }

  /** What the look-behinds say at one position of a line. */
  datatype Look = Look(shift: bool, less: bool, greater: bool, skip: bool)

  function LookAt(line: string, i: nat): Look
    requires i < |line|
  {
    Look(AfterLess(line, i), OperatorLess(line, i), IgnoredGreater(line, i), SkippedClose(line, i))
  }

  function Looks(line: string): (looks: seq<Look>)
    ensures |looks| == |line|
  {
    seq(|line|, i requires 0 <= i < |line| => LookAt(line, i))
  }

  // ---------------------------------------------------------------- forward scanner

  /** What the character c does to the stack, given what the look-behinds say about it. */
  function EndStep(c: char, look: Look, s: string): Step {
    if IsOpener(c) then Keep(s + [c])
    else if c == '<' then
      if look.shift then
        if s != [] && Top(s) == '<' then
          if |s| == 1 then Stop(false) else Keep(Front(s))
        else Keep(s)
      else if look.less then Keep(s)
      else Keep(s + ['<'])
    else if IsCloser(c) then
      var u := WithoutTops(s, '<');
      if u == [] || c != CloserOf(Top(u)) then Stop(false)
      else if |u| == 1 then Stop(true) else Keep(Front(u))
    else if c == '>' then
      if look.greater || s == [] || Top(s) != '<' then Keep(s)
      else if |s| == 1 then Stop(true) else Keep(Front(s))
    else if c == ';' then
      var u := WithoutTops(s, '<');
      if u == [] then Stop(false) else Keep(u)
    else Keep(s)
  }

  /** The scan of a line from position i, for any answers of the look-behinds. */
  function EndScanWith(line: string, looks: seq<Look>, i: nat, s: string): (out: Outcome)
    requires i <= |line| == |looks|
    ensures out.Closed? ==> i < out.pos <= |line|
    decreases |line| - i
  {
    if i == |line| then Open(s)
    else
      var step := EndStep(line[i], looks[i], s);
      if step.Keep? then EndScanWith(line, looks, i + 1, step.stack)
      else if step.closed then Closed(i + 1)
      else Dead
  }

  function EndScan(line: string, i: nat, s: string): (out: Outcome)
    requires i <= |line|
    ensures out.Closed? ==> i < out.pos <= |line|
  {
    EndScanWith(line, Looks(line), i, s)
  }

  /** endpos is -1 unless the end was found; live tells whether the stack is handed back. */
  method FindEndOfExpressionInLine(line: string, startpos: nat, stack: CharStack)
    returns (endpos: int, live: bool)
    requires startpos <= |line|
    modifies stack
    ensures match EndScan(line, startpos, old(stack.items))
            case Closed(q) => endpos == q && !live
            case Dead => endpos == -1 && !live
            case Open(s) => endpos == -1 && live && stack.items == s
  {
    ghost var goal := EndScan(line, startpos, stack.items);
    for i := startpos to |line|
      invariant EndScan(line, i, stack.items) == goal
    {
      var c := line[i];
      assert Looks(line)[i] == LookAt(line, i);
      if c in "([{" {
        stack.Push(c);
      } else if c == '<' {
        if AfterLess(line, i) {
          if stack.items != [] && Top(stack.items) == '<' {
            stack.Pop();
            if stack.items == [] { return -1, false; }
          }
        } else if OperatorLess(line, i) {
          continue;
        } else {
          stack.Push('<');
        }
      } else if c in ")]}" {
        stack.DropTops('<');
        if stack.items == [] { return -1, false; }
        var top := Top(stack.items);
        if (top == '(' && c == ')') || (top == '[' && c == ']') || (top == '{' && c == '}') {
          stack.Pop();
          if stack.items == [] { return i + 1, false; }
        } else {
          return -1, false;
        }
      } else if c == '>' {
        if IgnoredGreater(line, i) {
          continue;
        }
        if stack.items != [] && Top(stack.items) == '<' {
          stack.Pop();
          if stack.items == [] { return i + 1, false; }
        }
      } else if c == ';' {
        stack.DropTops('<');
        if stack.items == [] { return -1, false; }
      }
    }
    return -1, true;
  }

  // ---------------------------------------------------------------- backward scanner

  datatype BackStep =
    | Back(stack: string, skip: bool)   // go on, passing over one more character if skip
    | BackStop(found: bool)

  function StartStep(c: char, look: Look, s: string): BackStep {
    if IsCloser(c) then Back(s + [c], false)
    else if c == '>' then
      if look.skip then Back(s, true) else Back(s + ['>'], false)
    else if c == '<' then
      if look.shift then Back(s, true)
      else if s == [] || Top(s) != '>' then Back(s, false)
      else if |s| == 1 then BackStop(true) else Back(Front(s), false)
    else if IsOpener(c) then
      var u := WithoutTops(s, '>');
      if u == [] || Top(u) != CloserOf(c) then BackStop(false)
      else if |u| == 1 then BackStop(true) else Back(Front(u), false)
    else if c == ';' then
      var u := WithoutTops(s, '>');
      if u == [] then BackStop(false) else Back(u, false)
    else Back(s, false)
  }

  /** No look-behind lets the backward scan pass over a bracket or a semicolon. */
  ghost predicate SkipsOrdinary(line: string, looks: seq<Look>) {
    && |looks| == |line|
    && forall i :: 0 <= i < |line| && (looks[i].shift || looks[i].skip) ==>
         i > 0 && !IsBracket(line[i - 1]) && line[i - 1] != ';'
  }

  lemma {:induction false} LooksSkipOrdinary(line: string)
    ensures SkipsOrdinary(line, Looks(line))
  {
    forall i | 0 <= i < |line| && (Looks(line)[i].shift || Looks(line)[i].skip)
      ensures i > 0 && !IsBracket(line[i - 1]) && line[i - 1] != ';'
    {
      assert Looks(line)[i] == LookAt(line, i);
      if SkippedClose(line, i) { SkippedIsOrdinary(line, i); }
    }
  }

  /** Neither look-behind for '>' ever passes over a bracket or a semicolon. */
  lemma {:induction false} SkippedIsOrdinary(line: string, i: nat)
    requires i < |line| && SkippedClose(line, i)
    ensures !IsBracket(line[i - 1]) && line[i - 1] != ';'
  {
    var u := line[..i];
    if EndsWithOperator(u) {
      OperatorLast(u);
      assert Top(u) == line[i - 1];
    }
  }

  lemma {:induction false} OperatorLast(u: string)
    requires EndsWithOperator(u)
    ensures u != [] && (IsSpace(Top(u)) || Top(u) == 'r')
  {
    if !IsSpace(Top(u)) {
      assert StripRight(u) == u;
      assert u[|u| - 8..][7] == "operator"[7];
    }
  }

  lemma {:induction false} OperatorFront(u: string)
    requires EndsWithOperator(u)
    ensures EndsWithOperator(Front(u)) <==> IsSpace(Top(u))
  {
    OperatorLast(u);
    if !IsSpace(Top(u)) {
      assert StripRight(u) == u && u[|u| - 8..][6] == u[|u| - 2] == "operator"[6];
      assert Top(Front(u)) == 'o';
      assert StripRight(Front(u)) == Front(u);
      if EndsWithOperator(Front(u)) {
        OperatorLast(Front(u));
      }
    }
  }

  /** A '<' right after the word operator is passed over. */
  lemma {:induction false} OperatorThenLess(u: string, line: string)
    requires EndsWithOperator(u) && line == u + ['<']
    ensures OperatorLess(line, |u|)
  {
    OperatorLast(u);
    assert line[..|u|] == u;
  }

  /** A '>' right after it is passed over only if there is a space, as the search ends one character
      early; with any character between them it is. */
  lemma {:induction false} OperatorThenGreater(u: string, line: string)
    requires EndsWithOperator(u) && line == u + ['>']
    ensures IgnoredGreater(line, |u|) <==> IsSpace(Top(u))
  {
    OperatorLast(u);
    OperatorFront(u);
    assert line[..|u| - 1] == Front(u) && line[|u| - 1] == Top(u);
  }

  lemma {:induction false} OperatorApartFromGreater(u: string, c: char, line: string)
    requires EndsWithOperator(u) && line == u + [c] + ['>']
    ensures IgnoredGreater(line, |u| + 1)
  {
    assert line[..|u|] == u;
  }

  function StartScanWith(line: string, looks: seq<Look>, i: int, s: string): (out: Outcome)
    requires -1 <= i < |line| && SkipsOrdinary(line, looks)
    ensures out.Closed? ==> 0 <= out.pos <= i
    decreases i
  {
    if i < 0 then Open(s)
    else
      var step := StartStep(line[i], looks[i], s);
      if step.Back? then StartScanWith(line, looks, if step.skip then i - 2 else i - 1, step.stack)
      else if step.found then Closed(i)
      else Dead
  }

  function StartScan(line: string, i: int, s: string): (out: Outcome)
    requires -1 <= i < |line|
    ensures out.Closed? ==> 0 <= out.pos <= i
  {
    LooksSkipOrdinary(line);
    StartScanWith(line, Looks(line), i, s)
  }

  method FindStartOfExpressionInLine(line: string, endpos: int, stack: CharStack)
    returns (startpos: int, live: bool)
    requires -1 <= endpos < |line|
    modifies stack
    ensures match StartScan(line, endpos, old(stack.items))
            case Closed(p) => startpos == p && !live
            case Dead => startpos == -1 && !live
            case Open(s) => startpos == -1 && live && stack.items == s
  {
    ghost var goal := StartScan(line, endpos, stack.items);
    var i := endpos;
    while i >= 0
      invariant -1 <= i < |line|
      invariant StartScan(line, i, stack.items) == goal
      decreases i
    {
      var c := line[i];
      LooksSkipOrdinary(line);
      assert Looks(line)[i] == LookAt(line, i);
      if c in ")]}" {
        stack.Push(c);
      } else if c == '>' {
        if SkippedClose(line, i) {
          i := i - 1;
        } else {
          stack.Push('>');
        }
      } else if c == '<' {
        if AfterLess(line, i) {
          i := i - 1;
        } else if stack.items != [] && Top(stack.items) == '>' {
          stack.Pop();
          if stack.items == [] { return i, false; }
        }
      } else if c in "([{" {
        stack.DropTops('>');
        if stack.items == [] { return -1, false; }
        var top := Top(stack.items);
        if (c == '(' && top == ')') || (c == '[' && top == ']') || (c == '{' && top == '}') {
          stack.Pop();
          if stack.items == [] { return i, false; }
        } else {
          return -1, false;
        }
      } else if c == ';' {
        stack.DropTops('>');
        if stack.items == [] { return -1, false; }
      }
      i := i - 1;
    }
    return -1, true;
  }
}
