/**
 Two files of a few lines on which erasing the other branches does change the outcome: a class that
 is closed only in a branch that is erased, and a head whose template question is answered there.
 Each is an instance of a family of files, on which both final stacks are computed.
 */
module NestingWitnesses {
  import opened ClassLookAhead
  import opened ExpressionMatching
  import opened NestingErasure
  import opened NestingValues
  import opened Wrappers

  const BRACE := OpenBrace(false, false)

  function Plainly(number: nat, text: string, directive: Directive, tokens: seq<Token>): Line {
    Line(number, text, directive, 0, false, [], None, false, Rest(None, tokens), Ahead(0, false))
  }

  /** "class X" and the rest of the line. */
  function ClassLine(text: string, tokens: seq<Token>): Line {
    Plainly(1, text, NoDirective, tokens).(classHead := Some(ClassHead("X", false, 0, 7, Rest(None, tokens))))
  }

  function ClassX(lastLine: nat): Block {
    Block(Class("X", false, 0, lastLine), 1, true, 0, NoAsm, "private", false)
  }

  function Waiting(b: Block): Block {
    b.(seenOpenBrace := false)
  }

  // ---------------------------------------------------------------- a head, a region, a few lines

  /** A class head, then a region whose only other branch is one line, then lines of code. */
  function RegionAfter(open: Line, els: Line, other: Line, close: Line, tail: Items): Items {
    Cons(Region(open, Nil, Branch(els, Cons(CodeLine(other), Nil), NoBranch), close), tail)
  }

  function OneRegion(head: Line, open: Line, els: Line, other: Line, close: Line, tail: Items): Items {
    Cons(CodeLine(head), RegionAfter(open, els, other, close, tail))
  }

  /** A line of which nothing is said but its directive. */
  ghost predicate Quiet(line: Line) {
    && line.parens == 0 && line.namespaces == [] && line.classHead.None? && !line.bareColon
    && line.rest == Rest(None, []) && line.ahead == Ahead(0, false)
  }

  lemma {:induction false} RecognisedQuiet(line: Line, rest: seq<Line>)
    requires line.classHead.None? && line.ahead == Ahead(0, false)
    ensures Recognised([line] + rest) == line
  {
  }

  lemma {:induction false} BranchOfOne(els: Line, other: Line)
    ensures BranchLines(Branch(els, Cons(CodeLine(other), Nil), NoBranch)) == [els, other]
  {
    assert Lines(Cons(CodeLine(other), Nil)) == [other];
  }

  lemma {:induction false} RegionLines(open: Line, els: Line, other: Line, close: Line, tail: Items)
    ensures var region := RegionAfter(open, els, other, close, tail);
            && Lines(region) == [open, els, other, close] + Lines(tail)
            && Lines(FirstBranches(region)) == [open, close] + Lines(FirstBranches(tail))
  {
    BranchOfOne(els, other);
  }

  lemma {:induction false} RegionKept(open: Line, els: Line, other: Line, close: Line, tail: Items)
    requires Quiet(open) && Quiet(close)
    ensures var region := RegionAfter(open, els, other, close, tail);
            Lines(FirstBranches(Resolved(region, []))) == [open, close] + Lines(FirstBranches(Resolved(tail, [])))
  {
    var others := Branch(els, Cons(CodeLine(other), Nil), NoBranch);
    var end := [close] + (Lines(tail) + []);
    RecognisedQuiet(close, Lines(tail) + []);
    RecognisedQuiet(open, Lines(Nil) + (BranchLines(others) + end));
    var resolved := Resolved(RegionAfter(open, els, other, close, tail), []);
    assert Resolved(Nil, BranchLines(others) + end) == Nil;
    assert resolved == Cons(Region(open, Nil, ResolvedBranches(others, end), close), Resolved(tail, []));
    var kept := Resolved(tail, []);
    assert FirstBranches(resolved) == Cons(Region(open, Nil, NoBranch, close), FirstBranches(kept));
    assert [open] + [] + [] + [close] + Lines(FirstBranches(kept)) == [open, close] + Lines(FirstBranches(kept));
  }

  lemma {:induction false} HeadKept(head: Line, region: Items)
    ensures var items := Cons(CodeLine(head), region);
            && Lines(items) == [head] + Lines(region)
            && Lines(FirstBranches(items)) == [head] + Lines(FirstBranches(region))
            && KeptInFile(items) == [Recognised(Lines(items))] + Lines(FirstBranches(Resolved(region, [])))
  {
    var items := Cons(CodeLine(head), region);
    assert [head] + (Lines(region) + []) == Lines(items);
    assert Resolved(items, []) == Cons(CodeLine(Recognised(Lines(items))), Resolved(region, []));
  }

  lemma {:induction false} WellFormedRegion(head: Line, open: Line, els: Line, other: Line, close: Line, tail: Items)
    requires head.directive.NoDirective? && other.directive.NoDirective? && WellFormed(tail)
    requires open.directive.If? && els.directive.Else? && close.directive.Endif?
    ensures WellFormed(OneRegion(head, open, els, other, close, tail))
  {
    assert WellFormed(Cons(CodeLine(other), Nil));
    assert WellFormed(RegionAfter(open, els, other, close, tail));
  }

  lemma {:induction false} QuietCode(s: seq<Block>, line: Line)
    requires Quiet(line) && (s == [] || (Top(s).inlineAsm == NoAsm && Top(s).openParentheses == 0))
    ensures Code(s, line) == s
  {
    if s != [] {
      assert CountIn(Top(s), line) == Top(s);
    }
    assert CountParens(s, line) == s;
  }

  lemma {:induction false} RunCodeFirst(s: seq<Block>, line: Line, rest: seq<Line>)
    ensures RunCode(s, [line] + rest) == RunCode(Code(s, line), rest)
  {
    assert ([line] + rest)[1..] == rest;
  }

  /** After the head the two lines of the region do nothing. */
  lemma {:induction false} RunKept(head: Line, open: Line, close: Line, rest: seq<Line>)
    requires Quiet(open) && Quiet(close)
    requires var s := Code([], head); s == [] || (Top(s).inlineAsm == NoAsm && Top(s).openParentheses == 0)
    ensures RunCode([], [head] + ([open, close] + rest)) == RunCode(Code([], head), rest)
  {
    var s := Code([], head);
    RunCodeFirst([], head, [open, close] + rest);
    assert [open, close] + rest == [open] + ([close] + rest);
    RunCodeFirst(s, open, [close] + rest);
    RunCodeFirst(s, close, rest);
    QuietCode(s, open);
    QuietCode(s, close);
  }

  lemma {:induction false} AloneKept(head: Line, open: Line, close: Line, kept: seq<Line>)
    requires Quiet(open) && Quiet(close)
    ensures var all := [head, open, close] + kept;
            Recognise(all) == [Recognised(all)] + ([open, close] + Recognise(kept))
  {
    var all := [head, open, close] + kept;
    assert all == [head] + ([open] + ([close] + kept));
    RecogniseFirst(head, [open] + ([close] + kept));
    RecogniseFirst(open, [close] + kept);
    RecogniseFirst(close, kept);
    RecognisedQuiet(open, [close] + kept);
    RecognisedQuiet(close, kept);
    assert [open] + ([close] + Recognise(kept)) == [open, close] + Recognise(kept);
  }

  ghost predicate QuietAfter(head: Line) {
    forall ahead: Ahead :: QuietTop(Code([], head.(ahead := ahead)))
  }

  ghost predicate QuietTop(s: seq<Block>) {
    s == [] || (Top(s).inlineAsm == NoAsm && Top(s).openParentheses == 0)
  }

  lemma {:induction false} RunRecognised(
      head: Line, seen: Line, open: Line, close: Line, rest: seq<Line>, kept: seq<Line>)
    requires Quiet(open) && Quiet(close) && QuietAfter(head) && seen == head.(ahead := seen.ahead)
    requires kept == [seen] + ([open, close] + rest)
    ensures RunCode([], kept) == RunCode(Code([], seen), rest)
  {
    assert QuietTop(Code([], head.(ahead := seen.ahead)));
    RunKept(seen, open, close, rest);
  }

  lemma {:induction false} OneRegionLines(head: Line, open: Line, els: Line, other: Line, close: Line, tail: Items)
    requires Quiet(open) && Quiet(close)
    ensures var items := OneRegion(head, open, els, other, close, tail);
            && Lines(items) == [head, open, els, other, close] + Lines(tail)
            && Lines(FirstBranches(items)) == [head, open, close] + Lines(FirstBranches(tail))
            && KeptInFile(items)
               == [Recognised(Lines(items))] + ([open, close] + Lines(FirstBranches(Resolved(tail, []))))
  {
    RegionLines(open, els, other, close, tail);
    RegionKept(open, els, other, close, tail);
    HeadKept(head, RegionAfter(open, els, other, close, tail));
    assert [head] + ([open, els, other, close] + Lines(tail)) == [head, open, els, other, close] + Lines(tail);
    assert [head] + ([open, close] + Lines(FirstBranches(tail))) == [head, open, close] + Lines(FirstBranches(tail));
  }

  lemma {:induction false} HeadSeen(lines: seq<Line>)
    requires lines != []
    ensures Recognised(lines) == lines[0].(ahead := Recognised(lines).ahead)
  {
  }

  /** Only the head is recognised in two ways; both runs go on from what it did. */
  lemma {:induction false} TwoRuns(items: Items, whole: seq<Line>, erased: seq<Line>,
                                   head: Line, open: Line, close: Line, rest: seq<Line>)
    requires WellFormed(items) && whole == Lines(items) && erased == Lines(FirstBranches(items))
    requires Quiet(open) && Quiet(close) && QuietAfter(head)
    requires whole != [] && whole[0] == head && erased != [] && erased[0] == head
    requires KeptInFile(items) == [Recognised(whole)] + ([open, close] + rest)
    requires KeptAlone(items) == [Recognised(erased)] + ([open, close] + rest)
    ensures Run(State([], []), Recognise(whole)).stack == RunCode(Code([], Recognised(whole)), rest)
    ensures Run(State([], []), Recognise(erased)).stack == RunCode(Code([], Recognised(erased)), rest)
  {
    FileRun(State([], []), items);
    HeadSeen(whole);
    HeadSeen(erased);
    RunRecognised(head, Recognised(whole), open, close, rest, KeptInFile(items));
    RunRecognised(head, Recognised(erased), open, close, rest, KeptAlone(items));
  }

  /** Lines after the region of which nothing is left to be found by reading ahead. */
  ghost predicate Settled(tail: Items, last: seq<Line>) {
    && WellFormed(tail) && Lines(tail) == last && Lines(FirstBranches(tail)) == last
    && Lines(FirstBranches(Resolved(tail, []))) == last && Recognise(last) == last
  }

  ghost predicate IsRegion(open: Line, els: Line, other: Line, close: Line) {
    && Quiet(open) && Quiet(close) && other.directive.NoDirective?
    && open.directive.If? && els.directive.Else? && close.directive.Endif?
  }

  lemma {:induction false} BothRuns(
      head: Line, open: Line, els: Line, other: Line, close: Line, tail: Items, last: seq<Line>)
    requires IsRegion(open, els, other, close) && head.directive.NoDirective? && QuietAfter(head) && Settled(tail, last)
    ensures var (items, whole, erased) := (OneRegion(head, open, els, other, close, tail),
                                           [head, open, els, other, close] + last, [head, open, close] + last);
            && WellFormed(items) && Lines(items) == whole && Lines(FirstBranches(items)) == erased
            && Run(State([], []), Recognise(whole)).stack == RunCode(Code([], Recognised(whole)), last)
            && Run(State([], []), Recognise(erased)).stack == RunCode(Code([], Recognised(erased)), last)
  {
    var items := OneRegion(head, open, els, other, close, tail);
    WellFormedRegion(head, open, els, other, close, tail);
    OneRegionLines(head, open, els, other, close, tail);
    AloneKept(head, open, close, last);
    TwoRuns(items, Lines(items), Lines(FirstBranches(items)), head, open, close, last);
  }

  // ---------------------------------------------------------------- counting and searching

  lemma {:induction false} CountNone(c: char, s: string)
    requires c !in s
    ensures Count(c, s) == 0
  {
    if s != [] {
      CountNone(c, s[1..]);
    }
  }

  lemma {:induction false} CountLast(c: char, s: string)
    requires c !in s
    ensures Count(c, s + [c]) == 1
  {
    if s == [] {
      assert (s + [c])[1..] == [];
    } else {
      assert (s + [c])[1..] == s[1..] + [c];
      CountLast(c, s[1..]);
    }
  }

  lemma {:induction false} NoBraces(line: string)
    requires '{' !in line && '}' !in line
    ensures DepthChange(line) == 0
  {
    CountNone('{', line);
    CountNone('}', line);
  }

  lemma {:induction false} EndsInOpen(line: string)
    requires '{' !in line && '}' !in line
    ensures DepthChange(line + ['{']) == 1
  {
    CountLast('{', line);
    CountNone('}', line + ['{']);
  }

  lemma {:induction false} OnlyClose()
    ensures DepthChange(['}']) == -1
  {
    assert ['}'][1..] == [];
  }

  lemma {:induction false} TellingAt(line: string, pos: nat, k: nat)
    requires pos <= k <= |line| && forall j :: pos <= j < k ==> !IsTelling(line[j])
    requires k < |line| ==> IsTelling(line[k])
    ensures NextTelling(line, pos) == k
    decreases k - pos
  {
    if pos < k {
      TellingAt(line, pos + 1, k);
    }
  }

  ghost predicate Silent(line: string, pos: nat) {
    pos <= |line| && forall j :: pos <= j < |line| ==> !IsTelling(line[j])
  }

  lemma {:induction false} SilentLine(lines: seq<string>, l: nat, pos: nat)
    requires l < |lines| && Silent(lines[l], pos)
    ensures InTemplate(lines, l, pos) == InTemplate(lines, l + 1, 0)
  {
    TellingAt(lines[l], pos, |lines[l]|);
  }

  lemma {:induction false} TellingLine(lines: seq<string>, l: nat, pos: nat)
    requires l < |lines| && pos < |lines[l]| && (IsEnding(lines[l][pos]) || IsArgument(lines[l][pos]))
    ensures InTemplate(lines, l, pos) == IsArgument(lines[l][pos])
  {
    TellingAt(lines[l], pos, pos);
  }


  // ---------------------------------------------------------------- the lines of the two files

  const IF_LINE := Plainly(2, "#if A", If, [])
  const ELSE_LINE := Plainly(3, "#else", Else, [])
  const ENDIF_LINE := Plainly(5, "#endif", Endif, [])

  /** Reading ahead passes over the line. */
  ghost predicate Passed(line: Line) {
    Silent(line.text, 0) && DepthChange(line.text) == 0
  }

  lemma {:induction false} PassedText(line: Line, text: string)
    requires line.text == text && '{' !in text && '}' !in text && forall c :: c in text ==> !IsTelling(c)
    ensures Passed(line)
  {
    NoBraces(text);
  }

  lemma {:induction false} PassedIf()
    ensures Passed(IF_LINE)
  {
    PassedText(IF_LINE, "#if A");
  }

  lemma {:induction false} PassedElse()
    ensures Passed(ELSE_LINE)
  {
    PassedText(ELSE_LINE, "#else");
  }

  lemma {:induction false} PassedEndif()
    ensures Passed(ENDIF_LINE)
  {
    PassedText(ENDIF_LINE, "#endif");
  }

  lemma {:induction false} Balance(lines: seq<string>, i: nat, depth: int, change: int)
    requires i < |lines| && DepthChange(lines[i]) == change
    ensures Balanced(lines, i, depth) == if depth + change == 0 then Some(i) else Balanced(lines, i + 1, depth + change)
  {
  }

  // ---------------------------------------------------------------- a class closed in another branch

  /** class X { / #if A / #else / } / #endif */
  const CLOSED_ELSEWHERE :=
    OneRegion(
      ClassLine("class X {", [BRACE]), IF_LINE,
      ELSE_LINE, Plainly(4, "}", NoDirective, [CloseBrace]), ENDIF_LINE, Nil)

  lemma {:induction false} ClosedInFile(t: seq<string>)
    requires |t| == 5 && DepthChange(t[0]) == 1 && DepthChange(t[1]) == 0 && DepthChange(t[2]) == 0 && t[3] == ['}']
    ensures Balanced(t, 0, 0) == Some(3)
  {
    OnlyClose();
    Balance(t, 0, 0, 1);
    Balance(t, 1, 1, 0);
    Balance(t, 2, 1, 0);
    Balance(t, 3, 1, -1);
  }

  lemma {:induction false} ClosedAlone(t: seq<string>)
    requires |t| == 3 && DepthChange(t[0]) == 1 && DepthChange(t[1]) == 0 && DepthChange(t[2]) == 0
    ensures Balanced(t, 0, 0) == None
  {
    Balance(t, 0, 0, 1);
    Balance(t, 1, 1, 0);
    Balance(t, 2, 1, 0);
  }

  /** A head whose class is opened on its line. */
  ghost predicate OpensClass(line: Line) {
    && line.classHead.Some? && DepthChange(line.text) == 1
    && (forall texts: seq<string> ::
          texts != [] && texts[0] == line.text ==> !InTemplate(texts, 0, line.classHead.value.end))
  }

  lemma {:induction false} OpenText(text: string)
    requires text == "class X {"
    ensures DepthChange(text) == 1
  {
    EndsInOpen("class X ");
    assert "class X " + ['{'] == text;
  }

  lemma {:induction false} BraceAtEnd(text: string, texts: seq<string>)
    requires |text| == 9 && text[7] == ' ' && text[8] == '{' && texts != [] && texts[0] == text
    ensures !InTemplate(texts, 0, 7)
  {
    TellingAt(text, 7, 8);
  }

  lemma {:induction false} OpenHead(head: Line)
    requires head == ClassLine("class X {", [BRACE])
    ensures OpensClass(head)
  {
    OpenText(head.text);
    forall texts: seq<string> | texts != [] && texts[0] == head.text ensures !InTemplate(texts, 0, 7) {
      BraceAtEnd(head.text, texts);
    }
  }

  lemma {:induction false} OpenedClass(ahead: Ahead)
    ensures Code([], ClassLine("class X {", [BRACE]).(ahead := ahead))
         == if ahead.inTemplate then [NewBlock(1, BRACE)] else [ClassX(ahead.lastLine)]
  {
    var line := ClassLine("class X {", [BRACE]).(ahead := ahead);
    var s := if ahead.inTemplate then [] else [Waiting(ClassX(ahead.lastLine))];
    assert Heads([], line) == s;
    assert CheckBegin(s, line) == s && SetAccess(s, Rest(None, [BRACE])) == s;
    OneToken(s, 1, BRACE);
  }

  lemma {:induction false} OneToken(s: seq<Block>, number: nat, token: Token)
    ensures Consume(s, number, [token]) == ConsumeOne(s, number, token)
  {
    assert [token][1..] == [];
  }

  lemma {:induction false} ClosedSeen(lines: seq<Line>)
    requires |lines| == 5 && OpensClass(lines[0]) && Passed(lines[1]) && Passed(lines[2]) && lines[3].text == ['}']
    ensures Recognised(lines) == lines[0].(ahead := Ahead(lines[3].number, false))
  {
    ClosedInFile(TextOf(lines));
  }

  lemma {:induction false} UnclosedSeen(lines: seq<Line>)
    requires |lines| == 3 && OpensClass(lines[0]) && Passed(lines[1]) && Passed(lines[2])
    ensures Recognised(lines) == lines[0].(ahead := Ahead(0, false))
  {
    ClosedAlone(TextOf(lines));
  }

  /** A line of directives, of code, and what a class head becomes, for any such five lines. */
  lemma {:induction false} LosesLastLine(head: Line, open: Line, els: Line, other: Line, close: Line)
    requires IsRegion(open, els, other, close) && head.directive.NoDirective? && QuietAfter(head)
    requires OpensClass(head) && Passed(open) && Passed(els) && other.text == ['}'] && Passed(close)
    ensures var items := OneRegion(head, open, els, other, close, Nil);
            && WellFormed(items)
            && Run(State([], []), Recognise(Lines(items))).stack == Code([], head.(ahead := Ahead(other.number, false)))
            && Run(State([], []), Recognise(Lines(FirstBranches(items)))).stack
               == Code([], head.(ahead := Ahead(0, false)))
  {
    assert Settled(Nil, []);
    BothRuns(head, open, els, other, close, Nil, []);
    ClosedSeen([head, open, els, other, close] + []);
    UnclosedSeen([head, open, close] + []);
  }

  /** The class is the same but for its last line, which is found only in the whole file. */
  lemma {:induction false} ErasingLosesLastLine()
    ensures WellFormed(CLOSED_ELSEWHERE)
    ensures Run(State([], []), Recognise(Lines(CLOSED_ELSEWHERE))).stack == [ClassX(4)]
    ensures Run(State([], []), Recognise(Lines(FirstBranches(CLOSED_ELSEWHERE)))).stack == [ClassX(0)]
  {
    var head, other := ClassLine("class X {", [BRACE]), Plainly(4, "}", NoDirective, [CloseBrace]);
    forall ahead ensures QuietTop(Code([], head.(ahead := ahead))) { OpenedClass(ahead); }
    OpenHead(head);
    PassedIf();
    PassedElse();
    PassedEndif();
    LosesLastLine(head, IF_LINE, ELSE_LINE, other, ENDIF_LINE);
    OpenedClass(Ahead(4, false));
    OpenedClass(Ahead(0, false));
  }

  // ---------------------------------------------------------------- a template closed in another branch

  const LAST_LINE := Plainly(6, "{", NoDirective, [BRACE])

  /** class X / #if A / #else / > / #endif / { */
  const TEMPLATE_ELSEWHERE :=
    OneRegion(ClassLine("class X", []), IF_LINE, ELSE_LINE, Plainly(4, ">", NoDirective, []), ENDIF_LINE,
              Cons(CodeLine(LAST_LINE), Nil))

  lemma {:induction false} FourthTells(t: seq<string>)
    requires |t| > 3 && Silent(t[0], 7) && Silent(t[1], 0) && Silent(t[2], 0)
    requires t[3] != [] && (IsEnding(t[3][0]) || IsArgument(t[3][0]))
    ensures InTemplate(t, 0, 7) == IsArgument(t[3][0])
  {
    SilentLine(t, 0, 7);
    SilentLine(t, 1, 0);
    SilentLine(t, 2, 0);
    TellingLine(t, 3, 0);
  }

  /** A head that says nothing more on its line. */
  ghost predicate EndsLine(line: Line) {
    line.classHead.Some? && line.classHead.value.end == 7 && Silent(line.text, 7) && DepthChange(line.text) == 0
  }

  lemma {:induction false} SilentHead()
    ensures EndsLine(ClassLine("class X", []))
  {
    NoBraces("class X");
  }

  ghost predicate Tells(line: Line) {
    line.text != [] && (IsEnding(line.text[0]) || IsArgument(line.text[0]))
  }

  lemma {:induction false} FourthSeen(lines: seq<Line>)
    requires |lines| > 3 && EndsLine(lines[0]) && Passed(lines[1]) && Passed(lines[2]) && Tells(lines[3])
    ensures Recognised(lines) == lines[0].(ahead := Ahead(lines[0].number, IsArgument(lines[3].text[0])))
  {
    Balance(TextOf(lines), 0, 0, 0);
    FourthTells(TextOf(lines));
  }

  lemma {:induction false} HeadAlone(ahead: Ahead)
    ensures Code([], ClassLine("class X", []).(ahead := ahead))
         == if ahead.inTemplate then [] else [Waiting(ClassX(ahead.lastLine))]
  {
    var line := ClassLine("class X", []).(ahead := ahead);
    assert Heads([], line) == if ahead.inTemplate then [] else [Waiting(ClassX(ahead.lastLine))];
  }

  lemma {:induction false} HeadIsQuiet(head: Line)
    requires head == ClassLine("class X", [])
    ensures QuietAfter(head)
  {
    forall ahead ensures QuietTop(Code([], head.(ahead := ahead))) { HeadAlone(ahead); }
  }

  lemma {:induction false} RunLast(s: seq<Block>)
    requires QuietTop(s)
    ensures RunCode(s, [LAST_LINE]) == ConsumeOne(s, 6, BRACE)
  {
    if s != [] {
      assert CountIn(Top(s), LAST_LINE) == Top(s);
    }
    assert Heads(s, LAST_LINE) == s;
    assert SetAccess(CheckBegin(s, LAST_LINE), LAST_LINE.rest) == s;
    OneToken(s, 6, BRACE);
    RunCodeOne(s, LAST_LINE);
  }

  lemma {:induction false} JustOne(last: Line)
    requires last.directive.NoDirective? && last.classHead.None? && last.ahead == Ahead(0, false)
    ensures Settled(Cons(CodeLine(last), Nil), [last])
  {
    var tail := Cons(CodeLine(last), Nil);
    RecognisedQuiet(last, Lines(Nil) + []);
    assert Resolved(tail, []) == tail;
    RecognisedQuiet(last, []);
    RecogniseFirst(last, []);
    assert [last] + [] == [last];
  }

  lemma {:induction false} LosesTemplate(head: Line, open: Line, els: Line, other: Line, close: Line, last: Line)
    requires IsRegion(open, els, other, close) && head.directive.NoDirective? && QuietAfter(head)
    requires EndsLine(head) && Passed(open) && Passed(els) && Tells(other) && Passed(close) && Tells(last)
    requires last.directive.NoDirective? && last.classHead.None? && last.ahead == Ahead(0, false)
    ensures var items := OneRegion(head, open, els, other, close, Cons(CodeLine(last), Nil));
            var seen := Ahead(head.number, IsArgument(other.text[0]));
            var alone := Ahead(head.number, IsArgument(last.text[0]));
            && WellFormed(items)
            && Run(State([], []), Recognise(Lines(items))).stack == RunCode(Code([], head.(ahead := seen)), [last])
            && Run(State([], []), Recognise(Lines(FirstBranches(items)))).stack
               == RunCode(Code([], head.(ahead := alone)), [last])
  {
    JustOne(last);
    BothRuns(head, open, els, other, close, Cons(CodeLine(last), Nil), [last]);
    FourthSeen([head, open, els, other, close] + [last]);
    FourthSeen([head, open, close] + [last]);
  }

  lemma {:induction false} TellingLines(other: Line)
    requires other == Plainly(4, ">", NoDirective, [])
    ensures Tells(other) && IsArgument(other.text[0]) && Tells(LAST_LINE) && !IsArgument(LAST_LINE.text[0])
  {
  }

  lemma {:induction false} HeadThenBrace(head: Line)
    requires head == ClassLine("class X", [])
    ensures RunCode(Code([], head.(ahead := Ahead(1, true))), [LAST_LINE]) == [NewBlock(6, BRACE)]
    ensures RunCode(Code([], head.(ahead := Ahead(1, false))), [LAST_LINE]) == [ClassX(1)]
  {
    HeadAlone(Ahead(1, true));
    HeadAlone(Ahead(1, false));
    RunLast([]);
    RunLast([Waiting(ClassX(1))]);
  }

  /** In the whole file a plain block is open at the end, in the erased one the class. */
  lemma {:induction false} ErasingTurnsBlockIntoClass()
    ensures WellFormed(TEMPLATE_ELSEWHERE)
    ensures Run(State([], []), Recognise(Lines(TEMPLATE_ELSEWHERE))).stack == [NewBlock(6, BRACE)]
    ensures Run(State([], []), Recognise(Lines(FirstBranches(TEMPLATE_ELSEWHERE)))).stack == [ClassX(1)]
  {
    var head, other := ClassLine("class X", []), Plainly(4, ">", NoDirective, []);
    HeadIsQuiet(head);
    SilentHead();
    TellingLines(other);
    PassedIf();
    PassedElse();
    PassedEndif();
    LosesTemplate(head, IF_LINE, ELSE_LINE, other, ENDIF_LINE, LAST_LINE);
    HeadThenBrace(head);
  }
}
