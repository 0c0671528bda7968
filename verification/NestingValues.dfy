/** The meaning of cpplint's NestingState on values. */
module NestingValues {
  // What one line of code does to the stack of open blocks, what the preprocessor lines do, and what a
  // whole well-nested file does.  What the regular expressions recognise on a line is data (Line);
  // every branch taken on it is here.

  import opened ClassLookAhead
  import opened Wrappers

  // ---------------------------------------------------------------- blocks

  datatype Asm = NoAsm | InsideAsm | EndAsm | BlockAsm

  datatype Kind =
    | Plain
    | ExternC
    | Namespace(name: string)
    | Class(name: string, isStruct: bool, indent: int, lastLine: nat)

  datatype Block = Block(
    kind: Kind, startingLine: nat, seenOpenBrace: bool, openParentheses: int,
    inlineAsm: Asm, access: string, isDerived: bool)

  // ---------------------------------------------------------------- what a line contains

  datatype Directive = NoDirective | If | Else | Endif

  /** The brace, semicolon or parenthesis found next; for '{', whether extern "C" or an asm
      keyword stands before it. */
  datatype Token =
    | OpenBrace(externC: bool, asm: bool)
    | CloseBrace
    | Semicolon
    | CloseParen

  /** What is left of a line after its heads: the access keyword, if one matches, and the
      tokens. */
  datatype Rest = Rest(access: Option<string>, tokens: seq<Token>)

  datatype NamespaceHead = NamespaceHead(name: string, sawBrace: bool)

  /** A class head, the position after it, and what the line holds then. */
  datatype ClassHead = ClassHead(name: string, isStruct: bool, indent: int, end: nat, rest: Rest)

  /** What is found by reading ahead from a class head: the line on which the class is taken to
      end, and whether the head is inside a template argument list. */
  datatype Ahead = Ahead(lastLine: nat, inTemplate: bool)

  datatype Line = Line(
    number: nat,
    text: string,
    directive: Directive,
    parens: int,                     // count of '(' minus count of ')'
    asm: bool,                       // an asm keyword starts the line
    namespaces: seq<NamespaceHead>,  // namespace heads at the beginning of the line
    classHead: Option<ClassHead>,    // a class head after them
    bareColon: bool,                 // a ':' that is not part of '::'
    rest: Rest,                      // the line without its namespace heads
    ahead: Ahead)                    // set by Recognised, which reads the lines that follow

  // ---------------------------------------------------------------- one line of code

  function Front(s: seq<Block>): seq<Block>
    requires s != []
  {
    s[..|s| - 1]
  }

  function Top(s: seq<Block>): Block
    requires s != []
  {
    s[|s| - 1]
  }

  predicate SeenOpenBrace(s: seq<Block>) {
    s == [] || Top(s).seenOpenBrace
  }

  function NextAsm(asm: Asm, parens: int, open: int, matches: bool): Asm {
    match asm
    case NoAsm => if parens != 0 && open == 1 && matches then InsideAsm else NoAsm
    case EndAsm => if parens != 0 && open == 1 && matches then InsideAsm else NoAsm
    case InsideAsm => if open == 0 then EndAsm else InsideAsm
    case BlockAsm => BlockAsm
  }

  function WithTop(s: seq<Block>, b: Block): seq<Block>
    requires s != []
  {
    s[|s| - 1 := b]
  }

  function CountIn(b: Block, line: Line): Block {
    var open := b.openParentheses + line.parens;
    b.(openParentheses := open, inlineAsm := NextAsm(b.inlineAsm, line.parens, open, line.asm))
  }

  function CountParens(s: seq<Block>, line: Line): seq<Block> {
    if s == [] then s else WithTop(s, CountIn(Top(s), line))
  }

  function NewNamespace(number: nat, head: NamespaceHead): Block {
    Block(Namespace(head.name), number, head.sawBrace, 0, NoAsm, "", false)
  }

  function PushNamespaces(s: seq<Block>, number: nat, heads: seq<NamespaceHead>): seq<Block>
    decreases |heads|
  {
    if heads == [] then s
    else PushNamespaces(s + [NewNamespace(number, heads[0])], number, heads[1..])
  }

  predicate AcceptsClass(s: seq<Block>, line: Line) {
    && line.classHead.Some?
    && (s == [] || Top(s).openParentheses == 0)
    && !line.ahead.inTemplate
  }

  function NewClass(number: nat, head: ClassHead, lastLine: nat): Block {
    Block(Class(head.name, head.isStruct, head.indent, lastLine), number, false, 0, NoAsm,
          if head.isStruct then "public" else "private", false)
  }

  function PushClass(s: seq<Block>, line: Line): seq<Block> {
    if AcceptsClass(s, line) then s + [NewClass(line.number, line.classHead.value, line.ahead.lastLine)] else s
  }

  function RestOf(s: seq<Block>, line: Line): Rest {
    if AcceptsClass(s, line) then line.classHead.value.rest else line.rest
  }

  /** CheckBegin on a block that still waits for its brace. */
  function CheckBegin(s: seq<Block>, line: Line): seq<Block> {
    if !SeenOpenBrace(s) && Top(s).kind.Class? && line.bareColon
    then WithTop(s, Top(s).(isDerived := true)) else s
  }

  function SetAccess(s: seq<Block>, rest: Rest): seq<Block> {
    if s != [] && Top(s).kind.Class? && rest.access.Some?
    then WithTop(s, Top(s).(access := rest.access.value)) else s
  }

  function NewBlock(number: nat, token: Token): Block
    requires token.OpenBrace?
  {
    if token.externC then Block(ExternC, number, true, 0, NoAsm, "", false)
    else Block(Plain, number, true, 0, if token.asm then BlockAsm else NoAsm, "", false)
  }

  function ConsumeOne(s: seq<Block>, number: nat, token: Token): seq<Block> {
    match token
    case OpenBrace(_, _) =>
      if !SeenOpenBrace(s) then WithTop(s, Top(s).(seenOpenBrace := true))
      else s + [NewBlock(number, token)]
    case CloseBrace => if s != [] then Front(s) else s
    case _ => if !SeenOpenBrace(s) then Front(s) else s
  }

  function Consume(s: seq<Block>, number: nat, tokens: seq<Token>): seq<Block>
    decreases |tokens|
  {
    if tokens == [] then s else Consume(ConsumeOne(s, number, tokens[0]), number, tokens[1..])
  }

  /** The stack after parentheses, namespace heads and the class head. */
  function Heads(s: seq<Block>, line: Line): seq<Block> {
    PushClass(PushNamespaces(CountParens(s, line), line.number, line.namespaces), line)
  }

  function HeadsRest(s: seq<Block>, line: Line): Rest {
    RestOf(PushNamespaces(CountParens(s, line), line.number, line.namespaces), line)
  }

  function Body(s: seq<Block>, line: Line, rest: Rest): seq<Block> {
    Consume(SetAccess(CheckBegin(s, line), rest), line.number, rest.tokens)
  }

  /** Everything Update does to the stack after the preprocessor has been dealt with. */
  function Code(s: seq<Block>, line: Line): seq<Block> {
    Body(Heads(s, line), line, HeadsRest(s, line))
  }

  // ---------------------------------------------------------------- reading ahead

  function TextOf(lines: seq<Line>): seq<string> {
    seq(|lines|, i requires 0 <= i < |lines| => lines[i].text)
  }

  /** What reading ahead from the first of the lines finds. */
  function LookAhead(lines: seq<Line>, end: nat): Ahead {
    var last := Balanced(TextOf(lines), 0, 0);
    Ahead(if last.Some? then lines[last.value].number else 0, InTemplate(TextOf(lines), 0, end))
  }

  /** The first of the lines, with what reading ahead from it finds. */
  function Recognised(lines: seq<Line>): Line
    requires lines != []
  {
    var line := lines[0];
    line.(ahead := if line.classHead.Some? then LookAhead(lines, line.classHead.value.end) else Ahead(0, false))
  }

  /** All the lines of a file, each with what reading ahead from it finds. */
  function Recognise(lines: seq<Line>): seq<Line> {
    if lines == [] then [] else [Recognised(lines)] + Recognise(lines[1..])
  }

  // ---------------------------------------------------------------- preprocessor lines

  datatype Snapshot = Snapshot(beforeIf: seq<Block>, beforeElse: seq<Block>, seenElse: bool)

  datatype State = State(stack: seq<Block>, pp: seq<Snapshot>)

  function Preprocess(s: State, directive: Directive): State {
    match directive
    case NoDirective => s
    case If => State(s.stack, s.pp + [Snapshot(s.stack, [], false)])
    case Else =>
      if s.pp == [] then s
      else
        var top := s.pp[|s.pp| - 1];
        var saved := if top.seenElse then top else Snapshot(top.beforeIf, s.stack, true);
        State(top.beforeIf, s.pp[|s.pp| - 1 := saved])
    case Endif =>
      if s.pp == [] then s
      else
        var top := s.pp[|s.pp| - 1];
        State(if top.seenElse then top.beforeElse else s.stack, s.pp[..|s.pp| - 1])
  }

  function UpdateCode(s: State, line: Line): State {
    State(Code(s.stack, line), s.pp)
  }

  function Update(s: State, line: Line): State {
    UpdateCode(Preprocess(s, line.directive), line)
  }

  function Run(s: State, lines: seq<Line>): State
    decreases |lines|
  {
    if lines == [] then s else Run(Update(s, lines[0]), lines[1..])
  }

  // ---------------------------------------------------------------- well-nested regions

  datatype Items = Nil | Cons(head: Item, tail: Items)

  datatype Item =
    | CodeLine(line: Line)
    | Region(open: Line, first: Items, others: Branches, close: Line)

  /** The branches after the first: each a #else or #elif line and what follows it. */
  datatype Branches = NoBranch | Branch(head: Line, body: Items, more: Branches)

  ghost predicate WellFormed(items: Items) {
    match items
    case Nil => true
    case Cons(CodeLine(line), tail) => line.directive.NoDirective? && WellFormed(tail)
    case Cons(Region(open, first, others, close), tail) =>
      open.directive.If? && WellFormed(first) && WellFormedBranches(others)
      && close.directive.Endif? && WellFormed(tail)
  }

  ghost predicate WellFormedBranches(branches: Branches) {
    match branches
    case NoBranch => true
    case Branch(head, body, more) => head.directive.Else? && WellFormed(body) && WellFormedBranches(more)
  }

  ghost function Lines(items: Items): seq<Line> {
    match items
    case Nil => []
    case Cons(CodeLine(line), tail) => [line] + Lines(tail)
    case Cons(Region(open, first, others, close), tail) =>
      [open] + Lines(first) + BranchLines(others) + [close] + Lines(tail)
  }

  ghost function BranchLines(branches: Branches): seq<Line> {
    match branches
    case NoBranch => []
    case Branch(head, body, more) => [head] + Lines(body) + BranchLines(more)
  }

  /** The file with every branch but the first of each region erased, however deep. */
  ghost function FirstBranches(items: Items): Items {
    match items
    case Nil => Nil
    case Cons(CodeLine(line), tail) => Cons(CodeLine(line), FirstBranches(tail))
    case Cons(Region(open, first, _, close), tail) =>
      Cons(Region(open, FirstBranches(first), NoBranch, close), FirstBranches(tail))
  }

  /** The same as plain lines of code, with nothing said about the preprocessor. */
  ghost function Meaning(s: seq<Block>, items: Items): seq<Block>
    decreases items
  {
    match items
    case Nil => s
    case Cons(CodeLine(line), tail) => Meaning(Code(s, line), tail)
    case Cons(Region(open, first, _, close), tail) =>
      Meaning(Code(Meaning(Code(s, open), first), close), tail)
  }

  lemma {:induction false} RunAppend(s: State, a: seq<Line>, b: seq<Line>)
    ensures Run(s, a + b) == Run(Run(s, a), b)
    decreases |a|
  {
    if a == [] {
      assert a + b == b;
    } else {
      assert (a + b)[1..] == a[1..] + b;
      RunAppend(Update(s, a[0]), a[1..], b);
    }
  }

  lemma {:induction false} RunOne(s: State, line: Line, rest: seq<Line>)
    ensures Run(s, [line] + rest) == Run(Update(s, line), rest)
  {
    assert ([line] + rest)[1..] == rest;
  }

  /** First-branch semantics: whatever the state before, running Update over a well-nested
      file restores the preprocessor stack and does to the block stack what the first
      branches alone do. */
  lemma {:induction false} RunMeaning(s: State, items: Items)
    requires WellFormed(items)
    ensures Run(s, Lines(items)) == State(Meaning(s.stack, items), s.pp)
    decreases items
  {
    match items
    case Nil =>
    case Cons(CodeLine(line), tail) =>
      RunOne(s, line, Lines(tail));
      RunMeaning(Update(s, line), tail);
    case Cons(region, tail) =>
      RunRegion(s, region);
      var lines := RegionLines(region);
      RunAppend(s, lines, Lines(tail));
      RunMeaning(Run(s, lines), tail);
  }

  ghost function RegionLines(region: Item): seq<Line>
    requires region.Region?
  {
    [region.open] + Lines(region.first) + BranchLines(region.others) + [region.close]
  }

  lemma {:induction false} RunRegion(s: State, region: Item)
    requires region.Region? && WellFormed(Cons(region, Nil))
    ensures Run(s, RegionLines(region))
         == State(Code(Meaning(Code(s.stack, region.open), region.first), region.close), s.pp)
    decreases region
  {
    var Region(open, first, others, close) := region;
    RunInFour(s, open, Lines(first), BranchLines(others), close);
    var s1 := Update(s, open);
    RunMeaning(s1, first);
    var s2 := Run(s1, Lines(first));
    RunBranches(s2, others);
    CloseRegion(s, s2, Run(s2, BranchLines(others)), close);
  }

  /** #endif after the branches: the stack is the one at the end of the first branch. */
  lemma {:induction false} CloseRegion(s: State, s2: State, s3: State, close: Line)
    requires close.directive.Endif? && |s2.pp| == |s.pp| + 1
    requires s2.pp == s.pp + [Snapshot(s2.pp[|s.pp|].beforeIf, [], false)]
    requires s3 == s2 || s3.pp == s2.pp[|s.pp| := Snapshot(s2.pp[|s.pp|].beforeIf, s2.stack, true)]
    ensures Update(s3, close) == State(Code(s2.stack, close), s.pp)
  {
    assert s3.pp[..|s3.pp| - 1] == s.pp;
  }

  lemma {:induction false} RunJust(s: State, line: Line)
    ensures Run(s, [line]) == Update(s, line)
  {
    assert [line][1..] == [];
  }

  lemma {:induction false} RunInFour(s: State, open: Line, a: seq<Line>, b: seq<Line>, close: Line)
    ensures Run(s, [open] + a + b + [close]) == Update(Run(Run(Update(s, open), a), b), close)
  {
    RunAppend(s, [open] + a + b, [close]);
    RunAppend(s, [open] + a, b);
    RunOne(s, open, a);
    RunJust(Run(Run(Update(s, open), a), b), close);
  }

  /** The branches after the first leave behind only the snapshot taken before them. */
  lemma {:induction false} RunBranches(s: State, branches: Branches)
    requires WellFormedBranches(branches) && s.pp != []
    ensures var top, end := s.pp[|s.pp| - 1], Run(s, BranchLines(branches));
            if branches.NoBranch? then end == s
            else end.pp == s.pp[|s.pp| - 1 := if top.seenElse then top
                                              else Snapshot(top.beforeIf, s.stack, true)]
    decreases branches
  {
    match branches
    case NoBranch =>
    case Branch(head, body, more) =>
      var a, b := Lines(body), BranchLines(more);
      assert [head] + a + b == [head] + (a + b);
      RunOne(s, head, a + b);
      var s1 := Update(s, head);
      RunAppend(s1, a, b);
      RunMeaning(s1, body);
      RunBranches(Run(s1, a), more);
  }

  lemma {:induction false} MeaningOfFirst(s: seq<Block>, items: Items)
    requires WellFormed(items)
    ensures WellFormed(FirstBranches(items))
    ensures Meaning(s, FirstBranches(items)) == Meaning(s, items)
    decreases items
  {
    match items
    case Nil =>
    case Cons(CodeLine(line), tail) => MeaningOfFirst(Code(s, line), tail);
    case Cons(Region(open, first, _, close), tail) =>
      MeaningOfFirst(Code(s, open), first);
      MeaningOfFirst(Code(Meaning(Code(s, open), first), close), tail);
  }

  /** On lines as they were recognised, the branches after the first leave nothing behind. */
  lemma {:induction false} OnlyFirstBranches(s: State, items: Items)
    requires WellFormed(items)
    ensures Run(s, Lines(items)) == Run(s, Lines(FirstBranches(items)))
    ensures Run(s, Lines(items)).pp == s.pp
  {
    RunMeaning(s, items);
    MeaningOfFirst(s.stack, items);
    RunMeaning(s, FirstBranches(items));
  }

  // ---------------------------------------------------------------- braces and depth

  ghost predicate AllOpen(s: seq<Block>) {
    forall k :: 0 <= k < |s| ==> s[k].seenOpenBrace
  }

  function Net(tokens: seq<Token>): int {
    if tokens == [] then 0
    else (match tokens[0] case OpenBrace(_, _) => 1 case CloseBrace => -1 case _ => 0) + Net(tokens[1..])
  }

  /** The largest excess of closing over opening braces in any prefix. */
  function Deficit(tokens: seq<Token>): nat {
    if tokens == [] then 0
    else
      var d := Deficit(tokens[1..]);
      match tokens[0]
      case OpenBrace(_, _) => if d == 0 then 0 else d - 1
      case CloseBrace => d + 1
      case _ => d
  }

  /** Deficit is what its comment says: an upper bound of -Net over the prefixes, attained. */
  lemma {:induction false} DeficitIsMaximum(tokens: seq<Token>) returns (k: nat)
    ensures k <= |tokens| && -Net(tokens[..k]) == Deficit(tokens)
    ensures forall j :: 0 <= j <= |tokens| ==> -Net(tokens[..j]) <= Deficit(tokens)
  {
    if tokens == [] {
      k := 0;
    } else {
      var k1 := DeficitIsMaximum(tokens[1..]);
      forall j | 0 < j <= |tokens| ensures Net(tokens[..j]) == Net([tokens[0]]) + Net(tokens[1..][..j - 1]) {
        assert tokens[..j][1..] == tokens[1..][..j - 1];
        assert [tokens[0]][1..] == [];
      }
      assert tokens[..0] == [];
      k := if Deficit(tokens) == 0 then 0 else k1 + 1;
    }
  }

  /** On braces alone the stack is a counter that cannot go below zero: the final depth is
      the net count plus the larger of the initial depth and the deficit, every block stays
      open, and the blocks below the deficit are untouched. */
  lemma {:induction false} ConsumeDepth(s: seq<Block>, number: nat, tokens: seq<Token>)
    requires AllOpen(s)
    ensures AllOpen(Consume(s, number, tokens))
    ensures |Consume(s, number, tokens)|
         == Net(tokens) + if |s| > Deficit(tokens) then |s| else Deficit(tokens)
    ensures Deficit(tokens) <= |s| ==> s[..|s| - Deficit(tokens)] <= Consume(s, number, tokens)
    decreases |tokens|
  {
    if tokens != [] {
      var s1 := ConsumeOne(s, number, tokens[0]);
      ConsumeDepth(s1, number, tokens[1..]);
      var d, d1 := Deficit(tokens), Deficit(tokens[1..]);
      if d <= |s| {
        assert s[..|s| - d] <= s1[..|s1| - d1];
      }
    }
  }

  /** A line whose braces are well nested leaves the stack exactly as it was. */
  lemma {:induction false} WellNestedTokens(s: seq<Block>, number: nat, tokens: seq<Token>)
    requires AllOpen(s) && Net(tokens) == 0 && Deficit(tokens) == 0
    ensures Consume(s, number, tokens) == s
  {
    ConsumeDepth(s, number, tokens);
    assert s[..|s|] == s;
  }

  /** The same for whole lines without class and namespace heads: only the parenthesis and
      asm bookkeeping of the innermost block may change. */
  lemma {:induction false} LineDepth(s: seq<Block>, line: Line)
    requires AllOpen(s) && line.namespaces == [] && line.classHead.None?
    ensures AllOpen(Code(s, line))
    ensures var d := Deficit(line.rest.tokens);
            |Code(s, line)| == Net(line.rest.tokens) + if |s| > d then |s| else d
    ensures Net(line.rest.tokens) == 0 && Deficit(line.rest.tokens) == 0
            ==> Code(s, line) == SetAccess(CountParens(s, line), line.rest)
  {
    var s1 := CountParens(s, line);
    assert AllOpen(s1) && PushNamespaces(s1, line.number, []) == s1;
    var s2 := SetAccess(s1, line.rest);
    assert AllOpen(s2);
    ConsumeDepth(s2, line.number, line.rest.tokens);
    if Net(line.rest.tokens) == 0 && Deficit(line.rest.tokens) == 0 {
      WellNestedTokens(s2, line.number, line.rest.tokens);
    }
  }
}
