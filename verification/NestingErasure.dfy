/** Erasing all branches but the first ones. */
module NestingErasure {
  // Whether that changes what cpplint makes of a file.  It can, because a class head is read ahead
  // from, into the branches that are erased; it does not exactly when the heads that are reached get
  // the same answers.

  import opened ClassLookAhead
  import opened NestingValues
  import opened Wrappers

  // ---------------------------------------------------------------- reading a well-nested file

  /** The items with every line as it is recognised in the file; the lines after them are given. */
  ghost function Resolved(items: Items, after: seq<Line>): Items
    decreases items
  {
    match items
    case Nil => Nil
    case Cons(CodeLine(line), tail) =>
      Cons(CodeLine(Recognised([line] + (Lines(tail) + after))), Resolved(tail, after))
    case Cons(Region(open, first, others, close), tail) =>
      var end := [close] + (Lines(tail) + after);
      var inside := BranchLines(others) + end;
      Cons(Region(Recognised([open] + (Lines(first) + inside)), Resolved(first, inside),
                  ResolvedBranches(others, end), Recognised(end)),
           Resolved(tail, after))
  }

  ghost function ResolvedBranches(branches: Branches, after: seq<Line>): Branches
    decreases branches
  {
    match branches
    case NoBranch => NoBranch
    case Branch(head, body, more) =>
      var rest := BranchLines(more) + after;
      Branch(Recognised([head] + (Lines(body) + rest)), Resolved(body, rest), ResolvedBranches(more, after))
  }

  lemma {:induction false} RecogniseFirst(line: Line, rest: seq<Line>)
    ensures Recognise([line] + rest) == [Recognised([line] + rest)] + Recognise(rest)
  {
    assert ([line] + rest)[1..] == rest;
  }

  lemma {:induction false} Assoc(a: seq<Line>, b: seq<Line>, c: seq<Line>)
    ensures a + b + c == a + (b + c)
  {
  }

  lemma {:induction false} ResolvedLines(items: Items, after: seq<Line>)
    ensures Recognise(Lines(items) + after) == Lines(Resolved(items, after)) + Recognise(after)
    ensures WellFormed(items) ==> WellFormed(Resolved(items, after))
    decreases items, 1
  {
    match items
    case Nil =>
      assert [] + after == after;
      assert [] + Recognise(after) == Recognise(after);
    case Cons(CodeLine(line), tail) =>
      ResolvedLines(tail, after);
      Assoc([line], Lines(tail), after);
      RecogniseFirst(line, Lines(tail) + after);
      Assoc([Recognised([line] + (Lines(tail) + after))], Lines(Resolved(tail, after)), Recognise(after));
    case Cons(_, _) => ResolvedRegion(items, after);
  }

  lemma {:induction false} ResolvedRegion(items: Items, after: seq<Line>)
    requires items.Cons? && items.head.Region?
    ensures Recognise(Lines(items) + after) == Lines(Resolved(items, after)) + Recognise(after)
    ensures WellFormed(items) ==> WellFormed(Resolved(items, after))
    decreases items, 0
  {
    var Cons(Region(open, first, others, close), tail) := items;
    var end := [close] + (Lines(tail) + after);
    var inside := BranchLines(others) + end;
    ResolvedLines(tail, after);
    RecogniseFirst(close, Lines(tail) + after);
    ResolvedBranchLines(others, end);
    ResolvedLines(first, inside);
    RecogniseFirst(open, Lines(first) + inside);
    var (o, a, b, c, t) := ([Recognised([open] + (Lines(first) + inside))], Lines(Resolved(first, inside)),
                            BranchLines(ResolvedBranches(others, end)), [Recognised(end)],
                            Lines(Resolved(tail, after)));
    JoinFive([open], Lines(first), BranchLines(others), [close], Lines(tail), after);
    JoinFive(o, a, b, c, t, Recognise(after));
  }

  lemma {:induction false} JoinFive(o: seq<Line>, a: seq<Line>, b: seq<Line>, c: seq<Line>, t: seq<Line>, u: seq<Line>)
    ensures o + a + b + c + t + u == o + (a + (b + (c + (t + u))))
  {
  }

  lemma {:induction false} ResolvedBranchLines(branches: Branches, after: seq<Line>)
    ensures Recognise(BranchLines(branches) + after)
         == BranchLines(ResolvedBranches(branches, after)) + Recognise(after)
    ensures WellFormedBranches(branches) ==> WellFormedBranches(ResolvedBranches(branches, after))
    decreases branches, 1
  {
    match branches
    case NoBranch =>
      assert [] + after == after;
      assert [] + Recognise(after) == Recognise(after);
    case Branch(head, body, more) =>
      var rest := BranchLines(more) + after;
      ResolvedBranchLines(more, after);
      ResolvedLines(body, rest);
      RecogniseFirst(head, Lines(body) + rest);
      JoinThree([head], Lines(body), BranchLines(more), after);
      JoinThree([Recognised([head] + (Lines(body) + rest))], Lines(Resolved(body, rest)),
                BranchLines(ResolvedBranches(more, after)), Recognise(after));
  }

  lemma {:induction false} JoinThree(h: seq<Line>, a: seq<Line>, b: seq<Line>, u: seq<Line>)
    ensures h + a + b + u == h + (a + (b + u))
  {
  }

  // ---------------------------------------------------------------- the lines that count

  /** What lines of code do, with nothing said about the preprocessor. */
  ghost function RunCode(s: seq<Block>, lines: seq<Line>): seq<Block>
    decreases |lines|
  {
    if lines == [] then s else RunCode(Code(s, lines[0]), lines[1..])
  }

  lemma {:induction false} RunCodeJoin(s: seq<Block>, a: seq<Line>, b: seq<Line>)
    ensures RunCode(s, a + b) == RunCode(RunCode(s, a), b)
    decreases |a|
  {
    if a == [] {
      assert a + b == b;
    } else {
      assert (a + b)[1..] == a[1..] + b;
      RunCodeJoin(Code(s, a[0]), a[1..], b);
    }
  }

  lemma {:induction false} RunCodeOne(s: seq<Block>, line: Line)
    ensures RunCode(s, [line]) == Code(s, line)
  {
    assert [line][1..] == [];
  }

  /** The meaning of items is that of the lines of their first branches, one after the other. */
  lemma {:induction false} MeaningIsCode(s: seq<Block>, items: Items)
    ensures Meaning(s, items) == RunCode(s, Lines(FirstBranches(items)))
    decreases items
  {
    match items
    case Nil =>
    case Cons(CodeLine(line), tail) =>
      MeaningIsCode(Code(s, line), tail);
      RunCodeJoin(s, [line], Lines(FirstBranches(tail)));
      RunCodeOne(s, line);
    case Cons(Region(open, first, _, close), tail) =>
      var (a, t) := (Lines(FirstBranches(first)), Lines(FirstBranches(tail)));
      var s1 := Code(s, open);
      var s2 := Meaning(s1, first);
      MeaningIsCode(s1, first);
      MeaningIsCode(Code(s2, close), tail);
      assert Lines(FirstBranches(items)) == [open] + a + [close] + t;
      RunCodeJoin(s, [open] + a + [close], t);
      RunCodeJoin(s, [open] + a, [close]);
      RunCodeJoin(s, [open], a);
      RunCodeOne(s, open);
      RunCodeOne(s2, close);
  }

  /** The lines of the first branches, as they are recognised in the whole file. */
  ghost function KeptInFile(items: Items): seq<Line> {
    Lines(FirstBranches(Resolved(items, [])))
  }

  /** The same lines, as they are recognised once the others have been erased. */
  ghost function KeptAlone(items: Items): seq<Line> {
    Recognise(Lines(FirstBranches(items)))
  }

  /** Equal but for what reading ahead found. */
  ghost predicate SameLines(a: seq<Line>, b: seq<Line>) {
    |a| == |b| && forall i :: 0 <= i < |a| ==> a[i] == b[i].(ahead := a[i].ahead)
  }

  lemma {:induction false} SameJoin(a: seq<Line>, b: seq<Line>, c: seq<Line>, d: seq<Line>)
    requires SameLines(a, b) && SameLines(c, d)
    ensures SameLines(a + c, b + d)
  {
  }

  lemma {:induction false} SameOne(a: Line, b: Line)
    requires a == b.(ahead := a.ahead)
    ensures SameLines([a], [b])
  {
  }

  lemma {:induction false} ResolvedSame(items: Items, after: seq<Line>)
    ensures SameLines(Lines(FirstBranches(Resolved(items, after))), Lines(FirstBranches(items)))
    decreases items
  {
    match items
    case Nil =>
    case Cons(CodeLine(line), tail) =>
      ResolvedSame(tail, after);
      var seen := Recognised([line] + (Lines(tail) + after));
      SameOne(seen, line);
      SameJoin([seen], [line], Lines(FirstBranches(Resolved(tail, after))), Lines(FirstBranches(tail)));
    case Cons(Region(open, first, others, close), tail) =>
      var end := [close] + (Lines(tail) + after);
      var inside := BranchLines(others) + end;
      ResolvedSame(first, inside);
      ResolvedSame(tail, after);
      var (o, c) := (Recognised([open] + (Lines(first) + inside)), Recognised(end));
      var (a, a1) := (Lines(FirstBranches(Resolved(first, inside))), Lines(FirstBranches(first)));
      SameOne(o, open);
      SameOne(c, close);
      SameJoin([o], [open], a, a1);
      SameJoin([o] + a, [open] + a1, [c], [close]);
      SameJoin(
        [o] + a + [c], [open] + a1 + [close],
        Lines(FirstBranches(Resolved(tail, after))), Lines(FirstBranches(tail)));
      assert [open] + a1 + [] + [close] == [open] + a1 + [close];
      assert [o] + a + [] + [c] == [o] + a + [c];
  }

  lemma {:induction false} RecogniseSame(lines: seq<Line>)
    ensures SameLines(Recognise(lines), lines)
  {
    if lines != [] {
      RecogniseSame(lines[1..]);
      SameOne(Recognised(lines), lines[0]);
      SameJoin([Recognised(lines)], [lines[0]], Recognise(lines[1..]), lines[1..]);
      assert [lines[0]] + lines[1..] == lines;
    }
  }

  /** A file without other branches is recognised as it is. */
  lemma {:induction false} OnlyFirst(items: Items, after: seq<Line>)
    ensures FirstBranches(Resolved(FirstBranches(items), after)) == Resolved(FirstBranches(items), after)
    decreases items
  {
    match items
    case Nil =>
    case Cons(CodeLine(_), tail) => OnlyFirst(tail, after);
    case Cons(Region(_, first, _, close), tail) =>
      OnlyFirst(first, [] + ([close] + (Lines(FirstBranches(tail)) + after)));
      OnlyFirst(tail, after);
  }

  /** A whole file and its erased form both do what their kept lines do. */
  lemma {:induction false} FileRun(s: State, items: Items)
    requires WellFormed(items)
    ensures Run(s, Recognise(Lines(items))) == State(RunCode(s.stack, KeptInFile(items)), s.pp)
    ensures Run(s, Recognise(Lines(FirstBranches(items)))) == State(RunCode(s.stack, KeptAlone(items)), s.pp)
  {
    ResolvedRun(s, items);
    var kept := FirstBranches(items);
    MeaningOfFirst(s.stack, items);
    ResolvedRun(s, kept);
    OnlyFirst(items, []);
    ResolvedLines(kept, []);
    NothingAfter(kept);
  }

  lemma {:induction false} NothingAfter(items: Items)
    ensures Lines(items) + [] == Lines(items)
    ensures Lines(Resolved(items, [])) + Recognise([]) == Lines(Resolved(items, []))
  {
  }

  lemma {:induction false} ResolvedRun(s: State, items: Items)
    requires WellFormed(items)
    ensures Run(s, Recognise(Lines(items))) == State(RunCode(s.stack, KeptInFile(items)), s.pp)
  {
    ResolvedLines(items, []);
    NothingAfter(items);
    RunMeaning(s, Resolved(items, []));
    MeaningIsCode(s.stack, Resolved(items, []));
  }

  // ---------------------------------------------------------------- when the answers are the same

  /** The class head of a line is looked at: no parenthesis is open in the innermost block. */
  ghost predicate Reached(s: seq<Block>, line: Line) {
    var t := PushNamespaces(CountParens(s, line), line.number, line.namespaces);
    line.classHead.Some? && (t == [] || Top(t).openParentheses == 0)
  }

  /** A head that is reached gets the same answers: whether it is in a template argument list, and
      if it is not, the last line of the class. */
  ghost predicate SameAnswer(s: seq<Block>, a: Line, b: Line) {
    Reached(s, a) ==>
      && a.ahead.inTemplate == b.ahead.inTemplate
      && (!a.ahead.inTemplate ==> a.ahead.lastLine == b.ahead.lastLine)
  }

  ghost predicate SameAnswers(s: seq<Block>, a: seq<Line>, b: seq<Line>)
    requires |a| == |b|
    decreases |a|
  {
    a == [] || (SameAnswer(s, a[0], b[0]) && SameAnswers(Code(s, a[0]), a[1..], b[1..]))
  }

  /** The stacks right after the heads of each line. */
  ghost function HeadStacks(s: seq<Block>, lines: seq<Line>): seq<seq<Block>>
    decreases |lines|
  {
    if lines == [] then [] else [Heads(s, lines[0])] + HeadStacks(Code(s, lines[0]), lines[1..])
  }

  lemma {:induction false} OneAnswer(s: seq<Block>, a: Line, b: Line)
    requires a == b.(ahead := a.ahead)
    ensures Heads(s, a) == Heads(s, b) <==> SameAnswer(s, a, b)
    ensures SameAnswer(s, a, b) ==> Code(s, a) == Code(s, b)
  {
    var t := PushNamespaces(CountParens(s, a), a.number, a.namespaces);
    assert t == PushNamespaces(CountParens(s, b), b.number, b.namespaces);
    if Reached(s, a) {
      if !a.ahead.inTemplate {
        assert PushClass(t, a)[|t|] == NewClass(a.number, a.classHead.value, a.ahead.lastLine);
      }
      if !b.ahead.inTemplate {
        assert PushClass(t, b)[|t|] == NewClass(b.number, b.classHead.value, b.ahead.lastLine);
      }
    }
    assert SetAccess(CheckBegin(Heads(s, a), a), HeadsRest(s, a))
        == SetAccess(CheckBegin(Heads(s, a), b), HeadsRest(s, a));
  }

  lemma {:induction false} AnswersExact(s: seq<Block>, a: seq<Line>, b: seq<Line>)
    requires SameLines(a, b)
    ensures HeadStacks(s, a) == HeadStacks(s, b) <==> SameAnswers(s, a, b)
    ensures SameAnswers(s, a, b) ==> RunCode(s, a) == RunCode(s, b)
    decreases |a|
  {
    if a != [] {
      OneAnswer(s, a[0], b[0]);
      var (x, y) := (HeadStacks(s, a), HeadStacks(s, b));
      assert x[0] == Heads(s, a[0]) && y[0] == Heads(s, b[0]);
      if SameAnswer(s, a[0], b[0]) {
        AnswersExact(Code(s, a[0]), a[1..], b[1..]);
        assert x[1..] == HeadStacks(Code(s, a[0]), a[1..]) && y[1..] == HeadStacks(Code(s, b[0]), b[1..]);
      }
    }
  }

  lemma {:induction false} KeptAreSame(items: Items)
    ensures SameLines(KeptInFile(items), KeptAlone(items))
  {
    ResolvedSame(items, []);
    RecogniseSame(Lines(FirstBranches(items)));
  }

  /** Erasing every branch but the first leaves the stack after the heads of each kept line as it
      was, if and only if every class head that is reached in a first branch is read ahead from with
      the same answers; the two runs then end in the same state.  The preprocessor stack is
      restored in any case. */
  lemma {:induction false} ErasingOtherBranches(s: State, items: Items)
    requires WellFormed(items)
    ensures SameLines(KeptInFile(items), KeptAlone(items))
    ensures HeadStacks(s.stack, KeptInFile(items)) == HeadStacks(s.stack, KeptAlone(items))
       <==> SameAnswers(s.stack, KeptInFile(items), KeptAlone(items))
    ensures SameAnswers(s.stack, KeptInFile(items), KeptAlone(items)) ==>
              Run(s, Recognise(Lines(items))) == Run(s, Recognise(Lines(FirstBranches(items))))
    ensures Run(s, Recognise(Lines(items))).pp == s.pp == Run(s, Recognise(Lines(FirstBranches(items)))).pp
  {
    FileRun(s, items);
    KeptAreSame(items);
    AnswersExact(s.stack, KeptInFile(items), KeptAlone(items));
  }
}
