/** Heads that wait for their brace, and what a line adds to the stack. */
module NestingHeads {
  // The depth laws of NestingValues are about open blocks.  Here the top of the stack waits for its
  // brace: a semicolon or a closing parenthesis drops it, a brace opens it.  Then what whole lines
  // with and without heads leave, block by block, and when a block is inside assembly.

  import opened NestingValues
  import opened Wrappers

  // ---------------------------------------------------------------- tokens

  ghost predicate Waits(b: Block) { !b.seenOpenBrace }

  ghost function Opened(b: Block): Block { b.(seenOpenBrace := true) }

  lemma {:induction false} ConsumeFirst(s: seq<Block>, number: nat, token: Token, tokens: seq<Token>)
    ensures Consume(s, number, [token] + tokens) == Consume(ConsumeOne(s, number, token), number, tokens)
  {
    assert ([token] + tokens)[1..] == tokens;
  }

  lemma {:induction false} ConsumeBoth(s: seq<Block>, number: nat, a: seq<Token>, b: seq<Token>)
    ensures Consume(s, number, a + b) == Consume(Consume(s, number, a), number, b)
    decreases |a|
  {
    if a == [] {
      assert a + b == b;
    } else {
      assert (a + b)[1..] == a[1..] + b;
      ConsumeBoth(ConsumeOne(s, number, a[0]), number, a[1..], b);
    }
  }

  /** A head that waits on top of any stack: the first token decides what becomes of it. */
  lemma {:induction false} WaitingHead(s: seq<Block>, b: Block, number: nat, token: Token, tokens: seq<Token>)
    requires Waits(b)
    ensures Consume(s + [b], number, [token] + tokens) ==
            Consume(if token.OpenBrace? then s + [Opened(b)] else s, number, tokens)
  {
    ConsumeFirst(s + [b], number, token, tokens);
    assert (s + [b])[..|s|] == s;
    assert (s + [b])[|s| := Opened(b)] == s + [Opened(b)];
  }

  /** A head with a well-nested body comes and goes. */
  lemma {:induction false} HeadWithBody(s: seq<Block>, b: Block, number: nat, open: Token, body: seq<Token>)
    requires AllOpen(s) && Waits(b) && open.OpenBrace? && Net(body) == 0 && Deficit(body) == 0
    ensures Consume(s + [b], number, [open] + body + [CloseBrace]) == s
  {
    var t := s + [Opened(b)];
    assert AllOpen(t);
    assert [open] + body + [CloseBrace] == [open] + (body + [CloseBrace]);
    WaitingHead(s, b, number, open, body + [CloseBrace]);
    ConsumeBoth(t, number, body, [CloseBrace]);
    WellNestedTokens(t, number, body);
    ConsumeFirst(t, number, CloseBrace, []);
    assert [CloseBrace] + [] == [CloseBrace];
    assert t[..|s|] == s;
  }

  /** On an open stack a brace pushes a block of its own. */
  lemma {:induction false} BracePushes(s: seq<Block>, number: nat, externC: bool, asm: bool, tokens: seq<Token>)
    requires s == [] || s[|s| - 1].seenOpenBrace
    ensures Consume(s, number, [OpenBrace(externC, asm)] + tokens) ==
            Consume(s + [Block(if externC then ExternC else Plain, number, true, 0,
                               if asm && !externC then BlockAsm else NoAsm, "", false)], number, tokens)
  {
    ConsumeFirst(s, number, OpenBrace(externC, asm), tokens);
  }

  // ---------------------------------------------------------------- lines without heads

  /** What a line of code does to the block on top before its tokens are read: the parentheses are
      counted, assembly begins or ends, a waiting class may be derived, and an access keyword counts
      for a class. */
  ghost predicate IsBookkept(b: Block, line: Line, rest: Rest, c: Block) {
    && c.kind == b.kind && c.startingLine == b.startingLine && c.seenOpenBrace == b.seenOpenBrace
    && c.openParentheses == b.openParentheses + line.parens
    && IsNextAsm(b.inlineAsm, line.parens, c.openParentheses, line.asm, c.inlineAsm)
    && c.access == (if b.kind.Class? && rest.access.Some? then rest.access.value else b.access)
    && c.isDerived == (b.isDerived || (Waits(b) && b.kind.Class? && line.bareColon))
  }

  /** Assembly begins on a line that starts with asm and opens the first parenthesis, and ends on the
      line that closes the last one; one line later the block is outside again. */
  ghost predicate IsNextAsm(asm: Asm, parens: int, open: int, starts: bool, next: Asm) {
    && (next == BlockAsm <==> asm == BlockAsm)
    && (next == InsideAsm <==>
          || (asm == InsideAsm && open != 0)
          || ((asm == NoAsm || asm == EndAsm) && starts && parens != 0 && open == 1))
    && (next == EndAsm <==> asm == InsideAsm && open == 0)
  }

  ghost predicate NoHeads(line: Line) {
    line.namespaces == [] && line.classHead.None?
  }

  /** The block after the checks of CheckBegin and of the access keyword. */
  ghost function Checked(b: Block, line: Line, rest: Rest): Block {
    b.(isDerived := b.isDerived || (Waits(b) && b.kind.Class? && line.bareColon),
       access := if b.kind.Class? && rest.access.Some? then rest.access.value else b.access)
  }

  lemma {:induction false} OnTop(s: seq<Block>, b: Block, c: Block)
    ensures (s + [b])[|s| := c] == s + [c] && Top(s + [b]) == b && Front(s + [b]) == s
  {
  }

  lemma {:induction false} BodyOn(s: seq<Block>, b: Block, line: Line, rest: Rest)
    ensures Body(s + [b], line, rest) == Consume(s + [Checked(b, line, rest)], line.number, rest.tokens)
  {
    var derived := b.(isDerived := b.isDerived || (Waits(b) && b.kind.Class? && line.bareColon));
    OnTop(s, b, derived);
    OnTop(s, derived, Checked(b, line, rest));
    assert CheckBegin(s + [b], line) == s + [derived];
    assert SetAccess(s + [derived], rest) == s + [Checked(b, line, rest)];
  }

  lemma {:induction false} LineWithoutHeads(s: seq<Block>, b: Block, line: Line) returns (c: Block)
    requires NoHeads(line)
    ensures IsBookkept(b, line, line.rest, c)
    ensures Code(s + [b], line) == Consume(s + [c], line.number, line.rest.tokens)
  {
    var counted := CountIn(b, line);
    c := Checked(counted, line, line.rest);
    OnTop(s, b, counted);
    HeadlessLine(s + [b], line);
    BodyOn(s, counted, line, line.rest);
  }

  lemma {:induction false} HeadlessLine(s: seq<Block>, line: Line)
    requires NoHeads(line)
    ensures Code(s, line) == Body(CountParens(s, line), line, line.rest)
  {
    assert PushNamespaces(CountParens(s, line), line.number, []) == CountParens(s, line);
  }

  lemma {:induction false} LineOnNothing(line: Line)
    requires NoHeads(line)
    ensures Code([], line) == Consume([], line.number, line.rest.tokens)
  {
  }

  /** A head left waiting by an earlier line: the first token of the next line decides. */
  lemma {:induction false} WaitingLine(s: seq<Block>, b: Block, line: Line, token: Token, tokens: seq<Token>)
    returns (c: Block)
    requires NoHeads(line) && Waits(b) && line.rest.tokens == [token] + tokens
    ensures IsBookkept(b, line, line.rest, c)
    ensures Code(s + [b], line) == Consume(if token.OpenBrace? then s + [Opened(c)] else s, line.number, tokens)
  {
    c := LineWithoutHeads(s, b, line);
    WaitingHead(s, c, line.number, token, tokens);
  }

  // ---------------------------------------------------------------- lines with heads

  /** The stack with the parentheses of the line counted in the block on top. */
  ghost predicate IsCounted(s: seq<Block>, line: Line, t: seq<Block>) {
    if s == [] then t == []
    else
      && |t| == |s| && t[..|s| - 1] == s[..|s| - 1]
      && var b, c := s[|s| - 1], t[|s| - 1];
         && c == b.(openParentheses := b.openParentheses + line.parens, inlineAsm := c.inlineAsm)
         && IsNextAsm(b.inlineAsm, line.parens, c.openParentheses, line.asm, c.inlineAsm)
  }

  lemma {:induction false} CountedExact(s: seq<Block>, line: Line)
    ensures IsCounted(s, line, CountParens(s, line))
  {
  }

  /** The class block of an accepted head after the checks on its line. */
  ghost function ClassBlock(line: Line, head: ClassHead): Block {
    Block(Class(head.name, head.isStruct, head.indent, line.ahead.lastLine), line.number, false, 0, NoAsm,
          if head.rest.access.Some? then head.rest.access.value else if head.isStruct then "public" else "private",
          line.bareColon)
  }

  ghost predicate OneClass(line: Line) {
    line.namespaces == [] && line.classHead.Some?
  }

  /** A class head that is not inside parentheses or template arguments puts a block on the stack,
      which waits for what comes next on the line. */
  lemma {:induction false} ClassLine(s: seq<Block>, line: Line) returns (t: seq<Block>)
    requires OneClass(line) && !line.ahead.inTemplate
    requires s == [] || s[|s| - 1].openParentheses + line.parens == 0
    ensures IsCounted(s, line, t)
    ensures Code(s, line) == Consume(t + [ClassBlock(line, line.classHead.value)], line.number,
                                     line.classHead.value.rest.tokens)
  {
    var head := line.classHead.value;
    t := CountParens(s, line);
    CountedExact(s, line);
    assert PushNamespaces(t, line.number, []) == t;
    assert AcceptsClass(t, line);
    BodyOn(t, NewClass(line.number, head, line.ahead.lastLine), line, head.rest);
  }

  /** A forward declaration: a semicolon before any brace leaves the stack to the rest of the line. */
  lemma {:induction false} ForwardDeclaration(s: seq<Block>, line: Line, tokens: seq<Token>) returns (t: seq<Block>)
    requires OneClass(line) && !line.ahead.inTemplate
    requires s == [] || s[|s| - 1].openParentheses + line.parens == 0
    requires line.classHead.value.rest.tokens == [Semicolon] + tokens
    ensures IsCounted(s, line, t) && Code(s, line) == Consume(t, line.number, tokens)
    ensures AllOpen(s) && Net(tokens) == 0 && Deficit(tokens) == 0 ==> Code(s, line) == t
  {
    t := ClassLine(s, line);
    WaitingHead(t, ClassBlock(line, line.classHead.value), line.number, Semicolon, tokens);
    if AllOpen(s) && Net(tokens) == 0 && Deficit(tokens) == 0 {
      CountedOpen(s, line, t);
      WellNestedTokens(t, line.number, tokens);
    }
  }

  lemma {:induction false} CountedOpen(s: seq<Block>, line: Line, t: seq<Block>)
    requires AllOpen(s) && IsCounted(s, line, t)
    ensures AllOpen(t)
  {
    forall k | 0 <= k < |t| ensures t[k].seenOpenBrace {
      if k < |t| - 1 { assert t[k] == t[..|s| - 1][k] == s[..|s| - 1][k]; }
    }
  }

  /** A definition: the brace opens the class. */
  lemma {:induction false} Definition(s: seq<Block>, line: Line, open: Token, tokens: seq<Token>)
    returns (t: seq<Block>)
    requires OneClass(line) && !line.ahead.inTemplate && open.OpenBrace?
    requires s == [] || s[|s| - 1].openParentheses + line.parens == 0
    requires line.classHead.value.rest.tokens == [open] + tokens
    ensures IsCounted(s, line, t)
    ensures Code(s, line) == Consume(t + [Opened(ClassBlock(line, line.classHead.value))], line.number, tokens)
  {
    t := ClassLine(s, line);
    WaitingHead(t, ClassBlock(line, line.classHead.value), line.number, open, tokens);
  }

  /** A class head inside parentheses or template arguments is passed over. */
  lemma {:induction false} NoClass(s: seq<Block>, line: Line)
    requires OneClass(line)
    requires line.ahead.inTemplate || (s != [] && s[|s| - 1].openParentheses + line.parens != 0)
    ensures Code(s, line) == Code(s, line.(classHead := None))
  {
    var t := CountParens(s, line);
    assert t == CountParens(s, line.(classHead := None));
    assert PushNamespaces(t, line.number, []) == t;
  }

  /** One block for each namespace head, which waits unless its brace was seen. */
  lemma {:induction false} NamespacesPushed(s: seq<Block>, number: nat, heads: seq<NamespaceHead>, k: nat)
    requires k < |heads|
    ensures var t := PushNamespaces(s, number, heads);
            && |t| == |s| + |heads| && t[..|s|] == s
            && t[|s| + k] == Block(Namespace(heads[k].name), number, heads[k].sawBrace, 0, NoAsm, "", false)
    decreases |heads|
  {
    var more := s + [NewNamespace(number, heads[0])];
    if |heads| == 1 {
      assert heads[1..] == [];
    } else {
      NamespacesPushed(more, number, heads[1..], if k == 0 then 0 else k - 1);
      var t := PushNamespaces(more, number, heads[1..]);
      assert t[..|more|] == more;
      assert t[|s|] == t[..|more|][|s|];
      assert t[..|s|] == t[..|more|][..|s|];
    }
  }

  lemma {:induction false} NamespaceLine(s: seq<Block>, line: Line) returns (t: seq<Block>)
    requires line.namespaces != [] && line.classHead.None? && !line.rest.access.Some?
    ensures IsCounted(s, line, t)
    ensures Code(s, line) == Consume(PushNamespaces(t, line.number, line.namespaces), line.number, line.rest.tokens)
  {
    t := CountParens(s, line);
    CountedExact(s, line);
    var n := |line.namespaces|;
    NamespacesPushed(t, line.number, line.namespaces, n - 1);
    assert Top(PushNamespaces(t, line.number, line.namespaces)).kind.Namespace?;
  }

  // ---------------------------------------------------------------- assembly over lines

  /** A line without heads, braces and semicolons. */
  ghost predicate IsQuiet(line: Line) {
    NoHeads(line) && line.rest.tokens == []
  }

  ghost predicate AllQuiet(lines: seq<Line>) {
    forall k :: 0 <= k < |lines| ==> IsQuiet(lines[k])
  }

  /** The lines of code, one after the other. */
  ghost function Codes(s: seq<Block>, lines: seq<Line>): seq<Block> {
    if lines == [] then s else Code(Codes(s, lines[..|lines| - 1]), lines[|lines| - 1])
  }

  /** The parentheses open in the block after the first n lines. */
  ghost function OpenAfter(b: Block, lines: seq<Line>, n: nat): int
    requires n <= |lines|
  {
    if n == 0 then b.openParentheses else OpenAfter(b, lines, n - 1) + lines[n - 1].parens
  }

  /** Line j starts with asm and leaves one parenthesis open that was not. */
  ghost predicate AsmStarts(b: Block, lines: seq<Line>, j: nat)
    requires j < |lines|
  {
    lines[j].asm && lines[j].parens != 0 && OpenAfter(b, lines, j + 1) == 1
  }

  /** Some line started assembly, and its parentheses were never closed since. */
  ghost predicate InAsm(b: Block, lines: seq<Line>, n: nat)
    requires n <= |lines|
  {
    exists j :: 0 <= j < n && AsmStarts(b, lines, j) && forall i :: j < i <= n ==> OpenAfter(b, lines, i) != 0
  }

  /** What the block is after the first n lines, from a block that is outside assembly. */
  ghost predicate IsAsmAfter(b: Block, lines: seq<Line>, n: nat, c: Block)
    requires n <= |lines|
  {
    && c.openParentheses == OpenAfter(b, lines, n)
    && c.inlineAsm != BlockAsm
    && (c.inlineAsm == InsideAsm <==> InAsm(b, lines, n))
    && (n > 0 ==> (c.inlineAsm == EndAsm <==> OpenAfter(b, lines, n) == 0 && InAsm(b, lines, n - 1)))
  }

  lemma {:induction false} InAsmNext(b: Block, lines: seq<Line>, n: nat)
    requires n < |lines|
    ensures InAsm(b, lines, n + 1) <==>
            OpenAfter(b, lines, n + 1) != 0 && (InAsm(b, lines, n) || AsmStarts(b, lines, n))
  {
    if InAsm(b, lines, n + 1) {
      var j :| 0 <= j < n + 1 && AsmStarts(b, lines, j) && forall i :: j < i <= n + 1 ==> OpenAfter(b, lines, i) != 0;
      assert j < n ==> InAsm(b, lines, n);
    }
  }

  /** The block is inside assembly after some quiet lines exactly when one of them started it and its
      parentheses have been open since, and assembly ends exactly on the line that closes them. */
  lemma {:induction false} AsmExact(s: seq<Block>, b: Block, lines: seq<Line>, n: nat) returns (c: Block)
    requires n <= |lines| && AllQuiet(lines) && b.inlineAsm == NoAsm
    ensures Codes(s + [b], lines[..n]) == s + [c] && IsAsmAfter(b, lines, n, c)
  {
    if n == 0 {
      c := b;
    } else {
      var last := lines[n - 1];
      var before := AsmExact(s, b, lines, n - 1);
      assert lines[..n][..n - 1] == lines[..n - 1];
      c := LineWithoutHeads(s, before, last);
      assert IsQuiet(last);
      InAsmNext(b, lines, n - 1);
    }
  }
}
