/** cpplint's NestingState as it is written. */
module NestingState {
  // A stack of block objects that are mutated in place, and a stack of preprocessor records holding
  // deep copies of it.  Every method is proved against NestingValues; what makes that possible is that
  // the copies stay isolated from the live stack.

  import opened Wrappers
  import opened ClassLookAhead
  import opened Sequences
  import V = NestingValues

  class BlockInfo {
    const kind: V.Kind
    const startingLine: nat
    var seenOpenBrace: bool
    var openParentheses: int
    var inlineAsm: V.Asm
    var access: string
    var isDerived: bool

    ghost function Value(): V.Block
      reads this
    {
      V.Block(kind, startingLine, seenOpenBrace, openParentheses, inlineAsm, access, isDerived)
    }

    constructor (value: V.Block)
      ensures Value() == value
    {
      kind := value.kind;
      startingLine := value.startingLine;
      seenOpenBrace := value.seenOpenBrace;
      openParentheses := value.openParentheses;
      inlineAsm := value.inlineAsm;
      access := value.access;
      isDerived := value.isDerived;
    }

    constructor CopyOf(other: BlockInfo)
      ensures Value() == other.Value()
    {
      kind := other.kind;
      startingLine := other.startingLine;
      seenOpenBrace := other.seenOpenBrace;
      openParentheses := other.openParentheses;
      inlineAsm := other.inlineAsm;
      access := other.access;
      isDerived := other.isDerived;
    }
  }

  ghost function Values(blocks: seq<BlockInfo>): (s: seq<V.Block>)
    reads blocks
    ensures |s| == |blocks|
    ensures forall k :: 0 <= k < |blocks| ==> s[k] == blocks[k].Value()
  {
    seq(|blocks|, k requires 0 <= k < |blocks| reads blocks => blocks[k].Value())
  }

  /** copy.deepcopy of a stack. */
  method DeepCopy(blocks: seq<BlockInfo>) returns (copy: seq<BlockInfo>)
    ensures Values(copy) == Values(blocks)
    ensures NoDuplicates(copy) && forall b :: b in copy ==> fresh(b)
  {
    copy := [];
    for i := 0 to |blocks|
      invariant |copy| == i && NoDuplicates(copy) && forall b :: b in copy ==> fresh(b)
      invariant forall k :: 0 <= k < i ==> copy[k].Value() == blocks[k].Value()
    {
      var b := new BlockInfo.CopyOf(blocks[i]);
      copy := copy + [b];
    }
  }

  /** Checkpoint of the nesting stack, taken at #if and at the first #else. */
  class PreprocessorInfo {
    const stackBeforeIf: seq<BlockInfo>
    var stackBeforeElse: seq<BlockInfo>
    var seenElse: bool
    ghost var repr: set<object>   // the blocks it holds

    ghost predicate Is(snapshot: V.Snapshot)
      reads this, repr
    {
      && (forall b :: b in stackBeforeIf ==> b in repr)
      && (forall b :: b in stackBeforeElse ==> b in repr)
      && NoDuplicates(stackBeforeElse)
      && snapshot == V.Snapshot(Values(stackBeforeIf), Values(stackBeforeElse), seenElse)
    }

    constructor (stackBeforeIf: seq<BlockInfo>)
      ensures Is(V.Snapshot(Values(stackBeforeIf), [], false))
      ensures forall b :: b in repr ==> b in stackBeforeIf
    {
      this.stackBeforeIf := stackBeforeIf;
      stackBeforeElse := [];
      seenElse := false;
      repr := set b: BlockInfo | b in stackBeforeIf;
    }

    method Keep(kept: seq<BlockInfo>, ghost values: seq<V.Block>, ghost snapshot: V.Snapshot)
      requires Is(snapshot) && NoDuplicates(kept) && Values(kept) == values
      modifies this
      ensures Is(V.Snapshot(snapshot.beforeIf, values, true))
      ensures forall b :: b in repr ==> b in old(repr) || b in set b: BlockInfo | b in kept
    {
      seenElse := true;
      stackBeforeElse := kept;
      repr := set b: BlockInfo | b in stackBeforeIf + kept;
    }
  }

  /** _PreprocessorInfo(copy.deepcopy(stack)) */
  method Checkpoint(stack: seq<BlockInfo>) returns (info: PreprocessorInfo)
    ensures fresh(info) && fresh(info.repr)
    ensures info.Is(V.Snapshot(Values(stack), [], false))
  {
    var copy := DeepCopy(stack);
    info := new PreprocessorInfo(copy);
  }

  /** The records have these values, and live on disjoint parts of owned. */
  ghost predicate Records(infos: seq<PreprocessorInfo>, snapshots: seq<V.Snapshot>, owned: set<object>)
    reads owned
  {
    && |infos| == |snapshots|
    && (infos == [] ||
        var n := |infos| - 1;
        && infos[n] in owned && infos[n].repr <= owned
        && infos[n].Is(snapshots[n])
        && Records(infos[..n], snapshots[..n], owned - {infos[n]} - infos[n].repr))
  }

  lemma {:induction false} RecordsPush(
      infos: seq<PreprocessorInfo>, snapshots: seq<V.Snapshot>, owned: set<object>,
      info: PreprocessorInfo, snapshot: V.Snapshot)
    requires Records(infos, snapshots, owned) && info.Is(snapshot)
    requires info !in owned && info.repr !! owned
    ensures Records(infos + [info], snapshots + [snapshot], owned + {info} + info.repr)
  {
    assert (infos + [info])[..|infos|] == infos && (snapshots + [snapshot])[..|infos|] == snapshots;
    assert owned + {info} + info.repr - {info} - info.repr == owned;
  }

  class NestingState {
    var stack: seq<BlockInfo>
    var previousStackTop: BlockInfo?
    var ppStack: seq<PreprocessorInfo>
    ghost var snapshots: seq<V.Snapshot>   // the values of the records on ppStack
    ghost var owned: set<object>           // the records on ppStack and the blocks they hold

    /** No block of the live stack, and none that may become live again, is held anywhere else. */
    ghost predicate Valid()
      reads this, owned
    {
      && this !in owned
      && NoDuplicates(stack) && (forall b :: b in stack ==> b !in owned)
      && Records(ppStack, snapshots, owned)
    }

    ghost function Value(): V.State
      reads this, stack
    {
      V.State(Values(stack), snapshots)
    }

    constructor ()
      ensures Valid() && stack == [] && ppStack == [] && previousStackTop == null
      ensures owned == {} && snapshots == []
    {
      stack := [];
      previousStackTop := null;
      ppStack := [];
      snapshots := [];
      owned := {};
    }

    method BeginIf()
      requires Valid()
      modifies this`ppStack, this`snapshots, this`owned
      ensures Valid() && fresh(owned - old(owned))
      ensures Value() == V.Preprocess(old(Value()), V.If)
    {
      var info := Checkpoint(stack);
      Append(info, V.Snapshot(Values(stack), [], false));
    }

    method Append(info: PreprocessorInfo, ghost last: V.Snapshot)
      requires Valid() && info.Is(last) && info !in owned && info.repr !! owned && this !in info.repr
      requires forall b :: b in stack ==> b !in info.repr
      modifies this`ppStack, this`snapshots, this`owned
      ensures Valid() && owned == old(owned) + {info} + info.repr && snapshots == old(snapshots) + [last]
    {
      RecordsPush(ppStack, snapshots, owned, info, last);
      ppStack := ppStack + [info];
      snapshots := snapshots + [last];
      owned := owned + {info} + info.repr;
    }

    method BeginElse()
      requires Valid()
      modifies this`stack, this`snapshots, this`owned, owned
      ensures Valid() && fresh(owned - old(owned))
      ensures Value() == V.Preprocess(old(Value()), V.Else)
      ensures forall b :: b in stack ==> b in old(stack) || fresh(b)
    {
      if ppStack != [] {
        if !ppStack[|ppStack| - 1].seenElse {
          KeepStack();
        }
        RestoreStack();
      }
    }

    /** The stack is again what it was before the #if, in fresh copies. */
    method RestoreStack()
      requires Valid() && ppStack != []
      modifies this`stack
      ensures Valid() && forall b :: b in stack ==> fresh(b)
      ensures Value() == V.State(snapshots[|ppStack| - 1].beforeIf, snapshots)
    {
      stack := DeepCopy(ppStack[|ppStack| - 1].stackBeforeIf);
    }

    /** The first #else: keep a copy of the whole stack. */
    method KeepStack()
      requires Valid() && ppStack != []
      modifies this`snapshots, this`owned, ppStack[|ppStack| - 1]
      ensures Valid() && fresh(owned - old(owned))
      ensures var n := |old(snapshots)| - 1;
              snapshots == old(snapshots)[n := V.Snapshot(old(snapshots)[n].beforeIf, old(Values(stack)), true)]
    {
      var kept := DeepCopy(stack);
      ReplaceKept(kept, old(Values(stack)));
    }

    method ReplaceKept(kept: seq<BlockInfo>, ghost values: seq<V.Block>)
      requires Valid() && ppStack != [] && NoDuplicates(kept) && Values(kept) == values
      requires forall b :: b in kept ==> b !in stack && b !in owned
      modifies this`snapshots, this`owned, ppStack[|ppStack| - 1]
      ensures Valid() && forall x :: x in owned ==> x in old(owned) || x in (set b: BlockInfo | b in kept)
      ensures var n := |old(snapshots)| - 1;
              snapshots == old(snapshots)[n := V.Snapshot(old(snapshots)[n].beforeIf, values, true)]
    {
      var top := ppStack[|ppStack| - 1];
      ghost var n := |snapshots| - 1;
      ghost var last := V.Snapshot(snapshots[n].beforeIf, values, true);
      ghost var rest := owned - {top} - top.repr;
      top.Keep(kept, values, snapshots[n]);
      RecordsPush(ppStack[..n], snapshots[..n], rest, top, last);
      assert ppStack[..n] + [top] == ppStack;
      snapshots := snapshots[..n] + [last];
      owned := rest + {top} + top.repr;
    }

    method EndIf()
      requires Valid()
      modifies this`stack, this`ppStack, this`snapshots, this`owned
      ensures Valid() && owned <= old(owned)
      ensures Value() == V.Preprocess(old(Value()), V.Endif)
      ensures forall b :: b in stack ==> b in old(stack) || b in old(owned)
    {
      if ppStack != [] {
        var top := ppStack[|ppStack| - 1];
        if top.seenElse {
          stack := top.stackBeforeElse;
        }
        ppStack := ppStack[..|ppStack| - 1];
        snapshots := snapshots[..|snapshots| - 1];
        owned := owned - {top} - top.repr;
      }
    }

    method UpdatePreprocessor(directive: V.Directive)
      requires Valid()
      modifies this`stack, this`ppStack, this`snapshots, this`owned, owned
      ensures Valid() && fresh(owned - old(owned))
      ensures Value() == V.Preprocess(old(Value()), directive)
      ensures forall k :: 0 <= k < |stack| ==> stack[k] in old(stack) || stack[k] in old(owned) || fresh(stack[k])
    {
      match directive
      case If => BeginIf();
      case Else => BeginElse();
      case Endif => EndIf();
      case NoDirective =>
    }

    // ---------------------------------------------------------------- code on a line

    /** Count parentheses, and enter or leave an inline assembly block. */
    method CountParentheses(line: V.Line)
      requires NoDuplicates(stack)
      modifies stack
      ensures Values(stack) == V.CountParens(old(Values(stack)), line)
    {
      if stack != [] {
        ghost var before := Values(stack);
        var inner := stack[|stack| - 1];
        inner.openParentheses := inner.openParentheses + line.parens;
        if inner.inlineAsm == V.NoAsm || inner.inlineAsm == V.EndAsm {
          if line.parens != 0 && inner.openParentheses == 1 && line.asm {
            inner.inlineAsm := V.InsideAsm;
          } else {
            inner.inlineAsm := V.NoAsm;
          }
        } else if inner.inlineAsm == V.InsideAsm && inner.openParentheses == 0 {
          inner.inlineAsm := V.EndAsm;
        }
        assert Values(stack) == V.WithTop(before, inner.Value());
      }
    }

    method PushNamespaces(line: V.Line)
      requires NoDuplicates(stack)
      modifies this`stack
      ensures NoDuplicates(stack) && forall b :: b in stack ==> b in old(stack) || fresh(b)
      ensures Values(stack) == V.PushNamespaces(old(Values(stack)), line.number, line.namespaces)
    {
      ghost var goal := V.PushNamespaces(Values(stack), line.number, line.namespaces);
      var heads := line.namespaces;
      while heads != []
        invariant NoDuplicates(stack) && forall b :: b in stack ==> b in old(stack) || fresh(b)
        invariant V.PushNamespaces(Values(stack), line.number, heads) == goal
        decreases |heads|
      {
        var block := new BlockInfo(V.NewNamespace(line.number, heads[0]));
        ghost var before := Values(stack);
        stack := stack + [block];
        assert Values(stack) == before + [block.Value()];
        heads := heads[1..];
      }
    }

    /** A class head is read ahead from; seen is its line with what is found. */
    method PushClass(lines: seq<V.Line>, ghost seen: V.Line) returns (rest: V.Rest)
      requires NoDuplicates(stack) && lines != [] && seen == V.Recognised(lines)
      modifies this`stack
      ensures NoDuplicates(stack) && forall b :: b in stack ==> b in old(stack) || fresh(b)
      ensures Values(stack) == V.PushClass(old(Values(stack)), seen)
      ensures rest == V.RestOf(old(Values(stack)), seen)
    {
      var line := lines[0];
      rest := line.rest;
      if line.classHead.Some? && (stack == [] || stack[|stack| - 1].openParentheses == 0) {
        var inside := IsInTemplate(lines);
        if !inside {
          var lastLine := FindLastLine(lines);
          var block := new BlockInfo(V.NewClass(line.number, line.classHead.value, lastLine));
          stack := stack + [block];
          rest := line.classHead.value.rest;
        }
      }
    }

    predicate SeenOpenBrace()
      reads this, stack
    {
      stack == [] || stack[|stack| - 1].seenOpenBrace
    }

    /** A class that still waits for its brace learns whether it is derived. */
    method CheckBegin(line: V.Line)
      requires NoDuplicates(stack)
      modifies stack
      ensures Values(stack) == V.CheckBegin(old(Values(stack)), line)
    {
      if !SeenOpenBrace() {
        var top := stack[|stack| - 1];
        if top.kind.Class? && line.bareColon {
          ghost var before := Values(stack);
          top.isDerived := true;
          assert Values(stack) == V.WithTop(before, top.Value());
        }
      }
    }

    method SetAccess(rest: V.Rest)
      requires NoDuplicates(stack)
      modifies stack
      ensures Values(stack) == V.SetAccess(old(Values(stack)), rest)
    {
      if stack != [] {
        var top := stack[|stack| - 1];
        if top.kind.Class? && rest.access.Some? {
          ghost var before := Values(stack);
          top.access := rest.access.value;
          assert Values(stack) == V.WithTop(before, top.Value());
        }
      }
    }

    method ConsumeToken(number: nat, token: V.Token)
      requires NoDuplicates(stack)
      modifies this`stack, stack
      ensures NoDuplicates(stack) && forall b :: b in stack ==> b in old(stack) || fresh(b)
      ensures Values(stack) == V.ConsumeOne(old(Values(stack)), number, token)
    {
      match token
      case OpenBrace(externC, asm) =>
        if !SeenOpenBrace() {
          var top := stack[|stack| - 1];
          ghost var before := Values(stack);
          top.seenOpenBrace := true;
          assert Values(stack) == V.WithTop(before, top.Value());
        } else {
          var block := new BlockInfo(V.NewBlock(number, token));
          stack := stack + [block];
        }
      case CloseBrace =>
        if stack != [] {
          stack := stack[..|stack| - 1];
        }
      case Semicolon =>
        if !SeenOpenBrace() { stack := stack[..|stack| - 1]; }
      case CloseParen =>
        if !SeenOpenBrace() { stack := stack[..|stack| - 1]; }
    }

    method ConsumeTokens(number: nat, tokens: seq<V.Token>)
      requires NoDuplicates(stack)
      modifies this`stack, stack
      ensures NoDuplicates(stack) && forall b :: b in stack ==> b in old(stack) || fresh(b)
      ensures Values(stack) == V.Consume(old(Values(stack)), number, tokens)
    {
      ghost var goal := V.Consume(Values(stack), number, tokens);
      var left := tokens;
      while left != []
        invariant NoDuplicates(stack) && forall b :: b in stack ==> b in old(stack) || fresh(b)
        invariant V.Consume(Values(stack), number, left) == goal
        decreases |left|
      {
        assert forall k :: 0 <= k < |stack| ==> stack[k] in old(stack) || fresh(stack[k]);
        ConsumeToken(number, left[0]);
        left := left[1..];
      }
    }

    method ReadHeads(lines: seq<V.Line>, ghost seen: V.Line) returns (rest: V.Rest)
      requires NoDuplicates(stack) && lines != [] && seen == V.Recognised(lines)
      requires seen == lines[0].(ahead := seen.ahead)
      modifies this`stack, stack
      ensures NoDuplicates(stack) && forall b :: b in stack ==> b in old(stack) || fresh(b)
      ensures Values(stack) == V.Heads(old(Values(stack)), seen)
      ensures rest == V.HeadsRest(old(Values(stack)), seen)
    {
      CountAndPush(lines[0], seen);
      rest := PushClass(lines, seen);
    }

    method CountAndPush(line: V.Line, ghost seen: V.Line)
      requires NoDuplicates(stack) && seen == line.(ahead := seen.ahead)
      modifies this`stack, stack
      ensures NoDuplicates(stack) && forall b :: b in stack ==> b in old(stack) || fresh(b)
      ensures Values(stack) == V.PushNamespaces(V.CountParens(old(Values(stack)), seen), seen.number, seen.namespaces)
    {
      CountParentheses(line);
      PushNamespaces(line);
    }

    method ReadBody(line: V.Line, rest: V.Rest)
      requires NoDuplicates(stack)
      modifies this`stack, stack
      ensures NoDuplicates(stack) && forall b :: b in stack ==> b in old(stack) || fresh(b)
      ensures Values(stack) == V.Body(old(Values(stack)), line, rest)
    {
      CheckBegin(line);
      SetAccess(rest);
      ConsumeTokens(line.number, rest.tokens);
    }

    method ReadLine(lines: seq<V.Line>)
      requires NoDuplicates(stack) && lines != []
      modifies this`stack, stack
      ensures NoDuplicates(stack) && forall b :: b in stack ==> b in old(stack) || fresh(b)
      ensures Values(stack) == V.Code(old(Values(stack)), V.Recognised(lines))
    {
      var rest := ReadHeads(lines, V.Recognised(lines));
      assert forall k :: 0 <= k < |stack| ==> stack[k] in old(stack) || fresh(stack[k]);
      ReadBody(lines[0], rest);
    }

    /** Reading a line leaves every record as it was: the live blocks are held by none. */
    method UpdateCode(lines: seq<V.Line>)
      requires Valid() && lines != []
      modifies this`stack, stack
      ensures Valid()
      ensures Value() == V.UpdateCode(old(Value()), V.Recognised(lines))
      ensures forall k :: 0 <= k < |stack| ==> stack[k] in old(stack) || fresh(stack[k])
    {
      ReadLine(lines);
    }

    // ---------------------------------------------------------------- lines and files

    /** The lines are the file from the current line on. */
    method Update(lines: seq<V.Line>)
      requires Valid() && lines != []
      modifies this, owned, stack
      ensures Valid() && fresh(owned - old(owned))
      ensures Value() == V.Update(old(Value()), V.Recognised(lines))
      ensures forall k :: 0 <= k < |stack| ==> stack[k] in old(stack) || stack[k] in old(owned) || fresh(stack[k])
      ensures previousStackTop == if old(stack) == [] then null else old(stack[|stack| - 1])
    {
      previousStackTop := if stack != [] then stack[|stack| - 1] else null;
      UpdatePreprocessor(lines[0].directive);
      assert Value() == V.Preprocess(old(Value()), V.Recognised(lines).directive);
      ghost var middle, copies := stack, owned;
      assert fresh(copies - old(owned));
      assert forall b :: b in middle ==> b in old(stack) || b in old(owned) || fresh(b);
      UpdateCode(lines);
      assert owned == copies;
    }
  }

  method IsInTemplate(lines: seq<V.Line>) returns (inside: bool)
    requires lines != [] && lines[0].classHead.Some?
    ensures inside == V.Recognised(lines).ahead.inTemplate
  {
    inside := InTemplateArgumentList(V.TextOf(lines), lines[0].classHead.value.end);
  }

  /** The search of a new class for its last line, 0 if there is none. */
  method FindLastLine(lines: seq<V.Line>) returns (lastLine: nat)
    requires lines != [] && lines[0].classHead.Some?
    ensures lastLine == V.Recognised(lines).ahead.lastLine
  {
    var last := FindEndOfClass(V.TextOf(lines));
    lastLine := if last.Some? then lines[last.value].number else 0;
  }

  /** The loop over a file: a new state, updated with every line. */
  method ProcessLines(lines: seq<V.Line>) returns (state: NestingState)
    ensures fresh(state) && state.Valid()
    ensures state.Value() == V.Run(V.State([], []), V.Recognise(lines))
  {
    state := new NestingState();
    ghost var goal := V.Run(V.State([], []), V.Recognise(lines));
    var left := lines;
    while left != []
      invariant fresh(state) && state.Valid() && fresh(state.owned)
      invariant forall k :: 0 <= k < |state.stack| ==> fresh(state.stack[k])
      invariant V.Run(state.Value(), V.Recognise(left)) == goal
      decreases |left|
    {
      V.RunOne(state.Value(), V.Recognised(left), V.Recognise(left[1..]));
      state.Update(left);
      assert fresh(state.owned);
      left := left[1..];
    }
  }
}
