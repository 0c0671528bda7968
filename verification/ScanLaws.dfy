/**
 What the two line scanners do on a whole text.  Everything here holds for any answers of the
 look-behinds: a scan that was started on ( [ or { is the plain scan; what lies under such a
 bracket does not matter until it is closed; a scan of a text is one of its parts after the
 other; and the backward scan is the forward scan of the text seen in a mirror.
 */
module ScanLaws {
  import opened BracketGrammar
  import opened ExpressionScan
  import opened Texts

  // ---------------------------------------------------------------- transparency of < > ;

  /** The stack of a forward scan that was started on ( [ or {. */
  ghost predicate Rooted(s: string) {
    s != [] && if |s| == 1 then IsOpener(s[0]) else Rooted(Front(s)) && (IsOpener(Top(s)) || Top(s) == '<')
  }

  /** What is left of a stack when every '<' is taken out. */
  ghost function Plain(s: string): string {
    if s == [] then [] else Plain(Front(s)) + (if Top(s) == '<' then [] else [Top(s)])
  }

  lemma {:induction false} PlainRooted(s: string)
    requires Rooted(s)
    ensures Plain(s) != []
  {
    if |s| > 1 { PlainRooted(Front(s)); }
    else { assert Front(s) == []; }
  }

  lemma {:induction false} PlainPush(s: string, c: char)
    requires Rooted(s) && (IsOpener(c) || c == '<')
    ensures Rooted(s + [c]) && Plain(s + [c]) == Plain(s) + (if c == '<' then [] else [c])
  {
    assert Front(s + [c]) == s;
  }

  lemma {:induction false} PlainPopAngle(s: string)
    requires Rooted(s) && Top(s) == '<'
    ensures |s| > 1 && Rooted(Front(s)) && Plain(Front(s)) == Plain(s)
  {
  }

  /** Dropping the pending '<' brings the top of the plain stack to the top. */
  lemma {:induction false} PlainDropped(s: string)
    requires Rooted(s)
    ensures Plain(s) != []
    ensures var u := WithoutTops(s, '<');
            && Rooted(u) && Plain(u) == Plain(s) && Top(u) == Top(Plain(s))
            && if |u| == 1 then |Plain(s)| == 1
               else |Plain(s)| > 1 && Rooted(Front(u)) && Plain(Front(u)) == Front(Plain(s))
  {
    if Top(s) == '<' {
      PlainDropped(Front(s));
    } else if |s| > 1 {
      PlainRooted(Front(s));
    } else {
      assert Front(s) == [];
    }
  }

  /** One step of the forward scanner is one step of the plain machine. */
  ghost predicate EndStepIsPlain(c: char, s: string, step: Step) {
    && Plain(s) != []
    && match step
       case Stop(b) => PlainStep(c, Plain(s)) == Stop(b) && IsCloser(c)
       case Keep(u) => Rooted(u) && Plain(u) != [] && PlainStep(c, Plain(s)) == Keep(Plain(u))
  }

  lemma {:induction false} EndStepPlain(c: char, look: Look, s: string)
    requires Rooted(s)
    ensures EndStepIsPlain(c, s, EndStep(c, look, s))
  {
    PlainRooted(s);
    if IsOpener(c) {
      PlainPush(s, c);
    } else if IsCloser(c) {
      EndStepCloser(c, look, s);
    } else if c == ';' {
      PlainDropped(s);
    } else {
      EndStepAngle(c, look, s);
    }
  }

  /** u is the stack without its pending '<', and p has the same top and the same emptiness. */
  lemma {:induction false} EndStepCloserTop(c: char, look: Look, s: string, u: string, p: string)
    requires IsCloser(c) && u == WithoutTops(s, '<') && u != [] && p != []
    requires Top(u) == Top(p) && (|u| == 1 <==> |p| == 1)
    ensures EndStep(c, look, s) == if PlainStep(c, p).Stop? then PlainStep(c, p) else Keep(Front(u))
    ensures PlainStep(c, p).Keep? ==> |u| > 1 && PlainStep(c, p) == Keep(Front(p))
  {
  }

  lemma {:induction false} EndStepCloser(c: char, look: Look, s: string)
    requires Rooted(s) && IsCloser(c)
    ensures EndStepIsPlain(c, s, EndStep(c, look, s))
  {
    PlainDropped(s);
    var u := WithoutTops(s, '<');
    EndStepCloserTop(c, look, s, u, Plain(s));
    if |u| > 1 { PlainRooted(Front(u)); }
  }

  lemma {:induction false} EndStepAngleStack(c: char, look: Look, s: string, p: string) returns (u: string)
    requires !IsBracket(c) && c != ';' && s != [] && (Top(s) == '<' ==> |s| > 1) && p != []
    ensures EndStep(c, look, s) == Keep(u) && PlainStep(c, p) == Keep(p)
    ensures u == s || u == s + ['<'] || (Top(s) == '<' && u == Front(s))
  {
    u := EndStep(c, look, s).stack;
  }

  lemma {:induction false} EndStepAngle(c: char, look: Look, s: string)
    requires Rooted(s) && !IsBracket(c) && c != ';'
    ensures EndStepIsPlain(c, s, EndStep(c, look, s))
  {
    PlainRooted(s);
    if Top(s) == '<' { PlainPopAngle(s); }
    var u := EndStepAngleStack(c, look, s, Plain(s));
    if u == s + ['<'] { PlainPush(s, '<'); }
  }

  lemma {:induction false} PlainScanOne(t: string, k: nat, c: char, s: string)
    requires k < |t| && t[k] == c && s != []
    ensures PlainScan(t, k, s) == match PlainStep(c, s)
                                  case Stop(true) => Closed(k + 1)
                                  case Stop(false) => Dead
                                  case Keep(u) => PlainScan(t, k + 1, u)
  {
  }

  /** The outcome of a scan, with every '<' taken out of the stack. */
  ghost function PlainOutcome(out: Outcome): Outcome {
    match out
    case Open(u) => Open(Plain(u))
    case _ => out
  }

  /** Angle brackets, semicolons and look-behinds are transparent: started on a bracket, the
      scan is the plain one, for all answers the look-behinds may give. */
  lemma {:induction false} EndScanPlain(t: string, looks: seq<Look>, i: nat, s: string)
    requires i <= |t| == |looks| && Rooted(s)
    ensures Plain(s) != []
    ensures PlainScan(t, i, Plain(s)) == PlainOutcome(EndScanWith(t, looks, i, s))
    ensures match EndScanWith(t, looks, i, s) case Closed(q) => IsCloser(t[q - 1]) case _ => true
    decreases |t| - i
  {
    PlainRooted(s);
    if i < |t| {
      EndStepPlain(t[i], looks[i], s);
      PlainScanOne(t, i, t[i], Plain(s));
      var step := EndStep(t[i], looks[i], s);
      if step.Keep? {
        EndScanPlain(t, looks, i + 1, step.stack);
      }
    }
  }

  lemma {:induction false} OneOpener(c: char)
    requires IsOpener(c)
    ensures Rooted([c]) && Plain([c]) == [c]
  {
    assert Front([c]) == [];
  }

  /** Started behind an opener, a scan stops at the end of the enclosed word. */
  lemma {:induction false} EndScanEncloses(t: string, looks: seq<Look>, p: nat, q: int)
    requires p < |t| == |looks| && IsOpener(t[p])
    ensures EndScanWith(t, looks, p + 1, [t[p]]) == Closed(q) <==> p + 1 < q <= |t| && Enclosed(t[p..q])
  {
    OneOpener(t[p]);
    EndScanPlain(t, looks, p + 1, [t[p]]);
    PlainScanExact(t, p, q);
  }

  // ---------------------------------------------------------------- what lies under a bracket

  lemma {:induction false} DropOver(s: string, u: string)
    requires Rooted(u)
    ensures WithoutTops(s + u, '<') == s + WithoutTops(u, '<') && WithoutTops(u, '<') != []
  {
    if Top(u) == '<' {
      assert Front(s + u) == s + Front(u);
      DropOver(s, Front(u));
    }
  }

  lemma {:induction false} EndStepOver(c: char, look: Look, s: string, u: string)
    requires Rooted(u) && s != []
    ensures EndStep(c, look, s + u) == match EndStep(c, look, u)
                                       case Stop(closed) => if closed then Keep(s) else Stop(false)
                                       case Keep(v) => Keep(s + v)
  {
    if IsCloser(c) || c == ';' {
      DropOver(s, u);
      var v := WithoutTops(u, '<');
      assert Front(s + v) == s + Front(v);
    } else {
      assert s + u + [c] == s + (u + [c]) && s + u + ['<'] == s + (u + ['<']);
      assert Front(s + u) == s + Front(u);
    }
  }

  /** A bracket and what is inside it leave the stack below as it was. */
  lemma {:induction false} EndScanOver(t: string, looks: seq<Look>, i: nat, s: string, u: string)
    requires i <= |t| == |looks| && Rooted(u) && s != []
    ensures EndScanWith(t, looks, i, s + u) == match EndScanWith(t, looks, i, u)
                                               case Closed(q) => EndScanWith(t, looks, q, s)
                                               case Dead => Dead
                                               case Open(v) => Open(s + v)
    decreases |t| - i
  {
    if i < |t| {
      EndStepOver(t[i], looks[i], s, u);
      EndStepPlain(t[i], looks[i], u);
      var step := EndStep(t[i], looks[i], u);
      if step.Keep? {
        EndScanOver(t, looks, i + 1, s, step.stack);
      }
    }
  }

  // ---------------------------------------------------------------- a text and its parts

  /** A part of a text is scanned, and then what comes after it. */
  lemma {:induction false} EndScanPart(
      t: string, looks: seq<Look>, b: nat, line: string, own: seq<Look>, i: nat, s: string)
    requires |t| == |looks| && i <= |line| == |own| && At(t, b, line) && At(looks, b, own)
    ensures EndScanWith(t, looks, b + i, s) == match EndScanWith(line, own, i, s)
                                               case Closed(q) => Closed(b + q)
                                               case Dead => Dead
                                               case Open(u) => EndScanWith(t, looks, b + |line|, u)
    decreases |line| - i
  {
    if i < |line| {
      assert t[b + i] == line[i] && looks[b + i] == own[i];
      var step := EndStep(line[i], own[i], s);
      if step.Keep? {
        EndScanPart(t, looks, b, line, own, i + 1, step.stack);
      }
    }
  }

  lemma {:induction false} StartStepSkips(c: char, look: Look, s: string)
    ensures match StartStep(c, look, s)
            case Back(_, skip) => skip ==> look.shift || look.skip
            case BackStop(_) => true
  {
  }

  lemma {:induction false} StartScanPart(
      t: string, looks: seq<Look>, b: nat, line: string, own: seq<Look>, i: int, s: string)
    requires SkipsOrdinary(t, looks) && SkipsOrdinary(line, own) && At(t, b, line) && At(looks, b, own)
    requires -1 <= i < |line|
    ensures StartScanWith(t, looks, b + i, s) == match StartScanWith(line, own, i, s)
                                                 case Closed(p) => Closed(b + p)
                                                 case Dead => Dead
                                                 case Open(u) => StartScanWith(t, looks, b - 1, u)
    decreases i
  {
    if i >= 0 {
      assert t[b + i] == line[i] && looks[b + i] == own[i];
      StartStepSkips(line[i], own[i], s);
      var step := StartStep(line[i], own[i], s);
      if step.Back? {
        StartScanPart(t, looks, b, line, own, if step.skip then i - 2 else i - 1, step.stack);
      }
    }
  }

  /** A scan never goes on with an empty stack. */
  lemma {:induction false} EndScanKeeps(t: string, looks: seq<Look>, i: nat, s: string)
    requires i <= |t| == |looks| && s != []
    ensures EndScanWith(t, looks, i, s).Open? ==> EndScanWith(t, looks, i, s).stack != []
    decreases |t| - i
  {
    if i < |t| {
      var step := EndStep(t[i], looks[i], s);
      if step.Keep? {
        EndScanKeeps(t, looks, i + 1, step.stack);
      }
    }
  }

  // ---------------------------------------------------------------- backwards is forwards in a mirror

  /** The stack of a backward scan. */
  ghost predicate Backward(s: string) {
    forall k :: 0 <= k < |s| ==> IsCloser(s[k]) || s[k] == '>'
  }

  ghost function Flipped(s: string): (f: string)
    ensures |f| == |s|
  {
    seq(|s|, i requires 0 <= i < |s| => Flip(s[i]))
  }

  predicate Skips(c: char, look: Look) {
    (c == '>' && look.skip) || (c == '<' && look.shift)
  }

  /** The backward scan passes over i because of the character to its right. */
  predicate Passed(t: string, looks: seq<Look>, i: nat)
    requires i < |t| == |looks|
    decreases |t| - i
  {
    i + 1 < |t| && Skips(t[i + 1], looks[i + 1]) && !Passed(t, looks, i + 1)
  }

  /** The backward scan takes no notice of the angle at i. */
  predicate Ignores(t: string, looks: seq<Look>, i: nat)
    requires i < |t| == |looks|
  {
    Skips(t[i], looks[i]) || Passed(t, looks, i)
  }

  function BackLook(t: string, looks: seq<Look>, i: nat): Look
    requires i < |t| == |looks|
  {
    Look(false, Ignores(t, looks, i), Ignores(t, looks, i), false)
  }

  /** Answers of the look-behinds with which the forward scan of the mirrored text is the backward
      scan of the text. */
  function BackLooks(t: string, looks: seq<Look>): (back: seq<Look>)
    requires |t| == |looks|
    ensures |back| == |t|
  {
    seq(|t|, k requires 0 <= k < |t| => BackLook(t, looks, |t| - 1 - k))
  }

  lemma {:induction false} DropFlipped(s: string)
    requires Backward(s)
    ensures WithoutTops(Flipped(s), '<') == Flipped(WithoutTops(s, '>')) && Backward(WithoutTops(s, '>'))
  {
    if s != [] && Top(s) == '>' {
      assert Front(Flipped(s)) == Flipped(Front(s));
      DropFlipped(Front(s));
    }
  }

  ghost predicate IsMirrored(c: char, back: Look, s: string, step: BackStep, skips: bool) {
    match step
    case BackStop(found) => EndStep(Flip(c), back, Flipped(s)) == Stop(found)
    case Back(u, skip) => Backward(u) && EndStep(Flip(c), back, Flipped(s)) == Keep(Flipped(u)) && skip == skips
  }

  lemma {:induction false} StepMirrored(c: char, look: Look, back: Look, s: string)
    requires Backward(s) && back == Look(false, Skips(c, look), Skips(c, look), false)
    ensures IsMirrored(c, back, s, StartStep(c, look, s), Skips(c, look))
  {
    if IsCloser(c) {
      assert Flipped(s + [c]) == Flipped(s) + [Flip(c)];
    } else if IsOpener(c) || c == ';' {
      DropMirrored(c, look, back, s);
    } else {
      AngleMirrored(c, look, back, s);
    }
  }

  lemma {:induction false} DropMirrored(c: char, look: Look, back: Look, s: string)
    requires Backward(s) && back == Look(false, Skips(c, look), Skips(c, look), false) && (IsOpener(c) || c == ';')
    ensures IsMirrored(c, back, s, StartStep(c, look, s), Skips(c, look))
  {
    DropFlipped(s);
    var u := WithoutTops(s, '>');
    if u != [] { assert Flipped(Front(u)) == Front(Flipped(u)); }
  }

  lemma {:induction false} AngleMirrored(c: char, look: Look, back: Look, s: string)
    requires Backward(s) && back == Look(false, Skips(c, look), Skips(c, look), false) && !IsBracket(c) && c != ';'
    ensures IsMirrored(c, back, s, StartStep(c, look, s), Skips(c, look))
  {
    assert Flipped(s + ['>']) == Flipped(s) + ['<'];
    if s != [] { assert Flipped(Front(s)) == Front(Flipped(s)); }
  }

  /** The character that is passed over. */
  lemma {:induction false} PassedMirrored(c: char, s: string)
    requires !IsBracket(c) && c != ';'
    ensures EndStep(Flip(c), Look(false, true, true, false), s) == Keep(s)
  {
  }

  /** The outcome of a backward scan, as the forward scan of the mirrored text has it. */
  ghost function OutcomeInMirror(n: nat, out: Outcome): Outcome {
    match out
    case Closed(p) => Closed(n - p)
    case Dead => Dead
    case Open(u) => Open(Flipped(u))
  }

  /** The backward scan is the forward scan of the mirrored text. */
  lemma {:induction false} StartMirrored(t: string, looks: seq<Look>, i: int, s: string)
    requires -1 <= i < |t| && SkipsOrdinary(t, looks) && Backward(s) && (i >= 0 ==> !Passed(t, looks, i))
    ensures EndScanWith(Mirror(t), BackLooks(t, looks), |t| - 1 - i, Flipped(s))
         == OutcomeInMirror(|t|, StartScanWith(t, looks, i, s))
    decreases i
  {
    if i >= 0 {
      var back, k := BackLooks(t, looks), |t| - 1 - i;
      MirrorIndex(t, k);
      assert back[k] == BackLook(t, looks, i);
      StepMirrored(t[i], looks[i], back[k], s);
      var step := StartStep(t[i], looks[i], s);
      if step.Back? {
        if step.skip {
          assert Passed(t, looks, i - 1) && back[k + 1] == BackLook(t, looks, i - 1);
          MirrorIndex(t, k + 1);
          PassedMirrored(t[i - 1], Flipped(step.stack));
          StartMirrored(t, looks, i - 2, step.stack);
        } else {
          assert i > 0 ==> !Passed(t, looks, i - 1);
          StartMirrored(t, looks, i - 1, step.stack);
        }
      }
    }
  }
}
