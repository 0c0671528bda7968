/** Well-nested words and the plain bracket machine. */
module BracketGrammar {
  // The reference meaning of bracket matching: words over () [] {} given by a grammar, the plain
  // stack machine that ignores every other character, and the proof that the machine recognises
  // exactly the enclosed words of the grammar.  Nothing here knows about lines, angle brackets or
  // look-behinds.

  predicate IsOpener(c: char) { c == '(' || c == '[' || c == '{' }

  predicate IsCloser(c: char) { c == ')' || c == ']' || c == '}' }

  predicate IsBracket(c: char) { IsOpener(c) || IsCloser(c) }

  function CloserOf(c: char): char {
    if c == '(' then ')' else if c == '[' then ']' else if c == '{' then '}' else '>'
  }

  /** A well-nested word: any mixture of ordinary characters and bracketed groups. */
  datatype Word =
    | Empty
    | Other(c: char, rest: Word)
    | Group(open: char, inside: Word, rest: Word)
  {
    ghost predicate Valid() {
      match this
      case Empty => true
      case Other(c, rest) => !IsBracket(c) && rest.Valid()
      case Group(open, inside, rest) => IsOpener(open) && inside.Valid() && rest.Valid()
    }

    ghost function Text(): string {
      match this
      case Empty => []
      case Other(c, rest) => [c] + rest.Text()
      case Group(open, inside, rest) => [open] + inside.Text() + [CloserOf(open)] + rest.Text()
    }

    /** No semicolon occurs outside the groups of this word. */
    ghost predicate NoTopSemicolon() {
      match this
      case Empty => true
      case Other(c, rest) => c != ';' && rest.NoTopSemicolon()
      case Group(_, _, rest) => rest.NoTopSemicolon()
    }
  }

  /** t is an opener, a well-nested word, and the closer of that opener. */
  ghost predicate Enclosed(t: string) {
    exists w: Word :: w.Valid() && EnclosedBy(t, w)
  }

  ghost predicate EnclosedBy(t: string, w: Word) {
    t != [] && IsOpener(t[0]) && t == [t[0]] + w.Text() + [CloserOf(t[0])]
  }

  // ---------------------------------------------------------------- the plain machine

  datatype Outcome =
    | Closed(pos: int)      // the bottom opener was closed just before this position
    | Dead                  // a closer did not fit
    | Open(stack: string)   // the text ran out; top of the stack is last

  datatype Step =
    | Keep(stack: string)   // go on with this stack
    | Stop(closed: bool)    // the expression is closed, or cannot be

  ghost function PlainStep(c: char, s: string): Step
    requires s != []
  {
    if IsOpener(c) then Keep(s + [c])
    else if !IsCloser(c) then Keep(s)
    else if c != CloserOf(s[|s| - 1]) then Stop(false)
    else if |s| == 1 then Stop(true)
    else Keep(s[..|s| - 1])
  }

  ghost function PlainScan(t: string, i: nat, s: string): Outcome
    requires i <= |t| && s != []
    decreases |t| - i
  {
    if i == |t| then Open(s)
    else
      var step := PlainStep(t[i], s);
      if step == Stop(true) then Closed(i + 1)
      else if step == Stop(false) then Dead
      else PlainScan(t, i + 1, step.stack)
  }

  // ---------------------------------------------------------------- soundness

  /** The text that closes every opener of s, innermost first, with the given words before
      each closer. */
  ghost function Unwound(ws: seq<Word>, s: string): string
    requires |ws| == |s|
  {
    if s == [] then []
    else ws[0].Text() + [CloserOf(s[|s| - 1])] + Unwound(ws[1..], s[..|s| - 1])
  }

  ghost predicate AllValid(ws: seq<Word>) { forall k :: 0 <= k < |ws| ==> ws[k].Valid() }

  lemma {:induction false} UnwoundFirst(w: Word, more: seq<Word>, s: string)
    requires s != [] && |more| == |s| - 1
    ensures Unwound([w] + more, s)
         == w.Text() + ([CloserOf(s[|s| - 1])] + Unwound(more, s[..|s| - 1]))
  {
    assert ([w] + more)[1..] == more;
  }

  lemma {:induction false} UnwoundPushed(inside: Word, rest: Word, more: seq<Word>, c: char, s: string)
    requires IsOpener(c) && s != [] && |more| == |s| - 1
    ensures Unwound([Group(c, inside, rest)] + more, s)
         == [c] + Unwound([inside, rest] + more, s + [c])
  {
    var ws := [inside, rest] + more;
    var tail := Unwound(more, s[..|s| - 1]);
    assert (s + [c])[..|s|] == s;
    assert ws[1..] == [rest] + more && ([rest] + more)[1..] == more;
    assert ([Group(c, inside, rest)] + more)[1..] == more;
    assert Unwound([rest] + more, s) == rest.Text() + [CloserOf(s[|s| - 1])] + tail;
    assert Unwound(ws, s + [c]) == inside.Text() + [CloserOf(c)] + Unwound([rest] + more, s);
    assert [c] + Unwound(ws, s + [c])
        == ([c] + inside.Text() + [CloserOf(c)] + rest.Text()) + [CloserOf(s[|s| - 1])] + tail;
  }

  lemma {:induction false} UnwoundRead(c: char, w: Word, more: seq<Word>, s: string)
    requires s != [] && |more| == |s| - 1
    ensures Unwound([Other(c, w)] + more, s) == [c] + Unwound([w] + more, s)
  {
    UnwoundFirst(w, more, s);
    UnwoundFirst(Other(c, w), more, s);
    var tail := [CloserOf(s[|s| - 1])] + Unwound(more, s[..|s| - 1]);
    assert ([c] + w.Text()) + tail == [c] + (w.Text() + tail);
  }

  lemma {:induction false} UnwoundPopped(ws: seq<Word>, s: string)
    requires s != [] && |ws| == |s| - 1
    ensures Unwound([Empty] + ws, s) == [CloserOf(s[|s| - 1])] + Unwound(ws, s[..|s| - 1])
  {
    assert ([Empty] + ws)[1..] == ws;
    assert Empty.Text() == [];
  }

  /** The text t[i..q] closes every opener of s, reading the words ws. */
  ghost predicate Reads(t: string, i: nat, q: int, s: string, ws: seq<Word>) {
    && i < q <= |t| && |ws| == |s| && AllValid(ws)
    && t[i..q] == Unwound(ws, s)
  }

  lemma {:induction false} ReadsPush(t: string, i: nat, q: int, s: string, us: seq<Word>)
    returns (ws: seq<Word>)
    requires i < |t| && s != [] && IsOpener(t[i]) && Reads(t, i + 1, q, s + [t[i]], us)
    ensures Reads(t, i, q, s, ws)
  {
    ws := [Group(t[i], us[0], us[1])] + us[2..];
    UnwoundPushed(us[0], us[1], us[2..], t[i], s);
    assert us == [us[0], us[1]] + us[2..];
    assert t[i..q] == [t[i]] + t[i + 1..q];
  }

  lemma {:induction false} ReadsOther(t: string, i: nat, q: int, s: string, us: seq<Word>)
    returns (ws: seq<Word>)
    requires i < |t| && s != [] && !IsBracket(t[i]) && Reads(t, i + 1, q, s, us)
    ensures Reads(t, i, q, s, ws)
  {
    ws := [Other(t[i], us[0])] + us[1..];
    UnwoundRead(t[i], us[0], us[1..], s);
    assert us == [us[0]] + us[1..];
    assert t[i..q] == [t[i]] + t[i + 1..q];
  }

  lemma {:induction false} ReadsPop(t: string, i: nat, q: int, s: string, us: seq<Word>)
    returns (ws: seq<Word>)
    requires i < |t| && s != [] && t[i] == CloserOf(s[|s| - 1])
    requires if |s| == 1 then q == i + 1 && us == [] else Reads(t, i + 1, q, s[..|s| - 1], us)
    ensures Reads(t, i, q, s, ws)
  {
    ws := [Empty] + us;
    UnwoundPopped(us, s);
    assert t[i..q] == [t[i]] + t[i + 1..q];
  }

  /** A successful run reads, for each open bracket, a word and its closer. */
  lemma {:induction false} PlainScanReads(t: string, i: nat, s: string) returns (ws: seq<Word>)
    requires i <= |t| && s != []
    requires PlainScan(t, i, s).Closed?
    ensures Reads(t, i, PlainScan(t, i, s).pos, s, ws)
    decreases |t| - i
  {
    var q := PlainScan(t, i, s).pos;
    if IsOpener(t[i]) {
      var us := PlainScanReads(t, i + 1, s + [t[i]]);
      ws := ReadsPush(t, i, q, s, us);
    } else if !IsCloser(t[i]) {
      var us := PlainScanReads(t, i + 1, s);
      ws := ReadsOther(t, i, q, s, us);
    } else if |s| == 1 {
      ws := ReadsPop(t, i, q, s, []);
    } else {
      var us := PlainScanReads(t, i + 1, s[..|s| - 1]);
      ws := ReadsPop(t, i, q, s, us);
    }
  }

  // ---------------------------------------------------------------- completeness

  /** u stands in t at offset i. */
  ghost predicate At<T>(t: seq<T>, i: nat, u: seq<T>) {
    i + |u| <= |t| && forall j :: 0 <= j < |u| ==> t[i + j] == u[j]
  }

  lemma {:induction false} AtParts<T>(t: seq<T>, i: nat, u: seq<T>, v: seq<T>)
    ensures At(t, i, u + v) <==> At(t, i, u) && At(t, i + |u|, v)
  {
    if At(t, i, u + v) {
      forall j | 0 <= j < |u| ensures t[i + j] == u[j] { assert (u + v)[j] == u[j]; }
      forall j | 0 <= j < |v| ensures t[i + |u| + j] == v[j] { assert (u + v)[|u| + j] == v[j]; }
    }
  }

  /** The machine passes over a well-nested word with its stack unchanged. */
  lemma {:induction false} PlainScanSkips(t: string, i: nat, s: string, w: Word)
    requires i <= |t| && s != [] && w.Valid()
    requires At(t, i, w.Text())
    ensures PlainScan(t, i, s) == PlainScan(t, i + |w.Text()|, s)
    decreases w, 0
  {
    match w
    case Empty =>
    case Other(c, rest) =>
      AtParts(t, i, [c], rest.Text());
      assert t[i] == [c][0];
      PlainScanSkips(t, i + 1, s, rest);
    case Group(c, inside, rest) =>
      AtParts(t, i, [c] + inside.Text() + [CloserOf(c)], rest.Text());
      PlainScanGroup(t, i, s, c, inside);
      PlainScanSkips(t, i + |inside.Text()| + 2, s, rest);
  }

  lemma {:induction false} PlainScanGroup(t: string, i: nat, s: string, c: char, inside: Word)
    requires i <= |t| && s != [] && inside.Valid() && IsOpener(c)
    requires At(t, i, [c] + inside.Text() + [CloserOf(c)])
    ensures PlainScan(t, i, s) == PlainScan(t, i + |inside.Text()| + 2, s)
    decreases inside, 1
  {
    AtParts(t, i, [c] + inside.Text(), [CloserOf(c)]);
    AtParts(t, i, [c], inside.Text());
    assert t[i] == [c][0];
    var n := i + 1 + |inside.Text()|;
    assert t[n] == [CloserOf(c)][0];
    PlainScanSkips(t, i + 1, s + [c], inside);
    assert (s + [c])[..|s|] == s;
    assert PlainScan(t, i, s) == PlainScan(t, i + 1, s + [c]) == PlainScan(t, n, s + [c]);
  }

  /** The machine started after an opener stops at q exactly when t[p..q] is enclosed. */
  lemma {:induction false} PlainScanExact(t: string, p: nat, q: int)
    requires p < |t| && IsOpener(t[p])
    ensures PlainScan(t, p + 1, [t[p]]) == Closed(q) <==> p + 1 < q <= |t| && Enclosed(t[p..q])
  {
    if PlainScan(t, p + 1, [t[p]]) == Closed(q) { PlainScanSound(t, p, q); }
    if p + 1 < q <= |t| && Enclosed(t[p..q]) { PlainScanComplete(t, p, q); }
  }

  lemma {:induction false} PlainScanSound(t: string, p: nat, q: int)
    requires p < |t| && IsOpener(t[p])
    requires PlainScan(t, p + 1, [t[p]]) == Closed(q)
    ensures p + 1 < q <= |t| && Enclosed(t[p..q])
  {
    var ws := PlainScanReads(t, p + 1, [t[p]]);
    assert ws == [ws[0]];
    UnwoundOne(ws[0], t[p]);
    assert t[p..q] == [t[p]] + t[p + 1..q];
    assert EnclosedBy(t[p..q], ws[0]);
  }

  lemma {:induction false} PlainScanComplete(t: string, p: nat, q: nat)
    requires p < q <= |t| && IsOpener(t[p]) && Enclosed(t[p..q])
    ensures PlainScan(t, p + 1, [t[p]]) == Closed(q)
  {
    var u := t[p..q];
    var w: Word :| w.Valid() && EnclosedBy(u, w);
    var n := |w.Text()|;
    assert At(t, p, u);
    AtParts(t, p, [t[p]] + w.Text(), [CloserOf(t[p])]);
    AtParts(t, p, [t[p]], w.Text());
    PlainScanSkips(t, p + 1, [t[p]], w);
    assert t[p + 1 + n] == [CloserOf(t[p])][0];
  }

  lemma {:induction false} UnwoundOne(w: Word, c: char)
    ensures Unwound([w], [c]) == w.Text() + [CloserOf(c)]
  {
    assert [w][1..] == [] && [c][..0] == [];
    assert Unwound([], []) == [];
  }

  // ---------------------------------------------------------------- reading backwards

  function Flip(c: char): char {
    match c
    case '(' => ')' case ')' => '('
    case '[' => ']' case ']' => '['
    case '{' => '}' case '}' => '{'
    case '<' => '>' case '>' => '<'
    case _ => c
  }

  /** The text seen in a mirror: reversed, with every bracket and angle turned around. */
  ghost function Mirror(t: string): (m: string)
    ensures |m| == |t|
  {
    if t == [] then [] else Mirror(t[1..]) + [Flip(t[0])]
  }

  lemma {:induction false} MirrorIndex(t: string, j: nat)
    requires j < |t|
    ensures Mirror(t)[j] == Flip(t[|t| - 1 - j])
  {
    if j < |t| - 1 { MirrorIndex(t[1..], j); }
  }

  ghost function Append(a: Word, b: Word): Word {
    match a
    case Empty => b
    case Other(c, rest) => Other(c, Append(rest, b))
    case Group(c, inside, rest) => Group(c, inside, Append(rest, b))
  }

  lemma {:induction false} AppendText(a: Word, b: Word)
    requires a.Valid() && b.Valid()
    ensures Append(a, b).Valid() && Append(a, b).Text() == a.Text() + b.Text()
  {
    match a
    case Empty =>
    case Other(c, rest) => AppendText(rest, b);
    case Group(c, inside, rest) =>
      AppendText(rest, b);
      var front := [c] + inside.Text() + [CloserOf(c)];
      assert front + (rest.Text() + b.Text()) == (front + rest.Text()) + b.Text();
  }

  ghost function MirrorWord(w: Word): Word {
    match w
    case Empty => Empty
    case Other(c, rest) => Append(MirrorWord(rest), Other(Flip(c), Empty))
    case Group(c, inside, rest) => Append(MirrorWord(rest), Group(c, MirrorWord(inside), Empty))
  }

  lemma {:induction false} MirrorConcat(a: string, b: string)
    ensures Mirror(a + b) == Mirror(b) + Mirror(a)
  {
    if a == [] {
      assert a + b == b;
      assert Mirror(b) + [] == Mirror(b);
    } else {
      assert (a + b)[1..] == a[1..] + b;
      MirrorConcat(a[1..], b);
    }
  }

  lemma {:induction false} MirrorWordText(w: Word)
    requires w.Valid()
    ensures MirrorWord(w).Valid() && MirrorWord(w).Text() == Mirror(w.Text())
  {
    match w
    case Empty =>
    case Other(c, rest) =>
      MirrorWordText(rest);
      AppendText(MirrorWord(rest), Other(Flip(c), Empty));
      MirrorConcat([c], rest.Text());
      assert Mirror([c]) == [Flip(c)] == Other(Flip(c), Empty).Text();
    case Group(c, inside, rest) =>
      MirrorWordText(inside);
      MirrorWordText(rest);
      var g := Group(c, MirrorWord(inside), Empty);
      AppendText(MirrorWord(rest), g);
      MirrorEnclosed(c, inside.Text());
      MirrorConcat([c] + inside.Text() + [CloserOf(c)], rest.Text());
      assert g.Text() == [c] + Mirror(inside.Text()) + [CloserOf(c)];
  }

  lemma {:induction false} MirrorEnclosed(c: char, t: string)
    requires IsOpener(c)
    ensures Mirror([c] + t + [CloserOf(c)]) == [c] + Mirror(t) + [CloserOf(c)]
  {
    MirrorConcat([c] + t, [CloserOf(c)]);
    MirrorConcat([c], t);
    assert Mirror([c]) == [CloserOf(c)] && Mirror([CloserOf(c)]) == [c];
  }

  lemma {:induction false} MirrorTwice(t: string)
    ensures Mirror(Mirror(t)) == t
  {
    forall j | 0 <= j < |t| ensures Mirror(Mirror(t))[j] == t[j] {
      MirrorIndex(Mirror(t), j);
      MirrorIndex(t, |t| - 1 - j);
    }
  }

  lemma {:induction false} MirrorSlice(t: string, p: nat, q: nat)
    requires p <= q <= |t|
    ensures Mirror(t)[|t| - q..|t| - p] == Mirror(t[p..q])
  {
    var u, m := t[p..q], Mirror(t);
    forall j | 0 <= j < q - p ensures m[|t| - q + j] == Mirror(u)[j] {
      MirrorIndex(t, |t| - q + j);
      MirrorIndex(u, j);
    }
    assert |m[|t| - q..|t| - p]| == |Mirror(u)|;
  }

  /** The grammar does not care in which direction it is read. */
  lemma {:induction false} EnclosedMirror(t: string)
    ensures Enclosed(t) <==> Enclosed(Mirror(t))
  {
    if Enclosed(t) { EnclosedMirrored(t); }
    if Enclosed(Mirror(t)) { EnclosedMirrored(Mirror(t)); MirrorTwice(t); }
  }

  lemma {:induction false} EnclosedMirrored(t: string)
    requires Enclosed(t)
    ensures Enclosed(Mirror(t))
  {
    var w: Word :| w.Valid() && EnclosedBy(t, w);
    MirrorEnclosed(t[0], w.Text());
    MirrorWordText(w);
    assert EnclosedBy(Mirror(t), MirrorWord(w));
  }
}
