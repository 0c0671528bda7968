/** cpplint's searches for the other end of an expression. */
module ExpressionMatching {
  // CloseExpression and ReverseCloseExpression: the two line scanners resumed over any number of
  // lines.  Started on a bracket, each finds exactly the enclosed word of the grammar, and the two are
  // inverse to each other.

  import opened BracketGrammar
  import opened ExpressionScan
  import opened ScanLaws
  import opened Texts

  // ---------------------------------------------------------------- lines and offsets

  ghost function Join<T>(lines: seq<seq<T>>): seq<T> {
    if lines == [] then [] else Join(lines[..|lines| - 1]) + lines[|lines| - 1]
  }

  /** Where line l starts in the joined text. */
  ghost function Off<T>(lines: seq<seq<T>>, l: nat): nat
    requires l <= |lines|
  {
    |Join(lines[..l])|
  }

  lemma {:induction false} LineAt<T>(lines: seq<seq<T>>, l: nat)
    requires l < |lines|
    ensures Off(lines, l + 1) == Off(lines, l) + |lines[l]|
    ensures At(Join(lines), Off(lines, l), lines[l])
  {
    assert lines[..l + 1][..l] == lines[..l];
    var front := lines[..|lines| - 1];
    if l == |lines| - 1 {
      assert lines[..l + 1] == lines;
    } else {
      assert front[..l] == lines[..l];
      LineAt(front, l);
    }
  }

  lemma {:induction false} OffMonotone<T>(lines: seq<seq<T>>, l: nat, m: nat)
    requires l <= m <= |lines|
    ensures Off(lines, l) <= Off(lines, m)
    decreases m - l
  {
    if l < m {
      LineAt(lines, l);
      OffMonotone(lines, l + 1, m);
    }
  }

  lemma {:induction false} OffTotal<T>(lines: seq<seq<T>>)
    ensures Off(lines, |lines|) == |Join(lines)|
  {
    assert lines[..|lines|] == lines;
  }

  /** (m, c) is a character of the text. */
  predicate InText(lines: seq<string>, m: nat, c: nat) {
    m < |lines| && c < |lines[m]|
  }

  /** A character is known by its offset. */
  lemma {:induction false} OffUnique(lines: seq<string>, l: nat, p: nat, m: nat, c: nat)
    requires InText(lines, l, p) && InText(lines, m, c)
    requires Off(lines, l) + p == Off(lines, m) + c
    ensures l == m && p == c
  {
    LineAt(lines, l);
    LineAt(lines, m);
    if l < m { OffMonotone(lines, l + 1, m); }
    if m < l { OffMonotone(lines, m + 1, l); }
  }

  lemma {:induction false} OffBound(lines: seq<string>, m: nat, c: nat)
    requires InText(lines, m, c)
    ensures Off(lines, m) + c < |Join(lines)| && Join(lines)[Off(lines, m) + c] == lines[m][c]
  {
    LineAt(lines, m);
  }

  // ---------------------------------------------------------------- the look-behinds of a text

  ghost function LooksOf(lines: seq<string>): seq<seq<Look>> {
    seq(|lines|, l requires 0 <= l < |lines| => Looks(lines[l]))
  }

  /** What the look-behinds say at each character of the joined text; they do not see beyond the
      line. */
  ghost function AllLooks(lines: seq<string>): seq<Look> {
    Join(LooksOf(lines))
  }

  lemma {:induction false} SameOffsets(lines: seq<string>, l: nat)
    requires l <= |lines|
    ensures Off(LooksOf(lines), l) == Off(lines, l)
  {
    if l > 0 {
      SameOffsets(lines, l - 1);
      LineAt(lines, l - 1);
      LineAt(LooksOf(lines), l - 1);
    }
  }

  lemma {:induction false} AllLooksAt(lines: seq<string>, l: nat)
    requires l < |lines|
    ensures |AllLooks(lines)| == |Join(lines)| && At(AllLooks(lines), Off(lines, l), Looks(lines[l]))
  {
    SameOffsets(lines, l);
    SameOffsets(lines, |lines|);
    OffTotal(lines);
    OffTotal(LooksOf(lines));
    LineAt(LooksOf(lines), l);
  }

  lemma {:induction false} LooksAt(lines: seq<string>, m: nat, c: nat)
    requires InText(lines, m, c)
    ensures Off(lines, m) + c < |AllLooks(lines)| == |Join(lines)|
    ensures Join(lines)[Off(lines, m) + c] == lines[m][c]
    ensures AllLooks(lines)[Off(lines, m) + c] == LookAt(lines[m], c)
  {
    OffBound(lines, m, c);
    AllLooksAt(lines, m);
    assert Looks(lines[m])[c] == LookAt(lines[m], c);
  }

  lemma {:induction false} JoinedSkips(lines: seq<string>)
    ensures SkipsOrdinary(Join(lines), AllLooks(lines))
  {
    if lines != [] {
      var front, last := lines[..|lines| - 1], lines[|lines| - 1];
      JoinedSkips(front);
      LooksSkipOrdinary(last);
      assert LooksOf(lines)[..|lines| - 1] == LooksOf(front);
      BothSkip(Join(front), AllLooks(front), last, Looks(last));
    }
  }

  lemma {:induction false} BothSkip(t: string, looks: seq<Look>, u: string, more: seq<Look>)
    requires SkipsOrdinary(t, looks) && SkipsOrdinary(u, more)
    ensures SkipsOrdinary(t + u, looks + more)
  {
  }

  /** The text from (l, p) up to and including (m, c) is an enclosed word. */
  ghost predicate EnclosedBetween(lines: seq<string>, l: nat, p: nat, m: nat, c: nat) {
    && InText(lines, l, p) && InText(lines, m, c)
    && var a, b := Off(lines, l) + p, Off(lines, m) + c;
       a < b < |Join(lines)| && Enclosed(Join(lines)[a..b + 1])
  }

  // ---------------------------------------------------------------- single steps

  lemma {:induction false} EndScanOne(line: string, i: nat, s: string)
    requires i < |line|
    ensures EndScan(line, i, s) == match EndStep(line[i], LookAt(line, i), s)
                                   case Stop(true) => Closed(i + 1)
                                   case Stop(false) => Dead
                                   case Keep(u) => EndScan(line, i + 1, u)
  {
    assert Looks(line)[i] == LookAt(line, i);
  }

  lemma {:induction false} StartScanOne(line: string, i: nat, s: string)
    requires i < |line|
    ensures match StartStep(line[i], LookAt(line, i), s)
            case BackStop(found) => StartScan(line, i, s) == if found then Closed(i) else Dead
            case Back(u, skip) => (skip ==> i > 0)
                                  && StartScan(line, i, s) == StartScan(line, if skip then i - 2 else i - 1, u)
  {
    LooksSkipOrdinary(line);
    assert Looks(line)[i] == LookAt(line, i);
    StartStepSkips(line[i], LookAt(line, i), s);
  }

  // ---------------------------------------------------------------- CloseExpression

  datatype Place =
    | Found(line: nat, col: nat)
    | Missing(last: nat)   // the last line looked at

  /** The result of the scan that came out of line l as out. */
  function CloseFrom(lines: seq<string>, l: nat, out: Outcome): Place
    requires l < |lines|
    decreases |lines| - l
  {
    match out
    case Closed(q) => if q < 0 then Missing(l) else Found(l, q)
    case Dead => Missing(l)
    case Open(s) =>
      if s == [] || l == |lines| - 1 then Missing(l)
      else CloseFrom(lines, l + 1, EndScan(lines[l + 1], 0, s))
  }

  function Close(lines: seq<string>, l: nat, p: nat): Place
    requires InText(lines, l, p)
  {
    if lines[l][p] !in "({[<" || StartsShiftOrLess(lines[l], p) then Missing(l)
    else CloseFrom(lines, l, EndScan(lines[l], p, []))
  }

  method CloseExpression(lines: seq<string>, linenum: nat, pos: nat)
    returns (line: string, endnum: nat, endpos: int)
    requires InText(lines, linenum, pos)
    ensures match Close(lines, linenum, pos)
            case Found(m, q) => m < |lines| && line == lines[m] && endnum == m && endpos == q
            case Missing(m) => m < |lines| && line == lines[m] && endnum == |lines| && endpos == -1
  {
    var l := linenum;
    line := lines[l];
    if line[pos] !in "({[<" || StartsShiftOrLess(line, pos) {
      return line, |lines|, -1;
    }
    var stack := new CharStack();
    var live;
    endpos, live := FindEndOfExpressionInLine(line, pos, stack);
    if endpos > -1 {
      return line, l, endpos;
    }
    while live && stack.items != [] && l < |lines| - 1
      invariant l < |lines| && line == lines[l]
      invariant live ==> Close(lines, linenum, pos) == CloseFrom(lines, l, Open(stack.items))
      invariant !live ==> Close(lines, linenum, pos) == Missing(l)
      decreases |lines| - l
    {
      l := l + 1;
      line := lines[l];
      endpos, live := FindEndOfExpressionInLine(line, 0, stack);
      if endpos > -1 {
        return line, l, endpos;
      }
    }
    return line, |lines|, -1;
  }

  /** The place is where the scan of the joined text stops. */
  ghost predicate IsEnd(lines: seq<string>, place: Place, out: Outcome) {
    match place
    case Found(m, q) => q > 0 && InText(lines, m, q - 1) && out == Closed(Off(lines, m) + q)
    case Missing(_) => !out.Closed?
  }

  /** The scans of the lines, one resumed after the other, are one scan of the joined text. */
  lemma {:induction false} CloseIsScan(lines: seq<string>, l: nat, i: nat, s: string)
    requires l < |lines| && i <= |lines[l]| && s != []
    ensures Off(lines, l) + i <= |Join(lines)| == |AllLooks(lines)|
    ensures IsEnd(lines, CloseFrom(lines, l, EndScan(lines[l], i, s)),
                  EndScanWith(Join(lines), AllLooks(lines), Off(lines, l) + i, s))
    decreases |lines| - l
  {
    var out := EndScan(lines[l], i, s);
    LineAt(lines, l);
    AllLooksAt(lines, l);
    EndScanPart(Join(lines), AllLooks(lines), Off(lines, l), lines[l], Looks(lines[l]), i, s);
    EndScanKeeps(lines[l], Looks(lines[l]), i, s);
    if out.Open? {
      if l < |lines| - 1 {
        CloseIsScan(lines, l + 1, 0, out.stack);
      } else {
        OffTotal(lines);
      }
    }
  }

  lemma {:induction false} EndScanFirst(line: string, p: nat)
    requires p < |line| && IsOpener(line[p])
    ensures EndScan(line, p, []) == EndScan(line, p + 1, [line[p]])
  {
    EndScanOne(line, p, []);
    assert EndStep(line[p], LookAt(line, p), []) == Keep([line[p]]);
  }

  /** An end in the text is known by its offset. */
  lemma {:induction false} SameEnd(lines: seq<string>, place: Place, out: Outcome, m: nat, q: nat)
    requires IsEnd(lines, place, out) && q > 0 && InText(lines, m, q - 1)
    ensures place == Found(m, q) <==> out == Closed(Off(lines, m) + q)
  {
    if place.Found? && Off(lines, place.line) + place.col == Off(lines, m) + q {
      OffUnique(lines, place.line, place.col - 1, m, q - 1);
    }
  }

  /** Started on ( [ or {, CloseExpression succeeds exactly at the end of the enclosed word
      that begins there, over any number of lines and whatever < > ; and operators occur. */
  lemma {:induction false} CloseExact(lines: seq<string>, l: nat, p: nat, m: nat, q: nat)
    requires InText(lines, l, p) && IsOpener(lines[l][p])
    ensures Close(lines, l, p) == Found(m, q) <==> q > 0 && EnclosedBetween(lines, l, p, m, q - 1)
  {
    CloseFromOpener(lines, l, p);
    if q > 0 && InText(lines, m, q - 1) {
      SameEnd(lines, Close(lines, l, p), OpenerScan(lines, l, p), m, q);
      OpenerScanEncloses(lines, l, p, Off(lines, m) + q);
    }
  }

  lemma {:induction false} OpenerScanEncloses(lines: seq<string>, l: nat, p: nat, b: nat)
    requires InText(lines, l, p) && IsOpener(lines[l][p])
    ensures OpenerScan(lines, l, p) == Closed(b)
       <==> Off(lines, l) + p + 1 < b <= |Join(lines)| && Enclosed(Join(lines)[Off(lines, l) + p..b])
  {
    LooksAt(lines, l, p);
    EndScanEncloses(Join(lines), AllLooks(lines), Off(lines, l) + p, b);
  }

  /** The scan of the joined text behind the opener at (l, p). */
  ghost function OpenerScan(lines: seq<string>, l: nat, p: nat): Outcome
    requires InText(lines, l, p)
  {
    LooksAt(lines, l, p);
    EndScanWith(Join(lines), AllLooks(lines), Off(lines, l) + p + 1, [lines[l][p]])
  }

  lemma {:induction false} CloseFromOpener(lines: seq<string>, l: nat, p: nat)
    requires InText(lines, l, p) && IsOpener(lines[l][p])
    ensures Off(lines, l) + p < |Join(lines)| == |AllLooks(lines)| && Join(lines)[Off(lines, l) + p] == lines[l][p]
    ensures IsEnd(lines, Close(lines, l, p), OpenerScan(lines, l, p))
  {
    LooksAt(lines, l, p);
    EndScanFirst(lines[l], p);
    CloseIsScan(lines, l, p + 1, [lines[l][p]]);
  }

  lemma {:induction false} CloseEndsOnCloser(lines: seq<string>, l: nat, p: nat)
    requires InText(lines, l, p) && IsOpener(lines[l][p])
    ensures match Close(lines, l, p)
            case Found(m, q) => q > 0 && InText(lines, m, q - 1) && IsCloser(lines[m][q - 1])
            case Missing(_) => true
  {
    CloseFromOpener(lines, l, p);
    var place := Close(lines, l, p);
    if place.Found? {
      OffBound(lines, place.line, place.col - 1);
      ClosedOnCloser(Join(lines), AllLooks(lines), Off(lines, l) + p, Off(lines, place.line) + place.col);
    }
  }

  lemma {:induction false} ClosedOnCloser(t: string, looks: seq<Look>, a: nat, b: nat)
    requires a < |t| == |looks| && IsOpener(t[a]) && EndScanWith(t, looks, a + 1, [t[a]]) == Closed(b)
    ensures 0 < b <= |t| && IsCloser(t[b - 1])
  {
    OneOpener(t[a]);
    EndScanPlain(t, looks, a + 1, [t[a]]);
  }

  // ---------------------------------------------------------------- ReverseCloseExpression

  function ReverseFrom(lines: seq<string>, l: nat, out: Outcome): Place
    requires l < |lines|
    decreases l
  {
    match out
    case Closed(p) => if p < 0 then Missing(l) else Found(l, p)
    case Dead => Missing(l)
    case Open(s) =>
      if s == [] || l == 0 then Missing(l)
      else ReverseFrom(lines, l - 1, StartScan(lines[l - 1], |lines[l - 1]| - 1, s))
  }

  function Reverse(lines: seq<string>, l: nat, p: nat): Place
    requires InText(lines, l, p)
  {
    if lines[l][p] !in ")}]>" then Missing(l)
    else ReverseFrom(lines, l, StartScan(lines[l], p, []))
  }

  method ReverseCloseExpression(lines: seq<string>, linenum: nat, pos: nat)
    returns (line: string, startnum: nat, startpos: int)
    requires InText(lines, linenum, pos)
    ensures match Reverse(lines, linenum, pos)
            case Found(m, q) => m < |lines| && line == lines[m] && startnum == m && startpos == q
            case Missing(m) => m < |lines| && line == lines[m] && startnum == 0 && startpos == -1
  {
    var l := linenum;
    line := lines[l];
    if line[pos] !in ")}]>" {
      return line, 0, -1;
    }
    var stack := new CharStack();
    var live;
    startpos, live := FindStartOfExpressionInLine(line, pos, stack);
    if startpos > -1 {
      return line, l, startpos;
    }
    while live && stack.items != [] && l > 0
      invariant l < |lines| && line == lines[l]
      invariant live ==> Reverse(lines, linenum, pos) == ReverseFrom(lines, l, Open(stack.items))
      invariant !live ==> Reverse(lines, linenum, pos) == Missing(l)
      decreases l
    {
      l := l - 1;
      line := lines[l];
      startpos, live := FindStartOfExpressionInLine(line, |line| - 1, stack);
      if startpos > -1 {
        return line, l, startpos;
      }
    }
    return line, 0, -1;
  }

  /** The place is where the backward scan of the joined text stops. */
  ghost predicate IsStart(lines: seq<string>, place: Place, out: Outcome) {
    match place
    case Found(m, p) => InText(lines, m, p) && out == Closed(Off(lines, m) + p)
    case Missing(_) => !out.Closed?
  }

  /** A backward scan never goes on with an empty stack. */
  lemma {:induction false} StartScanKeeps(line: string, looks: seq<Look>, i: int, s: string)
    requires -1 <= i < |line| && SkipsOrdinary(line, looks) && s != []
    ensures StartScanWith(line, looks, i, s).Open? ==> StartScanWith(line, looks, i, s).stack != []
    decreases i
  {
    if i >= 0 {
      var step := StartStep(line[i], looks[i], s);
      StartStepSkips(line[i], looks[i], s);
      if step.Back? {
        StartScanKeeps(line, looks, if step.skip then i - 2 else i - 1, step.stack);
      }
    }
  }

  /** The backward scan of the joined text from before (l, i + 1). */
  ghost function BackScan(lines: seq<string>, l: nat, i: int, s: string): Outcome
    requires l < |lines| && -1 <= i < |lines[l]|
  {
    LineAt(lines, l);
    JoinedSkips(lines);
    StartScanWith(Join(lines), AllLooks(lines), Off(lines, l) + i, s)
  }

  /** Before a line the scan goes on at the end of the line above. */
  ghost function BackScanOn(lines: seq<string>, l: nat, u: string): Outcome
    requires l < |lines|
  {
    if l == 0 then Open(u) else BackScan(lines, l - 1, |lines[l - 1]| - 1, u)
  }

  lemma {:induction false} BackScanOnExact(lines: seq<string>, l: nat, u: string)
    requires l < |lines| && SkipsOrdinary(Join(lines), AllLooks(lines)) && Off(lines, l) <= |Join(lines)|
    ensures StartScanWith(Join(lines), AllLooks(lines), Off(lines, l) - 1, u) == BackScanOn(lines, l, u)
  {
    if l > 0 { LineAt(lines, l - 1); }
  }

  lemma {:induction false} BackScanPart(lines: seq<string>, l: nat, i: int, s: string)
    requires l < |lines| && -1 <= i < |lines[l]|
    ensures BackScan(lines, l, i, s) == match StartScan(lines[l], i, s)
                                        case Closed(p) => Closed(Off(lines, l) + p)
                                        case Dead => Dead
                                        case Open(u) => BackScanOn(lines, l, u)
  {
    LineAt(lines, l);
    AllLooksAt(lines, l);
    JoinedSkips(lines);
    LooksSkipOrdinary(lines[l]);
    if StartScan(lines[l], i, s).Open? { BackScanOnExact(lines, l, StartScan(lines[l], i, s).stack); }
    StartScanPart(Join(lines), AllLooks(lines), Off(lines, l), lines[l], Looks(lines[l]), i, s);
  }

  lemma {:induction false} ReverseIsScan(lines: seq<string>, l: nat, i: int, s: string)
    requires l < |lines| && -1 <= i < |lines[l]| && s != []
    ensures IsStart(lines, ReverseFrom(lines, l, StartScan(lines[l], i, s)), BackScan(lines, l, i, s))
    decreases l
  {
    var out := StartScan(lines[l], i, s);
    BackScanPart(lines, l, i, s);
    LooksSkipOrdinary(lines[l]);
    StartScanKeeps(lines[l], Looks(lines[l]), i, s);
    if out.Open? && l > 0 {
      ReverseIsScan(lines, l - 1, |lines[l - 1]| - 1, out.stack);
    }
  }

  lemma {:induction false} StartScanFirst(line: string, c: nat)
    requires c < |line| && IsCloser(line[c])
    ensures StartScan(line, c, []) == StartScan(line, c - 1, [line[c]])
  {
    StartScanOne(line, c, []);
    assert StartStep(line[c], LookAt(line, c), []) == Back([line[c]], false);
  }

  lemma {:induction false} SameStart(lines: seq<string>, place: Place, out: Outcome, l: nat, p: nat)
    requires IsStart(lines, place, out) && InText(lines, l, p)
    ensures place == Found(l, p) <==> out == Closed(Off(lines, l) + p)
  {
    if place.Found? && Off(lines, place.line) + place.col == Off(lines, l) + p {
      OffUnique(lines, place.line, place.col, l, p);
    }
  }

  lemma {:induction false} CloserInMirror(t: string, looks: seq<Look>, c: nat)
    requires c < |t| && SkipsOrdinary(t, looks) && IsCloser(t[c])
    ensures var k := |t| - 1 - c;
            && Mirror(t)[k] == Flip(t[c])
            && EndScanWith(Mirror(t), BackLooks(t, looks), k + 1, [Flip(t[c])])
               == OutcomeInMirror(|t|, StartScanWith(t, looks, c - 1, [t[c]]))
  {
    assert c > 0 ==> !Passed(t, looks, c - 1);
    assert Flipped([t[c]]) == [Flip(t[c])];
    StartMirrored(t, looks, c - 1, [t[c]]);
    MirrorIndex(t, |t| - 1 - c);
  }

  lemma {:induction false} EnclosedInMirror(t: string, p: nat, c: nat)
    requires p <= c < |t|
    ensures Enclosed(t[p..c + 1]) <==> Enclosed(Mirror(t)[|t| - 1 - c..|t| - p])
  {
    MirrorSlice(t, p, c + 1);
    EnclosedMirror(t[p..c + 1]);
  }

  /** Started before a closer, a backward scan stops at the start of the enclosed word. */
  lemma {:induction false} StartScanEncloses(t: string, looks: seq<Look>, c: nat, p: nat)
    requires c < |t| && SkipsOrdinary(t, looks) && IsCloser(t[c])
    ensures StartScanWith(t, looks, c - 1, [t[c]]) == Closed(p) <==> p < c && Enclosed(t[p..c + 1])
  {
    CloserInMirror(t, looks, c);
    EndScanEncloses(Mirror(t), BackLooks(t, looks), |t| - 1 - c, |t| - p);
    if p <= c { EnclosedInMirror(t, p, c); }
  }

  lemma {:induction false} ReverseFromCloser(lines: seq<string>, m: nat, c: nat)
    requires InText(lines, m, c) && IsCloser(lines[m][c])
    ensures IsStart(lines, Reverse(lines, m, c), BackScan(lines, m, c - 1, [lines[m][c]]))
  {
    StartScanFirst(lines[m], c);
    ReverseIsScan(lines, m, c - 1, [lines[m][c]]);
  }

  lemma {:induction false} BackScanEncloses(lines: seq<string>, m: nat, c: nat, a: nat)
    requires InText(lines, m, c) && IsCloser(lines[m][c])
    ensures BackScan(lines, m, c - 1, [lines[m][c]]) == Closed(a)
       <==> a < Off(lines, m) + c < |Join(lines)| && Enclosed(Join(lines)[a..Off(lines, m) + c + 1])
  {
    OffBound(lines, m, c);
    JoinedSkips(lines);
    StartScanEncloses(Join(lines), AllLooks(lines), Off(lines, m) + c, a);
  }

  /** Started on ) ] or }, ReverseCloseExpression succeeds exactly at the beginning of the
      enclosed word that ends there. */
  lemma {:induction false} ReverseExact(lines: seq<string>, l: nat, p: nat, m: nat, c: nat)
    requires InText(lines, m, c) && IsCloser(lines[m][c])
    ensures Reverse(lines, m, c) == Found(l, p) <==> EnclosedBetween(lines, l, p, m, c)
  {
    ReverseFromCloser(lines, m, c);
    if InText(lines, l, p) {
      SameStart(lines, Reverse(lines, m, c), BackScan(lines, m, c - 1, [lines[m][c]]), l, p);
      BackScanEncloses(lines, m, c, Off(lines, l) + p);
    }
  }

  /** Neither search does anything from another character. */
  lemma {:induction false} Elsewhere(lines: seq<string>, l: nat, p: nat)
    requires InText(lines, l, p)
    ensures !IsOpener(lines[l][p]) && lines[l][p] != '<' ==> Close(lines, l, p) == Missing(l)
    ensures !IsCloser(lines[l][p]) && lines[l][p] != '>' ==> Reverse(lines, l, p) == Missing(l)
  {
  }

  // ---------------------------------------------------------------- mutual inversion

  /** CloseExpression from the opener at (l, p) ends after (m, c) exactly when
      ReverseCloseExpression from (m, c) ends at (l, p). */
  ghost predicate InverseAt(lines: seq<string>, l: nat, p: nat, m: nat, c: nat)
    requires InText(lines, l, p) && InText(lines, m, c)
  {
    Close(lines, l, p) == Found(m, c + 1) <==> Reverse(lines, m, c) == Found(l, p)
  }

  /** A '>' at the bottom of the stack is only ever closed by a '<'. */
  lemma {:induction false} AngleBottom(line: string, looks: seq<Look>, i: int, s: string)
    requires -1 <= i < |line| && SkipsOrdinary(line, looks) && s != [] && s[0] == '>'
    ensures match StartScanWith(line, looks, i, s)
            case Closed(p) => 0 <= p <= i && line[p] == '<'
            case Dead => true
            case Open(u) => u != [] && u[0] == '>'
    decreases i
  {
    if i >= 0 {
      AngleBottomStep(line[i], looks[i], s);
      StartStepSkips(line[i], looks[i], s);
      var step := StartStep(line[i], looks[i], s);
      if step.Back? { AngleBottom(line, looks, if step.skip then i - 2 else i - 1, step.stack); }
    }
  }

  lemma {:induction false} AngleBottomStep(c: char, look: Look, s: string)
    requires s != [] && s[0] == '>'
    ensures match StartStep(c, look, s)
            case Back(u, _) => u != [] && u[0] == '>'
            case BackStop(found) => found ==> c == '<'
  {
    WithoutTopsPrefix(s, '>');
  }

  lemma {:induction false} WithoutTopsPrefix(s: string, c: char)
    ensures WithoutTops(s, c) <= s
    ensures s != [] && s[0] == c && WithoutTops(s, c) != [] ==> |WithoutTops(s, c)| > 1
  {
    if s != [] && Top(s) == c { WithoutTopsPrefix(Front(s), c); }
    else if |s| == 1 { assert s[0] == Top(s); }
  }

  lemma {:induction false} AngleBottomReverse(lines: seq<string>, l: nat, i: int, s: string)
    requires l < |lines| && -1 <= i < |lines[l]| && s != [] && s[0] == '>'
    ensures match ReverseFrom(lines, l, StartScan(lines[l], i, s))
            case Found(m, p) => InText(lines, m, p) && lines[m][p] == '<'
            case Missing(_) => true
    decreases l
  {
    LooksSkipOrdinary(lines[l]);
    AngleBottom(lines[l], Looks(lines[l]), i, s);
    var out := StartScan(lines[l], i, s);
    if out.Open? && l > 0 {
      AngleBottomReverse(lines, l - 1, |lines[l - 1]| - 1, out.stack);
    }
  }

  /** Forward and backward matching are mutual inverses for every opener ( [ { and every
      position (m, c), unless (m, c) is a '>' that the backward scanner skips. */
  lemma {:induction false} MutualInverse(lines: seq<string>, l: nat, p: nat, m: nat, c: nat)
    requires InText(lines, l, p) && IsOpener(lines[l][p]) && InText(lines, m, c)
    requires !(lines[m][c] == '>' && SkippedClose(lines[m], c))
    ensures InverseAt(lines, l, p, m, c)
  {
    CloseExact(lines, l, p, m, c + 1);
    if IsCloser(lines[m][c]) {
      ReverseExact(lines, l, p, m, c);
    } else {
      CloseEndsOnCloser(lines, l, p);
      if lines[m][c] == '>' {
        StartScanOne(lines[m], c, []);
        assert [] + ['>'] == ['>'];
        AngleBottomReverse(lines, m, c - 1, ['>']);
      }
    }
  }

  /** With an empty stack, the backward scanner passes over a stretch without brackets,
      angles and semicolons. */
  lemma {:induction false} EmptyStackPasses(line: string, k: int, i: int)
    requires -1 <= k <= i < |line|
    requires forall j :: k < j <= i ==> !IsBracket(line[j]) && line[j] != '<' && line[j] != '>' && line[j] != ';'
    ensures StartScan(line, i, []) == StartScan(line, k, [])
    decreases i
  {
    if k < i {
      StartScanOne(line, i, []);
      EmptyStackPasses(line, k, i - 1);
    }
  }

  /** What stands left of a skipped '>' does the skipping: some suffix of the line, put
      after "()", is a line on which the two directions disagree. */
  ghost predicate InverseFails(line: string, i: nat, k: nat)
    requires k <= i < |line|
  {
    var u, c := "()" + line[k..], 2 + i - k;
    && u[c] == '>' && SkippedClose(u, c)
    && Reverse([u], 0, c) == Found(0, 0)
    && Close([u], 0, 0) == Found(0, 2)
    && !InverseAt([u], 0, 0, 0, c)
  }

  /** The condition of MutualInverse cannot be dropped: every text that makes the backward
      scanner skip a '>' also occurs, from the look-behind on, in a line where the two
      directions disagree. */
  lemma {:induction false} SkippedCloseBreaksInverse(line: string, i: nat)
    requires i < |line| && line[i] == '>' && SkippedClose(line, i)
    ensures exists k :: 0 <= k <= i && InverseFails(line, i, k)
  {
    if line[i - 1] == '-' || !EndsWithOperator(line[..i]) {
      SkippedAfterOne(line, i);
      assert InverseFails(line, i, i - 1);
    } else {
      var k := OperatorIn(line, i);
      SkippedAfterOperator(line, i, k);
      assert InverseFails(line, i, k);
    }
  }

  lemma {:induction false} OperatorIn(line: string, i: nat) returns (k: nat)
    requires i <= |line| && EndsWithOperator(line[..i])
    ensures k + 8 <= i && line[k..k + 8] == "operator" && forall j :: k + 8 <= j < i ==> IsSpace(line[j])
  {
    var s := line[..i];
    k := OperatorStart(s);
    assert line[k..k + 8] == s[k..k + 8];
    assert forall j :: 0 <= j < i ==> line[j] == s[j];
  }

  lemma {:induction false} CloseOfUnit(rest: string)
    ensures Close(["()" + rest], 0, 0) == Found(0, 2)
  {
    var u := "()" + rest;
    EndScanOne(u, 0, []);
    assert [] + [u[0]] == ['('];
    EndScanOne(u, 1, ['(']);
    assert WithoutTops(['('], '<') == ['('];
  }

  lemma {:induction false} ReverseOfUnit(u: string)
    requires |u| >= 2 && u[0] == '(' && u[1] == ')'
    ensures StartScan(u, 1, []) == Closed(0)
  {
    StartScanOne(u, 1, []);
    assert [] + [u[1]] == [')'];
    StartScanOne(u, 0, [')']);
    assert WithoutTops([')'], '>') == [')'];
  }

  lemma {:induction false} SkippedAfterOne(line: string, i: nat)
    requires i < |line| && line[i] == '>' && SkippedClose(line, i)
    requires line[i - 1] == '-' || !EndsWithOperator(line[..i])
    ensures InverseFails(line, i, i - 1)
  {
    var u := "()" + line[i - 1..];
    assert u[2] == line[i - 1] && u[3] == line[i];
    if line[i - 1] != '-' { assert u[4] == line[i + 1] && u[5] == line[i + 2]; }
    assert SkippedClose(u, 3);
    StartScanOne(u, 3, []);
    ReverseOfUnit(u);
    CloseOfUnit(line[i - 1..]);
    InverseFailsBy(line, i, i - 1, u, 3);
  }

  lemma {:induction false} SkippedAfterOperator(line: string, i: nat, k: nat)
    requires i < |line| && line[i] == '>' && k + 8 <= i
    requires line[k..k + 8] == "operator"
    requires forall j :: k + 8 <= j < i ==> IsSpace(line[j])
    ensures InverseFails(line, i, k)
  {
    var rest, spaces := line[k..], line[k + 8..i];
    OperatorRest(line, i, k);
    UnitFails(rest, spaces);
    InverseFailsBy(line, i, k, "()" + rest, 2 + i - k);
  }

  lemma {:induction false} OperatorRest(line: string, i: nat, k: nat)
    requires i < |line| && k + 8 <= i && line[k..k + 8] == "operator"
    ensures line[k..][..i - k] == "operator" + line[k + 8..i]
  {
    assert line[k..i] == line[k..k + 8] + line[k + 8..i];
  }

  lemma {:induction false} UnitFails(rest: string, spaces: string)
    requires |rest| > |spaces| + 8 && rest[..|spaces| + 8] == "operator" + spaces && rest[|spaces| + 8] == '>'
    requires forall j :: 0 <= j < |spaces| ==> IsSpace(spaces[j])
    ensures var u, c := "()" + rest, |spaces| + 10;
            && u[c] == '>' && SkippedClose(u, c)
            && Reverse([u], 0, c) == Found(0, 0) && Close([u], 0, 0) == Found(0, 2)
  {
    var u, c := "()" + rest, |spaces| + 10;
    UnitOperator(rest, spaces);
    OperatorSpaces(spaces);
    SkippedByOperator(u, c);
    ReverseOverOperator(u, c, spaces);
    CloseOfUnit(rest);
  }

  lemma {:induction false} SkippedByOperator(u: string, c: nat)
    requires 0 < c < |u| && EndsWithOperator(u[..c])
    ensures SkippedClose(u, c)
  {
  }

  lemma {:induction false} InverseFailsBy(line: string, i: nat, k: nat, u: string, c: nat)
    requires k <= i < |line| && u == "()" + line[k..] && c == 2 + i - k && u[c] == '>'
    requires SkippedClose(u, c) && Reverse([u], 0, c) == Found(0, 0) && Close([u], 0, 0) == Found(0, 2)
    ensures InverseFails(line, i, k)
  {
  }

  lemma {:induction false} UnitOperator(rest: string, spaces: string)
    requires |rest| >= |spaces| + 8 && rest[..|spaces| + 8] == "operator" + spaces
    ensures ("()" + rest)[..|spaces| + 10] == "()operator" + spaces
  {
    assert ("()" + rest)[..|spaces| + 10] == "()" + rest[..|spaces| + 8];
    assert "()operator" == "()" + "operator";
  }

  lemma {:induction false} ReverseOverOperator(u: string, c: nat, spaces: string)
    requires c < |u| && u[..c] == "()operator" + spaces && u[c] == '>' && SkippedClose(u, c)
    requires forall j :: 0 <= j < |spaces| ==> IsSpace(spaces[j])
    ensures Reverse([u], 0, c) == Found(0, 0)
  {
    StartScanOne(u, c, []);
    forall j | 1 < j <= c - 2
      ensures !IsBracket(u[j]) && u[j] != '<' && u[j] != '>' && u[j] != ';'
    {
      assert u[j] == u[..c][j];
      if j < 10 { assert u[j] == "()operator"[j]; } else { assert u[j] == spaces[j - 10]; }
    }
    EmptyStackPasses(u, 1, c - 2);
    assert u[0] == u[..c][0] && u[1] == u[..c][1];
    ReverseOfUnit(u);
  }

  lemma {:induction false} OperatorSpaces(spaces: string)
    requires forall j :: 0 <= j < |spaces| ==> IsSpace(spaces[j])
    ensures EndsWithOperator("()operator" + spaces)
  {
    StripRightAppend("()operator", spaces);
    assert "()operator"[2..] == "operator";
  }

  /** On the line made of front and of this line from k on, with the '>' skipped or not as on
      this line, the two directions agree for every opener. */
  ghost predicate InverseBehind(line: string, i: nat, k: nat, front: string)
    requires k <= i < |line|
  {
    var u, c := front + line[k..], |front| + i - k;
    SkippedClose(u, c) == SkippedClose(line, i)
    ==> forall p :: 0 <= p < |u| && IsOpener(u[p]) ==> InverseAt([u], 0, p, 0, c)
  }

  /** Exactly when a '>' is safe: whatever text replaces the part of the line to the left of
      the look-behind, the directions agree, if and only if the '>' is not skipped. */
  lemma {:induction false} InverseExact(line: string, i: nat)
    requires i < |line| && line[i] == '>'
    ensures (forall k: nat, front: string :: k <= i ==> InverseBehind(line, i, k, front))
       <==> !SkippedClose(line, i)
  {
    if SkippedClose(line, i) {
      SkippedCloseBreaksInverse(line, i);
      var k :| 0 <= k <= i && InverseFails(line, i, k);
      assert !InverseBehind(line, i, k, "()") by {
        var u := "()" + line[k..];
        assert IsOpener(u[0]);
      }
    } else {
      forall k: nat, front: string | k <= i ensures InverseBehind(line, i, k, front) {
        InverseNotSkipped(line, i, k, front);
      }
    }
  }

  lemma {:induction false} InverseNotSkipped(line: string, i: nat, k: nat, front: string)
    requires k <= i < |line| && line[i] == '>' && !SkippedClose(line, i)
    ensures InverseBehind(line, i, k, front)
  {
    var u, c := front + line[k..], |front| + i - k;
    if !SkippedClose(u, c) {
      forall p | 0 <= p < |u| && IsOpener(u[p]) ensures InverseAt([u], 0, p, 0, c) {
        MutualInverse([u], 0, p, 0, c);
      }
    }
  }
}
