/** CloseExpression from '<' and ReverseCloseExpression from '>'. */
module TemplateMatching {
  // Each succeeds exactly at the other end of the angle group of the grammar, over any number of
  // lines; what a success says about the text; and which angles can be relied on.

  import opened AngleGrammar
  import opened BracketGrammar
  import opened ExpressionMatching
  import opened ExpressionScan
  import opened ScanLaws
  import opened Texts

  // ---------------------------------------------------------------- the roles of a text

  ghost function ForwardRoles(lines: seq<string>): (roles: seq<Role>)
    ensures |roles| == |Join(lines)|
  {
    JoinedSkips(lines);
    Roles(Join(lines), AllLooks(lines))
  }

  ghost function BackwardRoles(lines: seq<string>): (roles: seq<Role>)
    ensures |roles| == |Join(lines)|
  {
    JoinedSkips(lines);
    BackRoles(Join(lines), AllLooks(lines))
  }

  /** The text from (l, p) up to and including (m, c) is an angle group. */
  ghost predicate GroupBetween(lines: seq<string>, roles: seq<Role>, l: nat, p: nat, m: nat, c: nat) {
    && InText(lines, l, p) && InText(lines, m, c)
    && AngleGroup(Join(lines), roles, Off(lines, l) + p, Off(lines, m) + c + 1)
  }

  lemma {:induction false} ForwardRoleAt(lines: seq<string>, l: nat, p: nat)
    requires InText(lines, l, p)
    ensures Off(lines, l) + p < |Join(lines)|
    ensures ForwardRoles(lines)[Off(lines, l) + p] == RoleOf(lines[l][p], LookAt(lines[l], p))
  {
    LooksAt(lines, l, p);
  }

  /** Forward: a '<' opens a group unless it comes after a '<' or after operator; the second '<' of
      a shift closes what the first one opened; a '>' closes unless it comes after '-' or operator. */
  lemma {:induction false} ForwardRoleExact(line: string, i: nat)
    requires i < |line|
    ensures RoleOf(line[i], LookAt(line, i)) == Opens <==>
            line[i] == '<' && !(i > 0 && (line[i - 1] == '<' || OperatorBefore(line[..i])))
    ensures RoleOf(line[i], LookAt(line, i)) == Closes <==>
            || (line[i] == '<' && i > 0 && line[i - 1] == '<')
            || (line[i] == '>' && !(i > 0 && (line[i - 1] == '-' || OperatorBefore(line[..i - 1]))))
  {
    OperatorExact(line[..i]);
    if i > 0 { OperatorExact(line[..i - 1]); }
  }

  // ---------------------------------------------------------------- the backward roles of a line

  /** How many '<' follow each other from i on. */
  function Shifts(line: string, i: nat): nat
    decreases |line| - i
  {
    if i < |line| && line[i] == '<' then 1 + Shifts(line, i + 1) else 0
  }

  lemma {:induction false} PassedShift(line: string, i: nat)
    requires i < |line| && line[i] == '<'
    ensures Passed(line, Looks(line), i) <==> Shifts(line, i) % 2 == 0
    decreases |line| - i
  {
    if i + 1 < |line| {
      assert Looks(line)[i + 1] == LookAt(line, i + 1);
      BeforeSkipped(line, i + 1);
      if line[i + 1] == '<' {
        PassedShift(line, i + 1);
      }
    }
  }

  lemma {:induction false} BeforeSkipped(line: string, i: nat)
    requires 0 < i < |line|
    ensures SkippedClose(line, i) ==> !IsAngle(line[i - 1])
  {
    if EndsWithOperator(line[..i]) {
      OperatorLast(line[..i]);
      assert Top(line[..i]) == line[i - 1];
    }
  }

  /** Backward: of the '<' that follow each other only the first one of an odd number opens a group;
      a '>' closes one unless it comes after '-' or operator or stands alone before a '='. */
  lemma {:induction false} BackRoleExact(line: string, i: nat)
    requires i < |line|
    ensures BackRole(line, Looks(line), i) == Opens <==>
            line[i] == '<' && !(i > 0 && line[i - 1] == '<') && Shifts(line, i) % 2 == 1
    ensures BackRole(line, Looks(line), i) == Closes <==>
            line[i] == '>'
            && !(i > 0 && (|| line[i - 1] == '-'
                           || (IsSpace(line[i - 1]) && i + 2 < |line| && line[i + 1] == '=' && IsSpace(line[i + 2]))
                           || OperatorBefore(line[..i])))
  {
    assert Looks(line)[i] == LookAt(line, i);
    OperatorExact(line[..i]);
    if line[i] == '<' {
      PassedShift(line, i);
    } else if line[i] == '>' && i + 1 < |line| {
      assert Looks(line)[i + 1] == LookAt(line, i + 1);
      BeforeSkipped(line, i + 1);
    }
  }

  /** No look-behind sees beyond the beginning of its line. */
  lemma {:induction false} FirstOfLine(lines: seq<string>, l: nat)
    requires l <= |lines| && Off(lines, l) < |Join(lines)|
    ensures |AllLooks(lines)| == |Join(lines)|
    ensures !AllLooks(lines)[Off(lines, l)].shift && !AllLooks(lines)[Off(lines, l)].skip
    decreases |lines| - l
  {
    JoinedSkips(lines);
    if l == |lines| {
      OffTotal(lines);
    } else if lines[l] == [] {
      LineAt(lines, l);
      FirstOfLine(lines, l + 1);
    } else {
      LooksAt(lines, l, 0);
    }
  }

  lemma {:induction false} PassedAt(lines: seq<string>, m: nat, c: nat)
    requires InText(lines, m, c)
    ensures Off(lines, m) + c < |Join(lines)| == |AllLooks(lines)|
    ensures Passed(Join(lines), AllLooks(lines), Off(lines, m) + c) == Passed(lines[m], Looks(lines[m]), c)
    decreases |lines[m]| - c
  {
    LooksAt(lines, m, c);
    if c + 1 < |lines[m]| {
      LooksAt(lines, m, c + 1);
      assert Looks(lines[m])[c + 1] == LookAt(lines[m], c + 1);
      PassedAt(lines, m, c + 1);
    } else {
      LineAt(lines, m);
      if Off(lines, m + 1) < |Join(lines)| { FirstOfLine(lines, m + 1); }
    }
  }

  lemma {:induction false} BackwardRoleAt(lines: seq<string>, m: nat, c: nat)
    requires InText(lines, m, c)
    ensures Off(lines, m) + c < |Join(lines)|
    ensures BackwardRoles(lines)[Off(lines, m) + c] == BackRole(lines[m], Looks(lines[m]), c)
  {
    LooksAt(lines, m, c);
    assert Looks(lines[m])[c] == LookAt(lines[m], c);
    PassedAt(lines, m, c);
  }

  // ---------------------------------------------------------------- forwards

  /** The scan of the joined text behind the '<' at (l, p). */
  ghost function AngleScan(lines: seq<string>, l: nat, p: nat): Outcome
    requires InText(lines, l, p)
  {
    LooksAt(lines, l, p);
    EndScanWith(Join(lines), AllLooks(lines), Off(lines, l) + p + 1, ['<'])
  }

  lemma {:induction false} CloseFromAngle(lines: seq<string>, l: nat, p: nat)
    requires InText(lines, l, p) && lines[l][p] == '<' && !SkippedOpen(lines[l], p)
    requires !StartsShiftOrLess(lines[l], p)
    ensures IsEnd(lines, Close(lines, l, p), AngleScan(lines, l, p))
  {
    EndScanOne(lines[l], p, []);
    assert [] + ['<'] == ['<'];
    CloseIsScan(lines, l, p + 1, ['<']);
  }

  lemma {:induction false} AngleScanGroups(lines: seq<string>, l: nat, p: nat, b: int)
    requires InText(lines, l, p) && lines[l][p] == '<' && !SkippedOpen(lines[l], p)
    ensures AngleScan(lines, l, p) == Closed(b) <==> AngleGroup(Join(lines), ForwardRoles(lines), Off(lines, l) + p, b)
  {
    LooksAt(lines, l, p);
    AngleScanExact(Join(lines), AllLooks(lines), Off(lines, l) + p, b);
  }

  /** Behind a << there is no group. */
  lemma {:induction false} ShiftIsDead(lines: seq<string>, l: nat, p: nat)
    requires InText(lines, l, p + 1) && lines[l][p] == '<' && lines[l][p + 1] == '<'
    ensures AngleScan(lines, l, p) == Dead
  {
    LooksAt(lines, l, p);
    LooksAt(lines, l, p + 1);
  }

  predicate BeforeEquals(line: string, p: nat) {
    p + 1 < |line| && line[p + 1] == '='
  }

  /** Started on a '<' that is pushed, CloseExpression succeeds exactly at the end of the angle group
      that begins there, unless a '=' comes next, over any number of lines. */
  lemma {:induction false} AngleCloseExact(lines: seq<string>, l: nat, p: nat, m: nat, q: nat)
    requires InText(lines, l, p) && lines[l][p] == '<' && !SkippedOpen(lines[l], p)
    ensures Close(lines, l, p) == Found(m, q) <==>
            !BeforeEquals(lines[l], p) && q > 0 && GroupBetween(lines, ForwardRoles(lines), l, p, m, q - 1)
  {
    if StartsShiftOrLess(lines[l], p) {
      if lines[l][p + 1] == '<' {
        ShiftIsDead(lines, l, p);
        if q > 0 && InText(lines, m, q - 1) { AngleScanGroups(lines, l, p, Off(lines, m) + q); }
      }
    } else {
      CloseFromAngle(lines, l, p);
      if q > 0 && InText(lines, m, q - 1) {
        SameEnd(lines, Close(lines, l, p), AngleScan(lines, l, p), m, q);
        AngleScanGroups(lines, l, p, Off(lines, m) + q);
      }
    }
  }

  // ---------------------------------------------------------------- backwards

  lemma {:induction false} BackScanGroups(lines: seq<string>, m: nat, c: nat, a: nat)
    requires InText(lines, m, c) && lines[m][c] == '>' && !SkippedClose(lines[m], c)
    ensures BackScan(lines, m, c - 1, ['>']) == Closed(a)
       <==> a < |Join(lines)| && AngleGroup(Join(lines), BackwardRoles(lines), a, Off(lines, m) + c + 1)
  {
    LooksAt(lines, m, c);
    JoinedSkips(lines);
    BackwardRoleAt(lines, m, c);
    BackRoleExact(lines[m], c);
    OperatorExact(lines[m][..c]);
    AngleStartExact(Join(lines), AllLooks(lines), Off(lines, m) + c, a);
  }

  lemma {:induction false} ReverseFromAngle(lines: seq<string>, m: nat, c: nat)
    requires InText(lines, m, c) && lines[m][c] == '>' && !SkippedClose(lines[m], c)
    ensures IsStart(lines, Reverse(lines, m, c), BackScan(lines, m, c - 1, ['>']))
  {
    StartScanOne(lines[m], c, []);
    assert [] + ['>'] == ['>'];
    ReverseIsScan(lines, m, c - 1, ['>']);
  }

  /** Started on a '>' that is pushed, ReverseCloseExpression succeeds exactly at the start of the
      angle group that ends there. */
  lemma {:induction false} AngleReverseExact(lines: seq<string>, l: nat, p: nat, m: nat, c: nat)
    requires InText(lines, m, c) && lines[m][c] == '>' && !SkippedClose(lines[m], c)
    ensures Reverse(lines, m, c) == Found(l, p) <==> GroupBetween(lines, BackwardRoles(lines), l, p, m, c)
  {
    ReverseFromAngle(lines, m, c);
    if InText(lines, l, p) {
      OffBound(lines, l, p);
      SameStart(lines, Reverse(lines, m, c), BackScan(lines, m, c - 1, ['>']), l, p);
      BackScanGroups(lines, m, c, Off(lines, l) + p);
    }
  }

  /** Where the two directions take the angles in between for the same, they are inverse at '<' and '>'
      too. */
  lemma {:induction false} AngleInverse(lines: seq<string>, l: nat, p: nat, m: nat, c: nat)
    requires InText(lines, l, p) && lines[l][p] == '<' && !SkippedOpen(lines[l], p) && !BeforeEquals(lines[l], p)
    requires InText(lines, m, c) && lines[m][c] == '>' && !SkippedClose(lines[m], c)
    requires var a, b := Off(lines, l) + p, Off(lines, m) + c + 1;
             a < b <= |Join(lines)| ==> ForwardRoles(lines)[a..b] == BackwardRoles(lines)[a..b]
    ensures Close(lines, l, p) == Found(m, c + 1) <==> Reverse(lines, m, c) == Found(l, p)
  {
    var a, b := Off(lines, l) + p, Off(lines, m) + c + 1;
    AngleCloseExact(lines, l, p, m, c + 1);
    AngleReverseExact(lines, l, p, m, c);
    OffBound(lines, m, c);
    if a < b {
      GroupRoles(Join(lines), ForwardRoles(lines), BackwardRoles(lines), a, b);
      GroupRoles(Join(lines), BackwardRoles(lines), ForwardRoles(lines), a, b);
    }
  }

  // ---------------------------------------------------------------- plain text

  ghost predicate Occurs(line: string, word: string) {
    exists i: nat :: At(line, i, word)
  }

  /** No angle of the line is anything but what it looks like. */
  ghost predicate Calm(line: string) {
    && !Occurs(line, "<<") && !Occurs(line, "<=") && !Occurs(line, "->") && !Occurs(line, ">=")
    && !Occurs(line, "operator")
  }

  lemma {:induction false} NotTwo(line: string, i: nat, a: char, b: char)
    requires !Occurs(line, [a, b]) && i + 1 < |line|
    ensures !(line[i] == a && line[i + 1] == b)
  {
    assert line[i] == a && line[i + 1] == b ==> At(line, i, [a, b]);
  }

  lemma {:induction false} Apart(line: string, a: char, b: char)
    requires forall i :: 0 <= i < |line| - 1 && line[i] == a ==> line[i + 1] != b
    ensures !Occurs(line, [a, b])
  {
    forall i: nat ensures !At(line, i, [a, b]) {
      PairAt(line, i, a, b);
    }
  }

  lemma {:induction false} PairAt(line: string, i: nat, a: char, b: char)
    ensures At(line, i, [a, b]) <==> i + 1 < |line| && line[i] == a && line[i + 1] == b
  {
    AtParts(line, i, [a], [b]);
    AtOne(line, i, a);
    AtOne(line, i + 1, b);
    assert [a, b] == [a] + [b];
  }

  lemma {:induction false} NoOperator(line: string, i: nat)
    requires !Occurs(line, "operator") && i <= |line|
    ensures !OperatorBefore(line[..i])
  {
    var s := line[..i];
    forall k: nat | k <= |s| - 8 ensures !IsOperatorAt(s, k) {
      assert !At(line, k, "operator");
      assert s[k..k + 8] == line[k..k + 8];
    }
  }

  lemma {:induction false} CalmRoles(line: string, i: nat)
    requires Calm(line) && i < |line|
    ensures RoleOf(line[i], LookAt(line, i)) == LooksLike(line)[i] == BackRole(line, Looks(line), i)
  {
    ForwardRoleExact(line, i);
    BackRoleExact(line, i);
    NoOperator(line, i);
    if i > 0 {
      NoOperator(line, i - 1);
      NotTwo(line, i - 1, '<', '<');
      NotTwo(line, i - 1, '-', '>');
    }
    if i + 1 < |line| {
      NotTwo(line, i, '<', '<');
      NotTwo(line, i, '>', '=');
    }
    assert Shifts(line, i + 1) == 0 || line[i] != '<';
  }

  /** Between two places of the text, all lines are calm. */
  ghost predicate CalmBetween(lines: seq<string>, l: nat, m: nat) {
    forall k :: l <= k <= m && k < |lines| ==> Calm(lines[k])
  }

  /** Every offset of the text belongs to a line. */
  lemma {:induction false} LineOf(lines: seq<string>, k: nat, n: nat) returns (m: nat, c: nat)
    requires n <= |lines| && k < Off(lines, n)
    ensures m < n && InText(lines, m, c) && Off(lines, m) + c == k
  {
    LineAt(lines, n - 1);
    if Off(lines, n - 1) <= k {
      m, c := n - 1, k - Off(lines, n - 1);
    } else {
      m, c := LineOf(lines, k, n - 1);
    }
  }

  lemma {:induction false} CalmTextRoles(lines: seq<string>, l: nat, m: nat, k: nat)
    requires l <= m < |lines| && CalmBetween(lines, l, m) && Off(lines, l) <= k < Off(lines, m + 1)
    ensures k < |Join(lines)|
    ensures ForwardRoles(lines)[k] == LooksLike(Join(lines))[k] == BackwardRoles(lines)[k]
  {
    var n, c := LineOf(lines, k, m + 1);
    if n < l { OffMonotone(lines, n + 1, l); LineAt(lines, n); }
    LooksAt(lines, n, c);
    ForwardRoleAt(lines, n, c);
    BackwardRoleAt(lines, n, c);
    CalmRoles(lines[n], c);
  }

  /** On calm lines both searches find the other end of every angle group that is one to the eye. */
  lemma {:induction false} AngleComplete(lines: seq<string>, l: nat, p: nat, m: nat, c: nat, w: AngleWord)
    requires InText(lines, l, p) && InText(lines, m, c) && l <= m && CalmBetween(lines, l, m) && Plainly(w)
    requires Off(lines, m) + c == Off(lines, l) + p + |w.Text()| + 1
    requires At(Join(lines), Off(lines, l) + p, ['<'] + w.Text() + ['>'])
    ensures Close(lines, l, p) == Found(m, c + 1) && Reverse(lines, m, c) == Found(l, p)
  {
    LineAt(lines, m);
    CalmPlainGroup(lines, l, m, Off(lines, l) + p, w);
    CalmFinds(lines, l, p, m, c);
  }

  lemma {:induction false} CalmPlainGroup(lines: seq<string>, l: nat, m: nat, a: nat, w: AngleWord)
    requires l <= m < |lines| && CalmBetween(lines, l, m) && Plainly(w) && At(Join(lines), a, ['<'] + w.Text() + ['>'])
    requires Off(lines, l) <= a && a + |w.Text()| + 2 <= Off(lines, m + 1)
    ensures AngleGroup(Join(lines), ForwardRoles(lines), a, a + |w.Text()| + 2)
    ensures AngleGroup(Join(lines), BackwardRoles(lines), a, a + |w.Text()| + 2)
  {
    CalmGroup(lines, l, m, a, ['<'] + w.Text() + ['>']);
    PlainGroup(Join(lines), ForwardRoles(lines), a, w);
    PlainGroup(Join(lines), BackwardRoles(lines), a, w);
  }

  lemma {:induction false} CalmFinds(lines: seq<string>, l: nat, p: nat, m: nat, c: nat)
    requires InText(lines, l, p) && InText(lines, m, c) && Calm(lines[l]) && Calm(lines[m])
    requires GroupBetween(lines, ForwardRoles(lines), l, p, m, c)
    requires GroupBetween(lines, BackwardRoles(lines), l, p, m, c)
    ensures Close(lines, l, p) == Found(m, c + 1) && Reverse(lines, m, c) == Found(l, p)
  {
    OffBound(lines, l, p);
    OffBound(lines, m, c);
    GroupIsTemplate(Join(lines), ForwardRoles(lines), Off(lines, l) + p, Off(lines, m) + c + 1);
    CalmStart(lines[l], p);
    CalmEnd(lines[m], c);
    AngleCloseExact(lines, l, p, m, c + 1);
    AngleReverseExact(lines, l, p, m, c);
  }

  lemma {:induction false} OneLine(line: string)
    ensures Join([line]) == line && Off([line], 0) == 0
  {
    assert [line][..0] == [];
    assert Join([line]) == Join([]) + line;
  }

  lemma {:induction false} NestedWord() returns (w: AngleWord)
    ensures Plainly(w) && w.Text() == "b<c>"
  {
    w := Ordinary('b', Angles('<', Ordinary('c', Done), '>', Done));
    assert w.Text() == "b<c>" && w.Roles() == [Neither, Opens, Neither, Closes];
  }

  lemma {:induction false} CalmList(line: string)
    requires line == "a<b<c>>"
    ensures Calm(line)
  {
    Apart(line, '<', '<');
    Apart(line, '<', '=');
    Apart(line, '-', '>');
    Apart(line, '>', '=');
  }

  /** The > that ends a nested list ends no more than that. */
  lemma {:induction false} NestedList()
    ensures Close(["a<b<c>>"], 0, 1) == Found(0, 7) && Reverse(["a<b<c>>"], 0, 6) == Found(0, 1)
  {
    var line := "a<b<c>>";
    var w := NestedWord();
    OneLine(line);
    CalmList(line);
    AngleComplete([line], 0, 1, 0, 6, w);
  }

  lemma {:induction false} CalmStart(line: string, p: nat)
    requires Calm(line) && p < |line| && line[p] == '<'
    ensures !SkippedOpen(line, p) && !BeforeEquals(line, p)
  {
    NoOperator(line, p);
    OperatorExact(line[..p]);
    if p > 0 { NotTwo(line, p - 1, '<', '<'); }
    if p + 1 < |line| { NotTwo(line, p, '<', '='); }
  }

  lemma {:induction false} CalmEnd(line: string, c: nat)
    requires Calm(line) && c < |line| && line[c] == '>'
    ensures !SkippedClose(line, c)
  {
    NoOperator(line, c);
    OperatorExact(line[..c]);
    if c > 0 { NotTwo(line, c - 1, '-', '>'); }
    if c + 1 < |line| { NotTwo(line, c, '>', '='); }
  }

  lemma {:induction false} CalmGroup(lines: seq<string>, l: nat, m: nat, a: nat, u: string)
    requires l <= m < |lines| && CalmBetween(lines, l, m) && Off(lines, l) <= a && a + |u| <= Off(lines, m + 1)
    requires At(Join(lines), a, u)
    ensures At(ForwardRoles(lines), a, LooksLike(u)) && At(BackwardRoles(lines), a, LooksLike(u))
  {
    forall k | 0 <= k < |u|
      ensures ForwardRoles(lines)[a + k] == LooksLike(u)[k] == BackwardRoles(lines)[a + k]
    {
      CalmTextRoles(lines, l, m, a + k);
    }
  }

  // ---------------------------------------------------------------- what a success says

  /** If CloseExpression succeeds from (l, p), the text up to its end is a template argument
      list. */
  ghost predicate SoundAt(lines: seq<string>, l: nat, p: nat)
    requires InText(lines, l, p)
  {
    match Close(lines, l, p)
    case Missing(_) => true
    case Found(m, q) =>
      && q > 0 && InText(lines, m, q - 1) && lines[m][q - 1] == '>'
      && var a, b := Off(lines, l) + p, Off(lines, m) + q;
         a < b <= |Join(lines)| && TemplateArguments(Join(lines)[a..b])
  }

  /** Started on a '<' that is pushed, every success is a template argument list. */
  lemma {:induction false} AngleSound(lines: seq<string>, l: nat, p: nat)
    requires InText(lines, l, p) && lines[l][p] == '<' && !SkippedOpen(lines[l], p)
    ensures SoundAt(lines, l, p)
  {
    var place := Close(lines, l, p);
    if place.Found? {
      AngleCloseExact(lines, l, p, place.line, place.col);
      OffBound(lines, place.line, place.col - 1);
      GroupIsTemplate(Join(lines), ForwardRoles(lines), Off(lines, l) + p, Off(lines, place.line) + place.col);
    }
  }

  /** Exactly when a '<' can be relied on: whatever lines stand before, whatever follows on
      the line and after it, a success is a template argument list, if and only if the text
      up to the '<' does not end in << or in the word operator and <. */
  lemma {:induction false} AngleExact(pre: string)
    requires pre != [] && Top(pre) == '<'
    ensures (forall before: seq<string>, post: string, after: seq<string> ::
               SoundAt(before + [pre + post] + after, |before|, |pre| - 1))
       <==> !SkippedOpen(pre, |pre| - 1)
  {
    if SkippedOpen(pre, |pre| - 1) {
      SkippedUnsound(pre);
      assert !SoundAt([] + [pre + "()"] + [], 0, |pre| - 1) by {
        assert [] + [pre + "()"] + [] == [pre + "()"];
      }
    } else {
      forall before: seq<string>, post: string, after: seq<string>
        ensures SoundAt(before + [pre + post] + after, |before|, |pre| - 1)
      {
        var lines := before + [pre + post] + after;
        assert lines[|before|] == pre + post;
        SkippedOpenPrefix(pre, post);
        AngleSound(lines, |before|, |pre| - 1);
      }
    }
  }

  lemma {:induction false} SkippedOpenPrefix(pre: string, post: string)
    requires pre != []
    ensures SkippedOpen(pre + post, |pre| - 1) == SkippedOpen(pre, |pre| - 1)
  {
    assert (pre + post)[..|pre| - 1] == pre[..|pre| - 1];
  }

  /** A skipped '<' leaves the stack empty, so the next bracket pair is reported instead. */
  lemma {:induction false} SkippedUnsound(pre: string)
    requires pre != [] && Top(pre) == '<' && SkippedOpen(pre, |pre| - 1)
    ensures Close([pre + "()"], 0, |pre| - 1) == Found(0, |pre| + 2)
    ensures !SoundAt([pre + "()"], 0, |pre| - 1)
  {
    var line, n := pre + "()", |pre|;
    SkippedOpenPrefix(pre, "()");
    EndScanOne(line, n - 1, []);
    SkipFirst(LookAt(line, n - 1));
    EndScanFirst(line, n);
    EndScanOne(line, n + 1, ['(']);
    assert WithoutTops(['('], '<') == ['('];
    assert Close([line], 0, n - 1) == Found(0, n + 2);
    assert line[n + 1] == ')';
  }

  lemma {:induction false} SkipFirst(look: Look)
    requires look.shift || look.less
    ensures EndStep('<', look, []) == Keep([])
  {
  }

  /** If ReverseCloseExpression succeeds from (m, c), the text from where it ends up to (m, c) is a
      template argument list. */
  ghost predicate ReverseSoundAt(lines: seq<string>, m: nat, c: nat)
    requires InText(lines, m, c)
  {
    match Reverse(lines, m, c)
    case Missing(_) => true
    case Found(l, p) =>
      && InText(lines, l, p) && lines[l][p] == '<'
      && var a, b := Off(lines, l) + p, Off(lines, m) + c;
         a < b < |Join(lines)| && TemplateArguments(Join(lines)[a..b + 1])
  }

  /** Started on a '>' that is pushed, every success is a template argument list. */
  lemma {:induction false} ReverseAngleSound(lines: seq<string>, m: nat, c: nat)
    requires InText(lines, m, c) && lines[m][c] == '>' && !SkippedClose(lines[m], c)
    ensures ReverseSoundAt(lines, m, c)
  {
    var place := Reverse(lines, m, c);
    if place.Found? {
      AngleReverseExact(lines, place.line, place.col, m, c);
      OffBound(lines, place.line, place.col);
      GroupIsTemplate(Join(lines), BackwardRoles(lines), Off(lines, place.line) + place.col, Off(lines, m) + c + 1);
    }
  }

  /** As InverseBehind: on the line made of front and of this line from k on, with the '>' skipped
      or not as on this line, a success is a template argument list. */
  ghost predicate ReverseSoundBehind(line: string, i: nat, k: nat, front: string)
    requires k <= i < |line|
  {
    var u, c := front + line[k..], |front| + i - k;
    SkippedClose(u, c) == SkippedClose(line, i) ==> ReverseSoundAt([u], 0, c)
  }

  /** Exactly when a '>' can be relied on: whatever text replaces the part of the line to the left
      of the look-behind, a success is a template argument list, if and only if the '>' is not
      skipped. */
  lemma {:induction false} ReverseAngleExact(line: string, i: nat)
    requires i < |line| && line[i] == '>'
    ensures (forall k: nat, front: string :: k <= i ==> ReverseSoundBehind(line, i, k, front))
       <==> !SkippedClose(line, i)
  {
    if SkippedClose(line, i) {
      SkippedCloseBreaksInverse(line, i);
      var k :| 0 <= k <= i && InverseFails(line, i, k);
      assert !ReverseSoundBehind(line, i, k, "()") by {
        assert ("()" + line[k..])[0] == '(';
      }
    } else {
      forall k: nat, front: string | k <= i ensures ReverseSoundBehind(line, i, k, front) {
        var u, c := front + line[k..], |front| + i - k;
        if !SkippedClose(u, c) { ReverseAngleSound([u], 0, c); }
      }
    }
  }
}
