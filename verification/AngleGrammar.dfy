/**
 Template argument lists, and the scans that were started on '<'.  A grammar of its own for
 nested angle brackets: ordinary characters, bracketed groups in which angles mean nothing, and
 angle groups.  Which angles open and close is said by their roles.  A scan started on an opening
 angle stops exactly at the end of the angle group that begins there.
 */
module AngleGrammar {
  import opened BracketGrammar
  import opened ExpressionScan
  import opened ScanLaws
  import opened Texts

  // ---------------------------------------------------------------- the grammar

  /** What a character is taken for outside brackets. */
  datatype Role = Opens | Closes | Neither

  predicate IsAngle(c: char) { c == '<' || c == '>' }

  /** The roles inside brackets are arbitrary. */
  datatype AngleWord =
    | Done
    | Ordinary(c: char, rest: AngleWord)
    | Brackets(bracket: char, word: Word, roles: seq<Role>, rest: AngleWord)
    | Angles(open: char, inside: AngleWord, close: char, rest: AngleWord)
  {
    ghost predicate Valid() {
      match this
      case Done => true
      case Ordinary(c, rest) => !IsBracket(c) && c != ';' && rest.Valid()
      case Brackets(bracket, word, roles, rest) =>
        IsOpener(bracket) && word.Valid() && |roles| == |GroupText(bracket, word)| && rest.Valid()
      case Angles(open, inside, close, rest) =>
        IsAngle(open) && inside.Valid() && IsAngle(close) && rest.Valid()
    }

    ghost function Text(): string {
      match this
      case Done => []
      case Ordinary(c, rest) => [c] + rest.Text()
      case Brackets(bracket, word, _, rest) => GroupText(bracket, word) + rest.Text()
      case Angles(open, inside, close, rest) => [open] + inside.Text() + [close] + rest.Text()
    }

    ghost function Roles(): (roles: seq<Role>)
      ensures Valid() ==> |roles| == |Text()|
    {
      match this
      case Done => []
      case Ordinary(_, rest) => [Neither] + rest.Roles()
      case Brackets(_, _, roles, rest) => roles + rest.Roles()
      case Angles(_, inside, _, rest) => [Opens] + inside.Roles() + [Closes] + rest.Roles()
    }
  }

  ghost function GroupText(bracket: char, word: Word): string {
    [bracket] + word.Text() + [CloserOf(bracket)]
  }

  /** The word stands in t at i, with the roles that it gives its characters. */
  ghost predicate Stands(t: string, roles: seq<Role>, i: nat, w: AngleWord) {
    |t| == |roles| && w.Valid() && At(t, i, w.Text()) && At(roles, i, w.Roles())
  }

  /** t[p..q] is an angle group: an opening '<', a word, and a closing '>'. */
  ghost predicate AngleGroup(t: string, roles: seq<Role>, p: nat, q: int) {
    exists w: AngleWord :: GroupBy(t, roles, p, q, w)
  }

  ghost predicate GroupBy(t: string, roles: seq<Role>, p: nat, q: int, w: AngleWord) {
    && Stands(t, roles, p, Angles('<', w, '>', Done)) && q == p + |w.Text()| + 2
  }

  lemma {:induction false} StandsOrdinary(t: string, roles: seq<Role>, i: nat, c: char, rest: AngleWord)
    ensures Stands(t, roles, i, Ordinary(c, rest)) <==>
            && |t| == |roles| && i < |t| && t[i] == c && !IsBracket(c) && c != ';' && roles[i] == Neither
            && Stands(t, roles, i + 1, rest)
  {
    AtParts(t, i, [c], rest.Text());
    AtParts(roles, i, [Neither], rest.Roles());
    AtOne(t, i, c);
    AtOne(roles, i, Neither);
  }

  lemma {:induction false} AtOne<T>(t: seq<T>, i: nat, x: T)
    ensures At(t, i, [x]) <==> i < |t| && t[i] == x
  {
    assert At(t, i, [x]) ==> t[i + 0] == [x][0];
  }

  lemma {:induction false} StandsBrackets(
      t: string, roles: seq<Role>, i: nat, bracket: char, word: Word, inner: seq<Role>, rest: AngleWord)
    ensures Stands(t, roles, i, Brackets(bracket, word, inner, rest)) <==>
            && |t| == |roles| && IsOpener(bracket) && word.Valid() && |inner| == |GroupText(bracket, word)|
            && At(t, i, GroupText(bracket, word)) && At(roles, i, inner)
            && Stands(t, roles, i + |inner|, rest)
  {
    AtParts(t, i, GroupText(bracket, word), rest.Text());
    AtParts(roles, i, inner, rest.Roles());
  }

  lemma {:induction false} StandsAngles(
      t: string, roles: seq<Role>, i: nat, open: char, inside: AngleWord, close: char, rest: AngleWord)
    requires |t| == |roles| && inside.Valid() && rest.Valid() && IsAngle(open) && IsAngle(close)
    ensures var j := i + 1 + |inside.Text()|;
            Stands(t, roles, i, Angles(open, inside, close, rest)) <==>
            && i < |t| && t[i] == open && roles[i] == Opens && Stands(t, roles, i + 1, inside)
            && j < |t| && t[j] == close && roles[j] == Closes && Stands(t, roles, j + 1, rest)
  {
    AnglesValid(open, inside, close, rest);
    BothFour(t, roles, i, open, inside.Text(), close, rest.Text(), inside.Roles(), rest.Roles());
    StandsTexts(t, roles, i, Angles(open, inside, close, rest),
                [open] + inside.Text() + [close] + rest.Text(), [Opens] + inside.Roles() + [Closes] + rest.Roles());
    StandsTexts(t, roles, i + 1, inside, inside.Text(), inside.Roles());
    StandsTexts(t, roles, i + 2 + |inside.Text()|, rest, rest.Text(), rest.Roles());
  }

  lemma {:induction false} AnglesValid(open: char, inside: AngleWord, close: char, rest: AngleWord)
    requires inside.Valid() && rest.Valid() && IsAngle(open) && IsAngle(close)
    ensures Angles(open, inside, close, rest).Valid()
  {
  }

  lemma {:induction false} StandsTexts(t: string, roles: seq<Role>, i: nat, w: AngleWord, u: string, r: seq<Role>)
    requires |t| == |roles| && w.Valid() && w.Text() == u && w.Roles() == r
    ensures Stands(t, roles, i, w) <==> At(t, i, u) && At(roles, i, r)
  {
  }

  lemma {:induction false} BothFour(
      t: string, roles: seq<Role>, i: nat, open: char, u: string, close: char, v: string, ru: seq<Role>, rv: seq<Role>)
    requires |u| == |ru| && |v| == |rv| && |t| == |roles|
    ensures var j := i + 1 + |u|;
            At(t, i, [open] + u + [close] + v) && At(roles, i, [Opens] + ru + [Closes] + rv) <==>
            && i < |t| && t[i] == open && roles[i] == Opens && At(t, i + 1, u) && At(roles, i + 1, ru)
            && j < |t| && t[j] == close && roles[j] == Closes && At(t, j + 1, v) && At(roles, j + 1, rv)
  {
    AtFour(t, i, open, u, close, v);
    AtFour(roles, i, Opens, ru, Closes, rv);
  }

  lemma {:induction false} AtFour<T>(t: seq<T>, i: nat, a: T, u: seq<T>, b: T, v: seq<T>)
    ensures var j := i + 1 + |u|;
            At(t, i, [a] + u + [b] + v) <==>
            i < |t| && t[i] == a && At(t, i + 1, u) && j < |t| && t[j] == b && At(t, j + 1, v)
  {
    AtParts(t, i, [a] + u + [b], v);
    AtParts(t, i, [a] + u, [b]);
    AtParts(t, i, [a], u);
    AtOne(t, i, a);
    AtOne(t, i + 1 + |u|, b);
  }

  // ---------------------------------------------------------------- roles

  /** What the forward scan takes a character for. */
  function RoleOf(c: char, look: Look): Role {
    if c == '<' then (if look.shift then Closes else if look.less then Neither else Opens)
    else if c == '>' then (if look.greater then Neither else Closes)
    else Neither
  }

  function Roles(t: string, looks: seq<Look>): (roles: seq<Role>)
    requires |t| == |looks|
    ensures |roles| == |t|
  {
    seq(|t|, i requires 0 <= i < |t| => RoleOf(t[i], looks[i]))
  }

  // ---------------------------------------------------------------- completeness

  /** From i to j the scan leaves the stack as it is. */
  ghost predicate Passes(t: string, looks: seq<Look>, i: nat, s: string, j: nat)
    requires |t| == |looks|
  {
    i <= j <= |t| && EndScanWith(t, looks, i, s) == EndScanWith(t, looks, j, s)
  }

  /** The scan passes over a word. */
  lemma {:induction false} ScanPasses(t: string, looks: seq<Look>, i: nat, s: string, w: AngleWord)
    requires |t| == |looks| && s != [] && Stands(t, Roles(t, looks), i, w)
    ensures Passes(t, looks, i, s, i + |w.Text()|)
    decreases w, 1
  {
    var roles := Roles(t, looks);
    match w
    case Done =>
    case Ordinary(c, rest) =>
      StandsOrdinary(t, roles, i, c, rest);
      ScanPassesOther(t, looks, i, s);
      ScanPasses(t, looks, i + 1, s, rest);
    case Brackets(bracket, word, inner, rest) =>
      StandsBrackets(t, roles, i, bracket, word, inner, rest);
      ScanPassesGroup(t, looks, i, s, bracket, word);
      ScanPasses(t, looks, i + |inner|, s, rest);
    case Angles(_, _, _, _) =>
      ScanPassesNested(t, looks, i, s, w);
  }

  lemma {:induction false} ScanPassesNested(t: string, looks: seq<Look>, i: nat, s: string, w: AngleWord)
    requires |t| == |looks| && s != [] && w.Angles? && Stands(t, Roles(t, looks), i, w)
    ensures Passes(t, looks, i, s, i + |w.Text()|)
    decreases w, 0
  {
    var j := i + 1 + |w.inside.Text()|;
    StandsAngles(t, Roles(t, looks), i, w.open, w.inside, w.close, w.rest);
    ScanPasses(t, looks, i + 1, s + ['<'], w.inside);
    ScanPasses(t, looks, j + 1, s, w.rest);
    ScanPassesAngles(t, looks, i, s, j, j + 1 + |w.rest.Text()|);
    assert |w.Text()| == |w.inside.Text()| + 2 + |w.rest.Text()|;
  }

  lemma {:induction false} ScanPassesOther(t: string, looks: seq<Look>, i: nat, s: string)
    requires i < |t| == |looks| && !IsBracket(t[i]) && t[i] != ';' && RoleOf(t[i], looks[i]) == Neither
    ensures Passes(t, looks, i, s, i + 1)
  {
    assert EndStep(t[i], looks[i], s) == Keep(s);
  }

  lemma {:induction false} ScanPassesAngles(t: string, looks: seq<Look>, i: nat, s: string, j: nat, k: nat)
    requires i < j < |t| == |looks| && s != [] && RoleOf(t[i], looks[i]) == Opens && RoleOf(t[j], looks[j]) == Closes
    requires Passes(t, looks, i + 1, s + ['<'], j) && Passes(t, looks, j + 1, s, k)
    ensures Passes(t, looks, i, s, k)
  {
    assert Front(s + ['<']) == s;
  }

  lemma {:induction false} ScanPassesGroup(
      t: string, looks: seq<Look>, i: nat, s: string, bracket: char, word: Word)
    requires |t| == |looks| && s != [] && IsOpener(bracket) && word.Valid()
    requires At(t, i, GroupText(bracket, word))
    ensures Passes(t, looks, i, s, i + |GroupText(bracket, word)|)
  {
    var g := GroupText(bracket, word);
    var q := i + |g|;
    assert t[i] == g[0];
    assert t[i..q] == g;
    assert EnclosedBy(t[i..q], word);
    EndScanEncloses(t, looks, i, q);
    OneOpener(t[i]);
    EndScanOver(t, looks, i + 1, s, [t[i]]);
  }

  // ---------------------------------------------------------------- soundness

  /** A stack of '<' only. */
  ghost predicate AllAngles(s: string) {
    forall k :: 0 <= k < |s| ==> s[k] == '<'
  }

  /** From i on there is a word and a closing angle for each of n open ones; the last of these is a
      '>' just before q. */
  ghost predicate Closing(t: string, roles: seq<Role>, i: nat, q: int, n: nat, ws: seq<AngleWord>)
    requires |t| == |roles|
    decreases n
  {
    if n == 0 then i == q && ws == []
    else
      && |ws| == n && Stands(t, roles, i, ws[0])
      && var j := i + |ws[0].Text()|;
         && j < |t| && roles[j] == Closes && IsAngle(t[j]) && (n == 1 ==> t[j] == '>')
         && Closing(t, roles, j + 1, q, n - 1, ws[1..])
  }

  lemma {:induction false} ClosingPush(t: string, roles: seq<Role>, i: nat, q: int, n: nat, us: seq<AngleWord>)
    returns (ws: seq<AngleWord>)
    requires i < |t| == |roles| && IsAngle(t[i]) && roles[i] == Opens && n > 0
    requires Closing(t, roles, i + 1, q, n + 1, us)
    ensures Closing(t, roles, i, q, n, ws)
  {
    var j := i + 1 + |us[0].Text()|;
    StandsAngles(t, roles, i, t[i], us[0], t[j], us[1]);
    ws := [Angles(t[i], us[0], t[j], us[1])] + us[2..];
    assert us[1..][0] == us[1] && ws[1..] == us[1..][1..];
  }

  lemma {:induction false} ClosingOther(t: string, roles: seq<Role>, i: nat, q: int, n: nat, us: seq<AngleWord>)
    returns (ws: seq<AngleWord>)
    requires i < |t| == |roles| && !IsBracket(t[i]) && t[i] != ';' && roles[i] == Neither && n > 0
    requires Closing(t, roles, i + 1, q, n, us)
    ensures Closing(t, roles, i, q, n, ws)
  {
    StandsOrdinary(t, roles, i, t[i], us[0]);
    ws := [Ordinary(t[i], us[0])] + us[1..];
    assert ws[1..] == us[1..];
  }

  lemma {:induction false} ClosingGroup(
      t: string, roles: seq<Role>, i: nat, e: nat, q: int, n: nat, us: seq<AngleWord>) returns (ws: seq<AngleWord>)
    requires |t| == |roles| && i + 1 < e <= |t| && IsOpener(t[i]) && Enclosed(t[i..e]) && n > 0
    requires Closing(t, roles, e, q, n, us)
    ensures Closing(t, roles, i, q, n, ws)
  {
    var word: Word :| word.Valid() && EnclosedBy(t[i..e], word);
    assert t[i..e] == GroupText(t[i], word);
    StandsBrackets(t, roles, i, t[i], word, roles[i..e], us[0]);
    ws := [Brackets(t[i], word, roles[i..e], us[0])] + us[1..];
    assert ws[1..] == us[1..];
  }

  lemma {:induction false} ClosingPop(t: string, roles: seq<Role>, i: nat, q: int, n: nat, us: seq<AngleWord>)
    returns (ws: seq<AngleWord>)
    requires i < |t| == |roles| && roles[i] == Closes && IsAngle(t[i]) && n > 0 && (n == 1 ==> t[i] == '>')
    requires Closing(t, roles, i + 1, q, n - 1, us)
    ensures Closing(t, roles, i, q, n, ws)
  {
    ws := [Done] + us;
    assert ws[1..] == us;
  }

  lemma {:induction false} AnglesDropped(s: string)
    requires AllAngles(s)
    ensures WithoutTops(s, '<') == []
  {
    if s != [] { AnglesDropped(Front(s)); }
  }

  /** What a step on a stack of '<' can be when the scan goes on to succeed. */
  lemma {:induction false} StepOnAngles(c: char, look: Look, s: string)
    requires AllAngles(s) && s != [] && !IsOpener(c)
    ensures match EndStep(c, look, s)
            case Stop(closed) => closed ==> c == '>' && |s| == 1 && RoleOf(c, look) == Closes
            case Keep(u) =>
              && !IsCloser(c) && c != ';' && AllAngles(u) && u != []
              && (match RoleOf(c, look)
                  case Opens => |u| == |s| + 1
                  case Closes => |u| == |s| - 1
                  case Neither => u == s)
  {
    if IsCloser(c) || c == ';' { AnglesDropped(s); }
  }

  /** A successful scan reads a word and a closing angle for each open one. */
  lemma {:induction false} ScanReads(t: string, looks: seq<Look>, i: nat, s: string) returns (ws: seq<AngleWord>)
    requires i <= |t| == |looks| && s != [] && AllAngles(s) && EndScanWith(t, looks, i, s).Closed?
    ensures Closing(t, Roles(t, looks), i, EndScanWith(t, looks, i, s).pos, |s|, ws)
    decreases |t| - i
  {
    var roles, q := Roles(t, looks), EndScanWith(t, looks, i, s).pos;
    if IsOpener(t[i]) {
      var e := GroupEnds(t, looks, i, s);
      var us := ScanReads(t, looks, e, s);
      ws := ClosingGroup(t, roles, i, e, q, |s|, us);
    } else {
      StepOnAngles(t[i], looks[i], s);
      var step := EndStep(t[i], looks[i], s);
      if step.Stop? {
        ws := ClosingPop(t, roles, i, q, 1, []);
      } else {
        var us := ScanReads(t, looks, i + 1, step.stack);
        match roles[i]
        case Opens => ws := ClosingPush(t, roles, i, q, |s|, us);
        case Closes => ws := ClosingPop(t, roles, i, q, |s|, us);
        case Neither => ws := ClosingOther(t, roles, i, q, |s|, us);
      }
    }
  }

  lemma {:induction false} GroupEnds(t: string, looks: seq<Look>, i: nat, s: string) returns (e: nat)
    requires i < |t| == |looks| && s != [] && IsOpener(t[i]) && EndScanWith(t, looks, i, s).Closed?
    ensures i + 1 < e <= |t| && Enclosed(t[i..e]) && EndScanWith(t, looks, i, s) == EndScanWith(t, looks, e, s)
  {
    OneOpener(t[i]);
    EndScanOver(t, looks, i + 1, s, [t[i]]);
    e := EndScanWith(t, looks, i + 1, [t[i]]).pos;
    EndScanEncloses(t, looks, i, e);
  }

  /** Started behind an opening '<', a scan stops exactly at the end of its angle group. */
  lemma {:induction false} AngleScanExact(t: string, looks: seq<Look>, p: nat, q: int)
    requires p < |t| == |looks| && t[p] == '<' && RoleOf(t[p], looks[p]) == Opens
    ensures EndScanWith(t, looks, p + 1, ['<']) == Closed(q) <==> AngleGroup(t, Roles(t, looks), p, q)
  {
    if EndScanWith(t, looks, p + 1, ['<']) == Closed(q) { AngleScanSound(t, looks, p, q); }
    if AngleGroup(t, Roles(t, looks), p, q) { AngleScanComplete(t, looks, p, q); }
  }

  lemma {:induction false} AngleScanSound(t: string, looks: seq<Look>, p: nat, q: int)
    requires p < |t| == |looks| && t[p] == '<' && RoleOf(t[p], looks[p]) == Opens
    requires EndScanWith(t, looks, p + 1, ['<']) == Closed(q)
    ensures AngleGroup(t, Roles(t, looks), p, q)
  {
    var ws := ScanReads(t, looks, p + 1, ['<']);
    StandsAngles(t, Roles(t, looks), p, '<', ws[0], '>', Done);
    assert GroupBy(t, Roles(t, looks), p, q, ws[0]);
  }

  lemma {:induction false} AngleScanComplete(t: string, looks: seq<Look>, p: nat, q: int)
    requires p < |t| == |looks| && t[p] == '<' && RoleOf(t[p], looks[p]) == Opens
    requires AngleGroup(t, Roles(t, looks), p, q)
    ensures EndScanWith(t, looks, p + 1, ['<']) == Closed(q)
  {
    var w: AngleWord :| GroupBy(t, Roles(t, looks), p, q, w);
    StandsAngles(t, Roles(t, looks), p, '<', w, '>', Done);
    ScanPasses(t, looks, p + 1, ['<'], w);
  }

  // ---------------------------------------------------------------- reading backwards

  function Turned(role: Role): Role {
    match role
    case Opens => Closes
    case Closes => Opens
    case Neither => Neither
  }

  /** The roles seen in a mirror. */
  ghost function MirrorRoles(roles: seq<Role>): (m: seq<Role>)
    ensures |m| == |roles|
  {
    if roles == [] then [] else MirrorRoles(roles[1..]) + [Turned(roles[0])]
  }

  lemma {:induction false} MirrorRolesIndex(roles: seq<Role>, j: nat)
    requires j < |roles|
    ensures MirrorRoles(roles)[j] == Turned(roles[|roles| - 1 - j])
  {
    if j < |roles| - 1 { MirrorRolesIndex(roles[1..], j); }
  }

  lemma {:induction false} MirrorRolesConcat(a: seq<Role>, b: seq<Role>)
    ensures MirrorRoles(a + b) == MirrorRoles(b) + MirrorRoles(a)
  {
    if a == [] {
      assert a + b == b;
      assert MirrorRoles(b) + [] == MirrorRoles(b);
    } else {
      assert (a + b)[1..] == a[1..] + b;
      MirrorRolesConcat(a[1..], b);
    }
  }

  ghost function AppendAngle(a: AngleWord, b: AngleWord): AngleWord {
    match a
    case Done => b
    case Ordinary(c, rest) => Ordinary(c, AppendAngle(rest, b))
    case Brackets(bracket, word, roles, rest) => Brackets(bracket, word, roles, AppendAngle(rest, b))
    case Angles(open, inside, close, rest) => Angles(open, inside, close, AppendAngle(rest, b))
  }

  /** a and then b. */
  ghost predicate IsJoined(w: AngleWord, a: AngleWord, b: AngleWord) {
    w.Valid() && w.Text() == a.Text() + b.Text() && w.Roles() == a.Roles() + b.Roles()
  }

  lemma {:induction false} Assoc<T>(a: seq<T>, b: seq<T>, c: seq<T>)
    ensures a + (b + c) == a + b + c
  {
  }

  lemma {:induction false} AppendAngleJoins(a: AngleWord, b: AngleWord)
    requires a.Valid() && b.Valid()
    ensures IsJoined(AppendAngle(a, b), a, b)
  {
    match a
    case Done =>
    case Ordinary(c, rest) =>
      AppendAngleJoins(rest, b);
      Assoc([c], rest.Text(), b.Text());
      Assoc([Neither], rest.Roles(), b.Roles());
    case Brackets(bracket, word, roles, rest) =>
      AppendAngleJoins(rest, b);
      Assoc(GroupText(bracket, word), rest.Text(), b.Text());
      Assoc(roles, rest.Roles(), b.Roles());
    case Angles(open, inside, close, rest) =>
      AppendAngleJoins(rest, b);
      Assoc([open] + inside.Text() + [close], rest.Text(), b.Text());
      Assoc([Opens] + inside.Roles() + [Closes], rest.Roles(), b.Roles());
  }

  ghost function MirrorAngle(w: AngleWord): AngleWord {
    match w
    case Done => Done
    case Ordinary(c, rest) => AppendAngle(MirrorAngle(rest), Ordinary(Flip(c), Done))
    case Brackets(bracket, word, roles, rest) =>
      AppendAngle(MirrorAngle(rest), Brackets(bracket, MirrorWord(word), MirrorRoles(roles), Done))
    case Angles(open, inside, close, rest) =>
      AppendAngle(MirrorAngle(rest), Angles(Flip(close), MirrorAngle(inside), Flip(open), Done))
  }

  ghost predicate IsMirror(m: AngleWord, w: AngleWord) {
    m.Valid() && m.Text() == Mirror(w.Text()) && m.Roles() == MirrorRoles(w.Roles())
  }

  lemma {:induction false} MirrorAngleExact(w: AngleWord)
    requires w.Valid()
    ensures IsMirror(MirrorAngle(w), w)
  {
    match w
    case Done =>
    case Ordinary(c, rest) =>
      MirrorAngleExact(rest);
      MirrorOrdinary(c);
      MirrorThen(Ordinary(c, Done), Ordinary(Flip(c), Done), rest, w);
    case Brackets(bracket, word, roles, rest) =>
      MirrorAngleExact(rest);
      MirrorBrackets(bracket, word, roles);
      MirrorThen(Brackets(bracket, word, roles, Done),
                 Brackets(bracket, MirrorWord(word), MirrorRoles(roles), Done), rest, w);
    case Angles(open, inside, close, rest) =>
      MirrorAngleExact(inside);
      MirrorAngleExact(rest);
      MirrorAngles(open, inside, close);
      MirrorThen(Angles(open, inside, close, Done),
                 Angles(Flip(close), MirrorAngle(inside), Flip(open), Done), rest, w);
  }

  lemma {:induction false} MirrorOrdinary(c: char)
    requires !IsBracket(c) && c != ';'
    ensures IsMirror(Ordinary(Flip(c), Done), Ordinary(c, Done))
  {
    assert Mirror([c]) == [Flip(c)] && MirrorRoles([Neither]) == [Neither];
    assert [c] + [] == [c] && [Neither] + [] == [Neither];
  }

  lemma {:induction false} MirrorBrackets(bracket: char, word: Word, roles: seq<Role>)
    requires IsOpener(bracket) && word.Valid() && |roles| == |GroupText(bracket, word)|
    ensures IsMirror(Brackets(bracket, MirrorWord(word), MirrorRoles(roles), Done),
                     Brackets(bracket, word, roles, Done))
  {
    MirrorWordText(word);
    MirrorEnclosed(bracket, word.Text());
    var g, m := GroupText(bracket, word), GroupText(bracket, MirrorWord(word));
    assert g + [] == g && m + [] == m && roles + [] == roles && MirrorRoles(roles) + [] == MirrorRoles(roles);
  }

  lemma {:induction false} MirrorAngles(open: char, inside: AngleWord, close: char)
    requires IsAngle(open) && IsAngle(close) && inside.Valid() && IsMirror(MirrorAngle(inside), inside)
    ensures IsMirror(Angles(Flip(close), MirrorAngle(inside), Flip(open), Done), Angles(open, inside, close, Done))
  {
    MirrorText(open, inside.Text(), close);
    MirrorRoleText(inside.Roles());
    NothingAfter([open] + inside.Text() + [close]);
    NothingAfter([Opens] + inside.Roles() + [Closes]);
    NothingAfter([Flip(close)] + MirrorAngle(inside).Text() + [Flip(open)]);
    NothingAfter([Opens] + MirrorAngle(inside).Roles() + [Closes]);
  }

  lemma {:induction false} NothingAfter<T>(u: seq<T>)
    ensures u + [] == u
  {
  }

  lemma {:induction false} MirrorText(a: char, u: string, b: char)
    ensures Mirror([a] + u + [b]) == [Flip(b)] + Mirror(u) + [Flip(a)]
  {
    MirrorConcat([a] + u, [b]);
    MirrorConcat([a], u);
    assert Mirror([a]) == [Flip(a)] && Mirror([b]) == [Flip(b)];
  }

  lemma {:induction false} MirrorRoleText(u: seq<Role>)
    ensures MirrorRoles([Opens] + u + [Closes]) == [Opens] + MirrorRoles(u) + [Closes]
  {
    MirrorRolesConcat([Opens] + u, [Closes]);
    MirrorRolesConcat([Opens], u);
    assert MirrorRoles([Opens]) == [Closes] && MirrorRoles([Closes]) == [Opens];
  }

  /** One part, mirrored to last, and the rest of a word. */
  lemma {:induction false} MirrorThen(part: AngleWord, last: AngleWord, rest: AngleWord, w: AngleWord)
    requires part.Valid() && IsMirror(last, part) && rest.Valid() && IsMirror(MirrorAngle(rest), rest)
    requires w == AppendAngle(part, rest)
    ensures IsMirror(AppendAngle(MirrorAngle(rest), last), w)
  {
    AppendAngleJoins(part, rest);
    AppendAngleJoins(MirrorAngle(rest), last);
    MirrorConcat(part.Text(), rest.Text());
    MirrorRolesConcat(part.Roles(), rest.Roles());
  }

  lemma {:induction false} AtMirror(t: string, i: nat, u: string)
    requires At(t, i, u)
    ensures At(Mirror(t), |t| - i - |u|, Mirror(u))
  {
    forall j | 0 <= j < |u| ensures Mirror(t)[|t| - i - |u| + j] == Mirror(u)[j] {
      MirrorIndex(t, |t| - i - |u| + j);
      MirrorIndex(u, j);
    }
  }

  lemma {:induction false} AtMirrorRoles(t: seq<Role>, i: nat, u: seq<Role>)
    requires At(t, i, u)
    ensures At(MirrorRoles(t), |t| - i - |u|, MirrorRoles(u))
  {
    forall j | 0 <= j < |u| ensures MirrorRoles(t)[|t| - i - |u| + j] == MirrorRoles(u)[j] {
      MirrorRolesIndex(t, |t| - i - |u| + j);
      MirrorRolesIndex(u, j);
    }
  }

  lemma {:induction false} GroupMirrored(t: string, roles: seq<Role>, p: nat, q: nat)
    requires q <= |t| && AngleGroup(t, roles, p, q)
    ensures p < |t| && AngleGroup(Mirror(t), MirrorRoles(roles), |t| - q, |t| - p)
  {
    var w: AngleWord :| GroupBy(t, roles, p, q, w);
    var g := Angles('<', w, '>', Done);
    MirrorAngleExact(w);
    MirrorAngles('<', w, '>');
    assert |g.Text()| == |w.Text()| + 2;
    StandsMirrored(t, roles, p, g, Angles('<', MirrorAngle(w), '>', Done));
    assert GroupBy(Mirror(t), MirrorRoles(roles), |t| - q, |t| - p, MirrorAngle(w));
  }

  lemma {:induction false} StandsMirrored(t: string, roles: seq<Role>, i: nat, w: AngleWord, m: AngleWord)
    requires Stands(t, roles, i, w) && IsMirror(m, w)
    ensures i + |w.Text()| <= |t| && Stands(Mirror(t), MirrorRoles(roles), |t| - i - |w.Text()|, m)
  {
    AtMirror(t, i, w.Text());
    AtMirrorRoles(roles, i, w.Roles());
  }

  lemma {:induction false} MirrorRolesTwice(roles: seq<Role>)
    ensures MirrorRoles(MirrorRoles(roles)) == roles
  {
    forall j | 0 <= j < |roles| ensures MirrorRoles(MirrorRoles(roles))[j] == roles[j] {
      MirrorRolesIndex(MirrorRoles(roles), j);
      MirrorRolesIndex(roles, |roles| - 1 - j);
    }
  }

  /** An angle group is one in both directions. */
  lemma {:induction false} GroupMirror(t: string, roles: seq<Role>, p: nat, q: nat)
    requires p < |t| && q <= |t|
    ensures AngleGroup(t, roles, p, q) <==> AngleGroup(Mirror(t), MirrorRoles(roles), |t| - q, |t| - p)
  {
    if AngleGroup(t, roles, p, q) { GroupMirrored(t, roles, p, q); }
    if AngleGroup(Mirror(t), MirrorRoles(roles), |t| - q, |t| - p) {
      MirrorTwice(t);
      MirrorRolesTwice(roles);
      GroupMirrored(Mirror(t), MirrorRoles(roles), |t| - q, |t| - p);
    }
  }

  /** What the backward scan takes a character for. */
  function BackRole(t: string, looks: seq<Look>, i: nat): Role
    requires i < |t| == |looks|
  {
    if !IsAngle(t[i]) || Ignores(t, looks, i) then Neither
    else if t[i] == '<' then Opens else Closes
  }

  function BackRoles(t: string, looks: seq<Look>): (roles: seq<Role>)
    requires |t| == |looks|
    ensures |roles| == |t|
  {
    seq(|t|, i requires 0 <= i < |t| => BackRole(t, looks, i))
  }

  lemma {:induction false} BackRolesMirrored(t: string, looks: seq<Look>)
    requires |t| == |looks|
    ensures Roles(Mirror(t), BackLooks(t, looks)) == MirrorRoles(BackRoles(t, looks))
  {
    forall k | 0 <= k < |t|
      ensures Roles(Mirror(t), BackLooks(t, looks))[k] == MirrorRoles(BackRoles(t, looks))[k]
    {
      MirrorIndex(t, k);
      MirrorRolesIndex(BackRoles(t, looks), k);
      assert BackLooks(t, looks)[k] == BackLook(t, looks, |t| - 1 - k);
    }
  }

  /** Started before a closing '>', a backward scan stops exactly at the start of its angle group. */
  lemma {:induction false} AngleStartExact(t: string, looks: seq<Look>, c: nat, p: nat)
    requires c < |t| && SkipsOrdinary(t, looks) && BackRole(t, looks, c) == Closes
    ensures StartScanWith(t, looks, c - 1, ['>']) == Closed(p)
       <==> p < |t| && AngleGroup(t, BackRoles(t, looks), p, c + 1)
  {
    StartInMirror(t, looks, c);
    AngleScanExact(Mirror(t), BackLooks(t, looks), |t| - 1 - c, |t| - p);
    BackRolesMirrored(t, looks);
    if p < |t| { GroupMirror(t, BackRoles(t, looks), p, c + 1); }
  }

  /** The backward scan from a closing '>' is the forward scan from an opening '<' of the mirror. */
  lemma {:induction false} StartInMirror(t: string, looks: seq<Look>, c: nat)
    requires c < |t| && SkipsOrdinary(t, looks) && BackRole(t, looks, c) == Closes
    ensures var m, back, k := Mirror(t), BackLooks(t, looks), |t| - 1 - c;
            && m[k] == '<' && RoleOf(m[k], back[k]) == Opens
            && EndScanWith(m, back, k + 1, ['<']) == OutcomeInMirror(|t|, StartScanWith(t, looks, c - 1, ['>']))
  {
    MirrorIndex(t, |t| - 1 - c);
    assert BackLooks(t, looks)[|t| - 1 - c] == BackLook(t, looks, c);
    assert c > 0 ==> !Passed(t, looks, c - 1);
    assert Flipped(['>']) == ['<'];
    StartMirrored(t, looks, c - 1, ['>']);
  }

  // ---------------------------------------------------------------- what an angle group is

  /** A '<', a word in which every bracket is well nested and every semicolon lies inside
      some bracket, and a '>'. */
  ghost predicate TemplateArguments(t: string) {
    exists w: Word :: w.Valid() && w.NoTopSemicolon() && IsAngled(t, w)
  }

  ghost predicate IsAngled(t: string, w: Word) {
    t == ['<'] + w.Text() + ['>']
  }

  /** The word with its angles taken for ordinary characters. */
  ghost function Flat(w: AngleWord): Word {
    match w
    case Done => Empty
    case Ordinary(c, rest) => Other(c, Flat(rest))
    case Brackets(bracket, word, _, rest) => Group(bracket, word, Flat(rest))
    case Angles(open, inside, close, rest) => Other(open, Append(Flat(inside), Other(close, Flat(rest))))
  }

  lemma {:induction false} FlatText(w: AngleWord)
    requires w.Valid()
    ensures Flat(w).Valid() && Flat(w).NoTopSemicolon() && Flat(w).Text() == w.Text()
  {
    match w
    case Done =>
    case Ordinary(c, rest) => FlatText(rest);
    case Brackets(bracket, word, _, rest) => FlatText(rest);
    case Angles(open, inside, close, rest) =>
      FlatText(inside);
      FlatText(rest);
      FlatAngles(open, Flat(inside), close, Flat(rest));
  }

  lemma {:induction false} FlatAngles(open: char, inside: Word, close: char, rest: Word)
    requires IsAngle(open) && IsAngle(close) && inside.Valid() && rest.Valid()
    requires inside.NoTopSemicolon() && rest.NoTopSemicolon()
    ensures var w := Other(open, Append(inside, Other(close, rest)));
            w.Valid() && w.NoTopSemicolon() && w.Text() == [open] + inside.Text() + [close] + rest.Text()
  {
    AppendText(inside, Other(close, rest));
    AppendFree(inside, Other(close, rest));
    Assoc([open] + inside.Text(), [close], rest.Text());
    Assoc([open], inside.Text(), [close] + rest.Text());
  }

  lemma {:induction false} AppendFree(a: Word, b: Word)
    requires a.NoTopSemicolon() && b.NoTopSemicolon()
    ensures Append(a, b).NoTopSemicolon()
  {
    match a
    case Empty =>
    case Other(_, rest) => AppendFree(rest, b);
    case Group(_, _, rest) => AppendFree(rest, b);
  }

  lemma {:induction false} GroupIsTemplate(t: string, roles: seq<Role>, p: nat, q: int)
    requires AngleGroup(t, roles, p, q)
    ensures p + 1 < q <= |t| && t[p] == '<' && t[q - 1] == '>' && TemplateArguments(t[p..q])
  {
    var w: AngleWord :| GroupBy(t, roles, p, q, w);
    var g := Angles('<', w, '>', Done).Text();
    FlatText(w);
    assert g == ['<'] + w.Text() + ['>'];
    assert t[p..q] == g;
    assert IsAngled(t[p..q], Flat(w));
  }

  /** Only the roles of the group itself matter. */
  lemma {:induction false} GroupRoles(t: string, roles: seq<Role>, others: seq<Role>, p: nat, q: nat)
    requires |t| == |roles| == |others| && p <= q <= |t| && roles[p..q] == others[p..q]
    ensures AngleGroup(t, roles, p, q) ==> AngleGroup(t, others, p, q)
  {
    if AngleGroup(t, roles, p, q) {
      var w: AngleWord :| GroupBy(t, roles, p, q, w);
      var g := Angles('<', w, '>', Done);
      assert |g.Text()| == q - p;
      forall j | 0 <= j < |g.Roles()| ensures others[p + j] == g.Roles()[j] {
        assert roles[p..q][j] == others[p..q][j];
      }
      assert GroupBy(t, others, p, q, w);
    }
  }

  // ---------------------------------------------------------------- angles that are what they look like

  function LooksLike(t: string): (roles: seq<Role>)
    ensures |roles| == |t|
  {
    seq(|t|, i requires 0 <= i < |t| => if t[i] == '<' then Opens else if t[i] == '>' then Closes else Neither)
  }

  /** Every '<' of the word opens a group and every '>' closes one. */
  ghost predicate Plainly(w: AngleWord) {
    w.Valid() && w.Roles() == LooksLike(w.Text())
  }

  lemma {:induction false} LooksLikeAngles(u: string)
    ensures LooksLike(['<'] + u + ['>']) == [Opens] + LooksLike(u) + [Closes]
  {
  }

  lemma {:induction false} PlainGroup(t: string, roles: seq<Role>, p: nat, w: AngleWord)
    requires |t| == |roles| && Plainly(w) && At(t, p, ['<'] + w.Text() + ['>'])
    requires At(roles, p, LooksLike(['<'] + w.Text() + ['>']))
    ensures AngleGroup(t, roles, p, p + |w.Text()| + 2)
  {
    var g, u := Angles('<', w, '>', Done), ['<'] + w.Text() + ['>'];
    LooksLikeAngles(w.Text());
    NothingAfter(u);
    NothingAfter([Opens] + w.Roles() + [Closes]);
    assert g.Roles() == [Opens] + w.Roles() + [Closes] + [];
    StandsTexts(t, roles, p, g, u, LooksLike(u));
    assert GroupBy(t, roles, p, p + |w.Text()| + 2, w);
  }
}
