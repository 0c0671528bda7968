/**
 Translating a changelog: at each place the first rule that matches takes a lexeme off the text,
 and the renderings of the lexemes are put together.  There is one way to cut a text like that,
 and nothing of it is lost.
 */
module ChangelogTranslator {
  import opened Texts
  import opened Wrappers

  datatype Rule = Heading | Bullet | ChangeType | Url | LocalIssueLink | PlainText

  datatype Token = Token(rule: Rule, lexeme: string)

  const RULES := [Heading, Bullet, ChangeType, Url, LocalIssueLink, PlainText]

  // ---------------------------------------------------------------- the rules

  /** The length of the longest prefix of such characters. */
  function Run(p: char -> bool, s: string): (n: nat)
    ensures n <= |s|
  {
    if s != [] && p(s[0]) then 1 + Run(p, s[1..]) else 0
  }

  predicate StartsAt(s: string, i: nat, prefix: string) {
    i + |prefix| <= |s| && s[i..i + |prefix|] == prefix
  }

  predicate IsHash(c: char) { c == '#' }

  predicate InLine(c: char) { c != '\n' }

  predicate InUrl(c: char) { !IsSpace(c) && c != '<' }

  /** One to six '#', a space, and the rest of the line. */
  function MatchHeading(s: string): Option<nat> {
    var h := Run(IsHash, s);
    if 1 <= h <= 6 && StartsAt(s, h, " ") then Some(h + 1 + Run(InLine, s[h + 1..])) else None
  }

  function MatchBullet(s: string): Option<nat> {
    var w := Run(IsSpace, s);
    if w + 1 < |s| && s[w] in "*+-" && s[w + 1] == ' ' then Some(w + 2) else None
  }

  /** A word in square brackets that is not the text of a link. */
  function MatchChangeType(s: string): Option<nat> {
    if !StartsAt(s, 0, "[") then None
    else
      var w := Run(IsWordChar, s[1..]);
      if w > 0 && StartsAt(s, w + 1, "]") && !StartsAt(s, w + 2, "(") then Some(w + 2) else None
  }

  /** The length of the scheme of a URL that starts here; 0 if none does. */
  function Scheme(s: string): nat {
    if StartsAt(s, 0, "http://") then 7 else if StartsAt(s, 0, "https://") then 8 else 0
  }

  predicate EndsUrl(c: char) {
    c !in "<.,:;\"')]" && !IsSpace(c)
  }

  /** The longest prefix, of two characters at least, whose last character can end a URL. */
  function UrlBody(s: string, n: nat): nat
    requires n <= |s|
  {
    if n < 2 then 0 else if EndsUrl(s[n - 1]) then n else UrlBody(s, n - 1)
  }

  function MatchUrl(s: string): Option<nat> {
    var p := Scheme(s);
    if p == 0 then None
    else
      var body := s[p..];
      var n := UrlBody(body, Run(InUrl, body));
      if n > 0 then Some(p + n) else None
  }

  /** Issue numbers, each of which may be followed by a comma and a space. */
  function Issues(s: string): (n: nat)
    ensures n <= |s|
  {
    if !StartsAt(s, 0, "#") then 0
    else
      var d := Run(IsDigit, s[1..]);
      var n := if StartsAt(s, 1 + d, ", ") then 3 + d else 1 + d;
      if d == 0 then 0 else n + Issues(s[n..])
  }

  function MatchLocalIssueLink(s: string): Option<nat> {
    if !StartsAt(s, 0, "(") then None
    else
      var n := Issues(s[1..]);
      if n > 0 && StartsAt(s, 1 + n, ")") then Some(n + 2) else None
  }

  /** Plain text stops before a bracket, a new line, a URL, or the end. */
  predicate Stops(s: string) {
    s == [] || s[0] in "([\n" || Scheme(s) > 0
  }

  function TextLength(s: string, n: nat): (length: nat)
    requires n <= |s|
    ensures n <= length <= |s| && Stops(s[length..]) && forall k :: n <= k < length ==> !Stops(s[k..])
    decreases |s| - n
  {
    if Stops(s[n..]) then n else TextLength(s, n + 1)
  }

  function MatchPlainText(s: string): Option<nat> {
    if s == [] then None else Some(TextLength(s, 1))
  }

  function Match(rule: Rule, s: string): Option<nat> {
    match rule
    case Heading => MatchHeading(s)
    case Bullet => MatchBullet(s)
    case ChangeType => MatchChangeType(s)
    case Url => MatchUrl(s)
    case LocalIssueLink => MatchLocalIssueLink(s)
    case PlainText => MatchPlainText(s)
  }

  lemma {:induction false} UrlBodyFits(s: string, n: nat)
    requires n <= |s|
    ensures UrlBody(s, n) <= n
    decreases n
  {
    if n >= 2 && !EndsUrl(s[n - 1]) {
      UrlBodyFits(s, n - 1);
    }
  }

  /** What a rule matches is a prefix, and is never empty. */
  lemma {:induction false} MatchIsPrefix(rule: Rule, s: string)
    ensures Match(rule, s).Some? ==> 1 <= Match(rule, s).value <= |s|
  {
    if rule == Url && Scheme(s) > 0 {
      var body := s[Scheme(s)..];
      UrlBodyFits(body, Run(InUrl, body));
    }
  }

  // ---------------------------------------------------------------- what the rules match

  lemma {:induction false} RunExact(p: char -> bool, s: string, n: nat)
    requires n <= |s|
    ensures Run(p, s) == n <==> (forall i :: 0 <= i < n ==> p(s[i])) && (n < |s| ==> !p(s[n]))
    decreases |s|
  {
    if s != [] && p(s[0]) {
      if n > 0 {
        RunExact(p, s[1..], n - 1);
        assert forall i :: 1 <= i < |s| ==> s[i] == s[1..][i - 1];
      }
    } else if s != [] && n > 0 {
      assert !p(s[0]);
    }
  }

  /** k times '#', a space, and then all that is left of the line. */
  ghost predicate IsHeading(s: string, k: nat, n: nat) {
    && 1 <= k <= 6 && k < n <= |s| && (forall i :: 0 <= i < k ==> s[i] == '#') && s[k] == ' '
    && (forall i :: k < i < n ==> s[i] != '\n') && (n < |s| ==> s[n] == '\n')
  }

  lemma {:induction false} HeadingExact(s: string, n: nat)
    ensures MatchHeading(s) == Some(n) <==> exists k: nat :: IsHeading(s, k, n)
  {
    if k: nat :| IsHeading(s, k, n) { HeadingFound(s, k, n); }
    if MatchHeading(s) == Some(n) { HeadingTaken(s, Run(IsHash, s), n); }
  }

  lemma {:induction false} HeadingTaken(s: string, h: nat, n: nat)
    requires MatchHeading(s) == Some(n) && h == Run(IsHash, s)
    ensures IsHeading(s, h, n)
  {
    RunExact(IsHash, s, h);
    OneChar(s, h, ' ');
    var rest := s[h + 1..];
    RunExact(InLine, rest, n - h - 1);
    LaterChars(s, h + 1);
    forall i | h < i < n ensures s[i] != '\n' {
      assert s[i] == rest[i - h - 1] && InLine(rest[i - h - 1]);
    }
    forall i | 0 <= i < h ensures s[i] == '#' {
      assert IsHash(s[i]);
    }
  }

  lemma {:induction false} HeadingFound(s: string, k: nat, n: nat)
    requires IsHeading(s, k, n)
    ensures MatchHeading(s) == Some(n)
  {
    RunExact(IsHash, s, k);
    RunExact(InLine, s[k + 1..], n - k - 1);
    assert s[k..k + 1] == " ";
  }

  lemma {:induction false} LaterChars(s: string, p: nat)
    requires p <= |s|
    ensures forall i :: p <= i < |s| ==> s[i] == s[p..][i - p]
  {
  }

  /** White space, one of * + -, and a space. */
  lemma {:induction false} BulletExact(s: string, n: nat)
    ensures MatchBullet(s) == Some(n) <==>
            && 2 <= n <= |s| && (forall i :: 0 <= i < n - 2 ==> IsSpace(s[i]))
            && (s[n - 2] == '*' || s[n - 2] == '+' || s[n - 2] == '-') && s[n - 1] == ' '
  {
    RunExact(IsSpace, s, Run(IsSpace, s));
    if 2 <= n <= |s| { RunExact(IsSpace, s, n - 2); }
  }

  lemma {:induction false} OneChar(s: string, i: nat, c: char)
    ensures StartsAt(s, i, [c]) <==> i < |s| && s[i] == c
  {
    assert i < |s| ==> s[i..i + 1] == [s[i]];
  }

  /** A word in square brackets, with no '(' after it. */
  lemma {:induction false} ChangeTypeExact(s: string, n: nat)
    ensures MatchChangeType(s) == Some(n) <==>
            && 3 <= n <= |s| && s[0] == '[' && (forall i :: 1 <= i < n - 1 ==> IsWordChar(s[i])) && s[n - 1] == ']'
            && !(n < |s| && s[n] == '(')
  {
    if s != [] {
      var w := Run(IsWordChar, s[1..]);
      RunExact(IsWordChar, s[1..], w);
      LaterChars(s, 1);
      if 3 <= n <= |s| { RunExact(IsWordChar, s[1..], n - 2); }
      OneChar(s, w + 1, ']');
      OneChar(s, w + 2, '(');
      OneChar(s, 0, '[');
    }
  }

  /** A scheme of length p, and then at least two characters up to n, none of them white space or '<'
      and the last one no punctuation. */
  ghost predicate IsUrl(s: string, p: nat, n: nat) {
    && p + 2 <= n <= |s| && (s[..p] == "http://" || s[..p] == "https://")
    && (forall i :: p <= i < n ==> !IsSpace(s[i]) && s[i] != '<')
    && s[n - 1] !in ".,:;\"')]"
  }

  lemma {:induction false} UrlBodyExact(s: string, n: nat)
    requires n <= |s|
    ensures UrlBody(s, n) <= n && UrlBody(s, n) != 1
    ensures UrlBody(s, n) > 0 ==> EndsUrl(s[UrlBody(s, n) - 1])
    ensures forall i :: UrlBody(s, n) <= i < n && i > 0 ==> !EndsUrl(s[i])
    decreases n
  {
    if n >= 2 && !EndsUrl(s[n - 1]) { UrlBodyExact(s, n - 1); }
  }

  /** The longest such text. */
  lemma {:induction false} UrlExact(s: string)
    ensures match MatchUrl(s)
            case Some(n) => (exists p: nat :: IsUrl(s, p, n)) && forall p: nat, k: nat :: IsUrl(s, p, k) ==> k <= n
            case None => forall p: nat, k: nat :: !IsUrl(s, p, k)
  {
    var p := Scheme(s);
    if p > 0 {
      var n := UrlBody(s[p..], UrlRun(s, p));
      UrlBodyExact(s[p..], UrlRun(s, p));
      if n > 0 { LongestIsUrl(s, p, n); }
    }
    forall q: nat, k: nat | IsUrl(s, q, k) ensures MatchUrl(s).Some? && k <= MatchUrl(s).value {
      OneScheme(s, q);
      UrlIsNoLonger(s, q, k);
    }
  }

  function UrlRun(s: string, p: nat): nat
    requires p <= |s|
  {
    Run(InUrl, s[p..])
  }

  lemma {:induction false} LongestIsUrl(s: string, p: nat, n: nat)
    requires p == Scheme(s) > 0 && n == UrlBody(s[p..], UrlRun(s, p)) > 0
    ensures IsUrl(s, p, p + n)
  {
    var body := s[p..];
    RunExact(InUrl, body, UrlRun(s, p));
    UrlBodyExact(body, UrlRun(s, p));
    assert forall i :: p <= i < p + n ==> s[i] == body[i - p];
  }

  lemma {:induction false} UrlIsNoLonger(s: string, p: nat, k: nat)
    requires p == Scheme(s) > 0 && IsUrl(s, p, k)
    ensures k - p <= UrlBody(s[p..], UrlRun(s, p))
  {
    var body, run := s[p..], UrlRun(s, p);
    RunExact(InUrl, body, run);
    UrlBodyExact(body, run);
    LaterChars(s, p);
    assert forall i :: p <= i < k ==> InUrl(s[i]);
    forall i | 0 <= i < k - p ensures InUrl(body[i]) {
      assert InUrl(s[p + i]);
    }
    assert body[k - p - 1] == s[k - 1] && EndsUrl(s[k - 1]);
  }

  lemma {:induction false} OneScheme(s: string, q: nat)
    requires q <= |s| && (s[..q] == "http://" || s[..q] == "https://")
    ensures q == Scheme(s) > 0
  {
    assert s[..q] == s[0..q];
    if q == 8 {
      assert s[0..7] == s[..8][..7];
      assert "https://"[..7] == "https:/" && "https:/"[4] == 's' && "http://"[4] == ':';
    }
  }

  ghost predicate AllDigits(s: string, i: nat, n: nat) {
    i < n <= |s| && forall k :: i <= k < n ==> IsDigit(s[k])
  }

  /** The first n characters are a '#', digits, and possibly a comma and a space. */
  ghost predicate IsIssue(s: string, n: nat) {
    && s != [] && s[0] == '#'
    && (AllDigits(s, 1, n) || (n >= 2 && AllDigits(s, 1, n - 2) && n <= |s| && s[n - 2] == ',' && s[n - 1] == ' '))
  }

  /** The first n characters are one or more of them. */
  ghost predicate AreIssues(s: string, n: nat)
    decreases n
  {
    exists m :: 0 < m <= n && IsIssue(s, m) && (m == n || AreIssues(s[m..], n - m))
  }

  /** Where the first issue ends is determined. */
  lemma {:induction false} FirstIssue(s: string, m: nat)
    requires IsIssue(s, m) && m < |s| && (s[m] == ')' || s[m] == '#')
    ensures StartsAt(s, 0, "#") && Run(IsDigit, s[1..]) > 0
    ensures m == var d := Run(IsDigit, s[1..]); if StartsAt(s, 1 + d, ", ") then 3 + d else 1 + d
  {
    if AllDigits(s, 1, m) {
      RunExact(IsDigit, s[1..], m - 1);
      assert m + 2 <= |s| ==> s[m..m + 2][0] == s[m];
    } else {
      RunExact(IsDigit, s[1..], m - 3);
      assert s[m - 2..m] == ", ";
    }
  }

  lemma {:induction false} IssuesExact(s: string, n: nat)
    requires n < |s| && s[n] == ')'
    ensures AreIssues(s, n) <==> Issues(s) == n > 0
    decreases n, 1
  {
    if AreIssues(s, n) { IssuesRead(s, n); }
    if Issues(s) == n > 0 { IssuesFound(s, n); }
  }

  lemma {:induction false} IssuesRead(s: string, n: nat)
    requires n < |s| && s[n] == ')' && AreIssues(s, n)
    ensures Issues(s) == n > 0
    decreases n, 0
  {
    var m :| 0 < m <= n && IsIssue(s, m) && (m == n || AreIssues(s[m..], n - m));
    if m < n {
      IssuesExact(s[m..], n - m);
      StartsWithIssue(s[m..], n - m);
    }
    ReadThen(s, m, n);
  }

  lemma {:induction false} ReadThen(s: string, m: nat, n: nat)
    requires IsIssue(s, m) && m <= n < |s| && s[n] == ')'
    requires m == n || (s[m] == '#' && Issues(s[m..]) == n - m)
    ensures Issues(s) == n
  {
    FirstIssue(s, m);
    OneIssue(s, Run(IsDigit, s[1..]), m);
    if m == n { assert !StartsAt(s[m..], 0, "#") by { OneChar(s[m..], 0, '#'); } }
  }

  lemma {:induction false} StartsWithIssue(s: string, n: nat)
    requires AreIssues(s, n)
    ensures s != [] && s[0] == '#'
  {
  }

  lemma {:induction false} OneIssue(s: string, d: nat, m: nat)
    requires StartsAt(s, 0, "#") && d == Run(IsDigit, s[1..]) > 0
    requires m == if StartsAt(s, 1 + d, ", ") then 3 + d else 1 + d
    ensures Issues(s) == m + Issues(s[m..])
  {
  }

  lemma {:induction false} IssuesFound(s: string, n: nat)
    requires n < |s| && s[n] == ')' && Issues(s) == n > 0
    ensures AreIssues(s, n)
    decreases n, 0
  {
    var d := Run(IsDigit, s[1..]);
    RunExact(IsDigit, s[1..], d);
    var m := if StartsAt(s, 1 + d, ", ") then 3 + d else 1 + d;
    OneIssue(s, d, m);
    ReadIssue(s, d, m);
    if m < n { IssuesExact(s[m..], n - m); }
  }

  lemma {:induction false} ReadIssue(s: string, d: nat, m: nat)
    requires StartsAt(s, 0, "#") && d == Run(IsDigit, s[1..]) > 0
    requires m == if StartsAt(s, 1 + d, ", ") then 3 + d else 1 + d
    ensures IsIssue(s, m)
  {
    RunExact(IsDigit, s[1..], d);
    assert forall k :: 1 <= k < 1 + d ==> s[k] == s[1..][k - 1];
    if StartsAt(s, 1 + d, ", ") { assert s[1 + d..3 + d][0] == s[1 + d] && s[1 + d..3 + d][1] == s[2 + d]; }
  }

  /** Issue numbers in parentheses. */
  lemma {:induction false} LocalIssueLinkExact(s: string, n: nat)
    ensures MatchLocalIssueLink(s) == Some(n) <==>
            2 < n <= |s| && s[0] == '(' && AreIssues(s[1..], n - 2) && s[n - 1] == ')'
  {
    OneChar(s, 0, '(');
    if s != [] {
      LaterChars(s, 1);
      OneChar(s, 1 + Issues(s[1..]), ')');
    }
    if 2 < n <= |s| && s[n - 1] == ')' {
      assert s[1..][n - 2] == s[n - 1];
      IssuesExact(s[1..], n - 2);
    }
  }

  /** Plain text can stop before '(' '[' a new line, a URL, and at the end. */
  ghost predicate CanStop(s: string, k: nat)
    requires k <= |s|
  {
    || k == |s| || s[k] == '(' || s[k] == '[' || s[k] == '\n' || "http://" <= s[k..] || "https://" <= s[k..]
  }

  lemma {:induction false} StopsExact(s: string, k: nat)
    requires k <= |s|
    ensures Stops(s[k..]) <==> CanStop(s, k)
  {
    var rest := s[k..];
    assert StartsAt(rest, 0, "http://") <==> "http://" <= rest;
    assert StartsAt(rest, 0, "https://") <==> "https://" <= rest;
  }

  /** Plain text is as short as it can be, but for its first character. */
  lemma {:induction false} PlainTextExact(s: string, n: nat)
    ensures MatchPlainText(s) == Some(n) <==>
            1 <= n <= |s| && CanStop(s, n) && forall k :: 1 <= k < n ==> !CanStop(s, k)
  {
    if s != [] {
      var length := TextLength(s, 1);
      forall k | 1 <= k <= |s| ensures Stops(s[k..]) <==> CanStop(s, k) { StopsExact(s, k); }
      assert CanStop(s, length) && forall k :: 1 <= k < length ==> !CanStop(s, k);
    }
  }

  // ---------------------------------------------------------------- the tokens

  /** The place in the list of the first rule that matches. */
  function FirstRule(s: string, from: nat): (i: nat)
    requires s != [] && from < |RULES|
    ensures from <= i < |RULES| && Match(RULES[i], s).Some?
    ensures forall j :: from <= j < i ==> Match(RULES[j], s).None?
    decreases |RULES| - from
  {
    if Match(RULES[from], s).Some? then from else FirstRule(s, from + 1)
  }

  function Lexeme(s: string): (n: nat)
    requires s != []
    ensures 1 <= n <= |s|
  {
    var rule := RULES[FirstRule(s, 0)];
    MatchIsPrefix(rule, s);
    Match(rule, s).value
  }

  function Tokens(s: string): seq<Token>
    decreases |s|
  {
    if s == [] then []
    else [Token(RULES[FirstRule(s, 0)], s[..Lexeme(s)])] + Tokens(s[Lexeme(s)..])
  }

  function Concat(tokens: seq<Token>): string {
    if tokens == [] then "" else tokens[0].lexeme + Concat(tokens[1..])
  }

  /** The lexemes are the text, cut into pieces none of which is empty. */
  lemma {:induction false} TokensPartition(s: string)
    ensures Concat(Tokens(s)) == s
    ensures forall i :: 0 <= i < |Tokens(s)| ==> Tokens(s)[i].lexeme != []
    decreases |s|
  {
    if s != [] {
      TokensPartition(s[Lexeme(s)..]);
      assert Tokens(s)[1..] == Tokens(s[Lexeme(s)..]);
      assert s == s[..Lexeme(s)] + s[Lexeme(s)..];
    }
  }

  /** The rules are tried in this order. */
  lemma {:induction false} RuleOrder(s: string)
    requires s != []
    ensures Tokens(s)[0].rule == if MatchHeading(s).Some? then Heading
                                 else if MatchBullet(s).Some? then Bullet
                                 else if MatchChangeType(s).Some? then ChangeType
                                 else if MatchUrl(s).Some? then Url
                                 else if MatchLocalIssueLink(s).Some? then LocalIssueLink
                                 else PlainText
  {
    var i := FirstRule(s, 0);
    assert RULES[0] == Heading && RULES[1] == Bullet && RULES[2] == ChangeType;
    assert RULES[3] == Url && RULES[4] == LocalIssueLink && RULES[5] == PlainText;
  }

  /** Each token was taken by its rule from the text left at its place, where no earlier rule of the
      list matches. */
  ghost predicate IsFirstMatch(token: Token, rest: string) {
    exists i: nat :: i < |RULES| && token.rule == RULES[i] && Match(RULES[i], rest) == Some(|token.lexeme|)
              && token.lexeme <= rest && forall j :: 0 <= j < i ==> Match(RULES[j], rest).None?
  }

  /** The text is cut so that each piece is a first match of what is left. */
  ghost predicate FirstMatches(tokens: seq<Token>, s: string)
    decreases |tokens|
  {
    if tokens == [] then s == []
    else s != [] && IsFirstMatch(tokens[0], s) && FirstMatches(tokens[1..], s[|tokens[0].lexeme|..])
  }

  lemma {:induction false} OneFirstMatch(token: Token, s: string)
    requires s != []
    ensures IsFirstMatch(token, s) <==> token == Token(RULES[FirstRule(s, 0)], s[..Lexeme(s)])
  {
    var first := FirstRule(s, 0);
    if IsFirstMatch(token, s) {
      var i: nat :| i < |RULES| && token.rule == RULES[i] && Match(RULES[i], s) == Some(|token.lexeme|)
               && token.lexeme <= s && forall j :: 0 <= j < i ==> Match(RULES[j], s).None?;
      assert i == first;
      assert token.lexeme == s[..|token.lexeme|];
    }
  }

  /** The tokens are the one way to cut the text so that each piece is a first match. */
  lemma {:induction false} TokensExact(tokens: seq<Token>, s: string)
    ensures FirstMatches(tokens, s) <==> tokens == Tokens(s)
    decreases |tokens|
  {
    if tokens != [] && s != [] {
      OneFirstMatch(tokens[0], s);
      var rest := s[Lexeme(s)..];
      TokensExact(tokens[1..], rest);
      assert Tokens(s)[1..] == Tokens(rest) && Tokens(s)[0] == Token(RULES[FirstRule(s, 0)], s[..Lexeme(s)]);
      assert tokens == [tokens[0]] + tokens[1..];
    }
  }

  // ---------------------------------------------------------------- translating

  function Render(render: Token -> string, tokens: seq<Token>): string {
    if tokens == [] then "" else render(tokens[0]) + Render(render, tokens[1..])
  }

  /** Translator.translate ends on every text. */
  method Translate(render: Token -> string, text: string) returns (result: string)
    ensures result == Render(render, Tokens(text))
  {
    result := "";
    var rest := text;
    while rest != []
      invariant result + Render(render, Tokens(rest)) == Render(render, Tokens(text))
      decreases |rest|
    {
      var i := 0;
      while Match(RULES[i], rest).None?
        invariant i < |RULES| && forall j :: 0 <= j < i ==> Match(RULES[j], rest).None?
        decreases |RULES| - i
      {
        assert RULES[5] == PlainText;
        i := i + 1;
      }
      var n := Match(RULES[i], rest).value;
      assert i == FirstRule(rest, 0) && n == Lexeme(rest);
      assert Tokens(rest)[1..] == Tokens(rest[n..]);
      result := result + render(Token(RULES[i], rest[..n]));
      rest := rest[n..];
    }
  }

  /** A renderer that echoes gives back the text. */
  lemma {:induction false} EchoIsIdentity(render: Token -> string, text: string)
    requires forall token :: render(token) == token.lexeme
    ensures Render(render, Tokens(text)) == text
  {
    TokensPartition(text);
    RenderEchoes(render, Tokens(text));
  }

  lemma {:induction false} RenderEchoes(render: Token -> string, tokens: seq<Token>)
    requires forall token :: render(token) == token.lexeme
    ensures Render(render, tokens) == Concat(tokens)
  {
    if tokens != [] {
      RenderEchoes(render, tokens[1..]);
    }
  }
}
