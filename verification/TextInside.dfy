/** cpplint's third bracket matcher, _GetTextInside. */
module TextInside {
  // It is written with a stack of the closers it expects, and proved to agree with
  // FindEndOfExpressionInLine and with the grammar.

  import opened BracketGrammar
  import opened ExpressionScan
  import opened ScanLaws
  import opened Texts
  import opened ExpressionMatching
  import opened Wrappers

  /** The enclosed word whose opener is just before start ends before q. */
  ghost predicate EnclosedTo(text: string, start: nat, q: int)
    requires 0 < start <= |text|
  {
    start < q <= |text| && Enclosed(text[start - 1..q])
  }

  /** The text of the enclosed word whose opener is just before start, if there is one. */
  ghost predicate IsTextInside(text: string, start: nat, r: Option<string>)
    requires 0 < start <= |text|
  {
    match r
    case Some(t) => EnclosedTo(text, start, start + |t| + 1) && t == text[start..start + |t|]
    case None => forall q :: !EnclosedTo(text, start, q)
  }

  /** What FindEndOfExpressionInLine, started on the opener, says about the same text. */
  function FromLineScan(text: string, start: nat): Option<string>
    requires 0 < start <= |text|
  {
    match EndScan(text, start - 1, [])
    case Closed(e) => if start < e then Some(text[start..e - 1]) else None
    case Dead => None
    case Open(_) => None
  }

  /** start is the end of the match of the caller's pattern, or None without a match. */
  method GetTextInside(text: string, start: Option<nat>) returns (r: Option<string>)
    requires start.Some? ==> 0 < start.value <= |text| && IsOpener(text[start.value - 1])
    ensures start.None? ==> r == None
    ensures start.Some? ==> r == FromLineScan(text, start.value)
    ensures start.Some? ==> IsTextInside(text, start.value, r)
  {
    if start.None? {
      return None;
    }
    var position := start.value;
    ghost var first := text[position - 1];
    ghost var opens := [first];
    var expected := [CloserOf(text[position - 1])];
    ghost var goal := PlainScan(text, position, opens);
    LineScanIsTextInside(text, position);
    while expected != [] && position < |text|
      invariant start.value <= position <= |text|
      invariant SameStack(opens, expected)
      invariant expected == [] ==> goal == Closed(position) && position > start.value
      invariant expected != [] ==> goal == PlainScan(text, position, opens)
      decreases |text| - position
    {
      InsideStep(text, position, opens, expected);
      if text[position] == expected[|expected| - 1] {
        expected := expected[..|expected| - 1];
        opens := opens[..|opens| - 1];
      } else if IsCloser(text[position]) {
        return None;
      } else if IsOpener(text[position]) {
        expected := expected + [CloserOf(text[position])];
        opens := opens + [text[position]];
      }
      position := position + 1;
    }
    if expected != [] {
      return None;
    }
    return Some(text[start.value..position - 1]);
  }

  /** expected holds, for each opener, the closer that fits it. */
  ghost predicate SameStack(opens: string, expected: string) {
    && |opens| == |expected|
    && forall k :: 0 <= k < |opens| ==> IsOpener(opens[k]) && expected[k] == CloserOf(opens[k])
  }

  lemma {:induction false} InsideStep(text: string, k: nat, opens: string, expected: string)
    requires k < |text| && opens != [] && SameStack(opens, expected)
    ensures var scan := PlainScan(text, k, opens);
            if text[k] == Top(expected) then
              && SameStack(Front(opens), Front(expected))
              && scan == if |opens| == 1 then Closed(k + 1) else PlainScan(text, k + 1, Front(opens))
            else if IsCloser(text[k]) then scan == Dead
            else if IsOpener(text[k]) then
              && SameStack(opens + [text[k]], expected + [CloserOf(text[k])])
              && scan == PlainScan(text, k + 1, opens + [text[k]])
            else scan == PlainScan(text, k + 1, opens)
  {
    PlainScanOne(text, k, text[k], opens);
    assert Top(expected) == CloserOf(Top(opens));
  }

  /** What the scan of one line says of the plain scan. */
  ghost predicate PlainSays(text: string, i: nat, p: string, out: Outcome)
    requires i <= |text| && p != []
  {
    match out
    case Closed(e) => i < e <= |text| && PlainScan(text, i, p) == Closed(e)
    case _ => !PlainScan(text, i, p).Closed?
  }

  lemma {:induction false} OneLinePlain(text: string, i: nat, s: string, p: string)
    requires i <= |text| && Rooted(s) && p == Plain(s)
    ensures p != [] && PlainSays(text, i, p, EndScan(text, i, s))
  {
    EndScanPlain(text, Looks(text), i, s);
  }

  lemma {:induction false} LineScanIsPlain(text: string, start: nat)
    requires 0 < start <= |text| && IsOpener(text[start - 1])
    ensures PlainSays(text, start, [text[start - 1]], EndScan(text, start - 1, []))
  {
    var c := [text[start - 1]];
    EndScanFirst(text, start - 1);
    OneOpener(text[start - 1]);
    OneLinePlain(text, start, c, c);
  }

  lemma {:induction false} LineScanIsTextInside(text: string, start: nat)
    requires 0 < start <= |text| && IsOpener(text[start - 1])
    ensures FromLineScan(text, start) == match PlainScan(text, start, [text[start - 1]])
                                         case Closed(e) =>
                                           (if start < e <= |text| then Some(text[start..e - 1]) else None)
                                         case _ => None
    ensures IsTextInside(text, start, FromLineScan(text, start))
  {
    LineScanIsPlain(text, start);
    var scan := PlainScan(text, start, [text[start - 1]]);
    if scan.Closed? {
      PlainScanExact(text, start - 1, scan.pos);
    } else {
      forall q ensures !EnclosedTo(text, start, q) {
        PlainScanExact(text, start - 1, q);
      }
    }
  }
}
