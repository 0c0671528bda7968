/**
 Erasing multi-line comments: lines that begin a comment which goes on beyond them, up to the line
 that ends it, are overwritten in place by a dummy comment.
 */
module CommentEraser {
  import opened Texts
  import opened Wrappers

  const DUMMY := "/**/"

  // ---------------------------------------------------------------- one line

  /** A comment that goes beyond the line starts here. */
  predicate IsStart(line: string) {
    var s := Strip(line);
    "/*" <= s && !exists i :: 2 <= i < |s| - 1 && s[i] == '*' && s[i + 1] == '/'
  }

  predicate IsEnd(line: string) {
    var s := Strip(line);
    |s| >= 2 && s[|s| - 2..] == "*/"
  }

  /** Whatever white space stands around it, a line starts a comment that goes on when its text begins
      with one that has no end, and ends one when the text ends with that. */
  lemma {:induction false} MarkersExact(before: string, s: string, after: string)
    requires AllSpace(before) && s != [] && !IsSpace(s[0]) && !IsSpace(Top(s)) && AllSpace(after)
    ensures IsEnd(before + s + after) <==> |s| > 1 && s[|s| - 2] == '*' && s[|s| - 1] == '/'
    ensures IsStart(before + s + after) <==>
            && |s| > 1 && s[0] == '/' && s[1] == '*'
            && forall i :: 2 < i < |s| ==> !(s[i - 1] == '*' && s[i] == '/')
  {
    StripExact(before, s, after);
    if IsStart(before + s + after) {
      forall i | 2 < i < |s| ensures !(s[i - 1] == '*' && s[i] == '/') {
        assert !(s[i - 1] == '*' && s[i - 1 + 1] == '/');
      }
    }
  }

  lemma {:induction false} DummyLine()
    ensures DUMMY == "/**/" && !IsStart(DUMMY) && IsEnd(DUMMY)
  {
    assert StripLeft(DUMMY) == DUMMY;
    assert StripRight(DUMMY) == DUMMY;
    assert DUMMY[2] == '*' && DUMMY[3] == '/';
    assert DUMMY[|DUMMY| - 2..] == "*/";
  }

  // ---------------------------------------------------------------- the comments of a file

  /** Whether the line before place k is inside a comment, reading one line after the other. */
  predicate Inside(lines: seq<string>, k: nat)
    requires k <= |lines|
  {
    k > 0 && (Inside(lines, k - 1) || IsStart(lines[k - 1])) && !IsEnd(lines[k - 1])
  }

  /** Line k belongs to a comment that is ended somewhere. */
  ghost predicate InComment(lines: seq<string>, k: nat)
    requires k < |lines|
  {
    (Inside(lines, k) || IsStart(lines[k])) && exists e :: k <= e < |lines| && IsEnd(lines[e])
  }

  /** The lines with every ended comment erased. */
  ghost predicate Erased(lines: seq<string>, after: seq<string>) {
    && |after| == |lines|
    && (forall k :: 0 <= k < |lines| ==> after[k] == if InComment(lines, k) then DUMMY else lines[k])
  }

  /** The start of the comment that is never ended, if there is one. */
  ghost predicate Unended(lines: seq<string>, start: Option<nat>) {
    && (start.Some? <==> Inside(lines, |lines|))
    && (start.Some? ==>
          && start.value < |lines| && !Inside(lines, start.value) && IsStart(lines[start.value])
          && (forall k :: start.value <= k < |lines| ==> !IsEnd(lines[k])))
  }

  lemma {:induction false} StaysInside(lines: seq<string>, i: nat, k: nat)
    requires i <= k <= |lines|
    requires Inside(lines, i) || (i < k && IsStart(lines[i]))
    requires forall e :: i <= e < k ==> !IsEnd(lines[e])
    ensures Inside(lines, k)
    decreases k - i
  {
    if i < k {
      StaysInside(lines, i + 1, k);
    }
  }

  lemma {:induction false} StaysOutside(lines: seq<string>, i: nat, k: nat)
    requires i <= k <= |lines| && !Inside(lines, i)
    requires forall s :: i <= s < k ==> !IsStart(lines[s])
    ensures !Inside(lines, k)
    decreases k - i
  {
    if i < k {
      StaysOutside(lines, i + 1, k);
    }
  }

  // ---------------------------------------------------------------- erasing them

  /** The first line from there on that starts a comment; the number of lines if none does. */
  ghost predicate NextStart(lines: seq<string>, from: nat, i: nat) {
    from <= i <= |lines| && (i < |lines| ==> IsStart(lines[i])) && forall k :: from <= k < i ==> !IsStart(lines[k])
  }

  ghost predicate NextEnd(lines: seq<string>, from: nat, i: nat) {
    from <= i <= |lines| && (i < |lines| ==> IsEnd(lines[i])) && forall k :: from <= k < i ==> !IsEnd(lines[k])
  }

  method FindNextStart(lines: array<string>, from: nat) returns (i: nat)
    requires from <= lines.Length
    ensures i <= lines.Length && NextStart(lines[..], from, i)
  {
    i := from;
    while i < lines.Length
      invariant from <= i <= lines.Length
      invariant forall k :: from <= k < i ==> !IsStart(lines[k])
    {
      if IsStart(lines[i]) {
        return;
      }
      i := i + 1;
    }
  }

  method FindNextEnd(lines: array<string>, from: nat) returns (i: nat)
    requires from <= lines.Length
    ensures i <= lines.Length && NextEnd(lines[..], from, i)
  {
    i := from;
    while i < lines.Length
      invariant from <= i <= lines.Length
      invariant forall k :: from <= k < i ==> !IsEnd(lines[k])
    {
      if IsEnd(lines[i]) {
        return;
      }
      i := i + 1;
    }
  }

  method EraseRange(lines: array<string>, begin: nat, end: nat)
    requires begin <= end <= lines.Length
    modifies lines
    ensures Overwritten(old(lines[..]), lines[..], begin, end)
  {
    for i := begin to end
      invariant forall k :: 0 <= k < lines.Length ==> lines[k] == if begin <= k < i then DUMMY else old(lines[k])
    {
      lines[i] := DUMMY;
    }
  }

  /** The comments before place i have been erased; the lines from there on are as they were. */
  ghost predicate ErasedTo(before: seq<string>, now: seq<string>, i: nat) {
    && i <= |now| == |before| && !Inside(before, i)
    && (forall k :: 0 <= k < i ==> now[k] == if InComment(before, k) then DUMMY else before[k])
    && now[i..] == before[i..]
  }

  ghost predicate Overwritten(was: seq<string>, now: seq<string>, begin: nat, end: nat) {
    |now| == |was| && forall k :: 0 <= k < |now| ==> now[k] == if begin <= k < end then DUMMY else was[k]
  }

  /** RemoveMultiLineComments: error is the line of the comment that has no end. */
  method RemoveMultiLineComments(lines: array<string>) returns (error: Option<nat>)
    modifies lines
    ensures Erased(old(lines[..]), lines[..])
    ensures Unended(old(lines[..]), error)
  {
    ghost var before := lines[..];
    var i := 0;
    while i < lines.Length
      invariant i <= lines.Length && ErasedTo(before, lines[..], i)
    {
      ghost var now := lines[..];
      var begin := FindNextStart(lines, i);
      NoComment(before, now, i, begin);
      if begin >= lines.Length {
        return None;
      }
      var end := FindNextEnd(lines, begin);
      if end >= lines.Length {
        NeverEnded(before, now, i, begin);
        return Some(begin);
      }
      EraseRange(lines, begin, end + 1);
      EndedComment(before, now, lines[..], i, begin, end);
      i := end + 1;
    }
    error := None;
  }

  lemma {:induction false} NoComment(lines: seq<string>, now: seq<string>, i: nat, begin: nat)
    requires ErasedTo(lines, now, i) && NextStart(now, i, begin)
    ensures ErasedTo(lines, now, begin)
  {
    SameFrom(lines, now, i);
    forall k | i <= k <= begin ensures !Inside(lines, k) {
      StaysOutside(lines, i, k);
    }
  }

  lemma {:induction false} NeverEnded(lines: seq<string>, now: seq<string>, i: nat, begin: nat)
    requires ErasedTo(lines, now, begin) && NextStart(now, i, begin) && begin < |lines| && NextEnd(now, begin, |lines|)
    ensures Erased(lines, now) && Unended(lines, Some(begin))
  {
    SameFrom(lines, now, begin);
    StaysInside(lines, begin, |lines|);
  }

  lemma {:induction false} AllInComment(lines: seq<string>, begin: nat, end: nat)
    requires begin <= end < |lines| && IsStart(lines[begin]) && IsEnd(lines[end])
    requires forall e :: begin <= e < end ==> !IsEnd(lines[e])
    ensures forall k :: begin <= k <= end ==> InComment(lines, k)
    ensures !Inside(lines, end + 1)
  {
    forall k | begin <= k <= end ensures InComment(lines, k) {
      if begin < k {
        StaysInside(lines, begin, k);
      }
    }
  }

  lemma {:induction false} SameFrom(lines: seq<string>, now: seq<string>, i: nat)
    requires ErasedTo(lines, now, i)
    ensures |now| == |lines| && forall k :: i <= k < |lines| ==> now[k] == lines[k]
  {
    forall k | i <= k < |lines| ensures now[k] == lines[k] {
      assert now[k] == now[i..][k - i];
    }
  }

  lemma {:induction false} EndedComment(
      lines: seq<string>, was: seq<string>, now: seq<string>, i: nat, begin: nat, end: nat)
    requires ErasedTo(lines, was, begin) && NextStart(was, i, begin) && NextEnd(was, begin, end) && end < |lines|
    requires Overwritten(was, now, begin, end + 1)
    ensures ErasedTo(lines, now, end + 1)
  {
    SameFrom(lines, was, begin);
    CommentThere(lines, was, i, begin, end);
    forall k | 0 <= k < end + 1 ensures now[k] == if InComment(lines, k) then DUMMY else lines[k] {
      ErasedAt(was, now, begin, end, k, InComment(lines, k), lines[k]);
    }
    assert now[end + 1..] == lines[end + 1..];
  }

  lemma {:induction false} ErasedAt(
      was: seq<string>, now: seq<string>, begin: nat, end: nat, k: nat, inComment: bool, line: string)
    requires k <= end < |was| && Overwritten(was, now, begin, end + 1)
    requires if k < begin then was[k] == (if inComment then DUMMY else line) else inComment
    ensures now[k] == if inComment then DUMMY else line
  {
  }

  lemma {:induction false} CommentThere(lines: seq<string>, was: seq<string>, i: nat, begin: nat, end: nat)
    requires |was| == |lines| && (forall k :: begin <= k < |lines| ==> was[k] == lines[k])
    requires NextStart(was, i, begin) && NextEnd(was, begin, end) && end < |lines|
    ensures forall k :: begin <= k <= end ==> InComment(lines, k)
    ensures !Inside(lines, end + 1)
  {
    AllInComment(lines, begin, end);
  }

  // ---------------------------------------------------------------- what is left

  /** The result is determined by the lines. */
  lemma {:induction false} OneResult(lines: seq<string>, a: seq<string>, b: seq<string>, s: Option<nat>, t: Option<nat>)
    requires Erased(lines, a) && Erased(lines, b) && Unended(lines, s) && Unended(lines, t)
    ensures a == b && s == t
  {
    if s.Some? && t.Some? && s.value != t.value {
      var first := if s.value < t.value then s.value else t.value;
      var second := if s.value < t.value then t.value else s.value;
      StaysInside(lines, first, second);
      assert false;
    }
  }

  /** No comment starts outside the one that has no end. */
  lemma {:induction false} NoStartLeft(lines: seq<string>, after: seq<string>, error: Option<nat>)
    requires Erased(lines, after) && Unended(lines, error)
    ensures forall k :: 0 <= k < |after| && IsStart(after[k]) ==> error.Some? && k >= error.value
  {
    DummyLine();
    forall k | 0 <= k < |after| && IsStart(after[k]) ensures error.Some? && k >= error.value {
      assert !InComment(lines, k) && IsStart(lines[k]);
      StaysInside(lines, k, |lines|);
      if k < error.value {
        StaysInside(lines, k, error.value);
      }
    }
  }

  /** Erasing again changes nothing and reports the same. */
  lemma {:induction false} Idempotent(lines: seq<string>, after: seq<string>, error: Option<nat>)
    requires Erased(lines, after) && Unended(lines, error)
    ensures Erased(after, after) && Unended(after, error)
  {
    NoStartLeft(lines, after, error);
    var quiet := if error.Some? then error.value else |after|;
    forall k | 0 <= k <= quiet ensures !Inside(after, k) {
      StaysOutside(after, 0, k);
    }
    if error.Some? {
      forall k | quiet <= k < |lines| ensures after[k] == lines[k] {
        assert !InComment(lines, k);
      }
      StaysInside(after, quiet, |after|);
    }
  }

  /** With no error nothing is left that starts a comment. */
  lemma {:induction false} CleanWithoutError(lines: seq<string>, after: seq<string>)
    requires Erased(lines, after) && Unended(lines, None)
    ensures forall k :: 0 <= k < |after| ==> !IsStart(after[k])
  {
    NoStartLeft(lines, after, None);
  }
}
