/**
 The order of includes: a section that only moves forward, and a closed form of the headers that
 are reported.
 */
module IncludeOrder {
  import opened Wrappers

  datatype Header = CSystem | CppSystem | OtherSystem | LikelyMine | PossiblyMine | OtherHeader

  /** A header found after the section it should have come before. */
  datatype Message = Message(found: Header, after: nat)

  const INITIAL_SECTION := 0
  const MY_H_SECTION := 1
  const C_SECTION := 2
  const CPP_SECTION := 3
  const OTHER_SYS_SECTION := 4
  const OTHER_H_SECTION := 5

  predicate IsSystem(h: Header) {
    h.CSystem? || h.CppSystem? || h.OtherSystem?
  }

  predicate IsMine(h: Header) {
    h.LikelyMine? || h.PossiblyMine?
  }

  function SystemSection(h: Header): nat
    requires IsSystem(h)
  {
    match h
    case CSystem => C_SECTION
    case CppSystem => CPP_SECTION
    case OtherSystem => OTHER_SYS_SECTION
  }

  function NextSection(section: nat, h: Header): nat {
    if IsSystem(h) then (if section <= SystemSection(h) then SystemSection(h) else section)
    else if IsMine(h) then (if section <= MY_H_SECTION then MY_H_SECTION else OTHER_H_SECTION)
    else OTHER_H_SECTION
  }

  /** The section after these headers, from a reset on. */
  function SectionAfter(headers: seq<Header>): nat {
    if headers == [] then INITIAL_SECTION
    else NextSection(SectionAfter(headers[..|headers| - 1]), headers[|headers| - 1])
  }

  class IncludeState {
    var section: nat
    var lastHeader: string

    constructor ()
      ensures section == INITIAL_SECTION && lastHeader == ""
    {
      section, lastHeader := INITIAL_SECTION, "";
    }

    method ResetSection()
      modifies this
      ensures section == INITIAL_SECTION && lastHeader == ""
    {
      section, lastHeader := INITIAL_SECTION, "";
    }

    method CheckNextIncludeOrder(h: Header) returns (error: Option<Message>)
      modifies this
      ensures section == NextSection(old(section), h)
      ensures error.Some? <==> IsSystem(h) && old(section) > SystemSection(h)
      ensures error.Some? ==> error.value == Message(h, old(section)) && section == old(section)
      ensures old(section) <= OTHER_H_SECTION ==> old(section) <= section <= OTHER_H_SECTION
      ensures lastHeader == if error.Some? || section != old(section) then "" else old(lastHeader)
    {
      var message := Message(h, section);
      var lastSection := section;
      match h {
        case CSystem =>
          if section <= C_SECTION {
            section := C_SECTION;
          } else {
            lastHeader := "";
            return Some(message);
          }
        case CppSystem =>
          if section <= CPP_SECTION {
            section := CPP_SECTION;
          } else {
            lastHeader := "";
            return Some(message);
          }
        case OtherSystem =>
          if section <= OTHER_SYS_SECTION {
            section := OTHER_SYS_SECTION;
          } else {
            lastHeader := "";
            return Some(message);
          }
        case LikelyMine | PossiblyMine =>
          section := if section <= MY_H_SECTION then MY_H_SECTION else OTHER_H_SECTION;
        case OtherHeader =>
          section := OTHER_H_SECTION;
      }
      if lastSection != section {
        lastHeader := "";
      }
      error := None;
    }
  }

  // ---------------------------------------------------------------- the closed form

  /** A header that was not taken for the file's own comes before place i. */
  ghost predicate OthersBefore(headers: seq<Header>, i: nat)
    requires i <= |headers|
  {
    exists j :: 0 <= j < i && headers[j] != LikelyMine && headers[j] != PossiblyMine
  }

  /** The header at place i belongs after h: C headers come before C++ headers, these before other
      system headers, and all of them before other headers and before own headers that do not come
      first. */
  ghost predicate ComesAfter(headers: seq<Header>, i: nat, h: Header)
    requires i < |headers|
  {
    match headers[i]
    case CSystem => false
    case CppSystem => h == CSystem
    case OtherSystem => h == CSystem || h == CppSystem
    case OtherHeader => true
    case _ => OthersBefore(headers, i)
  }

  /** A system header that comes too late. */
  ghost predicate IsReported(headers: seq<Header>, h: Header) {
    && (h == CSystem || h == CppSystem || h == OtherSystem)
    && exists i :: 0 <= i < |headers| && ComesAfter(headers, i, h)
  }

  lemma {:induction false} AfterOthers(headers: seq<Header>)
    ensures SectionAfter(headers) <= OTHER_H_SECTION
    ensures SectionAfter(headers) > MY_H_SECTION <==> OthersBefore(headers, |headers|)
  {
    if headers != [] {
      var front, last := headers[..|headers| - 1], headers[|headers| - 1];
      AfterOthers(front);
      assert forall j :: 0 <= j < |front| ==> front[j] == headers[j];
    }
  }

  lemma {:induction false} ComesAfterLater(headers: seq<Header>, last: Header, i: nat, h: Header)
    requires i < |headers|
    ensures ComesAfter(headers + [last], i, h) <==> ComesAfter(headers, i, h)
  {
    assert forall j :: 0 <= j <= i ==> (headers + [last])[j] == headers[j];
  }

  /** A system header is reported exactly when an earlier one comes after it. */
  lemma {:induction false} ReportedExact(headers: seq<Header>, h: Header)
    requires IsSystem(h)
    ensures SectionAfter(headers) > SystemSection(h) <==> IsReported(headers, h)
  {
    if headers != [] {
      var front, last := headers[..|headers| - 1], headers[|headers| - 1];
      assert headers == front + [last];
      ReportedExact(front, h);
      AfterOthers(front);
      forall i | 0 <= i < |front| ensures ComesAfter(headers, i, h) <==> ComesAfter(front, i, h) {
        ComesAfterLater(front, last, i, h);
      }
      assert OthersBefore(headers, |front|) <==> OthersBefore(front, |front|);
      assert SectionAfter(headers) > SystemSection(h) <==>
             SectionAfter(front) > SystemSection(h) || ComesAfter(headers, |front|, h);
    }
  }

  /** All the headers between two resets. */
  method CheckIncludes(headers: seq<Header>) returns (reported: seq<bool>)
    ensures |reported| == |headers|
    ensures forall k :: 0 <= k < |headers| ==> (reported[k] <==> IsReported(headers[..k], headers[k]))
  {
    var state := new IncludeState();
    reported := [];
    for k := 0 to |headers|
      invariant |reported| == k && state.section == SectionAfter(headers[..k])
      invariant forall j :: 0 <= j < k ==> (reported[j] <==> IsReported(headers[..j], headers[j]))
    {
      if IsSystem(headers[k]) {
        ReportedExact(headers[..k], headers[k]);
      }
      assert headers[..k + 1][..k] == headers[..k];
      var error := state.CheckNextIncludeOrder(headers[k]);
      reported := reported + [error.Some?];
    }
  }
}
