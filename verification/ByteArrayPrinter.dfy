/**
 Printing bytes as the lines of a C array, twelve to a line, and reading them back: nothing is lost
 for any length, although the last line may be short or empty, and no line is too long for the
 layout of the file.
 */
module ByteArrayPrinter {
  import opened Wrappers

  type Byte = b: int | 0 <= b < 256

  const WIDTH := 12
  const HEX := "0123456789abcdef"

  function Digit(n: int): char
    requires 0 <= n < 16
  {
    HEX[n]
  }

  /** "0x%02x," */
  function Literal(b: Byte): string {
    ['0', 'x', Digit(b / 16), Digit(b % 16), ',']
  }

  /** A line of data: the first byte is indented, the others follow one space. */
  function Line(bytes: seq<Byte>): string {
    if bytes == [] then ""
    else Line(bytes[..|bytes| - 1]) + (if |bytes| == 1 then "    " else " ") + Literal(bytes[|bytes| - 1])
  }

  /** The lines, each of WIDTH bytes but the last, which has the bytes that are left. */
  function Lines(bytes: seq<Byte>): seq<string> {
    if |bytes| < WIDTH then [Line(bytes)] else [Line(bytes[..WIDTH])] + Lines(bytes[WIDTH..])
  }

  // ---------------------------------------------------------------- the printer

  function FullLines(bytes: seq<Byte>): seq<string>
    requires |bytes| % WIDTH == 0
  {
    if bytes == [] then [] else [Line(bytes[..WIDTH])] + FullLines(bytes[WIDTH..])
  }

  lemma {:induction false} FullLinesThenLine(full: seq<Byte>, rest: seq<Byte>)
    requires |full| % WIDTH == 0 && |rest| < WIDTH
    ensures Lines(full + rest) == FullLines(full) + [Line(rest)]
  {
    if full == [] {
      assert full + rest == rest;
    } else {
      assert (full + rest)[..WIDTH] == full[..WIDTH];
      assert (full + rest)[WIDTH..] == full[WIDTH..] + rest;
      FullLinesThenLine(full[WIDTH..], rest);
    }
  }

  lemma {:induction false} OneMoreFullLine(full: seq<Byte>, next: seq<Byte>)
    requires |full| % WIDTH == 0 && |next| == WIDTH
    ensures FullLines(full + next) == FullLines(full) + [Line(next)]
  {
    if full == [] {
      assert full + next == next && next[..WIDTH] == next && next[WIDTH..] == [];
    } else {
      assert (full + next)[..WIDTH] == full[..WIDTH];
      assert (full + next)[WIDTH..] == full[WIDTH..] + next;
      OneMoreFullLine(full[WIDTH..], next);
    }
  }

  /** The lines and the line being filled after some of the bytes. */
  ghost predicate Printed(bytes: seq<Byte>, i: nat, data: seq<string>, line: string)
    requires i <= |bytes|
  {
    var full := i - i % WIDTH;
    data == FullLines(bytes[..full]) && line == Line(bytes[full..i])
  }

  lemma {:induction false} ModNext(i: nat)
    ensures (i + 1) % WIDTH == if i % WIDTH == WIDTH - 1 then 0 else i % WIDTH + 1
    ensures (i - i % WIDTH) % WIDTH == 0
  {
  }

  lemma {:induction false} LineNext(bytes: seq<Byte>, full: nat, i: nat)
    requires full <= i < |bytes|
    ensures Line(bytes[full..i + 1]) ==
            Line(bytes[full..i]) + (if i == full then "    " else " ") + Literal(bytes[i])
  {
    assert bytes[full..i + 1][..i - full] == bytes[full..i];
  }

  lemma {:induction false} PrintedNext(bytes: seq<Byte>, i: nat, data: seq<string>, line: string, grown: string)
    requires i < |bytes| && Printed(bytes, i, data, line)
    requires grown == line + (if i % WIDTH == 0 then "    " else " ") + Literal(bytes[i])
    ensures if i % WIDTH == WIDTH - 1 then Printed(bytes, i + 1, data + [grown], "")
            else Printed(bytes, i + 1, data, grown)
  {
    var full := i - i % WIDTH;
    ModNext(i);
    LineNext(bytes, full, i);
    if i % WIDTH == WIDTH - 1 {
      OneMoreFullLine(bytes[..full], bytes[full..i + 1]);
      assert bytes[..full] + bytes[full..i + 1] == bytes[..i + 1];
    }
  }

  lemma {:induction false} PrintedAll(bytes: seq<Byte>, data: seq<string>, line: string)
    requires Printed(bytes, |bytes|, data, line)
    ensures data + [line] == Lines(bytes)
  {
    var full := |bytes| - |bytes| % WIDTH;
    FullLinesThenLine(bytes[..full], bytes[full..]);
    assert bytes[full..|bytes|] == bytes[full..];
    assert bytes[..full] + bytes[full..] == bytes;
  }

  /** The data lines that source emits. */
  method DataLines(bytes: seq<Byte>) returns (data: seq<string>)
    ensures data == Lines(bytes)
  {
    data := [];
    var line := "";
    for i := 0 to |bytes|
      invariant Printed(bytes, i, data, line)
    {
      ghost var before := line;
      line := line + (if i % WIDTH == 0 then "    " else " ");
      line := line + Literal(bytes[i]);
      PrintedNext(bytes, i, data, before, line);
      if i % WIDTH == WIDTH - 1 {
        data := data + [line];
        line := "";
      }
    }
    PrintedAll(bytes, data, line);
    data := data + [line];
  }

  // ---------------------------------------------------------------- reading back

  function DigitValue(c: char): Option<int> {
    if '0' <= c <= '9' then Some(c as int - '0' as int)
    else if 'a' <= c <= 'f' then Some(c as int - 'a' as int + 10)
    else None
  }

  /** The byte literals of a text, which are set apart by spaces. */
  function Parse(s: string): Option<seq<Byte>> {
    if s == [] then Some([])
    else if s[0] == ' ' then Parse(s[1..])
    else if |s| < 5 || s[0] != '0' || s[1] != 'x' || s[4] != ',' then None
    else
      var high, low, rest := DigitValue(s[2]), DigitValue(s[3]), Parse(s[5..]);
      if high.Some? && low.Some? && rest.Some? then Some([16 * high.value + low.value] + rest.value) else None
  }

  function Text(lines: seq<string>): string {
    if lines == [] then "" else lines[0] + Text(lines[1..])
  }

  lemma {:induction false} DigitReads(n: int)
    requires 0 <= n < 16
    ensures DigitValue(Digit(n)) == Some(n)
  {
    assert forall k :: 0 <= k < 10 ==> HEX[k] as int == '0' as int + k;
    assert forall k :: 10 <= k < 16 ==> HEX[k] as int == 'a' as int + k - 10;
  }

  lemma {:induction false} LiteralReads(b: Byte, rest: string)
    requires Parse(rest).Some?
    ensures Parse(Literal(b) + rest) == Some([b] + Parse(rest).value)
  {
    DigitReads(b / 16);
    DigitReads(b % 16);
    assert (Literal(b) + rest)[5..] == rest;
  }

  lemma {:induction false} SpacesRead(n: nat, spaces: string, rest: string)
    requires n == |spaces| && forall i :: 0 <= i < n ==> spaces[i] == ' '
    ensures Parse(spaces + rest) == Parse(rest)
  {
    if n == 0 {
      assert spaces + rest == rest;
    } else {
      assert (spaces + rest)[1..] == spaces[1..] + rest;
      SpacesRead(n - 1, spaces[1..], rest);
    }
  }

  lemma {:induction false} ByteReads(gap: string, b: Byte, rest: string)
    requires Parse(rest).Some? && forall i :: 0 <= i < |gap| ==> gap[i] == ' '
    ensures Parse(gap + (Literal(b) + rest)) == Some([b] + Parse(rest).value)
  {
    LiteralReads(b, rest);
    SpacesRead(|gap|, gap, Literal(b) + rest);
  }

  lemma {:induction false} Reassociate(a: string, b: string, c: string, d: string)
    ensures a + b + c + d == a + (b + (c + d))
  {
  }

  lemma {:induction false} LastByte(bytes: seq<Byte>, rest: seq<Byte>)
    requires bytes != []
    ensures bytes + rest == bytes[..|bytes| - 1] + ([bytes[|bytes| - 1]] + rest)
  {
  }

  lemma {:induction false} LineReads(bytes: seq<Byte>, rest: string)
    requires Parse(rest).Some?
    ensures Parse(Line(bytes) + rest) == Some(bytes + Parse(rest).value)
  {
    if bytes == [] {
      assert Line(bytes) + rest == rest;
      assert bytes + Parse(rest).value == Parse(rest).value;
    } else {
      var front, b := bytes[..|bytes| - 1], bytes[|bytes| - 1];
      var gap := if |bytes| == 1 then "    " else " ";
      ByteReads(gap, b, rest);
      LineReads(front, gap + (Literal(b) + rest));
      Reassociate(Line(front), gap, Literal(b), rest);
      LastByte(bytes, Parse(rest).value);
    }
  }

  /** What is printed is read back, whatever the bytes. */
  lemma {:induction false} ReadsBack(bytes: seq<Byte>)
    ensures Parse(Text(Lines(bytes))) == Some(bytes)
    decreases |bytes|
  {
    if |bytes| < WIDTH {
      LineReads(bytes, "");
      assert Text([Line(bytes)]) == Line(bytes) + "";
      assert bytes + [] == bytes;
    } else {
      var more := Lines(bytes[WIDTH..]);
      ReadsBack(bytes[WIDTH..]);
      LineReads(bytes[..WIDTH], Text(more));
      assert ([Line(bytes[..WIDTH])] + more)[1..] == more;
      assert bytes[..WIDTH] + bytes[WIDTH..] == bytes;
    }
  }

  lemma {:induction false} LineLength(bytes: seq<Byte>)
    ensures |Line(bytes)| == if bytes == [] then 0 else 6 * |bytes| + 3
  {
    if bytes != [] {
      LineLength(bytes[..|bytes| - 1]);
    }
  }

  /** There is one line for every WIDTH bytes, and one for the rest. */
  lemma {:induction false} LineCount(bytes: seq<Byte>)
    ensures |Lines(bytes)| == |bytes| / WIDTH + 1
    decreases |bytes|
  {
    if |bytes| >= WIDTH {
      LineCount(bytes[WIDTH..]);
    }
  }

  /** The characters of a hexadecimal digit. */
  function Hex(n: nat): char
    requires n < 16
  {
    if n < 10 then ('0' as int + n) as char else ('a' as int + (n - 10)) as char
  }

  lemma {:induction false} DigitExact(n: nat)
    requires n < 16
    ensures Digit(n) == Hex(n)
  {
    assert forall k :: 0 <= k < 10 ==> HEX[k] as int == '0' as int + k;
    assert forall k :: 10 <= k < 16 ==> HEX[k] as int == 'a' as int + k - 10;
  }

  /** Four spaces, then every byte as 0x, two digits and a comma, with a space in between. */
  lemma {:induction false} LineExact(bytes: seq<Byte>, k: nat)
    requires k < |bytes|
    ensures |Line(bytes)| == 6 * |bytes| + 3
    ensures Line(bytes)[..4] == "    " && (k > 0 ==> Line(bytes)[6 * k + 3] == ' ')
    ensures Line(bytes)[6 * k + 4..6 * k + 9] == ['0', 'x', Hex(bytes[k] / 16), Hex(bytes[k] % 16), ',']
  {
    var n, front := |bytes| - 1, bytes[..|bytes| - 1];
    LineLength(bytes);
    LineLength(front);
    DigitExact(bytes[k] / 16);
    DigitExact(bytes[k] % 16);
    if n == 0 {
      assert Line(front) == "";
    } else {
      LineExact(front, if k < n then k else 0);
      assert Line(bytes) == Line(front) + (" " + Literal(bytes[n]));
      assert Line(bytes)[..|Line(front)|] == Line(front);
      if k < n {
        assert Line(bytes)[6 * k + 4..6 * k + 9] == Line(front)[6 * k + 4..6 * k + 9];
      }
    }
  }

  lemma {:induction false} LineHolds(bytes: seq<Byte>, i: nat)
    requires i <= |bytes| / WIDTH
    ensures |Lines(bytes)| == |bytes| / WIDTH + 1
    ensures var end := if i < |bytes| / WIDTH then WIDTH * i + WIDTH else |bytes|;
            Lines(bytes)[i] == Line(bytes[WIDTH * i..end])
    decreases |bytes|
  {
    LineCount(bytes);
    if i == 0 {
      assert |bytes| < WIDTH ==> bytes[0..|bytes|] == bytes;
    } else {
      var rest := bytes[WIDTH..];
      var end := if i < |bytes| / WIDTH then WIDTH * i + WIDTH else |bytes|;
      LineHolds(rest, i - 1);
      LineCount(rest);
      assert |rest| / WIDTH == |bytes| / WIDTH - 1;
      assert Lines(bytes)[i] == Lines(rest)[i - 1];
      AfterFirst(bytes, WIDTH * i, end);
    }
  }

  lemma {:induction false} AfterFirst(bytes: seq<Byte>, a: nat, b: nat)
    requires WIDTH <= a <= b <= |bytes|
    ensures bytes[WIDTH..][a - WIDTH..b - WIDTH] == bytes[a..b]
  {
  }

  /** Every line but the last has twelve bytes, the last has the rest, and none is longer than 80. */
  lemma {:induction false} LineShape(bytes: seq<Byte>, i: nat)
    requires i <= |bytes| / 12
    ensures |Lines(bytes)| == |bytes| / 12 + 1
    ensures var end := if i < |bytes| / 12 then 12 * i + 12 else |bytes|;
            Lines(bytes)[i] == Line(bytes[12 * i..end]) && end - 12 * i <= 12
    ensures |Lines(bytes)[i]| <= 80
  {
    LineHolds(bytes, i);
    LineLength(bytes[12 * i..if i < |bytes| / 12 then 12 * i + 12 else |bytes|]);
  }
}
