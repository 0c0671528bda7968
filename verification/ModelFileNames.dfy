/**
 The names of model files: prefix, app name and model name joined by a separator, and the model
 name read back from a file name.
 */
module ModelFileNames {
  import opened Wrappers

  const PREFIX := "fbml_model"
  const SEPARATOR := "@@"
  const EXTENSION := ".tflite"

  /** joined(separator:) */
  function Join(parts: seq<string>): string {
    if parts == [] then []
    else if |parts| == 1 then parts[0]
    else parts[0] + SEPARATOR + Join(parts[1..])
  }

  /** components(separatedBy:), which takes the leftmost separator first. */
  function Split(s: string): (parts: seq<string>)
    ensures parts != []
  {
    if |s| < 2 then [s]
    else if s[..2] == SEPARATOR then [""] + Split(s[2..])
    else
      var parts := Split(s[1..]);
      [[s[0]] + parts[0]] + parts[1..]
  }

  /** deletingPathExtension: the last dot and what follows it; a leading dot is kept. */
  function WithoutExtension(name: string): string {
    WithoutFrom(name, |name|)
  }

  function WithoutFrom(name: string, end: nat): string
    requires end <= |name|
  {
    if end <= 1 then name
    else if name[end - 1] == '.' then name[..end - 1]
    else WithoutFrom(name, end - 1)
  }

  function DownloadedModelFileName(app: string, model: string): string {
    Join([PREFIX, app, model])
  }

  /** The file on disk has the extension of models. */
  function ModelFile(app: string, model: string): string {
    DownloadedModelFileName(app, model) + EXTENSION
  }

  function ModelNameFromFile(file: string): Option<string> {
    var parts := Split(WithoutExtension(file));
    if |parts| == 3 then Some(parts[2]) else None
  }

  // ---------------------------------------------------------------- splitting

  predicate Separates(s: string) {
    exists i :: 0 <= i < |s| - 1 && s[i] == '@' && s[i + 1] == '@'
  }

  predicate EndsWithAt(s: string) {
    s != [] && s[|s| - 1] == '@'
  }

  /** No part holds a separator, and none but the last ends with half of one. */
  predicate Parts(parts: seq<string>) {
    && parts != []
    && (forall i :: 0 <= i < |parts| ==> !Separates(parts[i]))
    && (forall i :: 0 <= i < |parts| - 1 ==> !EndsWithAt(parts[i]))
  }

  lemma {:induction false} SplitGivesParts(s: string)
    ensures Parts(Split(s)) && Join(Split(s)) == s
  {
    if |s| < 2 {
    } else if s[..2] == SEPARATOR {
      SplitGivesParts(s[2..]);
      assert Split(s)[1..] == Split(s[2..]);
      assert s == SEPARATOR + s[2..];
    } else {
      var parts := Split(s[1..]);
      SplitGivesParts(s[1..]);
      assert Split(s)[1..] == parts[1..];
      assert s == [s[0]] + s[1..];
      FirstPart(s, parts);
    }
  }

  /** A character before the first part makes no separator of its own. */
  lemma {:induction false} FirstPart(s: string, parts: seq<string>)
    requires |s| >= 2 && s[..2] != SEPARATOR && parts != [] && Join(parts) == s[1..] && Parts(parts)
    ensures Parts([[s[0]] + parts[0]] + parts[1..])
    ensures Join([[s[0]] + parts[0]] + parts[1..]) == s
  {
    var first := [s[0]] + parts[0];
    var all := [first] + parts[1..];
    assert all[1..] == parts[1..];
    assert s == [s[0]] + Join(parts);
    if |parts| > 1 {
      assert Join(all) == first + SEPARATOR + Join(parts[1..]);
      assert parts[0] == [] ==> s[1] == '@';
    }
    assert parts[0] != [] ==> parts[0][0] == s[1];
    forall i | 0 <= i < |first| - 1 && first[i] == '@' ensures first[i + 1] != '@' {
      if i > 0 {
        assert parts[0][i - 1] == '@' && parts[0][i] == first[i + 1];
      }
    }
  }

  lemma {:induction false} PartsAreSplit(parts: seq<string>)
    requires Parts(parts)
    ensures Split(Join(parts)) == parts
    decreases |parts|, |parts[0]|
  {
    var s := Join(parts);
    if parts[0] == [] {
      if |parts| > 1 {
        assert s[2..] == Join(parts[1..]);
        PartsAreSplit(parts[1..]);
        assert parts == [""] + parts[1..];
      }
    } else {
      var less := [parts[0][1..]] + parts[1..];
      assert less[1..] == parts[1..];
      assert [parts[0][0]] + parts[0][1..] == parts[0];
      LessParts(parts, less);
      assert s[1..] == Join(less);
      PartsAreSplit(less);
      if |s| >= 2 {
        NoSeparatorAhead(parts);
      }
    }
  }

  lemma {:induction false} LessParts(parts: seq<string>, less: seq<string>)
    requires Parts(parts) && parts[0] != [] && less == [parts[0][1..]] + parts[1..]
    ensures Parts(less)
  {
    forall i | 0 <= i < |less[0]| - 1 && less[0][i] == '@' ensures less[0][i + 1] != '@' {
      assert parts[0][i + 1] == less[0][i] && parts[0][i + 2] == less[0][i + 1];
    }
  }

  lemma {:induction false} NoSeparatorAhead(parts: seq<string>)
    requires Parts(parts) && parts[0] != [] && |Join(parts)| >= 2
    ensures Join(parts)[..2] != SEPARATOR
  {
    var s := Join(parts);
    assert s[0] == parts[0][0];
    if |parts[0]| >= 2 {
      assert s[1] == parts[0][1];
    } else {
      assert |parts| > 1;
    }
  }

  /** Splitting gives exactly the parts that no separator divides further, taken from the left. */
  lemma {:induction false} SplitExact(s: string, parts: seq<string>)
    ensures Split(s) == parts <==> Parts(parts) && Join(parts) == s
  {
    SplitGivesParts(s);
    if Parts(parts) && Join(parts) == s {
      PartsAreSplit(parts);
    }
  }

  // ---------------------------------------------------------------- the round trip

  lemma {:induction false} ExtensionGoes(name: string)
    requires name != []
    ensures WithoutExtension(name + EXTENSION) == name
  {
    var file := name + EXTENSION;
    var n := |name|;
    assert file[n] == '.' && file[..n] == name;
    assert WithoutFrom(file, n + 7) == WithoutFrom(file, n + 6) == WithoutFrom(file, n + 5);
    assert WithoutFrom(file, n + 5) == WithoutFrom(file, n + 4) == WithoutFrom(file, n + 3);
    assert WithoutFrom(file, n + 3) == WithoutFrom(file, n + 2) == WithoutFrom(file, n + 1);
  }

  lemma {:induction false} ThreeParts(a: string, b: string, c: string)
    ensures Join([a, b, c]) == a + SEPARATOR + b + SEPARATOR + c
  {
    assert [a, b, c][1..] == [b, c] && [b, c][1..] == [c];
    assert Join([c]) == c;
    assert Join([b, c]) == b + SEPARATOR + c;
    assert a + SEPARATOR + (b + SEPARATOR + c) == a + SEPARATOR + b + SEPARATOR + c;
  }

  /** The file name in full. */
  lemma {:induction false} FileNameExact(app: string, model: string)
    ensures ModelFile(app, model) == "fbml_model@@" + app + "@@" + model + ".tflite"
  {
    ThreeParts(PREFIX, app, model);
    assert PREFIX + SEPARATOR == "fbml_model@@";
  }

  lemma {:induction false} PrefixComesFirst(app: string, model: string)
    ensures Split(DownloadedModelFileName(app, model))[0] == PREFIX
  {
    var rest := app + SEPARATOR + model;
    var parts := Split(rest);
    SplitGivesParts(rest);
    ThreeParts(PREFIX, app, model);
    var all := [PREFIX] + parts;
    assert all[1..] == parts;
    assert Join(all) == PREFIX + SEPARATOR + rest;
    assert PREFIX + SEPARATOR + rest == DownloadedModelFileName(app, model);
    SplitExact(DownloadedModelFileName(app, model), all);
  }

  /** The model name is read back exactly when the app name neither holds a separator nor ends with
      half of one, and the model name holds none. */
  lemma {:induction false} RoundTripExact(app: string, model: string)
    ensures ModelNameFromFile(ModelFile(app, model)) == Some(model) <==>
            !Separates(app) && !EndsWithAt(app) && !Separates(model)
  {
    var name := DownloadedModelFileName(app, model);
    ThreeParts(PREFIX, app, model);
    ExtensionGoes(name);
    SplitExact(name, [PREFIX, app, model]);
    if ModelNameFromFile(ModelFile(app, model)) == Some(model) {
      var parts := Split(name);
      PrefixComesFirst(app, model);
      SplitGivesParts(name);
      assert parts == [PREFIX, parts[1], model];
      ThreeParts(PREFIX, parts[1], model);
      SameMiddle(parts[1], app, model);
    }
  }

  lemma {:induction false} SameMiddle(a: string, b: string, model: string)
    requires PREFIX + SEPARATOR + a + SEPARATOR + model == PREFIX + SEPARATOR + b + SEPARATOR + model
    ensures a == b
  {
    var s, t := PREFIX + SEPARATOR + a + SEPARATOR + model, PREFIX + SEPARATOR + b + SEPARATOR + model;
    assert |a| == |b|;
    var n := |PREFIX + SEPARATOR|;
    assert a == s[n..n + |a|] && b == t[n..n + |b|];
  }
}
