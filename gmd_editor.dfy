/**
  The three label transforms of the editor, applied to an open Gmd object:
  ExportData writes one CSV line per label, ImportData takes each label's text
  back from the same line of a CSV file, and ImportGMDData copies label texts
  from another GMD file, by position or by name.  The two export settings
  (include TextID, include name) are parameters; the file dialogs, batch
  traversal and message boxes around the transforms are not modelled.
 */
module GmdEditor {
  import opened Bytes
  import opened Wrappers
  import opened GmdFormat
  import opened GmdCodec
  import opened TextOps

  // ---------------------------------------------------------------------
  // CSV export
  // ---------------------------------------------------------------------

  /**
    The name written for a label: its own name when the file has real labels
    and the name is not empty, otherwise "unnamed_" and the one-based label
    number in five digits.
   */
  function ExportName(l: Label, realCount: uint32): (n: seq<byte>)
    ensures n != []
    ensures n == l.name || OneLine(n)
  {
    if realCount > 0 && l.name != [] then l.name
    else
      FallbackNameOneLine(l.textId + 1);
      UnnamedPrefix + ZeroPadded5(l.textId + 1)
  }

  lemma {:induction false} FallbackNameOneLine(n: int)
    ensures OneLine(UnnamedPrefix + ZeroPadded5(n))
  {
    DecimalPlain(ZeroPadded5(n), n < 0);
  }

  /** The decimal text of a TextID holds no line terminator and no tab. */
  lemma {:induction false} IdTextPlain(n: int)
    ensures OneLine(IntToString(n)) && TAB !in IntToString(n)
  {
    DecimalPlain(IntToString(n), n < 0);
  }

  /** Digits, after a minus sign when `signed`, are neither line terminators nor tabs. */
  lemma {:induction false} DecimalPlain(s: seq<byte>, signed: bool)
    requires signed ==> s != [] && s[0] == Minus && AllDigits(s[1..])
    requires !signed ==> AllDigits(s)
    ensures OneLine(s) && TAB !in s
  {
    if signed {
      var t := s[1..];
      assert forall i :: 0 <= i < |t| ==> IsDigit(t[i]);
      assert s == [Minus] + t;
    }
  }

  /** The fields written before the text: TextID and name, each followed by a tab, when enabled. */
  function LeadingFields(l: Label, includeId: bool, includeName: bool, realCount: uint32): (p: seq<byte>)
    ensures p == [] || p[|p| - 1] == TAB
  {
    (if includeId then IntToString(l.textId) + [TAB] else [])
    + (if includeName && realCount > 0 then ExportName(l, realCount) + [TAB] else [])
  }

  /** The CSV line of one label, without its terminator: the leading fields, then the text with CR LF written as "<br>". */
  function ExportLine(l: Label, includeId: bool, includeName: bool, realCount: uint32): seq<byte>
  {
    LeadingFields(l, includeId, includeName, realCount) + Replace(l.text, CRLF, BR)
  }

  function ExportLines(labels: seq<Label>, includeId: bool, includeName: bool, realCount: uint32): seq<seq<byte>>
  {
    seq(|labels|, i requires 0 <= i < |labels| => ExportLine(labels[i], includeId, includeName, realCount))
  }

  /** The exported file: every label's line, each written with WriteLine. */
  function CsvFile(labels: seq<Label>, includeId: bool, includeName: bool, realCount: uint32): seq<byte>
  {
    Joined(ExportLines(labels, includeId, includeName, realCount))
  }

  lemma {:induction false} CsvFileStep(labels: seq<Label>, i: nat, includeId: bool, includeName: bool, realCount: uint32)
    requires i < |labels|
    ensures CsvFile(labels[..i + 1], includeId, includeName, realCount)
         == CsvFile(labels[..i], includeId, includeName, realCount) + ExportLine(labels[i], includeId, includeName, realCount) + CRLF
  {
    var line := ExportLine(labels[i], includeId, includeName, realCount);
    var longer := ExportLines(labels[..i + 1], includeId, includeName, realCount);
    var shorter := ExportLines(labels[..i], includeId, includeName, realCount);
    forall j | 0 <= j <= i ensures longer[j] == (shorter + [line])[j] {
      if j < i {
        assert labels[..i + 1][j] == labels[..i][j];
      }
    }
    assert longer == shorter + [line];
    JoinedAppend(shorter, line);
  }

  /** The body of ExportData's loop: the fields of one label written after `sw`, then the line terminator. */
  method WriteLine(sw: seq<byte>, entry: Label, includeId: bool, includeName: bool, realCount: uint32)
    returns (csv: seq<byte>)
    ensures csv == sw + ExportLine(entry, includeId, includeName, realCount) + CRLF
  {
    var sName := ExportName(entry, realCount);
    var sText := Replace(entry.text, CRLF, BR);
    var idField: seq<byte> := [];
    if includeId {
      idField := IntToString(entry.textId) + [TAB];
    }
    var nameField: seq<byte> := [];
    if includeName && realCount > 0 {
      nameField := sName + [TAB];
    }
    assert LeadingFields(entry, includeId, includeName, realCount) == idField + nameField;
    csv := sw + idField + nameField + sText + CRLF;
    LineRegroup(sw, idField, nameField, sText);
  }

  lemma {:induction false} LineRegroup(sw: seq<byte>, a: seq<byte>, b: seq<byte>, c: seq<byte>)
    ensures sw + a + b + c + CRLF == sw + (a + b + c) + CRLF
  {
  }

  /**
    ExportData on the open document: false, with nothing written, when the
    document has no labels; otherwise the CSV file of all its labels.
   */
  method ExportData(g: Gmd, includeId: bool, includeName: bool) returns (ok: bool, csv: seq<byte>)
    ensures ok <==> g.labels != []
    ensures csv == if ok then CsvFile(g.labels, includeId, includeName, g.header.labelCount) else []
  {
    if |g.labels| == 0 {
      return false, [];
    }
    csv := [];
    var i := 0;
    while i < |g.labels|
      invariant 0 <= i <= |g.labels|
      invariant csv == CsvFile(g.labels[..i], includeId, includeName, g.header.labelCount)
    {
      var entry := g.labels[i];
      var realCount := g.GetRealLabelCount();
      csv := WriteLine(csv, entry, includeId, includeName, realCount);
      CsvFileStep(g.labels, i, includeId, includeName, realCount);
      i := i + 1;
    }
    assert g.labels[..i] == g.labels;
    ok := true;
  }

  // ---------------------------------------------------------------------
  // CSV import
  // ---------------------------------------------------------------------

  /** The text a CSV line gives its label: the last tab-separated field, with "<br>" written back as CR LF. */
  function ImportText(line: seq<byte>): seq<byte>
  {
    Replace(LastField(line), BR, CRLF)
  }

  /** Each label takes its text from the line at its position; names and TextIDs stay. */
  function Imported(labels: seq<Label>, lines: seq<seq<byte>>): (r: seq<Label>)
    requires |lines| == |labels|
    ensures |r| == |labels|
    ensures forall i :: 0 <= i < |r| ==> r[i].name == labels[i].name && r[i].textId == labels[i].textId
  {
    seq(|labels|, i requires 0 <= i < |labels| => labels[i].(text := ImportText(lines[i])))
  }

  /**
    ImportData into the open document: the CSV file's lines are counted
    first; when they are not as many as the labels, nothing changes and the
    result is false.  Otherwise the lines are read one by one and label i
    takes its text from line i.
   */
  method ImportData(g: Gmd, csv: seq<byte>) returns (ok: bool)
    modifies g`labels
    ensures ok <==> |Lines(csv)| == |old(g.labels)|
    ensures g.labels == if ok then Imported(old(g.labels), Lines(csv)) else old(g.labels)
  {
    if |Lines(csv)| != |g.labels| {
      return false;
    }
    ReadTexts(g, csv);
    ok := true;
  }

  /** The reading loop of ImportData: line i of the stream gives label i its text. */
  method ReadTexts(g: Gmd, csv: seq<byte>)
    requires |Lines(csv)| == |g.labels|
    modifies g`labels
    ensures g.labels == Imported(old(g.labels), Lines(csv))
  {
    ghost var lines := Lines(csv);
    ghost var labels0 := g.labels;
    var rest := csv;
    var i := 0;
    while rest != []
      invariant 0 <= i <= |lines| == |labels0| == |g.labels|
      invariant Lines(rest) == lines[i..]
      invariant forall k :: 0 <= k < i ==> g.labels[k] == labels0[k].(text := ImportText(lines[k]))
      invariant forall k :: i <= k < |g.labels| ==> g.labels[k] == labels0[k]
      decreases |rest|
    {
      var k := LineLength(rest);
      var line := rest[..k];
      NextLine(rest, lines, i);
      var data := LastField(line);
      g.labels := g.labels[i := g.labels[i].(text := Replace(data, BR, CRLF))];
      i := i + 1;
      rest := rest[NextLineStart(rest, k)..];
    }
    assert g.labels == Imported(labels0, lines);
  }

  /** A successful import keeps a decoded document well formed: only label texts change. */
  lemma {:induction false} ImportKeepsWellFormed(d: Doc, lines: seq<seq<byte>>)
    requires WellFormed(d) && |lines| == |d.labels|
    ensures WellFormed(d.(labels := Imported(d.labels, lines)))
  {
  }

  // ---------------------------------------------------------------------
  // Export followed by import
  // ---------------------------------------------------------------------

  /** A text that comes back unchanged from its CSV line: no tab, no "<br>" and no line break other than CR LF. */
  predicate Restorable(t: seq<byte>)
  {
    TAB !in t && !HasInfix(t, BR) && OnlyCrLfBreaks(t)
  }

  /** Importing an exported line gives the label its own text back, whatever leading fields were written. */
  lemma {:induction false} ExportLineImports(l: Label, includeId: bool, includeName: bool, realCount: uint32)
    requires TAB !in l.text && !HasInfix(l.text, BR)
    ensures ImportText(ExportLine(l, includeId, includeName, realCount)) == l.text
  {
    var escaped := Replace(l.text, CRLF, BR);
    ReplaceAvoids(l.text, CRLF, BR, TAB);
    LastFieldAfter(LeadingFields(l, includeId, includeName, realCount), escaped);
    UnescapeEscape(l.text);
  }

  /** An exported line is a single line when the text's only breaks are CR LF pairs and the name written has none. */
  lemma {:induction false} ExportLineIsOneLine(l: Label, includeId: bool, includeName: bool, realCount: uint32)
    requires OnlyCrLfBreaks(l.text) && OneLine(l.name)
    ensures OneLine(ExportLine(l, includeId, includeName, realCount))
  {
    IdTextPlain(l.textId);
    BreaksEscaped(l.text);
    var line := ExportLine(l, includeId, includeName, realCount);
    assert line == (if includeId then IntToString(l.textId) + [TAB] else [])
      + (if includeName && realCount > 0 then ExportName(l, realCount) + [TAB] else [])
      + Replace(l.text, CRLF, BR);
  }

  /**
    Exporting the labels and importing the file again restores every text,
    when each text is restorable and no name holds a line break: the file has
    exactly one line per label, so the import succeeds, and it changes nothing.
   */
  lemma {:induction false} CsvRoundTrip(labels: seq<Label>, includeId: bool, includeName: bool, realCount: uint32)
    requires forall i :: 0 <= i < |labels| ==> Restorable(labels[i].text) && OneLine(labels[i].name)
    ensures |Lines(CsvFile(labels, includeId, includeName, realCount))| == |labels|
    ensures Imported(labels, Lines(CsvFile(labels, includeId, includeName, realCount))) == labels
  {
    var ls := ExportLines(labels, includeId, includeName, realCount);
    forall i | 0 <= i < |ls|
      ensures OneLine(ls[i]) && ImportText(ls[i]) == labels[i].text
    {
      ExportLineIsOneLine(labels[i], includeId, includeName, realCount);
      ExportLineImports(labels[i], includeId, includeName, realCount);
    }
    LinesOfJoined(ls);
  }

  // ---------------------------------------------------------------------
  // Import from another GMD file
  // ---------------------------------------------------------------------

  /** The position of the first source label named `name`, if any. */
  function FirstNamed(source: seq<Label>, name: seq<byte>): (j: Option<nat>)
    ensures j.Some? ==> j.value < |source| && source[j.value].name == name
    ensures j.Some? ==> forall k :: 0 <= k < j.value ==> source[k].name != name
    ensures j.None? ==> forall k :: 0 <= k < |source| ==> source[k].name != name
    decreases |source|
  {
    if source == [] then None
    else if source[0].name == name then Some(0)
    else match FirstNamed(source[1..], name)
      case None => None
      case Some(j) => Some(j + 1)
  }

  /** A label takes the text of the first source label with an equal name, and keeps its own when there is none. */
  function TakeTextByName(l: Label, source: seq<Label>): Label
  {
    match FirstNamed(source, l.name)
    case None => l
    case Some(j) => l.(text := source[j].text)
  }

  /**
    What ImportGMDData makes of the target's labels.  Without real labels
    (a label count of zero) texts are copied position by position, which
    fails, before any change, when the two files differ in length and the
    target has labels; with real labels every target label is matched by name.
   */
  function Merged(target: seq<Label>, realCount: uint32, source: seq<Label>): (r: Option<seq<Label>>)
    ensures r.None? <==> realCount == 0 && target != [] && |target| != |source|
    ensures r.Some? ==> |r.value| == |target|
    ensures r.Some? ==> forall i :: 0 <= i < |target| ==>
      r.value[i].name == target[i].name && r.value[i].textId == target[i].textId
  {
    if realCount == 0 then
      if target != [] && |target| != |source| then None
      else Some(seq(|target|, i requires 0 <= i < |target| => target[i].(text := source[i].text)))
    else Some(seq(|target|, i requires 0 <= i < |target| => TakeTextByName(target[i], source)))
  }

  /**
    ImportGMDData into the open document from a separately decoded file:
    false, with nothing changed, exactly when the merge fails.
   */
  method ImportGmdData(g: Gmd, src: Gmd) returns (ok: bool)
    requires g != src
    modifies g`labels
    ensures var m := Merged(old(g.labels), g.header.labelCount, src.labels);
      (ok <==> m.Some?) && g.labels == if m.Some? then m.value else old(g.labels)
  {
    ghost var target := g.labels;
    ghost var m := Merged(target, g.header.labelCount, src.labels);
    var i := 0;
    while i < |g.labels|
      invariant 0 <= i <= |g.labels| == |target|
      invariant m.None? ==> i == 0
      invariant forall k :: 0 <= k < |g.labels| ==> g.labels[k] == if k < i then m.value[k] else target[k]
    {
      if g.GetRealLabelCount() == 0 {
        if |g.labels| == |src.labels| {
          g.labels := g.labels[i := g.labels[i].(text := src.labels[i].text)];
        } else {
          return false;
        }
      } else {
        ghost var before := g.labels;
        var j := 0;
        while j < |src.labels|
          invariant 0 <= j <= |src.labels| && g.labels == before
          invariant forall k :: 0 <= k < j ==> src.labels[k].name != target[i].name
        {
          if g.labels[i].name == src.labels[j].name {
            assert FirstNamed(src.labels, target[i].name) == Some(j);
            g.labels := g.labels[i := g.labels[i].(text := src.labels[j].text)];
            break;
          }
          j := j + 1;
        }
        assert g.labels[i] == m.value[i];
      }
      i := i + 1;
    }
    ok := true;
  }

  // ---------------------------------------------------------------------
  // Properties of the merge
  // ---------------------------------------------------------------------

  /** A successful merge keeps a decoded document well formed: only label texts change. */
  lemma {:induction false} MergeKeepsWellFormed(d: Doc, source: seq<Label>)
    requires WellFormed(d) && Merged(d.labels, d.header.labelCount, source).Some?
    ensures WellFormed(d.(labels := Merged(d.labels, d.header.labelCount, source).value))
  {
  }

  /** Merging a second time from the same source changes nothing more. */
  lemma {:induction false} MergeIdempotent(target: seq<Label>, realCount: uint32, source: seq<Label>)
    requires Merged(target, realCount, source).Some?
    ensures Merged(Merged(target, realCount, source).value, realCount, source) == Merged(target, realCount, source)
  {
    var once := Merged(target, realCount, source).value;
    var twice := Merged(once, realCount, source).value;
    forall i | 0 <= i < |target| ensures twice[i] == once[i] {
      if realCount > 0 {
        assert once[i].name == target[i].name;
      }
    }
    assert twice == once;
  }

  /** Without real labels, a successful merge leaves the target holding exactly the source's texts. */
  lemma {:induction false} PositionalMergeCopiesTexts(target: seq<Label>, source: seq<Label>)
    requires |target| == |source|
    ensures Merged(target, 0, source).Some?
    ensures TextsOf(Merged(target, 0, source).value) == TextsOf(source)
  {
  }

  /**
    Merging a document from a copy of itself changes nothing when labels with
    equal names hold equal texts.
   */
  lemma {:induction false} SelfMergeKeeps(labels: seq<Label>, realCount: uint32)
    requires forall i, k :: 0 <= i < |labels| && 0 <= k < |labels| && labels[i].name == labels[k].name ==> labels[i].text == labels[k].text
    ensures Merged(labels, realCount, labels) == Some(labels)
  {
    var r := Merged(labels, realCount, labels).value;
    forall i | 0 <= i < |labels| ensures r[i] == labels[i] {
      if realCount > 0 {
        var j := FirstNamed(labels, labels[i].name);
        assert j.Some?;
      }
    }
    assert r == labels;
  }

  /**
    Matching by plain name equality: with real labels, every unnamed target
    label (the labels past the name table) takes the text of the first
    unnamed source label, so all of them end up with one and the same text.
   */
  lemma {:induction false} UnnamedLabelsShareText(target: seq<Label>, realCount: uint32, source: seq<Label>, j: nat)
    requires realCount > 0
    requires j < |source| && source[j].name == [] && forall k :: 0 <= k < j ==> source[k].name != []
    ensures forall i :: 0 <= i < |target| && target[i].name == [] ==>
      Merged(target, realCount, source).value[i].text == source[j].text
  {
    assert FirstNamed(source, []) == Some(j);
  }

  /** The fallback name of an unnamed label is one-based, one past the name the decoder synthesizes for it. */
  lemma {:induction false} FallbackIsOneBased(l: Label, realCount: uint32)
    requires l.name == [] || realCount == 0
    requires 0 <= l.textId
    ensures ExportName(l, realCount) == SyntheticName(l.textId + 1)
    ensures ExportName(l, realCount) != SyntheticName(l.textId)
  {
    var a, b := ZeroPadded5(l.textId + 1), ZeroPadded5(l.textId);
    assert a == (UnnamedPrefix + a)[|UnnamedPrefix|..];
    assert b == (UnnamedPrefix + b)[|UnnamedPrefix|..];
  }
}
