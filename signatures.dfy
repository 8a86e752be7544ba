/** `load_signatures`: the known-signature table, a tab-separated file with
    fixed columns, followed by the error registry, a tab-separated file whose
    first data line names its columns. */
module Signatures {
  import opened Text

  /** The three fields only registry entries carry. */
  datatype RegistryFields = RegistryFields(moduleName: string, errorType: string, onSiteRequired: string)

  /** One signature as the endpoint returns it. */
  datatype Signature = Signature(
    pattern: string, component: string, severity: string, title: string,
    rootCause: string, fix: string, kbUrl: string, source: string,
    registry: Option<RegistryFields>)

  const FixedSource: string := "signatures"
  const RegistrySource: string := "registry"

  /** The lines of a file iterated in text mode; each is stripped before use,
      which also removes its line break. */
  function FileLines(text: string): seq<string> {
    ReadLines(TranslateNewlines(text))
  }

  /** A stripped line that is neither blank nor a `#` comment. */
  predicate IsDataLine(line: string) {
    line != "" && line[0] != '#'
  }

  /** `line.split("\t")`. */
  function Fields(line: string): (parts: seq<string>)
    ensures |parts| >= 1
  {
    Split(line, '\t')
  }

  /** `line.strip()` for each line. */
  function StripAll(lines: seq<string>): (r: seq<string>)
    ensures |r| == |lines|
    decreases |lines|
  {
    if |lines| == 0 then [] else StripAll(lines[..|lines| - 1]) + [Strip(lines[|lines| - 1])]
  }

  lemma {:induction false} StripAllAt(lines: seq<string>, k: nat)
    requires k < |lines|
    ensures StripAll(lines)[k] == Strip(lines[k])
    decreases |lines|
  {
    if k < |lines| - 1 {
      StripAllAt(lines[..|lines| - 1], k);
      assert lines[..|lines| - 1][k] == lines[k];
    }
  }

  lemma StripAllLast(lines: seq<string>, i: nat)
    requires i < |lines|
    ensures StripAll(lines[..i + 1]) == StripAll(lines[..i]) + [Strip(lines[i])]
  {
    assert lines[..i + 1][..i] == lines[..i];
  }

  /** The data lines among stripped lines, in order. */
  function DataLines(stripped: seq<string>): (d: seq<string>)
    ensures |d| <= |stripped|
    decreases |stripped|
  {
    if |stripped| == 0 then []
    else
      var line := stripped[|stripped| - 1];
      DataLines(stripped[..|stripped| - 1]) + (if IsDataLine(line) then [line] else [])
  }

  lemma DataLinesLast(stripped: seq<string>, line: string)
    ensures DataLines(stripped + [line]) == DataLines(stripped) + (if IsDataLine(line) then [line] else [])
  {
    assert (stripped + [line])[..|stripped|] == stripped;
  }

  /** Data lines keep the order of the file: those of two runs of lines are
      those of the first run, then those of the second. */
  lemma {:induction false} DataLinesAppend(a: seq<string>, b: seq<string>)
    ensures DataLines(a + b) == DataLines(a) + DataLines(b)
    decreases |b|
  {
    if |b| == 0 {
      assert a + b == a;
    } else {
      var b' := b[..|b| - 1];
      var line := b[|b| - 1];
      var kept := if IsDataLine(line) then [line] else [];
      assert (a + b)[..|a + b| - 1] == a + b';
      assert (a + b)[|a + b| - 1] == line;
      calc {
        DataLines(a + b);
        DataLines(a + b') + kept;
        { DataLinesAppend(a, b'); }
        (DataLines(a) + DataLines(b')) + kept;
        DataLines(a) + (DataLines(b') + kept);
        DataLines(a) + DataLines(b);
      }
    }
  }

  /** The data lines are exactly the stripped lines that are neither blank
      nor comments: every other line is skipped. */
  lemma {:induction false} DataLinesMembers(stripped: seq<string>, d: string)
    ensures d in DataLines(stripped) <==> d in stripped && IsDataLine(d)
    decreases |stripped|
  {
    if |stripped| > 0 {
      var init := stripped[..|stripped| - 1];
      DataLinesMembers(init, d);
      assert stripped == init + [stripped[|stripped| - 1]];
    }
  }

  /** The data lines of a file: its lines that, stripped, are neither blank
      nor comments, stripped. */
  lemma FileDataLines(lines: seq<string>, d: string)
    ensures d in DataLines(StripAll(lines)) <==> exists j :: 0 <= j < |lines| && d == Strip(lines[j]) && IsDataLine(d)
  {
    DataLinesMembers(StripAll(lines), d);
    if d in StripAll(lines) {
      var j :| 0 <= j < |lines| && StripAll(lines)[j] == d;
      StripAllAt(lines, j);
    }
    if exists j :: 0 <= j < |lines| && d == Strip(lines[j]) && IsDataLine(d) {
      var j :| 0 <= j < |lines| && d == Strip(lines[j]) && IsDataLine(d);
      StripAllAt(lines, j);
    }
  }

  /** The entry of a known-signature line split into `parts`: six fields at
      least, the seventh, when present, being the knowledge-base link. */
  function FixedSignature(parts: seq<string>): (r: Option<Signature>)
    ensures r.Some? <==> |parts| >= 6
    ensures r.Some? ==> (r.value.source == FixedSource && r.value.registry.None?
      && r.value.kbUrl == (if |parts| > 6 then parts[6] else ""))
  {
    if |parts| >= 6 then
      Some(Signature(parts[0], parts[1], parts[2], parts[3], parts[4], parts[5],
        if |parts| > 6 then parts[6] else "", FixedSource, None))
    else None
  }

  /** The entries of the known-signature data lines, in order. */
  function FixedEntries(data: seq<string>): seq<Signature>
    decreases |data|
  {
    if |data| == 0 then []
    else
      FixedEntries(data[..|data| - 1]) + EntryOf(data[|data| - 1])
  }

  /** The entry of one known-signature data line, if it has one. */
  function EntryOf(line: string): (r: seq<Signature>)
    ensures |r| <= 1
  {
    match FixedSignature(Fields(line))
    case None => []
    case Some(s) => [s]
  }

  lemma FixedEntriesLast(data: seq<string>, line: string)
    ensures FixedEntries(data + [line]) == FixedEntries(data) + EntryOf(line)
  {
    assert (data + [line])[..|data|] == data;
  }

  /** Every known-signature entry comes from a data line with six fields or
      more, and every such line gives its entry. */
  lemma {:induction false} FixedEntriesMembers(data: seq<string>, e: Signature)
    ensures e in FixedEntries(data) <==> exists j :: 0 <= j < |data| && FixedSignature(Fields(data[j])) == Some(e)
    decreases |data|
  {
    if |data| > 0 {
      var init := data[..|data| - 1];
      FixedEntriesMembers(init, e);
      if exists j :: 0 <= j < |init| && FixedSignature(Fields(init[j])) == Some(e) {
        var j :| 0 <= j < |init| && FixedSignature(Fields(init[j])) == Some(e);
        assert init[j] == data[j];
      }
      if exists j :: 0 <= j < |data| && FixedSignature(Fields(data[j])) == Some(e) {
        var j :| 0 <= j < |data| && FixedSignature(Fields(data[j])) == Some(e);
        if j < |init| {
          assert init[j] == data[j];
        }
      }
    }
  }

  /** Each name mapped to its position; a repeated name keeps its last one. */
  function Index(names: seq<string>): (m: map<string, nat>)
    ensures |names| > 0 ==> names[|names| - 1] in m
    decreases |names|
  {
    if |names| == 0 then map[]
    else Index(names[..|names| - 1])[names[|names| - 1] := |names| - 1]
  }

  /** A name is a key exactly when it occurs, and its position is its last
      occurrence. */
  lemma {:induction false} IndexSpec(names: seq<string>, name: string)
    ensures name in Index(names) <==> name in names
    ensures name in Index(names) ==> (Index(names)[name] < |names| && names[Index(names)[name]] == name
      && forall k :: Index(names)[name] < k < |names| ==> names[k] != name)
    decreases |names|
  {
    if |names| > 0 {
      var init := names[..|names| - 1];
      IndexSpec(init, name);
      assert names == init + [names[|names| - 1]];
      if name in Index(init) && names[|names| - 1] != name {
        assert init[Index(init)[name]] == names[Index(init)[name]];
      }
    }
  }

  /** `{name.strip(): idx for idx, name in enumerate(header)}`. */
  function ColMap(header: seq<string>): map<string, nat> {
    Index(StripAll(header))
  }

  /** The column map sends each stripped header name to its last column,
      and holds nothing else. */
  lemma ColMapSpec(header: seq<string>, name: string)
    ensures name in ColMap(header) <==> exists k :: 0 <= k < |header| && Strip(header[k]) == name
    ensures name in ColMap(header) ==> (ColMap(header)[name] < |header|
      && Strip(header[ColMap(header)[name]]) == name
      && forall k :: ColMap(header)[name] < k < |header| ==> Strip(header[k]) != name)
  {
    var names := StripAll(header);
    IndexSpec(names, name);
    forall k | 0 <= k < |header| ensures names[k] == Strip(header[k]) {
      StripAllAt(header, k);
    }
  }

  /** `col(name, default)`: the field under the named column, or the default
      when the header has no such column or the row is too short for it. */
  function Col(cm: map<string, nat>, parts: seq<string>, name: string, default: string): string {
    if name in cm && cm[name] < |parts| then parts[cm[name]] else default
  }

  /** The entry of a registry row: four fields at least, read through the
      header's columns. */
  function RegistryRow(cm: map<string, nat>, parts: seq<string>): (r: Option<Signature>)
    ensures r.Some? <==> |parts| >= 4
    ensures r.Some? ==> (r.value.source == RegistrySource && r.value.kbUrl == ""
      && r.value.rootCause == r.value.title && r.value.registry.Some?
      && r.value.registry.value.moduleName == r.value.component)
  {
    if |parts| >= 4 then
      Some(Signature(
        Col(cm, parts, "name", ""), Col(cm, parts, "module", ""), Col(cm, parts, "severity", "MEDIUM"),
        Col(cm, parts, "description", ""), Col(cm, parts, "description", ""),
        Col(cm, parts, "troubleshootingSteps", ""), "", RegistrySource,
        Some(RegistryFields(Col(cm, parts, "module", ""), Col(cm, parts, "errorType", ""),
          Col(cm, parts, "onSiteServiceRequired", "false")))))
    else None
  }

  /** Without a `severity` column the severity is MEDIUM, and without an
      `onSiteServiceRequired` column the flag is "false"; a row too short to
      reach a column gets the default too. A column that is present and
      reached gives the row's field under it, even an empty one. */
  lemma RegistryDefaults(header: seq<string>, parts: seq<string>)
    requires |parts| >= 4
    ensures "severity" !in StripAll(header) ==> RegistryRow(ColMap(header), parts).value.severity == "MEDIUM"
    ensures "onSiteServiceRequired" !in StripAll(header)
      ==> RegistryRow(ColMap(header), parts).value.registry.value.onSiteRequired == "false"
    ensures "severity" in ColMap(header) && ColMap(header)["severity"] >= |parts|
      ==> RegistryRow(ColMap(header), parts).value.severity == "MEDIUM"
    ensures "severity" in ColMap(header) && ColMap(header)["severity"] < |parts|
      ==> RegistryRow(ColMap(header), parts).value.severity == parts[ColMap(header)["severity"]]
  {
    IndexSpec(StripAll(header), "severity");
    IndexSpec(StripAll(header), "onSiteServiceRequired");
  }

  /** The entry of one registry row, if it has one. */
  function RowEntryOf(cm: map<string, nat>, line: string): (r: seq<Signature>)
    ensures |r| <= 1
  {
    match RegistryRow(cm, Fields(line))
    case None => []
    case Some(s) => [s]
  }

  /** The entries of registry rows under one header, in order. */
  function RowEntries(cm: map<string, nat>, rows: seq<string>): seq<Signature>
    decreases |rows|
  {
    if |rows| == 0 then [] else RowEntries(cm, rows[..|rows| - 1]) + RowEntryOf(cm, rows[|rows| - 1])
  }

  /** The column map once the data lines `data` are read: empty until the
      header, the first of them, is read. */
  function HeaderMap(data: seq<string>): map<string, nat> {
    if |data| == 0 then map[] else ColMap(Fields(data[0]))
  }

  /** The registry's entries: its first data line is the header, and every
      later data line is a row. */
  function RegistryEntries(data: seq<string>): seq<Signature> {
    if |data| == 0 then [] else RowEntries(HeaderMap(data), data[1..])
  }

  /** A header names at least one column, so its column map is never empty. */
  lemma ColMapNonEmpty(header: seq<string>)
    requires |header| > 0
    ensures ColMap(header) != map[]
  {
    assert StripAll(header)[|header| - 1] in ColMap(header);
  }

  /** One more data line: the first one becomes the header and gives no
      entry; any later one leaves the column map as it was and adds the
      entry of its row, if it has one. */
  lemma RegistryLineStep(data: seq<string>, line: string)
    ensures HeaderMap(data) == map[] <==> data == []
    ensures data == [] ==> HeaderMap(data + [line]) == ColMap(Fields(line)) && RegistryEntries(data + [line]) == []
    ensures data != [] ==> (HeaderMap(data + [line]) == HeaderMap(data)
      && RegistryEntries(data + [line]) == RegistryEntries(data) + RowEntryOf(HeaderMap(data), line))
  {
    if data == [] {
      assert data + [line] == [line];
      assert [line][1..] == [];
    } else {
      ColMapNonEmpty(Fields(data[0]));
      assert (data + [line])[0] == data[0];
      assert (data + [line])[1..] == data[1..] + [line];
      assert (data[1..] + [line])[..|data| - 1] == data[1..];
    }
  }

  /** Every registry entry comes from a row after the header with four fields
      or more, read under the header's columns, and every such row gives its
      entry: the header itself is never an entry. */
  lemma {:induction false} RowEntriesMembers(cm: map<string, nat>, rows: seq<string>, e: Signature)
    ensures e in RowEntries(cm, rows) <==> exists j :: 0 <= j < |rows| && RegistryRow(cm, Fields(rows[j])) == Some(e)
    decreases |rows|
  {
    if |rows| > 0 {
      var init := rows[..|rows| - 1];
      RowEntriesMembers(cm, init, e);
      if exists j :: 0 <= j < |init| && RegistryRow(cm, Fields(init[j])) == Some(e) {
        var j :| 0 <= j < |init| && RegistryRow(cm, Fields(init[j])) == Some(e);
        assert init[j] == rows[j];
      }
      if exists j :: 0 <= j < |rows| && RegistryRow(cm, Fields(rows[j])) == Some(e) {
        var j :| 0 <= j < |rows| && RegistryRow(cm, Fields(rows[j])) == Some(e);
        if j < |init| {
          assert init[j] == rows[j];
        }
      }
    }
  }

  lemma RegistryEntriesMembers(data: seq<string>, e: Signature)
    requires |data| > 0
    ensures e in RegistryEntries(data)
      <==> exists k :: 1 <= k < |data| && RegistryRow(HeaderMap(data), Fields(data[k])) == Some(e)
  {
    var rows := data[1..];
    RowEntriesMembers(HeaderMap(data), rows, e);
    if exists j :: 0 <= j < |rows| && RegistryRow(HeaderMap(data), Fields(rows[j])) == Some(e) {
      var j :| 0 <= j < |rows| && RegistryRow(HeaderMap(data), Fields(rows[j])) == Some(e);
      assert rows[j] == data[j + 1];
    }
    if exists k :: 1 <= k < |data| && RegistryRow(HeaderMap(data), Fields(data[k])) == Some(e) {
      var k :| 1 <= k < |data| && RegistryRow(HeaderMap(data), Fields(data[k])) == Some(e);
      assert rows[k - 1] == data[k];
    }
  }

  /** One more line of the known-signature file adds the entry of that
      line, if it is a data line with six fields or more. */
  lemma FixedStep(lines: seq<string>, i: nat, line: string)
    requires i < |lines| && line == Strip(lines[i])
    ensures FixedEntries(DataLines(StripAll(lines[..i + 1])))
      == FixedEntries(DataLines(StripAll(lines[..i]))) + (if IsDataLine(line) then EntryOf(line) else [])
  {
    var before := StripAll(lines[..i]);
    StripAllLast(lines, i);
    DataLinesLast(before, line);
    if IsDataLine(line) {
      FixedEntriesLast(DataLines(before), line);
    } else {
      assert DataLines(StripAll(lines[..i + 1])) == DataLines(before);
    }
  }

  /** One more line of the registry file leaves the data lines as they were,
      or adds that line after them. */
  lemma RegistryStep(lines: seq<string>, i: nat, line: string)
    requires i < |lines| && line == Strip(lines[i])
    ensures DataLines(StripAll(lines[..i + 1]))
      == DataLines(StripAll(lines[..i])) + (if IsDataLine(line) then [line] else [])
  {
    StripAllLast(lines, i);
    DataLinesLast(StripAll(lines[..i]), line);
  }

  /** The answer of `load_signatures` for the two files' contents, `None`
      for a file that does not exist: the known signatures, then the
      registry's entries. */
  function AllSignatures(fixedText: Option<string>, registryText: Option<string>): seq<Signature> {
    (match fixedText case None => [] case Some(text) => FixedEntries(DataLines(StripAll(FileLines(text)))))
    + (match registryText case None => [] case Some(text) => RegistryEntries(DataLines(StripAll(FileLines(text)))))
  }

  lemma FixedEntriesSource(data: seq<string>)
    ensures forall e :: e in FixedEntries(data) ==> e.source == FixedSource
  {
    forall e | e in FixedEntries(data) ensures e.source == FixedSource {
      FixedEntriesMembers(data, e);
    }
  }

  lemma RegistryEntriesSource(data: seq<string>)
    ensures forall e :: e in RegistryEntries(data) ==> e.source == RegistrySource
  {
    if |data| > 0 {
      forall e | e in RegistryEntries(data) ensures e.source == RegistrySource {
        RegistryEntriesMembers(data, e);
      }
    }
  }

  /** Known signatures followed by registry entries: a known signature never
      comes after a registry entry. */
  lemma SourcesInOrder(f: seq<Signature>, g: seq<Signature>)
    requires forall e :: e in f ==> e.source == FixedSource
    requires forall e :: e in g ==> e.source == RegistrySource
    ensures forall k :: 0 <= k < |f + g| ==> (f + g)[k].source == FixedSource || (f + g)[k].source == RegistrySource
    ensures forall i, j :: 0 <= i < j < |f + g| && (f + g)[j].source == FixedSource ==> (f + g)[i].source == FixedSource
  {
    assert FixedSource[0] != RegistrySource[0];
    forall k | 0 <= k < |f + g|
      ensures (k < |f| ==> (f + g)[k] in f) && (k >= |f| ==> (f + g)[k] in g)
    {
      if k < |f| {
        assert (f + g)[k] == f[k];
      } else {
        assert (f + g)[k] == g[k - |f|];
      }
    }
  }

  /** `load_signatures` lists every known signature before the registry's
      entries, and a file that does not exist contributes no entry of its
      kind. */
  lemma AllSignaturesSources(fixedText: Option<string>, registryText: Option<string>)
    ensures var r := AllSignatures(fixedText, registryText);
      forall k :: 0 <= k < |r| ==> r[k].source == FixedSource || r[k].source == RegistrySource
    ensures var r := AllSignatures(fixedText, registryText);
      forall i, j :: 0 <= i < j < |r| && r[j].source == FixedSource ==> r[i].source == FixedSource
    ensures var r := AllSignatures(fixedText, registryText);
      fixedText.None? ==> forall k :: 0 <= k < |r| ==> r[k].source == RegistrySource
    ensures var r := AllSignatures(fixedText, registryText);
      registryText.None? ==> forall k :: 0 <= k < |r| ==> r[k].source == FixedSource
  {
    var f: seq<Signature> := [];
    if fixedText.Some? {
      var data := DataLines(StripAll(FileLines(fixedText.value)));
      f := FixedEntries(data);
      FixedEntriesSource(data);
    }
    var g: seq<Signature> := [];
    if registryText.Some? {
      var data := DataLines(StripAll(FileLines(registryText.value)));
      g := RegistryEntries(data);
      RegistryEntriesSource(data);
    }
    assert AllSignatures(fixedText, registryText) == f + g;
    SourcesInOrder(f, g);
    assert f == [] ==> f + g == g;
    assert g == [] ==> f + g == f;
  }

  /** The first loop of `load_signatures`, over the known-signature file. */
  method LoadFixed(text: string) returns (sigs: seq<Signature>)
    ensures sigs == FixedEntries(DataLines(StripAll(FileLines(text))))
  {
    var lines := FileLines(text);
    sigs := [];
    for i := 0 to |lines|
      invariant sigs == FixedEntries(DataLines(StripAll(lines[..i])))
    {
      var line := Strip(lines[i]);
      FixedStep(lines, i, line);
      if line == "" || line[0] == '#' {
        continue;
      }
      var parts := Split(line, '\t');
      if |parts| >= 6 {
        sigs := sigs + [FixedSignature(parts).value];
      }
    }
    assert lines[..|lines|] == lines;
  }

  /** The second loop of `load_signatures`, over the registry file: the
      first data line fills the still empty column map, every later one with
      four fields or more is an entry. */
  method LoadRegistry(text: string) returns (sigs: seq<Signature>)
    ensures sigs == RegistryEntries(DataLines(StripAll(FileLines(text))))
  {
    var lines := FileLines(text);
    var colMap: map<string, nat> := map[];
    sigs := [];
    for i := 0 to |lines|
      invariant colMap == HeaderMap(DataLines(StripAll(lines[..i])))
      invariant sigs == RegistryEntries(DataLines(StripAll(lines[..i])))
    {
      var line := Strip(lines[i]);
      ghost var data := DataLines(StripAll(lines[..i]));
      RegistryStep(lines, i, line);
      if line == "" || line[0] == '#' {
        assert DataLines(StripAll(lines[..i + 1])) == data;
        continue;
      }
      assert DataLines(StripAll(lines[..i + 1])) == data + [line];
      var parts := Split(line, '\t');
      RegistryLineStep(data, line);
      if colMap == map[] {
        assert data == [];
        colMap := ColMap(parts);
        assert RegistryEntries(data + [line]) == [];
        continue;
      }
      assert data != [];
      assert colMap == HeaderMap(data);
      if |parts| >= 4 {
        assert RowEntryOf(colMap, line) == [RegistryRow(colMap, parts).value];
        sigs := sigs + [RegistryRow(colMap, parts).value];
      } else {
        assert RowEntryOf(colMap, line) == [];
      }
      assert sigs == RegistryEntries(data + [line]);
    }
    assert lines[..|lines|] == lines;
  }

  /** `load_signatures`: a file that does not exist contributes nothing. */
  method LoadSignatures(fixedText: Option<string>, registryText: Option<string>) returns (sigs: seq<Signature>)
    ensures sigs == AllSignatures(fixedText, registryText)
  {
    var fixed: seq<Signature> := [];
    if fixedText.Some? {
      fixed := LoadFixed(fixedText.value);
    }
    var registry: seq<Signature> := [];
    if registryText.Some? {
      registry := LoadRegistry(registryText.value);
    }
    sigs := fixed + registry;
  }
}
