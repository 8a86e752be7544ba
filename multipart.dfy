/** `parse_multipart`: the upload form's fields, by name, each with its file
    name (when the part names one) and its decoded bytes. Splitting the body
    into parts is the email package's work; the parts it yields, in walk
    order, are an input here. */
module Multipart {
  import opened Text

  newtype Byte = b: int | 0 <= b < 256

  /** One part of the walked message: its Content-Disposition header (`""`
      when absent) and its decoded payload, `None` for a container part. */
  datatype Part = Part(disposition: string, payload: Option<seq<Byte>>)

  /** The value stored under a field name. */
  datatype Field = Field(filename: Option<string>, data: seq<Byte>)

  /** The characters `[^\s;]` admits. */
  predicate BoundaryChar(c: char) {
    !IsSpace(c) && c != ';'
  }

  predicate IsQuote(c: char) {
    c == '"'
  }

  predicate NotQuote(c: char) {
    c != '"'
  }

  /** `boundary=([^\s;]+)` tried at position `p`: the run after `boundary=`
      is taken whole, and it must not be empty. */
  function BoundaryAt(s: string, p: nat): (r: Option<string>)
    ensures r.Some? <==> HasAt(s, p, "boundary=") && p + 9 < |s| && BoundaryChar(s[p + 9])
    ensures r.Some? ==> |r.value| > 0 && forall k :: 0 <= k < |r.value| ==> BoundaryChar(r.value[k])
  {
    if HasAt(s, p, "boundary=") then
      var end := RunEnd(s, p + 9, BoundaryChar);
      RunEndKeeps(s, p + 9, BoundaryChar);
      if end > p + 9 then Some(s[p + 9..end]) else None
    else None
  }

  /** The boundary of the request's Content-Type: the first match, with
      double quotes stripped from both ends; `None` when nothing matches,
      in which case no field is parsed. */
  function Boundary(contentType: string): (r: Option<string>)
    ensures r.None? <==> forall p :: 0 <= p < |contentType| ==> BoundaryAt(contentType, p).None?
    ensures r.Some? ==> exists p :: (0 <= p < |contentType| && BoundaryAt(contentType, p).Some?
      && r.value == Trim(BoundaryAt(contentType, p).value, IsQuote)
      && forall k :: 0 <= k < p ==> BoundaryAt(contentType, k).None?)
    ensures r.Some? ==> forall k :: 0 <= k < |r.value| ==> BoundaryChar(r.value[k])
    ensures r.Some? ==> |r.value| == 0 || (!IsQuote(r.value[0]) && !IsQuote(r.value[|r.value| - 1]))
  {
    var m := FirstMatch(contentType, 0, BoundaryAt);
    BoundaryOfMatch(contentType);
    if m.None? then None else Some(Trim(m.value.1, IsQuote))
  }

  /** What the first match of `boundary=` gives once its quotes are trimmed. */
  lemma BoundaryOfMatch(contentType: string)
    ensures FirstMatch(contentType, 0, BoundaryAt).Some? ==>
      var b := Trim(FirstMatch(contentType, 0, BoundaryAt).value.1, IsQuote);
      (forall k :: 0 <= k < |b| ==> BoundaryChar(b[k])) && (|b| == 0 || (!IsQuote(b[0]) && !IsQuote(b[|b| - 1])))
  {
    var m := FirstMatch(contentType, 0, BoundaryAt);
    if m.Some? {
      TrimQuotesKeepsBoundaryChars(m.value.1);
    }
  }

  /** Trimming the quotes off a run of boundary characters leaves one, with
      no quote at either end. */
  lemma TrimQuotesKeepsBoundaryChars(v: string)
    requires forall k :: 0 <= k < |v| ==> BoundaryChar(v[k])
    ensures forall k :: 0 <= k < |Trim(v, IsQuote)| ==> BoundaryChar(Trim(v, IsQuote)[k])
    ensures var b := Trim(v, IsQuote); |b| == 0 || (!IsQuote(b[0]) && !IsQuote(b[|b| - 1]))
  {
    var b := Trim(v, IsQuote);
    assert |b| == 0 || (!IsQuote(b[0]) && !IsQuote(b[|b| - 1]));
    forall k | 0 <= k < |b| ensures BoundaryChar(b[k]) {
      assert b[k] in v;
      var j :| 0 <= j < |v| && v[j] == b[k];
    }
  }

  /** A quoted boundary loses its quotes. */
  lemma QuotedBoundary(b: string)
    requires |b| > 0 && b[0] != '"' && b[|b| - 1] != '"'
    ensures Trim("\"" + b + "\"", IsQuote) == b
  {
    var s := "\"" + b + "\"";
    assert s[1] == b[0];
    assert RunEnd(s, 0, IsQuote) == 1;
    var t := s[1..];
    assert t == b + "\"";
    assert TrimEndIndex(t, IsQuote) == |b| by {
      assert t[|b| - 1] == b[|b| - 1] && t[|b|] == '"';
    }
    assert t[..|b|] == b;
  }

  /** Nothing is recognised where the character is not a `b`. */
  lemma NoBoundaryAt(s: string, p: nat)
    requires p < |s| && s[p] != 'b'
    ensures BoundaryAt(s, p).None?
  {
    if HasAt(s, p, "boundary=") {
      HasAtFirst(s, p, "boundary=");
    }
  }

  /** `boundary=` followed by boundary characters up to the end of the text
      is recognised with all of them. */
  lemma BoundaryAtEnd(s: string, p: nat, v: string)
    requires HasAt(s, p, "boundary=") && p + 9 <= |s| && s[p + 9..] == v
    requires |v| > 0 && forall k :: 0 <= k < |v| ==> BoundaryChar(v[k])
    ensures BoundaryAt(s, p) == Some(v)
  {
    assert s[p + 9..|s|] == v;
    HasAtSlice(s, p + 9, |s|);
    RunEndPast(s, p + 9, v, BoundaryChar);
    assert RunEnd(s, p + 9, BoundaryChar) == |s|;
  }

  /** The media type of a form upload, up to its `boundary` parameter. */
  const FormData: string := "multipart/form-data; "

  /** The boundary of a form upload is its `boundary=` value, quotes trimmed. */
  lemma BoundaryOfParam(v: string)
    requires |v| > 0 && forall k :: 0 <= k < |v| ==> BoundaryChar(v[k])
    ensures Boundary(FormData + "boundary=" + v) == Some(Trim(v, IsQuote))
  {
    var head := FormData + "boundary=";
    var s := head + v;
    assert forall k :: 0 <= k < |FormData| ==> s[k] == FormData[k] && FormData[k] != 'b';
    forall k | 0 <= k < |FormData| ensures BoundaryAt(s, k).None? {
      NoBoundaryAt(s, k);
    }
    HasAtWhole("boundary=");
    HasAtRight(FormData, "boundary=", 0, "boundary=");
    HasAtLeft(head, v, |FormData|, "boundary=");
    assert s[|head|..] == v;
    BoundaryAtEnd(s, |FormData|, v);
    FirstMatchIs(s, 0, BoundaryAt, |FormData|, v);
  }

  /** Round trip: a boundary written into the Content-Type, quoted or bare,
      is the boundary read back. */
  lemma BoundaryRoundTrip(b: string)
    requires |b| > 0 && b[0] != '"' && b[|b| - 1] != '"'
    requires forall k :: 0 <= k < |b| ==> BoundaryChar(b[k])
    ensures Boundary(FormData + "boundary=" + ("\"" + b + "\"")) == Some(b)
    ensures Boundary(FormData + "boundary=" + b) == Some(b)
  {
    var v := "\"" + b + "\"";
    QuotedBoundaryChars(b);
    BoundaryOfParam(v);
    QuotedBoundary(b);
    BoundaryOfParam(b);
  }

  /** Quotes are boundary characters, so a quoted boundary is one run. */
  lemma QuotedBoundaryChars(b: string)
    requires forall k :: 0 <= k < |b| ==> BoundaryChar(b[k])
    ensures forall k :: 0 <= k < |b| + 2 ==> BoundaryChar(("\"" + b + "\"")[k])
  {
    var v := "\"" + b + "\"";
    forall k | 0 <= k < |v| ensures BoundaryChar(v[k]) {
      if 0 < k < |v| - 1 {
        assert v[k] == b[k - 1];
      }
    }
  }

  /** `key` followed by a run of non-quote characters and a closing quote,
      tried at position `p`; the run may be empty only when `allowEmpty`
      (`[^"]*` rather than `[^"]+`). */
  function QuotedValueAt(s: string, p: nat, key: string, allowEmpty: bool): (r: Option<string>)
    ensures r.Some? ==> HasAt(s, p, key + r.value + "\"") && '"' !in r.value
    ensures r.Some? && !allowEmpty ==> |r.value| > 0
  {
    if HasAt(s, p, key) then
      var start := p + |key|;
      var end := RunEnd(s, start, NotQuote);
      if end < |s| && (allowEmpty || end > start) then
        var v := s[start..end];
        RunEndKeeps(s, start, NotQuote);
        HasAtSlice(s, start, end);
        assert HasAt(s, end, "\"") by {
          assert s[end + 0] == '"';
        }
        HasAtJoin(s, p, key, v);
        HasAtJoin(s, p, key + v, "\"");
        Some(v)
      else None
    else None
  }

  /** Whenever `key`, a value and a closing quote occur at `p`, that value
      is what is recognised there: the match is exactly the quoted value. */
  lemma QuotedValueAtComplete(s: string, p: nat, key: string, allowEmpty: bool, v: string)
    requires HasAt(s, p, key + v + "\"") && '"' !in v && (allowEmpty || |v| > 0)
    ensures QuotedValueAt(s, p, key, allowEmpty) == Some(v)
  {
    HasAtParts(s, p, key + v, "\"");
    HasAtParts(s, p, key, v);
    var start := p + |key|;
    assert s[start + |v|] == '"' by {
      assert s[p + |key + v| + 0] == "\""[0];
    }
    forall j | 0 <= j < |v| ensures NotQuote(v[j]) {
      assert v[j] in v;
    }
    RunEndPast(s, start, v, NotQuote);
    assert s[start..start + |v|] == v by {
      forall j | 0 <= j < |v| ensures s[start..start + |v|][j] == v[j] {
        assert s[start + j] == v[j];
      }
    }
  }

  /** `name="([^"]+)"` tried at position `p`. */
  function NameAt(s: string, p: nat): (r: Option<string>)
    ensures r.Some? ==> HasAt(s, p, "name=\"" + r.value + "\"") && '"' !in r.value && |r.value| > 0
  {
    QuotedValueAt(s, p, "name=\"", false)
  }

  /** Nothing is recognised where the character is not an `n`. */
  lemma NoNameAt(s: string, p: nat)
    requires p < |s| && s[p] != 'n'
    ensures NameAt(s, p).None?
  {
    if NameAt(s, p).Some? {
      HasAtFirst(s, p, "name=\"" + NameAt(s, p).value + "\"");
    }
  }

  /** `filename="([^"]*)"` tried at position `p`. */
  function FilenameAt(s: string, p: nat): (r: Option<string>)
    ensures r.Some? ==> HasAt(s, p, "filename=\"" + r.value + "\"") && '"' !in r.value
  {
    QuotedValueAt(s, p, "filename=\"", true)
  }

  /** The field name as the handler computes it: the first occurrence of
      `name="..."` anywhere in the header, including inside `filename="..."`. */
  function NameAsWritten(disposition: string): (r: Option<string>)
    ensures r.Some? ==> exists p :: HasAt(disposition, p, "name=\"" + r.value + "\"")
    ensures r.Some? ==> exists p :: (0 <= p < |disposition| && NameAt(disposition, p) == r
      && forall k :: 0 <= k < p ==> NameAt(disposition, k).None?)
    ensures r.None? <==> forall p :: 0 <= p < |disposition| ==> NameAt(disposition, p).None?
  {
    match FirstMatch(disposition, 0, NameAt)
    case None => None
    case Some((p, v)) => Some(v)
  }

  /** A parameter of a header value starts at its beginning or right after a
      `;` or whitespace. */
  predicate ParamStart(s: string, p: nat) {
    p == 0 || (p <= |s| && (s[p - 1] == ';' || IsSpace(s[p - 1])))
  }

  /** `name="..."` only where a parameter starts. */
  function ParamNameAt(s: string, p: nat): (r: Option<string>)
    ensures r.Some? ==> ParamStart(s, p) && r == NameAt(s, p)
    ensures ParamStart(s, p) ==> r == NameAt(s, p)
  {
    if ParamStart(s, p) then NameAt(s, p) else None
  }

  /** The field name: the value of the first `name` parameter. */
  function DispositionName(disposition: string): (r: Option<string>)
    ensures r.Some? ==> exists p :: ParamStart(disposition, p) && HasAt(disposition, p, "name=\"" + r.value + "\"")
    ensures r.Some? ==> exists p :: (0 <= p < |disposition| && ParamNameAt(disposition, p) == r
      && forall k :: 0 <= k < p ==> ParamNameAt(disposition, k).None?)
    ensures r.None? <==> forall p :: 0 <= p < |disposition| ==> ParamNameAt(disposition, p).None?
  {
    match FirstMatch(disposition, 0, ParamNameAt)
    case None => None
    case Some((p, v)) => Some(v)
  }

  /** The name never comes out of a `filename` parameter: the character before
      the match cannot be the `e` of `file`. */
  lemma DispositionNameNotFromFilename(disposition: string)
    requires DispositionName(disposition).Some?
    ensures exists p: nat :: (ParamStart(disposition, p)
      && HasAt(disposition, p, "name=\"" + DispositionName(disposition).value + "\"")
      && !(p >= 4 && HasAt(disposition, p - 4, "filename=\"")))
  {
    var n := DispositionName(disposition).value;
    var p: nat :| ParamStart(disposition, p) && HasAt(disposition, p, "name=\"" + n + "\"");
    if p >= 4 && HasAt(disposition, p - 4, "filename=\"") {
      assert "filename=\"" == "fil" + "ename=\"";
      HasAtParts(disposition, p - 4, "fil", "ename=\"");
      HasAtFirst(disposition, p - 1, "ename=\"");
      assert false;
    }
  }

  /** When the first `name="` of the header starts a parameter, as in the
      usual `form-data; name="..."; filename="..."`, the handler's name is
      the `name` parameter. */
  lemma NameFirstAgrees(disposition: string, p: nat, n: string)
    requires FirstMatch(disposition, 0, NameAt) == Some((p, n)) && ParamStart(disposition, p)
    ensures NameAsWritten(disposition) == DispositionName(disposition) == Some(n)
  {
    FirstMatchIs(disposition, 0, ParamNameAt, p, n);
  }

  /** A file part whose header puts `filename` before `name`. */
  const FilenameFirst: string := "form-data; file" + "name=\"a.log\"" + "; " + "name=\"file\""

  lemma FilenameFirstNameAt()
    ensures NameAt(FilenameFirst, 15) == Some("a.log")
  {
    assert HasAt(FilenameFirst, 15, "name=\"" + "a.log" + "\"");
    QuotedValueAtComplete(FilenameFirst, 15, "name=\"", false, "a.log");
  }

  lemma FilenameFirstNameParam()
    ensures NameAt(FilenameFirst, 29) == Some("file")
  {
    assert HasAt(FilenameFirst, 29, "name=\"" + "file" + "\"");
    QuotedValueAtComplete(FilenameFirst, 29, "name=\"", false, "file");
  }

  lemma FilenameFirstNoNameElsewhere()
    ensures forall k :: 0 <= k < 29 && k != 15 ==> NameAt(FilenameFirst, k).None?
    ensures !ParamStart(FilenameFirst, 15) && ParamStart(FilenameFirst, 29)
  {
    var s := FilenameFirst;
    assert forall k :: 0 <= k < 29 && k != 15 ==> s[k] != 'n';
    forall k | 0 <= k < 29 && k != 15 ensures NameAt(s, k).None? {
      NoNameAt(s, k);
    }
    assert s[14] == 'e' && s[28] == ' ';
  }

  /** On that header the handler files the upload under `a.log`, the file
      name, where the `name` parameter says `file`. */
  lemma NameAsWrittenTakesFilename()
    ensures NameAsWritten(FilenameFirst) == Some("a.log")
  {
    FilenameFirstNameAt();
    FilenameFirstNoNameElsewhere();
    FirstMatchIs(FilenameFirst, 0, NameAt, 15, "a.log");
  }

  /** On the same header the `name` parameter gives `file`. */
  lemma DispositionNameTakesName()
    ensures DispositionName(FilenameFirst) == Some("file")
  {
    FilenameFirstNameParam();
    FilenameFirstNoNameElsewhere();
    forall k | 0 <= k < 29 ensures ParamNameAt(FilenameFirst, k).None? {
    }
    FirstMatchIs(FilenameFirst, 0, ParamNameAt, 29, "file");
  }

  /** The file name of a part: the value of the leftmost `filename="..."`,
      `None` when the header has none. */
  function Filename(disposition: string): (r: Option<string>)
    ensures r.Some? ==> exists p :: HasAt(disposition, p, "filename=\"" + r.value + "\"")
    ensures r.Some? ==> exists p :: (0 <= p < |disposition| && FilenameAt(disposition, p) == r
      && forall k :: 0 <= k < p ==> FilenameAt(disposition, k).None?)
    ensures r.None? <==> forall p :: 0 <= p < |disposition| ==> FilenameAt(disposition, p).None?
  {
    match FirstMatch(disposition, 0, FilenameAt)
    case None => None
    case Some((p, v)) => Some(v)
  }

  /** Nothing is recognised where the text departs from `filename="`. */
  lemma NoFilenameAt(s: string, p: nat, j: nat)
    requires j < 10 && p + j < |s| && s[p + j] != "filename=\""[j]
    ensures FilenameAt(s, p).None?
  {
  }

  /** The header of the upload field as a browser writes it, up to its
      `filename` parameter. */
  const UploadHead: string := "form-data; name=\"file\"; "

  /** Round trip: a file name written into the upload field's header is the
      file name read back. */
  lemma FilenameRoundTrip(f: string)
    requires '"' !in f
    ensures Filename(UploadHead + "filename=\"" + f + "\"") == Some(f)
  {
    var tail := "filename=\"" + f + "\"";
    var s := UploadHead + tail;
    UploadHeadNoFilename(s);
    HasAtWhole(tail);
    HasAtRight(UploadHead, tail, 0, tail);
    FilenameIs(s, |UploadHead|, f);
    AppendAssoc(UploadHead, "filename=\"" + f, "\"");
    AppendAssoc(UploadHead, "filename=\"", f);
  }

  /** A `filename="f"` with no match before it gives `f`. */
  lemma FilenameIs(s: string, p: nat, f: string)
    requires HasAt(s, p, "filename=\"" + f + "\"") && '"' !in f
    requires forall k :: 0 <= k < p ==> FilenameAt(s, k).None?
    ensures Filename(s) == Some(f)
  {
    QuotedValueAtComplete(s, p, "filename=\"", true, f);
    FirstMatchIs(s, 0, FilenameAt, p, f);
  }

  /** No `filename="` starts inside the upload field's header head. */
  lemma UploadHeadNoFilename(s: string)
    requires |UploadHead| <= |s| && s[..|UploadHead|] == UploadHead
    ensures forall k :: 0 <= k < |UploadHead| ==> FilenameAt(s, k).None?
  {
    forall k | 0 <= k < |UploadHead| ensures FilenameAt(s, k).None? {
      assert s[k] == UploadHead[k];
      if k == 0 {
        assert s[1] == UploadHead[1];
        NoFilenameAt(s, k, 1);
      } else if k == 17 {
        assert s[21] == UploadHead[21];
        NoFilenameAt(s, k, 4);
      } else {
        NoFilenameAt(s, k, 0);
      }
    }
  }

  /** Which name a part is read under: the handler's pattern as written, or
      the `name` parameter it is meant to find. */
  datatype Reading = AsWritten | Corrected

  /** The field name of a header under a reading. */
  function NameOf(reading: Reading, disposition: string): (r: Option<string>)
    ensures reading == AsWritten ==> r == NameAsWritten(disposition)
    ensures reading == Corrected ==> r == DispositionName(disposition)
  {
    match reading
    case AsWritten => NameAsWritten(disposition)
    case Corrected => DispositionName(disposition)
  }

  /** The first `name="` of the header starts a parameter, or there is none. */
  predicate NameComesFirst(disposition: string) {
    match FirstMatch(disposition, 0, NameAt)
    case None => true
    case Some((p, _)) => ParamStart(disposition, p)
  }

  /** On such a header both readings give the same name. */
  lemma NameComesFirstAgrees(disposition: string)
    requires NameComesFirst(disposition)
    ensures NameAsWritten(disposition) == DispositionName(disposition)
  {
    match FirstMatch(disposition, 0, NameAt)
    case None =>
      forall p | 0 <= p < |disposition| ensures ParamNameAt(disposition, p).None? {
      }
    case Some((p, n)) =>
      NameFirstAgrees(disposition, p, n);
  }

  /** The name a part is stored under: none for a part without a
      Content-Disposition header or without a `name="..."` match. */
  function FieldName(reading: Reading, part: Part): (r: Option<string>)
    ensures part.disposition == "" ==> r.None?
    ensures part.disposition != "" ==> r == NameOf(reading, part.disposition)
  {
    if part.disposition == "" then None else NameOf(reading, part.disposition)
  }

  /** The value stored for a part; a part without a payload stores no bytes. */
  function FieldOf(part: Part): (f: Field)
    ensures f.data == (if part.payload.None? then [] else part.payload.value)
    ensures f.filename == Filename(part.disposition)
  {
    Field(Filename(part.disposition), if part.payload.None? then [] else part.payload.value)
  }

  /** What a part contributes: its name and stored value, or nothing. */
  function EntryOf(reading: Reading, part: Part): (e: Option<(string, Field)>)
    ensures e.Some? <==> FieldName(reading, part).Some?
    ensures e.Some? ==> e.value == (FieldName(reading, part).value, FieldOf(part))
  {
    match FieldName(reading, part)
    case None => None
    case Some(n) => Some((n, FieldOf(part)))
  }

  /** The contributions of the parts, in walk order. */
  function Entries(reading: Reading, parts: seq<Part>): (es: seq<Option<(string, Field)>>)
    ensures |es| == |parts|
    decreases |parts|
  {
    if |parts| == 0 then []
    else Entries(reading, parts[..|parts| - 1]) + [EntryOf(reading, parts[|parts| - 1])]
  }

  lemma {:induction false} EntriesAt(reading: Reading, parts: seq<Part>, i: nat)
    requires i < |parts|
    ensures Entries(reading, parts)[i] == EntryOf(reading, parts[i])
    decreases |parts|
  {
    if i < |parts| - 1 {
      var init := parts[..|parts| - 1];
      EntriesAt(reading, init, i);
      assert init[i] == parts[i];
    }
  }

  /** A dictionary filled by storing each present entry in turn, so a later
      entry under the same key replaces an earlier one. */
  function Store<V>(es: seq<Option<(string, V)>>): map<string, V>
    decreases |es|
  {
    if |es| == 0 then map[]
    else match es[|es| - 1]
      case None => Store(es[..|es| - 1])
      case Some((k, v)) => Store(es[..|es| - 1])[k := v]
  }

  /** Storing one more entry: nothing for an absent one, else its key is
      set to its value. */
  lemma StoreSnoc<V>(es: seq<Option<(string, V)>>, e: Option<(string, V)>)
    ensures e.None? ==> Store(es + [e]) == Store(es)
    ensures e.Some? ==> Store(es + [e]) == Store(es)[e.value.0 := e.value.1]
  {
    assert (es + [e])[..|es|] == es;
  }

  /** A key is stored exactly when some entry carries it. */
  lemma {:induction false} StoreKeys<V>(es: seq<Option<(string, V)>>, key: string)
    ensures key in Store(es) <==> exists i :: 0 <= i < |es| && es[i].Some? && es[i].value.0 == key
    decreases |es|
  {
    if |es| > 0 {
      var init := es[..|es| - 1];
      StoreKeys(init, key);
      if exists i :: 0 <= i < |es| && es[i].Some? && es[i].value.0 == key {
        var i :| 0 <= i < |es| && es[i].Some? && es[i].value.0 == key;
        if i < |init| {
          assert init[i] == es[i];
        }
      }
      if exists i :: 0 <= i < |init| && init[i].Some? && init[i].value.0 == key {
        var i :| 0 <= i < |init| && init[i].Some? && init[i].value.0 == key;
        assert init[i] == es[i];
      }
    }
  }

  /** The value stored under a key is that of the last entry with the key. */
  lemma {:induction false} StoreLastWins<V>(es: seq<Option<(string, V)>>, i: nat)
    requires i < |es| && es[i].Some?
    requires forall j :: i < j < |es| && es[j].Some? ==> es[j].value.0 != es[i].value.0
    ensures es[i].value.0 in Store(es) && Store(es)[es[i].value.0] == es[i].value.1
    decreases |es|
  {
    if i < |es| - 1 {
      var init := es[..|es| - 1];
      assert init[i] == es[i];
      forall j | i < j < |init| && init[j].Some? ensures init[j].value.0 != init[i].value.0 {
        assert init[j] == es[j];
      }
      StoreLastWins(init, i);
    }
  }

  /** The dictionary after the loop over the walked parts. */
  function FormFields(reading: Reading, parts: seq<Part>): map<string, Field> {
    Store(Entries(reading, parts))
  }

  /** The fields of a request: none without a boundary in its Content-Type. */
  function Fields(reading: Reading, contentType: string, parts: seq<Part>): (m: map<string, Field>)
    ensures Boundary(contentType).None? ==> m == map[]
    ensures Boundary(contentType).Some? ==> m == FormFields(reading, parts)
  {
    if Boundary(contentType).None? then map[] else FormFields(reading, parts)
  }

  /** A name is a key exactly when some part carries it. */
  lemma FormFieldsKeys(reading: Reading, parts: seq<Part>, n: string)
    ensures n in FormFields(reading, parts) <==> exists i :: 0 <= i < |parts| && FieldName(reading, parts[i]) == Some(n)
  {
    var es := Entries(reading, parts);
    StoreKeys(es, n);
    if n in FormFields(reading, parts) {
      var i :| 0 <= i < |es| && es[i].Some? && es[i].value.0 == n;
      EntriesAt(reading, parts, i);
      assert FieldName(reading, parts[i]) == Some(n);
    }
    if exists i :: 0 <= i < |parts| && FieldName(reading, parts[i]) == Some(n) {
      var i :| 0 <= i < |parts| && FieldName(reading, parts[i]) == Some(n);
      EntriesAt(reading, parts, i);
      assert es[i].Some? && es[i].value.0 == n;
    }
  }

  /** A name's entry holds the file name and bytes of the last part with
      that name. */
  lemma FormFieldsLastWins(reading: Reading, parts: seq<Part>, i: nat)
    requires i < |parts| && FieldName(reading, parts[i]).Some?
    requires forall j :: i < j < |parts| ==> FieldName(reading, parts[j]) != FieldName(reading, parts[i])
    ensures FieldName(reading, parts[i]).value in FormFields(reading, parts)
    ensures FormFields(reading, parts)[FieldName(reading, parts[i]).value] == FieldOf(parts[i])
  {
    var es := Entries(reading, parts);
    EntriesAt(reading, parts, i);
    forall j | i < j < |es| && es[j].Some? ensures es[j].value.0 != es[i].value.0 {
      EntriesAt(reading, parts, j);
    }
    StoreLastWins(es, i);
  }

  /** When every part's header puts `name` before any `filename`, the
      dictionary is the same under both readings. */
  lemma FormFieldsReadingsAgree(parts: seq<Part>)
    requires forall i :: 0 <= i < |parts| ==> NameComesFirst(parts[i].disposition)
    ensures FormFields(AsWritten, parts) == FormFields(Corrected, parts)
  {
    var a, c := Entries(AsWritten, parts), Entries(Corrected, parts);
    forall i | 0 <= i < |parts| ensures a[i] == c[i] {
      EntriesAt(AsWritten, parts, i);
      EntriesAt(Corrected, parts, i);
      NameComesFirstAgrees(parts[i].disposition);
    }
    assert a == c;
  }

  /** The dictionary of a single part: its entry, if it has a name. */
  lemma FormFieldsOne(reading: Reading, part: Part)
    ensures FieldName(reading, part).None? ==> FormFields(reading, [part]) == map[]
    ensures FieldName(reading, part).Some? ==>
      FormFields(reading, [part]) == map[FieldName(reading, part).value := FieldOf(part)]
  {
    var es := Entries(reading, [part]);
    assert [part][..0] == [];
    assert es == [EntryOf(reading, part)];
    assert es[..0] == [];
    if FieldName(reading, part).Some? {
      var n := FieldName(reading, part).value;
      assert es[|es| - 1] == Some((n, FieldOf(part)));
      assert Store(es) == Store(es[..0])[n := FieldOf(part)];
    } else {
      assert es[|es| - 1].None?;
      assert Store(es) == Store(es[..0]);
    }
  }

  /** An upload whose header puts `filename` first is filed under its file
      name as written, so the upload route, which looks up `file`, finds no
      file; once corrected it is filed under its `name` parameter, `file`. */
  lemma FilenameFirstUpload(contentType: string, data: seq<Byte>)
    requires Boundary(contentType).Some?
    ensures Fields(AsWritten, contentType, [Part(FilenameFirst, Some(data))]).Keys == {"a.log"}
    ensures Fields(Corrected, contentType, [Part(FilenameFirst, Some(data))]).Keys == {"file"}
  {
    var part := Part(FilenameFirst, Some(data));
    FilenameFirstFieldNames(part);
    FormFieldsOne(AsWritten, part);
    FormFieldsOne(Corrected, part);
  }

  lemma FilenameFirstFieldNames(part: Part)
    requires part.disposition == FilenameFirst
    ensures FieldName(AsWritten, part) == Some("a.log") && FieldName(Corrected, part) == Some("file")
  {
    NameAsWrittenTakesFilename();
    DispositionNameTakesName();
  }

  /** Walking one more part: a part without a name changes nothing, any
      other sets its name to its stored value. */
  lemma FormFieldsSnoc(reading: Reading, parts: seq<Part>, i: nat)
    requires i < |parts|
    ensures FieldName(reading, parts[i]).None? ==> FormFields(reading, parts[..i + 1]) == FormFields(reading, parts[..i])
    ensures FieldName(reading, parts[i]).Some? ==>
      FormFields(reading, parts[..i + 1]) == FormFields(reading, parts[..i])[FieldName(reading, parts[i]).value := FieldOf(parts[i])]
  {
    assert parts[..i + 1][..i] == parts[..i];
    assert Entries(reading, parts[..i + 1]) == Entries(reading, parts[..i]) + [EntryOf(reading, parts[i])];
    StoreSnoc(Entries(reading, parts[..i]), EntryOf(reading, parts[i]));
  }

  /** The loop of `parse_multipart` over the walked parts. */
  method CollectFields(reading: Reading, parts: seq<Part>) returns (result: map<string, Field>)
    ensures result == FormFields(reading, parts)
  {
    result := map[];
    for i := 0 to |parts|
      invariant result == FormFields(reading, parts[..i])
    {
      var part := parts[i];
      FormFieldsSnoc(reading, parts, i);
      var cd := part.disposition;
      if cd == "" {
        continue;
      }
      var nm := if reading == AsWritten then FirstMatch(cd, 0, NameAt) else FirstMatch(cd, 0, ParamNameAt);
      assert nm.None? <==> FieldName(reading, part).None?;
      if nm.None? {
        continue;
      }
      var name := nm.value.1;
      assert FieldName(reading, part) == Some(name);
      var fn := FirstMatch(cd, 0, FilenameAt);
      var filename := if fn.Some? then Some(fn.value.1) else None;
      var data := if part.payload.None? then [] else part.payload.value;
      assert Field(filename, data) == FieldOf(part);
      result := result[name := Field(filename, data)];
    }
    assert parts[..|parts|] == parts;
  }

  /** `parse_multipart` given the parts of the body. */
  method ParseMultipart(reading: Reading, contentType: string, parts: seq<Part>) returns (result: map<string, Field>)
    ensures result == Fields(reading, contentType, parts)
  {
    var m := FirstMatch(contentType, 0, BoundaryAt);
    if m.None? {
      return map[];
    }
    result := CollectFields(reading, parts);
  }
}
