/** `search_logs`: the post-filter over what `grep -i -n pattern` printed for
    each `.parsed` file of a session, in sorted file order. */
module LogSearch {
  import opened Text

  /** The single entry returned while a session has no `parsed` directory. */
  const Placeholder: string := "Logs not parsed yet \U{2014} run analysis first"

  /** Every hit keeps at most this many characters of its line. */
  const LineLimit: nat := 300

  /** One entry of the answer: a hit names its file; the placeholder has none. */
  datatype Entry = Entry(file: Option<string>, line: string)

  /** A `.parsed` file and the standard output of grep on it; `None` when the
      grep call raised (a timeout), which the loop's `try` turns into no hits. */
  datatype ParsedFile = ParsedFile(name: string, grepOutput: Option<string>)

  /** The request's filters: a severity letter, a component, `max_results`. */
  datatype Query = Query(severity: string, component: string, maxResults: int)

  /** `sev_map.get(severity.upper(), "")` when a severity is given, else "":
      only a single letter, in either case, is a key of the map. */
  function SeverityMarker(severity: string): (m: string)
    ensures m == "" || (|m| == 3 && m[0] == '|' && m[2] == '|' && m[1] in "EWICN")
    ensures m != "" <==> |severity| == 1 && UpperChar(severity[0]) in "EWICN"
    ensures m != "" ==> m[1] == UpperChar(severity[0])
  {
    if |severity| != 1 then ""
    else
      var u := UpperChar(severity[0]);
      if u in "EWICN" then ['|', u, '|'] else ""
  }

  /** The three `continue` tests of the loop, passed: the line is not empty,
      it holds the severity marker when one applies, and it holds the
      component, compared in lower case, when one is given. */
  predicate Keep(line: string, q: Query) {
    line != ""
    && (q.severity == "" || SeverityMarker(q.severity) == "" || Contains(line, SeverityMarker(q.severity)))
    && (q.component == "" || Contains(Lower(line), Lower(q.component)))
  }

  /** `line[:300]`. */
  function Truncate(line: string): (r: string)
    ensures |r| <= LineLimit && r <= line
    ensures |line| <= LineLimit ==> r == line
  {
    if |line| <= LineLimit then line else line[..LineLimit]
  }

  /** `p.stdout.strip().split("\n")`; grep's output is read in text mode, so
      its line breaks are translated first. */
  function GrepLines(out: string): (r: seq<string>)
    ensures |r| >= 1 && forall k :: 0 <= k < |r| ==> '\n' !in r[k]
  {
    Split(Strip(TranslateNewlines(out)), '\n')
  }

  /** grep's lines come back one by one from what it prints, each line ended
      by "\n", as long as the first begins and the last ends with a
      character other than whitespace (a `grep -n` line begins with its
      number). */
  lemma GrepLinesOfOutput(lines: seq<string>)
    requires |lines| >= 1
    requires forall k :: 0 <= k < |lines| ==> '\n' !in lines[k] && '\r' !in lines[k]
    requires lines[0] != "" && !IsSpace(lines[0][0])
    requires lines[|lines| - 1] != "" && !IsSpace(lines[|lines| - 1][|lines[|lines| - 1]| - 1])
    ensures GrepLines(UnixText(lines)) == lines
  {
    var init, last := lines[..|lines| - 1], lines[|lines| - 1];
    assert lines == init + [last];
    var x := UnixText(init) + last;
    UnixTextSnoc(init, last);
    UnixTextJoin(init, last);
    NoCarriageReturn(lines);
    assert x[0] == lines[0][0] by {
      if |init| > 0 {
        assert init[0] == lines[0];
        assert UnixText(init) == init[0] + "\n" + UnixText(init[1..]);
      }
    }
    assert x[|x| - 1] == last[|last| - 1];
    StripLineBreak(x);
    SplitJoin(lines, '\n');
  }

  /** A file with the lines grep printed for it, already split; `None` when
      the grep call raised. */
  datatype Grepped = Grepped(name: string, lines: Option<seq<string>>)

  function GrepOf(f: ParsedFile): Grepped {
    Grepped(f.name, match f.grepOutput case None => None case Some(out) => Some(GrepLines(out)))
  }

  /** The grep results of all files, in order. */
  function GrepAll(files: seq<ParsedFile>): (gs: seq<Grepped>)
    ensures |gs| == |files|
    decreases |files|
  {
    if |files| == 0 then [] else GrepAll(files[..|files| - 1]) + [GrepOf(files[|files| - 1])]
  }

  lemma {:induction false} GrepAllAt(files: seq<ParsedFile>, i: nat)
    requires i < |files|
    ensures GrepAll(files)[i] == GrepOf(files[i])
    decreases |files|
  {
    if i < |files| - 1 {
      var init := files[..|files| - 1];
      GrepAllAt(init, i);
      assert init[i] == files[i];
    }
  }

  /** The hits a file contributes, line by line: each kept line, truncated. */
  function LineHits(name: string, lines: seq<string>, q: Query): (r: seq<Entry>)
    ensures |r| <= |lines|
    decreases |lines|
  {
    if |lines| == 0 then []
    else
      var last := lines[|lines| - 1];
      LineHits(name, lines[..|lines| - 1], q) + (if Keep(last, q) then [Entry(Some(name), Truncate(last))] else [])
  }

  /** Each hit of a file names the file and is a kept line of it, truncated. */
  lemma {:induction false} LineHitsSound(name: string, lines: seq<string>, q: Query, h: Entry)
    requires h in LineHits(name, lines, q)
    ensures h.file == Some(name) && exists l :: l in lines && Keep(l, q) && h.line == Truncate(l)
    decreases |lines|
  {
    var init := lines[..|lines| - 1];
    var last := lines[|lines| - 1];
    if h in LineHits(name, init, q) {
      LineHitsSound(name, init, q, h);
      var l :| l in init && Keep(l, q) && h.line == Truncate(l);
      assert l in lines;
    } else {
      assert last in lines;
    }
  }

  /** Each kept line of a file gives a hit. */
  lemma {:induction false} LineHitsComplete(name: string, lines: seq<string>, q: Query, l: string)
    requires l in lines && Keep(l, q)
    ensures Entry(Some(name), Truncate(l)) in LineHits(name, lines, q)
    decreases |lines|
  {
    var init := lines[..|lines| - 1];
    assert lines == init + [lines[|lines| - 1]];
    if l != lines[|lines| - 1] {
      LineHitsComplete(name, init, q, l);
    }
  }

  function FileHits(g: Grepped, q: Query): seq<Entry> {
    match g.lines
    case None => []
    case Some(lines) => LineHits(g.name, lines, q)
  }

  /** Every hit of every file, files in the order given. */
  function AllHits(gs: seq<Grepped>, q: Query): seq<Entry>
    decreases |gs|
  {
    if |gs| == 0 then []
    else AllHits(gs[..|gs| - 1], q) + FileHits(gs[|gs| - 1], q)
  }

  /** Each hit names a file whose grep lines hold a kept line that the hit is
      cut from. */
  lemma {:induction false} AllHitsSound(gs: seq<Grepped>, q: Query, h: Entry)
    requires h in AllHits(gs, q)
    ensures exists i :: (0 <= i < |gs| && gs[i].lines.Some? && h.file == Some(gs[i].name)
      && (exists l :: l in gs[i].lines.value && Keep(l, q) && h.line == Truncate(l)))
    decreases |gs|
  {
    var init := gs[..|gs| - 1];
    var k := |gs| - 1;
    if h in AllHits(init, q) {
      AllHitsSound(init, q, h);
      var i :| 0 <= i < |init| && init[i].lines.Some? && h.file == Some(init[i].name)
        && (exists l :: l in init[i].lines.value && Keep(l, q) && h.line == Truncate(l));
      assert gs[i] == init[i];
    } else {
      LineHitsSound(gs[k].name, gs[k].lines.value, q, h);
    }
  }

  /** At least one hit is always collected before the cap is tested. */
  function Cap(maxResults: int): (c: nat)
    ensures c >= 1 && (maxResults >= 1 ==> c == maxResults)
  {
    if maxResults >= 1 then maxResults else 1
  }

  /** The first `n` elements, or all of them when there are fewer. */
  function Take<T>(s: seq<T>, n: nat): (r: seq<T>)
    ensures r <= s && |r| == if |s| <= n then |s| else n
  {
    if |s| <= n then s else s[..n]
  }

  /** `search_logs` for a known session: the placeholder when its `parsed`
      directory is absent (`parsed == None`), else the hits up to the cap. */
  function Search(parsed: Option<seq<ParsedFile>>, q: Query): (r: seq<Entry>)
    ensures parsed.None? ==> r == [Entry(None, Placeholder)]
    ensures parsed.Some? ==> r <= AllHits(GrepAll(parsed.value), q) && |r| <= Cap(q.maxResults)
    ensures parsed.Some? && q.maxResults >= 1 ==> |r| <= q.maxResults
    ensures parsed.Some? && |AllHits(GrepAll(parsed.value), q)| <= Cap(q.maxResults)
      ==> r == AllHits(GrepAll(parsed.value), q)
    ensures parsed.Some? && |AllHits(GrepAll(parsed.value), q)| > Cap(q.maxResults)
      ==> |r| == Cap(q.maxResults)
  {
    match parsed
    case None => [Entry(None, Placeholder)]
    case Some(files) => Take(AllHits(GrepAll(files), q), Cap(q.maxResults))
  }

  lemma {:induction false} LineHitsAppend(name: string, a: seq<string>, b: seq<string>, q: Query)
    ensures LineHits(name, a + b, q) == LineHits(name, a, q) + LineHits(name, b, q)
    decreases |b|
  {
    if |b| == 0 {
      assert a + b == a;
    } else {
      var b' := b[..|b| - 1];
      var last := b[|b| - 1];
      var hit := if Keep(last, q) then [Entry(Some(name), Truncate(last))] else [];
      assert (a + b)[..|a + b| - 1] == a + b';
      assert (a + b)[|a + b| - 1] == last;
      calc {
        LineHits(name, a + b, q);
        LineHits(name, a + b', q) + hit;
        { LineHitsAppend(name, a, b', q); }
        (LineHits(name, a, q) + LineHits(name, b', q)) + hit;
        LineHits(name, a, q) + (LineHits(name, b', q) + hit);
        LineHits(name, a, q) + LineHits(name, b, q);
      }
    }
  }

  /** Hits of earlier files come before hits of later ones: the hits of two
      runs of files are the hits of the first run, then those of the second. */
  lemma {:induction false} AllHitsAppend(a: seq<Grepped>, b: seq<Grepped>, q: Query)
    ensures AllHits(a + b, q) == AllHits(a, q) + AllHits(b, q)
    decreases |b|
  {
    if |b| == 0 {
      assert a + b == a;
    } else {
      var b' := b[..|b| - 1];
      assert (a + b)[..|a + b| - 1] == a + b';
      assert (a + b)[|a + b| - 1] == b[|b| - 1];
      AllHitsAppend(a, b', q);
      AppendAssoc(AllHits(a, q), AllHits(b', q), FileHits(b[|b| - 1], q));
    }
  }

  /** The hits of the first `j + 1` lines: those of the first `j`, then the
      hit of line `j` if it is kept. */
  lemma LineHitsLast(name: string, lines: seq<string>, j: nat, q: Query)
    requires j < |lines|
    ensures LineHits(name, lines[..j + 1], q)
      == LineHits(name, lines[..j], q) + (if Keep(lines[j], q) then [Entry(Some(name), Truncate(lines[j]))] else [])
  {
    assert lines[..j + 1][..j] == lines[..j];
  }

  /** The hits of the first `j` lines begin the hits of all lines. */
  lemma LineHitsPrefix(name: string, lines: seq<string>, j: nat, q: Query)
    requires j <= |lines|
    ensures LineHits(name, lines[..j], q) <= LineHits(name, lines, q)
  {
    LineHitsAppend(name, lines[..j], lines[j..], q);
    assert lines[..j] + lines[j..] == lines;
  }

  /** The hits of the first `i + 1` files: those of the first `i`, then those
      of file `i`. */
  lemma AllHitsLast(gs: seq<Grepped>, i: nat, q: Query)
    requires i < |gs|
    ensures AllHits(gs[..i + 1], q) == AllHits(gs[..i], q) + FileHits(gs[i], q)
  {
    assert gs[..i + 1][..i] == gs[..i];
  }

  /** The hits of the first `i` files begin the hits of all files. */
  lemma AllHitsPrefix(gs: seq<Grepped>, i: nat, q: Query)
    requires i <= |gs|
    ensures AllHits(gs[..i], q) <= AllHits(gs, q)
  {
    AllHitsAppend(gs[..i], gs[i..], q);
    assert gs[..i] + gs[i..] == gs;
  }

  lemma InPrefix<T>(x: T, a: seq<T>, b: seq<T>)
    requires x in a && a <= b
    ensures x in b
  {
    var k :| 0 <= k < |a| && a[k] == x;
    assert b[k] == x;
  }

  lemma AppendPrefix<T>(before: seq<T>, part: seq<T>, whole: seq<T>)
    requires part <= whole
    ensures before + part <= before + whole
  {
    assert whole == part + whole[|part|..];
    assert before + whole == (before + part) + whole[|part|..];
  }

  /** A prefix of exactly `n` elements is what `Take` returns. */
  lemma TakeExactly<T>(s: seq<T>, r: seq<T>, n: nat)
    requires r <= s && |r| == n
    ensures Take(s, n) == r
  {
  }

  /** An unknown severity letter leaves every line to the other filters: the
      hits are those of the same search without a severity. */
  lemma {:induction false} UnknownSeverityIsNoFilter(gs: seq<Grepped>, q: Query)
    requires SeverityMarker(q.severity) == ""
    ensures AllHits(gs, q) == AllHits(gs, q.(severity := ""))
    decreases |gs|
  {
    if |gs| > 0 {
      UnknownSeverityIsNoFilter(gs[..|gs| - 1], q);
      var g := gs[|gs| - 1];
      if g.lines.Some? {
        UnknownSeverityLines(g.name, g.lines.value, q);
      }
    }
  }

  lemma {:induction false} UnknownSeverityLines(name: string, lines: seq<string>, q: Query)
    requires SeverityMarker(q.severity) == ""
    ensures LineHits(name, lines, q) == LineHits(name, lines, q.(severity := ""))
    decreases |lines|
  {
    if |lines| > 0 {
      UnknownSeverityLines(name, lines[..|lines| - 1], q);
    }
  }

  /** Every entry of a search's answer is the placeholder or a hit from one of
      the files: cut to 300 characters from a line grep printed for it that
      passes the filters. */
  lemma SearchSound(parsed: Option<seq<ParsedFile>>, q: Query, h: Entry)
    requires h in Search(parsed, q)
    ensures parsed.None? ==> h == Entry(None, Placeholder)
    ensures parsed.Some? ==> |h.line| <= LineLimit && exists i, l ::
      0 <= i < |parsed.value| && parsed.value[i].grepOutput.Some? && h.file == Some(parsed.value[i].name)
      && l in GrepLines(parsed.value[i].grepOutput.value) && Keep(l, q) && h.line == Truncate(l)
  {
    if parsed.Some? {
      var files := parsed.value;
      var gs := GrepAll(files);
      assert h in AllHits(gs, q);
      AllHitsSound(gs, q, h);
      var i :| 0 <= i < |gs| && gs[i].lines.Some? && h.file == Some(gs[i].name)
        && (exists l :: l in gs[i].lines.value && Keep(l, q) && h.line == Truncate(l));
      var l :| l in gs[i].lines.value && Keep(l, q) && h.line == Truncate(l);
      GrepAllAt(files, i);
      assert files[i].grepOutput.Some? && h.file == Some(files[i].name)
        && l in GrepLines(files[i].grepOutput.value) && Keep(l, q) && h.line == Truncate(l);
    }
  }

  /** Every line grep printed for a file that passes the filters is found,
      unless the cap stopped the search first. */
  lemma SearchComplete(files: seq<ParsedFile>, q: Query, i: nat, l: string)
    requires 0 <= i < |files| && files[i].grepOutput.Some?
    requires l in GrepLines(files[i].grepOutput.value) && Keep(l, q)
    requires |AllHits(GrepAll(files), q)| <= Cap(q.maxResults)
    ensures Entry(Some(files[i].name), Truncate(l)) in Search(Some(files), q)
  {
    var gs := GrepAll(files);
    var e := Entry(Some(files[i].name), Truncate(l));
    GrepAllAt(files, i);
    LineHitsComplete(files[i].name, GrepLines(files[i].grepOutput.value), q, l);
    assert e in FileHits(gs[i], q);
    AllHitsLast(gs, i, q);
    assert e in AllHits(gs[..i + 1], q);
    AllHitsPrefix(gs, i + 1, q);
    InPrefix(e, AllHits(gs[..i + 1], q), AllHits(gs, q));
  }

  /** The inner loop of `search_logs` over the lines grep printed for one
      file: it appends each kept line, truncated, to the hits collected so far
      and stops as soon as `cap` hits are collected, reporting that it did. */
  method CollectLines(name: string, lines: seq<string>, q: Query, cap: nat, before: seq<Entry>)
    returns (results: seq<Entry>, full: bool)
    requires |before| < cap
    ensures !full ==> results == before + LineHits(name, lines, q) && |results| < cap
    ensures full ==> results <= before + LineHits(name, lines, q) && |results| == cap
  {
    results := before;
    for j := 0 to |lines|
      invariant results == before + LineHits(name, lines[..j], q) && |results| < cap
    {
      var line := lines[j];
      LineHitsLast(name, lines, j, q);
      if Keep(line, q) {
        var hit := Entry(Some(name), Truncate(line));
        assert (before + LineHits(name, lines[..j], q)) + [hit] == before + (LineHits(name, lines[..j], q) + [hit]);
        results := results + [hit];
        if |results| >= cap {
          LineHitsPrefix(name, lines, j + 1, q);
          AppendPrefix(before, LineHits(name, lines[..j + 1], q), LineHits(name, lines, q));
          return results, true;
        }
      }
    }
    assert lines[..|lines|] == lines;
    return results, false;
  }

  /** The loops of `search_logs` over the sorted `.parsed` files, with the
      early return once `max_results` hits are collected. */
  method SearchParsed(files: seq<ParsedFile>, q: Query) returns (results: seq<Entry>)
    ensures results == Search(Some(files), q)
  {
    var gs := GrepAll(files);
    var cap := Cap(q.maxResults);
    results := [];
    for i := 0 to |files|
      invariant results == AllHits(gs[..i], q) && |results| < cap
    {
      var f := files[i];
      GrepAllAt(files, i);
      AllHitsLast(gs, i, q);
      if f.grepOutput.Some? {
        var full;
        results, full := CollectLines(f.name, GrepLines(f.grepOutput.value), q, cap, results);
        if full {
          AllHitsPrefix(gs, i + 1, q);
          TakeExactly(AllHits(gs, q), results, cap);
          return;
        }
      }
    }
    assert gs[..|files|] == gs;
  }
}
