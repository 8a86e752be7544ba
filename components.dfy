/** `list_components`: per `.parsed` file of a session, the number of lines,
    of error lines and of warning lines, keyed by the file's component name. */
module Components {
  import opened Text

  /** The counts reported for one component. */
  datatype Counts = Counts(total: nat, errors: nat, warnings: nat)

  /** A `.parsed` file, by base name, with its text; `None` when opening or
      reading it raised, which the loop's `except` turns into zero counts. */
  datatype ParsedLog = ParsedLog(fileName: string, content: Option<string>)

  /** `os.path.basename(f).replace(".parsed", "")`: never longer than the
      file name, and the file name itself when it holds no `.parsed`. */
  function ComponentName(fileName: string): (r: string)
    ensures |r| <= |fileName|
    ensures (forall k :: 0 <= k < |fileName| ==> !HasAt(fileName, k, ".parsed")) ==> r == fileName
  {
    RemoveAll(fileName, ".parsed")
  }

  /** A line holding `|E|` or `|C|`. */
  predicate IsErrorLine(line: string) {
    Contains(line, "|E|") || Contains(line, "|C|")
  }

  /** A line holding `|W|`. */
  predicate IsWarningLine(line: string) {
    Contains(line, "|W|")
  }

  /** A line carrying a severity marker is counted under that severity, and
      a line without any `|` under none. */
  lemma MarkedLines(pre: string, post: string, line: string)
    ensures IsErrorLine(pre + "|E|" + post) && IsErrorLine(pre + "|C|" + post)
    ensures IsWarningLine(pre + "|W|" + post)
    ensures '|' !in line ==> !IsErrorLine(line) && !IsWarningLine(line)
  {
    forall m | m in ["|E|", "|C|", "|W|"] ensures HasAt(pre + m + post, |pre|, m) {
      HasAtWhole(m);
      HasAtRight(pre, m, 0, m);
      HasAtLeft(pre + m, post, |pre|, m);
    }
    if '|' !in line {
      forall i, m | 0 <= i <= |line| && m in ["|E|", "|C|", "|W|"] ensures !HasAt(line, i, m) {
        if HasAt(line, i, m) {
          HasAtFirst(line, i, m);
        }
      }
    }
  }

  /** `sum(1 for l in lines if p(l))`. */
  function CountLines(lines: seq<string>, p: string -> bool): (n: nat)
    ensures n <= |lines|
    decreases |lines|
  {
    if |lines| == 0 then 0
    else CountLines(lines[..|lines| - 1], p) + (if p(lines[|lines| - 1]) then 1 else 0)
  }

  /** Every line is counted exactly when every line satisfies `p`. */
  lemma {:induction false} CountLinesAll(lines: seq<string>, p: string -> bool)
    ensures CountLines(lines, p) == |lines| <==> forall k :: 0 <= k < |lines| ==> p(lines[k])
    decreases |lines|
  {
    if |lines| > 0 {
      var init := lines[..|lines| - 1];
      CountLinesAll(init, p);
      if forall k :: 0 <= k < |lines| ==> p(lines[k]) {
        assert forall k :: 0 <= k < |init| ==> p(init[k]) by {
          forall k | 0 <= k < |init| ensures p(init[k]) {
            assert init[k] == lines[k];
          }
        }
      } else if p(lines[|lines| - 1]) {
        var k :| 0 <= k < |lines| && !p(lines[k]);
        assert init[k] == lines[k];
      }
    }
  }

  /** No line is counted exactly when no line satisfies `p`. */
  lemma {:induction false} CountLinesNone(lines: seq<string>, p: string -> bool)
    ensures CountLines(lines, p) == 0 <==> forall k :: 0 <= k < |lines| ==> !p(lines[k])
    decreases |lines|
  {
    if |lines| > 0 {
      var init := lines[..|lines| - 1];
      CountLinesNone(init, p);
      if forall k :: 0 <= k < |lines| ==> !p(lines[k]) {
        assert forall k :: 0 <= k < |init| ==> !p(init[k]) by {
          forall k | 0 <= k < |init| ensures !p(init[k]) {
            assert init[k] == lines[k];
          }
        }
      } else if !p(lines[|lines| - 1]) {
        var k :| 0 <= k < |lines| && p(lines[k]);
        assert init[k] == lines[k];
      }
    }
  }

  /** The positions of the lines that satisfy `p`. */
  function Matching(lines: seq<string>, p: string -> bool): set<nat> {
    set k: nat | k < |lines| && p(lines[k])
  }

  /** Matching positions gain the last position exactly when the last line
      satisfies `p`, and that position is new. */
  lemma MatchingSnoc(lines: seq<string>, p: string -> bool)
    requires |lines| > 0
    ensures var init := lines[..|lines| - 1];
      Matching(lines, p) == Matching(init, p) + (if p(lines[|lines| - 1]) then {|init|} else {})
      && |init| !in Matching(init, p)
  {
    var init := lines[..|lines| - 1];
    forall k: nat | k < |init| ensures (p(init[k]) <==> p(lines[k])) {
      assert init[k] == lines[k];
    }
  }

  /** The count is the number of lines satisfying `p`, whatever their order. */
  lemma {:induction false} CountLinesMatching(lines: seq<string>, p: string -> bool)
    ensures CountLines(lines, p) == |Matching(lines, p)|
    decreases |lines|
  {
    if |lines| > 0 {
      var init := lines[..|lines| - 1];
      CountLinesMatching(init, p);
      MatchingSnoc(lines, p);
    }
  }

  /** The counts of one file: its `readlines()` lines in text mode, or zeros
      when reading failed. Errors and warnings never exceed the total. */
  function CountsOf(content: Option<string>): (c: Counts)
    ensures c.errors <= c.total && c.warnings <= c.total
    ensures content.None? ==> c == Counts(0, 0, 0)
  {
    match content
    case None => Counts(0, 0, 0)
    case Some(text) =>
      var lines := ReadLines(TranslateNewlines(text));
      Counts(|lines|, CountLines(lines, IsErrorLine), CountLines(lines, IsWarningLine))
  }

  /** A file written line by line, each line ended by "\n", counts one per
      line, and its error and warning counts are those of its lines. */
  lemma CountsOfWrittenLines(lines: seq<string>)
    requires forall i :: 0 <= i < |lines| ==> '\n' !in lines[i] && '\r' !in lines[i]
    ensures CountsOf(Some(UnixText(lines)))
      == Counts(|lines|, CountLines(lines, IsErrorLine), CountLines(lines, IsWarningLine))
  {
    ReadLinesUnixText(lines);
  }

  /** The dictionary `comps` after the loop over `logs`: each file sets the
      entry of its component name, so a later file with the same name
      replaces an earlier one. */
  function Components(logs: seq<ParsedLog>): map<string, Counts>
    decreases |logs|
  {
    if |logs| == 0 then map[]
    else
      var last := logs[|logs| - 1];
      Components(logs[..|logs| - 1])[ComponentName(last.fileName) := CountsOf(last.content)]
  }

  /** The keys are exactly the component names of the files. */
  lemma {:induction false} ComponentsKeys(logs: seq<ParsedLog>)
    ensures Components(logs).Keys == set i | 0 <= i < |logs| :: ComponentName(logs[i].fileName)
    decreases |logs|
  {
    if |logs| > 0 {
      ComponentsKeys(logs[..|logs| - 1]);
      ComponentNamesSnoc(logs);
    }
  }

  /** The component names of the files. */
  function ComponentNames(logs: seq<ParsedLog>): set<string> {
    set i | 0 <= i < |logs| :: ComponentName(logs[i].fileName)
  }

  /** The component names of the files are those of all but the last, and
      the last one's. */
  lemma ComponentNamesSnoc(logs: seq<ParsedLog>)
    requires |logs| > 0
    ensures ComponentNames(logs)
      == ComponentNames(logs[..|logs| - 1]) + {ComponentName(logs[|logs| - 1].fileName)}
  {
    var init := logs[..|logs| - 1];
    var names := set i | 0 <= i < |logs| :: ComponentName(logs[i].fileName);
    var before := set i | 0 <= i < |init| :: ComponentName(init[i].fileName);
    forall n | n in names ensures n in before + {ComponentName(logs[|logs| - 1].fileName)} {
      var i :| 0 <= i < |logs| && n == ComponentName(logs[i].fileName);
      if i < |init| {
        assert init[i] == logs[i];
        assert n in before;
      } else {
        assert n == ComponentName(logs[|logs| - 1].fileName);
      }
    }
    forall n | n in before ensures n in names {
      var i :| 0 <= i < |init| && n == ComponentName(init[i].fileName);
      assert init[i] == logs[i];
    }
  }

  /** A component's entry holds the counts of the last file with its name. */
  lemma {:induction false} ComponentsLastWins(logs: seq<ParsedLog>, i: nat)
    requires i < |logs|
    requires forall j :: i < j < |logs| ==> ComponentName(logs[j].fileName) != ComponentName(logs[i].fileName)
    ensures ComponentName(logs[i].fileName) in Components(logs)
    ensures Components(logs)[ComponentName(logs[i].fileName)] == CountsOf(logs[i].content)
    decreases |logs|
  {
    if i < |logs| - 1 {
      var init := logs[..|logs| - 1];
      assert init[i] == logs[i];
      forall j | i < j < |init| ensures ComponentName(init[j].fileName) != ComponentName(init[i].fileName) {
        assert init[j] == logs[j];
      }
      ComponentsLastWins(init, i);
    }
  }

  /** Every entry holds the counts of some file with its name, so its error
      and warning counts never exceed its total. */
  lemma {:induction false} ComponentsSound(logs: seq<ParsedLog>, name: string)
    requires name in Components(logs)
    ensures exists i :: (0 <= i < |logs| && ComponentName(logs[i].fileName) == name
      && Components(logs)[name] == CountsOf(logs[i].content))
    ensures Components(logs)[name].errors <= Components(logs)[name].total
    ensures Components(logs)[name].warnings <= Components(logs)[name].total
    decreases |logs|
  {
    var k := |logs| - 1;
    if ComponentName(logs[k].fileName) != name {
      var init := logs[..k];
      ComponentsSound(init, name);
      var i :| 0 <= i < |init| && ComponentName(init[i].fileName) == name
        && Components(init)[name] == CountsOf(init[i].content);
      assert init[i] == logs[i];
    } else {
      assert Components(logs)[name] == CountsOf(logs[k].content);
    }
  }

  /** A base name without a dot, with `.parsed` appended, names its own stem. */
  lemma {:induction false} ComponentNameOfStem(stem: string)
    requires '.' !in stem
    ensures ComponentName(stem + ".parsed") == stem
    decreases |stem|
  {
    var s := stem + ".parsed";
    if |stem| == 0 {
      assert s == ".parsed";
      assert HasAt(s, 0, ".parsed");
      assert s[7..] == "";
    } else {
      assert !HasAt(s, 0, ".parsed") by {
        assert s[0] == stem[0] && stem[0] != '.';
        assert s[0 + 0] != ".parsed"[0];
      }
      assert s[1..] == stem[1..] + ".parsed";
      ComponentNameOfStem(stem[1..]);
      assert [stem[0]] + stem[1..] == stem;
    }
  }

  /** A base name without a dot, with `.parsed` appended twice, also names
      its own stem: every occurrence is removed. */
  lemma {:induction false} ComponentNameOfDoubled(stem: string)
    requires '.' !in stem
    ensures ComponentName(stem + ".parsed.parsed") == stem
    decreases |stem|
  {
    var s := stem + ".parsed.parsed";
    if |stem| == 0 {
      assert s == ".parsed.parsed";
      assert HasAt(s, 0, ".parsed");
      assert s[7..] == "" + ".parsed";
      ComponentNameOfStem("");
    } else {
      assert !HasAt(s, 0, ".parsed") by {
        assert s[0] == stem[0] && stem[0] != '.';
        assert s[0 + 0] != ".parsed"[0];
      }
      assert s[1..] == stem[1..] + ".parsed.parsed";
      ComponentNameOfDoubled(stem[1..]);
      assert [stem[0]] + stem[1..] == stem;
    }
  }

  /** `x.parsed.parsed` and `x.parsed` (say `a.parsed.parsed` and
      `a.parsed`) both name component `x`, so the later of the two files
      replaces the counts of the earlier one. */
  lemma DoubledSuffixCollides(stem: string)
    requires '.' !in stem
    ensures ComponentName(stem + ".parsed.parsed") == ComponentName(stem + ".parsed") == stem
  {
    ComponentNameOfStem(stem);
    ComponentNameOfDoubled(stem);
  }

  /** The loop of `list_components` over the `.parsed` files in the order the
      directory listing yields them. */
  method ListComponents(logs: seq<ParsedLog>) returns (comps: map<string, Counts>)
    ensures comps == Components(logs)
  {
    comps := map[];
    for i := 0 to |logs|
      invariant comps == Components(logs[..i])
    {
      var f := logs[i];
      var name := ComponentName(f.fileName);
      assert logs[..i + 1][..i] == logs[..i];
      match f.content {
        case None =>
          comps := comps[name := Counts(0, 0, 0)];
        case Some(text) =>
          var lines := ReadLines(TranslateNewlines(text));
          var total := |lines|;
          var errors := CountLines(lines, IsErrorLine);
          var warnings := CountLines(lines, IsWarningLine);
          comps := comps[name := Counts(total, errors, warnings)];
      }
    }
    assert logs[..|logs|] == logs;
  }
}
