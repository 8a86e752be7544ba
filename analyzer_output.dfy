/** The analyzer's stdout as the extraction patterns expect it to be printed,
    and the round trips: extraction recovers exactly what was printed. */
module AnalyzerOutput {
  import opened Text
  import opened Extract

  /** A title the analyzer can print on one line and get back unchanged:
      non-empty, no surrounding whitespace, no line break. */
  predicate PrintableTitle(t: string) {
    |t| > 0 && !IsSpace(t[0]) && !IsSpace(t[|t| - 1]) && '\n' !in t
  }

  predicate AllPrintable(issues: seq<Issue>) {
    forall i :: 0 <= i < |issues| ==> PrintableTitle(issues[i].title)
  }

  /** `#<n> SEVERITY title` and its line break. */
  function NumberedLine(n: nat, issue: Issue): string {
    "#" + Decimal(n) + " " + SeverityName(issue.severity) + " " + issue.title + "\n"
  }

  /** The issues printed one per line, numbered from `n`. */
  function NumberedReport(issues: seq<Issue>, n: nat): string
    decreases |issues|
  {
    if |issues| == 0 then "" else NumberedLine(n, issues[0]) + NumberedReport(issues[1..], n + 1)
  }

  /** `[SEVERITY] title` and its line break. */
  function BracketedLine(issue: Issue): string {
    "[" + SeverityName(issue.severity) + "] " + issue.title + "\n"
  }

  function BracketedReport(issues: seq<Issue>): string
    decreases |issues|
  {
    if |issues| == 0 then "" else BracketedLine(issues[0]) + BracketedReport(issues[1..])
  }

  /** The keyword recogniser reads back the name of a severity. */
  lemma KeywordAtName(s: string, i: nat, sev: Severity)
    requires HasAt(s, i, SeverityName(sev))
    ensures KeywordAt(s, i) == Some((sev, i + |SeverityName(sev)|))
  {
    assert s[i] == SeverityName(sev)[0];
  }

  /** `\s+(.+?)(?:\n|$)` at `k` when one whitespace character, a printable title
      and the end of the line follow. */
  lemma TitleAfterPrinted(s: string, k: nat, sev: Severity, title: string)
    requires PrintableTitle(title)
    requires k + 1 + |title| <= |s| && IsSpace(s[k]) && HasAt(s, k + 1, title)
    requires k + 1 + |title| == |s| || s[k + 1 + |title|] == '\n'
    ensures TitleAfter(s, k, sev)
      == Some(IssueMatch(sev, title, if k + 1 + |title| < |s| then k + |title| + 2 else |s|))
  {
    HasAtFirst(s, k + 1, title);
    RunEndIs(s, k, k + 1, IsSpace);
    assert TitleStart(s, k, k + 1) == Some(k + 1);
    RunEndPast(s, k + 1, title, NotNewline);
    assert s[k + 1..k + 1 + |title|] == title;
  }

  /** `strip()` leaves a printable title as it is. */
  lemma PrintableStripped(title: string)
    requires PrintableTitle(title)
    ensures Strip(title) == title
  {
  }

  /** `#\d+\s+(SEV)` at `p`, then the title part after the keyword. */
  lemma NumberedHead(s: string, p: nat, digitsEnd: nat, sev: Severity, k: nat, m: IssueMatch)
    requires p < |s| && s[p] == '#' && p + 1 < digitsEnd < |s|
    requires RunEnd(s, p + 1, IsDigit) == digitsEnd
    requires RunEnd(s, digitsEnd, IsSpace) == digitsEnd + 1
    requires KeywordAt(s, digitsEnd + 1) == Some((sev, k))
    requires TitleAfter(s, k, sev) == Some(m)
    ensures IssueAt(s, p, Numbered) == Some(m)
  {
  }

  /** `#`, a run of digits, one space and a severity name at `p`, as the
      pieces of `#\d+\s+(SEV)` read them. */
  lemma HeadFromParts(s: string, p: nat, d: string, sev: Severity)
    requires |d| > 0 && forall k :: 0 <= k < |d| ==> IsDigit(d[k])
    requires HasAt(s, p + 2 + |d|, SeverityName(sev))
    requires s[p] == '#' && HasAt(s, p + 1, d) && s[p + 1 + |d|] == ' '
    ensures p + 1 + |d| < |s|
    ensures RunEnd(s, p + 1, IsDigit) == p + 1 + |d|
    ensures RunEnd(s, p + 1 + |d|, IsSpace) == p + 2 + |d|
    ensures KeywordAt(s, p + 2 + |d|) == Some((sev, p + 2 + |d| + |SeverityName(sev)|))
  {
    RunEndPast(s, p + 1, d, IsDigit);
    RunEndIs(s, p + 1 + |d|, p + 2 + |d|, IsSpace);
    KeywordAtName(s, p + 2 + |d|, sev);
  }

  /** `#`, digits `d`, a space, the name of `sev` ending at `k`, a whitespace
      character, `title` and the end of the line, printed at `p`. */
  predicate NumberedPieces(s: string, p: nat, d: string, sev: Severity, k: nat, title: string) {
    k == p + 2 + |d| + |SeverityName(sev)| && k + 1 + |title| <= |s|
    && s[p] == '#' && HasAt(s, p + 1, d) && s[p + 1 + |d|] == ' '
    && HasAt(s, p + 2 + |d|, SeverityName(sev))
    && IsSpace(s[k]) && HasAt(s, k + 1, title)
    && (k + 1 + |title| == |s| || s[k + 1 + |title|] == '\n')
  }

  /** The numbered pattern at `p`, given the printed pieces one by one: `#`,
      digits, a space, a severity name, a whitespace character, a printable
      title and the end of the line. */
  lemma NumberedAtParts(s: string, p: nat, d: string, sev: Severity, k: nat, title: string)
    requires |d| > 0 && forall j :: 0 <= j < |d| ==> IsDigit(d[j])
    requires PrintableTitle(title)
    requires NumberedPieces(s, p, d, sev, k, title)
    ensures IssueAt(s, p, Numbered)
      == Some(IssueMatch(sev, title, if k + 1 + |title| < |s| then k + |title| + 2 else |s|))
  {
    HeadFromParts(s, p, d, sev);
    TitleAfterPrinted(s, k, sev, title);
    NumberedHead(s, p, p + 1 + |d|, sev, k,
      IssueMatch(sev, title, if k + 1 + |title| < |s| then k + |title| + 2 else |s|));
  }

  /** The pieces of a numbered line printed at `p`. */
  lemma NumberedParts(s: string, p: nat, d: string, name: string, title: string)
    requires HasAt(s, p, "#" + d + " " + name + " " + title + "\n")
    ensures p + 3 + |d| + |name| + |title| < |s|
    ensures s[p] == '#' && HasAt(s, p + 1, d) && s[p + 1 + |d|] == ' ' && HasAt(s, p + 2 + |d|, name)
    ensures s[p + 2 + |d| + |name|] == ' ' && HasAt(s, p + 3 + |d| + |name|, title)
    ensures s[p + 3 + |d| + |name| + |title|] == '\n'
  {
    HasAtParts(s, p, "#" + d + " " + name + " " + title, "\n");
    HasAtParts(s, p, "#" + d + " " + name + " ", title);
    HasAtParts(s, p, "#" + d + " " + name, " ");
    HasAtParts(s, p, "#" + d + " ", name);
    HasAtParts(s, p, "#" + d, " ");
    HasAtParts(s, p, "#", d);
    HasAtFirst(s, p, "#");
    HasAtFirst(s, p + 1 + |d|, " ");
    HasAtFirst(s, p + 2 + |d| + |name|, " ");
    HasAtFirst(s, p + 3 + |d| + |name| + |title|, "\n");
  }

  /** A printed numbered line is matched where it starts, in full. */
  lemma NumberedLineMatch(s: string, p: nat, n: nat, issue: Issue)
    requires PrintableTitle(issue.title)
    requires HasAt(s, p, NumberedLine(n, issue))
    ensures IssueAt(s, p, Numbered) == Some(IssueMatch(issue.severity, issue.title, p + |NumberedLine(n, issue)|))
  {
    var d := Decimal(n);
    var name := SeverityName(issue.severity);
    NumberedParts(s, p, d, name, issue.title);
    NumberedAtParts(s, p, d, issue.severity, p + 2 + |d| + |name|, issue.title);
  }

  /** `\[(SEV)\]` at `p`, then the title part after the bracket. */
  lemma BracketedHead(s: string, p: nat, sev: Severity, k: nat, m: IssueMatch)
    requires p < |s| && s[p] == '['
    requires KeywordAt(s, p + 1) == Some((sev, k))
    requires k < |s| && s[k] == ']'
    requires TitleAfter(s, k + 1, sev) == Some(m)
    ensures IssueAt(s, p, Bracketed) == Some(m)
  {
  }

  /** `[`, the name of `sev`, `]` ending at `k`, a whitespace character,
      `title` and the end of the line, printed at `p`. */
  predicate BracketedPieces(s: string, p: nat, sev: Severity, k: nat, title: string) {
    k == p + 2 + |SeverityName(sev)| && k + 1 + |title| <= |s|
    && s[p] == '[' && HasAt(s, p + 1, SeverityName(sev)) && s[p + 1 + |SeverityName(sev)|] == ']'
    && IsSpace(s[k]) && HasAt(s, k + 1, title)
    && (k + 1 + |title| == |s| || s[k + 1 + |title|] == '\n')
  }

  /** The bracketed pattern matches the printed pieces at `p`, in full. */
  lemma BracketedAtParts(s: string, p: nat, sev: Severity, k: nat, title: string)
    requires PrintableTitle(title)
    requires BracketedPieces(s, p, sev, k, title)
    ensures IssueAt(s, p, Bracketed)
      == Some(IssueMatch(sev, title, if k + 1 + |title| < |s| then k + |title| + 2 else |s|))
  {
    KeywordAtName(s, p + 1, sev);
    TitleAfterPrinted(s, k, sev, title);
    BracketedHead(s, p, sev, p + 1 + |SeverityName(sev)|,
      IssueMatch(sev, title, if k + 1 + |title| < |s| then k + |title| + 2 else |s|));
  }

  /** The pieces of a bracketed line printed at `p`. */
  lemma BracketedParts(s: string, p: nat, name: string, title: string)
    requires HasAt(s, p, "[" + name + "] " + title + "\n")
    ensures p + 3 + |name| + |title| < |s|
    ensures s[p] == '[' && HasAt(s, p + 1, name) && s[p + 1 + |name|] == ']'
    ensures s[p + 2 + |name|] == ' ' && HasAt(s, p + 3 + |name|, title)
    ensures s[p + 3 + |name| + |title|] == '\n'
  {
    HasAtParts(s, p, "[" + name + "] " + title, "\n");
    HasAtParts(s, p, "[" + name + "] ", title);
    assert "[" + name + "] " == "[" + name + "]" + " ";
    HasAtParts(s, p, "[" + name + "]", " ");
    HasAtParts(s, p, "[" + name, "]");
    HasAtParts(s, p, "[", name);
    HasAtFirst(s, p, "[");
    HasAtFirst(s, p + 1 + |name|, "]");
    HasAtFirst(s, p + 2 + |name|, " ");
    HasAtFirst(s, p + 3 + |name| + |title|, "\n");
  }

  /** A printed bracketed line is matched where it starts, in full. */
  lemma BracketedLineMatch(s: string, p: nat, issue: Issue)
    requires PrintableTitle(issue.title)
    requires HasAt(s, p, BracketedLine(issue))
    ensures IssueAt(s, p, Bracketed) == Some(IssueMatch(issue.severity, issue.title, p + |BracketedLine(issue)|))
  {
    var name := SeverityName(issue.severity);
    BracketedParts(s, p, name, issue.title);
    BracketedAtParts(s, p, issue.severity, p + 2 + |name|, issue.title);
  }

  /** From `from` on, the table of `conv`'s answers holds one match per issue,
      with the issue's severity and raw title, each match starting where the
      previous one ended and the last one ending the text. */
  predicate Rows(t: seq<Option<IssueMatch>>, from: nat, issues: seq<Issue>)
    decreases |issues|
  {
    if |issues| == 0 then from == |t|
    else
      from < |t| && t[from].Some?
      && t[from].value.severity == issues[0].severity && t[from].value.title == issues[0].title
      && Rows(t, t[from].value.end, issues[1..])
  }

  /** A match at `from` followed by matches laid out in rows. */
  lemma RowsStep(t: seq<Option<IssueMatch>>, from: nat, issues: seq<Issue>, e: nat)
    requires |issues| > 0 && from < |t|
    requires t[from] == Some(IssueMatch(issues[0].severity, issues[0].title, e))
    requires Rows(t, e, issues[1..])
    ensures Rows(t, from, issues)
  {
  }

  /** `t` is the table of answers of `conv` on `s`, read at the positions where
      the pattern is evaluated. */
  predicate TableOf(t: seq<Option<IssueMatch>>, s: string, conv: Convention) {
    |t| == |s| && forall p {:trigger IssueAt(s, p, conv)} :: 0 <= p < |s| ==> t[p] == IssueAt(s, p, conv)
  }

  lemma MatchTableOf(s: string, conv: Convention)
    ensures TableOf(MatchTable(s, conv), s, conv)
  {
    forall p | 0 <= p < |s| ensures MatchTable(s, conv)[p] == IssueAt(s, p, conv) {
      MatchTableAt(s, conv, p);
    }
  }

  /** A printed numbered line has its match in the table where it starts. */
  lemma NumberedLineInTable(s: string, t: seq<Option<IssueMatch>>, p: nat, n: nat, issue: Issue)
    requires TableOf(t, s, Numbered) && PrintableTitle(issue.title)
    requires HasAt(s, p, NumberedLine(n, issue))
    ensures p < |t| && t[p] == Some(IssueMatch(issue.severity, issue.title, p + |NumberedLine(n, issue)|))
  {
    NumberedLineMatch(s, p, n, issue);
  }

  /** A printed bracketed line has its match in the table where it starts. */
  lemma BracketedLineInTable(s: string, t: seq<Option<IssueMatch>>, p: nat, issue: Issue)
    requires TableOf(t, s, Bracketed) && PrintableTitle(issue.title)
    requires HasAt(s, p, BracketedLine(issue))
    ensures p < |t| && t[p] == Some(IssueMatch(issue.severity, issue.title, p + |BracketedLine(issue)|))
  {
    BracketedLineMatch(s, p, issue);
  }

  /** Numbered lines printed one after the other from `from`, the last one
      ending the text. */
  predicate NumberedPrinted(s: string, from: nat, issues: seq<Issue>, n: nat)
    decreases |issues|
  {
    if |issues| == 0 then from == |s|
    else
      var line := NumberedLine(n, issues[0]);
      HasAt(s, from, line) && NumberedPrinted(s, from + |line|, issues[1..], n + 1)
  }

  lemma {:induction false} NumberedReportPrinted(s: string, from: nat, issues: seq<Issue>, n: nat)
    requires HasAt(s, from, NumberedReport(issues, n)) && from + |NumberedReport(issues, n)| == |s|
    ensures NumberedPrinted(s, from, issues, n)
    decreases |issues|
  {
    if |issues| > 0 {
      var line := NumberedLine(n, issues[0]);
      HasAtParts(s, from, line, NumberedReport(issues[1..], n + 1));
      NumberedReportPrinted(s, from + |line|, issues[1..], n + 1);
    }
  }

  /** Printed numbered lines are laid out in rows of the numbered table. */
  lemma {:induction false} NumberedRows(s: string, t: seq<Option<IssueMatch>>, from: nat, issues: seq<Issue>, n: nat)
    requires TableOf(t, s, Numbered) && AllPrintable(issues)
    requires NumberedPrinted(s, from, issues, n)
    ensures Rows(t, from, issues)
    decreases |issues|
  {
    if |issues| > 0 {
      var line := NumberedLine(n, issues[0]);
      NumberedLineInTable(s, t, from, n, issues[0]);
      assert Rows(t, from + |line|, issues[1..]) by {
        assert AllPrintable(issues[1..]);
        NumberedRows(s, t, from + |line|, issues[1..], n + 1);
      }
      RowsStep(t, from, issues, from + |line|);
    }
  }

  /** Bracketed lines printed one after the other from `from`, the last one
      ending the text. */
  predicate BracketedPrinted(s: string, from: nat, issues: seq<Issue>)
    decreases |issues|
  {
    if |issues| == 0 then from == |s|
    else
      var line := BracketedLine(issues[0]);
      HasAt(s, from, line) && BracketedPrinted(s, from + |line|, issues[1..])
  }

  lemma {:induction false} BracketedReportPrinted(s: string, from: nat, issues: seq<Issue>)
    requires HasAt(s, from, BracketedReport(issues)) && from + |BracketedReport(issues)| == |s|
    ensures BracketedPrinted(s, from, issues)
    decreases |issues|
  {
    if |issues| > 0 {
      var line := BracketedLine(issues[0]);
      HasAtParts(s, from, line, BracketedReport(issues[1..]));
      BracketedReportPrinted(s, from + |line|, issues[1..]);
    }
  }

  /** Printed bracketed lines are laid out in rows of the bracketed table. */
  lemma {:induction false} BracketedRows(s: string, t: seq<Option<IssueMatch>>, from: nat, issues: seq<Issue>)
    requires TableOf(t, s, Bracketed) && AllPrintable(issues)
    requires BracketedPrinted(s, from, issues)
    ensures Rows(t, from, issues)
    decreases |issues|
  {
    if |issues| > 0 {
      var line := BracketedLine(issues[0]);
      BracketedLineInTable(s, t, from, issues[0]);
      assert Rows(t, from + |line|, issues[1..]) by {
        assert AllPrintable(issues[1..]);
        BracketedRows(s, t, from + |line|, issues[1..]);
      }
      RowsStep(t, from, issues, from + |line|);
    }
  }

  /** A match at `from` is the next match from `from`, and `finditer` goes on after it. */
  lemma ScanAt(t: seq<Option<IssueMatch>>, from: nat, m: IssueMatch)
    requires Positioned(t) && from < |t| && t[from] == Some(m)
    ensures Titles(Scan(t, from)) == [Issue(m.severity, Strip(m.title))] + Titles(Scan(t, m.end))
  {
    assert NextMatch(t, from) == Some((from, m));
    ScanStep(t, from);
  }

  /** `finditer` over a table laid out in rows yields exactly the rows. */
  lemma {:induction false} ScanRows(t: seq<Option<IssueMatch>>, from: nat, issues: seq<Issue>)
    requires Positioned(t) && Rows(t, from, issues) && AllPrintable(issues)
    ensures Titles(Scan(t, from)) == issues
    decreases |issues|
  {
    if |issues| == 0 {
      assert Scan(t, from) == [];
    } else {
      var m := t[from].value;
      calc {
        Titles(Scan(t, from));
      == { ScanAt(t, from, m); }
        [Issue(m.severity, Strip(m.title))] + Titles(Scan(t, m.end));
      == { assert AllPrintable(issues[1..]);
           ScanRows(t, m.end, issues[1..]);
           PrintableStripped(m.title); }
        [issues[0]] + issues[1..];
      == { assert issues == [issues[0]] + issues[1..]; }
        issues;
      }
    }
  }

  /** Issues printed in the numbered convention are read back exactly, in order. */
  lemma NumberedRoundTrip(issues: seq<Issue>)
    requires AllPrintable(issues)
    ensures Issues(NumberedReport(issues, 1)) == issues
  {
    var s := NumberedReport(issues, 1);
    HasAtWhole(s);
    NumberedReportPrinted(s, 0, issues, 1);
    MatchTableOf(s, Numbered);
    NumberedRows(s, MatchTable(s, Numbered), 0, issues, 1);
    ScanRows(MatchTable(s, Numbered), 0, issues);
    if |issues| == 0 {
      assert Matches(s, Bracketed) == [];
    }
  }

  /** A bracketed report holds no "#" when its titles hold none. */
  lemma {:induction false} BracketedHasNoHash(issues: seq<Issue>)
    requires forall i :: 0 <= i < |issues| ==> '#' !in issues[i].title
    ensures '#' !in BracketedReport(issues)
    decreases |issues|
  {
    if |issues| > 0 {
      BracketedHasNoHash(issues[1..]);
      var name := SeverityName(issues[0].severity);
      assert '#' !in name;
    }
  }

  /** Text without "#" has no match of the numbered pattern. */
  lemma NoHashNoNumbered(s: string)
    requires '#' !in s
    ensures Matches(s, Numbered) == []
  {
    var t := MatchTable(s, Numbered);
    forall k | 0 <= k < |t| ensures t[k].None? {
      MatchTableAt(s, Numbered, k);
    }
    assert NextMatch(t, 0).None?;
  }

  /** Issues printed in the fallback convention are read back exactly, as long
      as no title holds a "#" that the numbered pattern could start at. */
  lemma BracketedRoundTrip(issues: seq<Issue>)
    requires AllPrintable(issues)
    requires forall i :: 0 <= i < |issues| ==> '#' !in issues[i].title
    ensures Issues(BracketedReport(issues)) == issues
  {
    var s := BracketedReport(issues);
    BracketedHasNoHash(issues);
    NoHashNoNumbered(s);
    HasAtWhole(s);
    BracketedReportPrinted(s, 0, issues);
    MatchTableOf(s, Bracketed);
    BracketedRows(s, MatchTable(s, Bracketed), 0, issues);
    ScanRows(MatchTable(s, Bracketed), 0, issues);
  }

  /** The pieces of a numbered head without a title, followed by a line. */
  lemma HeadThenLineParts(s: string, d: string, name: string, line: string)
    requires HasAt(s, 0, "#" + d + " " + name + "\n" + line)
    requires |s| == |"#" + d + " " + name + "\n" + line|
    ensures 3 + |d| + |name| + |line| == |s|
    ensures s[0] == '#' && HasAt(s, 1, d) && s[1 + |d|] == ' ' && HasAt(s, 2 + |d|, name)
    ensures s[2 + |d| + |name|] == '\n' && HasAt(s, 3 + |d| + |name|, line)
  {
    HasAtParts(s, 0, "#" + d + " " + name + "\n", line);
    HasAtParts(s, 0, "#" + d + " " + name, "\n");
    HasAtParts(s, 0, "#" + d + " ", name);
    HasAtParts(s, 0, "#" + d, " ");
    HasAtParts(s, 0, "#", d);
    HasAtFirst(s, 0, "#");
    HasAtFirst(s, 1 + |d|, " ");
    HasAtFirst(s, 2 + |d| + |name|, "\n");
  }

  /** A numbered head without a title, followed by a printable line that ends
      the text, is matched as one issue whose title is that line. */
  lemma HeadThenLineMatch(s: string, d: string, sev: Severity, line: string)
    requires |d| > 0 && forall j :: 0 <= j < |d| ==> IsDigit(d[j])
    requires PrintableTitle(line)
    requires HasAt(s, 0, "#" + d + " " + SeverityName(sev) + "\n" + line)
    requires |s| == |"#" + d + " " + SeverityName(sev) + "\n" + line|
    ensures IssueAt(s, 0, Numbered) == Some(IssueMatch(sev, line, |s|))
  {
    HeadThenLineParts(s, d, SeverityName(sev), line);
    NumberedAtParts(s, 0, d, sev, 2 + |d| + |SeverityName(sev)|, line);
  }

  /** The greedy `\s+` of the numbered pattern crosses line breaks: an issue line
      whose title is missing takes the next line as its title, so that line is
      not reported on its own, even when it is an issue line itself
      (`#1 HIGH` followed by `#2 LOW x` gives the one issue `HIGH: #2 LOW x`). */
  lemma MissingTitleTakesNextLine(n: nat, sev: Severity, line: string)
    requires PrintableTitle(line)
    ensures Issues("#" + Decimal(n) + " " + SeverityName(sev) + "\n" + line) == [Issue(sev, line)]
  {
    var s := "#" + Decimal(n) + " " + SeverityName(sev) + "\n" + line;
    HasAtWhole(s);
    HeadThenLineMatch(s, Decimal(n), sev, line);
    var m := IssueMatch(sev, line, |s|);
    var t := MatchTable(s, Numbered);
    MatchTableAt(s, Numbered, 0);
    ScanAt(t, 0, m);
    assert Scan(t, |s|) == [];
    PrintableStripped(line);
  }
}
