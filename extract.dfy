/** `parse_session_results`: the structured findings derived from the analyzer's
    stdout (issues in one of two conventions, a health score and grade, a device
    id) and the listing of the session's reports directory.

    Each regular expression is modelled as a recogniser that says whether the
    pattern matches at a given position of the whole text, with greedy and lazy
    parts resolved as Python's backtracking matcher resolves them; `re.search`
    is the leftmost position where the recogniser succeeds and `re.finditer`
    restarts the search where the previous match ended. */
module Extract {
  import opened Text

  datatype Severity = Critical | High | Medium | Low

  function SeverityName(sev: Severity): (name: string)
    ensures |name| > 0 && !IsSpace(name[0])
  {
    match sev
    case Critical => "CRITICAL"
    case High => "HIGH"
    case Medium => "MEDIUM"
    case Low => "LOW"
  }

  datatype Issue = Issue(severity: Severity, title: string)

  /** The primary `#<n> SEVERITY title` convention or the `[SEVERITY] title` fallback. */
  datatype Convention = Numbered | Bracketed

  /** One match of an issue pattern: the severity group, the raw title group and
      the position just past the match. */
  datatype IssueMatch = IssueMatch(severity: Severity, title: string, end: nat)

  /** `(CRITICAL|HIGH|MEDIUM|LOW)` at `i`, with the position after the keyword.
      The alternatives begin with different letters, so at most one applies. */
  function KeywordAt(s: string, i: nat): (r: Option<(Severity, nat)>)
    ensures r.Some? ==> i < r.value.1 <= |s| && s[i..r.value.1] == SeverityName(r.value.0)
  {
    if HasAt(s, i, "CRITICAL") then Some((Critical, i + 8))
    else if HasAt(s, i, "HIGH") then Some((High, i + 4))
    else if HasAt(s, i, "MEDIUM") then Some((Medium, i + 6))
    else if HasAt(s, i, "LOW") then Some((Low, i + 3))
    else None
  }

  /** Where `(.+?)` starts once `\s+` starting at `k` has taken the whitespace up
      to `t`: greedy `\s+` gives back characters until `.` (anything but "\n")
      can take the next one. */
  function TitleStart(s: string, k: nat, t: nat): (r: Option<nat>)
    requires k < t <= |s|
    ensures r.Some? ==> k < r.value <= t && r.value < |s| && s[r.value] != '\n'
    ensures r.Some? ==> forall u :: r.value < u <= t ==> u == |s| || s[u] == '\n'
    ensures r.None? ==> forall u :: k < u <= t ==> u == |s| || s[u] == '\n'
    decreases t
  {
    if t < |s| && s[t] != '\n' then Some(t)
    else if t - 1 > k then TitleStart(s, k, t - 1)
    else None
  }

  /** `\s+(.+?)(?:\n|$)` at `k`: the title runs to the end of its line, and the
      match takes the "\n" that ends the line when there is one. */
  function TitleAfter(s: string, k: nat, sev: Severity): (m: Option<IssueMatch>)
    requires k <= |s|
    ensures m.Some? ==> k < m.value.end <= |s|
    ensures m.Some? ==> |m.value.title| > 0 && '\n' !in m.value.title
  {
    var w := RunEnd(s, k, IsSpace);
    if w == k then None
    else match TitleStart(s, k, w)
      case None => None
      case Some(t) =>
        var e := RunEnd(s, t, NotNewline);
        RunEndKeeps(s, t, NotNewline);
        assert forall c :: c in s[t..e] ==> c != '\n';
        Some(IssueMatch(sev, s[t..e], if e < |s| then e + 1 else e))
  }

  /** The issue pattern of convention `conv` matched at position `p`:
      `#\d+\s+(SEV)\s+(.+?)(?:\n|$)` or `\[(SEV)\]\s+(.+?)(?:\n|$)`. */
  function IssueAt(s: string, p: nat, conv: Convention): (m: Option<IssueMatch>)
    ensures m.Some? ==> p < m.value.end <= |s|
    ensures m.Some? ==> |m.value.title| > 0 && '\n' !in m.value.title
  {
    if p >= |s| then None
    else match conv
      case Numbered =>
        if s[p] != '#' then None
        else
          var d := RunEnd(s, p + 1, IsDigit);
          if d == p + 1 then None
          else
            var w := RunEnd(s, d, IsSpace);
            if w == d then None
            else (match KeywordAt(s, w)
              case None => None
              case Some((sev, k)) => TitleAfter(s, k, sev))
      case Bracketed =>
        if s[p] != '[' then None
        else match KeywordAt(s, p + 1)
          case None => None
          case Some((sev, k)) =>
            if k < |s| && s[k] == ']' then TitleAfter(s, k + 1, sev) else None
  }

  /** The answer of the pattern at every position of `s`: what the regular
      expression engine decides when a match is attempted there. */
  function MatchTable(s: string, conv: Convention): (t: seq<Option<IssueMatch>>)
    ensures |t| == |s| && Positioned(t)
  {
    var t := Tabulate((k: nat) => IssueAt(s, k, conv), |s|);
    assert Positioned(t) by {
      forall k | 0 <= k < |t| && t[k].Some?
        ensures k < t[k].value.end <= |t| && '\n' !in t[k].value.title
      {
        TabulateAt((k: nat) => IssueAt(s, k, conv), |s|, k);
      }
    }
    t
  }

  /** The table holds the pattern's answer at every position. */
  lemma MatchTableAt(s: string, conv: Convention, k: nat)
    requires k < |s|
    ensures MatchTable(s, conv)[k] == IssueAt(s, k, conv)
  {
    TabulateAt((k: nat) => IssueAt(s, k, conv), |s|, k);
  }

  /** Every match ends after the position it starts at and within the text,
      and its title lies on one line. */
  predicate Positioned(t: seq<Option<IssueMatch>>) {
    forall k :: 0 <= k < |t| && t[k].Some? ==> k < t[k].value.end <= |t| && '\n' !in t[k].value.title
  }

  /** The next match at or after `from`: the leftmost one. */
  function NextMatch(t: seq<Option<IssueMatch>>, from: nat): (r: Option<(nat, IssueMatch)>)
    ensures r.Some? ==> from <= r.value.0 < |t| && t[r.value.0] == Some(r.value.1)
    ensures r.Some? ==> forall k :: from <= k < r.value.0 ==> t[k].None?
    ensures r.None? <==> forall k :: from <= k < |t| ==> t[k].None?
    decreases |t| - from
  {
    if from >= |t| then None
    else match t[from]
      case Some(m) => Some((from, m))
      case None => NextMatch(t, from + 1)
  }

  /** `re.finditer` from `from`: each match with the position it starts at.
      Matches appear in the order of the text and never overlap. */
  function Scan(t: seq<Option<IssueMatch>>, from: nat): (ms: seq<(nat, IssueMatch)>)
    requires Positioned(t)
    ensures forall i :: 0 <= i < |ms| ==> from <= ms[i].0 < |t| && t[ms[i].0] == Some(ms[i].1)
    ensures forall i :: 0 <= i < |ms| ==> ms[i].0 < ms[i].1.end
    ensures forall i :: 0 < i < |ms| ==> ms[i - 1].1.end <= ms[i].0
    ensures ms == [] <==> forall k :: from <= k < |t| ==> t[k].None?
    decreases |t| - from
  {
    match NextMatch(t, from)
    case None => []
    case Some((q, m)) =>
      var rest := Scan(t, m.end);
      var ms := [(q, m)] + rest;
      assert forall i :: 0 < i < |ms| ==> ms[i] == rest[i - 1];
      ms
  }

  /** The matches `re.finditer` yields for convention `conv` over the whole text. */
  function Matches(s: string, conv: Convention): seq<(nat, IssueMatch)> {
    Scan(MatchTable(s, conv), 0)
  }

  /** A match of the pattern somewhere in `s`. */
  ghost predicate HasIssue(s: string, conv: Convention) {
    exists k :: 0 <= k < |s| && IssueAt(s, k, conv).Some?
  }

  /** Every position where a match could start lies inside a reported match:
      `finditer` skips nothing. */
  lemma {:induction false} ScanComplete(t: seq<Option<IssueMatch>>, from: nat, k: nat)
    requires Positioned(t)
    requires from <= k < |t| && t[k].Some?
    ensures exists i :: 0 <= i < |Scan(t, from)| && Scan(t, from)[i].0 <= k < Scan(t, from)[i].1.end
    decreases |t| - from
  {
    var ms := Scan(t, from);
    match NextMatch(t, from)
    case None =>
    case Some((q, m)) =>
      assert ms[0] == (q, m);
      if k >= m.end {
        ScanComplete(t, m.end, k);
        var rest := Scan(t, m.end);
        var i :| 0 <= i < |rest| && rest[i].0 <= k < rest[i].1.end;
        assert ms[i + 1] == rest[i];
      } else {
        assert ms[0].0 <= k < ms[0].1.end;
      }
  }

  /** The issues of a list of matches: `m.group(2).strip()` for the title. */
  function Titles(ms: seq<(nat, IssueMatch)>): (r: seq<Issue>)
    ensures |r| == |ms|
    decreases |ms|
  {
    if |ms| == 0 then [] else [Issue(ms[0].1.severity, Strip(ms[0].1.title))] + Titles(ms[1..])
  }

  /** The `i`-th issue is the `i`-th match's severity with its title stripped. */
  lemma {:induction false} TitlesAt(ms: seq<(nat, IssueMatch)>, i: nat)
    requires i < |ms|
    ensures Titles(ms)[i] == Issue(ms[i].1.severity, Strip(ms[i].1.title))
    decreases |ms|
  {
    assert Titles(ms) == [Issue(ms[0].1.severity, Strip(ms[0].1.title))] + Titles(ms[1..]);
    if i > 0 {
      TitlesAt(ms[1..], i - 1);
      assert ms[1..][i - 1] == ms[i];
    }
  }

  /** Titles come out stripped, and on one line when the raw titles are. */
  lemma {:induction false} TitlesClean(ms: seq<(nat, IssueMatch)>)
    requires forall i :: 0 <= i < |ms| ==> '\n' !in ms[i].1.title
    ensures forall i :: 0 <= i < |ms| ==> '\n' !in Titles(ms)[i].title && Strip(Titles(ms)[i].title) == Titles(ms)[i].title
    decreases |ms|
  {
    if |ms| > 0 {
      TitlesClean(ms[1..]);
      var t := ms[0].1.title;
      StripIdempotent(t);
    }
  }

  /** The issue list: the numbered convention, or the bracketed one when the
      numbered convention finds nothing. Every title is stripped and lies on one line. */
  function Issues(stdout: string): (r: seq<Issue>)
    ensures forall i :: 0 <= i < |r| ==> '\n' !in r[i].title && Strip(r[i].title) == r[i].title
  {
    var numbered := Matches(stdout, Numbered);
    var ms := if |numbered| > 0 then numbered else Matches(stdout, Bracketed);
    TitlesClean(ms);
    Titles(ms)
  }

  /** The bracketed convention is consulted only when the numbered one matches
      nowhere in the text, so the two are never merged. */
  lemma ConventionsNeverMerged(s: string)
    ensures HasIssue(s, Numbered) ==> Issues(s) == Titles(Matches(s, Numbered))
    ensures !HasIssue(s, Numbered) ==> Issues(s) == Titles(Matches(s, Bracketed))
  {
    var t := MatchTable(s, Numbered);
    if HasIssue(s, Numbered) {
      var k :| 0 <= k < |s| && IssueAt(s, k, Numbered).Some?;
      MatchTableAt(s, Numbered, k);
      assert Scan(t, 0) != [];
    } else {
      forall k | 0 <= k < |t| ensures t[k].None? {
        MatchTableAt(s, Numbered, k);
      }
    }
  }

  datatype Health = Health(score: nat, grade: char)

  predicate IsGrade(c: char) { 'A' <= c <= 'F' }

  /** `s[i..j]` is a whole run of decimal digits: one or more, with no digit
      right after it. */
  predicate DigitRun(s: string, i: nat, j: nat) {
    i < j <= |s| && (forall k :: i <= k < j ==> IsDigit(s[k])) && (j == |s| || !IsDigit(s[j]))
  }

  /** The score a layout reads is the value of the whole digit run that
      follows `Health Score:` and optional whitespace at `p`. */
  ghost predicate ScoreRead(s: string, p: nat, score: nat) {
    HasAt(s, p, "Health Score:")
    && exists i: nat, j: nat ::
         p + 13 <= i <= |s| && (forall k :: p + 13 <= k < i ==> IsSpace(s[k]))
         && DigitRun(s, i, j) && score == DigitsValue(s[i..j])
  }

  /** A run of digits after the keyword and a run of whitespace is a score
      read at `p`. */
  lemma ScoreReadIs(s: string, p: nat, i: nat, j: nat)
    requires HasAt(s, p, "Health Score:") && p + 13 <= i && DigitRun(s, i, j)
    requires forall k :: p + 13 <= k < i ==> IsSpace(s[k])
    ensures ScoreRead(s, p, DigitsValue(s[i..j]))
  {
  }

  /** `int(s[a..d])` for a run of decimal digits, read in place. */
  function RunValue(s: string, a: nat, d: nat): nat
    requires a <= d <= |s| && forall k :: a <= k < d ==> IsDigit(s[k])
    decreases d - a
  {
    if d == a then 0
    else
      assert IsDigit(s[d - 1]);
      RunValue(s, a, d - 1) * 10 + (s[d - 1] as int - '0' as int)
  }

  /** Reading the digits in place agrees with reading them as a string. */
  lemma {:induction false} RunValueIs(s: string, a: nat, d: nat)
    requires a <= d <= |s| && forall k :: a <= k < d ==> IsDigit(s[k])
    ensures RunValue(s, a, d) == DigitsValue(s[a..d])
    decreases d - a
  {
    if d > a {
      RunValueIs(s, a, d - 1);
      assert s[a..d][..d - 1 - a] == s[a..d - 1];
    }
  }

  /** A score read from a health line and where its digits stop. */
  datatype ScoreRun = ScoreRun(score: nat, stop: nat)

  /** `Health Score:\s*(\d+)` at `p`, the part both layouts share: the
      score and where its digits end. */
  function ScoreAt(s: string, p: nat): (r: Option<ScoreRun>)
    ensures r.Some? ==> p + 13 < r.value.stop <= |s|
  {
    if !HasAt(s, p, "Health Score:") then None
    else
      var a := RunEnd(s, p + 13, IsSpace);
      var d := RunEnd(s, a, IsDigit);
      RunEndKeeps(s, a, IsDigit);
      if d == a then None else Some(ScoreRun(RunValue(s, a, d), d))
  }

  /** The score is the value of the whole digit run after the keyword and
      its whitespace. */
  lemma ScoreAtSound(s: string, p: nat)
    ensures ScoreAt(s, p).Some? ==> ScoreRead(s, p, ScoreAt(s, p).value.score)
  {
    if ScoreAt(s, p).Some? {
      var a := RunEnd(s, p + 13, IsSpace);
      var d := RunEnd(s, a, IsDigit);
      RunEndKeeps(s, p + 13, IsSpace);
      RunEndKeeps(s, a, IsDigit);
      RunValueIs(s, a, d);
      ScoreReadIs(s, p, a, d);
    }
  }

  /** `\s*100\s*Grade:\s*([A-F])` from `c`, the rest of the `Grade:` layout
      after its slash: the grade. */
  function GradeTail(s: string, c: nat): (g: Option<char>)
    requires c <= |s|
    ensures g.Some? ==> IsGrade(g.value) && exists q :: c < q < |s| && HasAt(s, q, "Grade:")
  {
    var h := RunEnd(s, c, IsSpace);
    if !HasAt(s, h, "100") then None
    else
      var e := RunEnd(s, h + 3, IsSpace);
      if !HasAt(s, e, "Grade:") then None
      else
        var f := RunEnd(s, e + 6, IsSpace);
        if f < |s| && IsGrade(s[f]) then Some(s[f]) else None
  }

  // `Health Score:\s*(\d+)\s*/\s*100\s*Grade:\s*([A-F])` at `p`. Every `\s*`
  // is followed by a character that is not whitespace, so each takes the
  // whole whitespace run.
  function GradeLayoutAt(s: string, p: nat): (h: Option<Health>)
    ensures h.Some? ==> IsGrade(h.value.grade)
  {
    match ScoreAt(s, p)
    case None => None
    case Some(run) =>
      var b := RunEnd(s, run.stop, IsSpace);
      if b == |s| || s[b] != '/' then None
      else
        match GradeTail(s, b + 1)
        case None => None
        case Some(g) => Some(Health(run.score, g))
  }

  /** A match of the `Grade:` layout reads its score from the digits after
      the keyword, and the text holds a `Grade:` after the keyword. */
  lemma GradeLayoutSound(s: string, p: nat)
    ensures GradeLayoutAt(s, p).Some? ==> ScoreRead(s, p, GradeLayoutAt(s, p).value.score)
    ensures GradeLayoutAt(s, p).Some? ==> exists q :: p + 13 < q < |s| && HasAt(s, q, "Grade:")
  {
    ScoreAtSound(s, p);
  }

  /** `/100\s*\(([A-F])\)` at `d`, the rest of the `(G)` layout after its
      digits: the grade. */
  function ParenTail(s: string, d: nat): (g: Option<char>)
    ensures g.Some? ==> IsGrade(g.value)
  {
    if !HasAt(s, d, "/100") then None
    else
      var e := RunEnd(s, d + 4, IsSpace);
      if e + 3 <= |s| && s[e] == '(' && IsGrade(s[e + 1]) && s[e + 2] == ')' then Some(s[e + 1]) else None
  }

  /** `Health Score:\s*(\d+)/100\s*\(([A-F])\)` at `p`. */
  function ParenLayoutAt(s: string, p: nat): (h: Option<Health>)
    ensures h.Some? ==> IsGrade(h.value.grade)
  {
    match ScoreAt(s, p)
    case None => None
    case Some(run) =>
      match ParenTail(s, run.stop)
      case None => None
      case Some(g) => Some(Health(run.score, g))
  }

  /** A match of the `(G)` layout reads its score from the digits after the
      keyword. */
  lemma ParenLayoutSound(s: string, p: nat)
    ensures ParenLayoutAt(s, p).Some? ==> ScoreRead(s, p, ParenLayoutAt(s, p).value.score)
  {
    ScoreAtSound(s, p);
  }

  /** The health summary: the leftmost match of the `Grade:` layout anywhere in
      the text, else the leftmost match of the `(G)` layout, else none. */
  function HealthOf(stdout: string): (h: Option<Health>)
    ensures h.Some? ==> IsGrade(h.value.grade)
    ensures (exists k :: 0 <= k < |stdout| && GradeLayoutAt(stdout, k).Some?) ==>
      exists k :: 0 <= k < |stdout| && h == GradeLayoutAt(stdout, k)
        && forall j :: 0 <= j < k ==> GradeLayoutAt(stdout, j).None?
    ensures (forall k :: 0 <= k < |stdout| ==> GradeLayoutAt(stdout, k).None?) ==>
      ((exists k :: 0 <= k < |stdout| && ParenLayoutAt(stdout, k).Some?) ==>
        exists k :: 0 <= k < |stdout| && h == ParenLayoutAt(stdout, k)
          && forall j :: 0 <= j < k ==> ParenLayoutAt(stdout, j).None?)
    ensures h.None? <==> forall k :: 0 <= k < |stdout| ==> GradeLayoutAt(stdout, k).None? && ParenLayoutAt(stdout, k).None?
  {
    match FirstMatch(stdout, 0, GradeLayoutAt)
    case Some((_, h)) => Some(h)
    case None =>
      match FirstMatch(stdout, 0, ParenLayoutAt)
      case Some((_, h)) => Some(h)
      case None => None
  }

  /** The line the analyzer prints in the `Grade:` layout. */
  function GradeLine(n: nat, g: char): string {
    "Health Score: " + Decimal(n) + "/100 Grade: " + [g]
  }

  /** The line the analyzer prints in the `(G)` layout. */
  function ParenLine(n: nat, g: char): string {
    "Health Score: " + Decimal(n) + "/100 (" + [g] + ")"
  }

  /** The start of a printed health line sits at `p` in `s`: the keyword,
      one space and `digits`. */
  predicate HeadPieces(s: string, p: nat, digits: string) {
    p + 14 + |digits| <= |s| && HasAt(s, p, "Health Score:") && s[p + 13] == ' ' && HasAt(s, p + 14, digits)
  }

  /** The rest of a `Grade:` line sits at `d`: `/100 Grade: ` and `g`. */
  predicate GradeTailPieces(s: string, d: nat, g: char) {
    d + 13 <= |s| && s[d] == '/' && HasAt(s, d + 1, "100") && s[d + 4] == ' '
    && HasAt(s, d + 5, "Grade:") && s[d + 11] == ' ' && s[d + 12] == g
  }

  /** The rest of a `(G)` line sits at `d`: `/100 (`, `g` and `)`. */
  predicate ParenTailPieces(s: string, d: nat, g: char) {
    d + 8 <= |s| && HasAt(s, d, "/100") && s[d + 4] == ' ' && s[d + 5] == '(' && s[d + 6] == g && s[d + 7] == ')'
  }

  /** The shared prefix reads a digit string written one space after the
      keyword. */
  lemma ScoreAtReads(s: string, p: nat, digits: string)
    requires |digits| > 0 && forall k :: 0 <= k < |digits| ==> IsDigit(digits[k])
    requires HeadPieces(s, p, digits)
    requires p + 14 + |digits| == |s| || !IsDigit(s[p + 14 + |digits|])
    ensures ScoreAt(s, p) == Some(ScoreRun(DigitsValue(digits), p + 14 + |digits|))
  {
    ScoreRunsEnd(s, p, digits);
    ScoreAtIs(s, p, digits);
  }

  /** Where the whitespace run and the digit run of a head line end. */
  lemma ScoreRunsEnd(s: string, p: nat, digits: string)
    requires |digits| > 0 && forall k :: 0 <= k < |digits| ==> IsDigit(digits[k])
    requires HeadPieces(s, p, digits)
    requires p + 14 + |digits| == |s| || !IsDigit(s[p + 14 + |digits|])
    ensures RunEnd(s, p + 13, IsSpace) == p + 14
    ensures RunEnd(s, p + 14, IsDigit) == p + 14 + |digits|
    ensures s[p + 14..p + 14 + |digits|] == digits
  {
    HasAtFirst(s, p + 14, digits);
    RunEndIs(s, p + 13, p + 14, IsSpace);
    RunEndPast(s, p + 14, digits, IsDigit);
  }

  /** Where the two runs after the keyword end fixes the score. */
  lemma ScoreAtIs(s: string, p: nat, digits: string)
    requires |digits| > 0 && forall k :: 0 <= k < |digits| ==> IsDigit(digits[k])
    requires HasAt(s, p, "Health Score:") && p + 14 + |digits| <= |s|
    requires RunEnd(s, p + 13, IsSpace) == p + 14
    requires RunEnd(s, p + 14, IsDigit) == p + 14 + |digits|
    requires s[p + 14..p + 14 + |digits|] == digits
    ensures ScoreAt(s, p) == Some(ScoreRun(DigitsValue(digits), p + 14 + |digits|))
  {
    RunEndKeeps(s, p + 14, IsDigit);
    RunValueIs(s, p + 14, p + 14 + |digits|);
  }

  /** The tail of the `Grade:` layout reads `/100 Grade: g` back as `g`. */
  lemma GradeTailReads(s: string, d: nat, g: char)
    requires IsGrade(g) && GradeTailPieces(s, d, g)
    ensures !IsDigit(s[d]) && RunEnd(s, d, IsSpace) == d && s[d] == '/'
    ensures GradeTail(s, d + 1) == Some(g)
  {
    HasAtFirst(s, d + 1, "100");
    HasAtFirst(s, d + 5, "Grade:");
    RunEndIs(s, d, d, IsSpace);
    RunEndIs(s, d + 1, d + 1, IsSpace);
    RunEndIs(s, d + 4, d + 5, IsSpace);
    RunEndIs(s, d + 11, d + 12, IsSpace);
  }

  /** The `Grade:` layout reads the score and the grade it was given back, at
      any position, whatever text surrounds it. */
  lemma GradeLayoutReads(s: string, p: nat, digits: string, g: char)
    requires |digits| > 0 && forall k :: 0 <= k < |digits| ==> IsDigit(digits[k])
    requires IsGrade(g) && HeadPieces(s, p, digits) && GradeTailPieces(s, p + 14 + |digits|, g)
    ensures GradeLayoutAt(s, p) == Some(Health(DigitsValue(digits), g))
  {
    GradeTailReads(s, p + 14 + |digits|, g);
    ScoreAtReads(s, p, digits);
    GradeLayoutIs(s, p, digits, g);
  }

  /** The `Grade:` layout is a score run, a slash right after it and a
      grade tail. */
  lemma GradeLayoutIs(s: string, p: nat, digits: string, g: char)
    requires |digits| > 0 && forall k :: 0 <= k < |digits| ==> IsDigit(digits[k])
    requires ScoreAt(s, p) == Some(ScoreRun(DigitsValue(digits), p + 14 + |digits|))
    requires p + 14 + |digits| < |s| && s[p + 14 + |digits|] == '/'
    requires RunEnd(s, p + 14 + |digits|, IsSpace) == p + 14 + |digits|
    requires GradeTail(s, p + 14 + |digits| + 1) == Some(g)
    ensures GradeLayoutAt(s, p) == Some(Health(DigitsValue(digits), g))
  {
  }

  /** The tail of the `(G)` layout reads `/100 (g)` back as `g`. */
  lemma ParenTailReads(s: string, d: nat, g: char)
    requires IsGrade(g) && ParenTailPieces(s, d, g)
    ensures !IsDigit(s[d]) && ParenTail(s, d) == Some(g)
  {
    HasAtFirst(s, d, "/100");
    RunEndIs(s, d + 4, d + 5, IsSpace);
  }

  /** The `(G)` layout reads the score and the grade it was given back. */
  lemma ParenLayoutReads(s: string, p: nat, digits: string, g: char)
    requires |digits| > 0 && forall k :: 0 <= k < |digits| ==> IsDigit(digits[k])
    requires IsGrade(g) && HeadPieces(s, p, digits) && ParenTailPieces(s, p + 14 + |digits|, g)
    ensures ParenLayoutAt(s, p) == Some(Health(DigitsValue(digits), g))
  {
    var d := p + 14 + |digits|;
    ParenTailReads(s, d, g);
    ScoreAtReads(s, p, digits);
  }

  /** The keywords inside the literal parts of a printed health line. */
  lemma HealthLineLiterals()
    ensures HasAt("Health Score: ", 0, "Health Score:")
    ensures HasAt("/100 Grade: ", 1, "100") && HasAt("/100 Grade: ", 5, "Grade:")
    ensures HasAt("/100 (", 0, "/100")
  {
  }

  /** Where the pieces of a printed `Grade:` line sit in it. */
  lemma GradeLinePieces(n: nat, g: char)
    ensures HeadPieces(GradeLine(n, g), 0, Decimal(n)) && GradeTailPieces(GradeLine(n, g), 14 + |Decimal(n)|, g)
  {
    var digits := Decimal(n);
    var x, y := "Health Score: " + digits, "/100 Grade: ";
    var d := |x|;
    HealthLineLiterals();
    HasAtLeft("Health Score: ", digits, 0, "Health Score:");
    HasAtWhole(digits);
    HasAtRight("Health Score: ", digits, 0, digits);
    HasAtLeft(x, y, 0, "Health Score:");
    HasAtLeft(x, y, 14, digits);
    HasAtRight(x, y, 1, "100");
    HasAtRight(x, y, 5, "Grade:");
    HasAtLeft(x + y, [g], 0, "Health Score:");
    HasAtLeft(x + y, [g], 14, digits);
    HasAtLeft(x + y, [g], d + 1, "100");
    HasAtLeft(x + y, [g], d + 5, "Grade:");
  }

  /** Where the pieces of a printed `(G)` line sit in it. */
  lemma ParenLinePieces(n: nat, g: char)
    ensures HeadPieces(ParenLine(n, g), 0, Decimal(n)) && ParenTailPieces(ParenLine(n, g), 14 + |Decimal(n)|, g)
  {
    var digits := Decimal(n);
    var x, y := "Health Score: " + digits, "/100 (";
    var d := |x|;
    HealthLineLiterals();
    HasAtLeft("Health Score: ", digits, 0, "Health Score:");
    HasAtWhole(digits);
    HasAtRight("Health Score: ", digits, 0, digits);
    HasAtLeft(x, y, 0, "Health Score:");
    HasAtLeft(x, y, 14, digits);
    HasAtRight(x, y, 0, "/100");
    HasAtLeft(x + y, [g], 0, "Health Score:");
    HasAtLeft(x + y, [g], 14, digits);
    HasAtLeft(x + y, [g], d, "/100");
    HasAtLeft(x + y + [g], ")", 0, "Health Score:");
    HasAtLeft(x + y + [g], ")", 14, digits);
    HasAtLeft(x + y + [g], ")", d, "/100");
  }

  /** A `Grade:` line printed for score `n` and grade `g` is read back as
      exactly that health summary. */
  lemma HealthOfGradeLine(n: nat, g: char)
    requires IsGrade(g)
    ensures HealthOf(GradeLine(n, g)) == Some(Health(n, g))
  {
    var s := GradeLine(n, g);
    GradeLinePieces(n, g);
    GradeLayoutReads(s, 0, Decimal(n), g);
    DigitsValueDecimal(n);
    FirstMatchIs(s, 0, GradeLayoutAt, 0, Health(n, g));
  }

  /** Text without a `G` holds no match of the `Grade:` layout. */
  lemma NoGradeLayoutWithoutG(s: string)
    requires 'G' !in s
    ensures forall k :: 0 <= k < |s| ==> GradeLayoutAt(s, k).None?
  {
    forall k | 0 <= k < |s| ensures GradeLayoutAt(s, k).None? {
      if GradeLayoutAt(s, k).Some? {
        GradeLayoutSound(s, k);
        var q :| k + 13 < q < |s| && HasAt(s, q, "Grade:");
        HasAtFirst(s, q, "Grade:");
        assert false;
      }
    }
  }

  /** A printed `(G)` line has no `G`: its grade is one of A to F. */
  lemma ParenLineWithoutG(n: nat, g: char)
    requires IsGrade(g)
    ensures 'G' !in ParenLine(n, g)
  {
    var digits := Decimal(n);
    assert 'G' !in digits by {
      forall k | 0 <= k < |digits| ensures digits[k] != 'G' {
        assert IsDigit(digits[k]);
      }
    }
  }

  /** A `(G)` line printed for score `n` and grade `g` is read back as exactly
      that health summary: it holds no `Grade:` for the other layout to find. */
  lemma HealthOfParenLine(n: nat, g: char)
    requires IsGrade(g)
    ensures HealthOf(ParenLine(n, g)) == Some(Health(n, g))
  {
    var s := ParenLine(n, g);
    ParenLinePieces(n, g);
    ParenLayoutReads(s, 0, Decimal(n), g);
    DigitsValueDecimal(n);
    ParenLineWithoutG(n, g);
    NoGradeLayoutWithoutG(s);
    FirstMatchIs(s, 0, ParenLayoutAt, 0, Health(n, g));
  }

  predicate NotColonOrNewline(c: char) { c != ':' && c != '\n' }

  /** `t` is a whole token at `w`: one or more characters that are not
      whitespace, ending at whitespace or at the end of `s`. */
  predicate TokenAt(s: string, w: nat, t: string) {
    |t| > 0 && HasAt(s, w, t) && (forall k :: 0 <= k < |t| ==> !IsSpace(t[k]))
    && (w + |t| == |s| || IsSpace(s[w + |t|]))
  }

  /** `c` is the first colon after `Device` at `p`, on the same line. */
  predicate FirstColon(s: string, p: nat, c: nat) {
    p + 6 <= c < |s| && s[c] == ':' && forall k :: p + 6 <= k < c ==> NotColonOrNewline(s[k])
  }

  /** What `Device.*?:\s*(\S+)` captures at `p`: `Device`, then the first
      colon on that line, then whitespace (newlines included), then `token`. */
  ghost predicate DeviceRead(s: string, p: nat, token: string) {
    HasAt(s, p, "Device")
    && exists c: nat, w: nat ::
         FirstColon(s, p, c) && c < w <= |s| && (forall k :: c < k < w ==> IsSpace(s[k])) && TokenAt(s, w, token)
  }

  lemma DeviceReadIs(s: string, p: nat, c: nat, w: nat, token: string)
    requires HasAt(s, p, "Device") && FirstColon(s, p, c) && c < w <= |s|
    requires forall k :: c < k < w ==> IsSpace(s[k])
    requires TokenAt(s, w, token)
    ensures DeviceRead(s, p, token)
  {
  }

  /** `Device.*?:\s*(\S+)` at `p`. The lazy `.*?` tries the colons of the line
      in order; the first one is decisive, because when nothing but whitespace
      follows it no later colon exists either. */
  function DeviceAt(s: string, p: nat): (r: Option<string>)
    ensures r.Some? ==> DeviceRead(s, p, r.value)
    ensures r.None? && HasAt(s, p, "Device") ==>
      forall c: nat :: FirstColon(s, p, c) ==> forall k :: c < k < |s| ==> IsSpace(s[k])
  {
    if !HasAt(s, p, "Device") then None
    else
      var colon := RunEnd(s, p + 6, NotColonOrNewline);
      RunEndKeeps(s, p + 6, NotColonOrNewline);
      if colon == |s| || s[colon] != ':' then None
      else
        var w := RunEnd(s, colon + 1, IsSpace);
        RunEndKeeps(s, colon + 1, IsSpace);
        if w == |s| then None
        else
          var e := RunEnd(s, w, NotSpace);
          RunEndKeeps(s, w, NotSpace);
          assert TokenAt(s, w, s[w..e]);
          DeviceReadIs(s, p, colon, w, s[w..e]);
          Some(s[w..e])
  }

  /** The device id: the token after the leftmost `Device...:` that has one. */
  function DeviceId(stdout: string): (r: Option<string>)
    ensures r.Some? ==>
      exists p :: 0 <= p < |stdout| && DeviceAt(stdout, p) == r && (forall k :: 0 <= k < p ==> DeviceAt(stdout, k).None?)
    ensures r.Some? ==> |r.value| > 0 && forall k :: 0 <= k < |r.value| ==> !IsSpace(r.value[k])
    ensures r.None? <==> forall k :: 0 <= k < |stdout| ==> DeviceAt(stdout, k).None?
  {
    match FirstMatch(stdout, 0, DeviceAt)
    case Some((_, token)) => Some(token)
    case None => None
  }

  /** Conversely, `Device`, the first colon of its line, whitespace and a
      whole token are matched as exactly that token. */
  lemma DeviceAtReads(s: string, p: nat, c: nat, w: nat, t: string)
    requires HasAt(s, p, "Device") && FirstColon(s, p, c) && c < w <= |s|
    requires forall k :: c < k < w ==> IsSpace(s[k])
    requires TokenAt(s, w, t)
    ensures DeviceAt(s, p) == Some(t)
  {
    RunEndIs(s, p + 6, c, NotColonOrNewline);
    HasAtFirst(s, w, t);
    RunEndIs(s, c + 1, w, IsSpace);
    forall j | 0 <= j < |t| ensures NotSpace(t[j]) {
    }
    RunEndPast(s, w, t, NotSpace);
    assert s[w..w + |t|] == t;
  }

  /** A match at `p` captures `t` exactly when `DeviceRead` describes it. */
  lemma DeviceAtIff(s: string, p: nat, t: string)
    ensures DeviceAt(s, p) == Some(t) <==> DeviceRead(s, p, t)
  {
    if DeviceRead(s, p, t) {
      var c: nat, w: nat :| FirstColon(s, p, c) && c < w <= |s| && (forall k :: c < k < w ==> IsSpace(s[k])) && TokenAt(s, w, t);
      DeviceAtReads(s, p, c, w, t);
    }
  }

  /** A `Device ID: t` line yields `t` as the device id. */
  lemma DeviceIdOfLine(t: string)
    requires |t| > 0 && forall k :: 0 <= k < |t| ==> !IsSpace(t[k])
    ensures DeviceId("Device ID: " + t + "\n") == Some(t)
  {
    var x := "Device ID: " + t;
    var s := x + "\n";
    assert HasAt("Device ID: ", 0, "Device");
    HasAtLeft("Device ID: ", t, 0, "Device");
    HasAtLeft(x, "\n", 0, "Device");
    HasAtWhole(t);
    HasAtRight("Device ID: ", t, 0, t);
    HasAtLeft(x, "\n", 11, t);
    assert s[6] == ' ' && s[7] == 'I' && s[8] == 'D' && s[9] == ':' && s[10] == ' ';
    assert s[11 + |t|] == '\n';
    assert FirstColon(s, 0, 9);
    DeviceAtReads(s, 0, 9, 11, t);
    FirstMatchIs(s, 0, DeviceAt, 0, t);
  }

  /** One entry of the reports directory as the listing gives it. */
  datatype ListedFile = ListedFile(name: string, size: nat)

  datatype Report = Report(name: string, path: string, size: nat)

  datatype AnalysisResults = AnalysisResults(
    issues: seq<Issue>, health: Option<Health>, deviceId: Option<string>, reports: seq<Report>)

  function ReportOf(reportsDir: string, f: ListedFile): Report {
    Report(f.name, JoinPath(reportsDir, f.name), f.size)
  }

  /** The results of a session whose stdout is `stdout` and whose reports
      directory, in sorted order, is `listing`. */
  function Results(stdout: string, reportsDir: string, listing: seq<ListedFile>): (r: AnalysisResults)
    ensures |r.reports| == |listing|
    ensures forall i :: 0 <= i < |listing| ==> r.reports[i].name == listing[i].name && r.reports[i].size == listing[i].size
  {
    AnalysisResults(Issues(stdout), HealthOf(stdout), DeviceId(stdout),
                    seq(|listing|, i requires 0 <= i < |listing| => ReportOf(reportsDir, listing[i])))
  }

  /** The loops of `parse_session_results`: the report listing, then the
      `finditer` loop of the numbered convention and, only when it appended
      nothing, the loop of the bracketed one. */
  method ParseSessionResults(stdout: string, reportsDir: string, listing: seq<ListedFile>) returns (r: AnalysisResults)
    ensures r == Results(stdout, reportsDir, listing)
  {
    var reports: seq<Report> := [];
    for i := 0 to |listing|
      invariant reports == seq(i, j requires 0 <= j < i => ReportOf(reportsDir, listing[j]))
    {
      reports := reports + [ReportOf(reportsDir, listing[i])];
    }
    var issues := CollectIssues(stdout, Numbered);
    if |issues| == 0 {
      issues := CollectIssues(stdout, Bracketed);
    }
    r := AnalysisResults(issues, HealthOf(stdout), DeviceId(stdout), reports);
  }

  /** `for m in re.finditer(...): issues.append(...)` for one convention. */
  method CollectIssues(stdout: string, conv: Convention) returns (issues: seq<Issue>)
    ensures issues == Titles(Matches(stdout, conv))
  {
    var table := MatchTable(stdout, conv);
    var pos := 0;
    issues := [];
    var next := NextMatch(table, pos);
    while next.Some?
      invariant pos <= |table|
      invariant next == NextMatch(table, pos)
      invariant issues + Titles(Scan(table, pos)) == Titles(Scan(table, 0))
      decreases |table| - pos
    {
      var m := next.value.1;
      ScanStep(table, pos);
      issues := issues + [Issue(m.severity, Strip(m.title))];
      pos := m.end;
      next := NextMatch(table, pos);
    }
    assert Scan(table, pos) == [];
    assert issues + [] == issues;
  }

  /** One step of `finditer`, as the loop above takes it. */
  lemma ScanStep(t: seq<Option<IssueMatch>>, pos: nat)
    requires Positioned(t) && NextMatch(t, pos).Some?
    ensures var m := NextMatch(t, pos).value.1;
      Titles(Scan(t, pos)) == [Issue(m.severity, Strip(m.title))] + Titles(Scan(t, m.end))
  {
    var (q, m) := NextMatch(t, pos).value;
    var rest := Scan(t, m.end);
    assert Scan(t, pos) == [(q, m)] + rest;
    assert ([(q, m)] + rest)[1..] == rest;
  }
}
