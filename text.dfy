/** Character classes, Python string operations and a leftmost-match search,
    shared by every text-processing routine of the server backend. */
module Text {

  datatype Option<T> = None | Some(value: T)

  /** Python's `str.isspace()`: the set that `\s` matches in a str pattern and
      that `str.strip()` removes. */
  predicate IsSpace(c: char) {
    var n := c as int;
    (9 <= n <= 13) || (28 <= n <= 32) || n == 0x85 || n == 0xA0 || n == 0x1680
    || (0x2000 <= n <= 0x200A) || n == 0x2028 || n == 0x2029 || n == 0x202F
    || n == 0x205F || n == 0x3000
  }

  predicate IsDigit(c: char) { '0' <= c <= '9' }

  predicate NotSpace(c: char) { !IsSpace(c) }

  predicate NotNewline(c: char) { c != '\n' }

  /** The end of the longest run of characters satisfying `keep` that starts at
      `i`: the run stops at the end of `s` or at a character `keep` rejects. */
  function RunEnd(s: string, i: nat, keep: char -> bool): (j: nat)
    requires i <= |s|
    ensures i <= j <= |s|
    ensures j == |s| || !keep(s[j])
    decreases |s| - i
  {
    if i == |s| || !keep(s[i]) then i else RunEnd(s, i + 1, keep)
  }

  /** Every character of the run satisfies `keep`. */
  lemma {:induction false} RunEndKeeps(s: string, i: nat, keep: char -> bool)
    requires i <= |s|
    ensures forall k :: i <= k < RunEnd(s, i, keep) ==> keep(s[k])
    decreases |s| - i
  {
    if i < |s| && keep(s[i]) {
      RunEndKeeps(s, i + 1, keep);
    }
  }

  /** A run is determined by where it stops: the characters up to `j` qualify
      and the one at `j` does not. */
  lemma {:induction false} RunEndIs(s: string, i: nat, j: nat, keep: char -> bool)
    requires i <= j <= |s|
    requires forall k :: i <= k < j ==> keep(s[k])
    requires j == |s| || !keep(s[j])
    ensures RunEnd(s, i, keep) == j
    decreases j - i
  {
    if i < j {
      RunEndIs(s, i + 1, j, keep);
    }
  }

  /** `lit` occurs in `s` starting at position `i`. */
  predicate HasAt(s: string, i: nat, lit: string) {
    i + |lit| <= |s| && forall j {:trigger lit[j]} :: 0 <= j < |lit| ==> s[i + j] == lit[j]
  }

  /** A run over an occurrence of `x`, all of whose characters qualify, ends
      where `x` does when the character after `x` does not qualify. */
  lemma RunEndPast(s: string, i: nat, x: string, keep: char -> bool)
    requires HasAt(s, i, x)
    requires forall j :: 0 <= j < |x| ==> keep(x[j])
    requires i + |x| == |s| || !keep(s[i + |x|])
    ensures RunEnd(s, i, keep) == i + |x|
  {
    forall k | i <= k < i + |x| ensures keep(s[k]) {
      assert s[i + (k - i)] == x[k - i];
    }
    RunEndIs(s, i, i + |x|, keep);
  }

  /** An occurrence of `x + y` is an occurrence of `x` followed by one of `y`. */
  lemma HasAtParts(s: string, i: nat, x: string, y: string)
    requires HasAt(s, i, x + y)
    ensures HasAt(s, i, x) && HasAt(s, i + |x|, y)
  {
    forall j | 0 <= j < |x| ensures s[i + j] == x[j] {
      assert (x + y)[j] == x[j];
    }
    forall j | 0 <= j < |y| ensures s[i + |x| + j] == y[j] {
      assert s[i + (|x| + j)] == (x + y)[|x| + j];
    }
  }

  /** An occurrence of `x` followed by one of `y` is an occurrence of `x + y`. */
  lemma HasAtJoin(s: string, i: nat, x: string, y: string)
    requires HasAt(s, i, x) && HasAt(s, i + |x|, y)
    ensures HasAt(s, i, x + y)
  {
    forall j | 0 <= j < |x + y| ensures s[i + j] == (x + y)[j] {
      if j >= |x| {
        assert s[i + |x| + (j - |x|)] == y[j - |x|];
      }
    }
  }

  /** An occurrence inside `x` is still one after text is appended. */
  lemma HasAtLeft(x: string, y: string, i: nat, lit: string)
    requires HasAt(x, i, lit)
    ensures HasAt(x + y, i, lit)
  {
    forall j | 0 <= j < |lit| ensures (x + y)[i + j] == lit[j] {
      assert x[i + j] == lit[j];
    }
  }

  /** An occurrence inside `y` is one in `x + y`, shifted by `|x|`. */
  lemma HasAtRight(x: string, y: string, i: nat, lit: string)
    requires HasAt(y, i, lit)
    ensures HasAt(x + y, |x| + i, lit)
  {
    forall j | 0 <= j < |lit| ensures (x + y)[|x| + i + j] == lit[j] {
      assert y[i + j] == lit[j];
    }
  }

  /** A slice of `s` occurs in `s` where it was taken. */
  lemma HasAtSlice(s: string, i: nat, j: nat)
    requires i <= j <= |s|
    ensures HasAt(s, i, s[i..j])
  {
  }

  lemma HasAtFirst(s: string, i: nat, x: string)
    requires HasAt(s, i, x) && |x| > 0
    ensures s[i] == x[0]
  {
    assert s[i + 0] == x[0];
  }

  lemma HasAtWhole(s: string)
    ensures HasAt(s, 0, s)
  {
    forall j | 0 <= j < |s| ensures s[0 + j] == s[j] {
    }
  }

  /** `os.path.join(a, b)` on POSIX: an absolute `b` replaces `a`. */
  function JoinPath(a: string, b: string): string {
    if |b| > 0 && b[0] == '/' then b
    else if |a| == 0 || a[|a| - 1] == '/' then a + b
    else a + "/" + b
  }

  /** Python's `sub in s`. */
  predicate Contains(s: string, sub: string) {
    exists i :: 0 <= i <= |s| && HasAt(s, i, sub)
  }

  /** The leftmost position at or after `from` where `recognise` succeeds, with
      what it recognised there: the scan `re.search` performs. */
  function FirstMatch<T>(s: string, from: nat, recognise: (string, nat) -> Option<T>): (r: Option<(nat, T)>)
    ensures r.Some? ==> from <= r.value.0 < |s| && recognise(s, r.value.0) == Some(r.value.1)
    ensures r.Some? ==> forall k :: from <= k < r.value.0 ==> recognise(s, k).None?
    ensures r.None? <==> forall k :: from <= k < |s| ==> recognise(s, k).None?
    decreases |s| - from
  {
    if from >= |s| then None
    else match recognise(s, from)
      case Some(m) => Some((from, m))
      case None => FirstMatch(s, from + 1, recognise)
  }

  /** The scan stops at `p` when `recognise` succeeds there and nowhere
      between `from` and `p`. */
  lemma FirstMatchIs<T>(s: string, from: nat, recognise: (string, nat) -> Option<T>, p: nat, v: T)
    requires from <= p < |s| && recognise(s, p) == Some(v)
    requires forall k :: from <= k < p ==> recognise(s, k).None?
    ensures FirstMatch(s, from, recognise) == Some((p, v))
  {
    assert FirstMatch(s, from, recognise).Some?;
  }

  /** The index just past the last character of `s` that `drop` rejects. */
  function TrimEndIndex(s: string, drop: char -> bool): (j: nat)
    ensures j <= |s|
    ensures forall k :: j <= k < |s| ==> drop(s[k])
    ensures j == 0 || !drop(s[j - 1])
    decreases |s|
  {
    if |s| == 0 || !drop(s[|s| - 1]) then |s| else TrimEndIndex(s[..|s| - 1], drop)
  }

  /** `s[i..j]` is what is left of `s` once a leading and a trailing run of
      characters that `drop` accepts are cut off. */
  predicate CutEnds(s: string, i: nat, j: nat, drop: char -> bool) {
    i <= j <= |s|
    && (forall k :: 0 <= k < i ==> drop(s[k]))
    && (forall k :: j <= k < |s| ==> drop(s[k]))
  }

  /** Python's `s.strip(chars)`, with the stripped characters given by `drop`:
      the longest middle part of `s` whose ends `drop` rejects, obtained by
      cutting droppable characters off both ends only. */
  function Trim(s: string, drop: char -> bool): (r: string)
    ensures |r| == 0 || (!drop(r[0]) && !drop(r[|r| - 1]))
    ensures (|s| == 0 || (!drop(s[0]) && !drop(s[|s| - 1]))) ==> r == s
    ensures forall k :: 0 <= k < |r| ==> r[k] in s
    ensures exists i: nat, j: nat :: CutEnds(s, i, j, drop) && r == s[i..j]
  {
    var i := RunEnd(s, 0, drop);
    RunEndKeeps(s, 0, drop);
    var t := s[i..];
    var j := TrimEndIndex(t, drop);
    assert s[i..i + j] == t[..j];
    assert CutEnds(s, i, i + j, drop);
    t[..j]
  }

  /** Python's `s.strip()`: leading and trailing whitespace removed. */
  function Strip(s: string): (r: string)
    ensures |r| == 0 || (!IsSpace(r[0]) && !IsSpace(r[|r| - 1]))
    ensures forall k :: 0 <= k < |r| ==> r[k] in s
    ensures exists i: nat, j: nat :: CutEnds(s, i, j, IsSpace) && r == s[i..j]
  {
    Trim(s, IsSpace)
  }

  /** Stripping twice is stripping once. */
  lemma StripIdempotent(s: string)
    ensures Strip(Strip(s)) == Strip(s)
  {
  }

  /** A text whose two ends are not whitespace loses exactly a final "\n"
      to stripping. */
  lemma StripLineBreak(x: string)
    requires |x| > 0 && !IsSpace(x[0]) && !IsSpace(x[|x| - 1])
    ensures Strip(x + "\n") == x
  {
    var s := x + "\n";
    var r := Strip(s);
    var i: nat, j: nat :| CutEnds(s, i, j, IsSpace) && r == s[i..j];
    assert s[0] == x[0] && s[|x| - 1] == x[|x| - 1];
    assert !IsSpace(s[0]) && !IsSpace(s[|x| - 1]);
    assert i == 0;
    assert j >= |x|;
    assert IsSpace(s[|x|]);
    assert j == |x|;
    assert s[..|x|] == x;
  }

  /** `[f(0), ..., f(n - 1)]`. */
  function Tabulate<T>(f: nat -> T, n: nat): (t: seq<T>)
    ensures |t| == n
  {
    if n == 0 then [] else Tabulate(f, n - 1) + [f(n - 1)]
  }

  lemma {:induction false} TabulateAt<T>(f: nat -> T, n: nat, k: nat)
    requires k < n
    ensures Tabulate(f, n)[k] == f(k)
  {
    if k < n - 1 {
      TabulateAt(f, n - 1, k);
    }
  }

  /** Python's `sep.join(pieces)` for a one-character separator. */
  function Join(pieces: seq<string>, sep: char): string
    decreases |pieces|
  {
    if |pieces| == 0 then ""
    else if |pieces| == 1 then pieces[0]
    else pieces[0] + [sep] + Join(pieces[1..], sep)
  }

  /** Python's `s.split(sep)` for a one-character separator. */
  function Split(s: string, sep: char): (r: seq<string>)
    ensures |r| >= 1
    ensures forall i :: 0 <= i < |r| ==> sep !in r[i]
    decreases |s|
  {
    if |s| == 0 then [""]
    else
      var rest := Split(s[1..], sep);
      if s[0] == sep then [""] + rest
      else [[s[0]] + rest[0]] + rest[1..]
  }

  /** Joining the pieces of a split gives back the text. */
  lemma {:induction false} JoinSplit(s: string, sep: char)
    ensures Join(Split(s, sep), sep) == s
    decreases |s|
  {
    if |s| > 0 {
      var rest := Split(s[1..], sep);
      JoinSplit(s[1..], sep);
      if s[0] == sep {
        assert Split(s, sep) == [""] + rest;
        assert ([""] + rest)[1..] == rest;
      } else {
        var r := Split(s, sep);
        assert r == [[s[0]] + rest[0]] + rest[1..];
        if |rest| == 1 {
          assert Join(r, sep) == [s[0]] + rest[0];
        } else {
          assert r[1..] == rest[1..];
          assert Join(rest, sep) == rest[0] + [sep] + Join(rest[1..], sep);
        }
      }
    }
  }

  /** Splitting undoes joining, so the pieces of a line are recovered exactly
      as long as none of them contains the separator. */
  lemma {:induction false} SplitJoin(pieces: seq<string>, sep: char)
    requires |pieces| >= 1
    requires forall i :: 0 <= i < |pieces| ==> sep !in pieces[i]
    ensures Split(Join(pieces, sep), sep) == pieces
    decreases |pieces|, |pieces[0]|
  {
    var p := pieces[0];
    if |pieces| == 1 {
      SplitNoSeparator(p, sep);
    } else if |p| == 0 {
      var tail := Join(pieces[1..], sep);
      assert Join(pieces, sep) == [sep] + tail;
      assert ([sep] + tail)[1..] == tail;
      SplitJoin(pieces[1..], sep);
      assert pieces == [""] + pieces[1..];
    } else {
      var shorter := [p[1..]] + pieces[1..];
      assert shorter[1..] == pieces[1..];
      assert Join(pieces, sep) == [p[0]] + Join(shorter, sep);
      assert ([p[0]] + Join(shorter, sep))[1..] == Join(shorter, sep);
      SplitJoin(shorter, sep);
      assert [p[0]] + p[1..] == p;
    }
  }

  lemma {:induction false} SplitNoSeparator(s: string, sep: char)
    requires sep !in s
    ensures Split(s, sep) == [s]
    decreases |s|
  {
    if |s| > 0 {
      SplitNoSeparator(s[1..], sep);
      assert [s[0]] + s[1..] == s;
    }
  }

  /** Text-mode reading with universal newlines: "\r\n" and a lone "\r" become "\n". */
  function TranslateNewlines(s: string): (r: string)
    ensures '\r' !in r
    ensures '\r' !in s ==> r == s
    decreases |s|
  {
    if |s| == 0 then ""
    else if s[0] == '\r' then
      if |s| > 1 && s[1] == '\n' then "\n" + TranslateNewlines(s[2..])
      else "\n" + TranslateNewlines(s[1..])
    else [s[0]] + TranslateNewlines(s[1..])
  }

  /** Concatenation regroups freely; kept as a lemma so that a proof can
      regroup without the rest of its context. */
  lemma AppendAssoc<T>(a: seq<T>, b: seq<T>, c: seq<T>)
    ensures a + (b + c) == (a + b) + c
  {
  }

  /** Translation goes piece by piece, provided the first piece does not end
      in a "\r" that the second could complete into "\r\n". */
  lemma {:induction false} TranslateNewlinesAppend(a: string, b: string)
    requires |a| == 0 || a[|a| - 1] != '\r'
    ensures TranslateNewlines(a + b) == TranslateNewlines(a) + TranslateNewlines(b)
    decreases |a|
  {
    if |a| == 0 {
      assert a + b == b;
    } else {
      var s := a + b;
      assert s[0] == a[0];
      var n := if a[0] == '\r' && a[1] == '\n' then 2 else 1;
      var head := if a[0] == '\r' then "\n" else [a[0]];
      assert n == 2 ==> s[1] == a[1];
      assert n == 1 && a[0] == '\r' ==> s[1] == a[1];
      assert s[n..] == a[n..] + b;
      assert TranslateNewlines(s) == head + TranslateNewlines(a[n..] + b);
      assert TranslateNewlines(a) == head + TranslateNewlines(a[n..]);
      TranslateNewlinesAppend(a[n..], b);
      AppendAssoc(head, TranslateNewlines(a[n..]), TranslateNewlines(b));
    }
  }

  /** The pieces of the translation: "\r\n" and a lone "\r" each become "\n",
      and every other character stays. */
  lemma TranslateNewlinesUnits(c: char)
    ensures TranslateNewlines("\r\n") == "\n" && TranslateNewlines("\r") == "\n"
    ensures c != '\r' ==> TranslateNewlines([c]) == [c]
  {
  }

  /** The lines `readlines()` yields for translated text, without their "\n":
      the last piece counts only when it is not empty. */
  function ReadLines(text: string): (lines: seq<string>)
    ensures forall i :: 0 <= i < |lines| ==> '\n' !in lines[i]
  {
    var pieces := Split(text, '\n');
    if pieces[|pieces| - 1] == "" then pieces[..|pieces| - 1] else pieces
  }

  /** The text of a file whose lines are `lines`, each ended by "\n". */
  function UnixText(lines: seq<string>): string
    decreases |lines|
  {
    if |lines| == 0 then "" else lines[0] + "\n" + UnixText(lines[1..])
  }

  /** The lines, each ended by "\n", then `last`: the lines and `last`
      joined by "\n". */
  lemma {:induction false} UnixTextJoin(lines: seq<string>, last: string)
    ensures UnixText(lines) + last == Join(lines + [last], '\n')
    decreases |lines|
  {
    if |lines| == 0 {
      assert lines + [last] == [last];
    } else {
      UnixTextJoin(lines[1..], last);
      assert (lines + [last])[1..] == lines[1..] + [last];
      AppendAssoc(lines[0] + "\n", UnixText(lines[1..]), last);
    }
  }

  /** One more line at the end of a file adds that line and its "\n". */
  lemma {:induction false} UnixTextSnoc(lines: seq<string>, last: string)
    ensures UnixText(lines + [last]) == UnixText(lines) + last + "\n"
    decreases |lines|
  {
    if |lines| == 0 {
      assert lines + [last] == [last];
      assert [last][1..] == [];
    } else {
      assert (lines + [last])[1..] == lines[1..] + [last];
      UnixTextSnoc(lines[1..], last);
    }
  }

  /** Reading back a file written line by line gives the same lines. */
  lemma ReadLinesUnixText(lines: seq<string>)
    requires forall i :: 0 <= i < |lines| ==> '\n' !in lines[i] && '\r' !in lines[i]
    ensures ReadLines(TranslateNewlines(UnixText(lines))) == lines
  {
    NoCarriageReturn(lines);
    UnixTextSplit(lines, "");
    assert UnixText(lines) + "" == UnixText(lines);
    assert (lines + [""])[..|lines|] == lines;
  }

  /** A last line that has no "\n" after it is read as a line of its own. */
  lemma ReadLinesUnterminated(lines: seq<string>, last: string)
    requires forall i :: 0 <= i < |lines| ==> '\n' !in lines[i] && '\r' !in lines[i]
    requires last != "" && '\n' !in last && '\r' !in last
    ensures ReadLines(TranslateNewlines(UnixText(lines) + last)) == lines + [last]
  {
    NoCarriageReturn(lines);
    assert '\r' !in UnixText(lines) + last;
    UnixTextSplit(lines, last);
  }

  /** Splitting newline-ended lines followed by `last` at '\n' gives the
      lines and `last`. */
  lemma UnixTextSplit(lines: seq<string>, last: string)
    requires forall i :: 0 <= i < |lines| ==> '\n' !in lines[i]
    requires '\n' !in last
    ensures Split(UnixText(lines) + last, '\n') == lines + [last]
  {
    var pieces := lines + [last];
    assert forall i :: 0 <= i < |pieces| ==> '\n' !in pieces[i] by {
      forall i | 0 <= i < |pieces| ensures '\n' !in pieces[i] {
        if i < |lines| {
          assert pieces[i] == lines[i];
        }
      }
    }
    UnixTextJoin(lines, last);
    SplitJoin(pieces, '\n');
  }

  lemma {:induction false} NoCarriageReturn(lines: seq<string>)
    requires forall i :: 0 <= i < |lines| ==> '\r' !in lines[i]
    ensures '\r' !in UnixText(lines)
    decreases |lines|
  {
    if |lines| > 0 {
      NoCarriageReturn(lines[1..]);
    }
  }

  function LowerChar(c: char): char {
    if 'A' <= c <= 'Z' then (c as int + 32) as char else c
  }

  function UpperChar(c: char): char {
    if 'a' <= c <= 'z' then (c as int - 32) as char else c
  }

  /** Python's `s.lower()`, restricted to the ASCII letters: no capital is
      left, and a character changes only when it is a capital, into the
      letter 32 code points above it. */
  function Lower(s: string): (r: string)
    ensures |r| == |s|
    ensures forall k :: 0 <= k < |r| ==> !('A' <= r[k] <= 'Z')
    ensures forall k :: 0 <= k < |r| ==> r[k] == s[k] || ('A' <= s[k] <= 'Z' && r[k] as int == s[k] as int + 32)
  {
    seq(|s|, i requires 0 <= i < |s| => LowerChar(s[i]))
  }

  /** Python's `s.replace(old, "")`: non-overlapping occurrences, left to right. */
  function RemoveAll(s: string, target: string): (r: string)
    requires |target| > 0
    ensures |r| <= |s|
    ensures (forall k :: 0 <= k < |s| ==> !HasAt(s, k, target)) ==> r == s
    decreases |s|
  {
    if |s| == 0 then ""
    else if HasAt(s, 0, target) then RemoveAll(s[|target|..], target)
    else
      HasAtTail(s, target);
      [s[0]] + RemoveAll(s[1..], target)
  }

  /** An occurrence in the tail of `s` is one in `s`, one position later. */
  lemma HasAtTail(s: string, lit: string)
    requires |s| > 0
    ensures forall k: nat :: HasAt(s[1..], k, lit) <==> HasAt(s, k + 1, lit)
  {
    forall k: nat ensures HasAt(s[1..], k, lit) <==> HasAt(s, k + 1, lit) {
      if HasAt(s, k + 1, lit) {
        forall j | 0 <= j < |lit| ensures s[1..][k + j] == lit[j] {
          assert s[1..][k + j] == s[k + 1 + j];
        }
      }
    }
  }

  /** A prefix in which no occurrence of `target` starts is kept as it is. */
  lemma {:induction false} RemoveAllPrefix(x: string, y: string, target: string)
    requires |target| > 0
    requires forall k :: 0 <= k < |x| ==> !HasAt(x + y, k, target)
    ensures RemoveAll(x + y, target) == x + RemoveAll(y, target)
    decreases |x|
  {
    if |x| == 0 {
      assert x + y == y;
    } else {
      var s := x + y;
      assert !HasAt(s, 0, target);
      assert s[0] == x[0] && s[1..] == x[1..] + y;
      assert RemoveAll(s, target) == [x[0]] + RemoveAll(x[1..] + y, target);
      assert forall k :: 0 <= k < |x| - 1 ==> !HasAt(x[1..] + y, k, target) by {
        HasAtTail(s, target);
      }
      RemoveAllPrefix(x[1..], y, target);
      AppendAssoc([x[0]], x[1..], RemoveAll(y, target));
      assert [x[0]] + x[1..] == x;
    }
  }

  /** The first occurrence of `target` is removed and the search resumes
      right after it. */
  lemma RemoveAllFirst(x: string, target: string, y: string)
    requires |target| > 0
    requires forall k :: 0 <= k < |x| ==> !HasAt(x + target + y, k, target)
    ensures RemoveAll(x + target + y, target) == x + RemoveAll(y, target)
  {
    var t := target + y;
    assert x + target + y == x + t;
    RemoveAllPrefix(x, t, target);
    assert HasAt(t, 0, target);
    assert t[|target|..] == y;
  }

  /** `int(digits)` for a run of decimal digits. */
  function DigitsValue(d: string): nat
    requires forall k :: 0 <= k < |d| ==> IsDigit(d[k])
    decreases |d|
  {
    if |d| == 0 then 0
    else
      assert IsDigit(d[|d| - 1]);
      DigitsValue(d[..|d| - 1]) * 10 + (d[|d| - 1] as int - '0' as int)
  }

  /** `str(n)` for a natural number. */
  function Decimal(n: nat): (d: string)
    ensures |d| > 0 && forall k :: 0 <= k < |d| ==> IsDigit(d[k])
  {
    var last := [('0' as int + n % 10) as char];
    if n < 10 then last else Decimal(n / 10) + last
  }

  /** Reading back a printed number gives the number. */
  lemma {:induction false} DigitsValueDecimal(n: nat)
    ensures DigitsValue(Decimal(n)) == n
  {
    var d := Decimal(n);
    if n >= 10 {
      DigitsValueDecimal(n / 10);
      assert d[..|d| - 1] == Decimal(n / 10);
    }
  }
}
