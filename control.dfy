/** `strip_ansi`: removal of ANSI CSI sequences (`ESC [ digits/; letter`)
    followed by removal of every C0 control character and DEL except TAB, LF
    and CR, applied to the analyzer's captured output. */
module Control {
  import opened Text

  const ESC: char := '\U{1B}'

  /** A character of `[0-9;]`. */
  predicate IsCsiParam(c: char) { IsDigit(c) || c == ';' }

  /** A character of `[a-zA-Z]`. */
  predicate IsAsciiLetter(c: char) { ('a' <= c <= 'z') || ('A' <= c <= 'Z') }

  /** `t` is exactly one sequence `\x1b\[[0-9;]*[a-zA-Z]`. */
  predicate IsCsi(t: string) {
    |t| >= 3 && t[0] == ESC && t[1] == '[' && IsAsciiLetter(t[|t| - 1])
    && forall k :: 2 <= k < |t| - 1 ==> IsCsiParam(t[k])
  }

  /** The length of the CSI sequence that `s` begins with, if it begins with one.
      The parameter run is disjoint from the final letter, so greedy matching
      never backtracks and at most one prefix qualifies. */
  function CsiPrefix(s: string): (n: Option<nat>)
    ensures n.Some? ==> n.value <= |s| && IsCsi(s[..n.value])
    ensures n.None? ==> forall e :: 0 <= e <= |s| ==> !IsCsi(s[..e])
  {
    if |s| >= 2 && s[0] == ESC && s[1] == '[' then
      var j := RunEnd(s, 2, IsCsiParam);
      RunEndKeeps(s, 2, IsCsiParam);
      if j < |s| && IsAsciiLetter(s[j]) then
        assert s[..j + 1][..j] == s[..j];
        Some(j + 1)
      else
        assert forall e :: 0 <= e <= |s| && IsCsi(s[..e]) ==> e - 1 == j by {
          forall e | 0 <= e <= |s| && IsCsi(s[..e]) ensures e - 1 == j {
          }
        }
        None
    else None
  }

  /** The first substitution, `re.sub(r'\x1b\[[0-9;]*[a-zA-Z]', '', s)`: scanning
      left to right, a sequence starting here is dropped and the scan resumes
      after it; otherwise the character is kept. */
  function RemoveCsi(s: string): (r: string)
    ensures |r| <= |s|
    decreases |s|
  {
    if |s| == 0 then ""
    else match CsiPrefix(s)
      case Some(n) => RemoveCsi(s[n..])
      case None => [s[0]] + RemoveCsi(s[1..])
  }

  /** `[\x00-\x08\x0b\x0c\x0e-\x1f\x7f]`: the C0 controls and DEL, less TAB, LF and CR. */
  predicate IsControl(c: char) {
    var n := c as int;
    n <= 8 || n == 11 || n == 12 || (14 <= n <= 31) || n == 127
  }

  /** The second substitution: every control character is deleted. */
  function RemoveControl(s: string): (r: string)
    ensures forall k :: 0 <= k < |r| ==> !IsControl(r[k])
    ensures (forall k :: 0 <= k < |s| ==> !IsControl(s[k])) ==> r == s
    decreases |s|
  {
    if |s| == 0 then ""
    else if IsControl(s[0]) then RemoveControl(s[1..])
    else [s[0]] + RemoveControl(s[1..])
  }

  /** `strip_ansi(s)`. Its result holds no ESC and no other control character. */
  function StripAnsi(s: string): (r: string)
    ensures forall k :: 0 <= k < |r| ==> !IsControl(r[k]) && r[k] != ESC
  {
    RemoveControl(RemoveCsi(s))
  }

  /** The number of occurrences of `c` in `s`. */
  function Count(s: string, c: char): nat
    decreases |s|
  {
    if |s| == 0 then 0 else (if s[0] == c then 1 else 0) + Count(s[1..], c)
  }

  lemma {:induction false} CountAppend(a: string, b: string, c: char)
    ensures Count(a + b, c) == Count(a, c) + Count(b, c)
    decreases |a|
  {
    if |a| > 0 {
      assert (a + b)[1..] == a[1..] + b;
      CountAppend(a[1..], b, c);
    } else {
      assert a + b == b;
    }
  }

  /** A character that cannot be part of an escape sequence is never counted in one. */
  lemma {:induction false} CountInCsi(t: string, c: char)
    requires IsCsi(t)
    requires c != ESC && c != '[' && !IsCsiParam(c) && !IsAsciiLetter(c)
    ensures Count(t, c) == 0
  {
    var i := |t|;
    while i > 0
      invariant 0 <= i <= |t|
      invariant Count(t[i..], c) == 0
    {
      i := i - 1;
      assert t[i..][1..] == t[i + 1..];
    }
  }

  /** Text without ESC holds no sequence, so nothing is removed from it. */
  lemma {:induction false} RemoveCsiNoEsc(s: string)
    requires ESC !in s
    ensures RemoveCsi(s) == s
    decreases |s|
  {
    if |s| > 0 {
      RemoveCsiNoEsc(s[1..]);
    }
  }

  /** A sequence at the front of the text is recognised in full, whatever follows it. */
  lemma CsiPrefixOf(t: string, b: string)
    requires IsCsi(t)
    ensures CsiPrefix(t + b) == Some(|t|)
  {
    var s := t + b;
    forall k | 2 <= k < |t| - 1 ensures IsCsiParam(s[k]) {
      assert s[k] == t[k];
    }
    assert s[|t| - 1] == t[|t| - 1];
    RunEndIs(s, 2, |t| - 1, IsCsiParam);
  }

  /** A sequence is deleted: the scan resumes right after its final letter. */
  lemma RemoveCsiDrops(t: string, b: string)
    requires IsCsi(t)
    ensures RemoveCsi(t + b) == RemoveCsi(b)
  {
    CsiPrefixOf(t, b);
    assert (t + b)[|t|..] == b;
  }

  /** Text without ESC in front of the rest passes through, and the scan carries
      on with the rest unchanged. */
  lemma {:induction false} RemoveCsiKeepsPlain(a: string, b: string)
    requires ESC !in a
    ensures RemoveCsi(a + b) == a + RemoveCsi(b)
    decreases |a|
  {
    if |a| == 0 {
      assert a + b == b;
    } else {
      var s := a + b;
      assert s[0] == a[0];
      assert s[1..] == a[1..] + b;
      RemoveCsiKeepsPlain(a[1..], b);
      assert a == [a[0]] + a[1..];
    }
  }

  /** Escape-sequence removal never deletes a character outside the sequences'
      alphabet: in particular every TAB, LF and CR survives it. */
  lemma {:induction false} RemoveCsiKeeps(s: string, c: char)
    requires c != ESC && c != '[' && !IsCsiParam(c) && !IsAsciiLetter(c)
    ensures Count(RemoveCsi(s), c) == Count(s, c)
    decreases |s|
  {
    if |s| > 0 {
      match CsiPrefix(s)
      case Some(n) =>
        RemoveCsiKeeps(s[n..], c);
        CountInCsi(s[..n], c);
        CountAppend(s[..n], s[n..], c);
        assert s[..n] + s[n..] == s;
      case None =>
        RemoveCsiKeeps(s[1..], c);
        CountAppend([s[0]], RemoveCsi(s[1..]), c);
    }
  }

  /** Control removal keeps every character that is not a control character. */
  lemma {:induction false} RemoveControlKeeps(s: string, c: char)
    requires !IsControl(c)
    ensures Count(RemoveControl(s), c) == Count(s, c)
    decreases |s|
  {
    if |s| > 0 {
      RemoveControlKeeps(s[1..], c);
      if !IsControl(s[0]) {
        CountAppend([s[0]], RemoveControl(s[1..]), c);
      }
    }
  }

  /** Control removal works character by character, so it splits over a concatenation. */
  lemma {:induction false} RemoveControlAppend(a: string, b: string)
    ensures RemoveControl(a + b) == RemoveControl(a) + RemoveControl(b)
    decreases |a|
  {
    if |a| == 0 {
      assert a + b == b;
    } else {
      assert (a + b)[0] == a[0];
      assert (a + b)[1..] == a[1..] + b;
      RemoveControlAppend(a[1..], b);
    }
  }

  /** `strip_ansi` deletes an escape sequence wherever it stands: the plain text
      before it only loses its control characters, and the rest is filtered on
      its own. */
  lemma StripAnsiDropsSequence(a: string, t: string, b: string)
    requires ESC !in a && IsCsi(t)
    ensures StripAnsi(a + t + b) == RemoveControl(a) + StripAnsi(b)
  {
    assert a + t + b == a + (t + b);
    RemoveCsiKeepsPlain(a, t + b);
    RemoveCsiDrops(t, b);
    RemoveControlAppend(a, RemoveCsi(b));
  }

  /** TAB, LF and CR pass through `strip_ansi` untouched: the output holds
      exactly as many of each as the input. */
  lemma StripAnsiKeepsLayout(s: string, c: char)
    requires c == '\t' || c == '\n' || c == '\r'
    ensures Count(StripAnsi(s), c) == Count(s, c)
  {
    RemoveCsiKeeps(s, c);
    RemoveControlKeeps(RemoveCsi(s), c);
  }

  /** Text without control characters is left as it is. */
  lemma StripAnsiClean(s: string)
    requires forall k :: 0 <= k < |s| ==> !IsControl(s[k])
    ensures StripAnsi(s) == s
  {
    assert ESC !in s by {
      if ESC in s {
        var k :| 0 <= k < |s| && s[k] == ESC;
        assert IsControl(s[k]);
      }
    }
    RemoveCsiNoEsc(s);
  }

  /** A colour code in front of a word is removed: `"\x1b[31mred"` becomes `"red"`. */
  lemma StripAnsiColouredWord()
    ensures StripAnsi([ESC, '[', '3', '1', 'm'] + "red") == "red"
  {
    var t := [ESC, '[', '3', '1', 'm'];
    assert IsCsi(t);
    StripAnsiDropsSequence("", t, "red");
    assert "" + t + "red" == t + "red";
    StripAnsiClean("red");
  }

  /** Applying `strip_ansi` twice is applying it once. */
  lemma StripAnsiIdempotent(s: string)
    ensures StripAnsi(StripAnsi(s)) == StripAnsi(s)
  {
    StripAnsiClean(StripAnsi(s));
  }

  /** The escape-sequence pass alone is not idempotent: removing an inner
      sequence can join an ESC and "[" with a later letter. The control pass
      that follows it deletes that ESC, which is what makes the whole filter
      idempotent. */
  lemma RemoveCsiAloneNotIdempotent()
    ensures RemoveCsi([ESC, '[', ESC, '[', '1', 'm', 'A']) == [ESC, '[', 'A']
    ensures RemoveCsi([ESC, '[', 'A']) == []
  {
    var s := [ESC, '[', ESC, '[', '1', 'm', 'A'];
    assert CsiPrefix(s).None? by {
      assert RunEnd(s, 2, IsCsiParam) == 2;
    }
    assert s[1..] == ['[', ESC, '[', '1', 'm', 'A'];
    assert CsiPrefix(s[1..]).None?;
    var u := s[1..][1..];
    assert u == [ESC, '[', '1', 'm', 'A'];
    assert RunEnd(u, 2, IsCsiParam) == 3 by {
      assert RunEnd(u, 3, IsCsiParam) == 3;
    }
    assert CsiPrefix(u) == Some(4);
    assert u[4..] == ['A'];
    assert CsiPrefix(['A']).None?;
    assert RemoveCsi(['A']) == ['A'] by {
      assert ['A'][1..] == [];
    }
    assert RemoveCsi(u) == ['A'];
    assert RemoveCsi(s[1..]) == ['['] + RemoveCsi(u);
    assert RemoveCsi(s) == [ESC] + RemoveCsi(s[1..]);
    var t := [ESC, '[', 'A'];
    assert RunEnd(t, 2, IsCsiParam) == 2;
    assert CsiPrefix(t) == Some(3);
    assert t[3..] == [];
  }
}
