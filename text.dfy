/**
 * Python's string primitives as the tool uses them: `str.strip()`,
 * `str.lower()` and `str.replace(old, new)`.
 * Strings are sequences of code points (`seq<char>`).
 */
module Text {

  /** The characters for which Python's `str.isspace()` holds. */
  predicate IsSpace(c: char) {
    c == ' ' || ('\t' <= c <= '\r') || ('\U{1c}' <= c <= '\U{1f}')
    || c == '\U{85}' || c == '\U{a0}' || c == '\U{1680}'
    || ('\U{2000}' <= c <= '\U{200a}') || c == '\U{2028}' || c == '\U{2029}'
    || c == '\U{202f}' || c == '\U{205f}' || c == '\U{3000}'
  }

  /** A string that `strip()` leaves alone: no white space at either end. */
  predicate IsStripped(s: string) {
    s == [] || (!IsSpace(s[0]) && !IsSpace(s[|s| - 1]))
  }

  /** `s.lstrip()`: the suffix of `s` left after dropping leading white space. */
  function TrimStart(s: string): (r: string)
    ensures |r| <= |s| && r == s[|s| - |r|..]
    ensures forall i | 0 <= i < |s| - |r| :: IsSpace(s[i])
    ensures r == [] || !IsSpace(r[0])
  {
    if s != [] && IsSpace(s[0]) then TrimStart(s[1..]) else s
  }

  /** `s.rstrip()`: the prefix of `s` left after dropping trailing white space. */
  function TrimEnd(s: string): (r: string)
    ensures |r| <= |s| && r == s[..|r|]
    ensures forall i | |r| <= i < |s| :: IsSpace(s[i])
    ensures r == [] || !IsSpace(r[|r| - 1])
  {
    if s != [] && IsSpace(s[|s| - 1]) then TrimEnd(s[..|s| - 1]) else s
  }

  /** Number of white-space characters `strip()` removes from the front. */
  function LeadingSpace(s: string): nat
  {
    |s| - |TrimStart(s)|
  }

  /**
   * `s.strip()`: the one slice of `s` that starts and ends with a
   * non-space character, every character outside it being white space.
   */
  function Strip(s: string): (r: string)
    ensures IsStripped(r)
    ensures LeadingSpace(s) + |r| <= |s|
    ensures r == s[LeadingSpace(s)..LeadingSpace(s) + |r|]
    ensures forall i | 0 <= i < |s| && !(LeadingSpace(s) <= i < LeadingSpace(s) + |r|) :: IsSpace(s[i])
  {
    var t := TrimStart(s);
    var r := TrimEnd(t);
    assert r == [] || !IsSpace(r[0]) by {
      if r != [] { assert r[0] == t[0]; }
    }
    r
  }

  /** `strip()` is the identity exactly on stripped strings, so it is idempotent. */
  lemma StripFixedPoint(s: string)
    ensures Strip(s) == s <==> IsStripped(s)
    ensures Strip(Strip(s)) == Strip(s)
  {
    if IsStripped(s) {
      assert TrimStart(s) == s;
      assert TrimEnd(s) == s;
    }
    var r := Strip(s);
    assert TrimStart(r) == r;
    assert TrimEnd(r) == r;
  }

  /** A string of white space only strips to the empty string, and only such a string does. */
  lemma StripEmptyIff(s: string)
    ensures Strip(s) == [] <==> forall i | 0 <= i < |s| :: IsSpace(s[i])
  {
  }

  /** Python's `str.lower()` on one character (ASCII letters only; see README). */
  function LowerChar(c: char): char
  {
    if 'A' <= c <= 'Z' then (c as int - 'A' as int + 'a' as int) as char else c
  }

  /** `s.lower()`: same length, each character lowered on its own. */
  function Lower(s: string): (r: string)
    ensures |r| == |s|
    ensures forall i | 0 <= i < |s| :: r[i] == LowerChar(s[i])
    ensures forall i | 0 <= i < |r| :: !('A' <= r[i] <= 'Z')
  {
    if s == [] then [] else [LowerChar(s[0])] + Lower(s[1..])
  }

  /** Lowering twice is lowering once. */
  lemma LowerIdempotent(s: string)
    ensures Lower(Lower(s)) == Lower(s)
  {
  }

  /** `pat` occurs in `s` starting at index `i`. */
  predicate OccursAt(s: string, pat: string, i: nat)
  {
    i + |pat| <= |s| && s[i..i + |pat|] == pat
  }

  /** Python's `pat in s`; the empty pattern occurs in every string. */
  predicate Contains(s: string, pat: string)
  {
    exists i: nat | i <= |s| :: OccursAt(s, pat, i)
  }

  /**
   * Python's `s.replace(pat, rep)`: every non-overlapping occurrence of
   * `pat`, found left to right, is replaced by `rep`, and the scan resumes
   * after the occurrence, so text that `rep` brings in is never re-scanned.
   * The empty pattern matches before every character and at the end.
   */
  function Replace(s: string, pat: string, rep: string): string
    decreases |s|
  {
    if pat == [] then
      if s == [] then rep else rep + [s[0]] + Replace(s[1..], pat, rep)
    else if s == [] then []
    else if pat <= s then rep + Replace(s[|pat|..], pat, rep)
    else [s[0]] + Replace(s[1..], pat, rep)
  }

  /** The number of replacements `Replace` makes. */
  function Count(s: string, pat: string): nat
    decreases |s|
  {
    if pat == [] then |s| + 1
    else if s == [] then 0
    else if pat <= s then 1 + Count(s[|pat|..], pat)
    else Count(s[1..], pat)
  }

  /** Each replacement changes the length by `|rep| - |pat|`. */
  lemma {:induction false} ReplaceLength(s: string, pat: string, rep: string)
    ensures |Replace(s, pat, rep)| == |s| + Count(s, pat) * (|rep| - |pat|)
    decreases |s|
  {
    var d := |rep| - |pat|;
    if pat == [] {
      if s != [] {
        ReplaceLength(s[1..], pat, rep);
        assert (|s| + 1) * d == d + |s| * d;
      }
    } else if s == [] {
    } else if pat <= s {
      ReplaceLength(s[|pat|..], pat, rep);
      assert (1 + Count(s[|pat|..], pat)) * d == d + Count(s[|pat|..], pat) * d;
    } else {
      ReplaceLength(s[1..], pat, rep);
    }
  }

  /** An occurrence of `pat` after the first character is an occurrence in `s[1..]`. */
  lemma ContainsTail(s: string, pat: string, i: nat)
    requires s != [] && 1 <= i && OccursAt(s, pat, i)
    ensures OccursAt(s[1..], pat, i - 1)
  {
    assert s[1..][i - 1..i - 1 + |pat|] == s[i..i + |pat|];
  }

  /** An occurrence in `s[1..]` is an occurrence in `s`, one place later. */
  lemma ContainsShift(s: string, pat: string, i: nat)
    requires s != [] && OccursAt(s[1..], pat, i)
    ensures OccursAt(s, pat, i + 1)
  {
    assert s[i + 1..i + 1 + |pat|] == s[1..][i..i + |pat|];
  }

  /** `Replace` replaces something exactly when `pat` occurs. */
  lemma {:induction false} CountPositiveIff(s: string, pat: string)
    ensures Count(s, pat) > 0 <==> Contains(s, pat)
    decreases |s|
  {
    if pat == [] {
      assert OccursAt(s, pat, 0);
    } else if s == [] {
    } else if pat <= s {
      assert OccursAt(s, pat, 0);
    } else {
      CountPositiveIff(s[1..], pat);
      if Contains(s, pat) {
        var i: nat :| OccursAt(s, pat, i);
        assert i != 0;
        ContainsTail(s, pat, i);
      }
      if Contains(s[1..], pat) {
        var i: nat :| i <= |s[1..]| && OccursAt(s[1..], pat, i);
        ContainsShift(s, pat, i);
      }
    }
  }

  /** Replacing a pattern by itself changes nothing. */
  lemma {:induction false} ReplaceBySelf(s: string, pat: string)
    ensures Replace(s, pat, pat) == s
    decreases |s|
  {
    if pat == [] {
      if s != [] { ReplaceBySelf(s[1..], pat); }
    } else if s == [] {
    } else if pat <= s {
      ReplaceBySelf(s[|pat|..], pat);
      assert s == pat + s[|pat|..];
    } else {
      ReplaceBySelf(s[1..], pat);
      assert s == [s[0]] + s[1..];
    }
  }

  /** A replacement by a different string of the same length shows. */
  lemma {:induction false} ReplaceSameLengthChanges(s: string, pat: string, rep: string)
    requires Contains(s, pat) && rep != pat && |rep| == |pat|
    ensures Replace(s, pat, rep) != s
    decreases |s|
  {
    var i: nat :| OccursAt(s, pat, i);
    assert pat != [] && s != [];
    var r := Replace(s, pat, rep);
    if pat <= s {
      assert r[..|pat|] == rep;
      assert s[..|pat|] == pat;
    } else {
      assert i != 0;
      ContainsTail(s, pat, i);
      ReplaceSameLengthChanges(s[1..], pat, rep);
      assert r == [s[0]] + Replace(s[1..], pat, rep);
      assert r[1..] == Replace(s[1..], pat, rep);
    }
  }

  /**
   * `s.replace(pat, rep) == s` holds exactly when `pat` does not occur in
   * `s` or `rep` is `pat` itself: the test `_replace_in_paragraph` uses to
   * decide whether to touch a paragraph.
   */
  lemma ReplaceUnchangedIff(s: string, pat: string, rep: string)
    ensures Replace(s, pat, rep) == s <==> !Contains(s, pat) || rep == pat
  {
    CountPositiveIff(s, pat);
    ReplaceLength(s, pat, rep);
    if rep == pat {
      ReplaceBySelf(s, pat);
    } else if Contains(s, pat) {
      if |rep| == |pat| {
        ReplaceSameLengthChanges(s, pat, rep);
      } else {
        NonZeroProduct(Count(s, pat), |rep| - |pat|);
      }
    } else {
      assert Count(s, pat) == 0;
      ReplaceNoMatch(s, pat, rep);
    }
  }

  lemma NonZeroProduct(a: int, b: int)
    requires a > 0 && b != 0
    ensures a * b != 0
  {
  }

  /** With no occurrence of `pat`, `Replace` is the identity. */
  lemma {:induction false} ReplaceNoMatch(s: string, pat: string, rep: string)
    requires !Contains(s, pat)
    ensures Replace(s, pat, rep) == s
    decreases |s|
  {
    assert OccursAt(s, pat, 0) == (pat <= s);
    if s != [] {
      if Contains(s[1..], pat) {
        var i: nat :| i <= |s[1..]| && OccursAt(s[1..], pat, i);
        ContainsShift(s, pat, i);
      }
      ReplaceNoMatch(s[1..], pat, rep);
      assert s == [s[0]] + s[1..];
    }
  }

  /**
   * A prefix that cannot start an occurrence (it lacks the pattern's first
   * character) passes through `Replace` unchanged.
   */
  lemma {:induction false} ReplaceAfterPrefix(a: string, b: string, pat: string, rep: string)
    requires pat != [] && pat[0] !in a
    ensures Replace(a + b, pat, rep) == a + Replace(b, pat, rep)
    decreases |a|
  {
    if a != [] {
      var s := a + b;
      assert s[0] == a[0];
      assert !(pat <= s);
      assert s[1..] == a[1..] + b;
      ReplaceAfterPrefix(a[1..], b, pat, rep);
      calc {
        Replace(s, pat, rep);
        [s[0]] + Replace(s[1..], pat, rep);
        [a[0]] + (a[1..] + Replace(b, pat, rep));
        { assert a == [a[0]] + a[1..]; }
        a + Replace(b, pat, rep);
      }
    } else {
      assert a + b == b;
    }
  }

  /** An occurrence at the front is replaced and the scan resumes after it. */
  lemma ReplaceAtFront(pat: string, rest: string, rep: string)
    requires pat != []
    ensures Replace(pat + rest, pat, rep) == rep + Replace(rest, pat, rep)
  {
    assert (pat + rest)[|pat|..] == rest;
  }

  /**
   * The scan does not look again at what it put in: a pattern replaced by
   * a value that contains the pattern is replaced once.
   */
  lemma ReplaceDoesNotRescan(pat: string, rep: string)
    requires pat != []
    ensures Replace(pat, pat, rep) == rep
  {
    ReplaceAtFront(pat, [], rep);
    assert pat + [] == pat;
  }

  /** A front character that does not start an occurrence is copied. */
  lemma ReplaceSkipsFront(c: char, rest: string, pat: string, rep: string)
    requires pat != [] && !(pat <= [c] + rest)
    ensures Replace([c] + rest, pat, rep) == [c] + Replace(rest, pat, rep)
  {
    assert ([c] + rest)[1..] == rest;
  }

  /** Replacing one character by one character works position by position. */
  lemma {:induction false} ReplaceCharPointwise(s: string, c: char, d: char)
    ensures |Replace(s, [c], [d])| == |s|
    ensures forall i | 0 <= i < |s| :: Replace(s, [c], [d])[i] == (if s[i] == c then d else s[i])
    decreases |s|
  {
    if s != [] {
      ReplaceCharPointwise(s[1..], c, d);
      var r := Replace(s, [c], [d]);
      if [c] <= s {
        assert s[0] == c;
        assert s[|[c]|..] == s[1..];
        assert r == [d] + Replace(s[1..], [c], [d]);
      } else {
        assert r == [s[0]] + Replace(s[1..], [c], [d]);
      }
    }
  }

  /** A character that is not part of the pattern survives `Replace`. */
  lemma {:induction false} ReplaceKeepsForeignChars(s: string, pat: string, rep: string, i: nat)
    requires pat != [] && i < |s| && s[i] !in pat
    ensures s[i] in Replace(s, pat, rep)
    decreases |s|
  {
    var r := Replace(s, pat, rep);
    if pat <= s {
      if i >= |pat| {
        assert s[|pat|..][i - |pat|] == s[i];
        ReplaceKeepsForeignChars(s[|pat|..], pat, rep, i - |pat|);
        assert r == rep + Replace(s[|pat|..], pat, rep);
      }
    } else if i == 0 {
      assert r[0] == s[0];
    } else {
      assert s[1..][i - 1] == s[i];
      ReplaceKeepsForeignChars(s[1..], pat, rep, i - 1);
      assert r == [s[0]] + Replace(s[1..], pat, rep);
    }
  }
}
