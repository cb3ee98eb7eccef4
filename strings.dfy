/**
 A model of Go's `strings.ReplaceAll`, the one library call the
 registration-namespace derivation makes, together with `strings.Count`,
 which Go's replacement uses to find how many occurrences to replace, and
 `strings.Contains`, which the properties below are stated with. A Go string
 is modelled as a sequence of runes (`seq<char>`).
 */
module Strings {

  /** `p` occurs in `s` starting at index `i`. */
  predicate OccursAt(s: string, p: string, i: int)
  {
    0 <= i && i + |p| <= |s| && s[i..i + |p|] == p
  }

  /** `strings.Contains(s, p)`: `p` occurs somewhere in `s`. */
  predicate Contains(s: string, p: string)
  {
    exists i | 0 <= i <= |s| - |p| :: OccursAt(s, p, i)
  }

  /** `strings.Count(s, p)`: the number of non-overlapping occurrences of `p`
      found by a left-to-right scan; for an empty `p`, one more than the
      number of runes. */
  function Count(s: string, p: string): (n: nat)
    decreases |s|
  {
    if |p| == 0 then |s| + 1
    else if |s| < |p| then 0
    else if s[..|p|] == p then 1 + Count(s[|p|..], p)
    else Count(s[1..], p)
  }

  /** The number of positions at which `p` occurs in `s`, overlapping ones
      included. An independent reference for `Count`. */
  function OccurrenceCount(s: string, p: string): (n: nat)
    requires |p| > 0
    decreases |s|
  {
    if |s| < |p| then 0
    else (if s[..|p|] == p then 1 else 0) + OccurrenceCount(s[1..], p)
  }

  /** `p` has no proper border: no proper suffix of `p` is also a prefix of
      it, so two occurrences of `p` can never overlap. */
  predicate BorderFree(p: string)
  {
    forall j :: 0 < j < |p| ==> p[j..] != p[..|p| - j]
  }

  /** `strings.ReplaceAll(s, old, new)`, with `pat` for `old` and `rep` for
      `new`: scanning left to right, every
      non-overlapping occurrence of `pat` is replaced by `rep`. For an empty
      `pat`, `rep` is inserted before every rune and at the end. */
  function ReplaceAll(s: string, pat: string, rep: string): (r: string)
    decreases |s|
  {
    if |pat| == 0 then
      if |s| == 0 then rep else rep + [s[0]] + ReplaceAll(s[1..], pat, rep)
    else if |s| < |pat| then s
    else if s[..|pat|] == pat then rep + ReplaceAll(s[|pat|..], pat, rep)
    else [s[0]] + ReplaceAll(s[1..], pat, rep)
  }

  /** An occurrence keeps its place relative to the end when text is put in front. */
  lemma OccursAtShift(s: string, p: string, i: int, prefix: string)
    requires OccursAt(s, p, i)
    ensures OccursAt(prefix + s, p, i + |prefix|)
  {
    assert (prefix + s)[i + |prefix|..i + |prefix| + |p|] == s[i..i + |p|];
  }

  /** An occurrence in a tail is an occurrence in the whole string. */
  lemma OccursAtTail(s: string, p: string, i: int, k: nat)
    requires k <= |s|
    requires OccursAt(s[k..], p, i)
    ensures OccursAt(s, p, i + k)
  {
    assert s[k..][i..i + |p|] == s[i + k..i + k + |p|];
  }

  /** When `Count` is positive, an occurrence exists; the witness is returned. */
  lemma {:induction false} FindOccurrence(s: string, p: string) returns (i: nat)
    requires Count(s, p) > 0
    ensures OccursAt(s, p, i)
    decreases |s|
  {
    if |p| == 0 {
      i := 0;
    } else if s[..|p|] == p {
      i := 0;
    } else {
      var j := FindOccurrence(s[1..], p);
      OccursAtTail(s, p, j, 1);
      i := j + 1;
    }
  }

  /** Any occurrence of `p` makes `Count` positive. */
  lemma {:induction false} OccurrenceMakesCountPositive(s: string, p: string, i: int)
    requires OccursAt(s, p, i)
    ensures Count(s, p) > 0
    decreases |s|
  {
    if |p| != 0 && s[..|p|] != p {
      assert i != 0;
      assert s[1..][i - 1..i - 1 + |p|] == s[i..i + |p|];
      OccurrenceMakesCountPositive(s[1..], p, i - 1);
    }
  }

  /** `Count` is zero exactly when `p` does not occur in `s`. */
  lemma CountZeroIffAbsent(s: string, p: string)
    ensures Count(s, p) == 0 <==> !Contains(s, p)
  {
    if Count(s, p) > 0 {
      var i := FindOccurrence(s, p);
    }
    if Contains(s, p) {
      var i :| OccursAt(s, p, i);
      OccurrenceMakesCountPositive(s, p, i);
    }
  }

  /** With no occurrence to replace, `ReplaceAll` returns its input unchanged. */
  lemma {:induction false} ReplaceAllWithoutMatch(s: string, pat: string, rep: string)
    requires |pat| > 0 && Count(s, pat) == 0
    ensures ReplaceAll(s, pat, rep) == s
    decreases |s|
  {
    if |s| >= |pat| {
      ReplaceAllWithoutMatch(s[1..], pat, rep);
      assert [s[0]] + s[1..] == s;
    }
  }

  /** Every replacement changes the length by `|rep| - |pat|`. */
  lemma {:induction false} ReplaceAllLength(s: string, pat: string, rep: string)
    ensures |ReplaceAll(s, pat, rep)| == |s| + Count(s, pat) * (|rep| - |pat|)
    decreases |s|
  {
    var d := |rep| - |pat|;
    if |pat| == 0 {
      if |s| > 0 {
        ReplaceAllLength(s[1..], pat, rep);
        assert (|s| + 1) * d == |s| * d + d;
      }
    } else if |s| >= |pat| {
      if s[..|pat|] == pat {
        ReplaceAllLength(s[|pat|..], pat, rep);
        assert (1 + Count(s[|pat|..], pat)) * d == d + Count(s[|pat|..], pat) * d;
      } else {
        ReplaceAllLength(s[1..], pat, rep);
      }
    }
  }

  /** If `pat` occurs in `s`, then `rep` occurs in the result. */
  lemma {:induction false} ReplaceAllContainsNew(s: string, pat: string, rep: string)
    requires Contains(s, pat)
    ensures Contains(ReplaceAll(s, pat, rep), rep)
    decreases |s|
  {
    var r := ReplaceAll(s, pat, rep);
    if |pat| == 0 || s[..|pat|] == pat {
      assert r[..|rep|] == rep;
      assert OccursAt(r, rep, 0);
    } else {
      var i :| OccursAt(s, pat, i);
      assert OccursAt(s, pat, i);
      assert 0 <= i;
      assert i != 0;
      assert s[1..][i - 1..i - 1 + |pat|] == s[i..i + |pat|];
      assert OccursAt(s[1..], pat, i - 1);
      ReplaceAllContainsNew(s[1..], pat, rep);
      var j :| OccursAt(ReplaceAll(s[1..], pat, rep), rep, j);
      OccursAtShift(ReplaceAll(s[1..], pat, rep), rep, j, [s[0]]);
    }
  }

  /** In a border-free pattern, an occurrence at 0 rules out one at `i`, `0 < i < |p|`. */
  lemma NoOverlap(s: string, p: string, i: int)
    requires BorderFree(p) && |s| >= |p| && s[..|p|] == p
    requires 0 < i < |p|
    ensures !OccursAt(s, p, i)
  {
    assert p[i..] == s[i..|p|];
    if OccursAt(s, p, i) {
      assert false;
    }
  }

  /** After an occurrence at 0 of a border-free `p`, positions 1 .. j-1 hold none. */
  lemma {:induction false} SkipOccurrence(s: string, p: string, j: int)
    requires |p| > 0 && BorderFree(p) && |s| >= |p| && s[..|p|] == p
    requires 1 <= j <= |p|
    ensures OccurrenceCount(s[1..], p) == OccurrenceCount(s[j..], p)
    decreases j
  {
    if j > 1 {
      SkipOccurrence(s, p, j - 1);
      NoOverlap(s, p, j - 1);
      var t := s[j - 1..];
      if |t| >= |p| {
        assert t[..|p|] == s[j - 1..j - 1 + |p|];
        assert t[1..] == s[j..];
      }
    }
  }

  /** For a border-free pattern, the left-to-right non-overlapping count used
      by `ReplaceAll` equals the number of all occurrences. */
  lemma {:induction false} CountIsOccurrenceCount(s: string, p: string)
    requires |p| > 0 && BorderFree(p)
    ensures Count(s, p) == OccurrenceCount(s, p)
    decreases |s|
  {
    if |s| >= |p| {
      if s[..|p|] == p {
        CountIsOccurrenceCount(s[|p|..], p);
        SkipOccurrence(s, p, |p|);
      } else {
        CountIsOccurrenceCount(s[1..], p);
      }
    }
  }

  // Sequence facts used when a scan is followed one character at a time.

  lemma PrefixHead(r: string, w: string)
    requires 0 < |w| <= |r| && r[..|w|] == w
    ensures r[0] == w[0]
  {
    assert r[..|w|][0] == r[0];
  }

  lemma PrefixOfCons(r: string, c: char, rt: string, w: string)
    requires r == [c] + rt && 0 < |w| <= |r| && r[..|w|] == w
    ensures |rt| >= |w| - 1 && rt[..|w| - 1] == w[1..]
  {
    assert r[..|w|][1..] == rt[..|w| - 1];
  }

  lemma ConsOfPrefix(y: string, w: string)
    requires 0 < |y| && 0 < |w| && y[0] == w[0]
    requires |y[1..]| >= |w| - 1 && y[1..][..|w| - 1] == w[1..]
    ensures |y| >= |w| && y[..|w|] == w && y[1..][|w| - 1..] == y[|w|..]
  {
    assert y[..|w|] == [y[0]] + y[1..][..|w| - 1];
    assert w == [w[0]] + w[1..];
  }

  lemma ConsAppend(w: string, x: string)
    requires |w| > 0
    ensures [w[0]] + (w[1..] + x) == w + x
  {
    assert w == [w[0]] + w[1..];
  }
}
