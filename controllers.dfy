/**
 The registration-namespace derivation of the fleet controller process: the
 namespace in which cluster registrations are kept is derived from the
 namespace the controller itself runs in (the system namespace).
 */
module Controllers {
  import opened Strings

  /** The pattern looked for in the system namespace. */
  const SystemSuffix: string := "-system"

  /** What the pattern is replaced by, or appended when it is absent. */
  const ClustersSystemSuffix: string := "-clusters-system"

  /** The replacement made by `registrationNamespace` (`strings.ReplaceAll`
      with the fixed pattern and replacement), before the fallback. */
  function ReplaceSystem(s: string): string
  {
    ReplaceAll(s, SystemSuffix, ClustersSystemSuffix)
  }

  /** `registrationNamespace`: every "-system" becomes "-clusters-system";
      when there was none, "-clusters-system" is appended instead. */
  function RegistrationNamespace(systemNamespace: string): (r: string)
    ensures |r| > |systemNamespace|
    ensures r != systemNamespace
  {
    var replaced := ReplaceSystem(systemNamespace);
    ReplacementKeepsOrGrows(systemNamespace);
    if replaced == systemNamespace then systemNamespace + ClustersSystemSuffix else replaced
  }

  /** The replacement either changes nothing or makes the namespace longer. */
  lemma ReplacementKeepsOrGrows(s: string)
    ensures var x := ReplaceSystem(s); x == s || |x| > |s|
  {
    ReplaceAllLength(s, SystemSuffix, ClustersSystemSuffix);
    if Count(s, SystemSuffix) == 0 {
      ReplaceAllWithoutMatch(s, SystemSuffix, ClustersSystemSuffix);
    }
  }

  /** Two occurrences of "-system" never overlap. */
  lemma SystemSuffixBorderFree()
    ensures BorderFree(SystemSuffix)
  {
    forall j | 0 < j < |SystemSuffix|
      ensures SystemSuffix[j..] != SystemSuffix[..|SystemSuffix| - j]
    {
      assert SystemSuffix[j..][0] == SystemSuffix[j] != '-';
    }
  }

  /** The replacement leaves the namespace unchanged exactly when "-system"
      does not occur in it: the condition of the fallback branch. */
  lemma ReplacementUnchangedIffAbsent(s: string)
    ensures ReplaceSystem(s) == s <==> !Contains(s, SystemSuffix)
  {
    CountZeroIffAbsent(s, SystemSuffix);
    ReplaceAllLength(s, SystemSuffix, ClustersSystemSuffix);
    if Count(s, SystemSuffix) == 0 {
      ReplaceAllWithoutMatch(s, SystemSuffix, ClustersSystemSuffix);
    }
  }

  /** The suffix is appended exactly when "-system" is absent; otherwise the
      result is the replacement of every occurrence and nothing is appended. */
  lemma RegistrationNamespaceBranches(s: string)
    ensures RegistrationNamespace(s) == s + ClustersSystemSuffix <==> !Contains(s, SystemSuffix)
    ensures Contains(s, SystemSuffix) ==>
      RegistrationNamespace(s) == ReplaceSystem(s)
  {
    ReplacementUnchangedIffAbsent(s);
    CountZeroIffAbsent(s, SystemSuffix);
    ReplaceAllLength(s, SystemSuffix, ClustersSystemSuffix);
    var k := Count(s, SystemSuffix);
    if k > 0 {
      assert 9 * k != 16 by {
        if k == 1 { } else { assert 9 * k >= 18; }
      }
    }
  }

  /** With k occurrences of "-system" (all of them, overlapping or not), the
      result is 9 * k longer when k > 0, and 16 longer when k = 0. */
  lemma RegistrationNamespaceLength(s: string)
    ensures var k := OccurrenceCount(s, SystemSuffix);
      |RegistrationNamespace(s)| == |s| + (if k == 0 then |ClustersSystemSuffix| else 9 * k)
  {
    SystemSuffixBorderFree();
    CountIsOccurrenceCount(s, SystemSuffix);
    RegistrationNamespaceBranches(s);
    CountZeroIffAbsent(s, SystemSuffix);
    ReplaceAllLength(s, SystemSuffix, ClustersSystemSuffix);
    var k := Count(s, SystemSuffix);
    assert k * (|ClustersSystemSuffix| - |SystemSuffix|) == 9 * k;
  }

  /** The result always contains "-clusters-system", hence also "-system". */
  lemma RegistrationNamespaceContainsSuffix(s: string)
    ensures Contains(RegistrationNamespace(s), ClustersSystemSuffix)
    ensures Contains(RegistrationNamespace(s), SystemSuffix)
  {
    var r := RegistrationNamespace(s);
    RegistrationNamespaceBranches(s);
    var i: int;
    if Contains(s, SystemSuffix) {
      ReplaceAllContainsNew(s, SystemSuffix, ClustersSystemSuffix);
      i :| OccursAt(r, ClustersSystemSuffix, i);
    } else {
      i := |s|;
      assert r[i..i + |ClustersSystemSuffix|] == ClustersSystemSuffix;
    }
    assert OccursAt(r, ClustersSystemSuffix, i);
    assert r[i + 9..i + 16] == r[i..i + 16][9..] == SystemSuffix;
    assert OccursAt(r, SystemSuffix, i + 9);
  }

  // The lemmas below show that replacing "-system" by "-clusters-system"
  // loses nothing: replacing "-clusters-system" back by "-system" restores
  // the input.

  /** A first character other than '-' is copied, and the scan moves on by one. */
  lemma FirstCharCopied(y: string)
    requires |ReplaceSystem(y)| > 0 && ReplaceSystem(y)[0] != '-'
    ensures |y| > 0 && ReplaceSystem(y) == [y[0]] + ReplaceSystem(y[1..])
  {
    if |y| < |SystemSuffix| {
      assert ReplaceSystem(y[1..]) == y[1..];
      assert y == [y[0]] + y[1..];
    } else {
      assert y[..|SystemSuffix|] != SystemSuffix;
    }
  }

  /** If the replacement starts with a word free of '-', so does its input,
      and the word is copied through unchanged. */
  lemma {:induction false} DashFreePrefix(y: string, w: string)
    requires '-' !in w
    requires |ReplaceSystem(y)| >= |w| && ReplaceSystem(y)[..|w|] == w
    ensures |y| >= |w| && y[..|w|] == w
    ensures ReplaceSystem(y) == w + ReplaceSystem(y[|w|..])
    decreases |w|
  {
    if |w| > 0 {
      var r := ReplaceSystem(y);
      assert w[0] in w;
      PrefixHead(r, w);
      FirstCharCopied(y);
      var tail := y[1..];
      PrefixOfCons(r, y[0], ReplaceSystem(tail), w);
      assert forall c :: c in w[1..] ==> c in w;
      DashFreePrefix(tail, w[1..]);
      ConsOfPrefix(y, w);
      ConsAppend(w, ReplaceSystem(y[|w|..]));
    }
  }

  /** The replacement never starts with "-system". */
  lemma NeverStartsWithSystemSuffix(x: string)
    ensures !(|ReplaceSystem(x)| >= |SystemSuffix| && ReplaceSystem(x)[..|SystemSuffix|] == SystemSuffix)
  {
    if |x| >= |SystemSuffix| {
      if x[..|SystemSuffix|] == SystemSuffix {
        assert ReplaceSystem(x)[1] == 'c' != SystemSuffix[1];
      } else if |ReplaceSystem(x)| >= |SystemSuffix| && ReplaceSystem(x)[..|SystemSuffix|] == SystemSuffix {
        assert ReplaceSystem(x) == [x[0]] + ReplaceSystem(x[1..]);
        assert ReplaceSystem(x)[1..|SystemSuffix|] == ReplaceSystem(x[1..])[..6];
        assert SystemSuffix[1..] == "system";
        DashFreePrefix(x[1..], "system");
        assert false;
      }
    }
  }

  /** An occurrence of "-system" in the text after a prefix is one in the whole. */
  lemma OccursAfterPrefix(pre: string, t: string, i: int)
    requires OccursAt(pre + t, SystemSuffix, i) && i >= |pre|
    ensures OccursAt(t, SystemSuffix, i - |pre|)
  {
    assert (pre + t)[i..i + |SystemSuffix|] == t[i - |pre|..i - |pre| + |SystemSuffix|];
  }

  /** Every "-system" in `r` is the end of a "-clusters-system". */
  ghost predicate SuffixesInserted(r: string)
  {
    forall i :: OccursAt(r, SystemSuffix, i) ==> i >= 9 && OccursAt(r, ClustersSystemSuffix, i - 9)
  }

  /** Putting "-clusters-system" in front keeps `SuffixesInserted`. */
  lemma InsertedAfterClusters(rest: string)
    requires SuffixesInserted(rest)
    ensures SuffixesInserted(ClustersSystemSuffix + rest)
  {
    var P, Q := SystemSuffix, ClustersSystemSuffix;
    var r := Q + rest;
    forall i | OccursAt(r, P, i)
      ensures i >= 9 && OccursAt(r, Q, i - 9)
    {
      if i >= |Q| {
        OccursAfterPrefix(Q, rest, i);
        OccursAtShift(rest, Q, i - |Q| - 9, Q);
      } else {
        assert r[i] == Q[i] == '-';
        assert r[i + 1] == P[1] && r[1] == Q[1];
        assert i == 9;
        assert r[..|Q|] == Q;
      }
    }
  }

  /** Putting one character in front keeps `SuffixesInserted`, unless the
      result starts with "-system". */
  lemma InsertedAfterChar(c: char, rest: string)
    requires SuffixesInserted(rest)
    requires !OccursAt([c] + rest, SystemSuffix, 0)
    ensures SuffixesInserted([c] + rest)
  {
    var r := [c] + rest;
    forall i | OccursAt(r, SystemSuffix, i)
      ensures i >= 9 && OccursAt(r, ClustersSystemSuffix, i - 9)
    {
      OccursAfterPrefix([c], rest, i);
      OccursAtShift(rest, ClustersSystemSuffix, i - 10, [c]);
    }
  }

  /** Every "-system" in the replacement ends an inserted "-clusters-system". */
  lemma {:induction false} EverySystemSuffixIsInserted(x: string)
    ensures SuffixesInserted(ReplaceSystem(x))
    decreases |x|
  {
    var P := SystemSuffix;
    if |x| < |P| {
      assert ReplaceSystem(x) == x;
      assert forall i :: !OccursAt(x, P, i);
    } else if x[..|P|] == P {
      EverySystemSuffixIsInserted(x[|P|..]);
      InsertedAfterClusters(ReplaceSystem(x[|P|..]));
    } else {
      EverySystemSuffixIsInserted(x[1..]);
      NeverStartsWithSystemSuffix(x);
      assert ReplaceSystem(x) == [x[0]] + ReplaceSystem(x[1..]);
      InsertedAfterChar(x[0], ReplaceSystem(x[1..]));
    }
  }

  /** When the input does not start with "-system", the replacement does not
      start with "-clusters-system". */
  lemma NoClustersPrefix(s: string)
    requires !(|s| >= |SystemSuffix| && s[..|SystemSuffix|] == SystemSuffix)
    ensures !(|ReplaceSystem(s)| >= |ClustersSystemSuffix| && ReplaceSystem(s)[..|ClustersSystemSuffix|] == ClustersSystemSuffix)
  {
    if |ReplaceSystem(s)| >= |ClustersSystemSuffix| && ReplaceSystem(s)[..|ClustersSystemSuffix|] == ClustersSystemSuffix {
      if |s| < |SystemSuffix| {
        assert false;
      } else {
        assert ReplaceSystem(s) == [s[0]] + ReplaceSystem(s[1..]);
        assert ReplaceSystem(s)[1..9] == ReplaceSystem(s[1..])[..8];
        assert ClustersSystemSuffix[1..9] == "clusters";
        DashFreePrefix(s[1..], "clusters");
        assert ReplaceSystem(s[1..][8..])[..|SystemSuffix|] == ReplaceSystem(s)[9..16];
        NeverStartsWithSystemSuffix(s[1..][8..]);
        assert false;
      }
    }
  }

  /** Replacing "-clusters-system" by "-system" undoes `ReplaceSystem`. */
  lemma {:induction false} ReplaceAllRoundTrip(s: string)
    ensures ReplaceAll(ReplaceSystem(s), ClustersSystemSuffix, SystemSuffix) == s
    decreases |s|
  {
    var P, Q := SystemSuffix, ClustersSystemSuffix;
    if |s| < |P| {
      assert ReplaceSystem(s) == s;
    } else if s[..|P|] == P {
      ReplaceAllRoundTrip(s[|P|..]);
      var t := Q + ReplaceSystem(s[|P|..]);
      assert t[..|Q|] == Q && t[|Q|..] == ReplaceSystem(s[|P|..]);
      assert s == P + s[|P|..];
    } else {
      ReplaceAllRoundTrip(s[1..]);
      NoClustersPrefix(s);
      var t := [s[0]] + ReplaceSystem(s[1..]);
      assert ReplaceSystem(s) == t;
      if |t| < |Q| {
        assert ReplaceAll(ReplaceSystem(s[1..]), Q, P) == ReplaceSystem(s[1..]);
      } else {
        assert t[1..] == ReplaceSystem(s[1..]);
      }
      assert s == [s[0]] + s[1..];
    }
  }

  /** A registration namespace has at most two system namespaces it can come
      from: the one obtained by undoing the replacement (the input held
      "-system"), and the one obtained by dropping the last 16 characters
      (it did not). Which of the two applies is not visible in the result. */
  lemma SystemNamespaceRecoverable(s: string)
    ensures var r := RegistrationNamespace(s);
      if Contains(s, SystemSuffix) then ReplaceAll(r, ClustersSystemSuffix, SystemSuffix) == s
      else |r| >= |ClustersSystemSuffix| && r[..|r| - |ClustersSystemSuffix|] == s
    ensures var r := RegistrationNamespace(s);
      s == ReplaceAll(r, ClustersSystemSuffix, SystemSuffix) || s == r[..|r| - |ClustersSystemSuffix|]
  {
    RegistrationNamespaceBranches(s);
    ReplaceAllRoundTrip(s);
  }

  /** Two system namespaces that agree on whether they hold "-system" and
      give the same registration namespace are equal. */
  lemma RegistrationNamespaceInjectiveWithinBranch(s: string, t: string)
    requires RegistrationNamespace(s) == RegistrationNamespace(t)
    requires Contains(s, SystemSuffix) <==> Contains(t, SystemSuffix)
    ensures s == t
  {
    SystemNamespaceRecoverable(s);
    SystemNamespaceRecoverable(t);
    RegistrationNamespaceLength(s);
    RegistrationNamespaceLength(t);
    RegistrationNamespaceBranches(s);
    RegistrationNamespaceBranches(t);
    if !Contains(s, SystemSuffix) {
      var r := RegistrationNamespace(s);
      assert s == r[..|r| - |ClustersSystemSuffix|] == t;
    }
  }

  /** Across the two branches the derivation is not injective: a namespace
      without "-system" and the same namespace with "-system" appended share
      one registration namespace. */
  lemma AppendedCollidesWithReplaced(s: string)
    requires !Contains(s, SystemSuffix)
    ensures Contains(s + SystemSuffix, SystemSuffix)
    ensures RegistrationNamespace(s + SystemSuffix) == RegistrationNamespace(s)
  {
    assert OccursAt(s + SystemSuffix, SystemSuffix, |s|);
    ReplaceBeforeSuffix(s);
    RegistrationNamespaceBranches(s);
    RegistrationNamespaceBranches(s + SystemSuffix);
  }

  /** A string without "-system" followed by one "-system": only that final
      occurrence is replaced. */
  lemma {:induction false} ReplaceBeforeSuffix(a: string)
    requires !Contains(a, SystemSuffix)
    ensures ReplaceSystem(a + SystemSuffix) == a + ClustersSystemSuffix
    decreases |a|
  {
    var P, Q := SystemSuffix, ClustersSystemSuffix;
    var t := a + P;
    if |a| == 0 {
      assert t == P + "";
      ReplaceLeading("");
      assert ReplaceSystem("") == "";
      assert Q + "" == Q;
    } else {
      if |a| >= |P| {
        assert t[..|P|] == a[..|P|];
        assert !OccursAt(a, P, 0);
      } else {
        assert t[|a|] == '-';
        assert P[|a|] != '-';
      }
      assert t[..|P|] != P;
      assert ReplaceSystem(t) == [t[0]] + ReplaceSystem(t[1..]);
      assert t[1..] == a[1..] + P;
      if Contains(a[1..], P) {
        var i :| OccursAt(a[1..], P, i);
        OccursAtTail(a, P, i, 1);
        assert false;
      }
      ReplaceBeforeSuffix(a[1..]);
      assert a == [a[0]] + a[1..];
    }
  }

  /** A prefix free of '-' holds no occurrence and is copied unchanged. */
  lemma {:induction false} DashFreeCopied(a: string, b: string)
    requires '-' !in a
    ensures ReplaceSystem(a + b) == a + ReplaceSystem(b)
    decreases |a|
  {
    if |a| == 0 {
      assert a + b == b;
    } else {
      var t := a + b;
      if |t| < |SystemSuffix| {
        assert ReplaceSystem(t) == t;
        assert ReplaceSystem(b) == b;
      } else {
        assert t[0] == a[0] != '-';
        assert t[..|SystemSuffix|] != SystemSuffix;
        assert ReplaceSystem(t) == [t[0]] + ReplaceSystem(t[1..]);
        assert t[1..] == a[1..] + b;
        assert forall c :: c in a[1..] ==> c in a;
        DashFreeCopied(a[1..], b);
        assert a == [a[0]] + a[1..];
        assert ReplaceSystem(t) == [a[0]] + (a[1..] + ReplaceSystem(b));
      }
    }
  }

  /** An occurrence at the front is replaced and the scan resumes after it. */
  lemma ReplaceLeading(b: string)
    ensures ReplaceSystem(SystemSuffix + b) == ClustersSystemSuffix + ReplaceSystem(b)
  {
    var t := SystemSuffix + b;
    assert t[..|SystemSuffix|] == SystemSuffix && t[|SystemSuffix|..] == b;
  }

  /** A '-' not followed by "system" is copied unchanged. */
  lemma CopyDash(c: char, b: string)
    requires c != 's' && c != '-'
    ensures ReplaceSystem(['-', c] + b) == ['-', c] + ReplaceSystem(b)
  {
    var t := ['-', c] + b;
    if |t| >= |SystemSuffix| {
      assert t[1] != SystemSuffix[1];
      assert t[1..] == [c] + b;
      DashFreeCopied([c], b);
    } else {
      assert ReplaceSystem(b) == b;
    }
  }
}
