/**
 The registration namespace derived from concrete system namespaces. Each
 `...Steps` lemma follows the left-to-right scan of the replacement.
 */
module ControllersCases {
  import opened Strings
  import opened Controllers

  // How the concrete namespaces below are spelt out of their pieces.

  lemma ReplacedSpelling()
    ensures "foo" + SystemSuffix == "foo-system"
    ensures "foo" + ClustersSystemSuffix == "foo-clusters-system"
  {
  }

  lemma SecondOccurrenceSpelling()
    ensures ['-', 'b'] + SystemSuffix == "-b-system"
    ensures ['-', 'b'] + ClustersSystemSuffix == "-b-clusters-system"
  {
  }

  lemma AllOccurrencesSpelling()
    ensures SystemSuffix + "-b-system" == "-system-b-system"
    ensures "a" + "-system-b-system" == "a-system-b-system"
  {
  }

  lemma AllOccurrencesResultSpelling()
    ensures "a" + (ClustersSystemSuffix + "-b-clusters-system") == "a-clusters-system-b-clusters-system"
  {
  }

  lemma ClustersSuffixSpelling()
    ensures "lusters" + SystemSuffix == "lusters-system"
    ensures ['-', 'c'] + "lusters-system" == "-clusters-system"
    ensures ['-', 'c'] + ("lusters" + ClustersSystemSuffix) == "-clusters-clusters-system"
  {
  }

  lemma OwnOutputSpelling()
    ensures "foo" + "-clusters-system" == "foo-clusters-system"
    ensures "foo" + "-clusters-clusters-system" == "foo-clusters-clusters-system"
  {
  }

  lemma SystemSuffixReplaced()
    ensures ReplaceSystem(SystemSuffix) == ClustersSystemSuffix
  {
    ReplaceLeading("");
    assert SystemSuffix + "" == SystemSuffix;
    assert ReplaceSystem("") == "";
  }

  lemma ReplacedCaseSteps()
    ensures ReplaceSystem("foo-system") == "foo-clusters-system"
  {
    SystemSuffixReplaced();
    DashFreeCopied("foo", SystemSuffix);
    ReplacedSpelling();
  }

  /** "foo-system" becomes "foo-clusters-system". */
  lemma ReplacedCase()
    ensures RegistrationNamespace("foo-system") == "foo-clusters-system"
  {
    ReplacedCaseSteps();
  }

  /** Without "-system", the suffix is appended: "foo" and "" as inputs. */
  lemma AppendedCases()
    ensures RegistrationNamespace("foo") == "foo-clusters-system"
    ensures RegistrationNamespace("") == "-clusters-system"
  {
    assert ReplaceSystem("foo") == "foo";
    assert ReplaceSystem("") == "";
  }

  lemma SecondOccurrenceSteps()
    ensures ReplaceSystem("-b-system") == "-b-clusters-system"
  {
    SystemSuffixReplaced();
    CopyDash('b', SystemSuffix);
    SecondOccurrenceSpelling();
  }

  lemma AllOccurrencesCaseSteps()
    ensures ReplaceSystem("a-system-b-system") == "a-clusters-system-b-clusters-system"
  {
    SecondOccurrenceSteps();
    ReplaceLeading("-b-system");
    DashFreeCopied("a", "-system-b-system");
    AllOccurrencesSpelling();
    AllOccurrencesResultSpelling();
  }

  /** Every occurrence is replaced, not only the first. */
  lemma AllOccurrencesCase()
    ensures RegistrationNamespace("a-system-b-system") == "a-clusters-system-b-clusters-system"
  {
    AllOccurrencesCaseSteps();
  }

  lemma ClustersSuffixSteps()
    ensures ReplaceSystem("-clusters-system") == "-clusters-clusters-system"
  {
    SystemSuffixReplaced();
    DashFreeCopied("lusters", SystemSuffix);
    CopyDash('c', "lusters-system");
    ClustersSuffixSpelling();
  }

  lemma OwnOutputCaseSteps()
    ensures ReplaceSystem("foo-clusters-system") == "foo-clusters-clusters-system"
  {
    ClustersSuffixSteps();
    DashFreeCopied("foo", "-clusters-system");
    OwnOutputSpelling();
  }

  /** Fed its own output, the derivation inserts another "-clusters": it is
      not idempotent. */
  lemma OwnOutputCase()
    ensures RegistrationNamespace("foo-clusters-system") == "foo-clusters-clusters-system"
  {
    OwnOutputCaseSteps();
  }
}
