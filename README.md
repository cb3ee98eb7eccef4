# Registration namespace of the fleet controller

The fleet controller runs in a *system namespace*. It keeps cluster
registrations in a second namespace, the *registration namespace*, which
`registrationNamespace` in `pkg/controllers/controllers.go` computes from the
system namespace:

1. it replaces every occurrence of `"-system"` with `"-clusters-system"`
   (Go's `strings.ReplaceAll`);
2. if that left the string unchanged, it returns the system namespace with
   `"-clusters-system"` appended instead.

This project models that function and the parts of Go's `strings` package it
relies on, and proves what the derivation guarantees.

- `strings.dfy`, module `Strings`: `OccursAt`, `Contains`, `Count` (Go's
  left-to-right non-overlapping count) and `ReplaceAll` (Go's left-to-right
  non-overlapping replacement, including the empty-pattern case), over
  `string` (a sequence of runes). It also defines `OccurrenceCount`, which
  counts every position where the pattern occurs, as an independent reference,
  and `BorderFree`, which says that two occurrences of a pattern cannot overlap.
- `controllers.dfy`, module `Controllers`: `RegistrationNamespace` with its
  properties. These are the branch condition, the exact length, that the result
  always holds the suffix, and that the replacement can be undone.
- `controllers_cases.dfy`, module `ControllersCases`: the results for concrete
  system namespaces.

Four consequences of the code that are easy to get wrong:

- `strings.ReplaceAll` replaces every occurrence of `"-system"`, not only the
  first: `"a-system-b-system"` becomes `"a-clusters-system-b-clusters-system"`
  (`ControllersCases.AllOccurrencesCase`).
- Applied to its own output the derivation is not idempotent, because the
  replacement text itself contains `"-system"`: `"foo-clusters-system"`
  becomes `"foo-clusters-clusters-system"` (`ControllersCases.OwnOutputCase`).
- The result differs from the input for every input, not only for inputs that
  hold `"-system"` once (`Controllers.RegistrationNamespace`).
- Two system namespaces can share one registration namespace: `"foo"` and
  `"foo-system"` both give `"foo-clusters-system"`
  (`Controllers.AppendedCollidesWithReplaced`). Within one branch, the
  derivation is injective (`Controllers.RegistrationNamespaceInjectiveWithinBranch`).

## Model

| member | source | states |
|---|---|---|
| `Controllers.RegistrationNamespace` | pkg/controllers/controllers.go:57-63 | the registration namespace is strictly longer than the system namespace, so it is never equal to it and never empty |
| `Controllers.ReplacementKeepsOrGrows` | pkg/controllers/controllers.go:58 | the replacement of "-system" by "-clusters-system" either leaves the namespace unchanged or makes it longer |
| `Controllers.ReplacementUnchangedIffAbsent` | pkg/controllers/controllers.go:58-59 | the equality test at line 59 holds exactly when "-system" does not occur in the system namespace |
| `Controllers.RegistrationNamespaceBranches` | pkg/controllers/controllers.go:58-62 | the result is the input followed by "-clusters-system" if and only if "-system" is absent; when it is present, the result is the input with every occurrence replaced and nothing appended |
| `Controllers.RegistrationNamespaceLength` | pkg/controllers/controllers.go:58-62 | with k occurrences of "-system" (counted at every position), the length grows by 9·k when k ≥ 1 and by 16 when k = 0 |
| `Controllers.RegistrationNamespaceContainsSuffix` | pkg/controllers/controllers.go:58-62 | the result always contains "-clusters-system" and therefore "-system" |
| `Controllers.SystemSuffixBorderFree` | pkg/controllers/controllers.go:58 | no proper suffix of "-system" is a prefix of it, so its occurrences never overlap |
| `Controllers.FirstCharCopied` | pkg/controllers/controllers.go:58 | when the replacement starts with a character other than '-', that character came from the input unchanged and the scan continues at the next character |
| `Controllers.DashFreePrefix` | pkg/controllers/controllers.go:58 | if the replacement starts with a word without '-', the input starts with the same word, and the word is copied unchanged |
| `Controllers.NeverStartsWithSystemSuffix` | pkg/controllers/controllers.go:58 | the replacement never starts with "-system" |
| `Controllers.InsertedAfterClusters` | pkg/controllers/controllers.go:58 | putting "-clusters-system" in front of a string whose every "-system" ends a "-clusters-system" keeps that property |
| `Controllers.InsertedAfterChar` | pkg/controllers/controllers.go:58 | putting one character in front keeps that property, unless the result starts with "-system" |
| `Controllers.EverySystemSuffixIsInserted` | pkg/controllers/controllers.go:58 | every "-system" in the replacement lies at position 9 or later and ends an inserted "-clusters-system" |
| `Controllers.NoClustersPrefix` | pkg/controllers/controllers.go:58 | if the input does not start with "-system", the replacement does not start with "-clusters-system" |
| `Controllers.ReplaceAllRoundTrip` | pkg/controllers/controllers.go:58 | replacing "-clusters-system" by "-system" in the replacement gives back the input, so the replacement loses no information |
| `Controllers.SystemNamespaceRecoverable` | pkg/controllers/controllers.go:57-63 | a registration namespace r has at most two possible system namespaces: r with "-clusters-system" replaced back by "-system" (the right one when the input held "-system"), and r without its last 16 characters (the right one otherwise) |
| `Controllers.RegistrationNamespaceInjectiveWithinBranch` | pkg/controllers/controllers.go:57-63 | two system namespaces that agree on whether they hold "-system" and give the same registration namespace are equal |
| `Controllers.AppendedCollidesWithReplaced` | pkg/controllers/controllers.go:57-63 | for every s without "-system", s and s + "-system" give the same registration namespace, so the derivation is not injective |
| `Controllers.ReplaceBeforeSuffix` | pkg/controllers/controllers.go:58 | a string without "-system" followed by one "-system" has only that final occurrence replaced |
| `Controllers.DashFreeCopied` | pkg/controllers/controllers.go:58 | a prefix without '-' contains no occurrence, so the replacement copies it unchanged |
| `Controllers.ReplaceLeading` | pkg/controllers/controllers.go:58 | an occurrence at the front is replaced by "-clusters-system" and the scan resumes after it |
| `Controllers.CopyDash` | pkg/controllers/controllers.go:58 | a '-' followed by a character other than 's' or '-' is copied unchanged |
| `Strings.FindOccurrence` | pkg/controllers/controllers.go:58 | when the count of occurrences is positive, an occurrence exists, and the lemma returns its position |
| `Strings.OccurrenceMakesCountPositive` | pkg/controllers/controllers.go:58 | any occurrence of the pattern makes the count positive |
| `Strings.CountZeroIffAbsent` | pkg/controllers/controllers.go:58-59 | the number of replacements is zero exactly when the pattern does not occur |
| `Strings.ReplaceAllWithoutMatch` | pkg/controllers/controllers.go:58-59 | with no occurrence of a non-empty pattern, the replacement returns its input unchanged |
| `Strings.ReplaceAllLength` | pkg/controllers/controllers.go:58 | the length of the result is the input's length plus the count times (length of replacement − length of pattern) |
| `Strings.ReplaceAllContainsNew` | pkg/controllers/controllers.go:58 | if the pattern occurs in the input, the replacement text occurs in the result |
| `Strings.NoOverlap` | pkg/controllers/controllers.go:58 | an occurrence of a border-free pattern at 0 rules out another occurrence that starts inside it |
| `Strings.SkipOccurrence` | pkg/controllers/controllers.go:58 | after an occurrence of a border-free pattern, no occurrence starts inside it |
| `Strings.CountIsOccurrenceCount` | pkg/controllers/controllers.go:58 | for a border-free pattern, the left-to-right non-overlapping count equals the number of positions where it occurs |
| `ControllersCases.ReplacedCase` | pkg/controllers/controllers.go:57-63 | "foo-system" becomes "foo-clusters-system" |
| `ControllersCases.AppendedCases` | pkg/controllers/controllers.go:59-61 | "foo" becomes "foo-clusters-system" and "" becomes "-clusters-system" |
| `ControllersCases.AllOccurrencesCase` | pkg/controllers/controllers.go:58 | "a-system-b-system" becomes "a-clusters-system-b-clusters-system": every occurrence is replaced |
| `ControllersCases.OwnOutputCase` | pkg/controllers/controllers.go:57-63 | "foo-clusters-system" becomes "foo-clusters-clusters-system": the derivation applied to its own output is not idempotent |

## Left out

- The `appContext` struct and its `start` method (`start.All` with at most 50 concurrent starts): these are client handles and concurrent startup inside an external library.
- `Register`: it makes a fixed sequence of calls into controller packages that are not part of this model, with cache-type sets passed to an applier whose behaviour is external. The model does cover the derivation it calls at line 71, whose result it passes to `addData` at line 73 and on at lines 96 and 134.
- Leader election (`leader.RunOrDie`) and the fatal log that ends the process: these are cross-process coordination and termination.
- `newContext`: it builds client factories, the applier and the target manager through foreign library calls. Its only logic is returning the first error.
- Determinism of the derivation: Dafny functions are deterministic, so no separate statement is needed.
- `Strings.ReplaceAll` treats a string as a sequence of runes. It does not model Go's byte-level UTF-8 representation or how invalid UTF-8 is handled when the pattern is empty.
