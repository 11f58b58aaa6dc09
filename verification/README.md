# Job application evaluator — Dafny model

This project models `ApplicationEvaluator.Evaluate`, the decision procedure
that routes a job application to one of five outcomes (`AutoRejected`,
`TransferredToHR`, `TransferredToLead`, `TransferredToCTO`, `AutoAccepted`).
The procedure is a chain of guard clauses, and the first clause that applies
decides:

1. no applicant: an argument-null exception;
2. age below 18: `AutoRejected`;
3. the validator's `ValidationMode` is set to `Detailed` above age 50, else `Quick`;
4. a country other than exactly `"TURKEY"`: `TransferredToCTO`;
5. `IsValid(identityNumber)` false: `TransferredToHR`;
6. tech-stack similarity below 25: `AutoRejected`;
7. otherwise `AutoAccepted`. The rule "similarity above 75 and more than 15
   years of experience" also returns `AutoAccepted`, so experience never
   changes the outcome.

`Evaluate` is a pure function. It takes the form and the collaborator, which
may be null, and it returns an `Evaluation`: the outcome (a value or the
exception) together with an `Effects` record. That record holds the mode
written on the validator, the number of country reads, and the argument of
every `IsValid` call. So "never called" and "called once with the identity
number" are facts about the result.

The collaborator (`IIdentityValidator`, with its nested country provider) is
modelled as data. It holds its current mode, a country oracle `country(mode)`
and an oracle `isValid(mode, number)`. Both oracles receive the mode the
evaluator has just written, because an implementation may read its own
`ValidationMode` when answering.

Similarity rate: the source computes `(int)(double)matchedCount /
techStackList.Count * 100`. The casts bind tighter than `/`, so this is an
integer division by 4, truncated before the multiplication. The model
reproduces that expression. The rate is 0 for fewer than four matches and 100
for four to seven matches, and below the overflow count described next it is
always a multiple of 100. So there rule 6 rejects exactly the stacks with
fewer than four matching entries:
three of the four canonical technologies are rejected (`ThreeOfFourAutoRejected`).
The "percentage" suggested by the code's shape would be 75 there. The model
follows the code as written.

The multiplication by 100 is unchecked C# `int` arithmetic, so it wraps
around modulo 2^32 (`CSharpInt.Wrap32`). From 85,899,348 matching entries on
(`RateOverflowCount`), `matchedCount / 4 * 100` exceeds 2,147,483,647 and the
rate wraps: at exactly that count it is -2,147,483,596, and the application is
`AutoRejected` (`OverflowRejectsLargeStack`). Below that count the rate is a
multiple of 100 and rule 6 means "fewer than four matches"; the contracts
state both regimes.

Matching is case-insensitive (`StringComparer.OrdinalIgnoreCase`), and the
model uses an ASCII upper-case fold for it. Duplicates in the applicant's list
each count.

Files:
- `csharp_int.dfy`: the 32-bit `int` range and unchecked wrap-around.
- `wrappers.dfy`: `Option` (nullable reference) and `Result` (value or exception).
- `models.dfy`: `Applicant` and `JobApplication`.
- `identity_validator.dfy`: `ValidationMode` and the collaborator.
- `ordinal_ignore_case.dfy`: case-insensitive string equality.
- `application_evaluator.dfy`: constants, `ApplicationResult`, matching, the similarity rate, `Evaluate`.
- `evaluator_properties.dfy`: lemmas relating several calls.
- `evaluator_scenarios.dfy`: the unit-test scenarios, one lemma each.

## Model

| member | source | states |
|---|---|---|
| ApplicationEvaluator.Evaluate | JobApplication/ApplicationEvaluator.cs:23-53 | Complete decision table. Argument-null iff no applicant. Null-reference iff an adult is evaluated without a validator. `AutoRejected` iff under 18, or identity accepted with a rate below 25. `TransferredToCTO` iff past the age rule with a validator present and a country (read after the mode write) other than "TURKEY". `TransferredToHR` iff the identity check is reached and fails. `AutoAccepted` iff identity is accepted with a rate of at least 25. Below the overflow count, the rate conditions are "fewer than 4 matches" and "at least 4 matches". Never `TransferredToLead`. The mode is written iff the age rule passes and a validator is present, and it is `Detailed` iff age > 50. The country is read once iff the mode is written. `IsValid` is called once with the identity number iff the age rule passes, a validator is present and its country is "TURKEY", and otherwise never. |
| ApplicationEvaluator.Matching | JobApplication/ApplicationEvaluator.cs:57-59 | The filtered list keeps every occurrence of a matching entry (its multiplicity equals the input's), and it keeps no non-matching entry. It is never longer than the input. |
| ApplicationEvaluator.MatchedCount | JobApplication/ApplicationEvaluator.cs:57-59 | The match count is a natural number no larger than the applicant's list. |
| ApplicationEvaluator.SimilarityRate | JobApplication/ApplicationEvaluator.cs:55-63 | The rate is an `int` congruent modulo 2^32 to `100 * (matchedCount / 4)`. Below 85,899,348 matches it is a non-negative multiple of 100. Four times its hundreds bounds the match count from below, and four times (hundreds + 1) bounds it strictly from above. There it is below 25 iff fewer than 4 entries match. From that count on it differs from the unwrapped product. |
| CSharpInt.Wrap32 | JobApplication/ApplicationEvaluator.cs:61 | The unchecked result lies in the `int` range, is congruent to the mathematical value modulo 2^32, and equals it when it fits. |
| OrdinalIgnoreCase.UpperAscii | JobApplication/ApplicationEvaluator.cs:58 | The folded character is never an ASCII lower-case letter. It is either the character itself or the upper-case letter 32 code points below it. |
| OrdinalIgnoreCase.EqualsIgnoreCaseIsEquivalence | JobApplication/ApplicationEvaluator.cs:58 | The comparer is reflexive, symmetric and transitive, and it only equates strings of equal length. |
| EvaluatorProperties.MatchingAppend | JobApplication/ApplicationEvaluator.cs:57-59 | Filtering distributes over concatenation. |
| EvaluatorProperties.MatchedCountAppend | JobApplication/ApplicationEvaluator.cs:57-59 | The count of a concatenation is the sum of the counts. |
| EvaluatorProperties.MatchedCountSnoc | JobApplication/ApplicationEvaluator.cs:57-59 | Appending one entry adds 1 to the count iff the entry matches a canonical technology. |
| EvaluatorProperties.DuplicatesCountSeparately | JobApplication/ApplicationEvaluator.cs:57-59 | Duplicates are not collapsed: a stack listed twice has twice the count. |
| EvaluatorProperties.FullCountIffAllKnown | JobApplication/ApplicationEvaluator.cs:57-59 | The count equals the list length iff every entry matches. |
| EvaluatorProperties.ZeroCountIffNoneKnown | JobApplication/ApplicationEvaluator.cs:57-59 | The count is zero iff no entry matches. |
| EvaluatorProperties.MatchedCountIgnoresOrder | JobApplication/ApplicationEvaluator.cs:57-59 | Lists with the same multiset of entries have the same count. |
| EvaluatorProperties.MatchingIdempotent | JobApplication/ApplicationEvaluator.cs:57-59 | Filtering the filtered list changes nothing. |
| EvaluatorProperties.ExperienceIrrelevant | JobApplication/ApplicationEvaluator.cs:45-52 | Changing the years of experience changes neither the outcome nor the effects. |
| EvaluatorProperties.OnlyMatchingEntriesMatter | JobApplication/ApplicationEvaluator.cs:43-61 | Dropping the non-matching entries of the stack leaves the whole evaluation unchanged. |
| EvaluatorProperties.AddingTechKeepsAccepted | JobApplication/ApplicationEvaluator.cs:43-52 | Adding entries to the stack of an accepted application keeps it accepted, while the larger stack has fewer than 85,899,348 matches. |
| EvaluatorProperties.OverflowRejectsLargeStack | JobApplication/ApplicationEvaluator.cs:43-46 | At 85,899,348 matches the rate wraps to -2,147,483,596, and an application whose identity is accepted is `AutoRejected`. |
| EvaluatorProperties.OverflowCanRejectLargerStack | JobApplication/ApplicationEvaluator.cs:43-61 | An accepted application with 4 matches becomes `AutoRejected` once further entries bring the count to 85,899,348. |
| EvaluatorProperties.ObservedModeAfterEvaluate | JobApplication/ApplicationEvaluator.cs:30-36 | Past the age rule, the validator afterwards reads `Detailed` iff age > 50, including when the country rule ends the evaluation. Otherwise its mode is unchanged. |
| EvaluatorScenarios.UnderAgeAutoRejected | JobApplicationLibrary.UnitTest/ApplicationEcaluateUnitTest.cs:15-34 | Age 17 with no validator at all is `AutoRejected`, and it has no effects. |
| EvaluatorScenarios.NoTechStackAutoRejected | JobApplicationLibrary.UnitTest/ApplicationEcaluateUnitTest.cs:36-67 | Age 19, "TURKEY", valid identity and the stack `[""]` give `AutoRejected`. |
| EvaluatorScenarios.FullStackAutoAccepted | JobApplicationLibrary.UnitTest/ApplicationEcaluateUnitTest.cs:69-100 | The full canonical stack with 16 years of experience gives `AutoAccepted`. |
| EvaluatorScenarios.InvalidIdentityTransferredToHR | JobApplicationLibrary.UnitTest/ApplicationEcaluateUnitTest.cs:102-130 | "TURKEY" with an oracle that rejects every identity gives `TransferredToHR`. |
| EvaluatorScenarios.OfficeLocationTransferredToCTO | JobApplicationLibrary.UnitTest/ApplicationEcaluateUnitTest.cs:132-157 | "SPAIN" gives `TransferredToCTO`, and `IsValid` is never called. |
| EvaluatorScenarios.Over50ValidationModeDetailed | JobApplicationLibrary.UnitTest/ApplicationEcaluateUnitTest.cs:159-185 | Age 51 with "SPAIN" leaves the validator in `Detailed` mode. |
| EvaluatorScenarios.NullApplicantThrows | JobApplicationLibrary.UnitTest/ApplicationEcaluateUnitTest.cs:186-202 | A form without an applicant fails with argument-null and has no effects, whatever the validator. |
| EvaluatorScenarios.IsValidCalledOnce | JobApplicationLibrary.UnitTest/ApplicationEcaluateUnitTest.cs:204-233 | With "TURKEY", `IsValid` is called exactly once, with "123", whatever the oracle answers. |
| EvaluatorScenarios.YoungAgeIsValidNeverCalled | JobApplicationLibrary.UnitTest/ApplicationEcaluateUnitTest.cs:235-263 | At age 15, `IsValid` is never called. |
| EvaluatorScenarios.ThreeOfFourAutoRejected | JobApplication/ApplicationEvaluator.cs:43-61 | Three of the four canonical technologies give a rate of 0, so the application is `AutoRejected` even with 20 years of experience. |
| EvaluatorScenarios.CaseAndDuplicatesAccepted | JobApplication/ApplicationEvaluator.cs:55-61 | `["c#", "C#", "c#", "C#"]` counts four matches, so the application is `AutoAccepted`. |
| EvaluatorScenarios.LowerCaseCountryTransferredToCTO | JobApplication/ApplicationEvaluator.cs:35-36 | The country comparison is case-sensitive: "turkey" gives `TransferredToCTO`. |

## Left out

- `OrdinalIgnoreCase.EqualsIgnoreCase` folds only `a`-`z`. .NET's comparer equates no non-ASCII character with an ASCII one, so the fold is exact against the canonical entries, which are all ASCII. The model says nothing about comparing two non-ASCII strings.
- Null references other than the applicant and the validator: a null form, a null `TechStackList`, a null identity number, a null country, and null intermediate objects of the country chain.
- Null entries of `TechStackList`: the comparer never equates a string with null, so they never match and dropping them changes nothing (`OnlyMatchingEntriesMatter`).
- The defaults of the `JobApplication` and `Applicant` properties are not modelled; an unset identity number is modelled as the empty string.
- The country chain `CountryDataProvider.CountryData.Country` is one read. Property getters with side effects are not modelled.
- Exceptions thrown by the collaborator itself: `IsValid` is a total oracle.
- Concurrent use of one validator by several evaluations: each call is independent here.
- The `(double)` cast of the match count: it is exact for every `int`, so it is left implicit.
- Lists longer than `int.MaxValue`: .NET cannot hold them and LINQ's `Count()` would fail on such a count; the model's lists are unbounded and its match count is not wrapped.
- The mocking and assertion libraries of the unit tests (strict or loose mocks, default return values). Each test is stated for every collaborator its setup allows.
