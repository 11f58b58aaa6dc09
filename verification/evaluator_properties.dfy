/** Properties of the tech-stack matching and of `Evaluate` that relate
    several calls: how the match count composes, which inputs the outcome
    ignores, and what the validator holds afterwards. */
module EvaluatorProperties {
  import opened Wrappers
  import opened Models
  import opened IdentityValidator
  import opened ApplicationEvaluator

  /** Filtering distributes over concatenation of the applicant's list. */
  lemma {:induction false} MatchingAppend(a: seq<string>, b: seq<string>)
    ensures Matching(a + b) == Matching(a) + Matching(b)
  {
    if a == [] {
      assert a + b == b;
    } else {
      assert (a + b)[0] == a[0];
      assert (a + b)[1..] == a[1..] + b;
      MatchingAppend(a[1..], b);
    }
  }

  /** The match count of two lists put together is the sum of their counts. */
  lemma MatchedCountAppend(a: seq<string>, b: seq<string>)
    ensures MatchedCount(a + b) == MatchedCount(a) + MatchedCount(b)
  {
    MatchingAppend(a, b);
  }

  /** Adding one entry adds one to the count exactly when the entry matches a
      canonical technology. */
  lemma MatchedCountSnoc(techStacks: seq<string>, s: string)
    ensures MatchedCount(techStacks + [s]) == MatchedCount(techStacks) + (if IsKnownTech(s) then 1 else 0)
  {
    MatchedCountAppend(techStacks, [s]);
    assert [s][1..] == [];
  }

  /** Duplicates are not collapsed: listing the whole stack twice doubles the count. */
  lemma DuplicatesCountSeparately(techStacks: seq<string>)
    ensures MatchedCount(techStacks + techStacks) == 2 * MatchedCount(techStacks)
  {
    MatchedCountAppend(techStacks, techStacks);
  }

  /** Every entry counts exactly when every entry matches. */
  lemma {:induction false} FullCountIffAllKnown(techStacks: seq<string>)
    ensures MatchedCount(techStacks) == |techStacks| <==>
            forall i | 0 <= i < |techStacks| :: IsKnownTech(techStacks[i])
  {
    if techStacks != [] {
      var rest := techStacks[1..];
      FullCountIffAllKnown(rest);
      if IsKnownTech(techStacks[0]) {
        assert MatchedCount(techStacks) == 1 + MatchedCount(rest);
        if forall i | 0 <= i < |rest| :: IsKnownTech(rest[i]) {
          assert forall i | 0 <= i < |techStacks| :: IsKnownTech(techStacks[i]) by {
            forall i | 0 <= i < |techStacks| ensures IsKnownTech(techStacks[i]) {
              if i > 0 { assert techStacks[i] == rest[i - 1]; }
            }
          }
        } else {
          var j :| 0 <= j < |rest| && !IsKnownTech(rest[j]);
          assert techStacks[j + 1] == rest[j];
        }
      } else {
        assert MatchedCount(techStacks) == MatchedCount(rest);
      }
    }
  }

  /** The count is zero exactly when no entry matches. */
  lemma ZeroCountIffNoneKnown(techStacks: seq<string>)
    ensures MatchedCount(techStacks) == 0 <==>
            forall i | 0 <= i < |techStacks| :: !IsKnownTech(techStacks[i])
  {
  }

  /** The order of the applicant's list does not matter to the count. */
  lemma MatchedCountIgnoresOrder(a: seq<string>, b: seq<string>)
    requires multiset(a) == multiset(b)
    ensures MatchedCount(a) == MatchedCount(b)
  {
    assert multiset(Matching(a)) == multiset(Matching(b)) by {
      forall s ensures multiset(Matching(a))[s] == multiset(Matching(b))[s] {
        if IsKnownTech(s) {
          assert multiset(Matching(a))[s] == multiset(a)[s];
        }
      }
    }
    assert |multiset(Matching(a))| == |Matching(a)|;
    assert |multiset(Matching(b))| == |Matching(b)|;
  }

  /** Filtering twice is filtering once: the matches all match. */
  lemma {:induction false} MatchingIdempotent(techStacks: seq<string>)
    ensures Matching(Matching(techStacks)) == Matching(techStacks)
  {
    if techStacks != [] {
      var rest := techStacks[1..];
      MatchingIdempotent(rest);
      if IsKnownTech(techStacks[0]) {
        var r := [techStacks[0]] + Matching(rest);
        assert r[0] == techStacks[0] && r[1..] == Matching(rest);
      }
    }
  }

  /** Years of experience never change the outcome or the effects: the one
      rule that reads them returns the same result as the rule after it. */
  lemma ExperienceIrrelevant(form: JobApplication, validator: Option<Validator>, years: int)
    ensures Evaluate(form.(yearsOfExperience := years), validator) == Evaluate(form, validator)
  {
  }

  /** Only the matching entries of the tech stack matter: dropping every
      non-matching entry leaves the evaluation unchanged. */
  lemma OnlyMatchingEntriesMatter(form: JobApplication, validator: Option<Validator>)
    ensures Evaluate(form.(techStackList := Matching(form.techStackList)), validator) == Evaluate(form, validator)
  {
    MatchingIdempotent(form.techStackList);
  }

  /** Listing more technologies never turns an accepted application into
      anything else, as long as the larger stack stays below the count at
      which the rate wraps around (see `OverflowCanRejectLargerStack`). */
  lemma AddingTechKeepsAccepted(form: JobApplication, validator: Option<Validator>, extra: seq<string>)
    requires Evaluate(form, validator).outcome == Success(AutoAccepted)
    requires MatchedCount(form.techStackList + extra) < RateOverflowCount
    ensures Evaluate(form.(techStackList := form.techStackList + extra), validator).outcome == Success(AutoAccepted)
  {
    MatchedCountAppend(form.techStackList, extra);
  }

  /** At `RateOverflowCount` matches the unchecked product `21,474,837 * 100`
      wraps to a negative rate, so an application that passes every other rule
      is rejected. */
  lemma OverflowRejectsLargeStack(form: JobApplication, validator: Option<Validator>)
    requires MatchedCount(form.techStackList) == RateOverflowCount
    ensures SimilarityRate(form.techStackList) == -2_147_483_596
    ensures IdentityAccepted(form, validator) ==> Evaluate(form, validator).outcome == Success(AutoRejected)
  {
  }

  /** The wrap-around breaks monotonicity: an accepted application with four
      matches is rejected once enough further matching entries are listed. */
  lemma OverflowCanRejectLargerStack(form: JobApplication, validator: Option<Validator>, extra: seq<string>)
    requires IdentityAccepted(form, validator)
    requires MatchedCount(form.techStackList) == |TechStackList|
    requires MatchedCount(extra) == RateOverflowCount - |TechStackList|
    ensures Evaluate(form, validator).outcome == Success(AutoAccepted)
    ensures Evaluate(form.(techStackList := form.techStackList + extra), validator).outcome == Success(AutoRejected)
  {
    MatchedCountAppend(form.techStackList, extra);
    OverflowRejectsLargeStack(form.(techStackList := form.techStackList + extra), validator);
  }

  /** What a caller reads from the validator's `ValidationMode` afterwards:
      the mode chosen by age once the age rule has passed, even when the
      country rule then ends the evaluation; otherwise whatever it held. */
  lemma ObservedModeAfterEvaluate(form: JobApplication, v: Validator)
    ensures var e := Evaluate(form, Some(v));
            if form.applicant.Some? && form.applicant.value.age >= MinAge then
              (ObservedMode(v, e.effects) == Detailed <==> form.applicant.value.age > DetailedModeAge)
            else
              ObservedMode(v, e.effects) == v.mode
  {
  }
}
