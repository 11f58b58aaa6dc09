/** The unit-test scenarios of the evaluator, each stated for every
    collaborator the test's mock setup allows, plus three scenarios that show
    the case rules and the truncated similarity rate. */
module EvaluatorScenarios {
  import opened Wrappers
  import opened Models
  import opened IdentityValidator
  import opened OrdinalIgnoreCase
  import opened ApplicationEvaluator

  /** An application from an applicant with the given age and identity number
      and otherwise default fields. */
  function FormOf(age: int, identityNumber: string, techStacks: seq<string>, years: int): JobApplication
  {
    JobApplication(Some(Applicant(age, identityNumber)), techStacks, years)
  }

  /** A 17-year-old is rejected even when no validator was supplied at all,
      and nothing is done to a validator. */
  lemma UnderAgeAutoRejected()
    ensures Evaluate(FormOf(17, "", [], 0), None) == Evaluation(Success(AutoRejected), NoEffects)
  {
  }

  /** An adult whose only tech-stack entry is empty is rejected. */
  lemma NoTechStackAutoRejected(v: Validator)
    requires forall m :: v.country(m) == "TURKEY"
    requires forall m, n :: v.isValid(m, n)
    ensures Evaluate(FormOf(19, "", [""], 0), Some(v)).outcome == Success(AutoRejected)
  {
  }

  /** The full canonical stack with sixteen years of experience is accepted. */
  lemma FullStackAutoAccepted(v: Validator)
    requires forall m :: v.country(m) == "TURKEY"
    requires forall m, n :: v.isValid(m, n)
    ensures Evaluate(FormOf(19, "", TechStackList, 16), Some(v)).outcome == Success(AutoAccepted)
  {
  }

  /** An identity the validator rejects sends the application to HR. */
  lemma InvalidIdentityTransferredToHR(v: Validator)
    requires forall m :: v.country(m) == "TURKEY"
    requires forall m, n :: !v.isValid(m, n)
    ensures Evaluate(FormOf(19, "", [], 0), Some(v)).outcome == Success(TransferredToHR)
  {
  }

  /** A country other than the home country goes to the CTO, and `IsValid` is
      never called. */
  lemma OfficeLocationTransferredToCTO(v: Validator)
    requires forall m :: v.country(m) == "SPAIN"
    ensures Evaluate(FormOf(19, "", [], 0), Some(v)).outcome == Success(TransferredToCTO)
    ensures Evaluate(FormOf(19, "", [], 0), Some(v)).effects.isValidCalls == []
  {
  }

  /** A 51-year-old leaves the validator in `Detailed` mode, although the
      country rule ends the evaluation. */
  lemma Over50ValidationModeDetailed(v: Validator)
    requires forall m :: v.country(m) == "SPAIN"
    ensures ObservedMode(v, Evaluate(FormOf(51, "", [], 0), Some(v)).effects) == Detailed
  {
  }

  /** A form without an applicant fails with an argument-null error and
      touches nothing. */
  lemma NullApplicantThrows(validator: Option<Validator>)
    ensures Evaluate(JobApplication(None, [], 0), validator) == Evaluation(Failure(ArgumentNull), NoEffects)
  {
  }

  /** With the home country, `IsValid` is called exactly once, with the
      applicant's identity number, whatever it answers. */
  lemma IsValidCalledOnce(v: Validator)
    requires forall m :: v.country(m) == "TURKEY"
    ensures Evaluate(FormOf(19, "123", [], 0), Some(v)).effects.isValidCalls == ["123"]
  {
  }

  /** For a 15-year-old `IsValid` is never called. */
  lemma YoungAgeIsValidNeverCalled(v: Validator)
    ensures Evaluate(FormOf(15, "", [], 0), Some(v)).effects.isValidCalls == []
  {
  }

  /** Three of the four canonical technologies give a similarity rate of 0,
      not 75, so the application is rejected. */
  lemma ThreeOfFourAutoRejected(v: Validator)
    requires forall m :: v.country(m) == "TURKEY"
    requires forall m, n :: v.isValid(m, n)
    ensures SimilarityRate(["C#", "RabbitMQ", "Microservice"]) == 0
    ensures Evaluate(FormOf(30, "", ["C#", "RabbitMQ", "Microservice"], 20), Some(v)).outcome == Success(AutoRejected)
  {
  }

  /** Tech-stack entries match ignoring case, and repeating one canonical
      entry four times is enough to be accepted. */
  lemma CaseAndDuplicatesAccepted(v: Validator)
    requires forall m :: v.country(m) == "TURKEY"
    requires forall m, n :: v.isValid(m, n)
    ensures Evaluate(FormOf(30, "", ["c#", "C#", "c#", "C#"], 0), Some(v)).outcome == Success(AutoAccepted)
  {
    assert IsKnownTech("c#") by {
      assert EqualsIgnoreCase(TechStackList[0], "c#");
    }
  }

  /** The country comparison is case-sensitive: "turkey" goes to the CTO. */
  lemma LowerCaseCountryTransferredToCTO(v: Validator)
    requires forall m :: v.country(m) == "turkey"
    ensures Evaluate(FormOf(30, "", [], 0), Some(v)).outcome == Success(TransferredToCTO)
  {
  }
}
