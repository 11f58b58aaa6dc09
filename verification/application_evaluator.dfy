/** The decision procedure `ApplicationEvaluator.Evaluate`: a chain of guard
    clauses over one application form, where the first rule that applies
    decides the outcome. The collaborator's side effects (the `ValidationMode`
    write, the country read, the `IsValid` calls) are returned as a record
    beside the outcome. */
module ApplicationEvaluator {
  import opened Wrappers
  import opened Models
  import opened IdentityValidator
  import opened OrdinalIgnoreCase
  import opened CSharpInt

  /** Applicants younger than this are rejected outright. */
  const MinAge: int := 18
  /** Experience threshold of the high-similarity rule. */
  const AutoAcceptedYearOfExperience: int := 15
  /** Applicants older than this are validated in `Detailed` mode. */
  const DetailedModeAge: int := 50
  /** The only country that continues to the identity check. */
  const HomeCountry: string := "TURKEY"
  /** The canonical tech stack the applicant's list is compared with. */
  const TechStackList: seq<string> := ["C#", "RabbitMQ", "Microservice", "VisualStudio"]
  /** The smallest match count whose rate `matchedCount / 4 * 100` no longer
      fits in an `int` (21,474,837 * 100 > 2,147,483,647). */
  const RateOverflowCount: nat := 85_899_348

  /** The five outcomes of an evaluation, in declaration order. */
  datatype ApplicationResult =
    | AutoRejected
    | TransferredToHR
    | TransferredToLead
    | TransferredToCTO
    | AutoAccepted

  /** Exceptions an evaluation can end in: the explicit guard on a missing
      applicant, and the dereference of a null validator. */
  datatype Error = ArgumentNull | NullReference

  /** What the evaluation did to the collaborator: the `ValidationMode` it
      wrote (if any), how many times it read the country, and the argument of
      every `IsValid` call, in order. */
  datatype Effects = Effects(
    modeWritten: Option<ValidationMode>,
    countryReads: nat,
    isValidCalls: seq<string>)

  const NoEffects: Effects := Effects(None, 0, [])

  /** The full observable result of one call. */
  datatype Evaluation = Evaluation(outcome: Result<ApplicationResult, Error>, effects: Effects)

  /** True when `s` equals some canonical entry, ignoring case. */
  predicate IsKnownTech(s: string)
  {
    exists k | 0 <= k < |TechStackList| :: EqualsIgnoreCase(TechStackList[k], s)
  }

  /** The applicant's entries that match the canonical stack, in their order
      (the LINQ `Where`). Every matching occurrence is kept, duplicates
      included, and nothing else is. */
  function Matching(techStacks: seq<string>): (r: seq<string>)
    ensures |r| <= |techStacks|
    ensures forall s :: IsKnownTech(s) ==> multiset(r)[s] == multiset(techStacks)[s]
    ensures forall s :: !IsKnownTech(s) ==> multiset(r)[s] == 0
  {
    if techStacks == [] then []
    else
      assert techStacks == [techStacks[0]] + techStacks[1..];
      var rest := Matching(techStacks[1..]);
      if IsKnownTech(techStacks[0]) then [techStacks[0]] + rest else rest
  }

  /** The number of matching entries (`matchedCount`). */
  function MatchedCount(techStacks: seq<string>): (n: nat)
    ensures n <= |techStacks|
  {
    |Matching(techStacks)|
  }

  /** `GetTechStackSimilarityRate`. In `(int)(double)matchedCount /
      techStackList.Count * 100` both casts apply to `matchedCount` alone, so
      the division is an integer division, truncated before the
      multiplication: the rate is 0 below four matches, 100 for four to seven,
      and so on. `matchedCount` is never negative, so Dafny's `/` agrees with
      C#'s truncating one. The multiplication is unchecked `int` arithmetic:
      from `RateOverflowCount` matches on it wraps around. */
  function SimilarityRate(techStacks: seq<string>): (sr: int)
    ensures IntMin <= sr <= IntMax
    ensures (sr - 100 * (MatchedCount(techStacks) / |TechStackList|)) % Modulus == 0
    ensures MatchedCount(techStacks) < RateOverflowCount ==>
              && sr >= 0 && sr % 100 == 0
              && |TechStackList| * (sr / 100) <= MatchedCount(techStacks) < |TechStackList| * (sr / 100 + 1)
    ensures MatchedCount(techStacks) < RateOverflowCount ==>
              (sr < 25 <==> MatchedCount(techStacks) < |TechStackList|)
    ensures MatchedCount(techStacks) >= RateOverflowCount ==>
              sr != 100 * (MatchedCount(techStacks) / |TechStackList|)
  {
    var matchedCount := MatchedCount(techStacks);
    var quotient := matchedCount / |TechStackList|;
    assert |TechStackList| * quotient <= matchedCount < |TechStackList| * (quotient + 1);
    assert (quotient * 100) / 100 == quotient && (quotient * 100) % 100 == 0;
    Wrap32(quotient * 100)
  }

  /** The mode written on the validator for an applicant of this age. */
  function ModeFor(age: int): ValidationMode
  {
    if age > DetailedModeAge then Detailed else Quick
  }

  /** The evaluation gets past the age rule and dereferences the validator. */
  predicate ReachesValidator(form: JobApplication, validator: Option<Validator>)
  {
    form.applicant.Some? && form.applicant.value.age >= MinAge && validator.Some?
  }

  /** The country the validator reports once the age rule has passed and the
      mode for the applicant's age has been written. */
  function CountryRead(form: JobApplication, validator: Option<Validator>): string
    requires ReachesValidator(form, validator)
  {
    validator.value.country(ModeFor(form.applicant.value.age))
  }

  /** The evaluation gets past the country rule and asks for identity validity. */
  predicate ReachesIdentityCheck(form: JobApplication, validator: Option<Validator>)
  {
    ReachesValidator(form, validator) && CountryRead(form, validator) == HomeCountry
  }

  /** The identity check is reached and answers "valid", under the mode just written. */
  predicate IdentityAccepted(form: JobApplication, validator: Option<Validator>)
  {
    && ReachesIdentityCheck(form, validator)
    && validator.value.isValid(ModeFor(form.applicant.value.age), form.applicant.value.identityNumber)
  }

  /** `Evaluate`. `validator` is the collaborator handed to the constructor,
      which may be null. The contract is the complete decision table: each
      outcome holds exactly when its rule is the first to apply, and the
      effects on the collaborator are those of the rules that ran. Below
      `RateOverflowCount` matches the similarity rule is "at least four
      matching entries"; beyond it, the wrapped rate decides. */
  function Evaluate(form: JobApplication, validator: Option<Validator>): (e: Evaluation)
    ensures e.outcome == Failure(ArgumentNull) <==> form.applicant.None?
    ensures e.outcome == Failure(NullReference) <==>
              form.applicant.Some? && form.applicant.value.age >= MinAge && validator.None?
    ensures e.outcome == Success(AutoRejected) <==>
              form.applicant.Some? &&
              (form.applicant.value.age < MinAge ||
               (IdentityAccepted(form, validator) && SimilarityRate(form.techStackList) < 25))
    ensures MatchedCount(form.techStackList) < RateOverflowCount ==>
              (e.outcome == Success(AutoRejected) <==>
                 form.applicant.Some? &&
                 (form.applicant.value.age < MinAge ||
                  (IdentityAccepted(form, validator) && MatchedCount(form.techStackList) < |TechStackList|)))
    ensures e.outcome == Success(TransferredToCTO) <==>
              ReachesValidator(form, validator) && CountryRead(form, validator) != HomeCountry
    ensures e.outcome == Success(TransferredToHR) <==>
              ReachesIdentityCheck(form, validator) && !IdentityAccepted(form, validator)
    ensures e.outcome == Success(AutoAccepted) <==>
              IdentityAccepted(form, validator) && SimilarityRate(form.techStackList) >= 25
    ensures MatchedCount(form.techStackList) < RateOverflowCount ==>
              (e.outcome == Success(AutoAccepted) <==>
                 IdentityAccepted(form, validator) && MatchedCount(form.techStackList) >= |TechStackList|)
    ensures e.outcome != Success(TransferredToLead)
    ensures e.effects.modeWritten.Some? <==> ReachesValidator(form, validator)
    ensures e.effects.modeWritten == Some(Detailed) <==>
              ReachesValidator(form, validator) && form.applicant.value.age > DetailedModeAge
    ensures e.effects.countryReads == if ReachesValidator(form, validator) then 1 else 0
    ensures e.effects.isValidCalls ==
              if ReachesIdentityCheck(form, validator) then [form.applicant.value.identityNumber] else []
  {
    if form.applicant.None? then
      Evaluation(Failure(ArgumentNull), NoEffects)
    else
      var applicant := form.applicant.value;
      if applicant.age < MinAge then
        Evaluation(Success(AutoRejected), NoEffects)
      else if validator.None? then
        Evaluation(Failure(NullReference), NoEffects)
      else
        var mode := ModeFor(applicant.age);
        var afterCountry := Effects(Some(mode), 1, []);
        if validator.value.country(mode) != HomeCountry then
          Evaluation(Success(TransferredToCTO), afterCountry)
        else
          var afterIdentity := afterCountry.(isValidCalls := [applicant.identityNumber]);
          if !validator.value.isValid(mode, applicant.identityNumber) then
            Evaluation(Success(TransferredToHR), afterIdentity)
          else
            var sr := SimilarityRate(form.techStackList);
            if sr < 25 then
              Evaluation(Success(AutoRejected), afterIdentity)
            else if sr > 75 && form.yearsOfExperience > AutoAcceptedYearOfExperience then
              Evaluation(Success(AutoAccepted), afterIdentity)
            else
              Evaluation(Success(AutoAccepted), afterIdentity)
  }

  /** The `ValidationMode` a caller reads from the validator after the call. */
  function ObservedMode(v: Validator, effects: Effects): ValidationMode
  {
    if effects.modeWritten.Some? then effects.modeWritten.value else v.mode
  }
}
