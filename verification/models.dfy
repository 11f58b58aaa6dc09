/** The input records of the evaluator (`JobApplicationLibrary.Models`). */
module Models {
  import opened Wrappers

  /** A person applying for the job. The model does not fix the C# class's
      defaults for unset properties; an identity number left unset is
      represented by the empty string. */
  datatype Applicant = Applicant(age: int, identityNumber: string)

  /** One application form. `applicant` may be unset (a null reference); the
      tech stack is the applicant's list of technologies, in order, duplicates
      kept. */
  datatype JobApplication = JobApplication(
    applicant: Option<Applicant>,
    techStackList: seq<string>,
    yearsOfExperience: int)
}
