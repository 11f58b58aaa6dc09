/** The collaborator the evaluator consults (`IIdentityValidator` together with
    the nested `ICountryProvider` / `ICountryData` lookups). Only its interface
    exists, so it is modelled as data: the mode it currently holds, the country
    its provider reports, and an oracle standing for `IsValid`. */
module IdentityValidator {

  /** How thoroughly the validator is asked to check an identity. */
  datatype ValidationMode = Quick | Detailed

  /** A validator instance. `country` and `isValid` receive the mode the
      validator holds at the moment of the read or call, since an
      implementation may consult its own `ValidationMode` property when
      answering. The country chain `CountryDataProvider.CountryData.Country`
      is collapsed into one read. */
  datatype Validator = Validator(
    mode: ValidationMode,
    country: ValidationMode -> string,
    isValid: (ValidationMode, string) -> bool)
}
