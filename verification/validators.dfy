/** The validation errors raised by the configuration helpers, the outcome of a
    validator, and the validators other than the bucket-name check. */
module Validators {
  import opened Strings

  /** One value per message a `ValidationError` is raised with. */
  datatype ValidationError =
    | LengthOutOfRange       // fewer than 3 or more than 63 characters
    | UppercaseOrUnderscore  // an upper-case letter or an underscore
    | BadLabelEdge           // a label that is empty or has a bad first or last character
    | FormattedAsIpAddress   // every label is all digits
    | Blank                  // empty or whitespace only

  /** A validator either returns normally or raises a `ValidationError`. */
  datatype Outcome = Pass | Fail(error: ValidationError)

  /** `is_not_empty`: rejects the empty string and a string that strips to nothing. */
  function IsNotEmpty(s: string): Outcome {
    if s == [] || Strip(s) == [] then Fail(Blank) else Pass
  }

  /** `is_not_empty` fails exactly on strings made of whitespace only (the
      empty string among them), and always with the same error. */
  lemma IsNotEmptyFailsIffBlank(s: string)
    ensures IsNotEmpty(s).Fail? <==> forall i :: 0 <= i < |s| ==> IsSpaceChar(s[i])
    ensures IsNotEmpty(s).Fail? ==> IsNotEmpty(s).error == Blank
  {
    StripEmptyIff(s);
  }

  /** `is_valid_entrypoint`: a stub whose body is only a docstring. */
  function IsValidEntrypoint(entrypoint: string): Outcome {
    Pass
  }

  /** `is_valid_django_settings_module`: a stub whose body is only a docstring. */
  function IsValidDjangoSettingsModule(settingsModule: string): Outcome {
    Pass
  }

  /** `is_valid_requirements_file`: a stub whose body is only a docstring. */
  function IsValidRequirementsFile(path: string): Outcome {
    Pass
  }

  /** The three stubs never raise, whatever they are given. */
  lemma StubsAcceptEverything(s: string)
    ensures IsValidEntrypoint(s) == Pass
    ensures IsValidDjangoSettingsModule(s) == Pass
    ensures IsValidRequirementsFile(s) == Pass
  {
  }
}
