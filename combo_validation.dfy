/** Validation/ComboBoxValidationRule.cs: the WPF validation rule bound to the dialog's
    combo boxes. A selection is accepted when it renders as text that is not blank. */
module ComboValidation {
  import opened Optional
  import opened Text

  /** System.Windows.Controls.ValidationResult: a verdict and the error content. */
  datatype ValidationResult = ValidationResult(isValid: bool, errorContent: Option<string>)

  /** ValidationResult.ValidResult. */
  const ValidResult := ValidationResult(true, None)

  const SelectMessage := "Please select a value"

  /** A CultureInfo; the rule never consults it. */
  type Culture = string

  /** Validate(value, cultureInfo). The bound value is given by its ToString() text, with
      None for a null value. */
  function Validate(value: Option<string>, culture: Culture): (r: ValidationResult)
    ensures r.isValid <==>
      value.Some? && exists i :: 0 <= i < |value.value| && !IsWhiteSpace(value.value[i])
    ensures r.isValid ==> r == ValidResult
    ensures !r.isValid ==> r.errorContent == Some(SelectMessage)
  {
    if value.None? || IsBlank(value.value) then ValidationResult(false, Some(SelectMessage))
    else ValidResult
  }

  /** A null selection is rejected with the prompt to select a value. */
  lemma NullRejected(culture: Culture)
    ensures Validate(None, culture) == ValidationResult(false, Some(SelectMessage))
  {
  }

  /** A selection is accepted exactly when its text survives trimming: the rule agrees with
      the dialog's own Trim()-based checks. */
  lemma ValidIffTrimmedNonEmpty(text: string, culture: Culture)
    ensures Validate(Some(text), culture).isValid <==> Trim(text) != []
  {
    BlankIffTrimEmpty(text);
  }

  /** The verdict does not depend on the culture. */
  lemma CultureIgnored(value: Option<string>, c1: Culture, c2: Culture)
    ensures Validate(value, c1) == Validate(value, c2)
  {
  }
}
