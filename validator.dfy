/** The two stand-alone validators of src/helpers/validator.helper.ts. The
    create handlers do not call them; they inline their own checks. */
module Validator {
  import opened Js

  /** `{ valid: true }` or `{ valid: false, message }`. */
  datatype Validation = Valid | Invalid(message: string)

  /** The message of a failed length check: "<context> must be at least <len> characters". */
  function LengthMessage(context: string, len: int): string {
    context + " must be at least " + IntToString(len) + " characters"
  }

  /** The message of a failed year check: "Invalid <context> year". */
  function YearMessage(context: string): string {
    "Invalid " + context + " year"
  }

  /** `stringLengthValidator(target, context, len)`: the target must be a
      string whose trimmed length is at least `len`. */
  function StringLengthValidator(target: Value, context: string, len: int): (r: Validation)
    ensures r.Valid? <==> target.Str? && Utf16Length(Trim(target.s)) >= len
    ensures r.Invalid? ==> r.message == LengthMessage(context, len)
    ensures !target.Str? ==> r.Invalid?
  {
    if !target.Str? || Utf16Length(Trim(target.s)) < len then Invalid(LengthMessage(context, len))
    else Valid
  }

  /** A string of white space only fails every positive minimum. */
  lemma WhiteSpaceOnlyInvalid(s: string, context: string, len: int)
    requires AllSpace(s) && len >= 1
    ensures StringLengthValidator(Str(s), context, len).Invalid?
  {
    TrimAllSpace(s);
  }

  /** White space around the target never changes the verdict. */
  lemma SurroundingSpaceIrrelevant(p: string, s: string, q: string, context: string, len: int)
    requires AllSpace(p) && AllSpace(q)
    ensures StringLengthValidator(Str(p + s + q), context, len) == StringLengthValidator(Str(s), context, len)
  {
    TrimIgnoresSurroundingSpace(p, s, q);
  }

  /** A target valid for some minimum is valid for every smaller one. */
  lemma LengthMonotone(target: Value, context: string, len: int, shorter: int)
    requires shorter <= len
    requires StringLengthValidator(target, context, len).Valid?
    ensures StringLengthValidator(target, context, shorter).Valid?
  {
  }

  /** The text between " must be at least " and " characters" in the
      failure message reads back, with `Number`, as the minimum. */
  lemma LengthMessageNamesMinimum(context: string, len: int)
    ensures var m := LengthMessage(context, len);
      |context| + 18 <= |m| - 11 && m[..|context| + 18] == context + " must be at least "
      && m[|m| - 11..] == " characters" && StringToNumber(m[|context| + 18..|m| - 11]) == Some(len)
  {
    IntToStringRoundTrip(len);
    var m := LengthMessage(context, len);
    var text := IntToString(len);
    assert m == (context + " must be at least ") + text + " characters";
    assert m[|context| + 18..|m| - 11] == text;
  }

  /** `yearValidator(year, context)` with the current year as a parameter: the
      year must be a number between 1000 and the current year. */
  function YearValidator(year: Value, context: string, currentYear: int): (r: Validation)
    ensures r.Valid? <==> year.Num? && 1000 <= year.n <= currentYear
    ensures r.Invalid? ==> r.message == YearMessage(context)
  {
    if !year.Num? || year.n < 1000 || year.n > currentYear then Invalid(YearMessage(context))
    else Valid
  }
}
