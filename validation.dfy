/** The input rule of the submission endpoint: strip the three fields, then
    reject a missing field before a badly shaped phone number. */
module Validation {
  import opened Wrappers
  import opened Text

  const AllFieldsRequired := "All fields are required"
  const PhoneMustBe10Digits := "Phone must be 10 digits"

  /** The three fields of a submission after stripping. */
  datatype Fields = Fields(name: string, phone: string, source: string)

  /** A phone number the endpoint accepts: ten characters, each a digit. */
  predicate IsTenDigitPhone(p: string) {
    |p| == 10 && forall i :: 0 <= i < |p| ==> IsAsciiDigit(p[i])
  }

  /** The value of `key` in the JSON body, or "" when the key is absent
      (`data.get(key, '')`). */
  function Field(body: map<string, string>, key: string): string {
    if key in body then body[key] else ""
  }

  /** The first failing check of the submission, or the stripped fields.
      A field counts as missing when it is whitespace only. */
  function Validate(name: string, phone: string, source: string): (r: Result<Fields, string>)
    ensures r == Failure(AllFieldsRequired) <==> Blank(name) || Blank(phone) || Blank(source)
    ensures r == Failure(PhoneMustBe10Digits) <==>
              !Blank(name) && !Blank(phone) && !Blank(source) && !IsTenDigitPhone(Strip(phone))
    ensures r.Success? <==>
              !Blank(name) && !Blank(phone) && !Blank(source) && IsTenDigitPhone(Strip(phone))
    ensures r.Success? ==> r.value == Fields(Strip(name), Strip(phone), Strip(source))
    ensures r.Success? ==> r.value.name != [] && r.value.source != [] && IsTenDigitPhone(r.value.phone)
  {
    StripEmptyIffBlank(name);
    StripEmptyIffBlank(phone);
    StripEmptyIffBlank(source);
    var n, p, s := Strip(name), Strip(phone), Strip(source);
    if n == [] || p == [] || s == [] then
      Failure(AllFieldsRequired)
    else if |p| != 10 || !IsDigitString(p) then
      Failure(PhoneMustBe10Digits)
    else
      Success(Fields(n, p, s))
  }

  /** Validation is stable: the fields it returns pass it again unchanged. */
  lemma ValidateStripped(name: string, phone: string, source: string)
    requires Validate(name, phone, source).Success?
    ensures var f := Validate(name, phone, source).value;
            Validate(f.name, f.phone, f.source) == Success(f)
  {
    StripIdempotent(name);
    StripIdempotent(phone);
    StripIdempotent(source);
  }
}
