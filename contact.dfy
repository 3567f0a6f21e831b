/**
 * The contact form: the schema's field constraints, the two select
 * enumerations, the description counter, and the submit handler's
 * `submitting` flag and reset-on-success.
 */
module Contact {
  import opened Wrappers
  import JsText
  import opened Toasts

  /** The values of the project-type select, in order. */
  const ProjectTypes: seq<string> :=
    ["website-design", "brand-identity", "web-development", "product-design", "consulting"]

  /** The values of the budget select, in order. */
  const BudgetRanges: seq<string> := ["5-10k", "10-25k", "25-50k", "50-100k", "100k-plus"]

  /** The form's values; an unset select or optional field is `None`. */
  datatype FormValues = FormValues(
    name: string,
    email: string,
    company: Option<string>,
    projectType: Option<string>,
    budget: Option<string>,
    description: string)

  /** `defaultValues`, which `form.reset()` restores. */
  const Defaults: FormValues := FormValues("", "", Some(""), None, None, "")

  const MaxCompany: nat := 120
  const MinDescription: nat := 20
  const MaxDescription: nat := 2000

  datatype FieldError =
    | NameTooShort
    | EmailInvalid
    | CompanyTooLong
    | ProjectTypeMissing
    | ProjectTypeInvalid
    | BudgetMissing
    | BudgetInvalid
    | DescriptionTooShort
    | DescriptionTooLong

  /** The message the schema attaches to an error; `None` where the library's default text applies. */
  function Message(e: FieldError): (r: Option<string>)
    ensures r.None? <==> e == ProjectTypeInvalid || e == BudgetInvalid
  {
    match e
    case NameTooShort => Some("Please enter your full name.")
    case EmailInvalid => Some("Please enter a valid email address.")
    case CompanyTooLong => Some("Company name is too long.")
    case ProjectTypeMissing => Some("Select a project type.")
    case ProjectTypeInvalid => None
    case BudgetMissing => Some("Select a budget range.")
    case BudgetInvalid => None
    case DescriptionTooShort => Some("Please share a few details (at least 20 characters).")
    case DescriptionTooLong => Some("Please keep it under 2000 characters.")
  }

  /** `z.string().max(120).optional().or(z.literal(""))`. */
  predicate CompanyOk(company: Option<string>) {
    company.None? || |company.value| <= MaxCompany || company.value == ""
  }

  /** The `""` alternative adds nothing: the empty string is within the bound. */
  lemma CompanyEmptyAlternativeRedundant(company: Option<string>)
    ensures CompanyOk(company) <==> company.None? || |company.value| <= MaxCompany
  {
  }

  /** A `z.enum` check: the error for an unset select, or for a value not in the list. */
  function EnumErrors(v: Option<string>, values: seq<string>, missing: FieldError, invalid: FieldError): (errs: seq<FieldError>)
    ensures v.None? ==> errs == [missing]
    ensures v.Some? && v.value in values ==> errs == []
    ensures v.Some? && v.value !in values ==> errs == [invalid]
  {
    match v
    case None => [missing]
    case Some(x) => if x in values then [] else [invalid]
  }

  /** Whether the schema reports error `e` for the values: each field's own constraint. */
  predicate Fails(v: FormValues, isEmail: string -> bool, e: FieldError) {
    match e
    case NameTooShort => |v.name| < 2
    case EmailInvalid => !isEmail(v.email)
    case CompanyTooLong => !CompanyOk(v.company)
    case ProjectTypeMissing => v.projectType.None?
    case ProjectTypeInvalid => v.projectType.Some? && v.projectType.value !in ProjectTypes
    case BudgetMissing => v.budget.None?
    case BudgetInvalid => v.budget.Some? && v.budget.value !in BudgetRanges
    case DescriptionTooShort => |v.description| < MinDescription
    case DescriptionTooLong => |v.description| > MaxDescription
  }

  /** An error for a failing check, nothing for a passing one. */
  function Check(fails: bool, e: FieldError): (errs: seq<FieldError>)
    ensures forall x :: x in errs <==> fails && x == e
  {
    if fails then [e] else []
  }

  /**
   * `formSchema` run on the values, field by field in schema order; the
   * library's e-mail check is the parameter `isEmail`. Each error is
   * reported exactly when its field fails its own constraint.
   */
  function Validate(v: FormValues, isEmail: string -> bool): (errs: seq<FieldError>)
    ensures forall e :: e in errs <==> Fails(v, isEmail, e)
  {
    var nameErrs := Check(|v.name| < 2, NameTooShort);
    var emailErrs := Check(!isEmail(v.email), EmailInvalid);
    var companyErrs := Check(!CompanyOk(v.company), CompanyTooLong);
    var typeErrs := EnumErrors(v.projectType, ProjectTypes, ProjectTypeMissing, ProjectTypeInvalid);
    var budgetErrs := EnumErrors(v.budget, BudgetRanges, BudgetMissing, BudgetInvalid);
    var shortErrs := Check(|v.description| < MinDescription, DescriptionTooShort);
    var longErrs := Check(|v.description| > MaxDescription, DescriptionTooLong);
    var errs := nameErrs + emailErrs + companyErrs + typeErrs + budgetErrs + shortErrs + longErrs;
    assert forall e :: e in errs <==>
      e in nameErrs || e in emailErrs || e in companyErrs || e in typeErrs ||
      e in budgetErrs || e in shortErrs || e in longErrs;
    errs
  }

  /** Every field constraint of the schema, stated directly. */
  predicate Acceptable(v: FormValues, isEmail: string -> bool) {
    |v.name| >= 2 && isEmail(v.email) &&
    (v.company.None? || |v.company.value| <= MaxCompany) &&
    v.projectType.Some? && v.projectType.value in ProjectTypes &&
    v.budget.Some? && v.budget.value in BudgetRanges &&
    MinDescription <= |v.description| <= MaxDescription
  }

  /** The schema reports no error exactly when every constraint holds. */
  lemma ValidateIffAcceptable(v: FormValues, isEmail: string -> bool)
    ensures Validate(v, isEmail) == [] <==> Acceptable(v, isEmail)
  {
  }

  /** The blank form never passes: the name, selects and description are all unset. */
  lemma DefaultsRejected(isEmail: string -> bool)
    ensures var errs := Validate(Defaults, isEmail);
            NameTooShort in errs && ProjectTypeMissing in errs &&
            BudgetMissing in errs && DescriptionTooShort in errs && CompanyTooLong !in errs
  {
  }

  /** The counter beside the description: its length out of 2000. */
  function DescriptionCounter(description: string): string {
    JsText.DecimalString(|description|) + "/2000"
  }

  /** The counter reads back as the description's length. */
  lemma DescriptionCounterReadsBack(description: string)
    ensures var c := DescriptionCounter(description);
            var d := JsText.LeadingDigits(c);
            JsText.ParseDecimal(d) == |description| && c[|d|..] == "/2000"
  {
    JsText.ReadBackCount(|description|, "/2000");
  }

  const ThanksMessage: string := "Thanks! We’ll be in touch shortly."

  /** What pressing submit did: shown errors, or the values handed to the handler. */
  datatype SubmitOutcome = Invalid(errors: seq<FieldError>) | Pending(submitted: FormValues)

  /** The form's state: its values and the `submitting` flag. */
  class ContactForm {
    const hasCallback: bool
    const isEmail: string -> bool
    var values: FormValues
    var submitting: bool

    constructor (hasCallback: bool, isEmail: string -> bool)
      ensures this.hasCallback == hasCallback && this.isEmail == isEmail
      ensures values == Defaults && !submitting
    {
      this.hasCallback := hasCallback;
      this.isEmail := isEmail;
      values := Defaults;
      submitting := false;
    }

    /** Typing into the form; the inputs are disabled while submitting. */
    method Edit(v: FormValues)
      requires !submitting
      modifies this
      ensures values == v && !submitting
    {
      values := v;
    }

    /**
     * `form.handleSubmit(handleSubmit)` up to the `await`: with errors the
     * handler is not called and nothing changes; otherwise `submitting` is
     * set and the values go to `onSubmit`.
     */
    method Submit() returns (outcome: SubmitOutcome)
      modifies this
      ensures values == old(values)
      ensures Validate(old(values), isEmail) != [] ==>
                outcome == Invalid(Validate(old(values), isEmail)) && submitting == old(submitting)
      ensures Validate(old(values), isEmail) == [] ==>
                outcome == Pending(old(values)) && submitting
    {
      var errs := Validate(values, isEmail);
      if errs != [] {
        outcome := Invalid(errs);
        return;
      }
      submitting := true;
      outcome := Pending(values);
    }

    /**
     * After the `await`: `rejected` says whether `onSubmit`'s promise was
     * rejected (the simulated delay never is). Success resets the form to
     * its defaults; failure keeps the values; `submitting` ends false either way.
     */
    method Settle(rejected: bool) returns (toast: Toast)
      requires submitting
      modifies this
      ensures !submitting
      ensures (!hasCallback || !rejected) ==> values == Defaults && toast == SuccessToast(ThanksMessage)
      ensures (hasCallback && rejected) ==> values == old(values) && toast == ErrorToast(FailureMessage)
    {
      if hasCallback && rejected {
        toast := ErrorToast(FailureMessage);
      } else {
        toast := SuccessToast(ThanksMessage);
        values := Defaults;
      }
      submitting := false;
    }
  }
}
