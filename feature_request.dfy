/**
 * The server action behind the feature-suggestion form: a chain of guards
 * (honeypot, name, details) that either ends the request early or reaches an
 * insert of the trimmed fields into the store. The store itself is outside
 * the model; whether it accepts the insert is a parameter.
 */
module FeatureRequest {
  import opened Wrappers
  import opened JsStrings

  /** The three form fields the action reads; a field the form did not send is `None`. */
  datatype FormData = FormData(userName: Option<string>, details: Option<string>, website: Option<string>)

  /** What the guards decide: drop a bot submission silently, reject with a
      message, or insert the trimmed name and details. */
  datatype Decision = BotIgnored | Reject(message: string) | Insert(userName: string, details: string)

  /** The state object the action returns to the form. */
  datatype FeatureRequestState = Succeeded | Failed(error: string)

  const NameError: string := "Please provide a name under 50 characters."
  const DetailsError: string := "Please provide details between 10 and 1000 characters."
  const SubmitError: string := "Failed to submit request. Please try again later."

  const MaxNameLength: nat := 50
  const MinDetailsLength: nat := 10
  const MaxDetailsLength: nat := 1000

  /** JavaScript truthiness of a form field: present and not the empty string. */
  predicate Truthy(field: Option<string>)
    ensures !Truthy(field) <==> field == None || field == Some("")
  {
    field.Some? && field.value != ""
  }

  /** The guard chain, checked on the raw (untrimmed) fields. */
  function Decide(form: FormData): (d: Decision)
    ensures d.Insert? ==> form.userName.Some? && form.details.Some?
    ensures d.Insert? ==> d.userName == Trim(form.userName.value) && d.details == Trim(form.details.value)
    ensures d.Insert? ==> 0 < |form.userName.value| <= MaxNameLength
    ensures d.Insert? ==> MinDetailsLength <= |form.details.value| <= MaxDetailsLength
  {
    if Truthy(form.website) then
      BotIgnored
    else if !Truthy(form.userName) || |form.userName.value| > MaxNameLength then
      Reject(NameError)
    else if !Truthy(form.details) || |form.details.value| < MinDetailsLength || |form.details.value| > MaxDetailsLength then
      Reject(DetailsError)
    else
      Insert(Trim(form.userName.value), Trim(form.details.value))
  }

  /** The whole action; `storeAccepts` is the store's answer to the insert, and is
      consulted only when an insert is made. */
  function Submit(form: FormData, storeAccepts: bool): (state: FeatureRequestState)
    ensures state == Succeeded ==> Truthy(form.website) || (Decide(form).Insert? && storeAccepts)
    ensures Decide(form).Insert? && !storeAccepts ==> state == Failed(SubmitError)
    ensures Decide(form).Reject? ==> state == Failed(Decide(form).message)
    ensures Decide(form) == BotIgnored ==> state == Succeeded
  {
    match Decide(form)
    case BotIgnored => Succeeded
    case Reject(message) => Failed(message)
    case Insert(_, _) => if storeAccepts then Succeeded else Failed(SubmitError)
  }

  /** The name passes when it is present and 1 to 50 characters long. */
  predicate ValidName(form: FormData)
  {
    form.userName.Some? && 1 <= |form.userName.value| <= MaxNameLength
  }

  /** The details pass when present and 10 to 1000 characters long. */
  predicate ValidDetails(form: FormData)
  {
    form.details.Some? && MinDetailsLength <= |form.details.value| <= MaxDetailsLength
  }

  /** A filled-in honeypot answers success without an insert, whatever the other fields hold. */
  lemma BotSubmissionIgnored(form: FormData, storeAccepts: bool)
    requires Truthy(form.website)
    ensures Decide(form) == BotIgnored
    ensures Submit(form, storeAccepts) == Succeeded
  {
  }

  /** With an empty honeypot, the name is rejected exactly when it is missing,
      empty or longer than 50 characters. */
  lemma NameRejectedExactly(form: FormData)
    requires !Truthy(form.website)
    ensures Decide(form) == Reject(NameError) <==> !ValidName(form)
  {
    assert NameError != DetailsError;
  }

  /** With an empty honeypot and a valid name, the details are rejected exactly
      when missing, shorter than 10 or longer than 1000 characters. */
  lemma DetailsRejectedExactly(form: FormData)
    requires !Truthy(form.website) && ValidName(form)
    ensures Decide(form) == Reject(DetailsError) <==> !ValidDetails(form)
  {
  }

  /** The name is checked first: with both fields invalid the name error is the answer. */
  lemma NameCheckedFirst(form: FormData)
    requires !Truthy(form.website) && !ValidName(form) && !ValidDetails(form)
    ensures Decide(form) == Reject(NameError)
  {
  }

  /** An insert is attempted exactly when the honeypot is empty and both fields pass. */
  lemma InsertExactlyWhenValid(form: FormData)
    ensures Decide(form).Insert? <==> !Truthy(form.website) && ValidName(form) && ValidDetails(form)
  {
  }

  /** A refused insert yields the generic error, never success; an accepted one yields success. */
  lemma InsertOutcome(form: FormData, storeAccepts: bool)
    requires Decide(form).Insert?
    ensures Submit(form, storeAccepts) == if storeAccepts then Succeeded else Failed(SubmitError)
  {
  }

  /** Success means either a bot submission dropped or an insert the store accepted. */
  lemma SuccessMeaning(form: FormData, storeAccepts: bool)
    ensures Submit(form, storeAccepts) == Succeeded <==>
              Truthy(form.website) || (Decide(form).Insert? && storeAccepts)
  {
  }

  /** Lengths are checked before trimming: a name of spaces passes the checks and
      is inserted as the empty string. */
  lemma BlankNameInsertedEmpty(name: string, details: string)
    requires 1 <= |name| <= MaxNameLength && AllWhiteSpace(name)
    requires MinDetailsLength <= |details| <= MaxDetailsLength
    ensures Decide(FormData(Some(name), Some(details), Some(""))).userName == ""
    ensures Decide(FormData(Some(name), Some(details), None)) == Insert("", Trim(details))
  {
    TrimWhiteSpaceOnly(name);
  }

  /** The boundary lengths: a name of 50 characters and details of 10 or 1000 pass;
      a name of 51 and details of 9 or 1001 do not. */
  lemma BoundaryLengths(form: FormData)
    requires !Truthy(form.website) && form.userName.Some? && form.details.Some?
    ensures |form.userName.value| == 0 || |form.userName.value| == 51 ==> Decide(form) == Reject(NameError)
    ensures |form.userName.value| == 50 && (|form.details.value| == 9 || |form.details.value| == 1001) ==>
              Decide(form) == Reject(DetailsError)
    ensures |form.userName.value| == 50 && (|form.details.value| == 10 || |form.details.value| == 1000) ==>
              Decide(form).Insert?
  {
  }
}
