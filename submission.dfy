/** The submit handler's life cycle: validate, mark the button busy and send
    the request, then, when the request settles, report the outcome, clear
    the fields on success and restore the button whatever happened. */
module Submission {
  import opened Validation

  const SubmitLabel := "Submit"
  const BusyLabel := "Submitting..."

  /** How a request sent with `fetch` settles. */
  datatype Outcome =
    | Response(status: int, bodyIsJson: bool)  // the server answered
    | NetworkFailure                            // `fetch` itself rejected

  /** `response.ok`: a status in the 2xx range. */
  predicate StatusOk(status: int)
  {
    200 <= status <= 299
  }

  /** The success branch runs only for an ok status whose body parses as
      JSON; every other outcome reaches the `catch` branch. */
  predicate Succeeded(outcome: Outcome)
  {
    outcome.Response? && StatusOk(outcome.status) && outcome.bodyIsJson
  }

  /** What the user is shown with `alert`: the validation messages (whose
      text is `AlertText(errors)`), the success message or the generic
      failure message. */
  datatype Notice = ValidationAlert(errors: seq<Message>) | SuccessAlert | FailureAlert

  /** `form.reset()`: every field goes back to its (empty) default value. */
  function Cleared(fields: Fields): (r: Fields)
    ensures r.Keys == fields.Keys
    ensures forall k | k in r :: r[k] == ""
  {
    map k | k in fields :: ""
  }

  /** The form, its submit button, and the requests sent on its behalf. */
  class FormController {
    var fields: Fields
    var buttonDisabled: bool
    var buttonLabel: string
    /** The bodies of the POST requests issued, in order. */
    var requests: seq<Fields>
    /** How many of those requests have settled. */
    var settled: nat
    var notices: seq<Notice>

    /** The label the page's markup gives the button. `handleSubmit` never
        reads it back: once a request has been issued, the label is only
        ever "Submitting..." or the literal "Submit". */
    const markupLabel: string

    /** A disabled button is busy, and with no request in flight the button
        is enabled. Until the first request the markup's label stands; from
        then on the button is busy exactly when its label is "Submitting...",
        and every other label is "Submit". */
    ghost predicate Valid()
      reads this
    {
      && settled <= |requests|
      && (buttonDisabled ==> buttonLabel == BusyLabel)
      && (settled == |requests| ==> !buttonDisabled)
      && (requests == [] ==> buttonLabel == markupLabel)
      && (requests != [] ==>
            && (buttonLabel == SubmitLabel || buttonLabel == BusyLabel)
            && (buttonDisabled <==> buttonLabel == BusyLabel))
    }

    predicate InFlight()
      reads this
    {
      settled < |requests|
    }

    /** The page as loaded: the form's fields and an enabled submit button
        with whatever label the markup gives it. */
    constructor (initial: Fields, markup: string)
      ensures Valid()
      ensures markupLabel == markup
      ensures fields == initial && !buttonDisabled && buttonLabel == markup
      ensures requests == [] && settled == 0 && notices == []
    {
      markupLabel := markup;
      fields := initial;
      buttonDisabled := false;
      buttonLabel := markup;
      requests := [];
      settled := 0;
      notices := [];
    }

    /** The submit event. Invalid input is reported and changes nothing
        else; valid input makes the button busy and issues one request whose
        body is the current field map. */
    method Submit() returns (errors: seq<Message>)
      requires Valid()
      modifies this
      ensures Valid()
      ensures errors == Errors(old(fields))
      ensures fields == old(fields) && settled == old(settled)
      ensures errors != [] ==>
                && buttonDisabled == old(buttonDisabled) && buttonLabel == old(buttonLabel)
                && requests == old(requests)
                && notices == old(notices) + [ValidationAlert(errors)]
      ensures errors == [] ==>
                && buttonDisabled && buttonLabel == BusyLabel
                && requests == old(requests) + [old(fields)]
                && notices == old(notices)
    {
      errors := CollectErrors(fields);
      if errors != [] {
        notices := notices + [ValidationAlert(errors)];
      } else {
        buttonDisabled := true;
        buttonLabel := BusyLabel;
        requests := requests + [fields];
      }
    }

    /** A request settles. Only an ok, parseable response clears the fields;
        whatever the outcome the button ends enabled and labelled "Submit",
        which need not be the label the markup gave it. */
    method Settle(outcome: Outcome)
      requires Valid() && InFlight()
      modifies this
      ensures Valid()
      ensures !buttonDisabled && buttonLabel == SubmitLabel
      ensures requests == old(requests) && settled == old(settled) + 1
      ensures fields == if Succeeded(outcome) then Cleared(old(fields)) else old(fields)
      ensures notices == old(notices) + [if Succeeded(outcome) then SuccessAlert else FailureAlert]
    {
      if Succeeded(outcome) {
        notices := notices + [SuccessAlert];
        fields := Cleared(fields);
      } else {
        notices := notices + [FailureAlert];
      }
      buttonDisabled := false;
      buttonLabel := SubmitLabel;
      settled := settled + 1;
    }
  }
}
