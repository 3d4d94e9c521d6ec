/** The contact form: a submission hands the three fields to an email provider once,
    shows "Sending..." on a disabled button until the provider settles, and then shows
    either a success message (clearing the fields) or an error message (keeping them). */
module ContactForm {

  /** The status message selector: nothing yet, "success" or "error". */
  datatype Status = Blank | Success | Error

  /** The values of the form's three inputs. */
  datatype Fields = Fields(fromName: string, fromEmail: string, message: string)

  /** What a reset gives back: every input empty. */
  const EmptyFields: Fields := Fields("", "", "")

  const SuccessMessage: string := "\U{2705} Message sent successfully!"
  const ErrorMessage: string := "\U{274C} Something went wrong. Try again."
  const SendingLabel: string := "Sending..."
  const IdleLabel: string := "Send Message"

  /** What the form draws below its inputs. */
  datatype FormView = FormView(buttonDisabled: bool, buttonLabel: string, messages: seq<string>)

  /** The submit button is disabled and reads "Sending..." exactly while a submission
      is loading; at most one status message is shown. */
  function Render(loading: bool, status: Status): (v: FormView)
    ensures v.buttonDisabled <==> loading
    ensures v.buttonLabel == SendingLabel <==> loading
    ensures !loading ==> v.buttonLabel == IdleLabel
    ensures |v.messages| <= 1
    ensures SuccessMessage in v.messages <==> status == Success
    ensures ErrorMessage in v.messages <==> status == Error
    ensures v.messages == [] <==> status == Blank
  {
    FormView(
      loading,
      if loading then SendingLabel else IdleLabel,
      (if status == Success then [SuccessMessage] else []) + (if status == Error then [ErrorMessage] else []))
  }

  /** The form's state, with the provider abstracted to the requests it was given and
      the callbacks it makes. */
  class ContactForm {
    var loading: bool
    var status: Status
    /** What the inputs currently hold. */
    var fields: Fields
    /** Every request handed to the provider, oldest first. */
    var sent: seq<Fields>
    /** How many of those requests have not settled yet. */
    var pending: nat

    /** Loading means a request is out and no message is shown. */
    ghost predicate Valid()
      reads this
    {
      (loading ==> pending > 0 && status == Blank) && pending <= |sent|
    }

    /** A fresh form: empty inputs, nothing sent, nothing shown. */
    constructor ()
      ensures Valid()
      ensures !loading && status == Blank
      ensures fields == EmptyFields && sent == [] && pending == 0
    {
      loading, status := false, Blank;
      fields := EmptyFields;
      sent, pending := [], 0;
    }

    /** The user typing into the inputs. */
    method Edit(newFields: Fields)
      requires Valid()
      modifies this
      ensures Valid()
      ensures fields == newFields
      ensures loading == old(loading) && status == old(status)
      ensures sent == old(sent) && pending == old(pending)
    {
      fields := newFields;
    }

    /** The submit handler. Without a mounted form element it does nothing; otherwise
        it starts loading, clears the message and hands the inputs to the provider. */
    method Submit(formPresent: bool)
      requires Valid()
      modifies this
      ensures Valid()
      ensures !formPresent ==>
        loading == old(loading) && status == old(status) && sent == old(sent) && pending == old(pending)
      ensures formPresent ==>
        loading && status == Blank && sent == old(sent) + [old(fields)] && pending == old(pending) + 1
      ensures fields == old(fields)
    {
      if !formPresent {
        return;
      }
      loading := true;
      status := Blank;
      sent := sent + [fields];
      pending := pending + 1;
    }

    /** The provider reports that a request was delivered. */
    method OnSuccess()
      requires Valid() && pending > 0
      modifies this
      ensures Valid()
      ensures status == Success && !loading
      ensures fields == EmptyFields
      ensures sent == old(sent) && pending == old(pending) - 1
    {
      status := Success;
      loading := false;
      fields := EmptyFields;
      pending := pending - 1;
    }

    /** The provider reports that a request failed; the inputs stay as they are so
        that the user can try again. */
    method OnFailure()
      requires Valid() && pending > 0
      modifies this
      ensures Valid()
      ensures status == Error && !loading
      ensures fields == old(fields)
      ensures sent == old(sent) && pending == old(pending) - 1
    {
      status := Error;
      loading := false;
      pending := pending - 1;
    }

    /** What the form shows right now; never "Sending..." together with a message. */
    function View(): (v: FormView)
      reads this
      requires Valid()
      ensures v.buttonLabel == SendingLabel ==> v.messages == []
      ensures v.buttonDisabled <==> loading
    {
      Render(loading, status)
    }
  }

  /** One round trip: submitting a filled form sends exactly those fields once, and
      the provider's answer decides between a cleared form with the success message
      and an untouched form with the error message. */
  method SubmitAndSettle(input: Fields, delivered: bool) returns (shown: FormView, after: Fields, request: seq<Fields>)
    ensures request == [input]
    ensures !shown.buttonDisabled && shown.buttonLabel == IdleLabel
    ensures delivered ==> shown.messages == [SuccessMessage] && after == EmptyFields
    ensures !delivered ==> shown.messages == [ErrorMessage] && after == input
  {
    var form := new ContactForm();
    form.Edit(input);
    form.Submit(true);
    assert form.View().buttonLabel == SendingLabel;
    if delivered {
      form.OnSuccess();
    } else {
      form.OnFailure();
    }
    shown, after, request := form.View(), form.fields, form.sent;
  }
}
