/**
 * The demo-request form controller (`DemoModal` in
 * src/components/ui/DemoModal.tsx): the form values, the per-field error
 * messages, the `loading` and `success` flags, and the submit lifecycle.
 *
 * The component's state hooks become the fields of a class. The insert into
 * the hosted `demo_requests` table is outside the model: `Submit` records the
 * row it hands over in `requests`, and `Settle` receives the outcome as a
 * boolean. The 2-second close timer is a counter of scheduled timers and a
 * step, `CloseDelayElapsed`, that fires one of them; `closeCalls` counts the
 * calls of the parent's `onClose`.
 */
module DemoForm {
  import opened JsText
  import opened Validation

  /** The form values, one per input. The row sent to the insert is made of
      exactly these five values, so the same type serves as the row. */
  datatype Form = Form(name: string, email: string, phone: string, service: string, message: string)
  {
    /** The value of the input called `f`. */
    function Get(f: Field): string {
      match f
      case Name => name
      case Email => email
      case Phone => phone
      case Service => service
      case Message => message
    }

    /** `{ ...formData, [f]: v }`: the form with one value replaced. */
    function With(f: Field, v: string): (r: Form)
      ensures r.Get(f) == v
      ensures forall g :: g != f ==> r.Get(g) == Get(g)
    {
      match f
      case Name => this.(name := v)
      case Email => this.(email := v)
      case Phone => this.(phone := v)
      case Service => this.(service := v)
      case Message => this.(message := v)
    }
  }

  /** The error messages, one per validated field; "" means no error. */
  datatype Errors = Errors(name: string, email: string, phone: string, message: string)
  {
    /** The message shown for field `f`; the plan selection has none. */
    function Get(f: Field): string {
      match f
      case Name => name
      case Email => email
      case Phone => phone
      case Service => ""
      case Message => message
    }

    /** `{ ...prevErrors, [f]: e }`. An entry for the plan selection is never
        read, so storing one changes nothing observable. */
    function With(f: Field, e: string): (r: Errors)
      ensures f in ValidatedFields ==> r.Get(f) == e
      ensures forall g :: g != f ==> r.Get(g) == Get(g)
    {
      match f
      case Name => this.(name := e)
      case Email => this.(email := e)
      case Phone => this.(phone := e)
      case Service => this
      case Message => this.(message := e)
    }

    /** No entry holds a message: `Object.values(errors).some(err => err !== "")` is false. */
    predicate NoneSet() {
      name == "" && email == "" && phone == "" && message == ""
    }
  }

  /** `initialFormData`: every value empty. */
  const InitialForm := Form("", "", "", "", "")

  /** The errors state the component starts with: no message anywhere. */
  const InitialErrors := Errors("", "", "", "")

  /** The errors `handleSubmit` builds: each validated field revalidated
      from the current form values. */
  function ErrorsFor(form: Form): Errors {
    Errors(
      ValidateField(Name, form.name),
      ValidateField(Email, form.email),
      ValidateField(Phone, form.phone),
      ValidateField(Message, form.message))
  }

  /** A row every validator accepts, stated with the reference definitions;
      the plan selection is not validated. */
  ghost predicate Acceptable(r: Form) {
    && !IsBlank(r.name)
    && EmailPattern(r.email)
    && PhonePattern(r.phone)
    && Utf16Length(r.message) <= MaxMessageLength
  }

  /** Every row of a log passed the validators. */
  ghost predicate AllAcceptable(rows: seq<Form>) {
    forall i :: 0 <= i < |rows| ==> Acceptable(rows[i])
  }

  /** Submission goes ahead exactly when the name is not blank, the email
      and phone match their patterns and the message fits; the plan
      selection is not looked at. */
  lemma SubmitProceedsIff(form: Form)
    ensures ErrorsFor(form).NoneSet() <==> Acceptable(form)
  {
    NameRule(form.name);
    EmailRule(form.email);
    PhoneRule(form.phone);
    MessageRule(form.message);
  }

  /** Appending an accepted row keeps the log accepted. */
  lemma AppendAcceptable(rows: seq<Form>, r: Form)
    requires AllAcceptable(rows) && Acceptable(r)
    ensures AllAcceptable(rows + [r])
  {
  }

  /** The form of the modal and its submission state. */
  class DemoModal {
    var formData: Form
    var errors: Errors
    var loading: bool
    var success: bool
    /** Rows handed to the insert, oldest first. */
    var requests: seq<Form>
    /** Close timers scheduled and not yet fired. */
    var pendingCloses: nat
    /** Calls of the parent's `onClose` made by fired timers. */
    var closeCalls: nat

    /** What every reachable state satisfies: `success` is never shown while
        submitting and always has a close timer behind it, every row sent
        passed all four validators, and each row sent is either awaiting its
        outcome, waiting for its close timer, or has closed the modal. */
    ghost predicate Valid()
      reads this
    {
      && (loading ==> !success)
      && (success ==> pendingCloses > 0)
      && AllAcceptable(requests)
      && |requests| == (if loading then 1 else 0) + pendingCloses + closeCalls
    }

    constructor ()
      ensures Valid()
      ensures formData == InitialForm && errors == InitialErrors
      ensures !loading && !success
      ensures requests == [] && pendingCloses == 0 && closeCalls == 0
    {
      formData := InitialForm;
      errors := InitialErrors;
      loading := false;
      success := false;
      requests := [];
      pendingCloses := 0;
      closeCalls := 0;
    }

    /** `handleChange`: store the new value of one field and revalidate that
        field only; every other value and message stays. */
    method Change(name: Field, value: string)
      requires Valid()
      modifies this
      ensures Valid()
      ensures formData == old(formData).With(name, value)
      ensures errors == old(errors).With(name, ValidateField(name, value))
      ensures loading == old(loading) && success == old(success)
      ensures requests == old(requests)
      ensures pendingCloses == old(pendingCloses) && closeCalls == old(closeCalls)
    {
      formData := formData.With(name, value);
      errors := errors.With(name, ValidateField(name, value));
    }

    /** `handleSubmit` up to the insert call. While `loading` the submit
        button is disabled and nothing happens. Otherwise every validated
        field is revalidated and the errors state replaced; if any message
        remains, submission stops there. If none does, `loading` is set,
        `success` cleared and the form's values are sent as one row. */
    method Submit()
      requires Valid()
      modifies this
      ensures Valid()
      ensures old(loading) ==> unchanged(this)
      ensures !old(loading) ==> errors == ErrorsFor(old(formData))
      ensures formData == old(formData)
      ensures pendingCloses == old(pendingCloses) && closeCalls == old(closeCalls)
      ensures !old(loading) && !errors.NoneSet() ==>
        && !loading && success == old(success)
        && requests == old(requests)
      ensures !old(loading) && errors.NoneSet() ==>
        && loading && !success
        && requests == old(requests) + [old(formData)]
    {
      if !loading {
        var newErrors := ErrorsFor(formData);
        errors := newErrors;
        if newErrors.NoneSet() {
          SubmitProceedsIff(formData);
          AppendAcceptable(requests, formData);
          loading := true;
          success := false;
          requests := requests + [formData];
        }
      }
    }

    /** The rest of `handleSubmit`, once the insert has answered: on success
        show the confirmation and reset the form; on failure keep the form.
        Either way clear `loading` and schedule the close timer. */
    method Settle(ok: bool)
      requires Valid() && loading
      modifies this
      ensures Valid()
      ensures !loading && success == ok
      ensures formData == if ok then InitialForm else old(formData)
      ensures errors == old(errors) && requests == old(requests)
      ensures pendingCloses == old(pendingCloses) + 1 && closeCalls == old(closeCalls)
    {
      if ok {
        success := true;
        formData := InitialForm;
      }
      loading := false;
      pendingCloses := pendingCloses + 1;
    }

    /** One close timer fires: hide the confirmation and call `onClose`. */
    method CloseDelayElapsed()
      requires Valid() && pendingCloses > 0
      modifies this
      ensures Valid()
      ensures !success
      ensures pendingCloses == old(pendingCloses) - 1 && closeCalls == old(closeCalls) + 1
      ensures formData == old(formData) && errors == old(errors)
      ensures loading == old(loading) && requests == old(requests)
    {
      success := false;
      pendingCloses := pendingCloses - 1;
      closeCalls := closeCalls + 1;
    }
  }

  /** Fills a fresh modal with `form` field by field and submits it. */
  method FillAndSubmit(form: Form) returns (m: DemoModal)
    ensures fresh(m) && m.Valid()
    ensures m.formData == form && m.errors == ErrorsFor(form)
    ensures m.closeCalls == 0 && m.pendingCloses == 0 && !m.success
    ensures m.errors.NoneSet() ==> m.loading && m.requests == [form]
    ensures !m.errors.NoneSet() ==> !m.loading && m.requests == []
  {
    m := new DemoModal();
    m.Change(Name, form.name);
    m.Change(Email, form.email);
    m.Change(Phone, form.phone);
    m.Change(Service, form.service);
    m.Change(Message, form.message);
    assert m.formData == form;
    m.Submit();
  }

  /** An acceptable form is sent as one row, unchanged; a successful insert
      resets the form and a failed one keeps it; after the delay the modal has
      been closed once and the confirmation is hidden. */
  method SubmitAcceptable(form: Form, ok: bool) returns (sent: seq<Form>, after: Form, closes: nat, shown: bool)
    requires Acceptable(form)
    ensures sent == [form]
    ensures after == if ok then InitialForm else form
    ensures closes == 1 && !shown
  {
    SubmitProceedsIff(form);
    var m := FillAndSubmit(form);
    m.Settle(ok);
    m.CloseDelayElapsed();
    sent, after, closes, shown := m.requests, m.formData, m.closeCalls, m.success;
  }

  /** A form some validator rejects is not sent: the errors name the
      rejected fields, the form is kept and nothing is scheduled. */
  method SubmitRejected(form: Form) returns (sent: seq<Form>, errors: Errors, after: Form, busy: bool)
    requires !Acceptable(form)
    ensures sent == [] && after == form && !busy
    ensures errors == ErrorsFor(form) && !errors.NoneSet()
  {
    SubmitProceedsIff(form);
    var m := FillAndSubmit(form);
    sent, errors, after, busy := m.requests, m.errors, m.formData, m.loading;
  }
}
