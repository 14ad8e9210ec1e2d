/** The contact form's behaviour (script.js, `initContactForm`): each field's
    invalid flag and error text under blur, input and submit, and the mail
    composed when a submission is accepted. */
module ContactForm {

  import opened Wrappers
  import opened Text
  import opened Validation

  /** One input with its error container: the raw value, whether the
      `invalid` class is present, and the text of the error element. */
  datatype FieldState = FieldState(value: string, invalid: bool, error: string)

  datatype Form = Form(name: FieldState, email: FieldState, message: FieldState)
  {
    function Get(f: Field): FieldState
    {
      match f
      case Name => name
      case Email => email
      case Message => message
    }

    function Set(f: Field, st: FieldState): (r: Form)
      ensures r.Get(f) == st
      ensures forall g :: g != f ==> r.Get(g) == Get(g)
    {
      match f
      case Name => this.(name := st)
      case Email => this.(email := st)
      case Message => this.(message := st)
    }
  }

  /** The state a field is left in once its rule has been checked: marked
      with its message exactly when its value fails the rule. */
  predicate Settled(f: Field, st: FieldState)
  {
    if Valid(f, st.value) then !st.invalid && st.error == ""
    else st.invalid && st.error == ErrorText(f)
  }

  /** The invalid class and the error text agree: the message is shown
      exactly while the field is marked. */
  predicate Synced(f: Field, st: FieldState)
  {
    if st.invalid then st.error == ErrorText(f) else st.error == ""
  }

  /** A marked field really fails its rule. */
  predicate Sound(f: Field, st: FieldState)
  {
    st.invalid ==> !Valid(f, st.value)
  }

  /** Leaving a field: check its rule and show or clear the error. */
  function Blur(f: Field, st: FieldState): (r: FieldState)
    ensures r.value == st.value
    ensures Settled(f, r)
  {
    if !Valid(f, st.value) then st.(invalid := true, error := ErrorText(f))
    else st.(invalid := false, error := "")
  }

  /** The settled state of a value is unique, so blurring twice is the same
      as blurring once and blurring a settled field changes nothing. */
  lemma BlurOfSettled(f: Field, st: FieldState)
    requires Settled(f, st)
    ensures Blur(f, st) == st
  {
  }

  lemma BlurIdempotent(f: Field, st: FieldState)
    ensures Blur(f, Blur(f, st)) == Blur(f, st)
  {
    BlurOfSettled(f, Blur(f, st));
  }

  /** Typing: the value becomes `v`; a marked field whose new value passes is
      cleared, and nothing else changes. */
  function Input(f: Field, st: FieldState, v: string): (r: FieldState)
    ensures r.value == v
    ensures r.invalid ==> st.invalid
    ensures st.invalid && Valid(f, v) ==> !r.invalid && r.error == ""
    ensures !(st.invalid && Valid(f, v)) ==> r == st.(value := v)
  {
    var typed := st.(value := v);
    if typed.invalid && Valid(f, v) then typed.(invalid := false, error := "")
    else typed
  }

  /** Whatever state a field was in, after typing any marked field fails
      its rule. */
  lemma InputLeavesSound(f: Field, st: FieldState, v: string)
    ensures Sound(f, Input(f, st, v))
  {
  }

  lemma InputKeepsSynced(f: Field, st: FieldState, v: string)
    requires Synced(f, st)
    ensures Synced(f, Input(f, st, v))
  {
  }

  /** The first failing field in rules order. */
  ghost predicate FirstFailing(form: Form, f: Field)
  {
    !Valid(f, form.Get(f).value)
    && forall g :: Rank(g) < Rank(f) ==> Valid(g, form.Get(g).value)
  }

  ghost predicate AllValid(form: Form)
  {
    forall f :: Valid(f, form.Get(f).value)
  }

  /** The mail a successful submission hands to the mail client. */
  datatype Mail = Mail(subject: string, body: string)

  const SubjectPrefix := "Portfolio Contact from "
  const SignatureHead := "\n\n\U{2014}\nFrom: "
  const EmailLabel := "\nEmail: "

  /** Subject and body from the (already trimmed) name, email and message. */
  function ComposeMail(name: string, email: string, message: string): (m: Mail)
    ensures |m.subject| == |SubjectPrefix| + |name|
    ensures m.subject[..|SubjectPrefix|] == SubjectPrefix && m.subject[|SubjectPrefix|..] == name
    ensures |message| <= |m.body| && m.body[..|message|] == message
    ensures |email| <= |m.body| && m.body[|m.body| - |email|..] == email
  {
    var body := message + SignatureHead + name + EmailLabel + email;
    assert body[..|message|] == message;
    assert body[|body| - |email|..] == email;
    Mail(SubjectPrefix + name, body)
  }

  /** The validation pass of submit: check every rule in order, mark or
      clear every field, and remember the first failing one for focus. */
  method CheckAll(form: Form) returns (out: Form, focus: Option<Field>)
    ensures forall f :: out.Get(f) == Blur(f, form.Get(f))
    ensures focus.Some? ==> FirstFailing(form, focus.value)
    ensures focus.None? <==> AllValid(form)
  {
    out := form;
    focus := None;
    var isValid := true;
    for i := 0 to |RulesOrder|
      invariant forall f :: Rank(f) < i ==> out.Get(f) == Blur(f, form.Get(f))
      invariant forall f :: Rank(f) >= i ==> out.Get(f) == form.Get(f)
      invariant isValid <==> forall f :: Rank(f) < i ==> Valid(f, form.Get(f).value)
      invariant focus.None? <==> isValid
      invariant focus.Some? ==> Rank(focus.value) < i && FirstFailing(form, focus.value)
    {
      var f := RulesOrder[i];
      assert Rank(f) == i;
      var st := out.Get(f);
      if !Valid(f, st.value) {
        out := out.Set(f, st.(invalid := true, error := ErrorText(f)));
        if isValid {
          focus := Some(f);
        }
        isValid := false;
      } else {
        out := out.Set(f, st.(invalid := false, error := ""));
      }
    }
  }

  /** A form whose every field is as blur leaves it is the validated form. */
  lemma BlurEachIsValidated(form: Form, out: Form)
    requires forall f :: out.Get(f) == Blur(f, form.Get(f))
    ensures out == Validated(form)
  {
    assert out.Get(Name) == Validated(form).Get(Name);
    assert out.Get(Email) == Validated(form).Get(Email);
    assert out.Get(Message) == Validated(form).Get(Message);
  }

  /** Submit: run the validation pass and compose the mail from the trimmed
      values only when every rule passes. */
  method Submit(form: Form) returns (out: Form, focus: Option<Field>, mail: Option<Mail>)
    ensures forall f :: out.Get(f) == Blur(f, form.Get(f))
    ensures out == Validated(form)
    ensures focus.Some? ==> FirstFailing(form, focus.value)
    ensures mail.Some? <==> AllValid(form)
    ensures mail.Some? <==> focus.None?
    ensures mail.Some? ==> mail.value.subject == SubjectPrefix + Trim(form.name.value)
    ensures mail.Some? ==> mail.value.body == Trim(form.message.value) + SignatureHead + Trim(form.name.value) + EmailLabel + Trim(form.email.value)
  {
    out, focus := CheckAll(form);
    BlurEachIsValidated(form, out);
    if focus.Some? {
      mail := None;
    } else {
      assert out.Get(Name).value == form.name.value;
      assert out.Get(Email).value == form.email.value;
      assert out.Get(Message).value == form.message.value;
      var name := Trim(out.name.value);
      var email := Trim(out.email.value);
      var message := Trim(out.message.value);
      mail := Some(ComposeMail(name, email, message));
    }
  }

  /** The sender's name as it reads back from a subject line. */
  function SenderOf(subject: string): (r: Option<string>)
    ensures r.Some? ==> subject == SubjectPrefix + r.value
  {
    if |SubjectPrefix| <= |subject| && subject[..|SubjectPrefix|] == SubjectPrefix
    then Some(subject[|SubjectPrefix|..])
    else None
  }

  lemma SenderRoundTrip(name: string, email: string, message: string)
    ensures SenderOf(ComposeMail(name, email, message).subject) == Some(name)
  {
  }

  /** Position just after the last line feed of `s`, or 0 when there is none. */
  function LastLineStart(s: string): (i: nat)
    ensures i <= |s|
    ensures 0 < i ==> s[i - 1] == '\n'
    ensures forall k :: i <= k < |s| ==> s[k] != '\n'
  {
    if s == [] then 0
    else if s[|s| - 1] == '\n' then |s|
    else LastLineStart(s[..|s| - 1])
  }

  /** The reply address as it reads back from a body: the last line, which
      must start with the `Email: ` label. */
  function ReplyAddressOf(body: string): (r: Option<string>)
    ensures r.Some? ==> '\n' !in r.value
  {
    var line := body[LastLineStart(body)..];
    var tag := EmailLabel[1..];
    if |tag| <= |line| && line[..|tag|] == tag
    then Some(line[|tag|..])
    else None
  }

  /** An address without line breaks reads back from the composed body. */
  lemma {:induction false} ReplyAddressRoundTrip(name: string, email: string, message: string)
    requires '\n' !in email
    ensures ReplyAddressOf(ComposeMail(name, email, message).body) == Some(email)
  {
    var body := ComposeMail(name, email, message).body;
    var start := |body| - |email| - |EmailLabel| + 1;
    assert body == (message + SignatureHead + name + "\n") + (EmailLabel[1..] + email);
    assert body[start - 1] == '\n';
    forall k | start <= k < |body| ensures body[k] != '\n' {
      if k < start + |EmailLabel| - 1 {
        assert body[k] == EmailLabel[1..][k - start];
      } else {
        assert body[k] == email[k - start - |EmailLabel| + 1];
      }
    }
    LastLineStartIs(body, start);
    assert body[start..] == EmailLabel[1..] + email;
  }

  lemma LastLineStartIs(s: string, i: nat)
    requires 0 < i <= |s| && s[i - 1] == '\n'
    requires forall k :: i <= k < |s| ==> s[k] != '\n'
    ensures LastLineStart(s) == i
  {
  }

  /** When a submission goes through, the subject names the sender and the
      body ends with the address they typed, both read back as trimmed. */
  method SubmitAndReadBack(form: Form) returns (mail: Option<Mail>)
    ensures mail.Some? <==> AllValid(form)
    ensures mail.Some? ==> SenderOf(mail.value.subject) == Some(Trim(form.name.value))
    ensures mail.Some? ==> ReplyAddressOf(mail.value.body) == Some(Trim(form.email.value))
  {
    var out, focus;
    out, focus, mail := Submit(form);
    if mail.Some? {
      assert Valid(Email, form.Get(Email).value);
      AcceptedEmailIsPlain(form.email.value);
      SenderRoundTrip(Trim(form.name.value), Trim(form.email.value), Trim(form.message.value));
      ReplyAddressRoundTrip(Trim(form.name.value), Trim(form.email.value), Trim(form.message.value));
    }
  }

  /** A browser event that reaches the form handlers. */
  datatype FormEvent = Left(field: Field) | Typed(field: Field, value: string) | Submitted

  /** Every field as the validation pass of submit leaves it. */
  function Validated(form: Form): (r: Form)
    ensures forall f :: r.Get(f) == Blur(f, form.Get(f))
  {
    Form(Blur(Name, form.name), Blur(Email, form.email), Blur(Message, form.message))
  }

  function Step(form: Form, e: FormEvent): Form
  {
    match e
    case Left(f) => form.Set(f, Blur(f, form.Get(f)))
    case Typed(f, v) => form.Set(f, Input(f, form.Get(f), v))
    case Submitted => Validated(form)
  }

  function Run(form: Form, events: seq<FormEvent>): Form
    decreases |events|
  {
    if events == [] then form else Run(Step(form, events[0]), events[1..])
  }

  /** Every field shows its message exactly while marked, and a marked
      field's value fails its rule. */
  ghost predicate WellFormed(form: Form)
  {
    forall f :: Synced(f, form.Get(f)) && Sound(f, form.Get(f))
  }

  /** A freshly loaded form: no field marked, no error shown. */
  predicate Pristine(form: Form)
  {
    forall f :: !form.Get(f).invalid && form.Get(f).error == ""
  }

  lemma StepKeepsWellFormed(form: Form, e: FormEvent)
    requires WellFormed(form)
    ensures WellFormed(Step(form, e))
  {
    match e
    case Left(f) =>
    case Typed(f, v) =>
      InputKeepsSynced(f, form.Get(f), v);
      InputLeavesSound(f, form.Get(f), v);
    case Submitted =>
  }

  /** Whatever sequence of blur, input and submit events follows page load,
      no field is ever marked invalid while its value passes, and the error
      text always matches the mark. */
  lemma {:induction false} EventsKeepWellFormed(form: Form, events: seq<FormEvent>)
    requires Pristine(form)
    ensures WellFormed(Run(form, events))
  {
    RunKeepsWellFormed(form, events);
  }

  lemma {:induction false} RunKeepsWellFormed(form: Form, events: seq<FormEvent>)
    requires WellFormed(form)
    ensures WellFormed(Run(form, events))
    decreases |events|
  {
    if events != [] {
      StepKeepsWellFormed(form, events[0]);
      RunKeepsWellFormed(Step(form, events[0]), events[1..]);
    }
  }
}
