/** The contact page (src/app/contact/page.tsx): the message form. Unlike
    the other forms it stores the fields only trimmed, without `cleanText`.
    The insert's success is a parameter. */
module Contact {
  import opened Wrappers
  import opened Strings
  import TextRepair

  datatype ContactForm = ContactForm(
    loading: bool, name: string, email: string, phone: string, message: string,
    ok: Option<string>, err: Option<string>)

  /** `canSubmit`: name, email and message are not blank, nothing in
      flight. */
  predicate CanSubmit(f: ContactForm) {
    !IsBlank(f.name) && !IsBlank(f.email) && !IsBlank(f.message) && !f.loading
  }

  /** Neither starts nor ends with whitespace. */
  predicate Trimmed(x: string) {
    |x| > 0 ==> !IsJsSpace(x[0]) && !IsJsSpace(x[|x| - 1])
  }

  datatype ContactPayload = ContactPayload(name: string, email: string, phone: Option<string>, message: string)

  /** The inserted row: each field trimmed, a blank phone sent as null. */
  function Payload(f: ContactForm): (p: ContactPayload)
    ensures p.name == Trim(f.name) && p.email == Trim(f.email) && p.message == Trim(f.message)
    ensures p.phone.None? <==> IsBlank(f.phone)
    ensures p.phone.Some? ==> p.phone.value == Trim(f.phone)
    ensures Trimmed(p.name) && Trimmed(p.email) && Trimmed(p.message)
    ensures p.phone.Some? ==> Trimmed(p.phone.value)
  {
    ContactPayload(Trim(f.name), Trim(f.email), OrNull(Trim(f.phone)), Trim(f.message))
  }

  /** A form that may be sent gives a row with non-empty name, email and
      message. */
  lemma SendableHasRequiredFields(f: ContactForm)
    requires CanSubmit(f)
    ensures Payload(f).name != "" && Payload(f).email != "" && Payload(f).message != ""
  {
  }

  /** `canSubmit` holds exactly when nothing is in flight and the row to be
      inserted has a non-empty name, email and message. */
  lemma CanSubmitIffRequiredFields(f: ContactForm)
    ensures CanSubmit(f) <==> !f.loading && Payload(f).name != "" && Payload(f).email != "" && Payload(f).message != ""
  {
  }

  /** Sending the stored row again stores the same row: trimming is
      idempotent and a present phone is never blank. */
  lemma PayloadResendStable(f: ContactForm)
    ensures var p := Payload(f);
      Payload(f.(name := p.name, email := p.email, phone := p.phone.GetOr(""), message := p.message)) == p
  {
    TrimTwice(f.name);
    TrimTwice(f.email);
    TrimTwice(f.message);
    PhoneTwice(f.phone);
  }

  lemma PhoneTwice(x: string)
    ensures OrNull(Trim(OrNull(Trim(x)).GetOr(""))) == OrNull(Trim(x))
  {
    var t := Trim(x);
    if t == "" {
      assert OrNull(t) == None;
      TrimEmpty();
    } else {
      assert OrNull(t) == Some(t);
      TrimTwice(x);
    }
  }

  lemma TrimEmpty()
    ensures Trim("") == ""
  {
  }

  lemma TrimTwice(x: string)
    ensures Trim(Trim(x)) == Trim(x)
  {
    TrimNoEdges(Trim(x));
  }

  /** Mojibake typed into the form is stored as typed: the apostrophe
      marker in the message survives. */
  lemma ContactKeepsMarkers(f: ContactForm)
    requires f.message == TextRepair.RightSingleQuote
    ensures Payload(f).message == TextRepair.RightSingleQuote
  {
    TrimNoEdges(f.message);
  }

  const Sent: string := "Message sent. We'll get back to you soon."
  const SendFailed: string := "Failed to send. Check Supabase keys/policies."

  /** The form after `onSubmit`: cleared with the success message, or kept
      with the error text (`message`, or the fallback when it is empty). */
  function AfterSubmit(f: ContactForm, insertOk: bool, message: string): (g: ContactForm)
    ensures !g.loading
    ensures insertOk ==> g == ContactForm(false, "", "", "", "", Some(Sent), None)
    ensures !insertOk ==> g.ok.None? && g.err.Some? && g.err.value != ""
    ensures !insertOk ==> g.err == Some(OrElse(message, SendFailed))
    ensures !insertOk && message != "" ==> g.err == Some(message)
    ensures !insertOk && message == "" ==> g.err == Some(SendFailed)
    ensures !insertOk ==> g.(loading := f.loading, ok := f.ok, err := f.err) == f
  {
    if insertOk then ContactForm(false, "", "", "", "", Some(Sent), None)
    else f.(loading := false, ok := None, err := Some(OrElse(message, SendFailed)))
  }

  /** After a successful send the form cannot be sent again until the
      required fields are filled in anew. */
  lemma ClearedFormNotSendable(f: ContactForm, message: string)
    ensures !CanSubmit(AfterSubmit(f, true, message))
  {
    assert Trim("") == "";
  }
}
