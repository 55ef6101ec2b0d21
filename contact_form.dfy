/** The contact form's submit handler: a honeypot check, a check that the
    required fields are filled in, an e-mail shape check, and a simulated
    send that later reports success and clears the form. */
module ContactForm {
  import opened Optional
  import opened JsText

  /** A non-empty run of characters that the class `[^\s@]` accepts. */
  predicate IsAtomRun(s: string) {
    s != [] && forall i :: 0 <= i < |s| ==> !IsSpace(s[i]) && s[i] != '@'
  }

  /** The regular expression `^[^\s@]+@[^\s@]+\.[^\s@]+$`, read as a split of
      the whole string into a local part, `@`, a first domain part, `.`, and
      a last domain part. It is the reference the explicit check is proved
      against. */
  ghost predicate MatchesEmailPattern(e: string) {
    exists at, dot :: 0 <= at < dot < |e| && e[at] == '@' && e[dot] == '.'
      && IsAtomRun(e[..at]) && IsAtomRun(e[at + 1..dot]) && IsAtomRun(e[dot + 1..])
  }

  /** The e-mail check stated directly: no white space, exactly one `@`, a
      non-empty part before it, and a part after it that has a `.` which is
      neither its first nor its last character. */
  predicate IsEmailShape(e: string) {
    (forall i :: 0 <= i < |e| ==> !IsSpace(e[i]))
    && CountOf(e, '@') == 1
    && var at := FirstIndex(e, '@');
       0 < at < |e|
       && var domain := e[at + 1..];
          |domain| >= 3 && '.' in domain[1..|domain| - 1]
  }

  /** The explicit check accepts exactly the strings the regular expression
      matches. */
  lemma {:induction false} EmailShapeIsPattern(e: string)
    ensures IsEmailShape(e) <==> MatchesEmailPattern(e)
  {
    if IsEmailShape(e) {
      ShapeGivesPattern(e);
    }
    if MatchesEmailPattern(e) {
      var at, dot :| 0 <= at < dot < |e| && e[at] == '@' && e[dot] == '.'
        && IsAtomRun(e[..at]) && IsAtomRun(e[at + 1..dot]) && IsAtomRun(e[dot + 1..]);
      PatternGivesShape(e, at, dot);
    }
  }

  lemma {:induction false} ShapeGivesPattern(e: string)
    requires IsEmailShape(e)
    ensures MatchesEmailPattern(e)
  {
    var at := FirstIndex(e, '@');
    var domain := e[at + 1..];
    CountOfOne(e, '@');
    var k :| 1 <= k < |domain| - 1 && domain[k] == '.';
    var dot := at + 1 + k;
    assert e[dot] == '.';
    assert forall i :: at < i < |e| ==> e[i] == domain[i - at - 1];
    assert forall i :: at < i < |e| ==> e[i] != '@';
    AtomRunOfSlice(e, 0, at);
    AtomRunOfSlice(e, at + 1, dot);
    AtomRunOfSlice(e, dot + 1, |e|);
    assert e[dot + 1..|e|] == e[dot + 1..];
  }

  /** A non-empty stretch of `e` with no white space and no `@` is a run
      the class `[^\s@]+` accepts. */
  lemma {:induction false} AtomRunOfSlice(e: string, lo: nat, hi: nat)
    requires lo < hi <= |e|
    requires forall i :: lo <= i < hi ==> !IsSpace(e[i]) && e[i] != '@'
    ensures IsAtomRun(e[lo..hi])
  {
    var run := e[lo..hi];
    assert forall i :: 0 <= i < |run| ==> run[i] == e[lo + i];
  }

  lemma {:induction false} PatternGivesShape(e: string, at: nat, dot: nat)
    requires at < dot < |e| && e[at] == '@' && e[dot] == '.'
    requires IsAtomRun(e[..at]) && IsAtomRun(e[at + 1..dot]) && IsAtomRun(e[dot + 1..])
    ensures IsEmailShape(e)
  {
    forall i | 0 <= i < |e| ensures !IsSpace(e[i]) && (e[i] == '@' ==> i == at) {
      if i < at {
        assert e[i] == e[..at][i];
      } else if at < i < dot {
        assert e[i] == e[at + 1..dot][i - at - 1];
      } else if dot < i {
        assert e[i] == e[dot + 1..][i - dot - 1];
      }
    }
    assert FirstIndex(e, '@') == at;
    var domain := e[at + 1..];
    assert domain[dot - at - 1] == '.';
    assert '@' !in domain;
    CountOfOne(e, '@');
  }

  /** The values `FormData.get` returns for the fields `name`, `email`,
      `message` and the hidden honeypot `website`; `None` for a field the
      form does not have. */
  datatype Submission = Submission(
    name: Option<string>,
    email: Option<string>,
    message: Option<string>,
    website: Option<string>)

  /** What the status line shows. `Idle` is the page's initial state; the
      rest are the outcomes of a submission and of the simulated send. */
  datatype Status = Idle | Spam | MissingFields | InvalidEmail | Sending | Sent

  function StatusText(s: Status): string {
    match s
    case Idle => ""
    case Spam => "Spam detected."
    case MissingFields => "Mohon isi semua field yang diperlukan."
    case InvalidEmail => "Mohon masukkan alamat email yang valid."
    case Sending => "Mengirim..."
    case Sent => "Terima kasih! Pesan Anda telah dikirim (simulasi)."
  }

  function StatusColor(s: Status): string {
    match s
    case Idle => ""
    case Spam => "red"
    case MissingFields => "crimson"
    case InvalidEmail => "crimson"
    case Sending => "var(--color-muted)"
    case Sent => "green"
  }

  /** JavaScript truthiness of a field value: present and not empty. */
  predicate Truthy(v: Option<string>) {
    v.Some? && v.value != []
  }

  /** `v?.trim()`: trims a present value and leaves an absent one absent. */
  function TrimmedField(v: Option<string>): Option<string> {
    match v
    case None => None
    case Some(s) => Some(Trim(s))
  }

  /** A required field counts as filled in when it is present and is not
      all white space. */
  predicate IsFilled(v: Option<string>) {
    v.Some? && !AllSpace(v.value)
  }

  /** The submit handler's decision. The honeypot is checked first and as it
      is (untrimmed); then the trimmed required fields; then the trimmed
      e-mail against the pattern. The first check that fails decides. */
  function Decide(f: Submission): (s: Status)
    ensures s == Spam <==> Truthy(f.website)
    ensures s == MissingFields <==>
              !Truthy(f.website) && !(IsFilled(f.name) && IsFilled(f.email) && IsFilled(f.message))
    ensures s == InvalidEmail ==> !IsEmailShape(Trim(f.email.value))
    ensures s in {Spam, MissingFields, InvalidEmail, Sending}
  {
    if Truthy(f.website) then Spam
    else
      var name, email, message := TrimmedField(f.name), TrimmedField(f.email), TrimmedField(f.message);
      if !Truthy(name) || !Truthy(email) || !Truthy(message) then MissingFields
      else if !IsEmailShape(email.value) then InvalidEmail
      else Sending
  }

  /** A submission reaches the simulated send exactly when the honeypot is
      empty or absent, every required field is filled in, and the trimmed
      e-mail matches the pattern. */
  lemma {:induction false} SendingExactlyWhenValid(f: Submission)
    ensures Decide(f) == Sending <==>
              !Truthy(f.website)
              && IsFilled(f.name) && IsFilled(f.email) && IsFilled(f.message)
              && MatchesEmailPattern(Trim(f.email.value))
  {
    if f.email.Some? {
      EmailShapeIsPattern(Trim(f.email.value));
    }
  }

  /** With the honeypot empty and the other fields filled in, a malformed
      e-mail is reported as such. */
  lemma {:induction false} InvalidEmailExactlyWhenNoMatch(f: Submission)
    ensures Decide(f) == InvalidEmail <==>
              !Truthy(f.website)
              && IsFilled(f.name) && IsFilled(f.email) && IsFilled(f.message)
              && !MatchesEmailPattern(Trim(f.email.value))
  {
    if f.email.Some? {
      EmailShapeIsPattern(Trim(f.email.value));
    }
  }

  /** A filled-in honeypot decides the outcome whatever the other fields
      hold. */
  lemma {:induction false} HoneypotOverridesAll(f: Submission, g: Submission)
    requires Truthy(f.website) && f.website == g.website
    ensures Decide(f) == Spam && Decide(g) == Spam
  {
  }

  /** White space around the e-mail address never changes the outcome,
      since the address is trimmed before it is checked. */
  lemma {:induction false} EmailPaddingIgnored(f: Submission, pre: string, post: string)
    requires f.email.Some? && AllSpace(pre) && AllSpace(post)
    ensures Decide(f.(email := Some(pre + f.email.value + post))) == Decide(f)
  {
    TrimIgnoresPadding(pre, f.email.value, post);
  }

  /** An address without an `@`, or without a `.` after its `@`, is
      rejected as invalid once the other fields are filled in. */
  lemma {:induction false} NoAtOrNoDotIsInvalid(f: Submission)
    requires !Truthy(f.website) && IsFilled(f.name) && IsFilled(f.email) && IsFilled(f.message)
    requires var e := Trim(f.email.value);
             '@' !in e || '.' !in e[FirstIndex(e, '@')..]
    ensures Decide(f) == InvalidEmail
  {
  }

  /** `form.reset()`: every field the form has goes back to its default
      value, which for this form is the empty string. */
  function Reset(f: Submission): (r: Submission)
    ensures r.name.Some? == f.name.Some? && r.email.Some? == f.email.Some?
    ensures r.message.Some? == f.message.Some? && r.website.Some? == f.website.Some?
    ensures !Truthy(r.name) && !Truthy(r.email) && !Truthy(r.message) && !Truthy(r.website)
  {
    Submission(Empty(f.name), Empty(f.email), Empty(f.message), Empty(f.website))
  }

  function Empty(v: Option<string>): Option<string> {
    if v.Some? then Some("") else None
  }

  /** Submitting a form that was just cleared asks for the missing fields. */
  lemma {:induction false} ResetFormIsIncomplete(f: Submission)
    ensures Decide(Reset(f)) == MissingFields
  {
  }

  /** The form on the page: the values in its fields, what its status line
      shows, and how many simulated sends are still waiting for their timer. */
  class Form {
    var fields: Submission
    var status: Status
    var pendingSends: nat

    constructor (initial: Submission)
      ensures fields == initial && status == Idle && pendingSends == 0
    {
      fields := initial;
      status := Idle;
      pendingSends := 0;
    }

    /** The submit event: the status line shows the decision, the fields are
      left as they are, and a send is scheduled only on the way to `Sent`. */
    method Submit()
      modifies this
      ensures status == Decide(old(fields)) && fields == old(fields)
      ensures pendingSends == old(pendingSends) + (if status == Sending then 1 else 0)
    {
      var outcome := Decide(fields);
      status := outcome;
      if outcome == Sending {
        pendingSends := pendingSends + 1;
      }
    }

    /** The send timer fires: the status line reports success and the form
      is cleared. */
    method CompleteSend()
      requires pendingSends > 0
      modifies this
      ensures status == Sent && fields == Reset(old(fields))
      ensures pendingSends == old(pendingSends) - 1
    {
      status := Sent;
      fields := Reset(fields);
      pendingSends := pendingSends - 1;
    }
  }

  /** A valid submission, then its timer: the status line goes through
      `Sending` to `Sent` and the form ends up cleared. */
  method SubmitValidThenSend(f: Submission) returns (seen: seq<Status>, after: Submission)
    requires Decide(f) == Sending
    ensures seen == [Sending, Sent]
    ensures after == Reset(f) && Decide(after) == MissingFields
  {
    var form := new Form(f);
    form.Submit();
    var first := form.status;
    form.CompleteSend();
    seen := [first, form.status];
    after := form.fields;
    ResetFormIsIncomplete(f);
  }

  /** A submission that some check rejects leaves the status line on that
      rejection and schedules no send. */
  method SubmitRejected(f: Submission) returns (shown: Status, pending: nat)
    requires Decide(f) != Sending
    ensures shown == Decide(f)
    ensures shown in {Spam, MissingFields, InvalidEmail} && pending == 0
  {
    var form := new Form(f);
    form.Submit();
    shown := form.status;
    pending := form.pendingSends;
  }
}
