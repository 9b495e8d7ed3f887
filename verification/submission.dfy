/** `handleFormSubmission` (script.js:89-116) and the one-at-a-time rule of
    `showNotification` (script.js:205-247).

    A submission validates the form; if it passes, the submit button is
    disabled and relabelled `Sending...`, and a 2000 ms timer is started that
    remembers the label the button had at that moment.  The timer firing is
    the explicit `Complete` step: a success notification replaces any other,
    the form is reset, and the remembered label comes back on an enabled
    button.  Nothing stops a second submission while a timer is pending.
 */
module Submission {
  import opened Validation

  /** The label shown while a submission is in flight. */
  const BusyLabel: string := "Sending..."

  /** The text of the success notification. */
  const ThanksMessage: string := "Thank you! We'll be in touch within 2 hours."

  datatype Button = Button(text: string, disabled: bool)

  /** A child of the document body: a `.notification` element (its text and
      its type) or any other element. */
  datatype Node = Other(id: nat) | Notification(message: string, kind: string)

  /** `timers` holds, oldest first, the label each pending completion timer
      will restore; equal delays make them fire in that order. */
  datatype Page = Page(form: Form, button: Button, body: seq<Node>, timers: seq<string>)

  /** The `.notification` elements of `body`, in order. */
  function Notifications(body: seq<Node>): seq<Node> {
    if body == [] then []
    else (if body[0].Notification? then [body[0]] else []) + Notifications(body[1..])
  }

  /** The other elements of `body`, in order. */
  function Others(body: seq<Node>): seq<Node> {
    if body == [] then []
    else (if body[0].Other? then [body[0]] else []) + Others(body[1..])
  }

  lemma {:induction false} NotificationsAppend(a: seq<Node>, b: seq<Node>)
    ensures Notifications(a + b) == Notifications(a) + Notifications(b)
  {
    if a == [] {
      assert a + b == b;
    } else {
      var head := if a[0].Notification? then [a[0]] else [];
      assert (a + b)[0] == a[0];
      calc {
        Notifications(a + b);
        head + Notifications((a + b)[1..]);
        { assert (a + b)[1..] == a[1..] + b; NotificationsAppend(a[1..], b); }
        head + (Notifications(a[1..]) + Notifications(b));
        (head + Notifications(a[1..])) + Notifications(b);
      }
    }
  }

  lemma {:induction false} OthersAppend(a: seq<Node>, b: seq<Node>)
    ensures Others(a + b) == Others(a) + Others(b)
  {
    if a == [] {
      assert a + b == b;
    } else {
      var head := if a[0].Other? then [a[0]] else [];
      assert (a + b)[0] == a[0];
      calc {
        Others(a + b);
        head + Others((a + b)[1..]);
        { assert (a + b)[1..] == a[1..] + b; OthersAppend(a[1..], b); }
        head + (Others(a[1..]) + Others(b));
        (head + Others(a[1..])) + Others(b);
      }
    }
  }

  /** Removes every `.notification` element and keeps the rest in order. */
  function RemoveNotifications(body: seq<Node>): (r: seq<Node>)
    ensures Notifications(r) == []
    ensures Others(r) == Others(body)
  {
    if body == [] then []
    else
      var rest := RemoveNotifications(body[1..]);
      var head := if body[0].Notification? then [] else [body[0]];
      NotificationsAppend(head, rest);
      OthersAppend(head, rest);
      head + rest
  }

  /** `showNotification(message, kind)`: whatever notifications were on the
      page, afterwards there is exactly one, the new one, at the end of the
      body; no other element is touched. */
  function ShowNotification(body: seq<Node>, message: string, kind: string): (r: seq<Node>)
    ensures Notifications(r) == [Notification(message, kind)]
    ensures Others(r) == Others(body)
    ensures r != [] && r[|r| - 1] == Notification(message, kind)
  {
    var kept := RemoveNotifications(body);
    NotificationsAppend(kept, [Notification(message, kind)]);
    OthersAppend(kept, [Notification(message, kind)]);
    kept + [Notification(message, kind)]
  }

  /** Shows each message of `messages` in turn, all with the same type. */
  function ShowAll(body: seq<Node>, messages: seq<string>, kind: string): seq<Node>
    decreases |messages|
  {
    if messages == [] then body
    else ShowAll(ShowNotification(body, messages[0], kind), messages[1..], kind)
  }

  /** However many notifications are shown in quick succession, one remains:
      the last. */
  lemma {:induction false} OnlyLastNotificationRemains(body: seq<Node>, messages: seq<string>, kind: string)
    requires messages != []
    ensures Notifications(ShowAll(body, messages, kind)) == [Notification(messages[|messages| - 1], kind)]
    ensures Others(ShowAll(body, messages, kind)) == Others(body)
    decreases |messages|
  {
    if |messages| > 1 {
      OnlyLastNotificationRemains(ShowNotification(body, messages[0], kind), messages[1..], kind);
    }
  }

  /* ------------------------------------------------------------ lifecycle */

  /** The submit handler.  A failed validation leaves the button, body and
      timers alone (the annotations it set remain); a passed one captures
      the CURRENT label, shows the busy label on a disabled button and starts
      a timer. */
  function Submit(p: Page): (r: Page)
    requires WellFormed(p.form)
    ensures WellFormed(r.form) && SameData(p.form, r.form)
    ensures r.form == ValidateForm(p.form).0 && r.body == p.body
    ensures !ValidateForm(p.form).1 ==> r.button == p.button && r.timers == p.timers
    ensures ValidateForm(p.form).1 ==>
      r.button == Button(BusyLabel, true) && r.timers == p.timers + [p.button.text]
  {
    var (form, ok) := ValidateForm(p.form);
    if !ok then p.(form := form)
    else Page(form, Button(BusyLabel, true), p.body, p.timers + [p.button.text])
  }

  /** The oldest timer fires: success notification, `form.reset()`, and the
      label that timer captured back on an enabled button. */
  function Complete(p: Page): (r: Page)
    requires WellFormed(p.form) && p.timers != []
    ensures WellFormed(r.form)
    ensures r.button == Button(p.timers[0], false) && r.timers == p.timers[1..]
    ensures Notifications(r.body) == [Notification(ThanksMessage, "success")]
    ensures Others(r.body) == Others(p.body)
    ensures |r.form.controls| == |p.form.controls|
    ensures forall j :: 0 <= j < |p.form.controls| ==> r.form.controls[j].value == p.form.controls[j].defaultValue
    ensures forall j :: 0 <= j < |p.form.controls| ==>
      r.form.controls[j] == p.form.controls[j].(value := p.form.controls[j].defaultValue)
    ensures r.form.annotations == p.form.annotations
  {
    Page(Reset(p.form), Button(p.timers[0], false), ShowNotification(p.body, ThanksMessage, "success"), p.timers[1..])
  }

  /** Submitting a valid form and letting its timer fire gives back the
      button exactly as it was, enabled, with every control at its default
      value and the thank-you note as the only notification. */
  lemma SubmitThenCompleteRestores(p: Page)
    requires WellFormed(p.form) && p.timers == [] && !p.button.disabled
    requires forall j :: 0 <= j < |p.form.controls| && p.form.controls[j].required ==> Judge(p.form.controls[j]).Valid?
    ensures var q := Complete(Submit(p));
      && q.button == p.button && q.timers == []
      && Notifications(q.body) == [Notification(ThanksMessage, "success")]
      && Others(q.body) == Others(p.body)
      && |q.form.controls| == |p.form.controls|
      && forall j :: 0 <= j < |p.form.controls| ==> q.form.controls[j].value == p.form.controls[j].defaultValue
  {
    var s := Submit(p);
    assert s.timers == [p.button.text];
  }

  /** An invalid form changes nothing but error classes and annotations. */
  lemma InvalidSubmitKeepsButton(p: Page)
    requires WellFormed(p.form)
    requires exists j :: 0 <= j < |p.form.controls| && p.form.controls[j].required && !Judge(p.form.controls[j]).Valid?
    ensures Submit(p).button == p.button && Submit(p).timers == p.timers && Submit(p).body == p.body
  {
  }

  /** The submit handler as `initContactForm` leaves it: that function runs
      once from each of the two `DOMContentLoaded` listeners, so one submit
      event runs `handleFormSubmission` twice. */
  function DoubleRegisteredSubmit(p: Page): (r: Page)
    requires WellFormed(p.form)
    ensures WellFormed(r.form) && SameData(p.form, r.form)
  {
    Submit(Submit(p))
  }

  /** With the handler registered twice, one valid submission starts two
      timers, the second capturing the busy label; once both have fired the
      button is enabled but still reads `Sending...`. */
  lemma DoubleRegistrationLeavesBusyLabel(p: Page)
    requires WellFormed(p.form) && p.timers == []
    requires forall j :: 0 <= j < |p.form.controls| && p.form.controls[j].required ==> Judge(p.form.controls[j]).Valid?
    ensures var q := Complete(Complete(DoubleRegisteredSubmit(p)));
      q.button == Button(BusyLabel, false) && q.timers == []
  {
    var s1 := Submit(p);
    SameDataJudge(p.form, s1.form);
    var s2 := Submit(s1);
    assert s2.timers == [p.button.text, BusyLabel];
    var c1 := Complete(s2);
    assert c1.timers == [BusyLabel];
  }

  /* --------------------------------------------------------------- events */

  /** What the user and the clock can do to the contact form.  A `Blurred`
      event reaches only required controls, the only ones with a blur
      listener. */
  datatype FormEvent = SubmitPressed | TimerFired | Blurred(control: nat) | Typed(control: nat, text: string)

  /** One event.  A disabled submit button cannot be activated, so
      `SubmitPressed` does nothing then; an event without a target does
      nothing. */
  function Step(p: Page, e: FormEvent): (r: Page)
    requires WellFormed(p.form)
    ensures WellFormed(r.form)
    ensures e.SubmitPressed? && p.button.disabled ==> r == p
    ensures !e.TimerFired? ==> r.body == p.body
    ensures |r.timers| <= |p.timers| + 1
    ensures |r.timers| > |p.timers| ==> e.SubmitPressed? && r.timers == p.timers + [p.button.text]
    ensures (e.SubmitPressed? || e.Blurred?) ==> SameData(p.form, r.form)
  {
    match e
    case SubmitPressed => if p.button.disabled then p else Submit(p)
    case TimerFired => if p.timers == [] then p else Complete(p)
    case Blurred(i) =>
      if i < |p.form.controls| && p.form.controls[i].required then p.(form := ValidateFieldAt(p.form, i).0) else p
    case Typed(i, t) =>
      if i < |p.form.controls| then
        p.(form := p.form.(controls := p.form.controls[i := p.form.controls[i].(value := t)]))
      else p
  }

  function Run(p: Page, events: seq<FormEvent>): (r: Page)
    requires WellFormed(p.form)
    ensures WellFormed(r.form)
    decreases |events|
  {
    if events == [] then p else Run(Step(p, events[0]), events[1..])
  }

  /** The two states the button can be in with the handler registered once:
      idle, showing `original`, or busy with one timer that will restore
      `original`. */
  predicate Lifecycle(p: Page, original: string) {
    || (p.button == Button(original, false) && p.timers == [])
    || (p.button == Button(BusyLabel, true) && p.timers == [original])
  }

  /** With a single registration, every run of events keeps the button in
      one of its two states, so the original label always comes back, and
      the page never holds more than one notification. */
  lemma {:induction false} RunKeepsLifecycle(p: Page, original: string, events: seq<FormEvent>)
    requires WellFormed(p.form) && Lifecycle(p, original) && |Notifications(p.body)| <= 1
    ensures Lifecycle(Run(p, events), original)
    ensures |Notifications(Run(p, events).body)| <= 1
    decreases |events|
  {
    if events != [] {
      var next := Step(p, events[0]);
      assert Lifecycle(next, original) && |Notifications(next.body)| <= 1;
      RunKeepsLifecycle(next, original, events[1..]);
    }
  }
}
