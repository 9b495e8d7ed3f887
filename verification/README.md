# Dakota Digital Design site script — verified model of its stateful core

The site's `script.js` mostly wires DOM events to style changes. Three pieces
of it carry rules that can be stated and proved. This project models them as
pure Dafny functions over immutable data:

- **Field validation.** `validateField` trims a control's value. Controls
  named `email`, `phone` and `website` then get a format rule, and the
  `required` rule runs last, so its message wins. Error annotations are the
  `.field-error` elements under the control's *parent node*: each call
  removes the first one and appends one when the control is invalid.
  `validateForm` validates every required control, with no short-circuit.
  The three regular expressions are hand-written predicates (`Rules`). Each
  has a grammar-style reference definition and a proof that the check the
  validator computes agrees with it on every string.
- **Section tracking.** The scroll handler of `initNavigation` takes the
  first of `home, services, portfolio, contact` whose extent contains
  `scrollY + 100`. Sections missing from the document are skipped. The
  handler re-marks the tabs only when the match differs from the remembered
  `activeSection`. A tab click re-marks the tabs without touching
  `activeSection`, so the two can drift apart. The model keeps that drift.
- **Submit lifecycle.** `handleFormSubmission` is a two-step state machine.
  `Submit` validates the form. On success it captures the button's current
  label, shows `Sending...` on a disabled button and starts a timer.
  `Complete` is that timer firing: it shows the success notification
  (removing every other notification first), resets the form and restores
  the captured label on an enabled button.

Modules: `Text` (white space, `trim`), `Rules` (email, phone and URL
patterns), `Validation` (verdicts, annotations, `validateForm`, `reset`),
`Scenarios` (the concrete accept/reject cases), `Navigation`, `Submission`.

Inputs the browser supplies become parameters. These are the scroll offset,
the section extents (`offsetTop`, `offsetHeight`), the tabs' `data-section`
attributes and the form's controls. The 2000 ms timer becomes the explicit
`Complete` step.

Points where the code behaves in a way a reader might not expect, and
which the model keeps:
- A tab click never sets `activeSection` (script.js:20-24). Only the
  scroll handler does.
- On completion the form is `reset()`, which restores each control's
  *default* value (script.js:110). The fields end up empty only when their
  defaults are empty.
- The email pattern accepts any characters other than white space and `@`
  (script.js:145), not only ASCII.
- `setActiveTab` marks *every* tab whose `data-section` matches
  (script.js:50-52), which may be several. A tab without `data-section`
  passes null, which marks every such tab. `Navigation.RunKeepsCoherent`
  proves the guarantee the code does give: all marked tabs share one
  section.
- With several required controls under one parent, annotations overwrite
  each other (script.js:194, 198). So "one annotation per invalid field"
  holds only when parents are distinct. `Validation.ValidateForm` states
  that condition, and `Scenarios.SharedParentShowsOneError` shows what
  happens without it.

## Model

| member | source | states |
|---|---|---|
| Text.Trim | script.js:134 | `value.trim()` is the part of the value between its leading and trailing white space, neither of whose ends is white space, and it is empty exactly when the value is all white space |
| Text.TrimIdempotent | script.js:134 | trimming an already trimmed value changes nothing |
| Rules.EmailIff | script.js:145-146 | the email check holds exactly when the value splits as `[^\s@]+` `@` `[^\s@]+` `.` `[^\s@]+`: one `@` with something before it, no white space, and a `.` after the `@` with a character on each side |
| Rules.StripPhone | script.js:154 | removing `\s`, `-`, `(` and `)` leaves none of them and never lengthens the value |
| Rules.StripPhoneCounts | script.js:154 | every other character survives stripping as often as it occurred |
| Rules.StripPhoneAppend | script.js:154 | stripping works piece by piece, so the surviving characters keep their order |
| Rules.PhoneIff | script.js:153-154 | the phone check holds exactly when the stripped value is an optional `+`, then a digit 1-9, then at most 15 more digits |
| Rules.UrlOpenEnded | script.js:161-162 | the URL pattern is anchored only at the start: anything may follow a matching `http://` or `https://` value |
| Rules.UrlIff | script.js:160-162 | the URL check holds exactly when the value splits as `http`, an optional `s`, `://` and a character that is not a line terminator, with anything after it |
| Validation.CheckMeaning | script.js:133-171 | the required message comes exactly for a required blank value; each format message comes exactly for a non-blank value of its own field that fails its pattern; a value is valid exactly when no rule objects, so at most one format rule applies and it never competes with the required rule |
| Validation.Check | script.js:133-171 | the verdict of `validateField` for a control: the required message only ever comes for a required control, and each format message only for the field its rule names |
| Validation.CheckSeesTrimmed | script.js:134 | the verdict depends on the value only through its trimmed form |
| Validation.ValidateFieldAt | script.js:133-202 | one validation sets the control's `error` class exactly when it is invalid; it removes the first annotation of the control's parent and appends exactly one, carrying the verdict's message, exactly when the control is invalid; nothing else changes |
| Validation.ValidateFieldIdempotent | script.js:139-177 | when the parent starts with at most one annotation, validating the same value a second time leaves the same state |
| Validation.ValidateFrom | script.js:124-128 | walking the required controls in order validates each one; the result is true exactly when all of them are valid; parents no required control uses keep their annotations |
| Validation.ValidateForm | script.js:119-131 | `validateForm` is true exactly when every required control is valid; every required control gets its `error` class; when required controls have distinct parents holding at most one annotation each, every invalid one ends with exactly its own message and every valid one with none |
| Validation.Reset | script.js:110 | `form.reset()` puts every control back to its default value and leaves classes and annotations alone |
| Scenarios.EmailWithoutDotRejected | script.js:144-149 | `a@b` fails with "Please enter a valid email address" |
| Scenarios.EmailAccepted | script.js:144-149 | `a@b.com` is valid |
| Scenarios.StripPunctuatedPhone | script.js:154 | a number written `(area) exchange-line` strips to its digits |
| Scenarios.PunctuatedPhoneAccepted | script.js:152-157 | any such number of at most 16 digits whose first digit is not 0 passes the phone rule |
| Scenarios.PhoneWithPunctuationAccepted | script.js:152-157 | `(555) 123-4567` is valid |
| Scenarios.PhoneWithLeadingZeroRejected | script.js:152-157 | `0123` fails with "Please enter a valid phone number" |
| Scenarios.UrlWithoutSchemeRejected | script.js:160-165 | `example.com` fails the URL rule |
| Scenarios.SchemelessUrlRejected | script.js:160-165 | any non-blank unpadded value whose first character is not `h` fails the URL rule |
| Scenarios.BareSchemeRejected | script.js:160-165 | `http://` or `https://` with nothing after it fails the URL rule |
| Scenarios.HttpsUrlAccepted | script.js:160-165 | `https://` followed by anything that neither starts nor ends with white space is a valid website |
| Scenarios.UrlAccepted | script.js:160-165 | `https://example.com` is valid |
| Scenarios.BlankValues | script.js:168-171 | every value made only of white space, the empty value included, gets "This field is required" in any required field and is accepted in any optional one |
| Scenarios.SharedParentShowsOneError | script.js:194-201 | two invalid required controls under one parent leave one annotation, the second control's |
| Navigation.FirstHitFrom | script.js:31-43 | the scan returns the first section in list order that exists and contains the probe, or nothing when no section does |
| Navigation.SetActiveTab | script.js:47-54 | afterwards exactly the tabs whose `data-section` equals the argument carry `active`; the tabs themselves are unchanged |
| Navigation.SetActiveTabLastWins | script.js:47-54 | earlier marks are forgotten: the last `setActiveTab` call alone decides the marks |
| Navigation.OnScroll | script.js:28-44 | the scroll handler either leaves the state exactly as it was or moves `activeSection` to the section the scan found; the tab list keeps its length |
| Navigation.OnTabClick | script.js:20-24 | a tab click leaves `activeSection` alone and marks exactly the tabs whose `data-section` equals the clicked tab's, keeping every tab's `data-section` |
| Navigation.ScrollTracksFirstCovering | script.js:28-44 | with probe `scrollY + 100`, a scroll makes `activeSection` the first existing section containing the probe; with no match, or with a match equal to `activeSection`, nothing changes; on a change the tabs are marked for the new section |
| Navigation.EarlierSectionWins | script.js:31-41 | when extents overlap, the section earlier in the list wins |
| Navigation.ScrollKeepsMarks | script.js:36-39 | a scroll keeps the tabs marked for `activeSection` once they are |
| Navigation.ClickMarksClickedTab | script.js:20-24 | a tab click marks exactly the tabs sharing the clicked tab's `data-section` and leaves `activeSection` alone |
| Navigation.ClickThenScrollBackIsStale | script.js:20-39 | after a click on another section's tab, a scroll back into the remembered section leaves the clicked tab marked and that section's tabs unmarked |
| Navigation.RunKeepsCoherent | script.js:19-54 | through any run of scrolls and clicks, once all marked tabs share one section they keep doing so, and the tab list never changes |
| Navigation.RunActiveIsSection | script.js:15-44 | `activeSection` only ever holds one of the four section ids |
| Navigation.StartUpActiveIsSection | script.js:14-44 | starting from `activeSection = 'home'`, any run of scrolls and clicks keeps `activeSection` one of the four section ids |
| Submission.RemoveNotifications | script.js:207-208 | removing the notifications leaves none and keeps every other element in order |
| Submission.ShowNotification | script.js:205-247 | afterwards the page holds exactly one notification, the new one, appended last, and every other element is kept |
| Submission.OnlyLastNotificationRemains | script.js:205-247 | after notifications are shown in quick succession, only the last remains |
| Submission.Submit | script.js:89-102 | a failed validation leaves button, notifications and timers untouched; a passed one disables the button, shows `Sending...`, and starts a timer holding the label the button had at that moment |
| Submission.InvalidSubmitKeepsButton | script.js:94-96 | if any required control is invalid, submitting changes neither the button, nor the timers, nor the page body |
| Submission.Complete | script.js:105-115 | the oldest timer fires: the success notification is the only notification, every control is at its default value with everything else about it unchanged, annotations stay, and the captured label is back on an enabled button |
| Submission.SubmitThenCompleteRestores | script.js:89-115 | submitting a valid form from the idle state and letting the timer fire restores the original button, with the form reset and the thank-you note as the only notification |
| Submission.DoubleRegisteredSubmit | script.js:579-589 | the submit handler as registered by the two start-up listeners runs the whole submission twice; the form data stays as it was |
| Submission.DoubleRegistrationLeavesBusyLabel | script.js:99-115 | with the handler registered twice, after both timers fire the button is enabled but reads `Sending...` |
| Submission.Step | script.js:73-84 | one event: a press on a disabled button does nothing; only a timer changes the page body; only an accepted submit adds a timer, and it holds the label shown at that moment; submits and blurs change no form data |
| Submission.RunKeepsLifecycle | script.js:89-116 | with one registration, every run of submits, timer firings, blurs and edits keeps the button either idle with its original label or busy with one timer that will restore it, and never more than one notification on the page |

## Findings

| source | as written | input that shows it | evidently intended | confidence | as-written member | corrected member |
|---|---|---|---|---|---|---|
| script.js:579-589 | the second `DOMContentLoaded` listener calls `initContactForm` again, so every submit event runs `handleFormSubmission` twice; the second run captures `Sending...` as the label to restore, and its timer fires after the first one | any valid form submitted once while the button reads a label other than `Sending...`: after both timers the button is enabled and reads `Sending...` (`Submission.DoubleRegistrationLeavesBusyLabel`) | one registration, after which the original label comes back (`Submission.SubmitThenCompleteRestores`, `Submission.RunKeepsLifecycle`) | high, not executed (it assumes the script runs before `DOMContentLoaded`, the usual case) | Submission.DoubleRegisteredSubmit | Submission.Submit |

The same duplication registers the navigation handlers and the blur listeners
twice. That is harmless:
- A second `setActiveTab` with the same argument changes nothing
  (`Navigation.SetActiveTabLastWins`).
- A second scroll handler reaches the same result from the same state.
- A second `validateField` on the same value changes nothing
  (`Validation.ValidateFieldIdempotent`) while each parent holds at most one
  annotation.

The rest of the model therefore uses single registration.

## Left out

- Smooth scrolling (`scrollToSection`, `scrollIntoView`, `window.scrollTo`,
  script.js:57-66, 443-448) and the global anchor-link click handler
  (script.js:318-325). They only start browser scrolling; the scroll events
  that follow are `Navigation.OnScroll` steps.
- Timers other than the submission delay: the notification slide-in, the
  5 s auto-dismiss with its 300 ms exit (script.js:249-262), and `debounce`
  (script.js:492-509). Notifications therefore stay until the next one
  replaces them.
- Notification colours per type and all injected styles, hover effects and
  intersection-observer animations (script.js:216-244, 265-302, 327-344,
  360-402, 511-576). They are cosmetic.
- The mobile menu toggle, the keyboard and touch handlers, the scroll-to-top
  button and the unused `setButtonLoading` (script.js:304-316, 346-358,
  405-489). They are trivial class toggles with nothing to state.
- `removeFieldError` looks for the first `.field-error` anywhere below the
  control's parent (script.js:198). When one control's parent contains
  another control's parent, it can remove the other control's annotation.
  The model keeps one annotation list per parent and assumes such parents
  are not nested.
- `handleFormSubmission` assumes the form has a `button[type="submit"]`
  (script.js:99-100). Without one, reading `textContent` throws after a
  passed validation. The model's page always has its submit button.
- The unused `FormData` (script.js:91) and the start-up log line
  (script.js:580).
- `scrollY` may be fractional in a browser; the model uses integers
  throughout.
- Dafny's `char` is a Unicode scalar value, whereas JavaScript strings are
  UTF-16 code units. Surrogate pairs are not modelled; the white-space and
  line-terminator sets are all in the Basic Multilingual Plane.
- `Submission.Complete` requires a pending timer, because without one there
  is nothing to fire. `Submission.Step` also ignores a submit while the
  button is disabled, because HTML does not activate a disabled submit
  button. That gate is the browser's behaviour, not the script's:
  `Submission.Submit` itself has no guard.
