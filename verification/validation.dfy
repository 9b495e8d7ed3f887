/** `validateField`, `validateForm` and the error annotations they leave in
    the contact form (script.js:119-202).

    A control's verdict depends only on its name, its trimmed value and its
    `required` attribute.  The annotations are the `.field-error` elements
    under each control's PARENT node: `removeFieldError` deletes the first of
    them and `showFieldError` appends one, so two controls that share a parent
    share one list of annotations.
 */
module Validation {
  import opened Text
  import opened Rules

  datatype FieldError = RequiredFieldEmpty | InvalidEmail | InvalidPhone | InvalidUrl

  /** The text of the `.field-error` element shown for each error. */
  function Message(e: FieldError): string {
    match e
    case RequiredFieldEmpty => "This field is required"
    case InvalidEmail => "Please enter a valid email address"
    case InvalidPhone => "Please enter a valid phone number"
    case InvalidUrl => "Please enter a valid URL starting with http:// or https://"
  }

  datatype Verdict = Valid | Invalid(error: FieldError)

  /** What the format rules demand of a non-empty trimmed value `t` of a
      control named `name`: only `email`, `phone` and `website` have a rule. */
  ghost predicate FormatOk(name: string, t: string) {
    && (name == "email" && t != [] ==> MatchesEmail(t))
    && (name == "phone" && t != [] ==> MatchesPhone(StripPhone(t)))
    && (name == "website" && t != [] ==> MatchesUrl(t))
  }

  /** The verdict `validateField` reaches for a control named `name` whose raw
      value is `raw`.  The rules run in source order, each failing rule
      overwriting the message, so the required rule, which runs last, wins. */
  function Check(name: string, raw: string, required: bool): (r: Verdict)
    ensures r == Invalid(RequiredFieldEmpty) ==> required
    ensures r == Invalid(InvalidEmail) ==> name == "email"
    ensures r == Invalid(InvalidPhone) ==> name == "phone"
    ensures r == Invalid(InvalidUrl) ==> name == "website"
  {
    var value := Trim(raw);
    var afterEmail :=
      if name == "email" && value != [] && !IsValidEmail(value) then Invalid(InvalidEmail) else Valid;
    var afterPhone :=
      if name == "phone" && value != [] && !IsValidPhone(StripPhone(value)) then Invalid(InvalidPhone) else afterEmail;
    var afterUrl :=
      if name == "website" && value != [] && !IsValidUrl(value) then Invalid(InvalidUrl) else afterPhone;
    if required && value == [] then Invalid(RequiredFieldEmpty) else afterUrl
  }

  /** What each verdict means, stated against the patterns themselves: the
      required message exactly for a required blank value, each format
      message exactly for a non-blank value of its own field that fails its
      pattern, and `Valid` exactly when no rule objects. */
  lemma CheckMeaning(name: string, raw: string, required: bool)
    ensures Check(name, raw, required) == Invalid(RequiredFieldEmpty) <==> required && AllSpace(raw)
    ensures Check(name, raw, required) == Invalid(InvalidEmail) <==>
      name == "email" && Trim(raw) != [] && !MatchesEmail(Trim(raw))
    ensures Check(name, raw, required) == Invalid(InvalidPhone) <==>
      name == "phone" && Trim(raw) != [] && !MatchesPhone(StripPhone(Trim(raw)))
    ensures Check(name, raw, required) == Invalid(InvalidUrl) <==>
      name == "website" && Trim(raw) != [] && !MatchesUrl(Trim(raw))
    ensures Check(name, raw, required) == Valid <==>
      (required ==> !AllSpace(raw)) && FormatOk(name, Trim(raw))
  {
    EmailIff(Trim(raw));
    PhoneIff(StripPhone(Trim(raw)));
    UrlIff(Trim(raw));
  }

  /** The verdict reads the value only through `trim`. */
  lemma CheckSeesTrimmed(name: string, raw: string, required: bool)
    ensures Check(name, Trim(raw), required) == Check(name, raw, required)
  {
    TrimIdempotent(raw);
    assert AllSpace(Trim(raw)) <==> AllSpace(raw);
  }

  /* ------------------------------------------------------------ the form */

  /** A form control.  `parent` names the control's parent node and
      `errorClass` is the `error` class on the control itself. */
  datatype Control = Control(
    name: string,
    value: string,
    defaultValue: string,
    required: bool,
    parent: nat,
    errorClass: bool)

  /** `annotations[p]` lists, in document order, the messages of the
      `.field-error` elements under parent node `p`. */
  datatype Form = Form(controls: seq<Control>, annotations: seq<seq<string>>)

  predicate WellFormed(f: Form) {
    forall i :: 0 <= i < |f.controls| ==> f.controls[i].parent < |f.annotations|
  }

  function Judge(c: Control): Verdict {
    Check(c.name, c.value, c.required)
  }

  /** The annotations a parent holds after its control was judged, when it
      held at most one before. */
  function Expected(c: Control): seq<string> {
    if Judge(c).Valid? then [] else [Message(Judge(c).error)]
  }

  /** `g` differs from `f` at most in error classes and annotations. */
  predicate SameData(f: Form, g: Form) {
    && |g.controls| == |f.controls|
    && |g.annotations| == |f.annotations|
    && forall j :: 0 <= j < |f.controls| ==>
         && g.controls[j].name == f.controls[j].name
         && g.controls[j].value == f.controls[j].value
         && g.controls[j].defaultValue == f.controls[j].defaultValue
         && g.controls[j].required == f.controls[j].required
         && g.controls[j].parent == f.controls[j].parent
  }

  /** `removeFieldError`: the first `.field-error`, if any, goes away. */
  function RemoveFirst(anns: seq<string>): seq<string> {
    if anns == [] then [] else anns[1..]
  }

  /** `validateField` applied to control `i`: the verdict, the control's
      `error` class, and its parent's annotations, which lose their first
      element and gain the message at the end when the control is invalid. */
  function ValidateFieldAt(f: Form, i: nat): (r: (Form, bool))
    requires WellFormed(f) && i < |f.controls|
    ensures WellFormed(r.0) && SameData(f, r.0)
    ensures r.1 <==> Judge(f.controls[i]).Valid?
    ensures r.0.controls[i].errorClass == !r.1
    ensures forall j :: 0 <= j < |f.controls| && j != i ==> r.0.controls[j] == f.controls[j]
    ensures forall p :: 0 <= p < |f.annotations| && p != f.controls[i].parent ==>
      r.0.annotations[p] == f.annotations[p]
    ensures var p := f.controls[i].parent;
      && |r.0.annotations[p]| == |RemoveFirst(f.annotations[p])| + (if r.1 then 0 else 1)
      && r.0.annotations[p][..|RemoveFirst(f.annotations[p])|] == RemoveFirst(f.annotations[p])
      && (!r.1 ==> r.0.annotations[p][|r.0.annotations[p]| - 1] == Message(Judge(f.controls[i]).error))
    ensures |f.annotations[f.controls[i].parent]| <= 1 ==>
      r.0.annotations[f.controls[i].parent] == Expected(f.controls[i])
  {
    var c := f.controls[i];
    var v := Judge(c);
    var ok := v.Valid?;
    var kept := RemoveFirst(f.annotations[c.parent]);
    var anns := if ok then kept else kept + [Message(v.error)];
    assert anns[..|kept|] == kept;
    (Form(f.controls[i := c.(errorClass := !ok)], f.annotations[c.parent := anns]), ok)
  }

  /** Validating a control twice in a row is validating it once, provided its
      parent held at most one annotation to begin with. */
  lemma ValidateFieldIdempotent(f: Form, i: nat)
    requires WellFormed(f) && i < |f.controls|
    requires |f.annotations[f.controls[i].parent]| <= 1
    ensures ValidateFieldAt(ValidateFieldAt(f, i).0, i) == ValidateFieldAt(f, i)
  {
    var (g, ok) := ValidateFieldAt(f, i);
    var (h, ok') := ValidateFieldAt(g, i);
    assert Judge(g.controls[i]) == Judge(f.controls[i]);
    assert h.controls == g.controls;
    assert h.annotations == g.annotations;
  }

  /** Some required control at index `k` or later has parent `p`. */
  predicate Touched(f: Form, k: nat, p: nat) {
    exists j :: k <= j < |f.controls| && f.controls[j].required && f.controls[j].parent == p
  }

  /** The required controls from index `k` on have pairwise distinct parents. */
  predicate DistinctParents(f: Form, k: nat) {
    forall j1, j2 :: k <= j1 < j2 < |f.controls| && f.controls[j1].required && f.controls[j2].required ==>
      f.controls[j1].parent != f.controls[j2].parent
  }

  /** Every required control from index `k` on has at most one annotation
      under its parent. */
  predicate AtMostOneAnnotation(f: Form, k: nat) {
    && WellFormed(f)
    && forall j :: k <= j < |f.controls| && f.controls[j].required ==>
         |f.annotations[f.controls[j].parent]| <= 1
  }

  /** Annotations of parents that no required control from index `k` on
      uses are the same in `h` as in `f`. */
  predicate KeepsUntouched(f: Form, k: nat, h: Form) {
    && |h.annotations| == |f.annotations|
    && forall p :: 0 <= p < |f.annotations| && !Touched(f, k, p) ==> h.annotations[p] == f.annotations[p]
  }

  /** Every required control from index `k` on carries the `error` class in
      `h` exactly when it is invalid; the others keep theirs. */
  predicate ClassesFrom(f: Form, k: nat, h: Form) {
    && |h.controls| == |f.controls|
    && forall j :: 0 <= j < |f.controls| ==>
         h.controls[j].errorClass ==
           if k <= j && f.controls[j].required then !Judge(f.controls[j]).Valid? else f.controls[j].errorClass
  }

  /** When the required controls from `k` on have their own parents, each
      holding at most one annotation, then in `h` each such parent holds
      exactly the annotation its control's verdict calls for. */
  predicate AnnotatedFrom(f: Form, k: nat, h: Form) {
    DistinctParents(f, k) && AtMostOneAnnotation(f, k) ==>
      && |h.annotations| == |f.annotations|
      && forall j :: k <= j < |f.controls| && f.controls[j].required ==>
           h.annotations[f.controls[j].parent] == Expected(f.controls[j])
  }

  /** Every required control from index `k` on is valid. */
  predicate AllValidFrom(f: Form, k: nat) {
    forall j :: k <= j < |f.controls| && f.controls[j].required ==> Judge(f.controls[j]).Valid?
  }

  /** `validateForm` from control `k` on: every required control is
      validated, in document order and without short-circuit. */
  function ValidateFrom(f: Form, k: nat): (r: (Form, bool))
    requires WellFormed(f) && k <= |f.controls|
    ensures WellFormed(r.0) && SameData(f, r.0)
    ensures r.1 <==> AllValidFrom(f, k)
    ensures ClassesFrom(f, k, r.0)
    ensures KeepsUntouched(f, k, r.0)
    ensures AnnotatedFrom(f, k, r.0)
    decreases |f.controls| - k
  {
    if k == |f.controls| then
      (f, true)
    else if !f.controls[k].required then
      var r := ValidateFrom(f, k + 1);
      SkipStep(f, k, r.0);
      r
    else
      var first := ValidateFieldAt(f, k);
      var rest := ValidateFrom(first.0, k + 1);
      ValidateFromStep(f, k, first.0, rest.0);
      (rest.0, first.1 && rest.1)
  }

  /** A control that is not required is passed over. */
  lemma SkipStep(f: Form, k: nat, h: Form)
    requires WellFormed(f) && k < |f.controls| && !f.controls[k].required
    requires ClassesFrom(f, k + 1, h) && KeepsUntouched(f, k + 1, h) && AnnotatedFrom(f, k + 1, h)
    ensures AllValidFrom(f, k) <==> AllValidFrom(f, k + 1)
    ensures ClassesFrom(f, k, h) && KeepsUntouched(f, k, h) && AnnotatedFrom(f, k, h)
  {
    SkipValid(f, k);
    SkipClasses(f, k, h);
    SkipUntouched(f, k, h);
    SkipAnnotated(f, k, h);
  }

  lemma SkipValid(f: Form, k: nat)
    requires WellFormed(f) && k < |f.controls| && !f.controls[k].required
    ensures AllValidFrom(f, k) <==> AllValidFrom(f, k + 1)
  {
  }

  lemma SkipClasses(f: Form, k: nat, h: Form)
    requires WellFormed(f) && k < |f.controls| && !f.controls[k].required
    requires ClassesFrom(f, k + 1, h)
    ensures ClassesFrom(f, k, h)
  {
  }

  lemma SkipUntouched(f: Form, k: nat, h: Form)
    requires WellFormed(f) && k < |f.controls| && !f.controls[k].required
    requires KeepsUntouched(f, k + 1, h)
    ensures KeepsUntouched(f, k, h)
  {
    assert forall p :: Touched(f, k, p) ==> Touched(f, k + 1, p);
  }

  lemma SkipAnnotated(f: Form, k: nat, h: Form)
    requires WellFormed(f) && k < |f.controls| && !f.controls[k].required
    requires AnnotatedFrom(f, k + 1, h)
    ensures AnnotatedFrom(f, k, h)
  {
  }

  lemma SameDataJudge(f: Form, g: Form)
    requires SameData(f, g)
    ensures forall j :: 0 <= j < |f.controls| ==>
      Judge(g.controls[j]) == Judge(f.controls[j]) && Expected(g.controls[j]) == Expected(f.controls[j])
  {
  }

  /** One step of `ValidateFrom`: validating control `k` and then the rest
      gives the guarantees of validating from `k`. */
  lemma ValidateFromStep(f: Form, k: nat, g: Form, h: Form)
    requires WellFormed(f) && k < |f.controls| && f.controls[k].required
    requires g == ValidateFieldAt(f, k).0
    requires SameData(g, h)
    requires ClassesFrom(g, k + 1, h) && KeepsUntouched(g, k + 1, h) && AnnotatedFrom(g, k + 1, h)
    ensures AllValidFrom(f, k) <==> ValidateFieldAt(f, k).1 && AllValidFrom(g, k + 1)
    ensures ClassesFrom(f, k, h) && KeepsUntouched(f, k, h) && AnnotatedFrom(f, k, h)
  {
    SameDataJudge(f, g);
    StepValid(f, k, g);
    StepClasses(f, k, g, h);
    StepUntouched(f, k, g, h);
    StepAnnotated(f, k, g, h);
  }

  lemma StepValid(f: Form, k: nat, g: Form)
    requires WellFormed(f) && k < |f.controls| && f.controls[k].required
    requires g == ValidateFieldAt(f, k).0
    ensures AllValidFrom(f, k) <==> ValidateFieldAt(f, k).1 && AllValidFrom(g, k + 1)
  {
    SameDataJudge(f, g);
  }

  lemma StepClasses(f: Form, k: nat, g: Form, h: Form)
    requires WellFormed(f) && k < |f.controls| && f.controls[k].required
    requires g == ValidateFieldAt(f, k).0
    requires ClassesFrom(g, k + 1, h)
    ensures ClassesFrom(f, k, h)
  {
    SameDataJudge(f, g);
    forall j | 0 <= j < |f.controls|
      ensures h.controls[j].errorClass ==
        if k <= j && f.controls[j].required then !Judge(f.controls[j]).Valid? else f.controls[j].errorClass
    {
      if j == k {
        assert h.controls[j].errorClass == g.controls[k].errorClass;
      } else {
        assert g.controls[j] == f.controls[j];
      }
    }
  }

  lemma StepUntouched(f: Form, k: nat, g: Form, h: Form)
    requires WellFormed(f) && k < |f.controls| && f.controls[k].required
    requires g == ValidateFieldAt(f, k).0
    requires KeepsUntouched(g, k + 1, h)
    ensures KeepsUntouched(f, k, h)
  {
    assert forall p :: Touched(g, k + 1, p) ==> Touched(f, k, p);
  }

  lemma StepAnnotated(f: Form, k: nat, g: Form, h: Form)
    requires WellFormed(f) && k < |f.controls| && f.controls[k].required
    requires g == ValidateFieldAt(f, k).0
    requires SameData(g, h)
    requires KeepsUntouched(g, k + 1, h) && AnnotatedFrom(g, k + 1, h)
    ensures AnnotatedFrom(f, k, h)
  {
    SameDataJudge(f, g);
    if DistinctParents(f, k) && AtMostOneAnnotation(f, k) {
      var pk := f.controls[k].parent;
      assert !Touched(g, k + 1, pk);
      assert DistinctParents(g, k + 1);
      assert AtMostOneAnnotation(g, k + 1);
    }
  }

  /** `validateForm`: true iff every required control is valid; on the way
      every required control gets its `error` class and annotation set. */
  function ValidateForm(f: Form): (r: (Form, bool))
    requires WellFormed(f)
    ensures WellFormed(r.0) && SameData(f, r.0)
    ensures r.1 <==> AllValidFrom(f, 0)
    ensures ClassesFrom(f, 0, r.0)
    ensures KeepsUntouched(f, 0, r.0)
    ensures AnnotatedFrom(f, 0, r.0)
  {
    ValidateFrom(f, 0)
  }

  /** `form.reset()`: every control goes back to its default value; the
      `error` classes and annotations stay as they are. */
  function Reset(f: Form): (r: Form)
    requires WellFormed(f)
    ensures WellFormed(r) && |r.controls| == |f.controls| && r.annotations == f.annotations
    ensures forall j :: 0 <= j < |f.controls| ==>
      r.controls[j] == f.controls[j].(value := f.controls[j].defaultValue)
  {
    Form(seq(|f.controls|, j requires 0 <= j < |f.controls| => f.controls[j].(value := f.controls[j].defaultValue)),
         f.annotations)
  }
}
