/** `validateForm`: the submit-time check of a contact form's required
    controls, and the `is-invalid` marking it leaves behind. */
module Form {
  import opened Text
  import opened Email

  /** The element a form control is: `validateForm` selects only required
      `input` and `textarea` elements, while the live handlers are attached
      to `select` elements as well. */
  datatype Control = InputElement | TextArea | Select

  /** One form control: its element, its `type` property, its current
      `value`, whether it carries the `required` attribute, and whether its
      class list holds `is-invalid`. */
  datatype Field = Field(control: Control, kind: string, value: string, required: bool, invalid: bool)

  /** The outcome of `validateForm`: the returned flag and the controls as
      they stand afterwards. */
  datatype Verdict = Verdict(ok: bool, fields: seq<Field>)

  /** Matched by `input[required], textarea[required]`. */
  predicate Checked(f: Field)
  {
    f.required && f.control != Select
  }

  /** What a submit-time check demands of a control: a value that is not
      blank once trimmed and, for an email control, an untrimmed value that
      passes `validateEmail`. */
  predicate Acceptable(f: Field)
  {
    !Blank(f.value) && (f.kind == "email" ==> ValidEmail(f.value))
  }

  /** `a` and `b` are the same control apart from the `is-invalid` class. */
  predicate SameControl(a: Field, b: Field)
  {
    a.(invalid := b.invalid) == b
  }

  /** The loop body of `validateForm` applied to one selected control: add
      `is-invalid` when its trimmed value is empty, or when it is an email
      control whose value fails `validateEmail`; remove it otherwise. */
  function MarkOnSubmit(f: Field): (g: Field)
    ensures SameControl(g, f)
    ensures g.invalid <==> !Acceptable(f)
  {
    if Blank(f.value) then f.(invalid := true)
    else if f.kind == "email" && !ValidEmail(f.value) then f.(invalid := true)
    else f.(invalid := false)
  }

  /** What `validateForm` leaves of one control: selected controls get
      their marking from the loop body, the others are not touched. */
  function Settle(f: Field): (g: Field)
    ensures SameControl(g, f)
    ensures Checked(f) ==> (g.invalid <==> !Acceptable(f))
    ensures !Checked(f) ==> g == f
  {
    if Checked(f) then MarkOnSubmit(f) else f
  }

  /** The `forEach` over the selected controls with `settle` as its body:
      each control is replaced by what the body leaves of it, and the
      result stays true until the body leaves a selected control marked. */
  function Walk(fs: seq<Field>, settle: Field -> Field): (v: Verdict)
    ensures |v.fields| == |fs|
    ensures forall i :: 0 <= i < |fs| ==> v.fields[i] == settle(fs[i])
    ensures v.ok <==> forall i :: 0 <= i < |fs| && Checked(fs[i]) ==> !v.fields[i].invalid
  {
    if fs == [] then Verdict(true, [])
    else
      var g := settle(fs[0]);
      var after := Walk(fs[1..], settle);
      var v := Verdict(!(Checked(fs[0]) && g.invalid) && after.ok, [g] + after.fields);
      assert forall i :: 0 < i < |fs| ==> fs[i] == fs[1..][i - 1] && v.fields[i] == after.fields[i - 1];
      v
  }

  /** `validateForm`: the walk over the form's controls with the
      submit-time check as its body. */
  function ValidateForm(fs: seq<Field>): (v: Verdict)
    ensures |v.fields| == |fs|
    ensures forall i :: 0 <= i < |fs| ==> v.fields[i] == Settle(fs[i])
    ensures v.ok <==> forall i :: 0 <= i < |fs| && Checked(fs[i]) ==> !v.fields[i].invalid
  {
    Walk(fs, Settle)
  }

  /** `validateForm` returns true exactly when every required input and
      textarea has a non-blank value and, if it is an email control, a
      value that passes `validateEmail`. */
  lemma ValidateFormAccepts(fs: seq<Field>)
    ensures ValidateForm(fs).ok <==> forall i :: 0 <= i < |fs| && Checked(fs[i]) ==> Acceptable(fs[i])
  {
  }

  /** After `validateForm` every selected control is marked exactly when it
      failed its check, and every other control, and all other data of every
      control, is unchanged. */
  lemma MarkingsExact(fs: seq<Field>)
    ensures var v := ValidateForm(fs);
      && (forall i :: 0 <= i < |fs| ==> SameControl(v.fields[i], fs[i]))
      && (forall i :: 0 <= i < |fs| && Checked(fs[i]) ==> (v.fields[i].invalid <==> !Acceptable(fs[i])))
      && (forall i :: 0 <= i < |fs| && !Checked(fs[i]) ==> v.fields[i] == fs[i])
  {
  }

  /** Settling a control twice is settling it once: the check reads only
      the value, type, element and `required`, never the mark. */
  lemma SettleIdempotent(f: Field)
    ensures Settle(Settle(f)) == Settle(f)
  {
  }

  /** Validating the already-validated form changes nothing: the same flag
      and the same markings. */
  lemma ValidateFormIdempotent(fs: seq<Field>)
    ensures ValidateForm(ValidateForm(fs).fields) == ValidateForm(fs)
  {
  }

  /** The email rule reads the untrimmed value: a required email control
      whose address is padded with a no-break space (which the browser's
      sanitising of email values keeps, unlike ASCII spaces) fails although
      its trimmed value is a valid address. */
  lemma PaddedEmailRejected()
    ensures !ValidateForm([Field(InputElement, "email", "\U{00A0}user@example.com", true, false)]).ok
    ensures ValidEmail("user@example.com")
  {
    var s := "\U{00A0}user@example.com";
    assert !ValidEmail(s) by {
      ValidEmailIffStructural(s);
      assert IsSpace(s[0]);
    }
    var fs := [Field(InputElement, "email", s, true, false)];
    assert Checked(fs[0]) && !Acceptable(fs[0]);
    ValidateFormAccepts(fs);
    SampleAddressAccepted();
  }
}
