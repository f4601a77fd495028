/** The contact form's real-time validation: the `blur` and `input`
    handlers attached to every `input`, `textarea` and `select`. */
module LiveValidation {
  import opened Text
  import opened Email
  import opened Form

  /** The `blur` handler: mark a required control whose trimmed value is
      empty, or an email control with a non-empty value that fails
      `validateEmail`; clear the mark otherwise. */
  function OnBlur(f: Field): (g: Field)
    ensures SameControl(g, f)
    ensures g.invalid <==>
      || (f.required && Blank(f.value))
      || (f.kind == "email" && f.value != "" && !ValidEmail(f.value))
  {
    if f.required && Blank(f.value) then f.(invalid := true)
    else if f.kind == "email" && f.value != "" && !ValidEmail(f.value) then f.(invalid := true)
    else f.(invalid := false)
  }

  /** The `input` handler: a marked control whose trimmed value is not
      empty, and which is either not an email control or holds a valid
      address, loses its mark; nothing else changes. */
  function OnInput(f: Field): (g: Field)
    ensures SameControl(g, f)
    ensures g.invalid ==> f.invalid
    ensures (f.invalid && !g.invalid) <==>
      (f.invalid && !Blank(f.value) && (f.kind != "email" || ValidEmail(f.value)))
  {
    if f.invalid && !Blank(f.value) && (f.kind != "email" || ValidEmail(f.value)) then
      f.(invalid := false)
    else
      f
  }

  /** On a control that `validateForm` checks, leaving the control gives
      the same marking as submitting the form. */
  lemma BlurAgreesWithSubmit(f: Field)
    requires Checked(f)
    ensures OnBlur(f) == Settle(f)
  {
  }

  /** Where the two differ: an optional email control left empty is valid
      on blur, while an optional email control with a bad address is marked
      on blur but never by `validateForm`. */
  lemma BlurJudgesOptionalEmail(f: Field)
    requires !f.required && f.kind == "email"
    ensures f.value == "" ==> !OnBlur(f).invalid
    ensures f.value != "" && !ValidEmail(f.value) ==> OnBlur(f).invalid && Settle(f) == f
  {
  }

  /** Typing into a control never marks it, and it clears a mark only when
      leaving the control would clear it too. */
  lemma InputClearsOnlyWhatBlurClears(f: Field)
    requires f.invalid
    ensures !OnInput(f).invalid ==> !OnBlur(f).invalid
    ensures !OnInput(f).invalid && Checked(f) ==> !Settle(f).invalid
  {
  }

  /** An `input` event that leaves the value as it was cannot overturn the
      verdict of the preceding `blur`. */
  lemma InputKeepsBlurVerdict(f: Field)
    ensures OnInput(OnBlur(f)) == OnBlur(f)
  {
  }

  /** The rules are not symmetric: an empty optional email control that is
      marked stays marked by `input` events while it is empty, yet a blur
      clears it. */
  lemma EmptyOptionalEmailDiffers()
    ensures var f := Field(InputElement, "email", "", false, true);
      OnInput(f).invalid && !OnBlur(f).invalid
  {
  }
}
