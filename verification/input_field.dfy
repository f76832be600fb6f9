/** The text input widget: its property defaults, its one piece of state (is
    the password shown?), and what it derives from them — the input's type,
    the clear and visibility buttons, the helper and error texts and the
    accessibility attributes that point at them. */
module InputField {
  import opened Options

  datatype Variant = Filled | Outlined | Ghost
  datatype Size = Sm | Md | Lg
  datatype InputType = Text | Password | Email | Number

  /** Renderable content for an icon slot; a present icon is rendered. */
  datatype Icon = Icon(name: string)

  /** The widget's properties, each optional. */
  datatype InputProps = InputProps(
    value: Option<string>,
    hasOnChange: bool,
    labelText: Option<string>,
    placeholder: Option<string>,
    helperText: Option<string>,
    errorMessage: Option<string>,
    disabled: Option<bool>,
    invalid: Option<bool>,
    variant: Option<Variant>,
    size: Option<Size>,
    clearable: Option<bool>,
    passwordToggle: Option<bool>,
    prefixIcon: Option<Icon>,
    suffixIcon: Option<Icon>,
    inputType: Option<InputType>,
    autoFocus: Option<bool>)

  /** The properties that have defaults, with the defaults applied. */
  datatype Settings = Settings(
    variant: Variant,
    size: Size,
    clearable: bool,
    passwordToggle: bool,
    inputType: InputType,
    autoFocus: bool)

  /** Applies the defaults: outlined, medium, not clearable, no password
      toggle, plain text, no autofocus. A given value always wins. */
  function Resolve(p: InputProps): (s: Settings)
    ensures s.variant == (if p.variant.Some? then p.variant.value else Outlined)
    ensures s.size == (if p.size.Some? then p.size.value else Md)
    ensures s.clearable <==> Flag(p.clearable)
    ensures s.passwordToggle <==> Flag(p.passwordToggle)
    ensures s.inputType == (if p.inputType.Some? then p.inputType.value else Text)
    ensures s.autoFocus <==> Flag(p.autoFocus)
  {
    Settings(
      p.variant.GetOr(Outlined),
      p.size.GetOr(Md),
      p.clearable.GetOr(false),
      p.passwordToggle.GetOr(false),
      p.inputType.GetOr(Text),
      p.autoFocus.GetOr(false))
  }

  /** The widget's own state. */
  datatype InputState = InputState(showPassword: bool)

  const InitialInput: InputState := InputState(false)

  /** The `type` attribute of the input: the visibility toggle overrides the
      `type` property, showing plain text only while the password is shown. */
  function EffectiveType(p: InputProps, st: InputState): (t: InputType)
    ensures Resolve(p).passwordToggle ==> (t == Password <==> !st.showPassword)
    ensures Resolve(p).passwordToggle ==> (t == Text <==> st.showPassword)
    ensures !Resolve(p).passwordToggle ==> t == Resolve(p).inputType
  {
    var s := Resolve(p);
    if s.passwordToggle then (if st.showPassword then Text else Password) else s.inputType
  }

  /** With the toggle on, the `type` property has no effect at all. */
  lemma TypeIgnoredUnderToggle(p: InputProps, st: InputState, t: Option<InputType>)
    requires Flag(p.passwordToggle)
    ensures EffectiveType(p.(inputType := t), st) == EffectiveType(p, st)
  {
  }

  /** The accessible name of the visibility button. */
  function ToggleLabel(st: InputState): string {
    if st.showPassword then "Hide password" else "Show password"
  }

  /** The visibility button's name announces the action it performs: it
      offers to show the password exactly while the input masks it. */
  lemma ToggleLabelMatchesType(p: InputProps, st: InputState)
    requires Flag(p.passwordToggle)
    ensures ToggleLabel(st) == "Show password" <==> EffectiveType(p, st) == Password
    ensures ToggleLabel(st) == "Hide password" <==> EffectiveType(p, st) == Text
  {
  }

  /** The clear button is rendered exactly for a clearable, enabled input holding text. */
  function ClearShown(p: InputProps): (b: bool)
    ensures b <==> Flag(p.clearable) && Truthy(p.value) && !Flag(p.disabled)
  {
    Resolve(p).clearable && Truthy(p.value) && !Flag(p.disabled)
  }

  /** `aria-describedby` pieces, with `.filter(Boolean)`: absent and empty
      entries are dropped. */
  function Present(parts: seq<Option<string>>): (r: seq<string>)
    ensures |r| <= |parts|
    ensures forall x | x in r :: x != ""
  {
    if |parts| == 0 then []
    else (if Truthy(parts[0]) then [parts[0].value] else []) + Present(parts[1..])
  }

  /** `.join(sep)`. */
  function Join(parts: seq<string>, sep: string): string {
    if |parts| == 0 then ""
    else if |parts| == 1 then parts[0]
    else parts[0] + sep + Join(parts[1..], sep)
  }

  const HelperId: string := "helper-text"
  const ErrorId: string := "error-msg"

  /** The error text is shown only for an invalid input with a message. */
  predicate ErrorShown(p: InputProps) {
    Flag(p.invalid) && Truthy(p.errorMessage)
  }

  /** `aria-describedby`: the helper's id when there is helper text, then the
      error's id when the error is shown, space-separated; absent when neither. */
  function DescribedBy(p: InputProps): (r: Option<string>)
    ensures r.None? <==> !Truthy(p.helperText) && !ErrorShown(p)
    ensures Truthy(p.helperText) && ErrorShown(p) ==> r == Some(HelperId + " " + ErrorId)
    ensures Truthy(p.helperText) && !ErrorShown(p) ==> r == Some(HelperId)
    ensures !Truthy(p.helperText) && ErrorShown(p) ==> r == Some(ErrorId)
  {
    var helper := if Truthy(p.helperText) then Some(HelperId) else None;
    var error := if ErrorShown(p) then Some(ErrorId) else None;
    var present := Present([helper, error]);
    assert [helper, error][1..] == [error];
    assert [error][1..] == [];
    assert |HelperId| > 0 && |ErrorId| > 0;
    assert Present([error]) == (if error.Some? then [ErrorId] else []) + Present([]);
    assert present == (if helper.Some? then [HelperId] else []) + (if error.Some? then [ErrorId] else []);
    var joined := Join(present, " ");
    assert |present| == 2 ==> joined == HelperId + " " + ErrorId by {
      if |present| == 2 {
        assert present == [HelperId, ErrorId];
        assert present[1..] == [ErrorId];
        assert Join(present[1..], " ") == ErrorId;
      }
    }
    if joined == "" then None else Some(joined)
  }

  /** A text below the input: its element id, its text, and whether it is
      announced as an alert. */
  datatype TextBlock = TextBlock(id: string, text: string, alert: bool)

  /** The helper and error texts, in that order. The helper does not depend
      on validity; the error is an alert. */
  function DescriptionTexts(p: InputProps): (r: seq<TextBlock>)
    ensures TextBlock(HelperId, p.helperText.GetOr(""), false) in r <==> Truthy(p.helperText)
    ensures TextBlock(ErrorId, p.errorMessage.GetOr(""), true) in r <==> ErrorShown(p)
    ensures |r| == (if Truthy(p.helperText) then 1 else 0) + (if ErrorShown(p) then 1 else 0)
  {
    (if Truthy(p.helperText) then [TextBlock(HelperId, p.helperText.value, false)] else [])
    + (if ErrorShown(p) then [TextBlock(ErrorId, p.errorMessage.value, true)] else [])
  }

  function BlockIds(bs: seq<TextBlock>): (r: seq<string>)
    ensures |r| == |bs|
    ensures forall i | 0 <= i < |bs| :: r[i] == bs[i].id
  {
    if |bs| == 0 then [] else [bs[0].id] + BlockIds(bs[1..])
  }

  /** `aria-describedby` names exactly the texts that are rendered, in
      rendering order, and is absent when none is. */
  lemma DescribedByNamesRenderedTexts(p: InputProps)
    ensures DescribedBy(p) == (if DescriptionTexts(p) == [] then None
                               else Some(Join(BlockIds(DescriptionTexts(p)), " ")))
  {
    var ts := DescriptionTexts(p);
    var ids := BlockIds(ts);
    if |ts| == 2 {
      assert ids == [HelperId, ErrorId];
    } else if |ts| == 1 {
      assert ids == [ts[0].id];
    }
  }

  /** The helper text is shown whether or not the input is invalid. */
  lemma HelperIndependentOfValidity(p: InputProps, invalid: Option<bool>)
    ensures (exists b | b in DescriptionTexts(p.(invalid := invalid)) :: b.id == HelperId)
            <==> Truthy(p.helperText)
  {
    if Truthy(p.helperText) {
      assert DescriptionTexts(p.(invalid := invalid))[0].id == HelperId;
    }
  }

  /** The floating label: present for a non-empty label, raised while the input holds text. */
  datatype LabelView = LabelView(text: string, raised: bool)

  /** What the widget renders, reduced to its behaviour. */
  datatype InputView = InputView(
    floatingLabel: Option<LabelView>,
    inputType: InputType,
    autoComplete: Option<string>,
    describedBy: Option<string>,
    ariaInvalid: Option<bool>,
    disabled: bool,
    autoFocus: bool,
    padLeft: bool,
    padRight: bool,
    clearButton: bool,
    toggleButton: Option<string>,
    prefixIcon: Option<Icon>,
    suffixIcon: Option<Icon>,
    texts: seq<TextBlock>)

  /** Renders the widget. Password autocompletion and the visibility button
      come exactly with the toggle; room on the right is reserved exactly for
      a suffix icon, the toggle or a clearable input; the type, the clear
      button, the texts below the input and `aria-describedby` are the ones
      derived above. Its parts agree with each other: every button has room
      reserved on the right, the visibility button names the action it
      performs, a disabled input has no clear button, and `aria-describedby`
      is absent exactly when no text is rendered below the input. */
  function Render(p: InputProps, st: InputState): (v: InputView)
    ensures v.autoComplete == (if Flag(p.passwordToggle) then Some("current-password") else None)
    ensures v.padRight <==> p.suffixIcon.Some? || Flag(p.passwordToggle) || Flag(p.clearable)
    ensures v.padLeft <==> p.prefixIcon.Some?
    ensures v.clearButton == ClearShown(p)
    ensures v.inputType == EffectiveType(p, st)
    ensures v.toggleButton == (if Flag(p.passwordToggle) then Some(ToggleLabel(st)) else None)
    ensures v.texts == DescriptionTexts(p) && v.describedBy == DescribedBy(p)
    ensures v.disabled <==> Flag(p.disabled)
    ensures v.ariaInvalid == p.invalid
    ensures v.autoFocus <==> Flag(p.autoFocus)
    ensures v.floatingLabel.Some? ==> v.floatingLabel.value.text == p.labelText.GetOr("")
    ensures v.floatingLabel.Some? <==> Truthy(p.labelText)
    ensures v.floatingLabel.Some? ==> v.floatingLabel.value.raised == Truthy(p.value)
    ensures v.clearButton ==> v.padRight && !v.disabled
    ensures v.toggleButton.Some? ==> v.padRight
    ensures v.toggleButton.Some? <==> v.autoComplete == Some("current-password")
    ensures v.toggleButton.None? <==> v.autoComplete.None?
    ensures v.toggleButton.Some? ==> (v.toggleButton == Some("Show password") <==> v.inputType == Password)
    ensures v.describedBy.None? <==> v.texts == []
    ensures v.padLeft <==> v.prefixIcon.Some?
  {
    var s := Resolve(p);
    InputView(
      if Truthy(p.labelText) then Some(LabelView(p.labelText.value, Truthy(p.value))) else None,
      EffectiveType(p, st),
      if s.passwordToggle then Some("current-password") else None,
      DescribedBy(p),
      p.invalid,
      Flag(p.disabled),
      s.autoFocus,
      p.prefixIcon.Some?,
      p.suffixIcon.Some? || s.passwordToggle || s.clearable,
      ClearShown(p),
      if s.passwordToggle then Some(ToggleLabel(st)) else None,
      p.prefixIcon,
      p.suffixIcon,
      DescriptionTexts(p))
  }

  /** User interactions: the two buttons and typing into the input. */
  datatype InputEvent = ClickToggle | ClickClear | Edit(text: string)

  /** The new state, and the value passed to `onChange` when it is given and called. */
  datatype InputOutcome = InputOutcome(state: InputState, changed: Option<string>)

  /** One interaction. A click on a button that is not rendered, or typing
      into a disabled input, does nothing. */
  function Step(p: InputProps, st: InputState, ev: InputEvent): (o: InputOutcome)
    ensures !ev.ClickToggle? ==> o.state == st
    ensures ev.ClickToggle? ==> o.changed.None?
    ensures ev.ClickClear? ==> (o.changed.Some? <==> ClearShown(p) && p.hasOnChange)
    ensures ev.ClickClear? && o.changed.Some? ==> o.changed.value == ""
    ensures ev.Edit? ==> o.changed == (if !Flag(p.disabled) && p.hasOnChange then Some(ev.text) else None)
    ensures o.changed.Some? ==> p.hasOnChange
  {
    match ev
    case ClickToggle =>
      if Resolve(p).passwordToggle then InputOutcome(InputState(!st.showPassword), None)
      else InputOutcome(st, None)
    case ClickClear =>
      if ClearShown(p) && p.hasOnChange then InputOutcome(st, Some(""))
      else InputOutcome(st, None)
    case Edit(t) =>
      if !Flag(p.disabled) && p.hasOnChange then InputOutcome(st, Some(t))
      else InputOutcome(st, None)
  }

  /** Each click on the visibility button flips the input between masked and
      plain text; two clicks restore both the state and the type. Without the
      toggle nothing changes and the type is the `type` property. */
  lemma ToggleFlipsType(p: InputProps, st: InputState)
    ensures Flag(p.passwordToggle) ==>
      && (EffectiveType(p, Step(p, st, ClickToggle).state) == Password <==> EffectiveType(p, st) == Text)
      && Step(p, Step(p, st, ClickToggle).state, ClickToggle).state == st
    ensures !Flag(p.passwordToggle) ==>
      && Step(p, st, ClickToggle).state == st
      && EffectiveType(p, Step(p, st, ClickToggle).state) == Resolve(p).inputType
  {
  }

  /** Typing into a clearable input makes the clear button appear once the
      caller applies a non-empty text, and disappear when it applies "". */
  lemma EditShowsClear(p: InputProps, st: InputState, t: string)
    requires Flag(p.clearable) && !Flag(p.disabled) && p.hasOnChange
    ensures Step(p, st, Edit(t)).changed == Some(t)
    ensures ClearShown(p.(value := Some(t))) <==> t != ""
  {
  }

  /** A click on the visibility button changes the rendered input only in its
      type and the button's name; everything else is rendered as before. */
  lemma ToggleChangesOnlyTypeAndLabel(p: InputProps, st: InputState)
    ensures
      var before := Render(p, st);
      var after := Render(p, Step(p, st, ClickToggle).state);
      after.(inputType := before.inputType, toggleButton := before.toggleButton) == before
  {
  }

  /** Once the caller applies the empty value the clear button reported, the
      clear button is gone and the visibility state is as before. */
  lemma ClearThenHidden(p: InputProps, st: InputState)
    requires Step(p, st, ClickClear).changed.Some?
    ensures !ClearShown(p.(value := Step(p, st, ClickClear).changed))
    ensures Step(p, st, ClickClear).state == st
  {
  }
}
