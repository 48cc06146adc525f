/** The validation deriver every field renders with (es/utils.js): from the
    form's `meta` flags to the form group's validation state and the message
    shown under the field. */
module Utils {
  import opened Wrappers

  /** The `meta` prop: whether the field was touched, and the host's error
      and warning texts, if any. */
  datatype Meta = Meta(touched: bool, error: Option<string>, warning: Option<string>)

  /** The form group's `validationState`; `Unset` is `undefined`. */
  datatype State = Unset | Success | Warning | Error

  /** `{ validationState, errorMessage }`; the message is the text inside the
      help block, `None` when `errorMessage` is `undefined`. */
  datatype Validation = Validation(state: State, message: Option<string>)

  /** JavaScript truthiness of an optional string: present and non-empty. */
  predicate Truthy(s: Option<string>) {
    s.Some? && s.value != ""
  }

  /** `error || warning` where at least one of them is truthy. */
  function ErrorOrWarning(error: Option<string>, warning: Option<string>): (text: string)
    requires Truthy(error) || Truthy(warning)
    ensures text != ""
    ensures Truthy(error) ==> text == error.value
    ensures !Truthy(error) ==> text == warning.value
  {
    if Truthy(error) then error.value else warning.value
  }

  /** `validationMessage(meta)`. */
  function ValidationMessage(meta: Meta): (r: Validation)
    // an untouched field shows nothing, whatever error and warning hold
    ensures !meta.touched ==> r == Validation(Unset, None)
    // touched and clean: success, no message
    ensures meta.touched && !Truthy(meta.error) && !Truthy(meta.warning) ==> r == Validation(Success, None)
    // an error wins over a warning
    ensures meta.touched && Truthy(meta.error) ==> r.state == Error
    ensures meta.touched && !Truthy(meta.error) && Truthy(meta.warning) ==> r.state == Warning
    // a message is shown exactly for the error and warning states
    ensures r.message.Some? <==> r.state == Error || r.state == Warning
    // and it is the error's text when there is one, otherwise the warning's
    ensures r.message.Some? ==> r.message.value != ""
    ensures r.message.Some? && Truthy(meta.error) ==> r.message.value == meta.error.value
    ensures r.message.Some? && !Truthy(meta.error) ==> r.message.value == meta.warning.value
  {
    if meta.touched && !Truthy(meta.error) && !Truthy(meta.warning) then
      Validation(Success, None)
    else if meta.touched then
      Validation(if Truthy(meta.error) then Error else Warning,
                 Some(ErrorOrWarning(meta.error, meta.warning)))
    else
      Validation(Unset, None)
  }

  /** The state is determined by the first of error, warning, clean that
      applies to a touched field; an untouched field has none. */
  function Precedence(meta: Meta): State {
    if !meta.touched then Unset
    else if Truthy(meta.error) then Error
    else if Truthy(meta.warning) then Warning
    else Success
  }

  /** `validationMessage` agrees with the precedence order for every `meta`,
      and shows a message exactly when the order picks error or warning. */
  lemma ValidationFollowsPrecedence(meta: Meta)
    ensures ValidationMessage(meta).state == Precedence(meta)
    ensures ValidationMessage(meta).message.Some? <==> Precedence(meta) in {Error, Warning}
  {
  }
}
