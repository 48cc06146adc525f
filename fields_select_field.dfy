/** The class-based select field (src/fields/SelectField.jsx). It keeps the
    selected value in `state.selected`: incoming props overwrite it, a change
    overwrites it and forwards it to `onChange`, and a blur reports it to
    `onBlur`. `setState` is an immediate assignment here. */
module StatefulSelectField {
  import opened Wrappers
  import opened Values
  import Utils

  class SelectField<V> {
    /** `this.props.valueKey`, read without a default. */
    var valueKey: Option<string>
    /** `this.state.selected`. */
    var selected: FieldValue<V>
    /** The calls made on `this.props.input.onChange` / `onBlur`, oldest first. */
    var calls: seq<Event<V>>

    /** Mounting: `state = { selected: undefined }`. */
    constructor (valueKey: Option<string>)
      ensures this.valueKey == valueKey
      ensures selected == Scalar(Undefined)
      ensures calls == []
    {
      this.valueKey := valueKey;
      selected := Scalar(Undefined);
      calls := [];
    }

    /** `componentWillReceiveProps(nextProps)`: `selected` becomes
        `nextProps.input.value`, or `null` when that is `undefined`; the new
        props become the current ones. */
    method ReceiveProps(nextValueKey: Option<string>, nextValue: FieldValue<V>)
      modifies this
      ensures valueKey == nextValueKey
      ensures selected == (if nextValue == Scalar(Undefined) then Scalar(Null) else nextValue)
      ensures calls == old(calls)
    {
      selected := if nextValue.Scalar? && nextValue.x.Undefined? then Scalar(Null) else nextValue;
      valueKey := nextValueKey;
    }

    /** `handleBlur`: reports the current selection to `onBlur`; the state is
        left as it is. */
    method HandleBlur()
      modifies this`calls
      ensures calls == old(calls) + [Blur(Some(selected))]
    {
      calls := calls + [Blur(Some(selected))];
    }

    /** `handleChange(option)`: `selected` becomes the option's `valueKey`
        property, or `null`, and that same value goes to `onChange`. */
    method HandleChange(option: Option<Record<V>>)
      modifies this`selected, this`calls
      ensures selected == Scalar(GetOr(option, PropertyName(valueKey), Null))
      ensures !selected.x.Undefined?
      ensures calls == old(calls) + [Change(selected)]
    {
      var value := GetOr(option, PropertyName(valueKey), Null);
      selected := Scalar(value);
      calls := calls + [Change(Scalar(value))];
    }
  }

  /** A change followed by a blur reports to `onBlur` exactly the value
      `onChange` received. */
  method ChangeThenBlur<V>(field: SelectField<V>, option: Option<Record<V>>)
    modifies field`selected, field`calls
    ensures |field.calls| == |old(field.calls)| + 2
    ensures field.calls[..|old(field.calls)|] == old(field.calls)
    ensures field.calls[|field.calls| - 2].Change?
    ensures field.calls[|field.calls| - 1] == Blur(Some(field.calls[|field.calls| - 2].payload))
  {
    field.HandleChange(option);
    field.HandleBlur();
  }

  /** The validation `render` computes inline from `meta`: the same case
      analysis as `validationMessage`. */
  function RenderValidation(meta: Utils.Meta): (r: Utils.Validation)
    ensures r == Utils.ValidationMessage(meta)
  {
    var touched, error, warning := meta.touched, meta.error, meta.warning;
    if touched && !Utils.Truthy(error) && !Utils.Truthy(warning) then
      Utils.Validation(Utils.Success, None)
    else if touched then
      Utils.Validation(if Utils.Truthy(error) then Utils.Error else Utils.Warning,
                       Some(if Utils.Truthy(error) then error.value else warning.value))
    else
      Utils.Validation(Utils.Unset, None)
  }
}
