/** The select field in its source form (src/SelectField.jsx). Unlike the
    compiled version it defaults `valueKey` to 'value', reports the widget's
    multi-mode list as it is, and lets a `customValidation` prop replace the
    default validation deriver. Its blur handler `() => onBlur()` is the
    compiled version's, `EsSelectField.HandleBlur`. */
module SrcSelectField {
  import opened Wrappers
  import opened Values
  import Utils
  import EsSelectField

  /** `valueKey || 'value'`. */
  function SelectValueKey(valueKey: Option<string>): (name: string)
    ensures name != ""
    ensures valueKey.None? || valueKey.value == "" ==> name == "value"
    ensures valueKey.Some? && valueKey.value != "" ==> name == valueKey.value
  {
    KeyOr(valueKey, "value")
  }

  /** The value `handleChange(selected)` reports through `onChange`. */
  function Changed<V>(multiple: bool, valueKey: Option<string>, selected: Selection<V>): (r: FieldValue<V>)
    ensures !multiple ==> r.Scalar? && !r.x.Undefined?
    ensures !multiple && !Get(Head(CastArray(selected)), SelectValueKey(valueKey)).Undefined? ==>
              r.x == Get(Head(CastArray(selected)), SelectValueKey(valueKey))
    ensures !multiple && Get(Head(CastArray(selected)), SelectValueKey(valueKey)).Undefined? ==> r.x == Null
    ensures multiple ==> Normalised(r) && ToArray(r) == SelectedValues(selected, SelectValueKey(valueKey))
  {
    var name := SelectValueKey(valueKey);
    if !multiple then Scalar(FirstValue(selected, name))
    else Normalise(SelectedValues(selected, name))
  }

  /** `handleChange(selected)`: one `onChange` call, added to the host's
      callback log `calls`. */
  method HandleChange<V>(calls: seq<Event<V>>, multiple: bool, valueKey: Option<string>, selected: Selection<V>)
    returns (calls': seq<Event<V>>)
    ensures calls' == calls + [Change(Changed(multiple, valueKey, selected))]
  {
    var selectedList := CastArray(selected);
    var name := SelectValueKey(valueKey);
    var selectedVals := SelectedValues(selected, name);
    var changed: FieldValue<V>;
    if !multiple {
      changed := Scalar(GetOr(Head(selectedList), name, Null));
    } else {
      changed := if |selectedVals| > 0 then Array(selectedVals) else Scalar(Null);
    }
    calls' := calls + [Change(changed)];
  }

  /** The validation the form group renders with: `customValidation(meta)`
      when that prop is given, `validationMessage(meta)` otherwise. */
  function FieldValidation(customValidation: Option<Utils.Meta -> Utils.Validation>, meta: Utils.Meta): (r: Utils.Validation)
    ensures customValidation.Some? ==> r == customValidation.value(meta)
    ensures customValidation.None? ==> r == Utils.ValidationMessage(meta)
  {
    if customValidation.Some? then customValidation.value(meta) else Utils.ValidationMessage(meta)
  }

  // ---------------------------------------------------------------------------
  // Properties

  /** Multi mode reports one value per option the widget handed over, in the
      widget's order and without merging with the current value; an empty
      list is reported as `null`. */
  lemma MultiVerbatim<V>(valueKey: Option<string>, options: seq<Record<V>>)
    ensures options == [] ==> Changed(true, valueKey, Options(options)) == Scalar(Null)
    ensures options != [] ==> Changed(true, valueKey, Options(options)).Array?
    ensures |ToArray(Changed(true, valueKey, Options(options)))| == |options|
    ensures forall i :: 0 <= i < |options| ==>
              ToArray(Changed(true, valueKey, Options(options)))[i] == Get(Some(options[i]), SelectValueKey(valueKey))
  {
  }

  /** A cleared multi select (`null` from the widget) is cast to `[null]`,
      whose value is `undefined`: the field reports `[undefined]`, not
      `null`. */
  lemma ClearedMulti<V>(valueKey: Option<string>)
    ensures Changed<V>(true, valueKey, NoSelection) == Array([Undefined])
  {
  }

  /** Single mode reports what the compiled version reports when handed the
      resolved key, whatever the current value; in particular an absent or
      empty `valueKey` reads the property 'value'. */
  lemma SingleMode<V(!new)>(valueKey: Option<string>, value: FieldValue<V>, selected: Selection<V>)
    ensures Changed(false, valueKey, selected) ==
              EsSelectField.Changed(false, Some(SelectValueKey(valueKey)), value, selected)
    ensures valueKey.None? || valueKey.value == "" ==>
              Changed(false, valueKey, selected) == EsSelectField.Changed(false, Some("value"), value, selected)
  {
  }

  /** Picking `{label: 'Option 1', value: 'One'}` with the default key
      reports 'One'; clearing the selection reports `null`. */
  lemma SingleScenario()
    ensures Changed(false, None, OneOption(map["label" := Of("Option 1"), "value" := Of("One")])) == Scalar(Of("One"))
    ensures Changed<string>(false, None, NoSelection) == Scalar(Null)
  {
  }
}
