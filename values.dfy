/** JavaScript values as the form fields see them, and the lodash accessors
    (`get`, `head`, `castArray`, `toArray`) they read them with. */
module Values {
  import opened Wrappers

  /** One JavaScript value: `undefined`, `null`, or an opaque value of the
      host's own (a string, a number, an object compared by identity). */
  datatype Val<V> = Undefined | Null | Of(v: V)

  /** What the host form stores under a field name and what a field reports
      back through `onChange`: a single value, or an array of values. */
  datatype FieldValue<V> = Scalar(x: Val<V>) | Array(items: seq<Val<V>>)

  /** An option record: property name to value; a missing name reads as
      `undefined`. */
  type Record<V> = map<string, Val<V>>

  /** What the select widget hands to `handleChange`: `null`/`undefined`, one
      option record, or an array of option records. */
  datatype Selection<V> = NoSelection | OneOption(option: Record<V>) | Options(options: seq<Record<V>>)

  /** One call the field made into the host's input callbacks. `Blur(None)`
      is `onBlur()` with no argument. */
  datatype Event<V> = Blur(arg: Option<FieldValue<V>>) | Change(payload: FieldValue<V>)

  /** JavaScript `key || fallback` on an optional string prop: an absent or
      empty key gives the fallback. */
  function KeyOr(key: Option<string>, fallback: string): (r: string)
    ensures key.None? || key.value == "" ==> r == fallback
    ensures key.Some? && key.value != "" ==> r == key.value
  {
    if key.Some? && key.value != "" then key.value else fallback
  }

  /** The property a lodash path argument names: `undefined` is converted to
      the property name "undefined". */
  function PropertyName(key: Option<string>): (name: string)
    ensures key.None? ==> name == "undefined"
    ensures key.Some? ==> name == key.value
  {
    if key.Some? then key.value else "undefined"
  }

  /** `_.get(obj, name)`: `undefined` when the object is `null`/`undefined` or
      has no such property. */
  function Get<V>(obj: Option<Record<V>>, name: string): (r: Val<V>)
    ensures obj.None? ==> r == Undefined
    ensures obj.Some? && name !in obj.value ==> r == Undefined
    ensures obj.Some? && name in obj.value ==> r == obj.value[name]
  {
    match obj
    case None => Undefined
    case Some(o) => if name in o then o[name] else Undefined
  }

  /** `_.get(obj, name, fallback)`: the fallback replaces only `undefined`. */
  function GetOr<V>(obj: Option<Record<V>>, name: string, fallback: Val<V>): (r: Val<V>)
    ensures !Get(obj, name).Undefined? ==> r == Get(obj, name)
    ensures Get(obj, name).Undefined? ==> r == fallback
    ensures r.Undefined? ==> fallback.Undefined?
  {
    var x := Get(obj, name);
    if x.Undefined? then fallback else x
  }

  /** `_.castArray(selected)`: an array stays as it is, anything else becomes
      a one-element array (so `null` becomes `[null]`). Elements are option
      records or `None` for `null`/`undefined`. */
  function CastArray<V>(selected: Selection<V>): (r: seq<Option<Record<V>>>)
    ensures selected.NoSelection? ==> r == [None]
    ensures selected.OneOption? ==> r == [Some(selected.option)]
    ensures selected.Options? ==> |r| == |selected.options|
    ensures selected.Options? ==> forall i :: 0 <= i < |r| ==> r[i] == Some(selected.options[i])
  {
    match selected
    case NoSelection => [None]
    case OneOption(o) => [Some(o)]
    case Options(os) => seq(|os|, i requires 0 <= i < |os| => Some(os[i]))
  }

  /** `_.head(list)`: `undefined` for an empty array. */
  function Head<V>(list: seq<Option<Record<V>>>): (r: Option<Record<V>>)
    ensures |list| > 0 ==> r == list[0]
    ensures |list| == 0 ==> r.None?
  {
    if |list| > 0 then list[0] else None
  }

  /** The elements lodash's array functions see in a field value: an array's
      elements, and none for `null`, `undefined` or another non-array value. */
  function ToArray<V>(value: FieldValue<V>): (r: seq<Val<V>>)
    ensures value.Array? ==> r == value.items
    ensures value.Scalar? ==> r == []
  {
    if value.Array? then value.items else []
  }

  /** A value as the fields report it: `null`, or a non-empty array. */
  predicate Normalised<V>(r: FieldValue<V>) {
    r == Scalar(Null) || (r.Array? && |r.items| > 0)
  }

  /** `arr.length ? arr : null`. */
  function Normalise<V>(arr: seq<Val<V>>): (r: FieldValue<V>)
    ensures Normalised(r)
    ensures ToArray(r) == arr
    ensures r == Scalar(Null) <==> arr == []
  {
    if |arr| > 0 then Array(arr) else Scalar(Null)
  }

  /** A reported value is determined by its elements. */
  lemma NormaliseElements<V>(r: FieldValue<V>)
    requires Normalised(r)
    ensures Normalise(ToArray(r)) == r
  {
  }

  /** `_.map(castArray(selected), opt => _.get(opt, name))`: one value per
      element of the widget's selection, in the widget's order. */
  function SelectedValues<V>(selected: Selection<V>, name: string): (r: seq<Val<V>>)
    ensures |r| == |CastArray(selected)|
    ensures forall i :: 0 <= i < |r| ==> r[i] == Get(CastArray(selected)[i], name)
  {
    var list := CastArray(selected);
    seq(|list|, i requires 0 <= i < |list| => Get(list[i], name))
  }

  /** `_.get(_.head(castArray(selected)), name, null)`: the first selected
      option's value, or `null`. */
  function FirstValue<V>(selected: Selection<V>, name: string): (r: Val<V>)
    ensures !r.Undefined?
    ensures selected.NoSelection? ==> r == Null
    ensures selected.Options? && selected.options == [] ==> r == Null
    ensures selected.OneOption? ==> r == GetOr(Some(selected.option), name, Null)
    ensures selected.Options? && selected.options != [] ==> r == GetOr(Some(selected.options[0]), name, Null)
  {
    GetOr(Head(CastArray(selected)), name, Null)
  }
}
