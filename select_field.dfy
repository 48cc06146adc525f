/** The select field as compiled (es/SelectField.js). Its change handler turns
    the widget's selection into the value it reports: the first option's value
    in single mode; in multi mode the widget's list reconciled against the
    field's current value. This version passes `valueKey` through without a
    default, so an absent `valueKey` reads the property "undefined". */
module EsSelectField {
  import opened Wrappers
  import opened Values
  import opened Lists

  /** The multi-mode reconciliation: if some current value is missing from
      the widget's values `vals`, the current values that remain; otherwise
      the current values followed by the new ones; `null` when empty. */
  function Reconcile<V(==,!new)>(current: FieldValue<V>, vals: seq<Val<V>>): (r: FieldValue<V>)
    ensures Normalised(r)
  {
    var cur := ToArray(current);
    var changed := if |Difference(cur, vals)| > 0 then Intersection(cur, vals) else Union(cur, vals);
    Normalise(changed)
  }

  /** The value `handleChange(selected)` reports through `onChange`. */
  function Changed<V(==,!new)>(multiple: bool, valueKey: Option<string>, value: FieldValue<V>, selected: Selection<V>): (r: FieldValue<V>)
    ensures !multiple ==> r.Scalar? && !r.x.Undefined?
    ensures !multiple && !Get(Head(CastArray(selected)), PropertyName(valueKey)).Undefined? ==>
              r.x == Get(Head(CastArray(selected)), PropertyName(valueKey))
    ensures !multiple && Get(Head(CastArray(selected)), PropertyName(valueKey)).Undefined? ==> r.x == Null
    ensures multiple ==> Normalised(r)
    ensures multiple ==> forall x :: x in ToArray(r) ==>
              x in ToArray(value) || x in SelectedValues(selected, PropertyName(valueKey))
  {
    var name := PropertyName(valueKey);
    if !multiple then Scalar(FirstValue(selected, name))
    else
      ReconcileBounded(value, SelectedValues(selected, name));
      Reconcile(value, SelectedValues(selected, name))
  }

  /** `handleChange(selected)`: one `onChange` call carrying the reconciled
      value, added to the host's callback log `calls`. */
  method HandleChange<V(==,!new)>(calls: seq<Event<V>>, multiple: bool, valueKey: Option<string>,
                                  value: FieldValue<V>, selected: Selection<V>)
    returns (calls': seq<Event<V>>)
    ensures calls' == calls + [Change(Changed(multiple, valueKey, value, selected))]
  {
    var selectedList := CastArray(selected);
    var name := PropertyName(valueKey);
    var selectedVals := SelectedValues(selected, name);
    var changed: FieldValue<V>;
    if !multiple {
      changed := Scalar(GetOr(Head(selectedList), name, Null));
    } else {
      var cur := ToArray(value);
      var arr := if |Difference(cur, selectedVals)| > 0 then Intersection(cur, selectedVals)
                 else Union(cur, selectedVals);
      changed := if |arr| > 0 then Array(arr) else Scalar(Null);
    }
    calls' := calls + [Change(changed)];
  }

  /** The widget's blur handler `() => onBlur()`: one `onBlur` call with no
      argument, whatever the widget passed. */
  method HandleBlur<V>(calls: seq<Event<V>>) returns (calls': seq<Event<V>>)
    ensures calls' == calls + [Blur(None)]
  {
    calls' := calls + [Blur(None)];
  }

  // ---------------------------------------------------------------------------
  // Properties

  /** Single mode reports the first selected option's value under
      `valueKey`, or `null` when the widget selected nothing. */
  lemma SinglePick<V(!new)>(valueKey: string, value: FieldValue<V>, option: Record<V>, rest: seq<Record<V>>)
    ensures Changed(false, Some(valueKey), value, OneOption(option)) ==
              Scalar(if valueKey in option && !option[valueKey].Undefined? then option[valueKey] else Null)
    ensures Changed(false, Some(valueKey), value, Options([option] + rest)) ==
              Changed(false, Some(valueKey), value, OneOption(option))
    ensures Changed(false, Some(valueKey), value, NoSelection) == Scalar(Null)
    ensures Changed(false, Some(valueKey), value, Options([])) == Scalar(Null)
  {
  }

  /** Without a `valueKey`, single mode reads the property "undefined", so
      an ordinary option reports `null`. */
  lemma NoDefaultValueKey<V(!new)>(value: FieldValue<V>, option: Record<V>)
    requires "undefined" !in option
    ensures Changed(false, None, value, OneOption(option)) == Scalar(Null)
  {
  }

  /** Every value multi mode reports was held or selected, and none twice. */
  lemma ReconcileBounded<V(!new)>(current: FieldValue<V>, vals: seq<Val<V>>)
    ensures forall x :: x in ToArray(Reconcile(current, vals)) ==> x in ToArray(current) || x in vals
    ensures Distinct(ToArray(Reconcile(current, vals)))
  {
    ReconcileBranches(current, vals);
  }

  /** When the widget's list lacks a current value, multi mode reports the
      current values still selected, in the current order when the current
      list is duplicate-free. */
  lemma ReconcileRemoval<V(!new)>(current: FieldValue<V>, vals: seq<Val<V>>, dropped: Val<V>)
    requires dropped in ToArray(current) && dropped !in vals
    ensures forall x :: x in ToArray(Reconcile(current, vals)) <==> x in ToArray(current) && x in vals
    ensures Distinct(ToArray(current)) ==> ToArray(Reconcile(current, vals)) == Kept(ToArray(current), vals)
  {
    var cur := ToArray(current);
    assert dropped in Difference(cur, vals);
    ReconcileBranches(current, vals);
    if Distinct(cur) {
      IntersectionOfDistinct(cur, vals);
    }
  }

  /** When the widget's list keeps every current value, multi mode reports
      the current values followed by the newly selected ones, each once. */
  lemma ReconcileAddition<V(!new)>(current: FieldValue<V>, vals: seq<Val<V>>)
    requires forall x :: x in ToArray(current) ==> x in vals
    ensures ToArray(Reconcile(current, vals)) == Uniq(ToArray(current)) + Uniq(Difference(vals, ToArray(current)))
  {
    var cur := ToArray(current);
    DifferenceOfSuperset(cur, vals);
    ReconcileBranches(current, vals);
    UnionSplit(cur, vals);
  }

  /** The two branches of `Reconcile`. */
  lemma ReconcileBranches<V(!new)>(current: FieldValue<V>, vals: seq<Val<V>>)
    ensures |Difference(ToArray(current), vals)| > 0 ==>
              Reconcile(current, vals) == Normalise(Intersection(ToArray(current), vals))
    ensures |Difference(ToArray(current), vals)| == 0 ==>
              Reconcile(current, vals) == Normalise(Union(ToArray(current), vals))
  {
  }

  /** The widget adding one new value to a duplicate-free current list:
      the result is the widget's list itself. */
  lemma AddOne<V(!new)>(cur: seq<Val<V>>, y: Val<V>)
    requires Distinct(cur) && y !in cur
    ensures Reconcile(Array(cur), cur + [y]) == Array(cur + [y])
  {
    var vals := cur + [y];
    DifferenceOfSuperset(cur, vals);
    ReconcileBranches(Array(cur), vals);
    UnionSplit(cur, vals);
    UniqOfDistinct(cur);
    DifferenceSnoc(cur, y, cur);
    DifferenceOfSuperset(cur, cur);
    assert Difference(vals, cur) == [y];
    UniqOfDistinct([y]);
    assert Union(cur, vals) == vals;
  }

  /** The widget removing the value at position i of a duplicate-free current
      list: the result is the widget's list itself (`null` once empty). */
  lemma RemoveOne<V(!new)>(cur: seq<Val<V>>, i: nat)
    requires Distinct(cur) && i < |cur|
    ensures Reconcile(Array(cur), cur[..i] + cur[i + 1..]) == Normalise(cur[..i] + cur[i + 1..])
  {
    var vals := cur[..i] + cur[i + 1..];
    KeptAllButOne(cur, i);
    ReconcileRemoval(Array(cur), vals, cur[i]);
    NormaliseElements(Reconcile(Array(cur), vals));
  }

  /** Keeping the elements of a duplicate-free list that the list without
      its i-th element holds gives that list back. */
  lemma KeptAllButOne<V(!new)>(cur: seq<Val<V>>, i: nat)
    requires Distinct(cur) && i < |cur|
    ensures cur[i] !in cur[..i] + cur[i + 1..]
    ensures Kept(cur, cur[..i] + cur[i + 1..]) == cur[..i] + cur[i + 1..]
  {
    var front, back := cur[..i], cur[i + 1..];
    assert cur == front + [cur[i]] + back;
    forall j | 0 <= j < |front + back| ensures (front + back)[j] != cur[i] {
      if j < i { assert (front + back)[j] == cur[j]; } else { assert (front + back)[j] == cur[j + 1]; }
    }
    KeptDropOne(front, cur[i], back);
  }

  /** A selection that both drops a current value and adds a new one keeps
      only the retained current values: the added value is discarded. */
  lemma DropAndAdd<V(!new)>(current: FieldValue<V>, vals: seq<Val<V>>, dropped: Val<V>, added: Val<V>)
    requires dropped in ToArray(current) && dropped !in vals
    requires added in vals && added !in ToArray(current)
    ensures added !in ToArray(Reconcile(current, vals))
    ensures dropped !in ToArray(Reconcile(current, vals))
  {
    ReconcileRemoval(current, vals, dropped);
  }

  /** Replacing a non-empty selection by one that shares no value with it
      reports `null`: the heuristic reads it as a removal of everything. */
  lemma DisjointReplacement<V(!new)>(current: FieldValue<V>, vals: seq<Val<V>>)
    requires ToArray(current) != []
    requires forall x :: x in vals ==> x !in ToArray(current)
    ensures Reconcile(current, vals) == Scalar(Null)
  {
    var r := Reconcile(current, vals);
    ReconcileRemoval(current, vals, ToArray(current)[0]);
    assert ToArray(r) == [] by {
      assert forall x :: x !in ToArray(r);
      NothingIn(ToArray(r));
    }
  }

  /** With no current list, multi mode reports the widget's values with
      duplicates dropped, or `null`. */
  lemma FromEmpty<V(!new)>(x: Val<V>, vals: seq<Val<V>>)
    ensures Reconcile(Scalar(x), vals) == Normalise(Uniq(vals))
  {
    UnionSplit([], vals);
    assert [] + vals == vals;
    DifferenceOfNothing(vals);
  }
}
