/** The checkbox group (es/CheckBoxField.js): one checkbox per option; each
    checkbox's change handler adds its value to the field's list or removes
    it, reports `null` for an empty list, and calls `onBlur()` and then
    `onChange`. */
module CheckBoxField {
  import opened Wrappers
  import opened Values
  import opened Lists

  /** The property names the options are read with: `valueKey || 'value'`
      and `labelKey || 'label'`. */
  function ResolveKeys(valueKey: Option<string>, labelKey: Option<string>): (keys: (string, string))
    ensures keys.0 != "" && keys.1 != ""
    ensures valueKey.None? || valueKey.value == "" ==> keys.0 == "value"
    ensures labelKey.None? || labelKey.value == "" ==> keys.1 == "label"
    ensures valueKey.Some? && valueKey.value != "" ==> keys.0 == valueKey.value
    ensures labelKey.Some? && labelKey.value != "" ==> keys.1 == labelKey.value
  {
    (KeyOr(valueKey, "value"), KeyOr(labelKey, "label"))
  }

  /** The value a checkbox stands for: its option's property under the
      resolved value key, `undefined` when the option lacks it. */
  function CheckValue<V>(option: Record<V>, valueKey: Option<string>): (r: Val<V>)
    ensures (valueKey.None? || valueKey.value == "") && "value" in option ==> r == option["value"]
    ensures valueKey.Some? && valueKey.value != "" && valueKey.value in option ==> r == option[valueKey.value]
    ensures ResolveKeys(valueKey, None).0 !in option ==> r == Undefined
  {
    Get(Some(option), ResolveKeys(valueKey, None).0)
  }

  /** The list `handleChange` reports for the checkbox of value `v` when it
      becomes `checked` (or unchecked), given the field's current `value`;
      `null` rather than an empty list. */
  function Toggle<V(==,!new)>(value: FieldValue<V>, v: Val<V>, checked: bool): (r: FieldValue<V>)
    ensures Normalised(r)
  {
    if checked then Normalise(Union(ToArray(value), [v]))
    else Normalise(Without(ToArray(value), v))
  }

  /** `handleChange(event)` for the checkbox drawn for `option`: the events
      it adds to the host's callback log `calls`. */
  method HandleChange<V(==,!new)>(calls: seq<Event<V>>, value: FieldValue<V>, option: Record<V>,
                                  valueKey: Option<string>, checked: bool)
    returns (calls': seq<Event<V>>)
    ensures calls' == calls + [Blur(None), Change(Toggle(value, CheckValue(option, valueKey), checked))]
  {
    var checkValueKey := ResolveKeys(valueKey, None).0;
    var checkValue := if checkValueKey in option then option[checkValueKey] else Undefined;
    var arr := ToArray(value);
    if checked {
      arr := Union(ToArray(value), [checkValue]);
    } else {
      arr := Without(arr, checkValue);
    }
    var payload := if |arr| > 0 then Array(arr) else Scalar(Null);
    calls' := calls + [Blur(None)];
    calls' := calls' + [Change(payload)];
  }

  // ---------------------------------------------------------------------------
  // Properties

  /** Checking v: the result holds v and every value held before, each
      once. */
  lemma CheckAdds<V(!new)>(value: FieldValue<V>, v: Val<V>)
    ensures v in ToArray(Toggle(value, v, true))
    ensures Distinct(ToArray(Toggle(value, v, true)))
    ensures forall x :: x in ToArray(Toggle(value, v, true)) <==> x == v || x in ToArray(value)
  {
    assert ToArray(Toggle(value, v, true)) == Union(ToArray(value), [v]);
  }

  /** Unchecking v: every occurrence of v goes, the other values stay, with
      their counts and in their order. */
  lemma UncheckRemoves<V(!new)>(value: FieldValue<V>, v: Val<V>)
    ensures v !in ToArray(Toggle(value, v, false))
    ensures forall x :: x != v ==> multiset(ToArray(Toggle(value, v, false)))[x] == multiset(ToArray(value))[x]
    ensures Subsequence(ToArray(Toggle(value, v, false)), ToArray(value))
  {
    WithoutKeepsOthers(ToArray(value), v);
    assert ToArray(Toggle(value, v, false)) == Without(ToArray(value), v);
  }

  /** Checking v on a duplicate-free list appends v unless it is already
      there, in which case the list is unchanged. */
  lemma CheckAppends<V(!new)>(value: FieldValue<V>, v: Val<V>)
    requires Distinct(ToArray(value))
    ensures v in ToArray(value) ==> Toggle(value, v, true) == Normalise(ToArray(value))
    ensures v !in ToArray(value) ==> Toggle(value, v, true) == Array(ToArray(value) + [v])
  {
    UnionOfOne(ToArray(value), v);
  }

  /** `union(cur, [v])` for a duplicate-free `cur`. */
  lemma UnionOfOne<V(!new)>(cur: seq<Val<V>>, v: Val<V>)
    requires Distinct(cur)
    ensures Union(cur, [v]) == if v in cur then cur else cur + [v]
  {
    UnionSplit(cur, [v]);
    UniqOfDistinct(cur);
    if v in cur {
      assert Uniq(Difference([v], cur)) == [] by {
        assert Difference([v], cur) == [];
      }
      assert cur + [] == cur;
    } else {
      assert Uniq(Difference([v], cur)) == [v] by {
        assert Difference([v], cur) == [v];
        UniqOfDistinct([v]);
      }
    }
  }

  /** Checking a value twice gives the same list as checking it once. */
  lemma CheckIdempotent<V(!new)>(value: FieldValue<V>, v: Val<V>)
    ensures Toggle(Toggle(value, v, true), v, true) == Toggle(value, v, true)
  {
    var once := Toggle(value, v, true);
    CheckAppends(once, v);
  }

  /** With no list yet (`null`, `undefined`, `''`), checking v gives `[v]`
      and unchecking gives `null`. */
  lemma FromEmpty<V(!new)>(x: Val<V>, v: Val<V>)
    ensures Toggle(Scalar(x), v, true) == Array([v])
    ensures Toggle(Scalar(x), v, false) == Scalar(Null)
  {
    CheckAppends(Scalar(x), v);
  }

  /** Unchecking v reports `null` exactly when v is the only value the list
      holds, however many times. */
  lemma UncheckLast<V(!new)>(value: FieldValue<V>, v: Val<V>)
    ensures Toggle(value, v, false) == Scalar(Null) <==> forall x :: x in ToArray(value) ==> x == v
  {
    var rest := Without(ToArray(value), v);
    assert Toggle(value, v, false) == Normalise(rest);
    NothingIn(rest);
  }

  /** Check A, check B, uncheck A, uncheck B, each step starting from what
      the previous one reported: `[A]`, `[A, B]`, `[B]`, `null`. */
  lemma CheckUncheckScenario<V(!new)>(a: Val<V>, b: Val<V>)
    requires a != b
    ensures Toggle(Scalar(Null), a, true) == Array([a])
    ensures Toggle(Array([a]), b, true) == Array([a, b])
    ensures Toggle(Array([a, b]), a, false) == Array([b])
    ensures Toggle(Array([b]), b, false) == Scalar(Null)
  {
    assert Toggle(Scalar(Null), a, true) == Array([a]) by {
      FromEmpty(Null, a);
    }
    assert Toggle(Array([a]), b, true) == Array([a, b]) by {
      CheckAppends(Array([a]), b);
      assert [a] + [b] == [a, b];
    }
    assert Toggle(Array([a, b]), a, false) == Array([b]) by {
      UncheckFront(a, [b]);
      assert [a] + [b] == [a, b];
    }
    assert Toggle(Array([b]), b, false) == Scalar(Null) by {
      UncheckLast(Array([b]), b);
    }
  }

  /** Unchecking the first value of a list that holds it once leaves the
      rest of the list. */
  lemma UncheckFront<V(!new)>(v: Val<V>, rest: seq<Val<V>>)
    requires v !in rest && rest != []
    ensures Toggle(Array([v] + rest), v, false) == Array(rest)
  {
    WithoutFront(v, rest);
  }
}
