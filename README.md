# redux-form-bootstrap-widgets: the logic inside the field widgets

The library is a set of React form fields (checkbox group, select, …) that
plug into a form-state framework. Each field receives the host's `input`
props (`value`, `onChange`, `onBlur`, `onFocus`) and `meta` props (`touched`,
`error`, `warning`), and renders react-bootstrap chrome around a widget.
Three pieces of logic in them are modelled and proved here.

- **Validation state** (`Utils`, es/utils.js). From `meta`, the form group's
  state (`success`, `warning`, `error`, or unset) and the message shown under
  the field. JavaScript truthiness applies: an absent or empty string counts
  as no error or warning. The class-based select repeats the same case
  analysis inline in `render` (`StatefulSelectField.RenderValidation`). It is
  proved equal to `validationMessage` for every `meta`.
- **Selection reconciliation**, in three versions.
  - `CheckBoxField` (es/CheckBoxField.js): each checkbox's change handler
    either unions its value into the current list or filters it out. It
    reports an empty list as `null`. It calls `onBlur()` and then `onChange`.
  - `EsSelectField` (es/SelectField.js): single mode reports the first
    option's value, or `null`. Multi mode uses a heuristic against the
    current value: if any current value is missing from the widget's list,
    it reports the intersection; otherwise it reports the union.
  - `SrcSelectField` (src/SelectField.jsx): single mode is the same. Multi
    mode reports the widget's list as it is.
- **The stateful select** (`StatefulSelectField.SelectField`,
  src/fields/SelectField.jsx): a class with one state field, `selected`.
  Incoming props and changes overwrite it, and a blur reports it.

Shared modules: `Values` holds JavaScript values and the lodash accessors
(`get`, `head`, `castArray`, `toArray`). `Lists` holds the lodash list algebra
(`uniq`, `filter`, `union`, `difference`, `intersection`). `Wrappers` holds
`Option`.

How values are represented:
- A JavaScript value is `Val<V>`: `Undefined`, `Null`, or `Of(v)`, where `v`
  is an opaque host value.
- A field value is `Scalar(val)` or `Array(vals)`.
- An option record is a map from property name to value.
- Each callback the fields invoke is recorded as an `Event` and appended to a
  call log. For the function components the log is a parameter and a result.
  For the class it is a field.

## Behaviour worth noting

- The compiled select's multi-mode heuristic intersects when some *current*
  value is missing from the widget's list (es/SelectField.js:63), and takes
  the union otherwise. So replacing a non-empty selection by one that shares
  no value with it reports `null` (`EsSelectField.DisjointReplacement`), and
  a selection that drops one value and adds another loses the added one
  (`EsSelectField.DropAndAdd`).
- es/SelectField.js gives `valueKey` no default. Its handler calls
  `_.get(opt, undefined)`, and lodash reads that as the property named
  "undefined" (`EsSelectField.NoDefaultValueKey`). The class-based select
  also reads `this.props.valueKey` without a default. Only the checkbox group
  and src/SelectField.jsx fall back to `'value'`.
- Unchecking a checkbox removes every copy of its value and keeps any other
  duplicates the current list already holds. Only the union taken when
  checking removes duplicates.

## Model

| member | source | states |
|---|---|---|
| `Utils.ValidationMessage` | es/utils.js:15-37 | An untouched field gets no state and no message, whatever error and warning hold. A touched, clean field gets success and no message. A truthy error gives the error state even when a warning is present. A warning alone gives the warning state. A message is present exactly in the error and warning states. Its text is the error's when the error is truthy, otherwise the warning's, and it is never empty |
| `Utils.ErrorOrWarning` | es/utils.js:33 | The JavaScript "error or else warning" expression, reached only when one of them is truthy: the error's text when it is truthy, else the warning's, and never empty |
| `Utils.ValidationFollowsPrecedence` | es/utils.js:22-35 | The state follows the order untouched → error → warning → success, and a message is shown exactly when that order picks error or warning |
| `CheckBoxField.ResolveKeys` | es/CheckBoxField.js:48-49 | The value and label keys are `'value'` and `'label'` when not supplied (or empty), and the supplied keys otherwise |
| `CheckBoxField.Toggle` | es/CheckBoxField.js:56-64 | The reported value is `null` or a non-empty list, never `[]` |
| `CheckBoxField.CheckAdds` | es/CheckBoxField.js:57-58 | After a check, the list holds the toggled value and every value held before, each exactly once, and nothing else |
| `CheckBoxField.UncheckRemoves` | es/CheckBoxField.js:59-62 | After an uncheck, no copy of the value remains, every other value keeps its count, and the survivors keep their original order |
| `CheckBoxField.CheckValue` | es/CheckBoxField.js:52-53 | A checkbox stands for its option's property under `valueKey`, or under `'value'` when the key is absent or empty, and for `undefined` when the option lacks that property |
| `CheckBoxField.HandleChange` | es/CheckBoxField.js:55-67 | One toggle of the checkbox drawn for an option appends exactly two calls to the callback log: `onBlur()` with no argument, then `onChange` with the list toggled by that option's check value |
| `CheckBoxField.CheckAppends` | es/CheckBoxField.js:57-58 | Checking v on a duplicate-free list appends v at the end when it is new. When v is already there the list is unchanged, with no second copy |
| `CheckBoxField.UnionOfOne` | es/CheckBoxField.js:58 | `union(cur, [v])` of a duplicate-free list is the list itself when v is in it, and the list with v appended otherwise |
| `CheckBoxField.CheckIdempotent` | es/CheckBoxField.js:58 | Checking the same value twice reports the same list as checking it once |
| `CheckBoxField.FromEmpty` | es/CheckBoxField.js:56-64 | A missing, `null` or `''` current value acts as the empty list: checking v gives `[v]`, and unchecking gives `null` |
| `CheckBoxField.UncheckLast` | es/CheckBoxField.js:60-64 | Unchecking v reports `null` exactly when every value the list holds is v (however many copies), and a non-empty list otherwise |
| `CheckBoxField.CheckUncheckScenario` | es/CheckBoxField.js:55-67 | Starting from `null`: check A gives `[A]`; check B gives `[A, B]`; uncheck A gives `[B]`; uncheck B gives `null` |
| `EsSelectField.Reconcile` | es/SelectField.js:63-68 | The multi-mode result is `null` or a non-empty list |
| `EsSelectField.ReconcileBounded` | es/SelectField.js:63-68 | Every value reported in multi mode was held or selected, and no value is reported twice |
| `EsSelectField.ReconcileRemoval` | es/SelectField.js:63-64 | When a current value is missing from the widget's list, the result holds exactly the current values that are still selected. For a duplicate-free current list, it keeps the current order |
| `EsSelectField.ReconcileAddition` | es/SelectField.js:65-66 | When the widget's list keeps every current value, the result is the current values followed by the newly selected ones, each once |
| `EsSelectField.DropAndAdd` | es/SelectField.js:63-64 | A selection that both drops a current value and adds a new one reports neither of them: the added value is discarded |
| `EsSelectField.DisjointReplacement` | es/SelectField.js:63-68 | Replacing a non-empty current list with values that share nothing with it reports `null` |
| `EsSelectField.AddOne` | es/SelectField.js:63-68 | When the widget appends one new value to a duplicate-free current list, the result is exactly the widget's list |
| `EsSelectField.RemoveOne` | es/SelectField.js:63-68 | When the widget removes one value from a duplicate-free current list, the result is exactly the widget's list, or `null` once it is empty |
| `EsSelectField.FromEmpty` | es/SelectField.js:63-68 | With no current list, multi mode reports the widget's values with duplicates dropped, or `null` |
| `EsSelectField.Changed` | es/SelectField.js:54-69 | Single mode reports a scalar that is never `undefined`. It is the first selected option's property under `valueKey` when that property is defined, and `null` otherwise. Multi mode reports `null` or a non-empty list, each of whose values was held before or selected now |
| `EsSelectField.HandleChange` | es/SelectField.js:54-71 | Each call appends exactly one `onChange` call, which carries the single-mode pick or the reconciled list |
| `EsSelectField.HandleBlur` | es/SelectField.js:95-97 | A widget blur appends one `onBlur()` call, with no argument; the source version (src/SelectField.jsx line 56) passes the same handler |
| `EsSelectField.SinglePick` | es/SelectField.js:55-61 | Single mode reports the first selected option's `valueKey` property, and only that first option matters. It reports `null` when the property is missing or when nothing, `null` or `[]` is selected |
| `EsSelectField.NoDefaultValueKey` | es/SelectField.js:56-61 | Without a `valueKey`, single mode reads the property "undefined", so an ordinary option reports `null` |
| `SrcSelectField.SelectValueKey` | src/SelectField.jsx:24 | `valueKey` defaults to `'value'` when absent or empty, and is used as given otherwise |
| `SrcSelectField.Changed` | src/SelectField.jsx:26-34 | Single mode reports a scalar that is never `undefined`. It is the first selected option's property under the resolved key when that property is defined, and `null` otherwise. Multi mode reports `null` or a non-empty list whose elements are exactly the selected options' values, in order |
| `SrcSelectField.HandleChange` | src/SelectField.jsx:26-36 | Each call appends exactly one `onChange` call, which carries the value of the selection |
| `SrcSelectField.FieldValidation` | src/SelectField.jsx:39-41 | A supplied `customValidation` result replaces `validationMessage(meta)`. Without one, the default deriver is used |
| `SrcSelectField.MultiVerbatim` | src/SelectField.jsx:27-33 | Multi mode reports one value per selected option, in the widget's order, with no merging against the current value. An empty selection is reported as `null` |
| `SrcSelectField.ClearedMulti` | src/SelectField.jsx:27-33 | A `null` selection in multi mode is cast to `[null]`, so the field reports `[undefined]` rather than `null` |
| `SrcSelectField.SingleMode` | src/SelectField.jsx:24-31 | For every key and selection, single mode reports what the compiled version reports when given the resolved key. An absent or empty `valueKey` reads the property `'value'` |
| `SrcSelectField.SingleScenario` | src/SelectField.jsx:24-31 | Choosing `{label: 'Option 1', value: 'One'}` with the default key reports `'One'`, and clearing reports `null` |
| `StatefulSelectField.SelectField.constructor` | src/fields/SelectField.jsx:11 | `selected` starts as `undefined`, and no callback has been called |
| `StatefulSelectField.SelectField.ReceiveProps` | src/fields/SelectField.jsx:13-15 | `selected` becomes the incoming `input.value`, or `null` when that is `undefined`. The new props replace the old ones, and no callback is called |
| `StatefulSelectField.SelectField.HandleBlur` | src/fields/SelectField.jsx:17-19 | The current `selected` is reported to `onBlur`, and the state is unchanged |
| `StatefulSelectField.SelectField.HandleChange` | src/fields/SelectField.jsx:21-25 | `selected` becomes the option's `valueKey` property, or `null`, and never `undefined`. That same value goes to `onChange` |
| `StatefulSelectField.ChangeThenBlur` | src/fields/SelectField.jsx:17-25 | After a change, a following blur reports to `onBlur` exactly the value `onChange` received |
| `StatefulSelectField.RenderValidation` | src/fields/SelectField.jsx:38-49 | The inline derivation in `render` gives the same state and message as `validationMessage` for every `meta` |
| `Values.Normalise` | es/CheckBoxField.js:64 | `arr.length ? arr : null` gives `null` exactly for the empty list, is never `[]`, and keeps the list's elements |
| `Values.FirstValue` | es/SelectField.js:61 | `_.get(_.head(list), key, null)` is never `undefined`. It is `null` when nothing or `[]` is selected, and otherwise it is the first option's property when that is defined, or `null` |
| `Values.SelectedValues` | es/SelectField.js:55-58 | One value per element of the cast selection, in order, each read with `_.get` |
| `Values.CastArray` | es/SelectField.js:55 | `castArray` keeps an array of options as it is and wraps one option. It also wraps `null` or `undefined` in a one-element list (`[None]` here) |
| `Values.KeyOr` | es/CheckBoxField.js:48-49 | JavaScript's or-default on a key gives the fallback for an absent or empty key, and the key itself otherwise |
| `Values.PropertyName` | es/SelectField.js:57 | Lodash reads an `undefined` path as the property named "undefined", and a given key as itself |
| `Values.Get` | es/SelectField.js:57 | `_.get(obj, name)` is the property's value when the object has it, and `undefined` for a missing property or a `null`/`undefined` object |
| `Values.GetOr` | es/SelectField.js:61 | `_.get(obj, name, fallback)` is the property's value when that is defined, and the fallback when it is `undefined` |
| `Values.Head` | es/SelectField.js:61 | `_.head(list)` is the first element, and `undefined` for an empty list |
| `Values.ToArray` | es/CheckBoxField.js:56 | `toArray(value)` gives an array's elements, and no elements for a non-array value |
| `Lists.Uniq` | es/SelectField.js:66 | The duplicate-free copy inside `union` and `intersection` has no repeats, holds exactly the values of its input, and is no longer than it |
| `Lists.Filter` | es/CheckBoxField.js:60-62 | `filter` keeps exactly the elements that pass the test, and the result is no longer than the input |
| `Lists.FilterSubsequence` | es/CheckBoxField.js:60-62 | `filter` keeps the surviving elements in their original order |
| `Lists.Without` | es/CheckBoxField.js:60-62 | `filter(arr, val => val !== x)` holds exactly the elements of `arr` other than x, and no copy of x |
| `Lists.WithoutKeepsOthers` | es/CheckBoxField.js:60-62 | Filtering out x removes every copy of x, keeps every other value's count, and preserves order |
| `Lists.UnionSplit` | es/SelectField.js:66 | `union(a, b)` is `uniq(a)` followed by the distinct values of `b` that are not in `a`, in `b`'s order |
| `Lists.UniqOfDistinct` | es/CheckBoxField.js:58 | A duplicate-free list is unchanged by `uniq` |
| `Lists.IntersectionOfDistinct` | es/SelectField.js:64 | For a duplicate-free `a`, `intersection(a, b)` is `a` filtered by membership in `b`, in `a`'s order |
| `Lists.Union` | es/SelectField.js:66 | `union(a, b)` has no repeats and holds exactly the values in `a` or in `b` |
| `Lists.Difference` | es/SelectField.js:63 | `difference(a, b)` holds exactly the values of `a` that are not in `b`, and is no longer than `a` |
| `Lists.Intersection` | es/SelectField.js:64 | `intersection(a, b)` has no repeats and holds exactly the values in both `a` and `b` |

## Left out

- Rendering: the JSX and `React.createElement` trees, the form-group, label
  and help-block layout, and `propTypes`. These are react-bootstrap glue.
  The message is modelled as the text inside the help block. The compiled
  files call a global `React` that they do not import; module resolution
  is not modelled.
- The select widget itself (`Select`, `Select.Async`, `autoBlur`,
  `joinValues`) and `loadOptions` fetching are library behaviour. Which
  selections the widget hands to `handleChange` is a parameter.
- The checkbox's `checked: _.find(value, checkValue)` expression depends on
  lodash's property-shorthand predicates, not on code of this library.
- The CSS side-effect imports are module-load I/O.
- es/index.js (re-exports) and webpack.dist.js (build settings) are not part
  of this model. The radio field is not modelled.
- React's lifecycle and `setState` batching: `setState` is an immediate
  assignment. The class's calls to `onFocus` and the render-time reads of
  props are not modelled.
- How often a custom validator is invoked per render is a property of
  React's render scheduling and is not modelled. Only the choice between
  the custom and the default deriver is.
- Lodash compares with SameValueZero, and the checkbox filter compares with
  `!==`. Both are modelled as Dafny's `==`. `NaN` is `!==` to itself, so
  unchecking a `NaN` box never removes it. Lodash's SameValueZero, by
  contrast, treats `NaN` as equal to `NaN`. Neither this nor the identity of
  object values is modelled.
- `Values.ToArray`: a non-array current value yields no elements. This is
  what lodash does for `null`, `undefined`, `''`, numbers and booleans. It is
  not what lodash does for other values, which are not modelled:
  - A non-empty string is split into its characters.
  - A plain object gives its own property values.
  - A Map or a Set gives its entries.
  So unchecking a box on a field whose value is such a string or object
  filters those elements in the code, and reports `null` in the model.
- `Values.Get`: a key is one property name. Lodash's deep paths (`'a.b'`) and
  properties inherited through the prototype chain are not modelled.
- `Utils.ValidationMessage`: `error` and `warning` are modelled as optional
  strings. Other renderable values the host may pass are not modelled.
- `StatefulSelectField.SelectField.HandleChange`: the option is one record
  or `null`. An array of options (multi mode passed through the spread
  props) is not modelled.
