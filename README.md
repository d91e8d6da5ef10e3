# t-string template builder, modelled in Dafny

`t` is a tag for template literals. It takes the literal's fragments and its
placeholder keys. An integer key names a positional argument, and a string key
names an entry of a trailing dictionary argument. `t` returns a builder that
closes over a validator table. Construction gives every key an always-true
validator. `validate` overwrites entries of that table and returns the same
builder. `str` renders the template for one argument list. It binds each key
occurrence left to right and runs that key's current validator on the raw
bound value. At the first rejection it throws `ValidationError`, naming the key
and the value. Otherwise it joins the fragments and the bound values.

The model:

- `decimal.dfy` (module `Decimal`): the decimal text of integers. JavaScript
  uses it both to render a number and to turn an integer key into a property
  name. It comes with its inverse and the round trip.
- `values.dfy` (module `Values`): keys, values, the validator slot of a key,
  the text `join` gives a value, the binding rule, the outcome
  `Rendered(text) | ValidationError(key, value)`, and the error message.
- `render.dfy` (module `Rendering`): what a render produces, as a function
  `Render` of the fragments, keys, validator table and arguments. Its
  lemmas cover:
  - the text when every occurrence is accepted, against an independent
    definition of alternating fragments and texts;
  - success exactly when every occurrence is accepted;
  - the first rejection, left to right, as the reported error;
  - validators outside the template's slots having no effect.
- `builder.dfy` (module `Template`): the class `Builder`. Its constant
  `fragments` and `keys` and its mutable `validators: map<string, Validator>`
  mirror the closure of `t`. The constructor seeds the table with a loop.
  `Validate` overwrites it entry by entry. `Str` is a loop proved equal to
  `Render`. `Str` has no `modifies` clause, so a render cannot change the
  table, and renders on one builder are independent of each other.
- `scenarios.dfy` (module `Scenarios`): clients that build, configure and
  render templates. They restate the examples in `__test__/index.ts` and the behaviours
  listed above: chaining, last write wins, a repeated key, and the slot shared
  by `0` and `"0"`.

The validator table is a plain object, so it is keyed by the key's property
name (`Slot`). Positional key `0` and named key `"0"` therefore use the same
validator. The builder has no transformation step: `str` renders the raw bound
value. The dictionary is always taken from the last argument, whether or not
the template has named keys. Positional keys index the whole argument list,
and that list includes the dictionary argument. A missing binding is
`Absent` (JavaScript's `undefined`). It still goes to the validator, and if
accepted it renders as the empty text.

## Model

| member | source | states |
|---|---|---|
| `Decimal.NatToString` | src/index.ts:49 | a number's text has at least one digit, all characters are digits, and there is no leading zero except for 0 itself |
| `Decimal.ParseIntToString` | src/index.ts:49 | the decimal text of every integer is well formed and reads back as that integer |
| `Decimal.IntToStringParse` | src/index.ts:26-27 | every canonical decimal text is the text of the integer it reads as, so the property names of integer keys are exactly the canonical texts |
| `Decimal.IntToStringInjective` | src/index.ts:26-27 | two integers have the same decimal text exactly when they are equal |
| `Values.SlotPosInjective` | src/index.ts:26-27 | two integer keys share a validator slot exactly when they are the same integer |
| `Values.SlotShared` | src/index.ts:42-43 | integer key `i` and string key `s` share a validator slot exactly when `s` is a canonical decimal text (digits, an optional `-`, no leading zero, no `-0`) that reads as `i`; so `"01"` or `"-0"` share a slot with no integer key |
| `Values.Message` | src/index.ts:45 | the error message starts with `Invalid value for key "`, then gives the key's text, and ends with the rejected value's text |
| `Rendering.RenderAccepted` | src/index.ts:39-49 | if every occurrence is accepted, the render yields fragment 0, text of value 0, fragment 1, …, fragment n, in that order |
| `Rendering.RenderPermissive` | src/index.ts:24-28 | with a table whose every validator accepts everything (as seeded), every argument list renders to the alternation of fragments and bound texts |
| `Rendering.RenderSucceedsIff` | src/index.ts:40-49 | a render succeeds if and only if the validator of every occurrence accepts its bound value |
| `Rendering.RenderFirstRejection` | src/index.ts:40-46 | if occurrence j is the first to be rejected, the render fails with exactly key j and its bound value, whatever the later occurrences hold |
| `Rendering.RenderErrorIsFirstRejection` | src/index.ts:44-46 | every failed render names an occurrence whose validator rejected it, with its bound value, and every earlier occurrence was accepted |
| `Rendering.RenderInert` | src/index.ts:43 | two tables that agree on the slots of the template's keys give the same outcome, so validators for other names are never consulted |
| `Template.Builder.constructor` | src/index.ts:20-28 | keeps the fragments and keys; the table has exactly the slots of the keys, and each of those validators accepts every value |
| `Template.Builder.Validate` | src/index.ts:31-35 | each slot in the argument gets the given validator, every other slot keeps its validator, the slot set grows by the argument's names, and the builder itself is returned |
| `Template.Builder.Str` | src/index.ts:37-50 | the outcome equals `Render` of the builder's current fragments, keys and table for these arguments, and the table is left unchanged |
| `Scenarios.HelloWorld` | __test__/index.ts:7-11 | `Hello, ${'text'}!` with `{text: 'World'}` renders `Hello, World!` |
| `Scenarios.PositionalAndNamed` | __test__/index.ts:13-17 | integer keys 0 and 1 and named key `result`, with `2, 3, {result: 5}`, render `Sum of 2 and 3 is 5.` |
| `Scenarios.NamedKeys` | __test__/index.ts:19-23 | two named keys render `Name: Alice, Age: 30` |
| `Scenarios.AgeAccepted` | __test__/index.ts:27-33 | after a chained `validate` with "a non-negative number", age 25 renders `Age: 25` |
| `Scenarios.AgeRejected` | __test__/index.ts:34-40 | with the same validator, age -5 fails with `ValidationError` naming `age` and -5, and the message reads `Invalid value for key "age": -5` |
| `Scenarios.LastValidateWins` | src/index.ts:31-35 | a second `validate` for the same key replaces the first |
| `Scenarios.SharedSlot` | src/index.ts:42-45 | a `validate` entry for `"0"` also gates integer key 0: -1 bound to key 0 is rejected, and the message names the key as `"0"` |
| `Scenarios.RepeatedKey` | src/index.ts:40-48 | a key used twice is validated and rendered at each occurrence |

## Left out

- The type-level machinery (`Key`, `ValidateFuncs`, `ValidatorMap`, src/index.ts:1-11) is left out: it is compile-time typing with no runtime behaviour.
- The `ValidationError` class (src/index.ts:13-18) is modelled only as the `ValidationError` outcome and its `Message`. Throwing and catching are not modelled.
- `Template.Builder.constructor` requires one more fragment than keys. A tagged template literal always delivers that. A direct call to `t` with other lengths, which would render missing fragments as empty text, is not modelled.
- `Values.DictOf`: a truthy last argument that is not a dictionary (a non-empty string or a non-zero number) binds no names here. In JavaScript, named lookups on such a value can still find its characters or its `length`.
- Lookups that reach `Object.prototype` are not modelled. Examples are a key named `toString`, or a `__proto__` entry passed to `validate`.
- Only these kinds of value are modelled: `undefined`, strings, integral numbers and plain objects. Floating-point numbers, `null`, booleans, arrays and functions are left out. So are non-integral numeric keys.
- `Values.Text`: the text of `Num(n)` matches JavaScript only for magnitudes up to 2^53. Above that a number is a double and JavaScript writes its shortest round-tripping digits padded with zeros (`String(2**60)` is `"1152921504606847000"`), and from 1e21 on it uses exponent form. The same bound applies to the slot of an integer key (`Values.Slot`) and to the value text in `Values.Message`.
- `Values.Text`: a dictionary value is rendered as `[object Object]`. A dictionary with its own `toString` entry that is not a function makes `join` and the error message throw a `TypeError` in JavaScript. That case is not modelled.
- Validators are modelled as total, side-effect-free predicates. A validator that throws, or an entry of `validate` that is not a function, is not modelled.
- `Template.Builder.Validate` takes the entries of its argument in an unspecified order. `Object.entries` has a fixed order, but the written keys are distinct, so the resulting table does not depend on it.
- The vitest harness itself is not modelled. Its examples are restated as the `Scenarios` methods.
- Concurrency is left out: rendering and configuration are synchronous and single-threaded.
