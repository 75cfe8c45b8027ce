# universe:i18n core — translation tree helpers and the default message formatter

This project is a Dafny model of two parts of the universe:i18n translation
library:

- **The translation tree helpers** (`source/utils.ts`). A translation tree
  maps keys to message templates or to further trees.
  - `get` reads a value along a dotted path.
  - `set` writes a value along a dotted path. It creates empty mappings for
    missing intermediate segments and refuses the reserved segments
    `__proto__`, `constructor` and `prototype`.
  - `isJSONObject` tells plain objects and arrays from other values.
- **The default message formatter** (`source/formatters/default.ts`).
  - `format` selects a plural form when a numeric `_count` parameter is
    present.
  - It then replaces every marker `open + key + close` with the parameter's
    value, in the order the parameters are enumerated.

The model has five modules:

| file | module | contents |
|---|---|---|
| `wrappers.dfy` | `Wrappers` | `Option`, standing for JavaScript's `undefined` |
| `js_string.dfy` | `JsString` | the string built-ins the core relies on: `split` and `replaceAll` with a literal pattern, and `String(n)` for a non-negative integer |
| `translation_tree.dfy` | `TranslationTree` | the tree, `get` (a recursive function, plus the loop as a method), `isJSONObject`, and `set` |
| `default_formatter.dfy` | `DefaultFormatter` | `pluralize`, `interpolate` and `format` |
| `formatter_examples.dfy` | `FormatterExamples` | the formatter's test vectors, proved for every count where the test template allows it |

How `set` is modelled:

- `set` is the method `Translations.Set`. It works on a class whose field
  `root` holds the translation object.
- The method walks the path with a stack of frames, as the source's loop
  walks `object`, and then rebuilds the spine.
- It is proved equal to the specification function `SetAt`. The lemmas about
  `set` are stated on `SetAt`.
- A call of `set` ends in one of three ways (`Outcome`):
  - `Assigned`: the value was written.
  - `Blocked`: a reserved segment made the call return early.
  - `Faulted`: the call assigned a property on a template string. Strict-mode
    JavaScript throws a TypeError there.

How the formatter is modelled:

- `interpolate` and `format` are methods with the source's loop. Each is
  proved equal to a fold (`Interpolation`, `Formatted`).
- `pluralize` is a function.

## Model

| member | source | states |
|---|---|---|
| `JsString.SplitOn` | source/formatters/default.ts:67 | `message.split(divider)` with a non-empty divider: at least one piece, the pieces joined with the divider give the message back, and no piece contains the divider |
| `JsString.SplitOnFirstDivider` | source/formatters/default.ts:67 | the pieces are cut at the leftmost occurrences, even for a divider that overlaps itself: no occurrence starts inside the first piece, a single piece is the whole message, and otherwise an occurrence starts right after the first piece and the other pieces are the split of what follows it |
| `JsString.SplitOnAbsent` | source/formatters/default.ts:67 | a string without the divider splits into itself alone |
| `JsString.SplitOnAround` | source/formatters/default.ts:67 | (proof helper for the split of a concrete template) when no occurrence of the divider can start inside `a`, splitting `a + divider + b` gives `a` and then the pieces of `b` |
| `JsString.AnchoredAbsent` | source/formatters/default.ts:67 | (proof helper about strings, not an operation of the source) a string holding no copy of a character that occurs once in the divider does not contain the divider |
| `JsString.ReplaceAll` | source/formatters/default.ts:43 | `replaceAll(tag, value)` with a literal replacement leaves a string without the tag unchanged |
| `JsString.ReplaceAllIsSplitJoin` | source/formatters/default.ts:43 | replacing every occurrence is splitting on the tag and joining with the value: both find the same occurrences, scanning from the left without overlap |
| `JsString.ReplaceAround` | source/formatters/default.ts:43 | (proof helper for concrete templates) the one occurrence of the tag in `a + tag + b` is replaced and nothing else changes |
| `JsString.DecimalString` | source/formatters/default.ts:43 | `String(count)` for a non-negative integer: at least one decimal digit, and no leading zero |
| `JsString.DecimalRoundTrip` | source/formatters/default.ts:43 | reading back the decimal rendering gives the number |
| `TranslationTree.Segments` | source/utils.ts:7 | `path.split('.')`: at least one segment, none holds a dot, and joining them with dots gives the path back |
| `TranslationTree.Translations.Get` | source/utils.ts:6-18 | the loop of `get` answers what the recursive reading `ValueAt` (`Lookup` over the segments) answers on the same path |
| `TranslationTree.LookupIsWalkThenRead` | source/utils.ts:10-17 | `get` walks every segment but the last, then reads the last one from the mapping reached; anything else is `undefined` |
| `TranslationTree.WalkAppend` | source/utils.ts:14 | one more step of the loop reads the next segment from the mapping in hand, or gives `undefined` |
| `TranslationTree.GetSingleSegment` | source/utils.ts:7-17 | for a one-segment path the loop does not run, and `get` answers the top-level entry of that name |
| `TranslationTree.LookupStopsOffMappings` | source/utils.ts:10-14 | once the walk reaches a missing entry or a template before the final segment, `get` answers `undefined` without faulting |
| `TranslationTree.IsJSONObject` | source/utils.ts:20-22 | `!!value && typeof value === 'object'` holds exactly for arrays and plain objects, never for `null` |
| `TranslationTree.EnsurePath` | source/utils.ts:34-38 | creating the missing intermediate mappings leaves a template in place, and a mapping keeps all its keys |
| `TranslationTree.SetAssignsExactly` | source/utils.ts:24-46 | `set` assigns if and only if no segment is reserved and every node it stands on is a mapping or a missing entry |
| `TranslationTree.GetAfterSet` | source/utils.ts:24-46 | after a `set` that assigns, `get` at the same path yields the value |
| `TranslationTree.SetReplacesSubtree` | source/utils.ts:46 | whatever was stored under the final key, leaf or mapping, is replaced: below the path the tree holds exactly the new value |
| `TranslationTree.SetLeavesOtherPaths` | source/utils.ts:46 | whatever `set` ends with, every path that parts ways with the written path reads as before, siblings included |
| `TranslationTree.SetKeepsIntermediates` | source/utils.ts:34-38 | an existing intermediate mapping is never replaced: it keeps every entry and gains the next segment; a new one holding only that segment is created only where the entry was missing |
| `TranslationTree.SetStopsAtReserved` | source/utils.ts:28-45 | a reserved segment, intermediate or final, makes `set` return without assigning; the only change left is the empty mappings created before it in that call |
| `TranslationTree.SetFaultsOnTemplate` | source/utils.ts:34-46 | when `set` stands on a template before consuming a segment, the assignment throws, and the mappings created before it stay |
| `TranslationTree.EnsurePathAddsOnlyMappings` | source/utils.ts:34-36 | the mappings `set` creates change no template anywhere and remove no key from any mapping |
| `TranslationTree.Translations.Set` | source/utils.ts:24-47 | the in-place walk of `set` leaves the tree and the outcome that `SetAt` specifies, and `root` stays a mapping |
| `DefaultFormatter.CountOf` | source/formatters/default.ts:16 | a count is found only when an entry `_count` holds that number |
| `DefaultFormatter.CountOfEntry` | source/formatters/default.ts:16 | the `_count` entry decides: a number is the count, a string means no count |
| `DefaultFormatter.CountOfAbsent` | source/formatters/default.ts:16 | without a `_count` entry there is no count |
| `DefaultFormatter.Pluralize` | source/formatters/default.ts:58-71 | the selected form is one of the pieces the message splits into on the divider, and holds no divider |
| `DefaultFormatter.PluralizeClamps` | source/formatters/default.ts:67-68 | an index at or past the last form selects the last form |
| `DefaultFormatter.PluralizeSingleForm` | source/formatters/default.ts:67-68 | a message without the divider is selected whole, whatever the count |
| `DefaultFormatter.Interpolate` | source/formatters/default.ts:34-47 | the loop over the parameters leaves the fold `Interpolation`, one replace-all per parameter in enumeration order |
| `DefaultFormatter.InterpolationInOrder` | source/formatters/default.ts:41-44 | parameters are applied in enumeration order: interpolating `ps + qs` is interpolating `ps`, then `qs` |
| `DefaultFormatter.InterpolationStep` | source/formatters/default.ts:41-44 | each parameter replaces every occurrence of its marker: the step splits on the marker and joins with the value |
| `DefaultFormatter.InterpolationWithoutMarkers` | source/formatters/default.ts:39-46 | a message holding none of the parameters' markers comes back unchanged |
| `DefaultFormatter.Format` | source/formatters/default.ts:8-24 | `format` pluralizes when the count is a number, then interpolates, as `Formatted` specifies |
| `DefaultFormatter.FormatPluralizesOnNumericCount` | source/formatters/default.ts:16-18 | a numeric `_count` selects a form before interpolation; a string `_count` leaves the whole template to interpolation |
| `DefaultFormatter.FormatWithoutMarkers` | source/formatters/default.ts:8-24 | with no numeric count and no marker in the template, `format` returns the template unchanged |
| `DefaultFormatter.FormatSelectsAForm` | source/formatters/default.ts:14-21 | with a numeric count, the result is one of the template's forms, interpolated |
| `FormatterExamples.FormatCountOnly` | source/formatters/default.ts:14-21 | `_count` alone both selects the form at the clamped plural index and fills that form's `_count` markers with its decimal rendering |
| `FormatterExamples.OneParameter` | source/formatters/default.ts:41-44 | (proof helper: one step of the loop unfolded) interpolating one parameter is one replace-all of its marker |
| `FormatterExamples.ThreeFormsByRawCount` | source/formatters/default.ts:64-68 | with no rule for the locale, the raw count is the index: 0 and 1 pick the first two forms, larger counts the last, with the count filled in |
| `FormatterExamples.ItemsForms` | tests/common.ts:240 | the test template splits into its three forms |
| `FormatterExamples.ItemsExample` | tests/common.ts:247-250 | the counts 0, 1, 2 and 10 give "no items", "one item", "2 items" and "10 items" |
| `FormatterExamples.PolishRule` | tests/common.ts:259-268 | the Polish rule of the test always gives an index of at most 2 |
| `FormatterExamples.ThreeFormsByPolishRule` | source/formatters/default.ts:64-68 | with a rule registered for the locale, the rule's index selects the form and the count fills it |
| `FormatterExamples.PhonesForms` | tests/common.ts:273 | the Polish test template splits into its three forms |
| `FormatterExamples.PhonesExampleOneTwo` | tests/common.ts:294-295 | the counts 1 and 2 give "1 telefon" and "2 telefony" |
| `FormatterExamples.PhonesExampleFiveTwentyTwo` | tests/common.ts:296-297 | the counts 5 and 22 give "5 telefonów" and "22 telefony" |
| `FormatterExamples.FormatOneMarker` | source/formatters/default.ts:41-44 | a template with one marker and one string parameter gets the marker replaced and nothing else changed |
| `FormatterExamples.HelloExample` | tests/common.ts:123-133 | with delimiters `{{` and `}}`, "Hello {{name}}" and `name: 'World'` give "Hello World" |
| `FormatterExamples.StringCountExample` | source/formatters/default.ts:16-18 | a string `_count` selects no form: the whole template, divider included, comes back with the marker filled |
| `FormatterExamples.OrderExample` | source/formatters/default.ts:41-44 | the order of the parameters shows in the result: a value holding a later parameter's marker is filled in too, one holding an earlier one's is not |

## Left out

- The `i18n` object is not part of this model: option merging, locale ancestors, key fallback across locales, missing-key handling. Only its declaration exists in the repository files modelled here.
- Host-framework plumbing is I/O and reactivity, not logic: locale loading over HTTP, Tracker dependencies, change events, per-connection locales, and the cache getters.
- `source/formatters/base.ts` has no behaviour. Its `FormatterOptions` shape is the datatype `DefaultFormatter.FormatterOptions`.
- `TranslationTree.Lookup`: reading the final segment of a template string (`object?.[lastKey]` on a string) answers `None`. In JavaScript it reads a string property such as `length`, or a character by index.
- `TranslationTree.Lookup`: properties inherited from `Object.prototype` (such as `constructor`) are not modelled. `get` on such a key answers `None` where JavaScript answers the inherited property.
- `TranslationTree.SetAt`: properties inherited from `Object.prototype` are not modelled. An entry counts as missing only when the mapping has no such key.
- `TranslationTree.SetAt`: a template string that has the property read at an intermediate step (`"abc"["length"]`) is not followed further, and the model gives `Faulted` at once. JavaScript instead goes on reading through the property's value: it throws later, on the first assignment to a primitive, or returns without assigning when a reserved segment comes first (`set({str: "abc"}, "str.length.__proto__", v)` returns normally).
- The tree has templates and mappings only. Arrays, `null`, numbers and booleans stored in the tree are not modelled. `IsJSONObject` works on the wider `JsValue`.
- Aliasing is not modelled: an object value passed to `set`, and shared by reference elsewhere, is copied into the tree.
- Mutation in place is modelled by rebuilding the spine of the `root` value.
- Replacement patterns of `replaceAll` (`$&`, `$$`, `` $` ``, `$'`) are not modelled: the replacement is literal.
- Parameter values are non-negative integers (rendered in decimal) or strings. `String()` of any other value is not modelled.
- `JsString.DecimalString`: renders every `nat` in plain decimal. JavaScript numbers are doubles, exact only up to 2^53, and `String(n)` switches to exponent notation from 10^21 (`"1e+21"`); the model accepts counts no JavaScript number holds and does not model that notation.
- Negative, fractional, `NaN` or infinite counts and rule results are not modelled: counts and indices are `nat`. In JavaScript a negative index gives `undefined` from `forms[...]`.
- `DefaultFormatter.Pluralize` requires a non-empty divider. An empty divider splits into characters in JavaScript.
- `DefaultFormatter.Interpolation` requires non-empty markers. An empty marker inserts the value between every character in JavaScript.
- The parameter record is a sequence in `Object.entries` enumeration order, taken as given. JavaScript lists integer-like keys first; that ordering rule is not modelled.
- With several `_count` entries in the sequence, the first decides. A JavaScript record has one such key.
- A rule for a locale is a total function on counts. A rule that throws, or returns `undefined` (which falls back to the count), is not modelled.
- The positional-parameter test (`{$0}`, `{$2}` with an array) has no example lemma. It is covered by `InterpolationStep` and `FormatOneMarker`, since the keys are just the strings `"0"`, `"1"`, `"2"`.
- `FormatterExamples.Phones`: the test template is written as its three forms joined by the divider. It is the same string.
- When an intermediate segment holds a template string, `set` does not overwrite it; it assigns a property on the string, which throws in strict mode (the `Faulted` outcome).
