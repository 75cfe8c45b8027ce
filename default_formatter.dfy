/**
 * The default message formatter (source/formatters/default.ts): optional
 * pluralization by a numeric `_count` parameter, then interpolation of every
 * parameter marker `open + key + close`, in the order the parameters are
 * enumerated.
 */
module DefaultFormatter {
  import opened Wrappers
  import opened JsString

  /** A parameter value: a number (a non-negative integer here) or a string. */
  datatype Value = Num(n: nat) | Str(s: string)

  /** The parameter set, in the order `Object.entries(params)` enumerates it. */
  type Params = seq<(string, Value)>

  /** `FormatterOptions`: the marker delimiters, the form divider and the per-locale plural rules. */
  datatype FormatterOptions = FormatterOptions(
    open: string,
    close: string,
    pluralizationDivider: string,
    pluralizationRules: map<string, nat -> nat>)

  /** The options the formatter is handed unless the caller changes them. */
  const DefaultOptions := FormatterOptions("{$", "}", " | ", map[])

  /** `String(value)`. */
  function Render(v: Value): string {
    match v
    case Num(n) => DecimalString(n)
    case Str(s) => s
  }

  /** The marker `open + key + close` that interpolation replaces. */
  function Tag(o: FormatterOptions, key: string): string {
    o.open + key + o.close
  }

  /** Every parameter's marker is non-empty. */
  predicate TagsNonEmpty(params: Params, o: FormatterOptions) {
    forall i :: 0 <= i < |params| ==> |Tag(o, params[i].0)| > 0
  }

  function Min(a: nat, b: nat): nat {
    if a < b then a else b
  }

  // ---------------------------------------------------------------- pluralize

  /**
   * `'_count' in params && typeof params._count === 'number'`: the count, when
   * the first entry named `_count` holds a number.
   */
  function CountOf(params: Params): (r: Option<nat>)
    ensures r.Some? ==> ("_count", Num(r.value)) in params
    decreases |params|
  {
    if params == [] then None
    else if params[0].0 == "_count" then
      match params[0].1
      case Num(n) => Some(n)
      case Str(_) => None
    else CountOf(params[1..])
  }

  /** The `_count` entry decides: a number is the count, a string means no pluralization. */
  lemma {:induction false} CountOfEntry(params: Params, i: nat)
    requires i < |params| && params[i].0 == "_count"
    requires forall j :: 0 <= j < i ==> params[j].0 != "_count"
    ensures CountOf(params) == match params[i].1 case Num(n) => Some(n) case Str(_) => None
    decreases i
  {
    if i > 0 {
      CountOfEntry(params[1..], i - 1);
    }
  }

  /** Without a `_count` entry there is no count. */
  lemma {:induction false} CountOfAbsent(params: Params)
    requires forall j :: 0 <= j < |params| ==> params[j].0 != "_count"
    ensures CountOf(params) == None
    decreases |params|
  {
    if params != [] {
      CountOfAbsent(params[1..]);
    }
  }

  /** `pluralizationRules?.[locale]?.(count) ?? count`. */
  function PluralIndex(o: FormatterOptions, locale: string, count: nat): nat {
    if locale in o.pluralizationRules then o.pluralizationRules[locale](count) else count
  }

  /**
   * `pluralize`: split the message into forms on the divider and select the
   * form at the plural index, clamped to the last form. The selected form is
   * one of the pieces of the message and holds no divider.
   */
  function Pluralize(message: string, locale: string, count: nat, o: FormatterOptions): (r: string)
    requires |o.pluralizationDivider| > 0
    ensures r in SplitOn(message, o.pluralizationDivider)
    ensures !Contains(r, o.pluralizationDivider)
  {
    var forms := SplitOn(message, o.pluralizationDivider);
    forms[Min(PluralIndex(o, locale, count), |forms| - 1)]
  }

  /** An index at or past the last form selects the last form. */
  lemma PluralizeClamps(message: string, locale: string, count: nat, o: FormatterOptions)
    requires |o.pluralizationDivider| > 0
    requires PluralIndex(o, locale, count) >= |SplitOn(message, o.pluralizationDivider)| - 1
    ensures var forms := SplitOn(message, o.pluralizationDivider);
      Pluralize(message, locale, count, o) == forms[|forms| - 1]
  {
  }

  /** A message without the divider is its own single form, whatever the count. */
  lemma PluralizeSingleForm(message: string, locale: string, count: nat, o: FormatterOptions)
    requires |o.pluralizationDivider| > 0
    requires !Contains(message, o.pluralizationDivider)
    ensures Pluralize(message, locale, count, o) == message
  {
    SplitOnAbsent(message, o.pluralizationDivider);
  }

  // ---------------------------------------------------------------- interpolate

  /**
   * The string after the loop of `interpolate` has handled `params`: each
   * entry in turn replaces every occurrence of its marker with its value.
   */
  function Interpolation(message: string, params: Params, o: FormatterOptions): string
    requires TagsNonEmpty(params, o)
    decreases |params|
  {
    if params == [] then message
    else
      var (key, value) := params[|params| - 1];
      ReplaceAll(Interpolation(message, params[..|params| - 1], o), Tag(o, key), Render(value))
  }

  /** `interpolate(message, params, options)`. */
  method Interpolate(message: string, params: Params, o: FormatterOptions) returns (interpolated: string)
    requires TagsNonEmpty(params, o)
    ensures interpolated == Interpolation(message, params, o)
  {
    interpolated := message;
    for i := 0 to |params|
      invariant interpolated == Interpolation(message, params[..i], o)
    {
      var (key, value) := params[i];
      var tag := o.open + key + o.close;
      interpolated := ReplaceAll(interpolated, tag, Render(value));
      assert params[..i + 1][..i] == params[..i];
    }
    assert params[..|params|] == params;
  }

  /**
   * Parameters are handled in insertion order: interpolating a concatenation
   * is interpolating the first part, then the second.
   */
  lemma {:induction false} InterpolationInOrder(message: string, ps: Params, qs: Params, o: FormatterOptions)
    requires TagsNonEmpty(ps + qs, o)
    ensures TagsNonEmpty(ps, o) && TagsNonEmpty(qs, o)
    ensures Interpolation(message, ps + qs, o) == Interpolation(Interpolation(message, ps, o), qs, o)
    decreases |qs|
  {
    TagsNonEmptyParts(ps, qs, o);
    if qs == [] {
      assert ps + qs == ps;
    } else {
      var all := ps + qs;
      var front := qs[..|qs| - 1];
      assert all[..|all| - 1] == ps + front;
      assert all[|all| - 1] == qs[|qs| - 1];
      TagsNonEmptyParts(ps, front, o);
      InterpolationInOrder(message, ps, front, o);
    }
  }

  /** Both parts of a parameter list with non-empty markers have non-empty markers. */
  lemma TagsNonEmptyParts(ps: Params, qs: Params, o: FormatterOptions)
    requires TagsNonEmpty(ps + qs, o)
    ensures TagsNonEmpty(ps, o) && TagsNonEmpty(qs, o)
  {
    assert forall i :: 0 <= i < |ps| ==> ps[i] == (ps + qs)[i];
    assert forall i :: 0 <= i < |qs| ==> qs[i] == (ps + qs)[|ps| + i];
  }

  /**
   * Each parameter replaces every occurrence of its marker: the step is the
   * string split on the marker and joined with the value.
   */
  lemma InterpolationStep(message: string, params: Params, key: string, value: Value, o: FormatterOptions)
    requires TagsNonEmpty(params, o) && |Tag(o, key)| > 0
    ensures TagsNonEmpty(params + [(key, value)], o)
    ensures Interpolation(message, params + [(key, value)], o)
         == Join(SplitOn(Interpolation(message, params, o), Tag(o, key)), Render(value))
  {
    var ps := params + [(key, value)];
    assert forall i :: 0 <= i < |params| ==> params[i] == ps[i];
    assert ps[..|ps| - 1] == params;
    ReplaceAllIsSplitJoin(Interpolation(message, params, o), Tag(o, key), Render(value));
  }

  /** A message holding none of the parameters' markers comes back unchanged. */
  lemma {:induction false} InterpolationWithoutMarkers(message: string, params: Params, o: FormatterOptions)
    requires TagsNonEmpty(params, o)
    requires forall i :: 0 <= i < |params| ==> !Contains(message, Tag(o, params[i].0))
    ensures Interpolation(message, params, o) == message
    decreases |params|
  {
    if params != [] {
      var front := params[..|params| - 1];
      assert forall i :: 0 <= i < |front| ==> front[i] == params[i];
      InterpolationWithoutMarkers(message, front, o);
    }
  }

  // ---------------------------------------------------------------- format

  /** What `format` demands of its inputs: non-empty markers, and a non-empty divider when it pluralizes. */
  predicate Supported(params: Params, o: FormatterOptions) {
    && TagsNonEmpty(params, o)
    && (CountOf(params).Some? ==> |o.pluralizationDivider| > 0)
  }

  /** The string `format` returns: the pluralized form (when counted), then interpolated. */
  function Formatted(message: string, params: Params, locale: string, o: FormatterOptions): string
    requires Supported(params, o)
  {
    var selected := match CountOf(params)
      case Some(count) => Pluralize(message, locale, count, o)
      case None => message;
    Interpolation(selected, params, o)
  }

  /** `format(message, params, locale, options)`. */
  method Format(message: string, params: Params, locale: string, o: FormatterOptions) returns (result: string)
    requires Supported(params, o)
    ensures result == Formatted(message, params, locale, o)
  {
    result := message;
    var count := CountOf(params);
    if count.Some? {
      result := Pluralize(result, locale, count.value, o);
    }
    result := Interpolate(result, params, o);
  }

  /**
   * Pluralization runs exactly when the first `_count` entry is a number: a
   * numeric count selects a form before interpolation, a string count (or no
   * count) leaves the whole template, dividers included, to interpolation.
   */
  lemma FormatPluralizesOnNumericCount(message: string, params: Params, locale: string, o: FormatterOptions, i: nat)
    requires Supported(params, o)
    requires i < |params| && params[i].0 == "_count"
    requires forall j :: 0 <= j < i ==> params[j].0 != "_count"
    ensures params[i].1.Num? ==>
      && CountOf(params) == Some(params[i].1.n)
      && Formatted(message, params, locale, o) == Interpolation(Pluralize(message, locale, params[i].1.n, o), params, o)
    ensures params[i].1.Str? ==>
      && CountOf(params) == None
      && Formatted(message, params, locale, o) == Interpolation(message, params, o)
  {
    CountOfEntry(params, i);
  }

  /** Without a numeric count and without markers, the message is returned as it is. */
  lemma FormatWithoutMarkers(message: string, params: Params, locale: string, o: FormatterOptions)
    requires Supported(params, o) && CountOf(params) == None
    requires forall i :: 0 <= i < |params| ==> !Contains(message, Tag(o, params[i].0))
    ensures Formatted(message, params, locale, o) == message
  {
    InterpolationWithoutMarkers(message, params, o);
  }

  /** With a numeric count, the result is the selected form with the markers filled in. */
  lemma FormatSelectsAForm(message: string, params: Params, locale: string, o: FormatterOptions)
    requires Supported(params, o) && CountOf(params).Some?
    ensures exists form :: form in SplitOn(message, o.pluralizationDivider)
                        && Formatted(message, params, locale, o) == Interpolation(form, params, o)
  {
    var form := Pluralize(message, locale, CountOf(params).value, o);
    assert form in SplitOn(message, o.pluralizationDivider);
  }
}
