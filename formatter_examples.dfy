/**
 * The formatter's behaviour on the test vectors of tests/common.ts and on the
 * edge cases the default formatter is documented to keep: the raw count as
 * the form index, clamping to the last form, a string `_count` that does not
 * pluralize, and the insertion order of the parameters.
 */
module FormatterExamples {
  import opened Wrappers
  import opened JsString
  import opened DefaultFormatter

  /** A message of three forms separated by a divider anchored outside each form splits into those forms. */
  lemma SplitThree(a: string, b: string, c: string, d: string, j: nat)
    requires |d| > 0
    requires AnchoredOutside(a, d, j) && AnchoredOutside(b, d, j) && AnchoredOutside(c, d, j)
    ensures SplitOn(a + d + b + d + c, d) == [a, b, c]
  {
    var tail := b + d + c;
    assert a + d + b + d + c == a + d + tail;
    AnchoredAbsent(c, d, j);
    SplitOnAbsent(c, d);
    SplitOnAround(b, d, c, j);
    assert SplitOn(tail, d) == [b, c];
    SplitOnAround(a, d, tail, j);
  }

  /**
   * Formatting with `_count` as the only parameter: the form at the clamped
   * plural index, with its count marker filled in.
   */
  lemma FormatCountOnly(message: string, forms: seq<string>, n: nat, locale: string, o: FormatterOptions)
    requires |o.pluralizationDivider| > 0 && |Tag(o, "_count")| > 0
    requires SplitOn(message, o.pluralizationDivider) == forms
    ensures Supported([("_count", Num(n))], o)
    ensures Formatted(message, [("_count", Num(n))], locale, o)
         == ReplaceAll(forms[Min(PluralIndex(o, locale, n), |forms| - 1)], Tag(o, "_count"), DecimalString(n))
  {
    var params := [("_count", Num(n))];
    assert CountOf(params) == Some(n);
    var selected := Pluralize(message, locale, n, o);
    assert selected == forms[Min(PluralIndex(o, locale, n), |forms| - 1)];
    assert params[..0] == [];
    assert Interpolation(selected, params[..0], o) == selected;
    assert Interpolation(selected, params, o) == ReplaceAll(selected, Tag(o, "_count"), Render(Num(n)));
  }

  /**
   * The template of the test (tests/common.ts:240), written as its three
   * forms joined by the divider.
   */
  const Items := "no items" + " | " + "one item" + " | " + "{$_count} items"

  /** The three forms of `Items`. */
  lemma ItemsForms()
    ensures SplitOn(Items, " | ") == ["no items", "one item", "{$_count} items"]
  {
    SplitThree("no items", "one item", "{$_count} items", " | ", 1);
  }

  /** Filling the marker of a form `{$_count}<rest>` whose rest holds no `{`. */
  lemma FillCountMarker(rest: string, filler: string)
    requires '{' !in rest
    ensures ReplaceAll("{$_count}" + rest, "{$_count}", filler) == filler + rest
  {
    assert "{$_count}" + rest == "" + "{$_count}" + rest;
    assert AnchoredOutside("", "{$_count}", 0);
    ReplaceAround("", "{$_count}", rest, filler, 0);
  }

  /** A form without `{` holds no `{$_count}` marker. */
  lemma NoCountMarker(form: string, filler: string)
    requires '{' !in form
    ensures ReplaceAll(form, "{$_count}", filler) == form
  {
    assert AnchoredOutside(form, "{$_count}", 0);
    AnchoredAbsent(form, "{$_count}", 0);
  }

  /** The default options register no rule, so the raw count is the index, and keep the default marker. */
  lemma DefaultOptionsAt(locale: string, n: nat)
    ensures PluralIndex(DefaultOptions, locale, n) == n
    ensures Tag(DefaultOptions, "_count") == "{$_count}"
  {
  }

  /**
   * A message of a zero form, a one form and a `{$_count}<rest>` form, none
   * of them holding `{`: with no rule for the locale, `_count` both selects
   * the form by its raw value (clamped to the last form) and fills the marker
   * of the selected form.
   */
  lemma ThreeFormsByRawCount(message: string, zero: string, one: string, many: string, rest: string, n: nat, locale: string)
    requires '{' !in zero && '{' !in one && '{' !in rest && many == "{$_count}" + rest
    requires SplitOn(message, " | ") == [zero, one, many]
    ensures Supported([("_count", Num(n))], DefaultOptions)
    ensures Formatted(message, [("_count", Num(n))], locale, DefaultOptions)
         == if n == 0 then zero else if n == 1 then one else DecimalString(n) + rest
  {
    var forms := [zero, one, many];
    FormatCountOnly(message, forms, n, locale, DefaultOptions);
    DefaultOptionsAt(locale, n);
    var selected := forms[Min(n, 2)];
    assert Formatted(message, [("_count", Num(n))], locale, DefaultOptions)
        == ReplaceAll(selected, "{$_count}", DecimalString(n));
    if n == 0 {
      NoCountMarker(zero, DecimalString(n));
    } else if n == 1 {
      NoCountMarker(one, DecimalString(n));
    } else {
      FillCountMarker(rest, DecimalString(n));
    }
  }

  /** The literal facts the example needs, kept apart from the split of `Items`. */
  lemma ItemsLiterals()
    ensures "{$_count} items" == "{$_count}" + " items"
    ensures '{' !in "no items" && '{' !in "one item" && '{' !in " items"
    ensures DecimalString(2) + " items" == "2 items"
    ensures DecimalString(10) + " items" == "10 items"
  {
    assert DecimalString(10) == "10";
  }

  /** The counts 0, 1, 2 and 10 of the test (tests/common.ts:240-250). */
  lemma ItemsExample()
    ensures Formatted(Items, [("_count", Num(0))], "en-US", DefaultOptions) == "no items"
    ensures Formatted(Items, [("_count", Num(1))], "en-US", DefaultOptions) == "one item"
    ensures Formatted(Items, [("_count", Num(2))], "en-US", DefaultOptions) == "2 items"
    ensures Formatted(Items, [("_count", Num(10))], "en-US", DefaultOptions) == "10 items"
  {
    ItemsForms();
    ItemsLiterals();
    ThreeFormsByRawCount(Items, "no items", "one item", "{$_count} items", " items", 0, "en-US");
    ThreeFormsByRawCount(Items, "no items", "one item", "{$_count} items", " items", 1, "en-US");
    ThreeFormsByRawCount(Items, "no items", "one item", "{$_count} items", " items", 2, "en-US");
    ThreeFormsByRawCount(Items, "no items", "one item", "{$_count} items", " items", 10, "en-US");
  }

  /** The Polish plural rule registered by the test (tests/common.ts:259-268). */
  function PolishRule(count: nat): (index: nat)
    ensures index <= 2
  {
    var tens := count % 100;
    var units := tens % 10;
    if 10 < tens < 20 then 2
    else if units == 0 then 2
    else if tens == 1 && units == 1 then 0
    else if 1 < units < 5 then 1
    else 2
  }

  const PolishOptions: FormatterOptions := FormatterOptions("{$", "}", " | ", map["pl-PL" := (c: nat) => PolishRule(c)])

  /** The Polish options register `PolishRule` under `pl-PL` and keep the default marker. */
  lemma PolishOptionsAt(n: nat)
    ensures PluralIndex(PolishOptions, "pl-PL", n) == PolishRule(n)
    ensures Tag(PolishOptions, "_count") == "{$_count}"
  {
  }

  /**
   * The template of the test (tests/common.ts:273), written as its three
   * forms joined by the divider.
   */
  const Phones := "{$_count} telefon" + " | " + "{$_count} telefony" + " | " + "{$_count} telefonów"

  /** The forms of `Phones`, and what follows the count marker in each. */
  const PhoneForms := ["{$_count} telefon", "{$_count} telefony", "{$_count} telefonów"]
  const PhoneRests := [" telefon", " telefony", " telefonów"]

  /** The three forms of `Phones`. */
  lemma PhonesForms()
    ensures SplitOn(Phones, " | ") == PhoneForms
  {
    SplitThree("{$_count} telefon", "{$_count} telefony", "{$_count} telefonów", " | ", 1);
  }

  /**
   * A message of three `{$_count}<rest>` forms whose rests hold no `{`: with
   * the Polish rule registered for `pl-PL`, the rule's index selects the form
   * and the count fills its marker.
   */
  lemma ThreeFormsByPolishRule(message: string, forms: seq<string>, rests: seq<string>, n: nat)
    requires |forms| == 3 && |rests| == 3
    requires forall i :: 0 <= i < 3 ==> '{' !in rests[i] && forms[i] == "{$_count}" + rests[i]
    requires SplitOn(message, " | ") == forms
    ensures Supported([("_count", Num(n))], PolishOptions)
    ensures Formatted(message, [("_count", Num(n))], "pl-PL", PolishOptions)
         == DecimalString(n) + rests[PolishRule(n)]
  {
    FormatCountOnly(message, forms, n, "pl-PL", PolishOptions);
    PolishOptionsAt(n);
    assert forms[Min(PolishRule(n), 2)] == "{$_count}" + rests[PolishRule(n)];
    FillCountMarker(rests[PolishRule(n)], DecimalString(n));
  }

  /** The literal facts the example needs, kept apart from the split of `Phones`. */
  lemma PhonesLiterals()
    ensures |PhoneForms| == 3 && |PhoneRests| == 3
    ensures forall i :: 0 <= i < 3 ==> '{' !in PhoneRests[i] && PhoneForms[i] == "{$_count}" + PhoneRests[i]
    ensures PolishRule(1) == 0 && PolishRule(2) == 1 && PolishRule(5) == 2 && PolishRule(22) == 1
    ensures DecimalString(1) + " telefon" == "1 telefon"
    ensures DecimalString(2) + " telefony" == "2 telefony"
    ensures DecimalString(5) + " telefonów" == "5 telefonów"
    ensures DecimalString(22) + " telefony" == "22 telefony"
  {
    assert "{$_count} telefon" == "{$_count}" + " telefon";
    assert "{$_count} telefony" == "{$_count}" + " telefony";
    assert "{$_count} telefonów" == "{$_count}" + " telefonów";
    assert DecimalString(22) == "22";
  }

  /** The counts 1 and 2 of the test (tests/common.ts:294-295). */
  lemma PhonesExampleOneTwo()
    ensures Formatted(Phones, [("_count", Num(1))], "pl-PL", PolishOptions) == "1 telefon"
    ensures Formatted(Phones, [("_count", Num(2))], "pl-PL", PolishOptions) == "2 telefony"
  {
    PhonesForms();
    PhonesLiterals();
    ThreeFormsByPolishRule(Phones, PhoneForms, PhoneRests, 1);
    ThreeFormsByPolishRule(Phones, PhoneForms, PhoneRests, 2);
  }

  /** The counts 5 and 22 of the test (tests/common.ts:296-297). */
  lemma PhonesExampleFiveTwentyTwo()
    ensures Formatted(Phones, [("_count", Num(5))], "pl-PL", PolishOptions) == "5 telefonów"
    ensures Formatted(Phones, [("_count", Num(22))], "pl-PL", PolishOptions) == "22 telefony"
  {
    PhonesForms();
    PhonesLiterals();
    ThreeFormsByPolishRule(Phones, PhoneForms, PhoneRests, 5);
    ThreeFormsByPolishRule(Phones, PhoneForms, PhoneRests, 22);
  }

  /**
   * A template with one marker, formatted with one string parameter: the
   * marker is replaced and nothing else changes. A string value never
   * pluralizes, so a divider in the template stays where it is.
   */
  lemma FormatOneMarker(a: string, key: string, b: string, value: string, locale: string, o: FormatterOptions, j: nat)
    requires |Tag(o, key)| > 0
    requires AnchoredOutside(a, Tag(o, key), j) && AnchoredOutside(b, Tag(o, key), j)
    ensures Supported([(key, Str(value))], o)
    ensures Formatted(a + Tag(o, key) + b, [(key, Str(value))], locale, o) == a + value + b
  {
    assert CountOf([(key, Str(value))]) == None;
    OneParameter(a + Tag(o, key) + b, key, Str(value), o);
    ReplaceAround(a, Tag(o, key), b, value, j);
  }

  /** The options the test switches to: `{{` and `}}` as delimiters. */
  const DoubleBraces := FormatterOptions("{{", "}}", " | ", map[])

  /** The literal facts `HelloExample` needs. */
  lemma HelloLiterals()
    ensures Tag(DoubleBraces, "name") == "{{name}}"
    ensures "Hello {{name}}" == "Hello " + "{{name}}" + ""
    ensures AnchoredOutside("Hello ", "{{name}}", 2) && AnchoredOutside("", "{{name}}", 2)
    ensures "Hello " + "World" + "" == "Hello World"
  {
  }

  /** Changed delimiters change the marker (tests/common.ts:123-133). */
  lemma HelloExample()
    ensures Formatted("Hello {{name}}", [("name", Str("World"))], "en-US", DoubleBraces) == "Hello World"
  {
    HelloLiterals();
    FormatOneMarker("Hello ", "name", "", "World", "en-US", DoubleBraces, 2);
  }

  /** The literal facts `StringCountExample` needs. */
  lemma StringCountLiterals()
    ensures Tag(DefaultOptions, "_count") == "{$_count}"
    ensures "one item | {$_count} items" == "one item | " + "{$_count}" + " items"
    ensures AnchoredOutside("one item | ", "{$_count}", 0) && AnchoredOutside(" items", "{$_count}", 0)
    ensures "one item | " + "5" + " items" == "one item | 5 items"
  {
  }

  /**
   * A `_count` given as a string is interpolated but selects no form: the
   * whole template, divider included, comes back with the marker filled.
   */
  lemma StringCountExample()
    ensures Formatted("one item | {$_count} items", [("_count", Str("5"))], "en-US", DefaultOptions)
         == "one item | 5 items"
  {
    StringCountLiterals();
    FormatOneMarker("one item | ", "_count", " items", "5", "en-US", DefaultOptions, 0);
  }

  /** The literal facts `OrderExample` needs. */
  lemma OrderLiterals()
    ensures Tag(DefaultOptions, "a") == "{$a}" && Tag(DefaultOptions, "b") == "{$b}"
    ensures "{$a}" == "" + "{$a}" + "" && "{$b}" == "" + "{$b}" + ""
    ensures AnchoredOutside("", "{$a}", 2) && AnchoredOutside("", "{$b}", 2)
    ensures AnchoredOutside("{$b}", "{$a}", 2) && AnchoredOutside("{$a}", "{$b}", 2)
    ensures "" + "{$b}" + "" == "{$b}" && "" + "x" + "" == "x"
  {
  }

  /**
   * The parameters are applied one after the other, so a value holding a
   * later parameter's marker is filled in too.
   */
  lemma OrderExample()
    ensures Formatted("{$a}", [("a", Str("{$b}")), ("b", Str("x"))], "en-US", DefaultOptions) == "x"
  {
    OrderLiterals();
    var ab := [("a", Str("{$b}")), ("b", Str("x"))];
    CountOfAbsent(ab);
    InterpolationInOrder("{$a}", [ab[0]], [ab[1]], DefaultOptions);
    assert ab == [ab[0]] + [ab[1]];
    OneParameter("{$a}", "a", Str("{$b}"), DefaultOptions);
    OneParameter("{$b}", "b", Str("x"), DefaultOptions);
    ReplaceAround("", "{$a}", "", "{$b}", 2);
    ReplaceAround("", "{$b}", "", "x", 2);
  }

  /**
   * In the other enumeration order the value holding an earlier parameter's
   * marker is left as it is: the order of the parameters shows in the result.
   */
  lemma OrderExampleReversed()
    ensures Formatted("{$a}", [("b", Str("x")), ("a", Str("{$b}"))], "en-US", DefaultOptions) == "{$b}"
  {
    OrderLiterals();
    var ba := [("b", Str("x")), ("a", Str("{$b}"))];
    CountOfAbsent(ba);
    InterpolationInOrder("{$a}", [ba[0]], [ba[1]], DefaultOptions);
    assert ba == [ba[0]] + [ba[1]];
    OneParameter("{$a}", "b", Str("x"), DefaultOptions);
    OneParameter("{$a}", "a", Str("{$b}"), DefaultOptions);
    AnchoredAbsent("{$a}", "{$b}", 2);
    ReplaceAround("", "{$a}", "", "{$b}", 2);
  }

  /** Interpolating a single parameter is one replace-all. */
  lemma OneParameter(message: string, key: string, value: Value, o: FormatterOptions)
    requires |Tag(o, key)| > 0
    ensures TagsNonEmpty([(key, value)], o)
    ensures Interpolation(message, [(key, value)], o) == ReplaceAll(message, Tag(o, key), Render(value))
  {
    assert [(key, value)][..0] == [];
  }
}
