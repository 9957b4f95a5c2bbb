/**
 * `#getValidatedOptions`: the options object a toaster runs with.  Each of
 * the three known keys takes the supplied value when the key is an own
 * property and the value passes that key's check, and its default
 * otherwise; any other supplied key is dropped.
 */
module Options {

  /** A JavaScript value as far as the checks can tell them apart. */
  datatype OptionValue = Number(n: int) | Str(s: string) | OtherValue

  const DefaultTimeoutKey: string := "defaultTimeout"
  const ToasterPrefixKey: string := "toasterPrefix"
  const ToastPrefixKey: string := "toastPrefix"

  /** The characters matched by the regular-expression class `\s`. */
  predicate IsWhitespace(c: char) {
    || c == '\t' || c == '\n' || c == '\U{000B}' || c == '\U{000C}' || c == '\r' || c == ' '
    || c == '\U{00A0}' || c == '\U{1680}' || ('\U{2000}' <= c <= '\U{200A}')
    || c == '\U{2028}' || c == '\U{2029}' || c == '\U{202F}' || c == '\U{205F}'
    || c == '\U{3000}' || c == '\U{FEFF}'
  }

  /** `isPositiveNumber`. */
  predicate IsPositiveNumber(v: OptionValue) {
    v.Number? && v.n > 0
  }

  /** `isValidId`: a non-empty string without whitespace. */
  predicate IsValidId(v: OptionValue) {
    v.Str? && |v.s| > 0 && forall i :: 0 <= i < |v.s| ==> !IsWhitespace(v.s[i])
  }

  datatype Sanitization = PositiveNumber | ValidId

  predicate Passes(check: Sanitization, v: OptionValue) {
    match check
    case PositiveNumber => IsPositiveNumber(v)
    case ValidId => IsValidId(v)
  }

  /** One entry of `defaultOptions`. */
  datatype OptionDefault = OptionDefault(key: string, defaultValue: OptionValue, sanitization: Sanitization)

  /** `defaultOptions`, in the order of its keys. */
  const DefaultOptions: seq<OptionDefault> := [
    OptionDefault(DefaultTimeoutKey, Number(10000), PositiveNumber),
    OptionDefault(ToasterPrefixKey, Str("toaster-"), ValidId),
    OptionDefault(ToastPrefixKey, Str("toast-"), ValidId)
  ]

  /** The value chosen for one known key. */
  function Chosen(options: map<string, OptionValue>, d: OptionDefault): OptionValue {
    if d.key in options && Passes(d.sanitization, options[d.key]) then options[d.key] else d.defaultValue
  }

  ghost function KeysOf(ds: seq<OptionDefault>): set<string> {
    set i | 0 <= i < |ds| :: ds[i].key
  }

  ghost predicate DistinctKeys(ds: seq<OptionDefault>) {
    forall i, j :: 0 <= i < j < |ds| ==> ds[i].key != ds[j].key
  }

  /**
   * The `reduce` over the keys of `defaultOptions`: each step assigns the
   * chosen value of one key into the accumulated object.
   */
  function Reduce(options: map<string, OptionValue>, ds: seq<OptionDefault>, prev: map<string, OptionValue>)
    : (r: map<string, OptionValue>)
    requires DistinctKeys(ds)
    ensures r.Keys == prev.Keys + KeysOf(ds)
    ensures forall i :: 0 <= i < |ds| ==> r[ds[i].key] == Chosen(options, ds[i])
    ensures forall k :: k in prev && k !in KeysOf(ds) ==> r[k] == prev[k]
  {
    if ds == [] then prev
    else
      var r := Reduce(options, ds[1..], prev[ds[0].key := Chosen(options, ds[0])]);
      assert KeysOf(ds) == {ds[0].key} + KeysOf(ds[1..]) by {
        forall k | k in KeysOf(ds) ensures k in {ds[0].key} + KeysOf(ds[1..]) {
          var i :| 0 <= i < |ds| && ds[i].key == k;
          if i > 0 { assert ds[1..][i - 1].key == k; }
        }
      }
      assert forall i :: 1 <= i < |ds| ==> ds[i] == ds[1..][i - 1];
      r
  }

  /** The table's keys are the three known keys, once each, and every default passes its own check. */
  lemma DefaultOptionsFacts()
    ensures DistinctKeys(DefaultOptions)
    ensures KeysOf(DefaultOptions) == {DefaultTimeoutKey, ToasterPrefixKey, ToastPrefixKey}
    ensures forall i :: 0 <= i < |DefaultOptions| ==>
      Passes(DefaultOptions[i].sanitization, DefaultOptions[i].defaultValue)
  {
    assert DefaultOptions[0].key == DefaultTimeoutKey;
    assert DefaultOptions[1].key == ToasterPrefixKey;
    assert DefaultOptions[2].key == ToastPrefixKey;
    assert IsValidId(Str("toaster-")) by {
      var s := "toaster-";
      forall i | 0 <= i < |s| ensures !IsWhitespace(s[i]) {}
    }
    assert IsValidId(Str("toast-")) by {
      var s := "toast-";
      forall i | 0 <= i < |s| ensures !IsWhitespace(s[i]) {}
    }
  }

  /** The result of `#getValidatedOptions(options)`. */
  function GetValidatedOptions(options: map<string, OptionValue>): (r: map<string, OptionValue>)
    ensures r.Keys == {DefaultTimeoutKey, ToasterPrefixKey, ToastPrefixKey}
    ensures WellFormed(r)
  {
    DefaultOptionsFacts();
    var r := Reduce(options, DefaultOptions, map[]);
    assert r[DefaultTimeoutKey] == Chosen(options, DefaultOptions[0]);
    assert r[ToasterPrefixKey] == Chosen(options, DefaultOptions[1]);
    assert r[ToastPrefixKey] == Chosen(options, DefaultOptions[2]);
    r
  }

  /** Validated options: a positive default timeout and two whitespace-free, non-empty prefixes. */
  ghost predicate WellFormed(o: map<string, OptionValue>) {
    && DefaultTimeoutKey in o && IsPositiveNumber(o[DefaultTimeoutKey])
    && ToasterPrefixKey in o && IsValidId(o[ToasterPrefixKey])
    && ToastPrefixKey in o && IsValidId(o[ToastPrefixKey])
  }

  function DefaultTimeoutOf(o: map<string, OptionValue>): (t: int)
    requires WellFormed(o)
    ensures t > 0
  {
    o[DefaultTimeoutKey].n
  }

  function ToasterPrefixOf(o: map<string, OptionValue>): (p: string)
    requires WellFormed(o)
    ensures |p| > 0 && forall i :: 0 <= i < |p| ==> !IsWhitespace(p[i])
  {
    o[ToasterPrefixKey].s
  }

  function ToastPrefixOf(o: map<string, OptionValue>): (p: string)
    requires WellFormed(o)
    ensures |p| > 0 && forall i :: 0 <= i < |p| ==> !IsWhitespace(p[i])
  {
    o[ToastPrefixKey].s
  }

  /**
   * The rule for each known key: the supplied value survives exactly when
   * it is an own property that passes the key's check; otherwise the key
   * gets its default.
   */
  lemma ValidatedOptionRule(options: map<string, OptionValue>)
    ensures var r := GetValidatedOptions(options);
      && r[DefaultTimeoutKey] == (if DefaultTimeoutKey in options && IsPositiveNumber(options[DefaultTimeoutKey])
                                  then options[DefaultTimeoutKey] else Number(10000))
      && r[ToasterPrefixKey] == (if ToasterPrefixKey in options && IsValidId(options[ToasterPrefixKey])
                                 then options[ToasterPrefixKey] else Str("toaster-"))
      && r[ToastPrefixKey] == (if ToastPrefixKey in options && IsValidId(options[ToastPrefixKey])
                               then options[ToastPrefixKey] else Str("toast-"))
  {
    var r := Reduce(options, DefaultOptions, map[]);
    assert r[DefaultOptions[0].key] == Chosen(options, DefaultOptions[0]);
    assert r[DefaultOptions[1].key] == Chosen(options, DefaultOptions[1]);
    assert r[DefaultOptions[2].key] == Chosen(options, DefaultOptions[2]);
  }

  /** Unknown keys are dropped: adding or changing one does not change the result. */
  lemma UnknownKeyIgnored(options: map<string, OptionValue>, k: string, v: OptionValue)
    requires k !in {DefaultTimeoutKey, ToasterPrefixKey, ToastPrefixKey}
    ensures GetValidatedOptions(options[k := v]) == GetValidatedOptions(options)
  {
    ValidatedOptionRule(options);
    ValidatedOptionRule(options[k := v]);
  }

  /** Validating already validated options changes nothing. */
  lemma ValidationIdempotent(options: map<string, OptionValue>)
    ensures GetValidatedOptions(GetValidatedOptions(options)) == GetValidatedOptions(options)
  {
    ValidatedOptionRule(options);
    ValidatedOptionRule(GetValidatedOptions(options));
  }

  /** A negative default timeout is replaced by 10000 while the prefixes keep their defaults. */
  lemma NegativeTimeoutReplaced()
    ensures GetValidatedOptions(map[DefaultTimeoutKey := Number(-5)])
         == map[DefaultTimeoutKey := Number(10000), ToasterPrefixKey := Str("toaster-"), ToastPrefixKey := Str("toast-")]
  {
    ValidatedOptionRule(map[DefaultTimeoutKey := Number(-5)]);
  }
}
