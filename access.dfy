/** Typed, dotted-path access to a resolved variable structure (`get_var`,
    `get_var!`, `_typize_var`, `_ensure_type!`) and feature gating
    (`has_feature?`, `data_for_features`). The structure is passed explicitly
    instead of being read from the `@vars` field. */
module Access {
  import opened Wrappers
  import opened Values

  /** The types `_typize_var` knows, after aliases are folded. */
  datatype Kind = KString | KSymbol | KInteger | KBoolean | KPath | KFile | KDirectory

  /** The `case` of `_typize_var` on the tag without its trailing `?`. The
      second `:pth` (with `:file`) is never reached: `:path, :pth` comes first. */
  function KindOf(tag: string): Option<Kind> {
    if tag == "string" || tag == "str" then Some(KString)
    else if tag == "symbol" || tag == "sym" then Some(KSymbol)
    else if tag == "integer" then Some(KInteger)
    else if tag == "boolean" || tag == "bool" then Some(KBoolean)
    else if tag == "path" || tag == "pth" then Some(KPath)
    else if tag == "file" then Some(KFile)
    else if tag == "directory" || tag == "dir" then Some(KDirectory)
    else None
  }

  /** A tag ending in `?` admits `nil`. */
  predicate Nullable(tag: string) {
    |tag| > 0 && tag[|tag| - 1] == '?'
  }

  /** `type.to_s.gsub(/\?$/, "")`. */
  function BaseTag(tag: string): string {
    if Nullable(tag) then tag[..|tag| - 1] else tag
  }

  /** What the file system holds at a path, for the strict path checks. */
  datatype Entry = RegularFile | Directory | OtherEntry

  type FileSystem = map<string, Entry>

  // ---------------------------------------------------------------------------
  // Integer()

  /** The value of a digit character in bases up to 16, or 16 if it is none. */
  function DigitValue(c: char): nat {
    if '0' <= c <= '9' then c as nat - '0' as nat
    else if 'a' <= c <= 'f' then c as nat - 'a' as nat + 10
    else if 'A' <= c <= 'F' then c as nat - 'A' as nat + 10
    else 16
  }

  /** The number a non-empty string of digits of `base` denotes. */
  function DigitsIn(ds: string, base: nat): Option<nat>
    requires 2 <= base <= 16
    decreases |ds|
  {
    if ds == [] then None
    else if DigitValue(ds[|ds| - 1]) >= base then None
    else if |ds| == 1 then Some(DigitValue(ds[0]))
    else match DigitsIn(ds[..|ds| - 1], base)
      case None => None
      case Some(high) => Some(high * base + DigitValue(ds[|ds| - 1]))
  }

  /** The radix a prefix selects: `0x` 16, `0b` 2, `0o` 8, `0d` 10, a bare
      leading `0` 8, and 10 otherwise; with what follows the prefix. */
  function Radix(body: string): (nat, string) {
    if |body| >= 2 && body[0] == '0' && body[1] in "xX" then (16, body[2..])
    else if |body| >= 2 && body[0] == '0' && body[1] in "bB" then (2, body[2..])
    else if |body| >= 2 && body[0] == '0' && body[1] in "oO" then (8, body[2..])
    else if |body| >= 2 && body[0] == '0' && body[1] in "dD" then (10, body[2..])
    else if |body| >= 2 && body[0] == '0' then (8, body[1..])
    else (10, body)
  }

  /** `Integer(string)`: an optional sign, an optional radix prefix, digits. */
  function ParseInteger(s: string): Option<int> {
    var (negative, body) :=
      if |s| > 0 && s[0] == '-' then (true, s[1..])
      else if |s| > 0 && s[0] == '+' then (false, s[1..])
      else (false, s);
    var (base, ds) := Radix(body);
    match DigitsIn(ds, base)
    case None => None
    case Some(n) => var k: int := n; Some(if negative then -k else k)
  }

  /** `Integer(var)` on a raw value. */
  function ToInteger(v: Value): Result<Value, VarsError> {
    match v
    case Int(_) => Ok(v)
    case Str(s) =>
      (match ParseInteger(s)
       case Some(n) => Ok(Int(n))
       case None => Err(ConversionFailed(v, "integer")))
    case _ => Err(ConversionFailed(v, "integer"))
  }

  lemma {:induction false} DecimalDigits(n: nat)
    ensures DigitsIn(Digits(n), 10) == Some(n)
  {
    var last := DigitChar(n % 10);
    DigitValueOfChar(n % 10);
    if n < 10 {
      assert Digits(n) == [last];
    } else {
      var high := Digits(n / 10);
      DecimalDigits(n / 10);
      DigitsInSnoc(high, last, 10);
      assert Digits(n) == high + [last];
      assert DigitsIn(high + [last], 10) == Some((n / 10) * 10 + n % 10);
    }
  }

  /** One more digit at the end. */
  lemma DigitsInSnoc(high: string, c: char, base: nat)
    requires 2 <= base <= 16 && high != [] && DigitValue(c) < base
    ensures DigitsIn(high + [c], base) ==
      match DigitsIn(high, base)
      case None => None
      case Some(h) => Some(h * base + DigitValue(c))
  {
    var ds := high + [c];
    assert ds[..|ds| - 1] == high && ds[|ds| - 1] == c;
  }

  lemma DigitValueOfChar(d: nat)
    requires d < 10
    ensures DigitValue(DigitChar(d)) == d
  {
  }

  /** Plain decimal digits, with or without a minus sign. */
  lemma ParseDigits(ds: string, n: nat)
    requires ds != [] && ds[0] != '-' && ds[0] != '+'
    requires Radix(ds) == (10, ds) && DigitsIn(ds, 10) == Some(n)
    ensures ParseInteger(ds) == Some(n)
    ensures ParseInteger("-" + ds) == Some(-(n as int))
  {
    var negative := "-" + ds;
    assert negative[0] == '-' && negative[1..] == ds;
  }

  /** Non-strict integer coercion reads back the string form of any integer. */
  lemma IntegerRoundTrip(i: int)
    ensures ToInteger(Str(IntToString(i))) == Ok(Int(i))
  {
    var n: nat := if i < 0 then -i else i;
    DecimalDigits(n);
    var ds := Digits(n);
    assert Radix(ds) == (10, ds);
    ParseDigits(ds, n);
  }

  // ---------------------------------------------------------------------------
  // _typize_var

  /** `_ensure_type!` for one or more classes. */
  function EnsureType(name: string, v: Value, ok: bool, expected: string): (r: Result<Value, VarsError>)
    ensures r.Ok? <==> ok
    ensures r.Ok? ==> r.value == v
  {
    if ok then Ok(v) else Err(InvalidValue(name, v, expected))
  }

  /** The path value of `var` (`Pathname.new`), after an optional check that
      the file system has a suitable entry there. */
  function ToPath(name: string, v: Value, strict: bool, fs: FileSystem, kind: Kind): Result<Value, VarsError>
    requires kind in {KPath, KFile, KDirectory}
  {
    var p := if v.Str? then Some(v.s) else if v.Path? then Some(v.path) else None;
    match p
    case None => Err(ConversionFailed(v, "path"))
    case Some(path) =>
      var fits :=
        if kind == KPath then path in fs
        else if kind == KFile then path in fs && fs[path] == RegularFile
        else path in fs && fs[path] == Directory;
      if strict && !fits then Err(InvalidValue(name, v, if kind == KPath then "path" else if kind == KFile then "file" else "directory"))
      else Ok(Path(path))
  }

  /** Non-strict boolean coercion. */
  function ToBoolean(name: string, v: Value): Result<Value, VarsError> {
    if v == Null then Ok(Null)
    else if v == Bool(true) || ToS(v) == "true" then Ok(Bool(true))
    else if v == Bool(false) || ToS(v) == "false" then Ok(Bool(false))
    else Err(InvalidValue(name, v, "boolean"))
  }

  /** `_typize_var(var_name, var, type, strict)`. */
  function Typize(name: string, v: Value, tag: Option<string>, strict: bool, fs: FileSystem): Result<Value, VarsError> {
    if tag.None? || (Nullable(tag.value) && v == Null) then Ok(v)
    else match KindOf(BaseTag(tag.value))
      case None => Err(UnhandledType(tag.value))
      case Some(KString) => if strict then EnsureType(name, v, v.Str?, "String") else Ok(Str(ToS(v)))
      case Some(KSymbol) => if strict then EnsureType(name, v, v.Sym?, "Symbol") else Ok(Sym(ToS(v)))
      case Some(KInteger) => if strict then EnsureType(name, v, v.Int?, "Integer") else ToInteger(v)
      case Some(KBoolean) => if strict then EnsureType(name, v, v.Bool?, "TrueClass or FalseClass") else ToBoolean(name, v)
      case Some(k) => ToPath(name, v, strict, fs, k)
  }

  /** Without a type, or with a nullable type and `nil`, the value is returned
      unchanged. */
  lemma TypizeUntouched(name: string, v: Value, tag: Option<string>, strict: bool, fs: FileSystem)
    requires tag.None? || (Nullable(tag.value) && v == Null)
    ensures Typize(name, v, tag, strict, fs) == Ok(v)
  {
  }

  /** Non-strict boolean coercion: `true`/`"true"` to true, `false`/`"false"`
      to false, `nil` to `nil`, and an error for anything else. */
  lemma TypizeBoolean(name: string, v: Value, tag: string, fs: FileSystem)
    requires KindOf(BaseTag(tag)) == Some(KBoolean)
    ensures var r := Typize(name, v, Some(tag), false, fs);
      (r == Ok(Bool(true)) <==> v == Bool(true) || ToS(v) == "true") &&
      (r == Ok(Bool(false)) <==> (v == Bool(false) || ToS(v) == "false") && ToS(v) != "true") &&
      (r == Ok(Null) <==> v == Null) &&
      (r.Err? <==> v != Null && !(v.Bool? || ToS(v) == "true" || ToS(v) == "false"))
  {
    if v.Bool? {
      assert ToS(v) == (if v.b then "true" else "false");
    }
  }

  /** Strict boolean validation accepts actual booleans only. */
  lemma TypizeStrictBoolean(name: string, v: Value, tag: string, fs: FileSystem)
    requires tag in {"boolean", "bool"}
    ensures var r := Typize(name, v, Some(tag), true, fs);
      (r.Ok? <==> v.Bool?) && (r.Ok? ==> r.value == v)
  {
  }

  /** Non-strict string coercion always succeeds with the value's `to_s`. */
  lemma TypizeString(name: string, v: Value, tag: string, fs: FileSystem)
    requires KindOf(BaseTag(tag)) == Some(KString) && !(Nullable(tag) && v == Null)
    ensures Typize(name, v, Some(tag), false, fs) == Ok(Str(ToS(v)))
  {
  }

  /** A tag outside the known ones is an error, unless it is nullable and the
      value is `nil`. */
  lemma TypizeUnknown(name: string, v: Value, tag: string, strict: bool, fs: FileSystem)
    requires KindOf(BaseTag(tag)).None? && !(Nullable(tag) && v == Null)
    ensures Typize(name, v, Some(tag), strict, fs) == Err(UnhandledType(tag))
  {
  }

  /** An integer written out as a string coerces back to itself. */
  lemma TypizeInteger(name: string, i: int, fs: FileSystem)
    ensures Typize(name, Str(IntToString(i)), Some("integer"), false, fs) == Ok(Int(i))
  {
    IntegerRoundTrip(i);
  }

  /** A string without a decimal digit, such as `""`, `"-"` or `"abc"`, is
      not an integer: the coercion fails with the conversion error. */
  lemma TypizeIntegerRejects(name: string, s: string, fs: FileSystem)
    requires forall k :: 0 <= k < |s| ==> !('0' <= s[k] <= '9')
    ensures Typize(name, Str(s), Some("integer"), false, fs) == Err(ConversionFailed(Str(s), "integer"))
  {
    var body := if |s| > 0 && (s[0] == '-' || s[0] == '+') then s[1..] else s;
    assert forall k :: 0 <= k < |body| ==> !('0' <= body[k] <= '9');
    assert Radix(body) == (10, body);
    assert DigitsIn(body, 10).None?;
  }

  /** Any value that is neither an integer nor a string cannot be coerced to
      one. */
  lemma TypizeIntegerOther(name: string, v: Value, fs: FileSystem)
    requires !v.Int? && !v.Str?
    ensures Typize(name, v, Some("integer"), false, fs) == Err(ConversionFailed(v, "integer"))
  {
  }

  // ---------------------------------------------------------------------------
  // get_var, get_var!

  /** `get_var(var_name, type:, strict:)`. */
  function GetVar(vars: Value, name: string, tag: Option<string>, strict: bool, fs: FileSystem): Result<Value, VarsError> {
    var raw :- Lookup(vars, name);
    Typize(name, raw, tag, strict, fs)
  }

  /** `get_var!(var_name, type:)`: the same lookup, never strict, failing on `nil`. */
  function GetVarRequired(vars: Value, name: string, tag: Option<string>, fs: FileSystem): (r: Result<Value, VarsError>)
    ensures var g := GetVar(vars, name, tag, false, fs);
      (r.Ok? <==> g.Ok? && g.value != Null) &&
      (r.Ok? ==> r == g) &&
      (g.Ok? && g.value == Null ==> r == Err(UndefinedVariable(name))) &&
      (g.Err? ==> r == g)
  {
    var v :- GetVar(vars, name, tag, false, fs);
    if v == Null then Err(UndefinedVariable(name)) else Ok(v)
  }

  /** An untyped lookup of a dotted path of plain keys that reaches a truthy
      value returns it; a missing key gives `nil`; a stored `false` reads as
      `nil` too. */
  lemma GetVarUntyped(vars: Value, path: seq<string>, fs: FileSystem)
    requires path != [] && forall j :: 0 <= j < |path| ==> Plain(path[j])
    requires At(vars, path).Some?
    ensures var r := GetVar(vars, Dotted(path), None, false, fs);
      r == if Truthy(At(vars, path).value) then Ok(At(vars, path).value) else Ok(Null)
  {
    ComponentsOfDotted(path);
    if Truthy(At(vars, path).value) {
      WalkFindsTruthy(vars, path);
    } else {
      WalkFalsyIsNull(vars, path);
    }
  }

  // ---------------------------------------------------------------------------
  // Features

  /** The variable that lists the enabled features. */
  const FeaturesName: string := "features"

  /** `haystack.include?(needle)` for a String receiver. */
  predicate Contains(haystack: string, needle: string)
    decreases |haystack|
  {
    needle <= haystack || (haystack != [] && Contains(haystack[1..], needle))
  }

  /** `include?` on the value of `features`. */
  function Includes(features: Value, name: string): Result<bool, VarsError> {
    match features
    case Seq(items) => Ok(Str(name) in items)
    case Str(s) => Ok(Contains(s, name))
    case Map(m) => Ok(name in m)
    case _ => Err(NoIncludeMethod(features))
  }

  /** `has_feature?(feature_name)`: the required untyped `features` variable
      includes the name. An untyped lookup never consults the file system. */
  function HasFeature(vars: Value, feature: string): Result<bool, VarsError> {
    var features :- GetVarRequired(vars, FeaturesName, None, map[]);
    Includes(features, feature)
  }

  /** The features variable is set and can answer `include?`. */
  ghost predicate FeaturesListed(vars: Value) {
    var f := GetVarRequired(vars, FeaturesName, None, map[]);
    f.Ok? && (f.value.Seq? || f.value.Str? || f.value.Map?)
  }

  /** Whether `has_feature?` fails does not depend on the feature asked for. */
  lemma HasFeatureFails(vars: Value, feature: string)
    ensures HasFeature(vars, feature).Ok? <==> FeaturesListed(vars)
  {
    var f := GetVarRequired(vars, FeaturesName, None, map[]);
    if f.Ok? {
      assert HasFeature(vars, feature) == Includes(f.value, feature);
    }
  }

  /** A list of features answers by membership. */
  lemma HasFeatureInList(vars: Value, items: seq<Value>, feature: string)
    requires Lookup(vars, "features") == Ok(Seq(items))
    ensures HasFeature(vars, feature) == Ok(Str(feature) in items)
  {
    FeaturesVariable(vars);
  }

  /** The features variable is read untyped: no coercion and no file system. */
  lemma FeaturesVariable(vars: Value)
    ensures GetVarRequired(vars, FeaturesName, None, map[]) ==
      match Lookup(vars, FeaturesName)
      case Err(e) => Err(e)
      case Ok(v) => if v == Null then Err(UndefinedVariable(FeaturesName)) else Ok(v)
  {
    var raw := Lookup(vars, FeaturesName);
    if raw.Ok? {
      TypizeUntouched(FeaturesName, raw.value, None, false, map[]);
    }
  }

  /** A feature's associated value: a literal, or a callable evaluated only
      when the feature is enabled. */
  datatype Associated = Literal(value: Value) | Producer(call: () -> Value)

  function Evaluate(a: Associated): Value {
    match a
    case Literal(v) => v
    case Producer(f) => f()
  }

  /** The answer `has_feature?` gives for a name. */
  type FeatureTest = string -> Result<bool, VarsError>

  /** The recursion of `FeatureData` for any answer to `has_feature?`. */
  function Selected(enabled: FeatureTest, info: seq<(string, Associated)>): Result<seq<Value>, VarsError>
    decreases |info|
  {
    if info == [] then Ok([])
    else
      var on :- enabled(info[0].0);
      var rest :- Selected(enabled, info[1..]);
      Ok((if on then [Evaluate(info[0].1)] else []) + rest)
  }

  /** `has_feature?` asked of `vars`. */
  function FeatureTestOf(vars: Value): FeatureTest {
    f => HasFeature(vars, f)
  }

  /** The values of `data_for_features(info)`, in the order of `info`. */
  function FeatureData(vars: Value, info: seq<(string, Associated)>): Result<seq<Value>, VarsError> {
    Selected(FeatureTestOf(vars), info)
  }

  /** The data is available exactly when there is nothing to ask, or the
      features variable can be asked. */
  lemma {:induction false} FeatureDataFails(vars: Value, info: seq<(string, Associated)>)
    ensures FeatureData(vars, info).Ok? <==> info == [] || FeaturesListed(vars)
    decreases |info|
  {
    if info != [] {
      HasFeatureFails(vars, info[0].0);
      FeatureDataFails(vars, info[1..]);
      if |info| > 1 {
        HasFeatureFails(vars, info[1].0);
      }
    }
  }

  /** The data of consecutive runs of entries is the concatenation of the
      data of each run; with `FeatureDataEntry`, the data holds, in order, the
      evaluated values of the enabled features and nothing else. */
  lemma {:induction false} FeatureDataSplit(vars: Value, a: seq<(string, Associated)>, b: seq<(string, Associated)>)
    ensures FeatureData(vars, a + b).Ok? <==> FeatureData(vars, a).Ok? && FeatureData(vars, b).Ok?
    ensures FeatureData(vars, a + b).Ok? ==>
      FeatureData(vars, a + b).value == FeatureData(vars, a).value + FeatureData(vars, b).value
  {
    SelectedSplit(FeatureTestOf(vars), a, b);
  }

  lemma {:induction false} SelectedSplit(enabled: FeatureTest, a: seq<(string, Associated)>, b: seq<(string, Associated)>)
    ensures Selected(enabled, a + b).Ok? <==> Selected(enabled, a).Ok? && Selected(enabled, b).Ok?
    ensures Selected(enabled, a + b).Ok? ==>
      Selected(enabled, a + b).value == Selected(enabled, a).value + Selected(enabled, b).value
    decreases |a|
  {
    if a == [] {
      assert a + b == b;
    } else {
      SelectedSplit(enabled, a[1..], b);
      assert (a + b)[0] == a[0] && (a + b)[1..] == a[1..] + b;
    }
  }

  /** One entry contributes its evaluated value when its feature is enabled,
      and nothing when it is not. */
  lemma FeatureDataEntry(vars: Value, feature: string, assoc: Associated)
    ensures FeatureData(vars, [(feature, assoc)]) ==
      match HasFeature(vars, feature)
      case Ok(on) => Ok(if on then [Evaluate(assoc)] else [])
      case Err(e) => Err(e)
  {
    SelectedEntry(FeatureTestOf(vars), feature, assoc);
  }

  lemma SelectedEntry(enabled: FeatureTest, feature: string, assoc: Associated)
    ensures Selected(enabled, [(feature, assoc)]) ==
      match enabled(feature)
      case Ok(on) => Ok(if on then [Evaluate(assoc)] else [])
      case Err(e) => Err(e)
  {
    var info := [(feature, assoc)];
    assert info[1..] == [];
    var h := enabled(feature);
    if h.Ok? {
      var x: seq<Value> := if h.value then [Evaluate(assoc)] else [];
      assert x + [] == x;
    }
  }

  function Prepended(data: seq<Value>, r: Result<seq<Value>, VarsError>): Result<seq<Value>, VarsError> {
    match r
    case Ok(rest) => Ok(data + rest)
    case Err(e) => Err(e)
  }

  lemma PrependedNothing(r: Result<seq<Value>, VarsError>)
    ensures Prepended([], r) == r
  {
    if r.Ok? {
      assert [] + r.value == r.value;
    }
  }

  lemma PrependedTwice(a: seq<Value>, b: seq<Value>, r: Result<seq<Value>, VarsError>)
    ensures Prepended(a, Prepended(b, r)) == Prepended(a + b, r)
  {
    if r.Ok? {
      assert a + (b + r.value) == (a + b) + r.value;
    }
  }

  lemma FeatureDataStep(vars: Value, info: seq<(string, Associated)>, i: nat)
    requires i < |info|
    ensures FeatureData(vars, info[i..]) ==
      match HasFeature(vars, info[i].0)
      case Err(e) => Err(e)
      case Ok(on) => Prepended(if on then [Evaluate(info[i].1)] else [], FeatureData(vars, info[i + 1..]))
  {
    assert info[i..][0] == info[i] && info[i..][1..] == info[i + 1..];
  }

  /** `data_for_features(info)`: loop over the entries, keeping the value of
      each enabled feature, calling it when it is callable. */
  method DataForFeatures(vars: Value, info: seq<(string, Associated)>) returns (r: Result<seq<Value>, VarsError>)
    ensures r == FeatureData(vars, info)
  {
    var data: seq<Value> := [];
    assert info[0..] == info;
    PrependedNothing(FeatureData(vars, info));
    for i := 0 to |info|
      invariant FeatureData(vars, info) == Prepended(data, FeatureData(vars, info[i..]))
    {
      FeatureDataStep(vars, info, i);
      var enabled := HasFeature(vars, info[i].0);
      if enabled.Err? {
        return Err(enabled.error);
      }
      if enabled.value {
        PrependedTwice(data, [Evaluate(info[i].1)], FeatureData(vars, info[i + 1..]));
        data := data + [Evaluate(info[i].1)];
      } else {
        PrependedTwice(data, [], FeatureData(vars, info[i + 1..]));
        assert data + [] == data;
      }
    }
    assert info[|info|..] == [] && data + [] == data;
    return Ok(data);
  }
}
