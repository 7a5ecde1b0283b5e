/** The variable structures of `Fizzy::Vars`: nested values as YAML and JSON
    parsing produce them, the two library extensions the engine relies on
    (`Hash#deep_merge` and `Hash#fqkeys`), the dotted-path walk of `_get_var`,
    and Ruby's `to_s` on these values. */
module Values {
  import opened Wrappers

  /** A Ruby value of a variable structure. `Sym` and `Path` only arise from
      typed lookups (a Symbol, a Pathname). */
  datatype Value =
    | Null
    | Bool(b: bool)
    | Int(i: int)
    | Str(s: string)
    | Sym(name: string)
    | Path(path: string)
    | Seq(items: seq<Value>)
    | Map(entries: map<string, Value>)

  /** Two sibling parents disagreeing on a dotted key, identified, as the
      source's `uniq` does, by the key and the unordered pair of values. */
  datatype Clash = Clash(key: string, values: set<Value>)

  datatype VarsError =
    | KeyLookupOnNonMap                                   // `has_key?` sent to a non-Hash
    | UndefinedVariable(name: string)                     // get_var! on nil
    | InvalidValue(name: string, value: Value, expected: string)
    | ConversionFailed(value: Value, target: string)      // Integer() or Pathname.new raising
    | UnhandledType(tag: string)
    | NoIncludeMethod(value: Value)                       // `include?` sent to a value without it
    | InvalidVars(name: string)
    | UnrecognizedFormat(tag: string)
    | InvalidContent(content: string)                     // YAML.load raising
    | InvalidJson(content: string)
    | Inconsistent(collisions: set<Clash>)

  /** Ruby truthiness: everything but `nil` and `false`. */
  predicate Truthy(v: Value) {
    v != Null && v != Bool(false)
  }

  // ---------------------------------------------------------------------------
  // Structural paths

  /** The value a path of keys reaches through nested maps, if any. */
  function At(v: Value, path: seq<string>): Option<Value>
    decreases |path|
  {
    if path == [] then Some(v)
    else if v.Map? && path[0] in v.entries then At(v.entries[path[0]], path[1..])
    else None
  }

  /** `over` defines nothing at `path` nor at any prefix of it: it is a map all
      the way down to where the path leaves it. */
  ghost predicate Silent(over: Value, path: seq<string>)
    decreases |path|
  {
    path != [] && over.Map? &&
    (path[0] !in over.entries || Silent(over.entries[path[0]], path[1..]))
  }

  lemma {:induction false} SilentIsAbsent(over: Value, path: seq<string>)
    requires Silent(over, path)
    ensures At(over, path) == None
    decreases |path|
  {
    if path[0] in over.entries {
      SilentIsAbsent(over.entries[path[0]], path[1..]);
    }
  }

  // ---------------------------------------------------------------------------
  // deep_merge

  /** `base.deep_merge(over)`: two maps merge key by key, recursively; any
      other value of `over` replaces what `base` holds. */
  function DeepMerge(base: Value, over: Value): (r: Value)
    ensures base.Map? && over.Map? ==> r.Map? && r.entries.Keys == base.entries.Keys + over.entries.Keys
    ensures !(base.Map? && over.Map?) ==> r == over
  {
    if base.Map? && over.Map? then
      Map(map k | k in base.entries.Keys + over.entries.Keys ::
        if k in base.entries && k in over.entries then DeepMerge(base.entries[k], over.entries[k])
        else if k in over.entries then over.entries[k]
        else base.entries[k])
    else over
  }

  /** The overriding side wins on every leaf it defines. */
  lemma {:induction false} DeepMergeOverWins(base: Value, over: Value, path: seq<string>)
    requires At(over, path).Some? && !At(over, path).value.Map?
    ensures At(DeepMerge(base, over), path) == At(over, path)
    decreases |path|
  {
    if path != [] && base.Map? {
      var k := path[0];
      if k in base.entries {
        DeepMergeOverWins(base.entries[k], over.entries[k], path[1..]);
      }
    }
  }

  /** Where the overriding side is silent, the base shows through. */
  lemma {:induction false} DeepMergeKeepsBase(base: Value, over: Value, path: seq<string>)
    requires Silent(over, path)
    ensures At(DeepMerge(base, over), path) == At(base, path)
    decreases |path|
  {
    SilentIsAbsent(over, path);
    var k := path[0];
    if base.Map? {
      if k in over.entries {
        if k in base.entries {
          DeepMergeKeepsBase(base.entries[k], over.entries[k], path[1..]);
        } else {
          SilentIsAbsent(over.entries[k], path[1..]);
        }
      }
    }
  }

  /** Merging a structure with itself changes nothing. */
  lemma {:induction false} DeepMergeIdempotent(v: Value)
    ensures DeepMerge(v, v) == v
  {
    if v.Map? {
      forall k | k in v.entries ensures DeepMerge(v.entries[k], v.entries[k]) == v.entries[k] {
        DeepMergeIdempotent(v.entries[k]);
      }
      assert DeepMerge(v, v).entries == v.entries;
    }
  }

  /** Merging into the empty map gives the overriding structure back. */
  lemma DeepMergeIntoEmpty(v: Value)
    ensures DeepMerge(Map(map[]), v) == v
  {
    if v.Map? {
      assert DeepMerge(Map(map[]), v).entries == v.entries;
    }
  }

  /** The merge of a map over a parent, key by key. */
  lemma DeepMergeExample()
    ensures DeepMerge(
      Map(map["b" := Map(map["x" := Int(2), "y" := Int(3)]), "c" := Int(4)]),
      Map(map["a" := Int(1), "b" := Map(map["x" := Int(1)])]))
      == Map(map["a" := Int(1), "b" := Map(map["x" := Int(1), "y" := Int(3)]), "c" := Int(4)])
  {
    var inner := DeepMerge(Map(map["x" := Int(2), "y" := Int(3)]), Map(map["x" := Int(1)]));
    assert inner.entries == map["x" := Int(1), "y" := Int(3)];
    var whole := DeepMerge(
      Map(map["b" := Map(map["x" := Int(2), "y" := Int(3)]), "c" := Int(4)]),
      Map(map["a" := Int(1), "b" := Map(map["x" := Int(1)])]));
    assert whole.entries == map["a" := Int(1), "b" := inner, "c" := Int(4)];
  }

  /** A non-map in the middle makes the merge order matter: the merge is not
      associative. */
  lemma DeepMergeNotAssociative()
    ensures var a, b, c := Map(map["x" := Int(1)]), Int(5), Map(map["y" := Int(2)]);
      DeepMerge(DeepMerge(a, b), c) != DeepMerge(a, DeepMerge(b, c))
  {
    var a, b, c := Map(map["x" := Int(1)]), Int(5), Map(map["y" := Int(2)]);
    assert "x" in DeepMerge(a, DeepMerge(b, c)).entries;
  }

  // ---------------------------------------------------------------------------
  // fqkeys and dotted paths

  /** `Hash#fqkeys`: the dotted paths of the leaves, a leaf being any value
      that is not a map. A value that is not a map has none. */
  function FqKeys(v: Value): set<string> {
    match v
    case Map(m) =>
      (set k | k in m && !m[k].Map?) +
      (set k, sub | k in m && m[k].Map? && sub in FqKeys(m[k]) :: k + "." + sub)
    case _ => {}
  }

  /** Every key in the structure is a plain name: not empty, no dot. */
  ghost predicate PlainKeys(v: Value) {
    match v
    case Map(m) => forall k :: k in m ==> Plain(k) && PlainKeys(m[k])
    case _ => true
  }

  predicate Plain(k: string) {
    k != [] && '.' !in k
  }

  /** Joins keys with dots. */
  function Dotted(path: seq<string>): string {
    if path == [] then "" else if |path| == 1 then path[0] else path[0] + "." + Dotted(path[1..])
  }

  /** Length of the run of non-dot characters at the start of `s`. */
  function RunLength(s: string): (n: nat)
    ensures n <= |s| && '.' !in s[..n] && (n < |s| ==> s[n] == '.')
  {
    if s == [] || s[0] == '.' then 0 else 1 + RunLength(s[1..])
  }

  /** The components of a dotted name: the maximal runs of non-dot characters,
      so that empty components (leading, trailing or doubled dots) vanish. */
  function Components(s: string): (cs: seq<string>)
    decreases |s|
    ensures forall j :: 0 <= j < |cs| ==> Plain(cs[j])
  {
    if s == [] then []
    else if s[0] == '.' then Components(s[1..])
    else
      var n := RunLength(s);
      [s[..n]] + Components(s[n..])
  }

  lemma RunLengthOfPlain(k: string, rest: string)
    requires Plain(k)
    requires rest == [] || rest[0] == '.'
    ensures RunLength(k + rest) == |k|
    decreases |k|
  {
    assert (k + rest)[0] == k[0] && k[0] in k;
    assert (k + rest)[1..] == k[1..] + rest;
    if |k| > 1 {
      assert forall c :: c in k[1..] ==> c in k;
      RunLengthOfPlain(k[1..], rest);
    } else {
      assert k[1..] + rest == rest;
    }
  }

  /** Splitting a dotted path of plain keys gives the keys back. */
  lemma {:induction false} ComponentsOfDotted(path: seq<string>)
    requires forall j :: 0 <= j < |path| ==> Plain(path[j])
    ensures Components(Dotted(path)) == path
  {
    if path == [] {
    } else if |path| == 1 {
      RunLengthOfPlain(path[0], "");
      assert path[0] + "" == path[0];
      assert path[0][|path[0]|..] == [];
    } else {
      var k, rest := path[0], Dotted(path[1..]);
      var s := k + "." + rest;
      RunLengthOfPlain(k, "." + rest);
      assert k + "." + rest == k + ("." + rest);
      assert s[..|k|] == k;
      assert s[|k|..] == "." + rest;
      assert ("." + rest)[1..] == rest;
      ComponentsOfDotted(path[1..]);
    }
  }

  lemma ComponentsOfKeyDotSub(k: string, sub: string)
    requires Plain(k)
    ensures Components(k + "." + sub) == [k] + Components(sub)
  {
    var s := k + "." + sub;
    assert s == k + ("." + sub);
    RunLengthOfPlain(k, "." + sub);
    assert s[..|k|] == k;
    assert s[|k|..] == "." + sub;
    assert ("." + sub)[1..] == sub;
  }

  lemma ComponentsOfPlain(k: string)
    requires Plain(k)
    ensures Components(k) == [k]
  {
    RunLengthOfPlain(k, "");
    assert k + "" == k;
    assert k[|k|..] == [];
  }

  /** A dot after `a` ends its first run no later than `a` itself does. */
  lemma {:induction false} RunLengthBeforeDot(a: string, b: string)
    ensures RunLength(a + "." + b) == RunLength(a)
    decreases |a|
  {
    var s := a + "." + b;
    if a == [] {
      assert s[0] == '.';
    } else if a[0] != '.' {
      assert s[0] == a[0] && s[1..] == a[1..] + "." + b;
      RunLengthBeforeDot(a[1..], b);
    }
  }

  /** The components of two names joined by a dot are those of the first
      followed by those of the second: a dot only separates, and the empty
      components an extra dot makes are dropped. */
  lemma {:induction false} ComponentsOfJoin(a: string, b: string)
    ensures Components(a + "." + b) == Components(a) + Components(b)
    decreases |a|
  {
    var s := a + "." + b;
    if a == [] {
      assert s[1..] == b;
    } else if a[0] == '.' {
      assert s[0] == '.' && s[1..] == a[1..] + "." + b;
      ComponentsOfJoin(a[1..], b);
    } else {
      var n := RunLength(a);
      RunLengthBeforeDot(a, b);
      assert s[0] == a[0];
      assert s[..n] == a[..n] && s[n..] == a[n..] + "." + b;
      ComponentsOfJoin(a[n..], b);
      assert Components(a) == [a[..n]] + Components(a[n..]);
    }
  }

  /** With plain keys, every dotted path `fqkeys` lists leads to a leaf. */
  lemma {:induction false} FqKeyIsLeaf(v: Value, key: string)
    requires PlainKeys(v) && key in FqKeys(v)
    ensures At(v, Components(key)).Some? && !At(v, Components(key)).value.Map?
  {
    var m := v.entries;
    if key in m && !m[key].Map? {
      ComponentsOfPlain(key);
      assert At(v, [key]) == At(m[key], []);
    } else {
      var k, sub :| k in m && m[k].Map? && sub in FqKeys(m[k]) && key == k + "." + sub;
      ComponentsOfKeyDotSub(k, sub);
      FqKeyIsLeaf(m[k], sub);
      var cs := [k] + Components(sub);
      assert cs[0] == k && cs[1..] == Components(sub);
      assert At(v, cs) == At(m[k], Components(sub));
    }
  }

  /** Every leaf below the top is listed by `fqkeys`, under its dotted path. */
  lemma {:induction false} LeafIsFqKey(v: Value, path: seq<string>)
    requires path != [] && At(v, path).Some? && !At(v, path).value.Map?
    ensures Dotted(path) in FqKeys(v)
    decreases |path|
  {
    var m := v.entries;
    var k := path[0];
    if |path| == 1 {
      assert At(m[k], []) == Some(m[k]);
    } else {
      LeafIsFqKey(m[k], path[1..]);
      assert Dotted(path) == k + "." + Dotted(path[1..]);
    }
  }

  // ---------------------------------------------------------------------------
  // _get_var

  /** The `inject` of `_get_var` over the path components: each step needs a
      Hash (`has_key?`), an absent key gives `nil`, and a `nil` or `false`
      value ends the walk with `nil` (`nxt_obj or break nil`). */
  function Walk(cur: Value, comps: seq<string>): Result<Value, VarsError>
    decreases |comps|
  {
    if comps == [] then Ok(cur)
    else if !cur.Map? then Err(KeyLookupOnNonMap)
    else
      var nxt := if comps[0] in cur.entries then cur.entries[comps[0]] else Null;
      if !Truthy(nxt) then Ok(Null) else Walk(nxt, comps[1..])
  }

  /** `_get_var(vars, name)`. */
  function Lookup(vars: Value, name: string): Result<Value, VarsError> {
    Walk(vars, Components(name))
  }

  /** The only way a walk fails is `has_key?` sent to a non-Hash. */
  lemma {:induction false} WalkFailsOnNonMap(v: Value, path: seq<string>)
    ensures Walk(v, path).Err? ==> Walk(v, path).error == KeyLookupOnNonMap
    decreases |path|
  {
    if path != [] && v.Map? {
      var nxt := if path[0] in v.entries then v.entries[path[0]] else Null;
      if Truthy(nxt) {
        WalkFailsOnNonMap(nxt, path[1..]);
      }
    }
  }

  /** A walk that ends on a value other than `nil` found that value at the path. */
  lemma {:induction false} WalkSound(v: Value, path: seq<string>)
    requires Walk(v, path).Ok? && Walk(v, path).value != Null
    ensures At(v, path) == Some(Walk(v, path).value)
    decreases |path|
  {
    if path != [] {
      WalkSound(v.entries[path[0]], path[1..]);
    }
  }

  /** A truthy value at the path is what the walk returns. */
  lemma {:induction false} WalkFindsTruthy(v: Value, path: seq<string>)
    requires At(v, path).Some? && Truthy(At(v, path).value)
    ensures Walk(v, path) == Ok(At(v, path).value)
    decreases |path|
  {
    if path != [] {
      var nxt := v.entries[path[0]];
      if path[1..] == [] {
        assert At(nxt, path[1..]) == Some(nxt);
      } else {
        assert Truthy(nxt);
      }
      WalkFindsTruthy(nxt, path[1..]);
    }
  }

  /** A stored `false` (or `nil`) anywhere below the top reads as `nil`. */
  lemma {:induction false} WalkFalsyIsNull(v: Value, path: seq<string>)
    requires path != [] && At(v, path).Some? && !Truthy(At(v, path).value)
    ensures Walk(v, path) == Ok(Null)
    decreases |path|
  {
    var nxt := v.entries[path[0]];
    if path[1..] != [] {
      assert nxt.Map?;
      WalkFalsyIsNull(nxt, path[1..]);
    } else {
      assert At(nxt, path[1..]) == Some(nxt);
    }
  }

  /** A key absent from a map the walk reaches gives `nil`, not an error. */
  lemma {:induction false} WalkMissingIsNull(v: Value, path: seq<string>, i: nat)
    requires i < |path| && At(v, path[..i]).Some? && At(v, path[..i]).value.Map?
    requires path[i] !in At(v, path[..i]).value.entries
    ensures Walk(v, path) == Ok(Null)
    decreases i
  {
    if i == 0 {
      assert At(v, path[..0]) == Some(v);
    } else {
      assert path[..i][0] == path[0];
      assert path[..i][1..] == path[1..][..i - 1];
      var nxt := v.entries[path[0]];
      assert At(nxt, path[1..][..i - 1]) == At(v, path[..i]);
      WalkMissingIsNull(nxt, path[1..], i - 1);
    }
  }

  /** A truthy value that is not a map, met before the end of the path, makes
      the walk fail. */
  lemma {:induction false} WalkThroughLeafFails(v: Value, path: seq<string>, i: nat)
    requires i < |path| && At(v, path[..i]).Some?
    requires Truthy(At(v, path[..i]).value) && !At(v, path[..i]).value.Map?
    ensures Walk(v, path) == Err(KeyLookupOnNonMap)
    decreases i
  {
    if i == 0 {
      assert At(v, path[..0]) == Some(v);
    } else {
      assert path[..i][0] == path[0];
      assert path[..i][1..] == path[1..][..i - 1];
      var nxt := v.entries[path[0]];
      assert At(nxt, path[1..][..i - 1]) == At(v, path[..i]);
      WalkThroughLeafFails(nxt, path[1..], i - 1);
    }
  }

  // ---------------------------------------------------------------------------
  // to_s

  /** The decimal digits of a natural number. */
  function Digits(n: nat): (s: string)
    ensures s != [] && forall j :: 0 <= j < |s| ==> '0' <= s[j] <= '9'
    ensures |s| > 1 ==> s[0] != '0'
  {
    if n < 10 then [DigitChar(n)] else Digits(n / 10) + [DigitChar(n % 10)]
  }

  function DigitChar(d: nat): char
    requires d < 10
  {
    ['0', '1', '2', '3', '4', '5', '6', '7', '8', '9'][d]
  }

  /** `Integer#to_s`. */
  function IntToString(i: int): string {
    if i < 0 then "-" + Digits(-i) else Digits(i)
  }

  /** `to_s`. Lists and hashes give their `inspect` form; for a hash the model
      does not know the key order and gives a placeholder. */
  function ToS(v: Value): string {
    match v
    case Null => ""
    case Bool(b) => if b then "true" else "false"
    case Int(i) => IntToString(i)
    case Str(s) => s
    case Sym(n) => n
    case Path(p) => p
    case Seq(_) => Inspect(v)
    case Map(_) => Inspect(v)
  }

  /** `inspect`, without string escapes. */
  function Inspect(v: Value): string {
    match v
    case Null => "nil"
    case Bool(b) => if b then "true" else "false"
    case Int(i) => IntToString(i)
    case Str(s) => "\"" + s + "\""
    case Sym(n) => ":" + n
    case Path(p) => "#<Pathname:" + p + ">"
    case Seq(items) => "[" + InspectAll(items) + "]"
    case Map(_) => "{...}"
  }

  function InspectAll(items: seq<Value>): string
    decreases items
  {
    if items == [] then ""
    else if |items| == 1 then Inspect(items[0])
    else Inspect(items[0]) + ", " + InspectAll(items[1..])
  }
}
