/** Loading a named variable set with its inheritance chain (`_setup_vars`,
    `_read_vars`, `_parse_vars`, `_merge_parents_vars`,
    `_merge_with_parents_vars`) and the consistency check between sibling
    parents (`_get_vars_collisions`). Files, the environment and the YAML and
    JSON parsers are given as data. */
module Resolve {
  import opened Wrappers
  import opened Values
  import opened Directive

  /** A stored variable set: its text, and the structure the YAML or JSON
      parser makes of it (`None` when the parser rejects the text). */
  datatype Document = Document(content: string, parsed: Option<Value>)

  /** Where variable sets come from: the YAML files found under the variables
      directory by name, and the environment variables holding JSON. */
  datatype Source = Source(files: map<string, Document>, env: map<string, Document>)

  /** `_read_vars(vars_dir_path, name)`: a YAML file first, then an
      environment variable; `None` stands for `[nil, nil]`. */
  function Read(src: Source, name: string): (r: Option<(Format, Document)>)
    ensures r.Some? <==> name in src.files || name in src.env
    ensures r.Some? ==> r.value.0 == (if name in src.files then Yaml else Json)
  {
    if name in src.files then Some((Yaml, src.files[name]))
    else if name in src.env then Some((Json, src.env[name]))
    else None
  }

  /** `_parse_vars(fmt, content)`: an empty or `false` YAML document is an
      empty map; JSON is taken as parsed. */
  function ParseVars(fmt: Format, doc: Document): (r: Result<Value, VarsError>)
    ensures r.Err? <==> doc.parsed.None? || fmt.Unknown?
    ensures fmt == Yaml && r.Ok? ==> Truthy(r.value) && (Truthy(doc.parsed.value) ==> r.value == doc.parsed.value)
    ensures fmt == Yaml && r.Ok? && !Truthy(doc.parsed.value) ==> r.value == Map(map[])
    ensures fmt == Json && r.Ok? ==> r.value == doc.parsed.value
  {
    match fmt
    case Yaml =>
      (match doc.parsed
       case None => Err(InvalidContent(doc.content))
       case Some(v) => Ok(if Truthy(v) then v else Map(map[])))
    case Json =>
      (match doc.parsed
       case None => Err(InvalidJson(doc.content))
       case Some(v) => Ok(v))
    case Unknown(tag) => Err(UnrecognizedFormat(tag))
  }

  /** The parents a stored set declares; none when it is absent. */
  function ParentsOf(src: Source, name: string): seq<string> {
    match Read(src, name)
    case None => []
    case Some((fmt, doc)) =>
      match ParseParents(fmt, doc.content)
      case Ok(ps) => ps
      case Err(_) => []
  }

  // ---------------------------------------------------------------------------
  // Acyclic inheritance

  /** Height of a set in the inheritance order `rank` witnesses; zero for a
      name no set is stored under. */
  function Depth(src: Source, rank: map<string, nat>, name: string): nat {
    if (name in src.files || name in src.env) && name in rank then rank[name] + 1 else 0
  }

  /** `name` is ranked, or no set is stored under it. */
  predicate Covered(src: Source, rank: map<string, nat>, name: string) {
    name in rank || (name !in src.files && name !in src.env)
  }

  /** `rank` orders the sets it ranks so that every parent of a ranked set is
      covered and sits strictly below its child: no cycle of inheritance can
      be reached from a ranked set. Sets outside `rank`, and any cycles among
      them, are unconstrained. */
  predicate Ranked(src: Source, rank: map<string, nat>) {
    forall n :: n in rank ==>
      forall p :: p in ParentsOf(src, n) ==> Covered(src, rank, p) && Depth(src, rank, p) <= rank[n]
  }

  /** A set whose parents are not stored is ranked on its own, whatever
      cycles other sets form. */
  lemma RankedAlone(src: Source, name: string)
    requires forall p :: p in ParentsOf(src, name) ==> p !in src.files && p !in src.env
    ensures Ranked(src, map[name := 0]) && Covered(src, map[name := 0], name)
  {
  }

  // ---------------------------------------------------------------------------
  // Collisions

  /** One common key: `_get_var` on both sides, as it reads them (after
      `false` has become `nil`), and a clash when the two differ. */
  function KeyClash(a: Value, b: Value, key: string): Result<Option<Clash>, VarsError> {
    var valueA :- Lookup(a, key);
    var valueB :- Lookup(b, key);
    Ok(if valueA != valueB then Some(Clash(key, {valueA, valueB})) else None)
  }

  /** The lookups made for one key: the clash it yields, or the error
      `_get_var` raises. */
  type Probe = string -> Result<Option<Clash>, VarsError>

  /** Some key's lookups fail. */
  predicate ProbeFails(probe: Probe, keys: set<string>) {
    exists key :: key in keys && probe(key).Err?
  }

  /** The clashes the keys yield. */
  function Probed(probe: Probe, keys: set<string>): set<Clash> {
    set key | key in keys && probe(key).Ok? && probe(key).value.Some? :: probe(key).value.value
  }

  /** `_get_var` on both sides of the pair for a key. */
  function KeyProbe(a: Value, b: Value): Probe {
    key => KeyClash(a, b, key)
  }

  /** The two sets disagree on dotted keys both define. */
  function PairClashes(a: Value, b: Value): set<Clash> {
    Probed(KeyProbe(a, b), FqKeys(a) * FqKeys(b))
  }

  /** Reading a common key fails in one of the two sets. */
  predicate PairFails(a: Value, b: Value) {
    ProbeFails(KeyProbe(a, b), FqKeys(a) * FqKeys(b))
  }

  /** Any failing lookup is `has_key?` sent to a non-Hash. */
  lemma KeyClashFailure(a: Value, b: Value, key: string)
    ensures KeyClash(a, b, key).Err? ==> KeyClash(a, b, key).error == KeyLookupOnNonMap
  {
    WalkFailsOnNonMap(a, Components(key));
    WalkFailsOnNonMap(b, Components(key));
  }

  /** A key reads the same from either side. */
  lemma KeyClashSymmetric(a: Value, b: Value, key: string)
    ensures KeyClash(a, b, key) == KeyClash(b, a, key)
  {
    KeyClashFailure(a, b, key);
    KeyClashFailure(b, a, key);
    if KeyClash(a, b, key).Ok? {
      var valueA, valueB := Lookup(a, key).value, Lookup(b, key).value;
      assert {valueA, valueB} == {valueB, valueA};
    }
  }

  /** Probes that agree on the keys find the same clashes and the same
      failures. */
  lemma ProbesAgree(p: Probe, q: Probe, keys: set<string>)
    requires forall key :: key in keys ==> p(key) == q(key)
    ensures Probed(p, keys) == Probed(q, keys)
    ensures ProbeFails(p, keys) <==> ProbeFails(q, keys)
  {
  }

  /** The check of one ordered pair of distinct sets: the first failing
      read, or its clashes. */
  function PairCheck(a: Value, b: Value): Result<set<Clash>, VarsError> {
    if PairFails(a, b) then Err(KeyLookupOnNonMap) else Ok(PairClashes(a, b))
  }

  /** A check of one ordered pair, such as `PairCheck`. */
  type PairChecker = (Value, Value) -> Result<set<Clash>, VarsError>

  /** The collisions of `a` with the sets among the first `n` of `ps` that
      differ from it (`parents_vars - [parent_vars]`). */
  function Row(ps: seq<Value>, a: Value, n: nat, check: PairChecker): Result<set<Clash>, VarsError>
    requires n <= |ps|
  {
    if n == 0 then Ok({})
    else
      var before :- Row(ps, a, n - 1, check);
      if ps[n - 1] == a then Ok(before)
      else
        var pair :- check(a, ps[n - 1]);
        Ok(before + pair)
  }

  /** The collisions of the first `n` sets of `ps` with the others. */
  function Rows(ps: seq<Value>, n: nat, check: PairChecker): Result<set<Clash>, VarsError>
    requires n <= |ps|
  {
    if n == 0 then Ok({})
    else
      var before :- Rows(ps, n - 1, check);
      var row :- Row(ps, ps[n - 1], |ps|, check);
      Ok(before + row)
  }

  /** `_get_vars_collisions(parents_vars)`, as the set of distinct
      collisions `uniq` keeps. */
  function Collisions(ps: seq<Value>): Result<set<Clash>, VarsError> {
    Rows(ps, |ps|, PairCheck)
  }

  /** Some ordered pair of distinct sets fails `check`. */
  ghost predicate FailsIn(ps: seq<Value>, check: PairChecker) {
    exists i, j :: 0 <= i < |ps| && 0 <= j < |ps| && ps[i] != ps[j] && check(ps[i], ps[j]).Err?
  }

  /** `c` is reported by `check` for some ordered pair of distinct sets. */
  ghost predicate ReportedIn(ps: seq<Value>, c: Clash, check: PairChecker) {
    exists i, j :: 0 <= i < |ps| && 0 <= j < |ps| && ps[i] != ps[j] &&
      check(ps[i], ps[j]).Ok? && c in check(ps[i], ps[j]).value
  }

  /** Reading a common key of two distinct sets fails. */
  ghost predicate SomePairFails(ps: seq<Value>) {
    FailsIn(ps, PairCheck)
  }

  /** Every pair of distinct sets, in either order, and every clash between
      them: the reference the loops are measured against. */
  ghost predicate Clashing(ps: seq<Value>, c: Clash) {
    ReportedIn(ps, c, PairCheck)
  }

  ghost predicate RowFails(ps: seq<Value>, a: Value, n: nat, check: PairChecker) {
    exists j :: 0 <= j < n && j < |ps| && ps[j] != a && check(a, ps[j]).Err?
  }

  ghost predicate InRow(ps: seq<Value>, a: Value, n: nat, c: Clash, check: PairChecker) {
    exists j :: 0 <= j < n && j < |ps| && ps[j] != a && check(a, ps[j]).Ok? && c in check(a, ps[j]).value
  }

  /** Every failure of `check` is a failed key lookup. */
  ghost predicate LookupErrorsOnly(check: PairChecker) {
    forall a, b :: check(a, b).Err? ==> check(a, b).error == KeyLookupOnNonMap
  }

  lemma {:induction false} RowMeaning(ps: seq<Value>, a: Value, n: nat, check: PairChecker)
    requires n <= |ps|
    ensures Row(ps, a, n, check).Err? <==> RowFails(ps, a, n, check)
    ensures Row(ps, a, n, check).Ok? ==> forall c :: c in Row(ps, a, n, check).value <==> InRow(ps, a, n, c, check)
    ensures LookupErrorsOnly(check) && Row(ps, a, n, check).Err? ==> Row(ps, a, n, check).error == KeyLookupOnNonMap
  {
    if n > 0 {
      RowMeaning(ps, a, n - 1, check);
      if RowFails(ps, a, n, check) {
        var j :| 0 <= j < n && j < |ps| && ps[j] != a && check(a, ps[j]).Err?;
        if j < n - 1 {
          assert RowFails(ps, a, n - 1, check);
        }
      }
      forall c
        ensures InRow(ps, a, n, c, check) <==>
          (InRow(ps, a, n - 1, c, check) || (ps[n - 1] != a && check(a, ps[n - 1]).Ok? && c in check(a, ps[n - 1]).value))
      {
        if InRow(ps, a, n, c, check) {
          var j :| 0 <= j < n && j < |ps| && ps[j] != a && check(a, ps[j]).Ok? && c in check(a, ps[j]).value;
          if j < n - 1 {
            assert InRow(ps, a, n - 1, c, check);
          }
        }
      }
    }
  }

  ghost predicate RowsFail(ps: seq<Value>, n: nat, check: PairChecker) {
    exists i :: 0 <= i < n && i < |ps| && RowFails(ps, ps[i], |ps|, check)
  }

  ghost predicate InRows(ps: seq<Value>, n: nat, c: Clash, check: PairChecker) {
    exists i :: 0 <= i < n && i < |ps| && InRow(ps, ps[i], |ps|, c, check)
  }

  lemma {:induction false} RowsFailure(ps: seq<Value>, n: nat, check: PairChecker)
    requires n <= |ps|
    ensures Rows(ps, n, check).Err? <==> RowsFail(ps, n, check)
    ensures LookupErrorsOnly(check) && Rows(ps, n, check).Err? ==> Rows(ps, n, check).error == KeyLookupOnNonMap
  {
    if n > 0 {
      RowsFailure(ps, n - 1, check);
      RowMeaning(ps, ps[n - 1], |ps|, check);
      if RowsFail(ps, n, check) {
        var i :| 0 <= i < n && i < |ps| && RowFails(ps, ps[i], |ps|, check);
        if i < n - 1 {
          assert RowsFail(ps, n - 1, check);
        }
      }
    }
  }

  lemma {:induction false} RowsMembers(ps: seq<Value>, n: nat, check: PairChecker)
    requires n <= |ps| && Rows(ps, n, check).Ok?
    ensures forall c :: c in Rows(ps, n, check).value <==> InRows(ps, n, c, check)
  {
    if n > 0 {
      RowsMembers(ps, n - 1, check);
      RowMeaning(ps, ps[n - 1], |ps|, check);
      forall c
        ensures c in Rows(ps, n, check).value <==> InRows(ps, n, c, check)
      {
        if InRows(ps, n, c, check) {
          var i :| 0 <= i < n && i < |ps| && InRow(ps, ps[i], |ps|, c, check);
          if i < n - 1 {
            assert InRows(ps, n - 1, c, check);
          }
        }
      }
    }
  }

  /** The row-by-row fold fails exactly when some pair fails, and otherwise
      holds exactly what the pairs report. */
  lemma RowsMeaning(ps: seq<Value>, check: PairChecker)
    ensures Rows(ps, |ps|, check).Err? <==> FailsIn(ps, check)
    ensures LookupErrorsOnly(check) && Rows(ps, |ps|, check).Err? ==> Rows(ps, |ps|, check).error == KeyLookupOnNonMap
    ensures Rows(ps, |ps|, check).Ok? ==> forall c :: c in Rows(ps, |ps|, check).value <==> ReportedIn(ps, c, check)
  {
    RowsFailure(ps, |ps|, check);
    if FailsIn(ps, check) {
      var i, j :| 0 <= i < |ps| && 0 <= j < |ps| && ps[i] != ps[j] && check(ps[i], ps[j]).Err?;
      assert RowFails(ps, ps[i], |ps|, check);
    }
    if RowsFail(ps, |ps|, check) {
      var i :| 0 <= i < |ps| && RowFails(ps, ps[i], |ps|, check);
      var j :| 0 <= j < |ps| && ps[j] != ps[i] && check(ps[i], ps[j]).Err?;
      assert FailsIn(ps, check);
    }
    if Rows(ps, |ps|, check).Ok? {
      RowsMembers(ps, |ps|, check);
      forall c
        ensures ReportedIn(ps, c, check) <==> InRows(ps, |ps|, c, check)
      {
        if ReportedIn(ps, c, check) {
          var i, j :| 0 <= i < |ps| && 0 <= j < |ps| && ps[i] != ps[j] &&
            check(ps[i], ps[j]).Ok? && c in check(ps[i], ps[j]).value;
          assert InRow(ps, ps[i], |ps|, c, check);
        }
        if InRows(ps, |ps|, c, check) {
          var i :| 0 <= i < |ps| && InRow(ps, ps[i], |ps|, c, check);
          var j :| 0 <= j < |ps| && ps[j] != ps[i] && check(ps[i], ps[j]).Ok? && c in check(ps[i], ps[j]).value;
          assert ReportedIn(ps, c, check);
        }
      }
    }
  }

  /** The collision check fails exactly when reading a common key of two
      distinct sets fails, and otherwise reports exactly the clashes between
      distinct sets. */
  lemma CollisionsMeaning(ps: seq<Value>)
    ensures Collisions(ps).Err? <==> SomePairFails(ps)
    ensures Collisions(ps).Err? ==> Collisions(ps).error == KeyLookupOnNonMap
    ensures Collisions(ps).Ok? ==> forall c :: c in Collisions(ps).value <==> Clashing(ps, c)
  {
    assert LookupErrorsOnly(PairCheck);
    RowsMeaning(ps, PairCheck);
  }

  /** A pair collides the same way whichever side is taken first. */
  lemma PairClashesSymmetric(a: Value, b: Value)
    ensures PairClashes(a, b) == PairClashes(b, a)
    ensures PairFails(a, b) <==> PairFails(b, a)
  {
    var common := FqKeys(a) * FqKeys(b);
    assert common == FqKeys(b) * FqKeys(a);
    forall key | key in common
      ensures KeyProbe(a, b)(key) == KeyProbe(b, a)(key)
    {
      KeyClashSymmetric(a, b, key);
    }
    ProbesAgree(KeyProbe(a, b), KeyProbe(b, a), common);
  }

  /** Collisions only accumulate as parents are added: when the longer list
      reads cleanly, so does every prefix, and each collision of the prefix
      is still reported. */
  lemma CollisionsGrow(ps: seq<Value>, qs: seq<Value>)
    requires Collisions(ps + qs).Ok?
    ensures Collisions(ps).Ok? && Collisions(ps).value <= Collisions(ps + qs).value
  {
    CollisionsMeaning(ps);
    CollisionsMeaning(ps + qs);
    forall i, j | 0 <= i < |ps| && 0 <= j < |ps| && ps[i] != ps[j]
      ensures PairCheck(ps[i], ps[j]).Ok?
    {
      assert (ps + qs)[i] == ps[i] && (ps + qs)[j] == ps[j];
    }
    forall c | c in Collisions(ps).value
      ensures c in Collisions(ps + qs).value
    {
      var i, j :| 0 <= i < |ps| && 0 <= j < |ps| && ps[i] != ps[j] &&
        PairCheck(ps[i], ps[j]).Ok? && c in PairCheck(ps[i], ps[j]).value;
      assert (ps + qs)[i] == ps[i] && (ps + qs)[j] == ps[j];
      assert Clashing(ps + qs, c);
    }
  }

  /** Parent sets that share no dotted key never collide, even when merging
      them in one order or the other gives different results: `{a: 1}` and
      `{a: {b: 2}}` have the leaves `a` and `a.b`. */
  lemma OrderMattersWithoutCollision()
    ensures var x := Map(map["a" := Int(1)]);
      var y := Map(map["a" := Map(map["b" := Int(2)])]);
      Collisions([x, y]) == Ok({}) && Merged([x, y]) != Merged([y, x])
  {
    var x := Map(map["a" := Int(1)]);
    var y := Map(map["a" := Map(map["b" := Int(2)])]);
    DisjointLeaves(x, y);
    NoCommonKeyNoCollision([x, y]);
    assert Merged([x, y]).entries["a"] == Map(map["b" := Int(2)]) by {
      assert [x, y][..1] == [x];
    }
    assert Merged([y, x]).entries["a"] == Int(1) by {
      assert [y, x][..1] == [y];
    }
  }

  lemma DisjointLeaves(x: Value, y: Value)
    requires x == Map(map["a" := Int(1)]) && y == Map(map["a" := Map(map["b" := Int(2)])])
    ensures FqKeys(x) * FqKeys(y) == {}
  {
    assert FqKeys(Map(map["b" := Int(2)])) == {"b"};
    assert FqKeys(x) == {"a"};
    assert FqKeys(y) == {"a.b"} by {
      assert "a" + "." + "b" == "a.b";
    }
  }

  /** Parents that read the same value on every dotted key they share never
      collide. */
  lemma AgreeingParentsNoCollision(ps: seq<Value>)
    requires forall i, j, key :: 0 <= i < |ps| && 0 <= j < |ps| && ps[i] != ps[j] && key in FqKeys(ps[i]) * FqKeys(ps[j]) ==>
      Lookup(ps[i], key).Ok? && Lookup(ps[i], key) == Lookup(ps[j], key)
    ensures Collisions(ps) == Ok({})
  {
    CollisionsMeaning(ps);
    forall i, j | 0 <= i < |ps| && 0 <= j < |ps| && ps[i] != ps[j]
      ensures PairCheck(ps[i], ps[j]) == Ok({})
    {
      var probe, common := KeyProbe(ps[i], ps[j]), FqKeys(ps[i]) * FqKeys(ps[j]);
      forall key | key in common
        ensures probe(key) == Ok(None)
      {
      }
      assert !ProbeFails(probe, common);
      assert Probed(probe, common) == {};
    }
    assert !SomePairFails(ps);
    assert forall c :: !Clashing(ps, c);
    var found := Collisions(ps).value;
    assert forall c :: c !in found;
    assert found == {};
  }

  /** Sets with pairwise disjoint leaves never collide. */
  lemma NoCommonKeyNoCollision(ps: seq<Value>)
    requires forall i, j :: 0 <= i < |ps| && 0 <= j < |ps| && ps[i] != ps[j] ==> FqKeys(ps[i]) * FqKeys(ps[j]) == {}
    ensures Collisions(ps) == Ok({})
  {
    AgreeingParentsNoCollision(ps);
  }

  /** `parent_vars.fqkeys & other_vars.fqkeys`, then the keys one at a
      time: the collisions of one pair. */
  method PairCollisions(a: Value, b: Value) returns (r: Result<set<Clash>, VarsError>)
    ensures r.Err? <==> PairFails(a, b)
    ensures r.Err? ==> r.error == KeyLookupOnNonMap
    ensures r.Ok? ==> r.value == PairClashes(a, b)
  {
    var common := FqKeys(a) * FqKeys(b);
    r := ScanKeys(common, KeyProbe(a, b));
    if r.Err? {
      var key :| key in common && KeyProbe(a, b)(key) == Err(r.error);
      KeyClashFailure(a, b, key);
    }
  }

  /** The loop state of `common_keys.each`: the keys in `done` read without
      failure, and their clashes in `found`. */
  ghost predicate KeysScanned(probe: Probe, keys: set<string>, todo: set<string>, done: set<string>, found: set<Clash>) {
    todo + done == keys && todo !! done && !ProbeFails(probe, done) && found == Probed(probe, done)
  }

  lemma ScanOneKey(probe: Probe, keys: set<string>, todo: set<string>, done: set<string>, found: set<Clash>, key: string)
    requires KeysScanned(probe, keys, todo, done, found) && key in todo && probe(key).Ok?
    ensures KeysScanned(probe, keys, todo - {key}, done + {key},
      found + if probe(key).value.Some? then {probe(key).value.value} else {})
    ensures |todo - {key}| < |todo|
  {
    var done' := done + {key};
    assert !ProbeFails(probe, done') by {
      forall k | k in done' ensures probe(k).Ok? {
        if k != key {
          assert k in done;
        }
      }
    }
    var extra: set<Clash> := if probe(key).value.Some? then {probe(key).value.value} else {};
    assert Probed(probe, done') == Probed(probe, done) + extra;
  }

  /** `common_keys.each`: the probe of each key in turn; the first failing
      one ends the scan with its error. */
  method ScanKeys(keys: set<string>, probe: Probe) returns (r: Result<set<Clash>, VarsError>)
    ensures r.Err? <==> ProbeFails(probe, keys)
    ensures r.Err? ==> exists key :: key in keys && probe(key) == Err(r.error)
    ensures r.Ok? ==> r.value == Probed(probe, keys)
  {
    var todo, done := keys, {};
    var found: set<Clash> := {};
    while todo != {}
      invariant KeysScanned(probe, keys, todo, done, found)
      decreases |todo|
    {
      var key :| key in todo;
      var clash := probe(key);
      if clash.Err? {
        return Err(clash.error);
      }
      ScanOneKey(probe, keys, todo, done, found, key);
      if clash.value.Some? {
        found := found + {clash.value.value};
      }
      todo, done := todo - {key}, done + {key};
    }
    return Ok(found);
  }

  /** `_get_vars_collisions(parents_vars)`: every set against every other
      distinct one. */
  method GetVarsCollisions(ps: seq<Value>) returns (r: Result<set<Clash>, VarsError>)
    ensures r == Collisions(ps)
  {
    var collisions: set<Clash> := {};
    for i := 0 to |ps|
      invariant Rows(ps, i, PairCheck) == Ok(collisions)
    {
      var row := RowCollisions(ps, ps[i]);
      RowsNext(ps, i, PairCheck, collisions, row);
      if row.Err? {
        return row;
      }
      collisions := collisions + row.value;
    }
    return Ok(collisions);
  }

  /** The inner loop of `_get_vars_collisions`: `parent_vars` against every
      other set. */
  method RowCollisions(ps: seq<Value>, a: Value) returns (r: Result<set<Clash>, VarsError>)
    ensures r == Row(ps, a, |ps|, PairCheck)
  {
    var row: set<Clash> := {};
    for j := 0 to |ps|
      invariant Row(ps, a, j, PairCheck) == Ok(row)
    {
      if ps[j] != a {
        var pair := PairCollisions(a, ps[j]);
        RowNext(ps, a, j, PairCheck, row, pair);
        if pair.Err? {
          return pair;
        }
        row := row + pair.value;
      }
    }
    return Ok(row);
  }

  /** One more pair in a row: a failure is the result of the whole row. */
  lemma RowNext(ps: seq<Value>, a: Value, j: nat, check: PairChecker, row: set<Clash>, pair: Result<set<Clash>, VarsError>)
    requires j < |ps| && ps[j] != a && Row(ps, a, j, check) == Ok(row) && pair == check(a, ps[j])
    ensures pair.Err? ==> Row(ps, a, |ps|, check) == pair
    ensures pair.Ok? ==> Row(ps, a, j + 1, check) == Ok(row + pair.value)
  {
    if pair.Err? {
      RowStaysFailed(ps, a, j + 1, |ps|, check);
    }
  }

  /** One more row: a failure is the result of the whole check. */
  lemma RowsNext(ps: seq<Value>, i: nat, check: PairChecker, collisions: set<Clash>, row: Result<set<Clash>, VarsError>)
    requires i < |ps| && Rows(ps, i, check) == Ok(collisions) && row == Row(ps, ps[i], |ps|, check)
    ensures row.Err? ==> Rows(ps, |ps|, check) == row
    ensures row.Ok? ==> Rows(ps, i + 1, check) == Ok(collisions + row.value)
  {
    if row.Err? {
      RowsStayFailed(ps, i + 1, |ps|, check);
    }
  }

  /** A failure ends the check: it is the result of every longer row. */
  lemma {:induction false} RowStaysFailed(ps: seq<Value>, a: Value, n: nat, m: nat, check: PairChecker)
    requires n <= m <= |ps| && Row(ps, a, n, check).Err?
    ensures Row(ps, a, m, check) == Row(ps, a, n, check)
    decreases m
  {
    if m > n {
      RowStaysFailed(ps, a, n, m - 1, check);
    }
  }

  lemma {:induction false} RowsStayFailed(ps: seq<Value>, n: nat, m: nat, check: PairChecker)
    requires n <= m <= |ps| && Rows(ps, n, check).Err?
    ensures Rows(ps, m, check) == Rows(ps, n, check)
    decreases m
  {
    if m > n {
      RowsStayFailed(ps, n, m - 1, check);
    }
  }

  // ---------------------------------------------------------------------------
  // Resolution

  /** The second `inject` of `_merge_parents_vars`: the parents merged from
      the left, a later parent overriding an earlier one. */
  function Merged(vs: seq<Value>): (r: Value)
    ensures r.Map? || (vs != [] && r == vs[|vs| - 1])
  {
    if vs == [] then Map(map[]) else DeepMerge(Merged(vs[..|vs| - 1]), vs[|vs| - 1])
  }

  /** `_setup_vars(vars_dir_path, name)`: read and parse the set, resolve its
      parents, and let its own values override theirs. */
  function Setup(src: Source, name: string, ghost rank: map<string, nat>): Result<Value, VarsError>
    requires Ranked(src, rank) && Covered(src, rank, name)
    decreases Depth(src, rank, name), 2, 0
  {
    match Read(src, name)
    case None => Err(InvalidVars(name))
    case Some((fmt, doc)) =>
      var own :- ParseVars(fmt, doc);
      var parents := ParseParents(fmt, doc.content).value;
      assert parents == ParentsOf(src, name);
      var inherited :- MergeParents(src, parents, rank, Depth(src, rank, name));
      Ok(DeepMerge(inherited, own))
  }

  /** Each parent's resolution, in order. */
  function Resolutions(src: Source, parents: seq<string>, ghost rank: map<string, nat>, ghost bound: nat): (rs: seq<Result<Value, VarsError>>)
    requires Ranked(src, rank)
    requires forall p :: p in parents ==> Covered(src, rank, p) && Depth(src, rank, p) < bound
    ensures |rs| == |parents|
    ensures forall k :: 0 <= k < |parents| ==> rs[k] == Setup(src, parents[k], rank)
    decreases bound, 0, |parents|
  {
    if parents == [] then [] else [Setup(src, parents[0], rank)] + Resolutions(src, parents[1..], rank, bound)
  }

  /** The first `inject` of `_merge_parents_vars`, from the sets already
      collected in `acc`: each resolution is appended, and the collected sets
      must not collide; then their merge. The first failure ends it, so a
      resolution after it is never looked at. */
  function MergeChecked(rs: seq<Result<Value, VarsError>>, acc: seq<Value>, check: Consistency): Result<Value, VarsError>
    decreases |rs|
  {
    if rs == [] then Ok(Merged(acc))
    else
      var resolved :- rs[0];
      var collisions :- check(acc + [resolved]);
      if collisions != {} then Err(Inconsistent(collisions))
      else MergeChecked(rs[1..], acc + [resolved], check)
  }

  /** `_merge_parents_vars(vars_dir_path, parents)` as a value: the parents
      resolved and checked in order. */
  function MergeParents(src: Source, parents: seq<string>, ghost rank: map<string, nat>, ghost bound: nat): Result<Value, VarsError>
    requires Ranked(src, rank)
    requires forall p :: p in parents ==> Covered(src, rank, p) && Depth(src, rank, p) < bound
    decreases bound, 1, 0
  {
    MergeChecked(Resolutions(src, parents, rank, bound), [], Collisions)
  }

  /** `_merge_parents_vars(vars_dir_path, parents)`: each parent is resolved
      only once the ones before it have been collected without collision. */
  method MergeParentsVars(src: Source, parents: seq<string>, ghost rank: map<string, nat>, ghost bound: nat)
    returns (r: Result<Value, VarsError>)
    requires Ranked(src, rank)
    requires forall p :: p in parents ==> Covered(src, rank, p) && Depth(src, rank, p) < bound
    ensures r == MergeParents(src, parents, rank, bound)
    decreases bound, 1, 0
  {
    ghost var rs := Resolutions(src, parents, rank, bound);
    var acc: seq<Value> := [];
    for i := 0 to |parents|
      invariant MergeParents(src, parents, rank, bound) == MergeChecked(rs[i..], acc, Collisions)
    {
      MergeCheckedNext(rs, i, acc, Collisions);
      var resolved := SetupVars(src, parents[i], rank);
      if resolved.Err? {
        return Err(resolved.error);
      }
      acc := acc + [resolved.value];
      var collisions := GetVarsCollisions(acc);
      if collisions.Err? {
        return Err(collisions.error);
      }
      if collisions.value != {} {
        return Err(Inconsistent(collisions.value));
      }
    }
    assert rs[|parents|..] == [];
    var merged := Map(map[]);
    for k := 0 to |acc|
      invariant merged == Merged(acc[..k])
    {
      assert acc[..k + 1][..k] == acc[..k];
      merged := DeepMerge(merged, acc[k]);
    }
    assert acc[..|acc|] == acc;
    return Ok(merged);
  }

  /** One turn of the first `inject`: the resolution at `i` ends the merge
      with its error, or the collected sets' check does, or the merge goes
      on with it collected. */
  lemma MergeCheckedNext(rs: seq<Result<Value, VarsError>>, i: nat, acc: seq<Value>, check: Consistency)
    requires i < |rs|
    ensures rs[i].Err? ==> MergeChecked(rs[i..], acc, check) == Err(rs[i].error)
    ensures rs[i].Ok? && check(acc + [rs[i].value]).Err? ==>
      MergeChecked(rs[i..], acc, check) == Err(check(acc + [rs[i].value]).error)
    ensures rs[i].Ok? && check(acc + [rs[i].value]).Ok? && check(acc + [rs[i].value]).value != {} ==>
      MergeChecked(rs[i..], acc, check) == Err(Inconsistent(check(acc + [rs[i].value]).value))
    ensures rs[i].Ok? && check(acc + [rs[i].value]) == Ok({}) ==>
      MergeChecked(rs[i..], acc, check) == MergeChecked(rs[i + 1..], acc + [rs[i].value], check)
  {
    assert rs[i..][0] == rs[i] && rs[i..][1..] == rs[i + 1..];
  }

  /** `_setup_vars(vars_dir_path, name)`; `_merge_with_parents_vars` is the
      final `deep_merge`. */
  method SetupVars(src: Source, name: string, ghost rank: map<string, nat>) returns (r: Result<Value, VarsError>)
    requires Ranked(src, rank) && Covered(src, rank, name)
    ensures r == Setup(src, name, rank)
    decreases Depth(src, rank, name), 2, 0
  {
    var read := Read(src, name);
    if read.None? {
      return Err(InvalidVars(name));
    }
    var (fmt, doc) := read.value;
    var own := ParseVars(fmt, doc);
    if own.Err? {
      return Err(own.error);
    }
    var parents := ParseParents(fmt, doc.content).value;
    assert parents == ParentsOf(src, name);
    var inherited := MergeParentsVars(src, parents, rank, Depth(src, rank, name));
    if inherited.Err? {
      return Err(inherited.error);
    }
    return Ok(DeepMerge(inherited.value, own.value));
  }

  // ---------------------------------------------------------------------------
  // Properties of resolution

  /** Every resolution succeeded: their values, or the first failure. */
  function AllResolved(rs: seq<Result<Value, VarsError>>): Result<seq<Value>, VarsError> {
    if rs == [] then Ok([])
    else
      var v :- rs[0];
      var vs :- AllResolved(rs[1..]);
      Ok([v] + vs)
  }

  /** Every parent resolved in turn, or the first failure. */
  function ResolveAll(src: Source, parents: seq<string>, ghost rank: map<string, nat>, ghost bound: nat): Result<seq<Value>, VarsError>
    requires Ranked(src, rank)
    requires forall p :: p in parents ==> Covered(src, rank, p) && Depth(src, rank, p) < bound
  {
    AllResolved(Resolutions(src, parents, rank, bound))
  }

  /** A consistency check over a list of sets, such as `Collisions`. */
  type Consistency = seq<Value> -> Result<set<Clash>, VarsError>

  /** `check` only reports more as the list grows. */
  ghost predicate Accumulates(check: Consistency) {
    forall ps, qs :: check(ps + qs).Ok? ==> check(ps).Ok? && check(ps).value <= check(ps + qs).value
  }

  /** With an accumulating check, a merge onto consistent `acc` succeeds
      exactly when every resolution succeeded and the whole list is
      consistent, and then yields the left-to-right merge. */
  lemma {:induction false} MergeCheckedMeaning(rs: seq<Result<Value, VarsError>>, acc: seq<Value>, check: Consistency)
    requires Accumulates(check) && check(acc) == Ok({})
    ensures MergeChecked(rs, acc, check).Ok? <==>
      AllResolved(rs).Ok? && check(acc + AllResolved(rs).value) == Ok({})
    ensures MergeChecked(rs, acc, check).Ok? ==>
      MergeChecked(rs, acc, check).value == Merged(acc + AllResolved(rs).value)
    decreases |rs|
  {
    if rs == [] {
      assert acc + [] == acc;
    } else if rs[0].Ok? {
      var collected := acc + [rs[0].value];
      var rest := AllResolved(rs[1..]);
      if rest.Ok? {
        assert acc + ([rs[0].value] + rest.value) == collected + rest.value;
      }
      if check(collected) == Ok({}) {
        MergeCheckedMeaning(rs[1..], collected, check);
      }
    }
  }

  lemma CollisionsAccumulate()
    ensures Accumulates(Collisions)
  {
    forall ps, qs | Collisions(ps + qs).Ok?
      ensures Collisions(ps).Ok? && Collisions(ps).value <= Collisions(ps + qs).value
    {
      CollisionsGrow(ps, qs);
    }
  }

  /** `_merge_parents_vars` succeeds exactly when every parent resolves and
      no two of them collide, and its result is their merge from the left. */
  lemma ParentsMerged(src: Source, parents: seq<string>, rank: map<string, nat>, bound: nat)
    requires Ranked(src, rank)
    requires forall p :: p in parents ==> Covered(src, rank, p) && Depth(src, rank, p) < bound
    ensures MergeParents(src, parents, rank, bound).Ok? <==>
      ResolveAll(src, parents, rank, bound).Ok? && Collisions(ResolveAll(src, parents, rank, bound).value) == Ok({})
    ensures MergeParents(src, parents, rank, bound).Ok? ==>
      MergeParents(src, parents, rank, bound).value == Merged(ResolveAll(src, parents, rank, bound).value)
  {
    CollisionsAccumulate();
    MergeCheckedMeaning(Resolutions(src, parents, rank, bound), [], Collisions);
    if ResolveAll(src, parents, rank, bound).Ok? {
      assert [] + ResolveAll(src, parents, rank, bound).value == ResolveAll(src, parents, rank, bound).value;
    }
  }

  /** A check that accepts every single set merges a single resolution into
      itself. */
  lemma OneChecked(r: Result<Value, VarsError>, check: Consistency)
    requires r.Ok? ==> check([r.value]) == Ok({})
    ensures MergeChecked([r], [], check) == r
  {
    if r.Ok? {
      assert [] + [r.value] == [r.value];
      assert [r][1..] == [];
      assert [r.value][..0] == [];
      DeepMergeIntoEmpty(r.value);
      assert Merged([r.value]) == r.value;
      assert MergeChecked([r][1..], [] + [r.value], check) == Ok(r.value);
    }
  }

  /** A single parent is taken as it resolves: one set never collides with
      itself. */
  lemma OneParent(src: Source, p: string, rank: map<string, nat>, bound: nat)
    requires Ranked(src, rank) && Covered(src, rank, p) && Depth(src, rank, p) < bound
    ensures MergeParents(src, [p], rank, bound) == Setup(src, p, rank)
  {
    var r := Setup(src, p, rank);
    assert Resolutions(src, [p], rank, bound) == [r];
    if r.Ok? {
      NoCommonKeyNoCollision([r.value]);
    }
    OneChecked(r, Collisions);
  }

  /** A later parent's leaf wins over what the earlier parents give. */
  lemma LastParentWins(vs: seq<Value>, path: seq<string>)
    requires vs != [] && At(vs[|vs| - 1], path).Some? && !At(vs[|vs| - 1], path).value.Map?
    ensures At(Merged(vs), path) == At(vs[|vs| - 1], path)
  {
    DeepMergeOverWins(Merged(vs[..|vs| - 1]), vs[|vs| - 1], path);
  }

  /** A name stored nowhere is `Invalid vars`. */
  lemma SetupUnknown(src: Source, name: string, rank: map<string, nat>)
    requires Ranked(src, rank) && name !in src.files && name !in src.env
    ensures Setup(src, name, rank) == Err(InvalidVars(name))
  {
  }

  /** The set's own leaves override whatever its parents define, and a path
      it leaves out entirely reads as in the merged parents. */
  lemma SetupOwnWins(src: Source, name: string, rank: map<string, nat>, own: Value, path: seq<string>)
    requires Ranked(src, rank) && Covered(src, rank, name) && Setup(src, name, rank).Ok?
    requires Read(src, name).Some? && ParseVars(Read(src, name).value.0, Read(src, name).value.1) == Ok(own)
    ensures At(own, path).Some? && !At(own, path).value.Map? ==> At(Setup(src, name, rank).value, path) == At(own, path)
    ensures Silent(own, path) ==>
      At(Setup(src, name, rank).value, path) == At(MergeParents(src, ParentsOf(src, name), rank, Depth(src, rank, name)).value, path)
  {
    var inherited := MergeParents(src, ParentsOf(src, name), rank, Depth(src, rank, name)).value;
    assert Setup(src, name, rank).value == DeepMerge(inherited, own);
    if At(own, path).Some? && !At(own, path).value.Map? {
      DeepMergeOverWins(inherited, own, path);
    }
    if Silent(own, path) {
      DeepMergeKeepsBase(inherited, own, path);
    }
  }

  /** A set that declares no parents resolves to its own parsed values. */
  lemma SetupWithoutParents(src: Source, name: string, rank: map<string, nat>, own: Value)
    requires Ranked(src, rank) && Covered(src, rank, name) && ParentsOf(src, name) == []
    requires Read(src, name).Some? && ParseVars(Read(src, name).value.0, Read(src, name).value.1) == Ok(own)
    ensures Setup(src, name, rank) == Ok(own)
  {
    DeepMergeIntoEmpty(own);
  }
}
