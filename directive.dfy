// The inheritance directive of a variables file (`_parse_parents_vars`): a
// line `# => inherits: a, b <= #` in YAML, or `/* => inherits: a, b <= */`
// in JSON, names the parent variable sets. The regular expression is
// modelled by the choices Ruby's backtracking matcher makes for it.
module Directive {
  import opened Wrappers
  import opened Values

  /** The two formats a variables source comes in, and any other tag. */
  datatype Format = Yaml | Json | Unknown(tag: string)

  /** `\s` in a Ruby regular expression. */
  predicate IsSpace(c: char) {
    c == ' ' || c == '\t' || c == '\n' || c == '\r' || c == '\U{000C}' || c == '\U{000B}'
  }

  /** The characters `String#strip` removes: `\s` and the null character. */
  predicate IsBlank(c: char) {
    IsSpace(c) || c == '\0'
  }

  /** The end of the greedy `\s*` that starts at `i`. */
  function SkipSpace(c: string, i: nat): (j: nat)
    requires i <= |c|
    ensures i <= j <= |c|
    ensures forall k :: i <= k < j ==> IsSpace(c[k])
    ensures j == |c| || !IsSpace(c[j])
    decreases |c| - i
  {
    if i < |c| && IsSpace(c[i]) then SkipSpace(c, i + 1) else i
  }

  /** The end of the line holding position `i`: how far `.` can reach. */
  function LineEnd(c: string, i: nat): (j: nat)
    requires i <= |c|
    ensures i <= j <= |c|
    ensures forall k :: i <= k < j ==> c[k] != '\n'
    ensures j == |c| || c[j] == '\n'
    decreases |c| - i
  {
    if i < |c| && c[i] != '\n' then LineEnd(c, i + 1) else i
  }

  /** `w` occurs in `c` at position `i`. */
  predicate HasAt(c: string, i: nat, w: string) {
    i + |w| <= |c| && c[i..i + |w|] == w
  }

  /** `^`: the start of the content or of a line. */
  predicate LineStart(c: string, p: nat) {
    p == 0 || (0 < p <= |c| && c[p - 1] == '\n')
  }

  function Opening(fmt: Format): string {
    if fmt == Json then "/*" else "#"
  }

  function Closing(fmt: Format): string {
    if fmt == Json then "*/" else "#"
  }

  // `\s*<=\s*` and the closing mark match from `e`. Each `\s*` is followed
  // by a non-space, so its greedy choice is the only one that can succeed.
  predicate Tail(c: string, e: nat, close: string)
    requires e <= |c|
  {
    var t := SkipSpace(c, e);
    HasAt(c, t, "<=") && HasAt(c, SkipSpace(c, t + 2), close)
  }

  /** Greedy `.+` from `q` followed by the tail: the largest end in
      `(q, hi]` after which the tail matches. */
  function LongestCapture(c: string, q: nat, hi: nat, close: string): (r: Option<nat>)
    requires q <= hi <= |c|
    ensures r.Some? ==> q < r.value <= hi && Tail(c, r.value, close)
    ensures forall e :: (if r.Some? then r.value else q) < e <= hi ==> !Tail(c, e, close)
    ensures r.None? ==> forall e :: q < e <= hi ==> !Tail(c, e, close)
    decreases hi
  {
    if hi <= q then None
    else if Tail(c, hi, close) then Some(hi)
    else LongestCapture(c, q, hi - 1, close)
  }

  /** `hi, hi - 1, ..., lo`: the lengths a greedy quantifier tries. */
  function Down(hi: nat, lo: nat): (r: seq<nat>)
    ensures |r| == if hi >= lo then hi - lo + 1 else 0
    ensures forall k :: 0 <= k < |r| ==> r[k] == hi - k
    decreases hi
  {
    if hi < lo then [] else [hi] + (if hi == 0 then [] else Down(hi - 1, lo))
  }

  /** `(?<parents>.+)` started at `q` and the rest of the expression match,
      the capture ending at `e`. */
  predicate CapturesAt(c: string, q: nat, close: string, e: nat) {
    q <= |c| && LongestCapture(c, q, LineEnd(c, q), close) == Some(e)
  }

  /** No capture started at `q` lets the rest of the expression match. */
  predicate FailsAt(c: string, q: nat, close: string) {
    q <= |c| && LongestCapture(c, q, LineEnd(c, q), close).None?
  }

  /** The first successful attempt among `ts`, as its index with its end. */
  function FirstSome(ts: seq<Option<nat>>): (r: Option<(nat, nat)>)
    ensures r.Some? ==> r.value.0 < |ts| && ts[r.value.0] == Some(r.value.1)
    ensures r.Some? ==> forall k :: 0 <= k < r.value.0 ==> ts[k].None?
    ensures r.None? ==> forall k :: 0 <= k < |ts| ==> ts[k].None?
  {
    if ts == [] then None
    else if ts[0].Some? then Some((0, ts[0].value))
    else match FirstSome(ts[1..])
      case None => None
      case Some((k, e)) => Some((k + 1, e))
  }

  /** The first of the starts `qs` of `(?<parents>.+)` for which the rest of
      the expression matches, as its index in `qs`, with the end of the
      capture. */
  function FirstCapture(c: string, qs: seq<nat>, close: string): (r: Option<(nat, nat)>)
    requires forall k :: 0 <= k < |qs| ==> qs[k] <= |c|
    ensures r.Some? ==> r.value.0 < |qs| && CapturesAt(c, qs[r.value.0], close, r.value.1)
    ensures r.Some? ==> forall k :: 0 <= k < r.value.0 ==> FailsAt(c, qs[k], close)
    ensures r.None? ==> forall k :: 0 <= k < |qs| ==> FailsAt(c, qs[k], close)
  {
    var ts := seq(|qs|, k requires 0 <= k < |qs| => LongestCapture(c, qs[k], LineEnd(c, qs[k]), close));
    assert forall k :: 0 <= k < |qs| ==> ts[k] == LongestCapture(c, qs[k], LineEnd(c, qs[k]), close);
    FirstSome(ts)
  }

  /** The starts `(?<parents>.+)` is tried at, in the order the matcher tries
      them, when `inherits` ends at `a`: first with `(:\s+)` taken, for every
      length of `\s+` from longest to shortest, then without it, for every
      length of the preceding `\s*` from longest to shortest. */
  function CaptureStarts(c: string, a: nat): (qs: seq<nat>)
    requires a <= |c|
    ensures forall k :: 0 <= k < |qs| ==> qs[k] <= |c|
  {
    var j := SkipSpace(c, a);
    var colon :=
      if j + 1 < |c| && c[j] == ':' && IsSpace(c[j + 1]) then Down(SkipSpace(c, j + 1), j + 2) else [];
    colon + Down(j, a)
  }

  /** Where `inherits` ends when `<open>\s*=>\s*inherits` matches at `p`. */
  function InheritsEnd(c: string, p: nat, fmt: Format): (r: Option<nat>)
    requires p <= |c|
    ensures r.Some? ==> HasAt(c, p, Opening(fmt)) && p + |Opening(fmt)| + 10 <= r.value <= |c|
    ensures r.Some? ==> HasAt(c, r.value - 8, "inherits")
  {
    var open := Opening(fmt);
    if !HasAt(c, p, open) then None
    else
      var i := SkipSpace(c, p + |open|);
      if !HasAt(c, i, "=>") then None
      else
        var k := SkipSpace(c, i + 2);
        if !HasAt(c, k, "inherits") then None
        else Some(k + 8)
  }

  /** The capture `parents` when the expression matches at line start `p`. */
  function MatchAt(c: string, p: nat, fmt: Format): (r: Option<string>)
    requires p <= |c|
    ensures r.Some? ==> HasAt(c, p, Opening(fmt)) && r.value != []
    ensures r.Some? ==> forall k :: 0 <= k < |r.value| ==> r.value[k] != '\n'
  {
    match InheritsEnd(c, p, fmt)
    case None => None
    case Some(a) =>
      var qs := CaptureStarts(c, a);
      match FirstCapture(c, qs, Closing(fmt))
      case None => None
      case Some((k, e)) =>
        CaptureOnOneLine(c, qs[k], Closing(fmt), e);
        Some(c[qs[k]..e])
  }

  /** A successful capture is non-empty and stays on its line. */
  lemma CaptureOnOneLine(c: string, q: nat, close: string, e: nat)
    requires CapturesAt(c, q, close, e)
    ensures q < e <= |c| && forall j :: 0 <= j < e - q ==> c[q..e][j] != '\n'
  {
    assert q < e <= LineEnd(c, q);
  }

  /** What the expression captures when matched at each position of the
      content; `^` lets it match at line starts only. */
  function Attempts(c: string, fmt: Format): (ms: seq<Option<string>>)
    ensures |ms| == |c| + 1
    ensures forall q :: 0 <= q <= |c| ==> ms[q] == if LineStart(c, q) then MatchAt(c, q, fmt) else None
  {
    seq(|c| + 1, q requires 0 <= q <= |c| => if LineStart(c, q) then MatchAt(c, q, fmt) else None)
  }

  /** The leftmost successful attempt from `p` on, with its capture. */
  function Leftmost(ms: seq<Option<string>>, p: nat): (r: Option<(nat, string)>)
    requires p <= |ms|
    ensures r.Some? ==> p <= r.value.0 < |ms| && ms[r.value.0] == Some(r.value.1)
    ensures forall q :: p <= q < |ms| && (r.None? || q < r.value.0) ==> ms[q].None?
    decreases |ms| - p
  {
    if p == |ms| then None
    else if ms[p].Some? then Some((p, ms[p].value))
    else Leftmost(ms, p + 1)
  }

  /** `content.match(parents_regex)`: the leftmost position where the
      expression matches, with its capture `parents`. */
  function Search(c: string, fmt: Format): (r: Option<(nat, string)>)
    ensures r.Some? ==> r.value.0 <= |c| && LineStart(c, r.value.0) && MatchAt(c, r.value.0, fmt) == Some(r.value.1)
    ensures forall q :: 0 <= q <= |c| && LineStart(c, q) && (r.None? || q < r.value.0) ==> MatchAt(c, q, fmt).None?
  {
    var ms := Attempts(c, fmt);
    var r := Leftmost(ms, 0);
    assert forall q :: 0 <= q <= |c| && LineStart(c, q) ==> ms[q] == MatchAt(c, q, fmt);
    r
  }

  // ---------------------------------------------------------------------------
  // split(","), strip, reject

  /** The pieces of `s` between commas, the empty ones included. */
  function Pieces(s: string): (r: seq<string>)
    ensures |r| >= 1
    ensures forall k :: 0 <= k < |r| ==> ',' !in r[k]
    decreases |s|
  {
    if s == [] then [""]
    else if s[0] == ',' then [""] + Pieces(s[1..])
    else var rest := Pieces(s[1..]); [[s[0]] + rest[0]] + rest[1..]
  }

  /** Drops the empty strings at the end, as `split` does. */
  function DropTrailingEmpty(r: seq<string>): (t: seq<string>)
    ensures t <= r
    ensures t == [] || t[|t| - 1] != ""
    ensures forall k :: |t| <= k < |r| ==> r[k] == ""
  {
    if r == [] then []
    else if r[|r| - 1] == "" then DropTrailingEmpty(r[..|r| - 1])
    else r
  }

  /** `String#split(",")`. */
  function Split(s: string): seq<string> {
    DropTrailingEmpty(Pieces(s))
  }

  /** `String#strip`. */
  function Strip(s: string): (t: string)
    ensures t == [] || (!IsBlank(t[0]) && !IsBlank(t[|t| - 1]))
    ensures forall ch {:trigger ch in t} :: ch in t ==> ch in s
    decreases |s|
  {
    if s == [] then []
    else if IsBlank(s[0]) then Strip(s[1..])
    else if IsBlank(s[|s| - 1]) then Strip(s[..|s| - 1])
    else s
  }

  /** Everything before `i` and from `j` on is blank. */
  predicate BlankOutside(s: string, i: nat, j: nat)
    requires i <= j <= |s|
  {
    (forall k :: 0 <= k < i ==> IsBlank(s[k])) && (forall k :: j <= k < |s| ==> IsBlank(s[k]))
  }

  /** `strip` cuts off exactly the blanks at both ends: what it keeps is a
      slice of the input, and every character it cuts off is blank. */
  lemma {:induction false} StripTrims(s: string)
    ensures exists i, j :: 0 <= i <= j <= |s| && Strip(s) == s[i..j] && BlankOutside(s, i, j)
    decreases |s|
  {
    if s == [] {
      assert Strip(s) == s[0..0] && BlankOutside(s, 0, 0);
    } else if IsBlank(s[0]) {
      var t := s[1..];
      StripTrims(t);
      var i, j :| 0 <= i <= j <= |t| && Strip(t) == t[i..j] && BlankOutside(t, i, j);
      StripTrimsFront(s, i, j);
    } else if IsBlank(s[|s| - 1]) {
      var t := s[..|s| - 1];
      StripTrims(t);
      var i, j :| 0 <= i <= j <= |t| && Strip(t) == t[i..j] && BlankOutside(t, i, j);
      StripTrimsBack(s, i, j);
    } else {
      assert Strip(s) == s[0..|s|] && BlankOutside(s, 0, |s|);
    }
  }

  /** A leading blank moves the slice `strip` keeps by one. */
  lemma StripTrimsFront(s: string, i: nat, j: nat)
    requires s != [] && IsBlank(s[0]) && i <= j <= |s| - 1
    requires Strip(s[1..]) == s[1..][i..j] && BlankOutside(s[1..], i, j)
    ensures Strip(s) == s[i + 1..j + 1] && BlankOutside(s, i + 1, j + 1)
  {
    var t := s[1..];
    assert t[i..j] == s[i + 1..j + 1];
    assert forall k :: 1 <= k < |s| ==> s[k] == t[k - 1];
  }

  /** A trailing blank leaves the slice `strip` keeps where it was. */
  lemma StripTrimsBack(s: string, i: nat, j: nat)
    requires s != [] && !IsBlank(s[0]) && IsBlank(s[|s| - 1]) && i <= j <= |s| - 1
    requires Strip(s[..|s| - 1]) == s[..|s| - 1][i..j] && BlankOutside(s[..|s| - 1], i, j)
    ensures Strip(s) == s[i..j] && BlankOutside(s, i, j)
  {
    var t := s[..|s| - 1];
    assert t[i..j] == s[i..j];
    assert forall k :: 0 <= k < |t| ==> s[k] == t[k];
  }

  function Lower(ch: char): char {
    if 'A' <= ch <= 'Z' then (ch as int + 32) as char else ch
  }

  /** `s` starts with `w` when letters are compared case-insensitively. */
  predicate StartsFolded(s: string, w: string)
    decreases |w|
  {
    w == [] || (s != [] && Lower(s[0]) == w[0] && StartsFolded(s[1..], w[1..]))
  }

  /** `w` occurs in `s` when letters are compared case-insensitively. */
  predicate ContainsFolded(s: string, w: string)
    decreases |s|
  {
    StartsFolded(s, w) || (s != [] && ContainsFolded(s[1..], w))
  }

  /** `p =~ /none|nothing/i`: a placeholder for "no parents". */
  predicate Dummy(p: string) {
    ContainsFolded(p, "none") || ContainsFolded(p, "nothing")
  }

  /** `select { |p| !(p =~ dummy_regex) }`, order kept. */
  function RejectDummies(ps: seq<string>): (r: seq<string>)
    ensures forall k :: 0 <= k < |r| ==> r[k] in ps && !Dummy(r[k])
    ensures forall p {:trigger p in r} :: p in ps && !Dummy(p) ==> p in r
  {
    if ps == [] then []
    else (if Dummy(ps[0]) then [] else [ps[0]]) + RejectDummies(ps[1..])
  }

  /** Filtering a concatenation filters each part: the kept names stay in
      their order, each as often as it occurs. */
  lemma {:induction false} RejectDummiesConcat(a: seq<string>, b: seq<string>)
    ensures RejectDummies(a + b) == RejectDummies(a) + RejectDummies(b)
    decreases |a|
  {
    if a == [] {
      assert a + b == b;
    } else {
      var head := if Dummy(a[0]) then [] else [a[0]];
      var x, y := RejectDummies(a[1..]), RejectDummies(b);
      assert RejectDummies(a + b) == head + RejectDummies(a[1..] + b) by {
        assert (a + b)[0] == a[0] && (a + b)[1..] == a[1..] + b;
      }
      assert RejectDummies(a[1..] + b) == x + y by {
        RejectDummiesConcat(a[1..], b);
      }
      assert RejectDummies(a) == head + x;
      assert head + (x + y) == (head + x) + y;
    }
  }

  /** A single name is kept exactly when it is no placeholder. */
  lemma RejectDummiesOne(p: string)
    ensures RejectDummies([p]) == if Dummy(p) then [] else [p]
  {
    assert [p][1..] == [];
  }

  function StripAll(ps: seq<string>): (r: seq<string>)
    ensures |r| == |ps| && forall k :: 0 <= k < |ps| ==> r[k] == Strip(ps[k])
  {
    if ps == [] then [] else [Strip(ps[0])] + StripAll(ps[1..])
  }

  /** The names listed in a captured `parents` text. */
  function ParentNames(captured: string): seq<string> {
    RejectDummies(StripAll(Split(captured)))
  }

  /** A parent name as the directive yields it: no surrounding blanks, no
      comma, no placeholder word. */
  predicate CleanName(p: string) {
    (p == [] || (!IsBlank(p[0]) && !IsBlank(p[|p| - 1]))) && ',' !in p && !Dummy(p)
  }

  /** `_parse_parents_vars(fmt, content)`. */
  function ParseParents(fmt: Format, content: string): (r: Result<seq<string>, VarsError>)
    ensures r.Err? <==> fmt.Unknown?
    ensures r.Err? ==> r.error == UnrecognizedFormat(fmt.tag)
    ensures r.Ok? ==> forall k :: 0 <= k < |r.value| ==> CleanName(r.value[k])
  {
    if fmt.Unknown? then Err(UnrecognizedFormat(fmt.tag))
    else match Search(content, fmt)
      case None => Ok([])
      case Some((_, captured)) =>
        var names := ParentNames(captured);
        assert forall k :: 0 <= k < |names| ==> CleanName(names[k]) by {
          forall k | 0 <= k < |names|
            ensures CleanName(names[k])
          {
            PiecesOfSplit(captured, names[k]);
          }
        }
        Ok(names)
  }

  /** A name that survives splitting, stripping and filtering has no comma. */
  lemma PiecesOfSplit(captured: string, name: string)
    requires name in ParentNames(captured)
    ensures CleanName(name)
  {
    var stripped := StripAll(Split(captured));
    assert name in stripped;
    var k :| 0 <= k < |stripped| && stripped[k] == name;
    var split := Split(captured);
    assert split[k] == Pieces(captured)[k];
  }

  // ---------------------------------------------------------------------------
  // Properties

  /** Content without any directive line has no parents. */
  lemma NoDirectiveNoParents(fmt: Format, content: string)
    requires !fmt.Unknown?
    requires forall p :: 0 <= p <= |content| && LineStart(content, p) ==> !HasAt(content, p, Opening(fmt))
    ensures ParseParents(fmt, content) == Ok([])
  {
  }

  /** The first directive line that matches is the one used: later ones are
      ignored. */
  lemma FirstDirectiveWins(fmt: Format, content: string, p: nat)
    requires !fmt.Unknown? && p <= |content| && LineStart(content, p)
    requires MatchAt(content, p, fmt).Some?
    requires forall q :: 0 <= q < p && LineStart(content, q) ==> MatchAt(content, q, fmt).None?
    ensures ParseParents(fmt, content) == Ok(ParentNames(MatchAt(content, p, fmt).value))
  {
    var r := Search(content, fmt);
    assert r.Some? && !(p < r.value.0);
    assert r.value.0 == p;
  }

  function Join(names: seq<string>): string {
    if names == [] then "" else if |names| == 1 then names[0] else names[0] + "," + Join(names[1..])
  }

  /** A comma-free prefix joins the first piece of what follows it. */
  lemma {:induction false} PiecesAfterName(name: string, s: string)
    requires ',' !in name
    ensures Pieces(name + s) == [name + Pieces(s)[0]] + Pieces(s)[1..]
    decreases |name|
  {
    if name != [] {
      PiecesAfterName(name[1..], s);
      assert (name + s)[0] == name[0] && (name + s)[1..] == name[1..] + s;
      assert [name[0]] + (name[1..] + Pieces(s)[0]) == name + Pieces(s)[0];
    } else {
      var r := Pieces(s);
      assert name + s == s && name + r[0] == r[0];
      assert r == [r[0]] + r[1..];
    }
  }

  lemma {:induction false} PiecesOfJoin(names: seq<string>)
    requires names != []
    requires forall k :: 0 <= k < |names| ==> ',' !in names[k]
    ensures Pieces(Join(names)) == names
    decreases |names|
  {
    if |names| == 1 {
      PiecesAfterName(names[0], "");
      assert names[0] + "" == names[0];
    } else {
      var tail := Join(names[1..]);
      PiecesOfJoin(names[1..]);
      assert Pieces([','] + tail) == [""] + names[1..] by {
        assert ([','] + tail)[1..] == tail;
      }
      PiecesAfterName(names[0], [','] + tail);
      assert Join(names) == names[0] + ([','] + tail);
      assert names[0] + "" == names[0];
      assert [names[0]] + names[1..] == names;
    }
  }

  /** Joining clean names with commas and parsing the text back gives the
      same names: splitting, stripping and filtering lose nothing else. */
  lemma ParentNamesOfJoin(names: seq<string>)
    requires names != [] && names[|names| - 1] != ""
    requires forall k :: 0 <= k < |names| ==> CleanName(names[k])
    ensures ParentNames(Join(names)) == names
  {
    PiecesOfJoin(names);
    assert Split(Join(names)) == names;
    StripClean(names);
    RejectNoDummies(names);
  }

  lemma {:induction false} StripClean(names: seq<string>)
    requires forall k :: 0 <= k < |names| ==> CleanName(names[k])
    ensures StripAll(names) == names
  {
    assert forall k :: 0 <= k < |names| ==> Strip(names[k]) == names[k];
  }

  lemma {:induction false} RejectNoDummies(names: seq<string>)
    requires forall k :: 0 <= k < |names| ==> !Dummy(names[k])
    ensures RejectDummies(names) == names
  {
    if names != [] {
      RejectNoDummies(names[1..]);
      assert [names[0]] + names[1..] == names;
    }
  }

  /** The directive line `<open> => inherits: <text> <= <close>`. */
  function DirectiveLine(fmt: Format, text: string): string {
    DirectiveText(Opening(fmt), text, Closing(fmt))
  }

  function DirectiveText(open: string, text: string, close: string): string {
    open + (" => inherits: " + (text + (" <= " + close)))
  }

  /** `w` occurs where it was put. */
  lemma HasAtSplice(a: string, w: string, b: string)
    ensures HasAt(a + w + b, |a|, w)
  {
    assert (a + w + b)[|a|..|a| + |w|] == w;
  }

  /** `\s*<=\s*` and the closing mark match at `b` and at no later end
      when the content ends with `<= ` and the closing mark from `b` on. */
  lemma TailOfDirective(c: string, b: nat, close: string)
    requires close == "#" || close == "*/"
    requires b + 3 + |close| == |c| && c[b..] == "<= " + close
    ensures Tail(c, b, close)
    ensures forall e :: b < e <= |c| ==> !Tail(c, e, close)
  {
    assert c[b] == c[b..][0] && c[b + 1] == c[b..][1] && c[b + 2] == c[b..][2];
    assert c[b..b + 2] == c[b..][..2];
    assert c[b + 3..] == c[b..][3..];
    assert c[b + 3] == close[0];
    assert 1 < |close| ==> c[b + 4] == close[1];
    assert SkipSpace(c, b + 2) == b + 3;
    assert SkipSpace(c, b + 3) == b + 3;
    forall e | b < e <= |c|
      ensures !Tail(c, e, close)
    {
      var t := SkipSpace(c, e);
      assert t == b + 1 || t >= b + 3;
      assert t + 2 <= |c| ==> c[t..t + 2][0] == c[t];
    }
  }

  /** `<open>\s*=>\s*inherits` matches at `p` when each of its parts
      matches in turn. */
  lemma InheritsEndSteps(c: string, p: nat, fmt: Format, i: nat, k: nat)
    requires p <= |c| && HasAt(c, p, Opening(fmt))
    requires i == SkipSpace(c, p + |Opening(fmt)|) && HasAt(c, i, "=>")
    requires k == SkipSpace(c, i + 2) && HasAt(c, k, "inherits")
    ensures InheritsEnd(c, p, fmt) == Some(k + 8)
  {
  }

  /** `.` reaches the end of content that has no line break from `i` on. */
  lemma LineEndOfLastLine(c: string, i: nat)
    requires i <= |c| && '\n' !in c[i..]
    ensures LineEnd(c, i) == |c|
  {
    assert forall k :: i <= k < |c| ==> c[k] == c[i..][k - i];
  }

  /** The end the greedy capture settles on is the last at which the tail
      matches. */
  lemma LongestCaptureIs(c: string, q: nat, hi: nat, close: string, b: nat)
    requires q < b <= hi <= |c| && Tail(c, b, close)
    requires forall e :: b < e <= hi ==> !Tail(c, e, close)
    ensures LongestCapture(c, q, hi, close) == Some(b)
  {
  }

  /** `w` occurs in `a + b` wherever it occurs in `a`. */
  lemma HasAtLeft(a: string, b: string, i: nat, w: string)
    requires HasAt(a, i, w)
    ensures HasAt(a + b, i, w)
  {
    assert (a + b)[i..i + |w|] == a[i..i + |w|];
  }

  /** `w` occurs in `a + b` wherever it occurs in `b`, shifted by `|a|`. */
  lemma HasAtRight(a: string, b: string, i: nat, w: string)
    requires HasAt(b, i, w)
    ensures HasAt(a + b, |a| + i, w)
  {
    assert (a + b)[|a| + i..|a| + i + |w|] == b[i..i + |w|];
  }

  /** What a directive line holds where `<open> => inherits: ` is read. */
  lemma DirectiveLetters(open: string, text: string, close: string)
    requires text != []
    ensures var c, o := DirectiveText(open, text, close), |open|;
      o + 14 < |c| && HasAt(c, 0, open) && HasAt(c, o + 1, "=>") && HasAt(c, o + 4, "inherits")
      && c[o] == ' ' && c[o + 1] == '=' && c[o + 3] == ' ' && c[o + 4] == 'i'
      && c[o + 12] == ':' && c[o + 13] == ' ' && c[o + 14] == text[0]
  {
    var lead, rest := " => inherits: ", text + (" <= " + close);
    var c := DirectiveText(open, text, close);
    assert HasAt(open, 0, open);
    HasAtLeft(open, lead + rest, 0, open);
    assert HasAt(lead, 1, "=>") && HasAt(lead, 4, "inherits");
    HasAtLeft(lead, rest, 1, "=>");
    HasAtLeft(lead, rest, 4, "inherits");
    HasAtRight(open, lead + rest, 1, "=>");
    HasAtRight(open, lead + rest, 4, "inherits");
    assert forall k :: 0 <= k < 14 ==> c[|open| + k] == lead[k];
    assert c[|open| + 14] == rest[0] == text[0];
  }

  /** Content that reads `<open> => inherits: ` and then a non-space opens
      a directive, and the capture is tried after `: ` first. */
  lemma OpeningSteps(c: string, fmt: Format, o: nat)
    requires o == |Opening(fmt)| && o + 14 < |c|
    requires HasAt(c, 0, Opening(fmt)) && HasAt(c, o + 1, "=>") && HasAt(c, o + 4, "inherits")
    requires c[o] == ' ' && c[o + 1] == '=' && c[o + 3] == ' ' && c[o + 4] == 'i'
    requires c[o + 12] == ':' && c[o + 13] == ' ' && !IsSpace(c[o + 14])
    ensures InheritsEnd(c, 0, fmt) == Some(o + 12) && CaptureStarts(c, o + 12) == [o + 14, o + 12]
  {
    assert SkipSpace(c, o) == o + 1;
    assert SkipSpace(c, o + 3) == o + 4;
    assert SkipSpace(c, o + 12) == o + 12;
    assert SkipSpace(c, o + 13) == o + 14;
    InheritsEndSteps(c, 0, fmt, o + 1, o + 4);
  }

  /** A directive line opens with `<open> => inherits` and offers the
      capture the start after `: ` first. */
  lemma DirectiveOpening(fmt: Format, text: string)
    requires text != [] && !IsSpace(text[0])
    ensures var c, o := DirectiveLine(fmt, text), |Opening(fmt)|;
      o + 12 <= |c| && InheritsEnd(c, 0, fmt) == Some(o + 12) && CaptureStarts(c, o + 12) == [o + 14, o + 12]
  {
    DirectiveLetters(Opening(fmt), text, Closing(fmt));
    OpeningSteps(DirectiveLine(fmt, text), fmt, |Opening(fmt)|);
  }

  /** Where the capture and the tail sit in a directive line, which has no
      line break after `: ` when neither the text nor the closing mark has. */
  lemma DirectiveSlices(open: string, text: string, close: string)
    ensures var c, o := DirectiveText(open, text, close), |open|;
      var b := o + 14 + |text| + 1;
      b <= |c| && c[o + 14..b] == text + " " && c[b..] == "<= " + close
      && ('\n' !in text && '\n' !in close ==> '\n' !in c[o + 14..])
  {
    var c := DirectiveText(open, text, close);
    assert c == (open + " => inherits: ") + (text + " ") + ("<= " + close);
    assert c[|open| + 14..] == (text + " ") + ("<= " + close);
  }

  /** A capture from `q` to `b` succeeds when the line runs to the end of the
      content and the tail matches at `b` only. */
  lemma CaptureSteps(c: string, q: nat, b: nat, close: string)
    requires close == "#" || close == "*/"
    requires q < b && b + 3 + |close| == |c| && c[b..] == "<= " + close && '\n' !in c[q..]
    ensures CapturesAt(c, q, close, b)
  {
    LineEndOfLastLine(c, q);
    TailOfDirective(c, b, close);
    LongestCaptureIs(c, q, |c|, close, b);
  }

  /** In a directive line, the capture that starts after `: ` succeeds and
      ends just before `<=`. */
  lemma DirectiveCapture(fmt: Format, text: string)
    requires '\n' !in text
    ensures var c, o := DirectiveLine(fmt, text), |Opening(fmt)|;
      var b := o + 14 + |text| + 1;
      b <= |c| && CapturesAt(c, o + 14, Closing(fmt), b) && c[o + 14..b] == text + " "
  {
    var c := DirectiveLine(fmt, text);
    var o := |Opening(fmt)|;
    DirectiveSlices(Opening(fmt), text, Closing(fmt));
    CaptureSteps(c, o + 14, o + 14 + |text| + 1, Closing(fmt));
  }

  /** The first start is taken when a capture from it succeeds. */
  lemma FirstCaptureAtFirst(c: string, qs: seq<nat>, close: string, e: nat)
    requires forall k :: 0 <= k < |qs| ==> qs[k] <= |c|
    requires qs != [] && CapturesAt(c, qs[0], close, e)
    ensures FirstCapture(c, qs, close) == Some((0, e))
  {
    var r := FirstCapture(c, qs, close);
    assert r.Some? && r.value.0 == 0;
  }

  /** The expression matches at `p` once its opening and then a capture
      have matched. */
  lemma MatchAtSteps(c: string, p: nat, fmt: Format, a: nat, k: nat, e: nat)
    requires p <= |c| && InheritsEnd(c, p, fmt) == Some(a)
    requires FirstCapture(c, CaptureStarts(c, a), Closing(fmt)) == Some((k, e))
    ensures MatchAt(c, p, fmt) == Some(c[CaptureStarts(c, a)[k]..e])
  {
  }

  /** The expression matches a directive line at its start, capturing the
      listed text with the space that precedes `<=`. */
  lemma DirectiveMatch(fmt: Format, text: string)
    requires fmt == Yaml || fmt == Json
    requires text != [] && !IsSpace(text[0]) && '\n' !in text
    ensures MatchAt(DirectiveLine(fmt, text), 0, fmt) == Some(text + " ")
  {
    var c := DirectiveLine(fmt, text);
    var o := |Opening(fmt)|;
    var b := o + 14 + |text| + 1;
    DirectiveOpening(fmt, text);
    DirectiveCapture(fmt, text);
    FirstCaptureAtFirst(c, CaptureStarts(c, o + 12), Closing(fmt), b);
    MatchAtSteps(c, 0, fmt, o + 12, 0, b);
  }

  /** Joined names start with the first name. */
  lemma JoinStart(names: seq<string>)
    requires names != [] && names[0] != ""
    ensures Join(names) != [] && Join(names)[0] == names[0][0]
  {
  }

  /** Joined names hold only their names' characters and commas. */
  lemma {:induction false} JoinChars(names: seq<string>, ch: char)
    requires ch != ',' && forall k :: 0 <= k < |names| ==> ch !in names[k]
    ensures ch !in Join(names)
    decreases |names|
  {
    if |names| > 1 {
      JoinChars(names[1..], ch);
      assert forall k :: 0 <= k < |names[1..]| ==> names[1..][k] == names[k + 1];
      assert Join(names) == names[0] + "," + Join(names[1..]);
    }
  }

  /** Appending to joined names appends to the last name. */
  lemma {:induction false} JoinAppend(names: seq<string>, t: string)
    requires names != []
    ensures Join(names) + t == Join(names[..|names| - 1] + [names[|names| - 1] + t])
    decreases |names|
  {
    var m := names[..|names| - 1] + [names[|names| - 1] + t];
    if |names| > 1 {
      JoinAppend(names[1..], t);
      assert m[1..] == names[1..][..|names[1..]| - 1] + [names[1..][|names[1..]| - 1] + t];
      assert (names[0] + "," + Join(names[1..])) + t == names[0] + "," + (Join(names[1..]) + t);
    }
  }

  /** A blank at the end does not change what `strip` gives. */
  lemma {:induction false} StripBlankEnd(p: string)
    ensures Strip(p + " ") == Strip(p)
    decreases |p|
  {
    var s := p + " ";
    assert s[..|s| - 1] == p;
    if p != [] && IsBlank(p[0]) {
      assert s[1..] == p[1..] + " ";
      StripBlankEnd(p[1..]);
    }
  }

  /** Comma-free pieces with a space after the last one. */
  function Spaced(pieces: seq<string>): (m: seq<string>)
    requires pieces != []
    ensures |m| == |pieces| && m[|m| - 1] == pieces[|pieces| - 1] + " "
    ensures forall k :: 0 <= k < |pieces| - 1 ==> m[k] == pieces[k]
  {
    pieces[..|pieces| - 1] + [pieces[|pieces| - 1] + " "]
  }

  /** Splitting comma-free pieces joined with commas and followed by a space
      gives the pieces, the last with its space. */
  lemma SplitOfJoinSpaced(pieces: seq<string>)
    requires pieces != []
    requires forall k :: 0 <= k < |pieces| ==> ',' !in pieces[k]
    ensures Split(Join(pieces) + " ") == Spaced(pieces)
  {
    JoinSpaced(pieces);
    PiecesOfSpaced(pieces);
  }

  lemma JoinSpaced(pieces: seq<string>)
    requires pieces != []
    ensures Join(pieces) + " " == Join(Spaced(pieces))
  {
    JoinAppend(pieces, " ");
  }

  lemma PiecesOfSpaced(pieces: seq<string>)
    requires pieces != []
    requires forall k :: 0 <= k < |pieces| ==> ',' !in pieces[k]
    ensures Pieces(Join(Spaced(pieces))) == Spaced(pieces)
  {
    var m := Spaced(pieces);
    assert forall k :: 0 <= k < |m| ==> ',' !in m[k];
    PiecesOfJoin(m);
  }

  /** Stripping the split pieces drops the trailing space again. */
  lemma StripAllSpaced(pieces: seq<string>)
    requires pieces != []
    ensures StripAll(Spaced(pieces)) == StripAll(pieces)
  {
    var m := Spaced(pieces);
    var n := |pieces|;
    forall k | 0 <= k < n
      ensures Strip(m[k]) == Strip(pieces[k])
    {
      if k == n - 1 {
        StripBlankEnd(pieces[k]);
      }
    }
  }

  /** Comma-free pieces joined with commas and followed by a space parse to
      the stripped pieces when none of them is a placeholder. */
  lemma ParentNamesOfJoinSpaced(pieces: seq<string>)
    requires pieces != []
    requires forall k :: 0 <= k < |pieces| ==> ',' !in pieces[k] && !Dummy(Strip(pieces[k]))
    ensures ParentNames(Join(pieces) + " ") == StripAll(pieces)
  {
    SplitOfJoinSpaced(pieces);
    StripAllSpaced(pieces);
    RejectNoDummiesStripped(pieces);
    ParentNamesVia(Join(pieces) + " ", Spaced(pieces), StripAll(pieces));
  }

  lemma RejectNoDummiesStripped(pieces: seq<string>)
    requires forall k :: 0 <= k < |pieces| ==> !Dummy(Strip(pieces[k]))
    ensures RejectDummies(StripAll(pieces)) == StripAll(pieces)
  {
    var stripped := StripAll(pieces);
    assert forall k :: 0 <= k < |stripped| ==> !Dummy(stripped[k]);
    RejectNoDummies(stripped);
  }

  /** Parsing goes through splitting, stripping and filtering in turn. */
  lemma ParentNamesVia(captured: string, split: seq<string>, stripped: seq<string>)
    requires Split(captured) == split && StripAll(split) == stripped
    requires RejectDummies(stripped) == stripped
    ensures ParentNames(captured) == stripped
  {
  }

  /** A directive line that lists comma-separated pieces, the first starting
      with a non-space, yields each piece stripped of its blanks, in order,
      when none is a placeholder: `# => inherits: a, b <= #` yields `a`, `b`. */
  lemma DirectiveOfPieces(fmt: Format, pieces: seq<string>)
    requires fmt == Yaml || fmt == Json
    requires pieces != [] && pieces[0] != "" && !IsSpace(pieces[0][0])
    requires forall k :: 0 <= k < |pieces| ==> ',' !in pieces[k] && '\n' !in pieces[k] && !Dummy(Strip(pieces[k]))
    ensures ParseParents(fmt, DirectiveLine(fmt, Join(pieces))) == Ok(StripAll(pieces))
  {
    var text := Join(pieces);
    JoinStart(pieces);
    JoinChars(pieces, '\n');
    DirectiveMatch(fmt, text);
    FirstDirectiveWins(fmt, DirectiveLine(fmt, text), 0);
    ParentNamesOfJoinSpaced(pieces);
  }

  /** A directive line that lists clean names yields exactly those names,
      in order. */
  lemma DirectiveOfJoin(fmt: Format, names: seq<string>)
    requires fmt == Yaml || fmt == Json
    requires names != [] && names[0] != ""
    requires forall k :: 0 <= k < |names| ==> CleanName(names[k]) && '\n' !in names[k]
    ensures ParseParents(fmt, DirectiveLine(fmt, Join(names))) == Ok(names)
  {
    StripClean(names);
    DirectiveOfPieces(fmt, names);
  }
}
