/** The ordered-rule lexer `Fizzy::BaseLexer`.

    Rules are kept in declaration order. `NextToken` pulls one visible token at a
    time from a buffer; when the buffer is empty, `BuildTokens` scans the whole
    remaining input with a cursor (Ruby's `StringScanner`) and appends the
    end-of-stream token. At each cursor position the FIRST rule whose pattern
    matches wins, however long a later rule's match would be. */
module Lexer {
  import opened Wrappers

  /** A token name: the sentinel `:SKIP`, or any other name a rule declares. */
  datatype Name = Skip | Id(id: string)

  /** A token as `find_tokens` builds it, `[name, value]`, or the end-of-stream
      token `[false, false]`. */
  datatype Token = Tok(name: Name, value: string) | Eos

  /** `next_token` hands out every token except those named `:SKIP`. */
  predicate Visible(t: Token) {
    !(t.Tok? && t.name == Skip)
  }

  /** A successful anchored match: how many characters it consumes, and the
      groups 1..n of the pattern (`None` for a group that did not take part). */
  datatype Match = Match(len: nat, groups: seq<Option<string>>)

  ghost predicate Progresses(s: string, pos: nat, o: Option<Match>) {
    o.Some? ==> 0 < o.value.len && pos + o.value.len <= |s|
  }

  /** A pattern, as `StringScanner#scan` applies it: given the input and the
      cursor, an anchored match or none. A match consumes at least one
      character; with an empty match the source's `until @base.empty?` loop
      would never end. */
  type Matcher = f: (string, nat) -> Option<Match> | forall s, pos :: Progresses(s, pos, f(s, pos))
    witness (s: string, pos: nat) => None

  datatype Rule = Rule(pattern: Matcher, names: seq<Name>)

  datatype LexError =
    | OneNameExpected(declared: nat)                // "Only one token (not `n`) should be provided."
    | NameCountMismatch(captures: nat, declared: nat) // "You need to provide `k` tokens, instead of `n`."
    | UnexpectedCharacters(at: nat)                 // "Unexpected characters."
    | UndefinedMethod(selector: string)             // Ruby's NoMethodError

  /** The pattern `keyword` builds from a name: the name's own text. */
  function Literal(word: string): (m: Matcher)
    ensures forall s: string, pos: nat :: m(s, pos).Some? <==>
      0 < |word| && pos + |word| <= |s| && s[pos..pos + |word|] == word
    ensures forall s: string, pos: nat :: m(s, pos).Some? ==> m(s, pos).value == Match(|word|, [])
  {
    (s: string, pos: nat) =>
      if 0 < |word| && pos + |word| <= |s| && s[pos..pos + |word|] == word
      then Some(Match(|word|, [])) else None
  }

  /** Group `i` of a match, `@base[i]`: absent when the pattern has fewer groups. */
  function Group(m: Match, i: nat): Option<string> {
    if 1 <= i <= |m.groups| then m.groups[i - 1] else None
  }

  /** The captures `find_tokens` collects: groups 1, 2, ... up to the first
      absent one. */
  function Captures(groups: seq<Option<string>>): (caps: seq<string>)
    ensures |caps| <= |groups|
    ensures forall j :: 0 <= j < |caps| ==> groups[j] == Some(caps[j])
    ensures |caps| < |groups| ==> groups[|caps|].None?
  {
    if groups == [] || groups[0].None? then [] else [groups[0].value] + Captures(groups[1..])
  }

  /** `tokens.zip(captures)` for lists of equal length. */
  function Zip(names: seq<Name>, caps: seq<string>): (ts: seq<Token>)
    requires |names| == |caps|
  {
    seq(|names|, j requires 0 <= j < |names| => Tok(names[j], caps[j]))
  }

  /** The tokens a rule with declared `names` makes of a match whose full text
      is `text`, with the arity checks of the source. */
  function Emit(names: seq<Name>, m: Match, text: string): (r: Result<seq<Token>, LexError>)
    ensures Group(m, 1).None? ==> (r.Ok? <==> |names| == 1)
    ensures Group(m, 1).None? && r.Ok? ==> r.value == [Tok(names[0], text)]
    ensures Group(m, 1).None? && r.Err? ==> r.error == OneNameExpected(|names|)
    ensures Group(m, 1).Some? ==> (r.Ok? <==> |names| == |Captures(m.groups)|)
    ensures Group(m, 1).Some? && r.Ok? ==>
      |r.value| == |names| &&
      forall j :: 0 <= j < |names| ==> r.value[j] == Tok(names[j], Captures(m.groups)[j])
    ensures Group(m, 1).Some? && r.Err? ==>
      r.error == NameCountMismatch(|Captures(m.groups)|, |names|)
    ensures r.Ok? ==> forall t :: t in r.value ==> t.Tok?
  {
    if Group(m, 1).None? then
      if |names| != 1 then Err(OneNameExpected(|names|)) else Ok([Tok(names[0], text)])
    else
      var caps := Captures(m.groups);
      if |caps| != |names| then Err(NameCountMismatch(|caps|, |names|)) else Ok(Zip(names, caps))
  }

  /** What `find_tokens` makes of the rule `ignore` registers AS WRITTEN: there
      the names are the bare symbol `:SKIP` rather than a list, so `length` is
      the length of the symbol's text (4 for `:SKIP`) and `first` and `zip` do
      not exist. Whatever the match, the result is an error. */
  function EmitForBareSymbol(symbol: string, m: Match): (r: Result<seq<Token>, LexError>)
    ensures r.Err?
    ensures Group(m, 1).None? && |symbol| != 1 ==> r.error == OneNameExpected(|symbol|)
  {
    if Group(m, 1).None? then
      if |symbol| != 1 then Err(OneNameExpected(|symbol|)) else Err(UndefinedMethod("first"))
    else
      var caps := Captures(m.groups);
      if |caps| != |symbol| then Err(NameCountMismatch(|caps|, |symbol|)) else Err(UndefinedMethod("zip"))
  }

  /** The first rule, from index `from` on, whose pattern matches at `pos`. */
  function FirstMatch(rules: seq<Rule>, s: string, pos: nat, from: nat): (r: Option<(nat, Match)>)
    requires from <= |rules|
    decreases |rules| - from
    ensures r.Some? ==>
      from <= r.value.0 < |rules| && rules[r.value.0].pattern(s, pos) == Some(r.value.1) &&
      forall j :: from <= j < r.value.0 ==> rules[j].pattern(s, pos).None?
    ensures r.None? <==> forall j :: from <= j < |rules| ==> rules[j].pattern(s, pos).None?
  {
    if from == |rules| then None
    else match rules[from].pattern(s, pos)
      case Some(m) => Some((from, m))
      case None => FirstMatch(rules, s, pos, from + 1)
  }

  /** One call of `find_tokens` at a cursor that is not at the end: the tokens
      and the new cursor, or the error and where the cursor was left. */
  datatype Step = Found(toks: seq<Token>, next: nat) | Failed(error: LexError, at: nat)

  function StepAt(rules: seq<Rule>, s: string, pos: nat): (r: Step)
    requires pos < |s|
    ensures r.Found? ==> pos < r.next <= |s| && forall t :: t in r.toks ==> t.Tok?
    ensures r.Failed? ==> pos <= r.at <= |s|
    ensures FirstMatch(rules, s, pos, 0).None? <==> r == Failed(UnexpectedCharacters(pos), pos)
  {
    match FirstMatch(rules, s, pos, 0)
    case None => Failed(UnexpectedCharacters(pos), pos)
    case Some((i, m)) =>
      assert Progresses(s, pos, rules[i].pattern(s, pos));
      var next := pos + m.len;
      match Emit(rules[i].names, m, s[pos..next])
      case Ok(ts) => Found(ts, next)
      case Err(e) => Failed(e, next)
  }

  /** The scan `build_tokens` performs from `pos`: the tokens found, where the
      cursor stops, and the error that stopped it, if any. */
  datatype Scanned = Scanned(toks: seq<Token>, stop: nat, error: Option<LexError>)

  function Prepend(ts: seq<Token>, sc: Scanned): Scanned {
    Scanned(ts + sc.toks, sc.stop, sc.error)
  }

  function Scan(rules: seq<Rule>, s: string, pos: nat): (r: Scanned)
    requires pos <= |s|
    decreases |s| - pos
    ensures pos <= r.stop <= |s|
    ensures r.error.None? ==> r.stop == |s|
    ensures forall t :: t in r.toks ==> t.Tok?
  {
    if pos == |s| then Scanned([], pos, None)
    else match StepAt(rules, s, pos)
      case Failed(e, at) => Scanned([], at, Some(e))
      case Found(ts, next) => Prepend(ts, Scan(rules, s, next))
  }

  lemma ScanStep(rules: seq<Rule>, s: string, pos: nat)
    requires pos < |s|
    ensures match StepAt(rules, s, pos)
      case Found(ts, next) => Scan(rules, s, pos) == Prepend(ts, Scan(rules, s, next))
      case Failed(e, at) => Scan(rules, s, pos) == Scanned([], at, Some(e))
  {
  }

  lemma PrependNothing(sc: Scanned)
    ensures Prepend([], sc) == sc
  {
    assert [] + sc.toks == sc.toks;
  }

  /** At the end of the input there is nothing left to scan. */
  lemma ScanDone(rules: seq<Rule>, s: string, ts: seq<Token>)
    ensures Prepend(ts, Scan(rules, s, |s|)) == Scanned(ts, |s|, None)
  {
    assert ts + [] == ts;
  }

  lemma PrependTwice(a: seq<Token>, b: seq<Token>, sc: Scanned)
    ensures Prepend(a, Prepend(b, sc)) == Prepend(a + b, sc)
  {
    assert a + (b + sc.toks) == (a + b) + sc.toks;
  }

  /** A buffer as `build_tokens` leaves it: tokens, then exactly one end-of-stream. */
  ghost predicate Buffered(ts: seq<Token>) {
    ts != [] && ts[|ts| - 1] == Eos && forall j :: 0 <= j < |ts| - 1 ==> ts[j].Tok?
  }

  /** The index of the token `next_token` hands out from a buffer. */
  function FirstVisible(ts: seq<Token>): (k: nat)
    requires Buffered(ts)
    ensures k < |ts| && Visible(ts[k])
    ensures forall j :: 0 <= j < k ==> !Visible(ts[j])
  {
    if Visible(ts[0]) then 0 else 1 + FirstVisible(ts[1..])
  }

  lemma BufferedAfterScan(toks: seq<Token>)
    requires forall t :: t in toks ==> t.Tok?
    ensures Buffered(toks + [Eos])
  {
    forall j | 0 <= j < |toks + [Eos]| - 1 ensures (toks + [Eos])[j].Tok? {
      assert (toks + [Eos])[j] == toks[j];
      assert toks[j] in toks;
    }
  }

  lemma {:induction false} AllSkippedThenEos(toks: seq<Token>)
    requires forall t :: t in toks ==> t.Tok? && !Visible(t)
    ensures Buffered(toks + [Eos]) && FirstVisible(toks + [Eos]) == |toks|
  {
    BufferedAfterScan(toks);
    if toks != [] {
      assert (toks + [Eos])[1..] == toks[1..] + [Eos];
      assert toks[0] in toks;
      AllSkippedThenEos(toks[1..]);
    }
  }

  /** A rule set made only of skip rules — what `ignore` is meant to register —
      turns any input it can scan into skipped tokens alone, so the first token
      handed out is the end of stream. */
  lemma {:induction false} SkipRulesYieldOnlyEos(rules: seq<Rule>, s: string, pos: nat)
    requires forall i :: 0 <= i < |rules| ==> rules[i].names == [Skip]
    requires pos <= |s|
    ensures var sc := Scan(rules, s, pos);
      forall t :: t in sc.toks ==> !Visible(t)
    ensures var sc := Scan(rules, s, pos);
      sc.error.None? ==> FirstVisible(sc.toks + [Eos]) == |sc.toks|
    decreases |s| - pos
  {
    var sc := Scan(rules, s, pos);
    if pos < |s| {
      match StepAt(rules, s, pos)
      case Failed(e, at) =>
      case Found(ts, next) =>
        var fm := FirstMatch(rules, s, pos, 0);
        var m := fm.value.1;
        assert ts == Emit([Skip], m, s[pos..next]).value;
        forall t | t in ts ensures !Visible(t) {
          var j :| 0 <= j < |ts| && ts[j] == t;
        }
        SkipRulesYieldOnlyEos(rules, s, next);
        assert sc.toks == ts + Scan(rules, s, next).toks;
    }
    AllSkippedThenEos(sc.toks);
  }

  /** The lexer's state: the scanner over `input` (its cursor `pos`), the rules
      in declaration order, and the token buffer. */
  class BaseLexer {
    const input: string
    var pos: nat
    var rules: seq<Rule>
    var tokens: seq<Token>

    /** The buffer is empty, or holds what is left of one build, which ran the
        cursor to the end of the input. An error leaves no such promise: in the
        source every error is terminal. */
    ghost predicate Valid()
      reads this
    {
      pos <= |input| && (tokens != [] ==> pos == |input| && Buffered(tokens))
    }

    constructor (s: string)
      ensures input == s && pos == 0 && rules == [] && tokens == []
      ensures Valid()
    {
      input := s;
      pos := 0;
      rules := [];
      tokens := [];
    }

    /** `ignore(pattern)`, registering a skip rule (see EmitForBareSymbol for
        the source as written). */
    method Ignore(pattern: Matcher)
      modifies this`rules
      ensures rules == old(rules) + [Rule(pattern, [Skip])]
    {
      rules := rules + [Rule(pattern, [Skip])];
    }

    method Tokens(pattern: Matcher, names: seq<Name>)
      modifies this`rules
      ensures rules == old(rules) + [Rule(pattern, names)]
    {
      rules := rules + [Rule(pattern, names)];
    }

    method Token(pattern: Matcher, name: Name)
      modifies this`rules
      ensures rules == old(rules) + [Rule(pattern, [name])]
    {
      rules := rules + [Rule(pattern, [name])];
    }

    method Keyword(name: string)
      modifies this`rules
      ensures rules == old(rules) + [Rule(Literal(name), [Id(name)])]
    {
      Token(Literal(name), Id(name));
    }

    /** `find_tokens`: try the rules in order; the first that matches advances
        the cursor and yields its tokens. */
    method FindTokens() returns (r: Result<seq<Token>, LexError>)
      requires pos < |input|
      modifies this`pos
      ensures var st := StepAt(rules, input, old(pos));
        match st
        case Found(ts, next) => r == Ok(ts) && pos == next
        case Failed(e, at) => r == Err(e) && pos == at
    {
      var i := 0;
      while i < |rules|
        invariant 0 <= i <= |rules|
        invariant pos == old(pos)
        invariant FirstMatch(rules, input, pos, 0) == FirstMatch(rules, input, pos, i)
      {
        var found := rules[i].pattern(input, pos);
        if found.Some? {
          var m := found.value;
          assert Progresses(input, pos, rules[i].pattern(input, pos));
          var start := pos;
          pos := pos + m.len;
          var text := input[start..pos];
          var names := rules[i].names;
          if Group(m, 1).None? {
            if |names| != 1 {
              return Err(OneNameExpected(|names|));
            }
            return Ok([Tok(names[0], text)]);
          } else {
            var captures: seq<string> := [];
            var idx := 0;
            while Group(m, idx + 1).Some?
              invariant 0 <= idx <= |m.groups|
              invariant |captures| == idx
              invariant forall j :: 0 <= j < idx ==> m.groups[j] == Some(captures[j])
              decreases |m.groups| - idx
            {
              captures := captures + [Group(m, idx + 1).value];
              idx := idx + 1;
            }
            var caps := Captures(m.groups);
            assert captures == caps;
            if |captures| != |names| {
              return Err(NameCountMismatch(|captures|, |names|));
            }
            return Ok(Zip(names, captures));
          }
        }
        i := i + 1;
      }
      return Err(UnexpectedCharacters(pos));
    }

    /** `build_tokens`: reset the buffer, scan until the cursor reaches the end
        of the input, then append the end-of-stream token. */
    method BuildTokens() returns (r: Result<(), LexError>)
      requires pos <= |input|
      modifies this`pos, this`tokens
      ensures var sc := Scan(rules, input, old(pos));
        pos == sc.stop &&
        (sc.error.None? ==> r.Ok? && tokens == sc.toks + [Eos]) &&
        (sc.error.Some? ==> r == Err(sc.error.value) && tokens == sc.toks)
    {
      tokens := [];
      PrependNothing(Scan(rules, input, pos));
      while pos < |input|
        invariant old(pos) <= pos <= |input|
        invariant Scan(rules, input, old(pos)) == Prepend(tokens, Scan(rules, input, pos))
        decreases |input| - pos
      {
        ScanStep(rules, input, pos);
        var found := FindTokens();
        if found.Err? {
          return Err(found.error);
        }
        PrependTwice(tokens, found.value, Scan(rules, input, pos));
        tokens := tokens + found.value;
      }
      ScanDone(rules, input, tokens);
      tokens := tokens + [Eos];
      return Ok(());
    }

    /** `next_token`: refill the buffer when it is empty, take its first token,
        and go on while that token is a skipped one. */
    method NextToken() returns (r: Result<Token, LexError>)
      requires Valid()
      modifies this`pos, this`tokens
      decreases if tokens == [] then 1 else 0, |tokens|
      ensures old(tokens) != [] ==>
        var k := FirstVisible(old(tokens));
        r == Ok(old(tokens)[k]) && tokens == old(tokens)[k + 1..] && pos == old(pos)
      ensures old(tokens) == [] ==>
        var sc := Scan(rules, input, old(pos));
        if sc.error.Some? then
          r == Err(sc.error.value) && tokens == sc.toks && pos == sc.stop
        else
          Buffered(sc.toks + [Eos]) &&
          var k := FirstVisible(sc.toks + [Eos]);
          r == Ok((sc.toks + [Eos])[k]) && tokens == (sc.toks + [Eos])[k + 1..] && pos == |input|
      ensures r.Ok? ==> Valid() && Visible(r.value)
      ensures r == Ok(Eos) ==> tokens == [] && pos == |input|
    {
      if tokens == [] {
        var built := BuildTokens();
        if built.Err? {
          return Err(built.error);
        }
        BufferedAfterScan(Scan(rules, input, old(pos)).toks);
      }
      var t := tokens[0];
      tokens := tokens[1..];
      if !Visible(t) {
        r := NextToken();
      } else {
        r := Ok(t);
      }
    }
  }

  /** Whatever the rules, an empty input yields the end-of-stream token on the
      first call. */
  method EmptyInputFirstToken(pattern: Matcher, name: Name) returns (r: Result<Token, LexError>)
    ensures r == Ok(Eos)
  {
    var lexer := new BaseLexer("");
    lexer.Token(pattern, name);
    r := lexer.NextToken();
  }

  /** Once the end of stream has been handed out, the next call hands it out
      again (a call with nothing left rebuilds an empty scan). */
  method EosRepeats(lexer: BaseLexer) returns (first: Result<Token, LexError>, again: Result<Token, LexError>)
    requires lexer.Valid()
    modifies lexer
    ensures first == Ok(Eos) ==> again == Ok(Eos)
  {
    first := lexer.NextToken();
    again := first;
    if first == Ok(Eos) {
      again := lexer.NextToken();
    }
  }

  /** Input made only of text that skip rules match yields the end of stream
      first. */
  method SkipOnlyFirstToken(s: string, pattern: Matcher) returns (r: Result<Token, LexError>)
    ensures r.Ok? ==> r.value == Eos
  {
    var lexer := new BaseLexer(s);
    lexer.Ignore(pattern);
    SkipRulesYieldOnlyEos(lexer.rules, s, 0);
    r := lexer.NextToken();
  }
}
