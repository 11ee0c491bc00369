/** The arguments a detached serve passes to its child, and what the child parses from them. */
module DetachedArguments {
  import opened Wrappers
  import opened Text
  import opened Sorting
  import opened CommandLine

  function Token(name: string): string {
    "--" + name
  }

  function Not(token: string): string -> bool {
    t => t != token
  }

  /** `detachedArguments`. */
  function Detached(raw: seq<string>, v: Vocabulary): seq<string> {
    var kept := Filter(raw, Not(Token(v.detach)));
    var foreground := if Token(v.foreground) in kept then kept else kept + [Token(v.foreground)];
    if Token(v.noOpen) in foreground then foreground else foreground + [Token(v.noOpen)]
  }

  /** `detachedArguments` by filtering and pushing. */
  method DetachedArguments(raw: seq<string>) returns (args: seq<string>)
    ensures args == Detached(raw, SERVE)
  {
    var keep := Not(Token(SERVE.detach));
    args := [];
    for i := 0 to |raw|
      invariant args == Filter(raw[..i], keep)
    {
      FilterSplits(raw[..i], [raw[i]], keep);
      assert raw[..i + 1] == raw[..i] + [raw[i]];
      if raw[i] != Token(SERVE.detach) { args := args + [raw[i]]; }
    }
    assert raw[..|raw|] == raw;
    if Token(SERVE.foreground) !in args { args := args + [Token(SERVE.foreground)]; }
    if Token(SERVE.noOpen) !in args { args := args + [Token(SERVE.noOpen)]; }
  }

  /** The same command, to be run in the foreground and without opening a browser. */
  function ChildCommand(p: Parsed, v: Vocabulary): Parsed {
    Parsed((p.options - {v.detachKey})[v.foregroundKey := Flag(true)][v.openKey := Flag(false)], p.positionals)
  }

  /** The tokens before a bare `--`, and those after it. */
  function Before(tokens: seq<string>): seq<string> {
    if tokens == [] || tokens[0] == "--" then [] else [tokens[0]] + Before(tokens[1..])
  }

  function After(tokens: seq<string>): seq<string> {
    if tokens == [] then [] else if tokens[0] == "--" then tokens[1..] else After(tokens[1..])
  }

  /** What a caller can check: no bare `--`, or one that the rewriting does not reach past. */
  predicate Harmless(raw: seq<string>, v: Vocabulary)
    requires raw != []
  {
    "--" in raw[1..] ==>
      && Token(v.foreground) in Before(raw[1..]) && Token(v.noOpen) in Before(raw[1..])
      && Token(v.detach) !in After(raw[1..])
  }

  // ---------- the vocabulary ----------

  predicate Ours(key: string, v: Vocabulary) {
    key == v.detachKey || key == v.foregroundKey || key == v.openKey
  }

  /** Only the three flags touch the three options. */
  ghost predicate Good(v: Vocabulary) {
    && v.detachKey != v.foregroundKey && v.detachKey != v.openKey && v.foregroundKey != v.openKey
    && (forall name :: name in [v.detach, v.foreground, v.noOpen] ==>
          name != "" && '=' !in name && name in v.flags && name !in v.values)
    && v.detach != v.foreground && v.detach != v.noOpen && v.foreground != v.noOpen
    && (forall name :: name in v.values ==> !Ours(OptionKey(name), v))
    && (forall name :: name in v.flags && name != v.detach && name != v.foreground && name != v.noOpen ==>
        !Ours(FlagKey(name), v))
    && FlagKey(v.detach) == v.detachKey && !IsPrefix("no-", v.detach)
    && FlagKey(v.foreground) == v.foregroundKey && !IsPrefix("no-", v.foreground)
    && FlagKey(v.noOpen) == v.openKey && IsPrefix("no-", v.noOpen)
  }

  lemma NoEquals(s: string)
    requires '=' !in s
    ensures IndexOf(s, "=") == -1
  {
    forall i: nat ensures !OccursAt("=", s, i) {
      if i < |s| { assert s[i..i + 1][0] == s[i]; }
    }
  }

  /** A token without an inline value is its name behind two dashes. */
  lemma TokenOfName(token: string)
    requires IsPrefix("--", token)
    ensures InlineValue(token).None? ==> token == Token(OptionName(token))
    ensures '=' !in token ==> InlineValue(token) == None && OptionName(token) == token[2..]
  {
    if '=' !in token { NoEquals(token); }
    assert token == token[..2] + token[2..];
  }

  lemma NameOfToken(name: string)
    requires '=' !in name && name != ""
    ensures IsPrefix("--", Token(name)) && IsPrefix("-", Token(name)) && Token(name) != "--"
    ensures InlineValue(Token(name)) == None && OptionName(Token(name)) == name
  {
    var token := Token(name);
    assert token[..2] == "--" && token[2..] == name && token[..1] == "-";
    TokenOfName(token);
  }

  // ---------- one token ----------

  /** What a round of the parsing loop records, and how many tokens it consumes. */
  datatype Effect = Dashes | Positional(text: string) | Option(key: string, value: OptionValue)

  datatype Round = Round(consumed: nat, effect: Effect)

  /** One round, from its token and the token after it. */
  function RoundOf(token: string, next: Option<string>, positionalOnly: bool, v: Vocabulary)
    : (r: Result<Round, UsageError>)
    ensures r.Success? ==> 1 <= r.value.consumed <= if next.Some? then 2 else 1
  {
    if !positionalOnly && token == "--" then Success(Round(1, Dashes))
    else if positionalOnly || !IsPrefix("-", token) then Success(Round(1, Positional(token)))
    else if !IsPrefix("--", token) then Failure(UnknownOption)
    else
      var name, inline := OptionName(token), InlineValue(token);
      if name in v.values then
        if inline.Some? then Success(Round(1, Option(OptionKey(name), Value(inline.value))))
        else if next.None? || IsPrefix("--", next.value) then Failure(MissingValue)
        else Success(Round(2, Option(OptionKey(name), Value(next.value))))
      else if name in v.flags then
        if inline.Some? then Failure(UnexpectedValue)
        else Success(Round(1, Option(FlagKey(name), Flag(!IsPrefix("no-", name)))))
      else Failure(UnknownOption)
  }

  function Second(tokens: seq<string>): Option<string> {
    if |tokens| > 1 then Some(tokens[1]) else None
  }

  function ReadRound(tokens: seq<string>, positionalOnly: bool, v: Vocabulary): (r: Result<Round, UsageError>)
    requires tokens != []
    ensures r.Success? ==> 1 <= r.value.consumed <= |tokens| && r.value.consumed <= 2
  {
    RoundOf(tokens[0], Second(tokens), positionalOnly, v)
  }

  function Record(so: Parsed, effect: Effect): Parsed {
    match effect
    case Dashes => so
    case Positional(text) => so.(positionals := so.positionals + [text])
    case Option(key, value) => so.(options := so.options[key := value])
  }

  function ParseAll(tokens: seq<string>, so: Parsed, positionalOnly: bool, v: Vocabulary): Result<Parsed, UsageError> {
    Parse(tokens, so, positionalOnly, v.values, v.flags)
  }

  lemma ParseByRounds(tokens: seq<string>, so: Parsed, positionalOnly: bool, v: Vocabulary)
    ensures tokens == [] ==> ParseAll(tokens, so, positionalOnly, v) == Success(so)
    ensures tokens != [] ==>
              match ReadRound(tokens, positionalOnly, v)
              case Failure(error) => ParseAll(tokens, so, positionalOnly, v) == Failure(error)
              case Success(r) =>
                ParseAll(tokens, so, positionalOnly, v) ==
                ParseAll(tokens[r.consumed..], Record(so, r.effect), positionalOnly || r.effect.Dashes?, v)
  {
    if tokens != [] { AfterFirst(tokens); }
  }

  lemma AfterFirst(tokens: seq<string>)
    requires tokens != []
    ensures |tokens| == 1 ==> tokens[1..] == []
    ensures |tokens| > 1 ==> tokens[1..] != [] && tokens[1..][0] == tokens[1] && tokens[1..][1..] == tokens[2..]
  {}

  lemma RoundNeedsNoMore(token: string, next: Option<string>, positionalOnly: bool, v: Vocabulary)
    requires RoundOf(token, None, positionalOnly, v).Success?
    ensures RoundOf(token, next, positionalOnly, v) == RoundOf(token, None, positionalOnly, v)
  {}

  lemma FrontOfConcat(tokens: seq<string>, more: seq<string>)
    requires tokens != []
    ensures (tokens + more)[0] == tokens[0]
    ensures |tokens| > 1 ==> Second(tokens + more) == Second(tokens)
  {}

  /** A successful round does not depend on the tokens after those it consumes. */
  lemma RoundLocal(tokens: seq<string>, more: seq<string>, positionalOnly: bool, v: Vocabulary)
    requires tokens != [] && ReadRound(tokens, positionalOnly, v).Success?
    ensures ReadRound(tokens + more, positionalOnly, v) == ReadRound(tokens, positionalOnly, v)
  {
    FrontOfConcat(tokens, more);
    if |tokens| == 1 { RoundNeedsNoMore(tokens[0], Second(tokens + more), positionalOnly, v); }
  }

  lemma OnlyDashesAreDashes(tokens: seq<string>, v: Vocabulary)
    requires tokens != [] && tokens[0] != "--" && ReadRound(tokens, false, v).Success?
    ensures !ReadRound(tokens, false, v).value.effect.Dashes?
  {}

  /** Parsing a longer list goes on where parsing its front succeeded. */
  lemma {:induction false} ParseConcat(tokens: seq<string>, more: seq<string>, so: Parsed, v: Vocabulary)
    requires "--" !in tokens && ParseAll(tokens, so, false, v).Success?
    ensures ParseAll(tokens + more, so, false, v) == ParseAll(more, ParseAll(tokens, so, false, v).value, false, v)
    decreases |tokens|
  {
    ParseByRounds(tokens, so, false, v);
    ParseByRounds(tokens + more, so, false, v);
    if tokens == [] {
      assert tokens + more == more;
    } else {
      RoundLocal(tokens, more, false, v);
      OnlyDashesAreDashes(tokens, v);
      var r := ReadRound(tokens, false, v).value;
      assert (tokens + more)[r.consumed..] == tokens[r.consumed..] + more;
      ParseConcat(tokens[r.consumed..], more, Record(so, r.effect), v);
    }
  }

  /** Past a bare `--` every token is a positional. */
  lemma {:induction false} ParsePositionals(tokens: seq<string>, so: Parsed, v: Vocabulary)
    ensures ParseAll(tokens, so, true, v) == Success(so.(positionals := so.positionals + tokens))
    decreases |tokens|
  {
    if tokens == [] {
      assert so.positionals + [] == so.positionals;
    } else {
      ParsePositionals(tokens[1..], so.(positionals := so.positionals + [tokens[0]]), v);
      assert so.positionals + [tokens[0]] + tokens[1..] == so.positionals + tokens;
    }
  }

  // ---------- dropping the detach flag ----------

  function Strip(p: Parsed, v: Vocabulary): Parsed {
    p.(options := p.options - {v.detachKey})
  }

  /** Which option a round sets: ours only from its own flag, with that flag's value. */
  ghost predicate Faithful(token: string, effect: Effect, name: string, key: string, on: bool) {
    if token == Token(name) then effect == Option(key, Flag(on)) else effect.Option? ==> effect.key != key
  }

  lemma TokenNamed(token: string, name: string)
    requires '=' !in name && name != ""
    ensures IsPrefix("--", Token(name)) && Token(name) != "--"
    ensures token == Token(name) <==> IsPrefix("--", token) && InlineValue(token).None? && OptionName(token) == name
  {
    NameOfToken(name);
    if IsPrefix("--", token) { TokenOfName(token); }
  }

  /** The three flags that matter, each with its option and the value it gives it. */
  predicate OurFlag(v: Vocabulary, name: string, key: string, on: bool) {
    || (name == v.detach && key == v.detachKey && on)
    || (name == v.foreground && key == v.foregroundKey && on)
    || (name == v.noOpen && key == v.openKey && !on)
  }

  lemma OurFlagIsGood(v: Vocabulary, name: string, key: string, on: bool)
    requires Good(v) && OurFlag(v, name, key, on)
    ensures name != "" && '=' !in name && name in v.flags && name !in v.values
    ensures FlagKey(name) == key && on == !IsPrefix("no-", name)
    ensures forall other :: other in v.values ==> OptionKey(other) != key
    ensures forall other :: other in v.flags && other != name ==> FlagKey(other) != key
  {
    assert name in [v.detach, v.foreground, v.noOpen];
  }

  lemma TokenFaithful(token: string, next: Option<string>, v: Vocabulary, name: string, key: string, on: bool)
    requires Good(v) && OurFlag(v, name, key, on) && token != "--" && RoundOf(token, next, false, v).Success?
    ensures Faithful(token, RoundOf(token, next, false, v).value.effect, name, key, on)
  {
    OurFlagIsGood(v, name, key, on);
    TokenNamed(token, name);
  }

  lemma ValueIsNoFlag(token: string, next: Option<string>, v: Vocabulary, name: string)
    requires RoundOf(token, next, false, v).Success? && RoundOf(token, next, false, v).value.consumed == 2
    requires '=' !in name && name != ""
    ensures next.Some? && next.value != Token(name)
  {
    NameOfToken(name);
  }

  lemma RoundFaithful(tokens: seq<string>, v: Vocabulary, name: string, key: string, on: bool)
    requires Good(v) && OurFlag(v, name, key, on)
    requires tokens != [] && tokens[0] != "--" && ReadRound(tokens, false, v).Success?
    ensures Faithful(tokens[0], ReadRound(tokens, false, v).value.effect, name, key, on)
    ensures ReadRound(tokens, false, v).value.consumed == 2 ==> tokens[1] != Token(name)
  {
    TokenFaithful(tokens[0], Second(tokens), v, name, key, on);
    OurFlagIsGood(v, name, key, on);
    if ReadRound(tokens, false, v).value.consumed == 2 { ValueIsNoFlag(tokens[0], Second(tokens), v, name); }
  }

  /** What does not set the detach option records the same without it. */
  lemma RecordStrips(so: Parsed, effect: Effect, v: Vocabulary)
    requires effect.Option? ==> effect.key != v.detachKey
    ensures Record(Strip(so, v), effect) == Strip(Record(so, effect), v)
  {
    if effect.Option? {
      assert so.options[effect.key := effect.value] - {v.detachKey} ==
             (so.options - {v.detachKey})[effect.key := effect.value];
    }
  }

  lemma RoundOnDetach(tokens: seq<string>, so: Parsed, v: Vocabulary)
    requires Good(v) && tokens != [] && tokens[0] == Token(v.detach)
    ensures ReadRound(tokens, false, v) == Success(Round(1, Option(v.detachKey, Flag(true))))
    ensures Strip(Record(so, Option(v.detachKey, Flag(true))), v) == Strip(so, v)
  {
    assert v.detach in [v.detach, v.foreground, v.noOpen];
    NameOfToken(v.detach);
    assert so.options[v.detachKey := Flag(true)] - {v.detachKey} == so.options - {v.detachKey};
  }

  function Kept(tokens: seq<string>, v: Vocabulary): seq<string> {
    Filter(tokens, Not(Token(v.detach)))
  }

  /** A round consumes no detach flag besides its first token, so filtering keeps rounds intact. */
  lemma KeptRound(tokens: seq<string>, v: Vocabulary)
    requires Good(v) && tokens != [] && tokens[0] != "--" && tokens[0] != Token(v.detach)
    requires ReadRound(tokens, false, v).Success?
    ensures var n := ReadRound(tokens, false, v).value.consumed;
            Kept(tokens, v) == tokens[..n] + Kept(tokens[n..], v)
  {
    RoundFaithful(tokens, v, v.detach, v.detachKey, true);
    KeptFront(tokens, ReadRound(tokens, false, v).value.consumed, v);
  }

  lemma KeptFront(tokens: seq<string>, n: nat, v: Vocabulary)
    requires n <= |tokens| && forall i :: 0 <= i < n ==> tokens[i] != Token(v.detach)
    ensures Kept(tokens, v) == tokens[..n] + Kept(tokens[n..], v)
  {
    FilterSplits(tokens[..n], tokens[n..], Not(Token(v.detach)));
    assert tokens == tokens[..n] + tokens[n..];
    FilterAll(tokens[..n], Not(Token(v.detach)));
  }

  /** Parsing without the detach flags gives the same command without the detach option. */
  lemma {:induction false} ParseKept(tokens: seq<string>, so: Parsed, v: Vocabulary)
    requires Good(v) && "--" !in tokens && ParseAll(tokens, so, false, v).Success?
    ensures ParseAll(Kept(tokens, v), Strip(so, v), false, v) == Success(Strip(ParseAll(tokens, so, false, v).value, v))
    decreases |tokens|
  {
    ParseByRounds(tokens, so, false, v);
    if tokens == [] {
    } else {
      var r := ReadRound(tokens, false, v).value;
      OnlyDashesAreDashes(tokens, v);
      ParseKept(tokens[r.consumed..], Record(so, r.effect), v);
      if tokens[0] == Token(v.detach) {
        RoundOnDetach(tokens, so, v);
      } else {
        RoundFaithful(tokens, v, v.detach, v.detachKey, true);
        RecordStrips(so, r.effect, v);
        RoundOnKept(tokens, Strip(so, v), v);
      }
    }
  }

  lemma RoundOnKept(tokens: seq<string>, so: Parsed, v: Vocabulary)
    requires Good(v) && tokens != [] && tokens[0] != "--" && tokens[0] != Token(v.detach)
    requires ReadRound(tokens, false, v).Success?
    ensures var r := ReadRound(tokens, false, v).value;
            ParseAll(Kept(tokens, v), so, false, v) ==
              ParseAll(Kept(tokens[r.consumed..], v), Record(so, r.effect), false, v)
  {
    var r := ReadRound(tokens, false, v).value;
    KeptRound(tokens, v);
    RoundOnFront(tokens, v);
    OnlyDashesAreDashes(tokens, v);
    RoundThenMore(tokens[..r.consumed], Kept(tokens[r.consumed..], v), so, v);
  }

  /** Parsing tokens that make up one round, and then more. */
  lemma RoundThenMore(front: seq<string>, more: seq<string>, so: Parsed, v: Vocabulary)
    requires front != [] && ReadRound(front, false, v).Success?
    requires ReadRound(front, false, v).value.consumed == |front| && !ReadRound(front, false, v).value.effect.Dashes?
    ensures ParseAll(front + more, so, false, v) ==
              ParseAll(more, Record(so, ReadRound(front, false, v).value.effect), false, v)
  {
    RoundLocal(front, more, false, v);
    ParseByRounds(front + more, so, false, v);
    assert (front + more)[|front|..] == more;
  }

  lemma RoundNeedsNext(token: string, next: Option<string>, positionalOnly: bool, v: Vocabulary)
    requires RoundOf(token, next, positionalOnly, v).Success?
    requires RoundOf(token, next, positionalOnly, v).value.consumed == 1
    ensures RoundOf(token, None, positionalOnly, v) == RoundOf(token, next, positionalOnly, v)
  {}

  lemma RoundOnFront(tokens: seq<string>, v: Vocabulary)
    requires tokens != [] && ReadRound(tokens, false, v).Success?
    ensures var r := ReadRound(tokens, false, v).value;
            ReadRound(tokens[..r.consumed], false, v) == Success(r)
  {
    var r := ReadRound(tokens, false, v).value;
    if r.consumed == 1 {
      RoundNeedsNext(tokens[0], Second(tokens), false, v);
      assert Second(tokens[..1]) == None;
    } else {
      assert Second(tokens[..2]) == Second(tokens);
    }
  }

  // ---------- which flags were given ----------

  /** A recorded key of ours comes from its flag. */
  ghost predicate FlagsExplain(tokens: seq<string>, so: Parsed, out: Parsed, v: Vocabulary) {
    && (if Token(v.foreground) in tokens
        then v.foregroundKey in out.options && out.options[v.foregroundKey] == Flag(true)
        else Same(so, out, v.foregroundKey))
    && (if Token(v.noOpen) in tokens then v.openKey in out.options && out.options[v.openKey] == Flag(false)
        else Same(so, out, v.openKey))
  }

  predicate Same(a: Parsed, b: Parsed, key: string) {
    (key in a.options <==> key in b.options) && (key in a.options ==> a.options[key] == b.options[key])
  }

  lemma RecordFaithful(token: string, effect: Effect, so: Parsed, name: string, key: string, on: bool)
    requires Faithful(token, effect, name, key, on)
    ensures var out := Record(so, effect);
            if token == Token(name) then key in out.options && out.options[key] == Flag(on) else Same(so, out, key)
  {}

  lemma OnlyFirst(tokens: seq<string>, n: nat, t: string)
    requires 1 <= n <= |tokens| && n <= 2 && (n == 2 ==> tokens[1] != t)
    ensures t in tokens[..n] <==> tokens[0] == t
  {
    assert tokens[..n][0] == tokens[0];
  }

  /** One of the two flags, as a round leaves it. */
  lemma RoundExplains(tokens: seq<string>, so: Parsed, v: Vocabulary, name: string, key: string, on: bool)
    requires Good(v) && tokens != [] && tokens[0] != "--" && ReadRound(tokens, false, v).Success?
    requires OurFlag(v, name, key, on)
    ensures var r := ReadRound(tokens, false, v).value;
            var out := Record(so, r.effect);
            if Token(name) in tokens[..r.consumed] then key in out.options && out.options[key] == Flag(on)
            else Same(so, out, key)
  {
    RoundFaithful(tokens, v, name, key, on);
    var r := ReadRound(tokens, false, v).value;
    OnlyFirst(tokens, r.consumed, Token(name));
    RecordFaithful(tokens[0], r.effect, so, name, key, on);
  }

  lemma {:induction false} ParseExplains(tokens: seq<string>, so: Parsed, v: Vocabulary)
    requires Good(v) && "--" !in tokens && ParseAll(tokens, so, false, v).Success?
    ensures FlagsExplain(tokens, so, ParseAll(tokens, so, false, v).value, v)
    decreases |tokens|
  {
    ParseByRounds(tokens, so, false, v);
    if tokens == [] {
    } else {
      var r := ReadRound(tokens, false, v).value;
      OnlyDashesAreDashes(tokens, v);
      RoundExplains(tokens, so, v, v.foreground, v.foregroundKey, true);
      RoundExplains(tokens, so, v, v.noOpen, v.openKey, false);
      ParseExplains(tokens[r.consumed..], Record(so, r.effect), v);
      assert tokens == tokens[..r.consumed] + tokens[r.consumed..];
      assert forall t :: t in tokens <==> t in tokens[..r.consumed] || t in tokens[r.consumed..];
    }
  }

  // ---------- the whole command ----------

  /** The options and arguments around a bare `--`. */
  lemma {:induction false} SplitAtDashes(tokens: seq<string>)
    ensures "--" !in Before(tokens)
    ensures "--" in tokens ==> tokens == Before(tokens) + ["--"] + After(tokens)
    ensures "--" !in tokens ==> tokens == Before(tokens)
  {
    if tokens == [] || tokens[0] == "--" {
    } else {
      SplitAtDashes(tokens[1..]);
      assert tokens == [tokens[0]] + tokens[1..];
    }
  }

  lemma {:induction false} ParseBeforeSucceeds(tokens: seq<string>, more: seq<string>, so: Parsed, v: Vocabulary)
    requires "--" !in tokens && ParseAll(tokens + ["--"] + more, so, false, v).Success?
    ensures ParseAll(tokens, so, false, v).Success?
    decreases |tokens|
  {
    var whole := tokens + ["--"] + more;
    ParseByRounds(whole, so, false, v);
    ParseByRounds(tokens, so, false, v);
    if tokens == [] {
    } else {
      RoundBeforeDashes(tokens, more, v);
      OnlyDashesAreDashes(tokens, v);
      var r := ReadRound(tokens, false, v).value;
      assert whole[r.consumed..] == tokens[r.consumed..] + ["--"] + more;
      ParseBeforeSucceeds(tokens[r.consumed..], more, Record(so, r.effect), v);
    }
  }

  /** A round before a bare `--` never takes the `--` for a value. */
  lemma RoundBeforeDashes(tokens: seq<string>, more: seq<string>, v: Vocabulary)
    requires tokens != [] && ReadRound(tokens + ["--"] + more, false, v).Success? && tokens[0] != "--"
    ensures ReadRound(tokens, false, v) == ReadRound(tokens + ["--"] + more, false, v)
  {
    var whole := tokens + ["--"] + more;
    assert whole[0] == tokens[0] && whole[1..] == tokens[1..] + ["--"] + more;
    if tokens[1..] == [] { assert whole[1] == "--"; }
  }

  /** A command line with a bare `--` parses to its options, followed by everything after it. */
  lemma ParseWithDashes(before: seq<string>, after: seq<string>, v: Vocabulary)
    requires "--" !in before && ParseAll(before, NOTHING, false, v).Success?
    ensures var p := ParseAll(before, NOTHING, false, v).value;
            ParseAll(before + ["--"] + after, NOTHING, false, v) == Success(p.(positionals := p.positionals + after))
  {
    var p := ParseAll(before, NOTHING, false, v).value;
    assert before + ["--"] + after == before + (["--"] + after);
    ParseConcat(before, ["--"] + after, NOTHING, v);
    ParseByRounds(["--"] + after, p, false, v);
    assert (["--"] + after)[1..] == after;
    ParsePositionals(after, p, v);
  }

  /** Flags appended at the end, when no bare `--` precedes them. */
  lemma ParseAppended(tokens: seq<string>, p: Parsed, v: Vocabulary)
    requires Good(v) && "--" !in tokens && ParseAll(tokens, NOTHING, false, v) == Success(p)
    ensures ParseAll(tokens + [Token(v.foreground)], NOTHING, false, v) ==
            Success(p.(options := p.options[v.foregroundKey := Flag(true)]))
    ensures ParseAll(tokens + [Token(v.noOpen)], NOTHING, false, v) ==
            Success(p.(options := p.options[v.openKey := Flag(false)]))
    ensures Token(v.foreground) != "--" && Token(v.noOpen) != "--"
  {
    assert v.foreground in [v.detach, v.foreground, v.noOpen] && v.noOpen in [v.detach, v.foreground, v.noOpen];
    NameOfToken(v.foreground);
    NameOfToken(v.noOpen);
    ParseConcat(tokens, [Token(v.foreground)], NOTHING, v);
    ParseConcat(tokens, [Token(v.noOpen)], NOTHING, v);
    OneFlag(v.foreground, p, v);
    OneFlag(v.noOpen, p, v);
  }

  lemma OneFlag(name: string, p: Parsed, v: Vocabulary)
    requires name in v.flags && name !in v.values && '=' !in name && name != ""
    ensures ParseAll([Token(name)], p, false, v) == Success(p.(options := SetFlag(p.options, name)))
  {
    NameOfToken(name);
    ParseByRounds([Token(name)], p, false, v);
    ParseByRounds([], p.(options := SetFlag(p.options, name)), false, v);
    assert [Token(name)][1..] == [];
  }

  /** The child's tokens after its command word. */
  function ChildTokens(raw: seq<string>, v: Vocabulary): seq<string>
    requires raw != []
  {
    Kept(raw[1..], v)
    + (if Token(v.foreground) in raw then [] else [Token(v.foreground)])
    + (if Token(v.noOpen) in raw then [] else [Token(v.noOpen)])
  }

  lemma DetachedShape(raw: seq<string>, v: Vocabulary)
    requires Good(v) && raw != [] && raw[0] != Token(v.detach)
    ensures Detached(raw, v) == [raw[0]] + ChildTokens(raw, v)
  {
    assert raw == [raw[0]] + raw[1..];
    TokensDiffer(v);
  }

  lemma TokensDiffer(v: Vocabulary)
    requires Good(v)
    ensures Token(v.detach) != Token(v.foreground) && Token(v.detach) != Token(v.noOpen)
    ensures Token(v.foreground) != Token(v.noOpen)
  {
    assert Token(v.detach)[2..] == v.detach && Token(v.foreground)[2..] == v.foreground;
    assert Token(v.noOpen)[2..] == v.noOpen;
  }

  /** Without a bare `--` the child parses to the same command. */
  lemma ChildWithoutDashes(raw: seq<string>, p: Parsed, v: Vocabulary)
    requires Good(v) && raw != [] && !IsPrefix("-", raw[0]) && "--" !in raw[1..]
    requires ParseAll(raw[1..], NOTHING, false, v) == Success(p)
    ensures ParseAll(ChildTokens(raw, v), NOTHING, false, v) == Success(ChildCommand(p, v))
  {
    var tail := raw[1..];
    var kept := Kept(tail, v);
    CommandWordApart(raw, v);
    ParseKept(tail, NOTHING, v);
    assert NOTHING.options - {v.detachKey} == map[];
    ParseExplains(tail, NOTHING, v);
    var q := Strip(p, v);
    var foreground := WithFlag(kept, v.foreground, raw);
    ParseWithFlag(kept, q, v, v.foreground, v.foregroundKey, true, raw);
    var q' := q.(options := q.options[v.foregroundKey := Flag(true)]);
    TokensDiffer(v);
    FlagStays(q.options, v.foregroundKey, Flag(true), v.openKey, Flag(false));
    ParseWithFlag(foreground, q', v, v.noOpen, v.openKey, false, raw);
    assert ChildTokens(raw, v) == WithFlag(foreground, v.noOpen, raw);
  }

  function WithFlag(tokens: seq<string>, name: string, raw: seq<string>): seq<string> {
    if Token(name) in raw then tokens else tokens + [Token(name)]
  }

  lemma FlagStays(options: map<string, OptionValue>, set': string, value: OptionValue, key: string, other: OptionValue)
    requires set' != key
    ensures key in options && options[key] == other ==>
              key in options[set' := value] && options[set' := value][key] == other
  {}

  /** A flag that was given has its value already; a missing one is appended and sets it. */
  lemma ParseWithFlag(tokens: seq<string>, p: Parsed, v: Vocabulary, name: string, key: string, on: bool,
                      raw: seq<string>)
    requires Good(v) && (name == v.foreground || name == v.noOpen) && OurFlag(v, name, key, on)
    requires "--" !in tokens && ParseAll(tokens, NOTHING, false, v) == Success(p)
    requires Token(name) in raw ==> key in p.options && p.options[key] == Flag(on)
    ensures "--" !in WithFlag(tokens, name, raw)
    ensures ParseAll(WithFlag(tokens, name, raw), NOTHING, false, v) ==
              Success(p.(options := p.options[key := Flag(on)]))
  {
    OurFlagIsGood(v, name, key, on);
    ParseAppended(tokens, p, v);
    assert Token(name) in raw ==> p.options[key := Flag(on)] == p.options;
  }

  lemma CommandWordApart(raw: seq<string>, v: Vocabulary)
    requires Good(v) && raw != [] && !IsPrefix("-", raw[0])
    ensures raw[0] != Token(v.detach)
    ensures Token(v.foreground) in raw <==> Token(v.foreground) in raw[1..]
    ensures Token(v.noOpen) in raw <==> Token(v.noOpen) in raw[1..]
  {
    assert forall name {:trigger Token(name)} :: Token(name)[..1] == "-";
    assert raw == [raw[0]] + raw[1..];
  }

  /** With a bare `--` the child parses to the same command exactly when the rewriting does not reach past it. */
  lemma ChildWithDashes(raw: seq<string>, p: Parsed, v: Vocabulary)
    requires Good(v) && raw != [] && !IsPrefix("-", raw[0]) && "--" in raw[1..]
    requires ParseAll(raw[1..], NOTHING, false, v) == Success(p)
    ensures ParseAll(ChildTokens(raw, v), NOTHING, false, v) == Success(ChildCommand(p, v)) <==> Harmless(raw, v)
  {
    var tail := raw[1..];
    var before, after := Before(tail), After(tail);
    SplitAtDashes(tail);
    ParseBeforeSucceeds(before, after, NOTHING, v);
    ParseWithDashes(before, after, v);
    var b := ParseAll(before, NOTHING, false, v).value;
    ParseKept(before, NOTHING, v);
    assert NOTHING.options - {v.detachKey} == map[];
    ParseExplains(before, NOTHING, v);
    ChildTokensWithDashes(raw, v);
    var extra := Appended(raw, v);
    var kept := Kept(before, v);
    assert forall t :: t in kept ==> t in before;
    ParseWithDashes(kept, Kept(after, v) + extra, v);
    var child := Strip(b, v);
    assert ParseAll(ChildTokens(raw, v), NOTHING, false, v) ==
           Success(child.(positionals := child.positionals + (Kept(after, v) + extra)));
    OptionsAgreeIff(before, b, v);
    PositionalsAgreeIff(raw, b.positionals, v);
  }

  function Appended(raw: seq<string>, v: Vocabulary): seq<string> {
    (if Token(v.foreground) in raw then [] else [Token(v.foreground)])
    + (if Token(v.noOpen) in raw then [] else [Token(v.noOpen)])
  }

  lemma ChildTokensWithDashes(raw: seq<string>, v: Vocabulary)
    requires Good(v) && raw != [] && "--" in raw[1..]
    ensures var tail := raw[1..];
            ChildTokens(raw, v) == Kept(Before(tail), v) + ["--"] + (Kept(After(tail), v) + Appended(raw, v))
  {
    var tail := raw[1..];
    SplitAtDashes(tail);
    var keep := Not(Token(v.detach));
    assert v.detach in [v.detach, v.foreground, v.noOpen];
    NameOfToken(v.detach);
    FilterAround(Before(tail), "--", After(tail), keep);
    AddedAtEnd(Kept(Before(tail), v) + ["--"], Kept(After(tail), v), Appended(raw, v));
  }

  lemma FilterAround(before: seq<string>, token: string, after: seq<string>, keep: string -> bool)
    requires keep(token)
    ensures Filter(before + [token] + after, keep) == Filter(before, keep) + [token] + Filter(after, keep)
  {
    FilterSplits(before + [token], after, keep);
    FilterSplits(before, [token], keep);
    assert Filter([token], keep) == [token];
  }

  lemma AddedAtEnd(a: seq<string>, b: seq<string>, c: seq<string>)
    ensures a + b + c == a + (b + c)
  {}

  /** The child's options are the wanted ones exactly when both flags were already given before the `--`. */
  lemma OptionsAgreeIff(before: seq<string>, b: Parsed, v: Vocabulary)
    requires Good(v) && FlagsExplain(before, NOTHING, b, v)
    ensures Strip(b, v).options == ChildCommand(b, v).options <==>
              Token(v.foreground) in before && Token(v.noOpen) in before
  {
    var stripped := b.options - {v.detachKey};
    var wanted := stripped[v.foregroundKey := Flag(true)][v.openKey := Flag(false)];
    assert v.foregroundKey in wanted && v.openKey in wanted;
    assert v.foregroundKey in stripped <==> v.foregroundKey in b.options;
    assert v.openKey in stripped <==> v.openKey in b.options;
    if Token(v.foreground) in before && Token(v.noOpen) in before {
      assert wanted == stripped;
    }
  }

  lemma {:induction false} FilterSame(tokens: seq<string>, keep: string -> bool)
    ensures |Filter(tokens, keep)| == |tokens| <==> forall t :: t in tokens ==> keep(t)
    ensures |Filter(tokens, keep)| == |tokens| ==> Filter(tokens, keep) == tokens
  {
    if tokens == [] {
    } else {
      FilterSame(tokens[1..], keep);
      assert tokens == [tokens[0]] + tokens[1..];
    }
  }

  /** When both flags were given before the `--`, the positionals survive exactly without a detach flag after it. */
  lemma PositionalsAgreeIff(raw: seq<string>, positionals: seq<string>, v: Vocabulary)
    requires Good(v) && raw != [] && !IsPrefix("-", raw[0]) && "--" in raw[1..]
    ensures var after := After(raw[1..]);
            Token(v.foreground) in Before(raw[1..]) && Token(v.noOpen) in Before(raw[1..]) ==>
              (positionals + (Kept(after, v) + Appended(raw, v)) == positionals + after <==> Token(v.detach) !in after)
  {
    var tail := raw[1..];
    var after := After(tail);
    SplitAtDashes(tail);
    CommandWordApart(raw, v);
    FilterSame(after, Not(Token(v.detach)));
    if Token(v.foreground) in Before(tail) && Token(v.noOpen) in Before(tail) {
      assert Appended(raw, v) == [];
      var kept := Kept(after, v);
      if positionals + (kept + []) == positionals + after {
        assert |kept| == |after|;
      }
    }
  }

  lemma HelpUnchanged(raw: seq<string>, v: Vocabulary)
    requires Good(v) && raw != [] && Token(v.foreground) != "--help" && Token(v.noOpen) != "--help" && !AsksForHelp(raw)
    ensures !AsksForHelp(Detached(raw, v))
  {
    assert Token(v.foreground)[1] == '-' && Token(v.noOpen)[1] == '-';
    assert "-h"[1] == 'h';
  }

  /**
   * For every serve argument list that parses, the detached child parses to the same command, in
   * the foreground and without opening a browser, exactly when the list has no bare `--` or the
   * rewriting does not reach past it.
   */
  lemma ChildParsesSameIff(raw: seq<string>, v: Vocabulary)
    requires Good(v) && Token(v.foreground) != "--help" && Token(v.noOpen) != "--help"
    requires ParseServe(raw, v).Success?
    ensures ParseServe(Detached(raw, v), v) == Success(ChildCommand(ParseServe(raw, v).value, v)) <==> Harmless(raw, v)
  {
    var p := ParseServe(raw, v).value;
    CommandWordNoDash(raw[0]);
    CommandWordApart(raw, v);
    DetachedShape(raw, v);
    HelpUnchanged(raw, v);
    var child := Detached(raw, v);
    assert child[0] == raw[0] && child[1..] == ChildTokens(raw, v);
    if "--" in raw[1..] {
      ChildWithDashes(raw, p, v);
    } else {
      ChildWithoutDashes(raw, p, v);
    }
  }

  lemma CommandWordNoDash(word: string)
    requires Lower(word) == "serve" || Lower(word) == "start"
    ensures !IsPrefix("-", word)
  {
    assert Lower(word)[0] == LowerChar(word[0]) == 's';
  }

  // ---------- the vocabulary of serve ----------

  lemma {:induction false} KeyWithoutDash(name: string)
    requires '-' !in name
    ensures OptionKey(name) == name
  {
    if name == "" {
    } else {
      KeyWithoutDash(name[1..]);
      assert name == [name[0]] + name[1..];
    }
  }

  lemma {:induction false} KeyOfTwoWords(a: string, c: char, b: string)
    requires '-' !in a && '-' !in b && 'a' <= c <= 'z'
    ensures OptionKey(a + ['-', c] + b) == a + [(c as int - 32) as char] + b
  {
    var name := a + ['-', c] + b;
    if a == "" {
      assert name[0] == '-' && name[1] == c && name[2..] == b;
      KeyWithoutDash(b);
    } else {
      assert name[1..] == a[1..] + ['-', c] + b;
      KeyOfTwoWords(a[1..], c, b);
      assert a == [a[0]] + a[1..];
    }
  }

  lemma KeyStart(name: string)
    requires |name| >= 2 && name[0] != '-' && name[1] != '-'
    ensures |OptionKey(name)| >= 2 && OptionKey(name)[0] == name[0] && OptionKey(name)[1] == name[1]
  {
    assert name[1..][0] == name[1];
  }

  lemma ForegroundKey(name: string)
    requires name == "internal" + ['-', 'f'] + "oreground"
    ensures OptionKey(name) == "internal" + ['F'] + "oreground"
  {
    KeyOfTwoWords("internal", 'f', "oreground");
  }

  /** A name whose first two letters are not those of `detach`, `open` or `internal` has a key of its own. */
  predicate OtherName(name: string) {
    && |name| >= 2 && name[0] != '-' && name[1] != '-'
    && !(name[0] == 'd' && name[1] == 'e') && !(name[0] == 'o' && name[1] == 'p') && !(name[0] == 'i' && name[1] == 'n')
  }

  lemma OtherKey(name: string, v: Vocabulary)
    requires OtherName(name)
    requires v.detachKey == "detach" && v.foregroundKey == "internalForeground" && v.openKey == "open"
    ensures !Ours(OptionKey(name), v)
  {
    KeyStart(name);
  }

  lemma ServeValues(name: string, v: Vocabulary)
    requires v == SERVE && name in v.values
    ensures !Ours(OptionKey(name), v)
  {
    OtherKey(name, v);
  }

  lemma NoPrefix(name: string)
    requires |name| >= 2 && !(name[0] == 'n' && name[1] == 'o')
    ensures !IsPrefix("no-", name)
  {
    assert "no-"[0] == 'n' && "no-"[1] == 'o';
  }

  lemma NegatedKey(name: string, rest: string, v: Vocabulary)
    requires name == "no-" + rest && OtherName(rest)
    requires v.detachKey == "detach" && v.foregroundKey == "internalForeground" && v.openKey == "open"
    ensures !Ours(FlagKey(name), v)
  {
    assert name[..3] == "no-" && name[3..] == rest;
    OtherKey(rest, v);
  }

  lemma ServeFlags(name: string, v: Vocabulary)
    requires v == SERVE && name in v.flags && name != v.detach && name != v.foreground && name != v.noOpen
    ensures !Ours(FlagKey(name), v)
  {
    if name == "no-tunnel" {
      NegatedKey(name, "tunnel", v);
    } else if name == "no-credentials" {
      NegatedKey(name, "credentials", v);
    } else {
      assert name == "tunnel" || name == "offline";
      NoPrefix(name);
      OtherKey(name, v);
    }
  }

  lemma ServeDetachKey()
    ensures FlagKey("detach") == "detach" && !IsPrefix("no-", "detach")
  {
    var name := "detach";
    NoPrefix(name);
    KeyWithoutDash(name);
  }

  lemma ForegroundWords()
    ensures "internal-foreground" == "internal" + ['-', 'f'] + "oreground"
    ensures "internalForeground" == "internal" + ['F'] + "oreground"
  {}

  lemma ServeForegroundKey(name: string, key: string)
    requires name == "internal-foreground" && key == "internalForeground"
    ensures FlagKey(name) == key && !IsPrefix("no-", name)
  {
    ForegroundWords();
    NoPrefix(name);
    ForegroundKey(name);
  }

  lemma ServeOpenKey()
    ensures FlagKey("no-open") == "open" && IsPrefix("no-", "no-open")
  {
    var name, rest := "no-open", "open";
    assert name == "no-" + rest && name[..3] == "no-" && name[3..] == rest;
    KeyWithoutDash(rest);
  }

  lemma ServeNames(name: string, v: Vocabulary)
    requires v == SERVE && name in [v.detach, v.foreground, v.noOpen]
    ensures name != "" && '=' !in name && name in v.flags && name !in v.values
  {}

  lemma ServeIsGood()
    ensures Good(SERVE)
  {
    var v := SERVE;
    forall name | name in [v.detach, v.foreground, v.noOpen]
      ensures name != "" && '=' !in name && name in v.flags && name !in v.values { ServeNames(name, v); }
    forall name | name in v.values ensures !Ours(OptionKey(name), v) { ServeValues(name, v); }
    forall name | name in v.flags && name != v.detach && name != v.foreground && name != v.noOpen
      ensures !Ours(FlagKey(name), v) { ServeFlags(name, v); }
    ServeDetachKey();
    ServeForegroundKey(v.foreground, v.foregroundKey);
    ServeOpenKey();
  }

  lemma NotHelp(name: string)
    requires |name| > 4
    ensures Token(name) != "--help"
  {
    assert |Token(name)| > 6;
  }

  /** The property for the serve command itself. */
  lemma DetachedChildSameCommandIff(raw: seq<string>)
    requires ParseServe(raw, SERVE).Success?
    ensures ParseServe(Detached(raw, SERVE), SERVE) == Success(ChildCommand(ParseServe(raw, SERVE).value, SERVE)) <==>
              Harmless(raw, SERVE)
  {
    ServeIsGood();
    NotHelp(SERVE.foreground);
    NotHelp(SERVE.noOpen);
    ChildParsesSameIff(raw, SERVE);
  }
}
