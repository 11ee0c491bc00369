/** What a list of option tokens means, and that the parser reads exactly that meaning off it. */
module OptionSyntax {
  import opened Wrappers
  import opened Text
  import opened CommandLine

  /** One thing a command line says. */
  datatype Item =
    | Setting(name: string, text: string, inline: bool)
    | TurnOn(name: string)
    | TurnOff(name: string)
    | Positional(text: string)

  /** How it is written: a setting as `--name=text` or as `--name text`. */
  function Tokens(item: Item): seq<string> {
    match item
    case Setting(name, text, inline) => if inline then ["--" + name + "=" + text] else ["--" + name, text]
    case TurnOn(name) => ["--" + name]
    case TurnOff(name) => ["--no-" + name]
    case Positional(text) => [text]
  }

  /** It can be written, and belongs to a command with these options. */
  predicate Legal(item: Item, values: seq<string>, flags: seq<string>) {
    match item
    case Setting(name, text, inline) =>
      '=' !in name && name in values && (inline || (name != "" && !IsPrefix("--", text)))
    case TurnOn(name) =>
      '=' !in name && name != "" && name in flags && name !in values && !IsPrefix("no-", name)
    case TurnOff(name) =>
      '=' !in name && "no-" + name in flags && "no-" + name !in values
    case Positional(text) => !IsPrefix("-", text)
  }

  /** A word after a dash: its first letter is made a capital, or the dash stays if it has none. */
  function Capital(word: string): string {
    if word != "" && 'a' <= word[0] <= 'z' then [(word[0] as int - 32) as char] + word[1..] else "-" + word
  }

  function Capitals(words: seq<string>): string {
    if words == [] then "" else Capital(words[0]) + Capitals(words[1..])
  }

  /** The key of an option: the words of its name, put together in camel case. */
  function Key(name: string): string {
    var words := Split(name, '-');
    words[0] + Capitals(words[1..])
  }

  lemma KeyOfLetter(name: string)
    requires name != "" && name[0] != '-'
    ensures Key(name) == [name[0]] + Key(name[1..])
  {
    var words := Split(name[1..], '-');
    assert Split(name, '-') == [[name[0]] + words[0]] + words[1..];
    assert Split(name, '-')[1..] == words[1..];
    ConcatAssociates([name[0]], words[0], Capitals(words[1..]));
  }

  lemma KeyOfDash(name: string)
    requires name != "" && name[0] == '-'
    ensures Key(name) == Capitals(Split(name[1..], '-'))
  {
    assert Split(name, '-') == [""] + Split(name[1..], '-');
    assert Split(name, '-')[1..] == Split(name[1..], '-');
  }

  lemma CapitalsFirst(c: char, word: string, more: seq<string>)
    requires 'a' <= c <= 'z'
    ensures Capitals([[c] + word] + more) == [(c as int - 32) as char] + (word + Capitals(more))
  {
    var all := [[c] + word] + more;
    assert all[1..] == more && all[0] == [c] + word && all[0][1..] == word;
    ConcatAssociates([(c as int - 32) as char], word, Capitals(more));
  }

  lemma CapitalsOfLetter(rest: string)
    requires rest != "" && 'a' <= rest[0] <= 'z'
    ensures Capitals(Split(rest, '-')) == [(rest[0] as int - 32) as char] + Key(rest[1..])
  {
    var words := Split(rest[1..], '-');
    CapitalsFirst(rest[0], words[0], words[1..]);
  }

  lemma CapitalsOfOther(rest: string)
    requires rest != "" ==> !('a' <= rest[0] <= 'z')
    ensures Capitals(Split(rest, '-')) == ['-'] + Key(rest)
  {
    var words := Split(rest, '-');
    assert words[0] == "" || words[0][0] == rest[0];
    assert Capital(words[0]) == ['-'] + words[0];
    ConcatAssociates(['-'], words[0], Capitals(words[1..]));
  }

  lemma {:induction false} KeyIsOptionKey(name: string)
    ensures OptionKey(name) == Key(name)
  {
    if name == "" {
    } else if name[0] != '-' {
      KeyOfLetter(name);
      KeyIsOptionKey(name[1..]);
    } else {
      KeyOfDash(name);
      var rest := name[1..];
      if rest != "" && 'a' <= rest[0] <= 'z' {
        assert rest[1..] == name[2..];
        CapitalsOfLetter(rest);
        KeyIsOptionKey(name[2..]);
      } else {
        CapitalsOfOther(rest);
        KeyIsOptionKey(rest);
      }
    }
  }

  function Texts(items: seq<Item>): seq<string> {
    if items == [] then []
    else (if items[0].Positional? then [items[0].text] else []) + Texts(items[1..])
  }

  predicate Sets(item: Item, key: string) {
    !item.Positional? && Key(item.name) == key
  }

  function Meaning(item: Item): OptionValue
    requires !item.Positional?
  {
    match item
    case Setting(_, text, _) => Value(text)
    case TurnOn(_) => Flag(true)
    case TurnOff(_) => Flag(false)
  }

  /** The map holds what the last item with each key says, and nothing else. */
  ghost predicate Denotes(items: seq<Item>, options: map<string, OptionValue>) {
    && (forall key :: key in options ==> exists i :: 0 <= i < |items| && Sets(items[i], key))
    && forall i :: 0 <= i < |items| && !items[i].Positional? && LastWithKey(items, i) ==>
         Key(items[i].name) in options && options[Key(items[i].name)] == Meaning(items[i])
  }

  predicate LastWithKey(items: seq<Item>, i: nat)
    requires i < |items| && !items[i].Positional?
  {
    forall j :: i < j < |items| ==> !Sets(items[j], Key(items[i].name))
  }

  function Render(items: seq<Item>): seq<string> {
    if items == [] then [] else Tokens(items[0]) + Render(items[1..])
  }

  /** The items, and after a `--` the texts that are positional whatever they look like. */
  function Written(items: seq<Item>, last: Option<seq<string>>): seq<string> {
    Render(items) + match last case None => [] case Some(texts) => ["--"] + texts
  }

  function Positionals(items: seq<Item>, last: Option<seq<string>>): seq<string> {
    Texts(items) + match last case None => [] case Some(texts) => texts
  }

  predicate AllLegal(items: seq<Item>, values: seq<string>, flags: seq<string>) {
    forall i :: 0 <= i < |items| ==> Legal(items[i], values, flags)
  }

  // ---------- one item ----------

  function After(so: Parsed, item: Item): Parsed {
    if item.Positional? then so.(positionals := so.positionals + [item.text])
    else so.(options := so.options[Key(item.name) := Meaning(item)])
  }

  lemma NameAndText(name: string, text: string)
    requires '=' !in name
    ensures OptionName("--" + name + "=" + text) == name
    ensures InlineValue("--" + name + "=" + text) == Some(text)
  {
    var token := "--" + name + "=" + text;
    assert token[2 + |name|] == '=' && token[2..2 + |name|] == name && token[3 + |name|..] == text;
    forall i: nat | i < 2 + |name| ensures !OccursAt("=", token, i) {
      if i >= 2 { assert token[i] == name[i - 2]; }
      assert token[i] != '=';
      assert token[i..i + 1][0] == token[i];
    }
    assert token[2 + |name|..3 + |name|] == "=";
    FirstAt(token, "=", 2 + |name|);
  }

  lemma NameAlone(name: string)
    requires '=' !in name
    ensures OptionName("--" + name) == name && InlineValue("--" + name).None?
  {
    var token := "--" + name;
    forall i: nat ensures !OccursAt("=", token, i) {
      if i + 1 <= |token| {
        if i >= 2 { assert token[i] == name[i - 2]; }
        assert token[i] != '=';
        assert token[i..i + 1][0] == token[i];
      }
    }
  }

  /** The parser reads one legal item off the front. */
  lemma ReadsItem(item: Item, rest: seq<string>, so: Parsed, values: seq<string>, flags: seq<string>)
    requires Legal(item, values, flags)
    ensures Parse(Tokens(item) + rest, so, false, values, flags) == Parse(rest, After(so, item), false, values, flags)
  {
    var tokens := Tokens(item) + rest;
    match item
    case Positional(text) =>
      assert tokens[1..] == rest;
    case TurnOn(name) =>
      ReadsTurnOn(name, rest, so, values, flags);
    case TurnOff(name) =>
      ReadsTurnOff(name, rest, so, values, flags);
    case Setting(name, text, inline) =>
      ReadsSetting(name, text, inline, rest, so, values, flags);
  }

  lemma ReadsTurnOn(name: string, rest: seq<string>, so: Parsed, values: seq<string>, flags: seq<string>)
    requires Legal(TurnOn(name), values, flags)
    ensures Parse(["--" + name] + rest, so, false, values, flags) ==
            Parse(rest, so.(options := so.options[Key(name) := Flag(true)]), false, values, flags)
  {
    var tokens := ["--" + name] + rest;
    assert tokens[1..] == rest;
    NameAlone(name);
    KeyIsOptionKey(name);
  }

  lemma ReadsTurnOff(name: string, rest: seq<string>, so: Parsed, values: seq<string>, flags: seq<string>)
    requires Legal(TurnOff(name), values, flags)
    ensures Parse(["--no-" + name] + rest, so, false, values, flags) ==
            Parse(rest, so.(options := so.options[Key(name) := Flag(false)]), false, values, flags)
  {
    var full := "no-" + name;
    var tokens := ["--no-" + name] + rest;
    assert tokens[1..] == rest && "--no-" + name == "--" + full && full[3..] == name && IsPrefix("no-", full);
    NameAlone(full);
    KeyIsOptionKey(name);
  }

  lemma ReadsSetting(name: string, text: string, inline: bool, rest: seq<string>, so: Parsed, values: seq<string>,
                     flags: seq<string>)
    requires Legal(Setting(name, text, inline), values, flags)
    ensures Parse(Tokens(Setting(name, text, inline)) + rest, so, false, values, flags) ==
            Parse(rest, so.(options := so.options[Key(name) := Value(text)]), false, values, flags)
  {
    var tokens := Tokens(Setting(name, text, inline)) + rest;
    KeyIsOptionKey(name);
    if inline {
      assert tokens[1..] == rest;
      NameAndText(name, text);
    } else {
      assert tokens[1..] == [text] + rest && tokens[1..][1..] == rest;
      NameAlone(name);
    }
  }

  /** `--name=text` alone sets exactly this option's key, to exactly this text. */
  lemma InlineSets(name: string, text: string, values: seq<string>, flags: seq<string>)
    requires '=' !in name && name in values
    ensures Parse(["--" + name + "=" + text], NOTHING, false, values, flags) ==
            Success(Parsed(map[Key(name) := Value(text)], []))
  {
    var tokens := ["--" + name + "=" + text];
    ReadsItem(Setting(name, text, true), [], NOTHING, values, flags);
    assert tokens + [] == tokens;
  }

  /** A value given inline and one given as the next token are the same to every command that takes the option. */
  lemma SpellingsAgree(name: string, text: string, rest: seq<string>, so: Parsed, values: seq<string>,
                       flags: seq<string>)
    requires '=' !in name && name != "" && name in values && !IsPrefix("--", text)
    ensures Parse(["--" + name + "=" + text] + rest, so, false, values, flags) ==
            Parse(["--" + name, text] + rest, so, false, values, flags)
  {
    ReadsItem(Setting(name, text, true), rest, so, values, flags);
    ReadsItem(Setting(name, text, false), rest, so, values, flags);
  }

  // ---------- all items ----------

  function AfterAll(so: Parsed, items: seq<Item>): Parsed
    decreases items
  {
    if items == [] then so else AfterAll(After(so, items[0]), items[1..])
  }

  lemma {:induction false} ReadsItems(items: seq<Item>, rest: seq<string>, so: Parsed, values: seq<string>,
                                      flags: seq<string>)
    requires AllLegal(items, values, flags)
    ensures Parse(Render(items) + rest, so, false, values, flags) ==
            Parse(rest, AfterAll(so, items), false, values, flags)
  {
    if items == [] {
      assert [] + rest == rest;
    } else {
      assert Render(items) + rest == Tokens(items[0]) + (Render(items[1..]) + rest);
      ReadsItem(items[0], Render(items[1..]) + rest, so, values, flags);
      ReadsItems(items[1..], rest, After(so, items[0]), values, flags);
    }
  }

  lemma {:induction false} ReadsTexts(texts: seq<string>, so: Parsed, values: seq<string>, flags: seq<string>)
    ensures Parse(texts, so, true, values, flags) == Success(so.(positionals := so.positionals + texts))
  {
    if texts == [] {
      assert so.positionals + texts == so.positionals;
    } else {
      ReadsTexts(texts[1..], so.(positionals := so.positionals + [texts[0]]), values, flags);
      assert so.positionals + [texts[0]] + texts[1..] == so.positionals + texts;
    }
  }

  lemma {:induction false} PositionalsAfterAll(items: seq<Item>, so: Parsed)
    ensures AfterAll(so, items).positionals == so.positionals + Texts(items)
  {
    if items == [] {
    } else {
      PositionalsAfterAll(items[1..], After(so, items[0]));
      var first := if items[0].Positional? then [items[0].text] else [];
      assert After(so, items[0]).positionals == so.positionals + first;
      assert so.positionals + first + Texts(items[1..]) == so.positionals + (first + Texts(items[1..]));
    }
  }

  /** A key no item sets is left alone. */
  lemma {:induction false} KeyKept(items: seq<Item>, so: Parsed, key: string)
    requires forall i :: 0 <= i < |items| ==> !Sets(items[i], key)
    ensures key in AfterAll(so, items).options <==> key in so.options
    ensures key in so.options ==> AfterAll(so, items).options[key] == so.options[key]
  {
    if items == [] {
    } else {
      assert !Sets(items[0], key);
      KeyKept(items[1..], After(so, items[0]), key);
    }
  }

  /** The last item with a key decides. */
  lemma {:induction false} LastDecides(items: seq<Item>, so: Parsed, i: nat)
    requires i < |items| && !items[i].Positional? && LastWithKey(items, i)
    ensures Key(items[i].name) in AfterAll(so, items).options
    ensures AfterAll(so, items).options[Key(items[i].name)] == Meaning(items[i])
  {
    if i == 0 {
      assert forall j :: 0 <= j < |items[1..]| ==> items[1..][j] == items[j + 1];
      KeyKept(items[1..], After(so, items[0]), Key(items[0].name));
    } else {
      assert forall j :: 0 <= j < |items[1..]| ==> items[1..][j] == items[j + 1];
      LastDecides(items[1..], After(so, items[0]), i - 1);
    }
  }

  lemma ItemsDenote(items: seq<Item>)
    ensures Denotes(items, AfterAll(NOTHING, items).options)
    ensures AfterAll(NOTHING, items).positionals == Texts(items)
  {
    var options := AfterAll(NOTHING, items).options;
    PositionalsAfterAll(items, NOTHING);
    forall key | key in options ensures exists i :: 0 <= i < |items| && Sets(items[i], key) {
      if forall i :: 0 <= i < |items| ==> !Sets(items[i], key) {
        KeyKept(items, NOTHING, key);
        assert false;
      }
    }
    forall i | 0 <= i < |items| && !items[i].Positional? && LastWithKey(items, i)
      ensures Key(items[i].name) in options && options[Key(items[i].name)] == Meaning(items[i])
    {
      LastDecides(items, NOTHING, i);
    }
  }

  // ---------- main results ----------

  /** Writing down settings, flags and positionals in any order and parsing gives back what they say. */
  lemma WrittenThenParsed(items: seq<Item>, last: Option<seq<string>>, values: seq<string>, flags: seq<string>)
    requires AllLegal(items, values, flags)
    ensures var r := Parse(Written(items, last), NOTHING, false, values, flags);
            && r.Success? && Denotes(items, r.value.options)
            && r.value.positionals == Positionals(items, last)
  {
    ItemsDenote(items);
    var so := AfterAll(NOTHING, items);
    match last
    case None =>
      ReadsItems(items, [], NOTHING, values, flags);
      assert Texts(items) + [] == Texts(items);
    case Some(texts) =>
      ReadsItems(items, ["--"] + texts, NOTHING, values, flags);
      assert (["--"] + texts)[1..] == texts;
      ReadsTexts(texts, so, values, flags);
  }

  lemma WrittenOneMore(item: Item, more: seq<Item>, last: Option<seq<string>>)
    ensures Written([item] + more, last) == Tokens(item) + Written(more, last)
  {
    assert ([item] + more)[1..] == more;
  }

  lemma LegalOneMore(item: Item, more: seq<Item>, values: seq<string>, flags: seq<string>)
    requires Legal(item, values, flags) && AllLegal(more, values, flags)
    ensures AllLegal([item] + more, values, flags)
  {}

  /** Whatever is accepted was written down that way. */
  lemma {:induction false} ParsedWasWritten(tokens: seq<string>, so: Parsed, values: seq<string>, flags: seq<string>)
    returns (items: seq<Item>, last: Option<seq<string>>)
    requires Parse(tokens, so, false, values, flags).Success?
    ensures AllLegal(items, values, flags) && tokens == Written(items, last)
    decreases |tokens|
  {
    if tokens == [] {
      items, last := [], None;
    } else if tokens[0] == "--" {
      items, last := [], Some(tokens[1..]);
      assert tokens == [] + (["--"] + tokens[1..]);
    } else {
      var item, rest := FirstItem(tokens, so, values, flags);
      var more;
      more, last := ParsedWasWritten(rest, After(so, item), values, flags);
      items := [item] + more;
      LegalOneMore(item, more, values, flags);
      WrittenOneMore(item, more, last);
    }
  }

  lemma FirstItem(tokens: seq<string>, so: Parsed, values: seq<string>, flags: seq<string>)
    returns (item: Item, rest: seq<string>)
    requires Parse(tokens, so, false, values, flags).Success? && tokens != [] && tokens[0] != "--"
    ensures Legal(item, values, flags) && tokens == Tokens(item) + rest && |rest| < |tokens|
    ensures Parse(rest, After(so, item), false, values, flags).Success?
  {
    var token := tokens[0];
    rest := tokens[1..];
    assert tokens == [token] + rest;
    if !IsPrefix("-", token) {
      item := Positional(token);
    } else {
      var name, inline := OptionName(token), InlineValue(token);
      TokenParts(token);
      if name in values && inline.Some? {
        item := Setting(name, inline.value, true);
      } else if name in values {
        item := Setting(name, tokens[1], false);
        rest := tokens[2..];
        assert tokens == [token, tokens[1]] + rest;
      } else {
        item := FlagItem(name, values, flags);
      }
    }
    ReadsItem(item, rest, so, values, flags);
  }

  lemma FlagItem(name: string, values: seq<string>, flags: seq<string>) returns (item: Item)
    requires '=' !in name && name != "" && name in flags && name !in values
    ensures Legal(item, values, flags) && Tokens(item) == ["--" + name]
  {
    if IsPrefix("no-", name) {
      item := TurnOff(name[3..]);
      assert name == "no-" + name[3..];
      assert "--" + name == "--no-" + name[3..];
    } else {
      item := TurnOn(name);
    }
  }

  lemma TokenParts(token: string)
    requires IsPrefix("--", token)
    ensures '=' !in OptionName(token)
    ensures InlineValue(token).None? ==> token == "--" + OptionName(token)
    ensures InlineValue(token).Some? ==> token == "--" + OptionName(token) + "=" + InlineValue(token).value
  {
    var at := IndexOf(token, "=");
    NoneBefore(token, at);
    assert token[..2] == "--";
    if at == -1 {
      assert token == token[..2] + token[2..];
    } else {
      assert token[at..at + 1] == "=" && token[at] == '=';
      assert at >= 2;
      assert token == token[..2] + token[2..at] + token[at..at + 1] + token[at + 1..];
    }
  }

  lemma NoneBefore(token: string, at: int)
    requires at == IndexOf(token, "=")
    ensures forall i :: 0 <= i < |token| && (at == -1 || i < at) ==> token[i] != '='
  {
    forall i | 0 <= i < |token| && token[i] == '=' ensures 0 <= at <= i {
      CharacterAt(token, "=", i);
    }
  }

  /** The accepted token lists are exactly those that write down legal items. */
  lemma AcceptedIff(tokens: seq<string>, values: seq<string>, flags: seq<string>)
    ensures Parse(tokens, NOTHING, false, values, flags).Success? <==>
            exists items, last :: AllLegal(items, values, flags) && tokens == Written(items, last)
  {
    if Parse(tokens, NOTHING, false, values, flags).Success? {
      var items, last := ParsedWasWritten(tokens, NOTHING, values, flags);
    }
    if items, last :| AllLegal(items, values, flags) && tokens == Written(items, last) {
      WrittenThenParsed(items, last, values, flags);
    }
  }

  /** A serve command is its name, in any case, and a written list of its options with at most one positional. */
  lemma ServeAcceptedIff(raw: seq<string>, v: Vocabulary)
    ensures ParseServe(raw, v) == Failure(TooManyPositionals) <==>
            && raw != [] && "--help" !in raw && "-h" !in raw && (Lower(raw[0]) == "serve" || Lower(raw[0]) == "start")
            && exists items, last :: && AllLegal(items, v.values, v.flags) && raw[1..] == Written(items, last)
                                     && |Positionals(items, last)| > 1
    ensures ParseServe(raw, v).Success? <==>
            && raw != [] && "--help" !in raw && "-h" !in raw && (Lower(raw[0]) == "serve" || Lower(raw[0]) == "start")
            && exists items, last :: && AllLegal(items, v.values, v.flags) && raw[1..] == Written(items, last)
                                     && |Positionals(items, last)| <= 1
  {
    if raw != [] {
      if Parse(raw[1..], NOTHING, false, v.values, v.flags).Success? {
        var items, last := ParsedWasWritten(raw[1..], NOTHING, v.values, v.flags);
        WrittenThenParsed(items, last, v.values, v.flags);
      }
      forall items, last | AllLegal(items, v.values, v.flags) && raw[1..] == Written(items, last)
        ensures Parse(raw[1..], NOTHING, false, v.values, v.flags).Success?
        ensures Parse(raw[1..], NOTHING, false, v.values, v.flags).value.positionals == Positionals(items, last)
      {
        WrittenThenParsed(items, last, v.values, v.flags);
      }
      ParseErrors(raw[1..], NOTHING, false, v.values, v.flags);
    }
  }

  /** The errors of the options themselves. */
  lemma {:induction false} ParseErrors(tokens: seq<string>, so: Parsed, positionalOnly: bool, values: seq<string>,
                                       flags: seq<string>)
    ensures var r := Parse(tokens, so, positionalOnly, values, flags);
            r.Failure? ==> r.error in {UnknownOption, MissingValue, UnexpectedValue}
    decreases |tokens|
  {
    if tokens == [] {
    } else {
      var token, rest := tokens[0], tokens[1..];
      if !positionalOnly && token == "--" {
        ParseErrors(rest, so, true, values, flags);
      } else if positionalOnly || !IsPrefix("-", token) {
        ParseErrors(rest, so.(positionals := so.positionals + [token]), positionalOnly, values, flags);
      } else if IsPrefix("--", token) {
        var name, inline := OptionName(token), InlineValue(token);
        if name in values && inline.Some? {
          ParseErrors(rest, so.(options := so.options[OptionKey(name) := Value(inline.value)]), false, values, flags);
        } else if name in values && rest != [] {
          ParseErrors(rest[1..], so.(options := so.options[OptionKey(name) := Value(rest[0])]), false, values, flags);
        } else {
          ParseErrors(rest, so.(options := SetFlag(so.options, name)), false, values, flags);
        }
      }
    }
  }
}
