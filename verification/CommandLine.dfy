/** Option parsing of the command line, and of its `serve` command. */
module CommandLine {
  import opened Wrappers
  import opened Text

  datatype OptionValue = Value(text: string) | Flag(on: bool)

  datatype Parsed = Parsed(options: map<string, OptionValue>, positionals: seq<string>)

  datatype UsageError = UnknownOption | MissingValue | UnexpectedValue | TooManyPositionals | OtherCommand

  /** `optionKey`: kebab case to camel case. */
  function OptionKey(name: string): string {
    if name == "" then ""
    else if name[0] == '-' && |name| > 1 && 'a' <= name[1] <= 'z' then
      [(name[1] as int - 32) as char] + OptionKey(name[2..])
    else [name[0]] + OptionKey(name[1..])
  }

  /** A token's option name and inline value; the token starts with two dashes. */
  function OptionName(token: string): string
    requires IsPrefix("--", token)
  {
    var separator := IndexOf(token, "=");
    if separator < 2 then token[2..] else token[2..separator]
  }

  function InlineValue(token: string): Option<string> {
    var separator := IndexOf(token, "=");
    if separator == -1 then None else Some(token[separator + 1..])
  }

  /** The option a flag sets: `--no-x` turns `x` off. */
  function FlagKey(name: string): string {
    if IsPrefix("no-", name) then OptionKey(name[3..]) else OptionKey(name)
  }

  function SetFlag(options: map<string, OptionValue>, name: string): map<string, OptionValue> {
    options[FlagKey(name) := Flag(!IsPrefix("no-", name))]
  }

  /** The loop of `parseOptions` from some token on. */
  function Parse(tokens: seq<string>, so: Parsed, positionalOnly: bool, values: seq<string>, flags: seq<string>)
    : Result<Parsed, UsageError>
    decreases |tokens|
  {
    if tokens == [] then Success(so)
    else
      var token, rest := tokens[0], tokens[1..];
      if !positionalOnly && token == "--" then Parse(rest, so, true, values, flags)
      else if positionalOnly || !IsPrefix("-", token) then
        Parse(rest, so.(positionals := so.positionals + [token]), positionalOnly, values, flags)
      else if !IsPrefix("--", token) then Failure(UnknownOption)
      else
        var name, inline := OptionName(token), InlineValue(token);
        if name in values then
          if inline.Some? then
            Parse(rest, so.(options := so.options[OptionKey(name) := Value(inline.value)]), false, values, flags)
          else if rest == [] || IsPrefix("--", rest[0]) then Failure(MissingValue)
          else Parse(rest[1..], so.(options := so.options[OptionKey(name) := Value(rest[0])]), false, values, flags)
        else if name in flags then
          if inline.Some? then Failure(UnexpectedValue)
          else Parse(rest, so.(options := SetFlag(so.options, name)), false, values, flags)
        else Failure(UnknownOption)
  }

  const NOTHING := Parsed(map[], [])

  /** `parseOptions`, with its index loop. */
  method ParseOptions(tokens: seq<string>, values: seq<string>, flags: seq<string>)
    returns (r: Result<Parsed, UsageError>)
    ensures r == Parse(tokens, NOTHING, false, values, flags)
  {
    var options: map<string, OptionValue> := map[];
    var positionals: seq<string> := [];
    var positionalOnly := false;
    var index := 0;
    while index < |tokens|
      invariant 0 <= index <= |tokens|
      invariant Parse(tokens[index..], Parsed(options, positionals), positionalOnly, values, flags) ==
                Parse(tokens, NOTHING, false, values, flags)
    {
      var token := tokens[index];
      assert tokens[index..][1..] == tokens[index + 1..];
      if positionalOnly {
        positionals := positionals + [token];
      } else if token == "--" {
        positionalOnly := true;
      } else if !IsPrefix("-", token) {
        positionals := positionals + [token];
      } else if !IsPrefix("--", token) {
        return Failure(UnknownOption);
      } else {
        var name, inline := OptionName(token), InlineValue(token);
        if name in values {
          if inline.None? && (index + 1 == |tokens| || IsPrefix("--", tokens[index + 1])) {
            return Failure(MissingValue);
          }
          var value := if inline.Some? then inline.value else tokens[index + 1];
          if inline.None? {
            assert tokens[index..][1..][1..] == tokens[index + 2..];
            index := index + 1;
          }
          options := options[OptionKey(name) := Value(value)];
        } else if name in flags {
          if inline.Some? { return Failure(UnexpectedValue); }
          options := SetFlag(options, name);
        } else {
          return Failure(UnknownOption);
        }
      }
      index := index + 1;
    }
    return Success(Parsed(options, positionals));
  }

  /** A command's options, and the names and keys of the three flags that detaching is about. */
  datatype Vocabulary = Vocabulary(
    values: seq<string>, flags: seq<string>,
    detach: string, foreground: string, noOpen: string,
    detachKey: string, foregroundKey: string, openKey: string)

  const SERVE := Vocabulary(
    ["name", "management-port", "s3-port", "host", "public-url", "dashboard-url"],
    ["detach", "tunnel", "no-tunnel", "offline", "no-open", "no-credentials", "internal-foreground"],
    "detach", "internal-foreground", "no-open",
    "detach", "internalForeground", "open")

  predicate AsksForHelp(raw: seq<string>) {
    "--help" in raw || "-h" in raw
  }

  /** `parseCLIArgs` as far as it yields a serve command. */
  function ParseServe(raw: seq<string>, v: Vocabulary): Result<Parsed, UsageError> {
    if raw == [] || AsksForHelp(raw) then Failure(OtherCommand)
    else if Lower(raw[0]) != "serve" && Lower(raw[0]) != "start" then Failure(OtherCommand)
    else
      var parsed :- Parse(raw[1..], NOTHING, false, v.values, v.flags);
      if |parsed.positionals| > 1 then Failure(TooManyPositionals) else Success(parsed)
  }
}
