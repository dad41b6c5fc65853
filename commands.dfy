/** The `compile` and `calc` command handlers. The rule compiler and the
    compiled evaluator are external; they enter as parameters: `parse` gives
    the evaluator for a rule text, or none when parsing throws, and `invoke`
    runs an evaluator against a context lookup. The rule file enters as its
    text, or none when it cannot be read. */
module Commands {
  import opened Wrappers
  import opened Json
  import opened Context
  import opened ContextRegex

  /** The line the compile helper writes when the rule does not parse. */
  const InvalidRuleMessage: string := "jpad is not valid"

  /** The line `compile` writes on success. */
  const OkMessage: string := "OK"

  /** One line written to standard output. */
  datatype Line = Text(text: string) | Value(json: JsonValue)

  /** An exception no handler catches. */
  datatype Fault = FileUnreadable | DuplicateContextKey(key: string)

  /** How a command ends: with an exit code, or by an unhandled exception. */
  datatype Outcome = Exit(output: seq<Line>, code: int) | Crash(output: seq<Line>, fault: Fault)

  /** What the compile helper yields: the evaluator, null after a parse
      exception (with the message written), or an exception from reading the
      file, which its try block does not cover. */
  datatype Compiled<E> = Compiled(evaluator: E) | Invalid | ReadFailed

  function CompileRule<E>(file: Option<string>, parse: string -> Option<E>): (c: Compiled<E>)
    ensures c.Compiled? <==> file.Some? && parse(file.value).Some?
    ensures c.Compiled? ==> c.evaluator == parse(file.value).value
    ensures c.ReadFailed? <==> file.None?
  {
    match file
    case None => ReadFailed
    case Some(rule) =>
      match parse(rule)
      case Some(e) => Compiled(e)
      case None => Invalid
  }

  /** The `compile` command: OK and exit code 0 when the rule compiles, the
      invalid-rule message and exit code 1 when it does not. */
  function CompileCommand<E>(file: Option<string>, parse: string -> Option<E>): (r: Outcome)
    ensures r.Exit? <==> file.Some?
    ensures r.Exit? ==> (r.code == 0 <==> parse(file.value).Some?)
    ensures r.Exit? && r.code == 0 ==> r.output == [Text(OkMessage)]
    ensures r.Exit? && r.code != 0 ==> r.code == 1 && r.output == [Text(InvalidRuleMessage)]
    ensures r.Crash? ==> r.fault == FileUnreadable && r.output == []
  {
    match CompileRule(file, parse)
    case ReadFailed => Crash([], FileUnreadable)
    case Invalid => Exit([Text(InvalidRuleMessage)], 1)
    case Compiled(_) => Exit([Text(OkMessage)], 0)
  }

  /** The `calc` command: compile, build the context from the `-c` tokens,
      evaluate once, and print the value or null. */
  function CalcCommand<E>(file: Option<string>, parse: string -> Option<E>,
                          invoke: (E, string -> Option<JsonValue>) -> Option<JsonValue>,
                          tokens: seq<string>): (r: Outcome)
    ensures file.Some? && parse(file.value).None? ==>
      r == Exit([Text(InvalidRuleMessage)], 1)
    ensures file.None? ==> r == Crash([], FileUnreadable)
    ensures r.Exit? && r.code == 0 <==>
      file.Some? && parse(file.value).Some? && ParseContext(tokens).Ok?
    ensures file.Some? && parse(file.value).Some? && ParseContext(tokens).Err? ==>
      r == Crash([], DuplicateContextKey(ParseContext(tokens).error.key))
    ensures r.Exit? && r.code == 0 ==>
      r.output == [Value(OrNull(invoke(parse(file.value).value, LookupIn(ParseContext(tokens).value))))]
  {
    match CompileRule(file, parse)
    case ReadFailed => Crash([], FileUnreadable)
    case Invalid => Exit([Text(InvalidRuleMessage)], 1)
    case Compiled(evaluator) =>
      match ParseContext(tokens)
      case Err(DuplicateKey(key)) => Crash([], DuplicateContextKey(key))
      case Ok(ctx) => Exit([Value(OrNull(invoke(evaluator, LookupIn(ctx))))], 0)
  }

  /** No context is parsed before the rule compiles: when it does not, the
      outcome is the same whatever the tokens, duplicates included, and it is
      the `compile` command's outcome. */
  lemma CalcFailsBeforeContext<E>(file: Option<string>, parse: string -> Option<E>,
                                  invoke: (E, string -> Option<JsonValue>) -> Option<JsonValue>,
                                  tokens1: seq<string>, tokens2: seq<string>)
    requires !CompileRule(file, parse).Compiled?
    ensures CalcCommand(file, parse, invoke, tokens1) == CalcCommand(file, parse, invoke, tokens2)
    ensures CalcCommand(file, parse, invoke, tokens1) == CompileCommand(file, parse)
  {
  }

  /** `calc` and `compile` agree on whether the rule is valid. */
  lemma CalcSucceedsOnlyIfCompileDoes<E>(file: Option<string>, parse: string -> Option<E>,
                                         invoke: (E, string -> Option<JsonValue>) -> Option<JsonValue>,
                                         tokens: seq<string>)
    ensures CalcCommand(file, parse, invoke, tokens).Exit? && CalcCommand(file, parse, invoke, tokens).code == 0
      ==> CompileCommand(file, parse) == Exit([Text(OkMessage)], 0)
  {
  }

  /** A stand-in compiler that accepts every rule. */
  function AcceptAll(rule: string): Option<int>
  {
    Some(0)
  }

  /** A stand-in evaluator whose rule returns the context value of `country`. */
  function CountryRule(evaluator: int, lookup: string -> Option<JsonValue>): Option<JsonValue>
  {
    lookup("country")
  }

  /** `calc -c <key>=<value>`, with the key any casing of `country`, prints
      the value as a JSON string. */
  lemma CountrySuppliedScenario(key: string, value: string)
    requires EqualsIgnoringCase(key, "country")
    requires value != "" && '\n' !in value
    ensures CalcCommand(Some("rule"), AcceptAll, CountryRule, [key + "=" + value])
            == Exit([Value(JString(value))], 0)
  {
    assert forall k :: 0 <= k < |key| ==> 'a' <= FoldChar(key[k]) <= 'z' || 'A' <= FoldChar(key[k]) <= 'Z';
    SplitJoined(key, value);
    LookupAnyCasing([key + "=" + value], 0, "country");
  }

  /** `calc` with no context prints null. */
  lemma CountryMissingScenario()
    ensures CalcCommand(Some("rule"), AcceptAll, CountryRule, []) == Exit([Value(JNull)], 0)
  {
    assert SplitAll([]) == [];
    assert ToDictionary([]) == Ok(map[]);
  }
}
