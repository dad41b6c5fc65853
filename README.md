# Tweek.JPad.Cli: the `calc` context pipeline and the command outcomes

`jpad-cli` loads a JPad rule file, hands it to the JPad rule compiler, and either
validates it (`compile`) or evaluates it against a context given on the command
line (`calc <file> -c key=value ...`). This project models the tool's own logic:

- `ContextRegex` (`context_regex.dfy`): how one `-c` token is split by the
  pattern `(.+?)=(.+)`. The match is unanchored, and the engine reports the
  leftmost start position, then the shortest key (the lazy group), then the
  longest value (the greedy group). `.` matches any character except a line
  feed. When nothing matches, both groups read as `""`. `IsReportedMatch` is the
  declarative definition of that match, and `Match` computes it by scanning.
- `Context` (`context.dfy`): how the pairs become the case-insensitive
  dictionary of `ToDictionary(..., StringComparer.OrdinalIgnoreCase)`. A map is
  keyed by folded keys and every value is a JSON string. `Lookup` is
  `TryGetValue` as an option, and `LookupIn` is the lookup function the
  evaluator receives.
- `Json` (`json.dfy`): the JSON values and `OrNull`, the `IfNone(() => JsonValue.Null)` default.
- `Commands` (`commands.dfy`): what `compile` and `calc` write and return.
  The rule compiler is a parameter `parse` (no evaluator when parsing throws).
  The compiled evaluator is a parameter `invoke`. The rule file is its text,
  or none when it cannot be read.

Behaviour modelled as `Program.cs` has it:

- A key that repeats an earlier one ignoring case makes `ToDictionary` throw.
  Nothing catches that exception, so `calc` ends with an unhandled exception
  (`Crash`). The last value does not win.
- A token the pattern does not match is not rejected. It gives the key `""`
  and the value `""`, so two such tokens are a duplicate key.
- `File.ReadAllText` sits outside the `try` block. An unreadable rule file
  therefore ends either command with an unhandled exception, not with exit
  code 1.
- The context is built in full before the evaluator runs. A duplicate key
  therefore fails `calc` even when the rule never reads that key.

## Model

| member | source | states |
|---|---|---|
| `ContextRegex.DotRunEnd` | Tweek.JPad.Cli/Program.cs:83 | the greedy value group runs over `.` characters only and stops at a line feed or at the end of the token |
| `ContextRegex.LazyKeyEnd` | Tweek.JPad.Cli/Program.cs:83 | the lazy key group ends at the first `=` that is followed by a `.` character, with every key character a `.`, and no earlier position qualifies |
| `ContextRegex.IsReportedMatch` | Tweek.JPad.Cli/Program.cs:83 | declarative definition of the match the engine reports: `key=value` with both groups made of `.` characters, no match at an earlier start, no shorter key at that start and no longer value after that key; `MatchCharacterized` ties it to `Match` |
| `ContextRegex.MatchFrom` | Tweek.JPad.Cli/Program.cs:83-86 | start positions are tried leftmost first; the result is a match with no match at an earlier start, no shorter key and no longer value; none means no match starts at or after p |
| `ContextRegex.Match` | Tweek.JPad.Cli/Program.cs:83-86 | the result is the reported (leftmost, lazy, greedy) match, and none exactly when the pattern matches nowhere |
| `ContextRegex.MatchCharacterized` | Tweek.JPad.Cli/Program.cs:83-86 | Match returns m if and only if m is the reported match, so the reported match is unique |
| `ContextRegex.SplitToken` | Tweek.JPad.Cli/Program.cs:86-87 | the groups are exactly the key and the value of the reported match, and both are `""` when the pattern matches nowhere; the key is non-empty iff the value is non-empty iff the pattern matches; neither group holds a line feed; the matched text is key, `=`, value |
| `ContextRegex.SplitAtFirstEquals` | Tweek.JPad.Cli/Program.cs:83-87 | for a token without line feeds, the key is the prefix before the first `=` at index 1 or later that has a character after it, and the value is the unchanged rest, further `=` included |
| `ContextRegex.NoSplitWithoutUsableEquals` | Tweek.JPad.Cli/Program.cs:86-87 | a token without line feeds and without such an `=` yields key `""` and value `""` |
| `ContextRegex.SplitJoined` | Tweek.JPad.Cli/Program.cs:83-87 | splitting `key=value` gives back key and value when neither is empty or holds a line feed and the key has no `=` after its first character |
| `ContextRegex.SplitWellFormedExample` | Tweek.JPad.Cli/Program.cs:83-87 | `country=IL` splits into `country` and `IL` |
| `ContextRegex.SplitKeepsLaterEqualsExample` | Tweek.JPad.Cli/Program.cs:83-87 | `a=b=c` splits into `a` and `b=c` |
| `ContextRegex.SplitLeadingEqualsExample` | Tweek.JPad.Cli/Program.cs:83-87 | `=a=b` splits into `=a` and `b`: a leading `=` belongs to the key |
| `ContextRegex.SplitMalformedExamples` | Tweek.JPad.Cli/Program.cs:86-87 | `a=`, `=` and `abc` do not match and give two empty groups |
| `ContextRegex.LineFeedBeforeKeyExample` | Tweek.JPad.Cli/Program.cs:83-87 | the match is unanchored and the key cannot hold a line feed: `x\nk=v` gives `k` and `v` |
| `ContextRegex.LineFeedAfterValueExample` | Tweek.JPad.Cli/Program.cs:83-87 | the greedy value stops at a line feed: `k=v\nx` gives `k` and `v` |
| `ContextRegex.LineFeedAfterEqualsExample` | Tweek.JPad.Cli/Program.cs:83-87 | a value cannot start with a line feed: `k=\nv` does not match and gives two empty groups |
| `Context.FoldChar` | Tweek.JPad.Cli/Program.cs:88 | a folded character is never a lower-case letter; it is the character itself exactly when that is not a lower-case letter, and otherwise the upper-case letter 32 code points below |
| `Context.Fold` | Tweek.JPad.Cli/Program.cs:88 | case folding keeps the length and folds each character on its own |
| `Context.EqualsIgnoringCase` | Tweek.JPad.Cli/Program.cs:88 | two keys are equal ignoring case iff they have the same length and agree character by character after folding |
| `Context.FoldIdempotent` | Tweek.JPad.Cli/Program.cs:88 | folding a folded key changes nothing |
| `Context.Add` | Tweek.JPad.Cli/Program.cs:88 | adding a pair fails, naming the pair's key, iff a stored key equals it ignoring case; otherwise the folded key is added with the JSON string of the value and every other entry is kept |
| `Context.ToDictionary` | Tweek.JPad.Cli/Program.cs:88 | construction succeeds iff no two keys are equal ignoring case; then the keys are exactly the folded keys and each holds the JSON string of its pair's value |
| `Context.ToDictionaryNamesFirstDuplicate` | Tweek.JPad.Cli/Program.cs:88 | on failure the exception names the key of the first pair that repeats an earlier key ignoring case |
| `Context.ParseContext` | Tweek.JPad.Cli/Program.cs:85-88 | the context is built iff no two tokens give keys equal ignoring case; then its keys are exactly the folded keys of the tokens and each holds the JSON string of its token's value group |
| `Context.Lookup` | Tweek.JPad.Cli/Program.cs:90 | `TryGetValue` finds a value iff some stored key equals the requested one ignoring case, and then it is that key's value |
| `Context.LookupIn` | Tweek.JPad.Cli/Program.cs:90 | the lookup handed to the evaluator gives the same answer for every casing of a key and finds every stored key's value |
| `Context.TwoMalformedTokensClash` | Tweek.JPad.Cli/Program.cs:85-88 | two tokens that give the empty key make construction fail |
| `Context.LookupAnyCasing` | Tweek.JPad.Cli/Program.cs:88-90 | any casing of a supplied key looks up that token's value as a JSON string |
| `Context.LookupMissing` | Tweek.JPad.Cli/Program.cs:88-90 | a lookup gives none iff no token supplied the key in any casing |
| `Context.ValuesAreStrings` | Tweek.JPad.Cli/Program.cs:88 | every stored value is the JSON string of some token's value group, with no coercion |
| `Context.JoinedTokensRoundTrip` | Tweek.JPad.Cli/Program.cs:83-90 | tokens joined from well-formed keys distinct ignoring case build a context where every casing of each key finds its value |
| `Context.CaseInsensitiveLookupExample` | Tweek.JPad.Cli/Program.cs:85-90 | `-c Foo=1` is found again as `FOO` |
| `Context.LookupSingleToken` | Tweek.JPad.Cli/Program.cs:85-90 | a single token always builds a context, and any casing of its key looks up its value as a JSON string |
| `Context.SecondOfTwoClashes` | Tweek.JPad.Cli/Program.cs:85-88 | of two tokens whose keys are equal ignoring case, the second makes construction fail with an error naming its key |
| `Context.CaseInsensitiveDuplicateExample` | Tweek.JPad.Cli/Program.cs:85-88 | `-c a=1 -c A=2` fails with a duplicate-key error naming `A` |
| `Json.OrNull` | Tweek.JPad.Cli/Program.cs:92 | null is printed exactly when the evaluator gave no value or gave JSON null; any other printed value is the one the evaluator gave |
| `Commands.CompileRule` | Tweek.JPad.Cli/Program.cs:98-111 | an evaluator comes back iff the file is read and the parser succeeds; a parse exception yields no evaluator, and a read failure is not caught |
| `Commands.CompileCommand` | Tweek.JPad.Cli/Program.cs:59-65 | `compile` prints `OK` and returns 0 iff the rule compiles; otherwise it prints the invalid-rule message and returns 1, or crashes when the file cannot be read |
| `Commands.CalcCommand` | Tweek.JPad.Cli/Program.cs:78-95 | `calc` returns 1 after a parse failure; it crashes on an unreadable file or a duplicate key; otherwise it returns 0 after printing the evaluator's value on the case-insensitive context lookup, or null |
| `Commands.CalcFailsBeforeContext` | Tweek.JPad.Cli/Program.cs:80-85 | when the rule does not compile, `calc` does not depend on the tokens and ends as `compile` does |
| `Commands.CalcSucceedsOnlyIfCompileDoes` | Tweek.JPad.Cli/Program.cs:59-81 | a successful `calc` implies that `compile` on the same file prints `OK` and returns 0 |
| `Commands.CountrySuppliedScenario` | Tweek.JPad.Cli/Program.cs:85-92 | with a rule that reads `country`, `-c <any casing of country>=v` prints the JSON string v and returns 0 |
| `Commands.CountryMissingScenario` | Tweek.JPad.Cli/Program.cs:85-92 | the same rule with no context prints null and returns 0 |

## Left out

- The SHA-1 hash provider (Program.cs:34-40) is a call into the .NET cryptography library.
- The `version` comparer (Program.cs:42-45) is `System.Version.Parse` from the .NET library.
- The parser settings and parser construction (Program.cs:47-49) are left out. The JPad compiler and its evaluator are an external F# library, so they are the parameters `parse` and `invoke`.
- `CommandLineApplication` wiring, command registration, help options and descriptions (Program.cs:19-30, 52-57, 68-76) are command-line plumbing.
- Console colour (Program.cs:107) is output styling and is not modelled.
- The text `Console.WriteLine` makes of a JSON value is not modelled. That text comes from the JSON library, so a printed line is modelled as the value itself.
- Exceptions raised inside the evaluator (for example by a comparer) are not modelled. `invoke` always returns.
- A missing file argument is modelled as an unreadable file, because both throw from `File.ReadAllText`.
- Context.Fold: folds ASCII letters only. The Unicode case mapping of `OrdinalIgnoreCase` is not modelled.
- Context.ToDictionary: the dictionary is keyed by folded keys, so the original casing of a stored key is not kept. The tool never reads stored keys back, only `TryGetValue`.
- `JNumber` holds one unbounded real, so the JSON library's separate integer-or-decimal and floating-point number cases are not told apart. Context values are always strings, and the evaluator is a parameter, so no modelled operation depends on that distinction.
