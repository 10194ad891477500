# PropertiesResolver in Dafny

A model of the placeholder-resolution engine of `ca.cutterslade.utilities.PropertiesResolver`
and of the built-in function `BuiltinFunctions.ECHO` it dispatches to, with proofs about both.

The resolver holds an immutable source map of raw key/value pairs. It is built from one map,
or from a list of maps merged so that the first map holding a key wins. `getResolved` resolves
every key. Each `${...}` region of a raw value, found left to right, is replaced by:

- the resolved value of a referenced key;
- the default after `:` when the key is absent;
- the region text itself when the key is absent and there is no default;
- or the result of a computed call `${$name(arg,...)}`.

In a computed call, the arguments are split at every comma. A quoted argument `'text'` stands
for its text, and any other argument is resolved like a region body. The function is found
through the `Resolver` strategy chain; only `ECHO` exists, and it joins its arguments with
single spaces. Resolved values are memoised in the mutable `resolved` map. The mutable
`pending` set catches circular references.

Layout:

- `outcomes.dfy`: `Option`, and `Result` with an `Error` per exception the source throws, plus `Unresolved`, which the source never produces. `Unresolved` exists only for the proofs, which read expressions against a partial cache, and `KeyNeverUnresolved` proves that resolution never yields it.
- `sequences.dfy`: general facts about sequences that the proofs share.
- `builtin_functions.dfy`: `ECHO` as a loop (`EchoApply`) proved against a pure `Join`.
- `java_strings.dfy`: `String.split(",")` and `toUpperCase(Locale.US)` as functions.
- `patterns.dfy`: the three regular expressions written as exact scanners.
  - `FindRegion` and `Pieces` cover the find loop of `REPLACE_PATTERN`.
  - `Parse` and `Render` cover the groups of `REPLACE_KEY_PATTERN`.
  - `IsLiteral` covers `LITERAL_PATTERN`.
- `semantics.dfy`: a reference semantics without the cache.
  - `EvalKey(src, pending, key)` resolves a key recursively, failing on a pending key.
  - `EvalPieces`, `EvalReplacement`, `EvalCompute` and `EvalArgs` take an `Oracle` that answers key references. The oracle is either that recursion (`Stack`) or a cache map (`Cache`).
  - The strategy chain is `Strategy`, `Chain` and `Dispatch`.
- `resolution.dfy`: the class `PropertiesResolver`.
  - Fields: `source`, `resolved` and `pending`, plus a ghost `rank` that orders the cache entries.
  - Methods: the constructors, `GetResolved`, `GetValue`, `GetReplacement`, `GetComputedReplacement`, `ApplyComputeMethod` and `GetComputeMethod`.
  - Each method is proved to return exactly what the reference semantics gives, so memoisation never changes an answer, errors included.

Behaviour of the code worth knowing, all of it modelled:

- With duplicate keys, the first map of the list wins: the list is reversed and then copied in (`PropertiesResolver.java:47-55`).
- Arguments are split at every comma before literals are recognised, so `'x,y'` is two arguments, `'x` and `y'` (`:110-115`).
- Each argument that is not a literal goes through the expression grammar (`:118`). It may carry a default. It can never be a computed call or carry an argument list, because the argument text has no `$`, `(` or `)` (`ArgumentsArePlain`).
- An empty argument, from a leading or doubled comma, is malformed. An argument list of commas only passes no arguments at all, since `split` drops trailing empty pieces.
- A malformed expression always throws (`:86-87`).
- After an exception the failing key stays in `pending`, because there is no `finally` (`:69-78`).

## Model

| member | source | states |
|---|---|---|
| Resolution.PropertiesResolver.constructor | src/main/java/ca/cutterslade/utilities/PropertiesResolver.java:43-45 | the source is the given map; the cache and the pending set start empty; the invariant holds |
| Resolution.PropertiesResolver.FromSources | src/main/java/ca/cutterslade/utilities/PropertiesResolver.java:47-55 | the loop over the reversed list builds `Merged(sources)`; the cache and the pending set start empty |
| Resolution.MergedKeys | src/main/java/ca/cutterslade/utilities/PropertiesResolver.java:47-55 | a key is in the merged source exactly when some map of the list holds it |
| Resolution.MergedFirstWins | src/main/java/ca/cutterslade/utilities/PropertiesResolver.java:47-55 | a key's merged value is its value in the first map of the list that holds it |
| Resolution.PropertiesResolver.GetResolved | src/main/java/ca/cutterslade/utilities/PropertiesResolver.java:57-62 | on success the result is the cache, its keys are exactly the source keys, and each value is the key's uncached resolution and a fixpoint of substitution; on failure some key's resolution fails with that error, never the cache-only `Unresolved`; once every key is cached, a call returns the same map and changes nothing |
| Resolution.PropertiesResolver.GetValue | src/main/java/ca/cutterslade/utilities/PropertiesResolver.java:64-82 | the result is exactly `EvalKey(source, old(pending), key)`, whether cached or not, and never the cache-only `Unresolved` error; a cached key returns at once; a success caches the value and restores `pending`; the cache only grows |
| Resolution.PropertiesResolver.Evaluate | src/main/java/ca/cutterslade/utilities/PropertiesResolver.java:69-78 | a key neither cached nor pending is marked pending, substituted, cached and unmarked; its value is `EvalKey`; on failure it stays pending |
| Resolution.PropertiesResolver.Substitute | src/main/java/ca/cutterslade/utilities/PropertiesResolver.java:70-76 | the find/append loop returns the raw value with every region replaced, equal to the reference evaluation under both the recursion and the grown cache |
| Resolution.Commit | src/main/java/ca/cutterslade/utilities/PropertiesResolver.java:77-78 | caching a key's substituted value and removing it from `pending` restores the resolver invariant, and the value is the key's uncached resolution |
| Resolution.PropertiesResolver.GetReplacement | src/main/java/ca/cutterslade/utilities/PropertiesResolver.java:84-107 | the result is exactly the reference replacement of the expression: malformed, computed, key value, default, or the region as written |
| Resolution.PropertiesResolver.GetComputedReplacement | src/main/java/ca/cutterslade/utilities/PropertiesResolver.java:109-122 | the argument loop yields the reference values of the split arguments, the first failure ends it, and the function is applied to the values |
| Resolution.PropertiesResolver.GetArgument | src/main/java/ca/cutterslade/utilities/PropertiesResolver.java:112-120 | a literal argument gives its text, any other the reference replacement of it |
| Resolution.PropertiesResolver.ApplyComputeMethod | src/main/java/ca/cutterslade/utilities/PropertiesResolver.java:124-128 | the function found for the name, applied to the values, or the default when its result is null |
| Resolution.PropertiesResolver.GetComputeMethod | src/main/java/ca/cutterslade/utilities/PropertiesResolver.java:174-184 | the loop with `break` returns what the strategy chain gives: the first function found, the first exception thrown, or the final check's error |
| Semantics.DispatchFindsEchoOnly | src/main/java/ca/cutterslade/utilities/PropertiesResolver.java:130-145 | a name whose upper case is `ECHO` finds ECHO; every other name reaches the function-class strategy, which throws |
| Semantics.DispatchIgnoresCase | src/main/java/ca/cutterslade/utilities/PropertiesResolver.java:135 | dispatch succeeds if and only if the name is `echo` in any mix of cases; the argument count plays no part |
| Semantics.ApplyEcho | src/main/java/ca/cutterslade/utilities/PropertiesResolver.java:124-128 | calling an ECHO name gives the joined values; the default is never used |
| Semantics.ApplyUnknown | src/main/java/ca/cutterslade/utilities/PropertiesResolver.java:124-128 | calling any other name fails with the unsupported-operation error, whatever the default |
| Semantics.ComputeOrder | src/main/java/ca/cutterslade/utilities/PropertiesResolver.java:109-128 | all arguments are evaluated before the function is looked up, and an argument's failure wins over an unknown name |
| Semantics.CacheAgrees | src/main/java/ca/cutterslade/utilities/PropertiesResolver.java:64-66 | a cached value is exactly what uncached resolution gives, whatever keys are pending, provided none was cached before it |
| Semantics.StratifiedAdd | src/main/java/ca/cutterslade/utilities/PropertiesResolver.java:77 | caching a value computed from the current cache keeps the cache stratified |
| Semantics.StratifiedSettled | src/main/java/ca/cutterslade/utilities/PropertiesResolver.java:57-62 | every entry of a stratified cache is its key's resolution with nothing pending, and a fixpoint of substitution from the cache |
| Semantics.PendingIrrelevant | src/main/java/ca/cutterslade/utilities/PropertiesResolver.java:69 | a successful resolution gives the same value with fewer keys pending |
| Semantics.RefinePieces | src/main/java/ca/cutterslade/utilities/PropertiesResolver.java:72-75 | a successful substitution depends only on the answers to the key references it made |
| Semantics.CacheGrows | src/main/java/ca/cutterslade/utilities/PropertiesResolver.java:77 | a larger cache answers every reference a smaller one answers, the same way |
| Semantics.CacheToStack | src/main/java/ca/cutterslade/utilities/PropertiesResolver.java:65-67 | a cache whose every entry is the key's uncached resolution can stand in for recursion |
| Semantics.EvalPiecesAppend | src/main/java/ca/cutterslade/utilities/PropertiesResolver.java:72-75 | substituting two runs of pieces one after the other concatenates their results; a failure in the second is the result |
| Semantics.ScanStep | src/main/java/ca/cutterslade/utilities/PropertiesResolver.java:72-73 | one pass of the find loop appends the text before the region and its replacement, keeping the loop invariant |
| Semantics.ScanFails | src/main/java/ca/cutterslade/utilities/PropertiesResolver.java:73 | a region whose replacement fails makes the whole value fail with that error |
| Semantics.ScanEnd | src/main/java/ca/cutterslade/utilities/PropertiesResolver.java:75-76 | after the last region the tail is copied and the buffer is the substituted value |
| Semantics.ArgsStep | src/main/java/ca/cutterslade/utilities/PropertiesResolver.java:112-120 | one pass of the argument loop appends the next argument's value under both readings |
| Semantics.EvalArgsFailsAt | src/main/java/ca/cutterslade/utilities/PropertiesResolver.java:118 | an argument whose value fails makes the whole argument list fail with that error |
| Semantics.PlainTextUnchanged | src/main/java/ca/cutterslade/utilities/PropertiesResolver.java:70-76 | a value with no `${...}` region is returned unchanged |
| Semantics.ReferenceReplaced | src/main/java/ca/cutterslade/utilities/PropertiesResolver.java:97-105 | `${b}` becomes the value of key `b`, or stays `${b}` when there is no such key |
| Semantics.DefaultReplaced | src/main/java/ca/cutterslade/utilities/PropertiesResolver.java:100-104 | `${b:d}` becomes the value of key `b`, or `d` verbatim when there is no such key |
| Semantics.ComputedReplaced | src/main/java/ca/cutterslade/utilities/PropertiesResolver.java:94-95 | `${$f(a)}` evaluates the argument text `a` and calls `f` |
| Semantics.ComputedWithoutArguments | src/main/java/ca/cutterslade/utilities/PropertiesResolver.java:109-110 | a computed expression without an argument list fails |
| Semantics.MalformedRejected | src/main/java/ca/cutterslade/utilities/PropertiesResolver.java:85-87 | `:x`, `$$x`, `a(b` and `a()` are rejected as malformed |
| Semantics.SubstitutionIsSinglePass | src/main/java/ca/cutterslade/utilities/PropertiesResolver.java:72-75 | substituted text is not scanned again: `${a${b}}` with `b` = `x` gives `${ax}` |
| Semantics.SoleRegionEval | src/main/java/ca/cutterslade/utilities/PropertiesResolver.java:70-76 | a value that is one region and nothing else resolves to that region's replacement |
| Semantics.AliasResolved | src/main/java/ca/cutterslade/utilities/PropertiesResolver.java:64-82 | a key whose value is `${b}` takes `b`'s value, resolved with the key pending |
| Semantics.SelfReferenceFails | src/main/java/ca/cutterslade/utilities/PropertiesResolver.java:69 | `a` = `${a}` fails with a circular reference on `a` |
| Semantics.MutualReferenceFails | src/main/java/ca/cutterslade/utilities/PropertiesResolver.java:69 | `a` = `${b}` with `b` = `${a}` fails with a circular reference on `a` |
| Semantics.EchoOfTwoArguments | src/main/java/ca/cutterslade/utilities/PropertiesResolver.java:109-121 | `${$echo(x,y)}` with comma-free arguments gives their two values joined by a space |
| Semantics.EchoOfLiterals | src/main/java/ca/cutterslade/utilities/PropertiesResolver.java:112-116 | `${$echo('a','b')}` gives `a b` |
| Semantics.MissingKeyArgument | src/main/java/ca/cutterslade/utilities/PropertiesResolver.java:117-119 | a non-literal argument naming no key stays as written, in `${...}` |
| Semantics.EchoSplitsQuotedComma | src/main/java/ca/cutterslade/utilities/PropertiesResolver.java:110-118 | `${$echo('a,b')}` splits into `'a` and `b'`, which are not literals and, absent as keys, stay as `${'a}` and `${b'}` |
| Semantics.ParseMarks | src/main/java/ca/cutterslade/utilities/PropertiesResolver.java:24-25 | an expression matched as a computed call contains `$`, and one with an argument list contains `(` |
| Semantics.ArgumentsArePlain | src/main/java/ca/cutterslade/utilities/PropertiesResolver.java:109-118 | every piece of a computed call's argument list that matches the grammar is a key reference, possibly with a default, never a computed call or one with an argument list |
| Semantics.EmptyArgumentMalformed | src/main/java/ca/cutterslade/utilities/PropertiesResolver.java:84-87 | an empty argument is not a literal and fails the expression grammar |
| Semantics.EmptyArgumentRejected | src/main/java/ca/cutterslade/utilities/PropertiesResolver.java:110-119 | an empty piece in the split argument list, after arguments that evaluate, fails the call as malformed |
| Semantics.LeadingCommaRejected | src/main/java/ca/cutterslade/utilities/PropertiesResolver.java:110-119 | an argument list starting with a comma, and not ending in one, fails as malformed |
| Semantics.DoubledCommaRejected | src/main/java/ca/cutterslade/utilities/PropertiesResolver.java:110-119 | two commas in a row after an argument that evaluates fail the call as malformed |
| Semantics.CommasOnlyCall | src/main/java/ca/cutterslade/utilities/PropertiesResolver.java:109-127 | an argument list of commas only calls the function with no arguments; for ECHO the result is the empty string |
| Semantics.KeyNeverUnresolved | src/main/java/ca/cutterslade/utilities/PropertiesResolver.java:64-82 | resolving a key never fails with the cache-only `Unresolved` error |
| Semantics.PiecesNeverUnresolved | src/main/java/ca/cutterslade/utilities/PropertiesResolver.java:72-75 | substituting the pieces of a value never fails with `Unresolved` |
| Semantics.ReplacementNeverUnresolved | src/main/java/ca/cutterslade/utilities/PropertiesResolver.java:84-107 | replacing an expression never fails with `Unresolved` |
| Semantics.ComputeNeverUnresolved | src/main/java/ca/cutterslade/utilities/PropertiesResolver.java:109-128 | a computed call never fails with `Unresolved` |
| Semantics.ArgsNeverUnresolved | src/main/java/ca/cutterslade/utilities/PropertiesResolver.java:112-120 | evaluating an argument list never fails with `Unresolved` |
| Patterns.FindRegion | src/main/java/ca/cutterslade/utilities/PropertiesResolver.java:22 | a found region start lies at or after the search position and `REPLACE_PATTERN` matches there |
| Patterns.FindRegionLeftmost | src/main/java/ca/cutterslade/utilities/PropertiesResolver.java:72 | `find` returns the leftmost match, and no match exists when it finds none |
| Patterns.BraceFreeEndSpec | src/main/java/ca/cutterslade/utilities/PropertiesResolver.java:22 | the region body is the longest run without braces |
| Patterns.PiecesFlatten | src/main/java/ca/cutterslade/utilities/PropertiesResolver.java:70-76 | the text between regions and the regions, put back in order, give the raw value |
| Patterns.RegionsAreBraceFree | src/main/java/ca/cutterslade/utilities/PropertiesResolver.java:22 | every region expression is non-empty and holds no brace |
| Patterns.NestedRegionPieces | src/main/java/ca/cutterslade/utilities/PropertiesResolver.java:22 | in `${a${b}}` the only region is the inner `${b}` |
| Patterns.SoleRegion | src/main/java/ca/cutterslade/utilities/PropertiesResolver.java:22 | `${x}` with a brace-free `x` scans as the single region `x` |
| Patterns.NameRun | src/main/java/ca/cutterslade/utilities/PropertiesResolver.java:25 | the name group is the longest leading run of characters other than `$ } { : ( )` |
| Patterns.ArgRun | src/main/java/ca/cutterslade/utilities/PropertiesResolver.java:25 | the argument group is the longest leading run of characters other than `$ } { ( )` |
| Patterns.ParseRender | src/main/java/ca/cutterslade/utilities/PropertiesResolver.java:24-33 | every well-formed assignment of the four groups is matched, and matching recovers it |
| Patterns.RenderParse | src/main/java/ca/cutterslade/utilities/PropertiesResolver.java:24-33 | whatever `REPLACE_KEY_PATTERN` matches has well-formed groups that spell the text back exactly |
| Patterns.ParseSizes | src/main/java/ca/cutterslade/utilities/PropertiesResolver.java:24-25 | the name is non-empty and the argument list is strictly shorter than the expression |
| Patterns.LiteralText | src/main/java/ca/cutterslade/utilities/PropertiesResolver.java:35 | the literal's text, quoted again, is the argument |
| Patterns.QuotedIsLiteral | src/main/java/ca/cutterslade/utilities/PropertiesResolver.java:35 | a non-empty text without braces or `$`, quoted, is a literal standing for that text |
| JavaStrings.SplitAllJoin | src/main/java/ca/cutterslade/utilities/PropertiesResolver.java:110 | the comma-separated pieces, glued back with commas, give the input, and none holds a comma |
| JavaStrings.SplitShape | src/main/java/ca/cutterslade/utilities/PropertiesResolver.java:110 | `split(",")` keeps a prefix of the pieces and drops only trailing empty ones; a comma-free input gives itself |
| JavaStrings.SplitPair | src/main/java/ca/cutterslade/utilities/PropertiesResolver.java:110 | two comma-free pieces, the second non-empty, split back into exactly those two |
| JavaStrings.SplitWeight | src/main/java/ca/cutterslade/utilities/PropertiesResolver.java:110 | the pieces of a split are no larger than the input |
| JavaStrings.SplitChars | src/main/java/ca/cutterslade/utilities/PropertiesResolver.java:110 | every character of every piece of a split comes from the input |
| JavaStrings.SplitKeepsAll | src/main/java/ca/cutterslade/utilities/PropertiesResolver.java:110 | an input not ending in a comma loses no piece to `split` |
| JavaStrings.CommasOnly | src/main/java/ca/cutterslade/utilities/PropertiesResolver.java:110 | an input made of commas only splits into no pieces |
| JavaStrings.UpperCase | src/main/java/ca/cutterslade/utilities/PropertiesResolver.java:135 | upper-casing keeps the length |
| BuiltinFunctions.EchoApply | src/main/java/ca/cutterslade/utilities/BuiltinFunctions.java:9-18 | the builder loop and the final truncation give the arguments joined by single spaces |
| BuiltinFunctions.SpacedIsJoinPlusSpace | src/main/java/ca/cutterslade/utilities/BuiltinFunctions.java:11-16 | before truncation the builder holds the joined arguments plus one space, or nothing |
| BuiltinFunctions.Apply | src/main/java/ca/cutterslade/utilities/BuiltinFunctions.java:17 | ECHO never returns null |
| BuiltinFunctions.EchoOfNothing | src/main/java/ca/cutterslade/utilities/BuiltinFunctions.java:10-17 | ECHO of no arguments is the empty string |
| BuiltinFunctions.EchoOfOne | src/main/java/ca/cutterslade/utilities/BuiltinFunctions.java:11-16 | ECHO of one argument is that argument |
| BuiltinFunctions.EchoOfTwo | src/main/java/ca/cutterslade/utilities/BuiltinFunctions.java:11-16 | ECHO of `x` and `y` is `x`, a space, `y` |
| BuiltinFunctions.JoinLength | src/main/java/ca/cutterslade/utilities/BuiltinFunctions.java:11-16 | for n >= 1 arguments the result is their total length plus n - 1 |
| BuiltinFunctions.JoinHead | src/main/java/ca/cutterslade/utilities/BuiltinFunctions.java:11-16 | the first argument comes first, then one space, then the rest joined |

## Left out

- Building the source from `java.util.Properties` files, system properties and the environment is I/O outside the resolver.
- `ImmutableMap.copyOf` rejects null keys and values; maps here hold no nulls, so that check does not arise.
- The four reflective strategies are stubs that throw; they are modelled only as that exception.
- The final `checkArgument` of `getComputeMethod` is unreachable, because the second strategy always throws. It is modelled, and no input reaches it.
- Exception types and messages are collapsed into the `Error` datatype: one constructor per exception, carrying the key or expression.
- The two accidental `NullPointerException` paths become `Fault`: a computed expression with no argument list, and a null function result with no default. ECHO never returns null.
- A general regular-expression engine is not modelled. The three patterns are exact hand-written scanners, and `Matcher.quoteReplacement` becomes plain concatenation, its effect.
- JavaStrings.UpperCase: upper-cases only the letters a-z and keeps every other character. `toUpperCase(Locale.US)` also changes non-ASCII letters and can change the length (`ß` becomes `SS`). A name that reaches `ECHO` only through such a character would be rejected by the model.
- Resolution.PropertiesResolver.GetResolved: visits the source keys in an unspecified order. The source iterates in the map's insertion order. On failure, the contract names only some failing key's error, not the first in that order; on success the result does not depend on the order.
- The argument count given to `getMethod` is passed through but never used, as in the source.
- Thread safety is not modelled: the resolver is a single-threaded object.
