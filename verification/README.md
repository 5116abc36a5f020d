# Tekton Triggers, modelled and proved in Dafny

This project models the parts of Tekton Triggers whose behaviour is hardest to see from the code
and proves what they guarantee, for all inputs, all runs and all interleavings:

- **The template engine.** A bracket-counting scanner finds `$(...)` expressions in binding values
  (`Scanner`); event values are spliced in by one whole-text replacement after another (`Bindings`,
  `EventOrder`, `BindingRefs`); the resulting map is flattened in random order and spliced into raw
  JSON templates the same way, then the uid (`Templates`, `TemplateMeaning`, `Declarations`,
  `Pipeline`, `JsonText`, `JsonSplice`,
  `JsonResource`).  The intended meaning is *simultaneous* substitution.
  `Substitution` holds the theory that relates the two: a text is a document of characters and
  tokens, and a condition on characters around tokens that every harmless step keeps.
- **The sink.** `Fanout` is the interleaving transition system of handlers, groups and triggers
  over one WaitGroup; `Chain` is the interceptor chain over a mutable request, and grouping;
  `Selection` is trigger selection and the decision to use a namespace-scoped cache; `Names` holds
  trigger ids and JSONPath spellings.
- **The secret cache.** `SecretCache`: an LRU cache with expiry over a changing store, as classes
  and as a run machine with requests in flight.
- **The EventListener reconciler.** `Reconcile` (Service and Deployment: desired, merged,
  converging), `Conditions` and `Readiness` (the status list edited in place, what Ready means),
  `Passes` (both together), `CustomObject` (the field-by-field patcher).

`Text` and `Wrappers` are shared helpers.  `dafny verify dfyconfig.toml` checks everything.

Code that works by updating things is a method with loops, or a class with `modifies` clauses,
proved against a function of the old state; the theorems are about those functions.

## What a reader should know

Results that differ from what a comment or a name in the repository suggests; each is a lemma.

- Escaping a value does not hide it from later steps: `$$(` still contains `$(`, and an escaped value
  can feed a token exactly when the value can (`EscapeKeepsSafety`, `EscapingDoesNotHide`).  The random
  order of the parameter map is harmless exactly when no value contains, or ends in the beginning of,
  another parameter's variable (`OrderIndependence`), and the uid step is independent of the others
  exactly when the same holds for `$(uid)` (`UidCommutes`).
- In the event stage the order is that of the text, so only earlier values matter
  (`BindingValueMeaning`).  That condition on a value is exact over all later values
  (`EarlierValueExact`, and `TwoExpressionsExact` for two expressions); with three fixed values later
  steps can make good what an earlier one spoilt (`ThreeMayCoincide`).
- The admission check on binding values never examines the last `$(` (`ValidateParamValue`); the
  proofs allow that unterminated tail.
- The pattern for template variables has two unescaped dots, so admission also demands declarations
  for texts such as `$(ttXparamsYname)` that no step will replace (`MatchIsVariable`,
  `LookalikeIsInert`, `LookalikeInstance`).
- A spliced string always leaves a JSON literal well formed (`StringResultWellFormed`), but it means
  what it should exactly when the template spells its variables without JSON escapes and no surrogate
  halves meet (`StringResultInLiteral`, with `EscapedVariableIsMissed` and `EmptyValueJoinsHalves`).
- The old-escape annotation breaks every literal into which a string with a quote is spliced
  (`OldEscapeExact`).
- Moving interceptors from a trigger to its group is transparent exactly without webhooks in the
  moved part and without a converted form body reaching a trigger that has no chain of its own
  (`GroupingIsTransparent`): the group's body is dropped.
- As long as a listener stays a NodePort one, an assigned node port is never changed by editing it
  (`NodePortSticks`).
- Ready can be True after a pass that failed, exactly when a needed update was refused or a Deployment
  vouches for a Service that could not be listed (`ReadyDespiteFailure`, `ReadyAndFailed`); and it can
  be False because of a Progressing or Available left from an earlier pass (`ReadyMeansStored`).
- A patched custom object loses its spec fields outside the pod template and, for that pass, its
  status, so the pass never ends Ready (`PatchDropsOutside`, `PatchingIsNotReady`).

"Safe" conditions.  `SafeValue(v, m)`: no suffix of `v` is comparable by prefix with the token `m`.
`SafeText(s, ts)`: the text directly before a token of `s` is never the beginning of a token.  Both
can be checked on the inputs before any step is taken, and both follow from the readable conditions
used in `AdmittedValueMeaning`, `CleanResource` and `ResourceFromEvent`.

## Model

| member | source | states |
|---|---|---|
| `Scanner.ScanPiece` | pkg/template/jsonpath.go:186-207 | the bracket counter stops at the first `)` that closes more than the piece opened, or at its end |
| `Scanner.FindTektonExpressions` | pkg/template/jsonpath.go:174-210 | the originals are exactly the `$(body)` substrings of the text in input order, each evaluated with its header name in canonical form, the empty input and an unterminated tail included |
| `Scanner.OriginalsExact` | pkg/template/jsonpath.go:174-210 | a string is among the originals if and only if it stands in the text as `$(body)` with body of balance zero, no negative prefix and no `$(` |
| `Scanner.BodiesPrefixFree` | pkg/template/jsonpath.go:185-200 | two wrapped bodies, one a prefix of the other, are equal: an expression ends at its first unbalanced bracket |
| `Scanner.OriginalsFit` | pkg/template/jsonpath.go:183-200 | any two originals of a text are equal or neither is a prefix of the other, and each is a token of the substitution theory |
| `Scanner.ValidateParamValue` | pkg/apis/triggers/v1beta1/trigger_binding_validation.go:71-104 | accepts if and only if every `$(` that another `$(` follows starts a complete expression; the last `$(` is never looked at |
| `Scanner.ValidatedCount` | pkg/apis/triggers/v1beta1/trigger_binding_validation.go:78-103 | an accepted value yields one expression per `$(` or one fewer, and exactly one per `$(` if and only if the last is complete too |
| `Scanner.ValidatedIsSafe` | pkg/apis/triggers/v1beta1/trigger_binding_validation.go:78-103 | in an accepted text with no `$` before an expression, no text before an expression is the beginning of any expression |
| `Scanner.CleanIsSafe` | pkg/template/resource.go:117-121 | a value without `$(` that does not end in `$` can neither hold nor complete any token |
| `Scanner.CanonicalLetters` | pkg/template/jsonpath.go:196-198 | a header name is evaluated with the letters at its start and behind hyphens capital and all others small; a text that is no header name is left as it is |
| `Scanner.SpellingsAgree` | pkg/template/jsonpath.go:196-198 | two spellings of a header name that differ in case only are evaluated as one |
| `Scanner.CanonicalBodies` | pkg/template/jsonpath.go:196-198 | only the name behind `header.` is brought into that form |
| `Names.ScannedExpressions` | pkg/template/jsonpath.go:125-131 | every expression the scanner hands on, empty or header-canonicalised included, passes the shape test and unwraps to exactly its (canonical) body |
| `Names.FourSpellings` | pkg/template/jsonpath.go:145-163 | name, .name, {name} and {.name} all normalise to {.name}, for every name without braces that does not start with a dot |
| `Names.RelaxedIdempotent` | pkg/template/jsonpath.go:145-163 | normalising an accepted path twice is normalising it once |
| `Names.RelaxedRejects` | pkg/template/jsonpath.go:145-155 | rejected are exactly the non-empty inputs that are neither a brace-free path nor one in a single pair of braces |
| `Substitution.SequentialIsSimultaneous` | pkg/template/event.go:127-141 | a sequence of whole-text replacements, repeated tokens included, is the simultaneous substitution of its first-wins map whenever no value can feed a later token and no token stands behind the beginning of one |
| `Substitution.NothingLeft` | pkg/template/event.go:127-141 | a token that was absent or is itself replaced, and that no value can produce, does not occur in the simultaneous substitution |
| `Substitution.UnsafeValueMisleads` | pkg/template/resource.go:125-148 | if a value holds a token, or ends in the beginning of one, replacing it just before that token gives, on some safe text, a result other than the simultaneous one |
| `Substitution.ApplyFront` | pkg/template/resource.go:125-148 | on a text with one token, in front, steps for other tokens pass by and the token's own step is the first to act |
| `BindingRefs.ResolveBindingsToParams` | pkg/template/resource.go:75-112 | succeeds if and only if every binding, embedded or by reference, resolves and no name comes twice; the list is their concatenation in order |
| `BindingRefs.CheckNames` | pkg/template/resource.go:103-110 | true if and only if no two parameters have the same name |
| `BindingRefs.ParamsOfExact` | pkg/template/resource.go:78-100 | a name with a value is that parameter whatever else is given; a cluster reference is looked up among cluster bindings only, any other among the namespace's only; nothing else is a binding |
| `BindingRefs.JoinedInTurn` | pkg/template/resource.go:76-101 | the parameters of several bindings are theirs one after the other |
| `BindingRefs.ValidateParams` | pkg/apis/triggers/v1beta1/trigger_binding_validation.go:55-69 | accepts if and only if names are distinct and every value passes the check on values |
| `Bindings.LoadDefaults` | pkg/template/event.go:116-121 | the map of declared defaults, the last declaration of a name winning |
| `Bindings.ResolveParam` | pkg/template/event.go:124-141 | the inner loop: each expression by its event value or, if the list of specs is given, by what the map holds for the name; fails if one has neither; the result is the replacement sequence over the original text |
| `Bindings.ApplyEventValuesToParams` | pkg/template/event.go:108-145 | succeeds if and only if the event parses and every binding resolves in order; then it is the defaults overlaid by the bindings one by one |
| `Bindings.EventValuesExact` | pkg/template/event.go:126-141 | the values used for a text are given for exactly the scanner's originals, each with its own event value or fallback |
| `Bindings.BindingValueMeaning` | pkg/template/event.go:123-143 | the replacement loop is simultaneous substitution for every safe text and all values that cannot feed an expression replaced after them |
| `Bindings.AdmittedValueMeaning` | pkg/template/event.go:123-143 | the same from readable conditions: accepted by admission, no `$` before an expression, event values without `$(` and without a `$` at the end; repeated expressions and an unterminated tail allowed |
| `EventOrder.TwoExpressionsExact` | pkg/template/event.go:127-141 | for two expressions, the first value comes through unchanged whatever plain text follows if and only if it neither holds the second expression nor ends in the beginning of it, or the second value is its own expression |
| `EventOrder.EarlierValueExact` | pkg/template/event.go:127-141 | for any number of expressions, a value leaves every safe text with exactly these expressions right, whatever clean values the later ones have, if and only if it is safe for each later expression |
| `EventOrder.PairOriginals` | pkg/template/jsonpath.go:183-208 | two wrapped bodies with any `$(`-free text between them are found as exactly these two, in order |
| `EventOrder.SplitAtOpen` | pkg/template/event.go:140 | no match of a token reaches across the beginning of another, so a text is replaced on both sides of it independently |
| `EventOrder.ReplaceAtEnd` | pkg/template/event.go:140 | a token at the end of a text is replaced independently of what stands before it |
| `EventOrder.ThreeMayCoincide` | pkg/template/event.go:127-141 | for any three distinct expressions and an event that gives the first both others as value, the resolved value is still the simultaneous substitution: with fixed later values the order condition is not necessary |
| `BindingRefs.AdmittedParamsMeaning` | pkg/template/event.go:116-145 | for an admitted binding every bound name ends in the map with the simultaneous substitution of its own expressions, failed ones replaced by its own declared default |
| `Bindings.ParamMapNames` | pkg/template/event.go:116-145 | the map holds exactly the names with a default or a binding |
| `Bindings.UnboundParam` | pkg/template/event.go:116-145 | a name no binding mentions is in the map exactly when it has a default, with that default |
| `Bindings.BoundParam` | pkg/template/event.go:123-143 | with distinct binding names a bound name has its own resolved value, and its failed expressions fall back only to its own declared default |
| `Bindings.EventValueWins` | pkg/template/event.go:128-140 | an expression is replaced by the event's own value whenever there is one, and by the fallback only where there is none |
| `Bindings.ResolveValueExact` | pkg/template/event.go:126-141 | a text resolves if and only if every expression has an event value or there is a fallback |
| `Bindings.ResolveAllExact` | pkg/template/event.go:116-145 | with distinct names the event stage succeeds if and only if every expression of every binding has an event value or its parameter a declared default |
| `Bindings.MapFromEvent` | pkg/template/event.go:116-145 | the map entry of a bound name is its own text with each expression replaced by the event's value where there is one and by the declared default only where there is none |
| `Bindings.DefaultsValues` | pkg/template/event.go:116-121 | the default of a name is that of its last declaration that has one |
| `EventOrder.OneExpression` | pkg/template/event.go:123-143 | a binding that is one expression has the event's value, or else the fallback |
| `Templates.EscapeRoundTrip` | pkg/template/resource.go:117-121 | replacing `$$(` by `$(` undoes the escaping of every value |
| `Templates.EscapeInjective` | pkg/template/resource.go:117-121 | two values with the same escaped text are equal |
| `Templates.EscapeLength` | pkg/template/resource.go:117-121 | escaping adds exactly one character per `$(` |
| `Templates.EscapeCovers` | pkg/template/resource.go:117-121 | every `$(` of an escaped value has a `$` directly in front |
| `Templates.EscapeFront` | pkg/template/resource.go:117-121 | an escaped value never starts with `$(`, keeps its first character and is empty only if the value is |
| `Templates.EscapeKeepsSafety` | pkg/template/resource.go:117-121 | for every value and every token, the escaped value can feed the token if and only if the value itself can: escaping hides nothing from later steps |
| `Templates.EscapedToken` | pkg/template/resource.go:117-121 | a token as a value is escaped to itself with one `$` in front |
| `Templates.ApplyParamsToResourceTemplate` | pkg/template/resource.go:125-131 | the loop is the sequence of one replacement per parameter, in list order |
| `Templates.ConvertParamMapToArray` | pkg/template/resource.go:159-165 | whatever the iteration order, the list has each name of the map once, with its value, and nothing else |
| `Templates.ResolveResources` | pkg/template/event.go:64-75 | resource i is template i with all parameters and then one common uid spliced in |
| `Templates.ParamTokensFit` | pkg/template/resource.go:137 | variables of names without `)` and `$(` are equal only for equal names and never prefixes of one another |
| `TemplateMeaning.OrderIsHarmless` | pkg/template/resource.go:125-165 | with values that cannot feed another variable, every order of the parameters gives the simultaneous substitution |
| `TemplateMeaning.UnsafeOrder` | pkg/template/resource.go:117-148 | one value that can feed another variable suffices: some order and some safe template give a wrong resource |
| `TemplateMeaning.OrderIndependence` | pkg/template/resource.go:125-165 | the random order of the parameter map is harmless on every safe template if and only if no value, as it is before Tekton escaping, can feed another variable |
| `TemplateMeaning.VariableAsValue` | pkg/template/resource.go:117-148 | a parameter whose value is another one's variable breaks that condition |
| `TemplateMeaning.EscapingDoesNotHide` | pkg/template/resource.go:117-148 | for any two names: a value that is the other's variable ends as `$` and the other's value if applied first, and as `$` and the variable if applied last |
| `TemplateMeaning.CleanIsIndependent` | pkg/template/resource.go:125-148 | values without `$(` that do not end in `$` are independent |
| `TemplateMeaning.ResourceMeaning` | pkg/template/event.go:64-75 | parameters in any order and then the uid is the simultaneous substitution of all variables |
| `TemplateMeaning.UidUnsafe` | pkg/template/resource.go:153-157 | a value that can feed `$(uid)` gives a safe template on which the uid step first and the uid step last differ |
| `TemplateMeaning.UidCommutes` | pkg/template/resource.go:153-157 | for independent values the uid step commutes with the parameter steps on every safe template if and only if no value, before Tekton escaping, can feed `$(uid)` |
| `Declarations.FindParamNames` | pkg/apis/triggers/v1beta1/trigger_template_validation.go:87 | the left-to-right search returns a name if and only if the pattern matches with that name somewhere, its two unescaped dots matching any character of the line |
| `Declarations.MatchesApart` | pkg/apis/triggers/v1beta1/trigger_template_validation.go:34 | no match of the pattern starts inside another |
| `Declarations.MatchExact` | pkg/apis/triggers/v1beta1/trigger_template_validation.go:34 | the pattern matches at a place with a name if and only if a text of its form stands there: two open places that are no line ends, and a name of the grammar |
| `Declarations.NameAlphabet` | pkg/apis/triggers/v1beta1/trigger_template_validation.go:34 | names begin with an ASCII letter or underscore and go on with these, digits, hyphens and dots |
| `Declarations.VerifyParamDeclarations` | pkg/apis/triggers/v1beta1/trigger_template_validation.go:80-102 | accepts if and only if every match of the pattern in every template is a declared name |
| `Declarations.VariableMatches` | pkg/apis/triggers/v1beta1/trigger_template_validation.go:34 | every variable with a name of the grammar, wherever it stands, is a match with that name |
| `Declarations.MatchIsVariable` | pkg/apis/triggers/v1beta1/trigger_template_validation.go:34 | a match is the variable of its captured name if and only if the two unescaped dots of the pattern met dots |
| `Declarations.LookalikeIsNoVariable` | pkg/apis/triggers/v1beta1/trigger_template_validation.go:34 | where they did not, no variable of any name stands at that place |
| `Declarations.LookalikeIsInert` | pkg/apis/triggers/v1beta1/trigger_template_validation.go:80-102 | for every such text and name admission demands a declaration, although no parameters in any order and no uid change the text |
| `Declarations.LookalikeInstance` | pkg/apis/triggers/v1beta1/trigger_template_validation.go:34 | at `$(ttXparamsYname)`: rejected without a declaration, and never changed by any parameters or uid |
| `Declarations.NothingUnresolved` | pkg/apis/triggers/v1beta1/trigger_template_validation.go:80-102 | an accepted template whose declared names all have a value keeps no variable of the grammar, in any order, when values are independent and can produce no variable |
| `Pipeline.CleanResource` | pkg/template/resource.go:125-165 | for a template whose `$(`s, but possibly the last, are complete expressions with no `$` before one, bracket-free names and values without `$(` or `$` at the end: every order, with the uid step last or first, is the simultaneous substitution |
| `Pipeline.EncodedClean` | pkg/template/resource.go:140-147 | such a value is spliced in as it is, but for its quotes under old-escape |
| `Pipeline.SimultaneousClean` | pkg/template/event.go:123-143 | clean values in a text whose `$(`s are all complete expressions, with no `$` before one or at the end, give a clean text |
| `Pipeline.IntendedMap` | pkg/template/event.go:116-145 | on clean inputs the event stage computes the intended map: defaults overlaid by each binding's simultaneous substitution of its own text, failed expressions by its own default; and the map is clean |
| `Pipeline.ResourceFromEvent` | pkg/template/event.go:49-75 | both stages together, from conditions on the inputs alone and with or without declared parameters: the map is the intended one, and arbitrary flattening, splicing and uid give one resource for every order, the simultaneous substitution of these values, with no parameter variable of the grammar and no `$(uid)` left, if admission accepted the template and each declared name has a default or a binding |
| `JsonText.ReadWritten` | pkg/template/jsonpath.go:93-101 | the first character read from a written character and anything behind it is that character (section 7 of RFC 8259) |
| `JsonText.DecodeWritten` | pkg/template/jsonpath.go:93-101 | a quote-stripped marshalled string decodes to the string, whatever follows it |
| `JsonText.WrittenIsSafe` | pkg/template/jsonpath.go:93-101 | the marshalled text holds no control character, no `<`, `>` or `&`, and neither of the two Unicode line separators |
| `JsonText.EscapeCommutes` | pkg/template/resource.go:144-146 | Tekton-escaping the marshalled text is marshalling the Tekton-escaped string |
| `JsonText.DecodeOldQuote` | pkg/template/resource.go:141-143 | the old quote escaping on top of the marshalled text ends the literal at the first quote of the value |
| `JsonSplice.SpliceKeepsWellFormed` | pkg/template/resource.go:135-148 | one replacement by a marshalled string keeps every well-formed literal well formed, whatever else it holds |
| `JsonSplice.SpliceExact` | pkg/template/resource.go:135-148 | decoding commutes with the replacement if and only if the literal spells every variable its decoded text shows and, for an empty value, no high surrogate escape is separated from a low one by variables only (or the value is the variable itself) |
| `JsonSplice.StringResultWellFormed` | pkg/template/jsonpath.go:86-105 | a string result of the event spliced into any well-formed literal leaves it well formed |
| `JsonSplice.StringResultInLiteral` | pkg/template/resource.go:135-148 | it decodes to the decoded template with the variable replaced by the Tekton-escaped original string if and only if the literal spells each variable it shows and, for an empty string, joins no two surrogate halves |
| `JsonSplice.OldEscapeExact` | pkg/template/resource.go:141-147 | under the old-escape annotation the same step keeps the literal well formed if and only if the string holds no quote or the literal does not hold the variable |
| `JsonSplice.EscapedVariableIsMissed` | pkg/template/resource.go:147 | for every name, a template that writes the `$` of its variable as a JSON escape shows the variable when decoded but is left untouched by the step |
| `JsonSplice.EmptyValueJoinsHalves` | pkg/template/resource.go:147 | for every name, an empty string between a high and a low surrogate escape turns two replacement characters into one character |
| `JsonResource.ParamsKeepWellFormed` | pkg/template/resource.go:125-157 | however many string results, holding whatever, are spliced in whatever order into a well-formed literal, and then the uid, it stays well formed |
| `JsonResource.SimultaneousDecodes` | pkg/template/resource.go:125-157 | decoding commutes with the simultaneous substitution of all variables in a literal that spells every variable it shows and keeps surrogate halves apart |
| `JsonResource.LiteralMeaning` | pkg/template/event.go:64-75 | for clean original strings and a literal of complete expressions that spells every variable it shows: after all parameters, in any order, and the uid, it decodes to the simultaneous substitution of the original strings in the decoded literal |
| `Fanout.CounterIsSlots` | pkg/sink/sink.go:196-214 | in every interleaving of events, groups and triggers the WaitGroup counter is the number of outstanding slots, never negative, and positive at every nested Add |
| `Fanout.ZeroMeansAllRan` | pkg/sink/sink.go:196-214 | once spawning by handlers has ended, a zero counter means every goroutine has ended, every run that an event or the end of a group's chain asked for in the interleaving happened exactly once and no other did, every group was processed, and there are as many runs as were asked for |
| `Fanout.GroupSelects` | pkg/sink/sink.go:335-356 | what a group's chain selected, as the interleaving has it, is what its goroutine answers for to the end |
| `Fanout.HandlerSelects` | pkg/sink/sink.go:196-214 | the triggers and groups an event came with are what its handler answers for to the end |
| `Fanout.Books` | pkg/sink/sink.go:196-214 | in every interleaving the runs are the executed triggers, the triggers are the started ones, and the selected ones are those asked for |
| `Fanout.NeverTwice` | pkg/sink/sink.go:345-356 | in no state of any interleaving has a trigger run twice |
| `Fanout.PositiveCanMove` | pkg/sink/sink.go:196-214 | while slots are outstanding some goroutine can take a step: waiting for zero does not deadlock |
| `Fanout.InvStep` | pkg/sink/sink.go:315-357 | every step of every thread keeps the counter equal to the slots, the spawned families exact and the log of runs exact |
| `Chain.ExecuteOne` | pkg/sink/sink.go:498-578 | one turn of the loop turns the request into what the next interceptor is sent: webhook replaces body and header, a remote one adds its extensions (later wins) or stops; errors end the chain |
| `Chain.ExecuteInterceptors` | pkg/sink/sink.go:459-584 | the chain over the request object is the fold of its steps; nothing that existed before is written, so neither the caller's header nor the shared extensions |
| `Chain.ProcessGroup` | pkg/sink/sink.go:315-333 | a group goes on if and only if its chain does, and hands on the chain's header and extensions with the event's own body |
| `Chain.ProcessTrigger` | pkg/sink/sink.go:408-435 | a trigger's verdict, body, header and extensions are those of its chain; what it shares is only read |
| `Chain.ProcessTriggerGroup` | pkg/sink/sink.go:315-357 | each trigger of a group has the outcome it would have alone in the group |
| `Chain.RunAppend` | pkg/sink/sink.go:498-578 | running a concatenation is running one part and, if it continues, the other |
| `Chain.RemoteLast` | pkg/sink/sink.go:527-577 | one more remote interceptor is sent what the chain before it came to, may fail or stop the chain, and else its reply goes over the extensions key by key while body and header stay |
| `Chain.WebhookLast` | pkg/sink/sink.go:499-526 | one more webhook is sent the header and the body extended by all extensions so far, its answer replaces both, and the extensions stay |
| `Chain.LaterReplyWins` | pkg/sink/sink.go:569-574 | a key has the value of the last reply that has it |
| `Chain.FirstIsSent` | pkg/sink/sink.go:460-494 | a chain starts from the event's body, unless its first Content-Type is the form type and it reads as a form of more than one entry; an empty chain converts nothing |
| `Chain.RemoteChain` | pkg/sink/sink.go:527-578 | a webhook-free chain of context-ignoring interceptors changes extensions only and does not depend on the context |
| `Chain.GroupingHolds` | pkg/sink/sink.go:315-357 | moving such a chain from a trigger to its group gives the same stop or continue, body, header and extensions |
| `Chain.GroupingFails` | pkg/sink/sink.go:347-354 | where the condition fails there are context-ignoring services for which group and single trigger differ |
| `Chain.GroupingIsTransparent` | pkg/sink/sink.go:315-357 | grouping is transparent for all context-ignoring services if and only if the group chain has no webhook and no converted form body reaches a trigger without a chain |
| `Selection.SelectTriggers` | pkg/sink/sink.go:359-406 | an invalid label selector fails; `*` alone lists everywhere; other names list each namespace in turn, an empty name every namespace; none lists the own namespace, and only with a label selector |
| `Selection.Merge` | pkg/sink/sink.go:285-313 | selected triggers first, then the listener's own: a missing reference is skipped, an undefined trigger fails the merge |
| `Selection.ListingExact` | pkg/sink/sink.go:371-393 | a listing is exactly the objects of the store that lie in the namespace, or anywhere for the empty name, and whose labels match, in store order |
| `Selection.EachInTurn` | pkg/sink/sink.go:376-387 | several namespaces are listed one after the other |
| `Selection.SelectedExact` | pkg/sink/sink.go:359-406 | selection fails if and only if the label selector is invalid, and else picks an object if and only if the selectors reach it |
| `Selection.MergedExact` | pkg/sink/sink.go:285-313 | a merge that succeeds starts with all selected triggers; behind them stand the listener's own in their order, an inline one as it is, a reference as an object of that namespace and name, skipped if and only if there is none |
| `Selection.MergedFails` | pkg/sink/sink.go:308-309 | a merge fails if and only if some trigger of the listener is neither inline nor a reference |
| `Selection.IsMultiNS` | pkg/reconciler/eventlistener/resources/container.go:32-42 | true if and only if the listener's or some group's namespace selector names something |
| `Selection.ScopedCacheAgrees` | cmd/eventlistenersink/main.go:62-64 | when the flag is false, for every cluster state selection and merge give the same from the namespace cache, all triggers lie in the namespace, and every later binding and template lookup agrees |
| `Selection.ScopeExact` | pkg/sink/sink.go:359-406 | for a selector whose labels match something the two caches agree on every cluster state if and only if it names nothing but the own namespace (or that is every namespace) |
| `Names.TriggerIDRoundTrip` | pkg/apis/triggers/v1beta1/interceptor_types.go:81-88 | parsing a printed trigger or trigger group id returns namespace and name if neither holds a slash, and two empty strings for every other pair |
| `SecretCache.LRUExpireCache.Get` | vendor/k8s.io/apimachinery/pkg/util/cache/lruexpirecache.go:105-123 | a live entry is returned and becomes the most recent; an expired one is dropped; keys stay unique and the size within the capacity |
| `SecretCache.LRUExpireCache.Add` | vendor/k8s.io/apimachinery/pkg/util/cache/lruexpirecache.go:73-101 | the entry replaces one of the same key or the least recent one of a full cache |
| `SecretCache.SecretGetter.Get` | pkg/interceptors/secret_getter.go:66-85 | a hit is served from the cache; a miss returns what the API holds under that namespace, name and key and is cached with the ttl; a failed lookup adds nothing |
| `SecretCache.GetIsRun` | pkg/interceptors/secret_getter.go:66-85 | one call of the getter is a stretch of a run: same result, same cache afterwards |
| `SecretCache.RunInv` | pkg/interceptors/secret_getter.go:66-85 | every run of gets, clock ticks and secret changes, with gets in flight, keeps the cache unique, bounded and traceable to the API |
| `SecretCache.ReturnedIsFresh` | pkg/interceptors/secret_getter.go:66-85 | over every run, a value returned at time T was held by the API under exactly that key at some time in [T - ttl - delay, T] (delay 0: fetch and add at once), and the cache never outgrows its capacity |
| `SecretCache.TouchedKeeps` | vendor/k8s.io/apimachinery/pkg/util/cache/lruexpirecache.go:105-123 | a lookup keeps keys unique and adds no entry |
| `SecretCache.AddedKeeps` | vendor/k8s.io/apimachinery/pkg/util/cache/lruexpirecache.go:73-101 | an addition keeps keys unique and the size within the capacity, and adds only the new entry |
| `SecretCache.HitExact` | vendor/k8s.io/apimachinery/pkg/util/cache/lruexpirecache.go:105-123 | a lookup is a hit if and only if an entry of the key is there and has not expired |
| `SecretCache.TouchedExact` | vendor/k8s.io/apimachinery/pkg/util/cache/lruexpirecache.go:105-123 | a lookup drops the expired entry of its key and nothing else |
| `SecretCache.AddedExact` | vendor/k8s.io/apimachinery/pkg/util/cache/lruexpirecache.go:73-101 | after an addition the cache holds the new entry and all others, but for one of the same key or, if there was none and the cache was full, the last |
| `SecretCache.AddedIsServed` | vendor/k8s.io/apimachinery/pkg/util/cache/lruexpirecache.go:73-123 | what was added is served from then until it expires |
| `SecretCache.MostRecentFirst` | vendor/k8s.io/apimachinery/pkg/util/cache/lruexpirecache.go:73-123 | after every sequence of lookups and additions the entries stand in the order of their last use |
| `SecretCache.EvictsLeastRecentlyUsed` | vendor/k8s.io/apimachinery/pkg/util/cache/lruexpirecache.go:73-101 | an entry driven out by an addition is the one whose last use is longest ago |
| `Conditions.SetMeaning` | vendor/knative.dev/pkg/apis/condition_set.go:187-209 | setting a condition keeps types unique, decides its own type and leaves every other type as it was |
| `Conditions.SetWhole` | vendor/knative.dev/pkg/apis/condition_set.go:187-209 | the condition there afterwards is the old one if it says the same, else the new one with the time of the change |
| `Conditions.SetSorted` | vendor/knative.dev/pkg/apis/condition_set.go:187-209 | setting a condition keeps the list sorted by type |
| `Conditions.BeforeIsLexicographic` | vendor/knative.dev/pkg/apis/condition_set.go:187-209 | that order is lexicographic |
| `Conditions.EventListenerStatus.SetCondition` | vendor/knative.dev/pkg/apis/condition_set.go:187-209 | the list afterwards: unchanged if the same condition is there up to its time stamp, else the other types and the new one, sorted by type |
| `Conditions.EventListenerStatus.InitializeConditions` | pkg/apis/triggers/v1beta1/event_listener_types.go:317-328 | Service, Deployment and Ready are set to False in turn |
| `Conditions.EventListenerStatus.SetExistsCondition` | pkg/apis/triggers/v1beta1/event_listener_types.go:297-311 | True without an error, False with its message otherwise |
| `Conditions.EventListenerStatus.SetReadyCondition` | pkg/apis/triggers/v1beta1/event_listener_types.go:229-251 | Ready is False with the first gate that is present and not True, else True |
| `Conditions.EventListenerStatus.SetDeploymentConditions` | pkg/apis/triggers/v1beta1/event_listener_types.go:255-276 | an old replica failure is removed, then every reported condition is set |
| `Conditions.EventListenerStatus.SetConditionsForDynamicObjects` | pkg/apis/triggers/v1beta1/event_listener_types.go:278-293 | every reported condition is set, then Ready to True |
| `Readiness.ReconcileStatus` | pkg/reconciler/eventlistener/eventlistener.go:103-128 | the conditions after a pass on the Deployment path are the composition of the edits in source order, for each way the pass can go |
| `Readiness.DeploymentCopy` | pkg/apis/triggers/v1beta1/event_listener_types.go:255-276 | after a Deployment's status is copied types are unique, ReplicaFailure is present if and only if it is reported now, other unreported types are untouched, and reported ones have the status reported last |
| `Readiness.DeploymentCopiesAll` | pkg/apis/triggers/v1beta1/event_listener_types.go:255-276 | every reported type has in the status the status, reason and message reported last |
| `Readiness.ReadyMeaning` | pkg/reconciler/eventlistener/eventlistener.go:103-128 | from any unique status a pass keeps it unique, and Ready is True if and only if four gates told from the old status and the pass are open, else False: Service, Deployment, and Progressing and Available as reported last or else as they were before |
| `Readiness.OwnNamesDecide` | pkg/reconciler/eventlistener/eventlistener.go:103-128 | unless the Deployment reports conditions named Service or Deployment, the first two gates are open if and only if Service and Deployment were found or created in this pass |
| `Readiness.ReconcileCustomStatus` | pkg/reconciler/eventlistener/eventlistener.go:336-356 | the conditions after a custom pass, for each way it can end |
| `Readiness.CustomReadyMeaning` | pkg/reconciler/eventlistener/eventlistener.go:336-356 | on the custom path Ready is True if and only if the object had conditions and none was a Ready other than True; types stay unique |
| `Readiness.DynamicCopiesAll` | pkg/apis/triggers/v1beta1/event_listener_types.go:278-293 | on the custom path every reported type but Ready has in the status what was reported last, Ready is True, and unreported types are as they were |
| `Readiness.ExistsTells` | pkg/apis/triggers/v1beta1/event_listener_types.go:297-311 | whether something exists is told with the error, if there is one |
| `Readiness.NotReadyTells` | pkg/apis/triggers/v1beta1/event_listener_types.go:229-251 | not ready is told with the first of Service, Deployment, Progressing and Available that is there and not True, its status and its message |
| `Passes.ReconcilePass` | pkg/reconciler/eventlistener/eventlistener.go:103-128 | cluster, status and success of one pass, together |
| `Passes.ReadyMeansStored` | pkg/reconciler/eventlistener/eventlistener.go:103-128 | after a pass Ready is True if and only if the Deployment was listed and is in the cluster (and, just created, does not deny itself), the Service is in the cluster or, unlisted, is vouched for by the Deployment's report, and Progressing and Available, as reported last or else as before, are absent or True |
| `Passes.ReadyDespiteFailure` | pkg/reconciler/eventlistener/eventlistener.go:103-251 | a pass that leaves Ready True failed if and only if the server refused to change an existing Service or Deployment that has to change, or the Service was not listed and the Deployment vouched for it |
| `Passes.ReadyAndFailed` | pkg/reconciler/eventlistener/eventlistener.go:157-170 | for every listener and configuration there is a cluster from which a pass fails and leaves Ready True |
| `Reconcile.Cluster.ReconcileService` | pkg/reconciler/eventlistener/eventlistener.go:130-188 | create, merge (cluster IP, node ports, annotations) and update, or leave; exactly one write if something differs, none if a lister or write fails; the Deployment is untouched |
| `Reconcile.Cluster.ReconcileDeployment` | pkg/reconciler/eventlistener/eventlistener.go:190-251 | the same with replicas and annotations taken over; the Service is untouched |
| `Reconcile.Cluster.ReconcileKind` | pkg/reconciler/eventlistener/eventlistener.go:117-128 | both objects are reconciled whether or not the other fails, and the pass succeeds if and only if both do |
| `Reconcile.ServiceConverges` | pkg/reconciler/eventlistener/eventlistener.go:130-188 | after a successful pass a second one with the same listener writes no Service, whatever was there and whatever cluster IP and node ports the server assigned |
| `Reconcile.DeploymentConverges` | pkg/reconciler/eventlistener/eventlistener.go:190-251 | the same for the Deployment and an assigned replica count |
| `Reconcile.PassesConverge` | pkg/reconciler/eventlistener/eventlistener.go:103-128 | a second whole pass writes nothing and leaves the cluster as it is |
| `Reconcile.DesiredService` | pkg/reconciler/eventlistener/resources/service.go:51-136 | labels, selector, type and both ports of the desired Service, told from the listener and the configuration: secure names and port 8443 for the default port, the own port, the asked node port |
| `Reconcile.ServiceReached` | pkg/reconciler/eventlistener/eventlistener.go:130-188 | after a successful pass the Service is there as the listener and the configuration want it, with every annotation it had and the listener's others |
| `Reconcile.DeploymentReached` | pkg/reconciler/eventlistener/eventlistener.go:190-251 | after a successful pass the Deployment is there with the wanted labels and template, the replica count the listener sets or else the live one, every annotation it had and the listener's others |
| `Reconcile.PassesKeep` | pkg/reconciler/eventlistener/eventlistener.go:152-163 | in every run of passes, listener edits and outside edits, between any two points with only passes between them no annotation on either object is removed or altered, and while the replica count is left open the live one never changes |
| `Reconcile.NodePortSticks` | pkg/reconciler/eventlistener/eventlistener.go:142-151 | assigned node ports survive every run of passes of a NodePort listener, whatever its port is changed to |
| `CustomObject.WithPod.PatchOnlyContainer` | pkg/reconciler/eventlistener/resources/custom.go:180-215 | the only container gets every tracked field of the desired one and no command; its other fields stay; the flag is true if and only if it changed |
| `CustomObject.WithPod.UpdateCustomObject` | pkg/reconciler/eventlistener/resources/custom.go:122-223 | the object afterwards, field by field, and the flag is true if and only if it changed |
| `CustomObject.PatchSettles` | pkg/reconciler/eventlistener/resources/custom.go:122-223 | at most two changing patches, one with exactly one container (then nothing untracked changes), and otherwise a second one if and only if the volumes differ |
| `CustomObject.PatchReaches` | pkg/reconciler/eventlistener/resources/custom.go:143-220 | a patch brings every template field and, with one container, its tracked fields and the volumes to what is desired, leaving untracked fields alone; two patches bring everything |
| `CustomObject.CustomReached` | pkg/reconciler/eventlistener/eventlistener.go:288-332 | after two accepted passes the object has the desired labels and tracked fields, every annotation it had and the desired others |
| `CustomObject.CustomPassesSettle` | pkg/reconciler/eventlistener/eventlistener.go:272-366 | however many passes there are with the same desired object, they write at most twice in all, at most once if the object has one container or has to be created, whatever status the server reports in between |
| `CustomObject.CustomAnnotationsKept` | pkg/reconciler/eventlistener/eventlistener.go:288-332 | in every run of passes, refused writes and outside edits, between any two points with only passes between them no annotation on the object is removed or altered |
| `CustomObject.PatchDropsOutside` | pkg/reconciler/eventlistener/eventlistener.go:304-321 | the fields of the spec besides the pod template survive a pass if and only if there are none or the template needs no patch; a patching pass loses them all in the round trip through the pod-template type |
| `CustomObject.PatchingIsNotReady` | pkg/reconciler/eventlistener/eventlistener.go:304-356 | after a pass Ready is True if and only if the object could be read, its template needed no patch, no write was refused and its conditions allow it |

## Left out

- JSONPath evaluation, JSON parsing of the event, interceptor services, webhooks, HTTP, the
  Kubernetes API, listers' failures, clocks and uids are parameters of the model.
- Go strings are byte strings; here they are sequences of characters, and a uid is any text
  without `$` where that matters.
- JSONPath results with several matches (a JSON array) and their marshalling: `ResultText` covers one
  match, and numbers, objects and lists enter as opaque JSON text.
- StringResultInLiteral: parameter names with `$(`, a quote, a backslash or a control character are
  left out, since such a variable does not stand for itself inside a literal.
- BindingValueMeaning: a sufficient condition for given values of all expressions; `EarlierValueExact`
  makes it exact over all clean later values, and by `ThreeMayCoincide` it is not necessary for fixed
  ones, where values chosen to cancel each other out give the right result by accident.
- LiteralMeaning: one direction only, since with several variables of different lengths a missed one
  can be made good by another; for a single step the condition is exact (`SpliceExact`).
- OrderIndependence: speaks of safe templates and of names without `)` and `$(`; a name with them makes
  the variable itself ambiguous.
- ReturnedIsFresh: the bound has an extra `delay`, the longest time between reading the API and
  adding to the cache; it is zero if the two happen at once.
- ServiceConverges: asks that the server store a Service as sent except for cluster IP and the node
  ports of a NodePort service; defaulting of other fields (an empty type becoming ClusterIP, IP
  families) is not covered.
- DeploymentConverges: the selector and pod template are one opaque value that the server stores as
  sent, built from unchanged configuration; the shared security-policy object is not modelled.
- ReconcilePass: the case that the desired Deployment cannot be built is covered by `ReconcileStatus` and
  `ReadyMeaning` only.
- UpdateCustomObject: asks for a desired object with exactly one container, which is what the builder
  of custom objects makes; of JSON conversion only the restriction to the pod-template type and its
  failure on a template that is none are modelled.
- ReconcileKind: finalizers, addresses, host ports, deletion of a Deployment left from the other
  path, and error texts are not modelled; a TLS variable without a secret reference, on which the
  source panics, is not either.
- NothingUnresolved: names outside the pattern's grammar are never checked by admission, so nothing
  is claimed about them.
- PositiveCanMove: a panic inside a goroutine and processing that never returns are not modelled, so
  there is no termination claim about waiting.
- Listers return objects in one fixed order here; the source promises none, and the properties that
  compare two listings compare them in the same order.
- Resource creation, cloud and Kubernetes events, metrics, logging, certificates, the interceptors'
  own logic (CEL, GitHub, GitLab, Bitbucket, Slack), v1alpha1, generated code and configuration
  parsing: input and output, library calls or duplicates that would only add easy members.
