# Workflow compiler, runner and wire formats: a verified model

This project models the logic of a traffic-capturing daemon in Dafny and proves properties of it. The daemon records
HTTP flows, compiles a list of captured flows into a replayable workflow, runs workflows, exports them, and parses what
went over the wire. The model covers, hardest first:

- **The workflow compiler and its runner** (`daemon/internal/workflow/modeler.go`). `Compiler` holds `Suggest` and
  `inferCrossStepBindings` as methods that write into a step slice, with the specification they refine; `Bindings`
  proves the invariant of the compiling pass and the shape of the bindings, `Completeness` that every value that can be
  bound is bound; `Templates` and `Lifting` prove that Go's textual `ReplaceAll` chains are substitutions on tokenised
  templates; `Paths`, `Sources` and `Keys` treat the JSON paths and the names of extracted values, `Extraction` what
  the compiled tables make of them; `JsonText` treats the marshalled request bodies, `JsonReader` reads them back by
  the grammar of RFC 8259, `Utf8` and `Decoding` treat what JSON does to bytes; `Runner` is `Run` with retries and
  authentication refresh against an arbitrary server. `Fidelity` puts them together, and `Sample` holds a capture to
  which the main theorem applies.
- **The exported TypeScript evaluator** (`daemon/internal/exporter/project.go`), in `TypeScript`.
- **Wire formats** (`daemon/internal/bodyparse/bodyparse.go`): `Varint`, `Protobuf`, `Sse`, and `EventStream` for the
  event-stream interpretation of the WHATWG HTML standard.
- **State machines**: the retry loop (`Retry`), the CDP request/response correlation (`Cdp`), the system proxy
  (`Proxy`), the authentication tracer (`Auth`).
- **Shell quoting** of exported commands (`Shell`).

`Text`, `Options`, `Json` and `Numbers` hold what the others share: Go's string operations, optional values, decoded JSON
and the spellings of numbers.

## How to read it

A string is a sequence of `char`s, one per byte. Code that updates variables step by step is a method, proved equal to
a recursive function; the properties are lemmas about that function. The server, the store, the engine and the
operating system are arbitrary functions or lists of outcomes, so every statement about a run holds for all their
behaviours. Where Go iterates over a map, the model takes an arbitrary order (`Templates.Expansion`,
`Auth.Allowed`) or a member list in visiting order (`Json`).

Every lemma has Dafny's automatic induction switched off, so each proof spells out its own induction. Some proofs start
with a `hide` statement, which keeps definitions they do not need out of the solver's sight.

## What holds, and what does not

Compile a capture and run it with its default inputs against a server that answers as captured
(`Fidelity.CaptureReplay`). The run succeeds exactly when every included step was captured with a status from 200 to
399, and otherwise stops at the first that was not. Every included step up to there is sent; in it, every rewritten
body expands to the captured one, or, when it has inputs, to a text that RFC 8259 reads as the captured object, namely
that object marshalled again; and every rewritten header expands to one captured value, its whole content if it had a
single one. The condition on the capture, `Fidelity.Replayable`, and the words "marshalled again" and "one captured
value" are needed because the code has these limits, each with a lemma that says exactly when it bites:

- A body with inputs is decoded and marshalled again, which loses the order of members, white space, spellings, and the
  digits of large numbers (`Fidelity.BodyReplayedExactly`).
- A header with several values is replaced by one (`Fidelity.HeaderReplayedExactly`).
- An input has one default for the whole workflow, that of the last flow with it, so requests that disagree with it are
  replayed with another value (`Fidelity.InputReplayedExactly`).
- A value that shares characters with one collected earlier may not be bound: exactly those are bound that still occur
  when their turn comes (`Completeness.UsedExactly`, `Completeness.OverlapIsNotBound`).
- A value that occurs inside a placeholder damages it, for some order of the bindings
  (`Lifting.PlaceholderReplayedExactly`).
- Keys of sensitive values are made from a length, so equal lengths collide (`Keys.SensitiveKeysCollide`); `a.b` and
  `a_b` collide too (`Keys.NestedAndUnderscoreCollide`). Of two sources with one key and different paths, one loses its
  entry (`Extraction.PathsKeptExactly`); if their values differ, some request is sent with a wrong value
  (`Fidelity.ResolvableExactly`). Clean, non-sensitive places never collide (`Extraction.CleanPathsKept`).
- The path syntax cannot express every place (`Paths.AddressableExactly`); documents of ordinary shape are safe
  (`Sources.EverySourceReadsBack`).
- A body that is not valid UTF-8 does not survive the JSON column, even if it is stored only because a header was bound
  (`Fidelity.RawBodyStoredExactly`, `Utf8.CoercedExactly`).
- Inputs are pasted into JSON text without escaping (`JsonText.InputFaithfulExactly`).
- The expansion depends on map order when a bound text spells another placeholder (`Templates.OrderShowsExactly`).
- A dry run of a workflow with extractions fails (`Runner.DryRunExactly`).

Besides, the condition asks that no `$` or `}` is found in keys and bound values and no `${` in stored bodies.
`Sample.SampleIsReplayable` shows a capture that meets it. Without any condition on the capture or the server, no request
is sent with an inserted reference to a step's output undefined (`Fidelity.EveryBindingIsDefined`), nor, when the run is
given at least the default inputs, with an inserted input undefined (`Fidelity.EveryInputIsDefined`); bindings point from
earlier to later included steps (`Bindings.BindingsPointBack`), what is collected and what is bound are known exactly
(`Completeness.CollectedExactly`, `Completeness.UsedExactly`), and every trace has the stated grammar
(`Runner.TraceGrammar`).

Further findings: `bind` in the export drops unresolved references while the runner keeps them, so the two evaluators
agree exactly when there are none (`TypeScript.EvaluatorsAgreeExactly`); the two readers differ on names that are empty or
hold a bracket (`TypeScript.ReadersAgreeExactly`) and on names that follow a list (`TypeScript.ArrayMemberExactly`), the two printers on null, on numbers from 10^6 up to 10^21 or from
10^-9 up to 10^-4, and on negative zero (`TypeScript.PrintsAlikeExactly`); a saved-proxy file spoilt by an interrupted
write is never replaced, so what was enabled can be restored exactly when no write was interrupted
(`Proxy.RestorableExactly`). The event-stream parser takes the end of the text for the end of an event
(`Sse.EndFlushes`), emits events without data and forgets ids; on printed events it agrees with section 9.2.6 of the
WHATWG HTML standard exactly when neither shows (`EventStream.StandardAgreesExactly`).

## Model

| member | source | states |
|---|---|---|
| `Fidelity.CaptureReplay` | daemon/internal/workflow/modeler.go:69-404 | For every replayable capture, compiled and run with default inputs against a server that answers as captured, with or without a refresh flow and whatever statuses it was captured with: the run is ok if and only if every included step was captured with a success; an included step is sent if and only if all included ones before it were; and in every request each rewritten body expands, in any map order, to exactly one text, which is the captured body, or, when it has inputs, a text that the grammar of RFC 8259 reads as the captured object; and each rewritten header to one captured value alone, which is its whole content if it was captured with one value. |
| `Fidelity.EveryBindingIsDefined` | daemon/internal/workflow/modeler.go:328-404 | For every capture, server behaviour and request that leaves: each reference to a step's output that the compiler inserted into that step has a value at that moment. |
| `Fidelity.EveryInputIsDefined` | daemon/internal/workflow/modeler.go:586-634 | For every capture, server behaviour and request that leaves: an input that the compiler inserted into that step has a value at that moment if and only if the run was given one, and it has one when the run is given at least the defaults. |
| `Fidelity.ReplayRuns` | daemon/internal/workflow/modeler.go:328-404 | A replay is ok if and only if every included step was captured with a success, and sends the included steps up to and including the first that was not, each with exactly the outputs its predecessors were captured with. |
| `Fidelity.ExtractedAsCaptured` | daemon/internal/workflow/modeler.go:468-489 | In a replay a step extracts, for each of its keys, the captured value of the sources bound under that key. |
| `Fidelity.ExtractsAll` | daemon/internal/workflow/modeler.go:468-489 | In a replay every step extracts all its keys from its captured response, whether or not names collide. |
| `Fidelity.BodyIsFaithful` | daemon/internal/workflow/modeler.go:180-200 | The only expansion of a compiled step's stored body is the captured body, or, when it has inputs, the captured object marshalled again, which reads as JSON, by RFC 8259, as the captured object up to the order of members. |
| `JsonReader.MarshalDenotes` | daemon/internal/workflow/modeler.go:629-633 | For every decoded document: its marshalled text, read by the grammar of RFC 8259, is the document up to the order of members. |
| `JsonReader.MarshalReads` | daemon/internal/workflow/modeler.go:629-633 | The same in front of whatever may follow a value, with the document read exactly as the marshaller lists it. |
| `JsonReader.EscapedReads` | daemon/internal/workflow/modeler.go:629-633 | Every escaped string reads back as the string, up to its closing quote. |
| `JsonReader.NumberReads` | daemon/internal/workflow/modeler.go:629-633 | Every number reads back from its JSON text: sign, digits and magnitude. |
| `JsonReader.GoNumberReads` | daemon/internal/workflow/modeler.go:278-279 | So it does from the default Go format, in which sources carry it. |
| `Json.PrintedExactly` | daemon/internal/workflow/modeler.go:278-279 | The default format of every decoded value: `<nil>`, `true`, `false`, strings as they are, numbers, bracketed lists and `map[…]` in key order, parts separated by spaces. |
| `Json.SortedInOrder` | daemon/internal/workflow/modeler.go:629-633 | Members are listed in the order of their names, which `Json.LessExactly` says is lexicographic by bytes. |
| `Fidelity.BodyReplayedExactly` | daemon/internal/workflow/modeler.go:607-634 | A stored body is replayed byte for byte if and only if it has no inputs or is its own marshalled form. |
| `Fidelity.BodyExpands` | daemon/internal/workflow/modeler.go:180-200 | Whatever the inputs, the only expansion of a stored body is the body with the inputs pasted in. |
| `Fidelity.InputReplayedExactly` | daemon/internal/workflow/modeler.go:110-112 | When all other inputs of a body agree with the defaults, the body is replayed faithfully if and only if the default of the remaining one is its captured value. |
| `Fidelity.RawBodyStoredExactly` | daemon/internal/workflow/modeler.go:190-200 | A body stored only because a header was bound is stored as captured if and only if it is valid UTF-8. |
| `Utf8.CoercedExactly` | daemon/internal/workflow/modeler.go:686-694 | Writing a text into the JSON column and reading it back gives the same text if and only if it is valid UTF-8. |
| `Utf8.CoercedAt` | daemon/internal/workflow/modeler.go:686-694 | Otherwise the first byte that starts no code point becomes U+FFFD, and the rest is treated alike. |
| `Utf8.ValidExactly` | daemon/internal/workflow/modeler.go:686-694 | The valid texts are exactly the encodings, by section 3 of RFC 3629, of sequences of code points that are no surrogates. |
| `Utf8.ReplaceKeepsValid` | daemon/internal/workflow/modeler.go:182-187 | Replacing valid text by valid text keeps a body valid UTF-8. |
| `Decoding.BodyTemplateValid` | daemon/internal/workflow/modeler.go:607-634 | The template made from a decoded body is valid UTF-8. |
| `Decoding.SourceDecoded` | daemon/internal/workflow/modeler.go:250-284 | Values and keys of sources found in a decoded response are valid UTF-8. |
| `Fidelity.StoredTemplate` | daemon/internal/workflow/modeler.go:180-200 | A stored body, after the JSON column, is the text of a template that fills like the template the body started from. |
| `Fidelity.HeaderIsFaithful` | daemon/internal/workflow/modeler.go:160-174 | An overridden header was captured under its name, its only expansion is one of its captured values, and all of them if there was one. |
| `Fidelity.HeaderBoundExactly` | daemon/internal/workflow/modeler.go:160-179 | A header is overridden if and only if one of its values was offered before, and then by the source of the last such value alone. |
| `Fidelity.HeaderReplayedExactly` | daemon/internal/workflow/modeler.go:160-179 | An overridden header is replayed with all its captured values if and only if it was captured with exactly one. |
| `Fidelity.ResolvableExactly` | daemon/internal/workflow/modeler.go:237-248 | In a replay of a capture that meets the other conditions, every request is sent with each of its references standing for the captured value if bound sources of one name carry one value, and, when the replay gets to the end, only then. |
| `Extraction.PathsKeptExactly` | daemon/internal/workflow/modeler.go:237-248 | Every binding's extraction entry still maps to its own path at the end of the pass if and only if bound sources of one name have one path. |
| `Extraction.CleanPathsKept` | daemon/internal/workflow/modeler.go:237-248 | When bound sources sit at clean places with no sensitive name, every entry maps to its own path at the end of the pass, and sources of one name carry one value. |
| `Sample.SampleIsReplayable` | daemon/internal/workflow/modeler.go:142-223 | A capture of two flows, whose second sends in a header what the first returned, meets every condition of the replay theorem, and is bound. |
| `Compiler.Suggest` | daemon/internal/workflow/modeler.go:69-140 | Fails exactly on an empty request or a missing flow; otherwise returns the compiled steps and the defaults of the specification. |
| `Compiler.InferCrossStepBindings` | daemon/internal/workflow/modeler.go:142-223 | The pass over the step slice, with its value index and its limit, leaves the steps of the specification, which searches linearly. |
| `Compiler.BindStep` | daemon/internal/workflow/modeler.go:155-200 | Binding one step writes the specified overrides and adds the specified extractions to earlier steps. |
| `Compiler.BindHeaderValues` | daemon/internal/workflow/modeler.go:160-179 | The header loop through the index gives the overrides, uses and extractions of a linear search over all earlier sources. |
| `Compiler.BindValues` | daemon/internal/workflow/modeler.go:164-178 | The same for the values of one header. |
| `Compiler.BindBodyText` | daemon/internal/workflow/modeler.go:182-189 | The body loop replaces exactly the sources that still occur when their turn comes, and extracts each of them. |
| `Completeness.UsedExactly` | daemon/internal/workflow/modeler.go:155-200 | For every capture and every source collected before an included step: it is bound into that step if and only if some captured header value is its value, or the body has 1 to 262144 bytes and its value occurs in the starting body text once the values collected before it are replaced there. |
| `Completeness.NothingLeftUnbound` | daemon/internal/workflow/modeler.go:180-200 | In a runnable capture no value collected before an included step is left spelled out in the body that step sends: the body is the text of a template whose ordinary characters hold none of them, and whose references are bound sources and inputs. |
| `Completeness.CompiledBodyExactly` | daemon/internal/workflow/modeler.go:180-200 | A body stored for a binding is the starting text with the values of all collected sources replaced one after the other, passed through the JSON column. |
| `Completeness.BodyUsedExactly` | daemon/internal/workflow/modeler.go:182-189 | Among sources of distinct values, exactly those are bound into a text whose non-empty value occurs in it once the values before it are replaced. |
| `Completeness.OverlapIsNotBound` | daemon/internal/workflow/modeler.go:182-189 | Occurring in the captured body is not enough: of two values that share characters there, the later one is not bound. |
| `Completeness.HeaderUsedExactly` | daemon/internal/workflow/modeler.go:160-179 | Exactly those sources are bound into headers whose value is a captured header value. |
| `Completeness.OverriddenExactly` | daemon/internal/workflow/modeler.go:114-123 | A step gets overrides if and only if it is included, and has inputs or a bound source. |
| `Completeness.OverridesTouch` | daemon/internal/workflow/modeler.go:142-223 | Overrides carry no query; without a bound source no header; without a body no inputs. |
| `Completeness.StepsExactly` | daemon/internal/workflow/modeler.go:98-109 | A compiled step has its own id, its flow's id and verdict, and asserts one status alone, the captured one, if it was a success, and else one of 200, 201, 202 and 204. |
| `Completeness.DefaultsExactly` | daemon/internal/workflow/modeler.go:110-113 | There is a default for a name if and only if some flow's body has an input of that name. |
| `Completeness.LastDefault` | daemon/internal/workflow/modeler.go:110-113 | It is the value in the last flow that has one. |
| `Compiler.CollectSources` | daemon/internal/workflow/modeler.go:206-221 | Collecting keeps useful, new values up to the limit of 1000 and keeps the index in step with the list. |
| `Completeness.CollectedExactly` | daemon/internal/workflow/modeler.go:201-221 | What is collected before a step is the first 1000 of the first sources of each value, among all values offered by included earlier responses of at most 262144 bytes, that have 4 to 512 bytes and hold neither a line feed nor NUL. |
| `Compiler.Harvest` | daemon/internal/workflow/modeler.go:201-221 | Collecting one captured response. |
| `Compiler.EnsureExtraction` | daemon/internal/workflow/modeler.go:237-248 | Exactly the first step with the source's id gets the entry. |
| `Compiler.EnsureHere` | daemon/internal/workflow/modeler.go:237-248 | Adding an extraction changes the first step with the id, in that one entry, and nothing else. |
| `Compiler.MatchingSnoc` | daemon/internal/workflow/modeler.go:225-235 | Appending a source changes the linear search only for values not found before. |
| `Compiler.IndexGrows` | daemon/internal/workflow/modeler.go:146-221 | Entering a new value into index and list keeps both answering alike for every string. |
| `Bindings.InvariantHolds` | daemon/internal/workflow/modeler.go:142-223 | Before every round: steps keep id, inclusion and assertions; collected sources are distinct, useful, at most 1000 and all from included earlier steps; every extraction entry is that of a bound source. |
| `Bindings.BindingsPointBack` | daemon/internal/workflow/modeler.go:142-223 | A source bound into a step belongs to an included step strictly before it, was offered by that step's captured response, and is extracted by it in the final workflow. |
| `Bindings.UseOrigin` | daemon/internal/workflow/modeler.go:155-221 | A used source was offered by an included earlier step. |
| `Bindings.EnsureAllAt` | daemon/internal/workflow/modeler.go:237-248 | After all extractions a step keeps its old keys, knows every source used under its id, and has no other entries. |
| `Bindings.ExtractionsStay` | daemon/internal/workflow/modeler.go:237-248 | A key once extracted stays extracted to the end of the pass. |
| `Bindings.OverridesStay` | daemon/internal/workflow/modeler.go:142-223 | A step's overrides are final after its own round. |
| `Bindings.StepIdsDiffer` | daemon/internal/workflow/modeler.go:69-140 | Generated step ids are equal only for equal step numbers. |
| `Completeness.StepIdExactly` | daemon/internal/workflow/modeler.go:99 | A step id is `step_` and the step's number in decimal, with at least two digits. |
| `Bindings.StepIdShape` | daemon/internal/workflow/modeler.go:69-140 | Step ids hold no character that could end or split a placeholder. |
| `Templates.ChainIsSubstitution` | daemon/internal/workflow/modeler.go:711-721 | A chain of leftmost non-overlapping replacements over a rendered template equals one simultaneous substitution, for every order, when no `${` arises among ordinary characters. |
| `Templates.RenderExpands` | daemon/internal/workflow/modeler.go:711-721 | The expansions of a rendered template under an environment are exactly one text: the substituted one. |
| `Templates.ReplaceFillsOne` | daemon/internal/workflow/modeler.go:711-721 | One replacement fills exactly the holes of its reference. |
| `Text.ContainsExactly` | daemon/internal/workflow/modeler.go:182-183 | A text contains another if and only if that stands somewhere in it. |
| `Text.ReplaceAtFirst` | daemon/internal/workflow/modeler.go:711-721 | Replacing replaces the leftmost occurrence and goes on behind it, in the rest of the text. |
| `Templates.ExpansionIsSubstitution` | daemon/internal/workflow/modeler.go:711-721 | Whatever the map order, an expansion is the substituted text. |
| `Templates.OrderShowsExactly` | daemon/internal/workflow/modeler.go:711-721 | Two bindings over one placeholder give the same text in both orders if and only if the bound text does not spell the other placeholder. |
| `Templates.ReplaceBindings` | daemon/internal/workflow/modeler.go:711-721 | The loops over inputs, steps and outputs, in any order, yield an expansion under the union of inputs and outputs. |
| `Templates.ReplaceInputs` | daemon/internal/workflow/modeler.go:711-716 | The loop over the inputs yields an expansion under the inputs. |
| `Templates.ReplaceOutputs` | daemon/internal/workflow/modeler.go:716-720 | The loop over one step's outputs yields an expansion under them. |
| `Lifting.LiftRenders` | daemon/internal/workflow/modeler.go:182-186 | Replacing a value by a placeholder in rendered text is replacing its spelled-out occurrences in the template, when it keeps apart from the placeholders present. |
| `Lifting.LiftFills` | daemon/internal/workflow/modeler.go:182-186 | Filling undoes that replacement. |
| `Lifting.LiftAllRenders` | daemon/internal/workflow/modeler.go:180-189 | The whole body loop renders a template with the same filling as the text it started from, whose holes are only inputs and used sources. |
| `Lifting.LiftAllClears` | daemon/internal/workflow/modeler.go:180-189 | After the body loop the ordinary characters spell no value of any source. |
| `Lifting.LiftClears` | daemon/internal/workflow/modeler.go:182-186 | Lifting a value leaves it spelled out nowhere and spells out no other value anew. |
| `Lifting.PlaceholderReplayedExactly` | daemon/internal/workflow/modeler.go:182-187 | A placeholder into which another value was bound is replayed as its own value in every order of the bindings if and only if that value does not occur in it. |
| `Paths.AddressableExactly` | daemon/internal/workflow/modeler.go:723-777 | The printed path of a place reads that place back in every document if and only if the place has fields with at most one index each, names without dots, and no name the index syntax would take apart. |
| `Paths.AddressableReadsBack` | daemon/internal/workflow/modeler.go:723-777 | Reading an addressable place's path gives what is there, present or not. |
| `Paths.MatchedIsSegments` | daemon/internal/workflow/modeler.go:762-777 | Tokens that lead exactly along a place exist only for places of that shape. |
| `Paths.SplitJSONPath` | daemon/internal/workflow/modeler.go:762-777 | The token loop computes the specified tokens. |
| `Paths.AtoiExactly` | daemon/internal/workflow/modeler.go:762-777 | An index is read as a number if and only if it is an optional sign and decimal digits within 64 bits. |
| `Paths.JsonPathValue` | daemon/internal/workflow/modeler.go:723-760 | The reading loop computes the specified value or its absence. |
| `Sources.WalkSound` | daemon/internal/workflow/modeler.go:250-284 | Every value the walk finds is at its place. |
| `Sources.WalkComplete` | daemon/internal/workflow/modeler.go:250-284 | Every non-empty string, number and boolean of a document is found. |
| `Sources.WalkExactly` | daemon/internal/workflow/modeler.go:250-284 | The walk finds, each under its place, exactly the numbers, the booleans and the non-empty strings of a document. |
| `Sources.OfferedExactly` | daemon/internal/workflow/modeler.go:250-284 | A response offers the first 80 of these, with step, key, printed path and printed value. |
| `Sources.SensitiveExactly` | daemon/internal/workflow/modeler.go:807-811 | A name is sensitive if and only if it holds one of seven words, in any case. |
| `Sources.KeyExactly` | daemon/internal/workflow/modeler.go:296-309 | A key is the flattened path without the underscores around it, `value` if nothing is left, and `value_` with the length if it is sensitive. |
| `Sources.SourceReadsBack` | daemon/internal/workflow/modeler.go:250-284 | An emitted source's path, read by the runner, gives a value that prints as the source's value, when its place is addressable. |
| `Sources.EverySourceReadsBack` | daemon/internal/workflow/modeler.go:250-284 | For every document with an object root, no array directly inside an array, and field names without `.` and `[`, every emitted source's path reads back a value that prints as the source's. |
| `Sources.PlacesAddressable` | daemon/internal/workflow/modeler.go:723-777 | Every place of such a document is addressable. |
| `Sources.JsonPrimitiveSources` | daemon/internal/workflow/modeler.go:250-284 | The emitted list is the first 80 entries of the uncapped walk, in the same order. |
| `Sources.Walker.Visit` | daemon/internal/workflow/modeler.go:256-282 | The recursive closure appends what the walk finds below a place, up to the cap. |
| `Sources.Walker.VisitFields` | daemon/internal/workflow/modeler.go:261-268 | The same over the members of an object. |
| `Sources.Walker.VisitItems` | daemon/internal/workflow/modeler.go:269-272 | The same over the elements of an array. |
| `Keys.KeysInjective` | daemon/internal/workflow/modeler.go:296-309 | Two clean, non-sensitive places share a key if and only if they are the same place. |
| `Keys.CleanKeyExactly` | daemon/internal/workflow/modeler.go:296-309 | The key of a clean place is its names and indices joined by underscores, or a length if a sensitive word is in that. |
| `Keys.SensitiveKeysCollide` | daemon/internal/workflow/modeler.go:296-309 | Two clean sensitive places share a key if and only if their flattened paths have the same length. |
| `Keys.NestedAndUnderscoreCollide` | daemon/internal/workflow/modeler.go:296-309 | `a.b` and `a_b` always share a key. |
| `JsonText.BodyTemplateRenders` | daemon/internal/workflow/modeler.go:607-634 | The marshalled body with placeholders is the rendering of a template. |
| `JsonText.BodyTemplateFills` | daemon/internal/workflow/modeler.go:607-634 | Filling that template with the captured strings gives the captured object marshalled, a text that `JsonReader.MarshalDenotes` reads back. |
| `JsonText.BodyTemplateHoles` | daemon/internal/workflow/modeler.go:607-634 | Its only references are the inputs. |
| `JsonText.InputsExactly` | daemon/internal/workflow/modeler.go:600-604 | A member becomes an input if and only if it is a string and its name holds none of the seven words. |
| `JsonText.InputFaithfulExactly` | daemon/internal/workflow/modeler.go:607-634 | Pasting a string between the quotes gives its JSON text if and only if it needs no escape. |
| `JsonText.EscapeIsIdentity` | daemon/internal/workflow/modeler.go:607-634 | Escaping leaves a string alone if and only if no character needs it. |
| `JsonText.PlainExactly` | daemon/internal/workflow/modeler.go:629-633 | That is, if and only if it has no control character, none of five special characters, and neither U+2028 nor U+2029. |
| `Runner.RunWorkflow` | daemon/internal/workflow/modeler.go:328-404 | The run loop, with its breaks and its refresh, gives the result of the specification for every server. |
| `Runner.ExtractStepOutputs` | daemon/internal/workflow/modeler.go:468-489 | The extraction loop returns all outputs, or nothing if some path is missing or there is no response. |
| `Runner.AssertsExactly` | daemon/internal/workflow/modeler.go:436-466 | A live reply passes if and only if its status is allowed, every asserted header, text and path is there, and the engine calls it ok. |
| `Runner.FailureTells` | daemon/internal/workflow/modeler.go:436-466 | A failed reply reports the first reason in the order status, response, headers, texts, paths, engine, and of each list the first entry that is missing. |
| `Runner.TraceGrammar` | daemon/internal/workflow/modeler.go:328-404 | Every trace is, per included step in order, one passing record, or an authentication failure, a passing refresh and a passing retry; only the last block may fail, and nothing follows it. |
| `Runner.RefreshExactly` | daemon/internal/workflow/modeler.go:524-547 | The records of an included step whose first reply is not ok go on with a refresh if and only if the run is live, has a refresh flow, and the status is 401, 403, 419 or 440; after a passing refresh the same step is tried again. |
| `Runner.AcceptedTrace` | daemon/internal/workflow/modeler.go:524-547 | Such a trace is at most three times as long as the included steps, refreshes only in live runs with a refresh flow, and is ok exactly when no error is recorded. |
| `Runner.SendsProvided` | daemon/internal/workflow/modeler.go:348-399 | Whenever a request leaves, every key that an earlier included step extracts has a value. |
| `Runner.PassingRun` | daemon/internal/workflow/modeler.go:348-399 | If every included step passes from the state its predecessors leave, the run is ok and sends exactly the included steps in order. |
| `Runner.DryRunExactly` | daemon/internal/workflow/modeler.go:468-493 | A dry run is ok if and only if every included step has overrides that decode, a request that can be prepared, and nothing to extract. |
| `TypeScript.EvaluatorsAgree` | daemon/internal/exporter/project.go:231-235 | On a template all of whose references are named and known and whose filling has no `${` among ordinary characters, the exported `bind` and the runner give the same text. |
| `TypeScript.EvaluatorsAgreeExactly` | daemon/internal/exporter/project.go:231-235 | On templates of named references that meet no inherited property, with no `${` among the ordinary characters of either result, the exported `bind` and the runner give the same text if and only if every reference is resolved. |
| `TypeScript.BindFills` | daemon/internal/exporter/project.go:231-235 | `bind` is one simultaneous substitution of what it finds, empty for what it does not find. |
| `TypeScript.InputMatchExactly` | daemon/internal/exporter/project.go:233 | The input pattern matches at a place if and only if `${input.`, a non-empty key without `}`, and `}` stand there. |
| `TypeScript.StepMatchExactly` | daemon/internal/exporter/project.go:234 | The step pattern matches if and only if `${steps.`, a non-empty id without `.` and `}`, a dot, a non-empty key without `}`, and `}` stand there. |
| `TypeScript.InputsComeFirst` | daemon/internal/exporter/project.go:231-235 | A step reference that comes with an input's value is replaced in turn. |
| `TypeScript.PrintsAlikeExactly` | daemon/internal/exporter/project.go:231-235 | The two evaluators print a value that is no container alike if and only if it is no null, no number from 10^6 up to 10^21 or from 10^-9 up to 10^-4 in size, and no negative zero. |
| `TypeScript.JsPrintExactly` | daemon/internal/exporter/project.go:231-235 | What the exported code prints: nothing for null, and for a number a text that reads as it, without the sign of zero. |
| `Numbers.NumbersAlikeExactly` | daemon/internal/workflow/modeler.go:278-279 | The default Go format and the JavaScript format spell a float alike exactly outside those ranges. |
| `TypeScript.ReadersAgreeExactly` | daemon/internal/exporter/project.go:215-229 | On an addressable place present in a document, the exported reader and the runner's agree if and only if every name is non-empty and without `[`. |
| `TypeScript.SegmentMatchExactly` | daemon/internal/exporter/project.go:220 | A segment is a non-empty name without `[`, alone or with an index of decimal digits. |
| `TypeScript.ArrayMemberExactly` | daemon/internal/exporter/project.go:215-229 | Below a list, the exported reader finds the list's length under `length` and an element under its decimal index, where the runner's reader finds nothing. |
| `TypeScript.ReadPathLoop` | daemon/internal/exporter/project.go:215-229 | The emitted loop computes the specified value. |
| `Varint.ReadVarintExactly` | daemon/internal/bodyparse/bodyparse.go:326-335 | Reading succeeds if and only if one to ten bytes form a whole varint, and then gives the sum of the seven-bit groups modulo 2^64 and their number. |
| `Varint.VarintRoundTrip` | daemon/internal/bodyparse/bodyparse.go:326-335 | Reading the encoding of any 64-bit value before any bytes gives the value and its length. |
| `Varint.VarintTruncated` | daemon/internal/bodyparse/bodyparse.go:326-335 | Every proper prefix of an encoding is refused. |
| `Varint.OrIsPlus` | daemon/internal/bodyparse/bodyparse.go:326-335 | Or-ing a shifted group onto the groups below it is adding it. |
| `Varint.ReadVarintLoop` | daemon/internal/bodyparse/bodyparse.go:326-335 | The loop with shifts and ors on 64-bit words computes the specified result. |
| `Protobuf.MessageRoundTrip` | daemon/internal/bodyparse/bodyparse.go:261-324 | Parsing the first bytes of an encoded message, however many, shows exactly the fields that lie wholly within them, up to 64. |
| `Protobuf.ParsedTells` | daemon/internal/bodyparse/bodyparse.go:261-347 | Each of these entries tells its field: number, wire type, and a text from which the value reads back, digit by digit or byte by byte; of bytes that are not printable it tells the length. |
| `Protobuf.CutFirstField` | daemon/internal/bodyparse/bodyparse.go:271-319 | A first field cut within its key gives nil, cut within its value an empty list. |
| `Protobuf.FramedRoundTrip` | daemon/internal/bodyparse/bodyparse.go:261-324 | A message parses to its fields, and in a gRPC frame with anything after it parses the same. |
| `Protobuf.FrameIsTransparent` | daemon/internal/bodyparse/bodyparse.go:264-270 | A frame around any non-empty message that does not itself look framed, with anything after it, changes nothing. |
| `Protobuf.NoFieldBehindZero` | daemon/internal/bodyparse/bodyparse.go:271-319 | Text starting with byte 0 or 1 shows no field, so stripping a frame hides none. |
| `Protobuf.ParseProtobufLoop` | daemon/internal/bodyparse/bodyparse.go:261-324 | Frame stripping and the field loop compute the specified list or nil. |
| `Protobuf.ParseMessageLoop` | daemon/internal/bodyparse/bodyparse.go:271-324 | The loop over an offset computes what the specification finds in the rest of the text. |
| `Protobuf.ReadField` | daemon/internal/bodyparse/bodyparse.go:273-319 | One round: key, number, wire type and value at an offset. |
| `Protobuf.ReadPayload` | daemon/internal/bodyparse/bodyparse.go:279-315 | The value of each wire type, its bytes and its failures. |
| `Sse.RoundTripExactly` | daemon/internal/bodyparse/bodyparse.go:208-243 | Printing a list of events and parsing it gives the list back if and only if every event is non-empty, on one line where it must be, and without trailing carriage returns or leading newlines. |
| `Sse.ParsedIsGood` | daemon/internal/bodyparse/bodyparse.go:208-243 | From any text, every parsed event is of that kind. |
| `Sse.FieldExactly` | daemon/internal/bodyparse/bodyparse.go:224-240 | What a line `name: value` or `name:value` adds to the event, for every name and value. |
| `Sse.CommentIgnored` | daemon/internal/bodyparse/bodyparse.go:221-223 | A comment line adds nothing. |
| `Sse.LineEndingsDoNotMatter` | daemon/internal/bodyparse/bodyparse.go:208-243 | Turning every LF into CRLF changes nothing, for any text. |
| `Sse.ParseSse` | daemon/internal/bodyparse/bodyparse.go:208-243 | The line loop with its current event computes the specified events. |
| `Sse.EndFlushes` | daemon/internal/bodyparse/bodyparse.go:208-243 | For any text, ending it with a blank line changes nothing: the end of the text ends an event. |
| `EventStream.StandardAgreesExactly` | daemon/internal/bodyparse/bodyparse.go:208-243 | On printed events without carriage returns and NUL, the parser and section 9.2.6 of the WHATWG HTML standard give the same events if and only if every event has data and none without an id follows one with an id. |
| `EventStream.LinesExactly` | daemon/internal/bodyparse/bodyparse.go:208-243 | In the standard's reading, with which the parser is compared, a line ends at the first CRLF, LF or CR. |
| `EventStream.FieldDoes` | daemon/internal/bodyparse/bodyparse.go:208-243 | In it a type replaces, data is appended, an id without NUL replaces, and other fields do nothing. |
| `Shell.CommandRoundTrip` | daemon/internal/exporter/curl.go:10-38 | Splitting the exported command by the POSIX.1-2017 rules (sections 2.2.1, 2.2.2 and 2.3 of the Shell Command Language) gives exactly the intended argument vector, for every method, header map, body and URL. |
| `Shell.LexQuoted` | daemon/internal/exporter/curl.go:33-38 | A quoted text is read back as one word part with that text. |
| `Shell.Curl` | daemon/internal/exporter/curl.go:10-31 | The assembled command has sorted header keys, a body only when there is one, and every argument quoted. |
| `Shell.SortKeys` | daemon/internal/exporter/curl.go:19-24 | The header keys in increasing order, each once. |
| `Retry.RunOutcome` | daemon/internal/replay/replay.go:136-176 | For every pattern of adapter and store failures: one to max(1, retries + 1) attempts; fewer only if the last was stored with a status below 500; a non-empty flow id names a stored flow with the reported status; an empty one comes with an error; earlier stored replies had status 500 or more. |
| `Retry.AttemptsExactly` | daemon/internal/replay/replay.go:136-172 | The number of attempts is that of the first one stored with a status below 500, or the largest allowed. |
| `Retry.LoopFaithful` | daemon/internal/replay/replay.go:136-172 | Status, flow id, last error and flow table always speak of exactly the attempts made. |
| `Retry.LoopBounds` | daemon/internal/replay/replay.go:136-172 | Only the last attempt can have been stored with a status below 500, and stopping early needs that. |
| `Retry.Engine.Run` | daemon/internal/replay/replay.go:136-176 | The loop with its four variables computes the specified state and stores exactly the specified flows. |
| `Cdp.Correlation` | daemon/internal/browsercapture/client.go:76-149 | After any interleaving of calls, cancellations, duplicate, unknown or late replies, notifications and hang-up: ids are never reused, every channel received at most one message and it carries its id, the reader's send never blocks, no live caller is forgotten, and queued events are an in-order part of those received. |
| `Cdp.PendingExactly` | daemon/internal/browsercapture/client.go:76-108 | After any run exactly those ids are pending that a call took, failed writes included, and that were neither given up on cancellation nor replied to since. |
| `Cdp.WaiterIsAnswered` | daemon/internal/browsercapture/client.go:91-107 | After any run with a live connection, a waiting caller whose id is pending receives the reply to it that is read next. |
| `Cdp.WaitsExactly` | daemon/internal/browsercapture/client.go:76-108 | A caller waits from its call, if the write succeeds, until it is cancelled, receives a reply, or gives up on a closed connection. |
| `Cdp.NobodyIsStuck` | daemon/internal/browsercapture/client.go:76-149 | After any run: calls can be made and cancelled, replies that are there taken, closed connections given up, queued events taken, and the reader can read, hang up, or deliver what it holds. |
| `Cdp.NoticeQueuedExactly` | daemon/internal/browsercapture/client.go:141-147 | After any run a notification is queued behind the others if fewer than 256 wait, and dropped otherwise. |
| `Cdp.ConsumedExactly` | daemon/internal/browsercapture/client.go:72-74 | The consumer has received the accepted notifications one by one, in order. |
| `Cdp.MoveKeeps` | daemon/internal/browsercapture/client.go:76-149 | Every step of every party keeps that invariant. |
| `Cdp.RunKeeps` | daemon/internal/browsercapture/client.go:76-149 | So does every run. |
| `Proxy.SavedIsOriginal` | daemon/internal/systemproxy/systemproxy.go:48-113 | In every history with failures anywhere, a saved state is the configuration from before the first `Enable` since the last removal of the file. |
| `Proxy.DisableRestoresOriginal` | daemon/internal/systemproxy/systemproxy.go:94-145 | Any successful `Disable`, after any history, restores both flags of that configuration, and server and port where both were set; where they were not, it leaves those it found. |
| `Proxy.DisableOutcome` | daemon/internal/systemproxy/systemproxy.go:94-145 | `Disable` succeeds only on a saved state, restores it and removes the file; a failed one leaves the state saved or has restored it. |
| `Proxy.EnableOutcome` | daemon/internal/systemproxy/systemproxy.go:48-92 | `Enable` writes the file only when there is none, with the configuration it found. |
| `Proxy.EnableWorks` | daemon/internal/systemproxy/systemproxy.go:48-92 | In every world, `Enable` with valid arguments succeeds when nothing fails, sets both proxies, and leaves the file as it was or saves the configuration it found. |
| `Proxy.SpoiltFileStays` | daemon/internal/systemproxy/systemproxy.go:48-113 | A spoilt file is never replaced and every later `Disable` fails. |
| `Proxy.SpoiltExactly` | daemon/internal/systemproxy/systemproxy.go:48-92 | After any history the file is spoilt if and only if some `Enable` with valid arguments found no file, got as far as the write, and had it interrupted. |
| `Proxy.DisableWorksExactly` | daemon/internal/systemproxy/systemproxy.go:94-113 | When nothing fails, `Disable` succeeds if and only if it is given a service and finds a saved state. |
| `Proxy.RestorableExactly` | daemon/internal/systemproxy/systemproxy.go:48-113 | After a history that left a file, a `Disable` in which nothing fails succeeds if and only if no write was interrupted. |
| `Proxy.Manager.TurnOn` | daemon/internal/systemproxy/systemproxy.go:48-92 | The method's commands, in order and with failures, leave the specified world. |
| `Proxy.Manager.TurnOff` | daemon/internal/systemproxy/systemproxy.go:94-113 | Likewise for turning off. |
| `Proxy.Manager.IssueAll` | daemon/internal/systemproxy/systemproxy.go:127-145 | Commands run in order up to the first failure. |
| `Auth.ArtifactsExactly` | daemon/internal/auth/analyzer.go:178-207 | There is an artifact for a type, name and value if and only if some flow's response or request carried it. |
| `Auth.SourceExactly` | daemon/internal/auth/analyzer.go:66-113 | Its source is the first flow in processing order, among those with an id, whose response carried it; it is empty if and only if no response of such a flow did. |
| `Auth.AnswersComeFirst` | daemon/internal/auth/analyzer.go:66-83 | Within a flow the response's tokens are processed before the request's. |
| `Auth.UsersExactly` | daemon/internal/auth/analyzer.go:79-83 | Its users are exactly the ids of the flows whose requests carried it, without repeats. |
| `Auth.LocationsExactly` | daemon/internal/auth/analyzer.go:203-205 | Its locations are exactly the non-empty ones at which some flow carried it, without repeats. |
| `Auth.SeenExactly` | daemon/internal/auth/analyzer.go:194-199 | `FirstSeen` and `LastSeen` are the earliest and the latest time of a flow that carried it. |
| `Auth.LinksPointBack` | daemon/internal/auth/analyzer.go:84-96 | A CSRF link made for a request names it, and its source is a strictly earlier flow whose response carried the same value. |
| `Auth.ChainLinksPointBack` | daemon/internal/auth/analyzer.go:66-113 | So does every link of the finished chain. |
| `Auth.UsesAreLinked` | daemon/internal/auth/analyzer.go:84-96 | A request with a CSRF token that other flows' responses handed out is always linked. |
| `Auth.HandedOutUseIsLinked` | daemon/internal/auth/analyzer.go:66-113 | A request with a token, under a name with `csrf` or `xsrf` in it in any case, that an earlier flow's response handed out under such a name or as a CSRF token is linked in the finished chain to an earlier flow whose response carried the value, unless its own flow's response carried it. |
| `Auth.LinkSaysExactly` | daemon/internal/auth/analyzer.go:84-96 | A link gives the name, user and place of a use under such a name, a source other than the user, whose response carried an artifact of the same value, and the place where that artifact was first seen. |
| `Auth.FirstLocation` | daemon/internal/auth/analyzer.go:431-436 | The first location of an artifact is the first named place at which it was seen. |
| `Auth.UniqueKeepsOneOfEach` | daemon/internal/auth/analyzer.go:438-450 | No two links of the chain agree in token, source and user; none is invented, and each link made is represented. |
| `Auth.UniqueCsrfLinks` | daemon/internal/auth/analyzer.go:438-450 | The loop with its set of seen keys keeps the first link of each. |
| `Auth.Index.Upsert` | daemon/internal/auth/analyzer.go:178-207 | The entry of the observed key is created or updated in times, source and locations; all others stay. |
| `Auth.Index.FindCsrfSource` | daemon/internal/auth/analyzer.go:223-231 | Returns some matching artifact handed out as a CSRF token, or nothing if there is none. |
| `Auth.Index.Use` | daemon/internal/auth/analyzer.go:79-97 | A request's observation updates the users and yields a link that the specification allows. |
| `Auth.Trace` | daemon/internal/auth/analyzer.go:42-120 | The pass fails exactly on no flows; otherwise its artifacts and links are those of the specification, for some order of searching. |

## Left out

Of the modelled files:

- `classify`'s verdict on a flow is an input of the compiler (`included`); step names, kinds and reasons are not modelled.
- Ids and times come from outside and are parameters; a blob that cannot be read counts as absent.
- `encoding/json` decoding is abstract: a body comes with its decoded document. A document's strings come out of the decoder as valid UTF-8.
- A number is known by its shortest decimal digits; computing them from the bits of a float is not modelled.
- Fidelity.RawBodyStoredExactly: of the texts in the JSON column only the body is passed through its coercion; header names come out of JSON and header texts are placeholders, so they are valid UTF-8 already.
- Fidelity.CaptureReplay: the answer to an authentication refresh is arbitrary, and the retry after it is answered as captured, like the step itself.
- Lower-casing is that of ASCII letters, so a Kelvin sign is not taken for a `k`.
- An override's method, URL and removed headers, applied authentication material, and the header editing that prepares a request are not modelled; query overrides are carried along unexpanded.
- Compiler.Suggest: input schemas and field lists beyond the defaults are not modelled, nor is storing the workflow.
- EventStream.StandardAgreesExactly: speaks of printed events; the standard's reconnection times and its replacement of invalid UTF-8 are not modelled, and its default type `message` stays empty.
- Requests the compiler left alone are sent from the recorded flow by the engine, which is outside. The condition `Fidelity.Replayable` is sufficient, not necessary; the exact lemmas above say which single limits are sharp.
- Runner.RunWorkflow: dry runs store no response, as the engine does, but the prepared request they return is not modelled.
- Retry.Engine.Run: dry runs, preparing the request and the choice of adapter are not modelled.
- TypeScript.EvaluatorsAgreeExactly: references named like a property that every object inherits, such as `constructor`, are excluded: unresolved, `bind` finds the inherited value.
- TypeScript.ReadersAgreeExactly: inherited properties, such as `constructor`, are not modelled, nor are array indices beyond exact doubles.
- TypeScript.PrintsAlikeExactly: containers are excluded; Go and JavaScript print them differently.
- The rest of the exporter (redaction, joining header values, schemas, the Python, Docker and OpenAPI forms) is not modelled.
- Protobuf.ParseProtobufLoop: lengths and offsets are mathematical integers; the wrap-around of the bounds check near 2^63 is not modelled.
- Shell.Curl: redaction and decoding the stored headers are not modelled; a text with a NUL byte cannot be a shell argument and is not treated apart.
- Cdp.Correlation: the socket, JSON decoding and the time at which a step is taken are outside; any order of steps is allowed.
- Proxy.Manager.TurnOn: parsing the output of the network tool is outside; one service is modelled.
- Auth.SeenExactly: speaks of flows with a time, which the store gives to every flow it inserts (`daemon/internal/store/store.go:495-497`).
- Auth.Trace: the artifacts shared through the Go map are modelled as its entries, written back after each change, so aliasing is not captured; the final sorting of artifacts, users and locations is left out, and which tokens a message carries is an input. Fingerprints are taken as injective.

Of the repository: network and process work, the SQLite store and its time-based pruning, cryptography and compression,
the browser manager, JSON-RPC and MCP dispatch, fidelity profiles, redaction rules, protobuf source parsing, tagging and
mobile setup.
