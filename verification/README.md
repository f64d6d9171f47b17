# Lynx stack: verified models of its hardest small programs

This project models, in Dafny 4.11, the parts of the Lynx repository where a small amount of code carries a large
promise, and proves those promises for all inputs or all runs. `dafny verify dfyconfig.toml` checks everything.

**The Lynx XML assembly pipeline** (`packages/genui/lynx-xml/src`)

- `XmlFragment`, `ElementMachine`, `FragmentCompiler`: the compiler from a parsed XML fragment to a straight-line program, the
  machine that program runs on (one `element` register, a stack of open parents, a map of named nodes, a heap of native
  nodes), and compiler correctness. The compiler is a class that pushes onto its output in place; each method is tied to the
  code the fragment stands for. `ScriptLiterals`, `FragmentScript` and `ProgramReader` are the program as script text: every
  literal denotes its value, no program contains a closing script tag, and the text reads back as the program.
  `FragmentMeaning` tells the class names, the ids and the denoted forest from the markup alone.
- `PageModel`, `PageSafety`, `PageRuntime`: the `definePage` runtime. `PageModel` is the state machine over engine events,
  listener events and hook actions, which nest and re-enter; `PageRuntime` is the object that changes its fields in place,
  tied to it step by step; `PageSafety` proves what must not happen over whole runs, `PageLiveness` what must.
- `Splice`, `BlockSplicing`, `ArtifactScan`, `ArtifactAssembly`, `ArtifactSplicing`, `ArtifactTransform`,
  `ArtifactProjection`, `AssembledContent`, `ArtifactNormalization`: the document assembler. Edits sorted by descending start
  and applied from right to left are one simultaneous substitution; the edited text is the rendering of a rewritten block
  list; it scans back into that list, and assembling it again changes nothing. `AssembledContent` says which documents are
  assembled, and what the main script and the style sheet of the result are.

**Catalog schemas** (`packages/genui/a2ui-catalog-extractor`, `packages/genui/a2ui-prompt`)

- `TypeSchema`, `SchemaMeaning`, `SchemaConditions`: types and JSON Schemas each have a meaning over JSON values. The strict
  translator keeps it on the types `SchemaMeaning` delimits; `SchemaConditions` says for each kind of type it gets wrong
  exactly when it does. `oneOf` is read as section 10.2.1.3 of JSON Schema Core 2020-12 defines it, closed objects as section
  10.3.2.3. `TypeAcceptance` says which types are accepted, and what is reported for the others, `PropertyOrder` in which
  order properties are listed.
- `FunctionArguments`, `ArgumentMeaning`, `FunctionCatalog`: the relaxed translator extends the strict one without changing
  a meaning, its schemas mean the argument types, and the catalog reader undoes the catalog writer.

**Translated documentation pages** (`docs/plugins/translate.ts`): `MarkdownLinks`, `PageTranslation`, `PageLines`,
`PageReading`, `PageContent`, `Translations`. `PageContent` tells the whole translated page from its lines, the dictionary and
the patterns that `PageReading` spells out.

**Smaller stateful programs**: `MemoSelector` (the memoizing selector), `Flappy` (a physics loop over the reals),
`SourceMapLookup` (greatest lower bound of a generated position), `CallScanner` (the end of a call expression), `Profiler`
(benchmarks bracketed by nested profiles).

`Text` holds the ECMAScript string operations the others share. A callback, an external parser or an analysis is a parameter:
the XML parser, the JavaScript analyses of the main script, the registry of utility rules and the shared runtime text
(`ArtifactAssembly.World`), the word patterns of `hasProse`, the selector and its equality, the names every plain object
inherits.

## Promises that do not hold as stated

Each of these is kept as the code has it. In brackets: a lemma with an input, then one with the exact condition.

- A fragment with an element called `constructor`, if the XML parser lets that name through, compiles to a program that does
  not start, because the factory table is a plain object and answers with an inherited function. Every other accepted
  fragment builds what it denotes (`InheritedNameBreaks`, `CompilerCorrect`). So a document whose template has such an
  element is assembled, and the result is refused when it is assembled again, because its main script does not parse; the
  model reaches that refusal only through the verdict of the analyses, `World.accepts` (`AssembledAgain`).
- `keyof T` becomes the schema of `T`. A type operator is translated exactly if and only if it is not `keyof`; for `keyof`
  the schema is still sound exactly when `T` is made of literals that name members of strings, as in `keyof "length"`. The
  keys of an object type are always rejected (`KeyOfBreaks`, `OperatorExact`, `KeysRejected`).
- Members of an object type that are no properties are skipped, and so are call signatures and index signatures. The schema is
  sound exactly when no such member is required, and exact exactly when besides no value can carry one
  (`MethodBreaks`, `ObjectSoundExact`, `ObjectExact`).
- A required property called `__proto__` is asked for but not declared, so no value is valid (`ProtoBreaks`, `ObjectExact`).
- A union of the same boolean literal twice becomes `boolean`; a union is translated soundly exactly when it is no such union.
  A value that belongs to two members with different schemas, as `[]` to `string[] | number[]`, is rejected by `oneOf`; a
  union is translated exactly when besides no value does (`OverlapBreaks`, `BooleanUnionExact`, `UnionExact`).
- A record whose keys are a union of literals neither requires nor enforces them; a record is translated right exactly when
  its key type is `string` (`LiteralKeysBreak`, `RecordExact`).
- The memoizing selector answers `undefined` where the plain selector answers something else, exactly when its very first
  call threw, in the selector or in the equality, and the same snapshot comes again before another call succeeds
  (`ThrowThenUndefined`, `ComparisonThrowThenUndefined`, `AgreementExact`).
- A translation goes through `replace`, which reads `$` patterns in it: `US$$` is printed as `US$`. It is printed verbatim
  exactly when it holds no pattern (`DollarLost`, `TranslatedText`).
- An entry emptied in the local file over a nonempty base entry, and not used since, shows the base value again after a save
  and a reload (`EmptiedReturns`, `ReloadExact`).
- A profile named like the ignore marker unbalances the depth: a run in which nothing throws ends with a depth that counts
  its open entries exactly unless one was started and no plain object inherits that name (`MarkerUnbalances`,
  `MarkerExact`).
- No name and the name `undefined` share one verdict. If the name comes first, an unnamed profile outside of every counting
  one makes the end hook throw; if no name comes first, a profile called `undefined` outside of every counting one is not
  benchmarked. Nothing else goes wrong before the throw, and nothing is benchmarked behind it (`UndefinedThrows`,
  `UndefinedSkipped`, `RunExact`, `NothingAfterThrow`).
- Where an insertion and a removal start at the same offset, the order of collection decides: listed the other way round,
  the insertion is lost (`TieOrderMatters`). The assembler lists them in the order that works.

## Model

| member | source | states |
|---|---|---|
| FragmentCompiler.CompilerCorrect | packages/genui/lynx-xml/src/html-fragment.ts:70-311 | for every fragment that compiles, the program run from `parents = [page]` leaves exactly the denoted forest under the page, every node with one place below an older one, each id bound to the node of the element carrying it, `parents` back at the page and always between 1 and 65 high; with a `constructor` element it does not start |
| ElementMachine.ExecOrderly | packages/genui/lynx-xml/src/html-fragment.ts:70-252 | whatever instructions run, every attached node but the page keeps exactly one place, below an older node |
| FragmentCompiler.InheritedNameBreaks | packages/genui/lynx-xml/src/html-fragment.ts:61-67 | if the XML parser returns an element called `constructor`, the fragment `<constructor/>` compiles, and its program does not start |
| FragmentCompiler.GenerateExact | packages/genui/lynx-xml/src/html-fragment.ts:255-300 | a program is produced exactly when the text is not blank, not too long, well-formed, every element admissible at its depth, all ids distinct and something visible is denoted |
| FragmentMeaning.NamesExact | packages/genui/lynx-xml/src/html-fragment.ts:93-124 | the class names of a compiled fragment are exactly the words, cut at white space, of the `class` attributes of elements other than `raw-text` at any depth; its bindings are exactly the ids, none twice |
| FragmentMeaning.WordsExact | packages/genui/lynx-xml/src/html-fragment.ts:101-103 | the class tokens of an attribute are exactly the slices of its value without white space that white space or an end of the value borders on each side |
| FragmentMeaning.ForestMarkup | packages/genui/lynx-xml/src/html-fragment.ts:178-252 | what accepted nodes denote reads back as their own markup, every attribute included: blank text is dropped, other text becomes `raw-text`, wrapped in `text` where it stands outside of one, and nothing else changes |
| FragmentCompiler.GenerateMainThreadScriptResult | packages/genui/lynx-xml/src/html-fragment.ts:255-311 | the whole compiler run: the program, ids and class names of the specification, which `CompilerCorrect` and `NamesExact` pin down, or its first fault |
| FragmentCompiler.Generator.AppendText | packages/genui/lynx-xml/src/html-fragment.ts:70-90 | blank text adds nothing, text inside `text` one raw leaf, other text a leaf in a text node of its own |
| FragmentCompiler.Generator.AppendAttribute | packages/genui/lynx-xml/src/html-fragment.ts:93-124 | one attribute adds its own setting, its id once, and its class tokens, which are exactly its words (`WordsExact`); a repeated id is the fault |
| FragmentCompiler.Generator.AppendRawText | packages/genui/lynx-xml/src/html-fragment.ts:127-175 | raw-text adds its leaf, wrapped outside `text`, or reports the first thing wrong with it |
| FragmentCompiler.Generator.AppendAttributes | packages/genui/lynx-xml/src/html-fragment.ts:229-233 | the attribute loop emits all attributes in order or stops at the first repeated id |
| FragmentCompiler.Generator.AppendParsedNode | packages/genui/lynx-xml/src/html-fragment.ts:178-252 | one node appends exactly its code, ids and classes to the output, or reports the first fault in document order |
| FragmentCompiler.Generator.AppendForest | packages/genui/lynx-xml/src/html-fragment.ts:239-250 | the children loop appends the code of every child in order, or stops at the first fault |
| FragmentCompiler.Builds | packages/genui/lynx-xml/src/html-fragment.ts:178-252 | in every ready machine state a node's code adds exactly its trees to the innermost open parent and changes nothing else that existed, although children overwrite the register |
| FragmentCompiler.GarbledExact | packages/genui/lynx-xml/src/html-fragment.ts:62-67 | the emitted code contains the garbled call exactly when some element has the inherited name |
| XmlFragment.FaultExact | packages/genui/lynx-xml/src/html-fragment.ts:178-252 | no fault is reported exactly when the node is admissible at its depth and brings only new, distinct ids |
| XmlFragment.RawFaultExact | packages/genui/lynx-xml/src/html-fragment.ts:134-161 | raw-text is accepted exactly when it holds only text, only `text` and `id` attributes, not both text and body, and a new id |
| XmlFragment.TagNameExact | packages/genui/lynx-xml/src/html-fragment.ts:202-206 | a tag name is a lower-case letter followed by lower-case letters, digits and hyphens |
| XmlFragment.LookupExact | packages/genui/lynx-xml/src/html-fragment.ts:134-161 | looking an attribute up finds the value of the first one of the name |
| ScriptLiterals.LiteralRoundTrip | packages/genui/lynx-xml/src/html-fragment.ts:54-59 | reading the emitted literal by the rules of ECMAScript gives back the value |
| ScriptLiterals.LiteralNeverCloses | packages/genui/lynx-xml/src/html-fragment.ts:54-59 | nowhere in a literal does a closing script tag begin, in any letter case |
| FragmentScript.ProgramQuiet | packages/genui/lynx-xml/src/html-fragment.ts:304-309 | no generated program, whatever its literals, contains a closing script tag |
| ProgramReader.ProgramReadsBack | packages/genui/lynx-xml/src/html-fragment.ts:70-311 | the text of a program without the garbled call reads back, line by line and literal by literal, as exactly its instructions |
| ProgramReader.TextCorrect | packages/genui/lynx-xml/src/html-fragment.ts:255-311 | for a fragment that compiles and has no `constructor` element, the script text, read back and run, builds the denoted forest under the page, every node with one place, with every id bound |
| PageSafety.EveryRunIsSafe | packages/genui/lynx-xml/src/script-reuse.ts:34-188 | over every run of events, with hooks nesting and re-entering as they like: registrations and dispose closures correspond one to one, the log is safe, and once destruction is over nothing is registered |
| PageSafety.SafeLogMeaning | packages/genui/lynx-xml/src/script-reuse.ts:78-184 | a safe log has at most one page creation, render hook and destroy hook; each listener is added and removed at most once and removed only after it was added; updates come after page creation; nothing is flushed, rendered, updated or added once `destroyed` is set |
| PageSafety.UpdatesAfterRender | packages/genui/lynx-xml/src/script-reuse.ts:151-164 | in every run of a page with a render hook, no update hook runs before the render hook has |
| PageSafety.DestroyFinishes | packages/genui/lynx-xml/src/script-reuse.ts:165-184 | after destroy, even when its hook throws, no engine listener, dispose closure or live listener is left and every listener ever added was removed |
| PageSafety.ReplaceChildrenExact | packages/genui/lynx-xml/src/script-reuse.ts:61-65 | exactly the listeners on nodes reachable from the old children and not from the new ones are gone; all others are kept, in order |
| PageSafety.ListenersFollowTree | packages/genui/lynx-xml/src/script-reuse.ts:61-65 | in the tree that results, of the listeners on elements formerly below the parent exactly those are left whose element is still below it, also when new children are taken from other elements |
| PageSafety.KeptIsFilter | packages/genui/lynx-xml/src/script-reuse.ts:124-135 | membership in the list left over is the filter of the old list |
| PageLiveness.ReachesExact | packages/genui/lynx-xml/src/script-reuse.ts:116-123 | reached are the roots, and the children of what is reached |
| PageSafety.HandleKeeps | packages/genui/lynx-xml/src/script-reuse.ts:151-184 | one event, whatever is nested in it, keeps the invariant, only adds to the log and never takes back a lifecycle flag |
| PageSafety.DisposedKeeps | packages/genui/lynx-xml/src/script-reuse.ts:136-146 | disposing keeps the one-to-one correspondence and removes a listener only if it was live |
| PageLiveness.EveryDeliveryAnswers | packages/genui/lynx-xml/src/script-reuse.ts:86-164 | in every run: a delivery that does not pass its guard changes nothing; one that does logs its hook right behind what was there, and an update or a listener's event has `Flushed` as the last effect unless it throws or destroys the page |
| PageLiveness.DeliveryFlushes | packages/genui/lynx-xml/src/script-reuse.ts:86-164 | from any state, a passed update or listener event ends with `Flushed` unless it throws or destroys the page |
| PageLiveness.BodyRuns | packages/genui/lynx-xml/src/script-reuse.ts:86-184 | a passed delivery performs the whole body of its hook or handler in the state it enters, exceptions included; behind it come at most the flush and, for a destruction, the removals |
| PageLiveness.BodyTraces | packages/genui/lynx-xml/src/script-reuse.ts:55-164 | a body is its actions one after the other, each from the state the one before left, up to the first exception |
| PageLiveness.DestroyDrains | packages/genui/lynx-xml/src/script-reuse.ts:165-184 | destroying takes every listener back that there is once the hook is done, from the last one on, and then ends |
| PageLiveness.Listens | packages/genui/lynx-xml/src/script-reuse.ts:84-146 | before destruction `on` and `listen` leave exactly one new live listener, on that node or on none, and afterwards nothing |
| PageLiveness.Unsubscribes | packages/genui/lynx-xml/src/script-reuse.ts:136-146 | disposing a live listener removes that one and no other, a second time nothing |
| PageLiveness.EmitReaches | packages/genui/lynx-xml/src/script-reuse.ts:82-83 | an emitted event is delivered in order, until one listener throws, exactly while the page is not destroyed |
| PageLiveness.FlushReaches | packages/genui/lynx-xml/src/script-reuse.ts:79-81 | an explicit flush reaches the platform exactly while the page is not destroyed |
| PageLiveness.TreeReplaced | packages/genui/lynx-xml/src/script-reuse.ts:61-65 | replacing children changes the tree, and besides only takes back the listeners that the old children reach and the new ones do not |
| PageRuntime.DefinePage.Dispose | packages/genui/lynx-xml/src/script-reuse.ts:137-142 | the closure splices itself out and takes its listener back, once |
| PageRuntime.DefinePage.Track | packages/genui/lynx-xml/src/script-reuse.ts:136-146 | a new closure goes to the end of the list, its listener goes live |
| PageRuntime.DefinePage.Subscribe | packages/genui/lynx-xml/src/script-reuse.ts:84-110 | nothing is registered after destruction, otherwise one listener |
| PageRuntime.DefinePage.ContainsNode | packages/genui/lynx-xml/src/script-reuse.ts:116-123 | the recursive search answers true exactly when the target is reachable in the native tree |
| PageRuntime.DefinePage.DisposeRemovedListeners | packages/genui/lynx-xml/src/script-reuse.ts:124-135 | the descending loop that splices the list it walks leaves exactly the filtered list |
| PageRuntime.DefinePage.ReplaceChildren | packages/genui/lynx-xml/src/script-reuse.ts:61-65 | listeners of discarded subtrees go, then the tree changes |
| PageRuntime.DefinePage.Drain | packages/genui/lynx-xml/src/script-reuse.ts:171-182 | the draining loop terminates with all listeners removed from the last one on |
| PageRuntime.DefinePage.OnRender | packages/genui/lynx-xml/src/script-reuse.ts:151-159 | creates the page and runs the hook once, never after destruction |
| PageRuntime.DefinePage.OnUpdate | packages/genui/lynx-xml/src/script-reuse.ts:160-164 | runs between render and destroy only, and flushes unless destroyed meanwhile: `BodyRuns` and `DeliveryFlushes` say what has to happen |
| PageRuntime.DefinePage.OnDestroy | packages/genui/lynx-xml/src/script-reuse.ts:165-184 | sets the flag, runs the hook, drains in every case, then lets the exception through |
| PageRuntime.DefinePage.Dispatch | packages/genui/lynx-xml/src/script-reuse.ts:86-108 | a delivery behaves as the state machine says, guards included: `BodyRuns` and `DeliveryFlushes` say what has to happen |
| Splice.SplicingCorrect | packages/genui/lynx-xml/src/fragment-artifact.ts:335-341 | sorting compatible edits stably by descending start and applying them one by one is the simultaneous substitution of disjoint ranges of the source, ties with an insertion included |
| Splice.ApplyEdits | packages/genui/lynx-xml/src/fragment-artifact.ts:335-341 | the splicing loop computes that substitution |
| Splice.TieOrderMatters | packages/genui/lynx-xml/src/fragment-artifact.ts:329-335 | with the tie collected the other way round the insertion is lost |
| BlockSplicing.CollectedSubstitutes | packages/genui/lynx-xml/src/fragment-artifact.ts:287-341 | drops, additions, style edits and a root insertion, in the order collected, are compatible and change each block in place, also when a template starts right at the end of the root tag |
| ArtifactSplicing.EditsRender | packages/genui/lynx-xml/src/fragment-artifact.ts:287-341 | splicing the collected edits gives the untouched root tag followed by the rendering of the rewritten blocks |
| ArtifactTransform.TransformLynxXmlArtifact | packages/genui/lynx-xml/src/fragment-artifact.ts:72-342 | the assembler fails exactly with the first failure in the order of its checks, and otherwise returns the assembled text, which `MainScriptExact`, `StylesExact` and `FinalBodies` pin down, and the body of its template |
| AssembledContent.AcceptedExact | packages/genui/lynx-xml/src/fragment-artifact.ts:72-285 | a document is assembled exactly when the preset is known and its text is a root tag, well-formed blocks and `</lynx>`, with one main script that the analyses accept, and one template that compiles in template mode, otherwise none |
| AssembledContent.FailureReports | packages/genui/lynx-xml/src/fragment-artifact.ts:72-285 | for every other document what is reported is wrong with it, told from its blocks, and nothing that is checked before is |
| AssembledContent.MainScriptExact | packages/genui/lynx-xml/src/fragment-artifact.ts:287-309 | the main script in the assembled text is the authored one, then for a template the head of `createFragment`, a program and its tail, then for reuse the shared runtime; the program reads back and, run, shows what the template denotes with its ids bound, unless some element has the inherited name |
| AssembledContent.StylesExact | packages/genui/lynx-xml/src/fragment-artifact.ts:310-336 | the assembled text has at most one style block: the page rule for reuse, then with the default preset exactly the registered rules for classes that the template wears or a script literal mentions, each once in registry order, then the authored styles in source order |
| ArtifactTransform.ScanBlocks | packages/genui/lynx-xml/src/fragment-artifact.ts:91-138 | the scanning loop finds every block with its offsets, or reports an unclosed block, a second template or a second main script |
| ArtifactTransform.CollectEdits | packages/genui/lynx-xml/src/fragment-artifact.ts:287-334 | the edits are pushed in the order drop, append, styles or root insertion |
| ArtifactTransform.CollectStyleEdits | packages/genui/lynx-xml/src/fragment-artifact.ts:317-327 | the first style block is replaced by the merged one, all others are removed |
| ArtifactScan.RenderScan | packages/genui/lynx-xml/src/fragment-artifact.ts:91-138 | whatever was scanned renders back to the source and is in normal form |
| ArtifactScan.ScanRender | packages/genui/lynx-xml/src/fragment-artifact.ts:91-138 | a document in normal form scans into exactly its blocks |
| ArtifactScan.RootEndStable | packages/genui/lynx-xml/src/fragment-artifact.ts:78-84 | the root tag is recognised from its own text alone, whatever follows |
| ArtifactScan.RootExact | packages/genui/lynx-xml/src/fragment-artifact.ts:76-82 | a root tag is found exactly where the text begins with white space, the doctype, white space and a `<lynx` tag up to its first `>` |
| ArtifactScan.BlockSpelled | packages/genui/lynx-xml/src/fragment-artifact.ts:91-100 | the opening and closing tag of each kind of block, spelled out |
| ArtifactScan.ExtractsItself | packages/genui/lynx-xml/src/output.ts:26-40 | a text that begins with the doctype and ends with the closing tag is its own extract |
| ArtifactProjection.AssemblyIsProjection | packages/genui/lynx-xml/src/fragment-artifact.ts:43-52 | extracting and assembling an assembled extract with all features off returns it unchanged |
| ArtifactProjection.AssembledAgain | packages/genui/lynx-xml/src/fragment-artifact.ts:72-342 | the second assembly is refused exactly when the analyses refuse the extended script, and otherwise changes nothing |
| ArtifactProjection.ExtractedAgain | packages/genui/lynx-xml/src/output.ts:26-40 | an assembled extract extracts to itself |
| ArtifactProjection.PremisesMet | packages/genui/lynx-xml/src/fragment-artifact.ts:72-342 | the smallest document, one empty main script, extracts to itself and is assembled without a failure, twice |
| ArtifactProjection.Rescans | packages/genui/lynx-xml/src/fragment-artifact.ts:91-144 | the assembled text has the same root tag and scans into exactly the rewritten blocks, with no template |
| ArtifactProjection.FinalBodies | packages/genui/lynx-xml/src/fragment-artifact.ts:287-334 | background scripts and comments stay, the main script gains only the addition, and at most one style block is left: preset rules first, authored styles behind in source order |
| ArtifactProjection.FactoryEnds | packages/genui/lynx-xml/src/fragment-artifact.ts:290-303 | the generated factory never ends the script element it is put into |
| ArtifactProjection.RulesInOrder | packages/genui/lynx-xml/src/style-preset.ts:312-315 | each registered rule is emitted exactly when its class is used, in registry order |
| ArtifactNormalization.CountOccurrences | packages/genui/lynx-xml/src/output.ts:10-20 | the counting loop counts occurrences one behind the end of the other |
| ArtifactNormalization.SteppingCountsAll | packages/genui/lynx-xml/src/output.ts:10-20 | for a pattern that cannot overlap itself that is the number of all occurrences |
| ArtifactNormalization.NormalizedTwice | packages/genui/lynx-xml/src/output.ts:57-90 | normalizing an accepted artifact again changes nothing, and it holds exactly one main script tag |
| ArtifactNormalization.NormalizeExact | packages/genui/lynx-xml/src/output.ts:57-90 | told by occurrences in the extracted text: it is returned exactly when it is not empty, ends with the closing tag, begins with the doctype and a versioned root, holds exactly one main script tag with a closing tag somewhere behind it, and no CDATA; otherwise the first of these that fails is reported |
| ArtifactNormalization.ExtractExact | packages/genui/lynx-xml/src/output.ts:26-40 | extracted is the text from the first doctype, or without one from the first root tag, to the last closing tag behind that, or without one to the end, trimmed at its end, and the doctype is put in front of a text without one |
| SchemaMeaning.SchemaExact | packages/genui/a2ui-catalog-extractor/src/core.ts:904-1149 | the emitted schema accepts exactly the values of the type, if at every level members of a union with different schemas share no value, object types have properties and optional methods only, records are keyed by `string`, and there is no `keyof` |
| TypeAcceptance.AcceptedExact | packages/genui/a2ui-catalog-extractor/src/core.ts:904-1149 | a type has a schema exactly when it is a string, number or boolean, a literal of one, a union of such without `null` and with more than `undefined`, an array of such, an object type whose properties are such, a record from strings or string literals to such, `any` or `unknown`, or a wrapper around such |
| TypeAcceptance.TypeReports | packages/genui/a2ui-catalog-extractor/src/core.ts:904-1149 | for every other type the error is that of the first thing wrong with it, from the outside and from the left |
| SchemaMeaning.Soundness | packages/genui/a2ui-catalog-extractor/src/core.ts:904-1149 | every JSON value valid under the schema of an accepted type inhabits the type, if nothing required is skipped, records are keyed by `string`, no union is a boolean literal twice, and there is no `keyof` |
| SchemaMeaning.Completeness | packages/genui/a2ui-catalog-extractor/src/core.ts:904-1149 | every inhabitant is valid, under the conditions of `SchemaExact` |
| SchemaMeaning.ChildrenParsed | packages/genui/a2ui-catalog-extractor/src/core.ts:1069-1105 | the closed object schema lists exactly the declared properties, requires exactly the ones that may not be absent |
| PropertyOrder.ObjectInOrder | packages/genui/a2ui-catalog-extractor/src/core.ts:1069-1105 | both translators list the properties of an object in the order ECMA-262 gives them, array indices first and ascending, and the required names in the order of the members |
| PropertyOrder.AssignExact | packages/genui/a2ui-catalog-extractor/src/core.ts:1096-1101 | setting a property: a known name keeps its place, a new one goes in front of the first name it overtakes or to the end, and the list stays in order |
| PropertyOrder.IndexExact | packages/genui/a2ui-catalog-extractor/src/core.ts:1348-1350 | the names listed first are exactly the numbers below 2^32 - 1 in decimal |
| TypeSchema.AbsentExact | packages/genui/a2ui-catalog-extractor/src/core.ts:1267-1284 | a property may be absent exactly when it is optional or declared as a union with `undefined` |
| SchemaMeaning.OneOfCompleteness | packages/genui/a2ui-catalog-extractor/src/core.ts:1058-1066 | after equal alternatives are merged, a value of members apart is valid under exactly one alternative |
| SchemaConditions.UnionExact | packages/genui/a2ui-catalog-extractor/src/core.ts:1012-1067 | a union of exactly translated members is sound exactly unless it is one boolean literal twice, and exact exactly when besides members with different schemas share no value |
| SchemaConditions.BooleanUnionExact | packages/genui/a2ui-catalog-extractor/src/core.ts:1049-1056 | every union whose members are two boolean literals becomes `boolean`, which is sound exactly when they differ |
| SchemaConditions.OverlapBreaks | packages/genui/a2ui-catalog-extractor/src/core.ts:1058-1066 | the union of `string[]` and `number[]` is translated to a schema that rejects `[]` |
| SchemaConditions.IndicesMerged | packages/genui/a2ui-catalog-extractor/src/core.ts:1348-1350 | two object types that differ in the order of an index name and another one become equal schemas, which are merged |
| SchemaConditions.OperatorExact | packages/genui/a2ui-catalog-extractor/src/core.ts:942-949 | a type operator over an exactly translated target is exact if and only if it is not `keyof`, and sound if and only if it is not `keyof` or the target is made of literals that name members of strings |
| SchemaConditions.KeysRejected | packages/genui/a2ui-catalog-extractor/src/core.ts:942-949 | every name of a member of an object type is a value of its `keyof`, and the schema rejects it |
| SchemaConditions.KeyOfBreaks | packages/genui/a2ui-catalog-extractor/src/core.ts:942-949 | the schema of the keys of an object type with one property accepts an object with that property and rejects the key |
| SchemaConditions.RecordExact | packages/genui/a2ui-catalog-extractor/src/core.ts:1124-1143 | an accepted record type is translated soundly, and exactly, exactly when its key type is `string` |
| SchemaConditions.LiteralKeysBreak | packages/genui/a2ui-catalog-extractor/src/core.ts:1124-1143 | the schema of a record with one literal key accepts the empty object and an object with another key, which are no values of it |
| SchemaConditions.ObjectSoundExact | packages/genui/a2ui-catalog-extractor/src/core.ts:1087-1102 | an object type whose members are named once and whose properties are translated exactly is translated soundly exactly when nothing required is skipped, or when a required `__proto__` leaves nothing valid |
| SchemaConditions.ObjectExact | packages/genui/a2ui-catalog-extractor/src/core.ts:1087-1102 | such an object type is translated exactly when no property is called `__proto__`, every other member is optional and can have no value in JSON, and no index signature has a value; one that has to carry what JSON cannot has no value, and its schema has none exactly if it requires `__proto__` |
| SchemaConditions.MethodBreaks | packages/genui/a2ui-catalog-extractor/src/core.ts:1087-1090 | an object type with one required method has no JSON value, and its schema accepts the empty object |
| SchemaConditions.ProtoBreaks | packages/genui/a2ui-catalog-extractor/src/core.ts:1096-1101 | an object type with a required property called `__proto__` has values, and its schema has none |
| TypeSchema.ParseObjectReflection | packages/genui/a2ui-catalog-extractor/src/core.ts:1069-1105 | the loop over children agrees with the recursive translation, errors included; it succeeds exactly when every property has an accepted type (`AcceptedExact`) |
| TypeSchema.ParseUnionType | packages/genui/a2ui-catalog-extractor/src/core.ts:1012-1067 | the union translator agrees with the recursive translation, errors included |
| TypeSchema.ParseAlternatives | packages/genui/a2ui-catalog-extractor/src/core.ts:1058-1066 | the loop keeps the first of equal schemas and stops at the first error |
| FunctionArguments.Conservative | packages/genui/a2ui-catalog-extractor/src/core.ts:731-778 | on every type the strict translator accepts, the relaxed one succeeds with a schema for exactly the same values |
| TypeAcceptance.AcceptedParamExact | packages/genui/a2ui-catalog-extractor/src/core.ts:695-778 | the relaxed translator accepts exactly: `any` and `unknown`, arrays, object types and records of any keys over accepted types, unions with one member besides `undefined` that is accepted or with an `any` or `unknown` among several, and what the strict one accepts |
| ArgumentMeaning.ParamSoundness | packages/genui/a2ui-catalog-extractor/src/core.ts:695-778 | every value valid under the relaxed schema of an accepted type inhabits it, if nothing required is skipped, records are keyed by `string`, and what is left to the strict translator is sound |
| ArgumentMeaning.ParamExact | packages/genui/a2ui-catalog-extractor/src/core.ts:695-778 | on argument types of exact shape, types only the relaxed translator accepts included, the schema accepts exactly the values of the type |
| FunctionArguments.DifferentTexts | packages/genui/a2ui-catalog-extractor/src/core.ts:766-775 | for `Record<string, unknown>` the two schemas differ as texts |
| FunctionArguments.ParseFunctionObjectReflection | packages/genui/a2ui-catalog-extractor/src/core.ts:695-729 | the relaxed loop over children agrees with the recursive translation |
| FunctionCatalog.CreateFunctionSchemas | packages/genui/a2ui-catalog-extractor/src/core.ts:484-519 | fails exactly when two names coincide, and then names exactly the repeated ones |
| FunctionCatalog.CallsAdmitted | packages/genui/a2ui-catalog-extractor/src/core.ts:501-514 | a written schema admits exactly the objects with the function's name for `call`, with arguments that the parameters admit, with no return type but the function's own, and with nothing else |
| FunctionCatalog.CatalogRoundTrip | packages/genui/a2ui-prompt/src/index.ts:140-187 | reading a written catalog gives every function back, ascending by name, with its return type, its parameters without the dialect and its nonempty description |
| FunctionCatalog.ReadsBack | packages/genui/a2ui-prompt/src/index.ts:163-187 | one written function reads back as what survives of it |
| FunctionCatalog.CatalogRead | packages/genui/a2ui-prompt/src/index.ts:140-187 | reading any catalog yields, ascending by name, exactly the functions whose schema has an object for its arguments and a known return type, with a description if it is a text |
| MarkdownLinks.LinksRestored | docs/plugins/translate.ts:26-34 | the page's targets are back in order, a link too many keeps the translation's own, and the key of the result is the key of the translation |
| MarkdownLinks.KeyTwice | docs/plugins/translate.ts:18-23 | `key` is idempotent |
| MarkdownLinks.OwnTargets | docs/plugins/translate.ts:26-34 | a text put back into itself is unchanged |
| MarkdownLinks.WithTargets | docs/plugins/translate.ts:26-34 | the replacing pass with its running index fills the links in order |
| PageReading.PartsExact | docs/plugins/translate.ts:18-19 | a text reads in exactly one way as link targets and single characters: a target holds neither white space nor a closing bracket, and none begins at a single character |
| PageReading.KeyExact | docs/plugins/translate.ts:21-24 | two texts have the same key exactly when they differ in nothing but link targets |
| PageReading.KeyLinks | docs/plugins/translate.ts:21-24 | a key has the words of its text, and its links lead nowhere |
| PageTranslation.NoDictionaryNoChange | docs/plugins/translate.ts:93-139 | translating without a dictionary is the identity on every page |
| PageContent.PageExact | docs/plugins/translate.ts:93-139 | the translated page is its groups of lines in order: a kept line as it is; for a longest run of other lines, a heading as it is, a table row by row with the first two rows as they are and the cells between first and last that begin with no code translated, and any other paragraph translated |
| PageContent.GroupFound | docs/plugins/translate.ts:118-137 | every kept line and every longest run of other lines is one of these groups |
| PageContent.TextPrints | docs/plugins/translate.ts:50-72 | a paragraph or cell with prose and a nonempty entry is printed as its own leading white space, the expanded entry with its own links in order, and its own trailing white space; any other text is printed as it is |
| PageContent.EntriesExact | docs/plugins/translate.ts:50-139 | the entries of a page are exactly the keys of its paragraphs and cells with prose for which the dictionary, if there is one, has nothing |
| PageReading.KeptExact | docs/plugins/translate.ts:8-15 | a line is kept exactly when it is a fence, has an odd number of fences above it, is blank, or is a quote with white space and then something bold on the line |
| PageReading.ExpandMeaning | docs/plugins/translate.ts:71 | `replace` gives each pattern what it stands for, and every other character itself |
| PageTranslation.PageStructure | docs/plugins/translate.ts:118-137 | the automaton loses, adds and moves no line; it keeps exactly the fence, fenced, declaration and blank lines, told by the number of fences before each, and splits paragraphs only there |
| PageLines.PageKeepsLines | docs/plugins/translate.ts:93-139 | with or without a dictionary, the fence, fenced, declaration and blank lines of a page are lines of the translated page, in order, and the same holds with the lines of all headings and the first two rows of all tables merged in |
| PageTranslation.TranslatedText | docs/plugins/translate.ts:50-72 | a translated text is the expanded entry between the page's own white space, with the page's own links in order; for a text with any character other than `$`, `&`, a backtick and an apostrophe, and so for all prose, it is verbatim exactly when the entry holds no replacement pattern |
| PageTranslation.DollarLost | docs/plugins/translate.ts:71 | the entry `US$$` is printed as `US$`, whatever prose it stands for |
| PageTranslation.JoinCells | docs/plugins/translate.ts:74-86 | splitting a row at unescaped bars and joining it again is the identity |
| Translations.Translations.TranslateText | docs/plugins/translate.ts:50-72 | returns the specified text and records the entry as used, and as missing when a dictionary lacks it |
| Translations.Translations.TranslateRow | docs/plugins/translate.ts:74-86 | first, last and code cells stay, all other cells are translated and recorded |
| Translations.Translations.TranslateLines | docs/plugins/translate.ts:93-139 | the pass with its buffer and fence flag yields the specified page, every paragraph and cell translated in its place (`PageExact`), and records exactly its untranslated entries (`EntriesExact`) |
| Translations.Translations.Translate | docs/plugins/translate.ts:169-174 | English pages are unchanged up to line ends, any other page is the translated one (`PageExact`), and what is recorded as missing is used and untranslated, and exactly the entries of the page without a translation (`EntriesExact`) |
| Translations.UnixLinesExact | docs/plugins/translate.ts:170 | exactly the line ends of two characters become one |
| Translations.LayersExact | docs/plugins/translate.ts:154-166 | an entry of the base has its value from the last base file that has it |
| Translations.Translations.Save | docs/plugins/translate.ts:181-197 | the saving loop writes exactly the specified entries, among them every missing string, empty |
| Translations.NothingLost | docs/plugins/translate.ts:147-197 | a save and a reload over the same base lose and change no nonempty translation |
| Translations.ReloadExact | docs/plugins/translate.ts:154-197 | every entry keeps its value exactly unless it was emptied over a nonempty base entry and is unused |
| Translations.EmptiedReturns | docs/plugins/translate.ts:186-195 | an entry emptied over a nonempty base entry is dropped from the file, and a reload shows the base value |
| Translations.FileExact | docs/plugins/translate.ts:186-195 | no nonempty base value is written again, and every used string without translation is in the file, empty |
| Translations.SavedTwice | docs/plugins/translate.ts:154-197 | saving again after a reload with the same used strings writes the same entries |
| MemoSelector.IsSameValue | packages/use-sync-external-store/with-selector.js:20-22 | `is` is SameValue of ECMA-262 |
| MemoSelector.Memo.MemoizedSelector | packages/use-sync-external-store/with-selector.js:53-102 | the closure's answer and its new variables, also when the selector or the equality throws |
| MemoSelector.AgreementExact | packages/use-sync-external-store/with-selector.js:45-112 | every call of a run agrees with the plain selector exactly unless the first call throws, in the selector or in the equality, and its snapshot comes again before another succeeds, where `undefined` is not what it stands for |
| MemoSelector.ThrowThenUndefined | packages/use-sync-external-store/with-selector.js:54-58 | a selector that throws, asked twice: first the exception, then `undefined` |
| MemoSelector.ComparisonThrowThenUndefined | packages/use-sync-external-store/with-selector.js:54-73 | an equality that throws on the committed value, asked twice: first the exception, then `undefined` |
| MemoSelector.PlainIsExact | packages/use-sync-external-store/with-selector.js:76-101 | without `isEqual` the answer is the plain selector's own value |
| MemoSelector.AnswerRemembered | packages/use-sync-external-store/with-selector.js:53-102 | a call that answers remembers its snapshot and answer, and the same call again changes nothing |
| MemoSelector.ReferenceStays | packages/use-sync-external-store/with-selector.js:76-101 | with an equivalence the returned reference does not change while the selections stay equal, whatever throws or is committed in between |
| MemoSelector.CommittedReferenceStays | packages/use-sync-external-store/with-selector.js:53-112 | a new closure answers with the committed reference as long as the selections are equal to it |
| Flappy.Engine.Loop | examples/react/src/lib/flappy.ts:46-58 | one frame of the loop, with what is reported |
| Flappy.Engine.Jump | examples/react/src/lib/flappy.ts:60-66 | the stacked, clamped impulse, and a frame at once when no timer is pending |
| Flappy.Engine.Destroy | examples/react/src/lib/flappy.ts:68-73 | the timer is gone, nothing else changes |
| Flappy.EveryRun | examples/react/src/lib/flappy.ts:42-73 | before destroy `y <= 0`, velocity is at least the jump force, and a timer is pending exactly in the air; after it never on the ground |
| Flappy.TapsStack | examples/react/src/lib/flappy.ts:60-66 | n taps between two frames add n stacked impulses to the velocity, clamped to one full jump force, and move nothing |
| Flappy.TapAtRest | examples/react/src/lib/flappy.ts:60-66 | at rest a tap lifts off at once exactly when one clamped impulse is stronger than gravity |
| Flappy.DestroyStops | examples/react/src/lib/flappy.ts:68-73 | once destroyed, everything stays where it is, however many frames pass |
| Flappy.FlightExact | examples/react/src/lib/flappy.ts:46-58 | until the first landing n frames give `y + n*v + g*n*(n+1)/2`, and the landing is at rest |
| Flappy.HeightBound | examples/react/src/lib/flappy.ts:46-58 | no uninterrupted flight rises by more than `v*v/(2*g)` |
| Flappy.AlwaysLands | examples/react/src/lib/flappy.ts:46-58 | without further taps every flight lands after a computable number of frames |
| SourceMapLookup.GreatestLowerBound | examples/react-debug-metadata/error-remapping/remap-lib.ts:95-119 | null exactly when no mapping is at or before the target, otherwise the greatest such position, first in traversal order on ties |
| SourceMapLookup.BestSpelled | examples/react-debug-metadata/error-remapping/remap-lib.ts:95-119 | by lines and columns: nothing lies between the place found and the target, and no earlier mapping is at the same position |
| SourceMapLookup.SearchIsLookup | examples/react-debug-metadata/error-remapping/remap-lib.ts:95-119 | on sorted mappings a binary search for the first duplicate finds the same place |
| SourceMapLookup.PositionFound | examples/react-debug-metadata/error-remapping/remap-lib.ts:95-119 | the position found does not depend on the order of traversal |
| CallScanner.CallExprEnd | examples/react-debug-metadata/error-remapping/infer.ts:57-72 | the loop with depth and quote computes the specified scan |
| CallScanner.CallEndExact | examples/react-debug-metadata/error-remapping/infer.ts:57-72 | from an opening parenthesis the scan ends at a column exactly when a call of nested parentheses and quoted strings with escapes ends there |
| CallScanner.CallFound | examples/react-debug-metadata/error-remapping/infer.ts:57-72 | a rendered call followed by anything ends right behind its own closing parenthesis |
| Profiler.Hooks.ProfileStart | benchmark/react/src/patchProfile.ts:27-44 | the start hook's new stack, depth, memory and benchmark calls |
| Profiler.Hooks.ProfileEnd | benchmark/react/src/patchProfile.ts:46-68 | the end hook's new state; it throws exactly when it has to label a benchmark without a name, and leaves the entry popped, the benchmark stopped and the depth unchanged |
| Profiler.IgnoredExact | benchmark/react/src/patchProfile.ts:12-25 | no benchmark is started for a missing or empty name, the two commits, the attribute update, and names with one of three prefixes |
| Profiler.NestedExactly | benchmark/react/src/patchProfile.ts:27-68 | any well-nested run, once the verdict on `undefined` is known: it throws exactly when an unnamed counting profile starts at depth 0, and otherwise leaves stack and depth as they were and starts and stops exactly the outermost counting profiles, each under its own name |
| Profiler.RunExact | benchmark/react/src/patchProfile.ts:27-68 | any well-nested run from the start: the exact condition under which it throws, and the exact condition under which its benchmarks are not those of the names judged alone |
| Profiler.EveryStateIsBracketed | benchmark/react/src/patchProfile.ts:27-66 | in every state any sequence of starts and ends leads to, nested or not, without the marker as a name and until an end hook throws: the depth is the number of counting entries, starts and stops of benchmarks alternate, and one is open exactly when the depth is positive |
| Profiler.NothingAfterThrow | benchmark/react/src/patchProfile.ts:46-66 | once the end of an unnamed profile has thrown, the depth stays ahead of the entries for good: whatever starts and ends behind it, no benchmark is started or labelled again |
| Profiler.BeginBalance | benchmark/react/src/patchProfile.ts:27-44 | the depth stops counting the entries exactly when a counting profile is named like the marker |
| Profiler.MarkerExact | benchmark/react/src/patchProfile.ts:27-66 | at the end of any run from the start in which nothing throws, the depth is the number of counting entries exactly unless a profile had the marker for its name and that name is not inherited |
| Profiler.FinishBalance | benchmark/react/src/patchProfile.ts:46-66 | ending a profile keeps the depth equal to the number of counting entries |
| Profiler.MarkerUnbalances | benchmark/react/src/patchProfile.ts:29-49 | the marker as a name leaves a benchmark running |
| Profiler.UndefinedThrows | benchmark/react/src/patchProfile.ts:27-62 | an unnamed profile after one named `undefined` makes the end hook throw |
| Profiler.UndefinedSkipped | benchmark/react/src/patchProfile.ts:27-62 | a profile named `undefined` after an unnamed one is not benchmarked |

## Left out

- External code: the XML parser, the JavaScript parser and scope analysis, TypeDoc, the source-map library and the platform are parameters or plain state; the checks on the main script are one verdict, `World.accepts`.
- ArtifactProjection.AssemblyIsProjection: asks that no registered rule contains `<`, that the shared runtime text begins with a line break and contains no closing script tag, and that the analyses accept the extended script; the rule table and the runtime text themselves are not spelled out.
- PageRuntime.DefinePage.Dispatch: an event of a listener that was removed before may still be delivered in the model, native removals neither throw nor call back, event payloads, `setText` and the other plain setters are only changes of the native tree.
- SchemaMeaning.SchemaExact: repeated member names in one object type and types whose parser errors are TypeDoc's own are outside of the statement; JSON has no value for `undefined` or a function.
- SchemaConditions.OperatorExact: the members of numbers, booleans and arrays are not listed as keys, which changes no verdict here; index signatures are over strings.
- FunctionCatalog.CatalogRoundTrip: any total order on names stands for `localeCompare`; property order of integer-like names is not modelled, nor are catalogs that list their functions in an array.
- Translations.Translations.constructor: file reading and JSON parsing, and the error for an empty list of files, are not modelled; the saved file is its set of entries, so the sorted order of its lines is not modelled.
- MemoSelector.Memo.MemoizedSelector: React's own scheduling is not modelled.
- Flappy.Engine.Loop: real numbers instead of floating point, and an `onUpdate` that does not call back into the engine.
- Profiler.Hooks.ProfileEnd: the label is the profile's name; prefix, chunk name and the replacement of `::` are not modelled.
- CallScanner.CallEndExact: the surrounding search for the bundle, the line and the anchor of an engine is not modelled.
- SourceMapLookup.GreatestLowerBound: context slices and the assembly of a full remapping step are not modelled.
- FragmentCompiler.GenerateMainThreadScriptResult: records the XML parser never makes (children that are no list, entries that are no object) are one case, `Unsupported`; attributes come in the parser's order, and integer-like attribute names would be reordered by JavaScript.
- ScriptLiterals.LiteralRoundTrip: characters are Unicode scalar values, so lone surrogates, which are escaped, are outside of the statement.
- The regular expressions of `hasProse`, the remaining exports of the modelled files, React and Lynx components, command lines, servers and site configuration.
