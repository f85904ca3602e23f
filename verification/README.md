# takeUntil schematic: subscription rewriting, modelled in Dafny

The core of the `add-takeuntil` Angular schematic (`src/add-takeuntil/index.ts`) is
modelled here. It visits every Angular class of a TypeScript file. For each class
that subscribes to something, it:

- picks a teardown subject, reusing one the class already relies on or creating
  `destroy$`;
- makes `ngOnDestroy` fire and complete that subject;
- rewrites every `.subscribe()` receiver without the operator into
  `….pipe(…, takeUntil(this.<subject>))`.

The model is functional. Strings are `seq<char>`. A file is an immutable record:
its import declarations plus its classes. A class is an immutable record of:

- decorator names;
- `implements` texts;
- properties (name, type text, initializer text);
- the statements of `ngOnDestroy`, if it has one;
- its call expressions in document order.

Every operation is a pure function. Where a function carries a contract, its result is named.

Modules, in dependency order:

| file | module | what it holds |
|---|---|---|
| base.dfy | `Base` | `Option` |
| text.dfy | `Text` | the JavaScript string built-ins the code uses (`includes`, `endsWith`, `lastIndexOf`, `trim`), ASCII case folding, and the joining of lists that the printer applies |
| splice.dfy | `Splice` | `closeParen`, `appendOperator`, `wrapWithTakeUntil` on raw text |
| naming.dfy | `Naming` | `isDestroySubjectName`, the `/Subject/i` and `/new\s+(Replay\|Behavior)?Subject/i` tests, the `ngOnDestroy` regex and its `exec` loop |
| syntax.dfy | `Syntax` | the datatypes, `isSubscribe`, `hasSubscribeCalls`, `findNgClasses` |
| imports.dfy | `Imports` | `addImport` |
| resolver.dfy | `Resolver` | `detectExistingTakeUntilSubjects`, `locateExistingDestroySubject`, `ensureDestroySubject` |
| lifecycle.dfy | `Lifecycle` | `syncNgOnDestroy` |
| rewriter.dfy | `Rewriter` | `addTakeUntilToObservableAST`, `patchSubscribeCalls` |
| transform.dfy | `Transform` | `transform`: the per-class driver and the loop over a file's classes |

The headline results:

- **The splice.** `appendOperator` keeps the text through the last `.pipe(`. It keeps the text from the closing parenthesis on. The arguments are trimmed, and the operator follows them after `", "` exactly when there were arguments. For an argument list as printed, the operator becomes one more last argument (`Splice.AppendOperatorSplice`, `Splice.AppendOperatorAddsLastArgument`).
- **Where the two rewrite paths agree, and where they do not.**
  - The tree edit and the text fallback print the same receiver in two cases (`Rewriter.TreeEditAgreesWithFallback`). The first is a pipe call whose arguments are balanced, free of `.pipe(` and printed without surrounding blanks. The second is a receiver with no `.pipe(` at all.
  - They differ on a pipe call nested in an argument (`Rewriter.NestedPipeDisagreement`). On `a.pipe(s(b.pipe(m)))` the tree edit gives `a.pipe(s(b.pipe(m)), OP)`. The fallback splices into the inner call: `a.pipe(s(b.pipe(m, OP)))`.
  - They differ on a receiver whose last `.pipe(` call is followed by more text (`Rewriter.EarlierPipeDisagreement`). On `this.a.pipe(map(f)).filter(g)` the tree edit wraps the whole receiver: `this.a.pipe(map(f)).filter(g).pipe(OP)`. The fallback joins the earlier call: `this.a.pipe(map(f), OP).filter(g)`.
- **The resolver's tiers.**
  - Tier order and the null case are stated declaratively on `Resolver.Locate` and `Resolver.Ensure`.
  - The teardown tier's `exec` loop finds the same name as trying every start position (`Naming.ExecScanFindsFirst`), because regex matches never overlap (`Naming.MatchesDoNotOverlap`).
- **Idempotence.** Running the transformation on its own output changes nothing and reports nothing (`Transform.TransformIdempotent`). This holds whatever fails on the second run, provided the first run did not leave a site unpatched because both edits threw.

## Model

| member | source | states |
|---|---|---|
| Text.LastIndexOf | src/add-takeuntil/index.ts:235 | the result is -1 or a start position at which the pattern fits; it is the last occurrence of the pattern, and it is -1 exactly when the pattern does not occur |
| Text.Trim | src/add-takeuntil/index.ts:240 | the trimmed text neither starts nor ends with white space, and a text already without surrounding white space is returned whole |
| Text.TrimKeepsMiddle | src/add-takeuntil/index.ts:240 | the trimmed text is a contiguous slice of the original, and everything outside that slice is white space |
| Text.TrimEmptyIff | src/add-takeuntil/index.ts:240-242 | the trimmed content is empty, so no separator is written, exactly when the content is all white space |
| Splice.CloseParen | src/add-takeuntil/index.ts:246-256 | the result is the first `)` at or after `i` reached at depth 0, counting from `i`; when there is none, it is the length minus one |
| Splice.FirstCloseBalanced | src/add-takeuntil/index.ts:246-256 | the text between the start and the matched `)` is balanced |
| Splice.BalancedCloses | src/add-takeuntil/index.ts:246-256 | conversely, a balanced text followed by `)` is closed exactly by that `)`, so nested parentheses do not move the scan |
| Splice.FirstCloseUnique | src/add-takeuntil/index.ts:246-256 | at most one position is the first closing parenthesis |
| Splice.AppendOperator | src/add-takeuntil/index.ts:234-244 | without `.pipe(` the result is `obs.pipe(op)`; in every case the result contains `op` |
| Splice.AppendOperatorKeepsEnds | src/add-takeuntil/index.ts:234-244 | with a `.pipe(`, the text through the last `.pipe(` is kept, and the text from where the scan stopped is kept right after `op` |
| Splice.AppendOperatorSplice | src/add-takeuntil/index.ts:234-244 | on a receiver whose last `.pipe(` has a balanced argument list, the result is the prefix, the trimmed arguments, `", "` exactly when they are not blank, `op`, and the suffix from `)` |
| Splice.AppendOperatorAddsLastArgument | src/add-takeuntil/index.ts:234-244 | for an argument list joined with `", "`, `op` becomes one more last argument and nothing else changes |
| Splice.WrapWithTakeUntil | src/add-takeuntil/index.ts:228-232 | both branches equal `appendOperator` with `takeUntil(this.<subj>)`, and the result contains `takeUntil(`, so a second pass skips the site |
| Naming.IsDestroySubjectName | src/add-takeuntil/index.ts:329-331 | true exactly when the name ends with `$` or contains one of the five teardown words, ignoring ASCII case |
| Naming.DestroyNameIgnoresCase | src/add-takeuntil/index.ts:329-331 | lower-casing the name does not change the verdict |
| Naming.DestroyNameContainsWord | src/add-takeuntil/index.ts:329-331 | the regex is unanchored: a teardown word anywhere qualifies |
| Naming.DestroyNameDollar | src/add-takeuntil/index.ts:329-331 | any name ending in `$` qualifies |
| Naming.DestroyNameCases | src/add-takeuntil/index.ts:329-331 | `teardown$`, `signal` and `componentDestroyed` qualify |
| Naming.PlainNamesDoNotQualify | src/add-takeuntil/index.ts:329-331 | `subject` and `data` do not qualify |
| Naming.IsSubjectProperty | src/add-takeuntil/index.ts:96-97 | a property holds a Subject exactly when its type text mentions `subject` in any case, or its initializer has `new`, white space and a Subject constructor at some position |
| Naming.NewSubjectAtIff | src/add-takeuntil/index.ts:97 | taking the white-space run after `new` whole finds exactly the matches the backtracking regex finds |
| Naming.SynthesizedIsSubject | src/add-takeuntil/index.ts:144-150 | the property the resolver synthesizes would itself be recognized as a Subject |
| Naming.InitializerCases | src/add-takeuntil/index.ts:97 | `new BehaviorSubject(false)` and `new \tReplaySubject<void>(1)` are recognized from the initializer alone |
| Naming.MatchAtSound | src/add-takeuntil/index.ts:112 | every match of the hook regex spells `this.<name>.next()` or `this.<name>.complete()` |
| Naming.MatchAtComplete | src/add-takeuntil/index.ts:112 | conversely, wherever the text spells such a mention, the regex matches there with exactly that capture |
| Naming.MatchesDoNotOverlap | src/add-takeuntil/index.ts:112-120 | no match starts strictly inside another match |
| Naming.NextMatch | src/add-takeuntil/index.ts:114 | one `exec` finds the leftmost match at or after `lastIndex` |
| Naming.ExecScan | src/add-takeuntil/index.ts:112-120 | the name the loop returns passes the naming heuristic |
| Naming.ExecScanFindsFirst | src/add-takeuntil/index.ts:112-120 | resuming each `exec` at the end of the previous match yields the first destroy-like capture over all start positions |
| Naming.FirstMentionAppend | src/add-takeuntil/index.ts:112-120 | appending lines to a body that already names a destroy-like subject keeps that subject first |
| Naming.HookScanExample | src/add-takeuntil/index.ts:112-120 | the body `this.signal.next();` / `this.signal.complete();` yields `signal` |
| Syntax.IsSubscribe | src/add-takeuntil/index.ts:223-226 | a call is a subscription exactly when its callee is a property access named `subscribe` |
| Syntax.HasSubscribeCalls | src/add-takeuntil/index.ts:126-130 | a class subscribes when one of its calls is a subscription; `Resolver.Ensure` and `Transform.ProcessClass` branch on it |
| Syntax.FindNgClasses | src/add-takeuntil/index.ts:72-77 | a class is kept exactly when it is in the file and carries one of the four Angular decorators |
| Syntax.FindNgClassesConcat | src/add-takeuntil/index.ts:72-77 | the filter keeps declaration order |
| Syntax.FindNgClassesExample | src/add-takeuntil/index.ts:72 | `@Component` is selected, and an unknown decorator is not |
| Imports.AddImport | src/add-takeuntil/index.ts:261-268 | afterwards the name is imported from the module; the first declaration from the module gains the name at the end of its list, only when absent, and is otherwise unchanged; without such a declaration one is appended; no other declaration changes |
| Imports.AddImportFirstDecl | src/add-takeuntil/index.ts:262 | the name lands in the first declaration from the module, which stays the first |
| Imports.AddImportIdempotent | src/add-takeuntil/index.ts:261-268 | adding the same import twice equals adding it once |
| Imports.AddImportKeepsImported | src/add-takeuntil/index.ts:261-268 | imports already present stay present |
| Imports.AddImportKeepsUnique | src/add-takeuntil/index.ts:261-268 | a file with one declaration per module keeps that shape |
| Imports.AddImportOnlyAdds | src/add-takeuntil/index.ts:261-268 | anything imported afterwards was imported before or is the added name from the given module |
| Imports.AddImportKeepsDistinctNames | src/add-takeuntil/index.ts:263-264 | if no declaration listed a name twice, none does afterwards |
| Imports.AddImportNoDuplicateName | src/add-takeuntil/index.ts:264 | in the module's first declaration the name is listed once if it was absent, and as often as before if it was present |
| Resolver.UntilArg | src/add-takeuntil/index.ts:307-322 | a call hands over a subject only when it is `takeUntil(<x>.<name>)` with a destroy-like name |
| Resolver.CandidatesMembers | src/add-takeuntil/index.ts:304-324 | the collected names are exactly the names the calls hand to `takeUntil` |
| Resolver.CandidatesFirst | src/add-takeuntil/index.ts:313-324 | the first collected name comes from the earliest call that hands one over |
| Resolver.Dedup | src/add-takeuntil/index.ts:326 | the same values, each once, with the first one kept first |
| Resolver.DedupOfDistinct | src/add-takeuntil/index.ts:326 | values that are already distinct come through in place |
| Resolver.UntilSubjects | src/add-takeuntil/index.ts:304-327 | the result is distinct, destroy-like, and names exactly what some call hands to `takeUntil` |
| Resolver.FirstDestroyProperty | src/add-takeuntil/index.ts:91-105 | the first property holding a Subject under a destroy-like name |
| Resolver.TeardownSubject | src/add-takeuntil/index.ts:107-121 | the loop over the hook's body finds the first destroy-like mention, and none without a hook |
| Resolver.Locate | src/add-takeuntil/index.ts:82-124 | the operator tier wins exactly when some call hands over a subject, taking the earliest; else the first qualifying property; else the first mention in the hook; any name found is destroy-like |
| Resolver.LocateFirstCandidate | src/add-takeuntil/index.ts:84-88 | any subject handed to the operator wins over properties and the hook |
| Resolver.Ensure | src/add-takeuntil/index.ts:132-154 | no subject exactly when the class makes no `.subscribe` call; a subject found is reused with nothing changed; otherwise private `destroy$: Subject<void>` is inserted first and `Subject` is imported from `rxjs` |
| Resolver.DestroyPropertyQualifies | src/add-takeuntil/index.ts:144-150 | the synthesized property is one the property tier would find |
| Resolver.EnsureIdempotent | src/add-takeuntil/index.ts:132-154 | ensuring again reuses the subject and changes nothing |
| Resolver.ReusesTeardownProperty | src/add-takeuntil/index.ts:91-105 | a class with a `teardown$` Subject property reuses it |
| Resolver.ReusesTeardownHook | src/add-takeuntil/index.ts:107-121 | a class whose only clue is its hook reuses the subject the hook fires |
| Lifecycle.ImplementsOnDestroy | src/add-takeuntil/index.ts:162 | the class already implements the hook when one of its `implements` texts contains `OnDestroy`; `Lifecycle.Sync` adds `OnDestroy` and its import exactly otherwise |
| Lifecycle.Missing | src/add-takeuntil/index.ts:178-186 | a statement is appended exactly when the original body lacks its call, `next` before `complete` |
| Lifecycle.Sync | src/add-takeuntil/index.ts:159-188 | afterwards the class implements `OnDestroy` and the hook fires and completes the subject; the result is true exactly when something changed; only `implements`, the hook and the imports change; a new hook holds exactly the two statements; an existing hook is only appended to |
| Lifecycle.AppendedBody | src/add-takeuntil/index.ts:178-186 | appending the missing statements leaves a body that fires and completes the subject |
| Lifecycle.KeptText | src/add-takeuntil/index.ts:178-186 | text in the original body is still there after appending |
| Lifecycle.SyncIdempotent | src/add-takeuntil/index.ts:159-188 | a second synchronization adds nothing and returns false |
| Rewriter.Managed | src/add-takeuntil/index.ts:204 | a call is managed when its receiver's text contains `takeUntil(`; `Rewriter.PatchCall` leaves such a site alone and makes every site it rewrites managed |
| Rewriter.TreeEdit | src/add-takeuntil/index.ts:277-290 | a pipe call keeps its source and arguments and gains the operator as its last argument; any other receiver becomes `<text>.pipe(takeUntil(this.<subj>))`; the result is managed |
| Rewriter.Fallback | src/add-takeuntil/index.ts:291-296 | the receiver text with the operator spliced in; without `.pipe(` it is `<text>.pipe(takeUntil(this.<subj>))` |
| Rewriter.TreeEditAgreesWithFallback | src/add-takeuntil/index.ts:274-298 | on a pipe call with balanced, trimmed, `.pipe(`-free arguments, or a receiver without `.pipe(`, the tree edit and the text fallback print the same receiver |
| Rewriter.NestedPipeDisagreement | src/add-takeuntil/index.ts:277-296 | on a pipe call whose argument holds an inner pipe call, the tree edit appends to the outer call and the fallback to the inner one, so the texts differ |
| Rewriter.EarlierPipeDisagreement | src/add-takeuntil/index.ts:287-296 | on a receiver whose last `.pipe(` call is followed by more text, the tree edit wraps the whole receiver and the fallback joins the earlier call, so the texts differ |
| Rewriter.PatchCall | src/add-takeuntil/index.ts:199-218 | a managed site, a call that is not `.subscribe`, or a double failure is left alone; otherwise the receiver is edited by the tree path, or by the fallback when the tree path throws, and becomes managed |
| Rewriter.PatchSites | src/add-takeuntil/index.ts:193-221 | true exactly when some site was rewritten; the operator is imported exactly then; nothing changes otherwise |
| Rewriter.PatchCallsUntouched | src/add-takeuntil/index.ts:193-221 | a list with no rewritten site comes through unchanged |
| Rewriter.PatchSitesCalls | src/add-takeuntil/index.ts:199-218 | the calls after the loop do not depend on the imports it threads |
| Rewriter.PatchCallsSplit | src/add-takeuntil/index.ts:199-218 | sites are patched independently, in order |
| Rewriter.PatchCallsUnmanaged | src/add-takeuntil/index.ts:204-218 | a `.subscribe` call left unmanaged is an original one at which both edits threw |
| Rewriter.Patch | src/add-takeuntil/index.ts:193-221 | only the calls change; the result is true exactly when a site was rewritten; without a double failure every `.subscribe` call ends up managed |
| Rewriter.PatchIsPatchCalls | src/add-takeuntil/index.ts:193-221 | patching replaces the class's calls by the patched list and nothing else |
| Rewriter.PatchManagedIsNoOp | src/add-takeuntil/index.ts:204-207 | once every site is managed, patching changes nothing and reports nothing, whatever fails |
| Rewriter.PatchTwice | src/add-takeuntil/index.ts:193-221 | a second pass over a patched class changes nothing, unless both edits failed somewhere the first time |
| Rewriter.TreeWrapExample | src/add-takeuntil/index.ts:287-290 | the tree edit turns `this.data$` into `this.data$.pipe(takeUntil(this.destroy$))` |
| Rewriter.TreeAppendExample | src/add-takeuntil/index.ts:277-284 | the tree edit turns `this.a.pipe(map(f))` into `this.a.pipe(map(f), takeUntil(this.destroy$))` |
| Transform.ProcessClass | src/add-takeuntil/index.ts:54-67 | a class without subscriptions is left alone and reports nothing; otherwise it ends up finalized for its subject, with every site managed barring double failures; it reports a change exactly when the hook or `implements` lacked something or a site was rewritten; the imports it returns hold `Subject` from `rxjs` when the subject was created, `OnDestroy` from `@angular/core` when the class did not implement it, and `takeUntil` from `rxjs/operators` when a site was rewritten; one declaration per module stays so; every import is kept, and no import is added beyond those three |
| Transform.PatchedCandidates | src/add-takeuntil/index.ts:304-327 | after patching, the first subject handed to the operator is the patch's subject or the one before, and a rewrite leaves one behind |
| Transform.SubscribeSurvives | src/add-takeuntil/index.ts:193-221 | a list holding a `.subscribe` call still holds one after patching, so a patched class is visited again |
| Transform.HookAppendKeepsMention | src/add-takeuntil/index.ts:178-186 | appending statements to a hook that names a destroy-like subject keeps that subject first |
| Transform.LocateAfterProcess | src/add-takeuntil/index.ts:82-124 | after processing, the resolver finds the subject the class was processed with |
| Transform.ProcessedCalls | src/add-takeuntil/index.ts:54-67 | a processed class is the synchronized class with its calls patched |
| Transform.ProcessedSubscribes | src/add-takeuntil/index.ts:126-130 | a class that subscribed still does after processing |
| Transform.ProcessClassIdempotent | src/add-takeuntil/index.ts:54-67 | processing a processed class again changes nothing and reports nothing, barring double failures the first time |
| Transform.ProcessClassIgnoresImports | src/add-takeuntil/index.ts:54-67 | the class a processing step returns, and its change flag, do not depend on the imports threaded in |
| Transform.ProcessClasses | src/add-takeuntil/index.ts:54-67 | the loop keeps every class's name and decorators and leaves non-Angular classes as they are |
| Transform.ProcessClassesProcesses | src/add-takeuntil/index.ts:54-67 | each Angular class in the output is that class processed on its own against the file's original imports |
| Transform.ProcessClassesReports | src/add-takeuntil/index.ts:54-67 | the loop reports a change exactly when processing some Angular class on its own would |
| Transform.TransformFile | src/add-takeuntil/index.ts:54-67 | as many classes are Angular afterwards as before; non-Angular classes are untouched; each Angular class is processed on its own; the flag that decides the write-back is true exactly when some Angular class's processing reports a change; the file imports everything some Angular class's processing introduces, and one declaration per module stays so; every import of the file is kept, and none is added beyond what some Angular class's processing introduces |
| Transform.ProcessClassKeepsImports | src/add-takeuntil/index.ts:54-67 | processing one class only adds imports: every name imported from a module before still is |
| Transform.EnsureImports | src/add-takeuntil/index.ts:144-151 | ensuring the subject imports `Subject` from `rxjs` when it creates `destroy$`, keeps every import, and keeps one declaration per module |
| Transform.SyncImports | src/add-takeuntil/index.ts:162-166 | synchronizing imports `OnDestroy` when no `implements` text mentioned it, keeps every import, and keeps one declaration per module |
| Transform.PatchImports | src/add-takeuntil/index.ts:209-212 | patching imports `takeUntil` from `rxjs/operators` when a site was rewritten, keeps every import, and keeps one declaration per module |
| Transform.PipelineImports | src/add-takeuntil/index.ts:54-67 | for a subscribing class, the three steps together leave each of those imports in place |
| Transform.PipelineOnlyIntroduces | src/add-takeuntil/index.ts:54-67 | for a subscribing class, the three steps keep every import and add only `Subject`, `OnDestroy` and the operator, each in its own case |
| Transform.ProcessClassesOnlyIntroduces | src/add-takeuntil/index.ts:54-67 | after the loop, the file imports nothing beyond what it imported before and what some Angular class's processing introduces |
| Transform.ProcessClassesIntroduces | src/add-takeuntil/index.ts:54-67 | after the loop, the file imports everything that processing some Angular class introduces |
| Transform.ProcessClassesKeepsUnique | src/add-takeuntil/index.ts:54-67 | the loop keeps a file at one declaration per module |
| Transform.ProcessClassesKeepsImports | src/add-takeuntil/index.ts:54-67 | processing all of a file's classes never drops one of its imports |
| Transform.NoSubscriptionsNoChange | src/add-takeuntil/index.ts:54-67 | a file in which no class subscribes to anything is left untouched and reports nothing |
| Transform.ProcessClassesIdempotent | src/add-takeuntil/index.ts:54-67 | running the loop over its own output changes nothing and reports nothing |
| Transform.TransformIdempotent | src/add-takeuntil/index.ts:54-67 | running the transformation on its own output changes nothing and reports nothing, whatever fails the second time |

## Left out

- Reading and writing files is left out: `addTakeUntil`, `collectFiles` and the `Tree` overwrite (src/add-takeuntil/index.ts:24-52). These are I/O. `Transform.TransformFile` returns the new file and the flag that decides whether it is written.
- Console output is left out. It is a side effect only.
- ts-morph parsing and printing are left out. A receiver's text is `Syntax.ExprText`: arguments are joined with `", "`, and a hook's body text is its statements joined by line breaks. The printer's other formatting is not modelled.
- Where a rewrite puts the new `takeUntil(this.<subj>)` call among the class's calls is simplified. The model inserts it right after the rewritten `.subscribe` call; in the printed tree it lies inside the receiver. Every inserted call names the same subject, so the resolver's results do not depend on the placement.
- Exceptions thrown by ts-morph are not computed. A per-call oracle `fault` says which path throws: `NoFault`, `TreeEditFails` (the fallback runs) or `FallbackFails` (the site is skipped, as the outer `catch` at src/add-takeuntil/index.ts:215-217 does).
- Nodes invalidated within one class are not modelled, e.g. a `.subscribe` nested inside a receiver that `replaceWithText` replaced. Sites are an independent list.
- Namespace imports, default imports and the text of `import` statements are left out. A declaration is its module specifier and its named imports.
- `Transform.ProcessClass` reports no change when only `ensureDestroySubject` acted, i.e. it inserted `destroy$` while synchronization and patching found nothing to do. This matches `transform` (src/add-takeuntil/index.ts:54-67), which ignores that insertion when computing its flag.
- Whitespace is not modelled for Unicode in full. `Text.IsSpace` lists the ECMAScript white-space and line-terminator characters; case folding is ASCII only, which is what a `/…/i` regex without the `u` flag applies to these ASCII patterns.
- The compiled copy under `dist/` and the example scripts are not modelled. The compiled copy defines the same functions as the TypeScript source.
