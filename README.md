# evisit-js-utils core, modelled in Dafny

This project models the core of the `evisit-js-utils` JavaScript library,
in both of its editions: `dist/` (the edition the library's tests load) and
the older `lib/`. Where the two differ, a model function takes an
`Edition` parameter (`Dist` or `Lib`) and follows each file as written.

The parts modelled:

- **The path engine `prop`** behind `get`, `set` and `remove` and their
  `…Meta` / `…MetaNS` variants. It tokenises a path such as `a.b[0].c`,
  `arr[]` or `a\.b`, walks a tree of objects and arrays, and does one of
  three things:
  - `get` reads a value, or returns the default;
  - `set` creates missing containers, appends on `[]` and returns the path
    it actually wrote;
  - `remove` clears a key, or deletes it when forced.

  Writes stamp the per-node audit record (`_audit.base.modified` and
  `updateCount`). The meta variants work on a lazily created `_meta` record
  that carries a fresh `U<n>` identifier. The dist edition skips writes into
  containers that are frozen or not extensible, and it refuses (or throws on) a root that cannot hold
  properties. The lib edition has neither check. Instead it returns
  `undefined` for any root that is not an object.
- **`initMeta`, `initAudit`, `empty`, and the predicates** `noe`, `sizeOf`,
  `instanceOf`, `firstOf` and `lastOf`.
- **`parseCSS`** (lib only).
- **The rule-spec parser `getFunctionsAndArguments`** and
  **`formatterValidatorChainFactory`**.
  - A rule spec has the form `name(key:value,…),name2`. Argument values are
    coerced to a number, a boolean or a string.
  - Names are resolved against a registry; unknown names are dropped.
  - For every operation other than `validate`, the rules run as a left fold
    in which `undefined` keeps the value.
  - `validate` is a short-circuiting check. The first truthy result
    rejects, and an awaitable is followed to its outcome.
- **The validator and formatter registries** and the rules whose behaviour
  is string or integer logic:
  - validators: `required`, `greater`, `smaller`, `password`, `positive`,
    `number`, `numeric`, `alphanum`, `email`, `url`, `date`, `phone`;
  - formatters: `htmlSafe`, `default`, `bool`, `phone`, `url` and the
    `prettify` wrapper.
- **The data helpers** `extend` (with its DEEP / NO_OVERWRITE / FILTER
  flags), `extract`, `toLookup` and `clone`, and the `TranslatorEngine`
  methods `filter`, `stripKeys` / `stripValues` (through `strip`), `wrap`
  and `extract`.

## How the model is built

- **Values and the heap.** A JavaScript value is the datatype
  `JsCore.Value`. Objects live on an explicit heap (`seq<Obj>`), and an
  object reference is an index into it. Each object records:
  - its kind (plain object, array, boxed primitive);
  - whether it is extensible;
  - its own keys in insertion order;
  - each slot's value and its writable / configurable flags;
  - for arrays, `length` and whether `length` is writable.

  Every operation that can throw returns a `Result`. A `TypeError` on a
  frozen object is modelled as strict-mode JavaScript raises it.
- **Mutating operations.** The mutable state is a `class Store` (the heap
  and the uid counter). Each mutating operation is a method that
  `modifies` the store. It is proved to leave exactly the state, and
  return exactly the result, of a specification function on the old state
  (`prop` in `PropStore`; `empty` in `EmptyStore`; `extend` in
  `DataExtend`). The properties are then lemmas about those functions.
- **Loops.** Loops that only build fresh results are methods with loop
  invariants, proved equal to a function:
  - `getFunctionsAndArguments` and `parseCSS`;
  - the chain's `finalFuncs` loop;
  - `extract`, `toLookup`, the object branch of `filter`, `wrap` and
    `noe`.
- **Rules and callbacks.** Rule bodies, filters and callbacks are Dafny
  functions, and the registries are maps. `addValidator` /
  `addFormatter` update the `Registry` class.

## Model

| member | source | states |
|---|---|---|
| PropSpec.Uid | dist/utils.js:37-39 | an identifier is the letter `U` followed by at least one decimal digit |
| PropSpec.InitMeta | dist/utils.js:41-62 | creating the meta record only allocates: no object is freed (its effect is stated by PropMeta.MetaContextCreates) |
| PropSpec.Context | dist/utils.js:111-141 | choosing the context (the node itself, its `_meta`, or a namespace in it) only allocates |
| PropSpec.Step | dist/utils.js:172-228 | one iteration of the path loop, whether it moves on or stops, never frees an object |
| PropSpec.Clear | dist/utils.js:183-194 | removing at the last token always ends the walk and allocates nothing (its effect is PropReads.ClearEffect) |
| PropSpec.SetStep | dist/utils.js:195-223 | one `set` iteration only allocates the containers it creates |
| PropSpec.Attach | dist/utils.js:206-218 | attaching a value or a new container, by push or by write, only allocates |
| PropSpec.Walk | dist/utils.js:172-228 | the whole path loop only allocates (what it reads and writes is stated by PropReads and PropWalk) |
| PropSpec.InitAudit | dist/utils.js:64-72 | creating `_audit` only allocates and draws no identifier |
| PropSpec.Touch | dist/utils.js:265-269 | stamping an audit record allocates nothing |
| PropSpec.Audit | dist/utils.js:258-269 | the audit step only allocates and draws no identifier |
| PropSpec.TouchRecord | dist/utils.js:261-269 | stamping the selected record allocates nothing and draws no identifier |
| PropSpec.SingleKey | dist/utils.js:230-249 | a one-segment path ends after one key and allocates nothing |
| PropSpec.Prop | dist/utils.js:97-272 | `prop` only allocates; its meaning is stated by the lemmas of PropReads, PropLemmas, PropMeta, PropAudit and PropFrozen |
| PropSpec.Scoped | dist/utils.js:108-141 | the command dispatch only allocates |
| PropSpec.InContext | dist/utils.js:144-162 | the empty-context guard and the empty-path case only allocate |
| PropSpec.OnPath | dist/utils.js:151-256 | the work on a non-empty path only allocates |
| PropSpec.Finish | dist/utils.js:252-271 | producing the result and running the audit only allocates |
| PropStore.Store.constructor | dist/utils.js:37-39 | a store starts with the given heap and uid counter |
| PropStore.Prop | dist/utils.js:97-272 | running `prop` in place leaves the store in exactly the state, and returns exactly the result, that PropSpec.Prop gives for the old state |
| PropStore.ScopedInPlace | dist/utils.js:108-141 | the in-place command dispatch ends in the state and result of PropSpec.Scoped |
| PropStore.InContextInPlace | dist/utils.js:144-162 | the in-place context guard ends in the state and result of PropSpec.InContext |
| PropStore.OnPathInPlace | dist/utils.js:151-256 | the in-place path work ends in the state and result of PropSpec.OnPath |
| PropStore.FinishInPlace | dist/utils.js:252-271 | the in-place finish ends in the state and result of PropSpec.Finish |
| PropStore.AuditedInPlace | dist/utils.js:258-271 | after a completed walk, the in-place audit and the returned path agree with PropSpec.Finish |
| PropStore.AuditInPlace | dist/utils.js:258-269 | the in-place audit ends in the state and result of PropSpec.Audit |
| PropStore.WalkInPlace | dist/utils.js:172-228 | the path loop, run in place with its invariant, ends in the heap and outcome of PropSpec.Walk and leaves the uid counter alone |
| PropStore.StepInPlace | dist/utils.js:173-227 | one in-place iteration gives the outcome of PropSpec.Step and leaves the uid counter alone |
| PropStore.ClearInPlace | dist/utils.js:183-194 | the in-place clear or delete gives the outcome of PropSpec.Clear |
| PropStore.SetStepInPlace | dist/utils.js:195-223 | one in-place `set` iteration gives the outcome of PropSpec.SetStep |
| PropStore.AttachInPlace | dist/utils.js:206-218 | the in-place push or write gives the outcome of PropSpec.Attach |
| PathSyntax.SplitAt | dist/utils.js:170 | splitting at a character always yields at least one piece |
| PathSyntax.SplitAtDoubleDot | dist/utils.js:168 | splitting at `..` always yields at least one piece |
| PathSyntax.Tokenize | dist/utils.js:165-170 | both tokenising routes yield at least one token |
| PathSyntax.SegmentChars | dist/utils.js:271 | a rendered path segment is non-empty, has no dot or backslash, and is either `[` plus a bracket-free tail or bracket-free |
| PathSyntax.SegmentLast | dist/utils.js:271 | a rendered segment never ends in a dot |
| PathSyntax.TokenizeRenderPath | dist/utils.js:165-170 | the path `set` returns is compound and tokenises back to exactly the segments it was rendered from |
| PathSyntax.AppendTokens | dist/utils.js:170 | `key[]` tokenises to `key` and the empty bracket token `[]` |
| PathSyntax.AppendRender | dist/utils.js:223 | a key followed by an index segment renders as `key[index]` |
| PathSyntax.DottedTokens | dist/utils.js:170 | `a.b` tokenises to `a` and `b` when neither holds a dot, bracket or backslash |
| PropWalk.Segments | dist/utils.js:223 | the path rendered from token `i` on has one segment per remaining token |
| PropWalk.WalkOn | dist/utils.js:172-228 | a step that continues hands the walk to the next token |
| PropWalk.StepMoves | dist/utils.js:196-201 | a `set` step moves into an existing container without writing anything |
| PropWalk.StepStores | dist/utils.js:215-218 | the last `set` step stores the value at the key and records the segment |
| PropWalk.StepCreates | dist/utils.js:201-206 | a `set` step over a missing, null or scalar value creates an empty array when the next token is bracketed, and an empty object otherwise |
| PropWalk.GetStep | dist/utils.js:225-226 | a `get` step returns the default at an absent value and otherwise moves into it |
| PropWalk.FreshWalkShape | dist/utils.js:195-223 | a `set` walk below a freshly created container creates one container per remaining intermediate token and changes nothing older |
| PropWalk.FreshWalkNext | dist/utils.js:195-223 | a `set` walk below a fresh container always completes |
| PropWalk.FreshReadBack | dist/utils.js:195-226 | reading back along a path written below a fresh container finds the written value |
| PropWalk.SetWalkShape | dist/utils.js:195-223 | a `set` walk writes only the objects it visits and objects it creates |
| PropWalk.SetWalkNext | dist/utils.js:195-223 | a `set` walk over writable containers always completes |
| PropWalk.SetReadBack | dist/utils.js:195-226 | after a `set` walk, a `get` walk of the same tokens reads the value stored |
| PropWalk.SetWalkPath | dist/utils.js:223 | a `set` walk records one segment per token, with its key and whether it was bracketed |
| PropWalk.FreshWalkPath | dist/utils.js:223 | below a fresh container, the recorded path likewise has one segment per token |
| PropWalk.GetWalkKeys | dist/utils.js:225-226 | a `get` walk depends only on the keys of the tokens, not on how they were spelled |
| PropWalk.KeyOfSegment | dist/utils.js:178 | rendering a token as a segment keeps its key |
| PropWalk.SegmentsKeys | dist/utils.js:223 | the recorded segments name the same keys as the tokens |
| PropReads.Resolve | dist/utils.js:225-226 | following keys either stops at an absent value or ends at a present one |
| PropReads.GetWalkResolves | dist/utils.js:225-226 | a `get` walk is the same as resolving its keys: the default at the first absent value, else the value found |
| PropReads.ReadOneKey | dist/utils.js:249-255 | reading one key gives the default exactly when the value is null, undefined, NaN or infinite |
| PropReads.GetCompoundReads | dist/utils.js:172-256 | `get` on a compound path reads the path and changes no state |
| PropReads.GetReads | dist/utils.js:97-256 | `get` as a whole: lib gives undefined on a non-object root; dist gives the default on a refused root or an empty path; otherwise the path is read, and state is never changed |
| PropReads.GetOnPathReads | dist/utils.js:151-256 | on a non-empty path, `get` is the path read |
| PropReads.RemoveWalkResolves | dist/utils.js:172-228 | a `remove` walk follows the keys to the parent and clears the last key there |
| PropReads.RemoveAlongLast | dist/utils.js:183-194 | at the last key, `remove` clears it |
| PropReads.RemoveAlongStep | dist/utils.js:225 | before the last key, `remove` stops and returns its force argument at an absent value |
| PropReads.RemoveCompound | dist/utils.js:172-194 | `remove` on a compound path is the walk to the parent, which returns from inside the loop, so no audit runs |
| PropReads.ClearEffect | dist/utils.js:183-194 | `remove` returns the prior value. A non-extensible parent (dist) is unchanged. Otherwise the key reads undefined afterwards and is gone iff the force flag is exactly `true`. Every other key and object is unchanged |
| PropReads.RemoveClearsParent | dist/utils.js:172-194 | when the parent exists, `remove` on a compound path clears the key there and returns its prior value |
| PropReads.RemoveCutShort | dist/utils.js:225 | when an intermediate value is absent, `remove` returns its force argument and changes no state |
| PropReads.SingleRemove | dist/utils.js:230-242 | a one-segment `remove` reads the named key but clears the slot named by its cleared-key argument |
| PropReads.DistRefusesRoot | dist/utils.js:144-148 | on a null, undefined, primitive or boxed root, dist `set` throws 'Attempt to set on and empty context', and `get` / `remove` return their default, changing nothing |
| PropReads.LibIgnoresNonObject | lib/utils.js:81-82 | in lib, every operation on a non-object root returns undefined and changes nothing |
| PropLemmas.PlainCompound | dist/utils.js:151-271 | on an object root and a compound path, `prop` is the walk over the tokens followed by the finish |
| PropLemmas.SetReturnsPath | dist/utils.js:223-271 | a `set` over writable containers succeeds and returns the rendered path of its tokens |
| PropLemmas.FinishedSet | dist/utils.js:271 | a finished `set` returns the path recorded by the walk |
| PropLemmas.SetThenGet | dist/utils.js:195-256 | `get` of the path just `set` gives the value, or the default when the value itself is absent |
| PropLemmas.RenderedSegmentsTokenize | dist/utils.js:223-271 | the returned path is compound, tokenises to the recorded segments, and names the same keys as the original tokens |
| PropLemmas.ReturnedPathReadsAlike | dist/utils.js:271 | `get` of the returned path reads the same as `get` of the original path |
| PropLemmas.SetThenGetReturnedPath | dist/utils.js:271 | `get` of the path `set` returns gives the value written |
| PropLemmas.KindsAfterSet | dist/utils.js:201-206 | a successful `set` never changes the kind of an existing object |
| PropLemmas.AppendWalk | dist/utils.js:209-213 | `key[]` on an existing array pushes the value and records the index it landed at |
| PropLemmas.SetAppendsPath | dist/utils.js:209-271 | `set` of `key[]` returns `key[n]`, where n is the array's old length |
| PropLemmas.SetAppendsStores | dist/utils.js:209-213 | after `set` of `key[]`, the array holds the value at index n and has length n + 1 |
| PropLemmas.AppendRun | dist/utils.js:209-213 | `set` of `key[]` is the push followed by the finish |
| PropLemmas.SingleSetAssigns | dist/utils.js:243-246 | `set` on a one-key path is the plain assignment of that key (skipped by dist on a non-extensible object); it returns the key and stops before the audit |
| PropLemmas.SingleSetStores | dist/utils.js:243-246 | on an object that takes the key, one-key `set` returns the key, stores the value, changes no other key or object and draws no identifier |
| PropLemmas.SingleSetRefused | dist/utils.js:243-246 | dist one-key `set` on a non-extensible or frozen object returns the key and changes nothing |
| PropLemmas.SingleSetThenGet | dist/utils.js:243-256 | `get` of the key just `set` gives the value, or the default when the value itself is absent |
| PropLemmas.SetBumpsBase | dist/utils.js:258-269 | a compound `set` on a node with a `base` audit record returns its path, stamps `modified` with the clock and adds exactly one to `updateCount` |
| PropLemmas.FinishedSetState | dist/utils.js:258-269 | the state after a finished `set` is the state after its audit, and it succeeds iff the audit does |
| PropLemmas.AppendFrame | dist/utils.js:209-213 | a push stores the value at the old length, raises the length by one, and changes only the array |
| PropLemmas.TargetApart | dist/utils.js:265-269 | the audit record of a node is not among the objects the walk wrote |
| PropLemmas.AuditAgrees | dist/utils.js:265-269 | the audit after a walk touches only the audit record |
| PropAudit.TouchFrame | dist/utils.js:265-269 | stamping changes only the record itself |
| PropAudit.TouchStores | dist/utils.js:265-269 | stamping a writable record sets `modified` to the clock and adds one to `updateCount` |
| PropAudit.AuditRecordRead | dist/utils.js:68-71 | a fresh audit record has a writable `modified`, and an `updateCount` of 0 |
| PropAudit.AuditFrameExisting | dist/utils.js:258-269 | with `_audit` present, the audit changes only the selected record |
| PropAudit.AuditFrameFresh | dist/utils.js:64-72 | without `_audit`, the audit creates it and otherwise changes only its new records |
| PropAudit.AuditKeeps | dist/utils.js:258-269 | a successful audit changes no key of the node but `_audit`, and no object but the record |
| PropAudit.AuditBumpsExisting | dist/utils.js:265-269 | with an existing record, the audit sets `modified` to the clock and `updateCount` to its old value plus one |
| PropAudit.InitAuditCreates | dist/utils.js:64-72 | on an extensible object without `_audit`, initAudit creates `_audit` holding `base` and `_meta` records |
| PropAudit.TouchFreshKeys | dist/utils.js:258-269 | on a fresh `_audit`, the audit fails for a record key other than `base` and `_meta` |
| PropAudit.TouchFreshRecord | dist/utils.js:265-269 | on a fresh `_audit`, the selected record ends with the clock and a count of 1 |
| PropAudit.FreshAuditReads | dist/utils.js:68-71 | the fresh `_audit` reads back its `base` and `_meta` records |
| PropAudit.AuditInitialises | dist/utils.js:258-269 | on a node without `_audit`, the audit succeeds iff the record key is `base` or `_meta` |
| PropMeta.MetaRecordRead | dist/utils.js:41-47 | the meta record reads back its `_UID` and `_aliases` |
| PropMeta.GetOnPathKeeps | dist/utils.js:151-256 | `get` on a path changes no state |
| PropMeta.GetInContextKeeps | dist/utils.js:144-256 | `get` in a context changes no state |
| PropMeta.GetOnlySetsUp | dist/utils.js:111-141 | the only state change of `get` is the creation of its context |
| PropMeta.MetaContextCreates | dist/utils.js:119-123 | on a node without `_meta`, the meta context is a fresh record holding a fresh identifier and an alias object |
| PropMeta.GetMetaDrawsUid | dist/utils.js:37-47 | the first `getMeta` stores `U` + the counter as `_UID` and raises the counter by one, even though it only reads |
| PropMeta.GetMetaAgainKeepsState | dist/utils.js:41-43 | `getMeta` on a node that already has `_meta` changes no state |
| PropMeta.GetMetaTwiceDrawsOnce | dist/utils.js:37-47 | two `getMeta` calls draw one identifier |
| PropFrozen.PropKeepsFrozen | dist/utils.js:185-244 | no accessor, in either edition, changes an object that is frozen |
| PropFindings.SingleRemoveMissesKey | dist/utils.js:230-242 | as written, `remove(obj, 'a')` on `{a: 1}` returns 1, leaves `a` at 1 and creates key `undefined` |
| PropFindings.IntendedSingleRemove | dist/utils.js:230-242 | corrected one-segment `remove`: ends after one key and allocates nothing |
| PropFindings.IntendedSingleRemoveClears | dist/utils.js:230-242 | corrected: returns the prior value of the named key and clears that key, leaving everything else unchanged |
| PropFindings.MetaAuditThrows | dist/utils.js:261-264 | as written, the meta audit on a node without `_audit` throws |
| PropFindings.SetMetaThrows | dist/utils.js:261-264 | as written, a two-segment `setMeta` on a fresh node throws |
| PropFindings.IntendedAuditRecordKey | dist/utils.js:68-71 | corrected: the meta audit selects `_meta`, and the plain audit selects `base` |
| PropFindings.IntendedMetaAuditStamps | dist/utils.js:68-71 | corrected: the meta audit succeeds and stamps the `_meta` record |
| PropFindings.MetaRecordShape | dist/utils.js:41-47 | the meta record is an extensible object with exactly `_UID` and `_aliases` |
| PropFindings.CompoundCall | dist/utils.js:151-271 | a compound path is set up, walked and finished |
| PropFindings.MetaSetCall | dist/utils.js:119-123 | two-segment `setMeta` is the walk from the new `_meta` followed by the finish |
| PropFindings.MetaSetWalk | dist/utils.js:195-223 | that walk completes |
| PropFindings.MetaFinishThrows | dist/utils.js:258-264 | the meta finish after a completed walk throws on a node without `_audit` |
| EmptyStore.DeleteKeys | dist/utils.js:370-373 | the delete loop allocates nothing and draws no identifier |
| EmptyStore.DeleteKeysInPlace | dist/utils.js:370-373 | the in-place delete loop ends in the state and result of DeleteKeys |
| EmptyStore.EmptyInPlace | dist/utils.js:366-382 | the in-place `empty` ends in the state and result of the `Empty` function |
| EmptyStore.DeleteKeysRemoves | dist/utils.js:370-373 | after the loop, every listed key other than `_meta` and `_audit` is gone, and nothing else changed |
| EmptyStore.DeleteOne | dist/utils.js:372 | one delete removes just that key from just that object |
| EmptyStore.DeletedReadUndefined | dist/utils.js:372 | every deleted key reads undefined afterwards |
| EmptyStore.EmptyWithoutMarkers | dist/utils.js:375 | without `_meta` or `_audit`, `empty` is just the delete loop: no audit |
| EmptyStore.EmptyAfterLoop | dist/utils.js:366-382 | `empty` is the delete loop followed, when `_meta` or `_audit` was present, by the audit |
| EmptyStore.EmptyAuditExisting | dist/utils.js:375-381 | an existing `base` record gets the clock and one more update |
| EmptyStore.EmptyAuditFresh | dist/utils.js:375-381 | without `_audit`, the audit creates it and stamps `base` |
| EmptyStore.EmptyBumpsBase | lib/utils.js:377-395 | `empty` of an object with an audit record clears its keys and adds exactly one to `base.updateCount` |
| EmptyStore.EmptyCreatesAudit | lib/utils.js:377-395 | `empty` of an object with `_meta` but no `_audit` creates the audit record and stamps it |
| Predicates.SizeOf | dist/utils.js:459-471 | null and undefined have size 0, a string its length, an array its length; any other object its own `length` when that is set, else its own enumerable key count; numbers and booleans 0 |
| Predicates.Noe | dist/utils.js:480-495 | `noe` is true iff some argument is empty |
| Predicates.StringEmptyIffBlank | dist/utils.js:485-487 | a string is empty iff it is all whitespace |
| Predicates.ScalarsNotEmpty | dist/utils.js:488-490 | finite numbers and booleans are never empty |
| Predicates.ArrayEmptyIffNoLength | dist/utils.js:491-492 | an array is empty iff its length is 0 |
| Predicates.PlainObjectEmptyIffNoKeys | dist/utils.js:491-492 | a plain object without `length` is empty iff it has no own keys |
| Predicates.MatchesAny | lib/utils.js:403-470 | lib's `instanceOf` is true iff the value has one of the named types |
| Predicates.InstanceOf | dist/utils.js:390-435 | dist's loop computes `instanceOf`, including its short form for `'object'` |
| Predicates.InstanceOfObject | dist/utils.js:428 | dist `instanceOf(x, 'object')` on an object is true exactly for plain objects and boxed non-finite numbers |
| Predicates.InstanceOfNumber | dist/utils.js:391-426 | a number is a `'number'` iff it is finite |
| Predicates.LastKey | dist/utils.js:517-521 | `lastOf` reads the key written as n - 1 for length n |
| Predicates.StringIndex | dist/utils.js:504-521 | index i of a string reads its i-th character |
| Predicates.FirstOfString | dist/utils.js:504-508 | `firstOf` of a non-empty string is its first character |
| Predicates.LastOfString | dist/utils.js:517-521 | `lastOf` of a non-empty string is its last character |
| Predicates.LastOfArray | dist/utils.js:517-521 | `lastOf` of a non-empty array is its last element, or the default when that element is null or undefined |
| Predicates.EndsOfEmpty | dist/utils.js:504-521 | on a falsy value, an empty string or an empty array, `firstOf` and `lastOf` give the default |
| Predicates.NatToStringRoundTrip | dist/utils.js:517-521 | the decimal text of an index is an index key that reads back as that number |
| Css.MatchAt | lib/utils.js:713 | one match consumes at least one character and has a non-empty name and value |
| Css.MatchValueFree | lib/utils.js:713 | a matched value holds no `;` |
| Css.ScanEntries | lib/utils.js:713 | every scanned declaration has a non-empty name and a value without `;` |
| Css.Unquote | lib/utils.js:716 | one pair of matching quotes around text without line breaks is dropped, and nothing else is |
| Css.UnquoteQuoted | lib/utils.js:716 | quoting a line-free text and unquoting it gives the text back |
| Css.ParseCssLoop | lib/utils.js:711-720 | the declaration loop builds exactly the `parseCSS` map |
| Css.NextDeclaration | lib/utils.js:713-717 | one loop step moves forward and keeps what remains to be assigned unchanged |
| Css.AssignStep | lib/utils.js:713-717 | a matched declaration is assigned under its camel-cased name with its value unquoted, and an unmatched character is skipped |
| Css.ScanMatched | lib/utils.js:713 | a match at the front is the first scanned declaration |
| Css.ScanUnmatched | lib/utils.js:713 | without a match at the front, scanning skips one character |
| Css.AssignAllKeys | lib/utils.js:714-716 | a key is assigned iff some declaration names it and it is not `__proto__` |
| Css.AssignAllLastWins | lib/utils.js:714-716 | the last declaration of a key decides its value |
| Css.AssignAllUntouched | lib/utils.js:714-716 | keys no declaration names are left alone |
| Css.ParseCssKeys | lib/utils.js:711-720 | `parseCSS` has a key iff some declaration's camel-cased name is that key and it is not `__proto__` |
| Css.ParseCssLastWins | lib/utils.js:711-720 | the value of a key is the unquoted value of its last declaration |
| Css.MatchOne | lib/utils.js:713 | `name:value;` matches with exactly that name and value |
| Css.MatchIn | lib/utils.js:713 | a well-formed declaration at the front of any text matches with exactly its name and value |
| Css.SemicolonSkipped | lib/utils.js:713 | a leading `;` adds no declaration |
| Css.ScanAfter | lib/utils.js:713 | after a match, scanning resumes at its end |
| Css.ScanOne | lib/utils.js:713 | `name:value;rest` scans as that declaration followed by the declarations of `rest` |
| Css.ScanRender | lib/utils.js:713 | rendering well-formed declarations and scanning them gives them back |
| Css.KebabOfCamel | lib/utils.js:714 | camel-casing a kebab name can be undone |
| Css.CamelOfKebab | lib/utils.js:714 | kebab-casing a camel name can be undone by camel-casing |
| Css.KebabOfUpper | lib/utils.js:714 | an upper-case letter kebab-cases to `-` and the lower-case letter |
| Css.CamelOfLowered | lib/utils.js:714 | `-` and a letter camel-case to the upper-case letter |
| Css.CamelOfPlain | lib/utils.js:714 | other word characters are kept |
| RuleSpec.GroupEnd | dist/utils.js:636 | an argument group ends after where it starts and within the text |
| RuleSpec.RuleAt | dist/utils.js:636 | one rule match consumes at least one character |
| RuleSpec.ArgAt | dist/utils.js:644 | one argument match consumes at least one character |
| RuleSpec.GetFunctionsAndArguments | dist/utils.js:631-663 | the parse loop builds exactly the rule list of the specification |
| RuleSpec.NextRule | dist/utils.js:636-660 | one loop step moves forward and keeps the rule list still to come unchanged |
| RuleSpec.RulesStep | dist/utils.js:636-660 | a match at the front adds one rule and the scan resumes after it; otherwise one character is skipped |
| RuleSpec.RulesAfterMatch | dist/utils.js:636-660 | after a match the scan resumes at its end |
| RuleSpec.DigitsPrefix | dist/utils.js:646-650 | a digit string is a finite decimal prefix with that value |
| RuleSpec.ParseDigits | dist/utils.js:646-650 | `parseFloat` of a digit string is its value |
| RuleSpec.CoerceDigits | dist/utils.js:646-650 | an argument of digits becomes that number |
| RuleSpec.LetterNotNumeric | dist/utils.js:646-650 | text starting with a letter does not parse as a finite number |
| RuleSpec.ContainsChar | dist/utils.js:648 | containing a word means containing each of its characters |
| RuleSpec.ContainsAt | dist/utils.js:648 | a word at some index is contained |
| RuleSpec.NotContains | dist/utils.js:648 | a text missing one character of a word does not contain the word |
| RuleSpec.CoerceTrue | dist/utils.js:648 | `true` in any letter case becomes the boolean true |
| RuleSpec.CoerceFalse | dist/utils.js:648 | `false` in any letter case becomes the boolean false |
| RuleSpec.CoerceText | dist/utils.js:650 | a word mentioning neither true nor false stays a string |
| RuleSpec.CoerceMentionIsFalse | dist/utils.js:648 | a non-numeric text that mentions true or false but is not `true` becomes false |
| RuleSpec.ArgAtPair | dist/utils.js:644 | `key:value` at the front matches with that key and value |
| RuleSpec.ArgScanPair | dist/utils.js:644-652 | `key:value,rest` scans as that pair followed by the pairs of `rest` |
| RuleSpec.ArgScanFirst | dist/utils.js:644-652 | a written argument list scans its first pair first |
| RuleSpec.ArgScanRest | dist/utils.js:644-652 | the rest of a written list scans like the list of the rest |
| RuleSpec.PutMatchesList | dist/utils.js:644-652 | a written argument list reads back as exactly its pairs, values coerced |
| RuleSpec.ArgListPlain | dist/utils.js:644 | a written argument list holds no escapes or parentheses |
| RuleSpec.BodiesOfGroup | dist/utils.js:645 | a parenthesised body yields that body |
| RuleSpec.RuleAtBare | dist/utils.js:636 | a bare name matches as a rule without arguments |
| RuleSpec.RuleAtGroup | dist/utils.js:636 | `name(args)` matches as a rule with that group |
| RuleSpec.RuleOfMatch | dist/utils.js:652-659 | a matched rule carries its name and its argument pairs |
| RuleSpec.RuleScanComma | dist/utils.js:636 | a leading comma adds no rule |
| RuleSpec.ReadBack | dist/utils.js:631-663 | a written rule list parses back to exactly its rules, in order, with argument values coerced |
| Chain.BuildSteps | dist/utils.js:671-717 | the step-building code gives exactly the steps of the specification, or the 'Arguments not supported' error |
| Chain.PushItems | dist/utils.js:679-711 | the loop over the spec items pushes exactly the steps of the items |
| Chain.PushRules | dist/utils.js:684-706 | the loop over parsed rules appends exactly their steps |
| Chain.Assign | dist/utils.js:691 | `Object.assign` has the keys of both bags, and the second wins where both have a key |
| Chain.Apply | dist/utils.js:732-734 | a wrapped rule always yields `{args, value}`; a raw function throws iff it returns null or undefined |
| Chain.Call | dist/utils.js:757-764 | `validate` settles a promise, and every other operation returns |
| Chain.UnregisteredDropped | dist/utils.js:686-705 | the steps are exactly the registered rules, in order, wrapped |
| Chain.NothingRegistered | dist/utils.js:686-705 | with no registered rule there are no steps: `validate` resolves and other operations return the value |
| Chain.TextChain | dist/utils.js:676-713 | a written rule list builds the wrapped registered rules it names |
| Chain.UnsupportedThrows | dist/utils.js:717 | a spec that is not a string, array or function throws 'Error: Arguments not supported' |
| Chain.ArgsPrecedence | dist/utils.js:691-757 | a rule sees the keys of all three bags; factory args beat call args, and both beat the parsed args |
| Chain.FoldJoin | dist/utils.js:752 | folding two step lists is folding the first and then the second, stopping at a throw |
| Chain.FoldKeepsValue | dist/utils.js:752 | steps that all return undefined leave the value unchanged |
| Chain.StepReplaces | dist/utils.js:752 | a step's result replaces the value unless it is undefined |
| Chain.ResolvesIffAllPass | dist/utils.js:722-751 | `validate` resolves iff every step passes, and it then resolves with the unchanged value |
| Chain.FirstFailureRejects | dist/utils.js:736-748 | the first step with a truthy, non-awaitable result rejects with `{error, args}` |
| Chain.AwaitedRejection | dist/utils.js:737-746 | an awaitable that fails makes the check reject with its reason, the value and the rule's args |
| Chain.CheckKeepsValue | dist/utils.js:722-751 | `validate` never changes the value it reports |
| Chain.FalsyChainFails | dist/utils.js:671-675 | as written, a falsy spec makes `validate` reject with a TypeError, and other operations on null or undefined throw one |
| Chain.IntendedSteps | dist/utils.js:671-675 | corrected: every spec other than a falsy one or `''` builds the same steps as written (what the falsy case does is stated by IntendedFalsyChain) |
| Chain.IntendedFalsyChain | dist/utils.js:671-675 | corrected: a falsy spec validates every value and returns every value unchanged |
| Chain.OneRule | dist/utils.js:676-713 | one written registered rule builds one wrapped step carrying its parsed args |
| Chain.AddedRuleIsUsed | dist/validators.js:118-121 | a rule added under a name is the one a spec naming it runs |
| Chain.Registry.constructor | dist/validators.js:111-112 | a registry starts with the given rules |
| Chain.Registry.Exists | dist/validators.js:114-117 | a name exists iff it is registered and its entry is not undefined |
| Chain.Registry.Add | dist/validators.js:118-121 | adding stores the entry under the name, changes no other name, and returns the entry; an added function then exists |
| Chain.Registry.Chain | dist/validators.js:113 | building a chain from the registry fails iff the spec is of an unsupported kind |
| Regex.RepeatRun | dist/validators.js:97 | a bounded repetition of a class matches exactly the runs of that class with a length between the bounds |
| Regex.ManyRun | dist/validators.js:105 | an unbounded repetition matches exactly the long-enough runs of the class |
| Regex.OptChar | dist/validators.js:97 | an optional class matches nothing or one character of the class |
| Regex.MatchHasDigits | dist/validators.js:105 | a match holds at least the pattern's minimum number of digits |
| Regex.MatchMentions | dist/validators.js:105 | every matched character is in some class of the pattern |
| Validators.MessageOr | dist/validators.js:49-50 | the error message is `args.message` when truthy, else the fallback, and is always truthy |
| Validators.NumberIsFinite | dist/validators.js:22 | a value the rules count as a number converts to a finite number |
| Validators.Validators | dist/validators.js:20-108 | every registered validator is a callable rule |
| Validators.GreaterIff | dist/validators.js:20-26 | `greater` errors iff both the value and `args.value` are numbers and `args.value >= val`, with 'Must be larger than' and the limit |
| Validators.SmallerIff | dist/validators.js:27-33 | `smaller` errors iff both are numbers and `args.value <= val`, with 'Must be smaller than' and the limit |
| Validators.PasswordLength | dist/validators.js:34-38 | on non-blank text, `password` errors iff the text is shorter than 8, with its fixed message |
| Validators.PositiveIff | dist/validators.js:39-46 | `positive` errors iff a non-empty number is below 0 |
| Validators.RequiredIff | dist/validators.js:47-52 | without `connectWith`, `required` errors iff the value is empty, with `args.message` or 'Value required' |
| Validators.RequiredConnectWith | dist/validators.js:47-52 | with `connectWith` and a non-empty array, `required` errors iff element 0 is empty |
| Validators.EmptyPasses | dist/validators.js:34-108 | every validator but `required`, `greater` and `smaller` passes empty input |
| Validators.NumericIff | dist/validators.js:61-68 | `numeric` errors iff non-empty input is not all digits |
| Validators.AlphaNumericIff | dist/validators.js:69-76 | `alphanum` errors iff non-empty input has a character that is not an ASCII letter or digit |
| Validators.LibPhoneIff | lib/validators.js:121-129 | lib `phone` errors iff non-empty input has fewer than 10 digits |
| Validators.PhoneDigits | dist/validators.js:105 | text the dist phone pattern accepts has at least 9 digits |
| Validators.PhoneCharacters | dist/validators.js:105 | text the dist phone pattern accepts holds only digits and phone punctuation |
| Validators.DistPhoneNeedsNineDigits | dist/validators.js:101-108 | with fewer than 9 digits, both editions' `phone` error with the phone message |
| Validators.DateIff | lib/validators.js:111-120 | the date pattern accepts exactly MM 01-12, DD 01-31 and YYYY, with at most one non-digit between fields |
| Validators.TwoRules | dist/validators.js:113 | `first,second` builds the two registered rules in order |
| Validators.Registrations | dist/validators.js:47-84 | the registry holds `required` and `email` with their bodies |
| Validators.RequiredRejectsUndefined | spec/validators/ValidatorsSpec.js:7-29 | `validatorFunction('required')` rejects undefined with 'Value required' |
| Validators.RequiredResolves | spec/validators/ValidatorsSpec.js:7-29 | `validatorFunction('required')` resolves 'not empty' |
| Validators.WrappedPasses | dist/utils.js:736-752 | a wrapped rule with a falsy result lets the check go on with its args |
| Validators.WrappedFails | dist/utils.js:748 | a wrapped rule's error rejects with the value and its args |
| Validators.RequiredEmailChain | spec/validators/ValidatorsSpec.js:31-54 | `required,email` rejects 'derp' with 'Invalid email address' and resolves 'derp@test.com' |
| Validators.StaticArgsChain | spec/validators/ValidatorsSpec.js:56-71 | `email(test:derp,hello:true)` passes the rule `{test:'derp', hello:true}` and resolves a valid address |
| Validators.CustomMessageChain | dist/validators.js:47-52 | `required(message:m)` rejects null with message m |
| Validators.ExampleMessageChain | spec/validators/ValidatorsSpec.js:73-84 | `required(message:Hawt dog! It is empty!)` rejects null with that message |
| Formatters.EscapeOrder | dist/formatters.js:31-33 | escaping `<` and `>` can be done in either order |
| Formatters.EscapeIsSafe | dist/formatters.js:31-33 | escaped text has no `<` or `>` |
| Formatters.HtmlRoundTrip | dist/formatters.js:27-40 | unescaping escaped text gives it back when it holds no `&#60;` or `&#62;` |
| Formatters.HtmlSafe | dist/formatters.js:27-40 | format, display and sort give a string without `<` or `>` |
| Formatters.HtmlSafeRoundTrip | dist/formatters.js:27-40 | `htmlSafe` passes every validation, and unformat after a rendering operation gives the string back (or `''` for a non-string) |
| Formatters.EntityReadBack | dist/formatters.js:27-40 | the entity `&#60;` itself does not survive the round trip: it comes back as `<` |
| Formatters.DefaultIsNeutral | dist/formatters.js:41-43 | `default` keeps the value in a fold and passes every validation |
| Formatters.PrettifyOnlyFormats | dist/formatters.js:19-26 | `prettify` is neutral outside format and validate |
| Formatters.AffirmsIff | lib/formatters.js:41-54 | text is affirmative iff, lower-cased, it contains enabled, true, affirmative, checked, a `y`, or a digit 1-9 |
| Formatters.BoolRoundTrip | lib/formatters.js:41-54 | for any value other than a number or boolean, unformatting the rendered result gives the same as unformatting the original |
| Formatters.BoolKeepsTruth | lib/formatters.js:41-54 | a number or boolean gives its truth under every operation |
| Formatters.Substr | dist/formatters.js:240-247 | `substr` is at most the asked length and is the slice when in range |
| Formatters.KeepDigits | dist/formatters.js:249 | stripping non-digits leaves only digits, and keeps a digit string whole |
| Formatters.PhoneNumberFixed | dist/formatters.js:248-257 | the unformatted number is non-empty and unformatting it again changes nothing |
| Formatters.PhoneNumberForms | dist/formatters.js:248-257 | unformat gives `''` for `''`, otherwise either 11 digits or `+` followed by a digit count other than 10 or 11 |
| Formatters.PhoneNumberIdempotent | dist/formatters.js:248-257 | `phone` unformat is idempotent on strings |
| Formatters.PhoneLengthGuard | dist/formatters.js:240-247 | format returns text of a length outside 9..11 unchanged |
| Formatters.PhoneTenDigits | dist/formatters.js:240-257 | ten digits not starting with 1 format as `(AAA) BBB-CCCC` and unformat to '1' and the digits |
| Formatters.PhoneElevenDigits | dist/formatters.js:240-257 | eleven digits starting with 1 format without the 1 and unformat back to themselves |
| Formatters.PhoneNineFromOne | dist/formatters.js:240-247 | nine characters starting with 1 format without that first character |
| Formatters.WordRun | dist/formatters.js:263 | the word run at the front is maximal |
| Formatters.UrlIdempotent | dist/formatters.js:259-271 | url format gives '' or a text with a scheme, and formatting that again changes nothing |
| Formatters.FormatterPool | dist/formatters.js:274-284 | every registered formatter is a callable rule |
| Formatters.HtmlSafeChain | dist/formatters.js:276 | `formatterFunction('htmlSafe')` renders a string escaped |
| DataCollections.ResolvePresent | dist/data.js:188 | `get` along keys from a non-null value never throws |
| DataCollections.ReadIsGet | dist/data.js:188 | the read the helpers use is `get` with an undefined default, and changes nothing |
| DataCollections.ReadInContext | dist/data.js:188 | that read is the path route applied to the root |
| DataCollections.ReadOnPath | dist/data.js:188 | on a non-empty path, that read follows the path's keys |
| DataCollections.PlainScope | dist/utils.js:136-140 | a plain `prop` call works in the root itself |
| DataCollections.Picks | dist/data.js:186-190 | one value is picked per own key |
| DataCollections.ExtractOne | dist/data.js:183-191 | a falsy argument adds nothing; otherwise one entry per own key |
| DataCollections.PicksAt | dist/data.js:188 | entry j is `get(args[key_j], key)` |
| DataCollections.ExtractAll | dist/data.js:181-195 | the nested loops build exactly the `extract` result |
| DataCollections.ExtractAlong | lib/data.js:171-187 | the loops over the arguments build exactly the `extract` result |
| DataCollections.ExtractStep | dist/data.js:182-191 | each argument appends its own entries |
| DataCollections.PickAll | dist/data.js:186-190 | the inner loop builds exactly the picks |
| DataCollections.ExtractJoin | dist/data.js:181-195 | extracting from two lists is the concatenation of the two extractions |
| DataCollections.ExtractEntry | lib/data.js:171-187 | in order, each argument's entries sit right after those of the earlier arguments, each holding `get(elem, key)` |
| DataCollections.ExtractSkipsFalsy | dist/data.js:184 | a falsy argument contributes nothing |
| DataCollections.ToLookupLoop | dist/data.js:235-258 | the loop builds exactly the lookup object |
| DataCollections.FileAll | lib/data.js:227-252 | the loop over the keys builds exactly the lookup object |
| DataCollections.FileStep | dist/data.js:242-254 | each element is filed under its id when the id is truthy, and skipped otherwise |
| DataCollections.LastFiled | dist/data.js:242-254 | the last element filed under an id, or -1, and no later element is filed under it |
| DataCollections.LookupEntriesFile | dist/data.js:242-254 | an id is present iff some element files under it, and then it holds the last such element |
| DataCollections.ToLookupLastWins | dist/data.js:235-258 | `toLookup` has an id iff the data is truthy and some element has that truthy id, and the last such element wins |
| DataCollections.SelectedObject | dist/data.js:341-352 | `filter` on an object keeps a key iff the predicate returns exactly `true`, with its value |
| DataCollections.SelectLoop | dist/data.js:341-352 | the loop builds exactly that object |
| DataCollections.SelectStep | dist/data.js:343-350 | each key is kept exactly when the predicate returns `true` |
| DataCollections.ArrayLiteral | dist/data.js:332 | a built array is extensible with a writable length equal to its element count |
| DataCollections.ArrayLiteralAt | dist/data.js:332 | element i of a built array is the i-th value |
| DataCollections.ArrayLiteralKeys | dist/data.js:332 | every key of a built array is an index below its length |
| DataCollections.CloneAllocatesOnly | dist/data.js:261-265 | `clone` allocates one object exactly for an array or a plain record, and changes nothing else |
| DataCollections.CloneArray | dist/data.js:262 | an array clones to a new array of the same length with the same elements |
| DataCollections.CloneUnboxes | dist/data.js:262 | a boxed primitive clones to its primitive |
| DataCollections.ClonePlain | dist/data.js:262 | a plain record clones to a new object with the same own keys and values |
| DataEngine.Fresh | dist/data.js:332 | a new engine keeps the base data and points at the newly allocated result |
| DataEngine.HeldIndices | dist/data.js:332 | the indices `filter` visits are below the array's length |
| DataEngine.ElementsAt | dist/data.js:332 | one element per visited index |
| DataEngine.Filter | dist/data.js:318-354 | `filter` keeps the old heap and the base data, and throws iff the current value is not passive, not an array, has keys and meets a truthy non-function predicate |
| DataEngine.FilterEngine | dist/data.js:318-354 | the in-method loop gives exactly the `filter` result |
| DataEngine.FilterArray | dist/data.js:325-332 | on an array, `filter` allocates a new array of the kept elements |
| DataEngine.DefaultKeepsPresent | dist/data.js:327-329 | the default array predicate keeps exactly the present elements, in order |
| DataEngine.DefaultFilterArray | dist/data.js:325-332 | on an array, the default `filter` drops null and undefined |
| DataEngine.FilterObject | dist/data.js:334-352 | on an object, `filter` keeps a key iff the predicate returns exactly `true` |
| DataEngine.DefaultFilterObject | dist/data.js:335-339 | on an object, the default `filter` keeps the keys whose values are present |
| DataEngine.Strip | dist/data.js:272-287 | `strip` never throws |
| DataEngine.StripTestMeaning | dist/data.js:277-285 | the strip predicate is "the first matcher does not match" the key or the value, and undefined without matchers |
| DataEngine.StripNothingLeft | lib/data.js:258-272 | `strip` with no matchers drops every element and entry |
| DataEngine.FilterAgree | dist/data.js:318-354 | `filter` depends only on the predicate's answers |
| DataEngine.StripFirstOnly | lib/data.js:258-272 | `strip` consults only the first matcher |
| DataEngine.StripObject | dist/data.js:272-287 | on an object, `strip` keeps a key iff the first matcher does not match it |
| DataEngine.IndexOf | dist/data.js:458 | `indexOf` is -1 iff the value does not occur, and otherwise the first index where it does |
| DataEngine.WrapEngine | dist/data.js:451-465 | the `wrap` loop gives exactly the `Wrap` result |
| DataEngine.DistinctValues | dist/data.js:455-462 | the loop collects exactly the first-seen distinct values |
| DataEngine.DedupeStep | dist/data.js:457-460 | a value is added iff it did not occur yet |
| DataEngine.StrictEqualsIsEquality | dist/data.js:458 | `===` is value equality on values equal to themselves (NaN is not) |
| DataEngine.DedupeDistinct | dist/data.js:451-465 | `wrap` holds no value twice |
| DataEngine.DedupeSameValues | dist/data.js:451-465 | `wrap` holds exactly the values of the data |
| DataEngine.DedupeOccurs | dist/data.js:451-465 | a value occurs in `wrap` iff it occurs in the data, by `===` |
| DataEngine.DedupeIsFirstSeen | lib/data.js:428-443 | `wrap` is the first occurrences of the values, in order |
| DataEngine.ExtractEngine | dist/data.js:503-520 | the engine's `extract` loop gives exactly its result |
| DataEngine.EngineExtractReads | dist/data.js:503-520 | the engine's `extract` allocates exactly the array the module-level `extract(path, d)` returns, moves to it, and entry j is the read of key j |
| DataCollections.ExtractSingle | dist/data.js:503-520 | `extract` over one truthy value reads along the path from each of its own values, in key order |
| DataExtend.Trunc | dist/data.js:121-129 | truncation toward zero, for both signs |
| DataExtend.FlagBits | dist/data.js:121-129 | the flag bits are below 8 |
| DataExtend.Start | dist/data.js:121-129 | the sources start at argument 1 or 2 |
| DataExtend.Nested | dist/data.js:67-71 | a nested merge keeps the edition and stays deep; in dist it is the very `_extend` settings of the caller (overwrite and filter included) |
| DataExtend.NewContainer | dist/data.js:67-69 | the new container is an empty array for an array value and an empty object otherwise, freshly allocated |
| DataExtend.CallOf | dist/data.js:65 | the filter sees the key, the value, the source, the destination value and the destination; in lib the depth, parent key and parent are undefined |
| DataExtend.Admits | dist/data.js:65 | the filter check throws iff the filter is not callable, and admits every key without a filter |
| DataExtend.Write | dist/data.js:73 | the write succeeds iff the store does, and then the heap is the stored one |
| DataExtend.Bump | dist/data.js:101-105 | stamping the audit allocates nothing |
| DataExtend.Merge | dist/data.js:44-108 | `_extend` only allocates and returns the destination |
| DataExtend.CopySources | dist/data.js:46-100 | the loop over sources only allocates |
| DataExtend.CopyFrom | dist/data.js:48-56 | copying from one source only allocates |
| DataExtend.CopyKeys | dist/data.js:55-75 | the loop over keys only allocates |
| DataExtend.CopyKey | dist/data.js:57-74 | copying one key only allocates |
| DataExtend.Deliver | dist/data.js:67-73 | delivering a value only allocates |
| DataExtend.DeepCopy | dist/data.js:67-71 | the deep copy only allocates; what it builds is stated by ExtendDeep.DeepCopyBuilds |
| DataExtend.ExtendCall | dist/data.js:110-138 | `extend` only allocates |
| DataExtend.Extend | dist/data.js:43-139 | running `extend` in place gives the state and result of ExtendCall and leaves the uid counter alone |
| DataExtend.MergeInPlace | dist/data.js:44-108 | in-place `_extend` gives the state and result of Merge |
| DataExtend.SourcesInPlace | dist/data.js:46-100 | the in-place source loop gives the state and result of CopySources |
| DataExtend.FromInPlace | dist/data.js:48-75 | the in-place key loop of one source gives the state and result of CopyFrom |
| DataExtend.CopyKeyInPlace | dist/data.js:57-74 | copying a key in place gives the state and result of CopyKey |
| DataExtend.DeliverInPlace | dist/data.js:67-73 | delivering in place gives the state and result of Deliver |
| DataExtend.WriteInPlace | dist/data.js:73 | writing in place gives the state and result of Write |
| DataExtend.DeepCopyInPlace | dist/data.js:67-71 | the in-place deep copy gives the state and result of DeepCopy |
| ExtendFacts.PutOther | dist/data.js:73 | a store changes only the stored key (and, for an array index, the length) |
| ExtendFacts.PutPlainStores | dist/data.js:73 | a store into a plain object reads back |
| ExtendFacts.MergeKeeps | dist/data.js:44-108 | `_extend` never changes a guarded key of the destination nor any object older than the call except the destination and its audit |
| ExtendFacts.CopyKeyDelivers | dist/data.js:57-74 | a key that passes the guards is delivered |
| ExtendFacts.CopyKeySkips | dist/data.js:58-65 | a key that fails a guard changes nothing |
| ExtendFacts.DeepCopyKeeps | dist/data.js:67-71 | a deep copy changes no existing object |
| ExtendProps.ExtendReturnsDestination | dist/data.js:107-133 | no arguments give undefined, one gives itself, and otherwise the result is the destination, or a fresh `{}` for a falsy one |
| ExtendProps.ExtendKeeps | dist/data.js:43-139 | `extend` keeps every guarded key of the destination |
| ExtendProps.NoOverwriteKeepsOwnKeys | dist/data.js:60 | under NO_OVERWRITE, every own key of the destination keeps its value |
| ExtendProps.DistSkipsProtoKeys | dist/data.js:58 | dist never writes `__proto__`, `constructor` or `prototype` |
| ExtendProps.ExtendLeavesOthers | dist/data.js:43-139 | no object other than the destination changes, outside audit records |
| ExtendProps.ExtendLastSourceWins | dist/data.js:76-99 | shallow `extend` of a plain destination sets each key to the value of the last source that has it, or keeps its own |
| ExtendProps.PlainSources | dist/data.js:76-99 | the shallow source loop changes only the destination, as the winner rule says |
| ExtendProps.FilterFalseSkips | dist/data.js:65 | a key is delivered iff the filter does not return exactly `false`, and a `false` leaves everything unchanged |
| ExtendProps.MergeRefusingAll | dist/data.js:65 | with a filter that refuses every key, `extend` only stamps the audit |
| ExtendDeep.WriteLands | dist/data.js:73 | the store `dst[key] = val` puts the delivered copy under `key` and leaves every other key of `dst` as it was |
| ExtendDeep.DeepDeliverLands | dist/data.js:67-73 | a value copied deeply arrives under `key` as a new container of its kind, and no other key of `dst` moves |
| ExtendDeep.DeliverLands | dist/data.js:67-73 | the delivered value is the value itself or, when it is copied deeply, a new container of its kind; only `key` moves |
| ExtendDeep.TrackKey | dist/data.js:57-74 | one key of the loop copies the source's value to `k` when the key is `k`, is not a `__proto__`/`constructor`/`prototype` key in dist, and `dst` takes it (overwrite, or `dst` does not own it); otherwise `k`'s slot is unchanged |
| ExtendDeep.TrackKeys | dist/data.js:55-75 | over the key loop, `k` holds a copy of the source's value when it is among the remaining keys, is not skipped in dist and is taken; otherwise its slot is unchanged |
| ExtendDeep.TrackFrom | dist/data.js:48-75 | one source: `k` receives a copy of its value when the source is an object listing `k` (not a prototype key in dist) and `dst` takes it; otherwise `k` is unchanged |
| ExtendDeep.TrackPair | lib/data.js:66-94 | two sources into an empty object: `k` holds a copy from the later source that has it when overwriting, and from the earlier one under NO_OVERWRITE |
| ExtendDeep.MergePair | dist/data.js:44-108 | the same through the whole `_extend` call, audit stamp included; a key neither source has is left as it was |
| ExtendDeep.NestedBuilds | dist/data.js:67-71 | the nested call over `[dstVal or a new container, val]` into a new container builds, key by key, the copy of the winning source's value, and leaves unset a key neither has |
| ExtendDeep.DeepCopyBuilds | dist/data.js:67-71 | a deep copy of a non-array value is a new object whose key `k` holds a copy of the winner among the old destination value and the copied value (the copied value when overwriting, the old one under NO_OVERWRITE), and is undefined when neither has `k` |
| ExtendDeep.DeepCopyWinner | lib/data.js:86-91 | where the winning value is not itself copied deeply, a deep copy holds at `k` exactly the plain `extend` winner of `[dstVal, val]`, in reversed order under NO_OVERWRITE |
| ExtendDeep.DeepCopyKeepsBase | dist/data.js:60-71 | under dist NO_OVERWRITE a key the old destination value has keeps (a copy of) that value in the new object |
| ExtendDeep.WinnerOfTwo | dist/data.js:76-99 | the winner of two sources is the value of the second when it has the key, else of the first, else undefined |
| ExtendProps.DeepCopyIsFresh | dist/data.js:67-71 | in deep mode, a plain object or array value arrives as a new container of its kind |
| ExtendProps.NestedIsFresh | dist/data.js:67-71 | a deep copy is a new container of the value's kind |
| ExtendProps.LibNestedIgnoresFlags | lib/data.js:86-92 | in lib, a nested merge ignores the flags: it is deep, overwrites and has no filter |
| ExtendProps.BumpCounts | dist/data.js:101-105 | without `_audit` nothing is stamped; with a writable `base` record, `modified` becomes the clock and `updateCount` grows by one |
| ExtendProps.FlagsOfInteger | dist/data.js:142-146 | an integer flag word sets DEEP by bit 0, NO_OVERWRITE by bit 1 and FILTER by bit 2 |

## Left out

- PropSpec.Uid: states the form of an identifier; the exact `U<counter>` value is stated by PropMeta.GetMetaDrawsUid.
- PropSpec.InitMeta: its own contract states only that nothing is freed; what it creates is stated by PropMeta.MetaContextCreates and PropFindings.MetaRecordShape.
- PropSpec.Context: its own contract states only that nothing is freed; its effect is stated by PropMeta.MetaContextCreates and PropMeta.GetOnlySetsUp.
- PropSpec.Step: its own contract states only that nothing is freed; its effect is stated by the PropWalk lemmas.
- PropSpec.Clear: its own contract states only that nothing is allocated; its effect is stated by PropReads.ClearEffect.
- PropSpec.SetStep: its own contract states only that nothing is freed; its effect is stated by PropWalk.StepMoves, StepStores and StepCreates.
- PropSpec.Attach: its own contract states only that nothing is freed; its effect is stated by PropLemmas.AppendWalk and PropWalk.StepStores.
- PropSpec.Walk: its own contract states only that nothing is freed; its effect is stated by the PropWalk and PropReads lemmas.
- PropSpec.InitAudit: its own contract states only that nothing is freed; its effect is stated by PropAudit.InitAuditCreates.
- PropSpec.Touch: its own contract states only that nothing is allocated; its effect is stated by PropAudit.TouchStores and TouchFrame.
- PropSpec.Audit: its own contract states only that nothing is freed; its effect is stated by the PropAudit lemmas.
- PropSpec.TouchRecord: its own contract states only that nothing is allocated; its effect is stated by PropAudit.TouchFreshRecord.
- PropSpec.SingleKey: its own contract states only that the walk ends; its effect is stated by PropReads.SingleRemove for `remove` and by PropLemmas.SingleSetAssigns, SingleSetStores, SingleSetRefused and SingleSetThenGet for `set`.
- PropSpec.Prop: its own contract states only that nothing is freed; its meaning is stated by the lemmas listed in the table.
- PropSpec.Scoped: its own contract states only that nothing is freed; see PropMeta.GetOnlySetsUp.
- PropSpec.InContext: its own contract states only that nothing is freed; see PropReads.DistRefusesRoot and GetReads.
- PropSpec.OnPath: its own contract states only that nothing is freed; see PropReads.GetOnPathReads.
- PropSpec.Finish: its own contract states only that nothing is freed; see PropLemmas.FinishedSet and FinishedSetState.
- DataExtend.Merge, DataExtend.CopySources, DataExtend.CopyFrom, DataExtend.CopyKeys, DataExtend.CopyKey, DataExtend.Deliver, DataExtend.ExtendCall: their own contracts state only allocation; their meaning is stated by ExtendFacts and ExtendProps.
- DataExtend.DeepCopy: its own contract states only allocation. What it builds is stated by ExtendDeep.DeepCopyBuilds, DeepCopyWinner and DeepCopyKeepsBase, within the limits given under ExtendDeep.DeepCopyBuilds.
- ExtendDeep.DeepCopyBuilds: covers the deep copy of a plain object only. A copied array is not covered, because writing an index also moves `length`. The audit keys `modified` and `updateCount` are not covered, because the nested call stamps them. A dist deep copy under FILTER is not covered, because its nested call passes the filter on and the filter may refuse keys. Values whose references point outside the heap are excluded. A nested value that is itself copied deeply is stated only as a new container of its kind, not by its contents.
- DataExtend.Merge: recursion is bounded by a `fuel` argument; when it runs out, a deep copy stops descending. Objects nested more deeply than the fuel are not modelled.
- Predicates.InstanceOf: lib's `instanceOf` has no `'object'` short form; it is modelled as Predicates.MatchesAny and not as a separate edition of InstanceOf.
- Predicates.InstanceOf: types are given by name only. A constructor argument is not modelled: neither the translation of `String`, `Number` and the other built-ins to names, nor `obj instanceof val` for any other constructor. In particular dist `instanceOf(x, Object)` does not take the `'object'` short form, which tests the string only.
- Predicates.SizeOf: the `obj.size instanceof Function` branch (dist/utils.js:462) is not modelled, because functions are not values of this model; an object with a callable `size` is sized by its `length` or key count instead.
- PropLemmas.SetBumpsBase: covers a node whose `_audit.base` record already exists. The first `set` on a node without `_audit` creates the records; that step is stated at the audit level by PropAudit.AuditInitialises and not chained through the walk.
- Strings are sequences of Unicode characters, while JS `length` and indexing count UTF-16 code units. A character outside the Basic Multilingual Plane counts 1 here and 2 in JS. This affects Validators.PasswordLength, Formatters.PhoneLengthGuard, Formatters.Substr, Predicates.SizeOf, Predicates.StringIndex, Predicates.FirstOfString and Predicates.LastOfString: for example, four emoji have length 8 in JS, so `password` accepts them, but length 4 here.
- Numbers are exact reals plus NaN and the infinities, not IEEE doubles. Rounding is not modelled, so comparisons (Validators.GreaterIff, Validators.SmallerIff, Validators.PositiveIff), `parseFloat` results (RuleSpec.ParseDigits, RuleSpec.CoerceDigits, Validators.NumberIsFinite) and `updateCount` increments differ from JS for values beyond 2^53 or near a rounding boundary.
- Validators.Validators: the `email` and `url` rules are parameters (`isEmail`, `isUrl`) standing for their large Unicode regular expressions.
- Validators.NumberIsFinite: `parseFloat` is modelled on decimal literals only; hexadecimal, exponent-only and other forms are not modelled.
- The prototype chain: only own properties are read, plus the `length` of arrays and boxed strings and the characters of strings. The `__proto__` setter is not modelled; lib `parseCSS` and dist `extend` skip that key, as their code does.
- Functions as `extend` destinations or sources are excluded by its precondition (`FunctionsPlaced`), because functions are not heap objects in this model.
- Callbacks (filter functions, `strip` matchers, rule bodies, predicates) are pure Dafny functions of the heap. Callbacks that mutate state or throw are not modelled.
- Error objects returned by validators are the immutable value `Failure(message)`. Awaitables are `Thenable(outcome)` with a known outcome, so promise scheduling is not modelled.
- The clock is the `now` parameter. `uuid`, `Math.random`, `performance` and `hrtime` are not part of this model.
- `prettify`'s text transform (dist/utils.js:530-542) is a parameter (`Prettifier`) of the `prettify` formatter.
- The float and date formatters (`number`, `integer`, `money`, `percent`, `time`, `date`) depend on float rounding, `toFixed`, `toLocaleString` and `moment`.
- The `id`, `aliases` and `audit` accessors read `_audit.meta` or call `indexOf` on an object; only their shared cause is modelled, in PropFindings.
- `equal`, `expectType`, `safeJSONStringify` and `safeJSONParse` are not part of this model; they rest on `console.log`, `toString` fallbacks and the JSON built-ins.
- `parseHTML` and `convertHTML` (lib/utils.js:547-709) and lib/appUtils.js wrap a third-party HTML tokenizer.
- lib/api.js is network and promise plumbing over undefined globals.
- `TranslatorEngine` `value`, `select`, `reset`, `map`, `reduce`, `unwrap`, `collapse`, `join`, `merge`, `mutate` and `createTranslator` are not modelled; they are callback-driven wrappers or carry an undefined reference.
- Regular expression `lastIndex` state is not modelled; each pattern is a pure test.
- Arrays: `remove` with `force` exactly `true` on an array element deletes it and leaves a hole, as the code does with `delete`; it does not shift the later elements.
- `noe`: the code returns true when ANY argument is empty; the model follows the code (Predicates.Noe).
- The main model follows the code as written, including the three defects under Findings; the corrected definitions stand beside it, each with its intended property proved.

## Findings

| source | as written | input that shows it | evidently intended | confidence | as-written member | corrected member |
|---|---|---|---|---|---|---|
| dist/utils.js:230-242 | a one-segment `remove` reads the named key but clears the slot named by `part`, which is never set on this route, so it writes or deletes key `undefined` (also lib/utils.js:218-229) | `remove(obj, 'a')` with `obj = {a: 1}`: returns 1, `obj.a` is still 1, and `obj` gains key `undefined` | the named key is cleared, or deleted when forced, and its prior value returned | high, not executed | PropFindings.SingleRemoveMissesKey | PropFindings.IntendedSingleRemove |
| dist/utils.js:261-264 | the meta audit stamps `_audit.meta`, but `initAudit` names that record `_meta`, so it stamps undefined and throws (also lib/utils.js:249-252) | `setMeta(obj, 'a.b', 1)` on a fresh object `{}` throws a TypeError after writing | the `_meta` audit record is stamped | high, not executed | PropFindings.SetMetaThrows | PropFindings.IntendedAuditRecordKey |
| dist/utils.js:671-675 | a falsy spec becomes a bare identity function, but the chain reads `.args` and `.value` of each result as a wrapped rule returns them | `formatterValidatorChainFactory(pool, null)('x', 'validate')` rejects with a TypeError; `(null, 'format')` throws one | a falsy spec is a neutral rule that validates everything and returns the value | high, not executed | Chain.FalsyChainFails | Chain.IntendedSteps |
