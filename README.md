# WeakEventHandler.Fody in Dafny

A model of the two halves of WeakEventHandler.Fody.

**The build-time weaving pass** (`WeakEventHandlerWeaver`). It finds the event handler methods marked with `[MakeWeak]`, removes the marker, and checks each handler's signature. It then looks for the places where a handler is attached to or detached from an event: `ldftn handler; newobj; callvirt add_X/remove_X`. For every such event site it:

- adds a weak adapter field and two static forwarders to the handler's type;
- puts a `Release` call into one teardown method per type (`>WeakEvents>Unsubscribe`);
- rewrites every registration into `ldarg.0; ldfld adapter; <source pushes>; callvirt Subscribe/Unsubscribe`.

**The run-time weak adapter** (`WeakEventHandlerFodyWeakEventAdapter` and its copy `WeakEventAdapter`) and the older `WeakEventListener`. Each keeps a copy-on-write registry of event sources that is published with compare-and-swap retry loops. Each forwards an event to its subscriber while the subscriber is alive. Once the subscriber is gone, each detaches from every registered source instead.

Modules, one file each:

- `wrappers.dfy` (`Wrappers`): Option, Result and Outcome.
- `cil.dfy` (`Cil`): instructions as `(identity, opcode, operand)`, and the stack transition of each opcode, taken from section 1.3 of Partition III of ECMA-335 as Mono.Cecil counts it. `Nop`, `Ldarg0`, `Ldarg1`, `Ldnull`, `Ldloc`, `Stloc`, `Dup`, `Pop`, `Ldfld`, `Stfld`, `Ldftn`, `Newobj`, `Call`, `Callvirt` and `Ret` have their own constructors. Every other opcode is `Other(pop, push)`.
- `lists.dfy` (`Lists`): `List<T>.Remove`.
- `metadata.dfy` (`Metadata`): type, method, event and field definitions. It holds `IsEventArgs`, `Verify(methods)`, `ConsumeAttribute` and the scan.
- `analysis.dfy` (`Analysis`): `EventKey`, `GetOrAdd`, the match predicate of `Analyze`, the grouping into event sites, and the unmapped-handler warnings.
- `rewrite.dfy` (`Rewrite`): the crawl back over stack deltas, the splice, and the teardown's release chain.
- `weaver.dfy` (`Weaving`): the mutable module (`ModuleDefinition`) and the pass (`Weaver`). Every step of the pass is an imperative method that is proved against the functions above.
- `registry.dfy` (`Registry`): immutable snapshots, and the updates that other threads publish between a read and a swap.
- `adapter.dfy` (`Adapter`): `WeakEventAdapter`. It stands for both adapter copies, which are identical in behaviour (they differ in class name, annotations and an assembly attribute, so their line numbers differ). The table below cites `WeakEventHandlerFodyWeakEventAdapter.cs`; the matching members of `WeakEventAdapter.cs` are the constructor (lines 44-59), `OnEvent` (61-70), `Subscribe` (72-87), `Unsubscribe` (89-106) and `Release` (108-114).
- `listener.dfy` (`Listener`): `WeakEventListener`.

How the opaque parts are represented:

- Delegates are opaque. The adapters record every call made through a delegate in a ghost `log`.
- The weak reference is a boolean, `targetAlive`, which the environment may clear (`CollectTarget`).
- Other threads are a sequence of list updates (`contention`). Each update is published between this thread's read and its swap, and each one makes that swap fail.

Identities of new methods, fields and instructions come from a counter, `ModuleDefinition.nextId`.

A lookup that fails in the model's tables stands for a reference that Cecil cannot resolve:

- in `Analyze`, it means no match;
- where the source would dereference null, it is an error result.

A `RemoveAt(index, opcode)` that finds another opcode is an error result. An error stops the pass. The failing step leaves the module untouched.

## Model

| member | source | states |
|---|---|---|
| Cil.StackDeltaTable | WeakEventHandler.Fody/WeakEventHandlerWeaver.cs:262 | the stack delta `ComputeStackDelta` adds: loads push one, `ldfld` and `ret` net zero, `stloc`/`pop` pop one, `stfld` pops two, any other opcode pushes minus pops, and `newobj`/`call` follow the signature; there is no delta exactly for a call-like instruction without a method operand, where the cast throws |
| Cil.IndexOf | WeakEventHandler.Fody/WeakEventHandlerWeaver.cs:252 | `IndexOf` gives the first position holding the instruction object, or -1 exactly when the instruction is absent |
| Lists.RemoveFirstCutsFirstOccurrence | WeakEventHandler/WeakEventHandlerFodyWeakEventAdapter.cs:92 | `List.Remove` cuts out exactly the first occurrence and keeps the order of the rest; without an occurrence the list is unchanged |
| Lists.RemoveFirstMultiset | WeakEventHandler/WeakEventHandlerFodyWeakEventAdapter.cs:92 | `Remove` takes one copy of the element out of the multiset and shortens the list by one exactly when the element was there |
| Lists.RemoveAfterAppend | WeakEventHandler/WeakEventHandlerFodyWeakEventAdapter.cs:73-92 | Subscribe's append followed by Unsubscribe's removal restores the registry as a multiset, and as the same list when the source was not registered before |
| Registry.Snapshot.constructor | WeakEventHandler/WeakEventHandlerFodyWeakEventAdapter.cs:73 | a published list is a fresh copy whose items are fixed when it is built |
| Registry.AppendsAllKept | WeakEventHandler/WeakEventHandlerFodyWeakEventAdapter.cs:69-79 | subscriptions by competing threads are never lost: after any sequence of winning swaps the registry holds every appended source, in swap order |
| Adapter.ReleaseCalls | WeakEventHandler/WeakEventAdapter.cs:108-114 | Release issues one remove per registry entry, in registry order, each with the adapter's own handler |
| Adapter.ReleaseIsUnsubscribeEach | WeakEventHandler/WeakEventAdapter.cs:89-114 | Release issues the same remove calls as unsubscribing every registered source in turn; unlike those unsubscriptions it keeps the registry |
| Adapter.WeakEventAdapter.constructor | WeakEventHandler/WeakEventHandlerFodyWeakEventAdapter.cs:39-54 | the adapter starts with a live target, an empty registry, no calls, and the one handler it will pass to every add and remove |
| Adapter.WeakEventAdapter.OnEvent | WeakEventHandler/WeakEventHandlerFodyWeakEventAdapter.cs:56-65 | with a live target it makes exactly one target call and nothing else; with a dead target it makes exactly Release's calls; the registry is unchanged either way |
| Adapter.WeakEventAdapter.Subscribe | WeakEventHandler/WeakEventHandlerFodyWeakEventAdapter.cs:67-82 | the retry loop publishes the list current at its last read with the source appended (no deduplication), in a fresh snapshot; then exactly one add call with the adapter's handler |
| Adapter.WeakEventAdapter.Unsubscribe | WeakEventHandler/WeakEventHandlerFodyWeakEventAdapter.cs:84-101 | the retry loop publishes the current list without the first entry equal to the source (unchanged if there is none); then exactly one remove call, registered or not |
| Adapter.WeakEventAdapter.Release | WeakEventHandler/WeakEventHandlerFodyWeakEventAdapter.cs:103-109 | appends ReleaseCalls of the registry to the log and changes nothing else, so a second Release repeats the same calls |
| Listener.RemoveFirstMatchAt | WeakEventHandler/WeakEventListener.cs:89-97 | when record i is the first match, Unsubscribe's copy loses exactly record i and keeps the order of the others |
| Listener.RemoveFirstMatchNone | WeakEventHandler/WeakEventListener.cs:89-97 | without a matching record the list is unchanged |
| Listener.RemoveFirstMatching | WeakEventHandler/WeakEventListener.cs:89-97 | the `for` loop with `RemoveAt` and `break` computes exactly the list without its first match |
| Listener.KeepsOtherRemoveMethod | WeakEventHandler/WeakEventListener.cs:128-131 | unsubscribing keeps every record it does not match, as often as it occurred, in any list: in particular every record of the same source whose remove delegate is over another method |
| Listener.ReleaseCalls | WeakEventHandler/WeakEventListener.cs:108-114 | Release calls each record's own remove delegate with that record's source and the listener's handler, in order |
| Listener.WeakEventListener.constructor | WeakEventHandler/WeakEventListener.cs:44-49 | the listener starts with no records and no calls; the target is alive exactly when it is not null |
| Listener.WeakEventListener.ReadSubscriptions | WeakEventHandler/WeakEventListener.cs:10-17 | the local `Volatile.Read` returns the published list itself |
| Listener.WeakEventListener.OnEvent | WeakEventHandler/WeakEventListener.cs:51-62 | with a null weak target it makes exactly Release's calls; otherwise it makes exactly one target call |
| Listener.WeakEventListener.Subscribe | WeakEventHandler/WeakEventListener.cs:64-81 | publishes the current list with the record (source, remove) appended; then exactly one add call with the listener's handler |
| Listener.WeakEventListener.Unsubscribe | WeakEventHandler/WeakEventListener.cs:83-106 | publishes the current list without its first record that matches on source identity and remove method; then exactly one remove call, matched or not |
| Listener.WeakEventListener.Release | WeakEventHandler/WeakEventListener.cs:108-114 | appends each record's remove call, in order, and keeps the records |
| Metadata.IsEventArgsIffOnChain | WeakEventHandler.Fody/WeakEventHandlerWeaver.cs:353-359 | `IsEventArgs(t)` holds exactly when `t` or a type reached from it by following base types is named `System.EventArgs` |
| Metadata.NullIsNotEventArgs | WeakEventHandler.Fody/WeakEventHandlerWeaver.cs:355-356 | `IsEventArgs(null)` is false |
| Metadata.Verify | WeakEventHandler.Fody/WeakEventHandlerWeaver.cs:338-351 | the check passes exactly when every marked method is non-static with the `void (object, EventArgs)` shape |
| Metadata.VerifyStopsAtFirst | WeakEventHandler.Fody/WeakEventHandlerWeaver.cs:338-351 | a failure names the first rejected method: all earlier ones are acceptable, and the error is "static" when that method is static and "bad signature" otherwise |
| Metadata.ConsumeAttribute | WeakEventHandler.Fody/WeakEventHandlerWeaver.cs:361-372 | reports exactly whether the method carries the marker, removes one copy of it, and changes nothing else about the method |
| Metadata.ConsumeTwice | WeakEventHandler.Fody/WeakEventHandlerWeaver.cs:361-372 | on a method that carried the marker at most once, a second ConsumeAttribute returns false |
| Metadata.NonConstructors | WeakEventHandler.Fody/WeakEventHandlerWeaver.cs:101 | `GetMethods()` yields exactly the type's methods that are not constructors |
| Metadata.ScanFromKeeps | WeakEventHandler.Fody/WeakEventHandlerWeaver.cs:98-103 | the scan keeps the set of methods and their declaring types, and collects only known methods |
| Metadata.ScanFindsMarked | WeakEventHandler.Fody/WeakEventHandlerWeaver.cs:98-103 | over an enumeration without repeats, the scan collects exactly the visited methods that were marked, unmarks every visited method, and leaves the others alone |
| Analysis.KeyName | WeakEventHandler.Fody/WeakEventHandlerWeaver.cs:405-408 | `EventKey.ToString` is `>` event name `>` sink name |
| Analysis.GeneratedNamesDiffer | WeakEventHandler.Fody/WeakEventHandlerWeaver.cs:206-211 | the adapter field and the two forwarders of one site get three different names |
| Analysis.IndexOfKey | WeakEventHandler.Fody/WeakEventHandlerWeaver.cs:377 | the dictionary lookup finds a site whose key is equal under `EventKey.Equals` (sink definition and event only), and -1 exactly when there is none |
| Analysis.GetOrAdd | WeakEventHandler.Fody/WeakEventHandlerWeaver.cs:375-384 | returns the existing site for an equal key and leaves the dictionary unchanged; otherwise adds exactly one empty site at the end; keys stay distinct |
| Analysis.RecordKeepsUnique | WeakEventHandler.Fody/WeakEventHandlerWeaver.cs:173-177 | recording an occurrence keeps the keys of the dictionary distinct |
| Analysis.RecordStep | WeakEventHandler.Fody/WeakEventHandlerWeaver.cs:173-177 | recording an occurrence appends it under its own key and changes the occurrences under no other key |
| Analysis.GroupKeepsUnique | WeakEventHandler.Fody/WeakEventHandlerWeaver.cs:173-177 | any number of recordings keep the keys of the dictionary distinct |
| Analysis.GroupAccumulates | WeakEventHandler.Fody/WeakEventHandlerWeaver.cs:173-177 | the occurrences under a key are the earlier ones followed by those of the matching hits in scan order; the handler constructor plays no part |
| Analysis.EventsWithAccessor | WeakEventHandler.Fody/WeakEventHandlerWeaver.cs:168 | selects exactly the events whose add or remove accessor is the called method |
| Analysis.MatchAt | WeakEventHandler.Fody/WeakEventHandlerWeaver.cs:151-177 | records a hit only for a sink reference followed by `newobj` and then a `callvirt` to the accessor of an event of the accessor's declaring type; the hit is tagged Add exactly when that accessor is the event's add method; no hit when any step is missing; an error only for an accessor shared by two events. Conversely, a complete pattern whose accessor belongs to exactly one event yields that hit, with the key (sink reference, sink, event, delegate constructor); an accessor of several events yields `AmbiguousAccessor` |
| Analysis.BodyHits | WeakEventHandler.Fody/WeakEventHandlerWeaver.cs:149-178 | every hit in one body is for this sink and lies in this body |
| Analysis.BodyHitsOk | WeakEventHandler.Fody/WeakEventHandlerWeaver.cs:149-178 | the scan of a body succeeds exactly when no position raises an error |
| Analysis.BodyHitsExact | WeakEventHandler.Fody/WeakEventHandlerWeaver.cs:149-178 | a successful scan of a body yields exactly the hits MatchAt finds at some position: every registration of the sink is found, and nothing else |
| Analysis.TypeHits | WeakEventHandler.Fody/WeakEventHandlerWeaver.cs:145-179 | every hit is for this sink and lies in a body of a method of the sink's declaring type |
| Analysis.AnalyzeAll | WeakEventHandler.Fody/WeakEventHandlerWeaver.cs:112-117 | analysing the marked methods one after the other keeps the keys of the dictionary distinct |
| Analysis.AnalyzeAllSitesFrom | WeakEventHandler.Fody/WeakEventHandlerWeaver.cs:143-180 | every recorded site has one of the analysed methods as its sink, and every occurrence lies in an existing body |
| Analysis.Unmapped | WeakEventHandler.Fody/WeakEventHandlerWeaver.cs:131-141 | a method is warned about exactly when it is a marked method that is the sink of no site |
| Analysis.UnmappedCounts | WeakEventHandler.Fody/WeakEventHandlerWeaver.cs:131-141 | one warning per occurrence of an unmapped marked method, and none for a mapped one |
| Analysis.UnmappedAppend | WeakEventHandler.Fody/WeakEventHandlerWeaver.cs:131-141 | the warnings follow the order of the marked methods: those for an earlier part of the list come before those for a later part |
| Rewrite.CrawlBack | WeakEventHandler.Fody/WeakEventHandlerWeaver.cs:251-263 | a successful crawl that started owing values stops strictly before its starting index |
| Rewrite.CrawlBackFindsStart | WeakEventHandler.Fody/WeakEventHandlerWeaver.cs:251-263 | the crawl from the registration with two values owed stops exactly at the start t where the run t..i covers the two values and no shorter run ending at i does; when such a t exists the crawl finds it |
| Rewrite.StartBeforeDelegate | WeakEventHandler.Fody/WeakEventHandlerWeaver.cs:254-263 | the crawl never stops on the delegate's own `ldarg.0`, which pushes only one value |
| Rewrite.Insert | WeakEventHandler.Fody/WeakEventHandlerWeaver.cs:268-269 | `Insert` lengthens the list by one and puts the instruction at the index |
| Rewrite.RemoveAt | WeakEventHandler.Fody/WeakEventHandlerWeaver.cs:273-276 | `RemoveAt(index, opcode)` succeeds exactly when that opcode is at the index, and then removes just that instruction |
| Rewrite.RemoveFour | WeakEventHandler.Fody/WeakEventHandlerWeaver.cs:273-276 | the four removals succeed exactly on `ldarg.0; ldftn; newobj; callvirt` at the index, and then cut out those four |
| Rewrite.RemoveFourPrepared | WeakEventHandler.Fody/WeakEventHandlerWeaver.cs:266-276 | after the two insertions, the removals succeed exactly when the original body has the delegate shape around the registration |
| Rewrite.RewriteSiteSucceeds | WeakEventHandler.Fody/WeakEventHandlerWeaver.cs:246-281 | a rewrite succeeds exactly when the instruction is in the body, the crawl finds a start, and `ldarg.0; ldftn; newobj; callvirt` surround the registration |
| Rewrite.RewriteSiteShape | WeakEventHandler.Fody/WeakEventHandlerWeaver.cs:246-281 | on success the start lies before the delegate's `ldarg.0`; the result is the body with body[t..i+3] replaced by `ldarg.0; ldfld adapter`, the source pushes (the first one a copy of the original), and one adapter call; it is one instruction shorter, and everything outside that span is unchanged |
| Rewrite.SpliceAtValue | WeakEventHandler.Fody/WeakEventHandlerWeaver.cs:264-280 | given the start and the delegate shape, the splice yields exactly that replacement |
| Rewrite.RewriteSiteIds | WeakEventHandler.Fody/WeakEventHandlerWeaver.cs:266-280 | a rewrite brings in no instruction identity except the three new ones (`nextId` to `nextId + 2`): every other instruction carries the id of an instruction of the original body |
| Rewrite.RewriteSiteIdsBelow | WeakEventHandler.Fody/WeakEventHandlerWeaver.cs:266-280 | a bound on instruction ids that covers the body and the three new ids still holds after the rewrite |
| Rewrite.ReplacementKeepsStackEffect | WeakEventHandler.Fody/WeakEventHandlerWeaver.cs:266-280 | with a two-argument delegate constructor and an instance accessor taking the handler, the replacement has the same net stack effect as the span it replaces |
| Rewrite.NewTeardownReleasesNothing | WeakEventHandler.Fody/WeakEventHandlerWeaver.cs:302 | a new teardown is a release chain of length zero (a single `ret`) |
| Rewrite.PrependRelease | WeakEventHandler.Fody/WeakEventHandlerWeaver.cs:240-244 | prepending `ldarg.0; ldfld field; callvirt Release` keeps a release chain and puts that field first |
| Rewrite.ReleaseChainBalanced | WeakEventHandler.Fody/WeakEventHandlerWeaver.cs:240-244 | a teardown that releases k adapters has 3k+1 instructions, ends in `ret`, and reaches it with the stack it started with |
| Weaving.ForwarderBalanced | WeakEventHandler.Fody/WeakEventHandlerWeaver.cs:328-333 | a forwarder to an instance accessor taking the handler reaches its `ret` with an empty stack |
| Weaving.CrawlBackLoop | WeakEventHandler.Fody/WeakEventHandlerWeaver.cs:251-263 | the `while (stackSize < 0)` loop computes CrawlBack, including both of its errors |
| Weaving.Splice | WeakEventHandler.Fody/WeakEventHandlerWeaver.cs:265-280 | `ReplaceWith`, the two inserts, the four checked removals and the final insert compute the rewrite of the site |
| Weaving.RemoveDelegate | WeakEventHandler.Fody/WeakEventHandlerWeaver.cs:273-276 | the four checked `RemoveAt` calls compute RemoveFour: they succeed exactly on `ldarg.0; ldftn; newobj; callvirt` at the index, and otherwise fail at the first unexpected opcode |
| Weaving.RewriteBody | WeakEventHandler.Fody/WeakEventHandlerWeaver.cs:248-281 | one loop iteration on one body computes the rewrite of the site |
| Weaving.ScanLoop | WeakEventHandler.Fody/WeakEventHandlerWeaver.cs:98-103 | the loop over the enumeration computes the scan: the marked methods in order, and every visited method unmarked |
| Weaving.Weaver.constructor | WeakEventHandler.Fody/WeakEventHandlerWeaver.cs:66-70 | the weaver works on the given module and starts with no warnings |
| Weaving.Weaver.Scan | WeakEventHandler.Fody/WeakEventHandlerWeaver.cs:98-103 | the candidates and the new method table are those of the scan over the class types' non-constructor methods, in module order; types and bodies are unchanged |
| Weaving.Weaver.Analyze | WeakEventHandler.Fody/WeakEventHandlerWeaver.cs:143-180 | the nested loops over the methods of the sink's type and their instructions record exactly TypeHits into the dictionary; the first error stops them |
| Weaving.Weaver.ReportUnmapped | WeakEventHandler.Fody/WeakEventHandlerWeaver.cs:131-141 | one warning per marked method that is the sink of no site, in order |
| Weaving.Weaver.CreateTeardown | WeakEventHandler.Fody/WeakEventHandlerWeaver.cs:291-305 | adds a new `>WeakEvents>Unsubscribe` method with body `[ret]` to the type and changes nothing else |
| Weaving.Weaver.GetOrCreateTeardown | WeakEventHandler.Fody/WeakEventHandlerWeaver.cs:284-317 | a recorded teardown is returned with nothing changed; otherwise exactly one new teardown is created and recorded; every recorded teardown stays a release chain of its own type |
| Weaving.Weaver.RewriteOccurrence | WeakEventHandler.Fody/WeakEventHandlerWeaver.cs:246-281 | the body holding the occurrence becomes its rewrite, and nothing else changes; an error leaves the module untouched |
| Weaving.Weaver.AddAdapterField | WeakEventHandler.Fody/WeakEventHandlerWeaver.cs:206-208 | adds the field `{key}>Adapter` at the end of the type's fields and changes nothing else |
| Weaving.Weaver.AddForwarder | WeakEventHandler.Fody/WeakEventHandlerWeaver.cs:319-336 | adds a static void (source, handler) method marked as generated code, with body `ldarg.0; ldarg.1; callvirt accessor; ret`, to the type |
| Weaving.Weaver.PrependReleaseCall | WeakEventHandler.Fody/WeakEventHandlerWeaver.cs:240-244 | the teardown gets the release triple at position 0, stays a release chain, and releases the new field first; no other body changes |
| Weaving.Weaver.RewriteOccurrences | WeakEventHandler.Fody/WeakEventHandlerWeaver.cs:246-281 | rewriting a site's occurrences touches only the bodies they lie in and keeps the module consistent |
| Weaving.Weaver.AttachAdapter | WeakEventHandler.Fody/WeakEventHandlerWeaver.cs:206-244 | the type gains the adapter field, and its teardown releases that field before the ones it released before; no other body changes |
| Weaving.Weaver.SetUpSite | WeakEventHandler.Fody/WeakEventHandlerWeaver.cs:182-244 | the sink type's teardown (reused or new) releases the new adapter field first and then what it released before; other teardowns are unchanged |
| Weaving.Weaver.WeaveSite | WeakEventHandler.Fody/WeakEventHandlerWeaver.cs:182-282 | weaving a site adds exactly one release to its type's teardown, names the site's adapter field, and leaves other teardowns alone |
| Weaving.Weaver.AnalyzeSinks | WeakEventHandler.Fody/WeakEventHandlerWeaver.cs:112-117 | the foreach over the marked methods computes AnalyzeAll from an empty dictionary |
| Weaving.Weaver.WeaveSites | WeakEventHandler.Fody/WeakEventHandlerWeaver.cs:123-128 | after weaving all sites, each type's teardown releases one adapter per site whose sink the type declares; a type without a teardown has no such site |
| Weaving.Weaver.Run | WeakEventHandler.Fody/WeakEventHandlerWeaver.cs:96-129 | the pass scans, then verifies: a rejected handler ends it with that error. It then analyses: an analysis error ends it. Otherwise the sites have distinct keys, the warnings are exactly the unmapped handlers, and on success each teardown releases one adapter per site of its type |

## Left out

- `EventKey.GetHashCode` (WeakEventHandlerWeaver.cs:426-432): the dictionary is a list searched with `EventKey.Equals`, so hashing and its agreement with equality are not modelled.
- `InsertIntoConstructors` and `InsertIntoFinalizer` (lines 216-238 and 311-314) and the interface added to the type (lines 306-309): FodyTools and Cecil code that is not part of this model.
- `CodeImporter`, `ILMerge` (line 119), `ImportReference`, `MakeGenericInstanceType` and `OnGenericType`: the adapter's generic instantiation is not modelled. Adapter calls are the operands `AdapterOp(Subscribe/Unsubscribe/Release)`, and source types are references by id.
- The static `Weave` entry point and its lookup of the attribute reference (lines 55-64), and ModuleWeaver.cs: host plumbing.
- The weaver's constructor beyond storing the module (lines 72-93): it imports helper types.
- Delegate creation by reflection in the adapter constructors (`Delegate.CreateDelegate`): the handler is an opaque value given to the constructor.
- Real thread interleavings and memory ordering of `Interlocked.CompareExchange` and `Volatile.Read` are not modelled. The retry loops run sequentially, and other threads' updates are a given sequence. Each update makes one swap fail.
- Garbage-collection timing and finalizers: liveness is a boolean that `CollectTarget` may clear.
- Log message texts: a warning is recorded as the method it names, and the info message (line 184) is not modelled.
- The `#if NET40` shims in the adapters: platform-only.
- WeakEvents.cs, MakeWeakAttribute.cs, and the demonstration and test types: no logic of their own.
- Method attributes other than `GeneratedCode` and the marker, and the private, final, virtual, hide-by-sig and new-slot flags of generated methods, are not modelled. The same holds for the adapter field: its `GeneratedCode` attribute (line 207) and its `InitOnly`, `Private` and `NotSerialized` flags (line 206) are not modelled. The model keeps only the field's identity and name.
- The state a failed step leaves behind: the source throws and the pass ends. The model ends the pass with an error and leaves the failing step's changes out.
- Metadata.ScanFindsMarked: assumes that the enumeration visits each method once. A type lists each of its methods once, so this holds.
- Analysis.MatchAt: the type and method tables hold every definition Cecil can resolve, including those of referenced assemblies. A call whose method reference resolves to nothing counts as no match, as the null check in the source makes it. An accessor whose declaring type is missing from the tables is not a case the source has, and the model counts it as no match.
- Cil.StackDelta: the opcodes whose stack behaviour is pop-all (`leave`, `leave.s`) make Cecil set the count to zero rather than add a delta. The model gives every opcode a fixed pop/push pair, so a crawl across a `leave` is not modelled; `calli` is not modelled either.
- Weaving.RefTo: a type the tables do not hold is referenced by id with an empty name.
- Weaving.Weaver.SetUpSite: an event without an add or remove accessor is rejected (`MissingAccessor`) before the teardown is created. The source creates the teardown first and then fails on the missing accessor. Either way the pass stops.
- Weaving.ModuleDefinition.Valid: bounds method identities by `nextId`. It does not bound instruction and field identities. For one rewrite in isolation, `Rewrite.RewriteSiteIds` and `Rewrite.RewriteSiteIdsBelow` state where every id comes from. No method of the pass relies on these lemmas, so the pass does not promise that instruction ids stay distinct.
- Weaving.Weaver.RewriteOccurrences: states which bodies may change, not their contents. The contents of each rewrite are stated per occurrence by `Weaving.Weaver.RewriteOccurrence` and `Rewrite.RewriteSiteShape`.
- Weaving.Weaver.WeaveSite: states the teardown and adapter field of the site, not the contents of the rewritten bodies (see the line above).
- Weaving.Weaver.Run: on success it states the release count of each teardown, not the full woven module.
