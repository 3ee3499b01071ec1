# Gestalt assembly engine in Dafny

Gestalt builds an application from a JSON configuration document. The
document maps entity names to descriptors. A descriptor with a `type` names
a factory, literal `args` (where the string `"reference"` stands for the
entry of the same name in `global_values`) and `deps` (one entity name, or
an ordered list of names). A descriptor without a `type` is a raw value.

The engine does three things:

- **Schedules services.** Entries flagged as services are built level by
  level: a service's level decides the pass it is built in. Each service is
  stored in a registry and removed from the document.
- **Builds the entry point.** It then builds the entry point against that
  registry.
- **Loads the document first.** Before assembly, named entries are imported
  from fragment files and the `global_values` tables are layered.

This project models that engine as pure functions over immutable values.

- `Config` (config.dfy): the document.
  - JSON values, descriptors, and the two service schemas. `Flagged` is the
    current one: a truthy `service` plus `service-level`, defaulting to 0.
    `Leveled` is the older drafts': `service` is itself the level.
  - The `main` and `controller` flags, and Python truthiness.
- `Dicts` (dicts.dfy): insertion-ordered dictionaries (`Dict`), because the
  engine's results depend on iteration order.
- `Dispatch` (dispatch.dfy): the factory and its dispatch.
  - Factory lookup: a dotted name is split and walked through a namespace of
    modules and attributes.
  - `spawn`: it calls the factory with keyword arguments or with none, and
    rejects a falsy result.
  - The call trace. The object built by call `i` is `Inst(i)`, so a shared
    object is an equal value and a fresh build is a new trace position.
- `Assembly` (assembly.dfy): the current engine.
  - `create_instance`: argument substitution; dependency resolution, which
    reuses registered services and otherwise builds again without caching;
    merging; and error wrapping.
  - `construct_services` and `construct_application`.
- `Schedule` (schedule.dfy): the scheduler's pass structure, shared by all
  variants.
  - The loop itself (`Passes`) runs with its growing `max_level` and its
    pops. Which keys a pass builds never depends on what a build returns.
  - `PlanIsLevels` shows that the loop equals a reference schedule. Pass `i`
    builds exactly the services of level `max(l, 0) == i`, in document order,
    against the document without the earlier passes' services.
- `Drafts` (drafts.dfy): the older drafts.
  - `GestaltFactory.create`: no substitution, no cache, and a truthy `type`
    required.
  - The `DependencyInjector` / `Assembler` scheduler. It has a service list
    and a controller, and constructs a `controller` service twice.
  - The scheduler and assembler of gestalt/assembly.py, with the registry
    keyed by the name the build tags on the object.
- `Runtime` (runtime.dfy): `load_includes` and the document-level steps of
  `create_application`.
  - Importing entries from fragments.
  - The precedence of the layered `global_values` tables.
  - The collision check.
  - Command-line overrides.
- `Hello` (hello.dfy): the example application.
  - The cyclic message cursor.
  - The run that stops at the first repeated message.
  - The master output service's fan-out.

Error paths are modelled as `Result` values. Fragment files, overrides and
the factory's behaviour are parameters: the factory is a namespace plus an
uninterpreted call outcome. Recursion through `deps` is bounded by a
`depth` argument standing for the interpreter's recursion limit. A cyclic
configuration therefore fails with `TooDeep`, which is the `RecursionError`
the source would raise.

## Model

| member | source | states |
|---|---|---|
| Dispatch.Split | gestalt/factory.py:11 | splitting on `.` gives at least one part and no part contains the separator |
| Dispatch.JoinSplit | gestalt/factory.py:11 | joining the parts of a split with `.` gives back the original name, so the split loses nothing |
| Dispatch.SplitJoin | gestalt/factory.py:11 | splitting a join of dot-free parts gives back exactly those parts |
| Dispatch.UnqualifiedLookup | gestalt/factory.py:14-15 | a name without a dot resolves to its binding in the module's globals, or to nothing |
| Dispatch.QualifiedLookup | gestalt/factory.py:17-23 | a dotted name resolves by importing its first segment as a module and walking the remaining segments as attributes in order |
| Dispatch.TraverseAppend | gestalt/factory.py:19-21 | walking a path is walking its prefix, then the rest from where the prefix ended |
| Dispatch.InvocationFor | gestalt/assembly.py:42-45 | the factory is called with no arguments exactly when the argument mapping is empty, and otherwise with exactly that mapping as keywords |
| Dispatch.Spawn | jestalt/assembly.py:42-53 | an unresolvable name, a raising factory and a falsy result are the three failures, each named for the type; success means the factory returned a truthy object for exactly these arguments |
| Assembly.Substitute | jestalt/assembly.py:74-78 | every `"reference"` argument takes the `global_values` entry of its own name, the other arguments are kept, and the substitution fails exactly when some referenced name has no global value |
| Assembly.SubstituteIdempotent | jestalt/assembly.py:76-78 | substituting the already substituted arguments against the same `global_values` table changes nothing, so the source's in-place rewrite of `args` does not alter a later build of the same entry while that table is still in the document |
| Assembly.Merge | jestalt/assembly.py:100-104 | the call's argument keys are the union of the literal arguments and the dependencies, and a dependency wins on a shared key |
| Assembly.MergeCases | jestalt/assembly.py:100-104 | with no dependencies the arguments are the literals, with no literals the dependencies become the whole mapping, and a literal not shadowed by a dependency is kept |
| Assembly.Build | jestalt/assembly.py:60-120 | a failure names the requested entity; a raw entry is returned as its own JSON object with no factory call; an object build appends exactly one call for that entity and type at the end of the trace and returns that call's object |
| Assembly.RawReturnedAsIs | jestalt/assembly.py:69-70 | a descriptor without `type` is returned unchanged and the trace is unchanged |
| Assembly.UnresolvedReferenceFails | jestalt/assembly.py:74-78 | a `"reference"` argument with no matching global value makes the build fail, wrapped under the requested entity's name |
| Assembly.DependencyFailureWrapped | jestalt/assembly.py:115-120 | a failure while resolving a dependency is re-raised under the name of the entity being built, keeping its cause |
| Assembly.Invoke | jestalt/assembly.py:107-113 | the build succeeds exactly when `spawn` does, records one call with the invocation `spawn` chose, and returns the object of that call |
| Assembly.Fetch | jestalt/assembly.py:90-93 | a name present in the registry resolves to the registered object with no factory call |
| Assembly.FetchAll | jestalt/assembly.py:82-88 | a list dependency resolves to a list of the same length |
| Assembly.FetchAllShared | jestalt/assembly.py:84-86 | element `i` of a list dependency is the registered service itself when `names[i]` is registered |
| Assembly.FetchAllFresh | jestalt/assembly.py:87-88 | an unregistered element is a new object built after the call for that element's entity, and these builds are made in list order |
| Assembly.ResolveOne | jestalt/assembly.py:89-93 | an unregistered single-name dependency resolves to a new object made during this resolution for that entity |
| Assembly.ResolveDeps | jestalt/assembly.py:80-98 | resolving the `deps` entries yields a value under exactly the `deps` keys, added to the keys resolved before |
| Assembly.ResolveDepsKeeps | jestalt/assembly.py:95-98 | entries already resolved and not named again are left as they were |
| Assembly.ResolveDepsShared | jestalt/assembly.py:84-91 | a dependency on registered services resolves to the registered objects (a list keeping its order) |
| Assembly.ResolveDepsFresh | jestalt/assembly.py:92-93 | a dependency on an unregistered object entry resolves to a new object of that entity |
| Assembly.BuildLiteralArguments | jestalt/assembly.py:74-107 | the factory receives the union of argument and dependency keys; an unshadowed literal arrives as written and an unshadowed reference as its global value; the call has no arguments exactly when the entry has neither `args` nor `deps` |
| Assembly.BuildSharedDependency | jestalt/assembly.py:90-91 | a dependency naming a registered service hands the factory that very service, so the object is shared rather than rebuilt |
| Assembly.SharedDependencyResolved | jestalt/assembly.py:84-91 | the resolved dependency mapping holds the registered objects for a dependency whose names are all registered |
| Assembly.BuildFreshDependency | jestalt/assembly.py:92-93 | a dependency naming an unregistered entity hands the factory a new object, built during this build and before the entity's own call |
| Assembly.BuildBuiltFrom | jestalt/assembly.py:60-113 | a successful build is the entry's raw value, or an object made by a call for that entity with the entry's type |
| Assembly.RunPass | jestalt/assembly.py:142-144 | one pass registers exactly its due keys, appended in scan order to the registry's keys |
| Assembly.RunPassRegistered | jestalt/assembly.py:143 | after a pass, every registry entry is stored under its own name and was built from that name's original entry |
| Assembly.RunPasses | jestalt/assembly.py:128-149 | running the passes registers exactly the keys they build, in build order |
| Assembly.RunPassesRegistered | jestalt/assembly.py:128-149 | running the passes keeps every registry entry built from its own name's original entry |
| Assembly.ServicesRegisteredOnce | jestalt/assembly.py:128-151 | the registry's keys are the flagged services with no key twice, so each is registered once; they are registered in non-decreasing pass order and each holds the object built from its own entry; the remaining document is the original without its services |
| Assembly.ServicesInOrder | jestalt/assembly.py:128-147 | the registry's keys are the reference schedule's build order with no key twice, exactly the flagged services, sorted by pass; the services are removed from the document and everything else stays |
| Assembly.ServicesRegistered | jestalt/assembly.py:143 | every service is stored under its own name and was built from its own entry |
| Assembly.LastMain | jestalt/assembly.py:159-161 | names the last `main`-flagged entry, and is empty exactly when no entry is flagged |
| Assembly.BuildMainsLast | jestalt/assembly.py:159-161 | the entry point kept is the build of the last `main`-flagged entry in iteration order; with none, nothing is built |
| Assembly.NoMainBuildsNothing | jestalt/assembly.py:159-161 | without a `main`-flagged entry the scan builds nothing and leaves the trace unchanged |
| Assembly.ApplicationEntryPoint | jestalt/assembly.py:154-165 | the application's services are exactly the scheduler's registry and its main is the build of the last remaining `main`-flagged entry; it fails for want of an entry point exactly when none is left |
| Assembly.MainIsTruthy | jestalt/assembly.py:164 | a built entry point is always truthy, so the final assertion fails only when no entry was flagged |
| Schedule.ScanMaxUpper | jestalt/assembly.py:139-140 | the running `max_level` never drops and ends at least as high as every scanned service's level |
| Schedule.ScanMaxFixed | jestalt/assembly.py:139-140 | a scan that meets no higher level leaves `max_level` unchanged |
| Schedule.PlanIsLevels | jestalt/assembly.py:128-149 | the loop, with its growing `max_level` and its pops, terminates and makes exactly one pass per level from 0 to the highest level; pass `i` builds the services whose level clamped at 0 is `i`, in document order, against the document without earlier passes' services |
| Schedule.PlanBuildsServices | jestalt/assembly.py:128-149 | over the whole loop every flagged service is handed to the builder by exactly one pass, and no other key is |
| Schedule.LevelAt | jestalt/assembly.py:128-149 | pass `j` of the schedule is the pass of level `j` |
| Schedule.LevelsLength | jestalt/assembly.py:128 | there is one pass per level up to the highest level seen |
| Schedule.PassContents | jestalt/assembly.py:142-144 | a pass builds a key exactly when it is a service whose level clamped at 0 is the pass's level |
| Schedule.DueIsAtLevel | jestalt/assembly.py:130-144 | what the scan of pass `i` builds from the document left to it is exactly the level-`i` services in document order |
| Schedule.SnapshotStep | jestalt/assembly.py:146-147 | popping the keys of pass `i` gives the document pass `i + 1` sees |
| Schedule.PassBelowTop | jestalt/assembly.py:139-140 | every service's pass is at most the highest level, so every service is reached before the loop stops |
| Schedule.OrderSorted | jestalt/assembly.py:139-143 | services are built in non-decreasing order of level clamped at 0 |
| Schedule.OrderMembers | jestalt/assembly.py:142-144 | the passes from `i` on build exactly the services whose pass is `i` or later |
| Schedule.OrderDistinct | jestalt/assembly.py:146-147 | no key is built by two passes |
| Schedule.RemainderIsNonServices | jestalt/assembly.py:132-133 | after the loop the document holds exactly the non-service entries, unchanged and in their order |
| Schedule.PassSeesOwnEntries | jestalt/assembly.py:143-147 | each key a pass builds is still in the document that pass sees, with its original descriptor |
| Runtime.FirstWinsPicksFirst | jestalt/runtime.py:46-50 | in the layered `global_values`, a key takes its value from the first layer that defines it |
| Runtime.ImportNames | jestalt/runtime.py:40-44 | importing from a fragment succeeds exactly when every requested name is in the fragment and no name is imported twice; each name maps to the fragment's descriptor, in request order |
| Runtime.MergeGlobals | jestalt/runtime.py:46-50 | merging a fragment's `global_values` changes no other entry of the document |
| Runtime.MergeGlobalsLayer | jestalt/runtime.py:46-50 | the merged table puts the document's values over the fragment's, so the fragment's table becomes the next layer below those already merged |
| Runtime.LoadFilesSucceeds | jestalt/runtime.py:32-44 | the include loop succeeds exactly when every file is readable, every name requested from a non-empty fragment is in it, and no name is requested twice; names are imported in file order, then request order |
| Runtime.LoadFilesEntries | jestalt/runtime.py:37-44 | every name requested from a non-empty fragment maps to that fragment's descriptor; names requested from an empty fragment are skipped |
| Runtime.LoadFilesGlobals | jestalt/runtime.py:37-50 | with no non-empty fragment holding `global_values` the document is unchanged; otherwise its `global_values` is the layering of the document's table over the fragments' tables in file order, the earlier file winning |
| Runtime.LoadFilesKeepsEntries | jestalt/runtime.py:46-50 | the include loop changes no entry other than `global_values` |
| Runtime.LoadIncludesContents | jestalt/runtime.py:27-53 | loading succeeds exactly when every file and requested name is found and no name is requested twice; the result is the requested names in order, each with its fragment's descriptor; the document, without its `includes` directive, keeps every other entry |
| Runtime.LoadIncludesGlobals | jestalt/runtime.py:46-50 | the document's `global_values` after loading is the layering of its own table over the non-empty fragments' tables, or unchanged when none has one |
| Runtime.ApplyOverrides | jestalt/runtime.py:70-78 | overrides are merged into an existing `global_values` table and win over its values, which are otherwise kept; with no table or no overrides the document is unchanged |
| Runtime.CreateApplication | jestalt/runtime.py:64-84 | a load failure is passed on; the imported names must be disjoint from the document's own, and the clash is the error; otherwise the imported entries follow the document's in order, with their descriptors |
| Runtime.PlainDocumentUnchanged | jestalt/runtime.py:28-29 | a document without `includes` and without overrides reaches the assembler exactly as written |
| Runtime.OverridesWin | jestalt/runtime.py:70-73 | an override key ends up with the override's value whenever the final document has a `global_values` table, and overrides make no difference when it has none |
| Drafts.Create | gestalt/factory.py:25-66 | a successful build needs an entry with a truthy `type`, and appends exactly one call for that entity and type at the end of the trace |
| Drafts.UntypedFails | gestalt/configuration.py:97 | an entry without a truthy `type` fails the assertion, with no factory call |
| Drafts.MissingFirstDependencyFails | gestalt/factory.py:26 | a dependency naming an entity missing from the configuration fails the lookup with that name |
| Drafts.Construct | gestalt/factory.py:56-65 | the build succeeds exactly when the factory resolves and returns a truthy object; it is called with no arguments exactly when the merged mapping is empty |
| Drafts.CreateAll | gestalt/factory.py:41-44 | a list dependency gives one new object per name, built in list order |
| Drafts.CreateDepsFresh | gestalt/configuration.py:107-115 | every dependency is constructed afresh during this build, with nothing shared or cached |
| Drafts.CreateFreshDependency | gestalt/configuration.py:104-115 | the factory receives, under each `deps` key, objects built during this build for the named entities, a list keeping its order |
| Drafts.CreateLiteralArguments | gestalt/factory.py:34-54 | the factory receives the union of argument and dependency keys, with unshadowed literals as written and nothing substituted; it gets no arguments exactly when the entry has neither |
| Drafts.Jobs | injector.py:29-43 | the builds of the scan are one per key the passes build, in build order |
| Drafts.Serve | injector.py:37-43 | a service gets one object for the list and, when flagged `controller`, a second, later object of its own |
| Drafts.ServeAllServices | injector.py:37-39 | object `i` was built for job `i`'s entity with its type |
| Drafts.LastController | injector.py:40-41 | names the last `controller`-flagged job, or is empty exactly when none is flagged |
| Drafts.ServeAllController | injector.py:40-41 | the controller is the separate second object built for the last `controller`-flagged service, never one of the listed services; without one it is unchanged |
| Drafts.ConfigureServicesOrder | injector.py:22-48 | the services list grows by one object per service, built from its entry, pass by pass in ascending level and in document order within a pass; non-service entries stay in the document |
| Drafts.ConfigureServicesController | gestalt/configuration.py:169-172 | a service flagged `controller` is constructed twice: the controller is a new object for the last flagged service, distinct from everything appended |
| Drafts.EarlierServiceUnavailable | gestalt/configuration.py:176-177 | a service whose first dependency names a service of an earlier pass fails, because that entry was popped before the lookup |
| Drafts.ConfigureApplication | injector.py:12-20 | it fails its first assertion exactly when there is neither a given nor a stored factory, or the configuration is empty; on success the returned controller is the one the injector holds |
| Drafts.ApplicationController | gestalt/configuration.py:143-151 | the application succeeds exactly when some service is flagged `controller`, and then returns the controller built for the last one |
| Drafts.TagPass | gestalt/assembly.py:108-119 | a pass registers exactly its due keys, in scan order |
| Drafts.TagPasses | gestalt/assembly.py:106-124 | the passes register exactly the keys they build, in build order |
| Drafts.TagPassRegistered | gestalt/assembly.py:117-118 | the registry key is the name the build tagged on the object, which is the entity's own name, so each service is registered under its name |
| Drafts.TagPassesRegistered | gestalt/assembly.py:106-124 | across all passes every registry entry was built from its own name's entry |
| Drafts.ServicesKeyedByName | gestalt/assembly.py:106-124 | the registry's keys are the `service` entries in schedule order, each built from its own entry; the rest of the document is left |
| Drafts.DraftMainsLast | gestalt/assembly.py:133-135 | the entry point kept is the build of the last `main`-flagged entry |
| Drafts.DraftNoMainBuildsNothing | gestalt/assembly.py:133-135 | without a `main`-flagged entry nothing is built |
| Drafts.DraftEntryPoint | gestalt/assembly.py:129-139 | the services are the scheduler's registry and main is the build of the last remaining `main` entry; assembly fails for want of one exactly when none remains |
| Hello.GetNext | example/hello.py:26-34 | an empty message list is an error, and so is a cursor past the end; otherwise the result is the message under the cursor, and the cursor moves to the next position modulo the list's length |
| Hello.Advance | example/hello.py:28-32 | the step returns the message under the cursor and moves the cursor to the next position modulo the list's length, so it wraps to 0 after the last message |
| Hello.GetNextIsOneCall | example/hello.py:26-34 | one `get_next` call returns the first message of the successive calls `Calls` describes and leaves the same state, tying it to `CallsSlice` and `CallsRound` |
| Hello.CallsSlice | example/hello.py:28-32 | successive calls from cursor `c` return the list from `c` on, in order, and the cursor wraps to 0 after the last message |
| Hello.CallsRound | example/hello.py:28-32 | one round of calls from any cursor returns the list rotated to start at that cursor, and the cursor returns to where it started |
| Hello.CallsPeriodic | example/hello.py:28-32 | the output is periodic with the list's length |
| Hello.FreshCursorCycles | example/hello.py:28-32 | from a fresh cursor the calls return the list in order, then start over |
| Hello.Run | example/hello.py:10-18 | an empty list is an error and a valid non-empty one always succeeds; the output is the successive `get_next` results up to, but not including, the first repeated message, with no message twice |
| Hello.FreshShortRunNoRepeat | example/hello.py:14-16 | with distinct messages, a message fetched before the list is exhausted is new |
| Hello.FreshLongRunRepeats | example/hello.py:17-18 | more calls than messages always repeat a message, so the run stops |
| Hello.FreshRunOutputsList | example/hello.py:10-18 | with distinct messages and a fresh cursor, the run outputs the whole list in order |
| Hello.Fanout | example/hello.py:61-63 | one output passes the message to every slave, in list order |
| Hello.ReceivedAppend | example/hello.py:61-63 | what a sink receives from consecutive outputs is what it received from each in turn |
| Hello.FanoutReceivedOnce | example/hello.py:61-63 | with distinct slaves, each slave receives the message once and any other sink receives nothing |
| Hello.SlavesReceiveRun | example/hello.py:61-63 | over a run of outputs, each slave receives exactly the run's messages in order and any other sink receives nothing |

## Left out

- File and JSON input: documents, fragments and overrides are given already parsed. A fragment that cannot be opened is a name with no fragment (`FileMissing`). Floating-point JSON numbers are not modelled.
- `importlib` and `getattr` dispatch: a factory is a namespace of members plus an uninterpreted call outcome. Keyword binding inside the called factory is not modelled.
- Process spawning, the command line, logging, and the thin glue in gestalt/runtime.py and runtime.py. This includes `create_background_context` running the application.
- The assembly step of `create_application` (jestalt/runtime.py:84). That line calls the `construct_application` imported at runtime.py:9, which is the one from gestalt/assembly.py. The model stops at the document handed on, and both assemblers are modelled separately.
- The `gestalt_name` / `__name__` attribute tags: the trace records each call's entity name in their place.
- In-place mutation of a descriptor's `args` (jestalt/assembly.py:78, 101): descriptors are immutable. `Assembly.SubstituteIdempotent` shows that a second build against the same `global_values` table sees the same arguments.
- Assembly.SubstituteIdempotent: when `global_values` is itself a flagged service, it is popped after its pass (jestalt/assembly.py:147). An entry whose `args` were already rewritten in place before that rebuilds in the source without a lookup, but in the model its `"reference"` arguments are looked up again and the build fails with `UnresolvedReference`.
- The interpreter's recursion limit: cyclic `deps` end in a `TooDeep` failure once the `depth` argument is used up.
- Assembly.Build: a `RecursionError` is modelled as a failure wrapped like any other; the exact limit is not modelled.
- Service levels that are not numbers, or are floats: Python's comparisons on them (or the `TypeError` they raise) are not modelled. A `service` field that is not a number or a boolean is read as absent in the drafts' schema.
- Dictionary order: the model takes every dict to iterate in insertion order, as CPython 3.6 does (the parameter named `async` at jestalt/runtime.py:103 rules out 3.7 and later). On an interpreter whose dicts follow hash order, the scan order within a pass and which `main` entry is the last one are not fixed by the document, and the model does not cover that.
- Top-level entries that are not JSON objects: a document entry is a JSON object (`Raw`) or a typed descriptor. A scalar entry such as `"port": 8080` cannot be written. In the source, `'service' in value` (jestalt/assembly.py:132) raises `TypeError` on a number, boolean or null entry and is a substring test on a string entry, and `'main' in conf[key]` (line 160) makes any string entry containing `main` the entry point. None of this is modelled.
- Non-numeric `service` flags on typed entries: `Obj.service` holds a number, so a typed entry with `"service": "yes"` (a service in the source, being truthy) cannot be written.
- Assembly.ServicesRegisteredOnce: states that each service is registered once, not that its factory is called once. A service named in `deps` by an entity built before it (in an earlier pass, or earlier in the same pass) is also built fresh for that entity (jestalt/assembly.py:92-93, `Assembly.BuildFreshDependency`), so the dependent holds a different object from the registered one. The condition under which a service gets exactly one call is not proved.
- Config.Globals: a `global_values` entry that itself has a `type` key is read as an empty substitution table, so `Assembly.Build` substitutes nothing from it. Python indexes that dict directly (jestalt/assembly.py:78).
- Runtime.MergeGlobalsLayer: a typed `global_values` (in the document or a fragment) contributes an empty table, and the merged entry is written back raw, without its `type`. Python merges the whole dict and keeps `type` (jestalt/runtime.py:46-50).
- Runtime.LoadFilesGlobals: the layering is over the tables as `TableOf` reads them, so it inherits the typed-`global_values` gap of MergeGlobalsLayer.
- Runtime.LoadIncludesGlobals: the same typed-`global_values` gap as LoadFilesGlobals.
- Runtime.ApplyOverrides: a `global_values` entry that itself has a `type` key is read as an empty table, and overrides are not merged into it. Python would merge into the dict regardless.
- Runtime.OverridesWin: stated only when the final `global_values` is a raw table, for the reason just given.
- The defects of gestalt/assembly.py's `create_instance`:
  - lines 72 and 77 recurse without `services`;
  - lines 74-75 test `key` but read the literal `'key'`;
  - line 84 reads an unbound `deps` when there is no `deps`.

  Its scheduler and assembler are modelled with the drafts' resolver (`Drafts.Create`) as the builder.
- gestalt/assembly.py:117 calls `create_fn(key, conf)` and line 135 calls `create_fn(key, conf, services)`. The default `create_instance` (line 54) takes `services` without a default, so line 117 raises `TypeError`, and a two-argument builder would raise it at line 135 instead. The model assumes a builder that takes an optional third `services` argument and ignores it.
- Drafts.DraftMains: because the builder ignores the `services` handed to it at gestalt/assembly.py:135, the main entry's dependencies are built fresh rather than shared with the registered services. A builder that used `services` there would reuse them, and that variant is not modelled.
- `self.logger` is undefined at gestalt/factory.py:63 and gestalt/configuration.py:130. A falsy factory result is a failure either way, so the `AttributeError` is folded into that failure.
- Hello.Run: the source writes each new message to the output service; the model returns the sequence of messages written.
- `FileOutput` and `StandardOutput` in example/hello.py do real output. `MasterOutputService` is modelled as a delivery log per slave.
