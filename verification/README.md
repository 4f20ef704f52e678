# Artus loader pipeline, modelled in Dafny

This project models the loader pipeline of the Artus application framework
(`@artus/core`). The pipeline takes a manifest, an ordered list of discovered
source files. For each item it picks a loader strategy by name and runs it, and it
emits `before` / `beforeEach` / `afterEach` / `after` events around every group of
items and every item. The model covers four parts:

- **Loader registry** (`Registry`). The static `LoaderFactory.loaderClazzMap` is a
  JavaScript `Map` from loader name to loader class. It is modelled as a map together
  with its insertion order, because `entries()` walks in insertion order. `register`
  is `LoaderRegistry.Register`; `getLoader` is `GetLoader`.
- **Manifest execution engine** (`Engine`, `Factory`).
  - `Engine.Execute` is the pure, recursive definition of `loadItemList`. It computes the
    event trace, the item list after the path rewrite, how many items were reached,
    and whether the run completed or stopped on a thrown error.
  - `Factory.LoaderFactory.LoadItemList` is the loop itself, over an array of items
    rewritten in place. It appends to the factory's event trace and is proved equal
    to `Execute`.
  - Lemmas state what the trace looks like: one `beforeEach`/`afterEach` pair per
    item, and group events bracketed per opened group.
- **Loader resolution** (`Resolution`, `Factory`). `findLoaderName` asks each
  registered class's static `is` in registration order. It then falls back on the
  candidate file's default export: not a class gives no loader, a loader tag wins,
  and an injectable marker gives the default loader. `findLoader` turns an
  unregistered name into an error and attaches `onFind` state.
- **Two concrete loaders**:
  - The `module` loader (`ModuleLoading`) writes the module's class into the
    injection container unless it is already there and not flagged to overwrite.
  - The `exception` loader (`ExceptionLoading`) claims `exception.json` and registers
    every error code of the parsed file. A parse failure, or a `registerCode` that
    throws, is swallowed; a missing exception handler is not.

Collaborators are parameters:
- the per-item `load` of each loader, as an abstract function to a settled result;
- `path.join`;
- `compatibleRequire`, plus the reflection on the required class, as a probe that
  yields a `ClassInfo` or nothing;
- the glob matcher `isMatch`;
- `loadMetaFile`.

The model follows the code where it differs from the intent one would read into it:

- The group test compares the raw `item.loader` with the open group's name, while
  events carry `item.loader ?? DEFAULT_LOADER`. An item without a `loader` therefore
  always opens a new group, even right after a `module` group
  (`MissingLoaderAlwaysOpens`, `MissingLoadersOpenTwoGroups`).
- `loadItem` uses `item.loader || DEFAULT_LOADER`, so an empty loader name is loaded
  by the default loader. It is still grouped under `""`, and that group is never
  closed, because an empty `prevLoader` is falsy (`EmptyLoaderLeavesGroupOpen`).
  The bracketing theorem `GroupEventsAreBracketed` therefore excludes empty loader
  names.
- `path.join` is re-applied to `item.path` on every run, so no idempotence is
  claimed for the path rewrite; `path.join` is an opaque function.
- Groups are not one per loader name, nor one per run of equal raw `loader` fields.
  An item opens a group unless its raw `loader` equals the open group's defaulted
  name. So an item without a `loader` followed by a `module` item is one group
  (`MissingThenModuleShareGroup`), and a first item with loader `""` opens no group
  at all (`EmptyLoaderFirstOpensNoGroup`). `TraceIsBlocks` gives the whole trace in
  closed form, item by item.

## Model

| member | source | states |
|---|---|---|
| Registry.LoaderRegistry.constructor | src/loader/factory.ts:20 | the registry starts as an empty, well-formed map |
| Registry.LoaderRegistry.Register | src/loader/factory.ts:23-26 | `register` stores the class under its metadata name, as `Map.set`, and keeps the map well formed |
| Registry.SetKeepsWellFormed | src/loader/factory.ts:25 | setting a key keeps every name listed exactly once in the insertion order |
| Registry.EntriesAfterSet | src/loader/factory.ts:25 | after `set`, `entries()` is the old entries with the new pair appended for a new name, or replaced in place for a known name |
| Registry.Set | src/loader/factory.ts:25 | `Map.set`: the name maps to the new class, every other name keeps its class, a known name keeps its place in the order and a new name goes last |
| Registry.Entries | src/loader/factory.ts:115 | `entries()` yields one pair per insertion-order position: a registered name with its class, no name twice |
| Registry.EntriesNameKeys | src/loader/factory.ts:115 | the names `entries()` yields are exactly the registered names |
| Registry.GetLoader | src/loader/factory.ts:55-61 | an error `Cannot find loader '<name>'` exactly when the name is not registered, otherwise a new instance of the registered class bound to the container, with no state |
| Registry.RegisterThenGetLoader | src/loader/factory.ts:23-26 | after registering a class, `getLoader` of its name builds that class: the last registration wins, without error |
| Registry.SetKeepsOtherNames | src/loader/factory.ts:23-26 | registering under one name does not change what `getLoader` yields for any other name |
| Engine.ResolvePath | src/loader/factory.ts:70 | only the item's path changes: joined to the root when the root is truthy, unchanged otherwise |
| Engine.CurLoader | src/loader/factory.ts:71 | the events' name is the raw loader when present and `DEFAULT_LOADER` when missing; it differs from the loaded name exactly when the loader is `""` |
| Engine.OpensGroup | src/loader/factory.ts:72 | a missing loader always opens a group; an item that opens none already carries the open group's name |
| Engine.CloseGroup | src/loader/factory.ts:83-85 | closing emits `after(prev)` once when `prev` is non-empty and nothing otherwise |
| Engine.Switch | src/loader/factory.ts:72-78 | the group events before an item are empty exactly when it opens no group; an opened group is `after(prev), before(cur)` when `prev` is non-empty and `before(cur)` alone when it is empty |
| Engine.LoadName | src/loader/factory.ts:89 | the name `loadItem` instantiates is the item's loader when truthy, `DEFAULT_LOADER` otherwise, and never empty |
| Engine.NextPrev | src/loader/factory.ts:72-78 | after an item, the open group is always the item's defaulted loader name |
| Engine.LoadItem | src/loader/factory.ts:88-93 | `loadItem` fails with not-found exactly when the defaulted name (the item's loader when truthy, else `DEFAULT_LOADER`) is unregistered; otherwise it is the settled `load` of that class's instance, with `state` set to the item's `_loaderState` |
| Engine.Execute | src/loader/factory.ts:67-86 | the run keeps the item count, reaches every item when it completes, and reaches at least one item when it aborts |
| Engine.ReachedItemsAreRewritten | src/loader/factory.ts:70 | every reached item's path is `join(root, path)` when the root is truthy and unchanged otherwise |
| Engine.UnreachedItemsAreUntouched | src/loader/factory.ts:69-82 | items after the one that threw are left exactly as they were |
| Engine.AbortEndsAtBeforeEach | src/loader/factory.ts:79-81 | an aborted run's trace ends with the failing item's `beforeEach`, with no `afterEach` and no closing `after` |
| Engine.CompletesIffAllLoad | src/loader/factory.ts:79-82 | the run completes exactly when every item, after its path rewrite, loads without error |
| Engine.ItemEventsArePerItem | src/loader/factory.ts:79-81 | the per-item events are exactly `beforeEach(cur, item)` then `afterEach(cur, item, result)` for each item in order, up to and including the `beforeEach` of a failing item |
| Engine.GroupEventsAreBracketed | src/loader/factory.ts:72-85 | in a completed run with no empty loader names, the group events are `before(X)` immediately followed by `after(X)` for each opened group, in opening order: they alternate and start with `before` |
| Engine.TraceIsBlocksFrom | src/loader/factory.ts:69-85 | from any item on, the trace is that item's block (switch, `beforeEach`, and `afterEach` when it loaded) followed by the later blocks, up to the first failure, then the final close if the run completed |
| Engine.TraceIsBlocks | src/loader/factory.ts:67-86 | the whole trace in closed form: the per-item blocks in order, each switching against the previous item's defaulted name, then `after` of the last item's name when the run completed |
| Engine.SameExplicitLoaderSharesGroup | src/loader/factory.ts:72 | an item naming the same loader explicitly as the item before it opens no group |
| Engine.MissingLoaderAlwaysOpens | src/loader/factory.ts:72 | an item with no `loader` always opens a group, named `DEFAULT_LOADER` |
| Engine.EmptyListEmitsNothing | src/loader/factory.ts:67-86 | an empty manifest emits no events and completes |
| Factory.LoaderFactory.constructor | src/loader/factory.ts:28-31 | a factory starts with the given container and shared registry and has emitted nothing |
| Factory.LoaderFactory.LoadManifest | src/loader/factory.ts:63-65 | `loadManifest` runs the manifest's item list, with the same events, items and outcome as `loadItemList` |
| Factory.LoaderFactory.LoadItemList | src/loader/factory.ts:67-86 | the loop appends exactly `Execute`'s trace to the emitted events, leaves the array as `Execute`'s items, and returns its outcome |
| Factory.LoaderFactory.RunItems | src/loader/factory.ts:68-85 | the loop, from an empty group state, appends the whole run's trace and leaves the whole run's items |
| Factory.RunSplitStep | src/loader/factory.ts:69-82 | the loop invariant (emitted events + run of the remaining items = whole run) moves past an item that loaded |
| Factory.LoaderFactory.LoadOne | src/loader/factory.ts:70-81 | one turn: rewrites the item's path in place, emits the group switch and `beforeEach`, loads the item, and emits `afterEach` only if the load succeeded |
| Factory.LoaderFactory.SwitchGroup | src/loader/factory.ts:72-78 | when the raw loader differs from the open group, emits `after(prev)` if `prev` is non-empty and then `before(cur)`; the open group becomes the item's defaulted name |
| Factory.LoaderFactory.EmitClose | src/loader/factory.ts:83-85 | emits `after(prev)` exactly when `prev` is non-empty |
| Factory.LoaderFactory.FindLoaderName | src/loader/factory.ts:114-142 | the result is the first entry, in registration order, whose static `is` claims the file, and otherwise the fallback on the required default export |
| Factory.LoaderFactory.FindLoader | src/loader/factory.ts:95-112 | no result exactly when the resolved name is missing or empty; an error exactly when it is non-empty and unregistered; otherwise the name, with `loaderState` set only when the class defines `onFind` |
| Resolution.Fallback | src/loader/factory.ts:120-141 | not a class gives no loader; a truthy loader tag is returned; otherwise an injectable class gives `DEFAULT_LOADER`, and anything else gives no loader; a found name is never empty |
| Resolution.Claims | src/loader/factory.ts:116 | a class without a static `is` never claims a file |
| Resolution.FirstClaim | src/loader/factory.ts:115-119 | a found name is the name of a scanned entry whose static `is` claims the file |
| Resolution.ResolveName | src/loader/factory.ts:114-142 | a static `is` claim wins over the default export; no loader exactly when nothing claims the file and the fallback finds none |
| Resolution.FirstClaimIsFirstMatch | src/loader/factory.ts:115-119 | the scan finds nothing exactly when no entry claims the file, and otherwise the first claiming entry in insertion order |
| Resolution.ClaimedNameIsInRegistry | src/loader/factory.ts:101-104 | a name found by a static `is` is a key of the registry, so `findLoader` never reports it as missing |
| Resolution.ClaimSkipsProbe | src/loader/factory.ts:115-123 | when a static `is` claims the file, the result does not depend on the file's contents or on `path.join`: the file is never required |
| Resolution.UnclaimedFallsBackOnExport | src/loader/factory.ts:120-141 | with no claim, each case of the fallback chain gives the stated result |
| ModuleLoading.ModuleDescriptor | src/loader/impl/module.ts:17-23 | the descriptor carries the item's path and the required class, and carries `id` exactly when the item's id is truthy |
| ModuleLoading.ShouldWrite | src/loader/impl/module.ts:27 | a flagged class always writes; an unflagged one writes exactly when the container has no value for the descriptor |
| Injection.Container.Set | src/loader/impl/module.ts:28 | `set` writes the definition, tagged with the number of earlier writes; afterwards `hasValue` holds for it and is unchanged for every other definition |
| ModuleLoading.LoadEffect | src/loader/impl/module.ts:25-29 | the container is written exactly when the class is flagged to overwrite or has no value for the descriptor; afterwards it always holds the descriptor, and no other definition changes |
| ModuleLoading.ReloadWithoutOverwriteIsNoOp | src/loader/impl/module.ts:27 | loading an unflagged module a second time leaves the container unchanged |
| ModuleLoading.ReloadWithOverwriteRewrites | src/loader/impl/module.ts:25-29 | a flagged module is written on every load, so the latest write is the one held |
| ModuleLoading.FalsyIdsShareDescriptor | src/loader/impl/module.ts:21-23 | a missing or empty id gives the same descriptor as no id |
| ModuleLoading.ModuleLoader.constructor | src/loader/impl/module.ts:11-13 | the loader is bound to the given container |
| ModuleLoading.ModuleLoader.Load | src/loader/impl/module.ts:15-31 | `load` returns the required class whether or not it wrote, and leaves the container as `LoadEffect` states |
| ExceptionLoading.ExceptionIsIgnoresRoot | src/loader/impl/exception.ts:18-20 | `is` depends on the file name alone: changing the root never changes its answer |
| ExceptionLoading.ExceptionLoaderClass | src/loader/impl/exception.ts:10-20 | the class is registered as `exception`, has no `onFind`, and claims a file exactly when its name matches `EXCEPTION_FILENAME` |
| ExceptionLoading.OtherFileNotClaimed | src/loader/impl/exception.ts:18-20 | a file whose name does not match is never claimed |
| ExceptionLoading.ExceptionFileResolvesToExceptionLoader | src/loader/impl/exception.ts:18-20 | once registered, the exception loader is the resolved loader of a matching file whenever no other registered loader claims it |
| ExceptionLoading.ExceptionHandler.RegisterCode | src/loader/impl/exception.ts:29 | a `registerCode` call that does not throw is recorded, in call order; one that throws records nothing |
| ExceptionLoading.AcceptedPrefix | src/loader/impl/exception.ts:28-30 | the entries registered before the first one `registerCode` throws on: none of them throws, and the next one, if any, does |
| ExceptionLoading.ExceptionLoader.constructor | src/loader/impl/exception.ts:14-16 | the loader is bound to the given container |
| ExceptionLoading.ExceptionLoader.Load | src/loader/impl/exception.ts:22-36 | with no exception handler, `load` rejects (the lookup is outside the `try`); on a failed parse nothing is registered and `undefined` is returned; otherwise the codes are registered in entry order up to the first `registerCode` that throws, which leaves the earlier ones registered and returns `undefined`, and the code map is returned when none throws |
| Scenarios.BootstrapManifestTrace | test/fixtures/trigger/event/bootstrap.ts:7-24 | the `extension` then `module` manifest emits exactly the two groups, each bracketing its item's events |
| Scenarios.GroupsFollowConsecutiveRuns | src/loader/factory.ts:72-78 | loaders a, a, b, a emit before/after for a, b, a: runs of equal loaders form groups, with no merging by name |
| Scenarios.RunsOpenedNames | src/loader/factory.ts:72 | loaders a, a, b, a open the groups a, b, a |
| Scenarios.MissingLoadersOpenTwoGroups | src/loader/factory.ts:71-72 | two items without a loader form two `module` groups, not one |
| Scenarios.EmptyLoaderLeavesGroupOpen | src/loader/factory.ts:71-85 | an item with loader `""` is loaded by the default loader, and its group is opened but never closed |
| Scenarios.MissingThenModuleShareGroup | src/loader/factory.ts:71-78 | an item without a loader followed by a `module` item form a single `module` group |
| Scenarios.EmptyLoaderFirstOpensNoGroup | src/loader/factory.ts:68-72 | a first item with loader `""` opens no group: only its `beforeEach` and `afterEach` are emitted |

## Left out

- `async`/`await`: every step is sequential. A rejected promise is an error result
  that ends the run.
- `LoaderEventEmitter` is not part of this model. Each emit appends one event to the
  factory's trace. Listeners (`addLoaderListener`, `removeLoaderListener`) are not
  modelled, and neither is a listener's own failure.
- The `lifecycleManager` and `configurationHandler` getters and `LoaderFactory.create`
  are not modelled. The getters are plain container lookups; `create` is the
  constructor.
- The registry stores each class under the `name` field of `LoaderClass`, which
  stands for the class's `LOADER_NAME_META` metadata. Reflection is not modelled.
- `compatibleRequire`, `isClass`, the `HOOK_FILE_LOADER` metadata and `isInjectable`
  are one `probe` parameter. Its result is a `ClassInfo`, or nothing when the
  default export is not a class. A `require` that throws is not modelled.
- A static `is` or `onFind` that rejects is not modelled: both are total functions.
- `path.join` is an opaque parameter. It is re-applied on every run, and no
  idempotence is claimed.
- Loader instances are values. That `getLoader` builds a fresh object each call is
  not captured, and neither is aliasing between manifest items (the same object
  listed twice).
- `LoadItemList` reads the registry once, at the start of the run, and a per-item
  `load` cannot change it. In the code, `register` may run at any time, and a
  module's `load` runs that module's code, so a loader registered during a run and
  found by later items is not modelled.
- `itemList`'s default of `[]` is the caller passing an empty array.
- `ModuleLoader.Load`: `require` always yields a class. A `compatibleRequire` that
  rejects reaches the engine as a failed `load`, which `Engine.LoadItem` covers.
- ExceptionLoading.ExceptionLoader.Load: `loadMetaFile` is a parameter. It yields
  the code map's entries in `Object.entries` order, or nothing when parsing fails.
  What `container.get(ExceptionHandler)` returns is a parameter too (nothing when the
  lookup throws); the loader's container is not consulted for it. `console.warn` is
  not modelled.
- ExceptionLoading.ExceptionHandler stands in for the handler of src/exception, which
  is not part of this model. It records the codes it accepted; which codes its
  `registerCode` throws on is the constructor's `throws` parameter, and a call that
  throws records nothing. Its constructor is not a source operation.
- src/constant.ts is not part of this model. `DEFAULT_LOADER` is `"module"` and
  `EXCEPTION_FILENAME` is `"exception.json"`. `isMatch` is a parameter.
- src/loader/impl/plugin_config.ts is not modelled. It only delegates to code
  outside this model.
- Injection's `Container` keeps only what `hasValue` and `set` need. A definition is
  tagged with the number of earlier writes, so an overwrite is visible.
