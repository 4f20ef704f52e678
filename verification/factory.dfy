/** `LoaderFactory`: the manifest loop, loader lookup and loader resolution, run
    against the shared registry and the factory's own container and event emitter. */
module Factory {
  import opened Wrappers
  import opened LoaderTypes
  import opened Registry
  import opened Resolution
  import opened Engine
  import Injection

  /** `loadItemList`'s loop invariant after `i` items: the whole run is what was
      emitted so far followed by the run of the rest from the current group. */
  ghost predicate RunSplit(env: Env, orig: seq<ManifestItem>, i: nat, prev: string,
                           emitted: seq<Event>, reached: seq<ManifestItem>, whole: Execution)
    requires i <= |orig|
  {
    forall rest | IsRest(env, orig, i, prev, rest) ::
      whole == Execution(emitted + rest.trace, reached + rest.items, i + rest.done, rest.outcome)
  }

  /** `rest` is the run of the items from `i` on, starting in group `prev`. */
  ghost predicate IsRest(env: Env, orig: seq<ManifestItem>, i: nat, prev: string, rest: Execution)
    requires i <= |orig|
  {
    rest == Execute(env, orig[i..], prev)
  }

  /** The invariant moves past an item that loaded. */
  lemma RunSplitStep(env: Env, orig: seq<ManifestItem>, i: nat, prev: string,
                     emitted: seq<Event>, reached: seq<ManifestItem>, whole: Execution)
    requires i < |orig| && RunSplit(env, orig, i, prev, emitted, reached, whole)
    requires LoadItem(env, ResolvePath(orig[i], env)).Ok?
    ensures var item := ResolvePath(orig[i], env);
      var cur := CurLoader(item);
      var v := LoadItem(env, item).value;
      RunSplit(env, orig, i + 1, cur,
               emitted + (Switch(item, prev) + [BeforeEach(cur, item), AfterEach(cur, item, v)]),
               reached + [item], whole)
  {
    var suffix := orig[i..];
    assert suffix[1..] == orig[i + 1..];
    var here := Execute(env, suffix, prev);
    assert IsRest(env, orig, i, prev, here);
    var item := ResolvePath(orig[i], env);
    var cur := CurLoader(item);
    var step := Switch(item, prev) + [BeforeEach(cur, item), AfterEach(cur, item, LoadItem(env, item).value)];
    forall rest | IsRest(env, orig, i + 1, cur, rest)
      ensures whole == Execution((emitted + step) + rest.trace, (reached + [item]) + rest.items, (i + 1) + rest.done, rest.outcome)
    {
      StepTrace(env, suffix, prev);
      assert here == Execution(step + rest.trace, [item] + rest.items, rest.done + 1, rest.outcome);
      AppendTail(emitted + step + rest.trace, emitted + step, emitted, step, rest.trace);
      AppendTail(reached + [item] + rest.items, reached + [item], reached, [item], rest.items);
    }
  }

  /** At an item that threw, the invariant yields the whole run. */
  lemma RunSplitStop(env: Env, orig: seq<ManifestItem>, i: nat, prev: string,
                     emitted: seq<Event>, reached: seq<ManifestItem>, whole: Execution)
    requires i < |orig| && RunSplit(env, orig, i, prev, emitted, reached, whole)
    requires LoadItem(env, ResolvePath(orig[i], env)).Err?
    ensures var item := ResolvePath(orig[i], env);
      whole == Execution(emitted + (Switch(item, prev) + [BeforeEach(CurLoader(item), item)]),
                         reached + [item] + orig[i + 1..], i + 1, Aborted(LoadItem(env, item).error))
  {
    var suffix := orig[i..];
    assert suffix[1..] == orig[i + 1..];
    assert IsRest(env, orig, i, prev, Execute(env, suffix, prev));
    StopTrace(env, suffix, prev);
  }

  /** Before the first item, the rest of the run is the whole run. */
  lemma RunSplitStart(env: Env, orig: seq<ManifestItem>)
    ensures RunSplit(env, orig, 0, "", [], [], Execute(env, orig, ""))
  {
    assert orig[0..] == orig;
    var r := Execute(env, orig, "");
    assert [] + r.trace == r.trace && [] + r.items == r.items;
  }

  /** Past the last item, the invariant yields the whole run: only the closing
      `after` of the open group remains. */
  lemma RunSplitDone(env: Env, orig: seq<ManifestItem>, prev: string,
                     emitted: seq<Event>, reached: seq<ManifestItem>, whole: Execution)
    requires RunSplit(env, orig, |orig|, prev, emitted, reached, whole)
    ensures whole == Execution(emitted + CloseGroup(prev), reached, |orig|, Completed)
  {
    assert orig[|orig|..] == [];
    assert IsRest(env, orig, |orig|, prev, Execute(env, [], prev));
  }

  /** One turn of the loop, as the invariant sees it: from the state before the turn
      (`was`, `before`) and what the turn did (`now`, `after`), either the whole run
      when the item threw, or the invariant one item further. */
  lemma Advance(env: Env, orig: seq<ManifestItem>, i: nat, prev: string, emitted: seq<Event>,
                reached: seq<ManifestItem>, whole: Execution, start: seq<Event>,
                before: seq<Event>, after: seq<Event>, was: seq<ManifestItem>, now: seq<ManifestItem>,
                item: ManifestItem, result: Result<Value, LoaderError>, next: string)
    requires i < |orig| && |reached| == i && was == reached + orig[i..]
    requires before == start + emitted && RunSplit(env, orig, i, prev, emitted, reached, whole)
    requires item == ResolvePath(was[i], env) && now == was[i := item]
    requires result == LoadItem(env, item) && next == CurLoader(item)
    requires after == before + Switch(item, prev) + [BeforeEach(next, item)]
                      + (if result.Ok? then [AfterEach(next, item, result.value)] else [])
    ensures result.Err? ==> after == start + whole.trace && now == whole.items && whole.outcome == Aborted(result.error)
    ensures result.Ok? ==>
      var emitted' := emitted + (Switch(item, prev) + [BeforeEach(next, item), AfterEach(next, item, result.value)]);
      && after == start + emitted'
      && now == (reached + [item]) + orig[i + 1..]
      && RunSplit(env, orig, i + 1, next, emitted', reached + [item], whole)
  {
    assert orig[i..][0] == was[i];
    WriteNext(was, reached, orig[i..], item, now);
    assert orig[i..][1..] == orig[i + 1..];
    var sw := Switch(item, prev);
    var be := BeforeEach(next, item);
    if result.Err? {
      RunSplitStop(env, orig, i, prev, emitted, reached, whole);
      AppendThree(after, start, emitted, sw, be);
    } else {
      RunSplitStep(env, orig, i, prev, emitted, reached, whole);
      AppendFour(after, start, emitted, sw, be, AfterEach(next, item, result.value));
    }
  }

  /** Writing the cell just after the reached prefix extends that prefix. */
  lemma WriteNext<T>(was: seq<T>, reached: seq<T>, tail: seq<T>, x: T, now: seq<T>)
    requires was == reached + tail && |tail| > 0 && now == was[|reached| := x]
    ensures now == (reached + [x]) + tail[1..]
  {
  }

  lemma AppendTail<T>(e: seq<T>, before: seq<T>, a: seq<T>, b: seq<T>, c: seq<T>)
    requires before == a + b && e == before + c
    ensures e == a + (b + c)
  {
  }

  lemma AppendThree<T>(e: seq<T>, a: seq<T>, b: seq<T>, c: seq<T>, x: T)
    requires e == a + b + c + [x]
    ensures e == a + (b + (c + [x]))
  {
  }

  lemma AppendFour<T>(e: seq<T>, a: seq<T>, b: seq<T>, c: seq<T>, x: T, y: T)
    requires e == a + b + c + [x] + [y]
    ensures e == a + (b + (c + [x, y]))
  {
  }

  class LoaderFactory {
    /** The container every loader instance is bound to. */
    const container: Injection.Container
    /** The static `loaderClazzMap`, shared by every factory. */
    const registry: LoaderRegistry
    /** What the factory's loader event emitter has emitted, in order. */
    var events: seq<Event>

    /** `new LoaderFactory(container)` / `LoaderFactory.create(container)` */
    constructor (container: Injection.Container, registry: LoaderRegistry)
      ensures this.container == container && this.registry == registry && events == []
    {
      this.container := container;
      this.registry := registry;
      events := [];
    }

    /** `loadItemList(items, root)`: rewrites each reached item's path in place, emits
        the group and item events and loads each item, stopping at the first error. */
    method LoadItemList(items: array<ManifestItem>, root: Option<string>,
                        join: (string, string) -> string,
                        load: (LoaderInstance, ManifestItem) -> LoadResult) returns (outcome: Outcome)
      modifies this, items
      ensures var x := Execute(Env(registry.loaders, container, root, join, load), old(items[..]), "");
        && events == old(events) + x.trace
        && items[..] == x.items
        && outcome == x.outcome
    {
      var env := Env(registry.loaders, container, root, join, load);
      RunSplitStart(env, items[..]);
      outcome := RunItems(items, env, items[..], Execute(env, items[..], ""));
    }

    /** `loadManifest(manifest, root)`: run the manifest's item list. */
    method LoadManifest(items: array<ManifestItem>, root: Option<string>,
                        join: (string, string) -> string,
                        load: (LoaderInstance, ManifestItem) -> LoadResult) returns (outcome: Outcome)
      modifies this, items
      ensures var x := Execute(Env(registry.loaders, container, root, join, load), old(items[..]), "");
        && events == old(events) + x.trace
        && items[..] == x.items
        && outcome == x.outcome
    {
      outcome := LoadItemList(items, root, join, load);
    }

    /** The loop of `loadItemList`, against a run `whole` whose split before the first
        item is known. */
    method RunItems(items: array<ManifestItem>, env: Env, ghost orig: seq<ManifestItem>,
                    ghost whole: Execution) returns (outcome: Outcome)
      requires items[..] == orig && RunSplit(env, orig, 0, "", [], [], whole)
      modifies this, items
      ensures events == old(events) + whole.trace && items[..] == whole.items && outcome == whole.outcome
    {
      ghost var start := events;
      ghost var emitted: seq<Event> := [];
      ghost var reached: seq<ManifestItem> := [];
      var prevLoader := "";
      var i := 0;
      while i < items.Length
        invariant 0 <= i <= items.Length && |reached| == i
        invariant items[..] == reached + orig[i..]
        invariant events == start + emitted
        invariant RunSplit(env, orig, i, prevLoader, emitted, reached, whole)
      {
        ghost var prev := prevLoader;
        ghost var was := items[..];
        ghost var before := events;
        var item, result;
        item, result, prevLoader := LoadOne(items, i, env, prevLoader);
        Advance(env, orig, i, prev, emitted, reached, whole, start, before, events, was, items[..], item, result, prevLoader);
        if result.Err? {
          return Aborted(result.error);
        }
        emitted := emitted + (Switch(item, prev) + [BeforeEach(prevLoader, item), AfterEach(prevLoader, item, result.value)]);
        reached := reached + [item];
        i := i + 1;
      }
      RunSplitDone(env, orig, prevLoader, emitted, reached, whole);
      ghost var before := events;
      EmitClose(prevLoader);
      AppendTail(events, before, start, emitted, CloseGroup(prevLoader));
      outcome := Completed;
    }

    /** One turn of `loadItemList`'s loop: rewrite the item's path in place, switch
        group, emit `beforeEach`, load the item and, when that succeeds, emit `afterEach`.
        Returns the rewritten item, the load's result and the new current group. */
    method LoadOne(items: array<ManifestItem>, i: nat, env: Env, prevLoader: string)
      returns (item: ManifestItem, result: Result<Value, LoaderError>, next: string)
      requires i < items.Length
      modifies this, items
      ensures item == ResolvePath(old(items[i]), env)
      ensures items[..] == old(items[..])[i := item]
      ensures result == LoadItem(env, item) && next == CurLoader(item)
      ensures events == old(events) + Switch(item, prevLoader) + [BeforeEach(next, item)]
                          + (if result.Ok? then [AfterEach(next, item, result.value)] else [])
    {
      item := items[i];
      if Truthy(env.root) {
        item := item.(path := env.join(env.root.value, item.path));
      }
      items[i] := item;
      next := SwitchGroup(item, prevLoader);
      events := events + [BeforeEach(next, item)];
      result := LoadItem(env, item);
      if result.Ok? {
        events := events + [AfterEach(next, item, result.value)];
      }
    }

    /** `if (prevLoader) emit after(prevLoader)`, as the group switch and the end of
        the list both do. */
    method EmitClose(prevLoader: string)
      modifies this
      ensures events == old(events) + CloseGroup(prevLoader)
    {
      if prevLoader != "" {
        events := events + [After(prevLoader)];
      }
    }

    /** The group switch inside `loadItemList`: when the item's raw `loader` differs
        from the current group, close that group (if there is one) and open the item's. */
    method SwitchGroup(item: ManifestItem, prevLoader: string) returns (next: string)
      modifies this
      ensures events == old(events) + Switch(item, prevLoader)
      ensures next == CurLoader(item)
    {
      next := prevLoader;
      if item.loader != Some(prevLoader) {
        EmitClose(prevLoader);
        next := CurLoader(item);
        events := events + [Before(next)];
      }
    }

    /** `findLoaderName(opts)`: the static `is` scan in registration order, then the
        fallback chain on the required default export. */
    method FindLoaderName(opts: FindOptions, probe: string -> Option<ClassInfo>,
                          join: (string, string) -> string) returns (name: Option<string>)
      requires registry.Valid()
      ensures name == ResolveName(Entries(registry.loaders), opts, probe, join)
    {
      var entries := Entries(registry.loaders);
      var i := 0;
      while i < |entries|
        invariant 0 <= i <= |entries|
        invariant FirstClaim(entries, opts) == FirstClaim(entries[i..], opts)
      {
        assert entries[i..][1..] == entries[i + 1..];
        if Claims(entries[i].1, opts) {
          return Some(entries[i].0);
        }
        i := i + 1;
      }
      var target := probe(join(opts.root, opts.filename));
      if target.None? {
        // the default export is not a class
        return None;
      }
      var info := target.value;
      if Truthy(info.loaderTag) {
        return info.loaderTag;
      }
      if info.injectable {
        return Some(DEFAULT_LOADER);
      }
      return None;
    }

    /** `findLoader(opts)`: no result when no name is found (or the name is empty), an
        error when the name is not registered, otherwise the name and, when the class
        defines `onFind`, the state it computes. */
    method FindLoader(opts: FindOptions, probe: string -> Option<ClassInfo>,
                      join: (string, string) -> string) returns (r: Result<Option<FindResult>, LoaderError>)
      requires registry.Valid()
      ensures var name := ResolveName(Entries(registry.loaders), opts, probe, join);
        && (r == Ok(None) <==> name.None? || name.value == "")
        && (r.Err? <==> name.Some? && name.value != "" && name.value !in registry.loaders.classes)
        && (r.Err? ==> r.error == NotFound(name.value))
        && (r.Ok? && r.value.Some? ==>
              var clazz := registry.loaders.classes[name.value];
              && r.value.value.loaderName == name.value
              && r.value.value.loaderState == (if clazz.onFind.Some? then Some(clazz.onFind.value(opts)) else None))
    {
      var loaderName := FindLoaderName(opts, probe, join);
      if loaderName.None? || loaderName.value == "" {
        return Ok(None);
      }
      if loaderName.value !in registry.loaders.classes {
        return Err(NotFound(loaderName.value));
      }
      var loaderClazz := registry.loaders.classes[loaderName.value];
      var result := FindResult(loaderName.value, None);
      if loaderClazz.onFind.Some? {
        result := result.(loaderState := Some(loaderClazz.onFind.value(opts)));
      }
      return Ok(Some(result));
    }
  }
}
