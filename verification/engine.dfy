/** The manifest execution engine (`loadItemList` / `loadItem`) as a function of its
    inputs: the events it emits, the items after their paths are rewritten, and whether
    it completed or stopped on a thrown error. The imperative loop is
    Factory.LoaderFactory.LoadItemList, proved equal to Execute. */
module Engine {
  import opened Wrappers
  import opened LoaderTypes
  import opened Registry
  import Injection

  /** What one `loadItemList` call works with: the loader registry, the factory's
      container, the optional root, `path.join`, and the settled `load` of each loader. */
  datatype Env = Env(
    loaders: LoaderMap,
    container: Injection.Container,
    root: Option<string>,
    join: (string, string) -> string,
    load: (LoaderInstance, ManifestItem) -> LoadResult)

  datatype Outcome = Completed | Aborted(error: LoaderError)

  /** The events emitted, the item list after the call, how many items were reached
      (their paths rewritten), and the outcome. */
  datatype Execution = Execution(trace: seq<Event>, items: seq<ManifestItem>, done: nat, outcome: Outcome)

  /** `item.path = root ? path.join(root, item.path) : item.path` */
  function ResolvePath(item: ManifestItem, env: Env): (r: ManifestItem)
    // only the path changes
    ensures r == item.(path := r.path)
    ensures Truthy(env.root) ==> r.path == env.join(env.root.value, item.path)
    ensures !Truthy(env.root) ==> r == item
  {
    if Truthy(env.root) then item.(path := env.join(env.root.value, item.path)) else item
  }

  /** `item.loader ?? DEFAULT_LOADER`: the name the events carry. */
  function CurLoader(item: ManifestItem): (name: string)
    ensures item.loader.Some? ==> name == item.loader.value
    ensures item.loader.None? ==> name == DEFAULT_LOADER
    // the events' name and the loaded name differ exactly for an empty loader
    ensures name != LoadName(item) <==> item.loader == Some("")
  {
    match item.loader
    case Some(name) => name
    case None => DEFAULT_LOADER
  }

  /** `item.loader || DEFAULT_LOADER`: the name `loadItem` instantiates. */
  function LoadName(item: ManifestItem): (name: string)
    ensures name != ""
    ensures Truthy(item.loader) ==> name == item.loader.value
    ensures !Truthy(item.loader) ==> name == DEFAULT_LOADER
  {
    if Truthy(item.loader) then item.loader.value else DEFAULT_LOADER
  }

  /** `item.loader !== prevLoader`: the raw field is compared, so a missing loader
      always opens a group. */
  predicate OpensGroup(item: ManifestItem, prev: string)
    // a missing loader never equals a group name
    ensures item.loader.None? ==> OpensGroup(item, prev)
    // an item that opens no group already carries the open group's name
    ensures !OpensGroup(item, prev) ==> CurLoader(item) == prev
  {
    item.loader != Some(prev)
  }

  /** `if (prevLoader) emit after(prevLoader)`: close the open group, if there is one. */
  function CloseGroup(prev: string): (es: seq<Event>)
    ensures es == [] <==> prev == ""
    ensures |es| <= 1 && forall e | e in es :: e == After(prev)
  {
    if prev != "" then [After(prev)] else []
  }

  /** The group events an item emits before its own: close the previous group if there
      is one, open the item's group. */
  function Switch(item: ManifestItem, prev: string): (es: seq<Event>)
    ensures es == [] <==> !OpensGroup(item, prev)
    // an opened group is announced last, after at most the closing of the previous one
    ensures es != [] ==> es[|es| - 1] == Before(CurLoader(item))
    ensures |es| <= 2 && forall k | 0 <= k < |es| - 1 :: es[k] == After(prev) && prev != ""
    // an opened group always closes a non-empty previous one first
    ensures OpensGroup(item, prev) && prev != "" ==> es == [After(prev), Before(CurLoader(item))]
    ensures OpensGroup(item, prev) && prev == "" ==> es == [Before(CurLoader(item))]
  {
    if OpensGroup(item, prev) then CloseGroup(prev) + [Before(CurLoader(item))] else []
  }

  /** `prevLoader` after the item. */
  function NextPrev(item: ManifestItem, prev: string): (next: string)
    ensures next == CurLoader(item)
  {
    if OpensGroup(item, prev) then CurLoader(item) else prev
  }

  /** `loadItem(item)`: instantiate `item.loader || DEFAULT_LOADER`, hand it the
      item's loader state, and await its `load`. */
  function LoadItem(env: Env, item: ManifestItem): (r: Result<Value, LoaderError>)
    ensures (r.Err? && r.error.NotFound?) <==> LoadName(item) !in env.loaders.classes
    ensures r.Err? && r.error.NotFound? ==> r.error.name == LoadName(item)
    ensures LoadName(item) in env.loaders.classes ==>
      var clazz := env.loaders.classes[LoadName(item)];
      match env.load(LoaderInstance(clazz, env.container, item.loaderState), item)
      case Loaded(v) => r == Ok(v)
      case Rejected(x) => r == Err(LoadFailure(x))
  {
    match GetLoader(env.loaders, env.container, LoadName(item))
    case Err(e) => Err(e)
    case Ok(loader) =>
      match env.load(loader.(state := item.loaderState), item)
      case Loaded(v) => Ok(v)
      case Rejected(reason) => Err(LoadFailure(reason))
  }

  /** `loadItemList(items, root)` run from group state `prev` (the empty string: no
      group open). A thrown error ends the trace where it was thrown; no `after` is
      emitted for the abandoned group. */
  function Execute(env: Env, items: seq<ManifestItem>, prev: string): (r: Execution)
    ensures |r.items| == |items| && r.done <= |items|
    ensures r.outcome.Completed? ==> r.done == |items|
    ensures r.outcome.Aborted? ==> 0 < r.done
    decreases |items|
  {
    if |items| == 0 then
      Execution(CloseGroup(prev), [], 0, Completed)
    else
      var item := ResolvePath(items[0], env);
      var cur := CurLoader(item);
      var opening := Switch(item, prev) + [BeforeEach(cur, item)];
      match LoadItem(env, item)
      case Err(e) => Execution(opening, [item] + items[1..], 1, Aborted(e))
      case Ok(v) =>
        var rest := Execute(env, items[1..], NextPrev(item, prev));
        Execution(opening + [AfterEach(cur, item, v)] + rest.trace, [item] + rest.items, rest.done + 1, rest.outcome)
  }

  /** Every item of the list with its path rewritten. */
  function ResolveAll(env: Env, items: seq<ManifestItem>): (r: seq<ManifestItem>)
    ensures |r| == |items|
  {
    if |items| == 0 then [] else [ResolvePath(items[0], env)] + ResolveAll(env, items[1..])
  }

  /** Every item the run reached has its path rewritten (joined to the root when the
      root is truthy). */
  lemma {:induction false} ReachedItemsAreRewritten(env: Env, items: seq<ManifestItem>, prev: string)
    ensures var r := Execute(env, items, prev);
      r.items[..r.done] == ResolveAll(env, items[..r.done])
    decreases |items|
  {
    if |items| > 0 {
      var item := ResolvePath(items[0], env);
      var r := Execute(env, items, prev);
      if LoadItem(env, item).Ok? {
        var rest := Execute(env, items[1..], NextPrev(item, prev));
        ReachedItemsAreRewritten(env, items[1..], NextPrev(item, prev));
        assert r.items == [item] + rest.items && r.done == rest.done + 1;
        assert r.items[..r.done] == [item] + rest.items[..rest.done];
        assert items[..r.done][1..] == items[1..][..rest.done];
      } else {
        assert items[..1][1..] == [];
      }
    }
  }

  /** The items after the one that threw are left as they were. */
  lemma {:induction false} UnreachedItemsAreUntouched(env: Env, items: seq<ManifestItem>, prev: string)
    ensures var r := Execute(env, items, prev);
      r.items[r.done..] == items[r.done..]
    decreases |items|
  {
    if |items| > 0 {
      var item := ResolvePath(items[0], env);
      if LoadItem(env, item).Ok? {
        var rest := Execute(env, items[1..], NextPrev(item, prev));
        UnreachedItemsAreUntouched(env, items[1..], NextPrev(item, prev));
        StepTrace(env, items, prev);
        var r := Execute(env, items, prev);
        assert r.items[r.done..] == rest.items[rest.done..];
        assert items[r.done..] == items[1..][rest.done..];
      }
    }
  }

  /** A run that threw ends with the `beforeEach` of the item that threw: neither its
      `afterEach` nor an `after` for its group is emitted. */
  lemma {:induction false} AbortEndsAtBeforeEach(env: Env, items: seq<ManifestItem>, prev: string)
    requires Execute(env, items, prev).outcome.Aborted?
    ensures var r := Execute(env, items, prev);
      var item := ResolvePath(items[r.done - 1], env);
      0 < |r.trace| && r.trace[|r.trace| - 1] == BeforeEach(CurLoader(item), item)
    decreases |items|
  {
    var item := ResolvePath(items[0], env);
    if LoadItem(env, item).Ok? {
      var rest := Execute(env, items[1..], NextPrev(item, prev));
      AbortEndsAtBeforeEach(env, items[1..], NextPrev(item, prev));
      StepTrace(env, items, prev);
      assert items[1..][rest.done - 1] == items[rest.done];
    } else {
      StopTrace(env, items, prev);
    }
  }

  /** A run completes exactly when every item, once its path is rewritten, loads. */
  lemma {:induction false} CompletesIffAllLoad(env: Env, items: seq<ManifestItem>, prev: string)
    ensures Execute(env, items, prev).outcome.Completed?
      <==> forall k | 0 <= k < |items| :: LoadItem(env, ResolvePath(items[k], env)).Ok?
    decreases |items|
  {
    if |items| > 0 {
      var item := ResolvePath(items[0], env);
      if LoadItem(env, item).Ok? {
        CompletesIffAllLoad(env, items[1..], NextPrev(item, prev));
        assert forall k | 1 <= k < |items| :: items[k] == items[1..][k - 1];
        if Execute(env, items, prev).outcome.Completed? {
          forall k | 0 <= k < |items| ensures LoadItem(env, ResolvePath(items[k], env)).Ok? {
            if k > 0 {
              assert items[k] == items[1..][k - 1];
            }
          }
        }
      }
    }
  }

  // ---------------------------------------------------------------------------
  // Projections of a trace

  /** The `before` / `after` events of a trace, in order. */
  function GroupEvents(t: seq<Event>): seq<Event>
  {
    if |t| == 0 then []
    else (if t[0].Before? || t[0].After? then [t[0]] else []) + GroupEvents(t[1..])
  }

  /** The `beforeEach` / `afterEach` events of a trace, in order. */
  function ItemEvents(t: seq<Event>): seq<Event>
  {
    if |t| == 0 then []
    else (if t[0].BeforeEach? || t[0].AfterEach? then [t[0]] else []) + ItemEvents(t[1..])
  }

  lemma {:induction false} GroupEventsAppend(a: seq<Event>, b: seq<Event>)
    ensures GroupEvents(a + b) == GroupEvents(a) + GroupEvents(b)
  {
    if |a| > 0 {
      assert (a + b)[1..] == a[1..] + b;
      GroupEventsAppend(a[1..], b);
    } else {
      assert a + b == b;
    }
  }

  lemma {:induction false} ItemEventsAppend(a: seq<Event>, b: seq<Event>)
    ensures ItemEvents(a + b) == ItemEvents(a) + ItemEvents(b)
  {
    if |a| > 0 {
      assert (a + b)[1..] == a[1..] + b;
      ItemEventsAppend(a[1..], b);
    } else {
      assert a + b == b;
    }
  }

  lemma SingleProjections(e: Event)
    ensures GroupEvents([e]) == if e.Before? || e.After? then [e] else []
    ensures ItemEvents([e]) == if e.BeforeEach? || e.AfterEach? then [e] else []
  {
    assert [e][1..] == [];
  }

  /** The group switch holds group events only. */
  lemma SwitchProjections(item: ManifestItem, prev: string)
    ensures GroupEvents(Switch(item, prev)) == Switch(item, prev)
    ensures ItemEvents(Switch(item, prev)) == []
  {
    var before := Before(CurLoader(item));
    SingleProjections(before);
    if OpensGroup(item, prev) && prev != "" {
      SingleProjections(After(prev));
      GroupEventsAppend([After(prev)], [before]);
      ItemEventsAppend([After(prev)], [before]);
    }
  }

  /** Unfolding Execute once on an item that loaded. */
  lemma StepTrace(env: Env, items: seq<ManifestItem>, prev: string)
    requires |items| > 0 && LoadItem(env, ResolvePath(items[0], env)).Ok?
    ensures var item := ResolvePath(items[0], env);
      var cur := CurLoader(item);
      var rest := Execute(env, items[1..], NextPrev(item, prev));
      Execute(env, items, prev) == Execution(
        Switch(item, prev) + [BeforeEach(cur, item), AfterEach(cur, item, LoadItem(env, item).value)] + rest.trace,
        [item] + rest.items, rest.done + 1, rest.outcome)
  {
    var item := ResolvePath(items[0], env);
    var cur := CurLoader(item);
    var v := LoadItem(env, item).value;
    assert Switch(item, prev) + [BeforeEach(cur, item)] + [AfterEach(cur, item, v)]
        == Switch(item, prev) + [BeforeEach(cur, item), AfterEach(cur, item, v)];
  }

  /** Unfolding Execute once on an item that threw. */
  lemma StopTrace(env: Env, items: seq<ManifestItem>, prev: string)
    requires |items| > 0 && LoadItem(env, ResolvePath(items[0], env)).Err?
    ensures var item := ResolvePath(items[0], env);
      Execute(env, items, prev) == Execution(
        Switch(item, prev) + [BeforeEach(CurLoader(item), item)], [item] + items[1..], 1, Aborted(LoadItem(env, item).error))
  {
  }

  lemma PairProjections(item: ManifestItem, v: Value)
    ensures var cur := CurLoader(item);
      var pair := [BeforeEach(cur, item), AfterEach(cur, item, v)];
      GroupEvents(pair) == [] && ItemEvents(pair) == pair
  {
    var cur := CurLoader(item);
    var b, e := BeforeEach(cur, item), AfterEach(cur, item, v);
    assert [b, e][1..] == [e];
    SingleProjections(e);
  }

  /** The group events of one loaded item's events followed by a rest. */
  lemma TraceGroupEvents(item: ManifestItem, prev: string, v: Value, rest: seq<Event>)
    ensures var cur := CurLoader(item);
      GroupEvents(Switch(item, prev) + [BeforeEach(cur, item), AfterEach(cur, item, v)] + rest)
        == Switch(item, prev) + GroupEvents(rest)
  {
    var cur := CurLoader(item);
    var sw := Switch(item, prev);
    var pair := [BeforeEach(cur, item), AfterEach(cur, item, v)];
    PairProjections(item, v);
    SwitchProjections(item, prev);
    GroupEventsAppend(sw + pair, rest);
    GroupEventsAppend(sw, pair);
  }

  /** The item events of one loaded item's events followed by a rest. */
  lemma TraceItemEvents(item: ManifestItem, prev: string, v: Value, rest: seq<Event>)
    ensures var cur := CurLoader(item);
      ItemEvents(Switch(item, prev) + [BeforeEach(cur, item), AfterEach(cur, item, v)] + rest)
        == [BeforeEach(cur, item), AfterEach(cur, item, v)] + ItemEvents(rest)
  {
    var cur := CurLoader(item);
    var sw := Switch(item, prev);
    var pair := [BeforeEach(cur, item), AfterEach(cur, item, v)];
    PairProjections(item, v);
    SwitchProjections(item, prev);
    ItemEventsAppend(sw + pair, rest);
    ItemEventsAppend(sw, pair);
  }

  /** One item that loaded: its group switch, then its two item events, then the rest. */
  lemma StepProjections(env: Env, items: seq<ManifestItem>, prev: string)
    requires |items| > 0 && LoadItem(env, ResolvePath(items[0], env)).Ok?
    ensures var item := ResolvePath(items[0], env);
      var cur := CurLoader(item);
      var v := LoadItem(env, item).value;
      var rest := Execute(env, items[1..], NextPrev(item, prev)).trace;
      && GroupEvents(Execute(env, items, prev).trace) == Switch(item, prev) + GroupEvents(rest)
      && ItemEvents(Execute(env, items, prev).trace) == [BeforeEach(cur, item), AfterEach(cur, item, v)] + ItemEvents(rest)
  {
    var item := ResolvePath(items[0], env);
    StepTrace(env, items, prev);
    var rest := Execute(env, items[1..], NextPrev(item, prev)).trace;
    TraceGroupEvents(item, prev, LoadItem(env, item).value, rest);
    TraceItemEvents(item, prev, LoadItem(env, item).value, rest);
  }

  /** One item that threw: its group switch and its `beforeEach`, nothing after. */
  lemma StopProjections(env: Env, items: seq<ManifestItem>, prev: string)
    requires |items| > 0 && LoadItem(env, ResolvePath(items[0], env)).Err?
    ensures var item := ResolvePath(items[0], env);
      ItemEvents(Execute(env, items, prev).trace) == [BeforeEach(CurLoader(item), item)]
  {
    var item := ResolvePath(items[0], env);
    var sw := Switch(item, prev);
    var b := BeforeEach(CurLoader(item), item);
    assert Execute(env, items, prev).trace == sw + [b];
    SingleProjections(b);
    SwitchProjections(item, prev);
    ItemEventsAppend(sw, [b]);
  }

  // ---------------------------------------------------------------------------
  // Per-item events

  /** A reference for the per-item events that knows nothing of groups: each item,
      once its path is rewritten, gets `beforeEach` then, if it loads, `afterEach`
      with its result; the first failure ends the list. */
  function PerItemEvents(env: Env, items: seq<ManifestItem>): seq<Event>
  {
    if |items| == 0 then []
    else
      var item := ResolvePath(items[0], env);
      var cur := CurLoader(item);
      match LoadItem(env, item)
      case Err(_) => [BeforeEach(cur, item)]
      case Ok(v) => [BeforeEach(cur, item), AfterEach(cur, item, v)] + PerItemEvents(env, items[1..])
  }

  /** Whatever group is open, the per-item events of a run are exactly one
      `beforeEach(cur, item)` and one `afterEach(cur, item, result)` per item, in
      manifest order, carrying the defaulted name; a thrown error leaves only the
      `beforeEach` of the item that threw. */
  lemma {:induction false} ItemEventsArePerItem(env: Env, items: seq<ManifestItem>, prev: string)
    ensures ItemEvents(Execute(env, items, prev).trace) == PerItemEvents(env, items)
    decreases |items|
  {
    if |items| > 0 {
      var item := ResolvePath(items[0], env);
      if LoadItem(env, item).Ok? {
        StepProjections(env, items, prev);
        ItemEventsArePerItem(env, items[1..], NextPrev(item, prev));
      } else {
        StopProjections(env, items, prev);
      }
    }
  }

  // ---------------------------------------------------------------------------
  // Group events

  /** Each name's group as a `before` immediately closed by its `after`. */
  function Bracket(names: seq<string>): seq<Event>
  {
    if |names| == 0 then [] else [Before(names[0]), After(names[0])] + Bracket(names[1..])
  }

  /** One step of Bracket. */
  lemma BracketUnfolds(names: seq<string>)
    requires |names| > 0
    ensures Bracket(names) == [Before(names[0]), After(names[0])] + Bracket(names[1..])
  {
  }

  /** `prevLoader` when item `k` is reached: the defaulted name of the item before it. */
  function PrevName(items: seq<ManifestItem>, k: nat): string
    requires k <= |items|
  {
    if k == 0 then "" else CurLoader(items[k - 1])
  }

  /** Item `k` opens a group: its raw `loader` differs from the previous item's
      defaulted name. */
  predicate Opens(items: seq<ManifestItem>, k: nat)
    requires k < |items|
  {
    OpensGroup(items[k], PrevName(items, k))
  }

  /** The names of the groups opened from item `j` on, in order. */
  function OpenedNames(items: seq<ManifestItem>, j: nat): seq<string>
    requires j <= |items|
    decreases |items| - j
  {
    if j == |items| then []
    else (if Opens(items, j) then [CurLoader(items[j])] else []) + OpenedNames(items, j + 1)
  }

  /** No item names the empty string as its loader. */
  predicate NoEmptyLoader(items: seq<ManifestItem>)
  {
    forall k | 0 <= k < |items| :: items[k].loader != Some("")
  }

  /** One item of a completed run, seen from the whole list: its group switch, then
      the group events of the rest, which completed too. */
  lemma GroupStep(env: Env, items: seq<ManifestItem>, j: nat)
    requires j < |items|
    requires Execute(env, items[j..], PrevName(items, j)).outcome.Completed?
    ensures Execute(env, items[j + 1..], PrevName(items, j + 1)).outcome.Completed?
    ensures GroupEvents(Execute(env, items[j..], PrevName(items, j)).trace)
      == Switch(items[j], PrevName(items, j)) + GroupEvents(Execute(env, items[j + 1..], PrevName(items, j + 1)).trace)
  {
    var prev := PrevName(items, j);
    var item := ResolvePath(items[j], env);
    assert items[j..][0] == items[j];
    assert items[j..][1..] == items[j + 1..];
    assert LoadItem(env, item).Ok?;
    StepProjections(env, items[j..], prev);
  }

  /** The group events owed from item `j` on: the `after` of the group still open,
      then each group opened from `j` on, bracketed. */
  function Owed(items: seq<ManifestItem>, j: nat): seq<Event>
    requires j <= |items|
  {
    (if PrevName(items, j) != "" then [After(PrevName(items, j))] else []) + Bracket(OpenedNames(items, j))
  }

  /** Item `j`'s group switch followed by what is owed after it is what was owed
      before it. */
  lemma OwedStep(items: seq<ManifestItem>, j: nat)
    requires j < |items| && NoEmptyLoader(items)
    ensures Switch(items[j], PrevName(items, j)) + Owed(items, j + 1) == Owed(items, j)
  {
    if Opens(items, j) {
      OwedStepOpens(items, j);
    } else {
      var prev := PrevName(items, j);
      assert CurLoader(items[j]) == prev == PrevName(items, j + 1);
      assert OpenedNames(items, j) == OpenedNames(items, j + 1);
      assert Switch(items[j], prev) == [];
    }
  }

  /** After an item with a non-empty name, its group's `after` is owed first. */
  lemma OwedAfter(items: seq<ManifestItem>, k: nat)
    requires 0 < k <= |items| && CurLoader(items[k - 1]) != ""
    ensures Owed(items, k) == [After(CurLoader(items[k - 1]))] + Bracket(OpenedNames(items, k))
  {
  }

  /** OwedStep for an item that opens a group: the `after` owed for the previous group
      is emitted now, and the item's own group is owed instead. */
  lemma OwedStepOpens(items: seq<ManifestItem>, j: nat)
    requires j < |items| && NoEmptyLoader(items) && Opens(items, j)
    ensures Switch(items[j], PrevName(items, j)) + Owed(items, j + 1) == Owed(items, j)
  {
    var prev := PrevName(items, j);
    var cur := CurLoader(items[j]);
    var later := Bracket(OpenedNames(items, j + 1));
    var pre := if prev != "" then [After(prev)] else [];
    OpenedNamesAtOpen(items, j);
    OwedAfter(items, j + 1);
    assert Switch(items[j], prev) == pre + [Before(cur)];
    assert Owed(items, j) == pre + ([Before(cur), After(cur)] + later);
    Reassociate(pre, Before(cur), After(cur), later);
  }

  /** The names opened from an opening item on: its own, then the later ones. */
  lemma OpenedNamesAtOpen(items: seq<ManifestItem>, j: nat)
    requires j < |items| && NoEmptyLoader(items) && Opens(items, j)
    ensures CurLoader(items[j]) != ""
    ensures Bracket(OpenedNames(items, j))
         == [Before(CurLoader(items[j])), After(CurLoader(items[j]))] + Bracket(OpenedNames(items, j + 1))
  {
    var names := [CurLoader(items[j])] + OpenedNames(items, j + 1);
    assert OpenedNames(items, j) == names;
    assert names[1..] == OpenedNames(items, j + 1);
    BracketUnfolds(names);
  }

  lemma Reassociate(pre: seq<Event>, b: Event, a: Event, later: seq<Event>)
    ensures pre + [b] + ([a] + later) == pre + ([b, a] + later)
  {
  }

  lemma {:induction false} GroupEventsFrom(env: Env, items: seq<ManifestItem>, j: nat)
    requires j <= |items| && NoEmptyLoader(items)
    requires Execute(env, items[j..], PrevName(items, j)).outcome.Completed?
    ensures GroupEvents(Execute(env, items[j..], PrevName(items, j)).trace) == Owed(items, j)
    decreases |items| - j
  {
    if j == |items| {
      SingleProjections(After(PrevName(items, j)));
    } else {
      GroupStep(env, items, j);
      GroupEventsFrom(env, items, j + 1);
      OwedStep(items, j);
    }
  }

  /** A completed run's `before` / `after` events are one `before(X)` immediately
      followed by its `after(X)` for every opened group, in the order the groups were
      opened: they alternate strictly, start with `before`, and each `before` is closed
      before the next one. Items whose loader is the empty string are excluded; see
      EmptyLoaderLeavesGroupOpen. */
  lemma GroupEventsAreBracketed(env: Env, items: seq<ManifestItem>)
    requires NoEmptyLoader(items)
    requires Execute(env, items, "").outcome.Completed?
    ensures GroupEvents(Execute(env, items, "").trace) == Bracket(OpenedNames(items, 0))
  {
    assert items[0..] == items;
    GroupEventsFrom(env, items, 0);
  }

  /** An item with no `loader` opens a new group even when the previous item's
      group is the default one. */
  lemma MissingLoaderAlwaysOpens(items: seq<ManifestItem>, k: nat)
    requires k < |items| && items[k].loader.None?
    ensures Opens(items, k)
    ensures OpenedNames(items, k)[0] == DEFAULT_LOADER
  {
  }

  /** Consecutive items naming the same loader explicitly share one group: the second
      opens none. */
  lemma SameExplicitLoaderSharesGroup(items: seq<ManifestItem>, k: nat)
    requires 0 < k < |items| && items[k].loader.Some? && items[k].loader == items[k - 1].loader
    ensures !Opens(items, k)
  {
  }

  /** An empty manifest emits nothing. */
  lemma EmptyListEmitsNothing(env: Env)
    ensures Execute(env, [], "") == Execution([], [], 0, Completed)
  {
  }

  // ---------------------------------------------------------------------------
  // The whole trace, in place

  /** The events of items `k` onwards, where each sits in the trace: the item's group
      switch, its `beforeEach`, and, when it loads, its `afterEach` followed by the
      events of the next item; a failing item ends the list. */
  function Blocks(env: Env, items: seq<ManifestItem>, k: nat): seq<Event>
    requires k <= |items|
    decreases |items| - k
  {
    if k == |items| then []
    else
      var item := ResolvePath(items[k], env);
      var cur := CurLoader(item);
      Switch(item, PrevName(items, k)) + [BeforeEach(cur, item)] +
        match LoadItem(env, item)
        case Ok(v) => [AfterEach(cur, item, v)] + Blocks(env, items, k + 1)
        case Err(_) => []
  }

  /** Blocks at an item that loads: its switch and its pair of item events, then the
      blocks of the next item. */
  lemma BlocksStep(env: Env, items: seq<ManifestItem>, j: nat)
    requires j < |items| && LoadItem(env, ResolvePath(items[j], env)).Ok?
    ensures var item := ResolvePath(items[j], env);
      var cur := CurLoader(item);
      Blocks(env, items, j)
        == (Switch(item, PrevName(items, j)) + [BeforeEach(cur, item), AfterEach(cur, item, LoadItem(env, item).value)])
           + Blocks(env, items, j + 1)
  {
  }

  /** From item `j` on, the trace is the items' blocks in manifest order, with each
      group switch directly before the `beforeEach` of the item that causes it, and,
      when the run completes, the `after` of the last open group at the end. */
  lemma {:induction false} TraceIsBlocksFrom(env: Env, items: seq<ManifestItem>, j: nat)
    requires j <= |items|
    ensures var r := Execute(env, items[j..], PrevName(items, j));
      r.trace == Blocks(env, items, j) + (if r.outcome.Completed? then CloseGroup(PrevName(items, |items|)) else [])
    decreases |items| - j
  {
    var suffix := items[j..];
    var prev := PrevName(items, j);
    if j == |items| {
      assert suffix == [];
    } else {
      var item := ResolvePath(items[j], env);
      assert suffix[0] == items[j];
      assert suffix[1..] == items[j + 1..];
      if LoadItem(env, item).Ok? {
        var cur := CurLoader(item);
        var head := Switch(item, prev) + [BeforeEach(cur, item), AfterEach(cur, item, LoadItem(env, item).value)];
        BlocksStep(env, items, j);
        StepTrace(env, suffix, prev);
        assert NextPrev(item, prev) == PrevName(items, j + 1);
        TraceIsBlocksFrom(env, items, j + 1);
        var rest := Execute(env, items[j + 1..], PrevName(items, j + 1));
        var close := if rest.outcome.Completed? then CloseGroup(PrevName(items, |items|)) else [];
        assert head + rest.trace == (head + Blocks(env, items, j + 1)) + close;
      } else {
        StopTrace(env, suffix, prev);
      }
    }
  }

  /** The whole trace of `loadItemList`, events in the order they are emitted: the
      blocks of the items, then, when the run completes, the `after` of the group
      still open. */
  lemma TraceIsBlocks(env: Env, items: seq<ManifestItem>)
    ensures var r := Execute(env, items, "");
      r.trace == Blocks(env, items, 0) + (if r.outcome.Completed? then CloseGroup(PrevName(items, |items|)) else [])
  {
    assert items[0..] == items;
    TraceIsBlocksFrom(env, items, 0);
  }
}
