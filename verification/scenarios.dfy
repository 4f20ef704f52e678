/** Concrete manifests and the events `loadItemList` emits for them. */
module Scenarios {
  import opened Wrappers
  import opened LoaderTypes
  import opened Engine

  /** The two-item manifest of the event-trigger fixture (an `extension` item, then a
      `module` item) runs as two groups, each bracketing its item's events. */
  lemma {:induction false} BootstrapManifestTrace(env: Env, app: ManifestItem, trigger: ManifestItem)
    requires app.loader == Some("extension") && trigger.loader == Some("module")
    requires LoadItem(env, ResolvePath(app, env)).Ok? && LoadItem(env, ResolvePath(trigger, env)).Ok?
    ensures var x := ResolvePath(app, env);
      var y := ResolvePath(trigger, env);
      Execute(env, [app, trigger], "") == Execution(
        [Before("extension"), BeforeEach("extension", x), AfterEach("extension", x, LoadItem(env, x).value),
         After("extension"),
         Before("module"), BeforeEach("module", y), AfterEach("module", y, LoadItem(env, y).value),
         After("module")],
        [x, y], 2, Completed)
  {
    var items := [app, trigger];
    assert items[1..] == [trigger];
    StepTrace(env, items, "");
    StepTrace(env, [trigger], "extension");
    assert [trigger][1..] == [];
  }

  /** Groups are runs of equal consecutive loaders, not one group per name: loaders
      a, a, b, a open three groups, and `a` is bracketed twice. */
  lemma {:induction false} GroupsFollowConsecutiveRuns(env: Env, items: seq<ManifestItem>)
    requires |items| == 4
    requires items[0].loader == items[1].loader == items[3].loader == Some("a") && items[2].loader == Some("b")
    requires forall k | 0 <= k < 4 :: LoadItem(env, ResolvePath(items[k], env)).Ok?
    ensures GroupEvents(Execute(env, items, "").trace)
      == [Before("a"), After("a"), Before("b"), After("b"), Before("a"), After("a")]
  {
    CompletesIffAllLoad(env, items, "");
    GroupEventsAreBracketed(env, items);
    RunsOpenedNames(items);
    BracketThreeGroups();
  }

  /** The group names opened by loaders a, a, b, a. */
  lemma {:induction false} RunsOpenedNames(items: seq<ManifestItem>)
    requires |items| == 4
    requires items[0].loader == items[1].loader == items[3].loader == Some("a") && items[2].loader == Some("b")
    ensures OpenedNames(items, 0) == ["a", "b", "a"]
  {
    assert !Opens(items, 1) && Opens(items, 0) && Opens(items, 2) && Opens(items, 3);
    assert OpenedNames(items, 4) == [];
    assert OpenedNames(items, 3) == ["a"];
    assert OpenedNames(items, 1) == OpenedNames(items, 2) == ["b", "a"];
  }

  /** The groups a, b, a, each bracketed. */
  lemma BracketThreeGroups()
    ensures Bracket(["a", "b", "a"]) == [Before("a"), After("a"), Before("b"), After("b"), Before("a"), After("a")]
  {
    BracketUnfolds(["a", "b", "a"]);
    BracketUnfolds(["b", "a"]);
    BracketUnfolds(["a"]);
  }

  /** Two items that both omit `loader` are two `module` groups, not one: the raw
      missing loader never equals the open group's name. */
  lemma {:induction false} MissingLoadersOpenTwoGroups(env: Env, items: seq<ManifestItem>)
    requires |items| == 2 && items[0].loader.None? && items[1].loader.None?
    requires forall k | 0 <= k < 2 :: LoadItem(env, ResolvePath(items[k], env)).Ok?
    ensures GroupEvents(Execute(env, items, "").trace)
      == [Before(DEFAULT_LOADER), After(DEFAULT_LOADER), Before(DEFAULT_LOADER), After(DEFAULT_LOADER)]
  {
    CompletesIffAllLoad(env, items, "");
    GroupEventsAreBracketed(env, items);
    assert OpenedNames(items, 2) == [];
    assert OpenedNames(items, 1) == [DEFAULT_LOADER];
    assert OpenedNames(items, 0) == [DEFAULT_LOADER, DEFAULT_LOADER];
    assert Bracket([DEFAULT_LOADER]) == [Before(DEFAULT_LOADER), After(DEFAULT_LOADER)] by {
      assert [DEFAULT_LOADER][1..] == [];
    }
    assert [DEFAULT_LOADER, DEFAULT_LOADER][1..] == [DEFAULT_LOADER];
  }

  /** An item whose loader is the empty string is loaded by the default loader but
      grouped under "": the group it opens is never closed, because an empty
      `prevLoader` is falsy, so the trace ends with an unmatched `before("")`. */
  lemma {:induction false} EmptyLoaderLeavesGroupOpen(env: Env, a: ManifestItem, b: ManifestItem)
    requires a.loader == Some("a") && b.loader == Some("")
    requires LoadItem(env, ResolvePath(a, env)).Ok? && LoadItem(env, ResolvePath(b, env)).Ok?
    ensures LoadName(b) == DEFAULT_LOADER
    ensures GroupEvents(Execute(env, [a, b], "").trace) == [Before("a"), After("a"), Before("")]
  {
    var items := [a, b];
    assert items[1..] == [b];
    StepProjections(env, items, "");
    StepProjections(env, [b], "a");
    assert [b][1..] == [];
    assert Execute(env, [], "").trace == [];
    assert GroupEvents([]) == [];
  }

  /** An item without a loader followed by a `module` item form one group: the first
      opens `module`, and the second's raw loader equals that name, although the two
      raw fields differ. */
  lemma {:induction false} MissingThenModuleShareGroup(env: Env, a: ManifestItem, b: ManifestItem)
    requires a.loader.None? && b.loader == Some(DEFAULT_LOADER)
    requires LoadItem(env, ResolvePath(a, env)).Ok? && LoadItem(env, ResolvePath(b, env)).Ok?
    ensures GroupEvents(Execute(env, [a, b], "").trace) == [Before(DEFAULT_LOADER), After(DEFAULT_LOADER)]
  {
    var items := [a, b];
    assert items[1..] == [b];
    StepProjections(env, items, "");
    StepProjections(env, [b], DEFAULT_LOADER);
    assert [b][1..] == [];
    SingleProjections(After(DEFAULT_LOADER));
  }

  /** A first item whose loader is the empty string opens no group at all: its raw
      loader equals the initial empty `prevLoader`, so only its item events are
      emitted. */
  lemma {:induction false} EmptyLoaderFirstOpensNoGroup(env: Env, b: ManifestItem)
    requires b.loader == Some("")
    requires LoadItem(env, ResolvePath(b, env)).Ok?
    ensures var y := ResolvePath(b, env);
      Execute(env, [b], "").trace == [BeforeEach("", y), AfterEach("", y, LoadItem(env, y).value)]
  {
    StepTrace(env, [b], "");
    assert [b][1..] == [];
  }
}
