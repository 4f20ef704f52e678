/** The process-wide loader registry: `LoaderFactory.loaderClazzMap`, a JavaScript
    `Map` from loader name to loader class. */
module Registry {
  import opened Wrappers
  import opened LoaderTypes
  import Injection

  type Entry = (string, LoaderClass)

  /** A JavaScript `Map<string, LoaderClass>`: the class stored under each name, and
      the names in insertion order (the order `entries()` walks). */
  datatype LoaderMap = LoaderMap(classes: map<string, LoaderClass>, order: seq<string>)

  /** What every JavaScript Map satisfies: the insertion order lists each key once. */
  predicate WellFormed(m: LoaderMap)
  {
    && (forall i, j | 0 <= i < j < |m.order| :: m.order[i] != m.order[j])
    && (forall name | name in m.order :: name in m.classes)
    && (forall name | name in m.classes :: name in m.order)
  }

  /** Some entry is stored under `name`. */
  predicate HasName(entries: seq<Entry>, name: string)
  {
    exists i | 0 <= i < |entries| :: entries[i].0 == name
  }

  /** `loaderClazzMap.entries()`: the (name, class) pairs in insertion order. */
  function Entries(m: LoaderMap): (es: seq<Entry>)
    requires WellFormed(m)
    ensures |es| == |m.order|
    // each pair is a registered name with its class, and no name is yielded twice
    ensures forall i | 0 <= i < |es| :: es[i].0 == m.order[i] && es[i].0 in m.classes && es[i].1 == m.classes[es[i].0]
    ensures forall i, j | 0 <= i < j < |es| :: es[i].0 != es[j].0
  {
    seq(|m.order|, i requires 0 <= i < |m.order| => (m.order[i], m.classes[m.order[i]]))
  }

  /** The names `entries()` yields are exactly the keys of the map. */
  lemma EntriesNameKeys(m: LoaderMap, name: string)
    requires WellFormed(m)
    ensures HasName(Entries(m), name) <==> name in m.classes
  {
    if name in m.classes {
      var i :| 0 <= i < |m.order| && m.order[i] == name;
      assert Entries(m)[i].0 == name;
    }
  }

  /** `loaderClazzMap.set(name, clazz)`: a name already present keeps its place in the
      order and gets the new class; a new name goes last. */
  function Set(m: LoaderMap, name: string, clazz: LoaderClass): (r: LoaderMap)
    ensures r.classes.Keys == m.classes.Keys + {name} && r.classes[name] == clazz
    ensures forall n | n in m.classes && n != name :: r.classes[n] == m.classes[n]
    // existing names keep their places; only a new name is added, at the end
    ensures name in m.classes ==> r.order == m.order
    ensures name !in m.classes ==> r.order == m.order + [name]
  {
    LoaderMap(m.classes[name := clazz], if name in m.classes then m.order else m.order + [name])
  }

  /** Setting a key keeps the map well formed. */
  lemma SetKeepsWellFormed(m: LoaderMap, name: string, clazz: LoaderClass)
    requires WellFormed(m)
    ensures WellFormed(Set(m, name, clazz))
  {
    var r := Set(m, name, clazz);
    if name !in m.classes {
      forall i | 0 <= i < |m.order| ensures r.order[i] != name {
        assert m.order[i] in m.classes;
      }
    }
  }

  /** What `entries()` walks after `set`: a known name is overwritten where it stands,
      a new name is appended after every existing entry. */
  lemma {:induction false} EntriesAfterSet(m: LoaderMap, name: string, clazz: LoaderClass)
    requires WellFormed(m)
    ensures WellFormed(Set(m, name, clazz))
    ensures name !in m.classes ==> Entries(Set(m, name, clazz)) == Entries(m) + [(name, clazz)]
    ensures forall i | 0 <= i < |m.order| && m.order[i] == name ::
      Entries(Set(m, name, clazz)) == Entries(m)[i := (name, clazz)]
  {
    SetKeepsWellFormed(m, name, clazz);
    var r := Set(m, name, clazz);
    if name !in m.classes {
      assert Entries(r) == Entries(m) + [(name, clazz)] by {
        forall k | 0 <= k < |m.order| ensures Entries(r)[k] == Entries(m)[k] {
          assert m.order[k] in m.classes;
        }
      }
    }
    forall i | 0 <= i < |m.order| && m.order[i] == name
      ensures Entries(r) == Entries(m)[i := (name, clazz)]
    {
      assert r.order == m.order;
      forall k | 0 <= k < |m.order| ensures Entries(r)[k] == Entries(m)[i := (name, clazz)][k] {
        if k != i {
          assert m.order[k] != name;
        }
      }
    }
  }

  /** `getLoader(name)`: a new instance of the class registered under `name`, bound to
      the container and with no state yet; `Cannot find loader '<name>'` otherwise. */
  function GetLoader(m: LoaderMap, container: Injection.Container, name: string): (r: Result<LoaderInstance, LoaderError>)
    ensures r.Err? <==> name !in m.classes
    ensures r.Err? ==> r.error == NotFound(name)
    ensures r.Ok? ==> r.value == LoaderInstance(m.classes[name], container, None)
  {
    if name in m.classes then Ok(LoaderInstance(m.classes[name], container, None))
    else Err(NotFound(name))
  }

  /** Registering then asking for the loader builds an instance of the new class: the
      last registration under a name wins. */
  lemma RegisterThenGetLoader(m: LoaderMap, clazz: LoaderClass, container: Injection.Container)
    ensures GetLoader(Set(m, clazz.name, clazz), container, clazz.name) == Ok(LoaderInstance(clazz, container, None))
  {
  }

  /** Registering under one name does not change what any other name yields. */
  lemma SetKeepsOtherNames(m: LoaderMap, name: string, clazz: LoaderClass,
                           container: Injection.Container, other: string)
    requires other != name
    ensures GetLoader(Set(m, name, clazz), container, other) == GetLoader(m, container, other)
  {
  }

  /** The static registry shared by every LoaderFactory. */
  class LoaderRegistry {
    var loaders: LoaderMap

    ghost predicate Valid()
      reads this
    {
      WellFormed(loaders)
    }

    constructor ()
      ensures Valid() && loaders == LoaderMap(map[], [])
    {
      loaders := LoaderMap(map[], []);
    }

    /** `LoaderFactory.register(clazz)`: store the class under its metadata name. */
    method Register(clazz: LoaderClass)
      requires Valid()
      modifies this
      ensures Valid()
      ensures loaders == Set(old(loaders), clazz.name, clazz)
    {
      SetKeepsWellFormed(loaders, clazz.name, clazz);
      loaders := Set(loaders, clazz.name, clazz);
    }
  }
}
