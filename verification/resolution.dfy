/** Loader resolution (`findLoaderName`): which registered loader owns a candidate file.
    Static `is` predicates are asked first, in registration order; only when none claims
    the file is its default export required and inspected. */
module Resolution {
  import opened Wrappers
  import opened LoaderTypes
  import opened Registry

  /** The class defines a static `is` and it returns true for these options. */
  predicate Claims(clazz: LoaderClass, opts: FindOptions)
    // a class without a static `is` claims nothing
    ensures Claims(clazz, opts) ==> clazz.staticIs.Some?
  {
    clazz.staticIs.Some? && clazz.staticIs.value(opts)
  }

  /** The name of the first entry, in insertion order, whose `is` claims the file. */
  function FirstClaim(entries: seq<Entry>, opts: FindOptions): (r: Option<string>)
    // a found name is the name of a scanned entry that claims the file
    ensures r.Some? ==> exists i | 0 <= i < |entries| :: entries[i].0 == r.value && Claims(entries[i].1, opts)
  {
    if |entries| == 0 then None
    else if Claims(entries[0].1, opts) then Some(entries[0].0)
    else FirstClaim(entries[1..], opts)
  }

  /** The fallback chain on the required default export (None: not a class). */
  function Fallback(target: Option<ClassInfo>): (r: Option<string>)
    ensures r.None? <==> target.None? || (!Truthy(target.value.loaderTag) && !target.value.injectable)
    ensures target.Some? && Truthy(target.value.loaderTag) ==> r == target.value.loaderTag
    ensures target.Some? && !Truthy(target.value.loaderTag) && target.value.injectable ==> r == Some(DEFAULT_LOADER)
    ensures r.Some? ==> r.value != ""
  {
    match target
    case None => None
    case Some(info) =>
      if Truthy(info.loaderTag) then info.loaderTag
      else if info.injectable then Some(DEFAULT_LOADER)
      else None
  }

  /** `findLoaderName(opts)`, with `compatibleRequire` as `probe` and `path.join` as `join`. */
  function ResolveName(entries: seq<Entry>, opts: FindOptions,
                       probe: string -> Option<ClassInfo>, join: (string, string) -> string): (r: Option<string>)
    // a static `is` claim wins over the default export
    ensures FirstClaim(entries, opts).Some? ==> r == FirstClaim(entries, opts)
    // no loader only when nothing claims the file and the fallback finds none
    ensures r.None? <==> FirstClaim(entries, opts).None? && Fallback(probe(join(opts.root, opts.filename))).None?
  {
    match FirstClaim(entries, opts)
    case Some(name) => Some(name)
    case None => Fallback(probe(join(opts.root, opts.filename)))
  }

  /** FirstClaim finds nothing exactly when no entry claims, and otherwise yields the
      name of the first claiming entry. */
  lemma {:induction false} FirstClaimIsFirstMatch(entries: seq<Entry>, opts: FindOptions)
    ensures FirstClaim(entries, opts).None? <==> forall i | 0 <= i < |entries| :: !Claims(entries[i].1, opts)
    ensures forall i | 0 <= i < |entries| && Claims(entries[i].1, opts) && (forall j | 0 <= j < i :: !Claims(entries[j].1, opts))
      :: FirstClaim(entries, opts) == Some(entries[i].0)
  {
    if |entries| > 0 && !Claims(entries[0].1, opts) {
      var rest := entries[1..];
      FirstClaimIsFirstMatch(rest, opts);
      assert forall i | 1 <= i < |entries| :: entries[i] == rest[i - 1];
      forall i | 0 <= i < |entries| && Claims(entries[i].1, opts) && (forall j | 0 <= j < i :: !Claims(entries[j].1, opts))
        ensures FirstClaim(entries, opts) == Some(entries[i].0)
      {
        assert i > 0;
        assert forall j | 0 <= j < i - 1 :: !Claims(rest[j].1, opts) by {
          forall j | 0 <= j < i - 1 ensures !Claims(rest[j].1, opts) {
            assert rest[j] == entries[j + 1];
          }
        }
      }
    }
  }

  /** In the registry itself: a name found by a static `is` is a registered name, so
      `findLoader` never reports it as missing. */
  lemma ClaimedNameIsInRegistry(m: LoaderMap, opts: FindOptions)
    requires WellFormed(m) && FirstClaim(Entries(m), opts).Some?
    ensures FirstClaim(Entries(m), opts).value in m.classes
  {
    EntriesNameKeys(m, FirstClaim(Entries(m), opts).value);
  }

  /** When a static `is` claims the file, what the file contains (and where it is)
      cannot change the answer: the file is never required. */
  lemma ClaimSkipsProbe(entries: seq<Entry>, opts: FindOptions,
                        probe1: string -> Option<ClassInfo>, join1: (string, string) -> string,
                        probe2: string -> Option<ClassInfo>, join2: (string, string) -> string)
    requires FirstClaim(entries, opts).Some?
    ensures ResolveName(entries, opts, probe1, join1) == ResolveName(entries, opts, probe2, join2) == FirstClaim(entries, opts)
  {
  }

  /** When no `is` claims the file, a default export that is not a class means "no
      loader", a truthy loader tag wins over the injectable marker, and the injectable
      marker alone gives DEFAULT_LOADER. */
  lemma UnclaimedFallsBackOnExport(entries: seq<Entry>, opts: FindOptions,
                                   probe: string -> Option<ClassInfo>, join: (string, string) -> string)
    requires forall i | 0 <= i < |entries| :: !Claims(entries[i].1, opts)
    ensures var target := probe(join(opts.root, opts.filename));
      && (target.None? ==> ResolveName(entries, opts, probe, join) == None)
      && (target.Some? && Truthy(target.value.loaderTag) ==> ResolveName(entries, opts, probe, join) == target.value.loaderTag)
      && (target.Some? && !Truthy(target.value.loaderTag) && target.value.injectable ==> ResolveName(entries, opts, probe, join) == Some(DEFAULT_LOADER))
      && (target.Some? && !Truthy(target.value.loaderTag) && !target.value.injectable ==> ResolveName(entries, opts, probe, join) == None)
  {
    FirstClaimIsFirstMatch(entries, opts);
  }
}
