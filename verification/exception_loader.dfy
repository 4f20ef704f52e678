/** The `exception` loader: claims the exception meta file by name, and registers every
    error code the file declares with the exception handler. */
module ExceptionLoading {
  import opened Wrappers
  import opened LoaderTypes
  import opened Registry
  import opened Resolution
  import Injection

  /** The file name the loader claims (`EXCEPTION_FILENAME`). */
  const EXCEPTION_FILENAME: string := "exception.json"

  /** The name the loader is registered under. */
  const EXCEPTION_LOADER: string := "exception"

  /** `Object.entries(codeMap)`: each error code with its exception item, in the
      object's own key order. */
  type CodeEntries = seq<(string, Value)>

  /** Static `ExceptionLoader.is(opts)`: `isMatch(opts.filename, EXCEPTION_FILENAME)`,
      with the glob matcher `isMatch` as a parameter. */
  predicate ExceptionIs(opts: FindOptions, isMatch: (string, string) -> bool)
  {
    isMatch(opts.filename, EXCEPTION_FILENAME)
  }

  /** `is` depends on the file name alone: the root plays no part. */
  lemma ExceptionIsIgnoresRoot(opts: FindOptions, isMatch: (string, string) -> bool, root: string)
    ensures ExceptionIs(opts.(root := root), isMatch) == ExceptionIs(opts, isMatch)
  {
  }

  /** The loader class as the registry stores it: named `exception`, with a static
      `is` and no `onFind`. */
  function ExceptionLoaderClass(ctor: nat, isMatch: (string, string) -> bool): (c: LoaderClass)
    ensures c.name == EXCEPTION_LOADER && c.onFind.None?
    ensures forall opts :: Claims(c, opts) <==> isMatch(opts.filename, EXCEPTION_FILENAME)
  {
    LoaderClass(EXCEPTION_LOADER, ctor, Some(opts => ExceptionIs(opts, isMatch)), None)
  }

  /** Once the exception loader is registered, a file matching EXCEPTION_FILENAME
      resolves to it whenever no other registered loader claims the file, whether the
      name was new (appended) or already present (replaced in place). */
  lemma {:induction false} ExceptionFileResolvesToExceptionLoader(
    m: LoaderMap, ctor: nat, isMatch: (string, string) -> bool, opts: FindOptions,
    probe: string -> Option<ClassInfo>, join: (string, string) -> string)
    requires WellFormed(m)
    requires forall i | 0 <= i < |m.order| && m.order[i] != EXCEPTION_LOADER :: !Claims(m.classes[m.order[i]], opts)
    requires isMatch(opts.filename, EXCEPTION_FILENAME)
    ensures var clazz := ExceptionLoaderClass(ctor, isMatch);
      ResolveName(Entries(Set(m, EXCEPTION_LOADER, clazz)), opts, probe, join) == Some(EXCEPTION_LOADER)
  {
    var clazz := ExceptionLoaderClass(ctor, isMatch);
    var m' := Set(m, EXCEPTION_LOADER, clazz);
    EntriesAfterSet(m, EXCEPTION_LOADER, clazz);
    var es := Entries(m');
    FirstClaimIsFirstMatch(es, opts);
    // the position of the exception loader in the new order
    var k :| 0 <= k < |m'.order| && m'.order[k] == EXCEPTION_LOADER;
    assert es[k] == (EXCEPTION_LOADER, clazz);
    forall j | 0 <= j < k ensures !Claims(es[j].1, opts) {
      assert m'.order[j] != EXCEPTION_LOADER;
      assert j < |m.order| && m'.order[j] == m.order[j];
    }
  }

  /** A file that does not match EXCEPTION_FILENAME is never claimed by the exception
      loader. */
  lemma OtherFileNotClaimed(ctor: nat, isMatch: (string, string) -> bool, opts: FindOptions)
    requires !isMatch(opts.filename, EXCEPTION_FILENAME)
    ensures !Claims(ExceptionLoaderClass(ctor, isMatch), opts)
  {
  }

  /** Why `load` rejects: `container.get(ExceptionHandler)` threw. The lookup sits
      before the `try`, so its failure is not swallowed. */
  datatype LoadRejection = HandlerMissing

  /** How many leading entries of the code map `registerCode` accepts before the
      first one it throws on (all of them when it throws on none). */
  function AcceptedPrefix(codeMap: CodeEntries, throws: (string, Value) -> bool): (n: nat)
    ensures n <= |codeMap|
    ensures forall k | 0 <= k < n :: !throws(codeMap[k].0, codeMap[k].1)
    ensures n < |codeMap| ==> throws(codeMap[n].0, codeMap[n].1)
    decreases |codeMap|
  {
    if |codeMap| == 0 || throws(codeMap[0].0, codeMap[0].1) then 0
    else 1 + AcceptedPrefix(codeMap[1..], throws)
  }

  /** The exception handler, as far as the loader drives it: the codes registered with
      it, in the order `registerCode` accepted them, and the entries its `registerCode`
      throws on. */
  class ExceptionHandler {
    var registered: CodeEntries
    const throws: (string, Value) -> bool

    constructor (throws: (string, Value) -> bool)
      ensures registered == [] && this.throws == throws
    {
      registered := [];
      this.throws := throws;
    }

    /** `registerCode(code, item)`: `ok` is false when the call throws, and then
        nothing is registered. */
    method RegisterCode(code: string, item: Value) returns (ok: bool)
      modifies this
      ensures ok == !throws(code, item)
      ensures registered == old(registered) + (if ok then [(code, item)] else [])
    {
      ok := !throws(code, item);
      if ok {
        registered := registered + [(code, item)];
      }
    }
  }

  class ExceptionLoader {
    const container: Injection.Container

    /** `new ExceptionLoader(container)` */
    constructor (container: Injection.Container)
      ensures this.container == container
    {
      this.container := container;
    }

    /** `load(item)`. `handler` is what `container.get(ExceptionHandler)` yields on
        this call (None: it throws), and `loadMetaFile` the parsed code map's entries
        (None: parsing throws).
        - No handler: `load` rejects, since the lookup is outside the `try`.
        - Parse failure: warned and swallowed; nothing registered, `undefined` returned.
        - Otherwise each entry is registered in entry order; if `registerCode` throws,
          the entries before it stay registered and `undefined` is returned; if none
          throws, the code map is returned. */
    method Load(item: ManifestItem, handler: Option<ExceptionHandler>,
                loadMetaFile: string -> Option<CodeEntries>) returns (r: Result<Option<CodeEntries>, LoadRejection>)
      modifies if handler.Some? then {handler.value} else {}
      ensures handler.None? ==> r == Err(HandlerMissing)
      ensures handler.Some? && loadMetaFile(item.path).None? ==>
        r == Ok(None) && handler.value.registered == old(handler.value.registered)
      ensures handler.Some? && loadMetaFile(item.path).Some? ==>
        var codeMap := loadMetaFile(item.path).value;
        var n := AcceptedPrefix(codeMap, handler.value.throws);
        && handler.value.registered == old(handler.value.registered) + codeMap[..n]
        && r == (if n == |codeMap| then Ok(Some(codeMap)) else Ok(None))
    {
      if handler.None? {
        return Err(HandlerMissing);
      }
      var exceptionHandler := handler.value;
      var parsed := loadMetaFile(item.path);
      if parsed.None? {
        // parsing failed: warned and swallowed
        return Ok(None);
      }
      var codeMap := parsed.value;
      var i := 0;
      while i < |codeMap|
        invariant i <= AcceptedPrefix(codeMap, exceptionHandler.throws)
        invariant exceptionHandler.registered == old(exceptionHandler.registered) + codeMap[..i]
      {
        var (errCode, exceptionItem) := codeMap[i];
        var ok := exceptionHandler.RegisterCode(errCode, exceptionItem);
        if !ok {
          // registerCode threw: warned and swallowed
          return Ok(None);
        }
        assert codeMap[..i + 1] == codeMap[..i] + [(errCode, exceptionItem)];
        i := i + 1;
      }
      assert codeMap[..i] == codeMap;
      return Ok(Some(codeMap));
    }
  }
}
