/** The entities the loader pipeline passes around: manifest items, loader classes,
    loader instances, candidate files and the events the pipeline emits. */
module LoaderTypes {
  import opened Wrappers
  import Injection

  /** The name used when a manifest item or a candidate class names no loader. */
  const DEFAULT_LOADER: string := "module"

  /** An opaque JavaScript value: a load result, a loader state, an exception item. */
  datatype Value = Value(tag: nat)

  /** A manifest item. `loaderState` is the item's `_loaderState`; descriptive fields
      the engine never reads (extname, source) are left out. */
  datatype ManifestItem = ManifestItem(
    path: string,
    loader: Option<string>,
    id: Option<string>,
    filename: string,
    loaderState: Option<Value>)

  /** The options of a loader lookup: the directory and the file name of the candidate. */
  datatype FindOptions = FindOptions(root: string, filename: string)

  /** What reflection reveals about a candidate's default export once it is known to be
      a class: the `loader` field of its HOOK_FILE_LOADER metadata, and whether it is
      marked injectable. */
  datatype ClassInfo = ClassInfo(loaderTag: Option<string>, injectable: bool)

  /** A loader class: its LOADER_NAME_META name, its identity, and its optional static
      `is` and `onFind` capabilities. */
  datatype LoaderClass = LoaderClass(
    name: string,
    ctor: nat,
    staticIs: Option<FindOptions -> bool>,
    onFind: Option<FindOptions -> Value>)

  /** An instance built by `new LoaderClazz(container)`, with its `state` field. */
  datatype LoaderInstance = LoaderInstance(clazz: LoaderClass, container: Injection.Container, state: Option<Value>)

  /** The settled promise of a loader's `load`. */
  datatype LoadResult = Loaded(value: Value) | Rejected(reason: Value)

  /** What the pipeline can throw: `Cannot find loader '<name>'`, or a rejected load. */
  datatype LoaderError = NotFound(name: string) | LoadFailure(reason: Value)

  /** One emit of the loader event emitter. */
  datatype Event =
    | Before(name: string)
    | BeforeEach(name: string, item: ManifestItem)
    | AfterEach(name: string, item: ManifestItem, result: Value)
    | After(name: string)

  /** The result of `findLoader`: `{loaderName, loaderState?}`. */
  datatype FindResult = FindResult(loaderName: string, loaderState: Option<Value>)

  /** JavaScript truthiness of an optional string: present and not empty. */
  predicate Truthy(s: Option<string>)
  {
    s.Some? && s.value != ""
  }
}
