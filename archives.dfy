/**
 * The collaborators a JarLoader works with, as values: the ZIP archive (entries in
 * enumeration order, plus what the manifest's main section parses to), the package
 * attributes, the resources it hands out, the in-memory preload of JarMemoryLoader
 * and the per-loader index data of ClasspathCache.LoaderData.
 *
 * ZIP decoding, manifest parsing and JarMemoryLoader's own size policy are not part of
 * this model: an archive carries their outcomes directly.
 */
module Archives {
  import opened Wrappers

  newtype byte = x: int | 0 <= x < 256

  /** Resource.Attribute: the six package attributes a resource can carry. */
  datatype Attribute = SpecTitle | SpecVersion | SpecVendor | ImplTitle | ImplVersion | ImplVendor

  /** The manifest entry looked up by getAttributes (JarFile.MANIFEST_NAME). */
  const ManifestName: string := "META-INF/MANIFEST.MF"

  /** The main-section header that feeds each attribute (java.util.jar.Attributes.Name). */
  function HeaderName(a: Attribute): string
  {
    match a
    case SpecTitle => "Specification-Title"
    case SpecVersion => "Specification-Version"
    case SpecVendor => "Specification-Vendor"
    case ImplTitle => "Implementation-Title"
    case ImplVersion => "Implementation-Version"
    case ImplVendor => "Implementation-Vendor"
  }

  /** PACKAGE_FIELDS, in the order getAttributes walks them. */
  const PackageFields: seq<(Attribute, string)> := [
    (SpecTitle, "Specification-Title"),
    (SpecVersion, "Specification-Version"),
    (SpecVendor, "Specification-Vendor"),
    (ImplTitle, "Implementation-Title"),
    (ImplVersion, "Implementation-Version"),
    (ImplVendor, "Implementation-Vendor")]

  /** The position of an attribute in PACKAGE_FIELDS. */
  function FieldIndex(a: Attribute): (j: nat)
    ensures j < |PackageFields| && PackageFields[j].0 == a
  {
    match a
    case SpecTitle => 0
    case SpecVersion => 1
    case SpecVendor => 2
    case ImplTitle => 3
    case ImplVersion => 4
    case ImplVendor => 5
  }

  /** PACKAGE_FIELDS pairs every attribute with its own header name, once. */
  lemma PackageFieldsWellFormed()
    ensures forall j | 0 <= j < |PackageFields| :: PackageFields[j].1 == HeaderName(PackageFields[j].0)
    ensures forall j | 0 <= j < |PackageFields| :: FieldIndex(PackageFields[j].0) == j
  {
  }

  /** An I/O failure (an IOException in the source). */
  datatype IoError = CannotOpen(path: string) | ReadFailed(entry: string) | BadManifest

  /** A ZIP entry; `data` is None when reading its bytes fails. */
  datatype Entry = Entry(name: string, data: Option<seq<byte>>)

  /**
   * An archive as a ZipFile sees it: its entries in enumeration order; the main
   * attributes of its manifest (None when the manifest cannot be read or parsed; only
   * consulted when an entry named ManifestName exists); and whether JarMemoryLoader
   * accepts it for preloading.
   */
  datatype Archive = Archive(entries: seq<Entry>, manifest: Option<map<string, string>>, preloadable: bool)

  /** ZipFile.getEntry: the first entry with the given name, if any. */
  function FindEntry(entries: seq<Entry>, name: string): (r: Option<Entry>)
    ensures r.None? <==> forall i | 0 <= i < |entries| :: entries[i].name != name
    ensures r.Some? ==> r.value.name == name && r.value in entries
  {
    if |entries| == 0 then None
    else if entries[0].name == name then Some(entries[0])
    else FindEntry(entries[1..], name)
  }

  /** The names of the entries, in enumeration order. */
  function EntryNames(entries: seq<Entry>): (names: seq<string>)
    ensures |names| == |entries|
    ensures forall i | 0 <= i < |entries| :: names[i] == entries[i].name
  {
    seq(|entries|, i requires 0 <= i < |entries| => entries[i].name)
  }

  /** A resolved resource: the loader's base URL, the entry name, the bytes and the package attributes. */
  datatype Resource = Resource(baseUrl: string, name: string, bytes: seq<byte>, attributes: Option<map<Attribute, string>>)

  /** MemoryResource.load: reads the entry's bytes; None when the read fails. */
  function LoadResource(baseUrl: string, entry: Entry, attributes: Option<map<Attribute, string>>): (r: Option<Resource>)
    ensures r.None? <==> entry.data.None?
    ensures r.Some? ==> r.value == Resource(baseUrl, entry.name, entry.data.value, attributes)
  {
    match entry.data
    case None => None
    case Some(bytes) => Some(Resource(baseUrl, entry.name, bytes, attributes))
  }

  /** JarMemoryLoader: every entry's resource, already read into memory. */
  datatype MemoryLoader = MemoryLoader(resources: map<string, Resource>)

  predicate Readable(entries: seq<Entry>)
  {
    forall i | 0 <= i < |entries| :: entries[i].data.Some?
  }

  /**
   * The name-to-resource mapping of a preloaded archive. Where two entries share a name
   * the first one wins, as for FindEntry.
   */
  function {:induction false} PreloadedResources(entries: seq<Entry>, baseUrl: string, attributes: Option<map<Attribute, string>>): (m: map<string, Resource>)
    requires Readable(entries)
    ensures forall i | 0 <= i < |entries| :: entries[i].name in m
    ensures forall k | k in m ::
              && FindEntry(entries, k).Some?
              && Some(m[k]) == LoadResource(baseUrl, FindEntry(entries, k).value, attributes)
  {
    if |entries| == 0 then map[]
    else
      var rest := PreloadedResources(entries[1..], baseUrl, attributes);
      assert forall i | 1 <= i < |entries| :: entries[1..][i - 1] == entries[i];
      rest[entries[0].name := Resource(baseUrl, entries[0].name, entries[0].data.value, attributes)]
  }

  /** The name of the first entry whose bytes cannot be read. */
  function FirstUnreadable(entries: seq<Entry>): string
    requires !Readable(entries)
  {
    if entries[0].data.None? then entries[0].name
    else
      assert forall i | 1 <= i < |entries| :: entries[1..][i - 1] == entries[i];
      FirstUnreadable(entries[1..])
  }

  /**
   * JarMemoryLoader.load: None when the archive is not accepted for preloading, an error
   * when some entry cannot be read, otherwise every entry in memory.
   */
  function Preload(archive: Archive, baseUrl: string, attributes: Option<map<Attribute, string>>): (r: Result<Option<MemoryLoader>, IoError>)
    ensures !archive.preloadable ==> r == Success(None)
    ensures archive.preloadable && !Readable(archive.entries) ==> r.Failure?
    ensures archive.preloadable && Readable(archive.entries) ==>
      r == Success(Some(MemoryLoader(PreloadedResources(archive.entries, baseUrl, attributes))))
  {
    if !archive.preloadable then Success(None)
    else if !Readable(archive.entries) then
      Failure(ReadFailed(FirstUnreadable(archive.entries)))
    else Success(Some(MemoryLoader(PreloadedResources(archive.entries, baseUrl, attributes))))
  }

  /** JarMemoryLoader.getResource: a pure map lookup. */
  function MemoryLookup(loader: MemoryLoader, name: string): (r: Option<Resource>)
    ensures r.Some? <==> name in loader.resources
    ensures r.Some? ==> r.value == loader.resources[name]
  {
    if name in loader.resources then Some(loader.resources[name]) else None
  }

  /** Every resource of the memory loader carries the given base URL and attributes. */
  ghost predicate Stamped(loader: MemoryLoader, baseUrl: string, attributes: Option<map<Attribute, string>>)
  {
    forall k | k in loader.resources :: loader.resources[k].baseUrl == baseUrl && loader.resources[k].attributes == attributes
  }

  lemma PreloadStampsResources(archive: Archive, baseUrl: string, attributes: Option<map<Attribute, string>>)
    requires Preload(archive, baseUrl, attributes).Success?
    requires Preload(archive, baseUrl, attributes).value.Some?
    ensures Stamped(Preload(archive, baseUrl, attributes).value.value, baseUrl, attributes)
  {
  }

  /**
   * ClasspathCache.LoaderData as the model sees it: the names passed to
   * addResourceEntry and to addNameEntry, in call order. How ClasspathCache hashes them
   * is not part of this model.
   */
  datatype LoaderData = LoaderData(resourceEntries: seq<string>, nameEntries: seq<string>)
  {
    function AddResourceEntry(name: string): (d: LoaderData)
      ensures d.resourceEntries == resourceEntries + [name] && d.nameEntries == nameEntries
    {
      this.(resourceEntries := resourceEntries + [name])
    }

    function AddNameEntry(name: string): (d: LoaderData)
      ensures d.nameEntries == nameEntries + [name] && d.resourceEntries == resourceEntries
    {
      this.(nameEntries := nameEntries + [name])
    }
  }
}
