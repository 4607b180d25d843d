/**
 * JarLoader: one classpath root backed by a JAR archive. It reads the package
 * attributes once from the manifest, optionally preloads the whole archive into memory,
 * resolves names to resources (memory first, then the archive, any failure logged and
 * turned into "not found"), builds the name index, and manages its ZipFile handles:
 * with myCanLockJar one cached handle is reused until it is reclaimed, otherwise every
 * operation opens its own handle and closes it before returning.
 */
module JarLoading {
  import opened Wrappers
  import opened Archives
  import opened Host

  /** Every attribute kind, for building the attribute map. */
  const AllAttributes: set<Attribute> := {SpecTitle, SpecVersion, SpecVendor, ImplTitle, ImplVersion, ImplVendor}

  /**
   * What getAttributes yields for an archive: nothing without a manifest entry, an
   * error when the manifest cannot be read, nothing when none of the six headers is in
   * its main section, and otherwise exactly the headers present, each under its
   * attribute.
   */
  function PackageAttributes(archive: Archive): Result<Option<map<Attribute, string>>, IoError>
  {
    if FindEntry(archive.entries, ManifestName).None? then Success(None)
    else if archive.manifest.None? then Failure(BadManifest)
    else
      var main := archive.manifest.value;
      if forall a: Attribute :: HeaderName(a) !in main then Success(None)
      else Success(Some(map a | a in AllAttributes && HeaderName(a) in main :: main[HeaderName(a)]))
  }

  /** The attribute map holds exactly the attributes whose header the manifest has, with its value. */
  lemma PackageAttributesExact(archive: Archive, a: Attribute)
    requires PackageAttributes(archive).Success? && PackageAttributes(archive).value.Some?
    ensures archive.manifest.Some?
    ensures a in PackageAttributes(archive).value.value <==> HeaderName(a) in archive.manifest.value
    ensures a in PackageAttributes(archive).value.value ==>
      PackageAttributes(archive).value.value[a] == archive.manifest.value[HeaderName(a)]
  {
    AttributeListed(a);
  }

  lemma AttributeListed(a: Attribute)
    ensures a in AllAttributes
  {
    match a
    case SpecTitle =>
    case SpecVersion =>
    case SpecVendor =>
    case ImplTitle =>
    case ImplVersion =>
    case ImplVendor =>
  }

  /** The message getResource logs when a lookup fails. */
  function FailureMessage(canonicalFile: Path): string
  {
    "file: " + canonicalFile
  }

  predicate MemoryHit(memory: Option<MemoryLoader>, name: string)
  {
    memory.Some? && name in memory.value.resources
  }

  /** The archive half of getResource: no archive or no entry gives null, as does an unreadable entry. */
  function ArchiveLookup(archive: Option<Archive>, name: string, baseUrl: string, attributes: Option<map<Attribute, string>>): Option<Resource>
  {
    match archive
    case None => None
    case Some(a) =>
      match FindEntry(a.entries, name)
      case None => None
      case Some(entry) => LoadResource(baseUrl, entry, attributes)
  }

  /** The archive half of getResource throws (and logs): the archive cannot be opened, or the entry cannot be read. */
  predicate ArchiveLookupThrows(archive: Option<Archive>, name: string)
  {
    match archive
    case None => true
    case Some(a) => FindEntry(a.entries, name).Some? && FindEntry(a.entries, name).value.data.None?
  }

  /** Resolution order of getResource: the preloaded memory loader first, then the archive. */
  function Resolve(memory: Option<MemoryLoader>, archive: Option<Archive>, name: string, baseUrl: string,
                   attributes: Option<map<Attribute, string>>): Option<Resource>
  {
    if MemoryHit(memory, name) then MemoryLookup(memory.value, name)
    else ArchiveLookup(archive, name, baseUrl, attributes)
  }

  /** A name the memory loader lacks and the archive has no entry for resolves to null. */
  lemma ResolveMissing(memory: Option<MemoryLoader>, archive: Archive, name: string, baseUrl: string,
                       attributes: Option<map<Attribute, string>>)
    requires !MemoryHit(memory, name)
    requires forall i | 0 <= i < |archive.entries| :: archive.entries[i].name != name
    ensures Resolve(memory, Some(archive), name, baseUrl, attributes) == None
  {
  }

  /** A memory-loader miss falls through to the archive, whose entry yields the resource with the loader's attributes. */
  lemma ResolveFromArchive(memory: Option<MemoryLoader>, archive: Archive, name: string, baseUrl: string,
                           attributes: Option<map<Attribute, string>>, k: nat)
    requires !MemoryHit(memory, name)
    requires k < |archive.entries| && archive.entries[k].name == name && archive.entries[k].data.Some?
    requires forall i | 0 <= i < k :: archive.entries[i].name != name
    ensures Resolve(memory, Some(archive), name, baseUrl, attributes)
      == Some(Resource(baseUrl, name, archive.entries[k].data.value, attributes))
  {
    assert archive.entries[k..][0] == archive.entries[k];
    FindFirst(archive.entries, name, k);
  }

  lemma {:induction false} FindFirst(entries: seq<Entry>, name: string, k: nat)
    requires k < |entries| && entries[k].name == name
    requires forall i | 0 <= i < k :: entries[i].name != name
    ensures FindEntry(entries, name) == Some(entries[k])
  {
    if k > 0 {
      assert forall i | 0 <= i < k - 1 :: entries[1..][i] == entries[i + 1];
      FindFirst(entries[1..], name, k - 1);
    }
  }

  /** A memory-loader hit does not depend on the archive at all: preloaded bytes are detached from the file. */
  lemma ResolvePreloadedDetached(memory: Option<MemoryLoader>, archive1: Option<Archive>, archive2: Option<Archive>,
                                 name: string, baseUrl: string, attributes: Option<map<Attribute, string>>)
    requires MemoryHit(memory, name)
    ensures Resolve(memory, archive1, name, baseUrl, attributes) == Resolve(memory, archive2, name, baseUrl, attributes)
    ensures Resolve(memory, archive1, name, baseUrl, attributes) == Some(memory.value.resources[name])
  {
  }

  /** Whatever getResource resolves carries the loader's base URL and attribute map. */
  lemma ResolveStamped(memory: Option<MemoryLoader>, archive: Option<Archive>, name: string, baseUrl: string,
                       attributes: Option<map<Attribute, string>>)
    requires memory.Some? ==> Stamped(memory.value, baseUrl, attributes)
    ensures Resolve(memory, archive, name, baseUrl, attributes).Some? ==>
      Resolve(memory, archive, name, baseUrl, attributes).value.baseUrl == baseUrl
      && Resolve(memory, archive, name, baseUrl, attributes).value.attributes == attributes
  {
  }

  class JarLoader {
    /** Loader's base URL: "jar:" + url + "!/". */
    const baseUrl: string
    /** Loader's position in the classpath. */
    const index: int
    const canonicalFile: Path
    /** true when the archive will not change while this loader lives, so a handle may be kept. */
    const canLockJar: bool
    const platform: Platform
    /** myAttributes: fixed by the constructor. */
    var attributes: Option<map<Attribute, string>>
    /** myMemoryLoader, None once reclaimed or when there is no preload. */
    var memoryLoader: Option<MemoryLoader>
    /** myZipFileSoftReference, None once reclaimed; only ever set when canLockJar. */
    var cachedZip: Option<ZipHandle>

    ghost predicate Valid()
      reads this, platform
    {
      && platform.Valid()
      && (cachedZip.Some? ==> canLockJar && cachedZip.value.id in platform.openHandles)
      && (memoryLoader.Some? ==> Stamped(memoryLoader.value, baseUrl, attributes))
    }

    /** The archive the next lookup reads: the cached handle's if there is one, else the file on disk. */
    ghost function VisibleArchive(): Option<Archive>
      reads this, platform
    {
      if cachedZip.Some? then Some(cachedZip.value.archive)
      else if canonicalFile in platform.files then Some(platform.files[canonicalFile])
      else None
    }

    /** The part of the constructor before the archive is opened: Loader's fields. */
    constructor Init(url: string, canonicalFile: Path, canLockJar: bool, index: int, platform: Platform)
      requires platform.Valid()
      ensures Valid()
      ensures baseUrl == "jar:" + url + "!/" && this.index == index
      ensures this.canonicalFile == canonicalFile && this.canLockJar == canLockJar && this.platform == platform
      ensures attributes.None? && memoryLoader.None? && cachedZip.None?
    {
      baseUrl := "jar:" + url + "!/";
      this.index := index;
      this.canonicalFile := canonicalFile;
      this.canLockJar := canLockJar;
      this.platform := platform;
      attributes := None;
      memoryLoader := None;
      cachedZip := None;
    }

    /**
     * The constructor. It obtains one handle, reads the package attributes, preloads the
     * archive when asked to and JarMemoryLoader accepts it, and always releases the
     * handle; a failure to open or read propagates.
     */
    static method Create(url: string, canonicalFile: Path, canLockJar: bool, index: int, preloadJarContents: bool,
                         platform: Platform) returns (r: Result<JarLoader, IoError>)
      requires platform.Valid()
      modifies platform`openHandles, platform`openCount
      ensures platform.Valid()
      ensures canonicalFile !in platform.files ==>
        r == Failure(CannotOpen(canonicalFile)) && platform.openHandles == old(platform.openHandles) && platform.openCount == old(platform.openCount)
      ensures canonicalFile in platform.files ==>
        && platform.openCount == old(platform.openCount) + 1
        && platform.openHandles == old(platform.openHandles) + (if canLockJar then {old(platform.openCount)} else {})
      ensures canonicalFile in platform.files ==>
        var archive := platform.files[canonicalFile];
        var attrs := PackageAttributes(archive);
        && (r.Success? <==> attrs.Success? && (preloadJarContents ==> Preload(archive, "jar:" + url + "!/", attrs.value).Success?))
        && (r.Success? ==>
              var memory := Preload(archive, "jar:" + url + "!/", attrs.value);
              && fresh(r.value) && r.value.Valid()
              && r.value.baseUrl == "jar:" + url + "!/" && r.value.index == index
              && r.value.canonicalFile == canonicalFile && r.value.canLockJar == canLockJar && r.value.platform == platform
              && r.value.attributes == attrs.value
              && r.value.memoryLoader == (if preloadJarContents then memory.value else None)
              && r.value.cachedZip == (if canLockJar then Some(ZipHandle(old(platform.openCount), archive)) else None))
    {
      var loader := new JarLoader.Init(url, canonicalFile, canLockJar, index, platform);
      var z := loader.GetZipFile();
      if z.Failure? {
        return Failure(z.error);
      }
      var zipFile := z.value;
      var attrs := GetAttributes(zipFile);
      if attrs.Failure? {
        loader.ReleaseZipFile(zipFile);
        return Failure(attrs.error);
      }
      loader.attributes := attrs.value;
      if preloadJarContents {
        var memory := Preload(zipFile.archive, loader.baseUrl, loader.attributes);
        if memory.Failure? {
          loader.ReleaseZipFile(zipFile);
          return Failure(memory.error);
        }
        if memory.value.Some? {
          PreloadStampsResources(zipFile.archive, loader.baseUrl, loader.attributes);
          loader.memoryLoader := memory.value;
        }
      }
      loader.ReleaseZipFile(zipFile);
      return Success(loader);
    }

    /**
     * getAttributes: walks PACKAGE_FIELDS over the manifest's main section, creating the
     * map on the first header found.
     */
    static method GetAttributes(zipFile: ZipHandle) returns (r: Result<Option<map<Attribute, string>>, IoError>)
      ensures r == PackageAttributes(zipFile.archive)
    {
      var entry := FindEntry(zipFile.archive.entries, ManifestName);
      if entry.None? {
        return Success(None);
      }
      if zipFile.archive.manifest.None? {
        return Failure(BadManifest);
      }
      var main := zipFile.archive.manifest.value;
      PackageFieldsWellFormed();
      var found: Option<map<Attribute, string>> := None;
      for i := 0 to |PackageFields|
        invariant found.None? <==> forall j | 0 <= j < i :: PackageFields[j].1 !in main
        invariant found.Some? ==> forall a: Attribute :: a in found.value <==> FieldIndex(a) < i && HeaderName(a) in main
        invariant found.Some? ==> forall a | a in found.value :: found.value[a] == main[HeaderName(a)]
      {
        var (attribute, header) := PackageFields[i];
        if header in main {
          if found.None? {
            found := Some(map[]);
          }
          found := Some(found.value[attribute := main[header]]);
        }
      }
      if found.None? {
        assert forall a: Attribute :: HeaderName(a) !in main by {
          forall a: Attribute ensures HeaderName(a) !in main {
            assert PackageFields[FieldIndex(a)].1 == HeaderName(a);
          }
        }
      } else {
        var expected := map a | a in AllAttributes && HeaderName(a) in main :: main[HeaderName(a)];
        forall a: Attribute ensures a in AllAttributes {
          AttributeListed(a);
        }
        assert found.value.Keys == expected.Keys;
        assert found.value == expected;
        var a :| a in found.value;
        assert HeaderName(a) in main;
        assert !(forall b: Attribute :: HeaderName(b) !in main);
        assert PackageAttributes(zipFile.archive) == Success(Some(expected));
      }
      return Success(found);
    }

    /**
     * getZipFile: with canLockJar, the cached handle when it is live, otherwise a new
     * handle that becomes the cache; without canLockJar, always a new handle.
     */
    method GetZipFile() returns (r: Result<ZipHandle, IoError>)
      requires Valid()
      modifies this`cachedZip, platform`openHandles, platform`openCount
      ensures Valid()
      ensures r.Success? <==> old(VisibleArchive()).Some?
      ensures r.Success? ==> r.value.archive == old(VisibleArchive()).value && r.value.id in platform.openHandles
      ensures r.Failure? ==>
        && r.error == CannotOpen(canonicalFile)
        && cachedZip == old(cachedZip) && platform.openHandles == old(platform.openHandles) && platform.openCount == old(platform.openCount)
      ensures old(cachedZip).Some? ==>
        && r == Success(old(cachedZip).value)
        && cachedZip == old(cachedZip) && platform.openHandles == old(platform.openHandles) && platform.openCount == old(platform.openCount)
      ensures old(cachedZip).None? && r.Success? ==>
        && r.value.id == old(platform.openCount) && platform.openCount == old(platform.openCount) + 1
        && platform.openHandles == old(platform.openHandles) + {r.value.id}
        && cachedZip == (if canLockJar then Some(r.value) else None)
    {
      if canLockJar {
        if cachedZip.Some? {
          return Success(cachedZip.value);
        }
        r := platform.OpenZip(canonicalFile);
        if r.Success? {
          cachedZip := Some(r.value);
        }
      } else {
        r := platform.OpenZip(canonicalFile);
      }
    }

    /** releaseZipFile: closes the handle unless canLockJar, when closing is left to the handle's finalizer. */
    method ReleaseZipFile(zipFile: ZipHandle)
      requires Valid()
      modifies platform`openHandles
      ensures Valid()
      ensures canLockJar ==> platform.openHandles == old(platform.openHandles)
      ensures !canLockJar ==> platform.openHandles == old(platform.openHandles) - {zipFile.id}
    {
      if !canLockJar {
        platform.Close(zipFile);
      }
    }

    /** error: hands the message to Logger. */
    method Error(message: string)
      modifies platform`log
      ensures platform.log == old(platform.log) + [message]
    {
      platform.LogError(message);
    }

    /**
     * getResource: the memory loader first; on a miss the archive, through the handle
     * policy; any failure logged with the canonical path and answered with null.
     */
    method GetResource(name: string) returns (r: Option<Resource>)
      requires Valid()
      modifies this`cachedZip, platform`openHandles, platform`openCount, platform`log
      ensures Valid()
      ensures r == Resolve(memoryLoader, old(VisibleArchive()), name, baseUrl, attributes)
      ensures r.Some? ==> r.value.baseUrl == baseUrl && r.value.attributes == attributes
      ensures platform.log == old(platform.log)
        + (if !MemoryHit(memoryLoader, name) && ArchiveLookupThrows(old(VisibleArchive()), name)
           then [FailureMessage(canonicalFile)] else [])
      // a memory-loader hit touches no handle
      ensures MemoryHit(memoryLoader, name) ==>
        && cachedZip == old(cachedZip)
        && platform.openHandles == old(platform.openHandles) && platform.openCount == old(platform.openCount)
      // handle policy
      ensures !canLockJar ==> platform.openHandles == old(platform.openHandles)
      ensures canLockJar ==> old(platform.openHandles) <= platform.openHandles
      ensures old(cachedZip).Some? ==> cachedZip == old(cachedZip) && platform.openCount == old(platform.openCount)
      ensures platform.openCount == old(platform.openCount)
        || (platform.openCount == old(platform.openCount) + 1 && (canLockJar ==> cachedZip.Some?))
    {
      ResolveStamped(memoryLoader, old(VisibleArchive()), name, baseUrl, attributes);
      if memoryLoader.Some? {
        var resource := MemoryLookup(memoryLoader.value, name);
        if resource.Some? {
          return resource;
        }
      }
      var z := GetZipFile();
      if z.Failure? {
        Error(FailureMessage(canonicalFile));
        return None;
      }
      var zipFile := z.value;
      var entry := FindEntry(zipFile.archive.entries, name);
      if entry.None? {
        ReleaseZipFile(zipFile);
        return None;
      }
      var loaded := LoadResource(baseUrl, entry.value, attributes);
      ReleaseZipFile(zipFile);
      if loaded.None? {
        Error(FailureMessage(canonicalFile));
      }
      return loaded;
    }

    /**
     * buildData: every entry name, in enumeration order, goes to both addResourceEntry
     * and addNameEntry; the handle is released afterwards under the same policy as a
     * lookup. A failure to open propagates.
     */
    method BuildData() returns (r: Result<LoaderData, IoError>)
      requires Valid()
      modifies this`cachedZip, platform`openHandles, platform`openCount
      ensures Valid()
      ensures old(VisibleArchive()).None? ==> r == Failure(CannotOpen(canonicalFile))
      ensures old(VisibleArchive()).Some? ==>
        var names := EntryNames(old(VisibleArchive()).value.entries);
        r == Success(LoaderData(names, names))
      ensures !canLockJar ==> platform.openHandles == old(platform.openHandles)
      ensures canLockJar ==> old(platform.openHandles) <= platform.openHandles
      ensures old(cachedZip).Some? ==> cachedZip == old(cachedZip) && platform.openCount == old(platform.openCount)
      ensures platform.openCount == old(platform.openCount)
        || (platform.openCount == old(platform.openCount) + 1 && (canLockJar ==> cachedZip.Some?))
    {
      var z := GetZipFile();
      if z.Failure? {
        return Failure(z.error);
      }
      var zipFile := z.value;
      var entries := zipFile.archive.entries;
      var loaderData := LoaderData([], []);
      var i := 0;
      while i < |entries|
        invariant 0 <= i <= |entries|
        invariant |loaderData.resourceEntries| == i && |loaderData.nameEntries| == i
        invariant forall j | 0 <= j < i :: loaderData.resourceEntries[j] == entries[j].name
        invariant forall j | 0 <= j < i :: loaderData.nameEntries[j] == entries[j].name
      {
        var name := entries[i].name;
        loaderData := loaderData.AddResourceEntry(name);
        loaderData := loaderData.AddNameEntry(name);
        i := i + 1;
      }
      ReleaseZipFile(zipFile);
      assert loaderData.resourceEntries == EntryNames(entries);
      assert loaderData.nameEntries == EntryNames(entries);
      return Success(loaderData);
    }

    /** The garbage collector clears the handle's soft reference; the handle's finalizer then closes it. */
    method ReclaimZipFile()
      requires Valid()
      modifies this`cachedZip, platform`openHandles
      ensures Valid() && cachedZip.None?
      ensures platform.openHandles == old(platform.openHandles) - (if old(cachedZip).Some? then {old(cachedZip).value.id} else {})
    {
      if cachedZip.Some? {
        platform.Close(cachedZip.value);
        cachedZip := None;
      }
    }

    /** The garbage collector clears the memory loader's soft reference. */
    method ReclaimMemoryLoader()
      requires Valid()
      modifies this`memoryLoader
      ensures Valid() && memoryLoader.None?
    {
      memoryLoader := None;
    }
  }

  /**
   * A run of lookups with nothing reclaimed in between. With canLockJar at most one
   * handle is opened over the whole run (none when one is cached already, and then every
   * lookup reads the cached archive); without it no handle is left open.
   */
  method ResolveAll(loader: JarLoader, names: seq<string>) returns (found: seq<Option<Resource>>)
    requires loader.Valid()
    modifies loader`cachedZip, loader.platform`openHandles, loader.platform`openCount, loader.platform`log
    ensures loader.Valid()
    ensures |found| == |names|
    ensures loader.canLockJar ==> loader.platform.openCount <= old(loader.platform.openCount) + 1
    ensures loader.canLockJar ==> old(loader.platform.openHandles) <= loader.platform.openHandles
    ensures old(loader.cachedZip).Some? ==>
      && loader.cachedZip == old(loader.cachedZip) && loader.platform.openCount == old(loader.platform.openCount)
      && forall i | 0 <= i < |names| :: found[i] == Resolve(loader.memoryLoader, Some(old(loader.cachedZip).value.archive),
                                                            names[i], loader.baseUrl, loader.attributes)
    ensures !loader.canLockJar ==> loader.platform.openHandles == old(loader.platform.openHandles)
  {
    found := [];
    for i := 0 to |names|
      invariant loader.Valid()
      invariant |found| == i
      invariant loader.canLockJar ==> old(loader.platform.openHandles) <= loader.platform.openHandles
      invariant loader.canLockJar ==>
        || loader.platform.openCount == old(loader.platform.openCount)
        || (loader.platform.openCount == old(loader.platform.openCount) + 1 && loader.cachedZip.Some?)
      invariant old(loader.cachedZip).Some? ==>
        && loader.cachedZip == old(loader.cachedZip) && loader.platform.openCount == old(loader.platform.openCount)
        && forall j | 0 <= j < i :: found[j] == Resolve(loader.memoryLoader, Some(old(loader.cachedZip).value.archive),
                                                        names[j], loader.baseUrl, loader.attributes)
      invariant !loader.canLockJar ==> loader.platform.openHandles == old(loader.platform.openHandles)
    {
      var r := loader.GetResource(names[i]);
      found := found + [r];
    }
  }
}
