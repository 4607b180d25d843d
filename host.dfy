/**
 * What a JarLoader reaches only through calls: the files on disk, the native ZIP
 * handles that are open (ZipFile objects), a count of every handle ever opened, and
 * the error log that Logger writes to.
 */
module Host {
  import opened Wrappers
  import opened Archives

  type Path = string

  /** An open ZipFile: its handle number and the archive as it was when it was opened. */
  datatype ZipHandle = ZipHandle(id: nat, archive: Archive)

  class Platform {
    /** The archives on disk, by canonical path; a missing path cannot be opened. */
    var files: map<Path, Archive>
    /** The handles currently open. */
    var openHandles: set<nat>
    /** How many handles were ever opened; handle numbers are drawn from it. */
    var openCount: nat
    /** The messages passed to Logger.error, oldest first. */
    var log: seq<string>

    ghost predicate Valid()
      reads this
    {
      forall id | id in openHandles :: id < openCount
    }

    constructor (files: map<Path, Archive>)
      ensures Valid()
      ensures this.files == files && openHandles == {} && openCount == 0 && log == []
    {
      this.files := files;
      openHandles := {};
      openCount := 0;
      log := [];
    }

    /** new ZipFile(path): opens a fresh handle, or fails when the file is not there. */
    method OpenZip(path: Path) returns (r: Result<ZipHandle, IoError>)
      requires Valid()
      modifies this`openHandles, this`openCount
      ensures Valid()
      ensures path in files ==>
        && r == Success(ZipHandle(old(openCount), files[path]))
        && openHandles == old(openHandles) + {old(openCount)} && openCount == old(openCount) + 1
      ensures path !in files ==> r == Failure(CannotOpen(path)) && openHandles == old(openHandles) && openCount == old(openCount)
    {
      if path in files {
        r := Success(ZipHandle(openCount, files[path]));
        openHandles := openHandles + {openCount};
        openCount := openCount + 1;
      } else {
        r := Failure(CannotOpen(path));
      }
    }

    /** ZipFile.close. */
    method Close(h: ZipHandle)
      requires Valid()
      modifies this`openHandles
      ensures Valid()
      ensures openHandles == old(openHandles) - {h.id}
    {
      openHandles := openHandles - {h.id};
    }

    /** Logger.error. */
    method LogError(message: string)
      modifies this`log
      ensures log == old(log) + [message]
    {
      log := log + [message];
    }
  }
}
