/** The context store kept in `.vscode/project-contexts.json`
    (src/services/fileStorageService.ts).  The JSON file is abstracted to what a
    read of it yields; every write rewrites the whole file, and whether that
    write fails is an input of the operation. */
module Storage {
  import opened Types

  /** What reading and parsing the file yields. */
  datatype FileState =
    | Missing                                          // no file on disk yet
    | Unreadable                                       // the read or JSON.parse throws
    | WithoutContexts                                  // parses, but has no `contexts` object
    | Stored(contexts: map<string, ProjectContext>)    // `{ "contexts": { id: context, ... } }`

  /** The wrapped error a failed write raises. */
  datatype StorageError = SaveFailed | DeleteFailed | ClearFailed

  datatype Outcome = Pass | Fail(error: StorageError)

  /** The dictionary a read of `f` yields, with every failure read as `{}`. */
  function ReadContexts(f: FileState): map<string, ProjectContext>
  {
    if f.Stored? then f.contexts else map[]
  }

  /** One read of the file.  `readFails` stands for a read or parse that throws
      on a file whose content is fine (a passing I/O error, a read overlapping
      another window's write); it too yields `{}`. */
  function Read(f: FileState, readFails: bool): (m: map<string, ProjectContext>)
    ensures readFails || !f.Stored? ==> m == map[]
    ensures !readFails && f.Stored? ==> m == f.contexts
  {
    if readFails then map[] else ReadContexts(f)
  }

  /** The file a successful write of `saveContext` leaves. */
  function Upserted(f: FileState, readFails: bool, context: ProjectContext): FileState
  {
    Stored(Read(f, readFails)[context.id := context])
  }

  /** A read that fails on a stored dictionary makes the next save write a
      dictionary holding only the saved context: every other context is lost. */
  lemma FailedReadLosesOthers(m: map<string, ProjectContext>, context: ProjectContext, k: string)
    requires k in m && k != context.id
    ensures k !in Upserted(Stored(m), true, context).contexts
    ensures Upserted(Stored(m), true, context).contexts.Keys == {context.id}
    ensures k in Upserted(Stored(m), false, context).contexts
  {
  }

  class FileStorage {
    var file: FileState

    /** Creates the file with an empty `contexts` map when it does not exist. */
    constructor (onDisk: FileState)
      ensures onDisk.Missing? ==> file == Stored(map[])
      ensures !onDisk.Missing? ==> file == onDisk
    {
      file := if onDisk.Missing? then Stored(map[]) else onDisk;
    }

    /** Never fails: a file that cannot be read or parsed, or that lacks a
        `contexts` object, reads as the empty dictionary. */
    method GetAllContexts(readFails: bool) returns (contexts: map<string, ProjectContext>)
      ensures file.Stored? && !readFails ==> contexts == file.contexts
      ensures !file.Stored? || readFails ==> contexts == map[]
    {
      if readFails {
        return map[];
      }
      match file
      case Stored(m) => contexts := m;
      case _ => contexts := map[];
    }

    /** Read-modify-write upsert of `context` under its id. */
    method SaveContext(context: ProjectContext, readFails: bool, writeFails: bool) returns (outcome: Outcome)
      modifies this
      ensures outcome == if writeFails then Fail(SaveFailed) else Pass
      ensures writeFails ==> file == old(file)
      ensures !writeFails ==> file == Upserted(old(file), readFails, context)
      ensures !writeFails ==> context.id in file.contexts && file.contexts[context.id] == context
      ensures !writeFails ==> forall id :: id != context.id ==>
                (id in file.contexts <==> id in Read(old(file), readFails)) &&
                (id in file.contexts ==> file.contexts[id] == Read(old(file), readFails)[id])
      ensures !writeFails && (readFails || !old(file).Stored?) ==> file.contexts == map[context.id := context]
    {
      var contexts := GetAllContexts(readFails);
      contexts := contexts[context.id := context];
      if writeFails {
        outcome := Fail(SaveFailed);
      } else {
        file := Stored(contexts);
        outcome := Pass;
      }
    }

    /** Read-modify-write removal of `id`; removing an absent id rewrites the
        same dictionary. */
    method DeleteContext(id: string, readFails: bool, writeFails: bool) returns (outcome: Outcome)
      modifies this
      ensures outcome == if writeFails then Fail(DeleteFailed) else Pass
      ensures writeFails ==> file == old(file)
      ensures !writeFails ==> file == Stored(Read(old(file), readFails) - {id})
      ensures !writeFails ==> id !in file.contexts
      ensures !writeFails ==> forall k :: k != id ==>
                (k in file.contexts <==> k in Read(old(file), readFails)) &&
                (k in file.contexts ==> file.contexts[k] == Read(old(file), readFails)[k])
      ensures !writeFails && id !in Read(old(file), readFails) ==> file == Stored(Read(old(file), readFails))
      ensures !writeFails && (readFails || !old(file).Stored?) ==> file == Stored(map[])
    {
      var contexts := GetAllContexts(readFails);
      contexts := contexts - {id};
      if writeFails {
        outcome := Fail(DeleteFailed);
      } else {
        file := Stored(contexts);
        outcome := Pass;
      }
    }

    /** Rewrites the file with an empty `contexts` object, without reading it. */
    method ClearAllContexts(writeFails: bool) returns (outcome: Outcome)
      modifies this
      ensures outcome == if writeFails then Fail(ClearFailed) else Pass
      ensures writeFails ==> file == old(file)
      ensures !writeFails ==> file == Stored(map[])
    {
      if writeFails {
        outcome := Fail(ClearFailed);
      } else {
        file := Stored(map[]);
        outcome := Pass;
      }
    }
  }
}
