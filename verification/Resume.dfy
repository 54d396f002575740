/** The client's memory of unfinished uploads: a map, and the file it is written to after each change. */
module Resume {
  import opened Common

  datatype ResumeEntry = ResumeEntry(location: string, offset: nat)

  type Snapshot = map<string, ResumeEntry>

  class ResumeStore {
    /** Which writes of the file fail. */
    const disk: nat -> bool
    var writes: nat
    var uploads: Snapshot
    var file: Snapshot
    /** Every value the map has had. */
    ghost var past: set<Snapshot>

    ghost predicate Valid()
      reads this
    {
      uploads in past && file in past
    }

    /** `at`: what the file says, or nothing if there is none. */
    constructor (disk: nat -> bool, saved: Option<Snapshot>)
      ensures Valid()
      ensures uploads == if saved.Some? then saved.value else map[]
    {
      this.disk := disk;
      writes := 0;
      uploads := if saved.Some? then saved.value else map[];
      file := if saved.Some? then saved.value else map[];
      past := {if saved.Some? then saved.value else map[]};
    }

    method Get(key: string) returns (entry: Option<ResumeEntry>)
      ensures entry == if key in uploads then Some(uploads[key]) else None
    {
      return if key in uploads then Some(uploads[key]) else None;
    }

    /** The map changes at once; the file follows outside the lock, if it can be written. */
    method Set(key: string, entry: ResumeEntry) returns (ok: bool)
      requires Valid()
      modifies this
      ensures Valid() && old(past) <= past
      ensures uploads == old(uploads)[key := entry]
      ensures file == if ok then uploads else old(file)
      ensures ok == !disk(writes)
    {
      uploads := uploads[key := entry];
      past := past + {uploads};
      ok := WriteAtomic(uploads);
    }

    method Remove(key: string) returns (ok: bool)
      requires Valid()
      modifies this
      ensures Valid() && old(past) <= past
      ensures uploads == old(uploads) - {key}
      ensures file == if ok then uploads else old(file)
      ensures ok == !disk(writes)
    {
      uploads := uploads - {key};
      past := past + {uploads};
      ok := WriteAtomic(uploads);
    }

    /**
     `write_atomic`. It runs outside the lock, so another task's snapshot may be written late: any
     past value of the map can land in the file, and no other.
     */
    method WriteAtomic(snapshot: Snapshot) returns (ok: bool)
      requires snapshot in past && Valid()
      modifies this`file, this`writes
      ensures Valid()
      ensures file == if ok then snapshot else old(file)
      ensures ok == !disk(writes)
    {
      writes := writes + 1;
      ok := !disk(writes);
      if ok { file := snapshot; }
    }
  }
}
