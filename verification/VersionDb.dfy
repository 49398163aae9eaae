/** The rollback database of core/kernel/ree_fs_ta.c: check_update_version admits a TA only if
    its version is not below one admitted before.  Storage may fail at any access. */
module VersionDb {
  import opened Common

  type Uuid = nat

  /** The part of struct shdr_bootstrap_ta that the database looks at. */
  datatype Entry = Entry(uuid: Uuid, version: nat)

  /** The file: its header, which a failed creation may have left unwritten, and the entries
      written behind it, of which the first nb count. */
  datatype File = File(nb: Option<nat>, slots: seq<Entry>)

  datatype Result = Success | AccessConflict | BadState | StorageError

  /** A write succeeds, or fails without effect, or fails although it took effect. */
  datatype Fault = Works | Lost | Applied

  /** What the storage does during one call: opening, reading the header, reading the slots in
      broken, creating the file, and the writes of the first header, an entry, the header. */
  datatype Env = Env(openFails: bool, headerFails: bool, broken: set<nat>, create: Fault, first: Fault, entry: Fault,
                     header: Fault)

  datatype Call = Call(hdr: Entry, env: Env)

  // ---- Storage ----

  function Written<T>(f: Fault, before: T, after: T): T {
    if f.Lost? then before else after
  }

  /** Slot i rewritten, or appended. */
  function PutSlot(slots: seq<Entry>, i: nat, e: Entry): (r: seq<Entry>)
    requires i <= |slots|
  {
    if i < |slots| then slots[i := e] else slots + [e]
  }

  /** At most as many entries count as were written. */
  predicate Sound(f: File) {
    f.nb.Some? ==> f.nb.value <= |f.slots|
  }

  function Count(file: Option<File>): nat {
    if file.Some? && file.value.nb.Some? then file.value.nb.value else 0
  }

  // ---- One call as a function ----

  datatype Found = At(i: nat) | Absent | ReadError

  /** The search loop from slot i on. */
  function Search(slots: seq<Entry>, nb: nat, uuid: Uuid, broken: set<nat>, i: nat): (r: Found)
    requires i <= nb <= |slots|
    ensures r.At? ==> r.i < nb && slots[r.i].uuid == uuid
    decreases nb - i
  {
    if i == nb then Absent
    else if i in broken then ReadError
    else if slots[i].uuid == uuid then At(i)
    else Search(slots, nb, uuid, broken, i + 1)
  }

  /** The call once the header is known. */
  function Record(f: File, hdr: Entry, env: Env): (File, Result)
    requires Sound(f) && f.nb.Some?
  {
    var nb := f.nb.value;
    match Search(f.slots, nb, hdr.uuid, env.broken, 0)
    case ReadError => (f, StorageError)
    case At(i) =>
      if f.slots[i].version > hdr.version then (f, AccessConflict)
      else if f.slots[i].version == hdr.version then (f, Success)
      else (Written(env.entry, f, f.(slots := f.slots[i := hdr])), if env.entry.Works? then Success else StorageError)
    case Absent =>
      var g := Written(env.entry, f, f.(slots := PutSlot(f.slots, nb, hdr)));
      if !env.entry.Works? then (g, StorageError)
      else (Written(env.header, g, g.(nb := Some(nb + 1))), if env.header.Works? then Success else StorageError)
  }

  predicate SoundFile(file: Option<File>) {
    file.Some? ==> Sound(file.value)
  }

  function Step(file: Option<File>, c: Call): (Option<File>, Result)
    requires SoundFile(file)
  {
    var env := c.env;
    if env.openFails then (file, StorageError)
    else if file.None? then
      var f := File(None, []);
      if !env.create.Works? then (Written(env.create, None, Some(f)), StorageError)
      else
        var g := Written(env.first, f, f.(nb := Some(0)));
        if !env.first.Works? then (Some(g), StorageError)
        else var (h, r) := Record(g, c.hdr, env); (Some(h), r)
    else if env.headerFails then (file, StorageError)
    else if file.value.nb.None? then (file, BadState)
    else var (h, r) := Record(file.value, c.hdr, env); (Some(h), r)
  }

  // ---- What the database says ----

  /** Each UUID occurs at most once among the entries that count. */
  ghost predicate Unique(file: Option<File>) {
    SoundFile(file) &&
    forall i, j :: 0 <= i < j < Count(file) ==> file.value.slots[i].uuid != file.value.slots[j].uuid
  }

  /** Version v is recorded for u. */
  ghost predicate Recorded(file: Option<File>, u: Uuid, v: nat) {
    SoundFile(file) && exists i :: 0 <= i < Count(file) && file.value.slots[i] == Entry(u, v)
  }

  /** Some version of at least v is recorded for u. */
  ghost predicate AtLeast(file: Option<File>, u: Uuid, v: nat) {
    SoundFile(file) && exists i ::
      0 <= i < Count(file) && file.value.slots[i].uuid == u && file.value.slots[i].version >= v
  }

  lemma {:induction false} SearchMisses(slots: seq<Entry>, nb: nat, uuid: Uuid, broken: set<nat>, i: nat)
    requires i <= nb <= |slots| && Search(slots, nb, uuid, broken, i) == Absent
    ensures forall j :: i <= j < nb ==> slots[j].uuid != uuid
    decreases nb - i
  {
    if i < nb {
      SearchMisses(slots, nb, uuid, broken, i + 1);
    }
  }

  // ---- One call ----

  lemma RecordKeepsUnique(f: File, hdr: Entry, env: Env)
    requires Unique(Some(f)) && f.nb.Some?
    ensures Unique(Some(Record(f, hdr, env).0))
  {
    if Search(f.slots, f.nb.value, hdr.uuid, env.broken, 0) == Absent {
      SearchMisses(f.slots, f.nb.value, hdr.uuid, env.broken, 0);
    }
  }

  /** After any call, failed or not, what was recorded is still recorded or exceeded. */
  lemma RecordKeepsVersions(f: File, hdr: Entry, env: Env, u: Uuid, v: nat)
    requires Sound(f) && f.nb.Some? && AtLeast(Some(f), u, v)
    ensures AtLeast(Some(Record(f, hdr, env).0), u, v)
  {
    var i :| 0 <= i < f.nb.value && f.slots[i].uuid == u && f.slots[i].version >= v;
    var g := Record(f, hdr, env).0;
    assert g.slots[i].uuid == u && g.slots[i].version >= v;
  }

  /** An admitted TA is recorded with its version, and nothing above it was recorded. */
  lemma RecordAdmits(f: File, hdr: Entry, env: Env, v: nat)
    requires Unique(Some(f)) && f.nb.Some? && Record(f, hdr, env).1 == Success
    ensures Recorded(Some(Record(f, hdr, env).0), hdr.uuid, hdr.version)
    ensures AtLeast(Some(f), hdr.uuid, v) ==> hdr.version >= v
  {
    var nb, g := f.nb.value, Record(f, hdr, env).0;
    match Search(f.slots, nb, hdr.uuid, env.broken, 0)
    case At(k) =>
      assert g.slots[k] == hdr;
    case Absent =>
      SearchMisses(f.slots, nb, hdr.uuid, env.broken, 0);
      assert g.slots[nb] == hdr;
  }

  lemma StepKeepsUnique(file: Option<File>, c: Call)
    requires Unique(file)
    ensures Unique(Step(file, c).0)
  {
    if file.Some? && file.value.nb.Some? {
      RecordKeepsUnique(file.value, c.hdr, c.env);
    } else {
      RecordKeepsUnique(File(Some(0), []), c.hdr, c.env);
    }
  }

  lemma StepKeepsVersions(file: Option<File>, c: Call, u: Uuid, v: nat)
    requires Unique(file) && AtLeast(file, u, v)
    ensures AtLeast(Step(file, c).0, u, v)
  {
    RecordKeepsVersions(file.value, c.hdr, c.env, u, v);
  }

  lemma StepAdmits(file: Option<File>, c: Call, v: nat)
    requires Unique(file) && Step(file, c).1 == Success
    ensures AtLeast(Step(file, c).0, c.hdr.uuid, c.hdr.version)
    ensures AtLeast(file, c.hdr.uuid, v) ==> c.hdr.version >= v
  {
    if file.Some? {
      RecordAdmits(file.value, c.hdr, c.env, v);
    } else {
      RecordAdmits(File(Some(0), []), c.hdr, c.env, v);
    }
  }

  /** Storage that does as it is told. */
  predicate Working(env: Env) {
    && !env.openFails && !env.headerFails && env.broken == {}
    && env.create.Works? && env.first.Works? && env.entry.Works? && env.header.Works?
  }

  lemma {:induction false} SearchWorks(slots: seq<Entry>, nb: nat, uuid: Uuid, i: nat)
    requires i <= nb <= |slots|
    ensures !Search(slots, nb, uuid, {}, i).ReadError?
    decreases nb - i
  {
    if i < nb {
      SearchWorks(slots, nb, uuid, i + 1);
    }
  }

  /** When storage works, a TA is refused exactly when a higher version is recorded. */
  lemma AdmittedIff(file: Option<File>, c: Call)
    requires Unique(file) && Working(c.env) && (file.Some? ==> file.value.nb.Some?)
    ensures Step(file, c).1 == if AtLeast(file, c.hdr.uuid, c.hdr.version + 1) then AccessConflict else Success
  {
    if file.Some? {
      var f := file.value;
      SearchWorks(f.slots, f.nb.value, c.hdr.uuid, 0);
      if Search(f.slots, f.nb.value, c.hdr.uuid, {}, 0) == Absent {
        SearchMisses(f.slots, f.nb.value, c.hdr.uuid, {}, 0);
      }
    }
  }

  // ---- Whole runs ----

  /** The file after the first n calls. */
  function After(calls: seq<Call>, n: nat): Option<File>
    requires n <= |calls|
  {
    if n == 0 then None
    else
      var f := After(calls, n - 1);
      if SoundFile(f) then Step(f, calls[n - 1]).0 else f
  }

  /** Call n admits its TA. */
  ghost predicate Admits(calls: seq<Call>, n: nat)
    requires n < |calls|
  {
    SoundFile(After(calls, n)) && Step(After(calls, n), calls[n]).1 == Success
  }

  lemma {:induction false} AfterUnique(calls: seq<Call>, n: nat)
    requires n <= |calls|
    ensures Unique(After(calls, n))
  {
    if n > 0 {
      AfterUnique(calls, n - 1);
      StepKeepsUnique(After(calls, n - 1), calls[n - 1]);
    }
  }

  lemma {:induction false} VersionsStay(calls: seq<Call>, m: nat, n: nat, u: Uuid, v: nat)
    requires m <= n <= |calls| && AtLeast(After(calls, m), u, v)
    ensures AtLeast(After(calls, n), u, v)
    decreases n
  {
    if m < n {
      VersionsStay(calls, m, n - 1, u, v);
      AfterUnique(calls, n - 1);
      StepKeepsVersions(After(calls, n - 1), calls[n - 1], u, v);
    }
  }

  /** In every run, whatever fails: a TA is admitted only with a version not below any that was
      admitted before for its UUID. */
  lemma NoRollback(calls: seq<Call>, m: nat, n: nat)
    requires m < n < |calls| && Admits(calls, m) && Admits(calls, n) && calls[m].hdr.uuid == calls[n].hdr.uuid
    ensures calls[m].hdr.version <= calls[n].hdr.version
  {
    var u, v := calls[m].hdr.uuid, calls[m].hdr.version;
    AfterUnique(calls, m);
    StepAdmits(After(calls, m), calls[m], v);
    VersionsStay(calls, m + 1, n, u, v);
    AfterUnique(calls, n);
    StepAdmits(After(calls, n), calls[n], v);
  }

  // ---- What a call does not touch ----

  /** A call changes at most the version of its own UUID: for every other one exactly the versions
      recorded before are recorded after it, failed or not, and for its own it records its own
      version or what there was. */
  lemma StepRecords(file: Option<File>, c: Call, u: Uuid, v: nat)
    requires Unique(file)
    ensures var after := Step(file, c).0;
            && (u != c.hdr.uuid ==> (Recorded(after, u, v) <==> Recorded(file, u, v)))
            && (Recorded(after, u, v) ==> Recorded(file, u, v) || Entry(u, v) == c.hdr)
  {
    StepKeepsUnique(file, c);
    if file.Some? && file.value.nb.Some? {
      RecordRecords(file.value, c.hdr, c.env, u, v);
    } else {
      RecordRecords(File(Some(0), []), c.hdr, c.env, u, v);
    }
  }

  lemma RecordRecords(f: File, hdr: Entry, env: Env, u: Uuid, v: nat)
    requires Sound(f) && f.nb.Some?
    ensures var g := Record(f, hdr, env).0;
            && Sound(g) && (u != hdr.uuid ==> (Recorded(Some(g), u, v) <==> Recorded(Some(f), u, v)))
            && (Recorded(Some(g), u, v) ==> Recorded(Some(f), u, v) || Entry(u, v) == hdr)
  {
    var nb, g := f.nb.value, Record(f, hdr, env).0;
    forall i | 0 <= i < nb && f.slots[i] == Entry(u, v) && u != hdr.uuid ensures Recorded(Some(g), u, v) {
      assert g.slots[i] == Entry(u, v);
    }
    forall i | 0 <= i < Count(Some(g)) && g.slots[i] == Entry(u, v) && Entry(u, v) != hdr
      ensures Recorded(Some(f), u, v) {
      assert i < nb && f.slots[i] == g.slots[i];
    }
  }

  /** In every run, every recorded version is that of an earlier call for its UUID. */
  lemma {:induction false} RecordedWasCalled(calls: seq<Call>, n: nat, u: Uuid, v: nat)
    requires n <= |calls| && Recorded(After(calls, n), u, v)
    ensures exists m :: 0 <= m < n && calls[m].hdr == Entry(u, v)
    decreases n
  {
    if n > 0 {
      AfterUnique(calls, n - 1);
      StepRecords(After(calls, n - 1), calls[n - 1], u, v);
      if calls[n - 1].hdr != Entry(u, v) {
        RecordedWasCalled(calls, n - 1, u, v);
      }
    }
  }

  // ---- The code ----

  class Database {
    /** The object in secure storage, absent before the first call. */
    var file: Option<File>

    constructor ()
      ensures file == None
    {
      file := None;
    }

    /** The search loop. */
    method Find(slots: seq<Entry>, nb: nat, uuid: Uuid, broken: set<nat>) returns (r: Found)
      requires nb <= |slots|
      ensures r == Search(slots, nb, uuid, broken, 0)
    {
      var i := 0;
      while i < nb
        invariant 0 <= i <= nb && Search(slots, nb, uuid, broken, 0) == Search(slots, nb, uuid, broken, i)
      {
        if i in broken {
          return ReadError;
        }
        if slots[i].uuid == uuid {
          return At(i);
        }
        i := i + 1;
      }
      r := Absent;
    }

    /** Opens the file or makes a new one with an empty header. */
    method OpenOrCreate(env: Env) returns (r: Result)
      requires SoundFile(file)
      modifies this
      ensures r.Success? ==> !env.openFails && file.Some? && file.value.nb.Some? && Sound(file.value)
      ensures r.Success? ==> file == if old(file).None? then Some(File(Some(0), [])) else old(file)
      ensures r.Success? && old(file).None? ==> env.create.Works? && env.first.Works?
      ensures r.Success? && old(file).Some? ==> !env.headerFails
      ensures !r.Success? ==> forall hdr :: Step(old(file), Call(hdr, env)) == (file, r)
    {
      if env.openFails {
        return StorageError;
      }
      if file.None? {
        file := Written(env.create, file, Some(File(None, [])));
        if !env.create.Works? {
          return StorageError;
        }
        file := Written(env.first, file, Some(File(Some(0), [])));
        if !env.first.Works? {
          return StorageError;
        }
      } else {
        if env.headerFails {
          return StorageError;
        }
        if file.value.nb.None? {
          return BadState;
        }
      }
      r := Success;
    }

    /** check_update_version. */
    method CheckUpdate(c: Call) returns (r: Result)
      requires SoundFile(file)
      modifies this
      ensures (file, r) == Step(old(file), c)
    {
      r := OpenOrCreate(c.env);
      if !r.Success? {
        return;
      }
      var f, hdr, env := file.value, c.hdr, c.env;
      var nb := f.nb.value;
      var found := Find(f.slots, nb, hdr.uuid, env.broken);
      match found {
        case ReadError =>
          r := StorageError;
        case At(i) =>
          if f.slots[i].version > hdr.version {
            r := AccessConflict;
          } else if f.slots[i].version < hdr.version {
            file := Written(env.entry, file, Some(f.(slots := f.slots[i := hdr])));
            r := if env.entry.Works? then Success else StorageError;
          }
        case Absent =>
          var g := Written(env.entry, f, f.(slots := PutSlot(f.slots, nb, hdr)));
          file := Some(g);
          if !env.entry.Works? {
            return StorageError;
          }
          file := Some(Written(env.header, g, g.(nb := Some(nb + 1))));
          r := if env.header.Works? then Success else StorageError;
      }
    }
  }
}
