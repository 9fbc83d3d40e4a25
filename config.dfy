/** The configuration store (src/lib/core/config.js): a key/value store over
    four file-backed partitions. The in-memory store is a flat map from an
    nconf key path ("weather:enabled", "owner_id") to a value; whether a file
    exists is an input (`files`). */
module Config {
  import opened Values

  /** The four partitions, in the order config.js enumerates them. */
  datatype Partition = Internal | Modules | Auth | Settings

  const Partitions: seq<Partition> := [Internal, Modules, Auth, Settings]

  /** The name a caller passes to `save` to pick a partition. */
  function HandleName(p: Partition): string
  {
    match p
    case Internal => "internal"
    case Modules => "modules"
    case Auth => "auth"
    case Settings => "config"
  }

  function FileName(p: Partition): string
  {
    HandleName(p) + ".json"
  }

  /** A file in the user's config directory or in the bundled defaults. */
  datatype FileRef = UserFile(name: string) | CoreFile(name: string)

  /** The value nconf holds for `key`; undefined when there is none. */
  function Lookup(store: map<string, Value>, key: string): Value
  {
    if key in store then store[key] else Undefined
  }

  /** config.get(key, fallback): the stored value, unless it is falsy. */
  function Get(store: map<string, Value>, key: string, fallback: Value): (r: Value)
    ensures Truthy(r) || r == fallback
    ensures r == Lookup(store, key) || r == fallback
    ensures Truthy(Lookup(store, key)) ==> r == Lookup(store, key)
  {
    var val := Lookup(store, key);
    if !Truthy(val) then fallback else val
  }

  /** Every falsy stored value (absent, false, 0, "", null) reads as the fallback,
      and with no fallback as undefined. */
  lemma GetFalsyReadsFallback(store: map<string, Value>, key: string, fallback: Value)
    requires !Truthy(Lookup(store, key))
    ensures Get(store, key, fallback) == fallback
    ensures Get(store, key, Undefined) == Undefined
  {
  }

  /** A truthy stored value ignores the fallback. */
  lemma GetTruthyIgnoresFallback(store: map<string, Value>, key: string, fb1: Value, fb2: Value)
    requires Truthy(Lookup(store, key))
    ensures Get(store, key, fb1) == Get(store, key, fb2) == store[key]
  {
  }

  /** After set(k, v), get(k, fb) is v when v is truthy and fb otherwise;
      every other key reads as before. */
  lemma SetThenGet(store: map<string, Value>, k: string, v: Value, other: string, fb: Value)
    ensures Get(store[k := v], k, fb) == if Truthy(v) then v else fb
    ensures other != k ==> Get(store[k := v], other, fb) == Get(store, other, fb)
  {
  }

  /** The looser call shape `get(partition, key)` used by several callers: the
      partition name is looked up as the key and the intended key becomes the
      fallback, so without a truthy top-level entry of that name the result is
      the key's own name, a non-empty string and never `true`. */
  lemma PartitionNameAsKey(store: map<string, Value>, partition: string, key: string)
    requires !Truthy(Lookup(store, partition))
    ensures Get(store, partition, Str(key)) == Str(key)
    ensures Get(store, partition, Str(key)) != Bool(true)
    ensures key != "" ==> Truthy(Get(store, partition, Str(key)))
  {
  }

  /** The partition a save handle names, if any (`configs.hasOwnProperty`). */
  function HandlePartition(handle: Value): (r: Option<Partition>)
    ensures r.Some? ==> handle == Str(HandleName(r.value))
    ensures (exists p :: handle == Str(HandleName(p))) ==> r.Some?
  {
    match handle
    case Str(h) =>
      if h == "internal" then Some(Internal)
      else if h == "modules" then Some(Modules)
      else if h == "auth" then Some(Auth)
      else if h == "config" then Some(Settings)
      else None
    case _ => None
  }

  /** The file that backs a partition: the user's file when it exists, else
      the bundled default when it exists, else none. */
  function Backing(files: set<FileRef>, p: Partition): (r: Option<FileRef>)
    ensures r.Some? ==> r.value in files
    ensures r.Some? <==> UserFile(FileName(p)) in files || CoreFile(FileName(p)) in files
    ensures UserFile(FileName(p)) in files ==> r == Some(UserFile(FileName(p)))
    ensures r.Some? && r.value.CoreFile? ==> UserFile(FileName(p)) !in files
  {
    if UserFile(FileName(p)) in files then Some(UserFile(FileName(p)))
    else if CoreFile(FileName(p)) in files then Some(CoreFile(FileName(p)))
    else None
  }

  /** What one call of `save(handle)` does. */
  datatype SaveOutcome =
    | NoHandle               // logs "No config file specified!"
    | UnknownHandle          // does nothing
    | Wrote(file: FileRef)   // nconf.save to that file
    | Missing(name: string)  // logs "Config file <name> not found!"

  function SaveTarget(files: set<FileRef>, handle: Value): (r: SaveOutcome)
    ensures !Truthy(handle) <==> r == NoHandle
    ensures r == UnknownHandle <==> Truthy(handle) && HandlePartition(handle).None?
    ensures r.Wrote? ==> HandlePartition(handle).Some? && r.file in files
    ensures r.Wrote? ==> Backing(files, HandlePartition(handle).value) == Some(r.file)
    ensures r.Missing? ==> HandlePartition(handle).Some? && Backing(files, HandlePartition(handle).value).None?
  {
    if !Truthy(handle) then NoHandle
    else match HandlePartition(handle)
      case None => UnknownHandle
      case Some(p) =>
        match Backing(files, p)
        case Some(f) => Wrote(f)
        case None => Missing(FileName(p))
  }

  /** The partitions among `ps` that have a backing file, with that file. */
  function BackingMap(files: set<FileRef>, ps: seq<Partition>): map<Partition, FileRef>
  {
    if ps == [] then map[]
    else
      var m := BackingMap(files, ps[..|ps| - 1]);
      var p := ps[|ps| - 1];
      match Backing(files, p)
      case Some(f) => m[p := f]
      case None => m
  }

  /** The file names, in order, of the partitions among `ps` without a file. */
  function MissingNames(files: set<FileRef>, ps: seq<Partition>): seq<string>
  {
    if ps == [] then []
    else
      var p := ps[|ps| - 1];
      MissingNames(files, ps[..|ps| - 1]) + (if Backing(files, p).None? then [FileName(p)] else [])
  }

  /** After construction, each partition is registered exactly when it has a
      backing file, and then with that file. */
  lemma {:induction false} BackingMapSpec(files: set<FileRef>, ps: seq<Partition>, p: Partition)
    ensures p in BackingMap(files, ps) <==> p in ps && Backing(files, p).Some?
    ensures p in BackingMap(files, ps) ==> BackingMap(files, ps)[p] == Backing(files, p).value
    decreases |ps|
  {
    if ps != [] {
      BackingMapSpec(files, ps[..|ps| - 1], p);
      assert ps == ps[..|ps| - 1] + [ps[|ps| - 1]];
    }
  }

  /** The partitions without a file are exactly the ones logged as missing. */
  lemma {:induction false} MissingNamesSpec(files: set<FileRef>, ps: seq<Partition>, p: Partition)
    ensures p in ps && Backing(files, p).None? ==> FileName(p) in MissingNames(files, ps)
    ensures FileName(p) in MissingNames(files, ps) ==> p in ps && Backing(files, p).None?
    decreases |ps|
  {
    if ps != [] {
      MissingNamesSpec(files, ps[..|ps| - 1], p);
      assert ps == ps[..|ps| - 1] + [ps[|ps| - 1]];
      FileNameInjective(p, ps[|ps| - 1]);
    }
  }

  /** Different partitions have different file names. */
  lemma FileNameInjective(p: Partition, q: Partition)
    ensures FileName(p) == FileName(q) ==> p == q
  {
    if FileName(p) == FileName(q) {
      assert HandleName(p) == FileName(p)[..|FileName(p)| - 5];
      assert HandleName(q) == FileName(q)[..|FileName(q)| - 5];
    }
  }

  class ConfigStore {
    /** nconf's merged in-memory data. */
    var store: map<string, Value>
    /** The files that exist (utils.fileExists). */
    const files: set<FileRef>
    /** The file registered for each partition at construction. */
    var backing: map<Partition, FileRef>
    /** File names reported missing at construction, in order. */
    var missing: seq<string>
    /** Every file a `save` wrote to, in order. */
    var saves: seq<FileRef>

    /** Picks the file for each partition, in partition order; `initial` is the
        data nconf loads from them. */
    constructor (existing: set<FileRef>, initial: map<string, Value>)
      ensures files == existing && store == initial && saves == []
      ensures backing == BackingMap(existing, Partitions)
      ensures missing == MissingNames(existing, Partitions)
    {
      var b: map<Partition, FileRef> := map[];
      var m: seq<string> := [];
      var i := 0;
      while i < |Partitions|
        invariant 0 <= i <= |Partitions|
        invariant b == BackingMap(existing, Partitions[..i])
        invariant m == MissingNames(existing, Partitions[..i])
      {
        var p := Partitions[i];
        assert Partitions[..i + 1][..i] == Partitions[..i];
        if UserFile(FileName(p)) in existing {
          b := b[p := UserFile(FileName(p))];
        } else if CoreFile(FileName(p)) in existing {
          b := b[p := CoreFile(FileName(p))];
        } else {
          m := m + [FileName(p)];
        }
        i := i + 1;
      }
      assert Partitions[..i] == Partitions;
      files := existing;
      store := initial;
      backing := b;
      missing := m;
      saves := [];
    }

    /** config.set(key, value). */
    method Set(key: string, value: Value)
      modifies this`store
      ensures store == old(store)[key := value]
    {
      store := store[key := value];
    }

    /** config.save(handle): writes to the user file of the named partition
        when it exists, else to the bundled one, else logs; without a handle it
        only logs, and a handle naming no partition does nothing. */
    method Save(handle: Value) returns (outcome: SaveOutcome)
      modifies this`saves
      ensures outcome == SaveTarget(files, handle)
      ensures saves == old(saves) + (if outcome.Wrote? then [outcome.file] else [])
    {
      if Truthy(handle) {
        var p := HandlePartition(handle);
        if p.Some? {
          var name := FileName(p.value);
          if UserFile(name) in files {
            outcome := Wrote(UserFile(name));
            saves := saves + [UserFile(name)];
          } else if CoreFile(name) in files {
            outcome := Wrote(CoreFile(name));
            saves := saves + [CoreFile(name)];
          } else {
            outcome := Missing(name);
          }
        } else {
          outcome := UnknownHandle;
        }
      } else {
        outcome := NoHandle;
      }
    }

    /** config.reload(save): saving first calls `save()` with no handle, which
        only logs, so nothing is persisted before the store is reset. */
    method Reload(save: Value)
      modifies this`store, this`saves
      ensures store == map[]
      ensures saves == old(saves)
    {
      if Truthy(save) {
        var _ := Save(Undefined);
      }
      store := map[];
    }
  }
}
