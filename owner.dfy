/** The owner module (src/lib/modules/owner.js): commands only the bot's owner
    may run — connect, disconnect and its aliases, the module listing, and
    loading and unloading modules. Each handler takes the owner id it looks
    up as a parameter, and reads and writes a module's flag under the key
    `<name>:enabled` that `search` reads. */
module Owner {
  import opened Values
  import opened Strings
  import Config
  import Utils
  import Permissions
  import Reg = Registry

  /** isOwner(res): the author id is strictly equal to the owner id looked up. */
  predicate IsOwner(authorId: string, ownerId: Value)
    ensures IsOwner(authorId, ownerId) ==> ownerId.Str?
  {
    Str(authorId) == ownerId
  }

  /** The owner id as owner.js:40 literally looks it up, `config.get('auth', 'owner_id')`:
      the key "auth" with the string "owner_id" as fallback. */
  function OwnerIdAsWritten(store: map<string, Value>): Value
  {
    Config.Get(store, "auth", Str("owner_id"))
  }

  /** As written, nobody but a user whose id is literally "owner_id" passes the
      owner check when the store has no truthy top-level "auth" entry, even the
      configured owner, who does pass `hasAccess`. */
  lemma OwnerLockedOut(store: map<string, Value>, authorId: string)
    requires !Truthy(Config.Lookup(store, "auth"))
    requires authorId != "owner_id"
    ensures !IsOwner(authorId, OwnerIdAsWritten(store))
  {
    Config.PartitionNameAsKey(store, "auth", "owner_id");
  }

  lemma OwnerLockedOutExample()
    ensures Permissions.HasAccess(map["owner_id" := Str("42")], "42", "load")
    ensures !IsOwner("42", OwnerIdAsWritten(map["owner_id" := Str("42")]))
  {
    OwnerLockedOut(map["owner_id" := Str("42")], "42");
  }

  /** With the owner id read from "owner_id", the owner check agrees with hasAccess. */
  lemma IsOwnerMatchesAccess(store: map<string, Value>, authorId: string, command: string)
    ensures IsOwner(authorId, Permissions.OwnerId(store)) == Permissions.HasAccess(store, authorId, command)
    ensures IsOwner(authorId, Permissions.OwnerId(store)) ==> Config.Lookup(store, "owner_id") == Str(authorId)
  {
  }

  /** A module's flag as owner.js:180,221,296 literally look it up,
      `config.get('modules', name + ':enabled')`. */
  function FlagAsWritten(store: map<string, Value>, name: string): Value
  {
    Config.Get(store, "modules", Str(Reg.EnabledKey(name)))
  }

  lemma EnabledKeyInjective(a: string, b: string)
    requires Reg.EnabledKey(a) == Reg.EnabledKey(b)
    ensures a == b
  {
    assert |a| == |b|;
    assert a == Reg.EnabledKey(a)[..|a|];
    assert b == Reg.EnabledKey(b)[..|b|];
  }

  lemma EnabledKeyIsNotModules(name: string)
    ensures Reg.EnabledKey(name) != "modules"
  {
    assert |Reg.EnabledKey(name)| >= 8;
  }

  /** As written, the flag read is always truthy, is never `true` unless the
      store holds `true` under the top-level key "modules", and the write
      `config.set('modules', name + ':enabled', true)` sets "modules" rather
      than the module's flag. So `_modules` marks every module "[+]", `_unload`
      never unloads, and `_load` never enables what `search` reads. */
  lemma FlagAsWrittenIgnoresModule(store: map<string, Value>, name: string)
    ensures Truthy(FlagAsWritten(store, name))
    ensures Config.Lookup(store, "modules") != Bool(true) ==> FlagAsWritten(store, name) != Bool(true)
    ensures Reg.Flag(store["modules" := Str(Reg.EnabledKey(name))], name) == Reg.Flag(store, name)
  {
    EnabledKeyIsNotModules(name);
  }

  lemma UnloadAsWrittenExample()
    ensures Reg.Flag(map["weather:enabled" := Bool(true)], "weather") == Bool(true)
    ensures FlagAsWritten(map["weather:enabled" := Bool(true)], "weather") != Bool(true)
  {
    assert Reg.EnabledKey("weather") == "weather:enabled";
    FlagAsWrittenIgnoresModule(map["weather:enabled" := Bool(true)], "weather");
  }

  /** `!arguement || arguement === ' '`. */
  predicate NoArgument(argument: string)
  {
    argument == "" || argument == " "
  }

  function Quoted(name: string): string
  {
    "\"" + name + "\""
  }

  function NotFound(name: string): Action
  {
    Dm(Author, Quoted(name) + " not found!")
  }

  /** The replies of `_load`'s loop over the entries, `on` telling whether the
      flag is exactly `true` when an entry is reached. */
  function LoadReplies(entries: seq<string>, name: string, on: bool): seq<Action>
    decreases |entries|
  {
    if entries == [] then []
    else if Reg.ModuleName(entries[0]) == name then
      [Dm(Author, Quoted(name) + (if on then " is already loaded!" else " loaded!"))]
      + LoadReplies(entries[1..], name, true)
    else LoadReplies(entries[1..], name, on)
  }

  /** The replies of `_unload`'s loop over the entries. */
  function UnloadReplies(entries: seq<string>, name: string, on: bool): seq<Action>
    decreases |entries|
  {
    if entries == [] then []
    else if Reg.ModuleName(entries[0]) == name then
      [Dm(Author, Quoted(name) + (if on then " unloaded!" else " is not loaded!"))]
      + UnloadReplies(entries[1..], name, false)
    else UnloadReplies(entries[1..], name, on)
  }

  /** Both loops reply once per matching entry, so nothing at all exactly when
      no entry matches. */
  lemma {:induction false} RepliesEmpty(entries: seq<string>, name: string, on: bool)
    ensures LoadReplies(entries, name, on) == [] <==> !Reg.InDir(entries, name)
    ensures UnloadReplies(entries, name, on) == [] <==> !Reg.InDir(entries, name)
    decreases |entries|
  {
    if entries != [] {
      RepliesEmpty(entries[1..], name, true);
      RepliesEmpty(entries[1..], name, false);
      RepliesEmpty(entries[1..], name, on);
      assert forall i :: 0 <= i < |entries| - 1 ==> entries[1..][i] == entries[i + 1];
      if Reg.ModuleName(entries[0]) != name && Reg.InDir(entries, name) {
        var i :| 0 <= i < |entries| && Reg.ModuleName(entries[i]) == name;
        assert entries[1..][i - 1] == entries[i];
      }
    }
  }

  /** What `_load(res, arguement)` replies. */
  function LoadResult(dir: seq<string>, store: map<string, Value>, authorId: string, ownerId: Value, argument: string): (out: seq<Action>)
    ensures out == [] <==> !IsOwner(authorId, ownerId)
  {
    if !IsOwner(authorId, ownerId) then []
    else if NoArgument(argument) then [Dm(Author, "No module specified!")]
    else
      var name := Lower(argument);
      var replies := LoadReplies(dir, name, Reg.Flag(store, name) == Bool(true));
      if replies == [] then [NotFound(name)] else replies
  }

  /** `_load` changes state: the owner names a listed module whose flag is not exactly `true`. */
  predicate LoadEnables(dir: seq<string>, store: map<string, Value>, authorId: string, ownerId: Value, argument: string)
  {
    IsOwner(authorId, ownerId) && !NoArgument(argument)
    && Reg.InDir(dir, Lower(argument)) && Reg.Flag(store, Lower(argument)) != Bool(true)
  }

  /** What `_unload(res, arguement)` replies. */
  function UnloadResult(dir: seq<string>, store: map<string, Value>, authorId: string, ownerId: Value, argument: string): (out: seq<Action>)
    ensures out == [] <==> !IsOwner(authorId, ownerId)
  {
    if !IsOwner(authorId, ownerId) then []
    else if NoArgument(argument) then [Dm(Author, "No module specified!")]
    else
      var name := Lower(argument);
      if name == "core" || name == "owner" then
        [Dm(Author, "The " + name + " module is required for my continued operation!")]
      else
        var replies := UnloadReplies(dir, name, Reg.Flag(store, name) == Bool(true));
        if replies == [] then [NotFound(name)] else replies
  }

  /** `_unload` changes state: the owner names a listed, unprotected module whose flag is exactly `true`. */
  predicate UnloadDisables(dir: seq<string>, store: map<string, Value>, authorId: string, ownerId: Value, argument: string)
  {
    IsOwner(authorId, ownerId) && !NoArgument(argument)
    && Lower(argument) != "core" && Lower(argument) != "owner"
    && Reg.InDir(dir, Lower(argument)) && Reg.Flag(store, Lower(argument)) == Bool(true)
  }

  /** The files one `save('modules')` writes. */
  function ModulesSave(files: set<Config.FileRef>): seq<Config.FileRef>
  {
    var o := Config.SaveTarget(files, Str("modules"));
    if o.Wrote? then [o.file] else []
  }

  /** Loading an already loaded module only replies "already loaded"; a name
      no entry strips to replies "not found!". */
  lemma LoadOutcomes(dir: seq<string>, store: map<string, Value>, authorId: string, argument: string)
    requires !NoArgument(argument)
    ensures var name := Lower(argument);
            var out := LoadResult(dir, store, authorId, Str(authorId), argument);
            (!Reg.InDir(dir, name) ==> out == [NotFound(name)])
            && (Reg.InDir(dir, name) && Reg.Flag(store, name) == Bool(true) ==>
                  forall k :: 0 <= k < |out| ==> out[k] == Dm(Author, Quoted(name) + " is already loaded!"))
            && (Reg.InDir(dir, name) && Reg.Flag(store, name) != Bool(true) ==>
                  |out| >= 1 && out[0] == Dm(Author, Quoted(name) + " loaded!"))
  {
    var name := Lower(argument);
    var on := Reg.Flag(store, name) == Bool(true);
    RepliesEmpty(dir, name, on);
    if Reg.InDir(dir, name) && on {
      AllAlreadyLoaded(dir, name);
    }
    if Reg.InDir(dir, name) && !on {
      FirstLoadReply(dir, name);
    }
  }

  lemma {:induction false} AllAlreadyLoaded(entries: seq<string>, name: string)
    ensures forall k :: 0 <= k < |LoadReplies(entries, name, true)| ==>
              LoadReplies(entries, name, true)[k] == Dm(Author, Quoted(name) + " is already loaded!")
    decreases |entries|
  {
    if entries != [] {
      AllAlreadyLoaded(entries[1..], name);
    }
  }

  lemma {:induction false} FirstLoadReply(entries: seq<string>, name: string)
    requires Reg.InDir(entries, name)
    ensures |LoadReplies(entries, name, false)| >= 1
    ensures LoadReplies(entries, name, false)[0] == Dm(Author, Quoted(name) + " loaded!")
    decreases |entries|
  {
    if Reg.ModuleName(entries[0]) != name {
      var i :| 0 <= i < |entries| && Reg.ModuleName(entries[i]) == name;
      assert entries[1..][i - 1] == entries[i];
      FirstLoadReply(entries[1..], name);
    }
  }

  /** Unloading `core` or `owner`, whatever its case, only replies that the module is required. */
  lemma UnloadProtected(dir: seq<string>, store: map<string, Value>, authorId: string, argument: string)
    requires !NoArgument(argument)
    requires Lower(argument) == "core" || Lower(argument) == "owner"
    ensures UnloadResult(dir, store, authorId, Str(authorId), argument)
            == [Dm(Author, "The " + Lower(argument) + " module is required for my continued operation!")]
    ensures !UnloadDisables(dir, store, authorId, Str(authorId), argument)
  {
  }

  /** Unloading a module that is not exactly `true` only replies "is not
      loaded!"; a loaded one first replies "unloaded!"; a name no entry strips
      to replies "not found!". */
  lemma UnloadOutcomes(dir: seq<string>, store: map<string, Value>, authorId: string, argument: string)
    requires !NoArgument(argument)
    requires Lower(argument) != "core" && Lower(argument) != "owner"
    ensures var name := Lower(argument);
            var out := UnloadResult(dir, store, authorId, Str(authorId), argument);
            (!Reg.InDir(dir, name) ==> out == [NotFound(name)])
            && (Reg.InDir(dir, name) && Reg.Flag(store, name) == Bool(true) ==>
                  |out| >= 1 && out[0] == Dm(Author, Quoted(name) + " unloaded!"))
            && (Reg.InDir(dir, name) && Reg.Flag(store, name) != Bool(true) ==>
                  |out| >= 1 && forall k :: 0 <= k < |out| ==> out[k] == Dm(Author, Quoted(name) + " is not loaded!"))
  {
    var name := Lower(argument);
    var on := Reg.Flag(store, name) == Bool(true);
    RepliesEmpty(dir, name, on);
    if Reg.InDir(dir, name) && on {
      FirstUnloadReply(dir, name);
    }
    if Reg.InDir(dir, name) && !on {
      AllNotLoaded(dir, name);
    }
  }

  lemma {:induction false} AllNotLoaded(entries: seq<string>, name: string)
    ensures forall k :: 0 <= k < |UnloadReplies(entries, name, false)| ==>
              UnloadReplies(entries, name, false)[k] == Dm(Author, Quoted(name) + " is not loaded!")
    decreases |entries|
  {
    if entries != [] {
      AllNotLoaded(entries[1..], name);
    }
  }

  lemma {:induction false} FirstUnloadReply(entries: seq<string>, name: string)
    requires Reg.InDir(entries, name)
    ensures |UnloadReplies(entries, name, true)| >= 1
    ensures UnloadReplies(entries, name, true)[0] == Dm(Author, Quoted(name) + " unloaded!")
    decreases |entries|
  {
    if Reg.ModuleName(entries[0]) != name {
      var i :| 0 <= i < |entries| && Reg.ModuleName(entries[i]) == name;
      assert entries[1..][i - 1] == entries[i];
      FirstUnloadReply(entries[1..], name);
    }
  }

  /** Enabling a module and registering it keeps the table covering every enabled entry. */
  lemma CoversEnable(dir: seq<string>, store: map<string, Value>, table: set<string>, name: string)
    requires Reg.Covers(dir, store, table)
    ensures Reg.Covers(dir, store[Reg.EnabledKey(name) := Bool(true)], table + {name})
  {
    var s := store[Reg.EnabledKey(name) := Bool(true)];
    forall k | 0 <= k < |dir| && Reg.Enabled(s, Reg.ModuleName(dir[k]))
      ensures Reg.ModuleName(dir[k]) in table + {name}
    {
      var other := Reg.ModuleName(dir[k]);
      if other != name {
        if Reg.EnabledKey(other) == Reg.EnabledKey(name) { EnabledKeyInjective(other, name); }
        assert Reg.Flag(s, other) == Reg.Flag(store, other);
      }
    }
  }

  /** Disabling a module and unregistering it keeps the table covering every enabled entry. */
  lemma CoversDisable(dir: seq<string>, store: map<string, Value>, table: set<string>, name: string)
    requires Reg.Covers(dir, store, table)
    ensures Reg.Covers(dir, store[Reg.EnabledKey(name) := Bool(false)], table - {name})
  {
    var s := store[Reg.EnabledKey(name) := Bool(false)];
    forall k | 0 <= k < |dir| && Reg.Enabled(s, Reg.ModuleName(dir[k]))
      ensures Reg.ModuleName(dir[k]) in table - {name}
    {
      var other := Reg.ModuleName(dir[k]);
      if other != name {
        if Reg.EnabledKey(other) == Reg.EnabledKey(name) { EnabledKeyInjective(other, name); }
        assert Reg.Flag(s, other) == Reg.Flag(store, other);
      }
    }
  }

  /** One entry of `_load`'s loop: a matching entry adds one reply and turns
      the flag on for the entries after it. */
  lemma LoadStep(dir: seq<string>, i: nat, name: string, on: bool, out: seq<Action>)
    requires i < |dir|
    ensures Reg.ModuleName(dir[i]) == name ==>
              out + LoadReplies(dir[i..], name, on)
              == out + [Dm(Author, Quoted(name) + (if on then " is already loaded!" else " loaded!"))]
                 + LoadReplies(dir[i + 1..], name, true)
    ensures Reg.ModuleName(dir[i]) != name ==>
              out + LoadReplies(dir[i..], name, on) == out + LoadReplies(dir[i + 1..], name, on)
  {
    assert dir[i..][1..] == dir[i + 1..];
  }

  /** One entry of `_unload`'s loop: a matching entry adds one reply and turns
      the flag off for the entries after it. */
  lemma UnloadStep(dir: seq<string>, i: nat, name: string, on: bool, out: seq<Action>)
    requires i < |dir|
    ensures Reg.ModuleName(dir[i]) == name ==>
              out + UnloadReplies(dir[i..], name, on)
              == out + [Dm(Author, Quoted(name) + (if on then " unloaded!" else " is not loaded!"))]
                 + UnloadReplies(dir[i + 1..], name, false)
    ensures Reg.ModuleName(dir[i]) != name ==>
              out + UnloadReplies(dir[i..], name, on) == out + UnloadReplies(dir[i + 1..], name, on)
  {
    assert dir[i..][1..] == dir[i + 1..];
  }

  /** The flag of a module just set reads back as the value set. */
  lemma FlagAfterSet(store: map<string, Value>, name: string, v: Value)
    ensures Truthy(v) ==> Reg.Flag(store[Reg.EnabledKey(name) := v], name) == v
    ensures !Truthy(v) ==> Reg.Flag(store[Reg.EnabledKey(name) := v], name) == Undefined
  {
    Config.SetThenGet(store, Reg.EnabledKey(name), v, Reg.EnabledKey(name), Undefined);
  }

  /** `_load`'s loop over the directory for the lower-cased name. */
  method LoadMatching(reg: Reg.Registry, name: string) returns (out: seq<Action>)
    requires reg.Valid()
    modifies reg`table, reg.config`store, reg.config`saves
    ensures reg.Valid()
    ensures out == LoadReplies(reg.dir, name, Reg.Flag(old(reg.config.store), name) == Bool(true))
    ensures Reg.InDir(reg.dir, name) && Reg.Flag(old(reg.config.store), name) != Bool(true) ==>
              && reg.config.store == old(reg.config.store)[Reg.EnabledKey(name) := Bool(true)]
              && reg.table == old(reg.table) + {name}
              && reg.config.saves == old(reg.config.saves) + ModulesSave(reg.config.files)
    ensures !(Reg.InDir(reg.dir, name) && Reg.Flag(old(reg.config.store), name) != Bool(true)) ==>
              && reg.config.store == old(reg.config.store)
              && reg.table == old(reg.table)
              && reg.config.saves == old(reg.config.saves)
  {
    var config := reg.config;
    var dir := reg.dir;
    ghost var store0, table0, saves0 := config.store, reg.table, config.saves;
    ghost var on0 := Reg.Flag(store0, name) == Bool(true);
    ghost var store1, table1, saves1 := store0[Reg.EnabledKey(name) := Bool(true)], table0 + {name}, saves0 + ModulesSave(config.files);
    var found := false;
    out := [];
    var i := 0;
    while i < |dir|
      invariant 0 <= i <= |dir|
      invariant found <==> Reg.InDir(dir[..i], name)
      invariant out + LoadReplies(dir[i..], name, on0 || found) == LoadReplies(dir, name, on0)
      invariant config.store == if found && !on0 then store1 else store0
      invariant reg.table == if found && !on0 then table1 else table0
      invariant config.saves == if found && !on0 then saves1 else saves0
    {
      var entry := Reg.ModuleName(dir[i]);
      LoadStep(dir, i, name, on0 || found, out);
      Reg.InDirSnoc(dir, i, name);
      FlagAfterSet(store0, name, Bool(true));
      if entry == name {
        if Config.Get(config.store, Reg.EnabledKey(entry), Undefined) != Bool(true) {
          config.Set(Reg.EnabledKey(entry), Bool(true));
          var _ := config.Save(Str("modules"));
          reg.table := reg.table + {entry};
          out := out + [Dm(Author, Quoted(entry) + " loaded!")];
        } else {
          out := out + [Dm(Author, Quoted(entry) + " is already loaded!")];
        }
        found := true;
      }
      i := i + 1;
    }
    assert dir[..i] == dir;
    if found && !on0 {
      CoversEnable(dir, store0, table0, name);
    }
  }

  /** `_load(res, arguement)` and its alias `_enable`. */
  method Load(reg: Reg.Registry, authorId: string, ownerId: Value, argument: string) returns (out: seq<Action>)
    requires reg.Valid()
    modifies reg`table, reg.config`store, reg.config`saves
    ensures reg.Valid()
    ensures out == LoadResult(reg.dir, old(reg.config.store), authorId, ownerId, argument)
    ensures LoadEnables(reg.dir, old(reg.config.store), authorId, ownerId, argument) ==>
              && reg.config.store == old(reg.config.store)[Reg.EnabledKey(Lower(argument)) := Bool(true)]
              && reg.table == old(reg.table) + {Lower(argument)}
              && reg.config.saves == old(reg.config.saves) + ModulesSave(reg.config.files)
    ensures !LoadEnables(reg.dir, old(reg.config.store), authorId, ownerId, argument) ==>
              && reg.config.store == old(reg.config.store)
              && reg.table == old(reg.table)
              && reg.config.saves == old(reg.config.saves)
  {
    if !IsOwner(authorId, ownerId) {
      return [];
    }
    if argument == "" || argument == " " {
      return [Dm(Author, "No module specified!")];
    }
    var name := Lower(argument);
    ghost var on0 := Reg.Flag(reg.config.store, name) == Bool(true);
    out := LoadMatching(reg, name);
    RepliesEmpty(reg.dir, name, on0);
    if out == [] {
      out := [NotFound(name)];
    }
  }

  /** `_unload`'s loop over the directory for the lower-cased name. */
  method UnloadMatching(reg: Reg.Registry, name: string) returns (out: seq<Action>)
    requires reg.Valid()
    modifies reg`table, reg.config`store, reg.config`saves
    ensures reg.Valid()
    ensures out == UnloadReplies(reg.dir, name, Reg.Flag(old(reg.config.store), name) == Bool(true))
    ensures Reg.InDir(reg.dir, name) && Reg.Flag(old(reg.config.store), name) == Bool(true) ==>
              && reg.config.store == old(reg.config.store)[Reg.EnabledKey(name) := Bool(false)]
              && reg.table == old(reg.table) - {name}
              && reg.config.saves == old(reg.config.saves) + ModulesSave(reg.config.files)
    ensures !(Reg.InDir(reg.dir, name) && Reg.Flag(old(reg.config.store), name) == Bool(true)) ==>
              && reg.config.store == old(reg.config.store)
              && reg.table == old(reg.table)
              && reg.config.saves == old(reg.config.saves)
  {
    var config := reg.config;
    var dir := reg.dir;
    ghost var store0, table0, saves0 := config.store, reg.table, config.saves;
    ghost var on0 := Reg.Flag(store0, name) == Bool(true);
    ghost var store1, table1, saves1 := store0[Reg.EnabledKey(name) := Bool(false)], table0 - {name}, saves0 + ModulesSave(config.files);
    var found := false;
    out := [];
    var i := 0;
    while i < |dir|
      invariant 0 <= i <= |dir|
      invariant found <==> Reg.InDir(dir[..i], name)
      invariant out + UnloadReplies(dir[i..], name, on0 && !found) == UnloadReplies(dir, name, on0)
      invariant config.store == if found && on0 then store1 else store0
      invariant reg.table == if found && on0 then table1 else table0
      invariant config.saves == if found && on0 then saves1 else saves0
    {
      var entry := Reg.ModuleName(dir[i]);
      UnloadStep(dir, i, name, on0 && !found, out);
      Reg.InDirSnoc(dir, i, name);
      FlagAfterSet(store0, name, Bool(false));
      if entry == name {
        if Config.Get(config.store, Reg.EnabledKey(entry), Undefined) == Bool(true) {
          config.Set(Reg.EnabledKey(entry), Bool(false));
          var _ := config.Save(Str("modules"));
          reg.table := reg.table - {entry};
          out := out + [Dm(Author, Quoted(entry) + " unloaded!")];
        } else {
          out := out + [Dm(Author, Quoted(entry) + " is not loaded!")];
        }
        found := true;
      }
      i := i + 1;
    }
    assert dir[..i] == dir;
    if found && on0 {
      CoversDisable(dir, store0, table0, name);
    }
  }

  /** `_unload(res, arguement)` and its alias `_disable`. */
  method Unload(reg: Reg.Registry, authorId: string, ownerId: Value, argument: string) returns (out: seq<Action>)
    requires reg.Valid()
    modifies reg`table, reg.config`store, reg.config`saves
    ensures reg.Valid()
    ensures out == UnloadResult(reg.dir, old(reg.config.store), authorId, ownerId, argument)
    ensures UnloadDisables(reg.dir, old(reg.config.store), authorId, ownerId, argument) ==>
              && reg.config.store == old(reg.config.store)[Reg.EnabledKey(Lower(argument)) := Bool(false)]
              && reg.table == old(reg.table) - {Lower(argument)}
              && reg.config.saves == old(reg.config.saves) + ModulesSave(reg.config.files)
    ensures !UnloadDisables(reg.dir, old(reg.config.store), authorId, ownerId, argument) ==>
              && reg.config.store == old(reg.config.store)
              && reg.table == old(reg.table)
              && reg.config.saves == old(reg.config.saves)
  {
    if !IsOwner(authorId, ownerId) {
      return [];
    }
    if argument == "" || argument == " " {
      return [Dm(Author, "No module specified!")];
    }
    var name := Lower(argument);
    if name == "core" || name == "owner" {
      return [Dm(Author, "The " + name + " module is required for my continued operation!")];
    }
    ghost var on0 := Reg.Flag(reg.config.store, name) == Bool(true);
    out := UnloadMatching(reg, name);
    RepliesEmpty(reg.dir, name, on0);
    if out == [] {
      out := [NotFound(name)];
    }
  }

  /** The module names `_modules` and `_help` go through: every entry but core and owner. */
  function Listed(entries: seq<string>): seq<string>
  {
    if entries == [] then []
    else
      var name := Reg.ModuleName(entries[|entries| - 1]);
      Listed(entries[..|entries| - 1]) + (if name != "core" && name != "owner" then [name] else [])
  }

  lemma {:induction false} ListedSpec(entries: seq<string>, name: string)
    ensures name in Listed(entries) <==> Reg.InDir(entries, name) && name != "core" && name != "owner"
    decreases |entries|
  {
    if entries != [] {
      var n := |entries|;
      ListedSpec(entries[..n - 1], name);
      assert forall i :: 0 <= i < n - 1 ==> entries[..n - 1][i] == entries[i];
      if Reg.InDir(entries, name) && Reg.ModuleName(entries[n - 1]) != name {
        var i :| 0 <= i < n && Reg.ModuleName(entries[i]) == name;
        assert entries[..n - 1][i] == entries[i];
      }
    }
  }

  function ModuleLine(store: map<string, Value>, name: string): string
  {
    (if Reg.Enabled(store, name) then "[+] " else "[-] ") + name
  }

  function Lines(store: map<string, Value>, names: seq<string>): seq<string>
  {
    seq(|names|, k requires 0 <= k < |names| => ModuleLine(store, names[k]))
  }

  /** The `module_list` text: one marked line per listed module, in directory order. */
  function ModuleList(entries: seq<string>, store: map<string, Value>): string
  {
    Terminated(Lines(store, Listed(entries)), "\n")
  }

  /** The listing is the marked lines joined by newlines, with a final newline. */
  lemma ModuleListJoined(entries: seq<string>, store: map<string, Value>)
    ensures Listed(entries) == [] ==> ModuleList(entries, store) == ""
    ensures Listed(entries) != [] ==>
              ModuleList(entries, store) == Join(Lines(store, Listed(entries)), "\n") + "\n"
  {
    if Listed(entries) != [] {
      TerminatedIsJoin(Lines(store, Listed(entries)), "\n");
    }
  }

  /** One more entry adds its marked line to the listing unless it is core or owner. */
  lemma ModuleListSnoc(dir: seq<string>, i: nat, store: map<string, Value>)
    requires i < |dir|
    ensures var name := Reg.ModuleName(dir[i]);
            ModuleList(dir[..i + 1], store)
            == ModuleList(dir[..i], store) + (if name != "core" && name != "owner" then ModuleLine(store, name) + "\n" else "")
  {
    var name := Reg.ModuleName(dir[i]);
    assert dir[..i + 1][..i] == dir[..i];
    var before := Listed(dir[..i]);
    assert Listed(dir[..i + 1]) == before + (if name != "core" && name != "owner" then [name] else []);
    if name != "core" && name != "owner" {
      var lines := Lines(store, before);
      assert Lines(store, before + [name]) == lines + [ModuleLine(store, name)];
      assert (lines + [ModuleLine(store, name)])[..|lines|] == lines;
      var grown := lines + [ModuleLine(store, name)];
      assert grown[..|grown| - 1] == lines;
      assert Terminated(grown, "\n") == Terminated(lines, "\n") + ModuleLine(store, name) + "\n";
      assert ModuleList(dir[..i + 1], store) == Terminated(grown, "\n");
      assert ModuleList(dir[..i], store) == Terminated(lines, "\n");
    } else {
      assert before + [] == before;
      assert Listed(dir[..i + 1]) == before;
    }
  }

  /** `_modules(res)`: the owner is sent the list of modules other than core and owner. */
  method ListModules(reg: Reg.Registry, authorId: string, ownerId: Value) returns (out: seq<Action>)
    ensures !IsOwner(authorId, ownerId) ==> out == []
    ensures IsOwner(authorId, ownerId) ==>
              out == [Dm(Author, "Available modules:\n```" + ModuleList(reg.dir, reg.config.store) + "```")]
  {
    if !IsOwner(authorId, ownerId) {
      return [];
    }
    var dir := reg.dir;
    var store := reg.config.store;
    var list := "";
    var i := 0;
    while i < |dir|
      invariant 0 <= i <= |dir|
      invariant list == ModuleList(dir[..i], store)
    {
      var name := Reg.ModuleName(dir[i]);
      ModuleListSnoc(dir, i, store);
      if name != "core" && name != "owner" {
        if Truthy(Config.Get(store, Reg.EnabledKey(name), Undefined)) {
          list := list + "[+] " + name + "\n";
        } else {
          list := list + "[-] " + name + "\n";
        }
      }
      i := i + 1;
    }
    assert dir[..i] == dir;
    out := [Dm(Author, "Available modules:\n```" + list + "```")];
  }

  /** `_disconnect(res)`: the owner gets a farewell said in the channel, then the
      bot disconnects; anyone else gets nothing. */
  function DisconnectResult(authorId: string, ownerId: Value): (out: seq<Action>)
    ensures Disconnect in out <==> IsOwner(authorId, ownerId)
    ensures out != [] ==> out[0] == Say(Here, "Bye!") && out[|out| - 1] == Disconnect
    ensures |out| <= 2
  {
    if IsOwner(authorId, ownerId) then [Say(Here, "Bye!"), Disconnect] else []
  }

  /** `_connect(res, arguement)`: the owner's argument must be present and
      hold an invite URL; then the bot connects with it. */
  function ConnectResult(authorId: string, ownerId: Value, argument: string): (out: seq<Action>)
    ensures !IsOwner(authorId, ownerId) ==> out == []
    ensures (exists invite :: Connect(invite) in out)
            <==> IsOwner(authorId, ownerId) && !NoArgument(argument) && Utils.ParseInviteCode(argument).Some?
    ensures forall a :: a in out && a.Connect? ==> a.invite == argument
    ensures IsOwner(authorId, ownerId) ==> |out| == 1
  {
    if !IsOwner(authorId, ownerId) then []
    else if NoArgument(argument) then [Dm(Author, "You forgot to provide an invite URL!")]
    else if Utils.ParseInviteCode(argument).None? then [Dm(Author, argument + " appears to be invalid!")]
    else [Connect(argument)]
  }

  /** The operations of the owner module; the aliases share a handler. */
  datatype OwnerOp = ConnectOp | DisconnectOp | ModulesOp | LoadOp | UnloadOp

  function OwnerOpOf(handler: string): Option<OwnerOp>
  {
    if handler == "_connect" then Some(ConnectOp)
    else if handler in ["_disconnect", "_quit", "_shutdown", "_die", "_goaway", "_bye"] then Some(DisconnectOp)
    else if handler == "_modules" then Some(ModulesOp)
    else if handler == "_load" || handler == "_enable" then Some(LoadOp)
    else if handler == "_unload" || handler == "_disable" then Some(UnloadOp)
    else None
  }

  /** quit, shutdown, die, goaway and bye act exactly as disconnect; enable and
      disable exactly as load and unload. */
  lemma OwnerAliases()
    ensures forall h :: h in ["_quit", "_shutdown", "_die", "_goaway", "_bye"] ==>
              OwnerOpOf(h) == OwnerOpOf("_disconnect") == Some(DisconnectOp)
    ensures OwnerOpOf("_enable") == OwnerOpOf("_load") == Some(LoadOp)
    ensures OwnerOpOf("_disable") == OwnerOpOf("_unload") == Some(UnloadOp)
  {
  }
}
