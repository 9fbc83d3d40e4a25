/** The module registry (src/lib/core/modules.js): the table of registered
    modules built at start-up, and `search`, which finds the module owning a
    command token. The directory listing of the modules folder is a sequence
    of file names in enumeration order; each module's declared commands and
    aliases (the `<name>:commands` entries of the modules partition) are the
    `catalog`. */
module Registry {
  import opened Values
  import opened Strings
  import Config

  /** A command a module declares, with its aliases (absent aliases read as none). */
  datatype Command = Command(name: string, aliases: seq<string>)

  type Catalog = map<string, seq<Command>>

  /** The module name of a directory entry: every ".js" stripped. */
  function ModuleName(entry: string): string
  {
    RemoveAll(entry, ".js")
  }

  function EnabledKey(name: string): string
  {
    name + ":enabled"
  }

  /** `config.get(name + ':enabled')`. */
  function Flag(store: map<string, Value>, name: string): Value
  {
    Config.Get(store, EnabledKey(name), Undefined)
  }

  predicate Enabled(store: map<string, Value>, name: string)
  {
    Truthy(Flag(store, name))
  }

  /** Some directory entry strips to `name`. */
  predicate InDir(dir: seq<string>, name: string)
  {
    exists i :: 0 <= i < |dir| && ModuleName(dir[i]) == name
  }

  /** One more entry adds its own name to the names in the directory. */
  lemma InDirSnoc(dir: seq<string>, i: nat, name: string)
    requires i < |dir|
    ensures InDir(dir[..i + 1], name) <==> InDir(dir[..i], name) || ModuleName(dir[i]) == name
  {
    assert forall k :: 0 <= k < i ==> dir[..i + 1][k] == dir[..i][k];
    assert dir[..i + 1][i] == dir[i];
  }

  function CommandsOf(catalog: Catalog, name: string): seq<Command>
  {
    if name in catalog then catalog[name] else []
  }

  /** The commands object has the token as a key (`hasOwnProperty`). */
  predicate DeclaresCommand(commands: seq<Command>, token: string)
  {
    exists c :: c in commands && c.name == token
  }

  /** Some command lists the token among its aliases. */
  predicate DeclaresAlias(commands: seq<Command>, token: string)
  {
    exists c :: c in commands && token in c.aliases
  }

  /** The module of `entry` is enabled and declares `token` as a command or an alias. */
  predicate Claims(store: map<string, Value>, catalog: Catalog, entry: string, token: string)
  {
    var name := ModuleName(entry);
    Enabled(store, name)
    && (DeclaresCommand(CommandsOf(catalog, name), token) || DeclaresAlias(CommandsOf(catalog, name), token))
  }

  /** The module of the last entry of `dir` that claims `token`. */
  function LastClaim(dir: seq<string>, store: map<string, Value>, catalog: Catalog, token: string): (r: Option<string>)
    ensures r.Some? ==> Enabled(store, r.value)
    ensures r.Some? ==> exists k :: 0 <= k < |dir| && ModuleName(dir[k]) == r.value && Claims(store, catalog, dir[k], token)
  {
    if dir == [] then None
    else if Claims(store, catalog, dir[|dir| - 1], token) then Some(ModuleName(dir[|dir| - 1]))
    else LastClaim(dir[..|dir| - 1], store, catalog, token)
  }

  /** `search` finds nothing exactly when no entry's module claims the token. */
  lemma {:induction false} SearchNone(dir: seq<string>, store: map<string, Value>, catalog: Catalog, token: string)
    ensures LastClaim(dir, store, catalog, token).None?
        <==> forall i :: 0 <= i < |dir| ==> !Claims(store, catalog, dir[i], token)
    decreases |dir|
  {
    if dir != [] {
      SearchNone(dir[..|dir| - 1], store, catalog, token);
      assert forall i :: 0 <= i < |dir| - 1 ==> dir[..|dir| - 1][i] == dir[i];
    }
  }

  /** A found module is the stripped name of a claiming entry after which no
      entry claims the token: the last claimant wins. */
  lemma {:induction false} SearchFindsLast(dir: seq<string>, store: map<string, Value>, catalog: Catalog, token: string)
    requires LastClaim(dir, store, catalog, token).Some?
    ensures exists i :: 0 <= i < |dir| && Claims(store, catalog, dir[i], token)
                        && LastClaim(dir, store, catalog, token) == Some(ModuleName(dir[i]))
                        && forall j :: i < j < |dir| ==> !Claims(store, catalog, dir[j], token)
    decreases |dir|
  {
    var n := |dir|;
    var prefix := dir[..n - 1];
    if Claims(store, catalog, dir[n - 1], token) {
      assert LastClaim(dir, store, catalog, token) == Some(ModuleName(dir[n - 1]));
    } else {
      assert LastClaim(dir, store, catalog, token) == LastClaim(prefix, store, catalog, token);
      SearchFindsLast(prefix, store, catalog, token);
      var i :| 0 <= i < n - 1 && Claims(store, catalog, prefix[i], token)
               && LastClaim(prefix, store, catalog, token) == Some(ModuleName(prefix[i]))
               && forall j :: i < j < n - 1 ==> !Claims(store, catalog, prefix[j], token);
      assert prefix[i] == dir[i];
      forall j | i < j < n
        ensures !Claims(store, catalog, dir[j], token)
      {
        if j < n - 1 {
          assert prefix[j] == dir[j];
        }
      }
    }
  }

  /** Conversely, a claiming entry with no claimant after it is what `search` returns. */
  lemma {:induction false} SearchReturnsLast(dir: seq<string>, store: map<string, Value>, catalog: Catalog, token: string, i: nat)
    requires i < |dir| && Claims(store, catalog, dir[i], token)
    requires forall j :: i < j < |dir| ==> !Claims(store, catalog, dir[j], token)
    ensures LastClaim(dir, store, catalog, token) == Some(ModuleName(dir[i]))
    decreases |dir|
  {
    var n := |dir|;
    if i < n - 1 {
      assert dir[..n - 1][i] == dir[i];
      assert forall j :: i < j < n - 1 ==> dir[..n - 1][j] == dir[j];
      SearchReturnsLast(dir[..n - 1], store, catalog, token, i);
    }
  }

  /** A found module is enabled. */
  lemma SearchFindsEnabled(dir: seq<string>, store: map<string, Value>, catalog: Catalog, token: string)
    requires LastClaim(dir, store, catalog, token).Some?
    ensures Enabled(store, LastClaim(dir, store, catalog, token).value)
  {
    SearchFindsLast(dir, store, catalog, token);
  }

  /** Disabled modules are opaque: what a module with a falsy flag declares
      never changes the result. */
  lemma {:induction false} DisabledModulesIgnored(dir: seq<string>, store: map<string, Value>, c1: Catalog, c2: Catalog, token: string)
    requires forall name :: Enabled(store, name) ==> CommandsOf(c1, name) == CommandsOf(c2, name)
    ensures LastClaim(dir, store, c1, token) == LastClaim(dir, store, c2, token)
    decreases |dir|
  {
    if dir != [] {
      DisabledModulesIgnored(dir[..|dir| - 1], store, c1, c2, token);
    }
  }

  /** The modules the constructor registers for the entries `dir`: "core" and
      "management" always, every other module when its flag is truthy. */
  function Registered(dir: seq<string>, store: map<string, Value>): set<string>
  {
    if dir == [] then {}
    else
      var name := ModuleName(dir[|dir| - 1]);
      Registered(dir[..|dir| - 1], store)
      + (if name == "core" || name == "management" || Enabled(store, name) then {name} else {})
  }

  lemma {:induction false} RegisteredSpec(dir: seq<string>, store: map<string, Value>, name: string)
    ensures name in Registered(dir, store)
        <==> (exists i :: 0 <= i < |dir| && ModuleName(dir[i]) == name)
             && (name == "core" || name == "management" || Enabled(store, name))
    decreases |dir|
  {
    if dir != [] {
      var n := |dir|;
      RegisteredSpec(dir[..n - 1], store, name);
      assert forall i :: 0 <= i < n - 1 ==> dir[..n - 1][i] == dir[i];
      if (exists i :: 0 <= i < n && ModuleName(dir[i]) == name) && ModuleName(dir[n - 1]) != name {
        var i :| 0 <= i < n && ModuleName(dir[i]) == name;
        assert dir[..n - 1][i] == dir[i];
      }
    }
  }

  /** Every entry whose module is enabled has its name in the table. */
  predicate Covers(dir: seq<string>, store: map<string, Value>, table: set<string>)
  {
    forall i :: 0 <= i < |dir| && Enabled(store, ModuleName(dir[i])) ==> ModuleName(dir[i]) in table
  }

  class Registry {
    /** The modules directory listing, in enumeration order. */
    const dir: seq<string>
    /** What each module declares under `<name>:commands`. */
    const catalog: Catalog
    const config: Config.ConfigStore
    /** The names in the global module table (`GLOBAL.k9modules`). */
    var table: set<string>

    /** Every module `search` can return has been registered, so dispatch
        finds its handlers. */
    ghost predicate Valid()
      reads this, config
    {
      Covers(dir, config.store, table)
    }

    constructor (listing: seq<string>, declared: Catalog, cfg: Config.ConfigStore)
      ensures dir == listing && catalog == declared && config == cfg
      ensures table == Registered(listing, cfg.store)
      ensures Valid()
    {
      var t: set<string> := {};
      var i := 0;
      while i < |listing|
        invariant 0 <= i <= |listing|
        invariant t == Registered(listing[..i], cfg.store)
      {
        assert listing[..i + 1][..i] == listing[..i];
        var name := ModuleName(listing[i]);
        if name == "core" || name == "management" {
          t := t + {name};
        } else if Truthy(Config.Get(cfg.store, EnabledKey(name), Undefined)) {
          t := t + {name};
        }
        i := i + 1;
      }
      assert listing[..i] == listing;
      dir, catalog, config, table := listing, declared, cfg, t;
      new;
      forall k | 0 <= k < |dir| && Enabled(config.store, ModuleName(dir[k]))
        ensures ModuleName(dir[k]) in table
      {
        RegisteredSpec(dir, config.store, ModuleName(dir[k]));
      }
    }

    /** modules.search(command): the last enabled module, in directory order,
        that declares the token as a command name or an alias. */
    method Search(command: string) returns (status: Option<string>)
      ensures status == LastClaim(dir, config.store, catalog, command)
    {
      status := None;
      var i := 0;
      while i < |dir|
        invariant 0 <= i <= |dir|
        invariant status == LastClaim(dir[..i], config.store, catalog, command)
      {
        assert dir[..i + 1][..i] == dir[..i];
        ghost var before := status;
        var name := ModuleName(dir[i]);
        if Truthy(Config.Get(config.store, EnabledKey(name), Undefined)) {
          var commands := CommandsOf(catalog, name);
          if DeclaresCommand(commands, command) {
            status := Some(name);
          } else {
            var k := 0;
            while k < |commands|
              invariant 0 <= k <= |commands|
              invariant status == if DeclaresAlias(commands[..k], command) then Some(name) else before
            {
              assert commands[..k + 1] == commands[..k] + [commands[k]];
              var aliases := commands[k].aliases;
              var j := 0;
              while j < |aliases|
                invariant 0 <= j <= |aliases|
                invariant status == if DeclaresAlias(commands[..k], command) || command in aliases[..j]
                                    then Some(name) else before
              {
                assert aliases[..j + 1] == aliases[..j] + [aliases[j]];
                if aliases[j] == command {
                  status := Some(name);
                }
                j := j + 1;
              }
              assert aliases[..j] == aliases;
              k := k + 1;
            }
            assert commands[..k] == commands;
          }
        }
        i := i + 1;
      }
      assert dir[..i] == dir;
    }
  }
}
