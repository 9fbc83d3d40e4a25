/** The command processor (src/lib/core/command_processor.js): how a chat
    message becomes one handler call. A message is addressed to the bot when
    its lower-cased content starts with the lower-cased trigger or it arrives
    over a DM channel; its first space-separated word, lower-cased and with
    the trigger removed once from its front, is looked up with `search`, and
    the handler `'_' + token` of the module found is called with the rest of
    the content. No permission check precedes the call. */
module Dispatcher {
  import opened Values
  import opened Strings
  import Config
  import Reg = Registry
  import Utils
  import Permissions
  import Owner
  import Chat
  import CoreCommands

  /** The trigger as command_processor.js:35 literally reads it,
      `config.get('config', 'trigger', '!')`: the key "config" with "trigger"
      as fallback (the third argument is ignored), then lower-cased. A value
      that is not a string has no `toLowerCase`, and start-up fails. */
  function TriggerAsWritten(store: map<string, Value>): Option<string>
  {
    match Config.Get(store, "config", Str("trigger"))
    case Str(t) => Some(Lower(t))
    case _ => None
  }

  /** The trigger read from the key the first-run setup writes, "trigger",
      with "!" as the default, then lower-cased. */
  function Trigger(store: map<string, Value>): (t: Option<string>)
    ensures t.Some? ==> Lower(t.value) == t.value
  {
    match Config.Get(store, "trigger", Str("!"))
    case Str(t) => LowerIdempotent(t); Some(Lower(t))
    case _ => None
  }

  /** As written, the configured trigger is never read: without a truthy
      top-level "config" entry the trigger is the word "trigger". */
  lemma TriggerAsWrittenIgnoresTrigger(store: map<string, Value>)
    requires !Truthy(Config.Lookup(store, "config"))
    ensures TriggerAsWritten(store) == Some("trigger")
  {
    Config.PartitionNameAsKey(store, "config", "trigger");
    assert Lower("trigger") == "trigger";
  }

  lemma TriggerAsWrittenExample()
    ensures Trigger(map["trigger" := Str("?")]) == Some("?")
    ensures TriggerAsWritten(map["trigger" := Str("?")]) == Some("trigger")
  {
    TriggerAsWrittenIgnoresTrigger(map["trigger" := Str("?")]);
    assert Lower("?") == "?";
  }

  /** The trigger is the stored non-empty string, lower-cased, and "!" when
      nothing truthy is stored. */
  lemma TriggerRead(store: map<string, Value>, t: string)
    ensures !Truthy(Config.Lookup(store, "trigger")) ==> Trigger(store) == Some("!")
    ensures Config.Lookup(store, "trigger") == Str(t) && t != "" ==> Trigger(store) == Some(Lower(t))
  {
    assert Lower("!") == "!";
  }

  /** The gate of command_processor.js:43. */
  predicate Addressed(content: string, trigger: string, isDm: bool)
    ensures isDm || trigger == "" ==> Addressed(content, trigger, isDm)
  {
    StartsWith(Lower(content), Lower(trigger)) || isDm
  }

  /** The command token and the argument string of a message. */
  datatype Parsed = Parsed(token: string, argument: string)

  function Parse(content: string, trigger: string): (p: Parsed)
    ensures ' ' !in p.token
    ensures |p.token| + |p.argument| <= |content|
  {
    SplitFirst(content);
    SplitHeadHasNoSpace(content);
    var parts := Split(content);
    Parsed(ChompLeft(Lower(parts[0]), Lower(trigger)), Join(parts[1..], " "))
  }

  /** The token comes from the text before the first space; the argument is
      everything after that space verbatim, or "" without a space, so head,
      space and argument rebuild the content. */
  lemma ParseAtFirstSpace(content: string, trigger: string)
    ensures var i := FirstSpace(content);
            var p := Parse(content, trigger);
            && p.token == ChompLeft(Lower(content[..i]), Lower(trigger))
            && (i < |content| ==> p.argument == content[i + 1..] && content == content[..i] + " " + p.argument)
            && (i == |content| ==> p.argument == "" && content[..i] == content)
  {
    SplitFirst(content);
  }

  /** The token is lower-cased and loses at most one copy of the trigger from
      its front; a token without the trigger (a DM) is only lower-cased. */
  lemma TokenStripsTriggerOnce(content: string, trigger: string)
    ensures var head := Lower(content[..FirstSpace(content)]);
            var token := Parse(content, trigger).token;
            && (StartsWith(head, Lower(trigger)) ==> head == Lower(trigger) + token)
            && (!StartsWith(head, Lower(trigger)) ==> token == head)
  {
    ParseAtFirstSpace(content, trigger);
  }

  /** A space-free command typed after a space-free trigger comes back
      lower-cased, and the argument verbatim. */
  lemma ParseRoundTrip(trigger: string, command: string, argument: string)
    requires ' ' !in trigger && ' ' !in command
    ensures Parse(trigger + command + " " + argument, trigger) == Parsed(Lower(command), argument)
    ensures Parse(trigger + command, trigger) == Parsed(Lower(command), "")
  {
    var head := trigger + command;
    assert forall k :: 0 <= k < |head| ==> head[k] != ' ' by {
      forall k | 0 <= k < |head| ensures head[k] != ' ' {
        if k < |trigger| { assert head[k] == trigger[k]; } else { assert head[k] == command[k - |trigger|]; }
      }
    }
    LowerAppend(trigger, command);
    assert ChompLeft(Lower(head), Lower(trigger)) == Lower(command) by {
      assert Lower(head)[|trigger|..] == Lower(command);
    }
    var s := head + " " + argument;
    assert s[|head|] == ' ';
    assert FirstSpace(s) == |head| by {
      assert forall k :: 0 <= k < |head| ==> s[k] == head[k];
    }
    assert s[..|head|] == head;
    assert s[|head| + 1..] == argument;
    ParseAtFirstSpace(s, trigger);
    assert FirstSpace(head) == |head|;
    assert head[..|head|] == head;
    ParseAtFirstSpace(head, trigger);
  }

  /** One handler call: the module found, `'_' + token`, and the argument. */
  datatype Invocation = Invocation(moduleName: string, handler: string, argument: string)

  /** The call a message leads to, if any. A module whose name is the empty
      string is falsy and is not called. */
  function Route(content: string, trigger: string, isDm: bool, dir: seq<string>,
                 store: map<string, Value>, catalog: Reg.Catalog): (r: Option<Invocation>)
    ensures r.Some? ==> Addressed(content, trigger, isDm) && r.value.moduleName != ""
                        && r.value.handler == "_" + Parse(content, trigger).token
  {
    if !Addressed(content, trigger, isDm) then None
    else
      var p := Parse(content, trigger);
      match Reg.LastClaim(dir, store, catalog, p.token)
      case None => None
      case Some(m) => if m == "" then None else Some(Invocation(m, "_" + p.token, p.argument))
  }

  /** A message that is neither addressed with the trigger nor sent by DM calls nothing. */
  lemma UnaddressedIgnored(content: string, trigger: string, isDm: bool, dir: seq<string>,
                           store: map<string, Value>, catalog: Reg.Catalog)
    requires !StartsWith(Lower(content), Lower(trigger)) && !isDm
    ensures Route(content, trigger, isDm, dir, store, catalog).None?
  {
  }

  /** A handler is called exactly when `search` finds a (non-empty) module
      name for the token; the handler is `'_'` + the token as typed, so an
      alias stays an alias, and it gets the argument string. */
  lemma RouteIffSearch(content: string, trigger: string, isDm: bool, dir: seq<string>,
                       store: map<string, Value>, catalog: Reg.Catalog)
    ensures var p := Parse(content, trigger);
            var found := Reg.LastClaim(dir, store, catalog, p.token);
            var r := Route(content, trigger, isDm, dir, store, catalog);
            && (r.Some? <==> Addressed(content, trigger, isDm) && found.Some? && found.value != "")
            && (r.Some? ==> r.value == Invocation(found.value, "_" + p.token, p.argument))
  {
  }

  /** The module called is enabled, declares the token as a command or an
      alias, and is in the registered table. */
  lemma RouteTargetRegistered(content: string, trigger: string, isDm: bool, dir: seq<string>,
                              store: map<string, Value>, catalog: Reg.Catalog, table: set<string>)
    requires Reg.Covers(dir, store, table)
    requires Route(content, trigger, isDm, dir, store, catalog).Some?
    ensures var inv := Route(content, trigger, isDm, dir, store, catalog).value;
            var token := Parse(content, trigger).token;
            && inv.moduleName in table
            && Reg.Enabled(store, inv.moduleName)
            && (Reg.DeclaresCommand(Reg.CommandsOf(catalog, inv.moduleName), token)
                || Reg.DeclaresAlias(Reg.CommandsOf(catalog, inv.moduleName), token))
  {
    var token := Parse(content, trigger).token;
    Reg.SearchFindsLast(dir, store, catalog, token);
  }

  /** Who sent the message does not take part in routing: two authors
      sending the same content in the same channel reach the same handler. */
  lemma RequesterNotConsulted(m1: Message, m2: Message, trigger: string, dms: set<string>,
                              dir: seq<string>, store: map<string, Value>, catalog: Reg.Catalog)
    requires m1.content == m2.content && m1.channelId == m2.channelId
    ensures Route(m1.content, trigger, Utils.IsBotMessage(dms, m1.channelId), dir, store, catalog)
            == Route(m2.content, trigger, Utils.IsBotMessage(dms, m2.channelId), dir, store, catalog)
  {
  }

  /** A chat message as the handlers see it. */
  datatype Message = Message(content: string, authorId: string, channelId: string)

  /** What the handlers read from the gateway: the guild's channels and AFK
      channel id, the user and channel directories, and `getCommands`. */
  datatype Env = Env(guildChannels: seq<CoreCommands.Channel>, afkId: Value,
                     users: map<string, string>, channels: map<string, string>,
                     getCommands: string -> string)

  /** The modules whose handlers are part of this model. */
  predicate Modelled(moduleName: string)
  {
    moduleName == "owner" || moduleName == "core" || moduleName == "chat"
  }

  /** The module object has the called handler. */
  predicate HandlerExists(inv: Invocation)
  {
    && (inv.moduleName == "owner" ==> Owner.OwnerOpOf(inv.handler).Some?)
    && (inv.moduleName == "core" ==> CoreCommands.CoreOpOf(inv.handler).Some?)
    && (inv.moduleName == "chat" ==> inv.handler == "_tell")
  }

  /** The actions of one handler call, with the owner id and the password
      looked up under "owner_id" and "password". */
  function Outcome(inv: Invocation, msg: Message, isDm: bool, env: Env, dir: seq<string>, store: map<string, Value>): (out: seq<Action>)
    ensures inv.moduleName == "owner" && !Owner.IsOwner(msg.authorId, Permissions.OwnerId(store)) ==> out == []
  {
    var ownerId := Permissions.OwnerId(store);
    var arg := inv.argument;
    if inv.moduleName == "owner" then
      match Owner.OwnerOpOf(inv.handler)
      case Some(ConnectOp) => Owner.ConnectResult(msg.authorId, ownerId, arg)
      case Some(DisconnectOp) => Owner.DisconnectResult(msg.authorId, ownerId)
      case Some(ModulesOp) =>
        if Owner.IsOwner(msg.authorId, ownerId)
        then [Dm(Author, "Available modules:\n```" + Owner.ModuleList(dir, store) + "```")]
        else []
      case Some(LoadOp) => Owner.LoadResult(dir, store, msg.authorId, ownerId, arg)
      case Some(UnloadOp) => Owner.UnloadResult(dir, store, msg.authorId, ownerId, arg)
      case None => []
    else if inv.moduleName == "core" then
      match CoreCommands.CoreOpOf(inv.handler)
      case Some(JoinOp) =>
        if CoreCommands.NoArgument(arg) then [Reply("No channel specified!")]
        else CoreCommands.JoinsNamed(env.guildChannels, arg)
      case Some(LeaveOp) => CoreCommands.LeavesJoined(env.guildChannels)
      case Some(AfkOp) =>
        if Truthy(env.afkId) then CoreCommands.JoinsId(env.guildChannels, env.afkId)
        else CoreCommands.LeavesJoined(env.guildChannels)
      case Some(NicknameOp) => [CoreCommands.Nickname(arg, Config.Get(store, "password", Undefined))]
      case Some(PingOp) => [CoreCommands.Ping()]
      case Some(HelpOp) =>
        [Dm(Author, CoreCommands.HelpText(dir, store, Owner.IsOwner(msg.authorId, ownerId), env.getCommands))]
      case None => []
    else if inv.moduleName == "chat" then
      [Chat.Tell(arg, isDm, env.users, env.channels)]
    else [Handler(inv.moduleName, inv.handler, arg)]
  }

  function Effects(route: Option<Invocation>, msg: Message, isDm: bool, env: Env, dir: seq<string>, store: map<string, Value>): seq<Action>
  {
    match route
    case None => []
    case Some(inv) => Outcome(inv, msg, isDm, env, dir, store)
  }

  /** The owner operation a route reaches, if any. */
  function OwnerOpFor(route: Option<Invocation>): Option<Owner.OwnerOp>
  {
    if route.Some? && route.value.moduleName == "owner" then Owner.OwnerOpOf(route.value.handler) else None
  }

  /** The route loads a module. */
  predicate Enables(route: Option<Invocation>, authorId: string, dir: seq<string>, store: map<string, Value>)
  {
    OwnerOpFor(route) == Some(Owner.LoadOp)
    && Owner.LoadEnables(dir, store, authorId, Permissions.OwnerId(store), route.value.argument)
  }

  /** The route unloads a module. */
  predicate Disables(route: Option<Invocation>, authorId: string, dir: seq<string>, store: map<string, Value>)
  {
    OwnerOpFor(route) == Some(Owner.UnloadOp)
    && Owner.UnloadDisables(dir, store, authorId, Permissions.OwnerId(store), route.value.argument)
  }

  function NextStore(route: Option<Invocation>, authorId: string, dir: seq<string>, store: map<string, Value>): map<string, Value>
  {
    if Enables(route, authorId, dir, store) then store[Reg.EnabledKey(Lower(route.value.argument)) := Bool(true)]
    else if Disables(route, authorId, dir, store) then store[Reg.EnabledKey(Lower(route.value.argument)) := Bool(false)]
    else store
  }

  function NextTable(route: Option<Invocation>, authorId: string, dir: seq<string>, store: map<string, Value>, table: set<string>): set<string>
  {
    if Enables(route, authorId, dir, store) then table + {Lower(route.value.argument)}
    else if Disables(route, authorId, dir, store) then table - {Lower(route.value.argument)}
    else table
  }

  function NextSaves(route: Option<Invocation>, authorId: string, dir: seq<string>, store: map<string, Value>,
                     files: set<Config.FileRef>, saves: seq<Config.FileRef>): seq<Config.FileRef>
  {
    if Enables(route, authorId, dir, store) || Disables(route, authorId, dir, store)
    then saves + Owner.ModulesSave(files)
    else saves
  }

  /** Only the owner changes state: a message from anyone else leaves the
      configuration and the module table as they were. */
  lemma OnlyOwnerChangesState(route: Option<Invocation>, authorId: string, dir: seq<string>,
                              store: map<string, Value>, table: set<string>, command: string)
    requires !Permissions.HasAccess(store, authorId, command)
    ensures NextStore(route, authorId, dir, store) == store
    ensures NextTable(route, authorId, dir, store, table) == table
  {
    Owner.IsOwnerMatchesAccess(store, authorId, command);
  }

  /** Every owner command has no effect at all for anyone but the owner. */
  lemma OwnerCommandsSilentForOthers(inv: Invocation, msg: Message, isDm: bool, env: Env,
                                     dir: seq<string>, store: map<string, Value>)
    requires inv.moduleName == "owner"
    requires !Permissions.HasAccess(store, msg.authorId, inv.handler)
    ensures Outcome(inv, msg, isDm, env, dir, store) == []
  {
    Owner.IsOwnerMatchesAccess(store, msg.authorId, inv.handler);
  }

  class CommandProcessor {
    /** The lower-cased trigger, read once at construction. */
    const trigger: string
    const registry: Reg.Registry
    /** The ids of the bot's DM channels. */
    const dmChannels: set<string>

    constructor (reg: Reg.Registry, dms: set<string>)
      requires Trigger(reg.config.store).Some?
      ensures trigger == Trigger(reg.config.store).value
      ensures registry == reg && dmChannels == dms
    {
      var t := Trigger(reg.config.store).value;
      trigger := t;
      registry := reg;
      dmChannels := dms;
    }

    /** The call the current configuration routes a message to. */
    function Routed(msg: Message): Option<Invocation>
      reads this, registry, registry.config
    {
      Route(msg.content, trigger, Utils.IsBotMessage(dmChannels, msg.channelId),
            registry.dir, registry.config.store, registry.catalog)
    }

    /** The gate, the tokenising and the module search of the message callback. */
    method Resolve(msg: Message) returns (call: Option<Invocation>)
      ensures call == Routed(msg)
    {
      var content := msg.content;
      if !StartsWith(Lower(content), Lower(trigger)) && !Utils.IsBotMessage(dmChannels, msg.channelId) {
        return None;
      }
      var parts := Split(content);
      var command := parts[0];
      var argument := Join(parts[1..], " ");
      command := ChompLeft(Lower(command), Lower(trigger));
      var status := registry.Search(command);
      var handler := "_" + command;
      if status.Some? && status.value != "" {
        call := Some(Invocation(status.value, handler, argument));
      } else {
        call := None;
      }
    }

    /** An owner-module handler: the only calls that change the configuration
        and the module table. */
    method RunOwner(inv: Invocation, msg: Message, isDm: bool, env: Env) returns (out: seq<Action>)
      requires registry.Valid()
      requires inv.moduleName == "owner" && Owner.OwnerOpOf(inv.handler).Some?
      modifies registry`table, registry.config`store, registry.config`saves
      ensures registry.Valid()
      ensures out == Outcome(inv, msg, isDm, env, registry.dir, old(registry.config.store))
      ensures registry.config.store == NextStore(Some(inv), msg.authorId, registry.dir, old(registry.config.store))
      ensures registry.table == NextTable(Some(inv), msg.authorId, registry.dir, old(registry.config.store), old(registry.table))
      ensures registry.config.saves == NextSaves(Some(inv), msg.authorId, registry.dir, old(registry.config.store),
                                                 registry.config.files, old(registry.config.saves))
    {
      var ownerId := Permissions.OwnerId(registry.config.store);
      match Owner.OwnerOpOf(inv.handler).value
      case ConnectOp => out := Owner.ConnectResult(msg.authorId, ownerId, inv.argument);
      case DisconnectOp => out := Owner.DisconnectResult(msg.authorId, ownerId);
      case ModulesOp => out := Owner.ListModules(registry, msg.authorId, ownerId);
      case LoadOp => out := Owner.Load(registry, msg.authorId, ownerId, inv.argument);
      case UnloadOp => out := Owner.Unload(registry, msg.authorId, ownerId, inv.argument);
    }

    /** The message callback: resolve the message, then run the handler. */
    method OnMessage(msg: Message, env: Env) returns (out: seq<Action>)
      requires registry.Valid()
      requires Routed(msg).Some? ==> HandlerExists(Routed(msg).value)
      modifies registry`table, registry.config`store, registry.config`saves
      ensures registry.Valid()
      ensures out == Effects(old(Routed(msg)), msg, Utils.IsBotMessage(dmChannels, msg.channelId), env,
                             registry.dir, old(registry.config.store))
      ensures registry.config.store == NextStore(old(Routed(msg)), msg.authorId, registry.dir, old(registry.config.store))
      ensures registry.table == NextTable(old(Routed(msg)), msg.authorId, registry.dir, old(registry.config.store), old(registry.table))
      ensures registry.config.saves == NextSaves(old(Routed(msg)), msg.authorId, registry.dir, old(registry.config.store),
                                                 registry.config.files, old(registry.config.saves))
    {
      var call := Resolve(msg);
      if call.None? {
        return [];
      }
      var inv := call.value;
      var isDm := Utils.IsBotMessage(dmChannels, msg.channelId);
      if inv.moduleName == "owner" {
        out := RunOwner(inv, msg, isDm, env);
      } else {
        out := RunOther(inv, msg, isDm, env, registry.dir, registry.config.store);
      }
    }
  }

  /** A handler of any module but owner: it changes no state. */
  method RunOther(inv: Invocation, msg: Message, isDm: bool, env: Env, dir: seq<string>, store: map<string, Value>)
    returns (out: seq<Action>)
    requires inv.moduleName != "owner" && HandlerExists(inv)
    ensures out == Outcome(inv, msg, isDm, env, dir, store)
  {
    var arg := inv.argument;
    if inv.moduleName == "core" {
      match CoreCommands.CoreOpOf(inv.handler).value
      case JoinOp => out := CoreCommands.JoinVoice(env.guildChannels, arg);
      case LeaveOp => out := CoreCommands.Leave(env.guildChannels);
      case AfkOp => out := CoreCommands.Afk(env.guildChannels, env.afkId);
      case NicknameOp => out := [CoreCommands.Nickname(arg, Config.Get(store, "password", Undefined))];
      case PingOp => out := [CoreCommands.Ping()];
      case HelpOp =>
        var help := CoreCommands.Help(dir, store, Owner.IsOwner(msg.authorId, Permissions.OwnerId(store)), env.getCommands);
        out := [help];
    } else if inv.moduleName == "chat" {
      out := [Chat.Tell(arg, isDm, env.users, env.channels)];
    } else {
      out := [Handler(inv.moduleName, inv.handler, arg)];
    }
  }
}
