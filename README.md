# K9Bot command core in Dafny

K9Bot is a modular Discord bot. This project models its text-command
core:

- **Command processor.** It decides whether a chat message is addressed to the bot: the message starts with the trigger, or it arrives in a private (DM) channel. It splits the message into a command token and an argument, asks the module registry which enabled module claims the token, and calls that module's `_<token>` handler.
- **Module registry.** Built from the module directory and the `<module>:enabled` flags in the configuration.
- **Configuration store.** Values are read with a fallback, and partitions are saved to the user's or the core's config file.
- **Permission check.** Only the owner has access.
- **Handlers of the owner, core and chat modules.** These connect, disconnect, list modules, load, unload, join, leave, afk, nickname, ping, help and tell.
- **First-run setup dialogue.** It asks the owner about the trigger and the access mode over DM.

Messages the bot sends and calls into the Discord client are not performed. They are recorded as `Action` values: a DM, a reply, a channel message, connect, disconnect, join, leave, nickname change, or a call to a handler of another module. The configuration is a map from key to a JavaScript-like `Value`, so truthiness, `=== true` and `||` fallbacks mean in the model what they mean in the source. `String(v)` does too for undefined, null, booleans, integers and strings. Objects and arrays are one `Object` value that renders as `[object Object]` (see "## Left out").

Modules:

- `Values`: JavaScript values, truthiness and actions.
- `Strings`: the `string.js` helpers and `split(' ')`/`join(' ')`.
- `Config`: the store, `get` with fallback, and `save` targets.
- `Registry`: module search and the registered table.
- `Permissions`, `Utils`: invite codes and DM channels.
- `Owner`, `CoreCommands`, `Chat`: the handlers.
- `Dispatcher`: the command processor.
- `FirstRun`: the setup dialogue.

Stateful parts are classes:

- `Config.ConfigStore`: the store, the files and the saves made.
- `Registry.Registry`: the table of registered modules.
- `Dispatcher.CommandProcessor`.
- `FirstRun.Setup`: the step and the outbox.

Each method is proved against specification functions, and the properties are lemmas about those functions.

## Model

| member | source | states |
|---|---|---|
| Strings.Lower | src/lib/core/command_processor.js:43 | ASCII `toLowerCase`: same length, each upper-case letter moved down by 32, every other character kept |
| Strings.LowerIdempotent | src/lib/core/command_processor.js:54 | lower-casing twice is lower-casing once (the trigger is lowered at 35 and again at 43/54) |
| Strings.ChompLeft | src/lib/core/command_processor.js:54 | `chompLeft(p)` removes exactly one leading `p` when present, else returns the string unchanged |
| Strings.ChompRight | src/lib/modules/core.js:189 | `chompRight(suf)` removes exactly one trailing `suf` when present, else returns the string unchanged |
| Strings.JoinSplit | src/lib/core/command_processor.js:48-50 | `split(' ')` then `join(' ')` gives back the original string |
| Strings.SplitFirst | src/lib/core/command_processor.js:48-50 | the first piece is the text before the first space, and the rest joined by spaces is everything after it, verbatim |
| Strings.TerminatedIsJoin | src/lib/modules/core.js:183-189 | appending `name + sep` for each name and then chomping the trailing `sep` equals joining the names with `sep` |
| Strings.RemoveJsSuffix | src/lib/core/modules.js:37 | `strip('.js')` maps a dot-free file name `name.js` to `name` |
| Strings.RemoveJsNoDot | src/lib/core/modules.js:65 | `strip('.js')` leaves a dot-free directory name unchanged |
| Config.Get | src/lib/core/config.js:71-79 | `get(key, fallback)` returns the stored value when it is truthy and the fallback otherwise |
| Config.GetFalsyReadsFallback | src/lib/core/config.js:71-79 | a missing or falsy key reads as the fallback (and as undefined with no fallback) |
| Config.GetTruthyIgnoresFallback | src/lib/core/config.js:71-79 | a truthy stored value is returned whatever fallback is given |
| Config.SetThenGet | src/lib/core/config.js:91-93 | after `set(k, v)`, `get(k)` gives `v` when truthy and the fallback otherwise, and every other key reads as before |
| Config.PartitionNameAsKey | src/lib/core/config.js:71-79 | a two-argument call whose first argument is a partition name reads the key of that name and falls back to the second argument's string, never to `true` |
| Config.HandlePartition | src/lib/core/config.js:19-24 | a handle names a partition exactly when it is one of the four partition names (`internal`, `modules`, `auth`, `config`) |
| Config.Backing | src/lib/core/config.js:42-59 | a partition is backed by the user's file when it exists, else the core file, else nothing |
| Config.SaveTarget | src/lib/core/config.js:121-153 | `save(handle)` does nothing for a falsy handle, rejects an unknown handle, and writes the partition's backing file or reports it missing |
| Config.BackingMapSpec | src/lib/core/config.js:42-59 | the constructor's partition-to-file map holds exactly the backed partitions, each mapped to its backing file |
| Config.MissingNamesSpec | src/lib/core/config.js:42-59 | the constructor's missing list names exactly the partitions without a file |
| Config.ConfigStore.constructor | src/lib/core/config.js:42-59 | the store starts from the loaded values with the backing map and the missing list of the files present |
| Config.ConfigStore.Set | src/lib/core/config.js:91-93 | `set` updates one key of the store and nothing else |
| Config.ConfigStore.Save | src/lib/core/config.js:121-153 | `save` appends the written file, if any, to the saves and changes nothing else |
| Config.ConfigStore.Reload | src/lib/core/config.js:104-110 | `reload` empties the in-memory store; its optional save passes no handle and so writes no file |
| Registry.SearchNone | src/lib/core/modules.js:57-89 | `search` finds nothing exactly when no enabled module declares the token as a command or an alias |
| Registry.SearchFindsLast | src/lib/core/modules.js:64-86 | a found module claims the token, and no later module in the directory does: the last claimant wins |
| Registry.SearchReturnsLast | src/lib/core/modules.js:64-86 | the last claimant in directory order is the module `search` returns |
| Registry.SearchFindsEnabled | src/lib/core/modules.js:67 | `search` only returns an enabled module |
| Registry.DisabledModulesIgnored | src/lib/core/modules.js:67 | the commands declared by disabled modules never affect the result |
| Registry.RegisteredSpec | src/lib/core/modules.js:36-46 | a module is registered at start-up exactly when it is in the directory and is core, management or enabled |
| Registry.Registry.constructor | src/lib/core/modules.js:33-47 | the registered table is the set of such modules, and it covers every enabled module |
| Registry.LastClaim | src/lib/core/modules.js:64-86 | a module found for the token is enabled and is the name of a directory entry that claims the token |
| Registry.Registry.Search | src/lib/core/modules.js:57-89 | the loop over the directory returns the last enabled claimant |
| Permissions.HasAccess | src/lib/core/permissions.js:45-54 | access is granted exactly when the user id is the configured `owner_id` |
| Permissions.OwnerOnly | src/lib/core/permissions.js:45-54 | the command is ignored; the owner has every command and nobody else has any |
| Permissions.SingleOwner | src/lib/core/permissions.js:48-51 | two users with access are the same user |
| Utils.ParseInviteCode | src/lib/core/utils.js:19-28 | a parsed code is a non-empty run of ASCII letters, digits and `-` |
| Utils.InviteNone | src/lib/core/utils.js:19-28 | no code is found exactly when the text nowhere contains `http://discord.gg/` or `https://discord.gg/` followed by a code character |
| Utils.InviteLeftmostMaximal | src/lib/core/utils.js:19-28 | the code comes from the leftmost match and is the longest run of code characters after its prefix |
| Utils.UrlRoundTrip | src/lib/core/utils.js:19-28 | `http(s)://discord.gg/` followed by a code, with or without a trailing slash, parses back to the code |
| Utils.InviteRoundTrip | src/lib/core/utils.js:19-28 | an invite URL built from a code parses back to that code, with or without a trailing slash |
| Utils.IsBotMessage | src/lib/core/utils.js:57-61 | a channel is a bot DM channel only when it is among the bot's DM channels, so with none open no message counts as one |
| Utils.ScanSkips | src/lib/core/utils.js:19-28 | positions where no match starts do not change what the leftmost-match scan finds |
| Utils.InviteInContext | src/lib/core/utils.js:19-28 | a code in an invite URL is found inside any surrounding text in which no match starts before the URL and the text after it does not continue the code |
| Utils.InviteAfterPlainText | src/lib/core/utils.js:19-28 | in particular, text before the URL that holds no `h` cannot hide it |
| Utils.DotIsLiteral | src/lib/core/utils.js:20 | the escaped dot in `discord\.gg` matches only a dot: wherever `discord` and `gg/` are separated by any other character, no match starts |
| Owner.IsOwner | src/lib/modules/owner.js:36-45 | the corrected owner check passes only against a string owner id |
| Owner.IsOwnerMatchesAccess | src/lib/modules/owner.js:36-45 | the corrected owner check agrees with the permission check for every user and command |
| Owner.OwnerLockedOut | src/lib/modules/owner.js:40 | as written, the owner check compares with the string `owner_id`, so no real user passes it |
| Owner.OwnerLockedOutExample | src/lib/modules/owner.js:40 | with `owner_id` = 42, user 42 has access but fails the owner check as written |
| Owner.FlagAsWrittenIgnoresModule | src/lib/modules/owner.js:221 | as written, the module flag read is always truthy, is not `true` unless the `modules` key is `true`, and ignores the module's own flag |
| Owner.UnloadAsWrittenExample | src/lib/modules/owner.js:296 | an enabled `weather` module reads as enabled through its own flag but not through the as-written read |
| Owner.RepliesEmpty | src/lib/modules/owner.js:217-246 | the loop replies nothing exactly when no directory entry has the requested name |
| Owner.LoadResult | src/lib/modules/owner.js:202-246 | `_load` replies nothing exactly when the author is not the owner; the owner always gets at least one reply |
| Owner.LoadOutcomes | src/lib/modules/owner.js:202-246 | loading an unknown module replies "not found"; loading an enabled one replies "already loaded"; loading a disabled one first replies "loaded!" |
| Owner.AllAlreadyLoaded | src/lib/modules/owner.js:229-232 | every reply for an already enabled module is "already loaded" |
| Owner.FirstLoadReply | src/lib/modules/owner.js:221-227 | the first matching entry of a disabled module replies "loaded!" |
| Owner.UnloadResult | src/lib/modules/owner.js:272-321 | `_unload` replies nothing exactly when the author is not the owner; the owner always gets at least one reply |
| Owner.UnloadOutcomes | src/lib/modules/owner.js:292-314 | unloading an unknown module replies "not found"; unloading an enabled one first replies "unloaded!"; unloading one that is not enabled only replies "is not loaded!" |
| Owner.AllNotLoaded | src/lib/modules/owner.js:305-310 | every reply for a module that is not enabled is "is not loaded!" |
| Owner.FirstUnloadReply | src/lib/modules/owner.js:295-304 | the first matching entry of an enabled module replies "unloaded!" |
| Owner.UnloadProtected | src/lib/modules/owner.js:285-290 | unloading core or owner only replies that the module is required, and changes nothing |
| Owner.CoversEnable | src/lib/modules/owner.js:224-227 | enabling a module and registering it keeps the table covering every enabled module |
| Owner.CoversDisable | src/lib/modules/owner.js:299-303 | disabling a module and deregistering it keeps the table covering every enabled module |
| Owner.LoadMatching | src/lib/modules/owner.js:217-239 | the loop replies per matching entry; the first match of a disabled module enables it, registers it and saves `modules` once |
| Owner.Load | src/lib/modules/owner.js:202-246 | `_load` (and `_enable`, 258-260) gives the specified replies; it changes the flag, the table and the saves exactly when the owner loads a disabled module in the directory |
| Owner.UnloadMatching | src/lib/modules/owner.js:292-314 | the loop replies per matching entry; the first match of an enabled module disables it, deregisters it and saves `modules` once |
| Owner.Unload | src/lib/modules/owner.js:272-321 | `_unload` (and `_disable`, 333-335) gives the specified replies; it changes state exactly when the owner unloads an enabled, unprotected module in the directory |
| Owner.ListedSpec | src/lib/modules/owner.js:176-188 | the list names exactly the directory's modules other than core and owner |
| Owner.ModuleListJoined | src/lib/modules/owner.js:176-188 | the list is the module lines joined by newlines, each line terminated |
| Owner.ListModules | src/lib/modules/owner.js:168-190 | `_modules` replies to the owner with the module list in a code block, and to others with nothing |
| Owner.DisconnectResult | src/lib/modules/owner.js:84-92 | `_disconnect` disconnects exactly for the owner, after saying "Bye!" |
| Owner.ConnectResult | src/lib/modules/owner.js:57-73 | `_connect` connects exactly when the owner gives an argument with an invite code, and passes the argument unchanged |
| Owner.OwnerAliases | src/lib/modules/owner.js:103-157 | `_quit`, `_shutdown`, `_die`, `_goaway` and `_bye` act as `_disconnect`; `_enable` acts as `_load`; `_disable` acts as `_unload` |
| CoreCommands.JoinsNamedSpec | src/lib/modules/core.js:43-47 | `_join` joins exactly the voice channels whose name is the argument |
| CoreCommands.LeavesJoinedSpec | src/lib/modules/core.js:60-64 | `_leave` leaves exactly the channels the bot is in |
| CoreCommands.JoinsIdSpec | src/lib/modules/core.js:93-97 | `_afk` joins exactly the channels whose id is the configured AFK channel |
| CoreCommands.JoinVoice | src/lib/modules/core.js:36-48 | without an argument `_join` asks for a channel, and otherwise joins the named voice channels |
| CoreCommands.Leave | src/lib/modules/core.js:59-65 | the loop leaves every joined channel (`_part` at 76-78 is the same) |
| CoreCommands.Afk | src/lib/modules/core.js:89-105 | `_afk` joins the AFK channel when one is configured, else leaves every joined channel |
| CoreCommands.Nickname | src/lib/modules/core.js:117-124 | `_nickname` (and `_nick`, 136-138) complains without an argument, and otherwise renames the bot to the argument |
| CoreCommands.Ping | src/lib/modules/core.js:149-151 | `_ping` DMs "pong" to the author |
| CoreCommands.HelpActiveNames | src/lib/modules/core.js:176-182 | a module's commands are listed exactly when it is in the directory, is not core or owner, and is enabled |
| CoreCommands.HelpInactiveNames | src/lib/modules/core.js:176-186 | a module is named as inactive exactly when it is in the directory, is not core or owner, and is disabled |
| CoreCommands.HelpCount | src/lib/modules/core.js:176-186 | every entry other than core and owner lands on exactly one of the two sides |
| CoreCommands.HelpInactiveSection | src/lib/modules/core.js:189-198 | the help starts with its header; it ends with the inactive names joined by ", " (no trailing separator) exactly when some module is disabled, and otherwise with the command list |
| CoreCommands.HelpOwnerPart | src/lib/modules/core.js:168-173 | the owner's help is everyone's help with the owner commands inserted after the header |
| CoreCommands.CollectHelp | src/lib/modules/core.js:176-186 | the loop collects the active modules' command lists and the inactive names |
| CoreCommands.Help | src/lib/modules/core.js:162-200 | `_help` DMs the author the help text |
| Chat.Tell | src/lib/modules/chat.js:32-82 | `_tell` only ever replies, sends a DM or says something in a channel |
| Chat.TellNeedsMessage | src/lib/modules/chat.js:37-42 | an argument without a space only earns the usage reply |
| Chat.TellOutcome | src/lib/modules/chat.js:32-82 | the target is the text before the first space and the message the rest, verbatim; the action follows the first of the prefixes `<@`, `<#`, `@`, `#` (chat.js:44-81) |
| Dispatcher.Trigger | src/lib/core/command_processor.js:35 | the corrected trigger is lower-case |
| Dispatcher.TriggerRead | src/lib/core/command_processor.js:35 | the corrected trigger is the configured one, lowered, or "!" when none is set |
| Dispatcher.TriggerAsWrittenIgnoresTrigger | src/lib/core/command_processor.js:35 | as written, with no `config` key the trigger is the word "trigger" |
| Dispatcher.TriggerAsWrittenExample | src/lib/core/command_processor.js:35 | with the trigger set to "?", the corrected read gives "?" but the read as written gives "trigger" |
| Dispatcher.Addressed | src/lib/core/command_processor.js:43-45 | a DM is always addressed to the bot, and so is every message when the trigger is empty |
| Dispatcher.Parse | src/lib/core/command_processor.js:47-54 | the token holds no space, and the token and the argument together are no longer than the message |
| Dispatcher.ParseAtFirstSpace | src/lib/core/command_processor.js:47-54 | the token is the lowered first word with the trigger chomped, and the argument is everything after the first space |
| Dispatcher.TokenStripsTriggerOnce | src/lib/core/command_processor.js:54 | the trigger is removed once from the front of the first word when present |
| Dispatcher.ParseRoundTrip | src/lib/core/command_processor.js:47-54 | `trigger + command + " " + argument` parses back to the lowered command and the argument |
| Dispatcher.Route | src/lib/core/command_processor.js:43-65 | a handler is invoked only for an addressed message and a non-empty module name, and it is `_` followed by the parsed token |
| Dispatcher.UnaddressedIgnored | src/lib/core/command_processor.js:43-45 | a message outside DM without the trigger invokes nothing |
| Dispatcher.RouteIffSearch | src/lib/core/command_processor.js:43-65 | a handler is invoked exactly when the message is addressed and `search` finds a non-empty module name; it is `_<token>` of that module, given the argument |
| Dispatcher.RouteTargetRegistered | src/lib/core/command_processor.js:57-64 | an invoked module is registered, enabled, and declares the token as a command or an alias |
| Dispatcher.RequesterNotConsulted | src/lib/core/command_processor.js:32 | the author plays no part in routing, since the permission check is disabled |
| Dispatcher.Outcome | src/lib/core/command_processor.js:63-65 | the effects of the called handler; an owner-module handler called by anyone but the owner has none |
| Dispatcher.OnlyOwnerChangesState | src/lib/modules/owner.js:202-321 | a message from anyone but the owner changes neither the configuration nor the registry |
| Dispatcher.OwnerCommandsSilentForOthers | src/lib/modules/owner.js:36-45 | owner-module commands from anyone else do nothing |
| Dispatcher.CommandProcessor.constructor | src/lib/core/command_processor.js:27-37 | the processor fixes the trigger read at construction |
| Dispatcher.CommandProcessor.Resolve | src/lib/core/command_processor.js:40-60 | the message handler resolves the routed invocation |
| Dispatcher.CommandProcessor.OnMessage | src/lib/core/command_processor.js:37-66 | a message yields the effects of the routed handler, and the new configuration, table and saves follow from them |
| Dispatcher.CommandProcessor.RunOwner | src/lib/core/command_processor.js:63-65 | calling an owner-module handler gives its specified replies, and changes the configuration, the table and the saves only as a load or unload by the owner does |
| Dispatcher.RunOther | src/lib/core/command_processor.js:63-65 | calling a core, chat or other module's handler gives its specified actions and changes no state |
| FirstRun.TriggerBetweenBackticks | src/lib/core/firstrun.js:49-55 | a trigger other than a lone backtick is shown between two backticks |
| FirstRun.TriggerDisplayInjective | src/lib/core/firstrun.js:49-55 | distinct triggers are shown distinctly, and a trigger shown in backticks reads back unchanged |
| FirstRun.NextStep | src/lib/core/firstrun.js:90-106 | a message never moves the step back, and a started dialogue never returns to idle |
| FirstRun.NextStore | src/lib/core/firstrun.js:101-116 | only steps 1.5 and 2 change the store, and only the `trigger`, `access_mode` and `firstrun` keys |
| FirstRun.StepOnlyAdvances | src/lib/core/firstrun.js:84-126 | the setup step never goes back, and step 2 is never left |
| FirstRun.TwoMessagesReachAccess | src/lib/core/firstrun.js:90-106 | after two messages the dialogue is at the access-mode question |
| FirstRun.InvalidRoleReprompts | src/lib/core/firstrun.js:107-122 | an invalid access mode changes nothing and is quoted back in a re-prompt |
| FirstRun.CompletionStopsSetup | src/lib/core/firstrun.js:107-122 | choosing an access mode records it and sets `firstrun`, so setup does not start again |
| FirstRun.TriggerTakesEffect | src/lib/core/firstrun.js:101-106 | the trigger typed at step 1.5 is stored verbatim and is the processor's trigger, lowered |
| FirstRun.Setup.constructor | src/lib/core/firstrun.js:32-38 | the setup starts at step 1 with the greeting DM unless `firstrun` is `true` |
| FirstRun.Setup.Complete | src/lib/core/firstrun.js:178-188 | `complete` sends the farewell, sets `firstrun` and saves `internal` |
| FirstRun.Setup.OnMessage | src/lib/core/firstrun.js:84-126 | messages from the bot change nothing; others advance the step, update the store, save and prompt as specified |

## Left out

- `src/k9.js`, `src/lib/core/connection.js` and `src/lib/core/logging.js` are not part of this model. These are start-up, connection events and log output.
- The audio, weather, giphy, urban and 8ball modules are not part of this model. Routing reaches them as a `Handler` action.
- The directory listings, `fileExists`, `require` and the nconf file formats are inputs to the model: a directory is a sequence of names, the files are a set, and the loaded store is a map. nconf's hierarchy of stores and its merging of the `:`-separated keys are flattened to one map from key to value.
- `config.save_all` (config.js:164-168) is not modelled. Nothing in the core calls it.
- `getServerName` (utils.js:37-47) reads the Discord client's server list. `fileExists` (utils.js:72-90) reads the file system. Neither is used by the modelled handlers: file existence is an input to the configuration store.
- `Strings.Lower` is ASCII only: JavaScript's Unicode case mapping is not modelled. Numbers are integers only.
- Discordie calls are recorded as actions, not performed. Their promises, errors and ordering are not modelled. The first-run dialogue's asynchronous replies are taken to arrive in the order sent.
- `getCommands` (the help text each module contributes) is an uninterpreted parameter of the help.
- The user and channel lookups of `_tell` are maps from name to id. The source passes a `string.js` wrapper to `getBy`, and Discordie's matching is not part of this model. The model looks up the plain name.
- Registry.Registry.Search: throws from `search` are not modelled. In the source, an enabled module with no `<name>:commands` entry makes `module_commands.hasOwnProperty` throw a TypeError (modules.js:68-70). A truthy `aliases` value that is not an array makes `aliases.forEach` throw (modules.js:77). In the model the catalog maps each module to a list of commands whose aliases are lists of strings. A module missing from the catalog declares no commands, so `search` goes on to the next entry.
- Arrays in the configuration are not a value of their own. `Values.JsString` renders every object, arrays included, as `[object Object]`, where JavaScript joins an array's elements with commas. This only matters to `FirstRun.TriggerDisplay` for an array-valued trigger.
- Dispatcher.CommandProcessor.OnMessage: it requires that the routed handler exists (`HandlerExists`). In the source, a module that claims a token it has no handler for throws, and the throw is not modelled.
- Dispatcher.CommandProcessor.constructor: it requires a string trigger. In the source, a non-string configured trigger makes `toLowerCase` throw.
- Dispatcher.Outcome: the `_nickname` password is read from the `password` key. The source reads `get('auth', 'password')` (core.js:123), which returns the `auth` key or the string "password", the same key-as-fallback misuse as the findings below.
- The `management` module is registered unconditionally (modules.js:39) but its handlers are not part of this model.

## Findings

| source | as written | input that shows it | evidently intended | confidence | as-written member | corrected member |
|---|---|---|---|---|---|---|
| src/lib/core/command_processor.js:35 | `config.get('config', 'trigger', '!')` reads the key `config` with fallback `'trigger'` | store `{trigger: "?"}`: the trigger used is the word "trigger", not "?" | `config.get('trigger', '!')`, as firstrun.js:49 reads it | high, not executed | Dispatcher.TriggerAsWrittenExample | Dispatcher.TriggerRead |
| src/lib/modules/owner.js:40 | `config.get('auth', 'owner_id')` reads the key `auth` with fallback the string `'owner_id'` (also core.js:168) | store `{owner_id: "42"}`, author "42": permissions grant access but the owner check fails, so every owner command is ignored | compare with `config.get('owner_id')`, as permissions.js:49 does | high, not executed | Owner.OwnerLockedOutExample | Owner.IsOwnerMatchesAccess |
| src/lib/modules/owner.js:221 | `config.get('modules', name + ':enabled')` reads the key `modules` with fallback the flag's key string; `config.set('modules', …)` at 224/299 writes the key `modules` (also owner.js:180, 296 and core.js:180) | store `{"weather:enabled": true}`: `_unload weather` reads the module as not enabled and replies that it is not loaded | read and write `name + ':enabled'`, as modules.js:42 and 67 do | high, not executed | Owner.UnloadAsWrittenExample | Owner.Load |
