/** The core module (src/lib/modules/core.js): voice-channel commands, the
    nickname change, ping and the help text. A guild's channels are a
    sequence in the order the gateway enumerates them; `getCommands` is an
    uninterpreted function from a module name to its command summary. */
module CoreCommands {
  import opened Values
  import opened Strings
  import Reg = Registry

  /** A guild channel as the handlers see it. */
  datatype Channel = Channel(id: string, name: string, voice: bool, joined: bool)

  /** `!arguement || arguement === ' '`. */
  predicate NoArgument(argument: string)
  {
    argument == "" || argument == " "
  }

  /** The channels `_join` joins: every voice channel named exactly `name`, in order. */
  function JoinsNamed(channels: seq<Channel>, name: string): seq<Action>
  {
    if channels == [] then []
    else
      var c := channels[|channels| - 1];
      JoinsNamed(channels[..|channels| - 1], name)
      + (if c.name == name && c.voice then [JoinChannel(c.id)] else [])
  }

  /** The channels leaving sends: every joined channel, in order. */
  function LeavesJoined(channels: seq<Channel>): seq<Action>
  {
    if channels == [] then []
    else
      var c := channels[|channels| - 1];
      LeavesJoined(channels[..|channels| - 1]) + (if c.joined then [LeaveChannel(c.id)] else [])
  }

  /** The channels `_afk` joins: every channel whose id is the AFK id. */
  function JoinsId(channels: seq<Channel>, afkId: Value): seq<Action>
  {
    if channels == [] then []
    else
      var c := channels[|channels| - 1];
      JoinsId(channels[..|channels| - 1], afkId) + (if Str(c.id) == afkId then [JoinChannel(c.id)] else [])
  }

  /** `_join` joins exactly the voice channels with that name, and nothing else. */
  lemma {:induction false} JoinsNamedSpec(channels: seq<Channel>, name: string)
    ensures forall a :: a in JoinsNamed(channels, name) ==> a.JoinChannel?
    ensures forall id :: JoinChannel(id) in JoinsNamed(channels, name)
              <==> exists c :: c in channels && c.id == id && c.name == name && c.voice
    decreases |channels|
  {
    if channels != [] {
      var n := |channels|;
      JoinsNamedSpec(channels[..n - 1], name);
      assert channels == channels[..n - 1] + [channels[n - 1]];
    }
  }

  /** Leaving leaves exactly the joined channels, and nothing else. */
  lemma {:induction false} LeavesJoinedSpec(channels: seq<Channel>)
    ensures forall a :: a in LeavesJoined(channels) ==> a.LeaveChannel?
    ensures forall id :: LeaveChannel(id) in LeavesJoined(channels)
              <==> exists c :: c in channels && c.id == id && c.joined
    decreases |channels|
  {
    if channels != [] {
      var n := |channels|;
      LeavesJoinedSpec(channels[..n - 1]);
      assert channels == channels[..n - 1] + [channels[n - 1]];
    }
  }

  /** `_afk` with an AFK id joins exactly the channels carrying that id. */
  lemma {:induction false} JoinsIdSpec(channels: seq<Channel>, afkId: Value)
    ensures forall a :: a in JoinsId(channels, afkId) ==> a.JoinChannel? && Str(a.channelId) == afkId
    ensures forall c :: c in channels && Str(c.id) == afkId ==> JoinChannel(c.id) in JoinsId(channels, afkId)
    decreases |channels|
  {
    if channels != [] {
      var n := |channels|;
      JoinsIdSpec(channels[..n - 1], afkId);
      assert channels == channels[..n - 1] + [channels[n - 1]];
    }
  }

  /** `_join(res, arguements)`. */
  method JoinVoice(channels: seq<Channel>, argument: string) returns (out: seq<Action>)
    ensures NoArgument(argument) ==> out == [Reply("No channel specified!")]
    ensures !NoArgument(argument) ==> out == JoinsNamed(channels, argument)
  {
    if argument == "" || argument == " " {
      return [Reply("No channel specified!")];
    }
    out := [];
    var i := 0;
    while i < |channels|
      invariant 0 <= i <= |channels|
      invariant out == JoinsNamed(channels[..i], argument)
    {
      assert channels[..i + 1][..i] == channels[..i];
      if channels[i].name == argument && channels[i].voice {
        out := out + [JoinChannel(channels[i].id)];
      }
      i := i + 1;
    }
    assert channels[..i] == channels;
  }

  /** `_leave(res)`, and `_part`, which calls it. */
  method Leave(channels: seq<Channel>) returns (out: seq<Action>)
    ensures out == LeavesJoined(channels)
  {
    out := [];
    var i := 0;
    while i < |channels|
      invariant 0 <= i <= |channels|
      invariant out == LeavesJoined(channels[..i])
    {
      assert channels[..i + 1][..i] == channels[..i];
      if channels[i].joined {
        out := out + [LeaveChannel(channels[i].id)];
      }
      i := i + 1;
    }
    assert channels[..i] == channels;
  }

  /** `_afk(res)`: with a truthy AFK channel id, join the channel with that id;
      otherwise leave every joined channel. */
  method Afk(channels: seq<Channel>, afkId: Value) returns (out: seq<Action>)
    ensures Truthy(afkId) ==> out == JoinsId(channels, afkId)
    ensures !Truthy(afkId) ==> out == LeavesJoined(channels)
  {
    if Truthy(afkId) {
      out := [];
      var i := 0;
      while i < |channels|
        invariant 0 <= i <= |channels|
        invariant out == JoinsId(channels[..i], afkId)
      {
        assert channels[..i + 1][..i] == channels[..i];
        if Str(channels[i].id) == afkId {
          out := out + [JoinChannel(channels[i].id)];
        }
        i := i + 1;
      }
      assert channels[..i] == channels;
    } else {
      out := Leave(channels);
    }
  }

  /** The operations of the core module; `_part` and `_nick` share a handler. */
  datatype CoreOp = JoinOp | LeaveOp | AfkOp | NicknameOp | PingOp | HelpOp

  function CoreOpOf(handler: string): Option<CoreOp>
  {
    if handler == "_join" then Some(JoinOp)
    else if handler == "_leave" || handler == "_part" then Some(LeaveOp)
    else if handler == "_afk" then Some(AfkOp)
    else if handler == "_nickname" || handler == "_nick" then Some(NicknameOp)
    else if handler == "_ping" then Some(PingOp)
    else if handler == "_help" then Some(HelpOp)
    else None
  }

  /** `_nickname(res, arguement)` and its alias `_nick`, given the password the
      handler looks up. */
  function Nickname(argument: string, password: Value): (a: Action)
    ensures NoArgument(argument) <==> a == Dm(Author, "You forgot to give me a new name!")
    ensures a.EditNick? <==> !NoArgument(argument)
    ensures a.EditNick? ==> a.name == argument && a.password == password
  {
    if NoArgument(argument) then Dm(Author, "You forgot to give me a new name!")
    else EditNick(password, argument)
  }

  /** `_ping(res)`. */
  function Ping(): (a: Action)
    ensures a.Dm? && a.to == Author && a.text == "pong"
  {
    Dm(Author, "pong")
  }

  /** The modules among `entries`, other than core and owner, that are enabled. */
  function ActiveNames(entries: seq<string>, store: map<string, Value>): seq<string>
  {
    if entries == [] then []
    else
      var name := Reg.ModuleName(entries[|entries| - 1]);
      ActiveNames(entries[..|entries| - 1], store)
      + (if name != "core" && name != "owner" && Reg.Enabled(store, name) then [name] else [])
  }

  /** The modules among `entries`, other than core and owner, that are disabled. */
  function InactiveNames(entries: seq<string>, store: map<string, Value>): seq<string>
  {
    if entries == [] then []
    else
      var name := Reg.ModuleName(entries[|entries| - 1]);
      InactiveNames(entries[..|entries| - 1], store)
      + (if name != "core" && name != "owner" && !Reg.Enabled(store, name) then [name] else [])
  }

  /** The command summaries of `names`, concatenated in order. */
  function Summaries(names: seq<string>, getCommands: string -> string): string
  {
    if names == [] then ""
    else Summaries(names[..|names| - 1], getCommands) + getCommands(names[|names| - 1])
  }

  /** The active list holds exactly the enabled modules of the directory other than core and owner. */
  lemma {:induction false} HelpActiveNames(entries: seq<string>, store: map<string, Value>, name: string)
    ensures name in ActiveNames(entries, store) <==>
              Reg.InDir(entries, name) && name != "core" && name != "owner" && Reg.Enabled(store, name)
    decreases |entries|
  {
    if entries != [] {
      var n := |entries|;
      var prefix, last := entries[..n - 1], Reg.ModuleName(entries[n - 1]);
      HelpActiveNames(prefix, store, name);
      Reg.InDirSnoc(entries, n - 1, name);
      assert entries[..n] == entries;
      var extra := if last != "core" && last != "owner" && Reg.Enabled(store, last) then [last] else [];
      assert ActiveNames(entries, store) == ActiveNames(prefix, store) + extra;
      assert name in ActiveNames(prefix, store) + extra <==> name in ActiveNames(prefix, store) || name in extra;
    }
  }

  /** The inactive list holds exactly the disabled modules of the directory other than core and owner. */
  lemma {:induction false} HelpInactiveNames(entries: seq<string>, store: map<string, Value>, name: string)
    ensures name in InactiveNames(entries, store) <==>
              Reg.InDir(entries, name) && name != "core" && name != "owner" && !Reg.Enabled(store, name)
    decreases |entries|
  {
    if entries != [] {
      var n := |entries|;
      var prefix, last := entries[..n - 1], Reg.ModuleName(entries[n - 1]);
      HelpInactiveNames(prefix, store, name);
      Reg.InDirSnoc(entries, n - 1, name);
      assert entries[..n] == entries;
      var extra := if last != "core" && last != "owner" && !Reg.Enabled(store, last) then [last] else [];
      assert InactiveNames(entries, store) == InactiveNames(prefix, store) + extra;
      assert name in InactiveNames(prefix, store) + extra <==> name in InactiveNames(prefix, store) || name in extra;
    }
  }

  /** Every entry other than core and owner is listed once, on one side. */
  lemma {:induction false} HelpCount(entries: seq<string>, store: map<string, Value>)
    ensures |ActiveNames(entries, store)| + |InactiveNames(entries, store)|
            == |entries| - CountProtected(entries)
    decreases |entries|
  {
    if entries != [] {
      HelpCount(entries[..|entries| - 1], store);
    }
  }

  /** The number of entries that strip to core or owner. */
  function CountProtected(entries: seq<string>): nat
  {
    if entries == [] then 0
    else
      var name := Reg.ModuleName(entries[|entries| - 1]);
      CountProtected(entries[..|entries| - 1]) + (if name == "core" || name == "owner" then 1 else 0)
  }

  const Header: string := "__**Commands:**__\n"
  const InactiveHeader: string := "\n__**Inactive Modules:**__\n"

  /** The owner's commands for the owner, the core commands and the commands
      of every enabled module. */
  function CommandList(entries: seq<string>, store: map<string, Value>, isOwner: bool, getCommands: string -> string): string
  {
    (if isOwner then getCommands("owner") else "") + getCommands("core")
    + Summaries(ActiveNames(entries, store), getCommands)
  }

  /** When some module is disabled, their names joined by ", " under their own heading. */
  function InactiveSection(entries: seq<string>, store: map<string, Value>): string
  {
    var inactive := InactiveNames(entries, store);
    if inactive == [] then "" else InactiveHeader + Join(inactive, ", ")
  }

  /** The text `_help` sends. */
  function HelpText(entries: seq<string>, store: map<string, Value>, isOwner: bool, getCommands: string -> string): string
  {
    Header + CommandList(entries, store, isOwner, getCommands) + InactiveSection(entries, store)
  }

  /** The help starts with its header, and ends with the inactive names
      separated by ", " (no trailing separator) exactly when some module is
      disabled; otherwise the command list ends it. */
  lemma HelpInactiveSection(entries: seq<string>, store: map<string, Value>, isOwner: bool, getCommands: string -> string)
    ensures var text := HelpText(entries, store, isOwner, getCommands);
            var inactive := InactiveNames(entries, store);
            && Header <= text
            && (inactive != [] ==>
                  var tail := InactiveHeader + Join(inactive, ", ");
                  |tail| <= |text| && text[|text| - |tail|..] == tail)
            && (inactive == [] ==> text == Header + CommandList(entries, store, isOwner, getCommands))
  {
    var text := HelpText(entries, store, isOwner, getCommands);
    var front := Header + CommandList(entries, store, isOwner, getCommands);
    var tail := InactiveSection(entries, store);
    assert text == front + tail;
    assert text[|front|..] == tail;
    assert front[..|Header|] == Header;
    assert text[..|Header|] == front[..|Header|];
    if tail == "" {
      assert text == front;
    }
  }

  /** The owner's command list is everyone's with the owner's commands in front. */
  lemma OwnerCommandsFirst(entries: seq<string>, store: map<string, Value>, getCommands: string -> string)
    ensures CommandList(entries, store, true, getCommands)
            == getCommands("owner") + CommandList(entries, store, false, getCommands)
  {
    var sums := Summaries(ActiveNames(entries, store), getCommands);
    var owner, core := getCommands("owner"), getCommands("core");
    assert CommandList(entries, store, false, getCommands) == core + sums by {
      assert "" + core == core;
    }
    assert owner + core + sums == owner + (core + sums);
  }

  /** Only the owner sees the owner's commands: the two texts differ by exactly that part. */
  lemma HelpOwnerPart(entries: seq<string>, store: map<string, Value>, getCommands: string -> string)
    ensures var rest := HelpText(entries, store, false, getCommands)[|Header|..];
            HelpText(entries, store, true, getCommands) == Header + getCommands("owner") + rest
  {
    var owner := getCommands("owner");
    var others := CommandList(entries, store, false, getCommands);
    var tail := InactiveSection(entries, store);
    var rest := others + tail;
    assert HelpText(entries, store, false, getCommands)[|Header|..] == rest by {
      assert Header + others + tail == Header + rest;
      assert (Header + rest)[|Header|..] == rest;
    }
    assert HelpText(entries, store, true, getCommands) == Header + owner + rest by {
      OwnerCommandsFirst(entries, store, getCommands);
      assert Header + (owner + others) + tail == Header + owner + rest;
    }
  }

  /** One more entry extends the command list by its module's commands
      exactly when the module is listed and enabled. */
  lemma ActiveStep(dir: seq<string>, i: nat, store: map<string, Value>, getCommands: string -> string, start: string)
    requires i < |dir|
    ensures var name := Reg.ModuleName(dir[i]);
            var sums := Summaries(ActiveNames(dir[..i], store), getCommands);
            var sums' := Summaries(ActiveNames(dir[..i + 1], store), getCommands);
            && (name != "core" && name != "owner" && Truthy(Reg.Flag(store, name)) ==>
                  start + sums' == start + sums + getCommands(name))
            && (!(name != "core" && name != "owner" && Truthy(Reg.Flag(store, name))) ==>
                  start + sums' == start + sums)
  {
    var name := Reg.ModuleName(dir[i]);
    assert dir[..i + 1][..i] == dir[..i];
    var active := ActiveNames(dir[..i], store);
    if name != "core" && name != "owner" && Truthy(Reg.Flag(store, name)) {
      assert ActiveNames(dir[..i + 1], store) == active + [name];
      assert (active + [name])[..|active|] == active;
      var sums := Summaries(active, getCommands);
      assert start + (sums + getCommands(name)) == start + sums + getCommands(name);
    } else {
      assert ActiveNames(dir[..i + 1], store) == active + [] == active;
    }
  }

  /** One more entry extends the inactive list by its name and a separator
      exactly when the module is listed and disabled. */
  lemma InactiveStep(dir: seq<string>, i: nat, store: map<string, Value>)
    requires i < |dir|
    ensures var name := Reg.ModuleName(dir[i]);
            var idle := Terminated(InactiveNames(dir[..i], store), ", ");
            var idle' := Terminated(InactiveNames(dir[..i + 1], store), ", ");
            && (name != "core" && name != "owner" && !Truthy(Reg.Flag(store, name)) ==> idle' == idle + name + ", ")
            && (!(name != "core" && name != "owner" && !Truthy(Reg.Flag(store, name))) ==> idle' == idle)
  {
    var name := Reg.ModuleName(dir[i]);
    assert dir[..i + 1][..i] == dir[..i];
    var inactive := InactiveNames(dir[..i], store);
    if name != "core" && name != "owner" && !Truthy(Reg.Flag(store, name)) {
      assert InactiveNames(dir[..i + 1], store) == inactive + [name];
      assert (inactive + [name])[..|inactive|] == inactive;
    } else {
      assert InactiveNames(dir[..i + 1], store) == inactive + [] == inactive;
    }
  }

  /** `_help`'s loop over the modules directory, appending to the command list
      `start` and collecting the inactive names, each followed by ", ". */
  method CollectHelp(dir: seq<string>, store: map<string, Value>, getCommands: string -> string, start: string)
    returns (commandList: string, inactive: string)
    ensures commandList == start + Summaries(ActiveNames(dir, store), getCommands)
    ensures inactive == Terminated(InactiveNames(dir, store), ", ")
  {
    commandList := start;
    inactive := "";
    var i := 0;
    while i < |dir|
      invariant 0 <= i <= |dir|
      invariant commandList == start + Summaries(ActiveNames(dir[..i], store), getCommands)
      invariant inactive == Terminated(InactiveNames(dir[..i], store), ", ")
    {
      var name := Reg.ModuleName(dir[i]);
      ActiveStep(dir, i, store, getCommands, start);
      InactiveStep(dir, i, store);
      if name != "core" && name != "owner" {
        if Truthy(Reg.Flag(store, name)) {
          commandList := commandList + getCommands(name);
        } else {
          inactive := inactive + name + ", ";
        }
      }
      i := i + 1;
    }
    assert dir[..i] == dir;
  }

  /** The collected inactive names, once their trailing separator is chomped,
      give the inactive section. */
  lemma HelpTail(dir: seq<string>, store: map<string, Value>, inactive: string)
    requires inactive == Terminated(InactiveNames(dir, store), ", ")
    ensures inactive == "" <==> InactiveNames(dir, store) == []
    ensures inactive != "" ==> InactiveHeader + ChompRight(inactive, ", ") == InactiveSection(dir, store)
  {
    var names := InactiveNames(dir, store);
    if names != [] {
      TerminatedIsJoin(names, ", ");
    }
  }

  /** `_help(res)`, given whether the author is the owner. */
  method Help(dir: seq<string>, store: map<string, Value>, isOwner: bool, getCommands: string -> string) returns (out: Action)
    ensures out == Dm(Author, HelpText(dir, store, isOwner, getCommands))
  {
    var commandList := "";
    if isOwner {
      commandList := commandList + getCommands("owner");
    }
    commandList := commandList + getCommands("core");
    assert commandList == (if isOwner then getCommands("owner") else "") + getCommands("core");
    var inactive;
    commandList, inactive := CollectHelp(dir, store, getCommands, commandList);
    HelpTail(dir, store, inactive);
    commandList := Header + commandList;
    if inactive != "" {
      inactive := ChompRight(inactive, ", ");
      commandList := commandList + (InactiveHeader + inactive);
    } else {
      assert commandList == commandList + "";
    }
    out := Dm(Author, commandList);
  }
}
