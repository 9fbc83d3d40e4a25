/** The chat module (src/lib/modules/chat.js): `_tell` relays a message to a
    user or a channel named by the first word of the argument. The user and
    channel directories are maps from a user name or channel name to its id. */
module Chat {
  import opened Values
  import opened Strings

  const MissingTarget: string := "You must specify a @user or #channel and a message!"

  /** _tell(res, arguements): the one action the relay performs. */
  function Tell(argument: string, isDm: bool, users: map<string, string>, channels: map<string, string>): (a: Action)
    ensures a.Reply? || a.Dm? || a.Say?
  {
    var parts := Split(argument);
    if |parts| < 2 then Reply(MissingTarget)
    else
      var to := parts[0];
      var message := Join(parts[1..], " ");
      if StartsWith(to, "<@") then
        (if isDm then Dm(Ref(to), message) else Say(Here, to + " " + message))
      else if StartsWith(to, "<#") then Say(Ref(to), message)
      else if StartsWith(to, "@") then
        var name := ChompLeft(to, "@");
        if name in users then Dm(Ref(users[name]), message)
        else Reply("I can't find the user " + to + "!")
      else if StartsWith(to, "#") then
        var name := ChompLeft(to, "#");
        if name in channels then Say(Ref(channels[name]), message)
        else Reply("I can't find the channel " + to + "!")
      else Reply("I won't talk to myself!")
  }

  /** An argument without a space names no message: only the usage reply. */
  lemma TellNeedsMessage(argument: string, isDm: bool, users: map<string, string>, channels: map<string, string>)
    requires ' ' !in argument
    ensures Tell(argument, isDm, users, channels) == Reply(MissingTarget)
  {
    SplitHead(argument);
  }

  /** With a space, the target is the text before the first space and the
      message everything after it, verbatim; the action is chosen by the first
      of the prefixes `<@`, `<#`, `@`, `#` the target has. */
  lemma TellOutcome(argument: string, isDm: bool, users: map<string, string>, channels: map<string, string>)
    requires ' ' in argument
    ensures var i := FirstSpace(argument);
            var to, message := argument[..i], argument[i + 1..];
            var a := Tell(argument, isDm, users, channels);
            && to + " " + message == argument
            && ' ' !in to
            && (StartsWith(to, "<@") && isDm ==> a == Dm(Ref(to), message))
            && (StartsWith(to, "<@") && !isDm ==> a == Say(Here, argument))
            && (!StartsWith(to, "<@") && StartsWith(to, "<#") ==> a == Say(Ref(to), message))
            && (StartsWith(to, "@") ==>
                  a == if to[1..] in users then Dm(Ref(users[to[1..]]), message)
                       else Reply("I can't find the user " + to + "!"))
            && (StartsWith(to, "#") ==>
                  a == if to[1..] in channels then Say(Ref(channels[to[1..]]), message)
                       else Reply("I can't find the channel " + to + "!"))
            && (!StartsWith(to, "<@") && !StartsWith(to, "<#") && !StartsWith(to, "@") && !StartsWith(to, "#") ==>
                  a == Reply("I won't talk to myself!"))
  {
    var i := FirstSpace(argument);
    var k :| 0 <= k < |argument| && argument[k] == ' ';
    assert i < |argument|;
    SplitHead(argument);
    SplitFirst(argument);
    var to := argument[..i];
    assert ' ' !in to by {
      forall j | 0 <= j < |to| ensures to[j] != ' ' {
        assert to[j] == argument[j];
      }
    }
    if StartsWith(to, "@") {
      assert ChompLeft(to, "@") == to[1..];
      assert !StartsWith(to, "<@") && !StartsWith(to, "<#") by {
        assert to[0] == '@';
      }
    }
    if StartsWith(to, "#") {
      assert ChompLeft(to, "#") == to[1..];
      assert !StartsWith(to, "<@") && !StartsWith(to, "<#") && !StartsWith(to, "@") by {
        assert to[0] == '#';
      }
    }
  }
}
