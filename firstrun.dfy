/** The first-run setup (src/lib/core/firstrun.js): a dialogue with the owner
    over DM that asks whether to change the trigger and which access mode to
    use. Messages to the owner are recorded in `outbox`. */
module FirstRun {
  import opened Values
  import opened Strings
  import Config
  import Dispatcher

  /** `this.step`: unset (the setup never started), 1, 1.5 or 2. */
  datatype Step = Idle | One | OneHalf | Two

  /** Twice the numeric step, so that 1.5 is a whole number. */
  function Rank(s: Step): nat
  {
    match s
    case Idle => 0
    case One => 2
    case OneHalf => 3
    case Two => 4
  }

  /** The constructor's gate: the `firstrun` flag is not exactly `true`. */
  predicate StartsSetup(store: map<string, Value>)
  {
    Config.Get(store, "firstrun", Bool(false)) != Bool(true)
  }

  /** How `go` shows the trigger: a lone backtick is put in double quotes,
      anything else between backticks. */
  function TriggerDisplay(trigger: Value): string
  {
    if trigger == Str("`") then "\"`\"" else "`" + JsString(trigger) + "`"
  }

  /** A trigger other than a lone backtick is shown between two backticks. */
  lemma TriggerBetweenBackticks(a: string)
    requires a != "`"
    ensures var d := TriggerDisplay(Str(a));
            |d| == |a| + 2 && d[0] == '`' && d[|d| - 1] == '`' && d[1..|d| - 1] == a
  {
    var d := TriggerDisplay(Str(a));
    assert d == "`" + a + "`";
    assert d[1..|d| - 1] == a;
  }

  /** Different string triggers are displayed differently, and the trigger
      can be read back from between the backticks. */
  lemma TriggerDisplayInjective(a: string, b: string)
    ensures TriggerDisplay(Str(a)) == TriggerDisplay(Str(b)) ==> a == b
    ensures a != "`" ==> var d := TriggerDisplay(Str(a));
                         |d| == |a| + 2 && d[0] == '`' && d[|d| - 1] == '`' && d[1..|d| - 1] == a
  {
    if a != "`" { TriggerBetweenBackticks(a); }
    if b != "`" { TriggerBetweenBackticks(b); }
    if a == "`" && b != "`" {
      assert TriggerDisplay(Str(a))[0] == '"';
    } else if a != "`" && b == "`" {
      assert TriggerDisplay(Str(b))[0] == '"';
    }
  }

  function Greeting(store: map<string, Value>): string
  {
    "Hello!\n\n" +
    "My name is K9, and I am a flexible,\n" +
    "modular bot for the Discord chat service.\n\n" +
    "If you are receiving this message, it is\n" +
    "because I have not yet received my initial\n" +
    "programming.\n\n" +
    "Let's do that now!\n\n" +
    "...\n\n" +
    "For starters, every command that I can\n" +
    "process is initiated by a trigger. Right\n" +
    "now, that trigger is " + TriggerDisplay(Config.Get(store, "trigger", Str("!"))) + "\n\n" +
    "Would you like to change the trigger?"
  }

  const TriggerPrompt: string := "Ok. What would you like to set as the trigger?"

  const AccessPrompt: string :=
    "The next thing to set up is user access.\n" +
    "By default, all users have access to every\n" +
    "command. I actually support three different\n" +
    "access modes:\n\n" +
    "```Whitelist:     All user access is disallowed with the\n" +
    "               exception of my owner. Users may be added\n" +
    "               to a whitelist to allow access.\n" +
    "Blacklist:     All user access is allowed. Users may be\n" +
    "               added to a blacklist to disallow access.\n" +
    "Role:          All user access is disallowed by default.\n" +
    "               My owner can define access to commands based\n" +
    "               on their Discord user role.```\n\n" +
    "Enter \"Whitelist\", \"Blacklist\" or \"Role\" to choose."

  const Farewell: string := "Sounds good! That's all I have for you right now.\nThanks, and have fun!"

  function NotARole(content: string): string
  {
    "I'm sorry. \"" + content + "\" is not a valid role.\nPlease re-enter."
  }

  /** One of the three access modes, already lower-cased. */
  predicate IsAccessMode(command: string)
  {
    command == "whitelist" || command == "blacklist" || command == "role"
  }

  /** The step after a message from someone other than the bot. */
  function NextStep(step: Step, content: string): (r: Step)
    ensures Rank(r) >= Rank(step)
    ensures step != Idle ==> r != Idle
  {
    match step
    case Idle => Idle
    case One => if Lower(content) == "yes" then OneHalf else Two
    case OneHalf => Two
    case Two => Two
  }

  /** The configuration after such a message. */
  function NextStore(store: map<string, Value>, step: Step, content: string): (r: map<string, Value>)
    ensures r != store ==> step == OneHalf || step == Two
    ensures forall k :: k in store && k != "trigger" && k != "access_mode" && k != "firstrun" ==> k in r && r[k] == store[k]
  {
    match step
    case OneHalf => store["trigger" := Str(content)]
    case Two =>
      if IsAccessMode(Lower(content))
      then store["access_mode" := Str(Lower(content))]["firstrun" := Bool(true)]
      else store
    case _ => store
  }

  /** The partitions saved after such a message, in order. */
  function SavedHandles(step: Step, content: string): seq<string>
  {
    match step
    case OneHalf => ["config"]
    case Two => if IsAccessMode(Lower(content)) then ["internal", "internal"] else []
    case _ => []
  }

  /** The files the saves of `handles` write, in order. */
  function SaveFiles(files: set<Config.FileRef>, handles: seq<string>): seq<Config.FileRef>
  {
    if handles == [] then []
    else
      var o := Config.SaveTarget(files, Str(handles[0]));
      (if o.Wrote? then [o.file] else []) + SaveFiles(files, handles[1..])
  }

  /** The messages sent to the owner after such a message. */
  function Prompts(step: Step, content: string): seq<string>
  {
    match step
    case Idle => []
    case One => if Lower(content) == "yes" then [TriggerPrompt] else [AccessPrompt]
    case OneHalf => [AccessPrompt]
    case Two => if IsAccessMode(Lower(content)) then [Farewell] else [NotARole(content)]
  }

  function ToOwner(texts: seq<string>): seq<Action>
  {
    seq(|texts|, k requires 0 <= k < |texts| => Dm(TheOwner, texts[k]))
  }

  /** One prompt is one DM to the owner. */
  lemma ToOwnerOne(text: string)
    ensures ToOwner([text]) == [Dm(TheOwner, text)]
  {
  }

  /** The files written by one save and then another. */
  lemma SaveFilesTwice(files: set<Config.FileRef>, handle: string)
    ensures SaveFiles(files, [handle, handle]) == SaveFiles(files, [handle]) + SaveFiles(files, [handle])
  {
    assert [handle, handle][1..] == [handle];
    assert [handle][1..] == [];
  }

  /** The step only moves forward, and step 2 is never left. */
  lemma StepOnlyAdvances(step: Step, content: string)
    ensures Rank(NextStep(step, content)) >= Rank(step)
    ensures step == Two ==> NextStep(step, content) == Two
    ensures step != Idle ==> NextStep(step, content) != Idle
  {
  }

  /** Once started, the trigger question is over after at most two messages. */
  lemma TwoMessagesReachAccess(step: Step, c1: string, c2: string)
    requires step != Idle
    ensures NextStep(NextStep(step, c1), c2) == Two
  {
  }

  /** A message that is not an access mode, at step 2, changes nothing but
      earns a re-prompt quoting it in its original case. */
  lemma InvalidRoleReprompts(store: map<string, Value>, content: string)
    requires !IsAccessMode(Lower(content))
    ensures NextStep(Two, content) == Two && NextStore(store, Two, content) == store
    ensures SavedHandles(Two, content) == []
    ensures Prompts(Two, content) == [NotARole(content)]
  {
  }

  /** Choosing an access mode records it and marks setup complete, so the
      next start-up does not run the setup again. */
  lemma CompletionStopsSetup(store: map<string, Value>, content: string)
    requires IsAccessMode(Lower(content))
    ensures !StartsSetup(NextStore(store, Two, content))
    ensures Config.Get(NextStore(store, Two, content), "access_mode", Undefined) == Str(Lower(content))
  {
    var s := NextStore(store, Two, content);
    assert "access_mode" != "firstrun";
    assert s["access_mode"] == Str(Lower(content));
  }

  /** The trigger typed at step 1.5, in its original case, is what the
      processor reads (lower-cased) as its trigger at its next start-up. */
  lemma TriggerTakesEffect(store: map<string, Value>, content: string)
    requires content != ""
    ensures Config.Lookup(NextStore(store, OneHalf, content), "trigger") == Str(content)
    ensures Dispatcher.Trigger(NextStore(store, OneHalf, content)) == Some(Lower(content))
  {
    Dispatcher.TriggerRead(NextStore(store, OneHalf, content), content);
  }

  class Setup {
    var step: Step
    const config: Config.ConfigStore
    /** The id of the bot's own user. */
    const botId: string
    /** Every message sent to the owner, in order. */
    var outbox: seq<Action>

    /** Starts the dialogue with the greeting unless setup was completed. */
    constructor (cfg: Config.ConfigStore, bot: string)
      ensures config == cfg && botId == bot
      ensures StartsSetup(cfg.store) ==> step == One && outbox == [Dm(TheOwner, Greeting(cfg.store))]
      ensures !StartsSetup(cfg.store) ==> step == Idle && outbox == []
    {
      config := cfg;
      botId := bot;
      if Config.Get(cfg.store, "firstrun", Bool(false)) != Bool(true) {
        step := One;
        outbox := [Dm(TheOwner, Greeting(cfg.store))];
      } else {
        step := Idle;
        outbox := [];
      }
    }

    /** `complete()`. */
    method Complete()
      modifies this`outbox, config`store, config`saves
      ensures outbox == old(outbox) + [Dm(TheOwner, Farewell)]
      ensures config.store == old(config.store)["firstrun" := Bool(true)]
      ensures config.saves == old(config.saves) + SaveFiles(config.files, ["internal"])
    {
      outbox := outbox + [Dm(TheOwner, Farewell)];
      config.Set("firstrun", Bool(true));
      var _ := config.Save(Str("internal"));
    }

    /** The setup's message callback. Messages from the bot itself are ignored. */
    method OnMessage(authorId: string, content: string)
      modifies this`step, this`outbox, config`store, config`saves
      ensures authorId == botId ==>
                step == old(step) && outbox == old(outbox)
                && config.store == old(config.store) && config.saves == old(config.saves)
      ensures authorId != botId ==>
                && step == NextStep(old(step), content)
                && config.store == NextStore(old(config.store), old(step), content)
                && config.saves == old(config.saves) + SaveFiles(config.files, SavedHandles(old(step), content))
                && outbox == old(outbox) + ToOwner(Prompts(old(step), content))
    {
      if authorId == botId {
        return;
      }
      var command := Lower(content);
      if step == One {
        if command == "yes" {
          step := OneHalf;
          outbox := outbox + [Dm(TheOwner, TriggerPrompt)];
          ToOwnerOne(TriggerPrompt);
        } else {
          step := Two;
          outbox := outbox + [Dm(TheOwner, AccessPrompt)];
          ToOwnerOne(AccessPrompt);
        }
        assert config.saves == config.saves + [];
      } else if step == OneHalf {
        config.Set("trigger", Str(content));
        var _ := config.Save(Str("config"));
        step := Two;
        outbox := outbox + [Dm(TheOwner, AccessPrompt)];
        ToOwnerOne(AccessPrompt);
      } else if step == Two {
        if command == "whitelist" || command == "blacklist" || command == "role" {
          config.Set("access_mode", Str(command));
          var _ := config.Save(Str("internal"));
          Complete();
          ToOwnerOne(Farewell);
          SaveFilesTwice(config.files, "internal");
        } else {
          outbox := outbox + [Dm(TheOwner, NotARole(content))];
          ToOwnerOne(NotARole(content));
          assert config.saves == config.saves + [];
        }
      } else {
        assert outbox == outbox + [] && config.saves == config.saves + [];
      }
    }
  }
}
