/** JavaScript values as the bot's configuration and handlers see them, and
    the recorded effects a handler can have on the chat gateway. */
module Values {

  datatype Option<T> = None | Some(value: T)

  /** A configuration value: what a JSON document (or a JavaScript default
      argument) can hold. Objects and arrays are one case, since the code
      only ever tests them for truthiness. Numbers are integers only. */
  datatype Value =
    | Undefined
    | Null
    | Bool(b: bool)
    | Num(n: int)
    | Str(s: string)
    | Object

  /** JavaScript truthiness: undefined, null, false, 0 and "" are falsy. */
  predicate Truthy(v: Value)
  {
    match v
    case Undefined => false
    case Null => false
    case Bool(b) => b
    case Num(n) => n != 0
    case Str(s) => s != ""
    case Object => true
  }

  /** Where a message goes: the author of the current message, the channel
      the current message arrived in, the configured owner's DM channel, or an
      explicit user/channel reference. */
  datatype Target = Author | Here | TheOwner | Ref(id: string)

  /** One effect on the outside world, in the order a handler performs it. */
  datatype Action =
    | Dm(to: Target, text: string)             // utils.dm
    | Reply(text: string)                      // utils.reply to the author
    | Say(to: Target, text: string)            // utils.say
    | Disconnect                               // bot.disconnect()
    | Connect(invite: string)                  // utils.connect
    | JoinChannel(channelId: string)           // channel.join()
    | LeaveChannel(channelId: string)          // channel.leave()
    | EditNick(password: Value, name: string)  // bot.User.edit
    | Handler(moduleName: string, handler: string, argument: string)
      // a call into a module whose handlers are not part of this model

  /** The decimal digits of a natural number. */
  function Digits(n: nat): (r: string)
    ensures |r| >= 1
    ensures forall k :: 0 <= k < |r| ==> '0' <= r[k] <= '9'
    decreases n
  {
    var d := [(48 + n % 10) as char];
    if n < 10 then d else Digits(n / 10) + d
  }

  /** String(v): how JavaScript renders a value joined into a string. */
  function JsString(v: Value): string
  {
    match v
    case Undefined => "undefined"
    case Null => "null"
    case Bool(b) => if b then "true" else "false"
    case Num(n) => if n < 0 then "-" + Digits(-n) else Digits(n)
    case Str(s) => s
    case Object => "[object Object]"
  }
}
