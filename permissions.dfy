/** The access check (src/lib/core/permissions.js): only the configured owner
    has access, whatever the command. */
module Permissions {
  import opened Values
  import Config

  /** The owner id as `config.get('owner_id')` reads it. */
  function OwnerId(store: map<string, Value>): Value
  {
    Config.Get(store, "owner_id", Undefined)
  }

  /** hasAccess(user_id, command): the user id is strictly equal to the
      configured owner id. */
  function HasAccess(store: map<string, Value>, userId: string, command: string): (r: bool)
    ensures r <==> userId != "" && Config.Lookup(store, "owner_id") == Str(userId)
  {
    Str(userId) == OwnerId(store)
  }

  /** The owner has access to every command; every other user to none, and the
      command never matters. */
  lemma OwnerOnly(store: map<string, Value>, userId: string, c1: string, c2: string)
    ensures HasAccess(store, userId, c1) == HasAccess(store, userId, c2)
    ensures Config.Lookup(store, "owner_id") == Str(userId) && userId != "" ==> HasAccess(store, userId, c1)
    ensures Config.Lookup(store, "owner_id") != Str(userId) ==> !HasAccess(store, userId, c1)
  {
  }

  /** At most one user has access. */
  lemma SingleOwner(store: map<string, Value>, u1: string, u2: string, command: string)
    requires HasAccess(store, u1, command) && HasAccess(store, u2, command)
    ensures u1 == u2
  {
  }
}
