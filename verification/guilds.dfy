/** Identifiers and guild-level lookups shared by the bot's handlers. */
module Guilds {
  import opened Wrappers

  /** Discord snowflakes (64-bit unsigned in the source) are modelled as naturals. */
  type UserId = nat
  type RoleId = nat
  type GuildId = nat

  /** A point in time, in whole seconds; the handlers receive it as `now`. */
  type Time = int

  /** A guild role as the handlers see it: only its id and name matter. */
  datatype Role = Role(id: RoleId, name: string)

  /** The id of the first role called `name`, as `FirstOrDefault` over the
      guild's roles returns it, or None when no role has that name. */
  function FirstRoleNamed(roles: seq<Role>, name: string): (r: Option<RoleId>)
    ensures r.None? <==> forall i :: 0 <= i < |roles| ==> roles[i].name != name
    ensures r.Some? ==>
      exists i :: 0 <= i < |roles| && roles[i].name == name && roles[i].id == r.value
        && forall j :: 0 <= j < i ==> roles[j].name != name
  {
    if |roles| == 0 then None
    else if roles[0].name == name then Some(roles[0].id)
    else FirstRoleNamed(roles[1..], name)
  }
}
