/** Crowd-mute (src/automod/CrowdMute.cs): enough members reacting with the
    camera emote to a message in the CyberPatriot guild time its author out. */
module CrowdMute {
  import opened Wrappers
  import opened Guilds
  import opened ReactionVote

  /** The custom emote `<:1984:1025604468559061042>`. */
  const Camera: Emote := Custom(1025604468559061042)

  /** The CyberPatriot guild, the only guild where crowd-mute runs. */
  const CyberPatriotGuild: GuildId := 301768361136750592

  const SecondsPerMinute: nat := 60

  /** Crowd-mute's parameters of the shared reaction vote: the duration is in
      minutes, the bot needs Moderate Members, "No Crowdmute" holders are not
      counted, and an author who is already timed out is left alone. */
  const CrowdMuteRule: Rule := Rule(Camera, Some(CyberPatriotGuild), ModerateMembers,
                                    SecondsPerMinute, "No Crowdmute", true)

  /** Time the author out for `minutes`, on the votes of `reactors` members;
      or do nothing, for the reason in the verdict. */
  datatype Decision = Mute(minutes: int, reactors: nat) | NoMute(verdict: Verdict)

  /** The decision on one added reaction, with `cfg` holding the parsed
      `crowd_mute_threshold` and `crowd_mute_duration`. */
  function Decide(cfg: Config, ev: Event): (d: Decision)
    ensures cfg.threshold == 0 ==> d.NoMute?
    ensures ev.reactorIsBot ==> d.NoMute?
    ensures d.Mute? ==> ev.emote == Camera && ev.channel == Text(CyberPatriotGuild)
    ensures d.Mute? ==> ev.message.Some? && !ev.message.value.author.isBot
    ensures d.Mute? ==> ev.message.value.author.member.Some? && !ev.message.value.author.member.value.canBan
    ensures d.Mute? ==> ev.message.value.timestamp - ev.now > -cfg.duration * SecondsPerMinute
    ensures d.Mute? ==>
      && CountValid(ev.reactors, ev.message.value.author.id, FirstRoleNamed(ev.roles, "No Crowdmute")) == Some(d.reactors)
      && d.reactors >= 1 && d.reactors >= cfg.threshold
    ensures d.Mute? ==> !TimedOut(ev.message.value.author.member.value, ev.now)
    ensures d.Mute? ==> d.minutes == cfg.duration
    ensures d.Mute? && ev.message.value.timestamp <= ev.now ==> cfg.duration > 0
    ensures d.Mute? <==> ReactionVote.Decide(CrowdMuteRule, cfg, ev).Carried?
  {
    match ReactionVote.Decide(CrowdMuteRule, cfg, ev)
    case Carried(n) => Mute(cfg.duration, n)
    case v => NoMute(v)
  }

  /** Everyone who reacted being a bot, the author, or a holder of the opt-out
      role means no mute, whatever the threshold. */
  lemma NoValidReactorNoMute(cfg: Config, ev: Event)
    requires ev.message.Some?
    requires forall i :: 0 <= i < |ev.reactors| ==>
      !Counts(ev.reactors[i], ev.message.value.author.id, FirstRoleNamed(ev.roles, "No Crowdmute"))
    ensures Decide(cfg, ev).NoMute?
  {
  }

  /** When the guild has no "No Crowdmute" role, every human reactor other
      than the author counts, whatever roles they hold. */
  lemma WithoutRoleOnlyBotsAndAuthorExcluded(r: Reactor, author: UserId, roles: seq<Role>)
    requires FirstRoleNamed(roles, "No Crowdmute").None?
    ensures Counts(r, author, FirstRoleNamed(roles, "No Crowdmute")) <==> !r.isBot && r.id != author
  {
  }
}
