/** Message reports (src/automod/MessageReports.cs): enough members reacting
    with the wastebasket emoji to a message get it deleted, in any guild. */
module MessageReports {
  import opened Wrappers
  import opened Guilds
  import opened ReactionVote

  /** The Unicode emoji U+1F5D1 U+FE0F. */
  const Wastebasket: Emote := Emoji("\U{1F5D1}\U{FE0F}")

  const SecondsPerHour: nat := 3600

  /** Message reports' parameters of the shared reaction vote: any guild, the
      duration is in hours, the bot needs Manage Messages in the channel,
      "No Reports" holders are not counted, and there is no timeout check. */
  const ReportRule: Rule := Rule(Wastebasket, None, ManageMessagesHere, SecondsPerHour, "No Reports", false)

  /** Delete the message on the votes of `reactors` members, or keep it, for
      the reason in the verdict. */
  datatype Decision = Delete(reactors: nat) | Keep(verdict: Verdict)

  /** The decision on one added reaction, with `cfg` holding the parsed
      `message_report_threshold` and `message_report_duration`. */
  function Decide(cfg: Config, ev: Event): (d: Decision)
    ensures cfg.threshold == 0 ==> d.Keep?
    ensures ev.reactorIsBot ==> d.Keep?
    ensures d.Delete? ==> ev.emote == Wastebasket && ev.channel.Text? && ManageMessagesHere in ev.botPermissions
    ensures d.Delete? ==> ev.message.Some? && !Protected(ev.message.value.author)
    ensures d.Delete? ==> ev.message.value.timestamp - ev.now > -cfg.duration * SecondsPerHour
    ensures d.Delete? ==>
      && CountValid(ev.reactors, ev.message.value.author.id, FirstRoleNamed(ev.roles, "No Reports")) == Some(d.reactors)
      && d.reactors >= 1 && d.reactors >= cfg.threshold
    ensures d.Delete? <==> ReactionVote.Decide(ReportRule, cfg, ev).Carried?
  {
    match ReactionVote.Decide(ReportRule, cfg, ev)
    case Carried(n) => Delete(n)
    case v => Keep(v)
  }

  /** There is no guild restriction: moving the event to another guild's text
      channel does not change the decision. */
  lemma AnyGuild(cfg: Config, ev: Event, g: GuildId)
    requires ev.channel.Text?
    ensures Decide(cfg, ev) == Decide(cfg, ev.(channel := Text(g)))
  {
  }

  /** There is no "already handled" check: the author's timeout state does
      not change the decision. */
  lemma TimeoutIrrelevant(cfg: Config, ev: Event, until: Option<Time>)
    requires ev.message.Some? && ev.message.value.author.member.Some?
    ensures var m := ev.message.value;
      var a := m.author.(member := Some(m.author.member.value.(timedOutUntil := until)));
      Decide(cfg, ev) == Decide(cfg, ev.(message := Some(m.(author := a))))
  {
  }
}
