/** The decision both reaction-vote handlers make: crowd-mute
    (src/automod/CrowdMute.cs) and message reports
    (src/automod/MessageReports.cs). The two handlers run the same chain of
    guards and the same valid-reactor count; a `Rule` holds what differs. */
module ReactionVote {
  import opened Wrappers
  import opened Guilds

  /** A reaction emote: a custom guild emote is compared by its id, a Unicode
      emoji by its text. */
  datatype Emote = Custom(id: nat) | Emoji(text: string)

  /** The channel of the reaction: not in the cache, not a guild text channel,
      or a text channel of the given guild. */
  datatype Channel = Uncached | NonText | Text(guild: GuildId)

  /** One user who reacted with the emote, with the roles of the guild member
      looked up for them; None when that lookup found no member. */
  datatype Reactor = Reactor(id: UserId, isBot: bool, roles: Option<set<RoleId>>)

  /** The author's guild-member view: whether they hold Ban Members, and the
      end of their current timeout, if any. */
  datatype AuthorMember = AuthorMember(canBan: bool, timedOutUntil: Option<Time>)

  /** The message author; `member` is None when the author is not a guild user. */
  datatype Author = Author(id: UserId, isBot: bool, member: Option<AuthorMember>)

  /** Whether the message replies to another, and whether that other message
      could be resolved. */
  datatype ReplyRef = NotAReply | ReplyTo(resolved: bool)

  datatype Message = Message(author: Author, timestamp: Time, reply: ReplyRef)

  /** The bot's own permissions that a handler may need. */
  datatype Permission = ModerateMembers | ManageMessagesHere

  /** Everything the handler reads when a reaction is added. */
  datatype Event = Event(
    reactorSpecified: bool,     // the reacting user is known
    reactorIsBot: bool,
    channel: Channel,
    textChannelNames: seq<string>,   // names of the guild's text channels
    emote: Emote,
    message: Option<Message>,   // None when the message could not be obtained
    botPermissions: set<Permission>,
    roles: seq<Role>,           // the guild's roles, in order
    reactors: seq<Reactor>,     // everyone who reacted with this emote
    now: Time)

  /** What distinguishes the two handlers. */
  datatype Rule = Rule(
    emote: Emote,               // the only emote that triggers
    guild: Option<GuildId>,     // the only guild it runs in, if restricted
    permission: Permission,     // what the bot must hold
    unitSeconds: nat,           // the unit the configured duration is counted in
    optOutRole: string,         // holders of this role are not counted
    checkTimeout: bool)         // skip authors who are already timed out

  /** The two configuration values, already parsed; a value that does not
      parse as an integer is 0. */
  datatype Config = Config(threshold: int, duration: int)

  /** A quiet return of the handler, by the guard that returned. */
  datatype Skip =
    | NotApplicable | OtherGuild | NoLogChannel | OtherEmote | NoMessage
    | MissingPermission | ProtectedAuthor | TooOld | BelowThreshold | AlreadyTimedOut

  /** An exception that ends the handler before it acts. */
  datatype Crash =
    | UnresolvedReply       // `ReferencedMessage` is null on a reply
    | UnknownReactor        // a reacting user's member lookup returned null
    | NoValidReactors       // `rlist.Length -= 2` on an empty list
    | AuthorNotMember       // `(Author as IGuildUser)` is null

  datatype Verdict = Skipped(skip: Skip) | Crashed(crash: Crash) | Carried(count: nat)

  const LogChannel: string := "bot_log"

  /** Moderators (Ban Members) and bots are never acted on. */
  predicate Protected(a: Author) {
    (a.member.Some? && a.member.value.canBan) || a.isBot
  }

  /** The message is at least `duration` units old: its timestamp minus now,
      in units, is at most minus the duration. */
  predicate TooOldAt(m: Message, now: Time, duration: int, unitSeconds: nat) {
    m.timestamp - now <= -duration * unitSeconds
  }

  /** The author is timed out: a timeout end is set and is not before now
      (`(until - now).ToString()` does not start with '-'). */
  predicate TimedOut(a: AuthorMember, now: Time) {
    a.timedOutUntil.Some? && a.timedOutUntil.value - now >= 0
  }

  /** A reactor counts if they are not a bot, not the author, and do not hold
      the opt-out role (when the guild has one). */
  predicate Counts(r: Reactor, author: UserId, optOut: Option<RoleId>) {
    && (optOut.None? || (r.roles.Some? && optOut.value !in r.roles.value))
    && !r.isBot
    && r.id != author
  }

  /** The valid-reactor count, or None when the guild has the opt-out role and
      some reactor's member lookup failed (the handler then throws). */
  function CountValid(rs: seq<Reactor>, author: UserId, optOut: Option<RoleId>): (n: Option<nat>)
    ensures n.None? <==> optOut.Some? && exists i :: 0 <= i < |rs| && rs[i].roles.None?
    ensures n.Some? ==> n.value <= |rs|
    ensures n.Some? ==> (n.value == 0 <==> forall i :: 0 <= i < |rs| ==> !Counts(rs[i], author, optOut))
    ensures n.Some? ==> (n.value == |rs| <==> forall i :: 0 <= i < |rs| ==> Counts(rs[i], author, optOut))
  {
    if |rs| == 0 then Some(0)
    else if optOut.Some? && rs[0].roles.None? then None
    else
      match CountValid(rs[1..], author, optOut)
      case None =>
        assert exists i :: 0 <= i < |rs[1..]| && rs[1..][i].roles.None?;
        None
      case Some(k) =>
        assert forall i :: 0 <= i < |rs[1..]| ==> rs[1..][i] == rs[i + 1];
        Some(k + if Counts(rs[0], author, optOut) then 1 else 0)
  }

  /** The ids of the reactors who count. */
  ghost function ValidIds(rs: seq<Reactor>, author: UserId, optOut: Option<RoleId>): set<UserId> {
    set i | 0 <= i < |rs| && Counts(rs[i], author, optOut) :: rs[i].id
  }

  /** Each user appears at most once among the reactors. */
  ghost predicate DistinctIds(rs: seq<Reactor>) {
    forall i, j :: 0 <= i < j < |rs| ==> rs[i].id != rs[j].id
  }

  /** When every reactor is listed once, the count is the number of distinct
      users who count. */
  lemma {:induction false} CountIsValidUsers(rs: seq<Reactor>, author: UserId, optOut: Option<RoleId>)
    requires DistinctIds(rs)
    requires CountValid(rs, author, optOut).Some?
    ensures CountValid(rs, author, optOut).value == |ValidIds(rs, author, optOut)|
  {
    if |rs| > 0 {
      var tail := rs[1..];
      assert DistinctIds(tail) by {
        forall i, j | 0 <= i < j < |tail| ensures tail[i].id != tail[j].id {
          assert tail[i] == rs[i + 1] && tail[j] == rs[j + 1];
        }
      }
      CountIsValidUsers(tail, author, optOut);
      ValidIdsStep(rs, author, optOut);
    }
  }

  /** The valid ids of a list are those of its tail, plus the head's id when
      the head counts; with distinct ids the head's id is new. */
  lemma ValidIdsStep(rs: seq<Reactor>, author: UserId, optOut: Option<RoleId>)
    requires |rs| > 0 && DistinctIds(rs)
    ensures var there := ValidIds(rs[1..], author, optOut);
      && rs[0].id !in there
      && ValidIds(rs, author, optOut) == there + (if Counts(rs[0], author, optOut) then {rs[0].id} else {})
  {
    var tail := rs[1..];
    var here := ValidIds(rs, author, optOut);
    var there := ValidIds(tail, author, optOut);
    forall x | x in here ensures x in there + (if Counts(rs[0], author, optOut) then {rs[0].id} else {}) {
      var i :| 0 <= i < |rs| && Counts(rs[i], author, optOut) && rs[i].id == x;
      if i > 0 { assert tail[i - 1] == rs[i]; }
    }
    forall x | x in there ensures x in here {
      var i :| 0 <= i < |tail| && Counts(tail[i], author, optOut) && tail[i].id == x;
      assert rs[i + 1] == tail[i];
    }
    forall i | 0 <= i < |tail| ensures tail[i].id != rs[0].id {
      assert tail[i] == rs[i + 1];
    }
  }

  /** Every guard of the handler lets the event through and `n` reactors
      count, enough for the threshold: the handler acts, with `n` reactors. */
  ghost predicate Passes(rule: Rule, cfg: Config, ev: Event, n: nat) {
    && ev.reactorSpecified && !ev.reactorIsBot
    && cfg.threshold != 0
    && ev.emote == rule.emote
    && ev.channel.Text?
    && (rule.guild.Some? ==> ev.channel.guild == rule.guild.value)
    && LogChannel in ev.textChannelNames
    && rule.permission in ev.botPermissions
    && ev.message.Some?
    && !Protected(ev.message.value.author)
    && !TooOldAt(ev.message.value, ev.now, cfg.duration, rule.unitSeconds)
    && ev.message.value.reply != ReplyTo(false)
    && CountValid(ev.reactors, ev.message.value.author.id, FirstRoleNamed(ev.roles, rule.optOutRole)) == Some(n)
    && n >= 1
    && n >= cfg.threshold
    && (rule.checkTimeout ==>
          ev.message.value.author.member.Some? && !TimedOut(ev.message.value.author.member.value, ev.now))
  }

  /** The handler's decision: the guards in the order the handler runs them,
      then the count against the threshold, then (for crowd-mute) the
      timeout guard. It acts only when every condition of `Passes` holds. */
  function Decide(rule: Rule, cfg: Config, ev: Event): (v: Verdict)
    ensures cfg.threshold == 0 || ev.reactorIsBot || !ev.reactorSpecified || !ev.channel.Text? ==>
      v == Skipped(NotApplicable)
    ensures v.Carried? ==> Passes(rule, cfg, ev, v.count)
  {
    if !ev.reactorSpecified || ev.reactorIsBot || !ev.channel.Text? || cfg.threshold == 0 then
      Skipped(NotApplicable)
    else if rule.guild.Some? && ev.channel.guild != rule.guild.value then Skipped(OtherGuild)
    else if LogChannel !in ev.textChannelNames then Skipped(NoLogChannel)
    else if ev.emote != rule.emote then Skipped(OtherEmote)
    else if ev.message.None? then Skipped(NoMessage)
    else if rule.permission !in ev.botPermissions then Skipped(MissingPermission)
    else
      var m := ev.message.value;
      if Protected(m.author) then Skipped(ProtectedAuthor)
      else if TooOldAt(m, ev.now, cfg.duration, rule.unitSeconds) then Skipped(TooOld)
      else if m.reply == ReplyTo(false) then Crashed(UnresolvedReply)
      else
        match CountValid(ev.reactors, m.author.id, FirstRoleNamed(ev.roles, rule.optOutRole))
        case None => Crashed(UnknownReactor)
        case Some(n) =>
          if n == 0 then Crashed(NoValidReactors)
          else if n < cfg.threshold then Skipped(BelowThreshold)
          else if rule.checkTimeout && m.author.member.None? then Crashed(AuthorNotMember)
          else if rule.checkTimeout && TimedOut(m.author.member.value, ev.now) then Skipped(AlreadyTimedOut)
          else Carried(n)
  }

  /** Conversely, whenever every condition holds the handler acts, with
      exactly the valid count. */
  lemma DecideComplete(rule: Rule, cfg: Config, ev: Event, n: nat)
    requires Passes(rule, cfg, ev, n)
    ensures Decide(rule, cfg, ev) == Carried(n)
  {
  }
}
