/** The periodic booster reward sweep of the MattBucks ledger
    (GrantBoosterRewardsAsync in src/modules/general/MattBucksModule.cs). */
module BoosterRewards {
  import opened Wrappers
  import opened Guilds
  import opened Ledger

  /** The guilds whose boosters are rewarded: CyberPatriot, then CCDC. */
  const RewardGuilds: seq<GuildId> := [301768361136750592, 1093372273295101992]

  const RewardAmount: int := 1

  /** Six hours, in seconds. */
  const RewardInterval: int := 6 * 60 * 60

  /** A guild member as the sweep sees it; `boosting` is `PremiumSince.HasValue`. */
  datatype Member = Member(id: UserId, isBot: bool, boosting: bool)

  /** A user is due a reward when they have never had one, or when at least
      one interval has passed since the last. */
  predicate Due(l: State, u: UserId, now: Time) {
    u !in l.lastReward || now - l.lastReward[u] >= RewardInterval
  }

  /** The reward step for one member of one guild: bots and non-boosters are
      skipped; a due booster is credited and stamped with `now`. */
  function RewardMember(l: State, m: Member, now: Time): (r: State)
    ensures m.isBot || !m.boosting || !Due(l, m.id, now) ==> r == l
    ensures !m.isBot && m.boosting && Due(l, m.id, now) ==>
      && r.balances == ModifyBalance(l, m.id, RewardAmount).balances
      && r.lastReward == l.lastReward[m.id := now]
  {
    if m.isBot || !m.boosting then l
    else if !Due(l, m.id, now) then l
    else
      var credited := ModifyBalance(l, m.id, RewardAmount);
      credited.(lastReward := credited.lastReward[m.id := now])
  }

  /** The reward step applied to members in order. */
  function RewardAll(l: State, ms: seq<Member>, now: Time): State
    decreases |ms|
  {
    if |ms| == 0 then l else RewardAll(RewardMember(l, ms[0], now), ms[1..], now)
  }

  /** The members the sweep visits: for each configured guild id that is not 0
      and that the client can see, that guild's members, guild after guild. */
  function Roster(ids: seq<GuildId>, visible: map<GuildId, seq<Member>>): seq<Member>
    decreases |ids|
  {
    if |ids| == 0 then []
    else if ids[0] == 0 || ids[0] !in visible then Roster(ids[1..], visible)
    else visible[ids[0]] + Roster(ids[1..], visible)
  }

  /** One sweep: nothing happens unless the client is logged in and connected. */
  function Sweep(l: State, ready: bool, visible: map<GuildId, seq<Member>>, now: Time): State {
    if !ready then l else RewardAll(l, Roster(RewardGuilds, visible), now)
  }

  /** `u` appears in `ms` as a human member who is boosting. */
  predicate Boosts(ms: seq<Member>, u: UserId) {
    exists i :: 0 <= i < |ms| && ms[i].id == u && !ms[i].isBot && ms[i].boosting
  }

  /** `u` boosts at least one configured guild that the client can see. */
  predicate BoostsSomeGuild(ids: seq<GuildId>, visible: map<GuildId, seq<Member>>, u: UserId) {
    exists i :: 0 <= i < |ids| && ids[i] != 0 && ids[i] in visible && Boosts(visible[ids[i]], u)
  }

  /** What a pass over members did to user `u`: one credit and a fresh stamp
      if `u` was due and boosting, otherwise nothing at all. */
  ghost predicate Effect(l: State, r: State, ms: seq<Member>, u: UserId, now: Time) {
    if Due(l, u, now) && Boosts(ms, u) then
      u in r.balances && Balance(r, u) == Balance(l, u) + RewardAmount && Stamp(r, u) == Some(now)
    else
      (u in r.balances <==> u in l.balances) && Balance(r, u) == Balance(l, u) && Stamp(r, u) == Stamp(l, u)
  }

  /** A pass over members credits each due booster exactly once, however often
      they are listed, and leaves everyone else exactly as they were. */
  lemma {:induction false} RewardAllEffect(l: State, ms: seq<Member>, now: Time)
    requires Valid(l)
    ensures Valid(RewardAll(l, ms, now))
    ensures forall u :: Effect(l, RewardAll(l, ms, now), ms, u, now)
    decreases |ms|
  {
    var r := RewardAll(l, ms, now);
    if |ms| == 0 {
      forall u ensures Effect(l, r, ms, u, now) { }
    } else {
      var m := ms[0];
      var l1 := RewardMember(l, m, now);
      assert Valid(l1);
      RewardAllEffect(l1, ms[1..], now);
      forall u ensures Effect(l, r, ms, u, now) {
        assert Effect(l1, r, ms[1..], u, now);
        assert Boosts(ms, u) <==> (m.id == u && !m.isBot && m.boosting) || Boosts(ms[1..], u) by {
          if Boosts(ms[1..], u) {
            var i :| 0 <= i < |ms[1..]| && ms[1..][i].id == u && !ms[1..][i].isBot && ms[1..][i].boosting;
            assert ms[i + 1] == ms[1..][i];
          }
          if Boosts(ms, u) && !(m.id == u && !m.isBot && m.boosting) {
            var i :| 0 <= i < |ms| && ms[i].id == u && !ms[i].isBot && ms[i].boosting;
            assert i > 0;
            assert ms[1..][i - 1] == ms[i];
          }
        }
        if u == m.id && !m.isBot && m.boosting && Due(l, u, now) {
          assert !Due(l1, u, now);
        }
      }
    }
  }

  /** The roster holds a booster exactly when some visible configured guild does. */
  lemma {:induction false} RosterBoosts(ids: seq<GuildId>, visible: map<GuildId, seq<Member>>, u: UserId)
    ensures Boosts(Roster(ids, visible), u) <==> BoostsSomeGuild(ids, visible, u)
    decreases |ids|
  {
    if |ids| > 0 {
      RosterBoosts(ids[1..], visible, u);
      SomeGuildStep(ids, visible, u);
      if ids[0] != 0 && ids[0] in visible {
        BoostsAppend(visible[ids[0]], Roster(ids[1..], visible), u);
      }
    }
  }

  /** A user boosts some guild of a list exactly when they boost its first
      guild (if visible) or some guild of the rest. */
  lemma SomeGuildStep(ids: seq<GuildId>, visible: map<GuildId, seq<Member>>, u: UserId)
    requires |ids| > 0
    ensures BoostsSomeGuild(ids, visible, u) <==>
      (ids[0] != 0 && ids[0] in visible && Boosts(visible[ids[0]], u)) || BoostsSomeGuild(ids[1..], visible, u)
  {
    if BoostsSomeGuild(ids[1..], visible, u) {
      var i :| 0 <= i < |ids[1..]| && ids[1..][i] != 0 && ids[1..][i] in visible && Boosts(visible[ids[1..][i]], u);
      assert ids[i + 1] == ids[1..][i];
    }
    if BoostsSomeGuild(ids, visible, u) {
      var i :| 0 <= i < |ids| && ids[i] != 0 && ids[i] in visible && Boosts(visible[ids[i]], u);
      if i > 0 { assert ids[1..][i - 1] == ids[i]; }
    }
  }

  /** A user boosts in two member lists together exactly when they boost in
      one of them. */
  lemma BoostsAppend(g: seq<Member>, rest: seq<Member>, u: UserId)
    ensures Boosts(g + rest, u) <==> Boosts(g, u) || Boosts(rest, u)
  {
    if Boosts(g + rest, u) {
      var i :| 0 <= i < |g + rest| && (g + rest)[i].id == u && !(g + rest)[i].isBot && (g + rest)[i].boosting;
      if i < |g| { assert g[i] == (g + rest)[i]; } else { assert rest[i - |g|] == (g + rest)[i]; }
    }
    if Boosts(g, u) {
      var i :| 0 <= i < |g| && g[i].id == u && !g[i].isBot && g[i].boosting;
      assert (g + rest)[i] == g[i];
    }
    if Boosts(rest, u) {
      var i :| 0 <= i < |rest| && rest[i].id == u && !rest[i].isBot && rest[i].boosting;
      assert (g + rest)[i + |g|] == rest[i];
    }
  }

  /** One sweep credits a user once if they were due and boost at least one
      configured guild (boosting both still yields one credit), and otherwise
      leaves their balance and stamp alone. A client that is not ready changes
      nothing. */
  lemma SweepCreditsOnce(l: State, ready: bool, visible: map<GuildId, seq<Member>>, now: Time, u: UserId)
    requires Valid(l)
    ensures var r := Sweep(l, ready, visible, now);
      && Valid(r)
      && (!ready ==> r == l)
      && (ready && Due(l, u, now) && BoostsSomeGuild(RewardGuilds, visible, u) ==>
            Balance(r, u) == Balance(l, u) + RewardAmount && Stamp(r, u) == Some(now))
      && (!(ready && Due(l, u, now) && BoostsSomeGuild(RewardGuilds, visible, u)) ==>
            Balance(r, u) == Balance(l, u) && Stamp(r, u) == Stamp(l, u))
  {
    if ready {
      var ms := Roster(RewardGuilds, visible);
      RewardAllEffect(l, ms, now);
      RosterBoosts(RewardGuilds, visible, u);
      assert Effect(l, RewardAll(l, ms, now), ms, u, now);
    }
  }

  /** Two sweeps at `t1` and then `t2`: a user who was due and boosts in both
      is credited once in total when `t2` falls within the interval, and twice
      once the interval has elapsed. Within the interval nobody gains more than
      one reward across both sweeps. */
  lemma TwoSweeps(l: State, v1: map<GuildId, seq<Member>>, t1: Time,
                  v2: map<GuildId, seq<Member>>, t2: Time, u: UserId)
    requires Valid(l)
    ensures var r := Sweep(Sweep(l, true, v1, t1), true, v2, t2);
      && (t2 - t1 < RewardInterval ==> Balance(r, u) <= Balance(l, u) + RewardAmount)
      && (Due(l, u, t1) && BoostsSomeGuild(RewardGuilds, v1, u) && BoostsSomeGuild(RewardGuilds, v2, u) ==>
            Balance(r, u) == Balance(l, u) + (if t2 - t1 < RewardInterval then 1 else 2) * RewardAmount)
  {
    var l1 := Sweep(l, true, v1, t1);
    SweepCreditsOnce(l, true, v1, t1, u);
    SweepCreditsOnce(l1, true, v2, t2, u);
  }

  // ---------------------------------------------------------------------------
  // The stamp as written: the clock is read again after the credit is saved

  /** The reward step as written: the due check reads the clock at `now`, but
      the stamp is a second reading, `stamp`, taken after the balance file has
      been saved. With `stamp == now` it is `RewardMember`. */
  function RewardMemberAsWritten(l: State, m: Member, now: Time, stamp: Time): (r: State)
    ensures stamp == now ==> r == RewardMember(l, m, now)
    ensures m.isBot || !m.boosting || !Due(l, m.id, now) ==> r == l
    ensures !m.isBot && m.boosting && Due(l, m.id, now) ==>
      && r.balances == ModifyBalance(l, m.id, RewardAmount).balances
      && r.lastReward == l.lastReward[m.id := stamp]
  {
    if m.isBot || !m.boosting then l
    else if !Due(l, m.id, now) then l
    else
      var credited := ModifyBalance(l, m.id, RewardAmount);
      credited.(lastReward := credited.lastReward[m.id := stamp])
  }

  /** The timer fires once per interval, and the interval is also the gate. A
      booster credited at tick `t` whose stamp is read `d > 0` seconds late is
      not yet due at the next tick `t + RewardInterval`, so that tick passes
      them over, and they are paid again only at the tick after: one reward
      per two intervals. */
  lemma LateStampSkipsNextTick(l: State, m: Member, t: Time, d: int)
    requires Valid(l)
    requires !m.isBot && m.boosting && Due(l, m.id, t)
    requires 0 < d <= RewardInterval
    ensures var r1 := RewardMemberAsWritten(l, m, t, t + d);
      var r2 := RewardMemberAsWritten(r1, m, t + RewardInterval, t + RewardInterval + d);
      && Balance(r1, m.id) == Balance(l, m.id) + RewardAmount
      && r2 == r1
      && Due(r2, m.id, t + 2 * RewardInterval)
  {
  }

  /** With one clock reading per step, a booster credited at tick `t` is due
      again at the very next tick, so every tick pays them. */
  lemma RewardMemberDueNextTick(l: State, m: Member, t: Time)
    requires Valid(l)
    requires !m.isBot && m.boosting && Due(l, m.id, t)
    ensures var r1 := RewardMember(l, m, t);
      var r2 := RewardMember(r1, m, t + RewardInterval);
      && Balance(r1, m.id) == Balance(l, m.id) + RewardAmount
      && Balance(r2, m.id) == Balance(l, m.id) + 2 * RewardAmount
  {
  }
}
