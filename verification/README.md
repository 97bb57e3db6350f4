# mattbot decision logic in Dafny

A Dafny model of four pieces of decision logic from a Discord community bot.
Each is separated from the chat SDK and written as pure functions over
immutable values:

- **MattBucks ledger** (`ledger.dfy`, `booster_rewards.dfy`, `richest.dfy`).
  Two dictionaries: user id to balance and user id to last booster-reward time.
  The model covers the balance lookup, the floored credit/debit, the four-item
  shop and the purchase step, the six-hourly booster reward sweep, the "richest"
  top-ten query, and loading and saving at the level of the deserialized document.
- **Crowd-mute** (`crowd_mute.dfy`) and **message reports**
  (`message_reports.dfy`). The two reaction-vote handlers share one guard chain
  and one valid-reactor count (`reaction_vote.dfy`), parameterised by a `Rule`.
  Each handler becomes a `Decide(config, event)` that returns an action value:
  a mute of a given length, a delete, or no action with its reason.
- **LMGTFY** (`lmgtfy.dfy`, `text.dfy`): the command's three guards and the
  split-on-space / join-with-`+` query.

Time is an integer number of seconds passed in as `now`; nothing reads a clock.
Configuration values arrive already parsed, and a value that does not parse is 0.
The handlers' SDK look-ups are fields of the input value: the guild's roles and
text channels, the bot's permissions, the reacting users and their member records.

Where the handler code would throw, the model returns `Crashed(...)`: no action
is taken in that case. This covers `rlist.Length -= 2` with no valid reactor, a
reply whose referenced message is null, a reactor whose member lookup is null
while the opt-out role exists, and a crowd-mute author who is not a guild member.

Behaviour worth knowing:

- A series of balance changes does not end at `max(0, sum of changes)`, because
  the code floors at 0 after every step. `Ledger.ApplyAllBalance` states what
  does hold.
- The richest query takes a fixed ten entries, and the reward amount and
  interval are the module's constants (1 MattBuck, 6 hours).
- The query of LMGTFY has no leading, trailing or doubled `+` only when the
  message itself contains no `+`. A word can contain `+`, so `"a ++ b"` gives
  `a++++b`.

The crowd-mute handler compares against a constant `CYBERPATRIOT_ID` whose
definition is not part of this model. The model uses the CyberPatriot server
id that `src/modules/general/MattBucksModule.cs:49` lists.

## Model

| member | source | states |
|---|---|---|
| `Guilds.FirstRoleNamed` | src/automod/CrowdMute.cs:109 | None exactly when no role has the name; otherwise the id of the first role with that name |
| `Ledger.Balance` | src/modules/general/MattBucksModule.cs:242-249 | a user without an entry has balance 0; in a valid ledger every balance read is non-negative |
| `Ledger.ModifyBalance` | src/modules/general/MattBucksModule.cs:252-269 | the user gets an entry even for amount 0; the new balance is old + amount, or 0 when that is negative; every other user and every reward stamp is unchanged; no balance becomes negative; a credit never lowers a balance |
| `Ledger.CreditThenDebit` | src/modules/general/MattBucksModule.cs:256-266 | crediting an amount and then debiting it restores the balance, because the floor never fires on the debit |
| `Ledger.ApplyAllBalance` | src/modules/general/MattBucksModule.cs:256-266 | after a series of changes to one user the balance is at least the old balance plus the sum, and exactly that when no intermediate total is negative; others are untouched and the ledger stays non-negative |
| `Ledger.Purchase` | src/modules/general/MattBucksModule.cs:330-345 | an unknown code is refused as UnknownItem; a balance strictly below the price is refused as InsufficientFunds; both change nothing. Otherwise (balance equal to the price included) exactly the price is taken from the buyer alone, and the item and the new balance are returned |
| `Ledger.Load` | src/modules/general/MattBucksModule.cs:69-109 | a missing file, a read or parse error, or a null document gives two empty dictionaries; a null dictionary inside the document becomes empty |
| `Ledger.Save` | src/modules/general/MattBucksModule.cs:111-137 | loading the saved document gives back the same ledger |
| `Ledger.Wrap32` | src/modules/general/MattBucksModule.cs:260 | the result is a 32-bit integer congruent to the input modulo 2^32, and equal to it when it is already in range |
| `Ledger.ModifyBalanceAsWritten` | src/modules/general/MattBucksModule.cs:256-266 | with 32-bit wrap-around before the floor, the balance stays within 0 .. Int32.MaxValue; when nothing overflows it agrees with `ModifyBalance`; every credit that pushes a non-negative balance past Int32.MaxValue leaves 0, and other users and all stamps are unchanged |
| `Ledger.CreditAtInt32MaxWipesBalance` | src/modules/general/MattBucksModule.cs:260-266 | as written, crediting 1 to a balance of Int32.MaxValue leaves 0 |
| `BoosterRewards.RewardMember` | src/modules/general/MattBucksModule.cs:207-229 | bots, non-boosters and boosters rewarded less than six hours ago are left unchanged; any other booster is credited 1 and stamped with now |
| `BoosterRewards.RewardAllEffect` | src/modules/general/MattBucksModule.cs:205-233 | a pass over a member list credits each due booster exactly once however often they are listed, stamps them with now, and leaves every other user's balance, entry and stamp unchanged |
| `BoosterRewards.RosterBoosts` | src/modules/general/MattBucksModule.cs:194-205 | the swept members include a booster exactly when some configured, non-zero, visible guild lists them as a boosting human |
| `BoosterRewards.SweepCreditsOnce` | src/modules/general/MattBucksModule.cs:183-237 | a client that is not ready changes nothing; otherwise a due user who boosts one or both guilds is credited once and stamped, and everyone else is unchanged |
| `BoosterRewards.TwoSweeps` | src/modules/general/MattBucksModule.cs:209-229 | with one clock reading per sweep, and in either order of the two times: sweeps less than six hours apart credit nobody more than once in total; a due booster is credited once within the interval and twice once it has elapsed. The source reads the clock twice, and then this can fail (see Findings) |
| `BoosterRewards.RewardMemberAsWritten` | src/modules/general/MattBucksModule.cs:207-229 | the reward step with the due check and the stamp as two clock readings; with equal readings it is `RewardMember`, otherwise the booster is credited 1 and stamped with the second reading |
| `BoosterRewards.LateStampSkipsNextTick` | src/modules/general/MattBucksModule.cs:207-229 | a due booster credited at tick t, whose stamp is read d > 0 seconds later, is skipped at tick t + 6 hours and due again only at t + 12 hours |
| `BoosterRewards.RewardMemberDueNextTick` | src/modules/general/MattBucksModule.cs:207-229 | with one clock reading per step, a due booster is credited at tick t and again at tick t + 6 hours |
| `Richest.Positive` | src/modules/general/MattBucksModule.cs:386 | keeps exactly the entries with a positive balance, each as often as it occurs |
| `Richest.PositiveAppend` | src/modules/general/MattBucksModule.cs:386 | the filter works piece by piece, so the kept entries stay in input order |
| `Richest.PositiveWithBalance` | src/modules/general/MattBucksModule.cs:386 | the entries of one positive balance all survive, in their input order; those of any other balance are all dropped |
| `Richest.Insert` | src/modules/general/MattBucksModule.cs:387 | inserting into a descending list keeps it descending and adds exactly that entry |
| `Richest.InsertWithBalance` | src/modules/general/MattBucksModule.cs:387 | inserting into a descending list puts the entry in front of every entry of its own balance; the sort inserts the input's first entry last, so input order is kept |
| `Richest.SortDescending` | src/modules/general/MattBucksModule.cs:387 | the result is descending by balance and a permutation of the input, and it is stable: for every balance, the entries holding it appear in the same order as in the input |
| `Richest.TopHolders` | src/modules/general/MattBucksModule.cs:385-389 | at most ten entries, all positive, each taken from the input no more often than it occurs there, non-increasing; any positive entry left out means the list is full and that entry is no larger than the tenth. For every balance, the listed entries holding it are the first ones holding it in the input, in input order |
| `Richest.RichestList` | src/modules/general/MattBucksModule.cs:382-390 | over the balance dictionary (keys enumerated once each): every listed user holds exactly the listed positive balance, no user is listed twice, and an unlisted user with a positive balance holds no more than the tenth entry. Among equal balances the list keeps the first users in the dictionary's enumeration order, in that order |
| `ReactionVote.CountValid` | src/automod/CrowdMute.cs:111-127 | fails exactly when the opt-out role exists and some reactor has no member record; the count is 0 exactly when nobody counts, and the full list length exactly when everybody does |
| `ReactionVote.CountIsValidUsers` | src/automod/MessageReports.cs:109-125 | with each reactor listed once, the count is the number of users who are not bots, not the author, and do not hold the opt-out role |
| `ReactionVote.Decide` | src/automod/CrowdMute.cs:45-139 | a zero threshold, a bot or unknown reactor, or a non-text channel never acts; acting implies every guard of `Passes` held, including at least one valid reactor and a count that reaches the threshold |
| `ReactionVote.DecideComplete` | src/automod/MessageReports.cs:45-128 | whenever every guard holds and `n` reactors count, the decision is to act with `n` |
| `CrowdMute.Decide` | src/automod/CrowdMute.cs:42-144 | a threshold of 0 or a bot reaction never mutes. A mute needs the camera emote in the CyberPatriot guild, and a human author who is a guild member without Ban Members and is not timed out. The message must be younger than `duration` minutes, and at least one and at least `threshold` reactors must count. The mute lasts `duration` minutes, and a duration of 0 or less never mutes a message that is not from the future |
| `CrowdMute.NoValidReactorNoMute` | src/automod/CrowdMute.cs:113-130 | when every reactor is a bot, the author or an opt-out holder there is no mute, whatever the threshold |
| `CrowdMute.WithoutRoleOnlyBotsAndAuthorExcluded` | src/automod/CrowdMute.cs:108-121 | without a "No Crowdmute" role, a reactor counts exactly when they are neither a bot nor the author |
| `MessageReports.Decide` | src/automod/MessageReports.cs:42-140 | a threshold of 0 or a bot reaction never deletes. A delete needs the wastebasket emoji, a text channel where the bot has Manage Messages, and an unprotected author. The message must be younger than `duration` hours, and at least one and at least `threshold` reactors must count |
| `MessageReports.AnyGuild` | src/automod/MessageReports.cs:54-59 | the decision does not depend on the guild |
| `MessageReports.TimeoutIrrelevant` | src/automod/MessageReports.cs:126-140 | the author's timeout state does not change the decision |
| `Text.SplitOn` | src/modules/general/LMGTFYModule.cs:57 | one more piece than there are separators, none containing the separator, and joining the pieces with the separator gives the text back |
| `Text.NonEmpty` | src/modules/general/LMGTFYModule.cs:57 | keeps every non-empty piece exactly as often as it occurs, and nothing else |
| `Text.NonEmptyAppend` | src/modules/general/LMGTFYModule.cs:57 | dropping empty pieces from two lists glued together is dropping them from each and gluing, so kept pieces stay in order |
| `Text.WordsEmptyIff` | src/modules/general/LMGTFYModule.cs:57 | there are no words exactly when the text is separators only |
| `Text.WordsKeepContent` | src/modules/general/LMGTFYModule.cs:57 | the words, glued together, are the text with its separators removed |
| `Text.SplitJoin` | src/modules/general/LMGTFYModule.cs:57-58 | splitting a join of separator-free pieces gives the pieces back |
| `Text.JoinShape` | src/modules/general/LMGTFYModule.cs:58 | joining non-empty separator-free pieces gives no leading, trailing or doubled separator |
| `Text.JoinChars` | src/modules/general/LMGTFYModule.cs:58 | a non-separator character is in the join exactly when it is in some piece |
| `Lmgtfy.Query` | src/modules/general/LMGTFYModule.cs:57-58 | no space in the query. The query is empty exactly when the text is spaces only. For text without `+`: no leading, trailing or doubled `+`; removing `+` gives the text without spaces; splitting on `+` gives back the words |
| `Lmgtfy.Respond` | src/modules/general/LMGTFYModule.cs:33-62 | a holder of "No Context Commands" is refused before anything else; then bot or webhook authors; then non-user messages and null or whitespace-only content. Only a message passing all three gets a link, which is the base URL followed by a non-empty query |

## Left out

- JSON text and file I/O: `Load` and `Save` work on the deserialized document, not on JSON.
- Locks and concurrency. Every operation is one sequential step. The source's purchase
  reads the balance and debits in separate locked steps, so two purchases can interleave.
  The model does not claim a purchase is atomic.
- The booster timer, `InitializeService`, and the client's login and connection state:
  readiness is one boolean, and the guilds the client can see are a map from guild id
  to member list.
- One `now` per event, and per sweep in the main sweep model. The source reads the clock
  again after crediting each booster, and stamps that second reading. This is not a detail:
  the timer period equals the six-hour gate, so a stamp that lands late makes the next sweep
  skip the booster, who is then credited every other sweep rather than every 6 hours.
  `BoosterRewards.RewardMemberAsWritten` and `BoosterRewards.LateStampSkipsNextTick` model
  this, and Findings lists it. `BoosterRewards.Sweep` and `BoosterRewards.TwoSweeps` use one
  reading per sweep.
- Sub-second time and floating point: `TotalMinutes` and `TotalHours` are doubles; the
  model compares whole seconds exactly.
- 32-bit integers: the main ledger uses unbounded balances. The wrap-around of `+=` is
  modelled separately (`Ledger.ModifyBalanceAsWritten`) and listed under Findings.
  Configuration values are unbounded integers rather than `int`.
- Embeds, replies, direct messages, jump links, `Logger.Log`, the purchase notification
  to the owner, `SetTimeOutAsync`, `DeleteAsync`: SDK side effects. The decisions
  return action values instead.
- Downloading an uncached message: the event holds the message, or None when none
  could be obtained.
- The `content is null && imageurl is null` guard: `StringBuilder.ToString()` never
  returns null, so that guard never returns.
- The display-only commands (explanation, shop, bucks, modify): they render the
  operations above.
- `LMGPTTFYCommand`: its guards match LMGTFY's, and its query is `WebUtility.UrlEncode`,
  an opaque library call.
- `src/modules/moderation/LockdownModule.cs`: a fixed sequence of role-permission API
  calls. Its only logic is that the strict level falls through to the normal one.
- Strings are sequences of Unicode scalar values, not UTF-16 code units. Splitting on
  the space character is the same either way.

## Findings

| source | as written | input that shows it | evidently intended | confidence | as-written member | corrected member |
|---|---|---|---|---|---|---|
| src/modules/general/MattBucksModule.cs:260 | the balance is an `int`, and `+= amount` wraps around before the floor at 0 applies | a balance of 2147483647 credited with 1 (a booster reward, or an admin grant) ends at 0 | a credit never lowers a balance | not executed; medium, assuming the default unchecked arithmetic | `Ledger.CreditAtInt32MaxWipesBalance` | `Ledger.ModifyBalance` |
| src/modules/general/MattBucksModule.cs:216-228 | the due check and the stamp each read `DateTime.UtcNow`; the stamp is read after `ModifyUserBalance` has saved the file, while the timer period (line 161) equals the six-hour gate | a booster credited at a tick whose stamp is read 1 second later is checked 6 hours later, 1 second short of the gate, and skipped; they are paid every 12 hours | a boosting user is paid every 6 hours, as the explanation command (line 284) promises | not executed; medium, since it depends on the timer's lateness being smaller than the save's | `BoosterRewards.LateStampSkipsNextTick` | `BoosterRewards.RewardMemberDueNextTick` |
