/** The MattBucks ledger: user balances, last-reward stamps, the shop and
    purchases (src/modules/general/MattBucksModule.cs). */
module Ledger {
  import opened Wrappers
  import opened Guilds

  /** Both process-wide dictionaries of the module, as one immutable value. */
  datatype State = State(balances: map<UserId, int>, lastReward: map<UserId, Time>)

  const Empty: State := State(map[], map[])

  /** No balance in the ledger is negative. */
  ghost predicate Valid(l: State) {
    forall u :: u in l.balances ==> l.balances[u] >= 0
  }

  /** A user's balance; a user with no entry has 0 (GetUserBalance). */
  function Balance(l: State, u: UserId): (b: int)
    ensures u !in l.balances ==> b == 0
    ensures Valid(l) ==> b >= 0
  {
    if u in l.balances then l.balances[u] else 0
  }

  /** The last reward stamp of a user, if any. */
  function Stamp(l: State, u: UserId): Option<Time> {
    if u in l.lastReward then Some(l.lastReward[u]) else None
  }

  /** Adds `amount` (possibly negative) to `u`'s balance and floors the result
      at 0 (ModifyUserBalance). An absent user starts from 0 and always gets an
      entry, even when `amount` is 0. */
  function ModifyBalance(l: State, u: UserId, amount: int): (r: State)
    ensures r.balances.Keys == l.balances.Keys + {u}
    ensures Balance(l, u) + amount >= 0 ==> r.balances[u] == Balance(l, u) + amount
    ensures Balance(l, u) + amount < 0 ==> r.balances[u] == 0
    ensures forall v :: v != u && v in l.balances ==> r.balances[v] == l.balances[v]
    ensures r.lastReward == l.lastReward
    ensures Valid(l) ==> Valid(r)
    ensures Valid(l) && amount >= 0 ==> r.balances[u] >= Balance(l, u)
  {
    var sum := Balance(l, u) + amount;
    l.(balances := l.balances[u := if sum < 0 then 0 else sum])
  }

  /** Crediting `amount` and then debiting it again restores the balance:
      the floor never fires on the debit because the credit put the amount there. */
  lemma CreditThenDebit(l: State, u: UserId, amount: nat)
    requires Valid(l)
    ensures Balance(ModifyBalance(ModifyBalance(l, u, amount), u, -(amount as int)), u) == Balance(l, u)
  {
  }

  /** Applies a series of balance changes to one user, in order. */
  function ApplyAll(l: State, u: UserId, deltas: seq<int>): State
    decreases |deltas|
  {
    if |deltas| == 0 then l
    else ApplyAll(ModifyBalance(l, u, deltas[0]), u, deltas[1..])
  }

  function Sum(xs: seq<int>): int {
    if |xs| == 0 then 0 else xs[0] + Sum(xs[1..])
  }

  /** Every prefix of the changes, started from `start`, stays at or above 0. */
  ghost predicate NeverBelowZero(start: int, deltas: seq<int>) {
    forall k :: 0 <= k <= |deltas| ==> start + Sum(deltas[..k]) >= 0
  }

  /** Replaying changes on one user: the floor only ever adds, so the final
      balance is at least the plain sum, and it is exactly the plain sum when
      no intermediate total dips below 0. Other users are untouched. */
  lemma {:induction false} ApplyAllBalance(l: State, u: UserId, deltas: seq<int>)
    requires Valid(l)
    ensures var r := ApplyAll(l, u, deltas);
      && Valid(r)
      && Balance(r, u) >= Balance(l, u) + Sum(deltas)
      && (NeverBelowZero(Balance(l, u), deltas) ==> Balance(r, u) == Balance(l, u) + Sum(deltas))
      && (forall v :: v != u ==> Balance(r, v) == Balance(l, v))
    decreases |deltas|
  {
    if |deltas| > 0 {
      var l1 := ModifyBalance(l, u, deltas[0]);
      ApplyAllBalance(l1, u, deltas[1..]);
      if NeverBelowZero(Balance(l, u), deltas) {
        assert deltas[..1] == [deltas[0]];
        assert Sum(deltas[..1]) == deltas[0] + Sum([]);
        assert Balance(l, u) + Sum(deltas[..1]) >= 0;
        assert Balance(l1, u) == Balance(l, u) + deltas[0];
        forall k | 0 <= k <= |deltas[1..]|
          ensures Balance(l1, u) + Sum(deltas[1..][..k]) >= 0
        {
          assert deltas[..k + 1][1..] == deltas[1..][..k];
          assert Balance(l, u) + Sum(deltas[..k + 1]) >= 0;
        }
      }
    }
  }

  // ---------------------------------------------------------------------------
  // Shop

  /** A catalog entry: display name, price in MattBucks, icon and description. */
  datatype Item = Item(name: string, price: nat, emoji: string, description: string)

  /** The fixed shop catalog, keyed by purchase code. */
  const Catalog: map<string, Item> := map[
    "1v1" := Item("1v1 Matt", 100, "\U{2694}\U{FE0F}",
                  "1v1 matt in Valorant, League, TFT, Minecraft, Tetris or Chess"),
    "nitro" := Item("1 Month Discord Nitro", 1500, "<:nitro:1091272926881390634>",
                    "One month of Discord Nitro, delivered via Discord"),
    "water" := Item("1 Bottle of AFA Water", 50000, "\U{1F4A7}",
                    "One bottle of AFA water, shipped directly to you"),
    "ping" := Item("Custom @everyone", 100000, "<:ping:1091272927737036953>",
                   "Customized @everyone message in #announcements")
  ]

  /** Why a purchase was refused. */
  datatype PurchaseError = UnknownItem | InsufficientFunds(price: nat, balance: int)

  /** What a successful purchase reports back: the item and the balance after it. */
  datatype Receipt = Receipt(item: Item, newBalance: int)

  /** The ledger after a purchase attempt together with its result. */
  datatype PurchaseOutcome = PurchaseOutcome(ledger: State, result: Result<Receipt, PurchaseError>)

  /** One purchase, as a single sequential step (PurchaseAsync). An unknown
      code and a balance strictly below the price are refused and change
      nothing; otherwise exactly the price is taken from the buyer and
      nobody else's entry moves. */
  function Purchase(l: State, buyer: UserId, code: string): (r: PurchaseOutcome)
    ensures r.result == Failure(UnknownItem) <==> code !in Catalog
    ensures r.result.Failure? ==> r.ledger == l
    ensures r.result.Success? <==> code in Catalog && Balance(l, buyer) >= Catalog[code].price
    ensures r.result.Failure? && code in Catalog ==>
      r.result.error == InsufficientFunds(Catalog[code].price, Balance(l, buyer))
    ensures r.result.Success? ==>
      && r.result.value.item == Catalog[code]
      && r.result.value.newBalance == Balance(l, buyer) - Catalog[code].price >= 0
      && r.ledger.balances == l.balances[buyer := Balance(l, buyer) - Catalog[code].price]
      && r.ledger.lastReward == l.lastReward
    ensures Valid(l) ==> Valid(r.ledger)
  {
    if code !in Catalog then PurchaseOutcome(l, Failure(UnknownItem))
    else
      var item := Catalog[code];
      var have := Balance(l, buyer);
      if have < item.price then PurchaseOutcome(l, Failure(InsufficientFunds(item.price, have)))
      else
        var l' := ModifyBalance(l, buyer, -(item.price as int));
        PurchaseOutcome(l', Success(Receipt(item, Balance(l', buyer))))
  }

  // ---------------------------------------------------------------------------
  // Persistence, at the level of the deserialized document

  /** The deserialized data document; either dictionary may be null. */
  datatype Snapshot = Snapshot(balances: Option<map<UserId, int>>, lastReward: Option<map<UserId, Time>>)

  /** What reading the data file produced: no file, an exception while reading
      or parsing, or the deserializer's (possibly null) result. */
  datatype StoredFile = NoFile | ReadError | Deserialized(data: Option<Snapshot>)

  /** The ledger at startup (LoadData): every failure falls back to two empty
      dictionaries, and a null dictionary inside the document becomes empty. */
  function Load(f: StoredFile): (l: State)
    ensures !(f.Deserialized? && f.data.Some?) ==> l == Empty
    ensures f.Deserialized? && f.data.Some? ==>
      && l.balances == f.data.value.balances.GetOr(map[])
      && l.lastReward == f.data.value.lastReward.GetOr(map[])
  {
    match f
    case Deserialized(Some(s)) => State(s.balances.GetOr(map[]), s.lastReward.GetOr(map[]))
    case _ => Empty
  }

  /** The document SaveData writes: copies of both dictionaries. Loading it
      back yields the same ledger. */
  function Save(l: State): (s: Snapshot)
    ensures Load(Deserialized(Some(s))) == l
  {
    Snapshot(Some(l.balances), Some(l.lastReward))
  }

  // ---------------------------------------------------------------------------
  // The balance update as written, with 32-bit arithmetic

  const Int32Max: int := 0x7FFF_FFFF
  const Int32Min: int := -0x8000_0000

  predicate IsInt32(x: int) { Int32Min <= x <= Int32Max }

  /** Two's-complement wrap-around of C#'s unchecked `int` addition. */
  function Wrap32(x: int): (r: int)
    ensures IsInt32(r)
    ensures IsInt32(x) ==> r == x
    ensures (r - x) % 0x1_0000_0000 == 0
  {
    (x - Int32Min) % 0x1_0000_0000 + Int32Min
  }

  /** ModifyUserBalance exactly as written: the stored balance and the amount
      are 32-bit, `+=` wraps, and only then is a negative result floored. */
  function ModifyBalanceAsWritten(l: State, u: UserId, amount: int): (r: State)
    requires IsInt32(Balance(l, u)) && IsInt32(amount)
    ensures r.balances.Keys == l.balances.Keys + {u}
    ensures 0 <= r.balances[u] <= Int32Max
    ensures IsInt32(Balance(l, u) + amount) ==> r == ModifyBalance(l, u, amount)
    ensures forall v :: v != u && v in l.balances ==> r.balances[v] == l.balances[v]
    ensures r.lastReward == l.lastReward
    ensures 0 <= Balance(l, u) && amount > 0 && Balance(l, u) + amount > Int32Max ==> r.balances[u] == 0
  {
    var sum := Wrap32(Balance(l, u) + amount);
    l.(balances := l.balances[u := if sum < 0 then 0 else sum])
  }

  /** As written, crediting a user who holds Int32.MaxValue wraps the total
      round to a negative number, which the floor then turns into 0: a credit
      wipes the balance. */
  lemma CreditAtInt32MaxWipesBalance()
    ensures var l := State(map[7 := Int32Max], map[]);
      ModifyBalanceAsWritten(l, 7, 1).balances[7] == 0
  {
  }
}
