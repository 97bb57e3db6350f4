/** The "richest" query of the MattBucks ledger (CheckRichestAsync in
    src/modules/general/MattBucksModule.cs): positive balances, highest first,
    at most ten. */
module Richest {
  import opened Guilds

  /** One dictionary entry: a user and their balance. */
  datatype Entry = Entry(user: UserId, balance: int)

  const RichestLimit: nat := 10

  /** The entries with a positive balance, in their original order (`Where`). */
  function Positive(es: seq<Entry>): (r: seq<Entry>)
    ensures |r| <= |es|
    ensures forall i :: 0 <= i < |r| ==> r[i].balance > 0
    ensures forall e :: multiset(r)[e] == if e.balance > 0 then multiset(es)[e] else 0
  {
    KeepPositiveCounts(es);
    KeepPositive(es)
  }

  /** The recursion behind `Positive`, kept free of contracts so that facts
      about its shape are cheap to prove. */
  function KeepPositive(es: seq<Entry>): seq<Entry> {
    if |es| == 0 then []
    else if es[0].balance > 0 then [es[0]] + KeepPositive(es[1..])
    else KeepPositive(es[1..])
  }

  lemma {:induction false} KeepPositiveCounts(es: seq<Entry>)
    ensures var r := KeepPositive(es);
      && |r| <= |es|
      && (forall i :: 0 <= i < |r| ==> r[i].balance > 0)
      && (forall e :: multiset(r)[e] == if e.balance > 0 then multiset(es)[e] else 0)
  {
    if |es| > 0 {
      KeepPositiveCounts(es[1..]);
      assert es == [es[0]] + es[1..];
    }
  }

  /** The entries of `s` whose balance is `b`, in their order in `s`. */
  function WithBalance(s: seq<Entry>, b: int): seq<Entry> {
    if |s| == 0 then [] else (if s[0].balance == b then [s[0]] else []) + WithBalance(s[1..], b)
  }

  lemma WithBalanceCons(x: Entry, s: seq<Entry>, b: int)
    ensures WithBalance([x] + s, b) == (if x.balance == b then [x] else []) + WithBalance(s, b)
  {
    assert ([x] + s)[1..] == s;
  }

  /** Selecting one balance works piece by piece. */
  lemma {:induction false} WithBalanceAppend(a: seq<Entry>, c: seq<Entry>, b: int)
    ensures WithBalance(a + c, b) == WithBalance(a, b) + WithBalance(c, b)
  {
    if |a| == 0 {
      assert a + c == c;
    } else {
      WithBalanceAppend(a[1..], c, b);
      assert a + c == [a[0]] + (a[1..] + c);
      WithBalanceCons(a[0], a[1..] + c, b);
      WithBalanceCons(a[0], a[1..], b);
      assert a == [a[0]] + a[1..];
    }
  }

  /** The filter works piece by piece, so it keeps the input order. */
  lemma PositiveAppend(a: seq<Entry>, c: seq<Entry>)
    ensures Positive(a + c) == Positive(a) + Positive(c)
  {
    KeepPositiveAppend(a, c);
  }

  lemma {:induction false} KeepPositiveAppend(a: seq<Entry>, c: seq<Entry>)
    ensures KeepPositive(a + c) == KeepPositive(a) + KeepPositive(c)
  {
    if |a| == 0 {
      assert a + c == c;
    } else {
      var ac := a + c;
      assert ac[0] == a[0] && ac[1..] == a[1..] + c;
      var h := if a[0].balance > 0 then [a[0]] else [];
      calc {
        KeepPositive(ac);
        { KeepPositiveHead(ac); }
        h + KeepPositive(a[1..] + c);
        { KeepPositiveAppend(a[1..], c); }
        h + (KeepPositive(a[1..]) + KeepPositive(c));
        (h + KeepPositive(a[1..])) + KeepPositive(c);
        { KeepPositiveHead(a); }
        KeepPositive(a) + KeepPositive(c);
      }
    }
  }

  lemma KeepPositiveHead(s: seq<Entry>)
    requires |s| > 0
    ensures KeepPositive(s) == (if s[0].balance > 0 then [s[0]] else []) + KeepPositive(s[1..])
  {
  }

  /** The entries of one positive balance survive the filter in their order;
      those of any other balance do not survive at all. */
  lemma PositiveWithBalance(es: seq<Entry>, b: int)
    ensures WithBalance(Positive(es), b) == if b > 0 then WithBalance(es, b) else []
  {
    KeepPositiveWithBalance(es, b);
  }

  lemma {:induction false} KeepPositiveWithBalance(es: seq<Entry>, b: int)
    ensures WithBalance(KeepPositive(es), b) == if b > 0 then WithBalance(es, b) else []
  {
    if |es| > 0 {
      KeepPositiveWithBalance(es[1..], b);
      WithBalanceCons(es[0], es[1..], b);
      assert es == [es[0]] + es[1..];
      if es[0].balance > 0 {
        WithBalanceCons(es[0], KeepPositive(es[1..]), b);
      }
    }
  }

  /** The balances of `s` never increase from left to right. */
  ghost predicate Descending(s: seq<Entry>) {
    forall i, j :: 0 <= i < j < |s| ==> s[i].balance >= s[j].balance
  }

  /** Inserts `e` into a descending sequence before the first entry whose
      balance is not greater, so entries met earlier stay ahead of equal ones. */
  function Insert(e: Entry, s: seq<Entry>): (r: seq<Entry>)
    requires Descending(s)
    ensures Descending(r)
    ensures multiset(r) == multiset(s) + multiset{e}
  {
    if |s| == 0 || s[0].balance <= e.balance then
      assert Descending([e] + s) by {
        forall i, j | 0 <= i < j < |[e] + s| ensures ([e] + s)[i].balance >= ([e] + s)[j].balance {
          if i > 0 { assert ([e] + s)[i] == s[i - 1]; }
          assert ([e] + s)[j] == s[j - 1];
        }
      }
      [e] + s
    else
      var rest := Insert(e, s[1..]);
      InsertHead(e, s, rest);
      [s[0]] + rest
  }

  /** Putting the head of `s` back in front of `rest` keeps it descending. */
  lemma InsertHead(e: Entry, s: seq<Entry>, rest: seq<Entry>)
    requires Descending(s) && |s| > 0 && s[0].balance > e.balance
    requires Descending(rest) && multiset(rest) == multiset(s[1..]) + multiset{e}
    ensures Descending([s[0]] + rest)
    ensures multiset([s[0]] + rest) == multiset(s) + multiset{e}
  {
    assert s == [s[0]] + s[1..];
    var r := [s[0]] + rest;
    forall i, j | 0 <= i < j < |r| ensures r[i].balance >= r[j].balance {
      var x := r[j];
      assert x == rest[j - 1];
      assert x in multiset(rest);
      if x != e {
        assert x in multiset(s[1..]);
        var k :| 0 <= k < |s[1..]| && s[1..][k] == x;
        assert s[k + 1] == x;
      }
      if i > 0 { assert r[i] == rest[i - 1]; }
    }
  }

  /** Insertion places `e` ahead of the entries of its own balance and
      leaves every other balance's entries as they were. */
  lemma {:induction false} InsertWithBalance(e: Entry, s: seq<Entry>, b: int)
    requires Descending(s)
    ensures WithBalance(Insert(e, s), b) == (if e.balance == b then [e] else []) + WithBalance(s, b)
  {
    if |s| == 0 || s[0].balance <= e.balance {
      WithBalanceCons(e, s, b);
    } else {
      assert Descending(s[1..]) by {
        forall i, j | 0 <= i < j < |s[1..]| ensures s[1..][i].balance >= s[1..][j].balance {
          assert s[1..][i] == s[i + 1] && s[1..][j] == s[j + 1];
        }
      }
      InsertWithBalance(e, s[1..], b);
      assert Insert(e, s) == [s[0]] + Insert(e, s[1..]);
      PassOver(s[0], e, Insert(e, s[1..]), s[1..], b);
      assert s == [s[0]] + s[1..];
    }
  }

  /** An entry richer than `e` that stays in front of it does not disturb
      where `e` lands among the entries of its own balance. */
  lemma PassOver(x: Entry, e: Entry, t: seq<Entry>, u: seq<Entry>, b: int)
    requires x.balance > e.balance
    requires WithBalance(t, b) == (if e.balance == b then [e] else []) + WithBalance(u, b)
    ensures WithBalance([x] + t, b) == (if e.balance == b then [e] else []) + WithBalance([x] + u, b)
  {
    WithBalanceCons(x, t, b);
    WithBalanceCons(x, u, b);
  }

  /** Sorts by balance, highest first, keeping the original order among equal
      balances (`OrderByDescending` is a stable sort). */
  function SortDescending(es: seq<Entry>): (r: seq<Entry>)
    ensures Descending(r)
    ensures multiset(r) == multiset(es)
    ensures forall b :: WithBalance(r, b) == WithBalance(es, b)
  {
    if |es| == 0 then []
    else
      assert es == [es[0]] + es[1..];
      var rest := SortDescending(es[1..]);
      assert forall b :: WithBalance(Insert(es[0], rest), b) == WithBalance(es, b) by {
        forall b ensures WithBalance(Insert(es[0], rest), b) == WithBalance(es, b) {
          InsertWithBalance(es[0], rest, b);
          WithBalanceCons(es[0], es[1..], b);
        }
      }
      Insert(es[0], rest)
  }

  /** The first `n` entries, or all of them when there are fewer (`Take`). */
  function Take(s: seq<Entry>, n: nat): (r: seq<Entry>)
    ensures |r| == if |s| < n then |s| else n
    ensures r == s[..|r|]
  {
    if |s| < n then s else s[..n]
  }

  /** The richest list: only positive balances, at most ten entries, highest
      first, each taken from the input and never more often than it occurs
      there; and nobody with a positive balance is missing unless the list is
      full and they hold no more than its last entry. */
  function TopHolders(es: seq<Entry>): (r: seq<Entry>)
    ensures |r| <= RichestLimit
    ensures forall i :: 0 <= i < |r| ==> r[i].balance > 0
    ensures multiset(r) <= multiset(es)
    ensures Descending(r)
    ensures forall e :: e in es && e.balance > 0 ==>
      e in r || (|r| == RichestLimit && e.balance <= r[RichestLimit - 1].balance)
    ensures forall b :: WithBalance(r, b) <= WithBalance(es, b)
  {
    var sorted := SortDescending(Positive(es));
    var r := Take(sorted, RichestLimit);
    TakeKeeps(es, sorted, r);
    TakeLeavesLower(sorted, r);
    TakeMisses(es, sorted, r);
    TakeStable(es, sorted, r);
    r
  }

  /** Among equal balances the first ten keep the input's first entries, in
      the input's order. */
  lemma TakeStable(es: seq<Entry>, sorted: seq<Entry>, r: seq<Entry>)
    requires forall b :: WithBalance(sorted, b) == WithBalance(Positive(es), b)
    requires r == Take(sorted, RichestLimit)
    ensures forall b :: WithBalance(r, b) <= WithBalance(es, b)
  {
    forall b ensures WithBalance(r, b) <= WithBalance(es, b) {
      assert sorted == r + sorted[|r|..];
      WithBalanceAppend(r, sorted[|r|..], b);
      PositiveWithBalance(es, b);
    }
  }

  /** What the first ten of the sorted positive entries hold: positive
      entries, each at most as often as in the input, still descending. */
  lemma TakeKeeps(es: seq<Entry>, sorted: seq<Entry>, r: seq<Entry>)
    requires Descending(sorted) && multiset(sorted) == multiset(Positive(es))
    requires r == Take(sorted, RichestLimit)
    ensures forall i :: 0 <= i < |r| ==> r[i].balance > 0
    ensures multiset(r) <= multiset(es)
    ensures Descending(r)
  {
    PrefixFacts(sorted, |r|);
    var p := Positive(es);
    assert multiset(r) <= multiset(p);
    forall i | 0 <= i < |r| ensures r[i].balance > 0 {
      assert multiset(r)[r[i]] > 0;
      assert multiset(p)[r[i]] > 0;
    }
  }

  /** A prefix of a descending list is descending and holds no entry more
      often than the list. */
  lemma PrefixFacts(s: seq<Entry>, n: nat)
    requires Descending(s) && n <= |s|
    ensures Descending(s[..n])
    ensures multiset(s[..n]) <= multiset(s)
  {
    assert s == s[..n] + s[n..];
    forall i, j | 0 <= i < j < n ensures s[..n][i].balance >= s[..n][j].balance {
      assert s[..n][i] == s[i] && s[..n][j] == s[j];
    }
  }

  /** Every sorted entry past the first ten sits below a full list and is no
      larger than its last entry. */
  lemma TakeLeavesLower(sorted: seq<Entry>, r: seq<Entry>)
    requires Descending(sorted) && r == Take(sorted, RichestLimit)
    ensures forall k :: |r| <= k < |sorted| ==>
      |r| == RichestLimit && sorted[k].balance <= r[RichestLimit - 1].balance
  {
    forall k | |r| <= k < |sorted|
      ensures |r| == RichestLimit && sorted[k].balance <= r[RichestLimit - 1].balance
    {
      assert r[RichestLimit - 1] == sorted[RichestLimit - 1];
    }
  }

  /** A positive input entry is among the first ten or below a full list. */
  lemma TakeMisses(es: seq<Entry>, sorted: seq<Entry>, r: seq<Entry>)
    requires multiset(sorted) == multiset(Positive(es))
    requires r == Take(sorted, RichestLimit)
    requires forall k :: |r| <= k < |sorted| ==>
      |r| == RichestLimit && sorted[k].balance <= r[RichestLimit - 1].balance
    ensures forall e :: e in es && e.balance > 0 ==>
      e in r || (|r| == RichestLimit && e.balance <= r[RichestLimit - 1].balance)
  {
    forall e | e in es && e.balance > 0
      ensures e in r || (|r| == RichestLimit && e.balance <= r[RichestLimit - 1].balance)
    {
      assert multiset(sorted)[e] == multiset(es)[e] > 0;
      var k :| 0 <= k < |sorted| && sorted[k] == e;
      if k < |r| {
        assert r[k] == e;
      }
    }
  }

  /** No user appears in two entries. */
  ghost predicate UniqueUsers(s: seq<Entry>) {
    forall i, j :: 0 <= i < j < |s| ==> s[i].user != s[j].user
  }

  /** An entry occurs at most once in a list whose users are unique. */
  lemma {:induction false} AtMostOnce(s: seq<Entry>, e: Entry)
    requires UniqueUsers(s)
    ensures multiset(s)[e] <= 1
  {
    if |s| > 0 {
      assert s == [s[0]] + s[1..];
      assert UniqueUsers(s[1..]) by {
        forall i, j | 0 <= i < j < |s[1..]| ensures s[1..][i].user != s[1..][j].user {
          assert s[1..][i] == s[i + 1] && s[1..][j] == s[j + 1];
        }
      }
      AtMostOnce(s[1..], e);
      if s[0] == e {
        forall i | 0 <= i < |s[1..]| ensures s[1..][i] != e {
          assert s[1..][i] == s[i + 1];
        }
        assert e !in s[1..];
      }
    }
  }

  /** Taking entries from a list with unique users, each at most as often as
      it occurs there, keeps the users unique. */
  lemma SubUnique(es: seq<Entry>, r: seq<Entry>)
    requires UniqueUsers(es) && multiset(r) <= multiset(es)
    ensures UniqueUsers(r)
  {
    forall i, j | 0 <= i < j < |r| ensures r[i].user != r[j].user {
      if r[i].user == r[j].user {
        assert r[i] in multiset(es) && r[j] in multiset(es);
        var a :| 0 <= a < |es| && es[a] == r[i];
        var b :| 0 <= b < |es| && es[b] == r[j];
        assert a == b;
        assert r == r[..j] + r[j..];
        assert r[i] in r[..j];
        assert multiset(r)[r[i]] == multiset(r[..j])[r[i]] + multiset(r[j..])[r[i]];
        assert r[j..][0] == r[i];
        AtMostOnce(es, r[i]);
      }
    }
  }

  /** The entries of a balance dictionary in the dictionary's enumeration
      order `order`, which lists every key once. */
  function EntriesOf(balances: map<UserId, int>, order: seq<UserId>): (es: seq<Entry>)
    requires forall i :: 0 <= i < |order| ==> order[i] in balances
    ensures |es| == |order|
    ensures forall i :: 0 <= i < |es| ==> es[i] == Entry(order[i], balances[order[i]])
  {
    if |order| == 0 then [] else [Entry(order[0], balances[order[0]])] + EntriesOf(balances, order[1..])
  }

  /** The richest query over the balance dictionary, whose keys `order`
      enumerates once each: every listed user holds exactly the listed positive
      balance, nobody is listed twice, and a user with a positive balance who
      is not listed holds no more than the tenth entry. */
  function RichestList(balances: map<UserId, int>, order: seq<UserId>): (r: seq<Entry>)
    requires forall i :: 0 <= i < |order| ==> order[i] in balances
    requires forall u :: u in balances ==> u in order
    requires forall i, j :: 0 <= i < j < |order| ==> order[i] != order[j]
    ensures |r| <= RichestLimit
    ensures Descending(r)
    ensures forall i :: 0 <= i < |r| ==> r[i].user in balances && balances[r[i].user] == r[i].balance > 0
    ensures UniqueUsers(r)
    ensures forall u :: u in balances && balances[u] > 0 ==>
      (forall i :: 0 <= i < |r| ==> r[i].user != u) ==> |r| == RichestLimit && balances[u] <= r[RichestLimit - 1].balance
    ensures forall b :: WithBalance(r, b) <= WithBalance(EntriesOf(balances, order), b)
  {
    RichestFacts(balances, order);
    TopHolders(EntriesOf(balances, order))
  }

  /** The facts `RichestList` promises, gathered from the top holders of the
      dictionary's entries. */
  lemma RichestFacts(balances: map<UserId, int>, order: seq<UserId>)
    requires forall i :: 0 <= i < |order| ==> order[i] in balances
    requires forall u :: u in balances ==> u in order
    requires forall i, j :: 0 <= i < j < |order| ==> order[i] != order[j]
    ensures var r := TopHolders(EntriesOf(balances, order));
      && (forall i :: 0 <= i < |r| ==> r[i].user in balances && balances[r[i].user] == r[i].balance > 0)
      && UniqueUsers(r)
      && (forall u :: u in balances && balances[u] > 0 ==>
        (forall i :: 0 <= i < |r| ==> r[i].user != u) ==> |r| == RichestLimit && balances[u] <= r[RichestLimit - 1].balance)
  {
    var es := EntriesOf(balances, order);
    var r := TopHolders(es);
    ListedHold(balances, order, es, r);
    EntriesUnique(balances, order, es);
    SubUnique(es, r);
    UnlistedBelow(balances, order, es, r);
  }

  /** Each listed entry is a dictionary entry with a positive balance. */
  lemma ListedHold(balances: map<UserId, int>, order: seq<UserId>, es: seq<Entry>, r: seq<Entry>)
    requires forall i :: 0 <= i < |order| ==> order[i] in balances
    requires es == EntriesOf(balances, order)
    requires multiset(r) <= multiset(es) && forall i :: 0 <= i < |r| ==> r[i].balance > 0
    ensures forall i :: 0 <= i < |r| ==> r[i].user in balances && balances[r[i].user] == r[i].balance > 0
  {
    forall i | 0 <= i < |r| ensures r[i].user in balances && balances[r[i].user] == r[i].balance > 0 {
      assert r[i] in multiset(es);
      var k :| 0 <= k < |es| && es[k] == r[i];
    }
  }

  /** Enumerating each key once gives entries with unique users. */
  lemma EntriesUnique(balances: map<UserId, int>, order: seq<UserId>, es: seq<Entry>)
    requires forall i :: 0 <= i < |order| ==> order[i] in balances
    requires forall i, j :: 0 <= i < j < |order| ==> order[i] != order[j]
    requires es == EntriesOf(balances, order)
    ensures UniqueUsers(es)
  {
    forall i, j | 0 <= i < j < |es| ensures es[i].user != es[j].user {
      assert es[i].user == order[i] && es[j].user == order[j];
    }
  }

  /** A positive dictionary entry that is not listed sits below a full list. */
  lemma UnlistedBelow(balances: map<UserId, int>, order: seq<UserId>, es: seq<Entry>, r: seq<Entry>)
    requires forall i :: 0 <= i < |order| ==> order[i] in balances
    requires forall u :: u in balances ==> u in order
    requires es == EntriesOf(balances, order)
    requires forall e :: e in es && e.balance > 0 ==>
      e in r || (|r| == RichestLimit && e.balance <= r[RichestLimit - 1].balance)
    ensures forall u :: u in balances && balances[u] > 0 ==>
      (forall i :: 0 <= i < |r| ==> r[i].user != u) ==> |r| == RichestLimit && balances[u] <= r[RichestLimit - 1].balance
  {
    forall u | u in balances && balances[u] > 0
      ensures (forall i :: 0 <= i < |r| ==> r[i].user != u) ==> |r| == RichestLimit && balances[u] <= r[RichestLimit - 1].balance
    {
      var k :| 0 <= k < |order| && order[k] == u;
      var e := es[k];
      assert e in es && e.balance > 0;
      if e in r {
        var i :| 0 <= i < |r| && r[i] == e;
        assert r[i].user == u;
      }
    }
  }
}
