/**
 * The accounts an exchange holds for the bot: one account per currency, each
 * with an available and a held amount, and an optional share per currency
 * saying which fraction of the account the bot may use.
 */
module Accounts {

  import opened Wrappers
  import EnumTables

  /** An account: the amount free to trade and the amount held by open orders. */
  datatype Account = Account(id: string, currency: int, available: real, hold: real)
  {
    /** `getBalance()`. */
    function Balance(): real { available + hold }

    /** The constructors and both setters assert that neither amount is negative. */
    predicate Valid() { available >= 0.0 && hold >= 0.0 }

    /** `setAvailable(a)`: asserts a non-negative amount. */
    function SetAvailable(a: real): (r: Account)
      requires a >= 0.0
      ensures r.available == a && r.hold == hold && r.currency == currency && r.id == id
      ensures Valid() ==> r.Valid()
    {
      this.(available := a)
    }

    /** `setHold(h)`: asserts a non-negative amount. */
    function SetHold(h: real): (r: Account)
      requires h >= 0.0
      ensures r.hold == h && r.available == available && r.currency == currency && r.id == id
      ensures Valid() ==> r.Valid()
    {
      this.(hold := h)
    }
  }

  /** The balance of a valid account is never negative, and is at least each
    * of its two parts. */
  lemma BalanceBounds(a: Account)
    requires a.Valid()
    ensures a.Balance() >= 0.0 && a.Balance() >= a.available && a.Balance() >= a.hold
  {
  }

  /** Moving `x` (at most the held amount) from hold to available keeps the
    * balance and the account valid. */
  lemma ReleaseKeepsBalance(a: Account, x: real)
    requires a.Valid() && 0.0 <= x <= a.hold
    ensures a.SetAvailable(a.available + x).SetHold(a.hold - x).Balance() == a.Balance()
    ensures a.SetAvailable(a.available + x).SetHold(a.hold - x).Valid()
  {
  }

  /** The first position in `entries` whose share exceeds one, or the length
    * when there is none. */
  function FirstOverOne(entries: seq<(string, real)>): (k: nat)
    ensures k <= |entries|
    ensures forall i :: 0 <= i < k ==> entries[i].1 <= 1.0
    ensures k < |entries| ==> entries[k].1 > 1.0
  {
    if entries == [] then 0
    else if entries[0].1 > 1.0 then 0
    else 1 + FirstOverOne(entries[1..])
  }

  /** The share map after storing `entries` in order, each under the currency
    * its name looks up to; a later entry for the same currency wins. */
  function StoreShares(m: map<int, real>, table: seq<string>, entries: seq<(string, real)>): map<int, real>
    decreases |entries|
  {
    if entries == [] then m
    else
      var last := entries[|entries| - 1];
      StoreShares(m, table, entries[..|entries| - 1])[ShareCurrency(table, last) := last.1]
  }

  /** Every stored share is at most one. */
  predicate SharesAtMostOne(m: map<int, real>)
  {
    forall c :: c in m ==> m[c] <= 1.0
  }

  /** Storing entries none of which exceeds one keeps every share at most one. */
  lemma {:induction false} StoreSharesAtMostOne(m: map<int, real>, table: seq<string>, entries: seq<(string, real)>)
    requires SharesAtMostOne(m)
    requires forall i :: 0 <= i < |entries| ==> entries[i].1 <= 1.0
    ensures SharesAtMostOne(StoreShares(m, table, entries))
    decreases |entries|
  {
    if entries != [] {
      StoreSharesAtMostOne(m, table, entries[..|entries| - 1]);
    }
  }

  /** The currency an entry of the share object names. */
  function ShareCurrency(table: seq<string>, e: (string, real)): int
  {
    EnumTables.Lookup(table, EnumTables.CurrencyOffset, e.0)
  }

  /** Storing entries only adds keys: a currency has a share afterwards iff it
    * had one before or some entry names it. */
  lemma {:induction false} StoreSharesKeys(m: map<int, real>, table: seq<string>, entries: seq<(string, real)>, c: int)
    ensures c in StoreShares(m, table, entries)
            <==> c in m || exists i :: 0 <= i < |entries| && ShareCurrency(table, entries[i]) == c
    decreases |entries|
  {
    if entries != [] {
      var n := |entries| - 1;
      StoreSharesKeys(m, table, entries[..n], c);
      if exists i :: 0 <= i < |entries| && ShareCurrency(table, entries[i]) == c {
        var i :| 0 <= i < |entries| && ShareCurrency(table, entries[i]) == c;
        if i < n {
          assert entries[..n][i] == entries[i];
        }
      }
      if exists i :: 0 <= i < n && ShareCurrency(table, entries[..n][i]) == c {
        var i :| 0 <= i < n && ShareCurrency(table, entries[..n][i]) == c;
        assert entries[..n][i] == entries[i];
      }
    }
  }

  /** The error `processShares` reports for a share above one. */
  datatype ShareError = InvalidAccountShare

  /**
   * The accounts of one exchange, by currency, and the configured shares. An
   * account is stored under its own currency.
   */
  class ExchangeAccounts {
    var accounts: map<int, Account>
    var shares: map<int, real>
    const isVirtual: bool

    /** Every account is stored under its currency and is valid. */
    predicate Valid()
      reads this
    {
      forall c :: c in accounts ==> accounts[c].currency == c && accounts[c].Valid()
    }

    /** An empty wallet. */
    constructor (isVirtual: bool)
      ensures accounts == map[] && shares == map[] && this.isVirtual == isVirtual
      ensures Valid()
    {
      accounts := map[];
      shares := map[];
      this.isVirtual := isVirtual;
    }

    /** `checkIfAccountExist(currency)`. */
    predicate Exists(c: int)
      reads this
    {
      c in accounts
    }

    /** `addAccount(account)`: asserts the currency has no account yet, then
      * stores the account under it. */
    method AddAccount(a: Account)
      requires Valid() && a.Valid()
      requires !Exists(a.currency)
      modifies this`accounts
      ensures accounts == old(accounts)[a.currency := a]
      ensures Valid() && Exists(a.currency)
    {
      accounts := accounts[a.currency := a];
    }

    /** `removeAccount(currency)`: asserts the account exists, then erases only it. */
    method RemoveAccount(c: int)
      requires Valid() && Exists(c)
      modifies this`accounts
      ensures accounts == old(accounts) - {c}
      ensures Valid() && !Exists(c)
    {
      accounts := accounts - {c};
    }

    /** `modifyAccount(account)`: stores the account under its currency,
      * whether or not one was there. */
    method ModifyAccount(a: Account)
      requires Valid() && a.Valid()
      modifies this`accounts
      ensures accounts == old(accounts)[a.currency := a]
      ensures Valid() && Exists(a.currency)
    {
      accounts := accounts[a.currency := a];
    }

    /** `getAccountShare(currency)`: the stored share, or 1 when none is set. */
    function GetAccountShare(c: int): (s: real)
      reads this
      ensures c !in shares ==> s == 1.0
      ensures SharesAtMostOne(shares) ==> s <= 1.0
    {
      if c !in shares then 1.0 else shares[c]
    }

    /**
     * `processShares(json)`: with no "account_share" object nothing happens;
     * otherwise each (name, share) entry is stored in order under the currency
     * the name looks up to, and the first share above one is a fatal error,
     * reported after the entries before it are stored.
     */
    method ProcessShares(table: seq<string>, entries: Option<seq<(string, real)>>) returns (r: Result<(), ShareError>)
      modifies this`shares
      ensures entries.None? ==> r.Ok? && shares == old(shares)
      ensures entries.Some? ==> (r.Err? <==> FirstOverOne(entries.value) < |entries.value|)
      ensures entries.Some? ==> shares == StoreShares(old(shares), table, entries.value[..FirstOverOne(entries.value)])
      ensures SharesAtMostOne(old(shares)) ==> SharesAtMostOne(shares)
    {
      if entries.None? {
        return Ok(());
      }
      var es := entries.value;
      if SharesAtMostOne(shares) {
        StoreSharesAtMostOne(shares, table, es[..FirstOverOne(es)]);
      }
      var failed := StoreEntries(table, es);
      r := if failed then Err(InvalidAccountShare) else Ok(());
    }

    /** The loop of `processShares` over the entries of the share object. */
    method StoreEntries(table: seq<string>, es: seq<(string, real)>) returns (failed: bool)
      modifies this`shares
      ensures failed <==> FirstOverOne(es) < |es|
      ensures shares == StoreShares(old(shares), table, es[..FirstOverOne(es)])
    {
      var i := 0;
      while i < |es|
        invariant i <= FirstOverOne(es)
        invariant shares == StoreShares(old(shares), table, es[..i])
      {
        if es[i].1 > 1.0 {
          assert i == FirstOverOne(es);
          return true;
        }
        assert es[..i + 1][..i] == es[..i];
        shares := shares[ShareCurrency(table, es[i]) := es[i].1];
        i := i + 1;
      }
      assert es[..i] == es && FirstOverOne(es) == |es|;
      return false;
    }
  }

  /** Adding an account for a new currency and removing it again restores the
    * accounts. */
  lemma AddThenRemove(accounts: map<int, Account>, a: Account)
    requires a.currency !in accounts
    ensures accounts[a.currency := a] - {a.currency} == accounts
  {
  }
}
