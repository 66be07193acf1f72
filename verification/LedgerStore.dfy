/** The ledger as a database that is changed step by step (apps/ledger/services.py). */
module LedgerStores {
  import opened Outcomes
  import opened Decimals
  import opened Accounts
  import opened Ledger
  import opened Sums

  class LedgerStore {
    var balances: map<Account, int>
    var txns: seq<Txn>

    ghost function View(): Book
      reads this
    {
      Book(balances, txns)
    }

    constructor ()
      ensures View() == Book(map[], [])
    {
      balances, txns := map[], [];
    }

    method FindByKey(k: Key) returns (i: int)
      ensures i == Find(txns, k)
    {
      i := |txns| - 1;
      assert txns[..|txns|] == txns;
      while i >= 0 && txns[i].key != Some(k)
        invariant -1 <= i < |txns|
        invariant Find(txns, k) == Find(txns[..i + 1], k)
      {
        assert txns[..i + 1][..i] == txns[..i];
        i := i - 1;
      }
    }

    /** `get_or_create`: a missing row starts at zero. */
    method GetOrCreate(a: Account)
      modifies this`balances
      ensures balances == Provisioned(old(balances), {a})
    {
      if a !in balances {
        balances := balances[a := 0];
      }
    }

    /** `ensure_accounts`: one account of each default kind, and the points account. */
    method EnsureAccounts(owner: Owner, currency: Currency)
      modifies this`balances
      ensures balances == Provisioned(old(balances), DefaultAccounts(owner, currency))
    {
      hide Provisioned, AccountsOf, DefaultAccounts;
      var kinds := [Cash, Bonus, Pending, Locked, Withdrawable, DepositFunds];
      ghost var done: set<Account> := {};
      NothingProvisioned(balances, owner, currency);
      for i := 0 to |kinds|
        invariant balances == Provisioned(old(balances), done)
        invariant done == AccountsOf(owner, kinds[..i], currency)
      {
        var a := Account(owner, kinds[i], currency);
        GetOrCreate(a);
        ProvisionTwice(old(balances), done, {a});
        OneMoreAccount(owner, kinds, i, currency);
        done := done + {a};
      }
      var points := Account(owner, Points, POINTS);
      GetOrCreate(points);
      ProvisionTwice(old(balances), done, {points});
      assert kinds[..|kinds|] == kinds;
      AllDefaultAccounts(owner, currency);
    }

    /** `get_account`: the wallet's accounts are provisioned first, then the one asked for. */
    method GetAccount(owner: Owner, kind: Kind, currency: Currency, walletCurrency: Currency) returns (a: Account)
      modifies this`balances
      ensures a == Account(owner, kind, currency)
      ensures balances == Provisioned(old(balances), DefaultAccounts(owner, walletCurrency) + {a})
      ensures a in balances && Account(owner, Points, POINTS) in balances
      ensures forall k: Kind | k != Points :: Account(owner, k, walletCurrency) in balances
    {
      a := Account(owner, kind, currency);
      EnsureAccounts(owner, walletCurrency);
      GetOrCreate(a);
      ProvisionTwice(old(balances), DefaultAccounts(owner, walletCurrency), {a});
    }

    method SumOf(entries: seq<Entry>) returns (total: int)
      ensures total == Total(entries)
    {
      total := 0;
      for i := 0 to |entries|
        invariant total == Total(entries[..i])
      {
        total := total + entries[i].amount;
        assert entries[..i + 1][..i] == entries[..i];
      }
      assert entries[..|entries|] == entries;
    }

    /** The per-currency totals, accumulated in a dictionary. */
    method SumsByCurrency(entries: seq<Entry>) returns (totals: map<Currency, int>)
      ensures totals.Keys == set e | e in entries :: e.account.currency
      ensures forall c | c in totals :: totals[c] == Turnover(entries, c)
    {
      totals := map[];
      for i := 0 to |entries|
        invariant totals.Keys == set e | e in entries[..i] :: e.account.currency
        invariant forall c :: (if c in totals then totals[c] else 0) == Turnover(entries[..i], c)
      {
        var c, amount := entries[i].account.currency, entries[i].amount;
        totals := totals[c := (if c in totals then totals[c] else 0) + amount];
        assert entries[..i + 1] == entries[..i] + [entries[i]];
        forall d ensures Turnover(entries[..i + 1], d) == Turnover(entries[..i], d) + (if d == c then amount else 0) {
          TurnoverAppend(entries[..i], entries[i], d);
        }
      }
      assert entries[..|entries|] == entries;
    }

    /** `post_transaction`.  An error leaves everything as it was; a used key posts nothing. */
    method PostTransaction(key: Option<Key>, entries: seq<Entry>) returns (r: Result<(nat, bool), LedgerError>)
      modifies this
      ensures match Post(old(View()), key, entries) {
                case Created(b) => r == Ok((|old(txns)|, true)) && View() == b
                case Existing(i) => r == Ok((i, false)) && View() == old(View())
                case Refused(e) => r == Err(e) && View() == old(View())
              }
      ensures PostingAnswers(old(View()), key, entries, r, View())
    {
      hide PostingAnswers;
      PostIsAnswered(View(), key, entries);
      if entries == [] {
        return Err(NoEntries);
      }
      if key.Some? {
        var i := FindByKey(key.value);
        if i >= 0 {
          return Ok((i, false));
        }
      }
      var total := SumOf(entries);
      if total != 0 {
        return Err(Unbalanced);
      }
      var totals := SumsByCurrency(entries);
      assert BalancedPerCurrency(entries) <==> forall c | c in totals :: totals[c] == 0;
      if c :| c in totals && totals[c] != 0 {
        return Err(CurrencyUnbalanced);
      }
      if e :| e in entries && e.account !in balances {
        return Err(UnknownAccount);
      }
      txns := txns + [Txn(key, Posted, entries)];
      ApplyEntries(entries);
      return Ok((|txns| - 1, true));
    }

    /** The posting loop: each entry bumps the cached balance of its account. */
    method ApplyEntries(entries: seq<Entry>)
      requires KnownAccounts(balances, entries)
      modifies this`balances
      ensures balances == Apply(old(balances), entries)
    {
      for i := 0 to |entries|
        invariant KnownAccounts(old(balances), entries[..i])
        invariant balances == Apply(old(balances), entries[..i])
      {
        assert entries[..i + 1] == entries[..i] + [entries[i]];
        assert entries[..i + 1][..i] == entries[..i];
        var a := entries[i].account;
        balances := balances[a := balances[a] + entries[i].amount];
      }
      assert entries[..|entries|] == entries;
    }

    /** `reverse_transaction` on transaction `i`, called with an object that shows status `seen`
        and, when this process has already reversed it, the reversal in `link`.  Whatever the caller
        has seen, the transaction is compensated once and every call returns that compensation. */
    method ReverseTransaction(i: nat, seen: TxnStatus, link: Option<nat>) returns (reversal: nat, created: bool)
      requires BookOk(View()) && i < |txns|
      requires link.Some? ==> link.value < |txns| && txns[link.value].key == Some(Reversal(i))
      modifies this
      ensures BookOk(View())
      ensures reversal < |txns| && txns[reversal].key == Some(Reversal(i))
      ensures created <==> old(txns[i].status) == Posted
      ensures KnownAccounts(old(balances), Negated(old(txns)[i].entries))
      ensures View() == if created then Undo(old(View()), i) else old(View())
      ensures ReversalAnswers(old(View()), i, reversal, created, View())
    {
      hide ReversalAnswers;
      ghost var b := View();
      ReversalPosts(b, i);
      FindTheReversal(b, i, link);
      if b.txns[i].status == Posted {
        UndoAnswers(b, i);
      } else {
        KnownReversalAnswers(b, i, Find(b.txns, Reversal(i)));
      }
      if seen == Reversed && link.Some? {
        return link.value, false;
      }
      var entries := Negate(txns[i].entries);
      var r := PostTransaction(Some(Reversal(i)), entries);
      reversal, created := r.value.0, r.value.1;
      if created {
        txns := txns[i := txns[i].(status := Reversed)];
        assert View() == Undo(b, i);
      }
    }

    method Negate(es: seq<Entry>) returns (entries: seq<Entry>)
      ensures entries == Negated(es)
    {
      entries := [];
      for j := 0 to |es|
        invariant entries == Negated(es[..j])
      {
        assert es[..j + 1][..j] == es[..j];
        entries := entries + [Entry(es[j].account, -es[j].amount)];
      }
      assert es[..|es|] == es;
    }

    /** `_reverse_by_keys`: one key after the other. */
    method ReverseByKeys(keys: seq<Key>)
      requires BookOk(View()) && DistinctKeys(keys)
      modifies this
      ensures BookOk(View()) && View() == UndoKeys(old(View()), keys)
    {
      assert keys[..0] == [];
      for n := 0 to |keys|
        invariant BookOk(View()) && View() == UndoKeys(old(View()), keys[..n])
      {
        assert keys[..n + 1][..n] == keys[..n];
        var i := FindByKey(keys[n]);
        if i >= 0 && txns[i].status != Reversed {
          var _, _ := ReverseTransaction(i, Posted, None);
        }
      }
      assert keys[..|keys|] == keys;
    }

    /** `account_balance`: the balance recomputed from all entries. */
    method AccountBalance(a: Account) returns (total: int)
      ensures total == LedgerSum(txns, a)
    {
      total := 0;
      for i := 0 to |txns|
        invariant total == LedgerSum(txns[..i], a)
      {
        var es := txns[i].entries;
        var before := total;
        for j := 0 to |es|
          invariant total == before + Net(es[..j], a)
        {
          assert es[..j + 1][..j] == es[..j];
          if es[j].account == a {
            total := total + es[j].amount;
          }
        }
        assert es[..|es|] == es;
        assert txns[..i + 1][..i] == txns[..i];
      }
      assert txns[..|txns|] == txns;
    }

    /** `total_liability`: the owed accounts are added up in no particular order. */
    method TotalLiability(c: Currency) returns (total: int)
      ensures total == Liability(balances, c)
    {
      total := 0;
      var rest := OwedAccounts(balances, c);
      while rest != {}
        invariant rest <= OwedAccounts(balances, c)
        invariant total + SumOver(balances, rest) == Liability(balances, c)
        decreases |rest|
      {
        var a :| a in rest;
        SumOverPick(balances, rest, a);
        total := total + balances[a];
        rest := rest - {a};
      }
    }

    /** `verify_account_balance` never fails on a ledger that only these methods have changed. */
    method VerifyAccountBalance(a: Account) returns (ok: bool)
      requires a in balances
      ensures ok <==> balances[a] == LedgerSum(txns, a)
      ensures BookOk(View()) ==> ok
    {
      var total := AccountBalance(a);
      ok := total == balances[a];
      assert BookOk(View()) ==> Bal(balances, a) == LedgerSum(txns, a);
    }
  }

  ghost function AccountsOf(owner: Owner, kinds: seq<Kind>, currency: Currency): set<Account> {
    set k | k in kinds :: Account(owner, k, currency)
  }

  lemma NothingProvisioned(balances: map<Account, int>, owner: Owner, currency: Currency)
    ensures Provisioned(balances, {}) == balances && AccountsOf(owner, [], currency) == {}
  {
  }

  lemma OneMoreAccount(owner: Owner, kinds: seq<Kind>, i: nat, currency: Currency)
    requires i < |kinds|
    ensures AccountsOf(owner, kinds[..i + 1], currency)
            == AccountsOf(owner, kinds[..i], currency) + {Account(owner, kinds[i], currency)}
  {
    assert kinds[..i + 1] == kinds[..i] + [kinds[i]];
  }

  lemma AllDefaultAccounts(owner: Owner, currency: Currency)
    ensures var kinds := [Cash, Bonus, Pending, Locked, Withdrawable, DepositFunds];
            AccountsOf(owner, kinds, currency) + {Account(owner, Points, POINTS)} == DefaultAccounts(owner, currency)
  {
  }

  lemma ProvisionTwice(balances: map<Account, int>, s: set<Account>, t: set<Account>)
    ensures Provisioned(Provisioned(balances, s), t) == Provisioned(balances, s + t)
  {
  }

  lemma KnownReversalAnswers(b: Book, i: nat, r: nat)
    requires i < |b.txns| && b.txns[i].status == Reversed && r < |b.txns| && b.txns[r].key == Some(Reversal(i))
    ensures ReversalAnswers(b, i, r, false, b)
  {
  }

  lemma FindTheReversal(b: Book, i: nat, link: Option<nat>)
    requires BookOk(b) && i < |b.txns|
    requires link.Some? ==> link.value < |b.txns| && b.txns[link.value].key == Some(Reversal(i))
    ensures b.txns[i].status == Reversed <==> Find(b.txns, Reversal(i)) >= 0
    ensures link.Some? ==> Find(b.txns, Reversal(i)) == link.value
  {
  }
}
