/** The double-entry ledger as a value (apps/ledger/services.py, apps/ledger/models.py). */
module Ledger {
  import opened Outcomes
  import opened Decimals
  import opened Accounts
  import opened Sums

  datatype Entry = Entry(account: Account, amount: int)

  datatype TxnStatus = Posted | Reversed

  datatype Txn = Txn(key: Option<Key>, status: TxnStatus, entries: seq<Entry>)

  /** Account rows with their cached balances, and transactions in posting order. */
  datatype Book = Book(balances: map<Account, int>, txns: seq<Txn>)

  datatype LedgerError = NoEntries | Unbalanced | CurrencyUnbalanced | UnknownAccount

  // ---------------------------------------------------------------- entries

  function Total(es: seq<Entry>): int {
    if es == [] then 0 else Total(es[..|es| - 1]) + es[|es| - 1].amount
  }

  /** What the entries move on one account, and in one currency. */
  function Net(es: seq<Entry>, a: Account): int {
    if es == [] then 0
    else Net(es[..|es| - 1], a) + (if es[|es| - 1].account == a then es[|es| - 1].amount else 0)
  }

  function Turnover(es: seq<Entry>, c: Currency): int {
    if es == [] then 0
    else Turnover(es[..|es| - 1], c) + (if es[|es| - 1].account.currency == c then es[|es| - 1].amount else 0)
  }

  predicate BalancedPerCurrency(es: seq<Entry>) {
    forall e | e in es :: Turnover(es, e.account.currency) == 0
  }

  predicate KnownAccounts(balances: map<Account, int>, es: seq<Entry>) {
    forall e | e in es :: e.account in balances
  }

  function Negated(es: seq<Entry>): (r: seq<Entry>)
    ensures |r| == |es|
  {
    if es == [] then []
    else Negated(es[..|es| - 1]) + [Entry(es[|es| - 1].account, -es[|es| - 1].amount)]
  }

  lemma {:induction false} TurnoverElsewhere(es: seq<Entry>, c: Currency)
    requires forall e | e in es :: e.account.currency != c
    ensures Turnover(es, c) == 0
  {
    if es != [] {
      TurnoverElsewhere(es[..|es| - 1], c);
    }
  }

  lemma BalancedEverywhere(es: seq<Entry>, c: Currency)
    requires BalancedPerCurrency(es)
    ensures Turnover(es, c) == 0
  {
    if forall e | e in es :: e.account.currency != c {
      TurnoverElsewhere(es, c);
    }
  }

  ghost predicate ZeroInEveryCurrency(es: seq<Entry>) {
    forall c :: Turnover(es, c) == 0
  }

  /** Checking the currencies that occur is checking them all. */
  lemma BalancedIffZero(es: seq<Entry>)
    ensures BalancedPerCurrency(es) <==> ZeroInEveryCurrency(es)
  {
    if BalancedPerCurrency(es) {
      forall c ensures Turnover(es, c) == 0 {
        BalancedEverywhere(es, c);
      }
    }
  }

  function Without(es: seq<Entry>, c: Currency): (r: seq<Entry>)
    ensures |r| <= |es|
  {
    if es == [] then []
    else
      var rest, e := Without(es[..|es| - 1], c), es[|es| - 1];
      if e.account.currency == c then rest else rest + [e]
  }

  lemma TotalAppend(es: seq<Entry>, e: Entry)
    ensures Total(es + [e]) == Total(es) + e.amount
  {
    assert (es + [e])[..|es|] == es;
  }

  lemma TurnoverAppend(es: seq<Entry>, e: Entry, c: Currency)
    ensures Turnover(es + [e], c) == Turnover(es, c) + (if e.account.currency == c then e.amount else 0)
  {
    assert (es + [e])[..|es|] == es;
  }

  lemma NetAppend(es: seq<Entry>, e: Entry, a: Account)
    ensures Net(es + [e], a) == Net(es, a) + (if e.account == a then e.amount else 0)
  {
    assert (es + [e])[..|es|] == es;
  }

  lemma {:induction false} WithoutTotal(es: seq<Entry>, c: Currency)
    ensures Total(es) == Turnover(es, c) + Total(Without(es, c))
  {
    if es != [] {
      var rest, e := es[..|es| - 1], es[|es| - 1];
      WithoutTotal(rest, c);
      TotalAppend(Without(rest, c), e);
    }
  }

  lemma WithoutAppend(es: seq<Entry>, e: Entry, c: Currency)
    ensures Without(es + [e], c) == if e.account.currency == c then Without(es, c) else Without(es, c) + [e]
  {
    assert (es + [e])[..|es|] == es;
  }

  lemma {:induction false} WithoutOwnTurnover(es: seq<Entry>, c: Currency)
    ensures Turnover(Without(es, c), c) == 0
  {
    if es != [] {
      hide Turnover, Without;
      var rest, e := es[..|es| - 1], es[|es| - 1];
      assert rest + [e] == es;
      WithoutOwnTurnover(rest, c);
      WithoutAppend(rest, e, c);
      TurnoverAppend(Without(rest, c), e, c);
    }
  }

  lemma {:induction false} WithoutOtherTurnover(es: seq<Entry>, c: Currency, d: Currency)
    requires d != c
    ensures Turnover(Without(es, c), d) == Turnover(es, d)
  {
    if es != [] {
      hide Turnover, Without;
      var rest, e := es[..|es| - 1], es[|es| - 1];
      assert rest + [e] == es;
      WithoutOtherTurnover(rest, c, d);
      WithoutAppend(rest, e, c);
      TurnoverAppend(rest, e, d);
      TurnoverAppend(Without(rest, c), e, d);
    }
  }

  /** Entries that sum to zero in every currency sum to zero: the overall check is implied. */
  lemma {:induction false} CurrencyZerosGiveTotalZero(es: seq<Entry>)
    requires ZeroInEveryCurrency(es)
    ensures Total(es) == 0
    decreases |es|
  {
    if es != [] {
      var c := es[|es| - 1].account.currency;
      forall d ensures Turnover(Without(es, c), d) == 0 {
        if d == c {
          WithoutOwnTurnover(es, c);
        } else {
          WithoutOtherTurnover(es, c, d);
        }
      }
      CurrencyZerosGiveTotalZero(Without(es, c));
      WithoutTotal(es, c);
    }
  }

  lemma {:induction false} NegatedSums(es: seq<Entry>)
    ensures Total(Negated(es)) == -Total(es)
    ensures forall a :: Net(Negated(es), a) == -Net(es, a)
    ensures forall c :: Turnover(Negated(es), c) == -Turnover(es, c)
    ensures forall e | e in Negated(es) :: exists f | f in es :: f.account == e.account
  {
    if es != [] {
      var rest, e := es[..|es| - 1], es[|es| - 1];
      NegatedSums(rest);
      var n := Entry(e.account, -e.amount);
      TotalAppend(Negated(rest), n);
      forall a ensures Net(Negated(es), a) == -Net(es, a) {
        NetAppend(Negated(rest), n, a);
      }
      forall c ensures Turnover(Negated(es), c) == -Turnover(es, c) {
        TurnoverAppend(Negated(rest), n, c);
      }
    }
  }

  /** A movement of `amount` from one account to another. */
  function Transfer(source: Account, target: Account, amount: int): seq<Entry> {
    [Entry(source, -amount), Entry(target, amount)]
  }

  function Move(source: Account, target: Account, amount: int, a: Account): int {
    (if a == target then amount else 0) - (if a == source then amount else 0)
  }

  lemma TransferSums(source: Account, target: Account, amount: int)
    ensures Total(Transfer(source, target, amount)) == 0
    ensures forall a :: Net(Transfer(source, target, amount), a) == Move(source, target, amount, a)
    ensures source.currency == target.currency ==> forall c :: Turnover(Transfer(source, target, amount), c) == 0
    ensures source.currency != target.currency ==> Turnover(Transfer(source, target, amount), target.currency) == amount
  {
    var first, second := Entry(source, -amount), Entry(target, amount);
    assert Transfer(source, target, amount) == ([] + [first]) + [second];
    TotalAppend([], first);
    TotalAppend([] + [first], second);
    forall a ensures Net(Transfer(source, target, amount), a) == Move(source, target, amount, a) {
      NetAppend([], first, a);
      NetAppend([] + [first], second, a);
    }
    forall c
      ensures Turnover(Transfer(source, target, amount), c)
              == (if target.currency == c then amount else 0) - (if source.currency == c then amount else 0)
    {
      TurnoverAppend([], first, c);
      TurnoverAppend([] + [first], second, c);
    }
  }

  // ---------------------------------------------------------------- balances

  /** The balance of an account; one that was never provisioned has none. */
  function Bal(balances: map<Account, int>, a: Account): int {
    if a in balances then balances[a] else 0
  }

  /** The cached balances after the entries were applied one by one. */
  function Apply(balances: map<Account, int>, es: seq<Entry>): (r: map<Account, int>)
    requires KnownAccounts(balances, es)
    ensures r.Keys == balances.Keys
    ensures forall a :: Bal(r, a) == Bal(balances, a) + Net(es, a)
  {
    if es == [] then balances
    else
      var before := Apply(balances, es[..|es| - 1]);
      var e := es[|es| - 1];
      before[e.account := before[e.account] + e.amount]
  }

  /** `account_balance`: the sum of the account's entries over the whole ledger. */
  function LedgerSum(txns: seq<Txn>, a: Account): int {
    if txns == [] then 0 else LedgerSum(txns[..|txns| - 1], a) + Net(txns[|txns| - 1].entries, a)
  }

  lemma LedgerSumAppend(txns: seq<Txn>, t: Txn, a: Account)
    ensures LedgerSum(txns + [t], a) == LedgerSum(txns, a) + Net(t.entries, a)
  {
    assert (txns + [t])[..|txns|] == txns;
  }

  lemma {:induction false} LedgerSumIgnoresStatus(txns: seq<Txn>, i: nat, t: Txn, a: Account)
    requires i < |txns| && t.entries == txns[i].entries
    ensures LedgerSum(txns[i := t], a) == LedgerSum(txns, a)
  {
    var n := |txns| - 1;
    if i == n {
      assert txns[i := t][..n] == txns[..n];
    } else {
      LedgerSumIgnoresStatus(txns[..n], i, t, a);
      assert txns[i := t][..n] == txns[..n][i := t];
    }
  }

  ghost function InCurrency(balances: map<Account, int>, c: Currency): set<Account> {
    set a | a in balances && a.currency == c
  }

  /** The grand total of all cached balances in a currency. */
  ghost function CurrencyTotal(balances: map<Account, int>, c: Currency): int {
    SumOver(balances, InCurrency(balances, c))
  }

  /** The accounts that `total_liability` adds up: owed kinds of users, not of the platform. */
  function OwedAccounts(balances: map<Account, int>, c: Currency): set<Account> {
    set a | a in balances && a.currency == c && a.owner != System && OwedKind(a.kind)
  }

  /** What the platform owes its users in a currency. */
  ghost function Liability(balances: map<Account, int>, c: Currency): int {
    SumOver(balances, OwedAccounts(balances, c))
  }

  lemma {:induction false} ApplyCurrencyTotal(balances: map<Account, int>, es: seq<Entry>, c: Currency)
    requires KnownAccounts(balances, es)
    ensures CurrencyTotal(Apply(balances, es), c) == CurrencyTotal(balances, c) + Turnover(es, c)
  {
    if es != [] {
      var rest, e := es[..|es| - 1], es[|es| - 1];
      ApplyCurrencyTotal(balances, rest, c);
      var before := Apply(balances, rest);
      var v := before[e.account] + e.amount;
      assert InCurrency(before[e.account := v], c) == InCurrency(before, c);
      SumOverUpdate(before, InCurrency(before, c), e.account, v);
    }
  }

  /** Provisioning adds rows with a zero balance. */
  function Provisioned(balances: map<Account, int>, accounts: set<Account>): (r: map<Account, int>)
    ensures r.Keys == balances.Keys + accounts
    ensures forall a :: Bal(r, a) == Bal(balances, a)
  {
    balances + map a | a in accounts && a !in balances :: 0
  }

  lemma ProvisionedCurrencyTotal(balances: map<Account, int>, accounts: set<Account>, c: Currency)
    ensures CurrencyTotal(Provisioned(balances, accounts), c) == CurrencyTotal(balances, c)
  {
    var r := Provisioned(balances, accounts);
    var old', new' := InCurrency(balances, c), InCurrency(r, c) - InCurrency(balances, c);
    assert InCurrency(r, c) == old' + new';
    SumOverSplit(r, old', new');
    SumOverAgree(r, balances, old');
    SumOverZero(r, new');
  }

  // ---------------------------------------------------------------- keys

  /** The transaction that holds a key, or -1. */
  function Find(txns: seq<Txn>, k: Key): (i: int)
    ensures -1 <= i < |txns|
    ensures i >= 0 ==> txns[i].key == Some(k)
    ensures i < 0 ==> forall j | 0 <= j < |txns| :: txns[j].key != Some(k)
  {
    if txns == [] then -1
    else if txns[|txns| - 1].key == Some(k) then |txns| - 1
    else Find(txns[..|txns| - 1], k)
  }

  ghost predicate UniqueKeys(txns: seq<Txn>) {
    forall i, j | 0 <= i < j < |txns| && txns[i].key.Some? :: txns[i].key != txns[j].key
  }

  /** What a key says about the ledger: never used, posted, or posted and reversed. */
  datatype KeyState = Absent | Live(entries: seq<Entry>) | Undone

  function StateOf(b: Book, k: Key): KeyState {
    var i := Find(b.txns, k);
    if i < 0 then Absent
    else if b.txns[i].status == Posted then Live(b.txns[i].entries)
    else Undone
  }

  function LiveNet(s: KeyState, a: Account): int {
    if s.Live? then Net(s.entries, a) else 0
  }

  // ---------------------------------------------------------------- posting

  datatype PostResult = Created(book: Book) | Existing(index: nat) | Refused(error: LedgerError)

  function Posting(b: Book, key: Option<Key>, es: seq<Entry>): Book
    requires KnownAccounts(b.balances, es)
  {
    Book(Apply(b.balances, es), b.txns + [Txn(key, Posted, es)])
  }

  /** `post_transaction`: the key is looked up before anything is checked or changed. */
  function Post(b: Book, key: Option<Key>, es: seq<Entry>): PostResult {
    if es == [] then Refused(NoEntries)
    else if key.Some? && Find(b.txns, key.value) >= 0 then Existing(Find(b.txns, key.value))
    else if Total(es) != 0 then Refused(Unbalanced)
    else if !BalancedPerCurrency(es) then Refused(CurrencyUnbalanced)
    else if !KnownAccounts(b.balances, es) then Refused(UnknownAccount)
    else Created(Posting(b, key, es))
  }

  /** A posting goes through exactly when its key is new and its entries balance in each currency. */
  lemma PostCreatesIff(b: Book, key: Option<Key>, es: seq<Entry>)
    ensures Post(b, key, es).Created? <==>
            && es != []
            && (key.Some? ==> StateOf(b, key.value) == Absent)
            && ZeroInEveryCurrency(es)
            && KnownAccounts(b.balances, es)
  {
    BalancedIffZero(es);
    if ZeroInEveryCurrency(es) {
      CurrencyZerosGiveTotalZero(es);
    }
  }

  predicate KeyUsed(txns: seq<Txn>, key: Option<Key>) {
    key.Some? && exists i | 0 <= i < |txns| :: txns[i].key == key
  }

  /** What a caller of `post_transaction` is promised, told from the arguments and the ledger before and
      after: a used key answers with its transaction, entries that do not balance or name unknown
      accounts raise, and otherwise one transaction is added and each balance moves by its entries. */
  ghost predicate PostingAnswers(b: Book, key: Option<Key>, es: seq<Entry>,
                                 r: Result<(nat, bool), LedgerError>, c: Book)
  {
    if es == [] then r == Err(NoEntries) && c == b
    else if KeyUsed(b.txns, key) then
      r.Ok? && !r.value.1 && r.value.0 < |b.txns| && b.txns[r.value.0].key == key && c == b
    else if Total(es) != 0 then r == Err(Unbalanced) && c == b
    else if !ZeroInEveryCurrency(es) then r == Err(CurrencyUnbalanced) && c == b
    else if exists i | 0 <= i < |es| :: es[i].account !in b.balances then r == Err(UnknownAccount) && c == b
    else
      && r == Ok((|b.txns|, true)) && c.txns == b.txns + [Txn(key, Posted, es)]
      && c.balances.Keys == b.balances.Keys
      && forall a | a in b.balances :: c.balances[a] == b.balances[a] + Net(es, a)
  }

  lemma PostIsAnswered(b: Book, key: Option<Key>, es: seq<Entry>)
    ensures match Post(b, key, es)
            case Created(c) => PostingAnswers(b, key, es, Ok((|b.txns|, true)), c)
            case Existing(i) => PostingAnswers(b, key, es, Ok((i, false)), b)
            case Refused(e) => PostingAnswers(b, key, es, Err(e), b)
  {
    hide Total, Net, Turnover, Find, BalancedPerCurrency, ZeroInEveryCurrency;
    BalancedIffZero(es);
    assert key.Some? && Find(b.txns, key.value) < 0 ==> forall j | 0 <= j < |b.txns| :: b.txns[j].key != key;
    assert KnownAccounts(b.balances, es) <==> forall i | 0 <= i < |es| :: es[i].account in b.balances;
    if Post(b, key, es).Created? {
      var c := Post(b, key, es).book;
      forall a | a in b.balances ensures c.balances[a] == b.balances[a] + Net(es, a) {
        assert Bal(c.balances, a) == Bal(b.balances, a) + Net(es, a);
      }
    }
  }

  // ---------------------------------------------------------------- invariant

  predicate TxnOk(b: Book, t: Txn) {
    t.entries != [] && BalancedPerCurrency(t.entries) && KnownAccounts(b.balances, t.entries)
  }

  /** A transaction is marked reversed exactly when its one compensating transaction exists. */
  ghost predicate ReversalsOk(txns: seq<Txn>) {
    && (forall i: nat {:trigger Find(txns, Reversal(i))} | i < |txns| ::
        txns[i].status == Reversed <==> Find(txns, Reversal(i)) >= 0)
    && (forall i: nat | i < |txns| && txns[i].key.Some? && txns[i].key.value.Reversal? ::
          txns[i].key.value.txn < i && txns[i].entries == Negated(txns[txns[i].key.value.txn].entries))
  }

  /** What the ledger keeps: cached balances equal the sums of the entries, every transaction
      balances in every currency, and the books of every currency are closed. */
  ghost predicate BookOk(b: Book) {
    && (forall a {:trigger LedgerSum(b.txns, a)} :: Bal(b.balances, a) == LedgerSum(b.txns, a))
    && (forall i {:trigger TxnOk(b, b.txns[i])} | 0 <= i < |b.txns| :: TxnOk(b, b.txns[i]))
    && UniqueKeys(b.txns)
    && ReversalsOk(b.txns)
    && (forall c :: CurrencyTotal(b.balances, c) == 0)
  }

  lemma PostingFinds(b: Book, key: Option<Key>, es: seq<Entry>)
    requires UniqueKeys(b.txns) && KnownAccounts(b.balances, es)
    requires key.Some? ==> Find(b.txns, key.value) < 0
    ensures var txns := Posting(b, key, es).txns;
            && UniqueKeys(txns)
            && (forall k :: Find(txns, k) == if key == Some(k) then |b.txns| else Find(b.txns, k))
  {
    var txns := Posting(b, key, es).txns;
    forall k ensures Find(txns, k) == if key == Some(k) then |b.txns| else Find(b.txns, k) {
      assert txns[..|b.txns|] == b.txns;
    }
  }

  lemma PostingKeepsReversals(b: Book, key: Option<Key>, es: seq<Entry>)
    requires UniqueKeys(b.txns) && ReversalsOk(b.txns) && KnownAccounts(b.balances, es)
    requires key.Some? ==> !key.value.Reversal? && Find(b.txns, key.value) < 0
    ensures ReversalsOk(Posting(b, key, es).txns)
  {
    hide Apply, Find;
    PostingFinds(b, key, es);
    NoFutureReversal(b);
  }

  /** A new posting moves exactly its entries, uses up its key, and keeps the ledger in order. */
  lemma PostingKeeps(b: Book, key: Option<Key>, es: seq<Entry>)
    requires BookOk(b) && es != [] && BalancedPerCurrency(es) && KnownAccounts(b.balances, es)
    requires key.Some? ==> !key.value.Reversal? && StateOf(b, key.value) == Absent
    ensures var b' := Posting(b, key, es);
            && BookOk(b')
            && (forall k :: StateOf(b', k) == if key == Some(k) then Live(es) else StateOf(b, k))
  {
    hide Net, Total, BalancedPerCurrency, LedgerSum, Bal, CurrencyTotal, Find;
    var b' := Posting(b, key, es);
    PostingFinds(b, key, es);
    forall a ensures Bal(b'.balances, a) == LedgerSum(b'.txns, a) {
      LedgerSumAppend(b.txns, Txn(key, Posted, es), a);
    }
    forall c ensures CurrencyTotal(b'.balances, c) == 0 {
      ApplyCurrencyTotal(b.balances, es, c);
      BalancedEverywhere(es, c);
    }
    assert forall i | 0 <= i < |b.txns| :: b'.txns[i] == b.txns[i] && TxnOk(b, b.txns[i]);
    PostingKeepsReversals(b, key, es);
  }

  /** No reversal names a transaction that does not exist yet. */
  lemma NoFutureReversal(b: Book)
    requires ReversalsOk(b.txns)
    ensures Find(b.txns, Reversal(|b.txns|)) < 0
  {
  }

  /** The ledger after `reverse_transaction` compensated transaction `i`. */
  function Undo(b: Book, i: nat): Book
    requires i < |b.txns| && KnownAccounts(b.balances, Negated(b.txns[i].entries))
  {
    var p := Posting(b, Some(Reversal(i)), Negated(b.txns[i].entries));
    p.(txns := p.txns[i := p.txns[i].(status := Reversed)])
  }

  lemma ReversalIsPostable(b: Book, i: nat)
    requires BookOk(b) && i < |b.txns|
    ensures var es := Negated(b.txns[i].entries);
            && es != [] && Total(es) == 0 && BalancedPerCurrency(es) && KnownAccounts(b.balances, es)
  {
    var t := b.txns[i];
    assert TxnOk(b, t);
    NegatedSums(t.entries);
    BalancedIffZero(t.entries);
    CurrencyZerosGiveTotalZero(t.entries);
    BalancedIffZero(Negated(t.entries));
  }

  lemma {:induction false} FindIgnoresStatus(txns: seq<Txn>, i: nat, s: TxnStatus, k: Key)
    requires i < |txns|
    ensures Find(txns[i := txns[i].(status := s)], k) == Find(txns, k)
  {
    var n := |txns| - 1;
    var changed := txns[i := txns[i].(status := s)];
    if changed[n].key != Some(k) && i < n {
      FindIgnoresStatus(txns[..n], i, s, k);
      assert changed[..n] == txns[..n][i := txns[i].(status := s)];
    } else if i == n {
      assert changed[..n] == txns[..n];
    }
  }

  lemma UndoFinds(b: Book, i: nat)
    requires UniqueKeys(b.txns) && ReversalsOk(b.txns) && i < |b.txns| && b.txns[i].status == Posted
    requires KnownAccounts(b.balances, Negated(b.txns[i].entries))
    ensures var txns := Undo(b, i).txns;
            && UniqueKeys(txns)
            && (forall k :: Find(txns, k) == if k == Reversal(i) then |b.txns| else Find(b.txns, k))
  {
    var key, es := Some(Reversal(i)), Negated(b.txns[i].entries);
    PostingFinds(b, key, es);
    var p, txns := Posting(b, key, es).txns, Undo(b, i).txns;
    forall k ensures Find(txns, k) == Find(p, k) {
      FindIgnoresStatus(p, i, Reversed, k);
    }
    assert forall j | 0 <= j < |p| :: txns[j].key == p[j].key;
  }

  lemma UndoLedgerSum(b: Book, i: nat, a: Account)
    requires BookOk(b) && i < |b.txns|
    requires KnownAccounts(b.balances, Negated(b.txns[i].entries))
    ensures var b' := Undo(b, i);
            && Bal(b'.balances, a) == LedgerSum(b'.txns, a)
            && Bal(b'.balances, a) == Bal(b.balances, a) - Net(b.txns[i].entries, a)
  {
    var es := Negated(b.txns[i].entries);
    NegatedSums(b.txns[i].entries);
    var t := Txn(Some(Reversal(i)), Posted, es);
    LedgerSumAppend(b.txns, t, a);
    LedgerSumIgnoresStatus(b.txns + [t], i, Undo(b, i).txns[i], a);
  }

  lemma UndoCurrencyTotal(b: Book, i: nat, c: Currency)
    requires BookOk(b) && i < |b.txns|
    requires KnownAccounts(b.balances, Negated(b.txns[i].entries))
    ensures CurrencyTotal(Undo(b, i).balances, c) == 0
  {
    ReversalIsPostable(b, i);
    ApplyCurrencyTotal(b.balances, Negated(b.txns[i].entries), c);
    BalancedEverywhere(Negated(b.txns[i].entries), c);
  }

  /** Reversing takes back exactly what the transaction moved and marks its key undone. */
  lemma UndoKeeps(b: Book, i: nat)
    requires BookOk(b) && i < |b.txns| && b.txns[i].status == Posted
    requires KnownAccounts(b.balances, Negated(b.txns[i].entries))
    ensures var b' := Undo(b, i);
            && BookOk(b')
            && b'.balances.Keys == b.balances.Keys
            && (forall a :: Bal(b'.balances, a) == Bal(b.balances, a) - Net(b.txns[i].entries, a))
            && (forall k: Key | !k.Reversal? ::
                StateOf(b', k) == if b.txns[i].key == Some(k) then Undone else StateOf(b, k))
  {
    var b' := Undo(b, i);
    forall a
      ensures Bal(b'.balances, a) == LedgerSum(b'.txns, a)
      ensures Bal(b'.balances, a) == Bal(b.balances, a) - Net(b.txns[i].entries, a)
    {
      UndoLedgerSum(b, i, a);
    }
    forall c ensures CurrencyTotal(b'.balances, c) == 0 {
      UndoCurrencyTotal(b, i, c);
    }
    UndoFinds(b, i);
    UndoneReversals(b, i);
    UndoneTxns(b, i);
    UndoStates(b, i);
  }

  lemma UndoneTxns(b: Book, i: nat)
    requires BookOk(b) && i < |b.txns|
    requires KnownAccounts(b.balances, Negated(b.txns[i].entries))
    ensures var b' := Undo(b, i); forall j | 0 <= j < |b'.txns| :: TxnOk(b', b'.txns[j])
  {
    hide TxnOk;
    var b' := Undo(b, i);
    forall j | 0 <= j < |b'.txns| ensures TxnOk(b', b'.txns[j]) {
      if j < |b.txns| {
        assert TxnOk(b, b.txns[j]);
        SameEntriesTxnOk(b, b.txns[j], b', b'.txns[j]);
      } else {
        ReversalTxnOk(b, i);
      }
    }
  }

  lemma SameEntriesTxnOk(b: Book, t: Txn, c: Book, u: Txn)
    requires TxnOk(b, t) && u.entries == t.entries && b.balances.Keys <= c.balances.Keys
    ensures TxnOk(c, u)
  {
    hide BalancedPerCurrency;
  }

  lemma ReversalTxnOk(b: Book, i: nat)
    requires BookOk(b) && i < |b.txns|
    requires KnownAccounts(b.balances, Negated(b.txns[i].entries))
    ensures var b' := Undo(b, i); TxnOk(b', b'.txns[|b.txns|])
  {
    hide BookOk, Apply, BalancedPerCurrency, Total;
    ReversalIsPostable(b, i);
  }

  lemma UndoStates(b: Book, i: nat)
    requires BookOk(b) && i < |b.txns| && b.txns[i].status == Posted
    requires KnownAccounts(b.balances, Negated(b.txns[i].entries))
    ensures var b' := Undo(b, i);
            forall k: Key | !k.Reversal? :: StateOf(b', k) == if b.txns[i].key == Some(k) then Undone else StateOf(b, k)
  {
    var b' := Undo(b, i);
    UndoFinds(b, i);
    forall k: Key | !k.Reversal?
      ensures StateOf(b', k) == if b.txns[i].key == Some(k) then Undone else StateOf(b, k)
    {
      var j := Find(b.txns, k);
      assert Find(b'.txns, k) == j;
      if j >= 0 && j != i {
        assert b'.txns[j] == b.txns[j];
      }
    }
  }

  lemma UndoneReversals(b: Book, i: nat)
    requires ReversalsOk(b.txns) && i < |b.txns| && b.txns[i].status == Posted && UniqueKeys(b.txns)
    requires KnownAccounts(b.balances, Negated(b.txns[i].entries))
    ensures ReversalsOk(Undo(b, i).txns)
  {
    var txns := Undo(b, i).txns;
    UndoFinds(b, i);
    NoFutureReversal(b);
    forall j: nat | j < |txns| ensures txns[j].status == Reversed <==> Find(txns, Reversal(j)) >= 0 {
      if j < |b.txns| && j != i {
        assert txns[j] == b.txns[j];
      }
    }
    forall j: nat | j < |txns| && txns[j].key.Some? && txns[j].key.value.Reversal?
      ensures txns[j].key.value.txn < j && txns[j].entries == Negated(txns[txns[j].key.value.txn].entries)
    {
      UndoneReversal(b, i, j);
    }
  }

  lemma UndoneReversal(b: Book, i: nat, j: nat)
    requires ReversalsOk(b.txns) && i < |b.txns|
    requires KnownAccounts(b.balances, Negated(b.txns[i].entries))
    requires j <= |b.txns|
    requires var k := Undo(b, i).txns[j].key; k.Some? && k.value.Reversal?
    ensures var txns := Undo(b, i).txns; var t := txns[j].key.value.txn;
            t < j && txns[j].entries == Negated(txns[t].entries)
  {
    var txns := Undo(b, i).txns;
    if j < |b.txns| {
      assert txns[j].key == b.txns[j].key && txns[j].entries == b.txns[j].entries;
      var t := b.txns[j].key.value.txn;
      assert txns[t].entries == b.txns[t].entries;
    } else {
      assert txns[j] == Txn(Some(Reversal(i)), Posted, Negated(b.txns[i].entries));
      assert txns[i].entries == b.txns[i].entries;
    }
  }

  /** Posting the compensation goes through for a transaction that is not reversed yet, and finds
      the existing compensation of one that is. */
  lemma ReversalPosts(b: Book, i: nat)
    requires BookOk(b) && i < |b.txns|
    ensures var es := Negated(b.txns[i].entries); var r := Post(b, Some(Reversal(i)), es);
            && KnownAccounts(b.balances, es)
            && if b.txns[i].status == Posted
               then r == Created(Posting(b, Some(Reversal(i)), es)) && BookOk(Undo(b, i))
               else r == Existing(Find(b.txns, Reversal(i))) && Find(b.txns, Reversal(i)) >= 0
  {
    ReversalIsPostable(b, i);
    assert b.txns[i].status == Reversed <==> Find(b.txns, Reversal(i)) >= 0;
    if b.txns[i].status == Posted {
      UndoKeeps(b, i);
    }
  }

  /** What a caller of `reverse_transaction` is promised: a transaction that is not reversed yet gets one
      compensation, under its own key, that takes back on every account what it moved, and is marked;
      no other transaction changes. */
  ghost predicate ReversalAnswers(b: Book, i: nat, reversal: nat, created: bool, c: Book) {
    && i < |b.txns| && reversal < |c.txns| && c.txns[reversal].key == Some(Reversal(i))
    && (created <==> b.txns[i].status == Posted)
    && (!created ==> c == b)
    && (created ==>
          && reversal == |b.txns| && |c.txns| == |b.txns| + 1 && c.txns[reversal].status == Posted
          && c.txns[..|b.txns|] == b.txns[i := b.txns[i].(status := Reversed)]
          && (forall a :: Net(c.txns[reversal].entries, a) == -Net(b.txns[i].entries, a))
          && c.balances.Keys == b.balances.Keys
          && forall a | a in b.balances :: c.balances[a] == b.balances[a] - Net(b.txns[i].entries, a))
  }

  lemma UndoAnswers(b: Book, i: nat)
    requires BookOk(b) && i < |b.txns| && b.txns[i].status == Posted
    requires KnownAccounts(b.balances, Negated(b.txns[i].entries))
    ensures ReversalAnswers(b, i, |b.txns|, true, Undo(b, i))
  {
    hide BookOk, KnownAccounts, Net;
    var c, es := Undo(b, i), b.txns[i].entries;
    NegatedSums(es);
    UndoKeeps(b, i);
    assert c.txns[..|b.txns|] == b.txns[i := b.txns[i].(status := Reversed)];
    forall a | a in b.balances ensures c.balances[a] == b.balances[a] - Net(es, a) {
      assert Bal(c.balances, a) == Bal(b.balances, a) - Net(es, a);
    }
  }

  lemma ProvisionKeeps(b: Book, accounts: set<Account>)
    requires BookOk(b)
    ensures var b' := b.(balances := Provisioned(b.balances, accounts));
            BookOk(b') && forall k :: StateOf(b', k) == StateOf(b, k)
  {
    var b' := b.(balances := Provisioned(b.balances, accounts));
    forall c ensures CurrencyTotal(b'.balances, c) == 0 {
      ProvisionedCurrencyTotal(b.balances, accounts, c);
    }
    assert forall i | 0 <= i < |b.txns| :: TxnOk(b, b.txns[i]);
  }

  // ---------------------------------------------------------------- reversing by keys

  /** `_reverse_by_keys`: reverse what is posted under each key and not yet reversed. */
  ghost function UndoKeys(b: Book, ks: seq<Key>): Book {
    if ks == [] then b else UndoKey(UndoKeys(b, ks[..|ks| - 1]), ks[|ks| - 1])
  }

  ghost function UndoKey(b: Book, k: Key): Book {
    var i := Find(b.txns, k);
    if i >= 0 && b.txns[i].status == Posted && KnownAccounts(b.balances, Negated(b.txns[i].entries)) then Undo(b, i)
    else b
  }

  /** A live movement under the key is taken back; no other key changes. */
  lemma UndoKeyKeeps(b: Book, k: Key)
    requires BookOk(b) && !k.Reversal?
    ensures var c := UndoKey(b, k);
            && BookOk(c)
            && c.balances.Keys == b.balances.Keys
            && (forall a :: Bal(c.balances, a) == Bal(b.balances, a) - LiveNet(StateOf(b, k), a))
            && (forall l: Key | !l.Reversal? ::
                  StateOf(c, l) == if l == k && StateOf(b, k).Live? then Undone else StateOf(b, l))
  {
    hide BookOk, KnownAccounts, Net, Undo;
    var i := Find(b.txns, k);
    if i >= 0 && b.txns[i].status == Posted {
      ReversalIsPostable(b, i);
      UndoKeeps(b, i);
      OnlyHolder(b, i, k);
    }
  }

  lemma OnlyHolder(b: Book, i: nat, k: Key)
    requires BookOk(b) && i < |b.txns| && b.txns[i].key == Some(k) && b.txns[i].status == Posted
    ensures StateOf(b, k) == Live(b.txns[i].entries)
  {
  }

  ghost function LiveNetSum(b: Book, ks: seq<Key>, a: Account): int {
    if ks == [] then 0 else LiveNetSum(b, ks[..|ks| - 1], a) + LiveNet(StateOf(b, ks[|ks| - 1]), a)
  }

  ghost predicate DistinctKeys(ks: seq<Key>) {
    && (forall i, j | 0 <= i < j < |ks| :: ks[i] != ks[j])
    && (forall i | 0 <= i < |ks| :: !ks[i].Reversal?)
  }

  /** Exactly the live movements under the keys are taken back; no other key changes. */
  lemma {:induction false} UndoKeysKeeps(b: Book, ks: seq<Key>)
    requires BookOk(b) && DistinctKeys(ks)
    ensures var b' := UndoKeys(b, ks);
            && BookOk(b')
            && b'.balances.Keys == b.balances.Keys
            && (forall a :: Bal(b'.balances, a) == Bal(b.balances, a) - LiveNetSum(b, ks, a))
            && (forall k: Key | !k.Reversal? ::
                  StateOf(b', k) == if k in ks && StateOf(b, k).Live? then Undone else StateOf(b, k))
  {
    if ks != [] {
      hide BookOk, UndoKey, StateOf, LiveNet, Bal, DistinctKeys;
      var rest, last := ks[..|ks| - 1], ks[|ks| - 1];
      LastKey(ks);
      UndoKeysKeeps(b, rest);
      var before := UndoKeys(b, rest);
      UndoKeyKeeps(before, last);
      forall k: Key | !k.Reversal?
        ensures StateOf(UndoKeys(b, ks), k) == if k in ks && StateOf(b, k).Live? then Undone else StateOf(b, k)
      {
        assert StateOf(before, k) == if k in rest && StateOf(b, k).Live? then Undone else StateOf(b, k);
      }
    }
  }

  lemma LastKey(ks: seq<Key>)
    requires DistinctKeys(ks) && ks != []
    ensures var rest, last := ks[..|ks| - 1], ks[|ks| - 1];
            DistinctKeys(rest) && last !in rest && !last.Reversal? && forall k :: k in ks <==> k in rest || k == last
  {
    assert ks == ks[..|ks| - 1] + [ks[|ks| - 1]];
  }
}
