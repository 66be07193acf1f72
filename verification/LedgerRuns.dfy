/** The ledger by itself, through any calls from the empty database on: postings of any entries under
    any keys, accounts being opened, and reversals of any transactions, reversals among them. */
module LedgerRuns {
  import opened Outcomes
  import opened Decimals
  import opened Accounts
  import opened Ledger
  import opened LedgerStores

  /** A reversal is called with an object that shows status `seen`, which may be out of date, and that
      remembers its reversal or does not. */
  datatype Call =
    | EnsureAccounts(owner: Owner, currency: Currency)
    | GetAccount(account: Account, walletCurrency: Currency)
    | PostEntries(key: Option<Key>, entries: seq<Entry>)
    | Reverse(txn: nat, seen: TxnStatus, remembers: bool)

  const EMPTY := Book(map[], [])

  /** `reverse_transaction`, wherever the posting of the compensation leads. */
  function Reversing(b: Book, i: nat): Book {
    if i >= |b.txns| then b
    else
      match Post(b, Some(Reversal(i)), Negated(b.txns[i].entries))
      case Created(c) => if i < |c.txns| then c.(txns := c.txns[i := c.txns[i].(status := Reversed)]) else c
      case Existing(_) => b
      case Refused(_) => b
  }

  function LedgerStep(b: Book, x: Call): Book {
    match x
    case EnsureAccounts(owner, currency) => b.(balances := Provisioned(b.balances, DefaultAccounts(owner, currency)))
    case GetAccount(a, currency) => b.(balances := Provisioned(b.balances, DefaultAccounts(a.owner, currency) + {a}))
    case PostEntries(key, es) =>
      (match Post(b, key, es)
       case Created(c) => c
       case Existing(_) => b
       case Refused(_) => b)
    case Reverse(i, _, _) => Reversing(b, i)
  }

  function LedgerRun(xs: seq<Call>): Book {
    if xs == [] then EMPTY else LedgerStep(LedgerRun(xs[..|xs| - 1]), xs[|xs| - 1])
  }

  /** Only `reverse_transaction` makes keys of reversals. */
  predicate ProperCall(x: Call) {
    x.PostEntries? && x.key.Some? ==> !x.key.value.Reversal?
  }

  predicate ProperCalls(xs: seq<Call>) {
    forall x | x in xs :: ProperCall(x)
  }

  // ---------------------------------------------------------------- every run keeps the books

  lemma EmptyBookOk()
    ensures BookOk(EMPTY)
  {
    forall c ensures CurrencyTotal(EMPTY.balances, c) == 0 {
      assert InCurrency(EMPTY.balances, c) == {};
    }
  }

  lemma ReversingUndoes(b: Book, i: nat)
    requires BookOk(b)
    ensures i >= |b.txns| ==> Reversing(b, i) == b
    ensures i < |b.txns| ==>
              && KnownAccounts(b.balances, Negated(b.txns[i].entries))
              && Reversing(b, i) == if b.txns[i].status == Posted then Undo(b, i) else b
  {
    hide BookOk, KnownAccounts;
    if i < |b.txns| {
      ReversalPosts(b, i);
    }
  }

  lemma ReversingKeeps(b: Book, i: nat)
    requires BookOk(b)
    ensures BookOk(Reversing(b, i))
  {
    hide BookOk, Reversing, Undo;
    ReversingUndoes(b, i);
    if i < |b.txns| && b.txns[i].status == Posted {
      UndoKeeps(b, i);
    }
  }

  lemma StepKeepsBook(b: Book, x: Call)
    requires BookOk(b) && ProperCall(x)
    ensures BookOk(LedgerStep(b, x))
  {
    hide BookOk, Reversing;
    match x
    case EnsureAccounts(owner, currency) => ProvisionKeeps(b, DefaultAccounts(owner, currency));
    case GetAccount(a, currency) => ProvisionKeeps(b, DefaultAccounts(a.owner, currency) + {a});
    case PostEntries(key, es) =>
      if Post(b, key, es).Created? {
        PostingKeeps(b, key, es);
      }
    case Reverse(i, _, _) => ReversingKeeps(b, i);
  }

  lemma {:induction false} RunKeepsBook(xs: seq<Call>)
    requires ProperCalls(xs)
    ensures BookOk(LedgerRun(xs))
  {
    hide BookOk;
    if xs == [] {
      EmptyBookOk();
    } else {
      RunKeepsBook(xs[..|xs| - 1]);
      StepKeepsBook(LedgerRun(xs[..|xs| - 1]), xs[|xs| - 1]);
    }
  }

  /** After any calls: every cached balance is the sum of its entries, every transaction balances in
      every currency, all balances of a currency add up to zero, and no key was used twice. */
  lemma BooksAlwaysClose(xs: seq<Call>)
    requires ProperCalls(xs)
    ensures var b := LedgerRun(xs);
            && (forall a :: Bal(b.balances, a) == LedgerSum(b.txns, a))
            && (forall t | t in b.txns :: t.entries != [] && ZeroInEveryCurrency(t.entries))
            && (forall c :: CurrencyTotal(b.balances, c) == 0)
            && (forall i, j | 0 <= i < j < |b.txns| && b.txns[i].key.Some? :: b.txns[i].key != b.txns[j].key)
  {
    RunKeepsBook(xs);
    var b := LedgerRun(xs);
    forall t | t in b.txns ensures t.entries != [] && ZeroInEveryCurrency(t.entries) {
      assert TxnOk(b, t);
      BalancedIffZero(t.entries);
    }
  }

  /** After any calls: a transaction is marked reversed exactly if it has a reversal; there is one at
      most, it comes later, and it takes back what the transaction moved on every account. */
  lemma AtMostOneReversal(xs: seq<Call>, i: nat)
    requires ProperCalls(xs) && i < |LedgerRun(xs).txns|
    ensures var txns := LedgerRun(xs).txns;
            && (txns[i].status == Reversed <==> exists r: nat :: r < |txns| && txns[r].key == Some(Reversal(i)))
            && (forall r: nat, s: nat | r < |txns| && s < |txns|
                  && txns[r].key == Some(Reversal(i)) && txns[s].key == Some(Reversal(i)) :: r == s)
            && (forall r: nat | r < |txns| && txns[r].key == Some(Reversal(i)) ::
                  i < r && forall a :: Net(txns[i].entries, a) + Net(txns[r].entries, a) == 0)
  {
    RunKeepsBook(xs);
    var txns := LedgerRun(xs).txns;
    NegatedSums(txns[i].entries);
    var f := Find(txns, Reversal(i));
    assert txns[i].status == Reversed <==> f >= 0;
  }

  // ---------------------------------------------------------------- history is never edited

  predicate Kept(before: seq<Txn>, after: seq<Txn>) {
    && |before| <= |after|
    && forall i | 0 <= i < |before| ::
         && after[i].key == before[i].key && after[i].entries == before[i].entries
         && (before[i].status == Reversed ==> after[i].status == Reversed)
  }

  lemma StepKeepsHistory(b: Book, x: Call)
    ensures Kept(b.txns, LedgerStep(b, x).txns)
  {
    hide Apply, Provisioned, Negated, Find, BalancedPerCurrency, KnownAccounts, Total;
  }

  /** Whatever calls follow, recorded transactions stay, with their keys and entries. */
  lemma {:induction false} HistoryIsKept(xs: seq<Call>, n: nat)
    requires n <= |xs|
    ensures Kept(LedgerRun(xs[..n]).txns, LedgerRun(xs).txns)
  {
    if n == |xs| {
      assert xs[..n] == xs;
    } else {
      var m := |xs| - 1;
      assert xs[..m][..n] == xs[..n];
      HistoryIsKept(xs[..m], n);
      StepKeepsHistory(LedgerRun(xs[..m]), xs[m]);
    }
  }

  // ---------------------------------------------------------------- the database does the same

  method ReverseIn(store: LedgerStore, i: nat, seen: TxnStatus, remembers: bool)
    requires BookOk(store.View())
    modifies store
    ensures store.View() == Reversing(old(store.View()), i)
  {
    hide BookOk;
    ReversingUndoes(store.View(), i);
    if i < |store.txns| {
      var found := store.FindByKey(Reversal(i));
      var link := if remembers && found >= 0 then Some(found as nat) else None;
      var _, _ := store.ReverseTransaction(i, seen, link);
    }
  }

  /** The ledger's services, called in any order, leave exactly the book of the run. */
  method Replay(xs: seq<Call>) returns (store: LedgerStore)
    requires ProperCalls(xs)
    ensures store.View() == LedgerRun(xs)
  {
    hide BookOk, Reversing, Post;
    store := new LedgerStore();
    for i := 0 to |xs|
      invariant fresh(store) && store.View() == LedgerRun(xs[..i])
    {
      assert xs[..i + 1][..i] == xs[..i];
      RunKeepsBook(xs[..i]);
      match xs[i] {
        case EnsureAccounts(owner, currency) =>
          store.EnsureAccounts(owner, currency);
        case GetAccount(a, walletCurrency) =>
          var _ := store.GetAccount(a.owner, a.kind, a.currency, walletCurrency);
        case PostEntries(key, entries) =>
          var _ := store.PostTransaction(key, entries);
        case Reverse(txn, seen, remembers) =>
          ReverseIn(store, txn, seen, remembers);
      }
    }
    assert xs[..|xs|] == xs;
  }
}
