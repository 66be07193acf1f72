/** Concurrent postings as interleaved steps (apps/ledger/services.py, apps/withdrawals/services.py).

    Each thread runs one `post_transaction`, possibly inside `request_withdrawal`, which first locks
    a row and checks its balance.  Reads see committed data; a row lock is held until the thread
    commits or aborts; an inserted key blocks other inserts of it until then. */
module PostingProtocol {
  import opened Outcomes
  import opened Accounts
  import opened Ledger

  /** `request_withdrawal` demands that the locked account holds at least the amount. */
  datatype Guard = NoGuard | AtLeast(account: Account, amount: int)

  datatype Job = Job(key: Option<Key>, entries: seq<Entry>, guard: Guard)

  datatype Phase =
    | Begin
    | Guarded
    | Validated
    | Writing(written: nat)
    | Committed
    | FoundExisting(index: nat)
    | Failed

  /** `read` holds the rows locked so far, as read under the lock; `work` the balances being saved. */
  datatype Thread = Thread(job: Job, phase: Phase, read: map<Account, int>, work: map<Account, int>)

  datatype Commit = Commit(thread: nat, job: Job)

  datatype World = World(
    book: Book,
    locks: map<Account, nat>,
    inserts: map<Key, nat>,
    threads: seq<Thread>,
    log: seq<Commit>)

  datatype Move = Lock(account: Account) | CheckGuard | LookUpKey | Insert | WriteEntry | CommitAll | Abort

  predicate Active(p: Phase) {
    p.Begin? || p.Guarded? || p.Validated? || p.Writing?
  }

  predicate NeedsRow(th: Thread, a: Account) {
    || (th.phase.Begin? && th.job.guard.AtLeast? && th.job.guard.account == a)
    || (th.phase.Validated? && exists e | e in th.job.entries :: e.account == a)
  }

  predicate Postable(es: seq<Entry>) {
    es != [] && Total(es) == 0 && BalancedPerCurrency(es)
  }

  function WithThread(w: World, t: nat, th: Thread): World
    requires t < |w.threads|
  {
    w.(threads := w.threads[t := th])
  }

  /** The end of a database transaction: locks and pending inserts are released. */
  function Finish(w: World, t: nat, p: Phase): World
    requires t < |w.threads|
  {
    w.(locks := map a | a in w.locks && w.locks[a] != t :: w.locks[a],
       inserts := map k | k in w.inserts && w.inserts[k] != t :: w.inserts[k],
       threads := w.threads[t := Thread(w.threads[t].job, p, map[], map[])])
  }

  /** `select_for_update` of one row: waits while another thread holds it. */
  function LockRow(w: World, t: nat, a: Account): World
    requires t < |w.threads|
  {
    var th := w.threads[t];
    if NeedsRow(th, a) && a !in w.locks && a in w.book.balances then
      WithThread(w, t, th.(read := th.read[a := w.book.balances[a]])).(locks := w.locks[a := t])
    else w
  }

  function CheckBalance(w: World, t: nat): World
    requires t < |w.threads|
  {
    var th := w.threads[t];
    if !th.phase.Begin? then w
    else if th.job.guard.NoGuard? then WithThread(w, t, th.(phase := Guarded))
    else if th.job.guard.account !in th.read then w
    else if th.read[th.job.guard.account] < th.job.guard.amount then Finish(w, t, Failed)
    else WithThread(w, t, th.(phase := Guarded))
  }

  /** The checks before any lock is taken: no entries, a used key, entries that do not balance. */
  function Validate(w: World, t: nat): World
    requires t < |w.threads|
  {
    var th := w.threads[t];
    if !th.phase.Guarded? then w
    else if th.job.entries == [] then Finish(w, t, Failed)
    else if th.job.key.Some? && Find(w.book.txns, th.job.key.value) >= 0 then
      Finish(w, t, FoundExisting(Find(w.book.txns, th.job.key.value)))
    else if !Postable(th.job.entries) then Finish(w, t, Failed)
    else WithThread(w, t, th.(phase := Validated))
  }

  /** Creating the transaction row, once all rows are locked; the unique key may be taken. */
  function InsertTxn(w: World, t: nat): World
    requires t < |w.threads|
  {
    var th := w.threads[t];
    if !th.phase.Validated? || !KnownAccounts(th.read, th.job.entries) then w
    else if th.job.key.Some? && Find(w.book.txns, th.job.key.value) >= 0 then
      Finish(w, t, FoundExisting(Find(w.book.txns, th.job.key.value)))
    else if th.job.key.Some? && th.job.key.value in w.inserts then w
    else
      WithThread(w, t, th.(phase := Writing(0), work := th.read))
        .(inserts := if th.job.key.Some? then w.inserts[th.job.key.value := t] else w.inserts)
  }

  function WriteNext(w: World, t: nat): World
    requires t < |w.threads|
  {
    var th := w.threads[t];
    if !th.phase.Writing? || th.phase.written >= |th.job.entries| then w
    else
      var e := th.job.entries[th.phase.written];
      if e.account !in th.work then w
      else
        WithThread(w, t, th.(phase := Writing(th.phase.written + 1),
                             work := th.work[e.account := th.work[e.account] + e.amount]))
  }

  function CommitTxn(w: World, t: nat): World
    requires t < |w.threads|
  {
    var th := w.threads[t];
    if !th.phase.Writing? || th.phase.written != |th.job.entries| then w
    else
      Finish(w, t, Committed).(
        book := Book(w.book.balances + th.work, w.book.txns + [Txn(th.job.key, Posted, th.job.entries)]),
        log := w.log + [Commit(t, th.job)])
  }

  /** One step of thread `t`; a step that is not enabled, or has to wait, leaves the world as it is. */
  function Step(w: World, t: nat, move: Move): World {
    if t >= |w.threads| || !Active(w.threads[t].phase) then w
    else
      match move
      case Lock(a) => LockRow(w, t, a)
      case CheckGuard => CheckBalance(w, t)
      case LookUpKey => Validate(w, t)
      case Insert => InsertTxn(w, t)
      case WriteEntry => WriteNext(w, t)
      case CommitAll => CommitTxn(w, t)
      case Abort => Finish(w, t, Failed)
  }

  function Run(w: World, schedule: seq<(nat, Move)>): World {
    if schedule == [] then w
    else
      var last := schedule[|schedule| - 1];
      Step(Run(w, schedule[..|schedule| - 1]), last.0, last.1)
  }

  /** The jobs that are about to start on a ledger. */
  function Start(b: Book, jobs: seq<Job>): World {
    World(b, map[], map[], seq(|jobs|, i requires 0 <= i < |jobs| => Thread(jobs[i], Begin, map[], map[])), [])
  }

  // ---------------------------------------------------------------- the serial reference

  /** Running the committed jobs one after the other, each as a whole. */
  function Serial(b: Book, log: seq<Commit>): Book {
    if log == [] then b
    else
      var before := Serial(b, log[..|log| - 1]);
      match Post(before, log[|log| - 1].job.key, log[|log| - 1].job.entries)
      case Created(after) => after
      case _ => before
  }

  predicate GuardHolds(b: Book, g: Guard) {
    g.AtLeast? ==> g.account in b.balances && b.balances[g.account] >= g.amount
  }

  /** Job `n` of the log, run as a whole after the jobs before it, creates its transaction and
      finds its guard satisfied. */
  ghost predicate SerialStepOk(b: Book, log: seq<Commit>, n: nat)
    requires n < |log|
  {
    var before := Serial(b, log[..n]);
    Post(before, log[n].job.key, log[n].job.entries).Created? && GuardHolds(before, log[n].job.guard)
  }

  ghost predicate SerialOk(b: Book, log: seq<Commit>) {
    forall n: nat {:trigger SerialStepOk(b, log, n)} | n < |log| :: SerialStepOk(b, log, n)
  }

  // ---------------------------------------------------------------- invariant

  /** A thread's locked rows are its own, and still as it read them. */
  ghost predicate RowsOk(w: World, t: nat)
    requires t < |w.threads|
  {
    forall a | a in w.threads[t].read ::
      a in w.locks && w.locks[a] == t && a in w.book.balances && w.book.balances[a] == w.threads[t].read[a]
  }

  predicate GuardKept(th: Thread) {
    th.job.guard.AtLeast? ==> th.job.guard.account in th.read && th.read[th.job.guard.account] >= th.job.guard.amount
  }

  ghost predicate ThreadOk(w: World, t: nat)
    requires t < |w.threads|
  {
    var th := w.threads[t];
    && RowsOk(w, t)
    && (th.phase.Guarded? || th.phase.Validated? || th.phase.Writing? ==> GuardKept(th))
    && (th.phase.Validated? || th.phase.Writing? ==> Postable(th.job.entries))
    && (th.phase.Writing? ==>
          && th.phase.written <= |th.job.entries|
          && KnownAccounts(th.read, th.job.entries)
          && th.work == Apply(th.read, th.job.entries[..th.phase.written])
          && (th.job.key.Some? ==>
                && th.job.key.value in w.inserts && w.inserts[th.job.key.value] == t
                && Find(w.book.txns, th.job.key.value) < 0))
    && (th.phase.FoundExisting? ==>
          th.phase.index < |w.book.txns| && w.book.txns[th.phase.index].key == th.job.key && th.job.key.Some?)
    && (!Active(th.phase) ==> th.read == map[])
  }

  ghost predicate OwnersOk(w: World) {
    && (forall a | a in w.locks :: w.locks[a] < |w.threads| && a in w.threads[w.locks[a]].read)
    && (forall k | k in w.inserts :: w.inserts[k] < |w.threads|
          && w.threads[w.inserts[k]].phase.Writing? && w.threads[w.inserts[k]].job.key == Some(k))
  }

  /** The log has each committed thread once. */
  ghost predicate LogOk(w: World) {
    && (forall n | 0 <= n < |w.log| :: w.log[n].thread < |w.threads|
          && w.threads[w.log[n].thread].phase == Committed && w.threads[w.log[n].thread].job == w.log[n].job)
    && (forall m, n | 0 <= m < n < |w.log| :: w.log[m].thread != w.log[n].thread)
    && (forall t: nat {:trigger InLog(w.log, t)} | t < |w.threads| && w.threads[t].phase == Committed ::
        InLog(w.log, t))
  }

  ghost predicate InLog(log: seq<Commit>, t: nat) {
    exists n :: 0 <= n < |log| && log[n].thread == t
  }

  ghost predicate Inv(b: Book, w: World) {
    && (forall t: nat {:trigger ThreadOk(w, t)} | t < |w.threads| :: ThreadOk(w, t))
    && OwnersOk(w)
    && LogOk(w)
    && w.book == Serial(b, w.log)
    && SerialOk(b, w.log)
  }

  lemma StartInv(b: Book, jobs: seq<Job>)
    ensures Inv(b, Start(b, jobs))
  {
  }

  /** Saving only the locked rows is the same as applying the entries to the whole table. */
  lemma {:induction false} LockedRowsSuffice(balances: map<Account, int>, read: map<Account, int>, es: seq<Entry>)
    requires KnownAccounts(read, es)
    requires forall a | a in read :: a in balances && balances[a] == read[a]
    ensures KnownAccounts(balances, es) && balances + Apply(read, es) == Apply(balances, es)
  {
    if es == [] {
      assert balances + read == balances;
    } else {
      var n := |es| - 1;
      assert forall e | e in es[..n] :: e in es;
      LockedRowsSuffice(balances, read, es[..n]);
      var before, e := Apply(read, es[..n]), es[n];
      var v := before[e.account] + e.amount;
      assert Apply(read, es) == before[e.account := v];
      assert (balances + before)[e.account] == before[e.account];
      assert balances + before[e.account := v] == (balances + before)[e.account := v];
    }
  }

  lemma OtherThreadKept(w: World, u: World, t: nat, i: nat)
    requires t < |w.threads| && |u.threads| == |w.threads| && u.book == w.book
    requires i < |w.threads| && i != t && u.threads[i] == w.threads[i] && ThreadOk(w, i)
    requires forall a | a in w.locks && w.locks[a] != t :: a in u.locks && u.locks[a] == w.locks[a]
    requires forall k | k in w.inserts && w.inserts[k] != t :: k in u.inserts && u.inserts[k] == w.inserts[k]
    ensures ThreadOk(u, i)
  {
  }

  /** The log stays in order while thread `t` is not committing. */
  lemma LogKept(w: World, u: World, t: nat)
    requires LogOk(w) && t < |w.threads| && |u.threads| == |w.threads| && u.log == w.log
    requires w.threads[t].phase != Committed && u.threads[t].phase != Committed
    requires forall i | 0 <= i < |w.threads| && i != t :: u.threads[i] == w.threads[i]
    ensures LogOk(u)
  {
    assert forall n | 0 <= n < |w.log| :: w.log[n].thread != t;
    forall i: nat | i < |u.threads| && u.threads[i].phase == Committed ensures InLog(u.log, i) {
      assert w.threads[i].phase == Committed;
      assert InLog(w.log, i);
    }
  }

  lemma FinishOwners(w: World, t: nat, p: Phase)
    requires OwnersOk(w) && t < |w.threads|
    ensures OwnersOk(Finish(w, t, p))
  {
  }

  lemma FinishKeeps(b: Book, w: World, t: nat, p: Phase)
    requires Inv(b, w) && t < |w.threads| && Active(w.threads[t].phase)
    requires p == Failed || (p.FoundExisting? && w.threads[t].job.key.Some?
                             && p.index < |w.book.txns| && w.book.txns[p.index].key == w.threads[t].job.key)
    ensures Inv(b, Finish(w, t, p))
  {
    var u := Finish(w, t, p);
    FinishOwners(w, t, p);
    LogKept(w, u, t);
    forall i: nat | i < |u.threads| ensures ThreadOk(u, i) {
      if i != t {
        assert ThreadOk(w, i);
        OtherThreadKept(w, u, t, i);
      }
    }
  }

  /** Locks and inserts are only added, and only for thread `t`. */
  ghost predicate OnlyAdds(w: World, u: World, t: nat)
    requires t < |u.threads|
  {
    && (forall a | a in w.locks :: a in u.locks && u.locks[a] == w.locks[a])
    && (forall a | a in u.locks && a !in w.locks :: u.locks[a] == t && a in u.threads[t].read)
    && (forall k | k in w.inserts :: k in u.inserts && u.inserts[k] == w.inserts[k])
    && (forall k | k in u.inserts && k !in w.inserts :: u.inserts[k] == t)
    && (forall k | k in u.inserts && u.inserts[k] == t ::
        u.threads[t].phase.Writing? && u.threads[t].job.key == Some(k))
  }

  lemma AddingOwners(w: World, u: World, t: nat)
    requires OwnersOk(w) && t < |w.threads| && |u.threads| == |w.threads| && OnlyAdds(w, u, t)
    requires forall i | 0 <= i < |w.threads| && i != t :: u.threads[i] == w.threads[i]
    requires w.threads[t].read.Keys <= u.threads[t].read.Keys
    ensures OwnersOk(u)
  {
  }

  lemma ThreadStepKeeps(b: Book, w: World, t: nat, u: World)
    requires Inv(b, w) && t < |w.threads| && Active(w.threads[t].phase)
    requires u.book == w.book && u.log == w.log && |u.threads| == |w.threads| && ThreadOk(u, t)
    requires forall i | 0 <= i < |w.threads| && i != t :: u.threads[i] == w.threads[i]
    requires Active(u.threads[t].phase) && w.threads[t].read.Keys <= u.threads[t].read.Keys
    requires OnlyAdds(w, u, t)
    ensures Inv(b, u)
  {
    AddingOwners(w, u, t);
    LogKept(w, u, t);
    forall i: nat | i < |u.threads| ensures ThreadOk(u, i) {
      if i != t {
        assert ThreadOk(w, i);
        OtherThreadKept(w, u, t, i);
      }
    }
  }

  lemma WrittenThreadOk(w: World, t: nat)
    requires t < |w.threads| && w.threads[t].phase.Writing? && ThreadOk(w, t)
    ensures ThreadOk(WriteNext(w, t), t)
  {
    hide Postable, Find;
    var th := w.threads[t];
    var n, es := th.phase.written, th.job.entries;
    if n < |es| {
      assert es[n] in es && es[..n + 1][..n] == es[..n];
      assert forall e | e in es[..n + 1] :: e in es;
    }
  }

  lemma WriteKeeps(b: Book, w: World, t: nat)
    requires Inv(b, w) && t < |w.threads| && w.threads[t].phase.Writing?
    ensures Inv(b, WriteNext(w, t))
  {
    assert ThreadOk(w, t);
    WrittenThreadOk(w, t);
    if WriteNext(w, t) != w {
      ThreadStepKeeps(b, w, t, WriteNext(w, t));
    }
  }

  lemma SerialAppend(b: Book, log: seq<Commit>, c: Commit)
    requires SerialOk(b, log)
    requires Post(Serial(b, log), c.job.key, c.job.entries).Created? && GuardHolds(Serial(b, log), c.job.guard)
    ensures SerialOk(b, log + [c])
    ensures Serial(b, log + [c]) == Post(Serial(b, log), c.job.key, c.job.entries).book
  {
    var more := log + [c];
    assert more[..|log|] == log;
    forall n: nat | n < |more| ensures SerialStepOk(b, more, n) {
      if n < |log| {
        assert more[..n] == log[..n];
        assert SerialStepOk(b, log, n);
      }
    }
  }

  /** A commit happens as if the whole job had run at that moment. */
  lemma CommitIsAtomic(b: Book, w: World, t: nat)
    requires Inv(b, w) && t < |w.threads|
    requires w.threads[t].phase == Writing(|w.threads[t].job.entries|)
    ensures var job, u := w.threads[t].job, CommitTxn(w, t);
            && Post(w.book, job.key, job.entries) == Created(u.book)
            && GuardHolds(w.book, job.guard)
            && SerialOk(b, u.log) && u.book == Serial(b, u.log)
  {
    var th := w.threads[t];
    assert ThreadOk(w, t);
    assert th.job.entries[..|th.job.entries|] == th.job.entries;
    LockedRowsSuffice(w.book.balances, th.read, th.job.entries);
    SerialAppend(b, w.log, Commit(t, th.job));
  }

  /** Nobody else's rows or keys are touched by a commit. */
  lemma CommitKeepsThreads(b: Book, w: World, t: nat, i: nat)
    requires Inv(b, w) && t < |w.threads| && i < |w.threads| && i != t
    requires w.threads[t].phase == Writing(|w.threads[t].job.entries|)
    ensures ThreadOk(CommitTxn(w, t), i)
  {
    var u, th, other := CommitTxn(w, t), w.threads[t], w.threads[i];
    assert ThreadOk(w, t) && ThreadOk(w, i);
    assert th.work.Keys == th.read.Keys;
    OthersRowsKept(w, t, i);
    if other.phase.Writing? && other.job.key.Some? {
      var k := other.job.key.value;
      assert w.inserts[k] == i;
      assert th.job.key != Some(k);
      FindAfterAppend(w.book.txns, Txn(th.job.key, Posted, th.job.entries), k);
    }
  }

  lemma FindAfterAppend(txns: seq<Txn>, added: Txn, k: Key)
    ensures added.key != Some(k) ==> Find(txns + [added], k) == Find(txns, k)
    ensures added.key == Some(k) ==> Find(txns + [added], k) == |txns|
  {
    assert (txns + [added])[..|txns|] == txns;
  }

  lemma OthersRowsKept(w: World, t: nat, i: nat)
    requires t < |w.threads| && i < |w.threads| && i != t && RowsOk(w, t) && RowsOk(w, i)
    requires w.threads[t].phase == Writing(|w.threads[t].job.entries|)
    requires w.threads[t].work.Keys == w.threads[t].read.Keys
    ensures RowsOk(CommitTxn(w, t), i)
  {
    var u := CommitTxn(w, t);
    forall a | a in w.threads[i].read
      ensures a in u.locks && u.locks[a] == i && a in u.book.balances && u.book.balances[a] == w.threads[i].read[a]
    {
      assert w.locks[a] == i && a !in w.threads[t].read;
    }
  }

  lemma CommitLog(w: World, t: nat)
    requires LogOk(w) && t < |w.threads|
    requires w.threads[t].phase == Writing(|w.threads[t].job.entries|)
    ensures LogOk(CommitTxn(w, t))
  {
    var u := CommitTxn(w, t);
    assert u.log == w.log + [Commit(t, w.threads[t].job)];
    assert forall n | 0 <= n < |w.log| :: w.log[n].thread != t && u.log[n] == w.log[n];
    forall i: nat | i < |u.threads| && u.threads[i].phase == Committed ensures InLog(u.log, i) {
      if i == t {
        assert u.log[|w.log|].thread == t;
      } else {
        assert InLog(w.log, i);
        var n :| 0 <= n < |w.log| && w.log[n].thread == i;
        assert u.log[n].thread == i;
      }
    }
  }

  lemma CommitKeeps(b: Book, w: World, t: nat)
    requires Inv(b, w) && t < |w.threads|
    requires w.threads[t].phase == Writing(|w.threads[t].job.entries|)
    ensures Inv(b, CommitTxn(w, t))
  {
    var u := CommitTxn(w, t);
    CommitIsAtomic(b, w, t);
    CommitLog(w, t);
    FinishOwners(w, t, Committed);
    forall i: nat | i < |u.threads| ensures ThreadOk(u, i) {
      if i != t {
        CommitKeepsThreads(b, w, t, i);
      }
    }
  }

  lemma LockKeeps(b: Book, w: World, t: nat, a: Account)
    requires Inv(b, w) && t < |w.threads| && Active(w.threads[t].phase)
    ensures Inv(b, LockRow(w, t, a))
  {
    hide Postable, SerialOk, Find, Apply;
    assert ThreadOk(w, t);
    if LockRow(w, t, a) != w {
      ThreadStepKeeps(b, w, t, LockRow(w, t, a));
    }
  }

  lemma InsertedThreadOk(w: World, t: nat)
    requires t < |w.threads| && w.threads[t].phase.Validated? && ThreadOk(w, t)
    requires InsertTxn(w, t).threads[t].phase.Writing?
    ensures ThreadOk(InsertTxn(w, t), t)
  {
    assert w.threads[t].job.entries[..0] == [];
  }

  lemma InsertKeeps(b: Book, w: World, t: nat)
    requires Inv(b, w) && t < |w.threads| && w.threads[t].phase.Validated?
    ensures Inv(b, InsertTxn(w, t))
  {
    hide Postable, GuardKept, LogOk, SerialOk, Apply;
    var u := InsertTxn(w, t);
    assert ThreadOk(w, t);
    if u.threads[t].phase.FoundExisting? {
      FinishKeeps(b, w, t, u.threads[t].phase);
    } else if u.threads[t].phase.Writing? {
      InsertedThreadOk(w, t);
      ThreadStepKeeps(b, w, t, u);
    }
  }

  lemma GuardKeeps(b: Book, w: World, t: nat)
    requires Inv(b, w) && t < |w.threads| && w.threads[t].phase.Begin?
    ensures Inv(b, CheckBalance(w, t))
  {
    var u := CheckBalance(w, t);
    assert ThreadOk(w, t);
    if u.threads[t].phase.Failed? {
      FinishKeeps(b, w, t, Failed);
    } else if u.threads[t].phase.Guarded? {
      ThreadStepKeeps(b, w, t, u);
    }
  }

  lemma ValidateKeeps(b: Book, w: World, t: nat)
    requires Inv(b, w) && t < |w.threads| && w.threads[t].phase.Guarded?
    ensures Inv(b, Validate(w, t))
  {
    var u := Validate(w, t);
    assert ThreadOk(w, t);
    if u.threads[t].phase.Validated? {
      ThreadStepKeeps(b, w, t, u);
    } else {
      FinishKeeps(b, w, t, u.threads[t].phase);
    }
  }

  lemma StepKeeps(b: Book, w: World, t: nat, move: Move)
    requires Inv(b, w)
    ensures Inv(b, Step(w, t, move))
  {
    if t < |w.threads| && Active(w.threads[t].phase) {
      match move
      case Lock(a) => LockKeeps(b, w, t, a);
      case CheckGuard => if w.threads[t].phase.Begin? { GuardKeeps(b, w, t); }
      case LookUpKey => if w.threads[t].phase.Guarded? { ValidateKeeps(b, w, t); }
      case Insert => if w.threads[t].phase.Validated? { InsertKeeps(b, w, t); }
      case WriteEntry => if w.threads[t].phase.Writing? { WriteKeeps(b, w, t); }
      case CommitAll => if w.threads[t].phase == Writing(|w.threads[t].job.entries|) { CommitKeeps(b, w, t); }
      case Abort => FinishKeeps(b, w, t, Failed);
    }
  }

  lemma {:induction false} RunKeeps(b: Book, w: World, schedule: seq<(nat, Move)>)
    requires Inv(b, w)
    ensures Inv(b, Run(w, schedule))
  {
    if schedule != [] {
      var n := |schedule| - 1;
      RunKeeps(b, w, schedule[..n]);
      StepKeeps(b, Run(w, schedule[..n]), schedule[n].0, schedule[n].1);
    }
  }

  // ---------------------------------------------------------------- main results

  /** Serializability: under every interleaving the ledger is what the committed jobs produce when
      each runs as a whole in commit order; every thread commits at most once, and each of those
      whole runs creates its transaction with its guard satisfied. */
  lemma EveryScheduleIsSerial(b: Book, jobs: seq<Job>, schedule: seq<(nat, Move)>)
    ensures var w := Run(Start(b, jobs), schedule);
            && w.book == Serial(b, w.log)
            && SerialOk(b, w.log)
            && LogOk(w)
  {
    StartInv(b, jobs);
    RunKeeps(b, Start(b, jobs), schedule);
  }

  ghost function LogNet(log: seq<Commit>, a: Account): int {
    if log == [] then 0 else LogNet(log[..|log| - 1], a) + Net(log[|log| - 1].job.entries, a)
  }

  lemma {:induction false} SerialBalance(b: Book, log: seq<Commit>, a: Account)
    requires SerialOk(b, log)
    ensures Bal(Serial(b, log).balances, a) == Bal(b.balances, a) + LogNet(log, a)
    ensures |Serial(b, log).txns| == |b.txns| + |log|
  {
    if log != [] {
      var n := |log| - 1;
      SerialPrefixOk(b, log, n);
      SerialBalance(b, log[..n], a);
      assert SerialStepOk(b, log, n);
    }
  }

  lemma SerialPrefixOk(b: Book, log: seq<Commit>, n: nat)
    requires SerialOk(b, log) && n <= |log|
    ensures SerialOk(b, log[..n])
  {
    forall m: nat | m < n ensures SerialStepOk(b, log[..n], m) {
      assert log[..n][..m] == log[..m];
      assert SerialStepOk(b, log, m);
    }
  }

  /** No update is lost: every balance is the initial one plus what all committed jobs move. */
  lemma NoLostUpdate(b: Book, jobs: seq<Job>, schedule: seq<(nat, Move)>, a: Account)
    ensures var w := Run(Start(b, jobs), schedule);
            Bal(w.book.balances, a) == Bal(b.balances, a) + LogNet(w.log, a)
  {
    EveryScheduleIsSerial(b, jobs, schedule);
    SerialBalance(b, Run(Start(b, jobs), schedule).log, a);
  }

  lemma {:induction false} SerialHasKeys(b: Book, log: seq<Commit>, m: nat)
    requires SerialOk(b, log) && m < |log| && log[m].job.key.Some?
    ensures Find(Serial(b, log).txns, log[m].job.key.value) >= 0
  {
    var n := |log| - 1;
    SerialPrefixOk(b, log, n);
    assert SerialStepOk(b, log, n);
    var before, after := Serial(b, log[..n]), Serial(b, log);
    assert after.txns == before.txns + [Txn(log[n].job.key, Posted, log[n].job.entries)];
    if m < n {
      SerialHasKeys(b, log[..n], m);
      var i := Find(before.txns, log[m].job.key.value);
      assert after.txns[i].key == log[m].job.key;
    } else {
      assert after.txns[|before.txns|].key == log[m].job.key;
    }
  }

  /** Each key is posted at most once, and not at all when the ledger had it already. */
  lemma KeyPostedAtMostOnce(b: Book, jobs: seq<Job>, schedule: seq<(nat, Move)>, m: nat, n: nat)
    requires m < n < |Run(Start(b, jobs), schedule).log|
    ensures var log := Run(Start(b, jobs), schedule).log;
            log[m].job.key.Some? ==> log[m].job.key != log[n].job.key
  {
    var log := Run(Start(b, jobs), schedule).log;
    EveryScheduleIsSerial(b, jobs, schedule);
    assert SerialStepOk(b, log, n);
    if log[m].job.key.Some? {
      SerialPrefixOk(b, log, n);
      SerialHasKeys(b, log[..n], m);
    }
  }

  /** The loser of a race for a key posts nothing: it found the winner's transaction. */
  lemma LoserFindsWinner(b: Book, jobs: seq<Job>, schedule: seq<(nat, Move)>, t: nat)
    requires t < |Run(Start(b, jobs), schedule).threads|
    requires Run(Start(b, jobs), schedule).threads[t].phase.FoundExisting?
    ensures var w := Run(Start(b, jobs), schedule); var th := w.threads[t];
            && th.phase.index < |w.book.txns| && w.book.txns[th.phase.index].key == th.job.key
            && forall n | 0 <= n < |w.log| :: w.log[n].thread != t
  {
    StartInv(b, jobs);
    RunKeeps(b, Start(b, jobs), schedule);
    assert ThreadOk(Run(Start(b, jobs), schedule), t);
  }

  // ---------------------------------------------------------------- reservations

  /** The job takes `amount` from the account after checking for it, as `request_withdrawal` does. */
  predicate Reserves(job: Job, a: Account) {
    job.guard.AtLeast? && job.guard.account == a && Net(job.entries, a) == -job.guard.amount
  }

  /** The reservation posting of a withdrawal request, under the check of the locked cash row. */
  lemma RequestReserves(cash: Account, locked: Account, amount: int, key: Option<Key>)
    requires cash != locked
    ensures Reserves(Job(key, Transfer(cash, locked, amount), AtLeast(cash, amount)), cash)
  {
    TransferSums(cash, locked, amount);
  }

  /** Every job either reserves from the account under its guard or does not take from it. */
  predicate OnlyReservations(jobs: seq<Job>, a: Account) {
    forall i | 0 <= i < |jobs| :: Reserves(jobs[i], a) || Net(jobs[i].entries, a) >= 0
  }

  lemma {:induction false} SerialNeverOverdraws(b: Book, log: seq<Commit>, a: Account)
    requires SerialOk(b, log) && Bal(b.balances, a) >= 0
    requires forall n | 0 <= n < |log| :: Reserves(log[n].job, a) || Net(log[n].job.entries, a) >= 0
    ensures Bal(Serial(b, log).balances, a) >= 0
  {
    if log != [] {
      var n := |log| - 1;
      SerialPrefixOk(b, log, n);
      SerialNeverOverdraws(b, log[..n], a);
      assert SerialStepOk(b, log, n);
    }
  }

  lemma StepKeepsJobs(w: World, t: nat, move: Move)
    ensures var u := Step(w, t, move);
            |u.threads| == |w.threads| && forall i | 0 <= i < |w.threads| :: u.threads[i].job == w.threads[i].job
  {
  }

  lemma {:induction false} RunKeepsJobs(w: World, schedule: seq<(nat, Move)>)
    ensures var u := Run(w, schedule);
            |u.threads| == |w.threads| && forall t | 0 <= t < |w.threads| :: u.threads[t].job == w.threads[t].job
  {
    if schedule != [] {
      var n := |schedule| - 1;
      RunKeepsJobs(w, schedule[..n]);
      StepKeepsJobs(Run(w, schedule[..n]), schedule[n].0, schedule[n].1);
    }
  }

  /** Concurrent withdrawal requests never reserve more than there is: whatever the interleaving,
      the account is never overdrawn, so the reserved total is covered by the initial cash and
      what the other jobs added. */
  lemma ReservationsAreCovered(b: Book, jobs: seq<Job>, schedule: seq<(nat, Move)>, a: Account)
    requires OnlyReservations(jobs, a) && Bal(b.balances, a) >= 0
    ensures var w := Run(Start(b, jobs), schedule);
            Bal(w.book.balances, a) >= 0 && -LogNet(w.log, a) <= Bal(b.balances, a)
  {
    var w := Run(Start(b, jobs), schedule);
    EveryScheduleIsSerial(b, jobs, schedule);
    RunKeepsJobs(Start(b, jobs), schedule);
    forall n | 0 <= n < |w.log| ensures Reserves(w.log[n].job, a) || Net(w.log[n].job.entries, a) >= 0 {
      assert w.log[n].job == jobs[w.log[n].thread];
    }
    SerialNeverOverdraws(b, w.log, a);
    SerialBalance(b, w.log, a);
  }
}
