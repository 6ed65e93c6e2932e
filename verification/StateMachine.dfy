/**
 The node's state as the source keeps it: objects that are updated step by step,
 tied to the events and commits of `Ledger` and the writes of `Recovery`.
 */
module StateMachine {
  import opened Wrappers
  import opened Gas
  import opened Ledger
  import opened Recovery

  /** A key-value database; the journal remembers every write since it was opened. */
  class Database<A> {
    var data: map<Key, Entry<A>>
    ghost var journal: seq<Write<A>>
    ghost const initial: map<Key, Entry<A>>

    ghost predicate Valid()
      reads this
    {
      data == Replay(initial, journal)
    }

    constructor (content: map<Key, Entry<A>>)
      ensures Valid() && data == initial == content && journal == []
    {
      data, journal, initial := content, [], content;
    }

    /** A put or a batch: all of it is written, or nothing. */
    method Put(w: Write<A>)
      requires Valid()
      modifies this
      ensures Valid() && journal == old(journal) + [w] && data == old(data) + w
    {
      data := data + w;
      journal := journal + [w];
      assert journal[..|journal| - 1] == old(journal);
    }
  }

  class WriteAheadState<A> {
    const env: Env<A>
    const db: Database<A>
    var ethState: A
    var txIndex: nat
    var transactions: seq<Tx>
    var receipts: seq<Receipt>
    var allLogs: seq<Log>
    var totalUsedGas: int
    var gp: nat

    ghost function Content(): Pending<A>
      reads this
    {
      Pending(ethState, transactions, receipts, allLogs, totalUsedGas)
    }

    constructor (env: Env<A>, db: Database<A>, state: A)
      ensures this.env == env && this.db == db
      ensures Content() == Fresh(state) && txIndex == 0 && gp == GAS_LIMIT
    {
      this.env, this.db, ethState := env, db, state;
      txIndex, transactions, receipts, allLogs, totalUsedGas, gp := 0, [], [], [], 0, GAS_LIMIT;
    }

    /** Runs a transaction on the account state and, unless it is rejected, records it. */
    method Execute(t: Tx, msg: Message, index: nat, blockHash: Hash) returns (ok: bool)
      requires txIndex == |transactions|
      modifies this
      ensures Content() == Step(env, old(Content()), TxEvent(t, msg, index, blockHash, old(gp)))
      ensures txIndex == |transactions|
      ensures var o := Result(env, old(Content()), TxEvent(t, msg, index, blockHash, old(gp)));
              gp == o.pool && (ok <==> o.Applied?)
    {
      ethState := env.prepare(ethState, env.hash(t), blockHash, index);
      var o := env.apply(ethState, msg, Context(blockHash, msg.from, msg.gas, msg.gasPrice), gp);
      ethState, gp := o.post, o.pool;
      if o.Rejected? {
        return false;
      }
      totalUsedGas := totalUsedGas + o.gas;
      var root := env.root(ethState);
      ethState := env.settle(ethState);
      var contract := if msg.to == None then Some(env.create(msg.from, msg.nonce)) else None;
      var logs := env.logsOf(ethState, env.hash(t));
      var receipt := Receipt(root, o.failed, totalUsedGas, env.hash(t), o.gas, contract, logs, env.bloom(logs));
      txIndex := txIndex + 1;
      transactions := transactions + [t];
      receipts := receipts + [receipt];
      allLogs := allLogs + logs;
      ok := true;
    }

    /** The four writes of a commit, in order. */
    method Commit() returns (root: Hash)
      requires db.Valid()
      modifies db, this`ethState
      ensures db.Valid()
      ensures root == env.commitRoot(old(ethState)) && ethState == env.persist(old(ethState))
      ensures db.journal == old(db.journal) + WritesOf(env, CommitOf(old(Content())))
    {
      hide TxBatch, ReceiptBatch, Replay;
      ghost var c, j := CommitOf(Content()), db.journal;
      root := env.commitRoot(ethState);
      ethState := env.persist(ethState);
      assert CommitOf(Content()).txs == c.txs;
      db.Put(map[NodeKey(root) := StateEntry(ethState)]);
      WriteHead();
      WriteTransactions();
      WriteReceipts();
      assert db.journal == j + WritesOf(env, c);
    }

    method WriteHead()
      requires db.Valid()
      modifies db
      ensures db.Valid()
      ensures db.journal == old(db.journal) + [map[HeadKey := HeadEntry(HeadOf(env, CommitOf(Content())))]]
    {
      hide Replay;
      var head := env.emptyTx;
      if |transactions| > 0 {
        head := transactions[|transactions| - 1];
      }
      db.Put(map[HeadKey := HeadEntry(env.hash(head))]);
    }

    method WriteTransactions()
      requires db.Valid()
      modifies db
      ensures db.Valid() && db.journal == old(db.journal) + [TxBatch(env, transactions)]
    {
      var batch := map[];
      var i := 0;
      while i < |transactions|
        invariant 0 <= i <= |transactions| && batch == TxBatch(env, transactions[..i])
      {
        assert transactions[..i + 1][..i] == transactions[..i];
        batch := batch[TxKey(env.hash(transactions[i])) := TxEntry(transactions[i])];
        i := i + 1;
      }
      assert transactions[..i] == transactions;
      db.Put(batch);
    }

    method WriteReceipts()
      requires db.Valid()
      modifies db
      ensures db.Valid() && db.journal == old(db.journal) + [ReceiptBatch(receipts)]
    {
      var batch: Write<A> := map[];
      var i := 0;
      while i < |receipts|
        invariant 0 <= i <= |receipts| && batch == ReceiptBatch(receipts[..i])
      {
        assert receipts[..i + 1][..i] == receipts[..i];
        batch := batch[ReceiptKey(receipts[i].txHash) := ReceiptEntry(receipts[i])];
        i := i + 1;
      }
      assert receipts[..i] == receipts;
      db.Put(batch);
    }
  }

  class State<A> {
    const env: Env<A>
    const db: Database<A>
    var statedb: A
    var was: WriteAheadState<A>

    /** Where the session started, the events of each commit since, and the events that no commit has taken up. */
    ghost const base: A
    ghost var history: seq<seq<Event>>
    ghost var events: seq<Event>

    ghost predicate Valid()
      reads this, was, db
    {
      && was.env == env && was.db == db && db.Valid()
      // the committed state is the fold of all commits
      && statedb == Committed(env, base, history)
      // the write-ahead state is the committed state with the pending events applied in order
      && was.Content() == Run(env, statedb, events)
      && was.txIndex == |was.transactions|
      // and the database has seen the writes of all commits and nothing else
      && Recover(env, db.initial) == Loaded(base)
      && db.journal == Journal(env, Commits(env, base, history))
    }

    /** All of this but the accounts, and the gas pool. */
    ghost function Now(): Node
      reads this, was
    {
      Node(history, events, was.gp)
    }

    /** `NewState`, on a database that `InitState` has found to hold the state `start`. */
    constructor Resume(env: Env<A>, db: Database<A>, start: A)
      requires db.Valid() && db.journal == [] && Recover(env, db.data) == Loaded(start)
      ensures Valid() && fresh(was) && this.env == env && this.db == db
      ensures base == start && Now() == START
    {
      this.env, this.db, statedb, base := env, db, start, start;
      history, events := [], [];
      was := new WriteAheadState(env, db, start);
      new;
      assert db.journal == Journal(env, Commits(env, base, history));
    }

    /** `resetWAS`. */
    method Reset()
      modifies this`was
      ensures fresh(was) && was.env == env && was.db == db
      ensures was.Content() == Fresh(statedb) && was.txIndex == 0 && was.gp == GAS_LIMIT
    {
      was := new WriteAheadState(env, db, statedb);
    }

    /** Everything pending becomes one commit. */
    method CommitAll() returns (root: Hash)
      requires Valid()
      modifies this, was, db
      ensures Valid() && fresh(was)
      ensures history == old(history) + [old(events)] && events == []
      ensures root == env.commitRoot(old(was.ethState))
      ensures Now() == CommitNode(old(Now()))
    {
      ghost var h, ev := history, events;
      root := was.Commit();
      statedb := was.ethState;
      Reset();
      history, events := history + [ev], [];
      assert history[..|h|] == h && history[|h|] == ev;
    }

    /**
     `applyTransaction`. Nothing happens for bytes that are no transaction or have no
     sender; otherwise the transaction runs and is recorded unless it was rejected.
     */
    method ApplyTransaction(txBytes: Bytes, index: nat, blockHash: Hash) returns (ok: bool)
      requires Valid()
      modifies this`events, was
      ensures Valid()
      ensures var tx := env.decode(txBytes);
              if Undecodable(env, txBytes) then !ok && events == old(events) && was.gp == old(was.gp)
              else var ev := TxEvent(tx.value, env.message(tx.value).value, index, blockHash, old(was.gp));
                   && events == old(events) + [ev]
                   && was.gp == Result(env, Run(env, statedb, old(events)), ev).pool
                   && (ok <==> Applies(env, Run(env, statedb, old(events)), ev))
    {
      var decoded := env.decode(txBytes);
      if decoded.None? {
        return false;
      }
      var t := decoded.value;
      var m := env.message(t);
      if m.None? {
        return false;
      }
      var msg := m.value;
      ghost var ev := TxEvent(t, msg, index, blockHash, was.gp);
      RunOne(env, statedb, events, ev);
      hide Run, Committed, Commits, Journal, Recover, Replay, Step;
      ok := was.Execute(t, msg, index, blockHash);
      events := events + [ev];
    }

    /**
     `ProcessBlock`. If every transaction is applied they are committed together with
     whatever was pending; at the first that is not, the method stops, and what has
     been applied so far stays pending. Either way the events are those of the block,
     transaction by transaction.
     */
    method ProcessBlock(txs: seq<Bytes>, blockHash: Hash) returns (ok: bool, root: Hash)
      requires Valid()
      modifies this, was, db
      ensures Valid()
      ensures ok ==> events == [] && |history| == |old(history)| + 1 && history[..|old(history)|] == old(history)
      ensures ok ==> var block := history[|old(history)|];
                     && old(events) <= block && |block| == |old(events)| + |txs|
                     && FromBlock(env, old(statedb), old(events), block[|old(events)|..], txs, blockHash, old(was.gp))
                     && FirstApplied(env, old(statedb), old(events), block[|old(events)|..], |txs|)
                     && root == env.commitRoot(Run(env, old(statedb), block).accounts)
      ensures if ok then fresh(was) else was == old(was)
      ensures !ok ==> history == old(history) && statedb == old(statedb) && old(events) <= events
      ensures !ok ==> var evs := events[|old(events)|..];
                      && FromBlock(env, old(statedb), old(events), evs, txs, blockHash, old(was.gp))
                      && exists f :: StoppedAt(env, old(statedb), old(events), evs, txs, f)
      ensures Now() == Operate(env, base, old(Now()), BlockOp(txs, blockHash))
    {
      hide Valid, FromBlock, FirstApplied, PoolOf, Run, Undecodable, Applies, Result, Committed;
      ghost var e0, evs, pool := events, [], was.gp;
      BlockStart(env, statedb, e0, txs, blockHash, pool);
      var i := 0;
      root := 0;
      while i < |txs|
        invariant 0 <= i == |evs| <= |txs| && Valid() && was == old(was)
        invariant history == old(history) && statedb == old(statedb) && events == e0 + evs
        invariant FromBlock(env, statedb, e0, evs, txs, blockHash, pool)
        invariant FirstApplied(env, statedb, e0, evs, i) && was.gp == PoolOf(env, statedb, e0, evs, pool)
        invariant TakeBlock(env, base, Now(), txs, blockHash, i) == TakeBlock(env, base, old(Now()), txs, blockHash, 0)
      {
        AtBase();
        ghost var n := Now();
        ghost var before := events;
        ok := ApplyTransaction(txs[i], i, blockHash);
        if Undecodable(env, txs[i]) {
          assert events[|e0|..] == evs;
          assert StoppedAt(env, statedb, e0, evs, txs, i);
          return;
        }
        ghost var ev := events[|before|];
        assert ev == EventOf(env, n, txs, blockHash, i) && Now() == Took(env, base, n, ev);
        assert IsEvent(env, ev, txs[i], i, blockHash, PoolOf(env, statedb, e0, evs, pool));
        BlockStep(env, statedb, e0, evs, ev, txs, blockHash, pool);
        assert (evs + [ev])[..i] == evs;
        evs := evs + [ev];
        assert events == e0 + evs;
        if !ok {
          assert events[|e0|..] == evs;
          assert StoppedAt(env, statedb, e0, evs, txs, i);
          return;
        }
        i := i + 1;
      }
      PendingAccounts();
      root := CommitAll();
      assert (e0 + evs)[|e0|..] == evs;
      ok := true;
    }

    lemma AtBase()
      requires Valid()
      ensures Run(env, statedb, events) == PendingOf(env, base, Now())
    {
    }

    lemma PendingAccounts()
      requires Valid()
      ensures was.ethState == Run(env, statedb, events).accounts
    {
    }

    /** One genesis account. */
    method Allocate(address: Address, account: Account)
      requires Valid()
      modifies this`events, was`ethState
      ensures Valid()
      ensures events == old(events) + [AllocEvent(address, account)]
      ensures was.ethState == env.allocate(old(was.ethState), address, account)
    {
      ghost var ev := AllocEvent(address, account);
      RunOne(env, statedb, events, ev);
      hide Run, Committed, Commits, Journal, Recover, Replay;
      was.ethState := env.allocate(was.ethState, address, account);
      events := events + [ev];
    }

    /** Genesis allocations, in the order in which iterating over the map happens to yield them. */
    method AllocateAll(accounts: map<Address, Account>, order: seq<Address>)
      requires Valid() && Covers(order, accounts)
      modifies this`events, was`ethState
      ensures Valid()
      ensures events == old(events) + Allocations(order, accounts)
      ensures was.ethState == Fold(env, old(was.ethState), Allocations(order, accounts))
    {
      hide Allocations, Valid, Fold;
      ghost var e0, w0 := events, was.ethState;
      NoAllocations(env, w0, accounts);
      var i := 0;
      assert order[..0] == [];
      while i < |order|
        invariant 0 <= i <= |order| && Valid()
        invariant events == e0 + Allocations(order[..i], accounts)
        invariant was.ethState == Fold(env, w0, Allocations(order[..i], accounts))
      {
        AllocationsStep(order, accounts, i);
        FoldOne(env, w0, Allocations(order[..i], accounts), AllocEvent(order[i], accounts[order[i]]));
        Allocate(order[i], accounts[order[i]]);
        i := i + 1;
      }
      assert order[..i] == order;
    }

    /** `CreateAccounts`: the allocations, and a commit of them with everything pending. */
    method CreateAccounts(accounts: map<Address, Account>, order: seq<Address>) returns (root: Hash)
      requires Valid() && Covers(order, accounts)
      modifies this, was, db
      ensures Valid() && events == []
      ensures history == old(history) + [old(events) + Allocations(order, accounts)]
      ensures root == env.commitRoot(Fold(env, old(was.ethState), Allocations(order, accounts)))
      ensures Now() == Operate(env, base, old(Now()), AccountsOp(Allocations(order, accounts)))
    {
      hide Allocations, Valid;
      AllocateAll(accounts, order);
      root := CommitAll();
    }

    /** A read-only call runs on a copy of the accounts, but uses up gas of the shared pool. */
    method Call(msg: Message) returns (ok: bool)
      requires Valid()
      modifies was`gp
      ensures Valid()
      ensures var o := env.apply(was.ethState, msg, Context(0, msg.from, 0, msg.gasPrice), old(was.gp));
              was.gp == o.pool && (ok <==> o.Applied?)
      ensures Now() == Operate(env, base, old(Now()), CallOp(msg))
    {
      AtBase();
      hide Run, Committed, Commits, Journal, Recover, Replay;
      var o := env.apply(was.ethState, msg, Context(0, msg.from, 0, msg.gasPrice), was.gp);
      was.gp := o.pool;
      ok := o.Applied?;
    }

    method GetTransaction(hash: Hash) returns (tx: Option<Tx>)
      ensures tx == if TxKey(hash) in db.data && db.data[TxKey(hash)].TxEntry?
                    then Some(db.data[TxKey(hash)].tx) else None
    {
      tx := if TxKey(hash) in db.data && db.data[TxKey(hash)].TxEntry?
            then Some(db.data[TxKey(hash)].tx) else None;
    }

    method GetReceipt(txHash: Hash) returns (r: Option<Receipt>)
      ensures r == if ReceiptKey(txHash) in db.data && db.data[ReceiptKey(txHash)].ReceiptEntry?
                   then Some(db.data[ReceiptKey(txHash)].r) else None
    {
      r := if ReceiptKey(txHash) in db.data && db.data[ReceiptKey(txHash)].ReceiptEntry?
           then Some(db.data[ReceiptKey(txHash)].r) else None;
    }
  }

  // ----- starting up

  /** `InitState`: what the head found in the database leads to. */
  method InitState<A>(env: Env<A>, db: Database<A>) returns (r: Recovered<A>)
    ensures r == Recover(env, db.data)
  {
    var data := db.data;
    if HeadKey !in data || !data[HeadKey].HeadEntry? {
      return Loaded(env.empty);
    }
    var head := data[HeadKey].h;
    if ReceiptKey(head) !in data || !data[ReceiptKey(head)].ReceiptEntry? {
      return MissingReceipt;
    }
    var root := data[ReceiptKey(head)].r.postState;
    if NodeKey(root) !in data || !data[NodeKey(root)].StateEntry? {
      return MissingState;
    }
    r := Loaded(data[NodeKey(root)].a);
  }

  /** `NewState` on an opened database: a node ready to run, or none if the state cannot be recovered. */
  method NewState<A>(env: Env<A>, db: Database<A>) returns (s: State?<A>)
    requires db.Valid() && db.journal == []
    ensures s == null <==> !Recover(env, db.data).Loaded?
    ensures s != null ==> fresh(s) && s.Valid() && s.env == env && s.db == db && s.Now() == START
                          && Recover(env, db.data) == Loaded(s.statedb)
  {
    var r := InitState(env, db);
    if r.Loaded? {
      s := new State.Resume(env, db, r.a);
    } else {
      s := null;
    }
  }

  // ----- a run after which nothing is found

  /** The block of the failing run stops at its second transaction and nowhere else, whatever happens. */
  lemma StuckBlock(evs: seq<Event>)
    requires FromBlock(Counter(), 0, [], evs, [[7], []], 0, GAS_LIMIT)
    ensures |evs| < 2
    ensures (exists f :: StoppedAt(Counter(), 0, [], evs, [[7], []], f)) ==> evs == [Stuck()[0]]
  {
    var env, txs := Counter(), [[7], []];
    assert !Undecodable(env, txs[0]) && Undecodable(env, txs[1]);
    assert forall k :: 0 <= k < |evs| ==> !Undecodable(env, txs[k]);
    assert |evs| == 1 ==> evs == [evs[0]] && evs[0] == Stuck()[0];
  }

  lemma StuckIs(accounts: map<Address, Account>)
    requires accounts == map[0 := Account(5, [], map[])]
    ensures [Stuck()[0]] + Allocations([0], accounts) == Stuck()
  {
  }

  /** Its commit is the one that no restart finds. */
  lemma StuckHistory(s: State<int>)
    requires s.Valid() && s.env == Counter() && s.db.initial == map[] && s.history == [Stuck()]
    ensures Recover(Counter(), s.db.data) == MissingState
  {
    PendingThenAllocation();
    hide Run, Commits, Session, Committed;
    var w := Journal(Counter(), Commits(Counter(), 0, [Stuck()]));
    assert s.base == 0;
    assert w[..4] == w;
  }

  /**
   A block whose second transaction is no transaction leaves its first one pending,
   a genesis account commits it, and start-up fails.
   */
  method FailedBlockThenAccounts() returns (ok: bool, r: Recovered<int>)
    ensures !ok && r == MissingState
  {
    hide Run, After, Journal, Replay, Commits, FromBlock, StoppedAt, Stuck, State.Valid;
    var env := Counter();
    var db := new Database(map[]);
    var s := NewState(env, db);
    var accounts, root := map[0 := Account(5, [], map[])], 0;
    ok, root := s.ProcessBlock([[7], []], 0);
    ghost var evs := if ok then s.history[0] else s.events;
    assert evs[0..] == evs;
    StuckBlock(evs);
    StuckIs(accounts);
    root := s.CreateAccounts(accounts, [0]);
    assert [] + [Stuck()] == [Stuck()];
    StuckHistory(s);
    r := InitState(env, db);
  }

  // ----- what holds in every reachable state

  /** The pending lists of a node, in every reachable state. */
  lemma PendingLedger<A>(s: State<A>)
    requires s.Valid()
    ensures LedgerInvariant(s.env, s.was.Content()) && s.was.txIndex == |s.was.transactions| == |s.was.receipts|
    ensures s.was.ethState == Fold(s.env, s.statedb, s.events)
    ensures var rs := Reports(s.env, s.statedb, s.events);
            && |rs| == |s.was.receipts| && s.was.totalUsedGas == GasReported(rs)
            && forall i :: 0 <= i < |rs| ==> Records(s.env, s.was.transactions[i], s.was.receipts[i], rs[i])
  {
    hide Run, Fold, Reports, GasReported, Records, Recover, Replay, Journal, Commits, Committed;
    RunKeepsLedger(s.env, s.statedb, s.events);
    RunFolds(s.env, s.statedb, s.events);
    ReceiptsReport(s.env, s.statedb, s.events);
  }

  /**
   The gas used by what is pending and the gas left in the pool: never more than the
   supply, and exactly the supply if nothing was rejected and no calls were made.
   */
  lemma GasAccounted<A(!new)>(s: State<A>, ops: seq<Operation>)
    requires s.Valid() && s.Now() == Operated(s.env, s.base, ops)
    requires PaysFromPool(s.env) && forall i :: 0 <= i < |ops| ==> IsOperation(ops[i])
    ensures s.was.totalUsedGas + s.was.gp <= GAS_LIMIT
    ensures WithoutCalls(ops) == ops && AllApplied(s.env, s.statedb, s.events) ==>
              s.was.totalUsedGas + s.was.gp == GAS_LIMIT
  {
    hide Run, PaysFromPool, Operated, WithoutCalls, AllApplied, Recover, Replay, Journal, Commits, Committed;
    GasConserved(s.env, s.base, ops);
  }

  /**
   Two nodes that were started alike, one of which went through `ops` and the other
   through the same without the calls, hold the same accounts, pending lists and
   databases, unless a transaction found the pool short.
   */
  lemma CallsInvisible<A(!new)>(s: State<A>, s': State<A>, ops: seq<Operation>)
    requires s.Valid() && s'.Valid() && s.env == s'.env && PoolOnlyLimits(s.env)
    requires s.base == s'.base && s.db.initial == s'.db.initial
    requires s.Now() == Operated(s.env, s.base, ops) && s'.Now() == Operated(s.env, s.base, WithoutCalls(ops))
    requires Ample(s.Now()) && Ample(s'.Now())
    ensures s.statedb == s'.statedb && s.was.Content() == s'.was.Content() && s.db.data == s'.db.data
  {
    hide Run, SameButPools, PoolOnlyLimits, Recover, Replay, Journal, Commits, Committed, Operated, WithoutCalls,
      Enough;
    CallsLeftOut(s.env, s.base, ops);
    SameCommits(s.env, s.base, s.history, s'.history);
    CallsDoNotMatter(s.env, s.statedb, s.events, s'.events);
  }

  /** Every committed transaction is found under its hash, with its own receipt. */
  lemma CommittedFound<A(!new)>(s: State<A>, i: nat, j: nat)
    requires s.Valid() && Session(s.env, s.db.initial, s.base, Commits(s.env, s.base, s.history))
    requires i < |s.history| && j < |Commits(s.env, s.base, s.history)[i].txs|
    ensures var c := Commits(s.env, s.base, s.history)[i];
            var h := s.env.hash(c.txs[j]);
            && |c.receipts| == |c.txs| && c.receipts[j].txHash == h
            && TxKey(h) in s.db.data && s.db.data[TxKey(h)] == TxEntry(c.txs[j])
            && ReceiptKey(h) in s.db.data && s.db.data[ReceiptKey(h)] == ReceiptEntry(c.receipts[j])
  {
    hide Run, Recover, Commits, Committed, Journal, Replay;
    var cs := Commits(s.env, s.base, s.history);
    var n := 4 * |cs|;
    assert Journal(s.env, cs)[..n] == Journal(s.env, cs);
    assert s.db.data == After(s.env, s.db.initial, cs, n) && Matching(s.env, cs[i]) && FreshReceipts(cs);
    hide State.Valid, After;
    TxKept(s.env, s.db.initial, s.base, cs, n, i, j);
    ReceiptKept(s.env, s.db.initial, cs, n, i, j);
  }

  /** Every address of the map, once. */
  ghost predicate Covers(order: seq<Address>, accounts: map<Address, Account>)
  {
    && (forall i :: 0 <= i < |order| ==> order[i] in accounts)
    && (forall a :: a in accounts ==> a in order)
    && (forall i, j :: 0 <= i < j < |order| ==> order[i] != order[j])
  }

  function Allocations(order: seq<Address>, accounts: map<Address, Account>): seq<Event>
    requires forall i :: 0 <= i < |order| ==> order[i] in accounts
  {
    seq(|order|, i requires 0 <= i < |order| => AllocEvent(order[i], accounts[order[i]]))
  }

  lemma FoldOne<A>(env: Env<A>, base: A, events: seq<Event>, ev: Event)
    ensures Fold(env, base, events + [ev]) == Effect(env, Fold(env, base, events), ev)
  {
    assert (events + [ev])[..|events|] == events;
  }

  lemma NoAllocations<A>(env: Env<A>, base: A, accounts: map<Address, Account>)
    ensures Allocations([], accounts) == [] && Fold(env, base, []) == base
  {
  }

  lemma AllocationsStep(order: seq<Address>, accounts: map<Address, Account>, i: nat)
    requires (forall j :: 0 <= j < |order| ==> order[j] in accounts) && i < |order|
    ensures Allocations(order[..i + 1], accounts) ==
            Allocations(order[..i], accounts) + [AllocEvent(order[i], accounts[order[i]])]
  {
  }
}
