/**
 The bookkeeping of a chain of blocks, apart from the machinery that executes
 transactions. The libraries the source calls, the virtual machine, the account
 trie and RLP, are the functions of an `Env`; nothing is assumed of them beyond
 being functions, except where a predicate says so.
 */
module Ledger {
  import opened Wrappers

  type Hash = int
  type Address = int
  type Bytes = seq<int>

  datatype Tx = Tx(data: Bytes)

  datatype Log = Log(address: Address, data: Bytes)

  datatype Message = Message(from: Address, to: Option<Address>, nonce: nat, gas: nat, gasPrice: nat, data: Bytes)

  datatype Receipt = Receipt(postState: Hash, failed: bool, cumulativeGas: int, txHash: Hash, gasUsed: int,
                             contract: Option<Address>, logs: seq<Log>, bloom: int)

  /** What a block fixes for its transactions. */
  datatype Context = Context(blockHash: Hash, origin: Address, gasLimit: nat, gasPrice: nat)

  /**
   The result of applying a message: gas used and whether the execution failed, or
   an error that may leave its marks.
   */
  datatype Outcome<A> = Applied(post: A, gas: nat, failed: bool, pool: nat) | Rejected(post: A, pool: nat)

  datatype Account = Account(balance: nat, code: Bytes, storage: map<Hash, Hash>)

  /** The libraries, for account states of type A. */
  datatype Env<!A> = Env(
    empty: A,
    emptyTx: Tx,
    decode: Bytes -> Option<Tx>,
    hash: Tx -> Hash,
    message: Tx -> Option<Message>,
    prepare: (A, Hash, Hash, nat) -> A,
    apply: (A, Message, Context, nat) -> Outcome<A>,
    root: A -> Hash,
    settle: A -> A,
    logsOf: (A, Hash) -> seq<Log>,
    create: (Address, nat) -> Address,
    bloom: seq<Log> -> int,
    allocate: (A, Address, Account) -> A,
    commitRoot: A -> Hash,
    persist: A -> A
  )

  /** Everything that changes the write-ahead account state between two commits. */
  datatype Event = TxEvent(tx: Tx, msg: Message, index: nat, blockHash: Hash, pool: nat)
                 | AllocEvent(address: Address, account: Account)

  /** The write-ahead state as far as a commit is concerned. */
  datatype Pending<A> = Pending(accounts: A, txs: seq<Tx>, receipts: seq<Receipt>, logs: seq<Log>, gas: int)

  function Fresh<A>(base: A): Pending<A>
  {
    Pending(base, [], [], [], 0)
  }

  function ContextOf(msg: Message, blockHash: Hash): Context
  {
    Context(blockHash, msg.from, msg.gas, msg.gasPrice)
  }

  function OutcomeOf<A>(env: Env<A>, a: A, tx: Tx, msg: Message, index: nat, blockHash: Hash, pool: nat): Outcome<A>
  {
    env.apply(env.prepare(a, env.hash(tx), blockHash, index), msg, ContextOf(msg, blockHash), pool)
  }

  /** The receipt of an applied transaction, with the gas of the block so far. */
  function ReceiptOf<A>(env: Env<A>, tx: Tx, msg: Message, o: Outcome<A>, gasBefore: int): Receipt
    requires o.Applied?
  {
    var logs := env.logsOf(env.settle(o.post), env.hash(tx));
    Receipt(env.root(o.post), o.failed, gasBefore + o.gas, env.hash(tx), o.gas,
            if msg.to == None then Some(env.create(msg.from, msg.nonce)) else None, logs, env.bloom(logs))
  }

  /**
   One event: an applied transaction is recorded, a rejected one leaves what it
   leaves, an allocation only changes accounts.
   */
  function Step<A>(env: Env<A>, p: Pending<A>, ev: Event): Pending<A>
  {
    match ev
    case AllocEvent(address, account) => p.(accounts := env.allocate(p.accounts, address, account))
    case TxEvent(tx, msg, index, blockHash, pool) =>
      var o := OutcomeOf(env, p.accounts, tx, msg, index, blockHash, pool);
      if o.Rejected? then p.(accounts := o.post)
      else
        var r := ReceiptOf(env, tx, msg, o, p.gas);
        Pending(env.settle(o.post), p.txs + [tx], p.receipts + [r], p.logs + r.logs, p.gas + o.gas)
  }

  function Run<A>(env: Env<A>, base: A, events: seq<Event>): Pending<A>
  {
    if events == [] then Fresh(base)
    else Step(env, Run(env, base, events[..|events| - 1]), events[|events| - 1])
  }

  // ----- blocks

  /** A fresh write-ahead state's supply of gas. */
  const GAS_LIMIT: nat := 1000000000000000000

  /** The event is a transaction that is applied, and not rejected. */
  predicate Applies<A>(env: Env<A>, p: Pending<A>, ev: Event)
  {
    ev.TxEvent? && Result(env, p, ev).Applied?
  }

  function Result<A>(env: Env<A>, p: Pending<A>, ev: Event): Outcome<A>
    requires ev.TxEvent?
  {
    OutcomeOf(env, p.accounts, ev.tx, ev.msg, ev.index, ev.blockHash, ev.pool)
  }

  /** Bytes from which no transaction with a sender can be made. */
  predicate Undecodable<A>(env: Env<A>, bytes: Bytes)
  {
    env.decode(bytes).None? || env.message(env.decode(bytes).value).None?
  }

  /** The event that stands for the transaction at `index` of a block. */
  predicate IsEvent<A>(env: Env<A>, ev: Event, bytes: Bytes, index: nat, blockHash: Hash, pool: nat)
  {
    && !Undecodable(env, bytes)
    && var tx := env.decode(bytes).value;
       ev == TxEvent(tx, env.message(tx).value, index, blockHash, pool)
  }

  /** The gas pool behind these events, with `before` already pending in front of them. */
  function PoolOf<A>(env: Env<A>, base: A, before: seq<Event>, evs: seq<Event>, pool: nat): nat
  {
    if evs == [] || !evs[|evs| - 1].TxEvent? then pool
    else Result(env, Run(env, base, before + evs[..|evs| - 1]), evs[|evs| - 1]).pool
  }

  /**
   `evs` are the first transactions of a block, one event for each, in order, each
   with what the one before it left of the pool.
   */
  ghost predicate FromBlock<A>(env: Env<A>, base: A, before: seq<Event>, evs: seq<Event>, txs: seq<Bytes>,
                               blockHash: Hash, pool: nat)
  {
    && |evs| <= |txs|
    && forall k :: 0 <= k < |evs| ==>
         IsEvent(env, evs[k], txs[k], k, blockHash, PoolOf(env, base, before, evs[..k], pool))
  }

  /** The first `n` of these events are applied. */
  ghost predicate FirstApplied<A>(env: Env<A>, base: A, before: seq<Event>, evs: seq<Event>, n: nat)
    requires n <= |evs|
  {
    forall k :: 0 <= k < n ==> Applies(env, Run(env, base, before + evs[..k]), evs[k])
  }

  /** How a block stops: at bytes that are no transaction, or at a transaction that is rejected. */
  ghost predicate StoppedAt<A>(env: Env<A>, base: A, before: seq<Event>, evs: seq<Event>, txs: seq<Bytes>, f: nat)
  {
    && f < |txs|
    && if Undecodable(env, txs[f]) then |evs| == f && FirstApplied(env, base, before, evs, f)
       else |evs| == f + 1 && FirstApplied(env, base, before, evs, f) &&
            !Applies(env, Run(env, base, before + evs[..f]), evs[f])
  }

  lemma BlockStart<A>(env: Env<A>, base: A, before: seq<Event>, txs: seq<Bytes>, blockHash: Hash, pool: nat)
    ensures FromBlock(env, base, before, [], txs, blockHash, pool) && FirstApplied(env, base, before, [], 0)
    ensures PoolOf(env, base, before, [], pool) == pool
  {
  }

  /** One more transaction of the block. */
  lemma BlockStep<A>(env: Env<A>, base: A, before: seq<Event>, evs: seq<Event>, ev: Event, txs: seq<Bytes>,
                     blockHash: Hash, pool: nat)
    requires FromBlock(env, base, before, evs, txs, blockHash, pool) && |evs| < |txs|
    requires FirstApplied(env, base, before, evs, |evs|)
    requires IsEvent(env, ev, txs[|evs|], |evs|, blockHash, PoolOf(env, base, before, evs, pool))
    ensures FromBlock(env, base, before, evs + [ev], txs, blockHash, pool)
    ensures FirstApplied(env, base, before, evs + [ev], |evs|)
    ensures Applies(env, Run(env, base, before + evs), ev) ==> FirstApplied(env, base, before, evs + [ev], |evs| + 1)
    ensures PoolOf(env, base, before, evs + [ev], pool) == Result(env, Run(env, base, before + evs), ev).pool
  {
    hide Run, Undecodable, Result;
    var all := evs + [ev];
    forall k | 0 <= k <= |evs| ensures all[..k] == evs[..k] { }
    assert all[..|evs|] == evs == evs[..|evs|];
  }

  // ----- what every run keeps

  function AllLogs(rs: seq<Receipt>): seq<Log>
  {
    if rs == [] then [] else AllLogs(rs[..|rs| - 1]) + rs[|rs| - 1].logs
  }

  function GasUsed(rs: seq<Receipt>): int
  {
    if rs == [] then 0 else GasUsed(rs[..|rs| - 1]) + rs[|rs| - 1].gasUsed
  }

  /**
   The pending lists match entry by entry, the logs are those of the receipts in
   order, and every receipt's cumulative gas is the gas used up to and including it.
   */
  ghost predicate LedgerInvariant<A>(env: Env<A>, p: Pending<A>)
  {
    && |p.txs| == |p.receipts|
    && (forall i :: 0 <= i < |p.txs| ==> p.receipts[i].txHash == env.hash(p.txs[i]))
    && p.logs == AllLogs(p.receipts)
    && p.gas == GasUsed(p.receipts)
    && (forall i :: 0 <= i < |p.receipts| ==> p.receipts[i].cumulativeGas == GasUsed(p.receipts[..i + 1]))
  }

  lemma AppendReceipt(rs: seq<Receipt>, r: Receipt)
    ensures AllLogs(rs + [r]) == AllLogs(rs) + r.logs && GasUsed(rs + [r]) == GasUsed(rs) + r.gasUsed
    ensures forall i :: 0 <= i <= |rs| ==> (rs + [r])[..i] == rs[..i]
    ensures (rs + [r])[..|rs| + 1] == rs + [r]
  {
    assert (rs + [r])[..|rs|] == rs;
  }

  lemma StepKeepsLedger<A>(env: Env<A>, p: Pending<A>, ev: Event)
    requires LedgerInvariant(env, p)
    ensures LedgerInvariant(env, Step(env, p, ev))
  {
    hide AllLogs, GasUsed;
    if ev.TxEvent? {
      var o := OutcomeOf(env, p.accounts, ev.tx, ev.msg, ev.index, ev.blockHash, ev.pool);
      if o.Applied? {
        AppendReceipt(p.receipts, ReceiptOf(env, ev.tx, ev.msg, o, p.gas));
      }
    }
  }

  /** The ledger invariant holds in every reachable state. */
  lemma {:induction false} RunKeepsLedger<A>(env: Env<A>, base: A, events: seq<Event>)
    ensures LedgerInvariant(env, Run(env, base, events))
  {
    if events != [] {
      RunKeepsLedger(env, base, events[..|events| - 1]);
      StepKeepsLedger(env, Run(env, base, events[..|events| - 1]), events[|events| - 1]);
    }
  }

  lemma RunOne<A>(env: Env<A>, base: A, events: seq<Event>, ev: Event)
    ensures Run(env, base, events + [ev]) == Step(env, Run(env, base, events), ev)
  {
    assert (events + [ev])[..|events|] == events;
  }

  // ----- commits

  /** A commit as the database sees it. */
  datatype Commit<A> = Commit(post: A, txs: seq<Tx>, receipts: seq<Receipt>)

  function CommitOf<A>(p: Pending<A>): Commit<A>
  {
    Commit(p.accounts, p.txs, p.receipts)
  }

  /** A history is the list of events of each commit; the accounts after all of them. */
  function Committed<A>(env: Env<A>, base: A, history: seq<seq<Event>>): A
  {
    if history == [] then base
    else env.persist(Run(env, Committed(env, base, history[..|history| - 1]), history[|history| - 1]).accounts)
  }

  /** The commits of a history, in order. */
  function Commits<A>(env: Env<A>, base: A, history: seq<seq<Event>>): (cs: seq<Commit<A>>)
    ensures |cs| == |history|
  {
    if history == [] then []
    else
      var before := history[..|history| - 1];
      Commits(env, base, before) + [CommitOf(Run(env, Committed(env, base, before), history[|history| - 1]))]
  }

  /** All events of a history, one after the other. */
  function Flatten(history: seq<seq<Event>>): seq<Event>
  {
    if history == [] then [] else Flatten(history[..|history| - 1]) + history[|history| - 1]
  }

  /** Executing one event on accounts alone. */
  function Effect<A>(env: Env<A>, a: A, ev: Event): A
  {
    match ev
    case AllocEvent(address, account) => env.allocate(a, address, account)
    case TxEvent(tx, msg, index, blockHash, pool) =>
      var o := OutcomeOf(env, a, tx, msg, index, blockHash, pool);
      if o.Rejected? then o.post else env.settle(o.post)
  }

  function Fold<A>(env: Env<A>, base: A, events: seq<Event>): A
  {
    if events == [] then base
    else Effect(env, Fold(env, base, events[..|events| - 1]), events[|events| - 1])
  }

  lemma {:induction false} RunFolds<A>(env: Env<A>, base: A, events: seq<Event>)
    ensures Run(env, base, events).accounts == Fold(env, base, events)
  {
    if events != [] {
      RunFolds(env, base, events[..|events| - 1]);
    }
  }

  lemma {:induction false} FoldConcat<A>(env: Env<A>, base: A, a: seq<Event>, b: seq<Event>)
    ensures Fold(env, base, a + b) == Fold(env, Fold(env, base, a), b)
  {
    if b == [] {
      assert a + b == a;
    } else {
      assert (a + b)[..|a + b| - 1] == a + b[..|b| - 1];
      FoldConcat(env, base, a, b[..|b| - 1]);
    }
  }

  /**
   What a commit does to the accounts it stores, dropping empty ones, makes no
   difference to what is stored later.
   */
  ghost predicate CommitsTransparent<A(!new)>(env: Env<A>)
  {
    && (forall a: A :: env.persist(env.persist(a)) == env.persist(a))
    && (forall a: A, ev: Event :: env.persist(Effect(env, env.persist(a), ev)) == env.persist(Effect(env, a, ev)))
  }

  /** Storing the accounts in between does not change what is stored in the end. */
  lemma {:induction false} PersistLater<A(!new)>(env: Env<A>, a: A, events: seq<Event>)
    requires CommitsTransparent(env)
    ensures env.persist(Fold(env, env.persist(a), events)) == env.persist(Fold(env, a, events))
  {
    hide Effect;
    if events != [] {
      var before, ev := events[..|events| - 1], events[|events| - 1];
      PersistLater(env, a, before);
      var f, f' := Fold(env, a, before), Fold(env, env.persist(a), before);
      assert env.persist(Effect(env, f', ev)) == env.persist(Effect(env, env.persist(f'), ev));
      assert env.persist(Effect(env, f, ev)) == env.persist(Effect(env, env.persist(f), ev));
    }
  }

  /** The committed accounts are those stored when all events are executed without a commit in between. */
  ghost predicate FoldsOver<A>(env: Env<A>, base: A, history: seq<seq<Event>>)
  {
    history != [] ==> Committed(env, base, history) == env.persist(Fold(env, base, Flatten(history)))
  }

  lemma {:induction false} CommittedFolds<A(!new)>(env: Env<A>, base: A, history: seq<seq<Event>>)
    requires CommitsTransparent(env)
    ensures FoldsOver(env, base, history)
  {
    hide CommitsTransparent;
    if history != [] {
      var before, last := history[..|history| - 1], history[|history| - 1];
      CommittedFolds(env, base, before);
      RunFolds(env, Committed(env, base, before), last);
      FoldConcat(env, base, Flatten(before), last);
      if before != [] {
        PersistLater(env, Fold(env, base, Flatten(before)), last);
      }
    }
  }

  /**
   The committed accounts are the fold of all genesis allocations and transactions so
   far, whatever the commits were, from every start and over every history, exactly
   if a commit makes no difference to what later commits store.
   */
  lemma CommittedFoldsIff<A(!new)>(env: Env<A>)
    ensures CommitsTransparent(env) <==> forall base: A, history :: FoldsOver(env, base, history)
  {
    if CommitsTransparent(env) {
      forall base: A, history: seq<seq<Event>> ensures FoldsOver(env, base, history) {
        CommittedFolds(env, base, history);
      }
    }
    if forall base: A, history :: FoldsOver(env, base, history) {
      forall a: A, evs: seq<Event>
        ensures env.persist(Fold(env, env.persist(a), evs)) == env.persist(Fold(env, a, evs))
      {
        assert FoldsOver(env, a, [[], evs]);
        TwoCommits(env, a, evs);
      }
      forall a: A ensures env.persist(env.persist(a)) == env.persist(a) {
        assert Fold(env, a, []) == a && Fold(env, env.persist(a), []) == env.persist(a);
      }
      forall a: A, ev: Event
        ensures env.persist(Effect(env, env.persist(a), ev)) == env.persist(Effect(env, a, ev))
      {
        OneEvent(env, a, ev);
        OneEvent(env, env.persist(a), ev);
      }
    }
  }

  lemma OneEvent<A>(env: Env<A>, a: A, ev: Event)
    ensures Fold(env, a, [ev]) == Effect(env, a, ev)
  {
    assert [ev][..0] == [];
  }

  /** An empty commit, and one of these events. */
  lemma TwoCommits<A>(env: Env<A>, a: A, evs: seq<Event>)
    ensures Committed(env, a, [[], evs]) == env.persist(Fold(env, env.persist(a), evs))
    ensures Flatten([[], evs]) == evs
  {
    var empty: seq<seq<Event>> := [[]];
    assert [[], evs][..1] == empty && empty[..0] == [];
    RunFolds(env, env.persist(a), evs);
    assert Committed(env, a, empty) == env.persist(a);
    assert Flatten(empty) == [];
  }

  // ----- the gas pool

  /** Execution depends on the gas pool only when the pool cannot cover the gas the message brings. */
  ghost predicate PoolOnlyLimits<A(!new)>(env: Env<A>)
  {
    forall a: A, m: Message, c: Context, p: nat, q: nat :: p >= m.gas && q >= m.gas ==>
      Same(env.apply(a, m, c, p), env.apply(a, m, c, q))
  }

  /** The same result, whatever is left of the pool. */
  ghost predicate Same<A>(o: Outcome<A>, o': Outcome<A>)
  {
    && o.Applied? == o'.Applied?
    && o.post == o'.post
    && (o.Applied? ==> o.gas == o'.gas && o.failed == o'.failed)
  }

  /** Two lists of events that differ at most in the pools found, all of them large enough. */
  ghost predicate SameButPools(e: seq<Event>, e': seq<Event>)
  {
    && |e| == |e'|
    && forall i :: 0 <= i < |e| ==>
         || e[i] == e'[i]
         || (e[i].TxEvent? && e'[i].TxEvent? && e[i].(pool := e'[i].pool) == e'[i] &&
             e[i].pool >= e[i].msg.gas && e'[i].pool >= e[i].msg.gas)
  }

  /**
   Read-only calls share the gas pool with the transactions and change nothing
   else, so unless the pool runs out they do not matter.
   */
  lemma {:induction false} CallsDoNotMatter<A(!new)>(env: Env<A>, base: A, e: seq<Event>, e': seq<Event>)
    requires PoolOnlyLimits(env) && SameButPools(e, e')
    ensures Run(env, base, e) == Run(env, base, e')
  {
    if e != [] {
      var n := |e| - 1;
      assert SameButPools(e[..n], e'[..n]);
      assert SameButPools([e[n]], [e'[n]]);
      CallsDoNotMatter(env, base, e[..n], e'[..n]);
      hide PoolOnlyLimits, SameButPools, Step;
      PoolStep(env, Run(env, base, e[..n]), e[n], e'[n]);
    }
  }

  lemma PoolStep<A(!new)>(env: Env<A>, p: Pending<A>, x: Event, y: Event)
    requires PoolOnlyLimits(env) && SameButPools([x], [y])
    ensures Step(env, p, x) == Step(env, p, y)
  {
    assert [x][0] == x && [y][0] == y;
    if x != y {
      var pre := env.prepare(p.accounts, env.hash(x.tx), x.blockHash, x.index);
      assert Same(env.apply(pre, x.msg, ContextOf(x.msg, x.blockHash), x.pool),
                  env.apply(pre, x.msg, ContextOf(x.msg, x.blockHash), y.pool));
    }
  }

  /** No event finds the pool short of the gas its message brings. */
  ghost predicate Enough(evs: seq<Event>)
  {
    forall i :: 0 <= i < |evs| && evs[i].TxEvent? ==> evs[i].pool >= evs[i].msg.gas
  }

  /** The same block, taken up with different pools that both last, becomes the same events but for the pools. */
  lemma SameBlock<A>(env: Env<A>, base: A, before: seq<Event>, before': seq<Event>, evs: seq<Event>, evs': seq<Event>,
                     txs: seq<Bytes>, blockHash: Hash, pool: nat, pool': nat)
    requires FromBlock(env, base, before, evs, txs, blockHash, pool)
    requires FromBlock(env, base, before', evs', txs, blockHash, pool')
    requires |evs| == |evs'| && Enough(evs) && Enough(evs') && SameButPools(before, before')
    ensures SameButPools(before + evs, before' + evs')
  {
    hide PoolOf;
    forall k | 0 <= k < |evs| ensures evs[k].TxEvent? && evs'[k].TxEvent? && evs[k].(pool := evs'[k].pool) == evs'[k] {
      assert IsEvent(env, evs[k], txs[k], k, blockHash, PoolOf(env, base, before, evs[..k], pool));
      assert IsEvent(env, evs'[k], txs[k], k, blockHash, PoolOf(env, base, before', evs'[..k], pool'));
    }
  }

  /** Two histories that differ only in such pools. */
  ghost predicate SameHistories(h: seq<seq<Event>>, h': seq<seq<Event>>)
  {
    |h| == |h'| && forall i :: 0 <= i < |h| ==> SameButPools(h[i], h'[i])
  }

  lemma {:induction false} SameCommits<A(!new)>(env: Env<A>, base: A, h: seq<seq<Event>>, h': seq<seq<Event>>)
    requires PoolOnlyLimits(env) && SameHistories(h, h')
    ensures Commits(env, base, h) == Commits(env, base, h') && Committed(env, base, h) == Committed(env, base, h')
  {
    hide Run, SameButPools, PoolOnlyLimits;
    if h != [] {
      var n := |h| - 1;
      SameCommits(env, base, h[..n], h'[..n]);
      CallsDoNotMatter(env, Committed(env, base, h[..n]), h[n], h'[n]);
    }
  }

  // ----- whole runs, with and without calls

  /** What a node is asked to do: take up a block, create accounts, or answer a read-only call. */
  datatype Operation = BlockOp(txs: seq<Bytes>, blockHash: Hash) | AccountsOp(allocations: seq<Event>)
                     | CallOp(msg: Message)

  /** A node since it was started: the events of each commit, those not yet committed, and the gas pool. */
  datatype Node = Node(history: seq<seq<Event>>, events: seq<Event>, pool: nat)

  const START := Node([], [], GAS_LIMIT)

  function PendingOf<A>(env: Env<A>, base: A, n: Node): Pending<A>
  {
    Run(env, Committed(env, base, n.history), n.events)
  }

  function CommitNode(n: Node): Node
  {
    Node(n.history + [n.events], [], GAS_LIMIT)
  }

  /** The event of the transaction at `i`, taken up by the node. */
  function EventOf<A>(env: Env<A>, n: Node, txs: seq<Bytes>, blockHash: Hash, i: nat): Event
    requires i < |txs| && !Undecodable(env, txs[i])
  {
    var tx := env.decode(txs[i]).value;
    TxEvent(tx, env.message(tx).value, i, blockHash, n.pool)
  }

  function Took<A>(env: Env<A>, base: A, n: Node, ev: Event): Node
    requires ev.TxEvent?
  {
    n.(events := n.events + [ev], pool := Result(env, PendingOf(env, base, n), ev).pool)
  }

  /** A block from the transaction at `i` on. */
  function TakeBlock<A>(env: Env<A>, base: A, n: Node, txs: seq<Bytes>, blockHash: Hash, i: nat): Node
    requires i <= |txs|
    decreases |txs| - i
  {
    if i == |txs| then CommitNode(n)
    else if Undecodable(env, txs[i]) then n
    else
      var ev := EventOf(env, n, txs, blockHash, i);
      var n' := Took(env, base, n, ev);
      if Applies(env, PendingOf(env, base, n), ev) then TakeBlock(env, base, n', txs, blockHash, i + 1) else n'
  }

  function Operate<A>(env: Env<A>, base: A, n: Node, op: Operation): Node
  {
    match op
    case BlockOp(txs, blockHash) => TakeBlock(env, base, n, txs, blockHash, 0)
    case AccountsOp(allocations) => CommitNode(n.(events := n.events + allocations))
    case CallOp(msg) =>
      n.(pool := env.apply(PendingOf(env, base, n).accounts, msg, Context(0, msg.from, 0, msg.gasPrice), n.pool).pool)
  }

  function Operated<A>(env: Env<A>, base: A, ops: seq<Operation>): Node
  {
    if ops == [] then START
    else Operate(env, base, Operated(env, base, ops[..|ops| - 1]), ops[|ops| - 1])
  }

  function WithoutCalls(ops: seq<Operation>): seq<Operation>
  {
    if ops == [] then []
    else
      var last := ops[|ops| - 1];
      WithoutCalls(ops[..|ops| - 1]) + if last.CallOp? then [] else [last]
  }

  /** Every transaction that was run found gas enough in the pool. */
  ghost predicate Ample(n: Node)
  {
    Enough(n.events) && forall i :: 0 <= i < |n.history| ==> Enough(n.history[i])
  }

  /** The same but for the pools. */
  ghost predicate SameNodes(n: Node, n': Node)
  {
    SameHistories(n.history, n'.history) && SameButPools(n.events, n'.events)
  }

  lemma SamePending<A(!new)>(env: Env<A>, base: A, n: Node, n': Node)
    requires PoolOnlyLimits(env) && SameNodes(n, n')
    ensures PendingOf(env, base, n) == PendingOf(env, base, n')
  {
    hide SameButPools, PoolOnlyLimits, Run, Commits, Committed;
    SameCommits(env, base, n.history, n'.history);
    CallsDoNotMatter(env, Committed(env, base, n.history), n.events, n'.events);
  }

  lemma AmplePrefix(n: Node, more: seq<Event>)
    requires Enough(n.events + more) && forall i :: 0 <= i < |n.history| ==> Enough(n.history[i])
    ensures Ample(n)
  {
    forall i | 0 <= i < |n.events| && n.events[i].TxEvent? ensures n.events[i].pool >= n.events[i].msg.gas {
      assert (n.events + more)[i] == n.events[i];
    }
  }

  lemma AmpleCommit(n: Node)
    requires Ample(CommitNode(n))
    ensures Ample(n)
  {
    hide Enough;
    var h := CommitNode(n).history;
    assert h[|n.history|] == n.events;
    assert forall i :: 0 <= i < |n.history| ==> h[i] == n.history[i];
  }

  /** A block that leaves a node ample found it so. */
  lemma {:induction false} AmpleBlock<A>(env: Env<A>, base: A, n: Node, txs: seq<Bytes>, blockHash: Hash, i: nat)
    requires i <= |txs| && Ample(TakeBlock(env, base, n, txs, blockHash, i))
    ensures Ample(n)
    decreases |txs| - i
  {
    hide Applies, PendingOf, Result, Undecodable, Enough;
    if i == |txs| {
      AmpleCommit(n);
    } else if !Undecodable(env, txs[i]) {
      var ev := EventOf(env, n, txs, blockHash, i);
      if Applies(env, PendingOf(env, base, n), ev) {
        AmpleBlock(env, base, Took(env, base, n, ev), txs, blockHash, i + 1);
      }
      AmplePrefix(n, [ev]);
    }
  }

  /** The same transaction, taken up by nodes that differ only in their pools, both of them ample. */
  lemma SameTook<A(!new)>(env: Env<A>, base: A, n: Node, n': Node, ev: Event, ev': Event)
    requires PoolOnlyLimits(env) && SameNodes(n, n')
    requires ev.TxEvent? && ev'.TxEvent? && ev.(pool := ev'.pool) == ev'
    requires ev.pool >= ev.msg.gas && ev'.pool >= ev'.msg.gas
    ensures SameNodes(Took(env, base, n, ev), Took(env, base, n', ev'))
    ensures Applies(env, PendingOf(env, base, n), ev) <==> Applies(env, PendingOf(env, base, n'), ev')
  {
    SamePending(env, base, n, n');
    var p := PendingOf(env, base, n);
    hide PendingOf;
    var pre := env.prepare(p.accounts, env.hash(ev.tx), ev.blockHash, ev.index);
    assert Same(env.apply(pre, ev.msg, ContextOf(ev.msg, ev.blockHash), ev.pool),
                env.apply(pre, ev.msg, ContextOf(ev.msg, ev.blockHash), ev'.pool));
    hide PoolOnlyLimits;
    var e, e' := n.events + [ev], n'.events + [ev'];
    assert SameButPools(e, e');
  }

  lemma LastEnough(evs: seq<Event>, ev: Event)
    requires Enough(evs + [ev]) && ev.TxEvent?
    ensures ev.pool >= ev.msg.gas
  {
    assert (evs + [ev])[|evs|] == ev;
  }

  lemma {:induction false} SameTakes<A(!new)>(env: Env<A>, base: A, n: Node, n': Node, txs: seq<Bytes>,
                                              blockHash: Hash, i: nat)
    requires PoolOnlyLimits(env) && SameNodes(n, n') && i <= |txs|
    requires Ample(TakeBlock(env, base, n, txs, blockHash, i)) && Ample(TakeBlock(env, base, n', txs, blockHash, i))
    ensures SameNodes(TakeBlock(env, base, n, txs, blockHash, i), TakeBlock(env, base, n', txs, blockHash, i))
    decreases |txs| - i
  {
    hide Applies, PendingOf, Result, Undecodable, Enough, PoolOnlyLimits, SameButPools;
    if i == |txs| {
      SameCommitted(n, n');
    } else if !Undecodable(env, txs[i]) {
      var ev, ev' := EventOf(env, n, txs, blockHash, i), EventOf(env, n', txs, blockHash, i);
      if Applies(env, PendingOf(env, base, n), ev) {
        AmpleBlock(env, base, Took(env, base, n, ev), txs, blockHash, i + 1);
      }
      if Applies(env, PendingOf(env, base, n'), ev') {
        AmpleBlock(env, base, Took(env, base, n', ev'), txs, blockHash, i + 1);
      }
      LastEnough(n.events, ev);
      LastEnough(n'.events, ev');
      SameTook(env, base, n, n', ev, ev');
      if Applies(env, PendingOf(env, base, n), ev) {
        SameTakes(env, base, Took(env, base, n, ev), Took(env, base, n', ev'), txs, blockHash, i + 1);
      }
    }
  }

  lemma SameCommitted(n: Node, n': Node)
    requires SameNodes(n, n')
    ensures SameNodes(CommitNode(n), CommitNode(n'))
  {
    assert SameButPools([], []);
    hide SameButPools;
  }

  /**
   A node that answered calls between its blocks and allocations, and one that did
   not: the same events, block by block, but for the pools they found, as long as no
   transaction found the pool short.
   */
  lemma {:induction false} CallsLeftOut<A(!new)>(env: Env<A>, base: A, ops: seq<Operation>)
    requires PoolOnlyLimits(env)
    requires Ample(Operated(env, base, ops)) && Ample(Operated(env, base, WithoutCalls(ops)))
    ensures SameNodes(Operated(env, base, ops), Operated(env, base, WithoutCalls(ops)))
  {
    hide PendingOf, Enough, PoolOnlyLimits, TakeBlock;
    if ops != [] {
      var before, op := ops[..|ops| - 1], ops[|ops| - 1];
      var n, n' := Operated(env, base, before), Operated(env, base, WithoutCalls(before));
      if op.CallOp? {
        assert WithoutCalls(ops) == WithoutCalls(before);
        CallsLeftOut(env, base, before);
      } else {
        assert WithoutCalls(ops)[..|WithoutCalls(before)|] == WithoutCalls(before);
        AmpleOperate(env, base, n, op);
        AmpleOperate(env, base, n', op);
        CallsLeftOut(env, base, before);
        SameOperate(env, base, n, n', op);
      }
    }
  }

  lemma AmpleOperate<A>(env: Env<A>, base: A, n: Node, op: Operation)
    requires Ample(Operate(env, base, n, op))
    ensures Ample(n)
  {
    hide PendingOf, Enough, TakeBlock;
    match op
    case BlockOp(txs, blockHash) => AmpleBlock(env, base, n, txs, blockHash, 0);
    case AccountsOp(allocations) =>
      AmpleCommit(n.(events := n.events + allocations));
      AmplePrefix(n, allocations);
    case CallOp(msg) =>
  }

  lemma SameOperate<A(!new)>(env: Env<A>, base: A, n: Node, n': Node, op: Operation)
    requires PoolOnlyLimits(env) && SameNodes(n, n') && !op.CallOp?
    requires Ample(Operate(env, base, n, op)) && Ample(Operate(env, base, n', op))
    ensures SameNodes(Operate(env, base, n, op), Operate(env, base, n', op))
  {
    hide PendingOf, Enough, PoolOnlyLimits, TakeBlock;
    match op
    case BlockOp(txs, blockHash) => SameTakes(env, base, n, n', txs, blockHash, 0);
    case AccountsOp(allocations) =>
      var m, m' := n.(events := n.events + allocations), n'.(events := n'.events + allocations);
      assert SameButPools(m.events, m'.events);
      SameCommitted(m, m');
  }
}
