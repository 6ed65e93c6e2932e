/**
 What the receipts of a run record is what the virtual machine reported, and the gas
 they record comes out of the pool.
 */
module Gas {
  import opened Wrappers
  import opened Ledger

  // ----- receipts and reports

  /** A transaction that was applied, and what the virtual machine reported of it. */
  datatype Report<A> = Report(ev: Event, outcome: Outcome<A>)

  /** The reports of a run, in order, from executing its events on accounts alone. */
  function Reports<A>(env: Env<A>, base: A, events: seq<Event>): (rs: seq<Report<A>>)
    ensures forall i :: 0 <= i < |rs| ==> rs[i].ev.TxEvent? && rs[i].outcome.Applied?
  {
    if events == [] then []
    else
      var before, ev := events[..|events| - 1], events[|events| - 1];
      Reports(env, base, before) +
      match ev
      case AllocEvent(_, _) => []
      case TxEvent(tx, msg, index, blockHash, pool) =>
        var o := OutcomeOf(env, Fold(env, base, before), tx, msg, index, blockHash, pool);
        if o.Applied? then [Report(ev, o)] else []
  }

  function GasReported<A>(rs: seq<Report<A>>): nat
    requires forall i :: 0 <= i < |rs| ==> rs[i].outcome.Applied?
  {
    if rs == [] then 0 else GasReported(rs[..|rs| - 1]) + rs[|rs| - 1].outcome.gas
  }

  /** The receipt says of the transaction what was reported. */
  ghost predicate Records<A>(env: Env<A>, tx: Tx, r: Receipt, rep: Report<A>)
    requires rep.ev.TxEvent? && rep.outcome.Applied?
  {
    var o, msg, h := rep.outcome, rep.ev.msg, env.hash(tx);
    && tx == rep.ev.tx && r.txHash == h
    && r.gasUsed == o.gas && r.failed == o.failed
    && r.postState == env.root(o.post)
    && r.logs == env.logsOf(env.settle(o.post), h) && r.bloom == env.bloom(r.logs)
    && r.contract == (if msg.to == None then Some(env.create(msg.from, msg.nonce)) else None)
  }

  /**
   In every run the transactions and receipts are those of the reports, one for one
   and in order, and the gas used is the sum of what was reported.
   */
  lemma {:induction false} ReceiptsReport<A>(env: Env<A>, base: A, events: seq<Event>)
    ensures var p, rs := Run(env, base, events), Reports(env, base, events);
            && |p.txs| == |p.receipts| == |rs|
            && (forall i :: 0 <= i < |rs| ==> Records(env, p.txs[i], p.receipts[i], rs[i]))
            && p.gas == GasReported(rs) == GasUsed(p.receipts)
  {
    hide GasUsed, LedgerInvariant;
    if events == [] {
      NoGas();
    } else {
      var before, ev := events[..|events| - 1], events[|events| - 1];
      ReceiptsReport(env, base, before);
      RunFolds(env, base, before);
      ReportStep(env, Run(env, base, before), Reports(env, base, before), ev);
    }
  }

  lemma NoGas()
    ensures GasUsed([]) == 0
  {
  }

  lemma ReportStep<A>(env: Env<A>, p: Pending<A>, rs: seq<Report<A>>, ev: Event)
    requires forall i :: 0 <= i < |rs| ==> rs[i].ev.TxEvent? && rs[i].outcome.Applied?
    requires |p.txs| == |p.receipts| == |rs| && p.gas == GasReported(rs) == GasUsed(p.receipts)
    requires forall i :: 0 <= i < |rs| ==> Records(env, p.txs[i], p.receipts[i], rs[i])
    ensures var p' := Step(env, p, ev);
            var more := match ev
                        case AllocEvent(_, _) => []
                        case TxEvent(tx, msg, index, blockHash, pool) =>
                          var o := OutcomeOf(env, p.accounts, tx, msg, index, blockHash, pool);
                          if o.Applied? then [Report(ev, o)] else [];
            var rs' := rs + more;
            && |p'.txs| == |p'.receipts| == |rs'|
            && (forall i :: 0 <= i < |rs'| ==> Records(env, p'.txs[i], p'.receipts[i], rs'[i]))
            && p'.gas == GasReported(rs') == GasUsed(p'.receipts)
  {
    hide GasUsed, OutcomeOf;
    match ev
    case AllocEvent(_, _) => assert rs + [] == rs;
    case TxEvent(tx, msg, index, blockHash, pool) =>
      var o := OutcomeOf(env, p.accounts, tx, msg, index, blockHash, pool);
      if o.Applied? {
        AppendReceipt(p.receipts, ReceiptOf(env, tx, msg, o, p.gas));
        assert (rs + [Report(ev, o)])[..|rs|] == rs;
      } else {
        assert rs + [] == rs;
      }
  }

  // ----- what the libraries are asked, and when

  /** What a virtual machine was asked to do. */
  datatype Request = Prepare(hash: Hash, blockHash: Hash, index: nat) | Apply(msg: Message, context: Context, pool: nat)
                   | Settle

  /** Libraries that do nothing but remember what they were asked, and apply or reject every message. */
  function Recorder(ok: bool): Env<seq<Request>>
  {
    Env([], Tx([]),
        b => if b == [] then None else Some(Tx(b)),
        (t: Tx) => |t.data|,
        (t: Tx) => Some(Message(0, Some(1), 0, 0, 0, t.data)),
        (a, h, b, i) => a + [Prepare(h, b, i)],
        (a, m, c, p) => var b := a + [Apply(m, c, p)]; if ok then Applied(b, 0, false, p) else Rejected(b, p),
        a => |a|,
        a => a + [Settle],
        (a, h) => [Log(|a|, [h])],
        (a, n) => a,
        l => |l|,
        (a, x, acc) => a,
        a => |a|,
        a => a)
  }

  /**
   A transaction is announced by hash, block and index, then applied with its block,
   its sender, its own gas limit and price, and the pool found; the root is read
   before the state is settled and the logs after. If it is rejected, its marks stay
   and nothing more is asked or recorded.
   */
  lemma Requested(p: Pending<seq<Request>>, tx: Tx, msg: Message, index: nat, blockHash: Hash, pool: nat, ok: bool)
    ensures var a, h := p.accounts, |tx.data|;
            var p' := Step(Recorder(ok), p, TxEvent(tx, msg, index, blockHash, pool));
            var asked := a + [Prepare(h, blockHash, index),
                              Apply(msg, Context(blockHash, msg.from, msg.gas, msg.gasPrice), pool)];
            if ok then
              && p'.accounts == asked + [Settle] && |p'.receipts| == |p.receipts| + 1
              && p'.receipts[|p.receipts|].postState == |a| + 2
              && p'.receipts[|p.receipts|].logs == [Log(|a| + 3, [h])]
            else p' == p.(accounts := asked)
  {
    var a := p.accounts;
    var x, y := Prepare(|tx.data|, blockHash, index), Apply(msg, ContextOf(msg, blockHash), pool);
    assert (a + [x]) + [y] == a + [x, y];
  }

  // ----- what a block becomes

  /** The events since the last commit before a block, committed by it or still pending. */
  function Since(n: Node, n': Node): seq<Event>
    requires |n.history| <= |n'.history|
  {
    if |n'.history| > |n.history| then n'.history[|n.history|] else n'.events
  }

  /** The event of the transaction at `index` of the block. */
  predicate Carries<A>(env: Env<A>, ev: Event, bytes: Bytes, index: nat, blockHash: Hash)
  {
    && ev.TxEvent? && ev.index == index && ev.blockHash == blockHash
    && env.decode(bytes) == Some(ev.tx) && env.message(ev.tx) == Some(ev.msg)
  }

  /**
   From the transaction at `i` on a block becomes one event for each transaction, in
   order, each with its position in the block; behind what was pending, and all in
   one commit if the block is gone through.
   */
  lemma {:induction false} BlockTaken<A>(env: Env<A>, base: A, n: Node, txs: seq<Bytes>, blockHash: Hash, i: nat)
    requires i <= |txs|
    ensures var n' := TakeBlock(env, base, n, txs, blockHash, i);
            && n.history <= n'.history && |n'.history| <= |n.history| + 1
            && var all := Since(n, n');
               && n.events <= all && |all| - |n.events| <= |txs| - i
               && (forall k :: |n.events| <= k < |all| ==>
                    Carries(env, all[k], txs[i + k - |n.events|], i + k - |n.events|, blockHash))
               && (n'.history != n.history ==> n'.events == [] && |all| - |n.events| == |txs| - i)
    decreases |txs| - i
  {
    hide PendingOf, Applies, Result;
    if i < |txs| && !Undecodable(env, txs[i]) {
      var ev := EventOf(env, n, txs, blockHash, i);
      var m := Took(env, base, n, ev);
      assert Carries(env, ev, txs[i], i, blockHash);
      hide Undecodable, Carries, EventOf;
      assert m.events[|n.events|] == ev;
      if Applies(env, PendingOf(env, base, n), ev) {
        BlockTaken(env, base, m, txs, blockHash, i + 1);
        var all := Since(m, TakeBlock(env, base, m, txs, blockHash, i + 1));
        assert all[|n.events|] == m.events[|n.events|];
        forall k | |n.events| <= k < |all|
          ensures Carries(env, all[k], txs[i + k - |n.events|], i + k - |n.events|, blockHash)
        {
          if k > |n.events| {
            assert Carries(env, all[k], txs[i + 1 + k - |m.events|], i + 1 + k - |m.events|, blockHash);
          }
        }
      }
    }
  }

  // ----- the pool

  /** An applied message takes the gas it reports from the pool, a rejected one at most adds nothing. */
  ghost predicate PaysFromPool<A(!new)>(env: Env<A>)
  {
    forall a: A, m: Message, c: Context, p: nat ::
      var o := env.apply(a, m, c, p);
      if o.Applied? then o.gas + o.pool == p else o.pool <= p
  }

  ghost predicate AllApplied<A>(env: Env<A>, base: A, evs: seq<Event>)
  {
    forall k :: 0 <= k < |evs| ==> Applies(env, Run(env, base, evs[..k]), evs[k])
  }

  /** The pool and what is pending never come to more than the supply, nor does any commit. */
  ghost predicate WithinSupply<A>(env: Env<A>, base: A, n: Node)
  {
    && PendingOf(env, base, n).gas + n.pool <= GAS_LIMIT
    && forall i :: 0 <= i < |n.history| ==>
         Run(env, Committed(env, base, n.history[..i]), n.history[i]).gas <= GAS_LIMIT
  }

  /** They are the supply, if every pending transaction was applied. */
  ghost predicate Balanced<A>(env: Env<A>, base: A, n: Node)
  {
    AllApplied(env, Committed(env, base, n.history), n.events) ==> PendingOf(env, base, n).gas + n.pool == GAS_LIMIT
  }

  lemma CommitBalances<A>(env: Env<A>, base: A, n: Node)
    requires WithinSupply(env, base, n)
    ensures WithinSupply(env, base, CommitNode(n)) && Balanced(env, base, CommitNode(n))
  {
    hide Committed;
    var h := n.history;
    forall i | 0 <= i <= |h| ensures (h + [n.events])[..i] == h[..i] { }
    assert h[..|h|] == h;
  }

  lemma TookPays<A(!new)>(env: Env<A>, base: A, n: Node, ev: Event)
    requires PaysFromPool(env) && ev.TxEvent? && ev.pool == n.pool && WithinSupply(env, base, n)
    ensures var n' := Took(env, base, n, ev);
            WithinSupply(env, base, n') && (Balanced(env, base, n) ==> Balanced(env, base, n'))
  {
    hide Committed;
    var b := Committed(env, base, n.history);
    RunOne(env, b, n.events, ev);
    hide Run;
    var all := n.events + [ev];
    assert all[..|n.events|] == n.events && all[|n.events|] == ev;
    if AllApplied(env, b, all) {
      assert Applies(env, Run(env, b, n.events), ev);
      AppliedPrefix(env, b, n.events, ev);
    }
  }

  lemma AppliedPrefix<A>(env: Env<A>, base: A, evs: seq<Event>, ev: Event)
    requires AllApplied(env, base, evs + [ev])
    ensures AllApplied(env, base, evs)
  {
    hide Run, Applies;
    var all := evs + [ev];
    forall k | 0 <= k < |evs| ensures Applies(env, Run(env, base, evs[..k]), evs[k]) {
      assert all[..k] == evs[..k] && all[k] == evs[k];
    }
  }

  lemma {:induction false} BlockPays<A(!new)>(env: Env<A>, base: A, n: Node, txs: seq<Bytes>, blockHash: Hash, i: nat)
    requires PaysFromPool(env) && i <= |txs| && WithinSupply(env, base, n)
    ensures var n' := TakeBlock(env, base, n, txs, blockHash, i);
            WithinSupply(env, base, n') && (Balanced(env, base, n) ==> Balanced(env, base, n'))
    decreases |txs| - i
  {
    hide WithinSupply, Balanced, PaysFromPool, PendingOf, Applies, Undecodable, Result;
    if i == |txs| {
      CommitBalances(env, base, n);
    } else if !Undecodable(env, txs[i]) {
      var ev := EventOf(env, n, txs, blockHash, i);
      TookPays(env, base, n, ev);
      if Applies(env, PendingOf(env, base, n), ev) {
        BlockPays(env, base, Took(env, base, n, ev), txs, blockHash, i + 1);
      }
    }
  }

  /** Genesis allocations are no transactions. */
  predicate IsOperation(op: Operation)
  {
    op.AccountsOp? ==> forall i :: 0 <= i < |op.allocations| ==> op.allocations[i].AllocEvent?
  }

  lemma {:induction false} AllocationsAreFree<A>(env: Env<A>, base: A, evs: seq<Event>, allocations: seq<Event>)
    requires forall i :: 0 <= i < |allocations| ==> allocations[i].AllocEvent?
    ensures Run(env, base, evs + allocations).gas == Run(env, base, evs).gas
    decreases |allocations|
  {
    if allocations == [] {
      assert evs + allocations == evs;
    } else {
      var m := |allocations| - 1;
      AllocationsAreFree(env, base, evs, allocations[..m]);
      assert evs + allocations == (evs + allocations[..m]) + [allocations[m]];
      RunOne(env, base, evs + allocations[..m], allocations[m]);
      hide Run;
    }
  }

  /**
   Over every run of blocks, failing ones included, allocations and calls: no commit
   uses more gas than the supply, and the gas pending and the gas in the pool come to
   no more than it. Without calls they come to exactly that as long as no transaction
   was rejected.
   */
  lemma {:induction false} GasConserved<A(!new)>(env: Env<A>, base: A, ops: seq<Operation>)
    requires PaysFromPool(env) && forall i :: 0 <= i < |ops| ==> IsOperation(ops[i])
    ensures WithinSupply(env, base, Operated(env, base, ops))
    ensures WithoutCalls(ops) == ops ==> Balanced(env, base, Operated(env, base, ops))
    decreases |ops|
  {
    hide WithinSupply, Balanced, PaysFromPool, TakeBlock, PendingOf;
    if ops == [] {
      StartBalanced(env, base);
    } else {
      var before, op := ops[..|ops| - 1], ops[|ops| - 1];
      var n := Operated(env, base, before);
      GasConserved(env, base, before);
      FewerCalls(before, op);
      assert before + [op] == ops;
      match op
      case CallOp(msg) => CallPays(env, base, n, msg);
      case AccountsOp(allocations) =>
        AllocationsPay(env, base, n, allocations);
        CommitBalances(env, base, n.(events := n.events + allocations));
      case BlockOp(txs, blockHash) =>
        BlockPays(env, base, n, txs, blockHash, 0);
    }
  }

  lemma StartBalanced<A>(env: Env<A>, base: A)
    ensures WithinSupply(env, base, START) && Balanced(env, base, START)
  {
  }

  lemma FewerCalls(before: seq<Operation>, op: Operation)
    ensures WithoutCalls(before + [op]) == before + [op] ==> !op.CallOp? && WithoutCalls(before) == before
  {
    assert (before + [op])[..|before|] == before;
    NoMore(before);
  }

  lemma {:induction false} NoMore(ops: seq<Operation>)
    ensures |WithoutCalls(ops)| <= |ops|
  {
    if ops != [] { NoMore(ops[..|ops| - 1]); }
  }

  lemma CallPays<A(!new)>(env: Env<A>, base: A, n: Node, msg: Message)
    requires PaysFromPool(env) && WithinSupply(env, base, n)
    ensures WithinSupply(env, base, Operate(env, base, n, CallOp(msg)))
  {
    hide Run, Committed;
    var o := env.apply(PendingOf(env, base, n).accounts, msg, Context(0, msg.from, 0, msg.gasPrice), n.pool);
    assert o.pool <= n.pool;
  }

  lemma AllocationsPay<A>(env: Env<A>, base: A, n: Node, allocations: seq<Event>)
    requires WithinSupply(env, base, n) && forall i :: 0 <= i < |allocations| ==> allocations[i].AllocEvent?
    ensures WithinSupply(env, base, n.(events := n.events + allocations))
  {
    hide Run, Committed;
    AllocationsAreFree(env, Committed(env, base, n.history), n.events, allocations);
  }
}
