/**
 The database, the four writes of a commit, and what the node finds when it starts
 again after a crash between any two of them.
 */
module Recovery {
  import opened Wrappers
  import opened Ledger

  /** The keys of the database; the kinds never meet, since they differ in prefix or are hashes of different things. */
  datatype Key = HeadKey | TxKey(h: Hash) | ReceiptKey(h: Hash) | NodeKey(h: Hash)

  datatype Entry<A> = HeadEntry(h: Hash) | TxEntry(tx: Tx) | ReceiptEntry(r: Receipt) | StateEntry(a: A)

  /** One write: a single put or a whole batch, all or nothing. */
  type Write<A> = map<Key, Entry<A>>

  function Replay<A>(data: map<Key, Entry<A>>, writes: seq<Write<A>>): map<Key, Entry<A>>
  {
    if writes == [] then data else Replay(data, writes[..|writes| - 1]) + writes[|writes| - 1]
  }

  // ----- the writes of a commit

  function TxBatch<A>(env: Env<A>, txs: seq<Tx>): Write<A>
  {
    if txs == [] then map[]
    else TxBatch(env, txs[..|txs| - 1])[TxKey(env.hash(txs[|txs| - 1])) := TxEntry(txs[|txs| - 1])]
  }

  function ReceiptBatch<A>(rs: seq<Receipt>): Write<A>
  {
    if rs == [] then map[]
    else ReceiptBatch(rs[..|rs| - 1])[ReceiptKey(rs[|rs| - 1].txHash) := ReceiptEntry(rs[|rs| - 1])]
  }

  function HeadOf<A>(env: Env<A>, c: Commit<A>): Hash
  {
    env.hash(if c.txs == [] then env.emptyTx else c.txs[|c.txs| - 1])
  }

  /** State, head, transactions, receipts, in this order. */
  function WritesOf<A>(env: Env<A>, c: Commit<A>): seq<Write<A>>
  {
    [map[NodeKey(env.commitRoot(c.post)) := StateEntry(env.persist(c.post))],
     map[HeadKey := HeadEntry(HeadOf(env, c))],
     TxBatch(env, c.txs),
     ReceiptBatch(c.receipts)]
  }

  function Journal<A>(env: Env<A>, cs: seq<Commit<A>>): (w: seq<Write<A>>)
    ensures |w| == 4 * |cs|
  {
    if cs == [] then [] else Journal(env, cs[..|cs| - 1]) + WritesOf(env, cs[|cs| - 1])
  }

  // ----- starting up

  datatype Recovered<A> = Loaded(a: A) | MissingReceipt | MissingState

  /** `InitState`: the head's receipt names the state to load; without a head the node starts empty. */
  function Recover<A>(env: Env<A>, data: map<Key, Entry<A>>): Recovered<A>
  {
    if HeadKey !in data || !data[HeadKey].HeadEntry? then Loaded(env.empty)
    else
      var k := ReceiptKey(data[HeadKey].h);
      if k !in data || !data[k].ReceiptEntry? then MissingReceipt
      else
        var n := NodeKey(data[k].r.postState);
        if n !in data || !data[n].StateEntry? then MissingState else Loaded(data[n].a)
  }

  // ----- what the batches hold

  lemma {:induction false} TxBatchKeys<A>(env: Env<A>, txs: seq<Tx>)
    ensures forall k :: k in TxBatch(env, txs) <==> k.TxKey? && exists i :: 0 <= i < |txs| && k.h == env.hash(txs[i])
    ensures forall k :: k in TxBatch(env, txs) ==> TxBatch(env, txs)[k].TxEntry?
  {
    if txs != [] {
      var n := |txs| - 1;
      TxBatchKeys(env, txs[..n]);
      assert txs == txs[..n] + [txs[n]];
    }
  }

  ghost predicate DistinctHashes<A>(env: Env<A>, txs: seq<Tx>)
  {
    forall i, j :: 0 <= i < j < |txs| ==> env.hash(txs[i]) != env.hash(txs[j])
  }

  /** Every transaction of a block is found under its hash. */
  lemma {:induction false} TxBatchFinds<A>(env: Env<A>, txs: seq<Tx>, i: nat)
    requires DistinctHashes(env, txs) && i < |txs|
    ensures var k := TxKey(env.hash(txs[i])); k in TxBatch(env, txs) && TxBatch(env, txs)[k] == TxEntry(txs[i])
  {
    var n := |txs| - 1;
    if i < n {
      assert txs[..n][i] == txs[i];
      TxBatchFinds(env, txs[..n], i);
    }
  }

  lemma {:induction false} ReceiptBatchKeys<A>(rs: seq<Receipt>)
    ensures forall k :: k in ReceiptBatch<A>(rs) <==> k.ReceiptKey? && exists i :: 0 <= i < |rs| && k.h == rs[i].txHash
    ensures forall k :: k in ReceiptBatch<A>(rs) ==> ReceiptBatch<A>(rs)[k].ReceiptEntry?
  {
    if rs != [] {
      var n := |rs| - 1;
      ReceiptBatchKeys<A>(rs[..n]);
      assert rs == rs[..n] + [rs[n]];
    }
  }

  lemma {:induction false} ReceiptBatchFinds<A>(rs: seq<Receipt>, i: nat)
    requires i < |rs| && forall j, k :: 0 <= j < k < |rs| ==> rs[j].txHash != rs[k].txHash
    ensures var k := ReceiptKey(rs[i].txHash); k in ReceiptBatch<A>(rs) && ReceiptBatch<A>(rs)[k] == ReceiptEntry(rs[i])
  {
    var n := |rs| - 1;
    if i < n {
      assert rs[..n][i] == rs[i];
      ReceiptBatchFinds<A>(rs[..n], i);
    }
  }

  // ----- where each write stands in the journal

  lemma {:induction false} JournalAt<A>(env: Env<A>, cs: seq<Commit<A>>, i: nat, j: nat)
    requires i < |cs| && j < 4
    ensures Journal(env, cs)[4 * i + j] == WritesOf(env, cs[i])[j]
  {
    var n := |cs| - 1;
    if i < n {
      assert cs[..n][i] == cs[i];
      JournalAt(env, cs[..n], i, j);
    }
  }

  lemma ReplayStep<A>(data: map<Key, Entry<A>>, w: seq<Write<A>>, n: nat)
    requires n < |w|
    ensures Replay(data, w[..n + 1]) == Replay(data, w[..n]) + w[n]
  {
    assert w[..n + 1][..n] == w[..n];
  }

  /** The database after the first `n` writes of the commits `cs`. */
  function After<A>(env: Env<A>, data: map<Key, Entry<A>>, cs: seq<Commit<A>>, n: nat): map<Key, Entry<A>>
    requires n <= 4 * |cs|
  {
    Replay(data, Journal(env, cs)[..n])
  }

  lemma AfterStep<A>(env: Env<A>, data: map<Key, Entry<A>>, cs: seq<Commit<A>>, n: nat)
    requires n < 4 * |cs|
    ensures After(env, data, cs, n + 1) == After(env, data, cs, n) + WritesOf(env, cs[n / 4])[n % 4]
    ensures After(env, data, cs, 0) == data
  {
    JournalAt(env, cs, n / 4, n % 4);
    ReplayStep(data, Journal(env, cs), n);
  }

  ghost predicate HasReceipt<A>(c: Commit<A>, h: Hash)
  {
    exists i :: 0 <= i < |c.receipts| && c.receipts[i].txHash == h
  }

  /** Which keys each of the four writes touches. */
  lemma WriteKinds<A>(env: Env<A>, c: Commit<A>, j: nat)
    requires j < 4
    ensures var w := WritesOf(env, c)[j];
            && (HeadKey in w <==> j == 1) && (j == 1 ==> w[HeadKey] == HeadEntry(HeadOf(env, c)))
            && (forall h :: ReceiptKey(h) in w <==> j == 3 && HasReceipt(c, h))
            && (forall h :: NodeKey(h) in w <==> j == 0 && h == env.commitRoot(c.post))
            && (j == 0 ==> w[NodeKey(env.commitRoot(c.post))] == StateEntry(env.persist(c.post)))
  {
    TxBatchKeys(env, c.txs);
    ReceiptBatchKeys<A>(c.receipts);
  }

  /** How many of the first `n` writes are heads. */
  function Heads(n: nat): nat
  {
    (n + 2) / 4
  }

  lemma {:induction false} HeadAfter<A>(env: Env<A>, data: map<Key, Entry<A>>, cs: seq<Commit<A>>, n: nat)
    requires n <= 4 * |cs|
    ensures var d := After(env, data, cs, n);
            if Heads(n) == 0
            then (HeadKey in d <==> HeadKey in data) && (HeadKey in data ==> d[HeadKey] == data[HeadKey])
            else HeadKey in d && d[HeadKey] == HeadEntry(HeadOf(env, cs[Heads(n) - 1]))
  {
    hide WritesOf, TxBatch, ReceiptBatch, HeadOf;
    if n > 0 {
      HeadAfter(env, data, cs, n - 1);
      AfterStep(env, data, cs, n - 1);
      hide After;
      WriteKinds(env, cs[(n - 1) / 4], (n - 1) % 4);
    } else {
      assert Journal(env, cs)[..0] == [];
    }
  }

  /** Receipts come only from the receipt batches. */
  lemma {:induction false} ReceiptsOnly<A>(env: Env<A>, data: map<Key, Entry<A>>, cs: seq<Commit<A>>, n: nat, h: Hash)
    requires n <= 4 * |cs|
    requires forall i :: 0 <= i < n / 4 ==> !HasReceipt(cs[i], h)
    ensures var d, k := After(env, data, cs, n), ReceiptKey(h);
            (k in d <==> k in data) && (k in data ==> d[k] == data[k])
  {
    hide WritesOf, TxBatch, ReceiptBatch, HeadOf, HasReceipt;
    if n > 0 {
      ReceiptsOnly(env, data, cs, n - 1, h);
      AfterStep(env, data, cs, n - 1);
      hide After;
      WriteKinds(env, cs[(n - 1) / 4], (n - 1) % 4);
      if (n - 1) % 4 == 3 { assert !HasReceipt(cs[n / 4 - 1], h); }
    } else {
      assert Journal(env, cs)[..0] == [];
    }
  }

  /** No receipt hash is used twice, within a commit or across commits. */
  ghost predicate FreshReceipts<A>(cs: seq<Commit<A>>)
  {
    && (forall i :: 0 <= i < |cs| ==> DistinctReceipts(cs[i]))
    && (forall i, j, h :: 0 <= i < j < |cs| && HasReceipt(cs[i], h) ==> !HasReceipt(cs[j], h))
  }

  ghost predicate DistinctReceipts<A>(c: Commit<A>)
  {
    forall j, k :: 0 <= j < k < |c.receipts| ==> c.receipts[j].txHash != c.receipts[k].txHash
  }

  /** Once its batch is written a receipt stays what it is. */
  lemma {:induction false} ReceiptKept<A>(env: Env<A>, data: map<Key, Entry<A>>, cs: seq<Commit<A>>, n: nat, i: nat,
          j: nat)
    requires FreshReceipts(cs) && n <= 4 * |cs| && 4 * i + 4 <= n && j < |cs[i].receipts|
    ensures var d, k := After(env, data, cs, n), ReceiptKey(cs[i].receipts[j].txHash);
            k in d && d[k] == ReceiptEntry(cs[i].receipts[j])
    decreases n
  {
    hide TxBatch, ReceiptBatch, HeadOf, After;
    var c, h := cs[(n - 1) / 4], cs[i].receipts[j].txHash;
    AfterStep(env, data, cs, n - 1);
    assert DistinctReceipts(cs[i]);
    if n == 4 * i + 4 {
      ReceiptBatchFinds<A>(c.receipts, j);
    } else {
      ReceiptKept(env, data, cs, n - 1, i, j);
      WriteKinds(env, c, (n - 1) % 4);
      hide WritesOf;
      assert HasReceipt(cs[i], h);
      if i < (n - 1) / 4 { assert !HasReceipt(c, h); }
    }
  }

  /** A root names one state only. */
  ghost predicate RootsIdentify<A(!new)>(env: Env<A>)
  {
    forall a: A, b: A :: env.commitRoot(a) == env.commitRoot(b) ==> env.persist(a) == env.persist(b)
  }

  /** Once written a state stays where it is. */
  lemma {:induction false} NodeKept<A(!new)>(env: Env<A>, data: map<Key, Entry<A>>, cs: seq<Commit<A>>, n: nat, i: nat)
    requires RootsIdentify(env) && n <= 4 * |cs| && 4 * i + 1 <= n
    ensures var d, k := After(env, data, cs, n), NodeKey(env.commitRoot(cs[i].post));
            k in d && d[k] == StateEntry(env.persist(cs[i].post))
    decreases n
  {
    hide TxBatch, ReceiptBatch, HeadOf, After;
    var c := cs[(n - 1) / 4];
    AfterStep(env, data, cs, n - 1);
    WriteKinds(env, c, (n - 1) % 4);
    hide WritesOf;
    if n > 4 * i + 1 {
      NodeKept(env, data, cs, n - 1, i);
    }
  }

  // ----- crashing and starting again

  /**
   A session of the node: it started from `base`, loaded from the database `data`,
   and made the commits `cs`. Transaction hashes are new, and none is that of the
   empty transaction; the states stored under a root are the states of that root.
   */
  ghost predicate Session<A(!new)>(env: Env<A>, data: map<Key, Entry<A>>, base: A, cs: seq<Commit<A>>)
  {
    && Recover(env, data) == Loaded(base)
    && (forall i :: 0 <= i < |cs| ==> Matching(env, cs[i]))
    && FreshReceipts(cs)
    && (forall i, h :: 0 <= i < |cs| && HasReceipt(cs[i], h) ==> ReceiptKey(h) !in data && h != env.hash(env.emptyTx))
    && ReceiptKey(env.hash(env.emptyTx)) !in data
    && RootsIdentify(env)
    && (forall a :: NodeKey(env.commitRoot(a)) in data ==>
          data[NodeKey(env.commitRoot(a))] == StateEntry(env.persist(a)))
  }

  /** Receipts and transactions of a commit go together. */
  ghost predicate Matching<A>(env: Env<A>, c: Commit<A>)
  {
    |c.txs| == |c.receipts| && forall i :: 0 <= i < |c.txs| ==> c.receipts[i].txHash == env.hash(c.txs[i])
  }

  function LoadRoot<A>(data: map<Key, Entry<A>>, root: Hash): Recovered<A>
  {
    if NodeKey(root) !in data || !data[NodeKey(root)].StateEntry? then MissingState else Loaded(data[NodeKey(root)].a)
  }

  /**
   What is found after a crash behind the first `n` writes. Without a new head it is
   the state the session started from. With one, the receipt of the head must have
   been written, and then the root in it is what counts.
   */
  function Survivor<A>(env: Env<A>, data: map<Key, Entry<A>>, base: A, cs: seq<Commit<A>>, n: nat): Recovered<A>
    requires n <= 4 * |cs|
  {
    var h := Heads(n);
    if h == 0 then Loaded(base)
    else if cs[h - 1].txs == [] || n < 4 * h || cs[h - 1].receipts == [] then MissingReceipt
    else LoadRoot(After(env, data, cs, n), cs[h - 1].receipts[|cs[h - 1].receipts| - 1].postState)
  }

  /** Recovery after a crash at any point of any session does exactly that. */
  lemma CrashRecovery<A(!new)>(env: Env<A>, data: map<Key, Entry<A>>, base: A, cs: seq<Commit<A>>, n: nat)
    requires Session(env, data, base, cs) && n <= 4 * |cs|
    ensures Recover(env, After(env, data, cs, n)) == Survivor(env, data, base, cs, n)
  {
    hide After, HasReceipt, FreshReceipts, RootsIdentify;
    HeadAfter(env, data, cs, n);
    var h := Heads(n);
    if h == 0 {
      NothingNew(env, data, base, cs, n);
    } else {
      var c := cs[h - 1];
      assert Matching(env, c);
      if c.txs == [] {
        NoEmptyReceipt(env, data, base, cs, n);
      } else {
        var last := |c.txs| - 1;
        assert c.receipts[last].txHash == HeadOf(env, c);
        HasIt(c, last);
        if n < 4 * h {
          NotYet(env, data, base, cs, n, c.receipts[last].txHash);
        } else {
          ReceiptKept(env, data, cs, n, h - 1, last);
        }
      }
    }
  }

  lemma HasIt<A>(c: Commit<A>, i: nat)
    requires i < |c.receipts|
    ensures HasReceipt(c, c.receipts[i].txHash)
  {
  }

  /** A state write on its own changes nothing that recovery looks at. */
  lemma NothingNew<A(!new)>(env: Env<A>, data: map<Key, Entry<A>>, base: A, cs: seq<Commit<A>>, n: nat)
    requires Session(env, data, base, cs) && n <= 4 * |cs| && n < 2
    ensures Recover(env, After(env, data, cs, n)) == Loaded(base)
  {
    assert Journal(env, cs)[..0] == [];
    if n == 1 {
      AfterStep(env, data, cs, 0);
      WriteKinds(env, cs[0], 0);
    }
  }

  /** The receipt of a head whose batch has not been written is nowhere. */
  lemma NotYet<A(!new)>(env: Env<A>, data: map<Key, Entry<A>>, base: A, cs: seq<Commit<A>>, n: nat, h: Hash)
    requires Session(env, data, base, cs) && n <= 4 * |cs|
    requires Heads(n) > 0 && n < 4 * Heads(n) && HasReceipt(cs[Heads(n) - 1], h)
    ensures ReceiptKey(h) !in After(env, data, cs, n)
  {
    hide After, HasReceipt;
    forall i | 0 <= i < n / 4 ensures !HasReceipt(cs[i], h) {
      assert i < Heads(n) - 1;
    }
    ReceiptsOnly(env, data, cs, n, h);
  }

  lemma NoEmptyReceipt<A(!new)>(env: Env<A>, data: map<Key, Entry<A>>, base: A, cs: seq<Commit<A>>, n: nat)
    requires Session(env, data, base, cs) && n <= 4 * |cs|
    ensures ReceiptKey(env.hash(env.emptyTx)) !in After(env, data, cs, n)
  {
    hide After, HasReceipt;
    ReceiptsOnly(env, data, cs, n, env.hash(env.emptyTx));
  }

  /** Every state in the database was there before or is that of a commit whose state write completed. */
  lemma {:induction false} NodeOrigin<A(!new)>(env: Env<A>, data: map<Key, Entry<A>>, cs: seq<Commit<A>>, n: nat,
                                               h: Hash)
    requires n <= 4 * |cs| && NodeKey(h) in After(env, data, cs, n)
    ensures var k := NodeKey(h);
            || (k in data && After(env, data, cs, n)[k] == data[k])
            || (exists i: nat :: StateWritten(cs, n, i) && h == env.commitRoot(cs[i].post) &&
                  After(env, data, cs, n)[k] == StateEntry(env.persist(cs[i].post)))
    decreases n
  {
    hide TxBatch, ReceiptBatch, HeadOf, After;
    if n == 0 {
      AtStart(env, data, cs);
    } else {
      AfterStep(env, data, cs, n - 1);
      WriteKinds(env, cs[(n - 1) / 4], (n - 1) % 4);
      hide WritesOf;
      if (n - 1) % 4 == 0 && h == env.commitRoot(cs[(n - 1) / 4].post) {
        assert StateWritten(cs, n, (n - 1) / 4);
      } else {
        NodeOrigin(env, data, cs, n - 1, h);
        forall i: nat | StateWritten(cs, n - 1, i) ensures StateWritten(cs, n, i) { }
      }
    }
  }

  lemma AtStart<A>(env: Env<A>, data: map<Key, Entry<A>>, cs: seq<Commit<A>>)
    ensures After(env, data, cs, 0) == data
  {
    assert Journal(env, cs)[..0] == [];
  }

  /** Commit `i` is one whose state write is among the first `n` writes. */
  ghost predicate StateWritten<A>(cs: seq<Commit<A>>, n: nat, i: nat)
  {
    i < |cs| && 4 * i + 1 <= n
  }

  /** The state is stored in the database. */
  ghost predicate Stored<A(!new)>(data: map<Key, Entry<A>>, a: A)
  {
    exists h :: NodeKey(h) in data && data[NodeKey(h)] == StateEntry(a)
  }

  /**
   What recovery may give: an error, the state the session started from, one that
   was stored before it, or that of a commit that at least completed its state write.
   */
  ghost predicate Known<A(!new)>(env: Env<A>, data: map<Key, Entry<A>>, base: A, cs: seq<Commit<A>>, n: nat,
                                 r: Recovered<A>)
  {
    r.Loaded? ==>
      || r.a == base
      || Stored(data, r.a)
      || exists i: nat :: StateWritten(cs, n, i) && r.a == env.persist(cs[i].post)
  }

  /** A commit whose last receipt carries the root that the commit writes. */
  ghost predicate Agrees<A>(env: Env<A>, c: Commit<A>)
  {
    c.receipts != [] ==> c.receipts[|c.receipts| - 1].postState == env.commitRoot(c.post)
  }

  /** Writing a state does not change its root. */
  ghost predicate RootsStable<A(!new)>(env: Env<A>)
  {
    forall a: A :: env.commitRoot(env.persist(a)) == env.commitRoot(a)
  }

  /** The root in a receipt is the root of some state. */
  ghost predicate IsRoot<A(!new)>(env: Env<A>, root: Hash)
  {
    exists a: A :: env.commitRoot(a) == root
  }

  /**
   Stopping between any two database writes of any run of commits: recovery reports
   an error or loads the state the session started from, one stored before, or one
   of a commit whose state write completed, and never any other.
   */
  lemma CrashSafety<A(!new)>(env: Env<A>, data: map<Key, Entry<A>>, base: A, cs: seq<Commit<A>>, n: nat)
    requires Session(env, data, base, cs) && n <= 4 * |cs|
    ensures Known(env, data, base, cs, n, Recover(env, After(env, data, cs, n)))
  {
    hide After, Session;
    CrashRecovery(env, data, base, cs, n);
    var h, r := Heads(n), Recover(env, After(env, data, cs, n));
    if h > 0 && r.Loaded? {
      var root := cs[h - 1].receipts[|cs[h - 1].receipts| - 1].postState;
      NodeOrigin(env, data, cs, n, root);
      if NodeKey(root) in data && data[NodeKey(root)] == StateEntry(r.a) {
        assert Stored(data, r.a);
      }
    }
  }

  /**
   And which of them. Before the first new head it is the state the session started
   from; behind a head without its receipt it is the error of a missing receipt; and
   the state of a commit that completed and contained a transaction is found if and
   only if the commit agrees with its last receipt.
   */
  lemma CrashExactly<A(!new)>(env: Env<A>, data: map<Key, Entry<A>>, base: A, cs: seq<Commit<A>>, n: nat)
    requires Session(env, data, base, cs) && n <= 4 * |cs| && RootsStable(env)
    requires forall i, j :: 0 <= i < |cs| && 0 <= j < |cs[i].receipts| ==> IsRoot(env, cs[i].receipts[j].postState)
    ensures var h, r := Heads(n), Recover(env, After(env, data, cs, n));
            if h == 0 then r == Loaded(base)
            else if cs[h - 1].txs == [] || n < 4 * h then r == MissingReceipt
            else r != MissingReceipt && (r == Loaded(env.persist(cs[h - 1].post)) <==> Agrees(env, cs[h - 1]))
  {
    hide After, FreshReceipts;
    CrashRecovery(env, data, base, cs, n);
    var h := Heads(n);
    if h > 0 && cs[h - 1].txs != [] && n >= 4 * h {
      var c := cs[h - 1];
      assert Matching(env, c);
      var root := c.receipts[|c.receipts| - 1].postState;
      if Agrees(env, c) {
        NodeKept(env, data, cs, n, h - 1);
      } else {
        assert IsRoot(env, root);
        var b :| env.commitRoot(b) == root;
        StoreKept(env, data, base, cs, n);
        assert env.commitRoot(env.persist(b)) != env.commitRoot(env.persist(c.post));
      }
    }
  }

  // ----- whole histories

  lemma {:induction false} CommitsAt<A>(env: Env<A>, base: A, history: seq<seq<Event>>, i: nat)
    requires i < |history|
    ensures Commits(env, base, history)[i] == CommitOf(Run(env, Committed(env, base, history[..i]), history[i]))
    ensures env.persist(Commits(env, base, history)[i].post) == Committed(env, base, history[..i + 1])
  {
    hide Run, CommitOf;
    var n := |history| - 1;
    assert history[..i + 1][..i] == history[..i] && history[..i + 1][i] == history[i];
    if i < n {
      CommitsAt(env, base, history[..n], i);
      assert history[..n][..i] == history[..i] && history[..n][..i + 1] == history[..i + 1];
      assert history[..n][i] == history[i];
    } else {
      assert history[..i + 1] == history;
      PostOf(Run(env, Committed(env, base, history[..n]), history[n]));
    }
  }

  lemma PostOf<A>(p: Pending<A>)
    ensures CommitOf(p).post == p.accounts
  {
  }

  /** Committing right after an applied transaction gives the root that its receipt carries. */
  ghost predicate RootsAgree<A(!new)>(env: Env<A>)
  {
    forall a: A :: env.commitRoot(env.settle(a)) == env.root(a)
  }

  /**
   A commit agrees with its last receipt if and only if whatever came after the last
   applied transaction, allocations and rejected transactions, left the root alone.
   */
  lemma AgreesIff<A(!new)>(env: Env<A>, base: A, before: seq<Event>, ev: Event, later: seq<Event>)
    requires RootsAgree(env)
    requires Applies(env, Run(env, base, before), ev)
    requires Run(env, base, before + [ev] + later).txs == Run(env, base, before + [ev]).txs
    ensures var mid := Run(env, base, before + [ev]);
            Agrees(env, CommitOf(Run(env, base, before + [ev] + later))) <==>
            env.commitRoot(Fold(env, mid.accounts, later)) == env.commitRoot(mid.accounts)
  {
    hide ReceiptOf;
    RunOne(env, base, before, ev);
    LaterKeep(env, base, before + [ev], later);
    RunFolds(env, base, before + [ev]);
    RunFolds(env, base, before + [ev] + later);
    FoldConcat(env, base, before + [ev], later);
    LastReceiptRoot(env, Run(env, base, before), ev);
  }

  lemma LastReceiptRoot<A(!new)>(env: Env<A>, p: Pending<A>, ev: Event)
    requires RootsAgree(env) && Applies(env, p, ev)
    ensures var q := Step(env, p, ev);
            q.receipts != [] && q.receipts[|q.receipts| - 1].postState == env.commitRoot(q.accounts)
  {
  }

  lemma {:induction false} LaterKeep<A>(env: Env<A>, base: A, events: seq<Event>, later: seq<Event>)
    ensures |Run(env, base, events + later).txs| >= |Run(env, base, events).txs|
    ensures Run(env, base, events + later).txs == Run(env, base, events).txs ==>
              Run(env, base, events + later).receipts == Run(env, base, events).receipts
  {
    if later == [] {
      assert events + later == events;
    } else {
      var n := |later| - 1;
      assert events + later == (events + later[..n]) + [later[n]];
      RunOne(env, base, events + later[..n], later[n]);
      LaterKeep(env, base, events, later[..n]);
      RunKeepsLedger(env, base, events + later[..n]);
      RunKeepsLedger(env, base, events + later);
    }
  }

  /** The last event of a commit is a transaction that was applied, as in every block with a transaction in it. */
  ghost predicate EndsApplied<A>(env: Env<A>, base: A, events: seq<Event>)
  {
    events != [] && Applies(env, Run(env, base, events[..|events| - 1]), events[|events| - 1])
  }

  /** Such commits agree with their last receipts. */
  lemma EndsAgree<A(!new)>(env: Env<A>, base: A, events: seq<Event>)
    requires RootsAgree(env) && EndsApplied(env, base, events)
    ensures Agrees(env, CommitOf(Run(env, base, events))) && Run(env, base, events).txs != []
  {
    var before, ev := events[..|events| - 1], events[|events| - 1];
    assert before + [ev] == events;
    RunOne(env, base, before, ev);
    LastReceiptRoot(env, Run(env, base, before), ev);
  }

  /** All roots in receipts are roots of states. */
  lemma {:induction false} ReceiptRoots<A(!new)>(env: Env<A>, base: A, events: seq<Event>, j: nat)
    requires RootsAgree(env) && j < |Run(env, base, events).receipts|
    ensures IsRoot(env, Run(env, base, events).receipts[j].postState)
  {
    var n := |events| - 1;
    var p := Run(env, base, events[..n]);
    if j < |p.receipts| {
      ReceiptRoots(env, base, events[..n], j);
    } else {
      var o := Result(env, p, events[n]);
      assert env.commitRoot(env.settle(o.post)) == env.root(o.post);
    }
  }

  lemma AllRoots<A(!new)>(env: Env<A>, base: A, history: seq<seq<Event>>)
    requires RootsAgree(env)
    ensures var cs := Commits(env, base, history);
            forall i, j :: 0 <= i < |cs| && 0 <= j < |cs[i].receipts| ==> IsRoot(env, cs[i].receipts[j].postState)
  {
    hide Run, RootsAgree, IsRoot;
    var cs := Commits(env, base, history);
    forall i, j | 0 <= i < |cs| && 0 <= j < |cs[i].receipts| ensures IsRoot(env, cs[i].receipts[j].postState) {
      CommitsAt(env, base, history, i);
      ReceiptRoots(env, Committed(env, base, history[..i]), history[i], j);
    }
  }

  /**
   Over whole runs of blocks and genesis allocations, whatever fails in between,
   exactly what is found: a commit that completed and contained a transaction is
   found again, with all that was committed before, if and only if it agrees with
   its last receipt.
   */
  lemma RunCrash<A(!new)>(env: Env<A>, data: map<Key, Entry<A>>, base: A, history: seq<seq<Event>>, n: nat)
    requires Session(env, data, base, Commits(env, base, history)) && n <= 4 * |history|
    requires RootsAgree(env) && RootsStable(env)
    ensures var h, r := Heads(n), Recover(env, After(env, data, Commits(env, base, history), n));
            if h == 0 then r == Loaded(base)
            else var last := Run(env, Committed(env, base, history[..h - 1]), history[h - 1]);
                 if last.txs == [] || n < 4 * h then r == MissingReceipt
                 else r == Loaded(Committed(env, base, history[..h])) <==> Agrees(env, CommitOf(last))
  {
    var h := Heads(n);
    AllRoots(env, base, history);
    if h > 0 { CommitsAt(env, base, history, h - 1); }
    hide After, Session, Run, Agrees, RootsAgree, RootsStable, Recover, Commits, Committed, IsRoot;
    CrashExactly(env, data, base, Commits(env, base, history), n);
  }

  /**
   And in any case nothing is loaded but the state the session started from, one that
   was stored before, or one of the committed states, all of them folds of events.
   */
  lemma RunSafety<A(!new)>(env: Env<A>, data: map<Key, Entry<A>>, base: A, history: seq<seq<Event>>, n: nat)
    requires Session(env, data, base, Commits(env, base, history)) && n <= 4 * |history|
    ensures var r := Recover(env, After(env, data, Commits(env, base, history), n));
            r.Loaded? ==>
              || r.a == base || Stored(data, r.a)
              || exists i :: 0 <= i < |history| && 4 * i + 1 <= n && r.a == Committed(env, base, history[..i + 1])
  {
    hide After, Session, Run, Recover, Commits, Committed, Stored;
    var cs := Commits(env, base, history);
    CrashSafety(env, data, base, cs, n);
    var r := Recover(env, After(env, data, cs, n));
    if r.Loaded? && exists i: nat :: StateWritten(cs, n, i) && r.a == env.persist(cs[i].post) {
      var i: nat :| StateWritten(cs, n, i) && r.a == env.persist(cs[i].post);
      CommitsAt(env, base, history, i);
    }
  }

  /** What a database keeps across any number of crashes and restarts: stored states are those of their roots. */
  ghost predicate Store<A(!new)>(env: Env<A>, data: map<Key, Entry<A>>)
  {
    && ReceiptKey(env.hash(env.emptyTx)) !in data
    && (forall a :: NodeKey(env.commitRoot(a)) in data ==>
          data[NodeKey(env.commitRoot(a))] == StateEntry(env.persist(a)))
  }

  /** So a session may follow on whatever an earlier one left behind. */
  lemma {:induction false} StoreKept<A(!new)>(env: Env<A>, data: map<Key, Entry<A>>, base: A, cs: seq<Commit<A>>,
          n: nat)
    requires Session(env, data, base, cs) && n <= 4 * |cs|
    ensures Store(env, After(env, data, cs, n))
    decreases n
  {
    NoEmptyReceipt(env, data, base, cs, n);
    if n == 0 {
      assert Journal(env, cs)[..0] == [];
    } else {
      StoreKept(env, data, base, cs, n - 1);
      AfterStep(env, data, cs, n - 1);
      WriteKinds(env, cs[(n - 1) / 4], (n - 1) % 4);
      hide After, WritesOf, Session;
    }
  }

  /** One life of a node: its commits, and how many database writes it made before it died. */
  datatype Life<A> = Life(cs: seq<Commit<A>>, n: nat)

  predicate Lived<A>(lives: seq<Life<A>>)
  {
    forall i :: 0 <= i < |lives| ==> lives[i].n <= 4 * |lives[i].cs|
  }

  /** The database that a node's lives leave behind, starting from an empty one. */
  function Disk<A>(env: Env<A>, lives: seq<Life<A>>): map<Key, Entry<A>>
    requires Lived(lives)
  {
    if lives == [] then map[]
    else After(env, Disk(env, lives[..|lives| - 1]), lives[|lives| - 1].cs, lives[|lives| - 1].n)
  }

  /** The empty state, or that of a commit in some life that at least completed its state write. */
  ghost predicate Reached<A(!new)>(env: Env<A>, lives: seq<Life<A>>, a: A)
  {
    a == env.empty || exists k, i :: Committing(lives, k, i) && a == env.persist(lives[k].cs[i].post)
  }

  ghost predicate Committing<A>(lives: seq<Life<A>>, k: int, i: int)
  {
    0 <= k < |lives| && 0 <= i < |lives[k].cs| && 4 * i + 1 <= lives[k].n
  }

  /** Through any number of crashes and restarts, no other state is ever stored. */
  lemma {:induction false} StoredReached<A(!new)>(env: Env<A>, lives: seq<Life<A>>, a: A)
    requires Lived(lives) && Stored(Disk(env, lives), a)
    ensures Reached(env, lives, a)
  {
    hide After;
    if lives != [] {
      var m := |lives| - 1;
      var l := lives[m];
      var h :| NodeKey(h) in Disk(env, lives) && Disk(env, lives)[NodeKey(h)] == StateEntry(a);
      NodeOrigin(env, Disk(env, lives[..m]), l.cs, l.n, h);
      if i: nat :| StateWritten(l.cs, l.n, i) && a == env.persist(l.cs[i].post) {
        assert Committing(lives, m, i);
      } else {
        assert Stored(Disk(env, lives[..m]), a);
        StoredReached(env, lives[..m], a);
        if k, i :| Committing(lives[..m], k, i) && a == env.persist(lives[..m][k].cs[i].post) {
          assert Committing(lives, k, i);
        }
      }
    }
  }

  /** And none is ever loaded. */
  lemma LivesSafety<A(!new)>(env: Env<A>, lives: seq<Life<A>>)
    requires Lived(lives)
    ensures var r := Recover(env, Disk(env, lives)); r.Loaded? ==> Reached(env, lives, r.a)
  {
    var data := Disk(env, lives);
    var r := Recover(env, data);
    if r.Loaded? && r.a != env.empty {
      assert Stored(data, r.a);
      StoredReached(env, lives, r.a);
    }
  }

  /** Once its batch is written a transaction is found under its hash for good. */
  lemma {:induction false} TxKept<A(!new)>(env: Env<A>, data: map<Key, Entry<A>>, base: A, cs: seq<Commit<A>>,
          n: nat, i: nat, j: nat)
    requires Session(env, data, base, cs) && n <= 4 * |cs| && 4 * i + 3 <= n && j < |cs[i].txs|
    ensures var d, k := After(env, data, cs, n), TxKey(env.hash(cs[i].txs[j]));
            k in d && d[k] == TxEntry(cs[i].txs[j])
    decreases n
  {
    hide After, TxBatch, ReceiptBatch, HeadOf;
    var c, h := cs[(n - 1) / 4], env.hash(cs[i].txs[j]);
    AfterStep(env, data, cs, n - 1);
    assert Matching(env, cs[i]) && Matching(env, c) && DistinctReceipts(cs[i]);
    if n == 4 * i + 3 {
      TxBatchFinds(env, c.txs, j);
    } else {
      TxKept(env, data, base, cs, n - 1, i, j);
      TxBatchKeys(env, c.txs);
      ReceiptBatchKeys<A>(c.receipts);
      HasIt(cs[i], j);
      if (n - 1) % 4 == 2 {
        assert !HasReceipt(c, h);
        assert TxKey(h) !in TxBatch(env, c.txs);
      }
    }
  }

  // ----- how it goes wrong

  /**
   A node whose account state is a counter: transactions add one, allocations their
   balance, and empty bytes are no transaction.
   */
  function Counter(): Env<int>
  {
    Env(0, Tx([]), (b: Bytes) => if b == [] then None else Some(Tx(b)), (t: Tx) => |t.data|,
        (t: Tx) => Some(Message(0, Some(0), 0, 0, 0, [])), (a: int, h: Hash, b: Hash, i: nat) => a,
        (a: int, m: Message, c: Context, p: nat) => Applied(a + 1, 1, false, p),
        (a: int) => a, (a: int) => a, (a: int, h: Hash) => [], (a: Address, n: nat) => 0, (l: seq<Log>) => 0,
        (a: int, d: Address, c: Account) => a + c.balance, (a: int) => a, (a: int) => a)
  }

  const NO_MESSAGE := Message(0, Some(0), 0, 0, 0, [])

  /** A transaction left pending by a block that failed and, with nothing committed in between, an allocation. */
  function Stuck(): seq<Event>
  {
    [TxEvent(Tx([7]), NO_MESSAGE, 0, 0, GAS_LIMIT), AllocEvent(0, Account(5, [], map[]))]
  }

  lemma StuckRun()
    ensures var p := Run(Counter(), 0, Stuck());
            p.accounts == 6 && p.txs == [Tx([7])] && |p.receipts| == 1 && p.receipts[0].postState == 1 &&
            p.receipts[0].txHash == 1
  {
    var env, t, a := Counter(), Stuck()[0], Stuck()[1];
    assert Stuck() == [] + [t] + [a];
    RunOne(env, 0, [] + [t], a);
    RunOne(env, 0, [], t);
    hide Run;
  }

  lemma StuckSession(c: Commit<int>)
    requires c.post == 6 && c.txs == [Tx([7])] && |c.receipts| == 1 && c.receipts[0].txHash == 1
    ensures Session(Counter(), map[], 0, [c])
  {
    var env := Counter();
    assert env.hash(Tx([7])) == 1;
    assert Matching(env, c);
    assert forall h :: HasReceipt(c, h) ==> h == 1;
  }

  /**
   Without that condition recovery can fail after a commit that completed: a block
   that stops with an error leaves its first transaction pending, an allocation then
   changes the accounts and commits both, and the head's receipt names a root that
   was never written.
   */
  lemma PendingThenAllocation()
    ensures var env := Counter();
            var cs := Commits(env, 0, [Stuck()]);
            && Session(env, map[], 0, cs) && RootsAgree(env)
            && Recover(env, After(env, map[], cs, 4)) == MissingState
  {
    hide Run, Session, After;
    var env, p := Counter(), Run(Counter(), 0, Stuck());
    var cs := Commits(env, 0, [Stuck()]);
    StuckRun();
    CommitsAt(env, 0, [Stuck()], 0);
    assert [Stuck()][..0] == [];
    assert cs == [CommitOf(p)];
    StuckSession(CommitOf(p));
    CrashRecovery(env, map[], 0, cs, 4);
    ShortJournal(env, cs);
  }

  lemma ShortJournal(env: Env<int>, cs: seq<Commit<int>>)
    requires |cs| == 1 && env.commitRoot(cs[0].post) == 6
    ensures NodeKey(1) !in After(env, map[], cs, 4)
  {
    AfterStep(env, map[], cs, 0);
    AfterStep(env, map[], cs, 1);
    AfterStep(env, map[], cs, 2);
    AfterStep(env, map[], cs, 3);
    WriteKinds(env, cs[0], 0);
    WriteKinds(env, cs[0], 1);
    WriteKinds(env, cs[0], 2);
    WriteKinds(env, cs[0], 3);
    assert Journal(env, cs)[..0] == [];
  }
}
