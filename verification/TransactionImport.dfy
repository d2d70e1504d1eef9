/** Batched import of KuCoin transactions that skips those already stored. */
module TransactionImport {
  import opened Common

  const BATCH_SIZE := 100

  // What identifies a transaction, and the exchange it is filed under.
  datatype Key = Key(time: string, kind: string, amount: real, asset: string, symbol: string)

  datatype Transaction = Transaction(key: Key, exchange: string)

  function Filed(tx: Transaction): Transaction { tx.(exchange := "kucoin") }

  function HasKey(key: Key): Transaction -> bool { (tx: Transaction) => tx.key == key }

  /** How many rows carry the key. */
  function Count(key: Key, rows: seq<Transaction>): nat { |Filter(HasKey(key), rows)| }

  predicate Exists(key: Key, rows: seq<Transaction>) { Count(key, rows) > 0 }

  function IsNew(rows: seq<Transaction>): Transaction -> bool { (tx: Transaction) => !Exists(tx.key, rows) }

  function FiledAll(txs: seq<Transaction>): seq<Transaction> {
    seq(|txs|, i requires 0 <= i < |txs| => Filed(txs[i]))
  }

  function BatchEnd(txs: seq<Transaction>, from: nat): nat
    requires from <= |txs|
  {
    if from + BATCH_SIZE < |txs| then from + BATCH_SIZE else |txs|
  }

  /** The rows a batch adds: those of its transactions that the table lacked before the batch. */
  function NewRows(rows: seq<Transaction>, batch: seq<Transaction>): seq<Transaction> {
    Filter(IsNew(rows), FiledAll(batch))
  }

  // accepts says whether the insertion of the batch starting at an index succeeds.
  type Accepts = nat -> bool

  // failed counts transactions of rejected batches; the import itself reports only the other two.
  datatype Progress = Progress(rows: seq<Transaction>, inserted: nat, skipped: nat, failed: nat)

  /** What one batch changes. */
  function AfterBatch(o: Progress, batch: seq<Transaction>, accepted: bool): (after: Progress)
    ensures after.inserted + after.skipped + after.failed == o.inserted + o.skipped + o.failed + |batch|
    ensures after.rows == if accepted then o.rows + NewRows(o.rows, batch) else o.rows
    ensures |after.rows| == |o.rows| + after.inserted - o.inserted
    ensures accepted ==> after.failed == o.failed
    ensures NewRows(o.rows, batch) == [] ==> after == o.(skipped := o.skipped + |batch|)
  {
    var added := NewRows(o.rows, batch);
    FilterShrinks(IsNew(o.rows), FiledAll(batch));
    var skipped := o.skipped + |batch| - |added|;
    if added != [] && accepted then Progress(o.rows + added, o.inserted + |added|, skipped, o.failed)
    else o.(skipped := skipped, failed := o.failed + |added|)
  }

  /** The import from the given index on. */
  function ImportFrom(o: Progress, txs: seq<Transaction>, from: nat, accepts: Accepts): Progress
    requires from <= |txs|
    decreases |txs| - from
  {
    if from == |txs| then o
    else ImportFrom(AfterBatch(o, txs[from..BatchEnd(txs, from)], accepts(from)), txs, BatchEnd(txs, from), accepts)
  }

  lemma {:induction false} FilterShrinks<T>(p: T -> bool, s: seq<T>)
    ensures |Filter(p, s)| <= |s|
  {
    if s != [] {
      FilterShrinks(p, s[..|s| - 1]);
    }
  }

  class TransactionHistory {
    var rows: seq<Transaction>

    constructor (rows: seq<Transaction>)
      ensures this.rows == rows
    {
      this.rows := rows;
    }

    /** Inserts all transactions that are new, batch by batch. */
    method ImportKucoin(txs: seq<Transaction>, accepts: Accepts) returns (inserted: nat, skipped: nat)
      modifies this
      ensures
        var o := ImportFrom(Progress(old(rows), 0, 0, 0), txs, 0, accepts);
        rows == o.rows && inserted == o.inserted && skipped == o.skipped
    {
      inserted, skipped := 0, 0;
      ghost var failed: nat := 0;
      var from := 0;
      while from < |txs|
        invariant from <= |txs|
        invariant ImportFrom(Progress(rows, inserted, skipped, failed), txs, from, accepts) ==
                  ImportFrom(Progress(old(rows), 0, 0, 0), txs, 0, accepts)
      {
        var end := if from + BATCH_SIZE < |txs| then from + BATCH_SIZE else |txs|;
        inserted, skipped, failed := ImportBatch(txs[from..end], accepts(from), inserted, skipped, failed);
        from := end;
      }
    }

    /** Inserts the new transactions of one batch, if the table accepts them, and counts on. */
    method ImportBatch(batch: seq<Transaction>, accepted: bool, inserted0: nat, skipped0: nat, ghost failed0: nat)
      returns (inserted: nat, skipped: nat, ghost failed: nat)
      modifies this
      ensures Progress(rows, inserted, skipped, failed) ==
              AfterBatch(Progress(old(rows), inserted0, skipped0, failed0), batch, accepted)
    {
      var added, present := SplitBatch(batch);
      inserted, skipped, failed := inserted0, skipped0 + present, failed0;
      if added != [] && accepted {
        rows := rows + added;
        inserted := inserted + |added|;
      } else {
        failed := failed + |added|;
      }
    }

    /** The batch's new rows, and how many of its transactions are stored already. */
    method SplitBatch(batch: seq<Transaction>) returns (added: seq<Transaction>, present: nat)
      ensures added == NewRows(rows, batch)
      ensures present == |batch| - |added|
    {
      added, present := [], 0;
      var filed := FiledAll(batch);
      for i := 0 to |filed|
        invariant added == Filter(IsNew(rows), filed[..i])
        invariant present == i - |added|
      {
        FilterNext(IsNew(rows), filed, i);
        if Exists(filed[i].key, rows) {
          present := present + 1;
        } else {
          added := added + [filed[i]];
        }
      }
      assert filed[..|filed|] == filed;
    }
  }

  // ---- What the table holds afterwards ----

  lemma {:induction false} CountAppend(key: Key, a: seq<Transaction>, b: seq<Transaction>)
    ensures Count(key, a + b) == Count(key, a) + Count(key, b)
  {
    FilterAppend(HasKey(key), a, b);
  }

  lemma {:induction false} CountFiled(key: Key, txs: seq<Transaction>)
    ensures Count(key, FiledAll(txs)) == Count(key, txs)
  {
    if txs != [] {
      CountFiled(key, txs[..|txs| - 1]);
      assert FiledAll(txs)[..|txs| - 1] == FiledAll(txs[..|txs| - 1]);
    }
  }

  lemma {:induction false} CountFiltered(key: Key, p: Transaction -> bool, txs: seq<Transaction>, keep: bool)
    requires forall tx: Transaction :: tx.key == key ==> p(tx) == keep
    ensures Count(key, Filter(p, txs)) == if keep then Count(key, txs) else 0
  {
    if txs != [] {
      var init, last := txs[..|txs| - 1], txs[|txs| - 1];
      CountFiltered(key, p, init, keep);
      if p(last) {
        assert (Filter(p, init) + [last])[..|Filter(p, init)|] == Filter(p, init);
      }
    }
  }

  /** A batch adds all its occurrences of a key that the table lacks, and none of one that it holds. */
  lemma CountNewRows(key: Key, rows: seq<Transaction>, batch: seq<Transaction>)
    ensures Count(key, NewRows(rows, batch)) == if Exists(key, rows) then 0 else Count(key, batch)
  {
    CountFiltered(key, IsNew(rows), FiledAll(batch), !Exists(key, rows));
    CountFiled(key, batch);
  }

  /** The occurrences of the key in the first batch that holds it. */
  function FirstBatchCount(key: Key, txs: seq<Transaction>, from: nat): nat
    requires from <= |txs|
    decreases |txs| - from
  {
    if from == |txs| then 0
    else
      var here := Count(key, txs[from..BatchEnd(txs, from)]);
      if here > 0 then here else FirstBatchCount(key, txs, BatchEnd(txs, from))
  }

  ghost predicate AllAccepted(accepts: Accepts) { forall from :: accepts(from) }

  lemma {:induction false} ImportCounts(key: Key, o: Progress, txs: seq<Transaction>, from: nat, accepts: Accepts)
    requires from <= |txs| && AllAccepted(accepts)
    ensures Count(key, ImportFrom(o, txs, from, accepts).rows) ==
            if Exists(key, o.rows) then Count(key, o.rows) else FirstBatchCount(key, txs, from)
    decreases |txs| - from
  {
    if from < |txs| {
      var end := BatchEnd(txs, from);
      var batch := txs[from..end];
      CountNewRows(key, o.rows, batch);
      CountAppend(key, o.rows, NewRows(o.rows, batch));
      ImportCounts(key, AfterBatch(o, batch, accepts(from)), txs, end, accepts);
    }
  }

  lemma {:induction false} FirstBatchCountPositive(key: Key, txs: seq<Transaction>, from: nat)
    requires from <= |txs|
    ensures FirstBatchCount(key, txs, from) > 0 <==> Count(key, txs[from..]) > 0
    decreases |txs| - from
  {
    if from < |txs| {
      var end := BatchEnd(txs, from);
      FirstBatchCountPositive(key, txs, end);
      CountAppend(key, txs[from..end], txs[end..]);
      assert txs[from..end] + txs[end..] == txs[from..];
    }
  }

  /** When every insertion succeeds, stored keys keep their count, and a new key is stored as often as it occurs
      in the first batch that holds it: the keys become the union of old and new, and a key is stored twice by
      the import exactly when its first batch repeats it. */
  lemma ImportIsExact(rows: seq<Transaction>, txs: seq<Transaction>, accepts: Accepts, key: Key)
    requires AllAccepted(accepts)
    ensures
      var after := ImportFrom(Progress(rows, 0, 0, 0), txs, 0, accepts).rows;
      && (Exists(key, rows) ==> Count(key, after) == Count(key, rows))
      && (!Exists(key, rows) ==> Count(key, after) == FirstBatchCount(key, txs, 0))
      && (Exists(key, after) <==> Exists(key, rows) || Exists(key, txs))
  {
    ImportCounts(key, Progress(rows, 0, 0, 0), txs, 0, accepts);
    FirstBatchCountPositive(key, txs, 0);
    assert txs[0..] == txs;
  }

  /** Every transaction is inserted, skipped or part of a rejected batch. */
  lemma {:induction false} NothingIsLost(o: Progress, txs: seq<Transaction>, from: nat, accepts: Accepts)
    requires from <= |txs|
    ensures
      var after := ImportFrom(o, txs, from, accepts);
      && after.inserted + after.skipped + after.failed == o.inserted + o.skipped + o.failed + |txs| - from
      && |after.rows| == |o.rows| + after.inserted - o.inserted
      && o.rows <= after.rows
      && (AllAccepted(accepts) ==> after.failed == o.failed)
    decreases |txs| - from
  {
    if from < |txs| {
      var batch := txs[from..BatchEnd(txs, from)];
      NothingIsLost(AfterBatch(o, batch, accepts(from)), txs, BatchEnd(txs, from), accepts);
    }
  }

  /** Whatever is added is a listed transaction, filed under KuCoin, whose key was not stored before. */
  lemma {:induction false} AddedRowsAreListed(o: Progress, txs: seq<Transaction>, from: nat,
                                              accepts: Accepts, row: Transaction)
    requires from <= |txs| && row in ImportFrom(o, txs, from, accepts).rows && row !in o.rows
    ensures !Exists(row.key, o.rows) && row.exchange == "kucoin"
    ensures exists tx :: tx in txs && row == Filed(tx) && row.key == tx.key
    decreases |txs| - from
  {
    assert from < |txs|;
    var batch := txs[from..BatchEnd(txs, from)];
    var next := AfterBatch(o, batch, accepts(from));
    FilterMembers(IsNew(o.rows), FiledAll(batch));
    if row in next.rows {
      assert row in NewRows(o.rows, batch);
      var i :| 0 <= i < |batch| && row == Filed(batch[i]);
      assert batch[i] in txs;
    } else {
      AddedRowsAreListed(next, txs, BatchEnd(txs, from), accepts, row);
      CountAppend(row.key, o.rows, NewRows(o.rows, batch));
    }
  }

  lemma NoNewRows(rows: seq<Transaction>, batch: seq<Transaction>)
    requires forall tx :: tx in batch ==> Exists(tx.key, rows)
    ensures NewRows(rows, batch) == []
  {
    forall tx | tx in FiledAll(batch)
      ensures !IsNew(rows)(tx)
    {
      var i :| 0 <= i < |batch| && tx == Filed(batch[i]);
      assert batch[i] in batch;
    }
    FilterNone(IsNew(rows), FiledAll(batch));
  }

  lemma {:induction false} NothingNew(o: Progress, txs: seq<Transaction>, from: nat, accepts: Accepts)
    requires from <= |txs|
    requires forall tx :: tx in txs ==> Exists(tx.key, o.rows)
    ensures ImportFrom(o, txs, from, accepts) == o.(skipped := o.skipped + |txs| - from)
    decreases |txs| - from
  {
    if from < |txs| {
      var batch := txs[from..BatchEnd(txs, from)];
      NoNewRows(o.rows, batch);
      NothingNew(AfterBatch(o, batch, accepts(from)), txs, BatchEnd(txs, from), accepts);
    }
  }

  lemma {:induction false} CountMember(tx: Transaction, txs: seq<Transaction>)
    requires tx in txs
    ensures Exists(tx.key, txs)
  {
    FilterMembers(HasKey(tx.key), txs);
  }

  /** After an import without rejected batches, importing the same list again inserts nothing, even if batches
      repeat keys, and skips every transaction. */
  lemma SecondImportInsertsNothing(rows: seq<Transaction>, txs: seq<Transaction>, accepts: Accepts, later: Accepts)
    requires AllAccepted(accepts)
    ensures
      var after := ImportFrom(Progress(rows, 0, 0, 0), txs, 0, accepts).rows;
      ImportFrom(Progress(after, 0, 0, 0), txs, 0, later) == Progress(after, 0, |txs|, 0)
  {
    var after := ImportFrom(Progress(rows, 0, 0, 0), txs, 0, accepts).rows;
    forall tx | tx in txs
      ensures Exists(tx.key, after)
    {
      CountMember(tx, txs);
      ImportIsExact(rows, txs, accepts, tx.key);
    }
    NothingNew(Progress(after, 0, 0, 0), txs, 0, later);
  }

  /** For one: a transaction listed twice in a batch is inserted twice into an empty table. */
  lemma RepeatedTransactionIsInsertedTwice(tx: Transaction)
    ensures
      var o := ImportFrom(Progress([], 0, 0, 0), [tx, tx], 0, (from: nat) => true);
      o.rows == [Filed(tx), Filed(tx)] && o.inserted == 2 && o.skipped == 0
  {
    var empty := Progress([], 0, 0, 0);
    assert [tx, tx][0..2] == [tx, tx] && BatchEnd([tx, tx], 0) == 2;
    assert FiledAll([tx, tx]) == [Filed(tx), Filed(tx)];
    FilterNone(HasKey(tx.key), []);
    FilterAll(IsNew([]), [Filed(tx), Filed(tx)]);
    assert AfterBatch(empty, [tx, tx], true).rows == [Filed(tx), Filed(tx)];
  }

  // ---- Batches of a hundred ----

  /** The hundred, counted from the start, that holds position i. */
  function HundredOf(txs: seq<Transaction>, i: nat): seq<Transaction>
    requires i < |txs|
  {
    var first := i - i % 100;
    txs[first..if first + 100 < |txs| then first + 100 else |txs|]
  }

  /** A key that first occurs at position i is counted in the hundred that holds this position. */
  lemma {:induction false} FirstBatchIs(key: Key, txs: seq<Transaction>, from: nat, i: nat)
    requires from % 100 == 0 && from <= i < |txs| && txs[i].key == key
    requires forall j :: 0 <= j < i ==> txs[j].key != key
    ensures
      FirstBatchCount(key, txs, from) == Count(key, HundredOf(txs, i))
    decreases |txs| - from
  {
    var end := BatchEnd(txs, from);
    FilterMembers(HasKey(key), txs[from..end]);
    if i < end {
      assert i - i % 100 == from;
      assert txs[from..end][i - from] == txs[i];
      assert txs[i] in Filter(HasKey(key), txs[from..end]);
    } else {
      FilterNone(HasKey(key), txs[from..end]);
      FirstBatchIs(key, txs, end, i);
    }
  }

  /** A new key is stored as often as it occurs in the hundred of its first occurrence. */
  lemma NewKeyIsStored(rows: seq<Transaction>, txs: seq<Transaction>, accepts: Accepts, i: nat)
    requires AllAccepted(accepts) && i < |txs| && !Exists(txs[i].key, rows)
    requires forall j :: 0 <= j < i ==> txs[j].key != txs[i].key
    ensures Count(txs[i].key, ImportFrom(Progress(rows, 0, 0, 0), txs, 0, accepts).rows) ==
            Count(txs[i].key, HundredOf(txs, i))
  {
    ImportIsExact(rows, txs, accepts, txs[i].key);
    FirstBatchIs(txs[i].key, txs, 0, i);
  }
}
