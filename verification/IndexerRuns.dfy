/** Handlers run in any order, again and again, and their commits may be lost: the table converges all the same. */
module IndexerRuns {
  import opened MoveTypes
  import opened Indexer

  /** One handler on one checkpoint; `committed` is false when the work was lost before the commit. */
  datatype Attempt = Attempt(handler: Handler, checkpoint: Checkpoint, committed: bool)

  /** What the handler gets out of the checkpoint; nothing when processing fails. */
  function Batch(h: Handler, cp: Checkpoint): seq<Row> {
    match Rows(h, cp)
    case None => []
    case Some(rows) => rows
  }

  function Next(table: TableRows, a: Attempt): TableRows {
    if a.committed then Inserted(table, Batch(a.handler, a.checkpoint)) else table
  }

  function Run(table: TableRows, schedule: seq<Attempt>): TableRows
    decreases |schedule|
  {
    if schedule == [] then table else Run(Next(table, schedule[0]), schedule[1..])
  }

  /** Every handler once on every checkpoint, checkpoint by checkpoint. */
  function InOrder(handlers: seq<Handler>, checkpoints: seq<Checkpoint>): seq<Attempt> {
    if checkpoints == [] then []
    else seq(|handlers|, i requires 0 <= i < |handlers| => Attempt(handlers[i], checkpoints[0], true))
         + InOrder(handlers, checkpoints[1..])
  }

  /** Only these handlers and checkpoints, and each pair committed at least once. */
  ghost predicate Covers(schedule: seq<Attempt>, handlers: seq<Handler>, checkpoints: seq<Checkpoint>) {
    && (forall a :: a in schedule ==> a.handler in handlers && a.checkpoint in checkpoints)
    && (forall h, cp :: h in handlers && cp in checkpoints ==> Attempt(h, cp, true) in schedule)
  }

  ghost predicate UniqueDigests(checkpoints: seq<Checkpoint>) {
    forall cp, cp', tx, tx' ::
      (cp in checkpoints && cp' in checkpoints && tx in cp.transactions && tx' in cp'.transactions &&
       tx.digest == tx'.digest) ==> cp == cp' && tx == tx'
  }

  /** No two events that some handler picks up get the same key. */
  ghost predicate KeysSeparate(handlers: seq<Handler>, checkpoints: seq<Checkpoint>) {
    forall tx, tx', i: nat, i': nat ::
      (PickedUp(handlers, checkpoints, tx, i) && PickedUp(handlers, checkpoints, tx', i') &&
       Key(tx.digest, i) == Key(tx'.digest, i')) ==> tx.digest == tx'.digest && i == i'
  }

  ghost predicate PickedUp(handlers: seq<Handler>, checkpoints: seq<Checkpoint>, tx: Transaction, i: nat) {
    exists h, cp :: h in handlers && cp in checkpoints && Relevant(h, cp, tx, i)
  }

  /** In particular when all digests have one length. */
  lemma EqualLengthsSeparate(handlers: seq<Handler>, checkpoints: seq<Checkpoint>, length: nat)
    requires forall tx, i: nat :: PickedUp(handlers, checkpoints, tx, i) ==> |tx.digest| == length
    ensures KeysSeparate(handlers, checkpoints)
  {
    forall tx, tx', i: nat, i': nat |
      PickedUp(handlers, checkpoints, tx, i) && PickedUp(handlers, checkpoints, tx', i') &&
      Key(tx.digest, i) == Key(tx'.digest, i')
      ensures tx.digest == tx'.digest && i == i'
    {
      KeyInjective(tx.digest, i, tx'.digest, i');
    }
  }

  /** Handlers that share the table look at different event types. */
  ghost predicate DisjointHandlers(handlers: seq<Handler>) {
    forall h, h', t :: h in handlers && h' in handlers && h.Matches(t) && h'.Matches(t) ==> h == h'
  }

  ghost predicate Produced(handlers: seq<Handler>, checkpoints: seq<Checkpoint>, row: Row) {
    exists h, cp :: h in handlers && cp in checkpoints && row in Batch(h, cp)
  }

  /** An event of the handler's type in a transaction that passes the filter. */
  ghost predicate Relevant(h: Handler, cp: Checkpoint, tx: Transaction, i: nat) {
    && tx in cp.transactions && IsDeepbookTx(h.env, tx) && tx.events.Some? && i < |tx.events.value|
    && h.Matches(tx.events.value[i].eventType)
  }

  /** The filter hides no event of a type that a known package defines. */
  lemma FilterHidesNothing(h: Handler, tx: Transaction, i: nat)
    requires forall a :: a in h.addresses ==> a in h.env.packages
    requires tx.events.Some? && i < |tx.events.value| && h.Matches(tx.events.value[i].eventType)
    ensures IsDeepbookTx(h.env, tx)
  {
    assert tx.events.value[i] in tx.events.value;
  }

  /** Where a row comes from. */
  ghost predicate ComesFrom(row: Row, h: Handler, cp: Checkpoint, tx: Transaction, i: nat) {
    && Relevant(h, cp, tx, i) && tx.events.value[i].payload.Some?
    && row == MakeRow(h, MetaOf(cp, tx).WithIndex(i), tx.events.value[i].payload.value)
  }

  ghost predicate Traced(row: Row, h: Handler, cp: Checkpoint) { exists tx, i: nat :: ComesFrom(row, h, cp, tx, i) }

  lemma {:induction false} EventRowsComeFrom(h: Handler, cp: Checkpoint, tx: Transaction, n: nat, row: Row)
    requires tx in cp.transactions && IsDeepbookTx(h.env, tx) && tx.events.Some? && n <= |tx.events.value|
    requires EventRows(h, cp, tx, n).Some? && row in EventRows(h, cp, tx, n).value
    ensures exists i: nat :: ComesFrom(row, h, cp, tx, i)
  {
    if row in EventRows(h, cp, tx, n - 1).value {
      EventRowsComeFrom(h, cp, tx, n - 1, row);
    } else {
      assert ComesFrom(row, h, cp, tx, n - 1);
    }
  }

  lemma {:induction false} RowsComeFrom(h: Handler, cp: Checkpoint, n: nat, row: Row)
    requires n <= |cp.transactions| && TransactionRows(h, cp, n).Some? && row in TransactionRows(h, cp, n).value
    ensures Traced(row, h, cp)
  {
    var tx := cp.transactions[n - 1];
    if row in TransactionRows(h, cp, n - 1).value {
      RowsComeFrom(h, cp, n - 1, row);
    } else {
      EventRowsComeFrom(h, cp, tx, |tx.events.value|, row);
      var i: nat :| ComesFrom(row, h, cp, tx, i);
    }
  }

  lemma {:induction false} EventRowsAreComplete(h: Handler, cp: Checkpoint, tx: Transaction, n: nat, i: nat)
    requires Relevant(h, cp, tx, i) && i < n <= |tx.events.value| && EventRows(h, cp, tx, n).Some?
    ensures tx.events.value[i].payload.Some?
    ensures MakeRow(h, MetaOf(cp, tx).WithIndex(i), tx.events.value[i].payload.value) in EventRows(h, cp, tx, n).value
  {
    if i < n - 1 { EventRowsAreComplete(h, cp, tx, n - 1, i); }
  }

  lemma {:induction false} TransactionRowsAreComplete(h: Handler, cp: Checkpoint, n: nat, k: nat, i: nat)
    requires k < n <= |cp.transactions| && Relevant(h, cp, cp.transactions[k], i) && TransactionRows(h, cp, n).Some?
    ensures var tx := cp.transactions[k];
            && tx.events.value[i].payload.Some?
            && MakeRow(h, MetaOf(cp, tx).WithIndex(i), tx.events.value[i].payload.value)
               in TransactionRows(h, cp, n).value
  {
    if k < n - 1 {
      TransactionRowsAreComplete(h, cp, n - 1, k, i);
    } else {
      var tx := cp.transactions[k];
      EventRowsAreComplete(h, cp, tx, |tx.events.value|, i);
    }
  }

  /** A processed checkpoint yields a row for exactly its relevant events, each decoded. */
  lemma RowsAreExact(h: Handler, cp: Checkpoint, row: Row)
    requires Rows(h, cp).Some?
    ensures row in Rows(h, cp).value <==> Traced(row, h, cp)
    ensures forall tx, i: nat :: Relevant(h, cp, tx, i) ==> tx.events.value[i].payload.Some?
  {
    if row in Rows(h, cp).value { RowsComeFrom(h, cp, |cp.transactions|, row); }
    forall tx, i: nat | Relevant(h, cp, tx, i)
      ensures tx.events.value[i].payload.Some? && (ComesFrom(row, h, cp, tx, i) ==> row in Rows(h, cp).value)
    {
      var k :| 0 <= k < |cp.transactions| && cp.transactions[k] == tx;
      TransactionRowsAreComplete(h, cp, |cp.transactions|, k, i);
    }
    forall tx, i: nat | ComesFrom(row, h, cp, tx, i) ensures row in Rows(h, cp).value {
      assert Relevant(h, cp, tx, i);
    }
  }

  /** Processing fails exactly when some relevant event does not decode. */
  lemma {:induction false} ProcessFailsExactlyWhen(h: Handler, cp: Checkpoint)
    ensures Rows(h, cp) == None <==> exists tx, i: nat :: Relevant(h, cp, tx, i) && tx.events.value[i].payload.None?
  {
    if Rows(h, cp) == None {
      FailureHasACause(h, cp, |cp.transactions|);
    } else {
      var any: Row :| true;
      RowsAreExact(h, cp, any);
    }
  }

  lemma {:induction false} FailureHasACause(h: Handler, cp: Checkpoint, n: nat)
    requires n <= |cp.transactions| && TransactionRows(h, cp, n) == None
    ensures exists tx, i: nat :: Relevant(h, cp, tx, i) && tx.events.value[i].payload.None?
  {
    if TransactionRows(h, cp, n - 1) == None {
      FailureHasACause(h, cp, n - 1);
    } else {
      var tx := cp.transactions[n - 1];
      EventFailureHasACause(h, cp, tx, |tx.events.value|);
    }
  }

  lemma {:induction false} EventFailureHasACause(h: Handler, cp: Checkpoint, tx: Transaction, n: nat)
    requires tx in cp.transactions && IsDeepbookTx(h.env, tx) && tx.events.Some? && n <= |tx.events.value|
    requires EventRows(h, cp, tx, n) == None
    ensures exists i: nat :: Relevant(h, cp, tx, i) && tx.events.value[i].payload.None?
  {
    if EventRows(h, cp, tx, n - 1) == None {
      EventFailureHasACause(h, cp, tx, n - 1);
    } else {
      assert Relevant(h, cp, tx, n - 1);
    }
  }

  /** The event is of the handler's type: defined by one of its packages, with its module and name. */
  ghost predicate Holds(h: Handler, cp: Checkpoint, tx: Transaction, i: nat) {
    && tx in cp.transactions && tx.events.Some? && i < |tx.events.value|
    && tx.events.value[i].eventType.address in h.addresses
    && tx.events.value[i].eventType.moduleName == h.moduleName && tx.events.value[i].eventType.name == h.eventName
  }

  /** The row of an event, field by field. */
  function RowFor(h: Handler, cp: Checkpoint, tx: Transaction, i: nat, payload: string): Row {
    var package := if tx.commands != [] && tx.commands[0].MoveCall? then tx.commands[0].package else "";
    Row(tx.digest + Decimal(i), EventMeta(tx.digest, tx.sender, cp.number, cp.timestampMs, package, i), h.name, payload)
  }

  lemma HoldsExactlyWhenRelevant(h: Handler, cp: Checkpoint, tx: Transaction, i: nat)
    requires forall a :: a in h.addresses ==> a in h.env.packages
    ensures Holds(h, cp, tx, i) <==> Relevant(h, cp, tx, i)
  {
    if Holds(h, cp, tx, i) { FilterHidesNothing(h, tx, i); }
  }

  /**
   * A handler for types of known packages sees every event of its type, filter or not: processing fails exactly
   * when one of them does not decode, and otherwise yields exactly their rows.
   */
  lemma ProcessingCarriesTheEvents(h: Handler, cp: Checkpoint, row: Row)
    requires forall a :: a in h.addresses ==> a in h.env.packages
    ensures Rows(h, cp) == None <==> exists tx, i: nat :: Holds(h, cp, tx, i) && tx.events.value[i].payload.None?
    ensures Rows(h, cp).Some? ==>
      (row in Rows(h, cp).value <==>
         exists tx, i: nat :: Holds(h, cp, tx, i) && tx.events.value[i].payload.Some?
                              && row == RowFor(h, cp, tx, i, tx.events.value[i].payload.value))
  {
    forall tx, i: nat ensures Holds(h, cp, tx, i) <==> Relevant(h, cp, tx, i) {
      HoldsExactlyWhenRelevant(h, cp, tx, i);
    }
    ProcessFailsExactlyWhen(h, cp);
    if Rows(h, cp).Some? {
      RowsAreExact(h, cp, row);
      forall tx, i: nat | Holds(h, cp, tx, i) && tx.events.value[i].payload.Some?
        ensures row == RowFor(h, cp, tx, i, tx.events.value[i].payload.value) <==> ComesFrom(row, h, cp, tx, i)
      {
      }
    }
  }

  lemma ProducedRowsComeFrom(handlers: seq<Handler>, checkpoints: seq<Checkpoint>, row: Row)
    returns (h: Handler, cp: Checkpoint, tx: Transaction, i: nat)
    requires Produced(handlers, checkpoints, row)
    ensures h in handlers && cp in checkpoints && ComesFrom(row, h, cp, tx, i)
    ensures PickedUp(handlers, checkpoints, tx, i)
  {
    h, cp :| h in handlers && cp in checkpoints && row in Batch(h, cp);
    RowsComeFrom(h, cp, |cp.transactions|, row);
    tx, i :| ComesFrom(row, h, cp, tx, i);
  }

  /** The key of a row identifies the event, hence the handler, hence the row. */
  lemma KeysIdentifyRows(handlers: seq<Handler>, checkpoints: seq<Checkpoint>, r: Row, r': Row)
    requires UniqueDigests(checkpoints) && KeysSeparate(handlers, checkpoints) && DisjointHandlers(handlers)
    requires Produced(handlers, checkpoints, r) && Produced(handlers, checkpoints, r')
    requires r.eventDigest == r'.eventDigest
    ensures r == r'
  {
    var h, cp, tx, i := ProducedRowsComeFrom(handlers, checkpoints, r);
    var h', cp', tx', i' := ProducedRowsComeFrom(handlers, checkpoints, r');
    assert Key(tx.digest, i) == Key(tx'.digest, i');
  }

  // ---- when do all schedules leave the same table?

  /** The first row with a given key: the one that a batch brings into a table without that key. */
  function FirstWith(rows: seq<Row>, key: string): Option<Row> {
    if rows == [] then None
    else if rows[0].eventDigest == key then Some(rows[0])
    else FirstWith(rows[1..], key)
  }

  lemma {:induction false} FirstWithIsMember(rows: seq<Row>, key: string)
    requires FirstWith(rows, key).Some?
    ensures FirstWith(rows, key).value in rows && FirstWith(rows, key).value.eventDigest == key
  {
    if rows[0].eventDigest != key { FirstWithIsMember(rows[1..], key); }
  }

  /** Any two batches that contain a key have the same first row for it. */
  ghost predicate BatchesAgree(handlers: seq<Handler>, checkpoints: seq<Checkpoint>) {
    forall h, cp, h', cp', key ::
      (h in handlers && cp in checkpoints && h' in handlers && cp' in checkpoints &&
       FirstWith(Batch(h, cp), key).Some? && FirstWith(Batch(h', cp'), key).Some?) ==>
        FirstWith(Batch(h, cp), key) == FirstWith(Batch(h', cp'), key)
  }

  /** Every row of the table is the first one with its key in some batch. */
  ghost predicate Sourced(table: TableRows, handlers: seq<Handler>, checkpoints: seq<Checkpoint>) {
    forall key :: key in table ==> HasSource(table[key], key, handlers, checkpoints)
  }

  ghost predicate HasSource(row: Row, key: string, handlers: seq<Handler>, checkpoints: seq<Checkpoint>) {
    exists h, cp :: h in handlers && cp in checkpoints && FirstWith(Batch(h, cp), key) == Some(row)
  }

  lemma {:induction false} InsertedLookup(table: TableRows, rows: seq<Row>, key: string)
    ensures key in table ==> key in Inserted(table, rows) && Inserted(table, rows)[key] == table[key]
    ensures key !in table ==> (key in Inserted(table, rows) <==> FirstWith(rows, key).Some?)
    ensures key !in table && key in Inserted(table, rows) ==> FirstWith(rows, key) == Some(Inserted(table, rows)[key])
    decreases |rows|
  {
    if rows != [] {
      var r := rows[0];
      InsertedLookup(if r.eventDigest in table then table else table[r.eventDigest := r], rows[1..], key);
    }
  }

  lemma {:induction false} RunLookup(
    table: TableRows, schedule: seq<Attempt>, handlers: seq<Handler>, checkpoints: seq<Checkpoint>, key: string)
    requires Sourced(table, handlers, checkpoints)
    requires forall a :: a in schedule ==> a.handler in handlers && a.checkpoint in checkpoints
    ensures key in table ==> key in Run(table, schedule) && Run(table, schedule)[key] == table[key]
    ensures key in Run(table, schedule) ==> HasSource(Run(table, schedule)[key], key, handlers, checkpoints)
    ensures forall a :: a in schedule && a.committed && FirstWith(Batch(a.handler, a.checkpoint), key).Some? ==>
              key in Run(table, schedule)
    decreases |schedule|
  {
    if schedule != [] {
      var a := schedule[0];
      assert a in schedule;
      forall k ensures k in Next(table, a) ==> HasSource(Next(table, a)[k], k, handlers, checkpoints) {
        InsertedLookup(table, Batch(a.handler, a.checkpoint), k);
      }
      InsertedLookup(table, Batch(a.handler, a.checkpoint), key);
      RunLookup(Next(table, a), schedule[1..], handlers, checkpoints, key);
    }
  }

  /** The first row with a key that some attempt of the schedule committed. */
  function FirstCommitted(schedule: seq<Attempt>, key: string): Option<Row> {
    if schedule == [] then None
    else if schedule[0].committed && FirstWith(Batch(schedule[0].handler, schedule[0].checkpoint), key).Some?
    then FirstWith(Batch(schedule[0].handler, schedule[0].checkpoint), key)
    else FirstCommitted(schedule[1..], key)
  }

  /** After any schedule the table holds, key by key, what was committed first; lost work leaves no trace. */
  lemma {:induction false} FirstCommitWins(table: TableRows, schedule: seq<Attempt>, key: string)
    ensures var after, first := Run(table, schedule), FirstCommitted(schedule, key);
            if key in table then key in after && after[key] == table[key]
            else (key in after <==> first.Some?) && (key in after ==> Some(after[key]) == first)
    decreases |schedule|
  {
    if schedule != [] {
      var a := schedule[0];
      InsertedLookup(table, Batch(a.handler, a.checkpoint), key);
      FirstCommitWins(Next(table, a), schedule[1..], key);
    }
  }

  lemma AgreeingBatchesConverge(
    s: seq<Attempt>, s': seq<Attempt>, handlers: seq<Handler>, checkpoints: seq<Checkpoint>, key: string)
    requires BatchesAgree(handlers, checkpoints)
    requires Covers(s, handlers, checkpoints) && Covers(s', handlers, checkpoints)
    ensures key in Run(map[], s) ==> key in Run(map[], s') && Run(map[], s')[key] == Run(map[], s)[key]
  {
    RunLookup(map[], s, handlers, checkpoints, key);
    RunLookup(map[], s', handlers, checkpoints, key);
    if key in Run(map[], s) {
      var h, cp :| h in handlers && cp in checkpoints && FirstWith(Batch(h, cp), key) == Some(Run(map[], s)[key]);
      assert Attempt(h, cp, true) in s';
      var h', cp' :| h' in handlers && cp' in checkpoints && FirstWith(Batch(h', cp'), key) == Some(Run(map[], s')[key]);
    }
  }

  lemma {:induction false} InOrderCovers(handlers: seq<Handler>, checkpoints: seq<Checkpoint>)
    ensures Covers(InOrder(handlers, checkpoints), handlers, checkpoints)
  {
    if checkpoints != [] {
      InOrderCovers(handlers, checkpoints[1..]);
      var first := seq(|handlers|, i requires 0 <= i < |handlers| => Attempt(handlers[i], checkpoints[0], true));
      forall h, cp | h in handlers && cp in checkpoints ensures Attempt(h, cp, true) in InOrder(handlers, checkpoints) {
        if cp == checkpoints[0] {
          var i :| 0 <= i < |handlers| && handlers[i] == h;
          assert first[i] == Attempt(h, cp, true);
        } else {
          assert cp in checkpoints[1..];
        }
      }
    }
  }

  /** One batch first, then everything in order: the batch wins its keys. */
  lemma HeadStart(h: Handler, cp: Checkpoint, handlers: seq<Handler>, checkpoints: seq<Checkpoint>, key: string)
    returns (s: seq<Attempt>)
    requires h in handlers && cp in checkpoints && FirstWith(Batch(h, cp), key).Some?
    ensures Covers(s, handlers, checkpoints)
    ensures key in Run(map[], s) && FirstWith(Batch(h, cp), key) == Some(Run(map[], s)[key])
  {
    var a := Attempt(h, cp, true);
    s := [a] + InOrder(handlers, checkpoints);
    InOrderCovers(handlers, checkpoints);
    assert s[1..] == InOrder(handlers, checkpoints);
    forall k ensures k in Next(map[], a) ==> HasSource(Next(map[], a)[k], k, handlers, checkpoints) {
      InsertedLookup(map[], Batch(h, cp), k);
    }
    InsertedLookup(map[], Batch(h, cp), key);
    RunLookup(Next(map[], a), s[1..], handlers, checkpoints, key);
  }

  /** All covering schedules leave the same table. */
  ghost predicate Converges(handlers: seq<Handler>, checkpoints: seq<Checkpoint>) {
    forall s, s' :: Covers(s, handlers, checkpoints) && Covers(s', handlers, checkpoints) ==>
      Run(map[], s) == Run(map[], s')
  }

  /**
   * Reordered, repeated and lost work never matters exactly when any two batches that compete for a key bring
   * the same row for it.
   */
  lemma ConvergesExactlyWhen(handlers: seq<Handler>, checkpoints: seq<Checkpoint>)
    ensures Converges(handlers, checkpoints) <==> BatchesAgree(handlers, checkpoints)
  {
    if BatchesAgree(handlers, checkpoints) {
      forall s, s' | Covers(s, handlers, checkpoints) && Covers(s', handlers, checkpoints)
        ensures Run(map[], s) == Run(map[], s')
      {
        forall key ensures key in Run(map[], s) <==> key in Run(map[], s')
                   ensures key in Run(map[], s) ==> Run(map[], s')[key] == Run(map[], s)[key]
        {
          AgreeingBatchesConverge(s, s', handlers, checkpoints, key);
          AgreeingBatchesConverge(s', s, handlers, checkpoints, key);
        }
      }
    }
    if Converges(handlers, checkpoints) {
      forall h, cp, h', cp', key |
        h in handlers && cp in checkpoints && h' in handlers && cp' in checkpoints &&
        FirstWith(Batch(h, cp), key).Some? && FirstWith(Batch(h', cp'), key).Some?
        ensures FirstWith(Batch(h, cp), key) == FirstWith(Batch(h', cp'), key)
      {
        var s := HeadStart(h, cp, handlers, checkpoints, key);
        var s' := HeadStart(h', cp', handlers, checkpoints, key);
      }
    }
  }

  /**
   * Any schedule of attempts, in any order, with repetitions and lost work, that gets every handler through
   * every checkpoint at least once leaves the table of one pass in order.
   */
  lemma CommitsConverge(schedule: seq<Attempt>, handlers: seq<Handler>, checkpoints: seq<Checkpoint>)
    requires Covers(schedule, handlers, checkpoints)
    requires UniqueDigests(checkpoints) && KeysSeparate(handlers, checkpoints) && DisjointHandlers(handlers)
    ensures Run(map[], schedule) == Run(map[], InOrder(handlers, checkpoints))
  {
    forall h, cp, h', cp', key |
      h in handlers && cp in checkpoints && h' in handlers && cp' in checkpoints &&
      FirstWith(Batch(h, cp), key).Some? && FirstWith(Batch(h', cp'), key).Some?
      ensures FirstWith(Batch(h, cp), key) == FirstWith(Batch(h', cp'), key)
    {
      FirstWithIsMember(Batch(h, cp), key);
      FirstWithIsMember(Batch(h', cp'), key);
      KeysIdentifyRows(handlers, checkpoints, FirstWith(Batch(h, cp), key).value, FirstWith(Batch(h', cp'), key).value);
    }
    ConvergesExactlyWhen(handlers, checkpoints);
    InOrderCovers(handlers, checkpoints);
  }

  /** Digests of one length suffice: no other assumption on keys is needed then. */
  lemma EqualLengthDigestsConverge(
    schedule: seq<Attempt>, handlers: seq<Handler>, checkpoints: seq<Checkpoint>, length: nat)
    requires Covers(schedule, handlers, checkpoints)
    requires UniqueDigests(checkpoints) && DisjointHandlers(handlers)
    requires forall cp, tx :: cp in checkpoints && tx in cp.transactions ==> |tx.digest| == length
    ensures Run(map[], schedule) == Run(map[], InOrder(handlers, checkpoints))
  {
    forall tx, i: nat | PickedUp(handlers, checkpoints, tx, i) ensures |tx.digest| == length {
      var h, cp :| h in handlers && cp in checkpoints && Relevant(h, cp, tx, i);
    }
    EqualLengthsSeparate(handlers, checkpoints, length);
    CommitsConverge(schedule, handlers, checkpoints);
  }

  lemma {:induction false} QuietEvents(h: Handler, cp: Checkpoint, tx: Transaction, n: nat)
    requires tx.events.Some? && n <= |tx.events.value|
    requires forall i :: 0 <= i < n ==> !h.Matches(tx.events.value[i].eventType)
    ensures EventRows(h, cp, tx, n) == Some([])
  {
    if n > 0 { QuietEvents(h, cp, tx, n - 1); }
  }

  /** A checkpoint whose one transaction emits a single event of interest, the last one. */
  lemma SingleRow(h: Handler, cp: Checkpoint, tx: Transaction, last: nat)
    requires cp.transactions == [tx] && tx.events.Some? && |tx.events.value| == last + 1
    requires forall i :: 0 <= i < last ==> !h.Matches(tx.events.value[i].eventType)
    requires Relevant(h, cp, tx, last) && tx.events.value[last].payload.Some?
    ensures Batch(h, cp) == [MakeRow(h, MetaOf(cp, tx).WithIndex(last), tx.events.value[last].payload.value)]
  {
    QuietEvents(h, cp, tx, last);
    assert TransactionRows(h, cp, 0) == Some([]);
  }

  /** Two checkpoints, each with one row, and the rows compete for a key: their order decides. */
  lemma CompetingRowsDiverge(h: Handler, cp: Checkpoint, cp': Checkpoint, r: Row, r': Row)
    requires Batch(h, cp) == [r] && Batch(h, cp') == [r'] && r.eventDigest == r'.eventDigest && r != r'
    ensures !Converges([h], [cp, cp'])
  {
    var key := r.eventDigest;
    assert FirstWith(Batch(h, cp), key) == Some(r) && FirstWith(Batch(h, cp'), key) == Some(r');
    assert h in [h] && cp in [cp, cp'] && cp' in [cp, cp'];
    ConvergesExactlyWhen([h], [cp, cp']);
  }

  lemma PairIsUnique(cp: Checkpoint, cp': Checkpoint, tx: Transaction, tx': Transaction)
    requires cp.transactions == [tx] && cp'.transactions == [tx'] && tx.digest != tx'.digest
    ensures UniqueDigests([cp, cp'])
  {
    forall c, c', u, u' |
      c in [cp, cp'] && c' in [cp, cp'] && u in c.transactions && u' in c'.transactions && u.digest == u'.digest
      ensures c == c' && u == u'
    {
      assert u == (if c == cp then tx else tx') && u' == (if c' == cp then tx else tx');
    }
  }

  const BALANCES: Handler :=
    Handler("balances", Env(["0x2c"]), ["0x2c"], "balance_manager", "BalanceEvent")
  const WANTED: RawEvent := RawEvent(EventType("0x2c", "balance_manager", "BalanceEvent"), Some("1"))
  const OTHER: RawEvent := RawEvent(EventType("0x2c", "order_info", "OrderPlaced"), Some("2"))

  /** A transaction that emits one balance event after `n` others. */
  function LateEvent(digest: string, n: nat): Transaction {
    Transaction(digest, "0xa", [], [], Some(seq(n, _ => OTHER) + [WANTED]))
  }

  function Alone(number: nat, tx: Transaction): Checkpoint { Checkpoint(number, number, [tx]) }

  lemma LateEventRow(digest: string, n: nat, number: nat)
    ensures var tx := LateEvent(digest, n);
            Batch(BALANCES, Alone(number, tx)) == [MakeRow(BALANCES, MetaOf(Alone(number, tx), tx).WithIndex(n), "1")]
  {
    var tx := LateEvent(digest, n);
    assert tx.events.value[n] == WANTED && forall i :: 0 <= i < n ==> tx.events.value[i] == OTHER;
    assert "order_info" != "balance_manager" by { assert |"order_info"| != |"balance_manager"|; }
    FilterHidesNothing(BALANCES, tx, n);
    SingleRow(BALANCES, Alone(number, tx), tx, n);
  }

  /** Wherever two keys of different digests clash, a log of two transactions depends on the order of commits. */
  lemma ClashingKeysDiverge(digest: string, n: nat, digest': string, n': nat)
    requires digest != digest' && Key(digest, n) == Key(digest', n')
    ensures var cp, cp' := Alone(1, LateEvent(digest, n)), Alone(2, LateEvent(digest', n'));
            UniqueDigests([cp, cp']) && DisjointHandlers([BALANCES]) && !Converges([BALANCES], [cp, cp'])
  {
    var tx, tx' := LateEvent(digest, n), LateEvent(digest', n');
    LateEventRow(digest, n, 1);
    LateEventRow(digest', n', 2);
    var r := MakeRow(BALANCES, MetaOf(Alone(1, tx), tx).WithIndex(n), "1");
    var r' := MakeRow(BALANCES, MetaOf(Alone(2, tx'), tx').WithIndex(n'), "1");
    assert r.meta.digest != r'.meta.digest;
    PairIsUnique(Alone(1, tx), Alone(2, tx'), tx, tx');
    CompetingRowsDiverge(BALANCES, Alone(1, tx), Alone(2, tx'), r, r');
  }

  /** An instance with well-formed digests of 43 and 44 characters. */
  lemma ClashingDigestsDiverge()
    ensures !Converges([BALANCES], [Alone(1, LateEvent(SHORT_DIGEST, 11)), Alone(2, LateEvent(LONG_DIGEST, 1))])
  {
    KeysOfUnequalDigestsCanClash();
    ClashingKeysDiverge(SHORT_DIGEST, 11, LONG_DIGEST, 1);
  }

  /** Committing two results as one batch is committing one after the other. */
  lemma {:induction false} BatchesSplit(table: TableRows, a: seq<Row>, b: seq<Row>)
    ensures Inserted(table, a + b) == Inserted(Inserted(table, a), b)
    decreases |a|
  {
    if a == [] {
      assert a + b == b;
    } else {
      assert (a + b)[1..] == a[1..] + b;
      BatchesSplit(if a[0].eventDigest in table then table else table[a[0].eventDigest := a[0]], a[1..], b);
    }
  }

  /** Two rows may be committed in either order exactly when they do not compete for one free key. */
  lemma CommitsCommuteExactlyWhen(table: TableRows, r: Row, r': Row)
    ensures Inserted(Inserted(table, [r]), [r']) == Inserted(Inserted(table, [r']), [r]) <==>
            r.eventDigest != r'.eventDigest || r == r' || r.eventDigest in table
  {
    InsertedOne(table, r);
    InsertedOne(table, r');
    InsertedOne(Inserted(table, [r]), r');
    InsertedOne(Inserted(table, [r']), r);
    if r.eventDigest == r'.eventDigest && r.eventDigest !in table {
      assert Inserted(table, [r])[r.eventDigest] == r && Inserted(table, [r'])[r.eventDigest] == r';
    }
  }

  lemma InsertedOne(table: TableRows, r: Row)
    ensures Inserted(table, [r]) == if r.eventDigest in table then table else table[r.eventDigest := r]
  {
    assert [r][1..] == [];
  }
}
