/** The event indexer: what a handler extracts from a checkpoint, and what repeated commits leave in the table. */
module Indexer {
  import opened MoveTypes

  datatype EventType = EventType(address: string, moduleName: string, name: string)

  /** An emitted event; `payload` is `None` when its bytes do not decode as the event type it names. */
  datatype RawEvent = RawEvent(eventType: EventType, payload: Option<string>)

  datatype Command = MoveCall(package: string) | OtherCommand

  /** `inputTypes` holds the package of each input object's type, where the object has one. */
  datatype Transaction = Transaction(
    digest: string, sender: string, commands: seq<Command>, inputTypes: seq<Option<string>>,
    events: Option<seq<RawEvent>>)

  datatype Checkpoint = Checkpoint(number: nat, timestampMs: nat, transactions: seq<Transaction>)

  /** The known DeepBook packages, all versions of them. */
  datatype Env = Env(packages: seq<string>)

  /** A transaction that takes, emits or calls something of a DeepBook package. */
  predicate IsDeepbookTx(env: Env, tx: Transaction) {
    || (exists input :: input in tx.inputTypes && input.Some? && input.value in env.packages)
    || (tx.events.Some? && exists ev :: ev in tx.events.value && ev.eventType.address in env.packages)
    || (exists c :: c in tx.commands && c.MoveCall? && c.package in env.packages)
  }

  /** The packages that a transaction takes objects of, emits events of, or calls. */
  ghost function Touched(tx: Transaction): set<string> {
    (set input | input in tx.inputTypes && input.Some? :: input.value)
    + (if tx.events.None? then {} else set ev | ev in tx.events.value :: ev.eventType.address)
    + (set c | c in tx.commands && c.MoveCall? :: c.package)
  }

  /** The filter passes exactly the transactions that touch a known package. */
  lemma FilterPassesExactlyWhen(env: Env, tx: Transaction)
    ensures IsDeepbookTx(env, tx) <==> exists p :: p in env.packages && p in Touched(tx)
  {
    if tx.events.Some? {
      forall ev | ev in tx.events.value ensures ev.eventType.address in Touched(tx) { }
    }
    forall input | input in tx.inputTypes && input.Some? ensures input.value in Touched(tx) { }
    forall c | c in tx.commands && c.MoveCall? ensures c.package in Touched(tx) { }
  }

  /** The package of the first command, if that is a call. */
  function MoveCallPackage(tx: Transaction): string {
    if tx.commands != [] && tx.commands[0].MoveCall? then tx.commands[0].package else ""
  }

  datatype EventMeta = EventMeta(
    digest: string, sender: string, checkpoint: nat, timestampMs: nat, package: string, eventIndex: nat)
  {
    function WithIndex(index: nat): EventMeta { this.(eventIndex := index) }

    /** The primary key of every table. */
    function EventDigest(): string { Key(digest, eventIndex) }
  }

  function Digit(d: nat): char
    requires d < 10
  {
    "0123456789"[d]
  }

  function Decimal(n: nat): (s: string)
    ensures |s| > 0
  {
    if n < 10 then [Digit(n)] else Decimal(n / 10) + [Digit(n % 10)]
  }

  function Key(digest: string, index: nat): string { digest + Decimal(index) }

  function MetaOf(cp: Checkpoint, tx: Transaction): EventMeta {
    EventMeta(tx.digest, tx.sender, cp.number, cp.timestampMs, MoveCallPackage(tx), 0)
  }

  /** A handler knows its environment and, for its event type, the packages that may define it. */
  datatype Handler = Handler(name: string, env: Env, addresses: seq<string>, moduleName: string, eventName: string) {
    predicate Matches(t: EventType) { t.address in addresses && t.moduleName == moduleName && t.name == eventName }
  }

  datatype Row = Row(eventDigest: string, meta: EventMeta, handler: string, payload: string)

  function MakeRow(h: Handler, meta: EventMeta, payload: string): Row {
    Row(meta.EventDigest(), meta, h.name, payload)
  }

  // ---- process

  /** The rows of the first `n` events; one event that does not decode fails the whole checkpoint. */
  function EventRows(h: Handler, cp: Checkpoint, tx: Transaction, n: nat): Option<seq<Row>>
    requires tx.events.Some? && n <= |tx.events.value|
  {
    if n == 0 then Some([])
    else
      var ev := tx.events.value[n - 1];
      match EventRows(h, cp, tx, n - 1)
      case None => None
      case Some(rows) =>
        if !h.Matches(ev.eventType) then Some(rows)
        else if ev.payload.None? then None
        else Some(rows + [MakeRow(h, MetaOf(cp, tx).WithIndex(n - 1), ev.payload.value)])
  }

  function TransactionRows(h: Handler, cp: Checkpoint, n: nat): Option<seq<Row>>
    requires n <= |cp.transactions|
  {
    if n == 0 then Some([])
    else
      var tx := cp.transactions[n - 1];
      match TransactionRows(h, cp, n - 1)
      case None => None
      case Some(rows) =>
        if !IsDeepbookTx(h.env, tx) || tx.events.None? then Some(rows)
        else match EventRows(h, cp, tx, |tx.events.value|)
          case None => None
          case Some(more) => Some(rows + more)
  }

  function Rows(h: Handler, cp: Checkpoint): Option<seq<Row>> { TransactionRows(h, cp, |cp.transactions|) }

  lemma {:induction false} EventFailureSticks(h: Handler, cp: Checkpoint, tx: Transaction, n: nat, m: nat)
    requires tx.events.Some? && n <= m <= |tx.events.value| && EventRows(h, cp, tx, n) == None
    ensures EventRows(h, cp, tx, m) == None
  {
    if n < m { EventFailureSticks(h, cp, tx, n, m - 1); }
  }

  lemma {:induction false} TransactionFailureSticks(h: Handler, cp: Checkpoint, n: nat, m: nat)
    requires n <= m <= |cp.transactions| && TransactionRows(h, cp, n) == None
    ensures TransactionRows(h, cp, m) == None
  {
    if n < m { TransactionFailureSticks(h, cp, n, m - 1); }
  }

  method Process(h: Handler, cp: Checkpoint) returns (results: Option<seq<Row>>)
    ensures results == Rows(h, cp)
  {
    var rows: seq<Row> := [];
    for t := 0 to |cp.transactions|
      invariant TransactionRows(h, cp, t) == Some(rows)
    {
      var tx := cp.transactions[t];
      if !IsDeepbookTx(h.env, tx) { continue; }
      if tx.events.None? { continue; }
      var baseMeta := MetaOf(cp, tx);
      ghost var before := rows;
      for index := 0 to |tx.events.value|
        invariant EventRows(h, cp, tx, index).Some? && rows == before + EventRows(h, cp, tx, index).value
      {
        var ev := tx.events.value[index];
        if h.Matches(ev.eventType) {
          if ev.payload.None? {
            EventFailureSticks(h, cp, tx, index + 1, |tx.events.value|);
            TransactionFailureSticks(h, cp, t + 1, |cp.transactions|);
            return None;
          }
          rows := rows + [MakeRow(h, baseMeta.WithIndex(index), ev.payload.value)];
        }
      }
    }
    return Some(rows);
  }

  // ---- commit

  type TableRows = map<string, Row>

  /** Insert each row unless its key is taken. */
  function Inserted(table: TableRows, rows: seq<Row>): TableRows
    decreases |rows|
  {
    if rows == [] then table
    else Inserted(if rows[0].eventDigest in table then table else table[rows[0].eventDigest := rows[0]], rows[1..])
  }

  class Table {
    var rows: TableRows

    constructor ()
      ensures rows == map[]
    {
      rows := map[];
    }

    method Commit(values: seq<Row>) returns (count: nat)
      modifies this
      ensures rows == Inserted(old(rows), values)
      ensures count == |rows| - |old(rows)|
    {
      count := 0;
      for i := 0 to |values|
        invariant Inserted(old(rows), values) == Inserted(rows, values[i..])
        invariant count == |rows| - |old(rows)|
      {
        assert values[i..][0] == values[i] && values[i..][1..] == values[i + 1..];
        if values[i].eventDigest !in rows {
          rows := rows[values[i].eventDigest := values[i]];
          count := count + 1;
        }
      }
    }
  }

  // ---- keys

  /** What a string of digits stands for. */
  function Value(digits: string): int {
    if digits == [] then 0
    else 10 * Value(digits[..|digits| - 1]) + (digits[|digits| - 1] as int - '0' as int)
  }

  lemma DigitHasItsValue(d: nat)
    requires d < 10
    ensures Digit(d) as int == '0' as int + d
  {
    assert d == 0 || d == 1 || d == 2 || d == 3 || d == 4 || d == 5 || d == 6 || d == 7 || d == 8 || d == 9;
  }

  /** An index is written in decimal digits that stand for it, without leading zeros. */
  lemma {:induction false} DecimalRoundTrip(n: nat)
    ensures Value(Decimal(n)) == n
    ensures forall c :: c in Decimal(n) ==> '0' <= c <= '9'
    ensures n > 0 ==> Decimal(n)[0] != '0'
  {
    var s := Decimal(n);
    DigitHasItsValue(n % 10);
    if n < 10 {
      assert s[..0] == [];
    } else {
      DecimalRoundTrip(n / 10);
      assert s[..|s| - 1] == Decimal(n / 10);
    }
  }

  lemma DecimalInjective(a: nat, b: nat)
    requires Decimal(a) == Decimal(b)
    ensures a == b
  {
    DecimalRoundTrip(a);
    DecimalRoundTrip(b);
  }

  /** Among digests of one length the key determines the digest and the index. */
  lemma KeyInjective(digest: string, index: nat, digest': string, index': nat)
    requires |digest| == |digest'| && Key(digest, index) == Key(digest', index')
    ensures digest == digest' && index == index'
  {
    var k := Key(digest, index);
    assert digest == k[..|digest|] == digest' && Decimal(index) == k[|digest|..] == Decimal(index');
    DecimalInjective(index, index');
  }

  lemma ConcatenationsAgreeExactlyWhen(a: string, b: string, a': string, b': string)
    requires |a| <= |a'|
    ensures a + b == a' + b' <==> a <= a' && b == a'[|a|..] + b'
  {
    assert (a + b)[..|a|] == a && (a + b)[|a|..] == b;
    assert (a' + b')[..|a|] == a'[..|a|] && (a' + b')[|a|..] == a'[|a|..] + b';
    assert a' == a'[..|a|] + a'[|a|..];
  }

  /** In general two keys clash exactly when the longer digest spells out the first digits of the other's index. */
  lemma KeysClashExactlyWhen(digest: string, index: nat, digest': string, index': nat)
    requires |digest| <= |digest'|
    ensures Key(digest, index) == Key(digest', index') <==>
            digest <= digest' && Decimal(index) == digest'[|digest|..] + Decimal(index')
  {
    ConcatenationsAgreeExactlyWhen(digest, Decimal(index), digest', Decimal(index'));
  }

  /** A digest of 43 base58 characters; it and the one below both encode 32 bytes. */
  const SHORT_DIGEST: string := "8opHzTAnfzRpPEx21XtnrVTX28YQuCpAjcn1PczSfzY"
  const LONG_DIGEST: string := SHORT_DIGEST + "1"

  lemma KeysOfUnequalDigestsCanClash()
    ensures SHORT_DIGEST != LONG_DIGEST && Key(SHORT_DIGEST, 11) == Key(LONG_DIGEST, 1)
  {
    assert Decimal(11) == Decimal(1) + [Digit(1)];
    assert |LONG_DIGEST| == |SHORT_DIGEST| + 1;
    KeysClashExactlyWhen(SHORT_DIGEST, 11, LONG_DIGEST, 1);
    assert LONG_DIGEST[|SHORT_DIGEST|..] == "1";
  }
}
