/** Net deposits up to an instant: whole hours from a materialised view, the last partial hour from the log. */
module NetDeposits {
  const HOUR_MS: int := 3_600_000

  /** A row of the balances log; `timestampMs` is signed, as in the table. */
  datatype BalanceRow = BalanceRow(asset: string, amount: int, deposit: bool, timestampMs: int) {
    function Signed(): int { if deposit then amount else -amount }
    function HourKey(): (string, int) { (asset, HourBucket(timestampMs)) }
  }

  /** One hour of one asset in the view. */
  datatype HourRow = HourRow(asset: string, hourBucketMs: int, delta: int) {
    function HourKey(): (string, int) { (asset, hourBucketMs) }
  }

  type Log = seq<BalanceRow>

  /** Division as SQL and Rust do it, towards zero. */
  function TruncatedDiv(a: int, b: int): int
    requires b > 0
  {
    if a >= 0 then a / b else -(-a / b)
  }

  function HourBucket(t: int): int { TruncatedDiv(t, HOUR_MS) * HOUR_MS }

  function Sum(log: Log, p: BalanceRow -> bool): int {
    if log == [] then 0 else (if p(log[0]) then log[0].Signed() else 0) + Sum(log[1..], p)
  }

  // ---- the view

  function HourSum(log: Log, key: (string, int)): int { Sum(log, (r: BalanceRow) => r.HourKey() == key) }

  /**
   * The view as its query defines it, over the log as it was at the last refresh: one row for each asset and hour
   * with events, in any order, holding that hour's signed sum.
   */
  ghost predicate SnapshotOf(view: seq<HourRow>, seen: Log) {
    && (forall i, j :: 0 <= i < j < |view| ==> view[i].HourKey() != view[j].HourKey())
    && (forall v :: v in view ==> v.delta == HourSum(seen, v.HourKey()) && InLog(seen, v))
    && (forall r :: r in seen ==> InHours(view, r))
  }

  predicate InLog(log: Log, v: HourRow) { exists r :: r in log && r.HourKey() == v.HourKey() }

  predicate InHours(view: seq<HourRow>, r: BalanceRow) { exists v :: v in view && v.HourKey() == r.HourKey() }

  // ---- the query

  function HourlyTotal(view: seq<HourRow>, asset: string, boundary: int): int {
    if view == [] then 0
    else (if view[0].asset == asset && view[0].hourBucketMs < boundary then view[0].delta else 0)
         + HourlyTotal(view[1..], asset, boundary)
  }

  function PartialHour(log: Log, asset: string, boundary: int, t: int): int {
    Sum(log, (r: BalanceRow) => r.asset == asset && boundary <= r.timestampMs < t)
  }

  function StripPrefix(asset: string): string { if "0x" <= asset then asset[2..] else asset }

  function WithPrefix(asset: string): string { if "0x" <= asset then asset else "0x" + asset }

  /** The full outer join of both sums, keyed by stored asset; an asset in neither has no row. */
  function JoinedRows(view: seq<HourRow>, log: Log, assetIds: seq<string>, t: int): map<string, int> {
    var boundary := HourBucket(t);
    var wanted := set id | id in assetIds :: StripPrefix(id);
    var hourly := set v | v in view && v.hourBucketMs < boundary && v.asset in wanted :: v.asset;
    var partial := set r | r in log && boundary <= r.timestampMs < t && r.asset in wanted :: r.asset;
    map asset | asset in hourly + partial :: HourlyTotal(view, asset, boundary) + PartialHour(log, asset, boundary, t)
  }

  /** The rows collected into the answer, with the prefix back; stored assets carry none. */
  function GetNetDepositsFromView(view: seq<HourRow>, log: Log, assetIds: seq<string>, t: int): map<string, int>
    requires forall asset :: asset in JoinedRows(view, log, assetIds, t) ==> !("0x" <= asset)
  {
    var rows := JoinedRows(view, log, assetIds, t);
    PrefixIsInjective(rows.Keys);
    map asset | asset in rows :: WithPrefix(asset) := rows[asset]
  }

  lemma PrefixIsInjective(assets: set<string>)
    requires forall a :: a in assets ==> !("0x" <= a)
    ensures forall a, b :: a in assets && b in assets && WithPrefix(a) == WithPrefix(b) ==> a == b
  {
    forall a, b | a in assets && b in assets && WithPrefix(a) == WithPrefix(b) ensures a == b {
      assert WithPrefix(a)[2..] == a && WithPrefix(b)[2..] == b;
    }
  }

  /** What the answer should be: every event strictly before `t`. */
  function DirectSum(log: Log, asset: string, t: int): int {
    Sum(log, (r: BalanceRow) => r.asset == asset && r.timestampMs < t)
  }

  /** All that came in (`deposit`), or all that went out, before an instant. */
  function Flow(log: Log, asset: string, t: int, deposit: bool): int {
    if log == [] then 0
    else (if log[0].asset == asset && log[0].deposit == deposit && log[0].timestampMs < t then log[0].amount else 0)
         + Flow(log[1..], asset, t, deposit)
  }

  lemma {:induction false} DirectSumIsDepositsLessWithdrawals(log: Log, asset: string, t: int)
    ensures DirectSum(log, asset, t) == Flow(log, asset, t, true) - Flow(log, asset, t, false)
  {
    if log != [] { DirectSumIsDepositsLessWithdrawals(log[1..], asset, t); }
  }

  // ---- sums

  lemma {:induction false} SumExtensional(log: Log, p: BalanceRow -> bool, q: BalanceRow -> bool)
    requires forall r :: r in log ==> p(r) == q(r)
    ensures Sum(log, p) == Sum(log, q)
  {
    if log != [] {
      assert log[0] in log;
      SumExtensional(log[1..], p, q);
    }
  }

  lemma {:induction false} SumSplits(log: Log, p: BalanceRow -> bool, q: BalanceRow -> bool, both: BalanceRow -> bool)
    requires forall r :: r in log ==> !(p(r) && q(r)) && (both(r) <==> p(r) || q(r))
    ensures Sum(log, both) == Sum(log, p) + Sum(log, q)
  {
    if log != [] {
      assert log[0] in log;
      SumSplits(log[1..], p, q, both);
    }
  }

  lemma {:induction false} SumOfNone(log: Log, p: BalanceRow -> bool)
    requires forall r :: r in log ==> !p(r)
    ensures Sum(log, p) == 0
  {
    if log != [] {
      assert log[0] in log;
      SumOfNone(log[1..], p);
    }
  }

  lemma {:induction false} SumConcat(a: Log, b: Log, p: BalanceRow -> bool)
    ensures Sum(a + b, p) == Sum(a, p) + Sum(b, p)
  {
    if a == [] {
      assert a + b == b;
    } else {
      assert (a + b)[1..] == a[1..] + b;
      SumConcat(a[1..], b, p);
    }
  }

  /** Adding up view rows is adding up the log over the hours those rows stand for. */
  lemma {:induction false} ViewSums(view: seq<HourRow>, log: Log, asset: string, boundary: int)
    requires forall i, j :: 0 <= i < j < |view| ==> view[i].HourKey() != view[j].HourKey()
    requires forall v :: v in view && v.hourBucketMs < boundary ==> v.delta == HourSum(log, v.HourKey())
    ensures HourlyTotal(view, asset, boundary) ==
      Sum(log, (r: BalanceRow) => InHours(view, r) && r.asset == asset && HourBucket(r.timestampMs) < boundary)
  {
    var all := (r: BalanceRow) => InHours(view, r) && r.asset == asset && HourBucket(r.timestampMs) < boundary;
    if view == [] {
      SumOfNone(log, all);
    } else {
      var v, rest := view[0], view[1..];
      assert v in view;
      ViewSums(rest, log, asset, boundary);
      var here := (r: BalanceRow) =>
        r.HourKey() == v.HourKey() && r.asset == asset && HourBucket(r.timestampMs) < boundary;
      var later := (r: BalanceRow) => InHours(rest, r) && r.asset == asset && HourBucket(r.timestampMs) < boundary;
      SumSplits(log, here, later, all);
      if v.asset == asset && v.hourBucketMs < boundary {
        SumExtensional(log, here, (r: BalanceRow) => r.HourKey() == v.HourKey());
      } else {
        SumOfNone(log, here);
      }
    }
  }

  // ---- which events are counted

  predicate CountedByView(ts: int, t: int) { HourBucket(ts) < HourBucket(t) }
  predicate CountedByPartialHour(ts: int, t: int) { HourBucket(t) <= ts < t }

  /**
   * Truncation rounds negative instants up: events in the hour before the epoch fall into hour zero, which
   * queries in the first hour skip, and a negative instant skips the rest of its own hour.
   */
  predicate Missed(ts: int, t: int) {
    if t >= 0 then t < HOUR_MS && -HOUR_MS < ts < 0 else ts < t && HourBucket(ts) == HourBucket(t)
  }

  /** The two halves never overlap or count too much, and what they leave out is what is missed. */
  lemma EventsAreCountedExactlyWhen(ts: int, t: int)
    ensures !(CountedByView(ts, t) && CountedByPartialHour(ts, t))
    ensures CountedByView(ts, t) || CountedByPartialHour(ts, t) <==> ts < t && !Missed(ts, t)
    ensures Missed(ts, t) ==> ts < t
  {
    BucketBounds(t);
    BucketBounds(ts);
    BucketsAreOrdered(ts, t);
    BucketsAreOrdered(t, ts);
    if ts >= 0 && t >= 0 { WholeHoursAhead(ts, t); }
  }

  lemma BucketBounds(t: int)
    ensures t >= 0 ==> 0 <= HourBucket(t) <= t < HourBucket(t) + HOUR_MS
    ensures t < 0 ==> HourBucket(t) - HOUR_MS < t <= HourBucket(t) <= 0
    ensures -HOUR_MS < t < HOUR_MS <==> HourBucket(t) == 0
  {
  }

  lemma BucketsAreOrdered(ts: int, t: int)
    ensures ts <= t ==> HourBucket(ts) <= HourBucket(t)
  {
    if ts <= t {
      var a, b := TruncatedDiv(ts, HOUR_MS), TruncatedDiv(t, HOUR_MS);
      assert a <= b;
    }
  }

  lemma WholeHoursAhead(ts: int, t: int)
    requires ts >= 0 && t >= 0
    ensures HourBucket(ts) < HourBucket(t) <==> ts < HourBucket(t)
  {
    BucketBounds(ts);
    BucketBounds(t);
    var a, b := ts / HOUR_MS, t / HOUR_MS;
    assert a < b ==> (a + 1) * HOUR_MS <= b * HOUR_MS;
    assert b <= a ==> b * HOUR_MS <= a * HOUR_MS;
  }

  function MissedSum(log: Log, asset: string, t: int): int {
    Sum(log, (r: BalanceRow) => r.asset == asset && Missed(r.timestampMs, t))
  }

  /** What the view does not know yet: events of past hours that were committed after its last refresh. */
  function LateSum(late: Log, asset: string, t: int): int {
    Sum(late, (r: BalanceRow) => r.asset == asset && CountedByView(r.timestampMs, t))
  }

  lemma ViewCountsWhatItHasSeen(view: seq<HourRow>, seen: Log, late: Log, asset: string, t: int)
    requires SnapshotOf(view, seen)
    ensures HourlyTotal(view, asset, HourBucket(t)) + LateSum(late, asset, t) ==
      Sum(seen + late, (r: BalanceRow) => r.asset == asset && CountedByView(r.timestampMs, t))
  {
    var counted := (r: BalanceRow) => r.asset == asset && CountedByView(r.timestampMs, t);
    ViewSums(view, seen, asset, HourBucket(t));
    SumExtensional(seen, counted,
      (r: BalanceRow) => InHours(view, r) && r.asset == asset && HourBucket(r.timestampMs) < HourBucket(t));
    SumConcat(seen, late, counted);
  }

  /**
   * Asset by asset the view query, the missed events and the late ones add up to the direct sum, whatever was
   * committed since the view was refreshed; so the query is right exactly when missed and late events of the
   * asset net to zero.
   */
  lemma ViewQueryIsDirectSum(view: seq<HourRow>, seen: Log, late: Log, asset: string, t: int)
    requires SnapshotOf(view, seen)
    ensures var log := seen + late;
            HourlyTotal(view, asset, HourBucket(t)) + PartialHour(log, asset, HourBucket(t), t)
            + MissedSum(log, asset, t) + LateSum(late, asset, t) == DirectSum(log, asset, t)
  {
    var log := seen + late;
    ViewCountsWhatItHasSeen(view, seen, late, asset, t);
    var hourly := (r: BalanceRow) => r.asset == asset && CountedByView(r.timestampMs, t);
    var partial := (r: BalanceRow) => r.asset == asset && HourBucket(t) <= r.timestampMs < t;
    var missed := (r: BalanceRow) => r.asset == asset && Missed(r.timestampMs, t);
    var counted := (r: BalanceRow) => r.asset == asset && r.timestampMs < t && !Missed(r.timestampMs, t);
    var direct := (r: BalanceRow) => r.asset == asset && r.timestampMs < t;
    forall r: BalanceRow
      ensures !(hourly(r) && partial(r)) && (counted(r) <==> hourly(r) || partial(r))
      ensures !(counted(r) && missed(r)) && (direct(r) <==> counted(r) || missed(r))
    {
      EventsAreCountedExactlyWhen(r.timestampMs, t);
    }
    SumSplits(log, hourly, partial, counted);
    SumSplits(log, counted, missed, direct);
  }

  /** No event before the epoch, and none of a past hour committed since the view was refreshed. */
  ghost predicate UpToDate(seen: Log, late: Log, t: int) {
    && (forall r :: r in seen + late ==> r.timestampMs >= 0)
    && (forall r :: r in late ==> !CountedByView(r.timestampMs, t))
  }

  /** With the timestamps that checkpoints have, an up-to-date view gives the direct sum at every instant. */
  lemma UpToDateQueryIsDirectSum(view: seq<HourRow>, seen: Log, late: Log, asset: string, t: int)
    requires SnapshotOf(view, seen) && UpToDate(seen, late, t)
    ensures MissedSum(seen + late, asset, t) == 0 && LateSum(late, asset, t) == 0
    ensures HourlyTotal(view, asset, HourBucket(t)) + PartialHour(seen + late, asset, HourBucket(t), t)
         == DirectSum(seen + late, asset, t)
  {
    ViewQueryIsDirectSum(view, seen, late, asset, t);
    SumOfNone(seen + late, (r: BalanceRow) => r.asset == asset && Missed(r.timestampMs, t));
    SumOfNone(late, (r: BalanceRow) => r.asset == asset && CountedByView(r.timestampMs, t));
  }

  /** A deposit one millisecond before the epoch is missing from a query one second after it. */
  lemma MissedDeposit()
    ensures var log := [BalanceRow("a", 5, true, -1)];
            && SnapshotOf([HourRow("a", 0, 5)], log) && DirectSum(log, "a", 1000) == 5
            && HourlyTotal([HourRow("a", 0, 5)], "a", HourBucket(1000)) + PartialHour(log, "a", HourBucket(1000), 1000) == 0
  {
    var r, v := BalanceRow("a", 5, true, -1), HourRow("a", 0, 5);
    SumOfOne(r, (r: BalanceRow) => r.HourKey() == v.HourKey());
    SumOfOne(r, (r: BalanceRow) => r.asset == "a" && 0 <= r.timestampMs < 1000);
    SumOfOne(r, (r: BalanceRow) => r.asset == "a" && r.timestampMs < 1000);
    assert r in [r] && v in [v];
    assert [v][1..] == [];
  }

  /** A deposit of the first hour that is committed after the refresh is missing from a query in the second hour. */
  lemma LateDeposit()
    ensures var late := [BalanceRow("a", 5, true, 0)];
            && SnapshotOf([], []) && DirectSum([] + late, "a", 3_600_000) == 5
            && HourlyTotal([], "a", HourBucket(3_600_000)) + PartialHour([] + late, "a", HourBucket(3_600_000), 3_600_000) == 0
  {
    var r := BalanceRow("a", 5, true, 0);
    assert [] + [r] == [r];
    SumOfOne(r, (r: BalanceRow) => r.asset == "a" && 3_600_000 <= r.timestampMs < 3_600_000);
    SumOfOne(r, (r: BalanceRow) => r.asset == "a" && r.timestampMs < 3_600_000);
  }

  lemma SumOfOne(r: BalanceRow, p: BalanceRow -> bool)
    ensures Sum([r], p) == if p(r) then r.Signed() else 0
  {
    assert [r][1..] == [];
  }

  /** The asset has an event that the query counts: one the view has seen, or one of the partial hour. */
  ghost predicate HasCounted(seen: Log, late: Log, asset: string, t: int) {
    || (exists r :: r in seen && r.asset == asset && CountedByView(r.timestampMs, t))
    || (exists r :: r in seen + late && r.asset == asset && CountedByPartialHour(r.timestampMs, t))
  }

  ghost predicate HasEvents(log: Log, asset: string, t: int) {
    exists r :: r in log && r.asset == asset && r.timestampMs < t
  }

  predicate Wanted(assetIds: seq<string>, asset: string) { exists id :: id in assetIds && StripPrefix(id) == asset }

  predicate InView(view: seq<HourRow>, asset: string, boundary: int) {
    exists v :: v in view && v.asset == asset && v.hourBucketMs < boundary
  }

  predicate InPartialHour(log: Log, asset: string, boundary: int, t: int) {
    exists r :: r in log && r.asset == asset && boundary <= r.timestampMs < t
  }

  /** The asset is asked for by its name, with or without the prefix. */
  predicate Requested(assetIds: seq<string>, asset: string) { asset in assetIds || "0x" + asset in assetIds }

  lemma NamesAreStripped(assetIds: seq<string>, asset: string)
    requires !("0x" <= asset)
    ensures Wanted(assetIds, asset) <==> Requested(assetIds, asset)
    ensures WithPrefix(asset) == "0x" + asset
  {
    assert ("0x" + asset)[2..] == asset;
    if Wanted(assetIds, asset) {
      var id :| id in assetIds && StripPrefix(id) == asset;
      assert "0x" <= id ==> id == "0x" + asset;
    }
    if "0x" + asset in assetIds { assert StripPrefix("0x" + asset) == asset; }
    if asset in assetIds { assert StripPrefix(asset) == asset; }
  }

  lemma JoinedRowsMembers(view: seq<HourRow>, log: Log, assetIds: seq<string>, t: int, asset: string)
    ensures asset in JoinedRows(view, log, assetIds, t) <==>
      Wanted(assetIds, asset) && (InView(view, asset, HourBucket(t)) || InPartialHour(log, asset, HourBucket(t), t))
  {
  }

  lemma ViewHasWhatItHasSeen(view: seq<HourRow>, seen: Log, asset: string, t: int)
    requires SnapshotOf(view, seen)
    ensures InView(view, asset, HourBucket(t)) <==>
            exists r :: r in seen && r.asset == asset && CountedByView(r.timestampMs, t)
  {
    if InView(view, asset, HourBucket(t)) {
      var v :| v in view && v.asset == asset && v.hourBucketMs < HourBucket(t);
      assert InLog(seen, v);
      var r :| r in seen && r.HourKey() == v.HourKey();
    }
    forall r | r in seen && r.asset == asset && CountedByView(r.timestampMs, t) ensures InView(view, asset, HourBucket(t)) {
      assert InHours(view, r);
      var v :| v in view && v.HourKey() == r.HourKey();
    }
  }

  lemma RowsAreUnprefixed(view: seq<HourRow>, seen: Log, late: Log, assetIds: seq<string>, t: int, asset: string)
    requires SnapshotOf(view, seen) && asset in JoinedRows(view, seen + late, assetIds, t)
    requires forall r :: r in seen + late ==> !("0x" <= r.asset)
    ensures !("0x" <= asset)
  {
    JoinedRowsMembers(view, seen + late, assetIds, t, asset);
    ViewHasWhatItHasSeen(view, seen, asset, t);
    assert forall r :: r in seen ==> r in seen + late;
  }

  lemma JoinedRowsValue(view: seq<HourRow>, log: Log, assetIds: seq<string>, t: int, asset: string)
    requires asset in JoinedRows(view, log, assetIds, t)
    ensures JoinedRows(view, log, assetIds, t)[asset] ==
      HourlyTotal(view, asset, HourBucket(t)) + PartialHour(log, asset, HourBucket(t), t)
  {
  }

  /** A value of the answer: the direct sum but for what is missed or late. */
  predicate Exact(value: int, seen: Log, late: Log, asset: string, t: int) {
    value + MissedSum(seen + late, asset, t) + LateSum(late, asset, t) == DirectSum(seen + late, asset, t)
  }

  /** The rows of the join: exactly the requested assets with counted events, each right up to missed and late ones. */
  lemma JoinedRowsAreExact(view: seq<HourRow>, seen: Log, late: Log, assetIds: seq<string>, t: int, asset: string)
    requires SnapshotOf(view, seen)
    ensures var rows := JoinedRows(view, seen + late, assetIds, t);
            && (asset in rows <==> Wanted(assetIds, asset) && HasCounted(seen, late, asset, t))
            && (asset in rows ==> Exact(rows[asset], seen, late, asset, t))
  {
    JoinedRowsMembers(view, seen + late, assetIds, t, asset);
    ViewHasWhatItHasSeen(view, seen, asset, t);
    if asset in JoinedRows(view, seen + late, assetIds, t) {
      JoinedRowsValue(view, seen + late, assetIds, t, asset);
      ViewQueryIsDirectSum(view, seen, late, asset, t);
    }
  }

  /**
   * The answer: its keys are the prefixed names of exactly the requested assets with counted events, and each
   * value is the direct sum but for missed and late events. Stored assets carry no prefix.
   */
  lemma NetDepositsAreExact(view: seq<HourRow>, seen: Log, late: Log, assetIds: seq<string>, t: int)
    requires SnapshotOf(view, seen) && forall r :: r in seen + late ==> !("0x" <= r.asset)
    ensures forall asset :: asset in JoinedRows(view, seen + late, assetIds, t) ==> !("0x" <= asset)
    ensures var answer := GetNetDepositsFromView(view, seen + late, assetIds, t);
            && (forall key :: key in answer ==>
                  exists asset :: Requested(assetIds, asset) && HasCounted(seen, late, asset, t) && key == "0x" + asset)
            && (forall asset :: Requested(assetIds, asset) && HasCounted(seen, late, asset, t) ==>
                  "0x" + asset in answer && Exact(answer["0x" + asset], seen, late, asset, t))
  {
    var log := seen + late;
    forall a | a in JoinedRows(view, log, assetIds, t) ensures !("0x" <= a) {
      RowsAreUnprefixed(view, seen, late, assetIds, t, a);
    }
    var rows, answer := JoinedRows(view, log, assetIds, t), GetNetDepositsFromView(view, log, assetIds, t);
    PrefixIsInjective(rows.Keys);
    forall key | key in answer
      ensures exists asset :: Requested(assetIds, asset) && HasCounted(seen, late, asset, t) && key == "0x" + asset
    {
      var asset :| asset in rows && WithPrefix(asset) == key;
      JoinedRowsAreExact(view, seen, late, assetIds, t, asset);
      NamesAreStripped(assetIds, asset);
    }
    forall asset | Requested(assetIds, asset) && HasCounted(seen, late, asset, t)
      ensures "0x" + asset in answer && Exact(answer["0x" + asset], seen, late, asset, t)
    {
      assert !("0x" <= asset) by { assert forall r :: r in seen ==> r in seen + late; }
      NamesAreStripped(assetIds, asset);
      JoinedRowsAreExact(view, seen, late, assetIds, t, asset);
      assert answer[WithPrefix(asset)] == rows[asset];
    }
  }

  lemma UpToDateCountsAllEvents(seen: Log, late: Log, asset: string, t: int)
    requires UpToDate(seen, late, t)
    ensures HasCounted(seen, late, asset, t) <==> HasEvents(seen + late, asset, t)
  {
    assert forall r :: r in seen + late <==> r in seen || r in late;
    forall r: BalanceRow ensures CountedByView(r.timestampMs, t) || CountedByPartialHour(r.timestampMs, t) <==>
                                 r.timestampMs < t && !Missed(r.timestampMs, t)
    {
      EventsAreCountedExactlyWhen(r.timestampMs, t);
    }
  }

  /** An up-to-date answer: exactly the requested assets with events before `t`, each with its direct sum. */
  lemma UpToDateAnswerIsDirect(view: seq<HourRow>, seen: Log, late: Log, assetIds: seq<string>, t: int)
    requires SnapshotOf(view, seen) && UpToDate(seen, late, t) && forall r :: r in seen + late ==> !("0x" <= r.asset)
    ensures forall asset :: asset in JoinedRows(view, seen + late, assetIds, t) ==> !("0x" <= asset)
    ensures var answer := GetNetDepositsFromView(view, seen + late, assetIds, t);
            && (forall key :: key in answer ==>
                  exists asset :: Requested(assetIds, asset) && HasEvents(seen + late, asset, t) && key == "0x" + asset)
            && (forall asset :: Requested(assetIds, asset) && HasEvents(seen + late, asset, t) ==>
                  "0x" + asset in answer && answer["0x" + asset] == DirectSum(seen + late, asset, t))
  {
    NetDepositsAreExact(view, seen, late, assetIds, t);
    forall asset
      ensures HasCounted(seen, late, asset, t) <==> HasEvents(seen + late, asset, t)
      ensures MissedSum(seen + late, asset, t) == 0 && LateSum(late, asset, t) == 0
    {
      UpToDateCountsAllEvents(seen, late, asset, t);
      UpToDateQueryIsDirectSum(view, seen, late, asset, t);
    }
  }
}
