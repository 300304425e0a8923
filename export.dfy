/** The export loops of `to_anvil` and `to_mongo`: the table is stamped with the date and a key,
    then the records are sent one by one, in order, and a record whose key the destination already
    holds is handled by the existence policy. The destinations are in-memory stores: an Anvil Data
    Table is a sequence of rows searched by the key column, a MongoDB collection a map from `_id`
    to document. The hash is a function the caller supplies. */
module Export {
  import opened Wrappers
  import opened Table
  import opened Dates
  import opened Bulletin
  import OutputFile

  /** `exist_policy`. */
  datatype Policy = FailOnExisting | IgnoreExisting | ForceInsert | UpdateExisting | OtherPolicy(name: string)

  /** What one pass of an export loop does with its record: write it, skip it, or raise. */
  datatype Action = Put | Skip | Raise(error: Error)

  /** The end of an export run: how it ended, the destination as left, and whether the
      duplicate warning is logged. On an exception the store keeps what was written before. */
  datatype Run<S> = Run(outcome: Outcome, store: S, warn: bool)

  // ---------------------------------------------------------------- Anvil

  /** Some row holds `key` in column `h`. */
  predicate HasKey(rows: seq<Row>, h: Column, key: Cell) {
    exists k :: 0 <= k < |rows| && Get(rows[k], h) == key
  }

  /** No two rows hold the same key. */
  predicate UniqueKeys(rows: seq<Row>, h: Column) {
    forall i, j :: 0 <= i < j < |rows| ==> Get(rows[i], h) != Get(rows[j], h)
  }

  /** The number of rows whose column `h` holds `key`. */
  function MatchCount(rows: seq<Row>, h: Column, key: Cell): nat
    decreases |rows|
  {
    if rows == [] then 0
    else MatchCount(rows[..|rows| - 1], h, key) + if Get(rows[|rows| - 1], h) == key then 1 else 0
  }

  /** A key is counted exactly when some row holds it. */
  lemma {:induction false} CountHasKey(rows: seq<Row>, h: Column, key: Cell)
    ensures MatchCount(rows, h, key) > 0 <==> HasKey(rows, h, key)
    decreases |rows|
  {
    if rows != [] {
      var init, last := rows[..|rows| - 1], rows[|rows| - 1];
      CountHasKey(init, h, key);
      assert rows == init + [last];
      HasKeySnoc(init, last, h, key);
    }
  }

  /** The keys of a table with one more row. */
  lemma HasKeySnoc(init: seq<Row>, last: Row, h: Column, key: Cell)
    ensures HasKey(init + [last], h, key) <==> HasKey(init, h, key) || Get(last, h) == key
  {
    HasKeyConcat(init, [last], h, key);
    if HasKey([last], h, key) {
      var k :| 0 <= k < 1 && Get([last][k], h) == key;
      assert k == 0;
    }
    if Get(last, h) == key {
      assert Get([last][0], h) == key;
    }
  }

  lemma HasKeyConcat(a: seq<Row>, b: seq<Row>, h: Column, key: Cell)
    ensures HasKey(a + b, h, key) <==> HasKey(a, h, key) || HasKey(b, h, key)
  {
    HasKeySplit(a, b, h, key);
    if HasKey(a, h, key) {
      var k :| 0 <= k < |a| && Get(a[k], h) == key;
      assert Get((a + b)[k], h) == key;
    }
    if HasKey(b, h, key) {
      var k :| 0 <= k < |b| && Get(b[k], h) == key;
      assert Get((a + b)[|a| + k], h) == key;
    }
  }

  lemma HasKeySplit(a: seq<Row>, b: seq<Row>, h: Column, key: Cell)
    ensures HasKey(a + b, h, key) ==> HasKey(a, h, key) || HasKey(b, h, key)
  {
    if HasKey(a + b, h, key) {
      var k :| 0 <= k < |a + b| && Get((a + b)[k], h) == key;
      if k >= |a| {
        assert Get(b[k - |a|], h) == key;
      } else {
        assert Get(a[k], h) == key;
      }
    }
  }

  /** With unique keys, no key is held twice. */
  lemma {:induction false} DistinctCount(rows: seq<Row>, h: Column, key: Cell)
    requires UniqueKeys(rows, h)
    ensures MatchCount(rows, h, key) <= 1
    decreases |rows|
  {
    if rows != [] {
      var init := rows[..|rows| - 1];
      DistinctCount(init, h, key);
      if Get(rows[|rows| - 1], h) == key {
        CountHasKey(init, h, key);
        forall k | 0 <= k < |init| ensures Get(init[k], h) != key {
          assert init[k] == rows[k];
        }
      }
    }
  }

  /** `outtable.get(hash_col=key)`: whether a row holds the key; more than one raises. */
  function AnvilGet(rows: seq<Row>, h: Column, key: Cell): (r: Result<bool>)
    ensures r.Failure? <==> MatchCount(rows, h, key) > 1
    ensures r.Failure? ==> r.error == MultipleRowsMatch
    ensures r.Success? ==> (r.value <==> MatchCount(rows, h, key) > 0)
  {
    var n := MatchCount(rows, h, key);
    if n > 1 then Failure(MultipleRowsMatch) else Success(n == 1)
  }

  /** The lookup answers whether some row holds the key, and on a table with unique keys it
      never raises. */
  lemma AnvilGetFinds(rows: seq<Row>, h: Column, key: Cell)
    ensures AnvilGet(rows, h, key).Success? ==> (AnvilGet(rows, h, key).value <==> HasKey(rows, h, key))
    ensures UniqueKeys(rows, h) ==> AnvilGet(rows, h, key).Success?
  {
    CountHasKey(rows, h, key);
    if UniqueKeys(rows, h) {
      DistinctCount(rows, h, key);
    }
  }

  /** The branches of one pass of the `to_anvil` loop. */
  function AnvilAction(rows: seq<Row>, rec: Row, h: Column, policy: Policy): Action {
    match AnvilGet(rows, h, Get(rec, h))
    case Failure(e) => Raise(e)
    case Success(existing) =>
      if existing && policy.FailOnExisting? then Raise(DuplicateRecord)
      else if existing && policy.IgnoreExisting? then Skip
      else if !existing || policy.ForceInsert? then Put
      else Raise(InvalidPolicy)
  }

  /** A key held by several rows raises; a new key is added whatever the policy; a key held once
      raises under `fail`, is skipped under `ignore`, is added again under `force`, and any other
      policy (`update` included) raises only then. */
  lemma AnvilActionCases(rows: seq<Row>, rec: Row, h: Column, policy: Policy)
    ensures MatchCount(rows, h, Get(rec, h)) > 1 ==> AnvilAction(rows, rec, h, policy) == Raise(MultipleRowsMatch)
    ensures MatchCount(rows, h, Get(rec, h)) == 0 ==> AnvilAction(rows, rec, h, policy) == Put
    ensures MatchCount(rows, h, Get(rec, h)) == 1 ==>
      AnvilAction(rows, rec, h, policy) ==
        match policy
        case FailOnExisting => Raise(DuplicateRecord)
        case IgnoreExisting => Skip
        case ForceInsert => Put
        case _ => Raise(InvalidPolicy)
  {
  }

  /** The `to_anvil` loop from the record `recs[0]` on, with the `warn_duplicates` flag so far,
      raised by a record that already existed: skipped, or added again under `force`. */
  function AnvilFold(rows: seq<Row>, recs: seq<Row>, h: Column, policy: Policy, warn: bool): Run<seq<Row>>
    decreases |recs|
  {
    if recs == [] then Run(Pass, rows, warn)
    else
      match AnvilAction(rows, recs[0], h, policy)
      case Raise(e) => Run(Fail(e), rows, warn)
      case Skip => AnvilFold(rows, recs[1..], h, policy, true)
      case Put => AnvilFold(rows + [recs[0]], recs[1..], h, policy, warn || MatchCount(rows, h, Get(recs[0], h)) > 0)
  }

  /** The loop as written: every record added sets the flag too, whether or not it existed. */
  function AnvilFoldAsWritten(rows: seq<Row>, recs: seq<Row>, h: Column, policy: Policy, warn: bool): Run<seq<Row>>
    decreases |recs|
  {
    if recs == [] then Run(Pass, rows, warn)
    else
      match AnvilAction(rows, recs[0], h, policy)
      case Raise(e) => Run(Fail(e), rows, warn)
      case Skip => AnvilFoldAsWritten(rows, recs[1..], h, policy, true)
      case Put => AnvilFoldAsWritten(rows + [recs[0]], recs[1..], h, policy, true)
  }

  function AnvilRun(rows: seq<Row>, recs: seq<Row>, h: Column, policy: Policy): Run<seq<Row>> {
    AnvilFold(rows, recs, h, policy, false)
  }

  /** The loop never removes a row, and the warning once raised stays raised. */
  lemma {:induction false} AnvilKeepsRows(rows: seq<Row>, recs: seq<Row>, h: Column, policy: Policy, warn: bool)
    ensures var r := AnvilFold(rows, recs, h, policy, warn);
      |rows| <= |r.store| && r.store[..|rows|] == rows && (warn ==> r.warn)
    decreases |recs|
  {
    if recs != [] {
      var existed := MatchCount(rows, h, Get(recs[0], h)) > 0;
      match AnvilAction(rows, recs[0], h, policy)
      case Raise(e) =>
      case Skip =>
        AnvilKeepsRows(rows, recs[1..], h, policy, true);
      case Put =>
        var next := rows + [recs[0]];
        AnvilKeepsRows(next, recs[1..], h, policy, warn || existed);
        var r := AnvilFold(next, recs[1..], h, policy, warn || existed);
        assert r.store[..|rows|] == r.store[..|next|][..|rows|];
    }
  }

  /** `fail` and `force` only ever add the records in order: a run that passes adds them all,
      and under `fail` it never warns. */
  lemma {:induction false} AnvilAppendsAll(rows: seq<Row>, recs: seq<Row>, h: Column, policy: Policy, warn: bool)
    requires policy.FailOnExisting? || policy.ForceInsert?
    ensures var r := AnvilFold(rows, recs, h, policy, warn);
      r.outcome.Pass? ==> r.store == rows + recs && (policy.FailOnExisting? ==> r.warn == warn)
    decreases |recs|
  {
    if recs != [] {
      var n := MatchCount(rows, h, Get(recs[0], h));
      AnvilActionCases(rows, recs[0], h, policy);
      if AnvilAction(rows, recs[0], h, policy) == Put {
        var next, w := rows + [recs[0]], warn || n > 0;
        assert AnvilFold(rows, recs, h, policy, warn) == AnvilFold(next, recs[1..], h, policy, w);
        AnvilAppendsAll(next, recs[1..], h, policy, w);
        assert policy.FailOnExisting? ==> n == 0;
        assert rows + recs == next + recs[1..];
      }
    }
  }

  /** A `fail` or `force` run that raises does so at some record `i`, and the records before it
      stay written. */
  lemma {:induction false} AnvilAppendsUntil(rows: seq<Row>, recs: seq<Row>, h: Column, policy: Policy, warn: bool)
    requires policy.FailOnExisting? || policy.ForceInsert?
    ensures var r := AnvilFold(rows, recs, h, policy, warn);
      r.outcome.Fail? ==> exists i :: RaisedAt(rows, recs, h, policy, r, i)
    decreases |recs|
  {
    if recs != [] {
      AnvilActionCases(rows, recs[0], h, policy);
      var r := AnvilFold(rows, recs, h, policy, warn);
      if AnvilAction(rows, recs[0], h, policy).Put? {
        var existed := MatchCount(rows, h, Get(recs[0], h)) > 0;
        var next := rows + [recs[0]];
        AnvilAppendsUntil(next, recs[1..], h, policy, warn || existed);
        if r.outcome.Fail? {
          var i :| RaisedAt(next, recs[1..], h, policy, r, i);
          RaisedAtNext(rows, recs, h, policy, r, i);
        }
      } else {
        assert rows + recs[..0] == rows;
        assert RaisedAt(rows, recs, h, policy, r, 0);
      }
    }
  }

  /** The run raised at record `i`, with the records before it written. */
  predicate RaisedAt(rows: seq<Row>, recs: seq<Row>, h: Column, policy: Policy, r: Run<seq<Row>>, i: int) {
    && 0 <= i < |recs| && r.outcome.Fail? && r.store == rows + recs[..i]
    && AnvilAction(r.store, recs[i], h, policy) == Raise(r.outcome.error)
  }

  lemma RaisedAtNext(rows: seq<Row>, recs: seq<Row>, h: Column, policy: Policy, r: Run<seq<Row>>, i: int)
    requires recs != [] && RaisedAt(rows + [recs[0]], recs[1..], h, policy, r, i)
    ensures RaisedAt(rows, recs, h, policy, r, i + 1)
  {
    assert recs[..i + 1] == [recs[0]] + recs[1..][..i];
    assert recs[i + 1] == recs[1..][i];
  }

  /** One `ignore` pass on a table with unique keys: the record is added when its key is new. */
  lemma IgnoreStep(rows: seq<Row>, rec: Row, h: Column)
    requires UniqueKeys(rows, h)
    ensures AnvilAction(rows, rec, h, IgnoreExisting) == if HasKey(rows, h, Get(rec, h)) then Skip else Put
    ensures MatchCount(rows, h, Get(rec, h)) > 0 <==> HasKey(rows, h, Get(rec, h))
    ensures !HasKey(rows, h, Get(rec, h)) ==> UniqueKeys(rows + [rec], h)
  {
    DistinctCount(rows, h, Get(rec, h));
    CountHasKey(rows, h, Get(rec, h));
    if !HasKey(rows, h, Get(rec, h)) {
      var next := rows + [rec];
      forall i, j | 0 <= i < j < |next| ensures Get(next[i], h) != Get(next[j], h) {
        if j == |rows| {
          assert next[i] == rows[i] && next[j] == rec;
        }
      }
    }
  }

  /** `ignore` on a table with unique keys never raises, keeps the keys unique, adds only records
      and leaves every record's key in the table; it warns exactly when some record's key was in
      the table or in an earlier record. */
  lemma {:induction false} AnvilIgnore(rows: seq<Row>, recs: seq<Row>, h: Column, warn: bool)
    requires UniqueKeys(rows, h)
    ensures var r := AnvilFold(rows, recs, h, IgnoreExisting, warn);
      && r.outcome == Pass && UniqueKeys(r.store, h)
      && (forall k :: 0 <= k < |recs| ==> HasKey(r.store, h, Get(recs[k], h)))
      && (forall k :: |rows| <= k < |r.store| ==> r.store[k] in recs)
      && (r.warn <==> warn || exists k :: 0 <= k < |recs| && HasKey(rows + recs[..k], h, Get(recs[k], h)))
    decreases |recs|
  {
    if recs != [] {
      var rec, key := recs[0], Get(recs[0], h);
      IgnoreStep(rows, rec, h);
      var existed := HasKey(rows, h, key);
      var next := if existed then rows else rows + [rec];
      assert HasKey(next, h, key) by {
        if !existed {
          assert Get(next[|rows|], h) == key;
        }
      }
      AnvilIgnore(next, recs[1..], h, warn || existed);
      AnvilKeepsRows(next, recs[1..], h, IgnoreExisting, warn || existed);
      var r := AnvilFold(next, recs[1..], h, IgnoreExisting, warn || existed);
      AnvilIgnoreKept(next, r.store, h, key);
      AnvilIgnoreFound(recs, r.store, h);
      AnvilIgnoreAdded(rows, recs, next, r.store);
      AnvilIgnoreWarn(rows, recs, h, next, existed);
    }
  }

  /** The rows past `rows` are records: the first one, if `next` added it, then later ones. */
  lemma AnvilIgnoreAdded(rows: seq<Row>, recs: seq<Row>, next: seq<Row>, store: seq<Row>)
    requires recs != [] && (next == rows || next == rows + [recs[0]])
    requires |next| <= |store| && store[..|next|] == next
    requires forall k :: |next| <= k < |store| ==> store[k] in recs[1..]
    ensures forall k :: |rows| <= k < |store| ==> store[k] in recs
  {
    forall k | |rows| <= k < |store| ensures store[k] in recs {
      if k >= |next| {
        assert store[k] in recs[1..];
      } else {
        assert store[k] == next[k] == recs[0];
      }
    }
  }

  /** The first record's key and every later record's key are in the table. */
  lemma AnvilIgnoreFound(recs: seq<Row>, store: seq<Row>, h: Column)
    requires recs != [] && HasKey(store, h, Get(recs[0], h))
    requires forall k :: 0 <= k < |recs[1..]| ==> HasKey(store, h, Get(recs[1..][k], h))
    ensures forall k :: 0 <= k < |recs| ==> HasKey(store, h, Get(recs[k], h))
  {
    forall k | 0 < k < |recs| ensures HasKey(store, h, Get(recs[k], h)) {
      assert recs[k] == recs[1..][k - 1];
    }
  }

  /** A key of a prefix stays in the table. */
  lemma AnvilIgnoreKept(next: seq<Row>, store: seq<Row>, h: Column, key: Cell)
    requires |next| <= |store| && store[..|next|] == next && HasKey(next, h, key)
    ensures HasKey(store, h, key)
  {
    var k :| 0 <= k < |next| && Get(next[k], h) == key;
    assert store[k] == next[k];
  }

  /** The warning condition of `AnvilIgnore`, one record further: the keys of `next` are those of
      `rows` and the first record. */
  lemma AnvilIgnoreWarn(rows: seq<Row>, recs: seq<Row>, h: Column, next: seq<Row>, existed: bool)
    requires recs != [] && existed == HasKey(rows, h, Get(recs[0], h))
    requires next == if existed then rows else rows + [recs[0]]
    ensures (existed || exists k :: 0 <= k < |recs[1..]| && HasKey(next + recs[1..][..k], h, Get(recs[1..][k], h)))
        <==> exists k :: 0 <= k < |recs| && HasKey(rows + recs[..k], h, Get(recs[k], h))
  {
    forall k | 1 <= k < |recs|
      ensures HasKey(next + recs[1..][..k - 1], h, Get(recs[k], h)) <==> HasKey(rows + recs[..k], h, Get(recs[k], h))
    {
      var key := Get(recs[k], h);
      assert rows + recs[..k] == (rows + [recs[0]]) + recs[1..][..k - 1];
      if existed {
        HasKeyConcat(rows, [recs[0]], h, key);
        HasKeyConcat(rows + [recs[0]], recs[1..][..k - 1], h, key);
        HasKeyConcat(rows, recs[1..][..k - 1], h, key);
        assert HasKey([recs[0]], h, key) ==> key == Get(recs[0], h);
      }
    }
    assert rows + recs[..0] == rows;
    if exists k :: 0 <= k < |recs[1..]| && HasKey(next + recs[1..][..k], h, Get(recs[1..][k], h)) {
      var k :| 0 <= k < |recs[1..]| && HasKey(next + recs[1..][..k], h, Get(recs[1..][k], h));
      assert recs[1..][k] == recs[k + 1];
    }
    if exists k :: 0 <= k < |recs| && HasKey(rows + recs[..k], h, Get(recs[k], h)) {
      var k :| 0 <= k < |recs| && HasKey(rows + recs[..k], h, Get(recs[k], h));
      if k > 0 {
        assert recs[1..][k - 1] == recs[k];
      }
    }
  }

  lemma {:induction false} AnvilAllPresent(rows: seq<Row>, recs: seq<Row>, h: Column, warn: bool)
    requires UniqueKeys(rows, h)
    requires forall k :: 0 <= k < |recs| ==> HasKey(rows, h, Get(recs[k], h))
    ensures AnvilFold(rows, recs, h, IgnoreExisting, warn) == Run(Pass, rows, warn || recs != [])
    decreases |recs|
  {
    if recs != [] {
      IgnoreStep(rows, recs[0], h);
      assert forall k :: 0 <= k < |recs[1..]| ==> recs[1..][k] == recs[k + 1];
      AnvilAllPresent(rows, recs[1..], h, true);
    }
  }

  /** Running `ignore` again with the same records changes nothing and warns for every record:
      each of them is found. */
  lemma AnvilIgnoreRerun(rows: seq<Row>, recs: seq<Row>, h: Column)
    requires UniqueKeys(rows, h)
    ensures var first := AnvilRun(rows, recs, h, IgnoreExisting);
      AnvilRun(first.store, recs, h, IgnoreExisting) == Run(Pass, first.store, recs != [])
  {
    var first := AnvilRun(rows, recs, h, IgnoreExisting);
    AnvilIgnore(rows, recs, h, false);
    AnvilAllPresent(first.store, recs, h, false);
  }

  /** The loop as written ends and writes exactly as the corrected one, and warns whenever the
      corrected one does. */
  lemma {:induction false} AnvilWarnAsWritten(rows: seq<Row>, recs: seq<Row>, h: Column, policy: Policy,
                                              written: bool, corrected: bool)
    requires corrected ==> written
    ensures var a, c := AnvilFoldAsWritten(rows, recs, h, policy, written), AnvilFold(rows, recs, h, policy, corrected);
      a.outcome == c.outcome && a.store == c.store && (c.warn ==> a.warn)
    decreases |recs|
  {
    if recs != [] {
      match AnvilAction(rows, recs[0], h, policy)
      case Raise(_) =>
      case Skip =>
        AnvilWarnAsWritten(rows, recs[1..], h, policy, true, true);
      case Put =>
        var w := corrected || MatchCount(rows, h, Get(recs[0], h)) > 0;
        AnvilWarnAsWritten(rows + [recs[0]], recs[1..], h, policy, true, w);
    }
  }

  /** As written, any run that passes over at least one record warns, duplicates or not. */
  lemma {:induction false} AnvilAsWrittenWarns(rows: seq<Row>, recs: seq<Row>, h: Column, policy: Policy, warn: bool)
    ensures var a := AnvilFoldAsWritten(rows, recs, h, policy, warn);
      a.outcome.Pass? ==> (a.warn <==> warn || recs != [])
    decreases |recs|
  {
    if recs != [] {
      match AnvilAction(rows, recs[0], h, policy)
      case Raise(_) =>
      case Skip =>
        AnvilAsWrittenWarns(rows, recs[1..], h, policy, true);
      case Put =>
        AnvilAsWrittenWarns(rows + [recs[0]], recs[1..], h, policy, true);
    }
  }

  /** A fresh record in an empty table: the code as written warns about duplicates; none was
      found. */
  lemma AnvilWarnOnInsert(rec: Row, h: Column, policy: Policy)
    ensures AnvilFoldAsWritten([], [rec], h, policy, false) == Run(Pass, [rec], true)
    ensures AnvilRun([], [rec], h, policy) == Run(Pass, [rec], false)
  {
    assert [] + [rec] == [rec] && [rec][1..] == [];
    AnvilActionCases([], rec, h, policy);
    assert AnvilFoldAsWritten([rec], [], h, policy, true) == Run(Pass, [rec], true);
    assert AnvilFold([rec], [], h, policy, false) == Run(Pass, [rec], false);
  }

  /** `table[date_col] = self.date.date()` and `table[hash_col] = hash(row)` on every row: the key
      is the hash of the dated row. */
  function AnvilRecords(table: seq<Row>, d: Date, dateCol: Column, h: Column, hash: Row -> Cell): (r: seq<Row>)
    ensures |r| == |table|
    ensures forall k :: 0 <= k < |table| ==>
      && Get(r[k], h) == hash(table[k][dateCol := DateVal(d)])
      && (dateCol != h ==> Get(r[k], dateCol) == DateVal(d))
      && forall c :: c != h && c != dateCol ==> Get(r[k], c) == Get(table[k], c)
  {
    seq(|table|, k requires 0 <= k < |table| =>
      var dated := table[k][dateCol := DateVal(d)];
      dated[h := hash(dated)])
  }

  /** `to_anvil(tablename, exist_policy=..., date_col=..., hash_col=...)` into a table holding
      `rows`, with the date stamp as the column is meant to hold it. */
  function ToAnvil(b: Bulletin, tablename: string, rows: seq<Row>, policy: Policy, dateCol: Column, h: Column,
                   hash: Row -> Cell): (r: Result<Run<seq<Row>>>)
    ensures r.Failure? <==> TableNamed(b, tablename).Failure?
    ensures r.Success? ==>
      r.value == AnvilRun(rows, AnvilRecords(TableNamed(b, tablename).value, b.date.date, dateCol, h, hash), h, policy)
  {
    var table :- TableNamed(b, tablename);
    Success(AnvilRun(rows, AnvilRecords(table, OutputFile.DateStamp(b.date), dateCol, h, hash), h, policy))
  }

  /** `to_anvil` as written: `self.date.date()` raises on a bulletin dated by an ISO string (a
      plain `date`), after the table was looked up and before anything is uploaded. */
  function ToAnvilAsWritten(b: Bulletin, tablename: string, rows: seq<Row>, policy: Policy, dateCol: Column,
                            h: Column, hash: Row -> Cell): (r: Result<Run<seq<Row>>>)
    ensures TableNamed(b, tablename).Failure? ==> r == Failure(TableNotFound)
    ensures TableNamed(b, tablename).Success? && !b.date.hasTime ==> r == Failure(DateHasNoTime)
    ensures b.date.hasTime ==> r == ToAnvil(b, tablename, rows, policy, dateCol, h, hash)
  {
    var table :- TableNamed(b, tablename);
    var d :- OutputFile.DateStampAsWritten(b.date);
    Success(AnvilRun(rows, AnvilRecords(table, d, dateCol, h, hash), h, policy))
  }

  /** A bulletin dated by an ISO string cannot be uploaded to Anvil as written; the intended
      upload stamps its date on every record. */
  lemma IsoDateToAnvil(b: Bulletin, tablename: string, rows: seq<Row>, policy: Policy, dateCol: Column,
                       h: Column, hash: Row -> Cell)
    requires !b.date.hasTime && TableNamed(b, tablename).Success? && dateCol != h
    ensures ToAnvilAsWritten(b, tablename, rows, policy, dateCol, h, hash) == Failure(DateHasNoTime)
    ensures ToAnvil(b, tablename, rows, policy, dateCol, h, hash).Success?
    ensures var recs := AnvilRecords(TableNamed(b, tablename).value, b.date.date, dateCol, h, hash);
      forall k :: 0 <= k < |recs| ==> Get(recs[k], dateCol) == DateVal(b.date.date)
  {
  }

  /** An Anvil Data Table. */
  class AnvilTable {
    var rows: seq<Row>

    constructor(rows: seq<Row>)
      ensures this.rows == rows
    {
      this.rows := rows;
    }

    /** `outtable.add_row(**record)`. */
    method AddRow(rec: Row)
      modifies this
      ensures rows == old(rows) + [rec]
    {
      rows := rows + [rec];
    }

    /** One pass of the `to_anvil` loop: look the key up, then apply the policy. It returns what
        it did and, unless it raised, whether the record was already there. */
    method Handle(rec: Row, h: Column, policy: Policy) returns (a: Action, existed: bool)
      modifies this
      ensures a == AnvilAction(old(rows), rec, h, policy)
      ensures !a.Raise? ==> existed == (MatchCount(old(rows), h, Get(rec, h)) > 0)
      ensures rows == if a.Put? then old(rows) + [rec] else old(rows)
    {
      var found := AnvilGet(rows, h, Get(rec, h));
      if found.Failure? {
        return Raise(found.error), false;
      }
      existed := found.value;
      if existed && policy.FailOnExisting? {
        a := Raise(DuplicateRecord);
      } else if existed && policy.IgnoreExisting? {
        a := Skip;
      } else if !existed || policy.ForceInsert? {
        AddRow(rec);
        a := Put;
      } else {
        a := Raise(InvalidPolicy);
      }
    }

    /** The export loop of `to_anvil`, record by record, with the warning raised by duplicates. */
    method Upload(recs: seq<Row>, h: Column, policy: Policy) returns (outcome: Outcome, warn: bool)
      modifies this
      ensures Run(outcome, rows, warn) == AnvilRun(old(rows), recs, h, policy)
    {
      ghost var goal := AnvilRun(rows, recs, h, policy);
      warn := false;
      var i := 0;
      while i < |recs|
        invariant 0 <= i <= |recs|
        invariant goal == AnvilFold(rows, recs[i..], h, policy, warn)
      {
        assert recs[i..][0] == recs[i] && recs[i..][1..] == recs[i + 1..];
        var a, existed := Handle(recs[i], h, policy);
        if a.Raise? {
          assert goal == Run(Fail(a.error), rows, warn);
          return Fail(a.error), warn;
        }
        warn := warn || existed;
        i := i + 1;
      }
      assert recs[i..] == [];
      outcome := Pass;
    }
  }

  // ---------------------------------------------------------------- MongoDB

  /** `registroFonte`, the source stamped on every MongoDB document. */
  const Fonte := "Secretaria de Estado de Administração Penitenciária do Rio de Janeiro"

  /** The columns hashed into `_id`. */
  function IdColumns(dateCol: Column): set<Column> {
    {UnidadeId, dateCol, RegistroFonte}
  }

  function DocKey(rec: Row): Cell {
    Get(rec, DocumentId)
  }

  /** The policies `to_mongo` knows. */
  predicate MongoPolicy(policy: Policy) {
    policy.FailOnExisting? || policy.IgnoreExisting? || policy.UpdateExisting?
  }

  /** The branches of one pass of the `to_mongo` loop. `filterGiven` says whether the update is
      sent with its `{'_id': ...}` filter; the code as written omits it. */
  function MongoAction(docs: map<Cell, Row>, rec: Row, policy: Policy, filterGiven: bool): (a: Action)
    ensures DocKey(rec) !in docs ==> a == Put
    ensures DocKey(rec) in docs ==>
      a == match policy
           case FailOnExisting => Raise(DuplicateRecord)
           case UpdateExisting => if filterGiven then Put else Raise(UpdateMissingFilter)
           case IgnoreExisting => Skip
           case _ => Raise(InvalidPolicy)
  {
    if DocKey(rec) in docs then
      if policy.FailOnExisting? then Raise(DuplicateRecord)
      else if policy.UpdateExisting? then (if filterGiven then Put else Raise(UpdateMissingFilter))
      else if policy.IgnoreExisting? then Skip
      else Raise(InvalidPolicy)
    else Put
  }

  /** The `to_mongo` loop from `recs[0]` on: a record whose `_id` exists raises the warning flag,
      then the policy decides. */
  function MongoFold(docs: map<Cell, Row>, recs: seq<Row>, policy: Policy, filterGiven: bool, warn: bool)
    : Run<map<Cell, Row>>
    decreases |recs|
  {
    if recs == [] then Run(Pass, docs, warn)
    else
      var w := warn || DocKey(recs[0]) in docs;
      match MongoAction(docs, recs[0], policy, filterGiven)
      case Raise(e) => Run(Fail(e), docs, w)
      case Skip => MongoFold(docs, recs[1..], policy, filterGiven, w)
      case Put => MongoFold(docs[DocKey(recs[0]) := recs[0]], recs[1..], policy, filterGiven, w)
  }

  /** `to_mongo` as written: no filter on the update, and an unknown policy noticed only at a
      duplicate. */
  function MongoRunAsWritten(docs: map<Cell, Row>, recs: seq<Row>, policy: Policy): Run<map<Cell, Row>> {
    MongoFold(docs, recs, policy, false, false)
  }

  /** `to_mongo` as intended: the policy is checked before anything is written, and `update`
      replaces the document with that `_id`. */
  function MongoRun(docs: map<Cell, Row>, recs: seq<Row>, policy: Policy): Run<map<Cell, Row>> {
    if MongoPolicy(policy) then MongoFold(docs, recs, policy, true, false)
    else Run(Fail(InvalidPolicy), docs, false)
  }

  /** Every record written under its `_id`, in order: a later record replaces an earlier one. */
  function Inserted(docs: map<Cell, Row>, recs: seq<Row>): (m: map<Cell, Row>)
    ensures m.Keys == docs.Keys + RecordIds(recs)
    decreases |recs|
  {
    if recs == [] then docs
    else
      var m := Inserted(docs[DocKey(recs[0]) := recs[0]], recs[1..]);
      RecordIdsCons(recs);
      m
  }

  /** Under `fail` a run that passes wrote every record and warned of nothing. */
  lemma {:induction false} MongoFailAll(docs: map<Cell, Row>, recs: seq<Row>, filterGiven: bool, warn: bool)
    ensures var r := MongoFold(docs, recs, FailOnExisting, filterGiven, warn);
      r.outcome.Pass? ==> r.store == Inserted(docs, recs) && r.warn == warn
    decreases |recs|
  {
    if recs != [] && DocKey(recs[0]) !in docs {
      MongoFailAll(docs[DocKey(recs[0]) := recs[0]], recs[1..], filterGiven, warn);
    }
  }

  /** Under `fail` a run that raises does so at record `i`, a duplicate, and the records before
      it stay written. */
  lemma {:induction false} MongoFailUntil(docs: map<Cell, Row>, recs: seq<Row>, filterGiven: bool, warn: bool)
    ensures var r := MongoFold(docs, recs, FailOnExisting, filterGiven, warn);
      r.outcome.Fail? ==> r.outcome.error == DuplicateRecord && exists i :: DuplicateAt(docs, recs, r, i)
    decreases |recs|
  {
    if recs != [] {
      var r := MongoFold(docs, recs, FailOnExisting, filterGiven, warn);
      if DocKey(recs[0]) in docs {
        assert recs[..0] == [];
        assert r.outcome.Fail? ==> DuplicateAt(docs, recs, r, 0);
      } else {
        var next := docs[DocKey(recs[0]) := recs[0]];
        assert r == MongoFold(next, recs[1..], FailOnExisting, filterGiven, warn);
        MongoFailUntil(next, recs[1..], filterGiven, warn);
        if r.outcome.Fail? {
          var i :| DuplicateAt(next, recs[1..], r, i);
          DuplicateAtNext(docs, recs, r, i);
        }
      }
    }
  }

  /** The run stopped at record `i`, whose `_id` was already stored, with the records before it
      written. */
  predicate DuplicateAt(docs: map<Cell, Row>, recs: seq<Row>, r: Run<map<Cell, Row>>, i: int) {
    0 <= i < |recs| && r.store == Inserted(docs, recs[..i]) && DocKey(recs[i]) in r.store
  }

  lemma DuplicateAtNext(docs: map<Cell, Row>, recs: seq<Row>, r: Run<map<Cell, Row>>, i: int)
    requires recs != [] && DuplicateAt(docs[DocKey(recs[0]) := recs[0]], recs[1..], r, i)
    ensures DuplicateAt(docs, recs, r, i + 1)
  {
    assert recs[..i + 1][1..] == recs[1..][..i] && recs[..i + 1][0] == recs[0];
    assert recs[i + 1] == recs[1..][i];
  }

  /** With its filter, `update` is an upsert: the run passes and every record is written, the
      last one of each `_id` winning. */
  lemma {:induction false} MongoUpdate(docs: map<Cell, Row>, recs: seq<Row>, warn: bool)
    ensures var r := MongoFold(docs, recs, UpdateExisting, true, warn);
      r.outcome == Pass && r.store == Inserted(docs, recs)
    decreases |recs|
  {
    if recs != [] {
      MongoUpdate(docs[DocKey(recs[0]) := recs[0]], recs[1..], warn || DocKey(recs[0]) in docs);
    }
  }

  /** The first record with `_id` `key`, if any. */
  predicate FirstWithKey(recs: seq<Row>, key: Cell, i: int) {
    0 <= i < |recs| && DocKey(recs[i]) == key && forall j :: 0 <= j < i ==> DocKey(recs[j]) != key
  }

  /** The `_id`s of the records. */
  function RecordIds(recs: seq<Row>): set<Cell> {
    set k | 0 <= k < |recs| :: DocKey(recs[k])
  }

  lemma RecordIdsCons(recs: seq<Row>)
    requires recs != []
    ensures RecordIds(recs) == {DocKey(recs[0])} + RecordIds(recs[1..])
  {
    assert forall k :: 0 <= k < |recs[1..]| ==> recs[1..][k] == recs[k + 1];
    forall key | key in RecordIds(recs) ensures key in {DocKey(recs[0])} + RecordIds(recs[1..]) {
      var k :| 0 <= k < |recs| && DocKey(recs[k]) == key;
      if k > 0 {
        assert DocKey(recs[1..][k - 1]) == key;
      }
    }
  }

  /** `ignore` never raises, keeps every existing document and adds the `_id` of every record. */
  lemma {:induction false} MongoIgnore(docs: map<Cell, Row>, recs: seq<Row>, filterGiven: bool, warn: bool)
    ensures var r := MongoFold(docs, recs, IgnoreExisting, filterGiven, warn);
      && r.outcome == Pass
      && r.store.Keys == docs.Keys + RecordIds(recs)
      && (forall key :: key in docs ==> r.store[key] == docs[key])
    decreases |recs|
  {
    if recs != [] {
      var key0 := DocKey(recs[0]);
      var next := if key0 in docs then docs else docs[key0 := recs[0]];
      MongoIgnore(next, recs[1..], filterGiven, warn || key0 in docs);
      RecordIdsCons(recs);
    }
  }

  /** Under `ignore` a new `_id` holds the first record that carries it. */
  lemma {:induction false} MongoIgnoreFirst(docs: map<Cell, Row>, recs: seq<Row>, filterGiven: bool, warn: bool)
    ensures var r := MongoFold(docs, recs, IgnoreExisting, filterGiven, warn);
      forall key :: key in r.store && key !in docs ==> exists i :: FirstWithKey(recs, key, i) && r.store[key] == recs[i]
    decreases |recs|
  {
    if recs != [] {
      var key0 := DocKey(recs[0]);
      var next := if key0 in docs then docs else docs[key0 := recs[0]];
      MongoIgnoreFirst(next, recs[1..], filterGiven, warn || key0 in docs);
      MongoIgnore(next, recs[1..], filterGiven, warn || key0 in docs);
      var r := MongoFold(next, recs[1..], IgnoreExisting, filterGiven, warn || key0 in docs);
      forall key | key in r.store && key !in docs
        ensures exists i :: FirstWithKey(recs, key, i) && r.store[key] == recs[i]
      {
        if key == key0 {
          assert FirstWithKey(recs, key, 0);
        } else {
          var i :| FirstWithKey(recs[1..], key, i) && r.store[key] == recs[1..][i];
          assert FirstWithKey(recs, key, i + 1);
        }
      }
    }
  }

  lemma {:induction false} MongoAllPresent(docs: map<Cell, Row>, recs: seq<Row>, warn: bool)
    requires forall k :: 0 <= k < |recs| ==> DocKey(recs[k]) in docs
    ensures MongoFold(docs, recs, IgnoreExisting, true, warn) == Run(Pass, docs, warn || recs != [])
    decreases |recs|
  {
    if recs != [] {
      assert forall k :: 0 <= k < |recs[1..]| ==> recs[1..][k] == recs[k + 1];
      MongoAllPresent(docs, recs[1..], true);
    }
  }

  /** Running `ignore` again with the same records changes nothing and warns. */
  lemma MongoIgnoreRerun(docs: map<Cell, Row>, recs: seq<Row>)
    ensures var first := MongoRun(docs, recs, IgnoreExisting);
      MongoRun(first.store, recs, IgnoreExisting) == Run(Pass, first.store, recs != [])
  {
    MongoIgnore(docs, recs, true, false);
    var first := MongoRun(docs, recs, IgnoreExisting);
    forall k | 0 <= k < |recs| ensures DocKey(recs[k]) in first.store {
      assert DocKey(recs[k]) in RecordIds(recs);
    }
    MongoAllPresent(first.store, recs, false);
  }

  /** An existing `_id` under `update`: the code as written raises, since `update_one` gets the
      record and no filter; with the filter the document is replaced. */
  lemma MongoUpdateMissingFilter(docs: map<Cell, Row>, rec: Row)
    requires DocKey(rec) in docs
    ensures MongoRunAsWritten(docs, [rec], UpdateExisting) == Run(Fail(UpdateMissingFilter), docs, true)
    ensures MongoRun(docs, [rec], UpdateExisting) == Run(Pass, docs[DocKey(rec) := rec], true)
  {
    assert [rec][1..] == [];
    assert MongoAction(docs, rec, UpdateExisting, true) == Put;
    assert MongoFold(docs[DocKey(rec) := rec], [], UpdateExisting, true, true) == Run(Pass, docs[DocKey(rec) := rec], true);
  }

  /** A policy `to_mongo` does not know, with records whose `_id` is new: the code as written
      inserts them without complaint; checked first, the policy is refused and nothing is
      written. */
  lemma MongoUnknownPolicy(docs: map<Cell, Row>, rec: Row, policy: Policy)
    requires !MongoPolicy(policy) && DocKey(rec) !in docs
    ensures MongoRunAsWritten(docs, [rec], policy) == Run(Pass, docs[DocKey(rec) := rec], false)
    ensures MongoRun(docs, [rec], policy) == Run(Fail(InvalidPolicy), docs, false)
  {
    assert [rec][1..] == [];
    assert MongoAction(docs, rec, policy, false) == Put;
    assert MongoFold(docs[DocKey(rec) := rec], [], policy, false, false) == Run(Pass, docs[DocKey(rec) := rec], false);
  }

  /** `table[date_col] = self.date`, `table['registroFonte'] = ...` and `table['_id']` = the hash
      of the facility id, the date and the source. */
  function MongoRecords(table: seq<Row>, d: Date, dateCol: Column, hash: Row -> Cell): (r: seq<Row>)
    ensures |r| == |table|
    ensures forall k :: 0 <= k < |table| ==>
      var dated := table[k][dateCol := DateVal(d)][RegistroFonte := Text(Fonte)];
      && DocKey(r[k]) == hash(Project(dated, IdColumns(dateCol)))
      && forall c :: c != DocumentId ==> Get(r[k], c) == Get(dated, c)
  {
    seq(|table|, k requires 0 <= k < |table| =>
      var dated := table[k][dateCol := DateVal(d)][RegistroFonte := Text(Fonte)];
      dated[DocumentId := hash(Project(dated, IdColumns(dateCol)))])
  }

  /** The `_id` depends on the facility id alone: the rows of one facility (the several regime
      and gender rows of `imprisoned`, say) share it. */
  lemma MongoIdByFacility(table: seq<Row>, d: Date, dateCol: Column, hash: Row -> Cell, i: nat, j: nat)
    requires i < |table| && j < |table| && Get(table[i], UnidadeId) == Get(table[j], UnidadeId)
    ensures DocKey(MongoRecords(table, d, dateCol, hash)[i]) == DocKey(MongoRecords(table, d, dateCol, hash)[j])
  {
    var di := table[i][dateCol := DateVal(d)][RegistroFonte := Text(Fonte)];
    var dj := table[j][dateCol := DateVal(d)][RegistroFonte := Text(Fonte)];
    assert Project(di, IdColumns(dateCol)) == Project(dj, IdColumns(dateCol));
  }

  /** Under `ignore`, of two records with one new `_id` the later never reaches the collection. */
  lemma MongoIgnoreSameId(docs: map<Cell, Row>, recs: seq<Row>, i: nat, j: nat)
    requires i < j < |recs| && DocKey(recs[i]) == DocKey(recs[j]) && DocKey(recs[i]) !in docs
    ensures var store := MongoRun(docs, recs, IgnoreExisting).store;
      DocKey(recs[j]) in store && exists f :: 0 <= f <= i && store[DocKey(recs[j])] == recs[f]
  {
    MongoIgnore(docs, recs, true, false);
    MongoIgnoreFirst(docs, recs, true, false);
    var store := MongoRun(docs, recs, IgnoreExisting).store;
    var key := DocKey(recs[i]);
    assert key in RecordIds(recs);
    var f :| FirstWithKey(recs, key, f) && store[key] == recs[f];
  }

  /** Hence under `ignore` only the first row of a facility reaches a collection that lacks its
      `_id`: a later row of the same facility is skipped. */
  lemma MongoFacilityCollision(docs: map<Cell, Row>, table: seq<Row>, d: Date, dateCol: Column, hash: Row -> Cell,
                               i: nat, j: nat)
    requires i < j < |table| && Get(table[i], UnidadeId) == Get(table[j], UnidadeId)
    requires DocKey(MongoRecords(table, d, dateCol, hash)[i]) !in docs
    ensures var recs := MongoRecords(table, d, dateCol, hash);
      var store := MongoRun(docs, recs, IgnoreExisting).store;
      DocKey(recs[j]) in store && exists f :: 0 <= f <= i && store[DocKey(recs[j])] == recs[f]
  {
    MongoIdByFacility(table, d, dateCol, hash, i, j);
    MongoIgnoreSameId(docs, MongoRecords(table, d, dateCol, hash), i, j);
  }

  /** `to_mongo(tablename, ..., date_col=..., exist_policy=...)` into a collection holding
      `docs`. */
  function ToMongo(b: Bulletin, tablename: string, docs: map<Cell, Row>, policy: Policy, dateCol: Column,
                   hash: Row -> Cell): (r: Result<Run<map<Cell, Row>>>)
    ensures r.Failure? <==> TableNamed(b, tablename).Failure?
    ensures r.Success? ==>
      r.value == MongoRun(docs, MongoRecords(TableNamed(b, tablename).value, b.date.date, dateCol, hash), policy)
  {
    var table :- TableNamed(b, tablename);
    Success(MongoRun(docs, MongoRecords(table, b.date.date, dateCol, hash), policy))
  }

  /** A MongoDB collection, its documents by `_id`. */
  class MongoCollection {
    var docs: map<Cell, Row>

    constructor(docs: map<Cell, Row>)
      ensures this.docs == docs
    {
      this.docs := docs;
    }

    /** `collection.find_one({'_id': key}) is not None`. */
    method FindOne(key: Cell) returns (found: bool)
      ensures found <==> key in docs
    {
      found := key in docs;
    }

    /** `insert_one(record)`, and `replace_one({'_id': key}, record)` for the intended update. */
    method Put(rec: Row)
      modifies this
      ensures docs == old(docs)[DocKey(rec) := rec]
    {
      docs := docs[DocKey(rec) := rec];
    }

    /** The export loop of `to_mongo`, with the policy checked first and the update given its
        filter. */
    method Upload(recs: seq<Row>, policy: Policy) returns (outcome: Outcome, warn: bool)
      modifies this
      ensures Run(outcome, docs, warn) == MongoRun(old(docs), recs, policy)
    {
      warn := false;
      if !MongoPolicy(policy) {
        return Fail(InvalidPolicy), warn;
      }
      var i := 0;
      while i < |recs|
        invariant 0 <= i <= |recs|
        invariant MongoRun(old(docs), recs, policy) == MongoFold(docs, recs[i..], policy, true, warn)
      {
        var rec := recs[i];
        assert recs[i..][0] == rec && recs[i..][1..] == recs[i + 1..];
        var existing := FindOne(DocKey(rec));
        if existing {
          warn := true;
          if policy.FailOnExisting? {
            return Fail(DuplicateRecord), warn;
          } else if policy.UpdateExisting? {
            Put(rec);
          }
        } else {
          Put(rec);
        }
        i := i + 1;
      }
      outcome := Pass;
    }
  }
}
