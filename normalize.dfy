/** `SEAPBulletin._parse_count`: from the rows under the sheet's header to the four tables
    `facilities`, `capacity`, `imprisoned` and `imprisoned_detail`. The steps, in the source's order:
    classify by subtotals; add an empty sigla; forward-fill the id and facility columns; keep the
    rows whose id is numeric; trim the name; run the gender and abbreviation passes; trim name and
    sigla again; standardise the regime; split into column groups, dropping incomplete and repeated
    rows in all tables but `imprisoned`. */
module Normalize {
  import opened Wrappers
  import opened Strings
  import opened Table
  import Sections
  import NamePatterns
  import Regimes

  /** `[id_col] + facility_cols`, the columns forward-filled and the `facilities` table. */
  const FacilityColumns: set<Column> := {UnidadeId, UnidadeNome, UnidadeLocalidade, UnidadeTipo, UnidadeSigla}
  const CapacityColumns: set<Column> := {UnidadeId, CapacidadeOriginal, CapacidadeInospito, CapacidadeAtual}
  const ImprisonedColumns: set<Column> := {UnidadeId, EfetivoRegime, EfetivoGenero, EfetivoNominal}
  const DetailColumns: set<Column> := {UnidadeId, EfetivoBaixados, EfetivoAcautelado, EfetivoReal}

  datatype Tables = Tables(
    facilities: seq<Row>, capacity: seq<Row>, imprisoned: seq<Row>, imprisonedDetail: seq<Row>)

  // ---------------------------------------------------------------- forward fill

  /** The last value of column `c` among `rows` that is not NaN, or NaN when there is none: an
      independent statement of what the forward fill must produce. */
  function LastValue(rows: seq<Row>, c: Column): (v: Cell)
    ensures v != Empty ==> exists j :: (0 <= j < |rows| && Get(rows[j], c) == v
      && forall k :: j < k < |rows| ==> Get(rows[k], c) == Empty)
    ensures v == Empty ==> forall j :: 0 <= j < |rows| ==> Get(rows[j], c) == Empty
  {
    if rows == [] then Empty
    else if Get(rows[|rows| - 1], c) != Empty then Get(rows[|rows| - 1], c)
    else
      var v := LastValue(rows[..|rows| - 1], c);
      assert forall j :: 0 <= j < |rows| - 1 ==> rows[..|rows| - 1][j] == rows[j];
      v
  }

  /** One step of `fillna(method='ffill')`: the row's NaN cells in the id and facility columns take
      the value of the row above, already filled. */
  function FillNext(above: Row, row: Row): Row {
    map c | c in row.Keys + FacilityColumns ::
      if c in FacilityColumns && Get(row, c) == Empty then Get(above, c) else Get(row, c)
  }

  lemma FillNextCell(above: Row, row: Row, c: Column)
    ensures Get(FillNext(above, row), c) ==
      if c in FacilityColumns && Get(row, c) == Empty then Get(above, c) else Get(row, c)
  {
  }

  /** `fillna(method='ffill')` over the id and facility columns, row after row. */
  function FillDown(rows: seq<Row>): (r: seq<Row>)
    ensures |r| == |rows|
  {
    if rows == [] then []
    else
      var init := FillDown(rows[..|rows| - 1]);
      init + [FillNext(if init == [] then map[] else init[|init| - 1], rows[|rows| - 1])]
  }

  /** Filling a prefix gives the prefix of the fill: no row depends on the rows below it. */
  lemma {:induction false} FillDownPrefix(rows: seq<Row>, n: nat)
    requires n <= |rows|
    ensures FillDown(rows[..n]) == FillDown(rows)[..n]
    decreases |rows|
  {
    if n < |rows| {
      var init := rows[..|rows| - 1];
      assert init[..n] == rows[..n];
      FillDownPrefix(init, n);
    } else {
      assert rows[..n] == rows;
    }
  }

  /** The last filled row holds, in each id and facility column, the last value not NaN in that
      column, and its own cells in the other columns. */
  lemma {:induction false} FillDownLast(rows: seq<Row>, c: Column)
    requires rows != []
    ensures Get(FillDown(rows)[|rows| - 1], c) ==
      if c in FacilityColumns then LastValue(rows, c) else Get(rows[|rows| - 1], c)
  {
    var n := |rows|;
    var init := rows[..n - 1];
    FillNextCell(if FillDown(init) == [] then map[] else FillDown(init)[n - 2], rows[n - 1], c);
    if n > 1 {
      FillDownLast(init, c);
    }
  }

  lemma FillCell(rows: seq<Row>, i: nat, c: Column)
    requires i < |rows|
    ensures Get(FillDown(rows)[i], c) ==
      if c in FacilityColumns then LastValue(rows[..i + 1], c) else Get(rows[i], c)
  {
    var prefix := rows[..i + 1];
    FillDownPrefix(rows, i + 1);
    FillDownLast(prefix, c);
    assert FillDown(rows)[i] == FillDown(prefix)[i];
    assert prefix[i] == rows[i];
  }

  /** `LastValue` on the rows up to `i`, stated over `rows` itself. */
  lemma LastValueUpTo(rows: seq<Row>, i: nat, c: Column)
    requires i < |rows|
    ensures Get(rows[i], c) != Empty ==> LastValue(rows[..i + 1], c) == Get(rows[i], c)
    ensures LastValue(rows[..i + 1], c) != Empty ==>
      exists j :: (0 <= j <= i && Get(rows[j], c) == LastValue(rows[..i + 1], c)
        && forall k :: j < k <= i ==> Get(rows[k], c) == Empty)
    ensures LastValue(rows[..i + 1], c) == Empty ==> forall j :: 0 <= j <= i ==> Get(rows[j], c) == Empty
  {
    var prefix := rows[..i + 1];
    var v := LastValue(prefix, c);
    assert prefix[i] == rows[i];
    if v != Empty {
      var j :| 0 <= j < |prefix| && Get(prefix[j], c) == v
        && forall k :: j < k < |prefix| ==> Get(prefix[k], c) == Empty;
      assert Get(rows[j], c) == v;
      forall k | j < k <= i ensures Get(rows[k], c) == Empty {
        assert prefix[k] == rows[k];
      }
    } else {
      forall j | 0 <= j <= i ensures Get(rows[j], c) == Empty {
        assert prefix[j] == rows[j];
      }
    }
  }

  /** After the fill, a facility cell holds the nearest value not NaN at or above it (from a row
      that may be dropped later), or stays NaN when there is none; its own value wins when it has
      one, and the other columns do not change. */
  lemma FillDownNearest(rows: seq<Row>, i: nat, c: Column)
    requires i < |rows|
    ensures c in FacilityColumns && Get(rows[i], c) != Empty ==> Get(FillDown(rows)[i], c) == Get(rows[i], c)
    ensures c in FacilityColumns && Get(FillDown(rows)[i], c) != Empty ==>
      exists j :: (0 <= j <= i && Get(rows[j], c) == Get(FillDown(rows)[i], c)
        && forall k :: j < k <= i ==> Get(rows[k], c) == Empty)
    ensures c in FacilityColumns && Get(FillDown(rows)[i], c) == Empty ==>
      forall j :: 0 <= j <= i ==> Get(rows[j], c) == Empty
    ensures c !in FacilityColumns ==> Get(FillDown(rows)[i], c) == Get(rows[i], c)
  {
    FillCell(rows, i, c);
    LastValueUpTo(rows, i, c);
  }

  lemma FillDownStep(rows: seq<Row>, i: nat)
    requires i < |rows|
    ensures FillDown(rows[..i + 1]) ==
      FillDown(rows[..i]) + [FillNext(if i == 0 then map[] else FillDown(rows[..i])[i - 1], rows[i])]
  {
    assert rows[..i + 1][..i] == rows[..i];
    assert rows[..i + 1][i] == rows[i];
  }

  /** The forward fill, one row at a time, carrying the row above as already filled. */
  method ForwardFill(rows: seq<Row>) returns (r: seq<Row>)
    ensures r == FillDown(rows)
  {
    var above: Row := map[];
    r := [];
    var i := 0;
    while i < |rows|
      invariant i <= |rows| && r == FillDown(rows[..i])
      invariant above == if i == 0 then map[] else r[i - 1]
    {
      FillDownStep(rows, i);
      var next := FillNext(above, rows[i]);
      r := r + [next];
      above := next;
      i := i + 1;
    }
    assert rows[..i] == rows;
  }

  // ---------------------------------------------------------------- numeric ids

  /** `pd.to_numeric(parsed[id_col], errors='coerce')` followed by `parsed.loc[pd.notna(...)]`:
      the rows whose id reads as an integer, with the id as that integer, in their order. */
  function NumericIdRows(rows: seq<Row>): (r: seq<Row>)
    ensures |r| <= |rows|
    ensures forall x :: x in r ==> Get(x, UnidadeId).Num?
    ensures forall x :: x in r <==> exists k :: (0 <= k < |rows| && ToNumeric(Get(rows[k], UnidadeId)).Some?
      && x == rows[k][UnidadeId := Num(ToNumeric(Get(rows[k], UnidadeId)).value)])
  {
    if rows == [] then []
    else
      var rest := NumericIdRows(rows[1..]);
      assert forall k :: 1 <= k < |rows| ==> rows[k] == rows[1..][k - 1];
      match ToNumeric(Get(rows[0], UnidadeId))
      case Some(n) => [rows[0][UnidadeId := Num(n)]] + rest
      case None => rest
  }

  /** Some row whose id reads as an integer has a name that is not text. */
  predicate KeptNameNotText(rows: seq<Row>) {
    exists k :: 0 <= k < |rows| && ToNumeric(Get(rows[k], UnidadeId)).Some? && !Get(rows[k], UnidadeNome).Text?
  }

  /** The filter keeps every name of the rows it keeps: a kept name is not text exactly when some
      row with an integer id has a name that is not text. */
  lemma KeptNames(rows: seq<Row>)
    ensures !ColumnText(NumericIdRows(rows), UnidadeNome) <==> KeptNameNotText(rows)
  {
    var r := NumericIdRows(rows);
    if !ColumnText(r, UnidadeNome) {
      var i :| 0 <= i < |r| && !Get(r[i], UnidadeNome).Text?;
      assert r[i] in r;
    }
    if KeptNameNotText(rows) {
      var k :| 0 <= k < |rows| && ToNumeric(Get(rows[k], UnidadeId)).Some? && !Get(rows[k], UnidadeNome).Text?;
      var x := rows[k][UnidadeId := Num(ToNumeric(Get(rows[k], UnidadeId)).value)];
      assert x in r;
      var i :| 0 <= i < |r| && r[i] == x;
      assert !Get(r[i], UnidadeNome).Text?;
    }
  }

  /** Filtering distributes over concatenation: the rows kept keep their relative order. */
  lemma {:induction false} NumericIdRowsConcat(a: seq<Row>, b: seq<Row>)
    ensures NumericIdRows(a + b) == NumericIdRows(a) + NumericIdRows(b)
  {
    if a != [] {
      assert (a + b)[1..] == a[1..] + b;
      NumericIdRowsConcat(a[1..], b);
    } else {
      assert a + b == b;
    }
  }

  // ---------------------------------------------------------------- names and regimes

  /** Column `c` of every row holds text. */
  predicate ColumnText(rows: seq<Row>, c: Column) {
    forall k :: 0 <= k < |rows| ==> Get(rows[k], c).Text?
  }

  /** Column `c` of every row is text with no surrounding white space. */
  predicate Trimmed(rows: seq<Row>, c: Column) {
    forall k :: 0 <= k < |rows| ==> Get(rows[k], c).Text? && Strip(Get(rows[k], c).s) == Get(rows[k], c).s
  }

  /** `x.strip()` on the text cell of column `c`. */
  function TrimRow(row: Row, c: Column): (r: Row)
    requires Get(row, c).Text?
    ensures Get(r, c) == Text(Strip(Get(row, c).s)) && Strip(Get(r, c).s) == Get(r, c).s
    ensures forall d :: d != c ==> Get(r, d) == Get(row, d)
  {
    StripIdempotent(Get(row, c).s);
    row[c := Text(Strip(Get(row, c).s))]
  }

  /** `x.strip()` over a text column: the column ends up trimmed, each cell the strip of the old
      one, and no other column changes. */
  function TrimColumn(rows: seq<Row>, c: Column): (r: seq<Row>)
    requires ColumnText(rows, c)
    ensures |r| == |rows| && Trimmed(r, c)
    ensures forall k :: 0 <= k < |rows| ==> Get(r[k], c) == Text(Strip(Get(rows[k], c).s))
    ensures forall k, d :: 0 <= k < |rows| && d != c ==> Get(r[k], d) == Get(rows[k], d)
  {
    seq(|rows|, k requires 0 <= k < |rows| => TrimRow(rows[k], c))
  }

  /** `parsed[c].apply(lambda x: x.strip())`, which raises when a cell is not text (a NaN name
      left where no name was above it, for instance). */
  function StripColumn(rows: seq<Row>, c: Column): (r: Result<seq<Row>>)
    ensures r.Failure? <==> exists k :: 0 <= k < |rows| && !Get(rows[k], c).Text?
    ensures r.Failure? ==> r.error == MalformedRow
    ensures r.Success? ==> ColumnText(rows, c) && r.value == TrimColumn(rows, c)
  {
    if ColumnText(rows, c) then Success(TrimColumn(rows, c)) else Failure(MalformedRow)
  }

  /** `parsed.apply(_info_from_name, axis=1, ...)`, row by row. */
  function NamePass(rows: seq<Row>, rules: seq<NamePatterns.NameRule>, categoryCol: Option<Column>,
                    ignoreCase: bool): (r: seq<Row>)
    requires ColumnText(rows, UnidadeNome)
    ensures |r| == |rows| && ColumnText(r, UnidadeNome)
  {
    seq(|rows|, k requires 0 <= k < |rows| => NamePatterns.ApplyRules(rows[k], rules, categoryCol, ignoreCase))
  }

  /** `_info_from_name` writes only the captured groups (the name, and the sigla for the
      abbreviation pattern) and the category column. */
  lemma {:induction false} ApplyRulesKeeps(row: Row, rules: seq<NamePatterns.NameRule>,
                                           categoryCol: Option<Column>, ignoreCase: bool, c: Column)
    requires Get(row, UnidadeNome).Text?
    requires c != UnidadeNome && categoryCol != Some(c)
    requires c == UnidadeSigla ==> forall j :: 0 <= j < |rules| ==> rules[j].pattern.Suffix?
    ensures Get(NamePatterns.ApplyRules(row, rules, categoryCol, ignoreCase), c) == Get(row, c)
  {
    if rules != [] {
      match NamePatterns.Groups(rules[0].pattern, row[UnidadeNome].s, ignoreCase)
      case None =>
        ApplyRulesKeeps(row, rules[1..], categoryCol, ignoreCase, c);
      case Some(g) =>
        assert rules[0].pattern.Suffix? ==> g.Keys == {UnidadeNome};
        MatchedKeeps(row, categoryCol, rules[0].category, g, c);
    }
  }

  /** A matched row keeps every column outside the groups and the category column. */
  lemma MatchedKeeps(row: Row, categoryCol: Option<Column>, category: string, groups: Row, c: Column)
    requires c !in groups && categoryCol != Some(c)
    ensures Get(NamePatterns.Matched(row, categoryCol, category, groups), c) == Get(row, c)
  {
  }

  /** Every cell `_info_from_name` writes is text, so a text column stays text. */
  lemma {:induction false} ApplyRulesText(row: Row, rules: seq<NamePatterns.NameRule>,
                                          categoryCol: Option<Column>, ignoreCase: bool, c: Column)
    requires Get(row, UnidadeNome).Text? && Get(row, c).Text?
    ensures Get(NamePatterns.ApplyRules(row, rules, categoryCol, ignoreCase), c).Text?
  {
    if rules != [] {
      var m := NamePatterns.Groups(rules[0].pattern, row[UnidadeNome].s, ignoreCase);
      if m.None? {
        ApplyRulesText(row, rules[1..], categoryCol, ignoreCase, c);
      }
    }
  }

  /** `parsed['efetivoRegime'].apply(_parse_regimes)`: every regime standard, nothing else
      changed. */
  function StandardRegimes(rows: seq<Row>): (r: seq<Row>)
    ensures |r| == |rows| && RegimesStandard(r)
    ensures forall k, d :: 0 <= k < |rows| && d != EfetivoRegime ==> Get(r[k], d) == Get(rows[k], d)
  {
    seq(|rows|, k requires 0 <= k < |rows| =>
      rows[k][EfetivoRegime := Text(Regimes.ParseRegime(Get(rows[k], EfetivoRegime)))])
  }

  // ---------------------------------------------------------------- the pipeline

  /** The sheet after classification, with the sigla column set to "" on every row. */
  function WithSigla(rows: seq<Row>): seq<Row> {
    seq(|rows|, k requires 0 <= k < |rows| => rows[k][UnidadeSigla := Text("")])
  }

  predicate IdsNumeric(rows: seq<Row>) {
    forall k :: 0 <= k < |rows| ==> Get(rows[k], UnidadeId).Num?
  }

  predicate RegimesStandard(rows: seq<Row>) {
    forall k :: 0 <= k < |rows| ==>
      Get(rows[k], EfetivoRegime).Text? && Get(rows[k], EfetivoRegime).s in Regimes.Standard
  }

  /** What `parsed` looks like before it is split: an integer id (`astype(int)`), a trimmed
      text name and sigla, and a standard regime on every row. */
  predicate WellParsed(rows: seq<Row>) {
    IdsNumeric(rows) && Trimmed(rows, UnidadeNome) && Trimmed(rows, UnidadeSigla) && RegimesStandard(rows)
  }

  /** The rows that survive the id filter, with the empty sigla filled down: every id is an
      integer and every sigla "". */
  lemma NumericRows(classified: seq<Row>)
    ensures IdsNumeric(NumericIdRows(FillDown(WithSigla(classified))))
    ensures forall k :: 0 <= k < |NumericIdRows(FillDown(WithSigla(classified)))| ==>
      Get(NumericIdRows(FillDown(WithSigla(classified)))[k], UnidadeSigla) == Text("")
  {
    var sig := WithSigla(classified);
    var filled := FillDown(sig);
    var numeric := NumericIdRows(filled);
    forall i | 0 <= i < |filled| ensures Get(filled[i], UnidadeSigla) == Text("") {
      assert Get(sig[i], UnidadeSigla) == Text("");
      FillDownNearest(sig, i, UnidadeSigla);
    }
    forall k | 0 <= k < |numeric|
      ensures Get(numeric[k], UnidadeId).Num? && Get(numeric[k], UnidadeSigla) == Text("")
    {
      assert numeric[k] in numeric;
    }
  }

  /** The two name passes keep the ids and leave name and sigla text. */
  lemma NamePasses(trimmed: seq<Row>)
    requires ColumnText(trimmed, UnidadeNome) && ColumnText(trimmed, UnidadeSigla) && IdsNumeric(trimmed)
    ensures var split := NamePass(NamePass(trimmed, NamePatterns.GenderRules, Some(EfetivoGenero), true),
                                  NamePatterns.AbbreviationRules, None, false);
      ColumnText(split, UnidadeSigla) && IdsNumeric(split)
  {
    var gendered := NamePass(trimmed, NamePatterns.GenderRules, Some(EfetivoGenero), true);
    var split := NamePass(gendered, NamePatterns.AbbreviationRules, None, false);
    forall k | 0 <= k < |split| ensures Get(split[k], UnidadeSigla).Text? && Get(split[k], UnidadeId).Num? {
      ApplyRulesText(trimmed[k], NamePatterns.GenderRules, Some(EfetivoGenero), true, UnidadeSigla);
      ApplyRulesText(gendered[k], NamePatterns.AbbreviationRules, None, false, UnidadeSigla);
      ApplyRulesKeeps(trimmed[k], NamePatterns.GenderRules, Some(EfetivoGenero), true, UnidadeId);
      ApplyRulesKeeps(gendered[k], NamePatterns.AbbreviationRules, None, false, UnidadeId);
    }
  }

  /** Every row of `parsed` in `_parse_count`, before it is split: an error when a marker row is
      missing or a name that survives the id filter is not text; otherwise well-parsed rows. */
  function Parsed(raw: seq<Row>): (r: Result<seq<Row>>)
    ensures r.Failure? ==> r.error == SectionMarkerNotFound || r.error == MalformedRow
    ensures Sections.Subtotals(raw).Failure? ==> r == Failure(SectionMarkerNotFound)
    ensures Sections.Subtotals(raw).Success? ==>
      (r.Failure? <==> KeptNameNotText(FillDown(WithSigla(Sections.Subtotals(raw).value))))
    ensures r.Success? ==> WellParsed(r.value)
  {
    var classified :- Sections.Subtotals(raw);
    var trimmed :- Prepared(classified);
    Success(NameSteps(trimmed))
  }

  /** Up to the stripped names: the sigla column, the forward fill, the numeric-id filter and the
      strip of the name, which fails on a name that is not text. */
  function Prepared(classified: seq<Row>): (r: Result<seq<Row>>)
    ensures r.Failure? ==> r.error == MalformedRow
    ensures r.Failure? <==> KeptNameNotText(FillDown(WithSigla(classified)))
    ensures r.Success? ==>
      ColumnText(r.value, UnidadeNome) && ColumnText(r.value, UnidadeSigla) && IdsNumeric(r.value)
  {
    NumericRows(classified);
    KeptNames(FillDown(WithSigla(classified)));
    StripColumn(NumericIdRows(FillDown(WithSigla(classified))), UnidadeNome)
  }

  /** From the stripped names on: the gender and abbreviation passes, the strips of the name and
      sigla, and the regime standardisation. */
  function NameSteps(trimmed: seq<Row>): (r: seq<Row>)
    requires ColumnText(trimmed, UnidadeNome) && ColumnText(trimmed, UnidadeSigla) && IdsNumeric(trimmed)
    ensures WellParsed(r)
  {
    NamePasses(trimmed);
    var gendered := NamePass(trimmed, NamePatterns.GenderRules, Some(EfetivoGenero), true);
    var split := NamePass(gendered, NamePatterns.AbbreviationRules, None, false);
    FinalSteps(split);
    StandardRegimes(TrimColumn(TrimColumn(split, UnidadeNome), UnidadeSigla))
  }

  /** The last strips and the regime standardisation leave the rows well parsed. */
  lemma FinalSteps(split: seq<Row>)
    requires ColumnText(split, UnidadeNome) && ColumnText(split, UnidadeSigla) && IdsNumeric(split)
    ensures ColumnText(TrimColumn(split, UnidadeNome), UnidadeSigla)
    ensures WellParsed(StandardRegimes(TrimColumn(TrimColumn(split, UnidadeNome), UnidadeSigla)))
  {
    var named := TrimColumn(split, UnidadeNome);
    var final := TrimColumn(named, UnidadeSigla);
    var r := StandardRegimes(final);
    forall k | 0 <= k < |r|
      ensures Get(r[k], UnidadeNome) == Get(named[k], UnidadeNome)
      ensures Get(r[k], UnidadeSigla) == Get(final[k], UnidadeSigla)
      ensures Get(r[k], UnidadeId) == Get(split[k], UnidadeId)
    {
      assert Get(r[k], UnidadeNome) == Get(final[k], UnidadeNome);
      assert Get(r[k], UnidadeId) == Get(final[k], UnidadeId) == Get(named[k], UnidadeId);
    }
  }

  /** `parsed.loc[:, cols]`. */
  function Columns(rows: seq<Row>, cols: set<Column>): (r: seq<Row>)
    ensures |r| == |rows| && forall k :: 0 <= k < |rows| ==> r[k] == Project(rows[k], cols)
  {
    seq(|rows|, k requires 0 <= k < |rows| => Project(rows[k], cols))
  }

  /** `parsed.loc[:, cols].dropna().drop_duplicates()`: the projections of the parsed rows that
      hold no NaN, each once. */
  function Cleaned(parsed: seq<Row>, cols: set<Column>): (r: seq<Row>)
    ensures Distinct(r)
    ensures forall x :: x in r ==> x.Keys == cols
    ensures forall x :: x in r <==> Complete(x) && exists k :: 0 <= k < |parsed| && x == Project(parsed[k], cols)
  {
    var projected := Columns(parsed, cols);
    assert forall x :: x in projected <==> exists k :: 0 <= k < |parsed| && x == Project(parsed[k], cols) by {
      forall x | x in projected ensures exists k :: 0 <= k < |parsed| && x == Project(parsed[k], cols) {
        var k :| 0 <= k < |projected| && projected[k] == x;
      }
      forall k | 0 <= k < |parsed| ensures Project(parsed[k], cols) in projected {
        assert projected[k] == Project(parsed[k], cols);
      }
    }
    DropDuplicates(DropNa(projected))
  }

  /** The four tables: the columns of each group; for all but `imprisoned`, without rows that
      hold a NaN and without repeated rows. `imprisoned` keeps one row per parsed row, in order. */
  function Partition(parsed: seq<Row>): (t: Tables)
    ensures forall x :: x in t.facilities <==> Complete(x) && exists k :: 0 <= k < |parsed| && x == Project(parsed[k], FacilityColumns)
    ensures forall x :: x in t.capacity <==> Complete(x) && exists k :: 0 <= k < |parsed| && x == Project(parsed[k], CapacityColumns)
    ensures forall x :: x in t.imprisonedDetail <==> Complete(x) && exists k :: 0 <= k < |parsed| && x == Project(parsed[k], DetailColumns)
    ensures Distinct(t.facilities) && Distinct(t.capacity) && Distinct(t.imprisonedDetail)
    ensures |t.imprisoned| == |parsed|
    ensures forall k :: 0 <= k < |parsed| ==> t.imprisoned[k] == Project(parsed[k], ImprisonedColumns)
  {
    Tables(
      Cleaned(parsed, FacilityColumns),
      Cleaned(parsed, CapacityColumns),
      Columns(parsed, ImprisonedColumns),
      Cleaned(parsed, DetailColumns))
  }

  /** `_parse_count`: the four tables, or the error the parse raises. */
  function Normalize(raw: seq<Row>): (r: Result<Tables>)
    ensures r.Success? <==> Parsed(raw).Success?
  {
    var parsed :- Parsed(raw);
    Success(Partition(parsed))
  }

  /** `_parse_count`, step by step as the source reassigns `parsed`. */
  method ParseCount(raw: seq<Row>) returns (r: Result<Tables>)
    ensures r == Normalize(raw)
  {
    var classified :- Sections.InfoFromSubtotals(raw);
    var parsed :- PrepareRows(classified);
    parsed := ApplyNameSteps(parsed);
    r := Success(Partition(parsed));
  }

  /** The first reassignments of `parsed` in `_parse_count`. */
  method PrepareRows(classified: seq<Row>) returns (r: Result<seq<Row>>)
    ensures r == Prepared(classified)
  {
    var parsed := WithSigla(classified);
    parsed := ForwardFill(parsed);
    parsed := NumericIdRows(parsed);
    r := StripColumn(parsed, UnidadeNome);
  }

  /** The name passes of `_parse_count`, one reassignment of `parsed` after another. */
  method ApplyNameSteps(trimmed: seq<Row>) returns (r: seq<Row>)
    requires ColumnText(trimmed, UnidadeNome) && ColumnText(trimmed, UnidadeSigla) && IdsNumeric(trimmed)
    ensures r == NameSteps(trimmed)
  {
    NamePasses(trimmed);
    r := NamePass(trimmed, NamePatterns.GenderRules, Some(EfetivoGenero), true);
    r := NamePass(r, NamePatterns.AbbreviationRules, None, false);
    FinalSteps(r);
    r := TrimColumn(r, UnidadeNome);
    r := TrimColumn(r, UnidadeSigla);
    r := StandardRegimes(r);
  }
}
