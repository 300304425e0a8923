/** `SEAPBulletin._info_from_subtotals`: the sheet lists male prisons, then a subtotal row
    "UNIDADES FEMININAS" followed by female prisons, a row "CASA DO ALBERGARDO" followed by
    shelters, and a row "UNIDADES HOSPITALARES" followed by custody hospitals. Each row's facility
    type and inmate gender are read off its position relative to those three marker rows.
    Positions are offsets into the sheet after its header (row label minus 8). */
module Sections {
  import opened Wrappers
  import opened Table

  const FemaleMarker := "UNIDADES FEMININAS"
  const ShelterMarker := "CASA DO ALBERGARDO"
  const HospitalMarker := "UNIDADES HOSPITALARES"

  const Male := "Masculino"
  const Female := "Feminino"
  const Shelter := "Casa do Albergado"
  const Hospital := "Hospital de Custódia e Tratamento Psiquiatrico"

  /** The columns `read_excel` gives every row of the sheet (`colmapping`). */
  const SheetColumns: set<Column> := {
    UnidadeId, UnidadeNome, UnidadeLocalidade, EfetivoRegime,
    CapacidadeOriginal, CapacidadeInospito, CapacidadeAtual,
    EfetivoNominal, EfetivoBaixados, EfetivoAcautelado, EfetivoReal, Excesso, Vagas
  }

  predicate IsMarker(row: Row, marker: string) {
    Get(row, UnidadeId) == Text(marker)
  }

  /** `df.loc[df['unidadeId'] == marker].index.values[0]`: the first row holding the marker. */
  function FindMarker(rows: seq<Row>, marker: string): (r: Option<nat>)
    ensures r.Some? ==> r.value < |rows| && IsMarker(rows[r.value], marker)
    ensures r.Some? ==> forall j :: 0 <= j < r.value ==> !IsMarker(rows[j], marker)
    ensures r.None? <==> forall j :: 0 <= j < |rows| ==> !IsMarker(rows[j], marker)
  {
    if rows == [] then None
    else if IsMarker(rows[0], marker) then Some(0)
    else match FindMarker(rows[1..], marker)
      case None => None
      case Some(k) => Some(k + 1)
  }

  /** The facility type of the row at position `i`, given the shelter and hospital markers. */
  function TypeAt(i: nat, s: nat, h: nat): string {
    if i >= h then Hospital else if i >= s then Shelter else NoInfo
  }

  /** The gender of the row at position `i` whose gender cell was `was`. */
  function GenderAt(was: Cell, i: nat, f: nat, s: nat): Cell {
    if f <= i < s then Text(Female)
    else if i <= f then Text(Male)
    else if was == Empty then Text(NoInfo)
    else was
  }

  function ClassifyRow(row: Row, i: nat, f: nat, s: nat, h: nat): Row {
    row[UnidadeTipo := Text(TypeAt(i, s, h))][EfetivoGenero := GenderAt(Get(row, EfetivoGenero), i, f, s)]
  }

  /** The classified sheet, given the positions of the female, shelter and hospital markers. */
  function Classify(rows: seq<Row>, f: nat, s: nat, h: nat): (r: seq<Row>)
    ensures |r| == |rows|
  {
    seq(|rows|, i requires 0 <= i < |rows| => ClassifyRow(rows[i], i, f, s, h))
  }

  /** What `_info_from_subtotals` returns: an `IndexError` when a marker is absent, otherwise
      every row with its type and gender set, and every other cell as it was. When the markers
      come in the bulletin's order, the rows fall into the half-open sections
      `[0, f)` male prisons, `[f, s)` female prisons, `[s, h)` shelters and `[h, n)` hospitals. */
  function Subtotals(rows: seq<Row>): (r: Result<seq<Row>>)
    ensures r.Failure? <==>
      FindMarker(rows, FemaleMarker).None? || FindMarker(rows, ShelterMarker).None?
      || FindMarker(rows, HospitalMarker).None?
    ensures r.Failure? ==> r.error == SectionMarkerNotFound
    ensures r.Success? ==> |r.value| == |rows|
  {
    var fem, shelter, hosp :=
      FindMarker(rows, FemaleMarker), FindMarker(rows, ShelterMarker), FindMarker(rows, HospitalMarker);
    if fem.Some? && shelter.Some? && hosp.Some? then
      Success(Classify(rows, fem.value, shelter.value, hosp.value))
    else
      Failure(SectionMarkerNotFound)
  }

  lemma ClassifyRowCells(row: Row, i: nat, f: nat, s: nat, h: nat)
    ensures Get(ClassifyRow(row, i, f, s, h), UnidadeTipo) == Text(TypeAt(i, s, h))
    ensures Get(ClassifyRow(row, i, f, s, h), EfetivoGenero) == GenderAt(Get(row, EfetivoGenero), i, f, s)
    ensures forall c :: c != UnidadeTipo && c != EfetivoGenero ==> Get(ClassifyRow(row, i, f, s, h), c) == Get(row, c)
  {
  }

  /** The sections of a bulletin whose markers come in order f < s < h: rows before the female
      marker are male prisons, rows from it up to the shelter marker female prisons (both of type
      "Não Informado"), rows from the shelter marker up to the hospital marker shelters, and the
      rest hospitals; from the shelter marker on, a gender the sheet leaves empty becomes
      "Não Informado". No other cell changes. */
  lemma ClassifySections(rows: seq<Row>, f: nat, s: nat, h: nat)
    requires f < s < h
    ensures var r := Classify(rows, f, s, h);
      forall i :: 0 <= i < |rows| ==>
        && (i < f ==> Get(r[i], EfetivoGenero) == Text(Male) && Get(r[i], UnidadeTipo) == Text(NoInfo))
        && (f <= i < s ==> Get(r[i], EfetivoGenero) == Text(Female) && Get(r[i], UnidadeTipo) == Text(NoInfo))
        && (s <= i < h ==> Get(r[i], UnidadeTipo) == Text(Shelter))
        && (h <= i ==> Get(r[i], UnidadeTipo) == Text(Hospital))
        && (s <= i && Get(rows[i], EfetivoGenero) == Empty ==> Get(r[i], EfetivoGenero) == Text(NoInfo))
        && (s <= i && Get(rows[i], EfetivoGenero) != Empty ==> Get(r[i], EfetivoGenero) == Get(rows[i], EfetivoGenero))
    ensures var r := Classify(rows, f, s, h);
      forall i, c :: 0 <= i < |rows| && c != UnidadeTipo && c != EfetivoGenero ==> Get(r[i], c) == Get(rows[i], c)
  {
    var r := Classify(rows, f, s, h);
    forall i | 0 <= i < |rows|
      ensures Get(r[i], EfetivoGenero) == GenderAt(Get(rows[i], EfetivoGenero), i, f, s)
      ensures Get(r[i], UnidadeTipo) == Text(TypeAt(i, s, h))
      ensures forall c :: c != UnidadeTipo && c != EfetivoGenero ==> Get(r[i], c) == Get(rows[i], c)
    {
      ClassifyRowCells(rows[i], i, f, s, h);
    }
  }

  /** On rows read from the sheet, which have no gender column, every row from the shelter marker
      on has gender "Não Informado": shelters and hospitals do not split counts by gender. */
  lemma SheetGenderAfterShelter(rows: seq<Row>, f: nat, s: nat, h: nat, i: nat)
    requires f < s < h && s <= i < |rows|
    requires rows[i].Keys <= SheetColumns
    ensures Get(Classify(rows, f, s, h)[i], EfetivoGenero) == Text(NoInfo)
  {
    assert EfetivoGenero !in rows[i];
    ClassifyRowCells(rows[i], i, f, s, h);
  }

  /** A successful classification is the one made at the first occurrence of each marker. */
  lemma SubtotalsAtMarkers(rows: seq<Row>)
    requires Subtotals(rows).Success?
    ensures var f, s, h := FindMarker(rows, FemaleMarker), FindMarker(rows, ShelterMarker),
        FindMarker(rows, HospitalMarker);
      f.Some? && s.Some? && h.Some? && Subtotals(rows).value == Classify(rows, f.value, s.value, h.value)
  {
  }

  /** `df.loc[lo:hi-1, col] = v` on row positions, where positions past the end do not exist. */
  method WriteRange(t: array<Row>, lo: nat, hi: nat, col: Column, v: Cell)
    modifies t
    ensures forall k :: 0 <= k < t.Length ==>
      t[k] == if lo <= k < hi then old(t[k])[col := v] else old(t[k])
  {
    var k := lo;
    while k < hi && k < t.Length
      invariant lo <= k <= if lo <= hi then hi else lo
      invariant forall j :: 0 <= j < t.Length ==>
        t[j] == if lo <= j < k then old(t[j])[col := v] else old(t[j])
    {
      t[k] := t[k][col := v];
      k := k + 1;
    }
  }

  /** The five range writes in the order the source makes them, ending with the `fillna`. */
  lemma WritesClassify(row: Row, i: nat, f: nat, s: nat, h: nat)
    ensures
      var w1 := if i < s + 1 then row[UnidadeTipo := Text(NoInfo)] else row;
      var w2 := if i < f + 1 then w1[EfetivoGenero := Text(Male)] else w1;
      var w3 := if f <= i < s then w2[EfetivoGenero := Text(Female)] else w2;
      var w4 := if s <= i < h then w3[UnidadeTipo := Text(Shelter)] else w3;
      var w5 := if h <= i then w4[UnidadeTipo := Text(Hospital)] else w4;
      var w6 := if Get(w5, EfetivoGenero) == Empty then w5[EfetivoGenero := Text(NoInfo)] else w5;
      w6 == ClassifyRow(row, i, f, s, h)
  {
  }

  /** The range writes of `_info_from_subtotals` on a copy of the sheet, given the marker positions. */
  method ClassifySheet(rows: seq<Row>, f: nat, s: nat, h: nat) returns (r: seq<Row>)
    ensures r == Classify(rows, f, s, h)
  {
    var t := new Row[|rows|](i requires 0 <= i < |rows| => rows[i]);
    ghost var w0 := t[..];
    WriteRange(t, 0, s + 1, UnidadeTipo, Text(NoInfo));
    ghost var w1 := t[..];
    WriteRange(t, 0, f + 1, EfetivoGenero, Text(Male));
    ghost var w2 := t[..];
    WriteRange(t, f, s, EfetivoGenero, Text(Female));
    ghost var w3 := t[..];
    WriteRange(t, s, h, UnidadeTipo, Text(Shelter));
    ghost var w4 := t[..];
    WriteRange(t, h, t.Length, UnidadeTipo, Text(Hospital));
    ghost var written := t[..];
    var k := 0;
    while k < t.Length
      invariant k <= t.Length
      invariant forall j :: 0 <= j < t.Length ==>
        t[j] == if j < k && Get(written[j], EfetivoGenero) == Empty
                then written[j][EfetivoGenero := Text(NoInfo)] else written[j]
    {
      if Get(t[k], EfetivoGenero) == Empty {
        t[k] := t[k][EfetivoGenero := Text(NoInfo)];
      }
      k := k + 1;
    }
    forall j | 0 <= j < |rows| ensures t[..][j] == ClassifyRow(rows[j], j, f, s, h) {
      assert w0[j] == rows[j];
      assert w1[j] == if j < s + 1 then w0[j][UnidadeTipo := Text(NoInfo)] else w0[j];
      assert w2[j] == if j < f + 1 then w1[j][EfetivoGenero := Text(Male)] else w1[j];
      assert w3[j] == if f <= j < s then w2[j][EfetivoGenero := Text(Female)] else w2[j];
      assert w4[j] == if s <= j < h then w3[j][UnidadeTipo := Text(Shelter)] else w3[j];
      assert written[j] == if h <= j then w4[j][UnidadeTipo := Text(Hospital)] else w4[j];
      WritesClassify(rows[j], j, f, s, h);
    }
    r := t[..];
  }

  /** `_info_from_subtotals`: locate the three markers (an `IndexError` when one is absent), then
      classify a copy of the sheet. */
  method InfoFromSubtotals(rows: seq<Row>) returns (r: Result<seq<Row>>)
    ensures r == Subtotals(rows)
  {
    var fem := FindMarker(rows, FemaleMarker);
    var shelter := FindMarker(rows, ShelterMarker);
    var hosp := FindMarker(rows, HospitalMarker);
    if fem.None? || shelter.None? || hosp.None? {
      return Failure(SectionMarkerNotFound);
    }
    var classified := ClassifySheet(rows, fem.value, shelter.value, hosp.value);
    r := Success(classified);
  }
}
