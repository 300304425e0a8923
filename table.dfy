/** Rows of the bulletin as pandas sees them: a row maps column names to cell values, and a table is
    a sequence of rows in index order. `dropna`, `drop_duplicates` and `pd.to_numeric` are here. */
module Table {
  import opened Wrappers
  import Strings
  import Dates

  /** A spreadsheet cell: NaN, a string, a number, or a calendar date stamped on by an export. */
  datatype Cell = Empty | Text(s: string) | Num(n: int) | DateVal(d: Dates.Date)

  /** The bulletin's column names (`colmapping` and the derived columns), and columns whose
      name the caller chooses (`date_col`, `hash_col`). */
  datatype Column =
    | UnidadeId | UnidadeNome | UnidadeLocalidade | EfetivoRegime
    | CapacidadeOriginal | CapacidadeInospito | CapacidadeAtual
    | EfetivoNominal | EfetivoBaixados | EfetivoAcautelado | EfetivoReal | Excesso | Vagas
    | UnidadeTipo | UnidadeSigla | EfetivoGenero
    | RegistroFonte | DocumentId
    | Named(name: string)

  type Row = map<Column, Cell>

  /** `no_info`, the value for facts the bulletin does not give. */
  const NoInfo := "Não Informado"

  /** `row[c]`, where a column the row lacks reads as NaN. */
  function Get(row: Row, c: Column): Cell {
    if c in row then row[c] else Empty
  }

  /** `df.loc[:, cols]` on one row. */
  function Project(row: Row, cols: set<Column>): (r: Row)
    ensures r.Keys == cols
  {
    map c | c in cols :: Get(row, c)
  }

  /** A row without NaN, the rows `dropna()` keeps. */
  predicate Complete(row: Row) {
    forall c :: c in row ==> row[c] != Empty
  }

  /** The rows of `s` that `keep` accepts, in their order. */
  function Filter<T(!new)>(s: seq<T>, keep: T -> bool): (r: seq<T>)
    ensures |r| <= |s|
    ensures forall x :: x in r <==> x in s && keep(x)
  {
    if s == [] then []
    else (if keep(s[0]) then [s[0]] else []) + Filter(s[1..], keep)
  }

  /** Filtering commutes with concatenation, so kept rows keep their relative order. */
  lemma {:induction false} FilterConcat<T(!new)>(a: seq<T>, b: seq<T>, keep: T -> bool)
    ensures Filter(a + b, keep) == Filter(a, keep) + Filter(b, keep)
  {
    if a != [] {
      assert (a + b)[1..] == a[1..] + b;
      FilterConcat(a[1..], b, keep);
    } else {
      assert a + b == b;
    }
  }

  /** `dropna()`. */
  function DropNa(t: seq<Row>): (r: seq<Row>)
    ensures forall x :: x in r <==> x in t && Complete(x)
  {
    Filter(t, Complete)
  }

  predicate Distinct<T(==)>(s: seq<T>) {
    forall i, j :: 0 <= i < j < |s| ==> s[i] != s[j]
  }

  /** The position of the first occurrence of `x` in `s`. */
  function FirstIndex<T(==)>(s: seq<T>, x: T): (k: nat)
    requires x in s
    ensures k < |s| && s[k] == x && x !in s[..k]
  {
    if s[0] == x then 0 else 1 + FirstIndex(s[1..], x)
  }

  lemma FirstIndexUnique<T>(s: seq<T>, x: T, k: nat)
    requires k < |s| && s[k] == x && x !in s[..k]
    ensures FirstIndex(s, x) == k
  {
    var f := FirstIndex(s, x);
    assert forall i :: 0 <= i < k ==> s[..k][i] == s[i];
    assert forall i :: 0 <= i < f ==> s[..f][i] == s[i];
  }

  /** `drop_duplicates()`: the first occurrence of every row, in order of first occurrence. */
  function DropDuplicates<T(==,!new)>(s: seq<T>): (r: seq<T>)
    ensures forall x :: x in r <==> x in s
    ensures Distinct(r)
  {
    if s == [] then []
    else
      var init, last := DropDuplicates(s[..|s| - 1]), s[|s| - 1];
      assert forall x :: x in s <==> x in s[..|s| - 1] || x == last;
      if last in init then init else init + [last]
  }

  lemma FirstIndexPrefix<T>(a: seq<T>, b: seq<T>, x: T)
    requires x in a
    ensures FirstIndex(a + b, x) == FirstIndex(a, x)
  {
    var k := FirstIndex(a, x);
    assert (a + b)[..k] == a[..k];
    FirstIndexUnique(a + b, x, k);
  }

  /** The rows `drop_duplicates` keeps appear in the order of their first occurrence. */
  lemma {:induction false} DropDuplicatesOrder<T(!new)>(s: seq<T>)
    ensures forall i, j :: 0 <= i < j < |DropDuplicates(s)| ==>
      FirstIndex(s, DropDuplicates(s)[i]) < FirstIndex(s, DropDuplicates(s)[j])
  {
    if s != [] {
      var pre, last := s[..|s| - 1], s[|s| - 1];
      assert s == pre + [last];
      var init := DropDuplicates(pre);
      DropDuplicatesOrder(pre);
      var r := DropDuplicates(s);
      forall x | x in init ensures FirstIndex(s, x) == FirstIndex(pre, x) {
        FirstIndexPrefix(pre, [last], x);
      }
      if last !in init {
        assert last !in pre;
        FirstIndexUnique(s, last, |s| - 1);
        assert r == init + [last];
      }
    }
  }

  /** `pd.to_numeric(c, errors='coerce')` on one cell; `None` stands for the NaN it coerces to. */
  function ToNumeric(c: Cell): Option<int> {
    match c
    case Num(n) => Some(n)
    case Text(s) => Strings.ParseInteger(s)
    case _ => None
  }

  lemma ToNumericShown(n: int)
    ensures ToNumeric(Text(Strings.ShowInt(n))) == Some(n) && ToNumeric(Num(n)) == Some(n)
  {
    Strings.ParseShowInt(n);
  }
}
