/** The path logic of `SEAPBulletin.to_file`: split the requested name into base and extension,
    put the bulletin date into the `[YYYY]`, `[MM]` and `[DD]` placeholders of the base, look the
    table up, stamp the date column, assemble `<base>_<table>.<ext>`, and accept only the `csv` and
    `json` formats. Opening and writing the file are left out; where the format check comes after
    the file was opened, the error carries the path opened. */
module OutputFile {
  import opened Wrappers
  import opened Strings
  import opened Dates
  import opened Table
  import opened Bulletin

  // ---------------------------------------------------------------- name and extension

  /** The letters `[a-z]` matches under `re.IGNORECASE`: the 52 ASCII letters and the four
      letters whose case folding meets them, 'İ', 'ı', 'ſ' and the Kelvin sign. */
  predicate IsLetter(c: char) {
    'a' <= c <= 'z' || 'A' <= c <= 'Z' || c == '\U{0130}' || c == '\U{0131}' || c == '\U{017F}' || c == '\U{212A}'
  }

  predicate AllLetters(s: string) {
    forall i :: 0 <= i < |s| ==> IsLetter(s[i])
  }

  /** `^(.*)\.([a-z]+)$` matches with the dot at `i`: `.` does not match a line break, so the base
      holds none, and the extension is one or more letters running up to where `$` matches. */
  predicate SplitsAt(name: string, i: nat) {
    i < |name| && name[i] == '.' && i + 1 < DollarEnd(name) && AllLetters(name[i + 1..DollarEnd(name)])
      && NoLineBreak(name[..i])
  }

  predicate NoLineBreak(s: string) {
    forall k :: 0 <= k < |s| ==> s[k] != '\n'
  }

  /** The position of the last dot of `s`. */
  function LastDot(s: string): (r: Option<nat>)
    ensures r.Some? ==> r.value < |s| && s[r.value] == '.' && forall k :: r.value < k < |s| ==> s[k] != '.'
    ensures r.None? ==> forall k :: 0 <= k < |s| ==> s[k] != '.'
  {
    if s == [] then None
    else if s[|s| - 1] == '.' then Some(|s| - 1)
    else LastDot(s[..|s| - 1])
  }

  /** The groups of `re.match(r'^(.*)\.([a-z]+)$', output_file, flags=re.IGNORECASE)`, or `None`
      when it does not match. */
  function SplitExtension(name: string): (r: Option<(string, string)>)
    ensures r.Some? <==> exists i: nat :: SplitsAt(name, i)
    ensures r.Some? ==> exists i: nat :: SplitsAt(name, i) && r.value == (name[..i], name[i + 1..DollarEnd(name)])
  {
    match LastDot(name)
    case None => None
    case Some(i) =>
      if SplitsAt(name, i) then Some((name[..i], name[i + 1..DollarEnd(name)]))
      else
        assert forall j: nat :: !SplitsAt(name, j);
        None
  }

  /** A base without line breaks and a letters-only extension are split back apart, however many
      dots the base holds. */
  lemma SplitExtensionJoin(base: string, ext: string)
    requires |ext| > 0 && AllLetters(ext)
    requires NoLineBreak(base)
    ensures SplitExtension(base + "." + ext) == Some((base, ext))
  {
    var name := base + "." + ext;
    var i := |base|;
    assert name[|name| - 1] == ext[|ext| - 1];
    assert DollarEnd(name) == |name|;
    assert name[i + 1..] == ext && name[..i] == base;
    assert SplitsAt(name, i);
    assert forall k :: i < k < |name| ==> name[k] == ext[k - i - 1];
    assert LastDot(name) == Some(i);
    assert name[i + 1..DollarEnd(name)] == ext;
  }

  /** A line break after the extension is matched by `$` and left out of both groups. */
  lemma SplitExtensionNewline(base: string, ext: string)
    requires |ext| > 0 && AllLetters(ext)
    requires NoLineBreak(base)
    ensures SplitExtension(base + "." + ext + "\n") == Some((base, ext))
  {
    var name := base + "." + ext + "\n";
    var i := |base|;
    assert DollarEnd(name) == |name| - 1;
    assert name[i + 1..DollarEnd(name)] == ext && name[..i] == base;
    assert SplitsAt(name, i);
    assert forall k :: i < k < |name| - 1 ==> name[k] == ext[k - i - 1];
  }

  /** The `try` block of `to_file` as written: a name that does not match leaves `re.match`
      returning `None`, and `.group` on it raises `AttributeError`, which `except ValueError`
      does not catch. */
  function SplitAsWritten(name: string): (r: Result<(string, string)>)
    ensures r.Success? <==> SplitExtension(name).Some?
    ensures r.Failure? ==> r.error == NoExtension
  {
    match SplitExtension(name)
    case Some(groups) => Success(groups)
    case None => Failure(NoExtension)
  }

  /** The `try` block as its `except` clause intends: a name without an extension is the base,
      written as CSV. */
  function SplitOrDefault(name: string): (r: (string, string))
    ensures SplitExtension(name).Some? ==> r == SplitExtension(name).value
    ensures SplitExtension(name).None? ==> r == (name, "csv")
  {
    match SplitExtension(name)
    case Some(groups) => groups
    case None => (name, "csv")
  }

  /** A name without a dot: the code as written raises, the intended fallback exports CSV. */
  lemma NoExtensionFallback(name: string)
    requires forall k :: 0 <= k < |name| ==> name[k] != '.'
    ensures SplitAsWritten(name) == Failure(NoExtension)
    ensures SplitOrDefault(name) == (name, "csv")
  {
    assert forall i: nat :: !SplitsAt(name, i);
  }

  // ---------------------------------------------------------------- placeholders

  /** The three `re.sub` calls: `[YYYY]` becomes `str(year)`, `[MM]` and `[DD]` the month and
      day padded to two digits. */
  function Placeholders(base: string, d: Date): string
    requires d.year >= 0 && d.month >= 0 && d.day >= 0
  {
    var withYear := ReplaceAll(base, "[YYYY]", ShowNat(d.year));
    var withMonth := ReplaceAll(withYear, "[MM]", ZFill(ShowNat(d.month), 2));
    ReplaceAll(withMonth, "[DD]", ZFill(ShowNat(d.day), 2))
  }

  predicate NoBracket(s: string) {
    forall k :: 0 <= k < |s| ==> s[k] != '['
  }

  /** Every '[' in `s` is followed, within `s`, by a character other than `ch`. */
  predicate Guarded(s: string, ch: char) {
    forall k :: 0 <= k < |s| && s[k] == '[' ==> k + 1 < |s| && s[k + 1] != ch
  }

  lemma GuardedConcat(x: string, y: string, ch: char)
    requires Guarded(x, ch) && Guarded(y, ch)
    ensures Guarded(x + y, ch)
  {
    var s := x + y;
    forall k | 0 <= k < |s| && s[k] == '[' ensures k + 1 < |s| && s[k + 1] != ch {
      if k < |x| {
        assert x[k] == '[';
      } else {
        assert y[k - |x|] == '[';
      }
    }
  }

  /** A pattern opening with '[' does not occur where every '[' is followed by a character other
      than the pattern's second. */
  lemma Absent(s: string, pat: string)
    requires |pat| >= 2 && pat[0] == '[' && Guarded(s, pat[1])
    ensures forall i: nat :: !OccursAt(s, pat, i)
  {
    forall i: nat ensures !OccursAt(s, pat, i) {
      if i + |pat| <= |s| {
        assert s[i..i + |pat|][0] == s[i];
        if s[i] == '[' {
          assert s[i..i + |pat|][1] == s[i + 1];
        }
      }
    }
  }

  lemma Digits(n: nat, w: nat)
    ensures NoBracket(ShowNat(n)) && NoBracket(ZFill(ShowNat(n), w))
  {
    var z := ZFill(ShowNat(n), w);
    assert forall k :: 0 <= k < |z| ==> IsDigit(z[k]);
  }

  /** A pattern-free prefix is copied and the first occurrence replaced; when the rest holds the
      pattern nowhere, it is copied as well. */
  lemma ReplaceOnce(a: string, pat: string, b: string, rep: string)
    requires |pat| >= 2 && pat[0] == '[' && NoBracket(a) && Guarded(b, pat[1])
    ensures ReplaceAll(a + pat + b, pat, rep) == a + rep + b
  {
    ReplaceAllFirst(a, pat, b, rep);
    Absent(b, pat);
    ReplaceAllAbsent(b, pat, rep);
  }

  /** `b[MM]c[DD]e` after the year: both placeholders still there, no "[Y" anywhere. */
  lemma FillYear(a: string, b: string, c: string, e: string, y: string)
    requires NoBracket(a) && NoBracket(b) && NoBracket(c) && NoBracket(e)
    ensures ReplaceAll(a + "[YYYY]" + b + "[MM]" + c + "[DD]" + e, "[YYYY]", y) == a + y + (b + "[MM]" + c + "[DD]" + e)
  {
    var rest := b + "[MM]" + c + "[DD]" + e;
    assert a + "[YYYY]" + b + "[MM]" + c + "[DD]" + e == a + "[YYYY]" + rest;
    GuardedConcat(b, "[MM]", 'Y');
    GuardedConcat(b + "[MM]", c, 'Y');
    GuardedConcat(b + "[MM]" + c, "[DD]", 'Y');
    GuardedConcat(b + "[MM]" + c + "[DD]", e, 'Y');
    ReplaceOnce(a, "[YYYY]", rest, y);
  }

  lemma FillMonth(p: string, c: string, e: string, m: string)
    requires NoBracket(p) && NoBracket(c) && NoBracket(e)
    ensures ReplaceAll(p + "[MM]" + c + "[DD]" + e, "[MM]", m) == p + m + (c + "[DD]" + e)
  {
    var rest := c + "[DD]" + e;
    assert p + "[MM]" + c + "[DD]" + e == p + "[MM]" + rest;
    GuardedConcat(c, "[DD]", 'M');
    GuardedConcat(c + "[DD]", e, 'M');
    ReplaceOnce(p, "[MM]", rest, m);
  }

  lemma FillDay(p: string, e: string, dd: string)
    requires NoBracket(p) && NoBracket(e)
    ensures ReplaceAll(p + "[DD]" + e, "[DD]", dd) == p + dd + e
  {
    ReplaceOnce(p, "[DD]", e, dd);
  }

  lemma NoBracketConcat(x: string, y: string)
    requires NoBracket(x) && NoBracket(y)
    ensures NoBracket(x + y)
  {
    assert forall k :: |x| <= k < |x + y| ==> (x + y)[k] == y[k - |x|];
  }

  /** Each placeholder, once in the base and in this order, gives way to its date field. */
  lemma PlaceholdersFilled(a: string, b: string, c: string, e: string, d: Date)
    requires NoBracket(a) && NoBracket(b) && NoBracket(c) && NoBracket(e)
    requires d.year >= 0 && d.month >= 0 && d.day >= 0
    ensures Placeholders(a + "[YYYY]" + b + "[MM]" + c + "[DD]" + e, d)
      == a + ShowNat(d.year) + b + ZFill(ShowNat(d.month), 2) + c + ZFill(ShowNat(d.day), 2) + e
  {
    var y, m, dd := ShowNat(d.year), ZFill(ShowNat(d.month), 2), ZFill(ShowNat(d.day), 2);
    Digits(d.year, 0);
    Digits(d.month, 2);
    Digits(d.day, 2);
    FillYear(a, b, c, e, y);
    var p2 := a + y + b;
    NoBracketConcat(a, y);
    NoBracketConcat(a + y, b);
    assert a + y + (b + "[MM]" + c + "[DD]" + e) == p2 + "[MM]" + c + "[DD]" + e;
    FillMonth(p2, c, e, m);
    var p3 := p2 + m + c;
    NoBracketConcat(p2, m);
    NoBracketConcat(p2 + m, c);
    assert p2 + m + (c + "[DD]" + e) == p3 + "[DD]" + e;
    FillDay(p3, e, dd);
  }

  /** A base without '[' is left alone. */
  lemma PlaceholdersAbsent(base: string, d: Date)
    requires NoBracket(base) && d.year >= 0 && d.month >= 0 && d.day >= 0
    ensures Placeholders(base, d) == base
  {
    Absent(base, "[YYYY]");
    ReplaceAllAbsent(base, "[YYYY]", ShowNat(d.year));
    Absent(base, "[MM]");
    ReplaceAllAbsent(base, "[MM]", ZFill(ShowNat(d.month), 2));
    Absent(base, "[DD]");
    ReplaceAllAbsent(base, "[DD]", ZFill(ShowNat(d.day), 2));
  }

  // ---------------------------------------------------------------- the export

  datatype Format = Csv | Json

  /** What `to_file` writes: the file path, the serialisation and the table. */
  datatype ExportFile = ExportFile(path: string, format: Format, table: seq<Row>)

  /** `table[date_col] = self.date.date()` as written: a plain `date` (from an ISO string) has no
      `.date()` method. */
  function DateStampAsWritten(m: Moment): (r: Result<Date>)
    ensures r.Success? <==> m.hasTime
    ensures r.Success? ==> r.value == m.date
  {
    if m.hasTime then Success(m.date) else Failure(DateHasNoTime)
  }

  /** The calendar date of `self.date` whatever its type, as the column is meant to hold. */
  function DateStamp(m: Moment): (r: Date)
    ensures ValidDate(r) && r == m.date
  {
    m.date
  }

  /** `table[date_col] = ...`: the column set on every row, replacing whatever it held when the
      table already has it, and every other column kept. */
  function WithDateColumn(table: seq<Row>, dateCol: Option<Column>, d: Date): (r: seq<Row>)
    ensures |r| == |table|
    ensures forall k :: 0 <= k < |table| ==>
      (dateCol.Some? ==> Get(r[k], dateCol.value) == DateVal(d) && r[k].Keys == table[k].Keys + {dateCol.value})
      && (dateCol.None? ==> r[k] == table[k])
    ensures forall k, c :: 0 <= k < |table| && Some(c) != dateCol ==> Get(r[k], c) == Get(table[k], c)
  {
    if dateCol.None? then table
    else seq(|table|, k requires 0 <= k < |table| => table[k][dateCol.value := DateVal(d)])
  }

  /** The format check after the file at `path` was opened: exactly "csv" or "json". */
  function FormatOf(ext: string, path: string): (r: Result<Format>)
    ensures r.Success? <==> ext == "csv" || ext == "json"
    ensures r.Failure? ==> r.error == UnsupportedFormat(path)
  {
    if ext == "csv" then Success(Csv)
    else if ext == "json" then Success(Json)
    else Failure(UnsupportedFormat(path))
  }

  /** `to_file(output_file, tablename, date_col)` with the intended extension fallback and
      date stamp. */
  function Export(b: Bulletin, outputFile: string, tablename: string, dateCol: Option<Column>): (r: Result<ExportFile>)
    ensures TableNamed(b, tablename).Failure? ==> r == Failure(TableNotFound)
    ensures r.Success? ==>
      && r.value.path == Placeholders(SplitOrDefault(outputFile).0, b.date.date) + "_" + tablename + "."
                         + SplitOrDefault(outputFile).1
      && (r.value.format == Csv <==> SplitOrDefault(outputFile).1 == "csv")
      && r.value.table == WithDateColumn(TableNamed(b, tablename).value, dateCol, DateStamp(b.date))
    ensures TableNamed(b, tablename).Success? ==>
      (r.Success? <==> SplitOrDefault(outputFile).1 == "csv" || SplitOrDefault(outputFile).1 == "json")
    ensures r.Failure? && TableNamed(b, tablename).Success? ==>
      r.error.UnsupportedFormat? && SplitOrDefault(outputFile).1 != "csv" && SplitOrDefault(outputFile).1 != "json"
  {
    var (base, ext) := SplitOrDefault(outputFile);
    var basepath := Placeholders(base, b.date.date);
    var table :- TableNamed(b, tablename);
    var stamped := WithDateColumn(table, dateCol, DateStamp(b.date));
    var path := basepath + "_" + tablename + "." + ext;
    var format :- FormatOf(ext, path);
    Success(ExportFile(path, format, stamped))
  }

  /** `to_file`, step by step as the source rewrites `output_basepath`. */
  method ToFile(b: Bulletin, outputFile: string, tablename: string, dateCol: Option<Column>)
    returns (r: Result<ExportFile>)
    ensures r == Export(b, outputFile, tablename, dateCol)
  {
    var basepath, ext;
    match SplitExtension(outputFile) {
      case Some(groups) => basepath, ext := groups.0, groups.1;
      case None => basepath, ext := outputFile, "csv";
    }
    basepath := ReplaceAll(basepath, "[YYYY]", ShowNat(b.date.date.year));
    basepath := ReplaceAll(basepath, "[MM]", ZFill(ShowNat(b.date.date.month), 2));
    basepath := ReplaceAll(basepath, "[DD]", ZFill(ShowNat(b.date.date.day), 2));
    var table :- TableNamed(b, tablename);
    if dateCol.Some? {
      table := WithDateColumn(table, dateCol, b.date.date);
    }
    var path := basepath + "_" + tablename + "." + ext;
    var format :- FormatOf(ext, path);
    r := Success(ExportFile(path, format, table));
  }

  /** `to_file` as written, with both defects: the missing extension and the `.date()` call. */
  function ExportAsWritten(b: Bulletin, outputFile: string, tablename: string, dateCol: Option<Column>): (r: Result<ExportFile>)
    ensures SplitExtension(outputFile).None? ==> r == Failure(NoExtension)
    ensures SplitExtension(outputFile).Some? && (dateCol.None? || b.date.hasTime) ==>
      r == Export(b, outputFile, tablename, dateCol)
  {
    var (base, ext) :- SplitAsWritten(outputFile);
    var basepath := Placeholders(base, b.date.date);
    var table :- TableNamed(b, tablename);
    var stamped :- if dateCol.Some? then
      (match DateStampAsWritten(b.date)
       case Success(d) => Success(WithDateColumn(table, dateCol, d))
       case Failure(e) => Failure(e))
      else Success(table);
    var path := basepath + "_" + tablename + "." + ext;
    var format :- FormatOf(ext, path);
    Success(ExportFile(path, format, stamped))
  }

  /** A bulletin dated by an ISO string cannot be exported with a date column as written; the
      intended export stamps the date. */
  lemma IsoDateExport(b: Bulletin, outputFile: string, dateCol: Column)
    requires !b.date.hasTime && SplitExtension(outputFile).Some?
    ensures ExportAsWritten(b, outputFile, "facilities", Some(dateCol)) == Failure(DateHasNoTime)
    ensures Export(b, outputFile, "facilities", Some(dateCol)).Success? <==>
      SplitExtension(outputFile).value.1 in {"csv", "json"}
  {
  }

  /** A name of the form "<a>[YYYY]<b>[MM]<c>[DD]<e>.<ext>" naming a table, with a supported
      extension, is exported to "<a><year><b><month><c><day><e>_<table>.<ext>", month and day on
      two digits. */
  lemma ExportDatedName(bl: Bulletin, a: string, b: string, c: string, e: string, ext: string,
                        tablename: string, dateCol: Option<Column>)
    requires NoBracket(a) && NoBracket(b) && NoBracket(c) && NoBracket(e)
    requires NoLineBreak(a) && NoLineBreak(b) && NoLineBreak(c) && NoLineBreak(e)
    requires ext == "csv" || ext == "json"
    requires TableNamed(bl, tablename).Success?
    ensures
      var d := bl.date.date;
      var r := Export(bl, a + "[YYYY]" + b + "[MM]" + c + "[DD]" + e + "." + ext, tablename, dateCol);
      && r.Success?
      && r.value.path == a + ShowNat(d.year) + b + ZFill(ShowNat(d.month), 2) + c + ZFill(ShowNat(d.day), 2) + e
                         + "_" + tablename + "." + ext
      && (r.value.format == Json <==> ext == "json")
  {
    var base := a + "[YYYY]" + b + "[MM]" + c + "[DD]" + e;
    assert NoLineBreak(base) by {
      assert base == a + ("[YYYY]" + b + "[MM]" + c + "[DD]" + e);
    }
    SplitExtensionJoin(base, ext);
    PlaceholdersFilled(a, b, c, e, bl.date.date);
  }

  /** Any other extension, "CSV" included since the comparison is case-sensitive, matches the
      pattern but is refused after the file was opened, naming the path opened. */
  lemma UnsupportedExtension(bl: Bulletin, base: string, ext: string, tablename: string, dateCol: Option<Column>)
    requires NoBracket(base) && NoLineBreak(base)
    requires |ext| > 0 && AllLetters(ext) && ext != "csv" && ext != "json"
    requires TableNamed(bl, tablename).Success?
    ensures Export(bl, base + "." + ext, tablename, dateCol)
      == Failure(UnsupportedFormat(base + "_" + tablename + "." + ext))
  {
    SplitExtensionJoin(base, ext);
    PlaceholdersAbsent(base, bl.date.date);
  }
}
