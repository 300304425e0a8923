/** `SEAPBulletin._info_from_name` and the two regular expressions `_parse_count` runs through it:
    the gender suffix `(?P<unidadeNome>.*)[-– ]FEM[INO]*$` (and its `MASC[ULINO]*` twin), searched
    ignoring case, and the abbreviation split
    `^(?P<unidadeNome>[^-–]*)[-–] *(?P<unidadeSigla>[A-Z]*)[-– ]*$`. Each expression is a
    matcher written out by hand for that one shape, returning the named groups a match captures. */
module NamePatterns {
  import opened Wrappers
  import opened Strings
  import opened Table

  /** `[-– ]`: a hyphen, an en dash or a space. */
  predicate IsSeparator(c: char) {
    c == '-' || c == EnDash || c == ' '
  }

  /** `[-–]`: a hyphen or an en dash. */
  predicate IsDash(c: char) {
    c == '-' || c == EnDash
  }

  predicate IsAsciiLetter(c: char) {
    'A' <= c <= 'Z' || 'a' <= c <= 'z'
  }

  /** ASCII lower-casing, the part of `re.IGNORECASE` the patterns' letters need. */
  function Lower(c: char): char {
    if 'A' <= c <= 'Z' then (c as int + 32) as char else c
  }

  /** `c` matches the pattern letter `p`. */
  predicate SameLetter(c: char, p: char, ignoreCase: bool) {
    if ignoreCase then Lower(c) == Lower(p) else c == p
  }

  /** `c` matches the character class whose members are listed in `cls`. */
  predicate InClass(c: char, cls: string, ignoreCase: bool) {
    exists j :: 0 <= j < |cls| && SameLetter(c, cls[j], ignoreCase)
  }

  /** `STEM[TAIL]*` matches the whole of `t`. */
  predicate WordMatches(t: string, stem: string, tail: string, ignoreCase: bool) {
    |stem| <= |t|
    && (forall i :: 0 <= i < |stem| ==> SameLetter(t[i], stem[i], ignoreCase))
    && (forall i :: |stem| <= i < |t| ==> InClass(t[i], tail, ignoreCase))
  }

  /** `[-– ]STEM[TAIL]*$` matches from position `k` to the end of `s`, or to a line break that
      ends it. */
  predicate SuffixAt(s: string, k: nat, stem: string, tail: string, ignoreCase: bool) {
    k < DollarEnd(s) && IsSeparator(s[k]) && WordMatches(s[k + 1..DollarEnd(s)], stem, tail, ignoreCase)
  }

  /** The last position below `n` where the suffix matches. */
  function LastSuffix(s: string, stem: string, tail: string, ignoreCase: bool, n: nat): (r: Option<nat>)
    requires n <= |s|
    ensures r.Some? ==> r.value < n && SuffixAt(s, r.value, stem, tail, ignoreCase)
    ensures r.Some? ==> forall j: nat :: r.value < j < n ==> !SuffixAt(s, j, stem, tail, ignoreCase)
    ensures r.None? ==> forall j: nat :: j < n ==> !SuffixAt(s, j, stem, tail, ignoreCase)
  {
    if n == 0 then None
    else if SuffixAt(s, n - 1, stem, tail, ignoreCase) then Some(n - 1)
    else LastSuffix(s, stem, tail, ignoreCase, n - 1)
  }

  /** The position just after the last line break of `s`, where `.*` may start. */
  function LineStart(s: string): (p: nat)
    ensures p <= |s|
    ensures forall i :: p <= i < |s| ==> s[i] != '\n'
    ensures p == 0 || s[p - 1] == '\n'
  {
    if s == [] then 0
    else if s[|s| - 1] == '\n' then |s|
    else LineStart(s[..|s| - 1])
  }

  /** `re.search('(?P<unidadeNome>.*)[-– ]STEM[TAIL]*$', s)`: the group, if the search matches.
      The match starts as far left as `.` (which stops at line breaks) allows, and the greedy `.*`
      ends at the last separator from which the suffix runs to where `$` matches. */
  function MatchSuffix(s: string, stem: string, tail: string, ignoreCase: bool): (r: Option<string>)
    ensures r.None? <==> forall k: nat :: !SuffixAt(s, k, stem, tail, ignoreCase)
    ensures r.Some? ==> exists k: nat :: (SuffixAt(s, k, stem, tail, ignoreCase)
      && (forall j: nat :: k < j ==> !SuffixAt(s, j, stem, tail, ignoreCase))
      && |r.value| <= k && r.value == s[k - |r.value|..k])
    ensures r.Some? ==> forall i :: 0 <= i < |r.value| ==> r.value[i] != '\n'
  {
    match LastSuffix(s, stem, tail, ignoreCase, |s|)
    case None => None
    case Some(k) =>
      var p := LineStart(s[..k]);
      assert forall i :: p <= i < k ==> s[..k][i] == s[i];
      assert SuffixAt(s, k, stem, tail, ignoreCase);
      assert s[p..k] == s[k - (k - p)..k];
      Some(s[p..k])
  }

  /** The position of the first dash in `s`. */
  function FirstDash(s: string): (r: Option<nat>)
    ensures r.Some? ==> r.value < |s| && IsDash(s[r.value])
    ensures r.Some? ==> forall i :: 0 <= i < r.value ==> !IsDash(s[i])
    ensures r.None? ==> forall i :: 0 <= i < |s| ==> !IsDash(s[i])
  {
    if s == [] then None
    else if IsDash(s[0]) then Some(0)
    else match FirstDash(s[1..])
      case None => None
      case Some(d) => Some(d + 1)
  }

  /** The end of the run of spaces that starts at `i` (` *`). */
  function SkipSpaces(s: string, i: nat): (e: nat)
    requires i <= |s|
    ensures i <= e <= |s| && (e == |s| || s[e] != ' ')
    ensures forall j :: i <= j < e ==> s[j] == ' '
    decreases |s| - i
  {
    if i < |s| && s[i] == ' ' then SkipSpaces(s, i + 1) else i
  }

  /** `[A-Z]`, which `re.IGNORECASE` widens to the lower-case letters. */
  predicate IsCapital(c: char, ignoreCase: bool) {
    'A' <= c <= 'Z' || (ignoreCase && 'a' <= c <= 'z')
  }

  /** The end of the run of capitals that starts at `i` (`[A-Z]*`). */
  function SkipCapitals(s: string, i: nat, ignoreCase: bool): (e: nat)
    requires i <= |s|
    ensures i <= e <= |s| && (e == |s| || !IsCapital(s[e], ignoreCase))
    ensures forall j :: i <= j < e ==> IsCapital(s[j], ignoreCase)
    decreases |s| - i
  {
    if i < |s| && IsCapital(s[i], ignoreCase) then SkipCapitals(s, i + 1, ignoreCase) else i
  }

  /** `re.search('^(?P<unidadeNome>[^-–]*)[-–] *(?P<unidadeSigla>[A-Z]*)[-– ]*$', s)`: the name
      before the first dash and the run of capitals after it, when only separators follow, up to
      the end or to a line break that ends the text. */
  function MatchAbbreviation(s: string, ignoreCase: bool): (r: Option<(string, string)>)
    ensures r.Some? ==> exists d :: 0 <= d < |s| && IsDash(s[d]) && r.value.0 == s[..d]
    ensures r.Some? ==> forall i :: 0 <= i < |r.value.0| ==> !IsDash(r.value.0[i])
    ensures r.Some? ==> forall i :: 0 <= i < |r.value.1| ==> IsCapital(r.value.1[i], ignoreCase)
    ensures FirstDash(s).None? ==> r.None?
  {
    match FirstDash(s)
    case None => None
    case Some(d) =>
      var e := SkipSpaces(s, d + 1);
      var g := SkipCapitals(s, e, ignoreCase);
      if forall j :: g <= j < DollarEnd(s) ==> IsSeparator(s[j]) then
        assert forall i :: 0 <= i < d ==> s[..d][i] == s[i];
        assert forall i :: 0 <= i < g - e ==> s[e..g][i] == s[e + i];
        Some((s[..d], s[e..g]))
      else None
  }

  /** One entry of `name_patterns`: the expression and the category it stands for. */
  datatype NamePattern = Suffix(stem: string, tail: string) | Abbreviation
  datatype NameRule = NameRule(category: string, pattern: NamePattern)

  /** `match.groupdict()`, each captured group as the cell of the column it is named after. */
  function Groups(p: NamePattern, name: string, ignoreCase: bool): (r: Option<Row>)
    ensures r.Some? && p.Suffix? ==> r.value.Keys == {UnidadeNome}
    ensures r.Some? && p.Abbreviation? ==> r.value.Keys == {UnidadeNome, UnidadeSigla}
  {
    match p
    case Suffix(stem, tail) =>
      (match MatchSuffix(name, stem, tail, ignoreCase)
       case None => None
       case Some(g) => Some(map[UnidadeNome := Text(g)]))
    case Abbreviation =>
      (match MatchAbbreviation(name, ignoreCase)
       case None => None
       case Some(ns) => Some(map[UnidadeNome := Text(ns.0), UnidadeSigla := Text(ns.1)]))
  }

  /** A matched row: the category column (when there is one) set to the category, then every
      captured group copied into its column. */
  function Matched(row: Row, categoryCol: Option<Column>, category: string, groups: Row): Row {
    (if categoryCol.Some? then row[categoryCol.value := Text(category)] else row) + groups
  }

  /** What `_info_from_name` returns: the row as the first matching pattern rewrites it, or the row
      unchanged when no pattern matches. */
  function ApplyRules(row: Row, rules: seq<NameRule>, categoryCol: Option<Column>, ignoreCase: bool): (r: Row)
    requires Get(row, UnidadeNome).Text?
    ensures Get(r, UnidadeNome).Text?
    ensures (forall j :: 0 <= j < |rules| ==> Groups(rules[j].pattern, row[UnidadeNome].s, ignoreCase).None?)
      ==> r == row
    ensures forall k :: (0 <= k < |rules|
        && (forall j :: 0 <= j < k ==> Groups(rules[j].pattern, row[UnidadeNome].s, ignoreCase).None?)
        && Groups(rules[k].pattern, row[UnidadeNome].s, ignoreCase).Some?
      ==> r == Matched(row, categoryCol, rules[k].category, Groups(rules[k].pattern, row[UnidadeNome].s, ignoreCase).value))
  {
    if rules == [] then row
    else match Groups(rules[0].pattern, row[UnidadeNome].s, ignoreCase)
      case Some(g) => Matched(row, categoryCol, rules[0].category, g)
      case None =>
        var r := ApplyRules(row, rules[1..], categoryCol, ignoreCase);
        assert forall k :: 1 <= k < |rules| ==> rules[k] == rules[1..][k - 1];
        r
  }

  /** `_info_from_name`: try the patterns in order on the facility name; the first that matches
      sets the category and the captured groups, and the search stops there. */
  method InfoFromName(row: Row, rules: seq<NameRule>, categoryCol: Option<Column>, ignoreCase: bool)
    returns (r: Row)
    requires Get(row, UnidadeNome).Text?
    ensures r == ApplyRules(row, rules, categoryCol, ignoreCase)
  {
    var name := row[UnidadeNome].s;
    r := row;
    var i := 0;
    while i < |rules|
      invariant i <= |rules| && r == row
      invariant forall j :: 0 <= j < i ==> Groups(rules[j].pattern, name, ignoreCase).None?
    {
      var m := Groups(rules[i].pattern, name, ignoreCase);
      if m.Some? {
        if categoryCol.Some? {
          r := r[categoryCol.value := Text(rules[i].category)];
        }
        r := r + m.value;
        return;
      }
      i := i + 1;
    }
  }

  /** The gender pass of `_parse_count`, searched ignoring case. */
  const GenderRules: seq<NameRule> := [
    NameRule("Feminino", Suffix("FEM", "INO")),
    NameRule("Masculino", Suffix("MASC", "ULINO"))
  ]

  /** The abbreviation pass of `_parse_count`, case-sensitive and without a category column. */
  const AbbreviationRules: seq<NameRule> := [NameRule("_", Abbreviation)]

  function GenderPass(row: Row): (r: Row)
    requires Get(row, UnidadeNome).Text?
    ensures Get(r, UnidadeNome).Text?
  {
    ApplyRules(row, GenderRules, Some(EfetivoGenero), true)
  }

  function AbbreviationPass(row: Row): (r: Row)
    requires Get(row, UnidadeNome).Text?
    ensures Get(r, UnidadeNome).Text?
  {
    ApplyRules(row, AbbreviationRules, None, false)
  }

  /** A name made of a single-line text, a separator and a final word without separators or line
      breaks that matches `STEM[TAIL]*` captures that text. */
  lemma SuffixMatches(prefix: string, sep: char, word: string, stem: string, tail: string, ignoreCase: bool)
    requires forall i :: 0 <= i < |prefix| ==> prefix[i] != '\n'
    requires IsSeparator(sep) && WordMatches(word, stem, tail, ignoreCase)
    requires forall i :: 0 <= i < |word| ==> !IsSeparator(word[i]) && word[i] != '\n'
    ensures MatchSuffix(prefix + [sep] + word, stem, tail, ignoreCase) == Some(prefix)
  {
    var s := prefix + [sep] + word;
    var k := |prefix|;
    assert s[|s| - 1] != '\n' && DollarEnd(s) == |s|;
    assert s[k + 1..DollarEnd(s)] == word;
    forall j: nat | k < j ensures !SuffixAt(s, j, stem, tail, ignoreCase) {
      if j < |s| {
        assert s[j] == word[j - k - 1];
      }
    }
    LastSuffixAt(s, k, stem, tail, ignoreCase);
    assert s[..k] == prefix;
    LineStartNoBreak(prefix);
  }

  /** The suffix found is the one that matches last. */
  lemma LastSuffixAt(s: string, k: nat, stem: string, tail: string, ignoreCase: bool)
    requires SuffixAt(s, k, stem, tail, ignoreCase)
    requires forall j: nat :: k < j ==> !SuffixAt(s, j, stem, tail, ignoreCase)
    ensures LastSuffix(s, stem, tail, ignoreCase, |s|) == Some(k)
  {
  }

  lemma {:induction false} LineStartNoBreak(s: string)
    requires forall i :: 0 <= i < |s| ==> s[i] != '\n'
    ensures LineStart(s) == 0
  {
    if s != [] {
      LineStartNoBreak(s[..|s| - 1]);
    }
  }

  /** A name whose final word, after the last separator and free of line breaks, does not match
      `STEM[TAIL]*` does not match the suffix pattern at all, when the pattern's letters are
      letters. */
  lemma SuffixFails(prefix: string, sep: char, word: string, stem: string, tail: string, ignoreCase: bool)
    requires IsSeparator(sep) && !WordMatches(word, stem, tail, ignoreCase)
    requires forall i :: 0 <= i < |word| ==> !IsSeparator(word[i]) && word[i] != '\n'
    requires forall i :: 0 <= i < |stem| ==> IsAsciiLetter(stem[i])
    requires forall i :: 0 <= i < |tail| ==> IsAsciiLetter(tail[i])
    ensures MatchSuffix(prefix + [sep] + word, stem, tail, ignoreCase) == None
  {
    var s := prefix + [sep] + word;
    var k := |prefix|;
    assert s[|s| - 1] != '\n' && DollarEnd(s) == |s|;
    forall j: nat ensures !SuffixAt(s, j, stem, tail, ignoreCase) {
      if j == k {
        assert s[k + 1..DollarEnd(s)] == word;
      } else if j < k {
        assert s[j + 1..DollarEnd(s)][k - j - 1] == sep;
        SeparatorBreaksWord(s[j + 1..DollarEnd(s)], k - j - 1, stem, tail, ignoreCase);
      } else if j < |s| {
        assert s[j] == word[j - k - 1];
      }
    }
  }

  /** A word holding a separator does not match `STEM[TAIL]*` when the pattern's letters are
      letters. */
  lemma SeparatorBreaksWord(t: string, at: nat, stem: string, tail: string, ignoreCase: bool)
    requires at < |t| && IsSeparator(t[at])
    requires forall i :: 0 <= i < |stem| ==> IsAsciiLetter(stem[i])
    requires forall i :: 0 <= i < |tail| ==> IsAsciiLetter(tail[i])
    ensures !WordMatches(t, stem, tail, ignoreCase)
  {
    if |stem| <= |t| {
      if at < |stem| {
        assert !SameLetter(t[at], stem[at], ignoreCase);
      } else {
        assert !InClass(t[at], tail, ignoreCase);
      }
    }
  }

  /** `s` reads as a dash-free name up to `d`, the dash at `d`, spaces up to `e`, capitals up to
      `g` and separators up to where `$` matches: the shapes the abbreviation expression
      accepts. */
  predicate AbbreviationShape(s: string, d: nat, e: nat, g: nat, ignoreCase: bool) {
    d < e <= g <= DollarEnd(s)
    && IsDash(s[d]) && (forall i :: 0 <= i < d ==> !IsDash(s[i]))
    && (forall i :: d < i < e ==> s[i] == ' ')
    && (forall i :: e <= i < g ==> IsCapital(s[i], ignoreCase))
    && (forall i :: g <= i < DollarEnd(s) ==> IsSeparator(s[i]))
  }

  /** Every text of that shape matches, and when its run of spaces is the longest one the match
      captures its name and its capitals. */
  lemma AbbreviationShapeMatches(s: string, d: nat, e: nat, g: nat, ignoreCase: bool)
    requires AbbreviationShape(s, d, e, g, ignoreCase)
    ensures MatchAbbreviation(s, ignoreCase).Some?
    ensures e == |s| || s[e] != ' ' ==> MatchAbbreviation(s, ignoreCase) == Some((s[..d], s[e..g]))
  {
    assert FirstDash(s) == Some(d);
    var e' := SkipSpaces(s, d + 1);
    assert e <= e';
    var g' := SkipCapitals(s, e', ignoreCase);
    if e' == e {
      assert g <= g';
    } else {
      assert s[e] == ' ' && g == e;
      assert g' == e';
    }
    assert forall j :: g' <= j < DollarEnd(s) ==> IsSeparator(s[j]);
  }

  /** A match is a text of that shape, with the longest run of spaces, whose name and capitals
      it captures. */
  lemma AbbreviationMatchShape(s: string, ignoreCase: bool)
    ensures MatchAbbreviation(s, ignoreCase).Some? ==> exists d: nat, e: nat, g: nat ::
      AbbreviationShape(s, d, e, g, ignoreCase) && (e == |s| || s[e] != ' ')
      && MatchAbbreviation(s, ignoreCase) == Some((s[..d], s[e..g]))
  {
    if MatchAbbreviation(s, ignoreCase).Some? {
      var d := FirstDash(s).value;
      var e := SkipSpaces(s, d + 1);
      var g := SkipCapitals(s, e, ignoreCase);
      assert AbbreviationShape(s, d, e, g, ignoreCase);
    }
  }

  /** A name `NAME-  SIGLA--` whose name part holds no dash splits into that name and sigla. */
  lemma AbbreviationMatches(name: string, dash: char, spaces: string, sigla: string, trailing: string)
    requires forall i :: 0 <= i < |name| ==> !IsDash(name[i])
    requires IsDash(dash)
    requires forall i :: 0 <= i < |spaces| ==> spaces[i] == ' '
    requires forall i :: 0 <= i < |sigla| ==> IsCapital(sigla[i], false)
    requires forall i :: 0 <= i < |trailing| ==> IsSeparator(trailing[i])
    requires sigla != [] || trailing == []
    ensures MatchAbbreviation(name + [dash] + spaces + sigla + trailing, false) == Some((name, sigla))
  {
    var s := name + [dash] + spaces + sigla + trailing;
    var d, e := |name|, |name| + 1 + |spaces|;
    AbbreviationLayout(name, dash, spaces, sigla, trailing);
    AbbreviationShapeMatches(s, d, e, e + |sigla|, false);
  }

  /** Where the parts of `NAME-  SIGLA--` sit in the text. */
  lemma AbbreviationLayout(name: string, dash: char, spaces: string, sigla: string, trailing: string)
    requires forall i :: 0 <= i < |name| ==> !IsDash(name[i])
    requires IsDash(dash)
    requires forall i :: 0 <= i < |spaces| ==> spaces[i] == ' '
    requires forall i :: 0 <= i < |sigla| ==> IsCapital(sigla[i], false)
    requires forall i :: 0 <= i < |trailing| ==> IsSeparator(trailing[i])
    requires sigla != [] || trailing == []
    ensures var s := name + [dash] + spaces + sigla + trailing;
      var d, e := |name|, |name| + 1 + |spaces|;
      && AbbreviationShape(s, d, e, e + |sigla|, false) && (e == |s| || s[e] != ' ')
      && s[..d] == name && s[e..e + |sigla|] == sigla
  {
    var s := name + [dash] + spaces + sigla + trailing;
    var d := |name|;
    var e := d + 1 + |spaces|;
    var g := e + |sigla|;
    assert s[d] == dash;
    assert forall i :: 0 <= i < d ==> s[i] == name[i];
    assert forall i :: d + 1 <= i < e ==> s[i] == spaces[i - d - 1];
    assert forall i :: e <= i < g ==> s[i] == sigla[i - e];
    assert forall i :: g <= i < |s| ==> s[i] == trailing[i - g];
    assert s[|s| - 1] != '\n' && DollarEnd(s) == |s|;
    assert s[..d] == name && s[e..g] == sigla;
  }

  /** A one-line name ending in " FEM" is a female facility whose name is the text before it. */
  lemma GenderPassFemale(row: Row, prefix: string)
    requires forall i :: 0 <= i < |prefix| ==> prefix[i] != '\n'
    requires Get(row, UnidadeNome) == Text(prefix + " FEM")
    ensures GenderPass(row) == row[EfetivoGenero := Text("Feminino")] + map[UnidadeNome := Text(prefix)]
  {
    assert prefix + " FEM" == prefix + [' '] + "FEM";
    SuffixMatches(prefix, ' ', "FEM", "FEM", "INO", true);
  }

  lemma GenderPassFemaleCells(row: Row, prefix: string)
    requires forall i :: 0 <= i < |prefix| ==> prefix[i] != '\n'
    requires Get(row, UnidadeNome) == Text(prefix + " FEM")
    ensures Get(GenderPass(row), EfetivoGenero) == Text("Feminino")
    ensures Get(GenderPass(row), UnidadeNome) == Text(prefix)
  {
    GenderPassFemale(row, prefix);
  }

  /** A name whose word after its last separator, free of line breaks, is neither `FEM[INO]*` nor
      `MASC[ULINO]*`, in any case, matches no gender suffix and is left as it is. */
  lemma GenderPassNone(row: Row, prefix: string, sep: char, word: string)
    requires Get(row, UnidadeNome) == Text(prefix + [sep] + word)
    requires IsSeparator(sep) && forall i :: 0 <= i < |word| ==> !IsSeparator(word[i]) && word[i] != '\n'
    requires !WordMatches(word, "FEM", "INO", true) && !WordMatches(word, "MASC", "ULINO", true)
    ensures GenderPass(row) == row
  {
    SuffixFails(prefix, sep, word, "FEM", "INO", true);
    SuffixFails(prefix, sep, word, "MASC", "ULINO", true);
  }

  /** `NAME - SIGLA` with a dash-free name and a sigla of capitals splits into both. */
  lemma AbbreviationPassSplit(row: Row, name: string, spaces: string, sigla: string)
    requires forall i :: 0 <= i < |name| ==> !IsDash(name[i])
    requires forall i :: 0 <= i < |spaces| ==> spaces[i] == ' '
    requires forall i :: 0 <= i < |sigla| ==> IsCapital(sigla[i], false)
    requires Get(row, UnidadeNome) == Text(name + "-" + spaces + sigla)
    ensures AbbreviationPass(row) == row + map[UnidadeNome := Text(name), UnidadeSigla := Text(sigla)]
  {
    assert name + "-" + spaces + sigla == name + ['-'] + spaces + sigla + "";
    AbbreviationMatches(name, '-', spaces, sigla, "");
  }

  lemma AbbreviationPassSplitCells(row: Row, name: string, spaces: string, sigla: string)
    requires forall i :: 0 <= i < |name| ==> !IsDash(name[i])
    requires forall i :: 0 <= i < |spaces| ==> spaces[i] == ' '
    requires forall i :: 0 <= i < |sigla| ==> IsCapital(sigla[i], false)
    requires Get(row, UnidadeNome) == Text(name + "-" + spaces + sigla)
    ensures Get(AbbreviationPass(row), UnidadeNome) == Text(name)
    ensures Get(AbbreviationPass(row), UnidadeSigla) == Text(sigla)
    ensures Get(AbbreviationPass(row), EfetivoGenero) == Get(row, EfetivoGenero)
  {
    AbbreviationPassSplit(row, name, spaces, sigla);
  }

  lemma TalaveraBruceGender(row: Row)
    requires Get(row, UnidadeNome) == Text("Presídio Talavera Bruce - FEM")
    ensures Get(GenderPass(row), EfetivoGenero) == Text("Feminino")
    ensures Get(GenderPass(row), UnidadeNome) == Text("Presídio Talavera Bruce -")
  {
    assert "Presídio Talavera Bruce - FEM" == "Presídio Talavera Bruce -" + " FEM";
    GenderPassFemaleCells(row, "Presídio Talavera Bruce -");
  }

  lemma TalaveraBruceAbbreviation(row: Row)
    requires Get(row, UnidadeNome) == Text("Presídio Talavera Bruce -")
    ensures Get(AbbreviationPass(row), UnidadeNome) == Text("Presídio Talavera Bruce ")
    ensures Get(AbbreviationPass(row), UnidadeSigla) == Text("")
    ensures Get(AbbreviationPass(row), EfetivoGenero) == Get(row, EfetivoGenero)
  {
    assert "Presídio Talavera Bruce -" == "Presídio Talavera Bruce " + "-" + "" + "";
    AbbreviationPassSplitCells(row, "Presídio Talavera Bruce ", "", "");
  }

  /** The names the two examples keep, less the space before their dash, trim to the facility
      names. */
  lemma ExampleNamesStrip()
    ensures Strip("Presídio Talavera Bruce ") == "Presídio Talavera Bruce"
    ensures Strip("Instituto Penal Vicente Piragibe ") == "Instituto Penal Vicente Piragibe"
  {
    assert "Presídio Talavera Bruce " == "Presídio Talavera Bruce" + " ";
    StripTrailing("Presídio Talavera Bruce", " ");
    assert "Instituto Penal Vicente Piragibe " == "Instituto Penal Vicente Piragibe" + " ";
    StripTrailing("Instituto Penal Vicente Piragibe", " ");
  }

  /** "Presídio Talavera Bruce - FEM": the gender pass sets gender Feminino and keeps
      "Presídio Talavera Bruce -", from which the abbreviation pass strips the dash, leaving an
      empty sigla and a name that trims to "Presídio Talavera Bruce". */
  lemma TalaveraBruce(row: Row)
    requires Get(row, UnidadeNome) == Text("Presídio Talavera Bruce - FEM")
    ensures var r := AbbreviationPass(GenderPass(row));
      && Get(r, EfetivoGenero) == Text("Feminino")
      && Get(r, UnidadeSigla) == Text("")
      && Get(r, UnidadeNome).Text? && Strip(Get(r, UnidadeNome).s) == "Presídio Talavera Bruce"
  {
    TalaveraBruceGender(row);
    TalaveraBruceAbbreviation(GenderPass(row));
    ExampleNamesStrip();
  }

  lemma VicentePiragibeGender(row: Row)
    requires Get(row, UnidadeNome) == Text("Instituto Penal Vicente Piragibe - IPVP")
    ensures GenderPass(row) == row
  {
    assert "Instituto Penal Vicente Piragibe - IPVP" == "Instituto Penal Vicente Piragibe -" + [' '] + "IPVP";
    assert !SameLetter("IPVP"[0], "FEM"[0], true) && !SameLetter("IPVP"[0], "MASC"[0], true);
    GenderPassNone(row, "Instituto Penal Vicente Piragibe -", ' ', "IPVP");
  }

  lemma VicentePiragibeAbbreviation(row: Row)
    requires Get(row, UnidadeNome) == Text("Instituto Penal Vicente Piragibe - IPVP")
    ensures Get(AbbreviationPass(row), UnidadeNome) == Text("Instituto Penal Vicente Piragibe ")
    ensures Get(AbbreviationPass(row), UnidadeSigla) == Text("IPVP")
    ensures Get(AbbreviationPass(row), EfetivoGenero) == Get(row, EfetivoGenero)
  {
    assert "Instituto Penal Vicente Piragibe - IPVP" == "Instituto Penal Vicente Piragibe " + "-" + " " + "IPVP";
    AbbreviationPassSplitCells(row, "Instituto Penal Vicente Piragibe ", " ", "IPVP");
  }

  /** "Instituto Penal Vicente Piragibe - IPVP": no gender suffix matches, and the abbreviation
      pass splits it into the sigla "IPVP" and a name that trims to
      "Instituto Penal Vicente Piragibe". */
  lemma VicentePiragibe(row: Row)
    requires Get(row, UnidadeNome) == Text("Instituto Penal Vicente Piragibe - IPVP")
    ensures var r := AbbreviationPass(GenderPass(row));
      && Get(r, EfetivoGenero) == Get(row, EfetivoGenero)
      && Get(r, UnidadeSigla) == Text("IPVP")
      && Get(r, UnidadeNome).Text? && Strip(Get(r, UnidadeNome).s) == "Instituto Penal Vicente Piragibe"
  {
    VicentePiragibeGender(row);
    VicentePiragibeAbbreviation(row);
    ExampleNamesStrip();
  }
}
