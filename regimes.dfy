/** `SEAPBulletin._parse_regimes`: the standard name of a custody regime, by exact lookup in
    `regime_map`, with "Não Informado" for every cell the map does not know. */
module Regimes {
  import opened Table

  /** `regime_map`: the bulletin's regime labels and their standard names. */
  const RegimeMap: map<string, string> := map[
    "Aberto" := "Aberto",
    "Fechado" := "Fechado",
    "Med. de Seg." := "Medidas de Segurança",
    "Provisório" := "Provisório",
    "Semiaberto" := "Semiaberto"
  ]

  /** The values a standardised regime cell can take. */
  const Standard: set<string> :=
    {"Aberto", "Fechado", "Medidas de Segurança", "Provisório", "Semiaberto", NoInfo}

  /** `_parse_regimes(c)`: the dictionary lookup, whose `KeyError` (for an unknown label, a number
      or NaN alike) falls back to "Não Informado"; it never raises. */
  function ParseRegime(c: Cell): (r: string)
    ensures r in Standard
    ensures r == NoInfo <==> !(c.Text? && c.s in RegimeMap)
    ensures c.Text? && c.s in RegimeMap ==> r == RegimeMap[c.s]
  {
    if c.Text? && c.s in RegimeMap then RegimeMap[c.s] else NoInfo
  }

  /** The five labels of the bulletin, each with its standard name. */
  lemma KnownRegimes()
    ensures ParseRegime(Text("Aberto")) == "Aberto"
    ensures ParseRegime(Text("Fechado")) == "Fechado"
    ensures ParseRegime(Text("Med. de Seg.")) == "Medidas de Segurança"
    ensures ParseRegime(Text("Provisório")) == "Provisório"
    ensures ParseRegime(Text("Semiaberto")) == "Semiaberto"
  {
  }

  /** Labels that differ from a key, even only in spacing or case, and cells that are not text,
      are not informed. */
  lemma UnknownRegimes()
    ensures ParseRegime(Text("Aberto ")) == NoInfo
    ensures ParseRegime(Text("fechado")) == NoInfo
    ensures ParseRegime(Text("Medidas de Segurança")) == NoInfo
    ensures ParseRegime(Empty) == NoInfo && ParseRegime(Num(1)) == NoInfo
  {
    assert "Aberto " !in RegimeMap;
    assert "fechado" !in RegimeMap;
    assert "Medidas de Segurança" !in RegimeMap;
  }
}
