/** `get_sym` of parse.py: the ordered, first-match resolution of one interactor's
    accession, embedded gene name and alias to an official HUGO gene symbol. */
module Resolver {
  import opened Optional
  import opened Text
  import opened Patterns

  /** The object `hugo_gene_symbols.load()` returns, seen through the three
      members `get_sym` uses. Its loading and the body of `find_sym` are not part
      of this model: `findSym` is any function, and it is also called with `None`. */
  datatype SymbolTable = SymbolTable(
    official: set<string>,
    uniprot: map<string, string>,
    findSym: Option<string> -> Option<string>)

  /** Python's truth value of a `str`-or-`None`: `None` and `""` are false. */
  predicate Truthy(o: Option<string>)
  {
    o.Some? && o.value != ""
  }

  /** The raw values that stand for "no value" in the alias column and in the fallback test. */
  predicate IsSentinel(s: string)
  {
    s == "-" || s == "None"
  }

  /** The alias column with its sentinels read as absent. */
  function AliasOf(aliasS: string): (alias: Option<string>)
    ensures alias.None? <==> IsSentinel(aliasS)
    ensures alias.Some? ==> alias.value == aliasS
  {
    if IsSentinel(aliasS) then None else Some(aliasS)
  }

  /** Python's `x in H.official` for a `str`-or-`None` (`None` is never a member). */
  predicate IsOfficial(H: SymbolTable, o: Option<string>)
  {
    o.Some? && o.value in H.official
  }

  /** The extracted accession is a key of the accession-to-symbol map. */
  predicate AccessionHit(H: SymbolTable, protS: string)
  {
    MatchUniprot(protS).Some? && MatchUniprot(protS).value in H.uniprot
  }

  /** One of the three exact steps (accession, official gene name, official alias) succeeds. */
  predicate ExactHit(H: SymbolTable, protS: string, symS: string, aliasS: string)
  {
    AccessionHit(H, protS) || IsOfficial(H, MatchGeneName(symS)) || IsOfficial(H, AliasOf(aliasS))
  }

  /** `get_sym(H, prot_s, sym_s, alias_s, allow_miss)`. */
  function GetSym(H: SymbolTable, protS: string, symS: string, aliasS: string, allowMiss: bool): (r: Option<string>)
    // the accession map is authoritative whatever the other two columns hold
    ensures AccessionHit(H, protS) ==> r == Some(H.uniprot[MatchUniprot(protS).value])
    // every answer comes from the table, except the unverified gene name under allow_miss
    ensures r.Some? ==>
      || r.value in H.uniprot.Values
      || r.value in H.official
      || r == H.findSym(MatchGeneName(symS))
      || r == H.findSym(AliasOf(aliasS))
      || (allowMiss && r == MatchGeneName(symS))
  {
    var prot := MatchUniprot(protS);
    var sym := MatchGeneName(symS);
    var alias := AliasOf(aliasS);
    if prot.Some? && prot.value in H.uniprot then Some(H.uniprot[prot.value])
    else if sym.Some? && sym.value in H.official then sym
    else if alias.Some? && alias.value in H.official then alias
    else
      var s := H.findSym(sym);
      if Truthy(s) then s
      else
        var ss := H.findSym(alias);
        if Truthy(ss) then ss
        else if allowMiss && !(sym.Some? && IsSentinel(sym.value)) then sym
        else None
  }

  /** Without an accession hit, an official gene name wins, and failing that an official alias. */
  lemma OfficialNameBeforeAlias(H: SymbolTable, protS: string, symS: string, aliasS: string, allowMiss: bool)
    requires !AccessionHit(H, protS)
    ensures IsOfficial(H, MatchGeneName(symS)) ==> GetSym(H, protS, symS, aliasS, allowMiss) == MatchGeneName(symS)
    ensures !IsOfficial(H, MatchGeneName(symS)) && IsOfficial(H, AliasOf(aliasS)) ==>
      GetSym(H, protS, symS, aliasS, allowMiss) == Some(aliasS)
  {
  }

  /** The fuzzy lookups run only when no exact step matched, gene name first, then alias;
      an empty or missing answer from `find_sym` counts as a miss. */
  lemma FuzzyOrder(H: SymbolTable, protS: string, symS: string, aliasS: string, allowMiss: bool)
    requires !ExactHit(H, protS, symS, aliasS)
    ensures Truthy(H.findSym(MatchGeneName(symS))) ==>
      GetSym(H, protS, symS, aliasS, allowMiss) == H.findSym(MatchGeneName(symS))
    ensures !Truthy(H.findSym(MatchGeneName(symS))) && Truthy(H.findSym(AliasOf(aliasS))) ==>
      GetSym(H, protS, symS, aliasS, allowMiss) == H.findSym(AliasOf(aliasS))
  {
  }

  /** `allow_miss` only changes the answer when every table step failed, and then
      only to the extracted gene name, never to the alias. */
  lemma FallbackGating(H: SymbolTable, protS: string, symS: string, aliasS: string)
    ensures GetSym(H, protS, symS, aliasS, false).None? <==>
      !ExactHit(H, protS, symS, aliasS)
      && !Truthy(H.findSym(MatchGeneName(symS)))
      && !Truthy(H.findSym(AliasOf(aliasS)))
    ensures GetSym(H, protS, symS, aliasS, true) ==
      if GetSym(H, protS, symS, aliasS, false).Some? then GetSym(H, protS, symS, aliasS, false)
      else if MatchGeneName(symS).Some? && IsSentinel(MatchGeneName(symS).value) then None
      else MatchGeneName(symS)
  {
  }

  /** The first `Some` of an ordered list of candidate answers. */
  function FirstSome(candidates: seq<Option<string>>): (r: Option<string>)
    ensures r.Some? <==> exists k :: 0 <= k < |candidates| && candidates[k].Some?
    ensures r.Some? ==> r in candidates
  {
    if candidates == [] then None
    else if candidates[0].Some? then candidates[0]
    else FirstSome(candidates[1..])
  }

  /** The resolution policy as a flat list of strategies, each answering on its own:
      accession map, official gene name, official alias, fuzzy gene name, fuzzy
      alias, unverified gene name. */
  function Strategies(H: SymbolTable, protS: string, symS: string, aliasS: string, allowMiss: bool): seq<Option<string>>
  {
    var sym := MatchGeneName(symS);
    var alias := AliasOf(aliasS);
    [ if AccessionHit(H, protS) then Some(H.uniprot[MatchUniprot(protS).value]) else None,
      if IsOfficial(H, sym) then sym else None,
      if IsOfficial(H, alias) then alias else None,
      if Truthy(H.findSym(sym)) then H.findSym(sym) else None,
      if Truthy(H.findSym(alias)) then H.findSym(alias) else None,
      if allowMiss && !(sym.Some? && IsSentinel(sym.value)) then sym else None ]
  }

  /** `get_sym` is exactly "first strategy that answers wins". */
  lemma GetSymIsFirstMatch(H: SymbolTable, protS: string, symS: string, aliasS: string, allowMiss: bool)
    ensures GetSym(H, protS, symS, aliasS, allowMiss) == FirstSome(Strategies(H, protS, symS, aliasS, allowMiss))
  {
    var c := Strategies(H, protS, symS, aliasS, allowMiss);
    var c5 := c[5..];
    assert c5[1..] == [];
    assert FirstSome(c5) == c[5];
    var c4 := c[4..];
    assert c4[1..] == c5;
    assert FirstSome(c4) == if c[4].Some? then c[4] else c[5];
    var c3 := c[3..];
    assert c3[1..] == c4;
    var c2 := c[2..];
    assert c2[1..] == c3;
    var c1 := c[1..];
    assert c1[1..] == c2;
    assert FirstSome(c3) == if c[3].Some? then c[3] else FirstSome(c4);
    assert FirstSome(c2) == if c[2].Some? then c[2] else FirstSome(c3);
    assert FirstSome(c1) == if c[1].Some? then c[1] else FirstSome(c2);
    assert FirstSome(c) == if c[0].Some? then c[0] else FirstSome(c1);
  }

  /** An accession mapped to SEPT6 outranks an alias that is a different official symbol. */
  lemma AccessionOutranksAlias(H: SymbolTable, symS: string, allowMiss: bool)
    requires "Q14141" in H.uniprot && H.uniprot["Q14141"] == "SEPT6"
    requires "FOO" in H.official
    ensures GetSym(H, "uniprotkb:Q14141", symS, "FOO", allowMiss) == Some("SEPT6")
  {
    UniprotMatches("Q14141", "");
    assert UniprotPrefix + "Q14141" + "" == "uniprotkb:Q14141";
  }

  /** A gene name that no table step recognises is returned only under `allow_miss`. */
  lemma UnknownNameNeedsAllowMiss(H: SymbolTable, protS: string, name: string, aliasS: string)
    requires ')' !in name && !IsSentinel(name)
    requires !AccessionHit(H, protS)
    requires name !in H.official && !IsOfficial(H, AliasOf(aliasS))
    requires !Truthy(H.findSym(Some(name))) && !Truthy(H.findSym(AliasOf(aliasS)))
    ensures GetSym(H, protS, UniprotPrefix + name + GeneNameSuffix, aliasS, true) == Some(name)
    ensures GetSym(H, protS, UniprotPrefix + name + GeneNameSuffix, aliasS, false) == None
  {
    GeneNameMatches(name, "");
    assert UniprotPrefix + name + GeneNameSuffix + "" == UniprotPrefix + name + GeneNameSuffix;
  }
}
